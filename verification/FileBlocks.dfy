// Files as SQLite sees them and as the block store of web/sqflite_sw.js (`A.jk`, `A.lM`) keeps them:
// a length and 4096-byte blocks, addressed by their offset.

module FileContents {
  import opened Basics

  datatype Write = Write(offset: nat, data: Bytes) {
    function End(): nat {
      offset + |data|
    }

    predicate Covers(i: nat) {
      offset <= i < End()
    }

    /** Some byte of the block at p is written. */
    predicate Touches(p: nat) {
      p % 4096 == 0 && data != [] && p < End() && offset < p + 4096
    }
  }

  function At(content: Bytes, i: nat): Byte {
    if i < |content| then content[i] else 0
  }

  function Slice(content: Bytes, from: nat, n: nat): (r: Bytes)
    ensures |r| == n && forall i :: 0 <= i < n ==> r[i] == At(content, from + i)
  {
    if n == 0 then [] else Slice(content, from, n - 1) + [At(content, from + n - 1)]
  }

  function Max(a: nat, b: nat): nat {
    if a < b then b else a
  }

  /** The in-memory write (`A.i8.bN`): a gap before the data reads as zeros. */
  function MemWrite(content: Bytes, w: Write): (r: Bytes)
    ensures |r| == Max(|content|, w.End())
    ensures forall i :: 0 <= i < |r| ==> r[i] == if w.Covers(i) then w.data[i - w.offset] else At(content, i)
  {
    seq(Max(|content|, w.End()), i requires 0 <= i => if w.Covers(i) then w.data[i - w.offset] else At(content, i))
  }

  /** The in-memory resize (`A.i8.bM`). */
  function MemTruncate(content: Bytes, size: nat): (r: Bytes)
    ensures |r| == size && forall i :: 0 <= i < size ==> r[i] == At(content, i)
  {
    Slice(content, 0, size)
  }

  function MemWrites(content: Bytes, ws: seq<Write>): Bytes {
    if ws == [] then content else MemWrite(MemWrites(content, ws[..|ws| - 1]), ws[|ws| - 1])
  }

  lemma WritesSnoc(content: Bytes, ws: seq<Write>, w: Write)
    ensures MemWrites(content, ws + [w]) == MemWrite(MemWrites(content, ws), w)
  {
    assert (ws + [w])[..|ws|] == ws;
  }

  /** The block of a file that starts at p, filled up with zeros (`A.lN`). */
  function Page(content: Bytes, p: nat): (r: Bytes)
    ensures |r| == 4096 && forall i :: 0 <= i < 4096 ==> r[i] == At(content, p + i)
  {
    Slice(content, p, 4096)
  }

  lemma PageUntouched(content: Bytes, w: Write, p: nat)
    requires p % 4096 == 0 && !w.Touches(p)
    ensures Page(MemWrite(content, w), p) == Page(content, p)
  {
  }

  /** The blocks that a write touches. */
  function Touched(w: Write): (s: set<nat>)
    ensures forall p :: p in s <==> w.Touches(p)
  {
    set p: nat | 0 <= p < w.End() && w.Touches(p)
  }

  function TouchedByAll(ws: seq<Write>): (s: set<nat>)
    ensures forall p :: p in s ==> p % 4096 == 0
  {
    if ws == [] then {} else TouchedByAll(ws[..|ws| - 1]) + Touched(ws[|ws| - 1])
  }

  lemma TouchedSnoc(ws: seq<Write>, w: Write)
    ensures TouchedByAll(ws + [w]) == TouchedByAll(ws) + Touched(w)
  {
    assert (ws + [w])[..|ws|] == ws;
  }

  // ----- stored files

  datatype FileRecord = FileRecord(length: nat, blocks: map<nat, Bytes>)

  function PagesOf(content: Bytes, ps: set<nat>): (m: map<nat, Bytes>)
    ensures m.Keys == ps && forall p :: p in ps ==> m[p] == Page(content, p)
  {
    map p | p in ps :: Page(content, p)
  }

  /** A write item (`A.cw.E`, `A.jk.ah`): the touched blocks take the new content, and the length is
      that of the new content. */
  function Patched(rec: FileRecord, content: Bytes, ps: set<nat>): FileRecord {
    FileRecord(|content|, rec.blocks + PagesOf(content, ps))
  }

  /** `A.jk.al`: when the file shrinks, the blocks behind the new last one go; that one stays whole. */
  function Truncated(rec: FileRecord, size: nat): FileRecord {
    FileRecord(size,
      if rec.length > size then map p | p in rec.blocks && p <= size / 4096 * 4096 :: rec.blocks[p] else rec.blocks)
  }

  /** What the store holds for byte i, whether or not the length reaches it. */
  function Stored(rec: FileRecord, i: nat): Byte {
    var p := i / 4096 * 4096;
    if p in rec.blocks then At(rec.blocks[p], i - p) else 0
  }

  /** Blocks start at multiples of 4096, hold 4096 bytes and never start behind the end of the file. */
  ghost predicate Shaped(rec: FileRecord) {
    forall p :: p in rec.blocks ==> p % 4096 == 0 && |rec.blocks[p]| == 4096 && p <= rec.length
  }

  /** `A.jk.aD`; None where copying a block would throw. */
  function ReadBack(rec: FileRecord): Option<Bytes> {
    if forall p :: p in rec.blocks ==> p <= rec.length
    then Some(seq(rec.length, i requires 0 <= i => Stored(rec, i)))
    else None
  }

  /** The stored file reads back as this content. */
  ghost predicate Holds(rec: FileRecord, content: Bytes) {
    Shaped(rec) && ReadBack(rec) == Some(content)
  }

  lemma HoldsBytes(rec: FileRecord, content: Bytes)
    requires Shaped(rec)
    ensures Holds(rec, content) <==>
      rec.length == |content| && forall i :: 0 <= i < |content| ==> Stored(rec, i) == content[i]
  {
    var r := ReadBack(rec).value;
    if Holds(rec, content) {
      assert forall i :: 0 <= i < |content| ==> r[i] == Stored(rec, i);
    }
    if rec.length == |content| && forall i :: 0 <= i < |content| ==> Stored(rec, i) == content[i] {
      assert r == content;
    }
  }

  /** Bytes between the old end of file and the start of a write that the write leaves to the store. */
  ghost predicate GapIsClean(rec: FileRecord, from: nat, to: nat, touched: set<nat>) {
    forall i :: from <= i < to && i / 4096 * 4096 !in touched ==> Stored(rec, i) == 0
  }

  lemma StoredAfterPatch(rec: FileRecord, content: Bytes, ps: set<nat>, i: nat)
    requires Shaped(rec)
    ensures Stored(Patched(rec, content, ps), i) ==
      if i / 4096 * 4096 in ps then At(content, i) else Stored(rec, i)
  {
  }

  lemma TruncatedShaped(rec: FileRecord, size: nat)
    requires Shaped(rec)
    ensures Shaped(Truncated(rec, size)) && Truncated(rec, size).length == size
  {
  }

  /** Which blocks a change of size leaves: all of them, if the file does not shrink; otherwise those up to the one
      in which the new end lies, and that one as a whole. */
  lemma EndBlockStays(rec: FileRecord, size: nat, p: nat)
    requires p in rec.blocks && p % 4096 == 0
    ensures p in Truncated(rec, size).blocks <==> size >= rec.length || p <= size
    ensures p in Truncated(rec, size).blocks ==> Truncated(rec, size).blocks[p] == rec.blocks[p]
  {
  }

  /** A well-shaped file can be read back, in its full length. */
  lemma ShapedReads(rec: FileRecord)
    requires Shaped(rec)
    ensures ReadBack(rec).Some? && |ReadBack(rec).value| == rec.length
  {
  }

  lemma StillShaped(rec: FileRecord, content: Bytes, w: Write)
    requires Shaped(rec) && rec.length == |content|
    ensures Shaped(Patched(rec, MemWrite(content, w), Touched(w)))
    ensures Patched(rec, MemWrite(content, w), Touched(w)).length == |MemWrite(content, w)|
  {
  }

  /** One byte after a write. */
  lemma ByteAgreesIff(rec: FileRecord, content: Bytes, w: Write, i: nat)
    requires Shaped(rec) && rec.length == |content| && forall j :: 0 <= j < |content| ==> Stored(rec, j) == content[j]
    requires i < |MemWrite(content, w)|
    ensures Stored(Patched(rec, MemWrite(content, w), Touched(w)), i) == MemWrite(content, w)[i] <==>
      (|content| <= i < w.offset && i / 4096 * 4096 !in Touched(w) ==> Stored(rec, i) == 0)
  {
    hide Stored, Patched, Shaped;
    StoredAfterPatch(rec, MemWrite(content, w), Touched(w), i);
    if i / 4096 * 4096 !in Touched(w) {
      assert i / 4096 * 4096 <= i < i / 4096 * 4096 + 4096;
      assert !w.Covers(i);
    }
  }

  /** Exactly when a write keeps the stored file equal to the one in memory. */
  lemma WriteAgreesIff(rec: FileRecord, content: Bytes, w: Write)
    requires Holds(rec, content)
    ensures var rec' := Patched(rec, MemWrite(content, w), Touched(w));
      && Shaped(rec')
      && (Holds(rec', MemWrite(content, w)) <==> GapIsClean(rec, |content|, w.offset, Touched(w)))
  {
    HoldsBytes(rec, content);
    StillShaped(rec, content, w);
    hide Stored, Patched, Shaped, Touched;
    var content' := MemWrite(content, w);
    var rec' := Patched(rec, content', Touched(w));
    HoldsBytes(rec', content');
    forall i: nat | i < |content'|
      ensures Stored(rec', i) == content'[i] <==>
        (|content| <= i < w.offset && i / 4096 * 4096 !in Touched(w) ==> Stored(rec, i) == 0)
    {
      ByteAgreesIff(rec, content, w, i);
    }
    assert w.offset <= |content'|;
  }

  lemma StoredAfterTruncate(rec: FileRecord, size: nat, i: nat)
    requires i < size
    ensures Stored(Truncated(rec, size), i) == Stored(rec, i)
  {
    assert i / 4096 * 4096 <= size / 4096 * 4096;
  }

  /** Exactly when a change of size does. */
  lemma TruncateAgreesIff(rec: FileRecord, content: Bytes, size: nat)
    requires Holds(rec, content)
    ensures Shaped(Truncated(rec, size))
    ensures Holds(Truncated(rec, size), MemTruncate(content, size)) <==> GapIsClean(rec, |content|, size, {})
  {
    var rec', content' := Truncated(rec, size), MemTruncate(content, size);
    HoldsBytes(rec, content);
    TruncatedShaped(rec, size);
    hide Stored, Truncated, Shaped, Holds;
    HoldsBytes(rec', content');
    forall i | 0 <= i < size ensures Stored(rec', i) == Stored(rec, i) {
      StoredAfterTruncate(rec, size, i);
    }
  }

  /** Two bytes, cut down to one: the second one is still stored. */
  function CutDown(): FileRecord {
    Truncated(Patched(FileRecord(0, map[]), [7, 7], {0}), 1)
  }

  lemma StaleByte()
    ensures Holds(CutDown(), [7]) && Stored(CutDown(), 1) == 7
  {
    var full := Patched(FileRecord(0, map[]), [7, 7], {0});
    assert Shaped(full) && CutDown().blocks == full.blocks;
    assert Stored(CutDown(), 0) == 7 && Stored(CutDown(), 1) == 7;
    HoldsBytes(CutDown(), [7]);
  }

  /** Stale bytes behind a truncation do show when a write into the next block leaves a gap over them. */
  lemma StaleBytesShow()
    ensures var rec, w := CutDown(), Write(4096, [9]);
      Holds(rec, [7]) && !Holds(Patched(rec, MemWrite([7], w), Touched(w)), MemWrite([7], w))
  {
    hide MemWrite, Patched, Truncated, Page, PagesOf, CutDown;
    StaleByte();
    WriteAgreesIff(CutDown(), [7], Write(4096, [9]));
    assert !Write(4096, [9]).Touches(0) && 1 / 4096 * 4096 == 0;
  }

  /** And when the file is made longer again. */
  lemma StaleBytesGrowBack()
    ensures Holds(CutDown(), [7]) && !Holds(Truncated(CutDown(), 2), MemTruncate([7], 2))
  {
    hide MemTruncate, Patched, Truncated, Page, PagesOf, CutDown;
    StaleByte();
    TruncateAgreesIff(CutDown(), [7], 2);
    assert 1 / 4096 * 4096 == 0;
  }
}

/** `A.lM`: collects the new blocks of one write item. */
module BlockWriters {
  import opened Basics
  import opened FileContents

  lemma UntouchedByAll(content: Bytes, ws: seq<Write>, p: nat)
    requires p % 4096 == 0 && p !in TouchedByAll(ws)
    ensures Page(MemWrites(content, ws), p) == Page(content, p)
  {
    if ws != [] {
      UntouchedByAll(content, ws[..|ws| - 1], p);
      PageUntouched(MemWrites(content, ws[..|ws| - 1]), ws[|ws| - 1], p);
    }
  }

  /** The part of a write that is done after its first r bytes. */
  function Prefix(w: Write, r: nat): Write
    requires r <= |w.data|
  {
    Write(w.offset, w.data[..r])
  }

  /** One more chunk changes exactly its own bytes. */
  lemma ChunkAt(content: Bytes, w: Write, r: nat, m: nat, j: nat)
    requires r + m <= |w.data|
    ensures At(MemWrite(content, Prefix(w, r + m)), j) ==
      (if w.offset + r <= j < w.offset + r + m then w.data[j - w.offset] else At(MemWrite(content, Prefix(w, r)), j))
  {
    var u, v := Prefix(w, r), Prefix(w, r + m);
    assert v.Covers(j) ==> v.data[j - w.offset] == w.data[j - w.offset];
    assert u.Covers(j) ==> u.data[j - w.offset] == w.data[j - w.offset];
  }

  lemma SamePage(x: Bytes, y: Bytes, p: nat)
    requires forall j :: p <= j < p + 4096 ==> At(x, j) == At(y, j)
    ensures Page(x, p) == Page(y, p)
  {
    forall i | 0 <= i < 4096 ensures Page(x, p)[i] == Page(y, p)[i] {
      assert At(x, p + i) == At(y, p + i);
    }
  }

  /** A chunk inside the block at p touches no other block. */
  lemma ChunkInBlock(content: Bytes, w: Write, r: nat, m: nat, p: nat, q: nat)
    requires r + m <= |w.data| && m > 0 && p % 4096 == 0 && q % 4096 == 0 && q != p
    requires p <= w.offset + r && w.offset + r + m <= p + 4096
    ensures Page(MemWrite(content, Prefix(w, r + m)), q) == Page(MemWrite(content, Prefix(w, r)), q)
    ensures Prefix(w, r + m).Touches(q) <==> Prefix(w, r).Touches(q)
    ensures Prefix(w, r + m).Touches(p)
  {
    assert q + 4096 <= p || p + 4096 <= q;
    forall j: nat | q <= j < q + 4096
      ensures At(MemWrite(content, Prefix(w, r + m)), j) == At(MemWrite(content, Prefix(w, r)), j)
    {
      ChunkAt(content, w, r, m, j);
    }
    SamePage(MemWrite(content, Prefix(w, r + m)), MemWrite(content, Prefix(w, r)), q);
  }

  /** A block with a chunk put at offset o. */
  function Splice(base: Bytes, o: nat, chunk: Bytes): (r: Bytes)
    requires |base| == 4096 && o + |chunk| <= 4096
    ensures |r| == 4096
    ensures forall i :: 0 <= i < 4096 ==> r[i] == if o <= i < o + |chunk| then chunk[i - o] else base[i]
  {
    base[..o] + chunk + base[o + |chunk|..]
  }

  /** `ht` in `fw`: the block so far, or a new one from the original content. */
  function Base(original: Bytes, blocks: map<nat, Bytes>, p: nat): Bytes {
    if p in blocks then blocks[p] else Page(original, p)
  }

  /** Between two chunks the touched blocks hold the content written so far. */
  ghost predicate Written(original: Bytes, blocks: map<nat, Bytes>, w: Write, r: nat, ws: seq<Write>)
    requires r <= |w.data|
  {
    && blocks.Keys == TouchedByAll(ws) + Touched(Prefix(w, r))
    && forall p :: p in blocks ==> blocks[p] == Page(MemWrite(MemWrites(original, ws), Prefix(w, r)), p)
  }

  lemma BaseIsPage(original: Bytes, blocks: map<nat, Bytes>, w: Write, r: nat, ws: seq<Write>, p: nat)
    requires r <= |w.data| && p % 4096 == 0 && Written(original, blocks, w, r, ws)
    ensures Base(original, blocks, p) == Page(MemWrite(MemWrites(original, ws), Prefix(w, r)), p)
  {
    if p !in blocks {
      UntouchedByAll(original, ws, p);
      PageUntouched(MemWrites(original, ws), Prefix(w, r), p);
    }
  }

  lemma SplicedPage(content: Bytes, w: Write, r: nat, m: nat, p: nat, o: nat)
    requires r + m <= |w.data| && p + o == w.offset + r && o + m <= 4096
    ensures Splice(Page(MemWrite(content, Prefix(w, r)), p), o, w.data[r..r + m]) ==
      Page(MemWrite(content, Prefix(w, r + m)), p)
  {
    var u, v := MemWrite(content, Prefix(w, r)), MemWrite(content, Prefix(w, r + m));
    var x := Splice(Page(u, p), o, w.data[r..r + m]);
    forall i | 0 <= i < 4096 ensures x[i] == Page(v, p)[i] {
      ChunkAt(content, w, r, m, p + i);
      assert Page(v, p)[i] == At(v, p + i) && Page(u, p)[i] == At(u, p + i);
    }
  }

  /** One turn of the loop of `fD`. */
  lemma ChunkStep(original: Bytes, blocks: map<nat, Bytes>, w: Write, r: nat, m: nat, p: nat, o: nat, ws: seq<Write>)
    requires 0 < m && r + m <= |w.data| && p % 4096 == 0 && p + o == w.offset + r && o + m <= 4096
    requires Written(original, blocks, w, r, ws)
    ensures |Base(original, blocks, p)| == 4096
    ensures Written(original, blocks[p := Splice(Base(original, blocks, p), o, w.data[r..r + m])], w, r + m, ws)
  {
    hide MemWrite, MemWrites, Page, Splice, Base, Write.Touches;
    var content := MemWrites(original, ws);
    BaseIsPage(original, blocks, w, r, ws, p);
    SplicedPage(content, w, r, m, p, o);
    ChunkInBlock(content, w, r, m, p, p + 4096);
    forall q: nat | q % 4096 == 0 && q != p
      ensures Page(MemWrite(content, Prefix(w, r + m)), q) == Page(MemWrite(content, Prefix(w, r)), q)
      ensures q in Touched(Prefix(w, r + m)) <==> q in Touched(Prefix(w, r))
    {
      ChunkInBlock(content, w, r, m, p, q);
    }
    TouchedAligned(Prefix(w, r + m));
    TouchedAligned(Prefix(w, r));
  }

  lemma TouchedAligned(w: Write)
    ensures forall p :: p in Touched(w) ==> p % 4096 == 0
  {
  }

  lemma NothingYet(original: Bytes, w: Write, ws: seq<Write>)
    ensures Written(original, PagesOf(MemWrites(original, ws), TouchedByAll(ws)), w, 0, ws)
  {
    forall p | p in TouchedByAll(ws)
      ensures Page(MemWrites(original, ws), p) == Page(MemWrite(MemWrites(original, ws), Prefix(w, 0)), p)
    {
      PageUntouched(MemWrites(original, ws), Prefix(w, 0), p);
    }
  }

  lemma AllWritten(original: Bytes, blocks: map<nat, Bytes>, w: Write, ws: seq<Write>)
    requires Written(original, blocks, w, |w.data|, ws)
    ensures blocks == PagesOf(MemWrites(original, ws + [w]), TouchedByAll(ws + [w]))
    ensures |MemWrites(original, ws + [w])| == Max(|MemWrites(original, ws)|, w.End())
  {
    assert Prefix(w, |w.data|) == w;
    WritesSnoc(original, ws, w);
    TouchedSnoc(ws, w);
  }

  class BlockWriter {
    const original: Bytes
    var blocks: map<nat, Bytes>
    var length: nat

    constructor (original: Bytes)
      ensures this.original == original && Represents([])
    {
      this.original := original;
      blocks, length := map[], |original|;
    }

    /** The state after these writes. */
    ghost predicate Represents(ws: seq<Write>)
      reads this
    {
      && length == |MemWrites(original, ws)|
      && blocks == PagesOf(MemWrites(original, ws), TouchedByAll(ws))
    }

    /** `fw`. */
    method PutChunk(p: nat, o: nat, chunk: Bytes)
      requires |Base(original, blocks, p)| == 4096 && o + |chunk| <= 4096
      modifies this`blocks
      ensures blocks == old(blocks)[p := Splice(Base(original, old(blocks), p), o, chunk)]
    {
      var base := if p in blocks then blocks[p] else Page(original, p);
      blocks := blocks[p := Splice(base, o, chunk)];
    }

    /** `fD`. */
    method Add(w: Write, ghost ws: seq<Write>)
      requires Represents(ws)
      modifies this
      ensures Represents(ws + [w])
    {
      hide MemWrite, MemWrites, Page, PagesOf, Splice, Base, Written;
      var s, r := |w.data|, 0;
      NothingYet(original, w, ws);
      while r < s
        invariant 0 <= r <= s && length == |MemWrites(original, ws)| && Written(original, blocks, w, r, ws)
      {
        var q := w.offset + r;
        var p, o, n := q / 4096, q % 4096, s - r;
        var m := if o != 0 then (if 4096 - o < n then 4096 - o else n) else if n < 4096 then n else 4096;
        ChunkStep(original, blocks, w, r, m, p * 4096, o, ws);
        PutChunk(p * 4096, o, w.data[r..r + m]);
        r := r + m;
      }
      AllWritten(original, blocks, w, ws);
      length := Max(length, w.offset + s);
    }
  }
}
