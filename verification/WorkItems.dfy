// The work items of the IndexedDB file system in web/sqflite_sw.js (`A.cp`, `A.dd`, `A.de`, `A.cw`):
// what each does to the stored files, and why merging and cancelling pending ones is sound.

module WorkItems {
  import opened Basics
  import opened FileContents

  type Store = map<string, FileRecord>

  datatype Item =
    | Create(name: string)
    | Delete(name: string)
    | Flush
    | Resize(name: string, size: nat)
    | WriteTo(name: string, original: Bytes, writes: seq<Write>)
  {
    predicate About(f: string) {
      !Flush? && name == f
    }
  }

  function Get(st: Store, f: string): Option<FileRecord> {
    if f in st then Some(st[f]) else None
  }

  function Put(st: Store, f: string, r: Option<FileRecord>): Store {
    match r
    case None => st - {f}
    case Some(rec) => st[f := rec]
  }

  /** Without this condition the item fails and has no effect: a name that is taken, or a file not found. */
  predicate Enabled(it: Item, o: Option<FileRecord>) {
    it.Flush? || (it.Create? <==> o.None?)
  }

  /** What an item does to its file. */
  function Effect(it: Item, o: Option<FileRecord>): Option<FileRecord> {
    if !Enabled(it, o) then o
    else match it
      case Create(_) => Some(FileRecord(0, map[]))
      case Delete(_) => None
      case Flush => o
      case Resize(_, size) => Some(Truncated(o.value, size))
      case WriteTo(_, original, ws) => Some(Patched(o.value, MemWrites(original, ws), TouchedByAll(ws)))
  }

  function Apply(it: Item, st: Store): Store {
    if it.Flush? then st else Put(st, it.name, Effect(it, Get(st, it.name)))
  }

  /** Running items one after the other. */
  function Drain(items: seq<Item>, st: Store): Store {
    if items == [] then st else Apply(items[|items| - 1], Drain(items[..|items| - 1], st))
  }

  /** No create among them finds its name taken. */
  predicate NamesFree(items: seq<Item>, st: Store) {
    items == [] ||
    (NamesFree(items[..|items| - 1], st) &&
     var it, st' := items[|items| - 1], Drain(items[..|items| - 1], st);
     it.Create? ==> it.name !in st')
  }

  lemma {:induction false} DrainConcat(a: seq<Item>, b: seq<Item>, st: Store)
    ensures Drain(a + b, st) == Drain(b, Drain(a, st))
    ensures NamesFree(a + b, st) <==> NamesFree(a, st) && NamesFree(b, Drain(a, st))
  {
    if b == [] {
      assert a + b == a;
    } else {
      DrainConcat(a, b[..|b| - 1], st);
      assert (a + b)[..|a + b| - 1] == a + b[..|b| - 1];
    }
  }

  // ----- each file has a history of its own

  /** The items about one file, in order. */
  function History(items: seq<Item>, f: string): (h: seq<Item>)
    ensures forall i :: 0 <= i < |h| ==> h[i].About(f)
  {
    if items == [] then []
    else
      var h := History(items[..|items| - 1], f);
      if items[|items| - 1].About(f) then h + [items[|items| - 1]] else h
  }

  function Fold(h: seq<Item>, o: Option<FileRecord>): Option<FileRecord> {
    if h == [] then o else Effect(h[|h| - 1], Fold(h[..|h| - 1], o))
  }

  predicate NameFree(h: seq<Item>, o: Option<FileRecord>) {
    h == [] || (NameFree(h[..|h| - 1], o) && (h[|h| - 1].Create? ==> Fold(h[..|h| - 1], o).None?))
  }

  lemma ApplyAt(it: Item, st: Store, f: string)
    ensures Get(Apply(it, st), f) == if it.About(f) then Effect(it, Get(st, f)) else Get(st, f)
  {
    hide Effect;
  }

  lemma {:induction false} DrainByFile(items: seq<Item>, st: Store, f: string)
    ensures Get(Drain(items, st), f) == Fold(History(items, f), Get(st, f))
  {
    hide Effect, Apply, Get;
    if items != [] {
      var n := |items| - 1;
      DrainByFile(items[..n], st, f);
      ApplyAt(items[n], Drain(items[..n], st), f);
      FoldSnoc(History(items[..n], f), items[n], Get(st, f));
    }
  }

  lemma {:induction false} NamesFreeByFile(items: seq<Item>, st: Store, f: string)
    requires NamesFree(items, st)
    ensures NameFree(History(items, f), Get(st, f))
  {
    if items != [] {
      var n := |items| - 1;
      NamesFreeByFile(items[..n], st, f);
      DrainByFile(items[..n], st, f);
      var h := History(items[..n], f);
      if items[n].About(f) {
        assert (h + [items[n]])[..|h|] == h;
      }
    }
  }

  lemma FreeBeforeLast(items: seq<Item>, st: Store, f: string)
    requires items != [] && NameFree(History(items, f), Get(st, f))
    ensures var n := |items| - 1; var h := History(items[..n], f);
      && NameFree(h, Get(st, f))
      && (items[n].Create? && items[n].About(f) ==> Fold(h, Get(st, f)).None?)
  {
    hide Fold, Effect;
    var n := |items| - 1;
    var h := History(items[..n], f);
    if items[n].About(f) { assert (h + [items[n]])[..|h|] == h; }
  }

  lemma {:induction false} AllNamesFree(items: seq<Item>, st: Store)
    requires forall f :: NameFree(History(items, f), Get(st, f))
    ensures NamesFree(items, st)
  {
    if items != [] {
      var n := |items| - 1;
      forall f ensures NameFree(History(items[..n], f), Get(st, f)) {
        FreeBeforeLast(items, st, f);
      }
      AllNamesFree(items[..n], st);
      if items[n].Create? {
        var f := items[n].name;
        DrainByFile(items[..n], st, f);
        FreeBeforeLast(items, st, f);
      }
    }
  }

  lemma StoresEqual(s: Store, t: Store)
    requires forall f :: Get(s, f) == Get(t, f)
    ensures s == t
  {
    forall f ensures f in s <==> f in t {
      assert Get(s, f) == Get(t, f);
    }
    forall f | f in s ensures s[f] == t[f] {
      assert Get(s, f) == Get(t, f);
    }
  }

  lemma {:induction false} HistoryConcat(a: seq<Item>, b: seq<Item>, f: string)
    ensures History(a + b, f) == History(a, f) + History(b, f)
  {
    if b == [] {
      assert a + b == a;
    } else {
      var n := |b| - 1;
      HistoryConcat(a, b[..n], f);
      assert (a + b)[..|a + b| - 1] == a + b[..n];
      assert History(a, f) + (History(b[..n], f) + [b[n]]) == History(a, f) + History(b[..n], f) + [b[n]];
    }
  }

  lemma {:induction false} HistoryNone(items: seq<Item>, f: string)
    requires forall i :: 0 <= i < |items| ==> !items[i].About(f)
    ensures History(items, f) == []
  {
    if items != [] { HistoryNone(items[..|items| - 1], f); }
  }

  lemma HistoryOne(it: Item, f: string)
    ensures History([it], f) == if it.About(f) then [it] else []
  {
    assert [it][..0] == [];
  }

  /** History around one item. */
  lemma HistoryAround(a: seq<Item>, it: Item, b: seq<Item>, f: string)
    ensures History(a + [it] + b, f) == History(a, f) + (if it.About(f) then [it] else []) + History(b, f)
    ensures History(a + b, f) == History(a, f) + History(b, f)
  {
    HistoryConcat(a + [it], b, f);
    HistoryConcat(a, [it], f);
    HistoryOne(it, f);
    HistoryConcat(a, b, f);
  }

  lemma HistoryWithout(a: seq<Item>, it: Item, b: seq<Item>, f: string)
    requires !it.About(f)
    ensures History(a + [it] + b, f) == History(a + b, f)
  {
    HistoryAround(a, it, b, f);
    assert History(a, f) + [] == History(a, f);
  }

  lemma HistoryLast(a: seq<Item>, it: Item, b: seq<Item>, f: string)
    requires it.About(f) && History(b, f) == []
    ensures History(a + [it] + b, f) == History(a, f) + [it]
    ensures History(a + b, f) == History(a, f)
  {
    HistoryAround(a, it, b, f);
    assert History(a, f) + [it] + [] == History(a, f) + [it];
    assert History(a, f) + [] == History(a, f);
  }

  lemma FoldSnoc(h: seq<Item>, it: Item, o: Option<FileRecord>)
    ensures Fold(h + [it], o) == Effect(it, Fold(h, o))
    ensures NameFree(h + [it], o) <==> NameFree(h, o) && (it.Create? ==> Fold(h, o).None?)
  {
    assert (h + [it])[..|h|] == h;
  }

  // ----- memory changing under queued writes

  /** An in-place write: the array keeps its length. */
  predicate InPlace(content: Bytes, w: Write) {
    w.End() <= |content|
  }

  /** h' is h after the write w went through arrays that some queued writes still refer to. */
  ghost predicate Mutated(h: seq<Item>, h': seq<Item>, w: Write) {
    && |h'| == |h|
    && forall i :: 0 <= i < |h| ==>
      || h'[i] == h[i]
      || (h[i].WriteTo? && InPlace(h[i].original, w)
          && h'[i] == WriteTo(h[i].name, MemWrite(h[i].original, w), h[i].writes))
  }

  /** The same block, except that bytes of w may show. */
  ghost predicate SameBlock(x: Bytes, y: Bytes, p: nat, w: Write) {
    if w.Touches(p)
    then |y| == |x| && forall k :: 0 <= k < |x| ==>
      y[k] == x[k] || (w.Covers(p + k) && y[k] == w.data[p + k - w.offset])
    else y == x
  }

  /** The same file, except that bytes of w may show in the blocks that it touches. */
  ghost predicate SameOutside(o: Option<FileRecord>, o': Option<FileRecord>, w: Write) {
    match (o, o')
    case (None, None) => true
    case (Some(r), Some(r')) =>
      && r.length == r'.length && r.blocks.Keys == r'.blocks.Keys
      && forall p :: p in r.blocks ==> SameBlock(r.blocks[p], r'.blocks[p], p, w)
    case _ => false
  }

  /** Writes on top of contents that agree at i agree at i. */
  lemma {:induction false} WritesAgreeAt(x: Bytes, y: Bytes, ws: seq<Write>, i: nat)
    requires |x| == |y| && At(x, i) == At(y, i)
    ensures |MemWrites(x, ws)| == |MemWrites(y, ws)| && At(MemWrites(x, ws), i) == At(MemWrites(y, ws), i)
  {
    if ws != [] { WritesAgreeAt(x, y, ws[..|ws| - 1], i); }
  }

  lemma WritesSameLength(x: Bytes, y: Bytes, ws: seq<Write>)
    requires |x| == |y|
    ensures |MemWrites(x, ws)| == |MemWrites(y, ws)|
  {
    if ws != [] { WritesSameLength(x, y, ws[..|ws| - 1]); }
  }

  /** Writes on top of an array that w went through: each byte is what it would have been, or that of w. */
  lemma {:induction false} WritesShowAt(original: Bytes, ws: seq<Write>, w: Write, i: nat)
    requires InPlace(original, w)
    ensures var x, y := At(MemWrites(original, ws), i), At(MemWrites(MemWrite(original, w), ws), i);
      y == x || (w.Covers(i) && y == w.data[i - w.offset])
  {
    WritesSameLength(original, MemWrite(original, w), ws);
    if ws != [] {
      WritesSameLength(original, MemWrite(original, w), ws[..|ws| - 1]);
      WritesShowAt(original, ws[..|ws| - 1], w, i);
    }
  }

  lemma MutatedPage(original: Bytes, ws: seq<Write>, w: Write, p: nat)
    requires InPlace(original, w) && p % 4096 == 0
    ensures SameBlock(Page(MemWrites(original, ws), p), Page(MemWrites(MemWrite(original, w), ws), p), p, w)
  {
    hide MemWrites, MemWrite, InPlace;
    var x, y := MemWrites(original, ws), MemWrites(MemWrite(original, w), ws);
    forall k | 0 <= k < 4096
      ensures Page(y, p)[k] == Page(x, p)[k] ||
        (w.Touches(p) && w.Covers(p + k) && Page(y, p)[k] == w.data[p + k - w.offset])
    {
      WritesShowAt(original, ws, w, p + k);
      assert Page(x, p)[k] == At(x, p + k) && Page(y, p)[k] == At(y, p + k);
    }
  }

  lemma Unmutated(w: Write)
    ensures forall x, p :: SameBlock(x, x, p, w)
  {
  }

  lemma MutatedEffect(it: Item, it': Item, o: Option<FileRecord>, o': Option<FileRecord>, w: Write)
    requires SameOutside(o, o', w)
    requires it' == it ||
      (it.WriteTo? && InPlace(it.original, w) && it' == WriteTo(it.name, MemWrite(it.original, w), it.writes))
    ensures Enabled(it, o) <==> Enabled(it', o')
    ensures SameOutside(Effect(it, o), Effect(it', o'), w)
  {
    hide SameBlock, MemWrites, MemWrite, Page, Write.Touches;
    Unmutated(w);
    if it.WriteTo? && it' != it {
      WritesSameLength(it.original, MemWrite(it.original, w), it.writes);
      forall p | p in TouchedByAll(it.writes)
        ensures SameBlock(Page(MemWrites(it.original, it.writes), p),
          Page(MemWrites(MemWrite(it.original, w), it.writes), p), p, w)
      {
        MutatedPage(it.original, it.writes, w, p);
      }
    }
  }

  /** Mutation of captured arrays changes nothing but bytes that the new write will write anyway. */
  lemma {:induction false} FoldMutated(h: seq<Item>, h': seq<Item>, o: Option<FileRecord>, w: Write)
    requires Mutated(h, h', w)
    ensures SameOutside(Fold(h, o), Fold(h', o), w)
    ensures NameFree(h, o) <==> NameFree(h', o)
  {
    if h != [] {
      var n := |h| - 1;
      FoldMutated(h[..n], h'[..n], o, w);
      MutatedEffect(h[n], h'[n], Fold(h[..n], o), Fold(h'[..n], o), w);
    }
  }

  /** Writing again what is already there changes nothing. */
  lemma WriteTwice(content: Bytes, w: Write)
    requires InPlace(content, w)
    ensures MemWrite(MemWrite(content, w), w) == MemWrite(content, w)
  {
  }

  /** The merged item's content: the queued writes replayed over an array that has them already, and
      the new write, then the new write again. */
  lemma ReplayInPlace(content: Bytes, ws: seq<Write>, w: Write)
    requires InPlace(content, w) && MemWrites(content, ws) == content
    ensures MemWrite(MemWrites(MemWrite(content, w), ws), w) == MemWrite(content, w)
  {
    var x, y := MemWrite(MemWrites(MemWrite(content, w), ws), w), MemWrite(content, w);
    WritesSameLength(content, MemWrite(content, w), ws);
    forall i | 0 <= i < |y| ensures x[i] == y[i] {
      if !w.Covers(i) {
        WritesAgreeAt(MemWrite(content, w), content, ws, i);
      }
    }
  }

  // ----- the three coalescing rules, on one file's history

  /** A write that finds no earlier one is queued with the array as it is after the write. */
  lemma WriteAppended(h: seq<Item>, h': seq<Item>, o: Option<FileRecord>, f: string, content: Bytes, now: Bytes,
                      w: Write)
    requires Mutated(h, h', w)
    requires now == content || (InPlace(content, w) && now == MemWrite(content, w))
    ensures Fold(h' + [WriteTo(f, now, [w])], o) == Effect(WriteTo(f, content, [w]), Fold(h, o))
    ensures NameFree(h, o) ==> NameFree(h' + [WriteTo(f, now, [w])], o)
  {
    FoldMutated(h, h', o, w);
    FoldSnoc(h', WriteTo(f, now, [w]), o);
    if now != content { WriteTwice(content, w); }
    OneWrite(content, w);
    OneWrite(now, w);
    if Fold(h, o).Some? {
      assert Fold(h', o).value.blocks + PagesOf(MemWrite(content, w), Touched(w))
          == Fold(h, o).value.blocks + PagesOf(MemWrite(content, w), Touched(w));
    }
  }

  lemma OneWrite(content: Bytes, w: Write)
    ensures MemWrites(content, [w]) == MemWrite(content, w) && TouchedByAll([w]) == Touched(w)
  {
    assert [w] == [] + [w];
    WritesSnoc(content, [], w);
    TouchedSnoc([], w);
  }

  /** A write that finds a pending one of the same file is merged into it; for a file that is not stored
      both fail. */
  lemma WriteMerged(h: seq<Item>, h': seq<Item>, o: Option<FileRecord>, it: Item, it': Item, content: Bytes, w: Write)
    requires it.WriteTo? && (Fold(h, o).Some? ==> MemWrites(it.original, it.writes) == content)
    requires it'.WriteTo? && it'.writes == it.writes + [w]
    requires it'.original == it.original ||
      (InPlace(content, w) && it.original == content && it'.original == MemWrite(content, w))
    requires Mutated(h, h', w) && NameFree(h + [it], o)
    ensures Fold(h' + [it'], o) == Effect(WriteTo(it.name, content, [w]), Fold(h + [it], o))
    ensures NameFree(h' + [it'], o)
    ensures Fold(h, o).Some? ==> MemWrites(it'.original, it'.writes) == MemWrite(content, w)
  {
    hide MemWrite, MemWrites, TouchedByAll, Touched, Patched, Fold, NameFree, Mutated;
    FoldMutated(h, h', o, w);
    FoldSnoc(h, it, o);
    FoldSnoc(h', it', o);
    if Fold(h, o).Some? {
      WritesSnoc(it'.original, it.writes, w);
      TouchedSnoc(it.writes, w);
      OneWrite(content, w);
      if it'.original != it.original { ReplayInPlace(content, it.writes, w); }
      MergedBlocks(Fold(h, o).value, Fold(h', o).value, content, TouchedByAll(it.writes), w);
    }
  }

  lemma MergedBlocks(r: FileRecord, r': FileRecord, content: Bytes, touched: set<nat>, w: Write)
    requires SameOutside(Some(r), Some(r'), w) && forall p :: p in touched ==> p % 4096 == 0
    ensures Patched(r', MemWrite(content, w), touched + Touched(w))
         == Patched(Patched(r, content, touched), MemWrite(content, w), Touched(w))
  {
    var a := Patched(r', MemWrite(content, w), touched + Touched(w)).blocks;
    var b := Patched(Patched(r, content, touched), MemWrite(content, w), Touched(w)).blocks;
    assert a.Keys == b.Keys;
    forall p | p in a ensures a[p] == b[p] {
      if p !in Touched(w) && p in touched {
        PageUntouched(content, w, p);
      }
    }
  }

  /** Pending writes of a file that is about to be deleted may go. */
  lemma WriteDropped(h: seq<Item>, it: Item, o: Option<FileRecord>, f: string)
    requires it.WriteTo? && NameFree(h + [it], o)
    ensures NameFree(h, o)
    ensures Effect(Delete(f), Fold(h, o)) == Effect(Delete(f), Fold(h + [it], o))
  {
    FoldSnoc(h, it, o);
  }

  /** Creating and deleting cancel. */
  lemma CreateCancelled(h: seq<Item>, it: Item, o: Option<FileRecord>, f: string)
    requires it.Create? && NameFree(h + [it], o)
    ensures NameFree(h, o) && Fold(h, o) == Effect(Delete(f), Fold(h + [it], o))
  {
    FoldSnoc(h, it, o);
  }
}

/** The coalescing rules on whole queues. */
module Coalescing {
  import opened Basics
  import opened FileContents
  import opened WorkItems

  lemma Appended(items: seq<Item>, it: Item, st: Store)
    ensures Drain(items + [it], st) == Apply(it, Drain(items, st))
    ensures NamesFree(items + [it], st) <==> NamesFree(items, st) && (it.Create? ==> it.name !in Drain(items, st))
  {
    assert (items + [it])[..|items|] == items;
  }

  /** The head of the queue takes effect. */
  lemma HeadRuns(it: Item, rest: seq<Item>, st: Store)
    ensures Drain([it] + rest, st) == Drain(rest, Apply(it, st))
    ensures NamesFree([it] + rest, st) ==> NamesFree(rest, Apply(it, st)) && (it.Create? ==> it.name !in st)
  {
    hide Apply;
    DrainConcat([it], rest, st);
    Appended([], it, st);
    assert [] + [it] == [it];
  }

  /** items' is items after w went through the array of file f. */
  ghost predicate ArrayWritten(items: seq<Item>, items': seq<Item>, f: string, w: Write) {
    && |items'| == |items|
    && forall i :: 0 <= i < |items| ==>
      || items'[i] == items[i]
      || (items[i].WriteTo? && items[i].name == f && InPlace(items[i].original, w)
          && items'[i] == WriteTo(f, MemWrite(items[i].original, w), items[i].writes))
  }

  lemma {:induction false} HistoryWritten(items: seq<Item>, items': seq<Item>, f: string, w: Write, g: string)
    requires ArrayWritten(items, items', f, w)
    ensures g != f ==> History(items', g) == History(items, g)
    ensures Mutated(History(items, f), History(items', f), w)
  {
    if items != [] {
      var n := |items| - 1;
      HistoryWritten(items[..n], items'[..n], f, w, g);
    }
  }

  /** Two stores that are the same but for one file. */
  lemma SameButOne(s: Store, t: Store, f: string, r: Option<FileRecord>)
    requires forall g :: g != f ==> Get(s, g) == Get(t, g)
    requires Get(s, f) == r
    ensures s == Put(t, f, r)
  {
    forall g ensures Get(s, g) == Get(Put(t, f, r), g) {
    }
    StoresEqual(s, Put(t, f, r));
  }

  lemma OthersSame(items: seq<Item>, items': seq<Item>, st: Store, f: string)
    requires forall g :: g != f ==> History(items', g) == History(items, g)
    ensures forall g :: g != f ==> Get(Drain(items', st), g) == Get(Drain(items, st), g)
    ensures NamesFree(items, st) && NameFree(History(items', f), Get(st, f)) ==> NamesFree(items', st)
  {
    hide Drain, NamesFree, History, Get, NameFree;
    forall g | g != f ensures Get(Drain(items', st), g) == Get(Drain(items, st), g) {
      DrainByFile(items, st, g);
      DrainByFile(items', st, g);
    }
    if NamesFree(items, st) && NameFree(History(items', f), Get(st, f)) {
      forall g ensures NameFree(History(items', g), Get(st, g)) {
        NamesFreeByFile(items, st, g);
      }
      AllNamesFree(items', st);
    }
  }

  /** A write queued behind the others. */
  lemma WriteQueued(items: seq<Item>, items': seq<Item>, st: Store, f: string, content: Bytes, now: Bytes, w: Write)
    requires ArrayWritten(items, items', f, w) && NamesFree(items, st)
    requires now == content || (InPlace(content, w) && now == MemWrite(content, w))
    ensures NamesFree(items' + [WriteTo(f, now, [w])], st)
    ensures Drain(items' + [WriteTo(f, now, [w])], st) == Apply(WriteTo(f, content, [w]), Drain(items, st))
  {
    hide Drain, NamesFree, History, Effect, ArrayWritten, Fold, NameFree, Mutated;
    var it := WriteTo(f, now, [w]);
    var after := items' + [it];
    forall g | g != f ensures History(after, g) == History(items, g) {
      HistoryWritten(items, items', f, w, g);
      HistoryConcat(items', [it], g);
      HistoryOne(it, g);
    }
    HistoryWritten(items, items', f, w, f);
    HistoryConcat(items', [it], f);
    HistoryOne(it, f);
    DrainByFile(items, st, f);
    DrainByFile(after, st, f);
    NamesFreeByFile(items, st, f);
    WriteAppended(History(items, f), History(items', f), Get(st, f), f, content, now, w);
    OthersSame(items, after, st, f);
    SameButOne(Drain(after, st), Drain(items, st), f, Effect(WriteTo(f, content, [w]), Get(Drain(items, st), f)));
  }

  /** A write merged into a pending one with no later item of that file. */
  lemma WriteCoalesced(a: seq<Item>, it: Item, b: seq<Item>, a': seq<Item>, it': Item, b': seq<Item>,
                       st: Store, f: string, content: Bytes, w: Write)
    requires ArrayWritten(a, a', f, w) && ArrayWritten(b, b', f, w) && NamesFree(a + [it] + b, st)
    requires History(b, f) == []
    requires it.WriteTo? && it'.WriteTo? && it.name == it'.name == f
    requires f in Drain(a + [it] + b, st) ==> MemWrites(it.original, it.writes) == content
    requires it'.writes == it.writes + [w]
    requires it'.original == it.original ||
      (InPlace(content, w) && it.original == content && it'.original == MemWrite(content, w))
    ensures NamesFree(a' + [it'] + b', st)
    ensures Drain(a' + [it'] + b', st) == Apply(WriteTo(f, content, [w]), Drain(a + [it] + b, st))
    ensures f in Drain(a + [it] + b, st) ==> MemWrites(it'.original, it'.writes) == MemWrite(content, w)
  {
    hide Drain, NamesFree, History, Effect, ArrayWritten, Fold, NameFree, Mutated, MemWrites, MemWrite;
    var before, after := a + [it] + b, a' + [it'] + b';
    forall g | g != f ensures History(after, g) == History(before, g) {
      HistoryWritten(a, a', f, w, g);
      HistoryWritten(b, b', f, w, g);
      HistoryAround(a, it, b, g);
      HistoryAround(a', it', b', g);
    }
    HistoryWritten(a, a', f, w, f);
    HistoryWritten(b, b', f, w, f);
    EmptyStaysEmpty(b, b', f, w);
    HistoryLast(a, it, b, f);
    HistoryLast(a', it', b', f);
    var h, h' := History(a, f), History(a', f);
    DrainByFile(before, st, f);
    DrainByFile(after, st, f);
    NamesFreeByFile(before, st, f);
    FoldSnoc(h, it, Get(st, f));
    InStore(Drain(before, st), f);
    StoredMeansRuns(it, Fold(h, Get(st, f)));
    WriteMerged(h, h', Get(st, f), it, it', content, w);
    OthersSame(before, after, st, f);
    SameButOne(Drain(after, st), Drain(before, st), f, Effect(WriteTo(f, content, [w]), Get(Drain(before, st), f)));
  }

  lemma StoredMeansRuns(it: Item, o: Option<FileRecord>)
    requires it.WriteTo?
    ensures o.Some? <==> Effect(it, o).Some?
  {
  }

  lemma EmptyStaysEmpty(b: seq<Item>, b': seq<Item>, f: string, w: Write)
    requires Mutated(History(b, f), History(b', f), w) && History(b, f) == []
    ensures History(b', f) == []
  {
  }

  lemma DeletesAgree(s: Store, t: Store, f: string)
    requires forall g :: g != f ==> Get(s, g) == Get(t, g)
    ensures Apply(Delete(f), s) == Apply(Delete(f), t)
  {
    hide Effect;
    var x, y := Apply(Delete(f), s), Apply(Delete(f), t);
    forall g ensures Get(x, g) == Get(y, g) {
      ApplyAt(Delete(f), s, g);
      ApplyAt(Delete(f), t, g);
      DeleteRemoves(Get(s, f), Get(t, f), f);
    }
    StoresEqual(x, y);
  }

  lemma DeleteRemoves(o: Option<FileRecord>, o': Option<FileRecord>, f: string)
    ensures Effect(Delete(f), o) == Effect(Delete(f), o') == None
  {
  }

  lemma InStore(s: Store, f: string)
    ensures f in s <==> Get(s, f).Some?
  {
  }

  /** Before a delete, a pending write of the file with no later item of it may be unlinked. */
  lemma WriteUnlinked(a: seq<Item>, it: Item, b: seq<Item>, st: Store, f: string)
    requires NamesFree(a + [it] + b, st) && History(b, f) == [] && it.WriteTo? && it.name == f
    ensures NamesFree(a + b, st)
    ensures Apply(Delete(f), Drain(a + b, st)) == Apply(Delete(f), Drain(a + [it] + b, st))
  {
    hide Drain, NamesFree, History, Fold, NameFree, Effect, Get, Apply;
    var before, after := a + [it] + b, a + b;
    forall g | g != f ensures History(after, g) == History(before, g) {
      HistoryWithout(a, it, b, g);
    }
    HistoryLast(a, it, b, f);
    DrainByFile(before, st, f);
    DrainByFile(after, st, f);
    NamesFreeByFile(before, st, f);
    WriteDropped(History(a, f), it, Get(st, f), f);
    OthersSame(before, after, st, f);
    DeletesAgree(Drain(after, st), Drain(before, st), f);
  }

  /** Unlinking a pending create is the delete. */
  lemma CreateUnlinked(a: seq<Item>, it: Item, b: seq<Item>, st: Store, f: string)
    requires NamesFree(a + [it] + b, st) && History(b, f) == [] && it == Create(f)
    ensures NamesFree(a + b, st)
    ensures Drain(a + b, st) == Apply(Delete(f), Drain(a + [it] + b, st))
  {
    hide Drain, NamesFree, History, Fold, NameFree, Effect, Get, Apply;
    var before, after := a + [it] + b, a + b;
    forall g | g != f ensures History(after, g) == History(before, g) {
      HistoryWithout(a, it, b, g);
    }
    HistoryLast(a, it, b, f);
    DrainByFile(before, st, f);
    DrainByFile(after, st, f);
    NamesFreeByFile(before, st, f);
    CreateCancelled(History(a, f), it, Get(st, f), f);
    OthersSame(before, after, st, f);
    var t := Apply(Delete(f), Drain(before, st));
    forall g ensures Get(Drain(after, st), g) == Get(t, g) {
      ApplyAt(Delete(f), Drain(before, st), g);
    }
    StoresEqual(Drain(after, st), t);
  }

  /** A pending delete with no later item of the file makes a second one superfluous. */
  lemma AlreadyDeleted(a: seq<Item>, it: Item, b: seq<Item>, st: Store, f: string)
    requires NamesFree(a + [it] + b, st) && History(b, f) == [] && it == Delete(f)
    ensures Drain(a + [it] + b, st) == Apply(Delete(f), Drain(a + [it] + b, st))
  {
    hide Drain, NamesFree, History;
    var before := a + [it] + b;
    HistoryLast(a, it, b, f);
    DrainByFile(before, st, f);
    NamesFreeByFile(before, st, f);
    FoldSnoc(History(a, f), it, Get(st, f));
    var s, t := Drain(before, st), Apply(Delete(f), Drain(before, st));
    forall g ensures Get(s, g) == Get(t, g) {
      ApplyAt(Delete(f), s, g);
    }
    StoresEqual(s, t);
  }
}
