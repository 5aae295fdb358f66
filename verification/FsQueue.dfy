// The work queue of the IndexedDB file system in web/sqflite_sw.js (`A.cc`), by value.

/** The queue by value: which pending write a new one joins, what submitting a delete cancels, and why
    every call still means its immediate counterpart in `Worlds`. */
module QueueStates {
  import opened Basics
  import opened FileContents
  import opened WorkItems
  import opened Coalescing
  import opened Worlds

  /** The pending write of f that the scan of `A.cw.cz` finds. */
  function MergeAt(items: seq<Item>, f: string): (r: Option<nat>)
    ensures r.Some? ==>
      && r.value < |items| && items[r.value].WriteTo? && items[r.value].name == f
      && forall j :: r.value < j < |items| ==> !items[j].About(f)
  {
    if items == [] then None
    else
      var n := |items| - 1;
      match items[n]
      case WriteTo(g, _, _) => if g == f then Some(n) else MergeAt(items[..n], f)
      case Create(g) => if g == f then None else MergeAt(items[..n], f)
      case _ => None
  }

  /** `A.cw.cz`. */
  function AfterWrite(items: seq<Item>, f: string, original: Bytes, w: Write): seq<Item> {
    match MergeAt(items, f)
    case None => items + [WriteTo(f, original, [w])]
    case Some(i) => items[i := WriteTo(f, items[i].original, items[i].writes + [w])]
  }

  /** The scan of `A.dd.cz`: the items that stay, and whether the delete still has to be queued. */
  function DeleteScan(items: seq<Item>, f: string): (r: (seq<Item>, bool)) {
    if items == [] then ([], true)
    else
      var n := |items| - 1;
      var r := DeleteScan(items[..n], f);
      match items[n]
      case Delete(g) => if g == f then (items, false) else (r.0 + [items[n]], r.1)
      case WriteTo(g, _, _) => if g == f then r else (r.0 + [items[n]], r.1)
      case Create(g) => if g == f then (items[..n], false) else (r.0 + [items[n]], r.1)
      case _ => (items, true)
  }

  function AfterDelete(items: seq<Item>, f: string): seq<Item> {
    var (rest, pending) := DeleteScan(items, f);
    if pending then rest + [Delete(f)] else rest
  }

  lemma MergeAtLast(items: seq<Item>, f: string)
    requires items != []
    ensures var n := |items| - 1; var it := items[n];
      && (it.WriteTo? && it.name == f ==> MergeAt(items, f) == Some(n))
      && ((it.WriteTo? || it.Create?) && it.name != f ==> MergeAt(items, f) == MergeAt(items[..n], f))
      && (!it.WriteTo? && (it.Create? ==> it.name == f) ==> MergeAt(items, f) == None)
  {
  }

  /** In the middle of a scan of vs: now has the items still to be scanned, and after them those that stay. */
  ghost predicate Scanning(vs: seq<Item>, now: seq<Item>, s: nat, f: string) {
    && s <= |vs| && s <= |now| && now[..s] == vs[..s]
    && DeleteScan(vs, f) == (DeleteScan(vs[..s], f).0 + now[s..], DeleteScan(vs[..s], f).1)
  }

  lemma ScanStarts(vs: seq<Item>, f: string)
    ensures Scanning(vs, vs, |vs|, f)
  {
    assert vs[..|vs|] == vs;
    assert DeleteScan(vs, f).0 + vs[|vs|..] == DeleteScan(vs, f).0;
  }

  lemma ScanEnds(vs: seq<Item>, now: seq<Item>, f: string)
    requires Scanning(vs, now, 0, f)
    ensures DeleteScan(vs, f) == (now, true)
  {
    assert vs[..0] == [] && [] + now[0..] == now;
  }

  lemma ScanGoesOn(vs: seq<Item>, now: seq<Item>, s: nat, f: string)
    requires s < |now| && Scanning(vs, now, s + 1, f)
    ensures var it := now[s];
      && (it.Flush? || it.Resize? ==> DeleteScan(vs, f) == (now, true))
      && (it.Delete? && it.name == f ==> DeleteScan(vs, f) == (now, false))
      && (it.Create? && it.name == f ==> DeleteScan(vs, f) == (now[..s] + now[s + 1..], false))
      && (it.WriteTo? && it.name == f ==> Scanning(vs, now[..s] + now[s + 1..], s, f))
      && (!it.Flush? && !it.Resize? && it.name != f ==> Scanning(vs, now, s, f))
  {
    var scanned := vs[..s + 1];
    assert scanned[..s] == vs[..s] == now[..s];
    assert now[..s + 1][s] == scanned[s] == now[s];
    assert now == now[..s + 1] + now[s + 1..] && now[s..] == [now[s]] + now[s + 1..];
    assert (now[..s] + now[s + 1..])[s..] == now[s + 1..];
    DeleteScanLast(scanned, f);
    hide DeleteScan;
    var rest := DeleteScan(vs[..s], f);
    assert rest.0 + [now[s]] + now[s + 1..] == rest.0 + now[s..];
  }

  lemma DeleteScanLast(items: seq<Item>, f: string)
    requires items != []
    ensures var n := |items| - 1; var it, r, rest := items[n], DeleteScan(items, f), DeleteScan(items[..n], f);
      && (it.Flush? || it.Resize? ==> r == (items, true))
      && (it.Delete? && it.name == f ==> r == (items, false))
      && (it.Create? && it.name == f ==> r == (items[..n], false))
      && (it.WriteTo? && it.name == f ==> r == rest)
      && (!it.Flush? && !it.Resize? && it.name != f ==> r == (rest.0 + [it], rest.1))
  {
  }

  lemma ScanNothing(f: string)
    ensures MergeAt([], f) == None
  {
  }

  // ----- what the scan for a delete achieves

  /** Behind the scanned items come some that are not about f. */
  lemma {:induction false} ScanIsSound(first: seq<Item>, items: seq<Item>, tail: seq<Item>, st: Store, f: string)
    requires NamesFree(first + items + tail, st) && forall j :: 0 <= j < |tail| ==> !tail[j].About(f)
    ensures var (rest, pending) := DeleteScan(items, f);
      var now := Drain(first + rest + tail, st);
      && NamesFree(first + rest + tail, st)
      && (if pending then Apply(Delete(f), now) else now) == Apply(Delete(f), Drain(first + items + tail, st))
    decreases |items|
  {
    hide Drain, NamesFree, Apply, History;
    if items != [] {
      var n := |items| - 1;
      var it, a := items[n], first + items[..n];
      assert first + items + tail == a + [it] + tail;
      assert a + [it] + tail == first + items[..n] + ([it] + tail);
      HistoryNone(tail, f);
      if it.WriteTo? && it.name == f {
        WriteUnlinked(a, it, tail, st, f);
        ScanIsSound(first, items[..n], tail, st, f);
      } else if it.Create? && it.name == f {
        CreateUnlinked(a, it, tail, st, f);
      } else if it.Delete? && it.name == f {
        AlreadyDeleted(a, it, tail, st, f);
      } else if !it.Flush? && !it.Resize? {
        ScanIsSound(first, items[..n], [it] + tail, st, f);
        var rest := DeleteScan(items[..n], f).0;
        assert first + rest + ([it] + tail) == first + (rest + [it]) + tail;
      }
    }
  }

  lemma DeleteSubmitted(first: seq<Item>, items: seq<Item>, st: Store, f: string)
    requires NamesFree(first + items, st)
    ensures NamesFree(first + AfterDelete(items, f), st)
    ensures Drain(first + AfterDelete(items, f), st) == Apply(Delete(f), Drain(first + items, st))
  {
    hide Drain, NamesFree, Apply, DeleteScan;
    assert first + items + [] == first + items;
    ScanIsSound(first, items, [], st, f);
    var (rest, pending) := DeleteScan(items, f);
    assert first + rest + [] == first + rest;
    assert first + (rest + [Delete(f)]) == (first + rest) + [Delete(f)];
    Appended(first + rest, Delete(f), st);
  }

  /** Cancelling the items of one file leaves the pending writes of the others where merging finds them. */
  lemma {:induction false} ScanKeepsMerges(items: seq<Item>, f: string, g: string)
    requires g != f
    ensures var rest := DeleteScan(items, f).0;
      MergeAt(rest, g).Some? ==>
        MergeAt(items, g).Some? && items[MergeAt(items, g).value] == rest[MergeAt(rest, g).value]
  {
    if items != [] {
      var n := |items| - 1;
      ScanKeepsMerges(items[..n], f, g);
      var r := DeleteScan(items[..n], f).0;
      assert (r + [items[n]])[..|r|] == r;
    }
  }

  lemma {:induction false} MergeAtTail(items: seq<Item>, f: string)
    requires items != [] && MergeAt(items[1..], f).Some?
    ensures MergeAt(items, f) == Some(MergeAt(items[1..], f).value + 1)
    decreases |items|
  {
    var n := |items| - 1;
    assert items[1..][n - 1] == items[n] && items[1..][..n - 1] == items[..n][1..];
    if MergeAt(items[1..], f).value < n - 1 { MergeAtTail(items[..n], f); }
  }

  /** Where merging happens depends on the kinds and names only. */
  lemma {:induction false} MergeAtSame(items: seq<Item>, items': seq<Item>, f: string)
    requires |items| == |items'|
    requires forall i :: 0 <= i < |items| ==>
      items'[i] == items[i] || (items[i].WriteTo? && items'[i].WriteTo? && items[i].name == items'[i].name)
    ensures MergeAt(items', f) == MergeAt(items, f)
  {
    if items != [] { MergeAtSame(items[..|items| - 1], items'[..|items| - 1], f); }
  }

  lemma MergeAtSnoc(items: seq<Item>, it: Item, f: string)
    ensures MergeAt(items + [it], f) ==
      if it.WriteTo? && it.name == f then Some(|items|)
      else if (it.WriteTo? || it.Create?) && it.name != f then MergeAt(items, f) else None
  {
    assert (items + [it])[..|items|] == items;
  }

  // ----- states

  /** first is the item that was taken from the queue and still has to take effect, if there is one. */
  datatype State = State(first: seq<Item>, queue: seq<Item>, mem: map<string, Bytes>, temp: set<string>, store: Store) {

    /** The file system once the queue has run dry. */
    function Meaning(): World {
      World(mem, temp, Drain(first + queue, store))
    }

    function Pending(): seq<Item> {
      first + queue
    }

    /** A missing file reads as an empty one. */
    function Content(f: string): Bytes {
      if f in mem then mem[f] else []
    }

    /** A write of a stored file that can be joined has, replayed, the content that the file has now. */
    ghost predicate Current() {
      forall f :: f in Meaning().store && MergeAt(queue, f).Some? ==>
        var it := queue[MergeAt(queue, f).value]; MemWrites(it.original, it.writes) == Content(f)
    }

    ghost predicate Good() {
      Kept(Meaning()) && NamesFree(first + queue, store) && Current()
    }
  }

  lemma MeaningParts(s: State)
    ensures s.Meaning().mem == s.mem && s.Meaning().temp == s.temp
  {
  }

  lemma NothingPending(mem: map<string, Bytes>, store: Store)
    requires mem.Keys == store.Keys
    ensures State([], [], mem, {}, store).Good() && State([], [], mem, {}, store).Meaning() == World(mem, {}, store)
  {
  }

  lemma TakenKeepsMeaning(s: State)
    requires s.Good() && s.first == [] && s.queue != []
    ensures var t := s.(first := [s.queue[0]], queue := s.queue[1..]); t.Good() && t.Meaning() == s.Meaning()
  {
    hide Drain, NamesFree, Kept, MemWrites, MergeAt;
    var t := s.(first := [s.queue[0]], queue := s.queue[1..]);
    assert t.first + t.queue == s.first + s.queue;
    forall f | MergeAt(t.queue, f).Some? ensures MergeAt(s.queue, f) == Some(MergeAt(t.queue, f).value + 1) {
      MergeAtTail(s.queue, f);
    }
  }

  lemma ExecutedKeepsMeaning(s: State)
    requires s.Good() && |s.first| == 1
    ensures var t := s.(first := [], store := Apply(s.first[0], s.store)); t.Good() && t.Meaning() == s.Meaning()
  {
    hide Drain, NamesFree, Apply, Kept, MemWrites, MergeAt;
    HeadRuns(s.first[0], s.queue, s.store);
    assert s.first == [s.first[0]] && [] + s.queue == s.queue;
  }

  lemma NamesStored(f: string, st: Store)
    ensures Apply(Create(f), st).Keys == st.Keys + {f} && Apply(Delete(f), st).Keys == st.Keys - {f}
  {
  }

  lemma OpenMeans(s: State, f: string, deleteOnClose: bool)
    requires s.Good() && f !in s.mem
    ensures var t := if deleteOnClose then s.(mem := s.mem[f := []], temp := s.temp + {f})
                     else s.(mem := s.mem[f := []], queue := s.queue + [Create(f)]);
      t.Good() && t.Meaning() == Step(s.Meaning(), Open(f, true, deleteOnClose))
  {
    hide Drain, NamesFree, Apply, MemWrites, MergeAt;
    StepKeeps(s.Meaning(), Open(f, true, deleteOnClose));
    NamesStored(f, s.Meaning().store);
    if !deleteOnClose {
      assert s.first + (s.queue + [Create(f)]) == s.first + s.queue + [Create(f)];
      Appended(s.first + s.queue, Create(f), s.store);
      forall g ensures MergeAt(s.queue + [Create(f)], g) == if g == f then None else MergeAt(s.queue, g) {
        MergeAtSnoc(s.queue, Create(f), g);
      }
    }
  }

  /** A resize or a flush is never coalesced, and nothing is merged across it. */
  lemma BarrierMeans(s: State, op: Op, it: Item)
    requires s.Good()
    requires (op.FlushAll? && it == Flush) || (op.SetSize? && op.name !in s.temp && it == Item.Resize(op.name, op.size))
    ensures var t := s.(mem := Step(s.Meaning(), op).mem, queue := s.queue + [it]);
      t.Good() && t.Meaning() == Step(s.Meaning(), op)
  {
    hide Drain, NamesFree, MemWrites, MergeAt;
    StepKeeps(s.Meaning(), op);
    assert s.first + (s.queue + [it]) == s.first + s.queue + [it];
    Appended(s.first + s.queue, it, s.store);
    forall g ensures MergeAt(s.queue + [it], g) == None {
      MergeAtSnoc(s.queue, it, g);
    }
  }

  /** Calls on delete-on-close files leave the queue alone. */
  lemma TempMeans(s: State, op: Op)
    requires s.Good() && (op.WriteAt? || op.SetSize? || op.Remove?) && op.name in s.temp
    ensures var w := Step(s.Meaning(), op); var t := s.(mem := w.mem, temp := w.temp); t.Good() && t.Meaning() == w
  {
    hide Drain, NamesFree, MemWrites, MergeAt;
    StepKeeps(s.Meaning(), op);
  }

  lemma RemoveMeans(s: State, f: string)
    requires s.Good() && f !in s.temp
    ensures var t := s.(mem := s.mem - {f}, queue := AfterDelete(s.queue, f));
      t.Good() && t.Meaning() == Step(s.Meaning(), Remove(f))
  {
    hide Drain, NamesFree, Apply, MemWrites, MergeAt, DeleteScan;
    StepKeeps(s.Meaning(), Remove(f));
    NamesStored(f, s.Meaning().store);
    assert s.temp - {f} == s.temp;
    DeleteSubmitted(s.first, s.queue, s.store, f);
    var (rest, pending) := DeleteScan(s.queue, f);
    forall g | g != f && MergeAt(AfterDelete(s.queue, f), g).Some?
      ensures MergeAt(rest, g) == MergeAt(AfterDelete(s.queue, f), g)
    {
      MergeAtSnoc(rest, Delete(f), g);
    }
    forall g | g != f && MergeAt(rest, g).Some?
      ensures MergeAt(s.queue, g).Some? && s.queue[MergeAt(s.queue, g).value] == rest[MergeAt(rest, g).value]
    {
      ScanKeepsMerges(s.queue, f, g);
    }
  }

  // ----- writes

  /** items' is items after w went through the array of file f, which held content. */
  ghost predicate Rewritten(items: seq<Item>, items': seq<Item>, f: string, content: Bytes, w: Write) {
    && |items'| == |items|
    && forall i :: 0 <= i < |items| ==>
      || items'[i] == items[i]
      || (items[i].WriteTo? && items[i].name == f && items[i].original == content && InPlace(content, w)
          && items'[i] == WriteTo(f, MemWrite(content, w), items[i].writes))
  }

  lemma WriteDrains(s: State, first: seq<Item>, queue: seq<Item>, f: string, now: Bytes, w: Write)
    requires s.Good() && f !in s.temp
    requires |first| == |s.first| && Rewritten(s.first, first, f, s.Content(f), w)
    requires Rewritten(s.queue, queue, f, s.Content(f), w)
    requires now == s.Content(f) || (InPlace(s.Content(f), w) && now == MemWrite(s.Content(f), w))
    ensures var q := AfterWrite(queue, f, now, w);
      && NamesFree(first + q, s.store)
      && Drain(first + q, s.store) == Apply(WriteTo(f, s.Content(f), [w]), Drain(s.first + s.queue, s.store))
      && (f in s.Meaning().store && MergeAt(queue, f).Some? ==>
          var it := q[MergeAt(queue, f).value]; MemWrites(it.original, it.writes) == MemWrite(s.Content(f), w))
  {
    hide Drain, NamesFree, Apply, MemWrites, MemWrite, MergeAt, History, State.Content;
    var content := s.Content(f);
    MergeAtSame(s.queue, queue, f);
    match MergeAt(queue, f)
    case None =>
      assert ArrayWritten(s.first + s.queue, first + queue, f, w);
      WriteQueued(s.first + s.queue, first + queue, s.store, f, content, now, w);
      assert first + (queue + [WriteTo(f, now, [w])]) == first + queue + [WriteTo(f, now, [w])];
    case Some(i) =>
      var it' := WriteTo(f, queue[i].original, queue[i].writes + [w]);
      assert s.first + s.queue == (s.first + s.queue[..i]) + [s.queue[i]] + s.queue[i + 1..];
      assert first + queue[i := it'] == (first + queue[..i]) + [it'] + queue[i + 1..];
      HistoryNone(s.queue[i + 1..], f);
      assert ArrayWritten(s.first + s.queue[..i], first + queue[..i], f, w);
      assert ArrayWritten(s.queue[i + 1..], queue[i + 1..], f, w);
      WriteCoalesced(s.first + s.queue[..i], s.queue[i], s.queue[i + 1..],
                     first + queue[..i], it', queue[i + 1..], s.store, f, content, w);
  }

  /** The state after a write of f: the arrays in first and queue have been overwritten already, and now is
      what the array holds that the file had before. */
  function Written(s: State, first: seq<Item>, queue: seq<Item>, f: string, now: Bytes, w: Write): State {
    State(first, AfterWrite(queue, f, now, w), Step(s.Meaning(), WriteAt(f, w)).mem, s.temp, s.store)
  }

  /** Joining a pending write, or queuing a new one, although the array that pending writes hold as
      their original content has been overwritten. */
  lemma WriteMeans(s: State, first: seq<Item>, queue: seq<Item>, f: string, now: Bytes, w: Write)
    requires s.Good() && f !in s.temp
    requires |first| == |s.first| && Rewritten(s.first, first, f, s.Content(f), w)
    requires Rewritten(s.queue, queue, f, s.Content(f), w)
    requires now == s.Content(f) || (InPlace(s.Content(f), w) && now == MemWrite(s.Content(f), w))
    ensures var t := Written(s, first, queue, f, now, w); t.Good() && t.Meaning() == Step(s.Meaning(), WriteAt(f, w))
  {
    hide Drain, NamesFree, Apply, MemWrites, MemWrite, MergeAt, History, AfterWrite;
    StepKeeps(s.Meaning(), WriteAt(f, w));
    WriteDrains(s, first, queue, f, now, w);
    WriteStores(f, s.Content(f), w, s.Meaning().store);
    var t := Written(s, first, queue, f, now, w);
    forall g | g in t.Meaning().store && MergeAt(t.queue, g).Some?
      ensures var it := t.queue[MergeAt(t.queue, g).value]; MemWrites(it.original, it.writes) == t.Content(g)
    {
      StillCurrent(s, first, queue, f, now, w, g);
    }
  }

  lemma WriteStores(f: string, content: Bytes, w: Write, st: Store)
    ensures Apply(WriteTo(f, content, [w]), st).Keys == st.Keys
  {
  }

  lemma StillCurrent(s: State, first: seq<Item>, queue: seq<Item>, f: string, now: Bytes, w: Write, g: string)
    requires s.Good() && f !in s.temp && g in s.Meaning().store
    requires Rewritten(s.queue, queue, f, s.Content(f), w)
    requires now == s.Content(f) || (InPlace(s.Content(f), w) && now == MemWrite(s.Content(f), w))
    requires f in s.Meaning().store && MergeAt(queue, f).Some? ==>
      var it := AfterWrite(queue, f, now, w)[MergeAt(queue, f).value];
        MemWrites(it.original, it.writes) == MemWrite(s.Content(f), w)
    ensures var q := AfterWrite(queue, f, now, w);
      MergeAt(q, g).Some? ==>
        var it := q[MergeAt(q, g).value];
        MemWrites(it.original, it.writes) == Written(s, first, queue, f, now, w).Content(g)
  {
    hide Drain, NamesFree, MemWrites, MemWrite, MergeAt;
    var q := AfterWrite(queue, f, now, w);
    MergeAtSame(s.queue, queue, g);
    if MergeAt(queue, f).Some? {
      MergeAtSame(queue, q, g);
    } else {
      MergeAtSnoc(queue, WriteTo(f, now, [w]), g);
      if g == f { ReplayOnce(s.Content(f), now, w); }
    }
  }

  lemma NotRewritten(items: seq<Item>, f: string, content: Bytes, w: Write)
    ensures Rewritten(items, items, f, content, w)
  {
  }

  lemma Fits(content: Bytes, w: Write)
    ensures InPlace(content, w) <==> w.End() <= |content|
  {
  }

  lemma ReplayOnce(content: Bytes, now: Bytes, w: Write)
    requires now == content || (InPlace(content, w) && now == MemWrite(content, w))
    ensures MemWrites(now, [w]) == MemWrite(content, w)
  {
    OneWrite(now, w);
    if now != content { WriteTwice(content, w); }
  }
}

/** What a flush stands for: the items in front of it are never merged with later ones or cancelled, so
    when it completes the store holds the files as of the call, but for blocks of arrays that were
    overwritten in place in the meantime. */
module Flushes {
  import opened Basics
  import opened FileContents
  import opened WorkItems
  import opened Coalescing
  import opened Worlds
  import opened QueueStates

  /** Behind every flush of a, b has the same items in front of the flush. */
  ghost predicate FencesKept(a: seq<Item>, b: seq<Item>) {
    forall k: nat :: k < |a| && a[k].Flush? ==> k < |b| && b[..k + 1] == a[..k + 1]
  }

  /** The same, but for a write through the array of file f. */
  ghost predicate FencesWritten(a: seq<Item>, b: seq<Item>, f: string, content: Bytes, w: Write) {
    forall k: nat :: k < |a| && a[k].Flush? ==> k < |b| && b[k].Flush? && Rewritten(a[..k], b[..k], f, content, w)
  }

  lemma FencesSame(a: seq<Item>)
    ensures FencesKept(a, a)
  {
  }

  lemma FencesSnoc(first: seq<Item>, queue: seq<Item>, it: Item)
    ensures FencesKept(first + queue, first + (queue + [it]))
  {
    var a := first + queue;
    assert first + (queue + [it]) == a + [it];
    forall k: nat | k < |a| && a[k].Flush? ensures (a + [it])[..k + 1] == a[..k + 1] {
    }
  }

  /** A delete cancels nothing in front of a flush. */
  lemma {:induction false} DeleteStopsAtFlush(items: seq<Item>, f: string, j: nat)
    requires j < |items| && items[j].Flush?
    ensures |DeleteScan(items, f).0| > j && DeleteScan(items, f).0[..j + 1] == items[..j + 1]
  {
    var n := |items| - 1;
    if j < n {
      DeleteStopsAtFlush(items[..n], f, j);
      assert items[..n][..j + 1] == items[..j + 1];
      var r := DeleteScan(items[..n], f).0;
      assert (r + [items[n]])[..j + 1] == r[..j + 1];
    }
  }

  lemma FencesDeleted(first: seq<Item>, queue: seq<Item>, f: string)
    ensures FencesKept(first + queue, first + AfterDelete(queue, f))
  {
    hide DeleteScan;
    var a, b := first + queue, first + AfterDelete(queue, f);
    forall k: nat | k < |a| && a[k].Flush? ensures k < |b| && b[..k + 1] == a[..k + 1] {
      if k >= |first| {
        var j: nat := k - |first|;
        DeleteStopsAtFlush(queue, f, j);
        assert AfterDelete(queue, f)[..j + 1] == queue[..j + 1];
        assert b[..k + 1] == first + queue[..j + 1] == a[..k + 1];
      }
    }
  }

  /** A write is merged only behind the last flush. */
  lemma {:induction false} MergesBehindFlush(items: seq<Item>, f: string, j: nat)
    requires j < |items| && items[j].Flush? && MergeAt(items, f).Some?
    ensures MergeAt(items, f).value > j
  {
    var n := |items| - 1;
    if j < n && MergeAt(items, f).value < n { MergesBehindFlush(items[..n], f, j); }
  }

  lemma FencesRewritten(s: State, first: seq<Item>, queue: seq<Item>, f: string, content: Bytes, now: Bytes, w: Write)
    requires |first| == |s.first| && Rewritten(s.first, first, f, content, w)
    requires Rewritten(s.queue, queue, f, content, w)
    ensures FencesWritten(s.Pending(), first + AfterWrite(queue, f, now, w), f, content, w)
  {
    hide MergeAt, MemWrite, InPlace;
    var a, q := s.Pending(), AfterWrite(queue, f, now, w);
    forall k: nat | k < |a| && a[k].Flush?
      ensures var b := first + q; k < |b| && b[k].Flush? && Rewritten(a[..k], b[..k], f, content, w)
    {
      var b := first + q;
      if k >= |first| {
        var j: nat := k - |first|;
        if MergeAt(queue, f).Some? { MergesBehindFlush(queue, f, j); }
        assert forall i :: 0 <= i <= j ==> q[i] == queue[i];
      }
    }
  }

  /** Where nothing is queued, nothing in front of a flush changes. */
  lemma FencesUnwritten(s: State, f: string, w: Write)
    ensures FencesWritten(s.Pending(), s.Pending(), f, s.Content(f), w)
  {
    hide MemWrite, InPlace;
  }

  // ----- what the items in front of a flush will have done

  /** The byte that a call writes to position i of f through an array that queued items may refer to. */
  function OverwrittenBy(s: World, op: Op, f: string, i: nat): set<Byte> {
    if op.WriteAt? && op.name == f && InPlace(ContentOf(s, f), op.w) && op.w.Covers(i)
      then {op.w.data[i - op.w.offset]} else {}
  }

  /** All bytes that calls do. */
  function Overwritten(s: World, ops: seq<Op>, f: string, i: nat): set<Byte>
    decreases |ops|
  {
    if ops == [] then {} else OverwrittenBy(s, ops[0], f, i) + Overwritten(Step(s, ops[0]), ops[1..], f, i)
  }

  lemma {:induction false} OverwrittenSnoc(s: World, ops: seq<Op>, op: Op, f: string, i: nat)
    ensures Overwritten(s, ops + [op], f, i) == Overwritten(s, ops, f, i) + Overwritten(Run(s, ops), [op], f, i)
    decreases |ops|
  {
    hide Step, OverwrittenBy;
    if ops == [] {
      assert [] + [op] == [op];
    } else {
      assert (ops + [op])[1..] == ops[1..] + [op];
      OverwrittenSnoc(Step(s, ops[0]), ops[1..], op, f, i);
    }
  }

  /** The block at p of file f, except that bytes of later calls may show. */
  ghost predicate BlockAsOf(x: Bytes, y: Bytes, s: World, ops: seq<Op>, f: string, p: nat) {
    |y| == |x| && forall k: nat :: k < |x| ==> y[k] == x[k] || y[k] in Overwritten(s, ops, f, p + k)
  }

  /** The same file, except for such bytes. */
  ghost predicate FileAsOf(o: Option<FileRecord>, o': Option<FileRecord>, s: World, ops: seq<Op>, f: string) {
    match (o, o')
    case (None, None) => true
    case (Some(r), Some(r')) =>
      && r.length == r'.length && r.blocks.Keys == r'.blocks.Keys
      && forall p :: p in r.blocks ==> BlockAsOf(r.blocks[p], r'.blocks[p], s, ops, f, p)
    case _ => false
  }

  /** The store holds the files of s, except that bytes which calls have written in place since then may show. */
  ghost predicate AsOf(s: World, ops: seq<Op>, st: Store) {
    forall f :: FileAsOf(Get(s.store, f), Get(st, f), s, ops, f)
  }

  lemma SameAsItself(o: Option<FileRecord>, s: World, ops: seq<Op>, f: string)
    ensures FileAsOf(o, o, s, ops, f)
  {
    hide Overwritten;
  }

  lemma BlockThen(x: Bytes, y: Bytes, z: Bytes, s: World, ops: seq<Op>, op: Op, f: string, p: nat)
    requires BlockAsOf(x, y, s, ops, f, p) && BlockAsOf(y, z, Run(s, ops), [op], f, p)
    ensures BlockAsOf(x, z, s, ops + [op], f, p)
  {
    hide Overwritten, Run;
    forall k: nat | k < |x| ensures z[k] == x[k] || z[k] in Overwritten(s, ops + [op], f, p + k) {
      OverwrittenSnoc(s, ops, op, f, p + k);
    }
  }

  /** One call after the others. */
  lemma FileThen(a: Option<FileRecord>, b: Option<FileRecord>, c: Option<FileRecord>, s: World, ops: seq<Op>, op: Op,
                 f: string)
    requires FileAsOf(a, b, s, ops, f) && FileAsOf(b, c, Run(s, ops), [op], f)
    ensures FileAsOf(a, c, s, ops + [op], f)
  {
    hide BlockAsOf, Run;
    if a.Some? {
      forall p | p in a.value.blocks ensures BlockAsOf(a.value.blocks[p], c.value.blocks[p], s, ops + [op], f, p) {
        BlockThen(a.value.blocks[p], b.value.blocks[p], c.value.blocks[p], s, ops, op, f, p);
      }
    }
  }

  lemma OneOverwrite(s: World, f: string, w: Write, i: nat)
    ensures Overwritten(s, [WriteAt(f, w)], f, i) ==
      if InPlace(ContentOf(s, f), w) && w.Covers(i) then {w.data[i - w.offset]} else {}
  {
    hide Step, ContentOf, InPlace;
  }

  lemma BlockWritten(x: Bytes, y: Bytes, s: World, f: string, w: Write, p: nat)
    requires SameBlock(x, y, p, w) && InPlace(ContentOf(s, f), w)
    ensures BlockAsOf(x, y, s, [WriteAt(f, w)], f, p)
  {
    hide Overwritten, ContentOf, InPlace, Write.Touches;
    forall k: nat | k < |x| ensures y[k] == x[k] || y[k] in Overwritten(s, [WriteAt(f, w)], f, p + k) {
      OneOverwrite(s, f, w, p + k);
    }
  }

  lemma FileWritten(o: Option<FileRecord>, o': Option<FileRecord>, s: World, f: string, w: Write)
    requires SameOutside(o, o', w) && InPlace(ContentOf(s, f), w)
    ensures FileAsOf(o, o', s, [WriteAt(f, w)], f)
  {
    hide SameBlock, BlockAsOf, ContentOf, InPlace;
    if o.Some? {
      forall p | p in o.value.blocks
        ensures BlockAsOf(o.value.blocks[p], o'.value.blocks[p], s, [WriteAt(f, w)], f, p)
      {
        BlockWritten(o.value.blocks[p], o'.value.blocks[p], s, f, w, p);
      }
    }
  }

  lemma FenceWritten(a: seq<Item>, b: seq<Item>, k: nat, st: Store, s: World, f: string, w: Write, g: string)
    requires FencesWritten(a, b, f, ContentOf(s, f), w) && k < |a| && a[k].Flush?
    ensures k < |b| && b[k].Flush?
    ensures FileAsOf(Get(Drain(a[..k], st), g), Get(Drain(b[..k], st), g), s, [WriteAt(f, w)], g)
  {
    hide Drain, Fold, History, SameOutside, Mutated, MemWrite, FileAsOf, ContentOf;
    SameAsItself(Get(Drain(a[..k], st), g), s, [WriteAt(f, w)], g);
    if InPlace(ContentOf(s, f), w) {
      assert ArrayWritten(a[..k], b[..k], f, w);
      HistoryWritten(a[..k], b[..k], f, w, g);
      DrainByFile(a[..k], st, g);
      DrainByFile(b[..k], st, g);
      if g == f {
        FoldMutated(History(a[..k], f), History(b[..k], f), Get(st, f), w);
        FileWritten(Get(Drain(a[..k], st), f), Get(Drain(b[..k], st), f), s, f, w);
      }
    } else {
      assert a[..k] == b[..k];
    }
  }

  /** A flush waits behind k items, which will leave the store as of s. */
  ghost predicate Waits(s: World, ops: seq<Op>, items: seq<Item>, k: nat, st: Store) {
    k < |items| && items[k].Flush? && AsOf(s, ops, Drain(items[..k], st))
  }

  lemma FlushWaits(s: State, k: nat)
    requires k == |s.Pending()|
    ensures Waits(s.Meaning(), [], s.Pending() + [Item.Flush], k, s.store)
  {
    hide FileAsOf;
    assert (s.Pending() + [Item.Flush])[..k] == s.first + s.queue;
    forall f ensures FileAsOf(Get(s.Meaning().store, f), Get(s.Meaning().store, f), s.Meaning(), [], f) {
      SameAsItself(Get(s.Meaning().store, f), s.Meaning(), [], f);
    }
  }

  lemma StillWaits(s: World, ops: seq<Op>, op: Op, a: seq<Item>, b: seq<Item>, k: nat, st: Store)
    requires Waits(s, ops, a, k, st)
    requires var now := Run(s, ops);
      if op.WriteAt? then FencesWritten(a, b, op.name, ContentOf(now, op.name), op.w) else FencesKept(a, b)
    ensures Waits(s, ops + [op], b, k, st)
  {
    hide AsOf, FencesKept, FencesWritten;
    CallKeepsFlush(s, ops, op, a, b, k, st);
  }

  /** A call keeps what a flush stands for. */
  lemma CallKeepsFlush(s: World, ops: seq<Op>, op: Op, a: seq<Item>, b: seq<Item>, k: nat, st: Store)
    requires k < |a| && a[k].Flush? && AsOf(s, ops, Drain(a[..k], st))
    requires var now := Run(s, ops);
      if op.WriteAt? then FencesWritten(a, b, op.name, ContentOf(now, op.name), op.w) else FencesKept(a, b)
    ensures k < |b| && b[k].Flush? && AsOf(s, ops + [op], Drain(b[..k], st))
  {
    hide Drain, FencesWritten, FileAsOf, Run, Get, ContentOf;
    if op.WriteAt? {
      FenceWritten(a, b, k, st, Run(s, ops), op.name, op.w, op.name);
    } else {
      KeptPrefix(a, b, k);
    }
    forall g ensures FileAsOf(Get(s.store, g), Get(Drain(b[..k], st), g), s, ops + [op], g) {
      var before, after := Get(Drain(a[..k], st), g), Get(Drain(b[..k], st), g);
      if op.WriteAt? {
        FenceWritten(a, b, k, st, Run(s, ops), op.name, op.w, g);
      } else {
        SameAsItself(before, Run(s, ops), [op], g);
      }
      FileThen(Get(s.store, g), before, after, s, ops, op, g);
    }
  }

  lemma KeptPrefix(a: seq<Item>, b: seq<Item>, k: nat)
    requires FencesKept(a, b) && k < |a| && a[k].Flush?
    ensures k < |b| && b[k].Flush? && b[..k] == a[..k]
  {
    assert b[..k + 1][k] == a[..k + 1][k];
    assert b[..k] == b[..k + 1][..k] && a[..k] == a[..k + 1][..k];
  }

  /** Running the head does, too, until it is the flush itself: then the store is what it stands for. */
  lemma HeadKeepsFlush(a: seq<Item>, k: nat, st: Store)
    requires k < |a| && a[k].Flush?
    ensures k > 0 ==> a[1..][k - 1].Flush? && Drain(a[1..][..k - 1], Apply(a[0], st)) == Drain(a[..k], st)
    ensures k == 0 ==> Apply(a[0], st) == st == Drain(a[..k], st)
  {
    hide Apply;
    if k > 0 {
      assert a[..k] == [a[0]] + a[1..][..k - 1];
      HeadRuns(a[0], a[1..][..k - 1], st);
    } else {
      assert a[..0] == [];
      FlushDoesNothing(a[0], st);
    }
  }

  lemma FlushDoesNothing(it: Item, st: Store)
    requires it.Flush?
    ensures Apply(it, st) == st
  {
  }

  /** Where store and memory agreed at the call, every byte of every file is that of the call, or that of a
      later in-place write. */
  lemma AsOfReads(s: World, ops: seq<Op>, st: Store, f: string)
    requires Agrees(s) && AsOf(s, ops, st)
    ensures f in st <==> f in s.mem && f !in s.temp
    ensures f in st ==> st[f].length == |s.mem[f]|
    ensures f in st ==> forall i: nat :: i < |s.mem[f]| ==>
      Stored(st[f], i) == s.mem[f][i] || Stored(st[f], i) in Overwritten(s, ops, f, i)
  {
    hide Overwritten;
    assert FileAsOf(Get(s.store, f), Get(st, f), s, ops, f);
    if f in st {
      HoldsBytes(s.store[f], s.mem[f]);
      forall i: nat | i < |s.mem[f]|
        ensures Stored(st[f], i) == s.mem[f][i] || Stored(st[f], i) in Overwritten(s, ops, f, i)
      {
        ByteAsOf(s.store[f], st[f], s, ops, f, i);
      }
    }
  }

  lemma ByteAsOf(r: FileRecord, r': FileRecord, s: World, ops: seq<Op>, f: string, i: nat)
    requires FileAsOf(Some(r), Some(r'), s, ops, f) && Shaped(r)
    ensures Stored(r', i) == Stored(r, i) || Stored(r', i) in Overwritten(s, ops, f, i)
  {
    hide Overwritten;
    var p: nat := i / 4096 * 4096;
    if p in r.blocks {
      assert BlockAsOf(r.blocks[p], r'.blocks[p], s, ops, f, p) && i == p + (i - p);
    }
  }

  // ----- a byte of a later call

  /** A file of two stored bytes, whose first one has been overwritten in place. The write still waits,
      with a flush behind it. */
  function Rewriting(): State {
    State([], [WriteTo("f", [2, 1], [Write(0, [2])]), Item.Flush], map["f" := [2, 1]], {},
          map["f" := Patched(FileRecord(0, map[]), [1, 1], {0})])
  }

  /** The same after the second byte has been overwritten, too. */
  function RewritingMore(): State {
    Written(Rewriting(), [], [WriteTo("f", [2, 3], [Write(0, [2])]), Item.Flush], "f", [2, 3], Write(1, [3]))
  }

  lemma Replayed(x: Byte)
    ensures MemWrites([2, x], [Write(0, [2])]) == [2, x]
    ensures TouchedByAll([Write(0, [2])]) == {0}
  {
    OneWrite([2, x], Write(0, [2]));
    assert MemWrite([2, x], Write(0, [2])) == [2, x];
    assert Touched(Write(0, [2])) == {0} by {
      forall p ensures p in Touched(Write(0, [2])) <==> p == 0 {
      }
    }
  }

  lemma OneDrained(x: Byte, st: Store)
    requires "f" in st
    ensures Drain([WriteTo("f", [2, x], [Write(0, [2])])], st) == st["f" := Patched(st["f"], [2, x], {0})]
  {
    Replayed(x);
    var it := WriteTo("f", [2, x], [Write(0, [2])]);
    assert [it][..0] == [] && Drain([], st) == st;
    assert Effect(it, Some(st["f"])) == Some(Patched(st["f"], [2, x], {0}));
  }

  lemma TwoBytes(r: FileRecord, x: Byte)
    ensures Stored(Patched(r, [2, x], {0}), 0) == 2 && Stored(Patched(r, [2, x], {0}), 1) == x
  {
    assert 1 / 4096 * 4096 == 0;
  }

  lemma RewritingIsGood()
    ensures var s := Rewriting(); s.Good() && Agrees(s.Meaning())
    ensures var s := Rewriting(); s.Meaning().store == s.store["f" := Patched(s.store["f"], [2, 1], {0})]
  {
    hide Drain, MemWrites, MemWrite, Patched, Holds;
    var s := Rewriting();
    var it := s.queue[0];
    Appended([it], Item.Flush, s.store);
    assert s.first + s.queue == [it] + [Item.Flush];
    OneDrained(1, s.store);
    assert NamesFree([it], s.store);
    BarrierStops([it], "f");
    var rec := s.store["f"];
    assert Shaped(Patched(rec, [2, 1], {0})) by { PatchedOnce(); }
    TwoBytes(rec, 1);
    HoldsBytes(Patched(rec, [2, 1], {0}), [2, 1]);
    assert Patched(rec, [2, 1], {0}).length == 2 by { PatchedOnce(); }
  }

  lemma PatchedOnce()
    ensures var r := Patched(Patched(FileRecord(0, map[]), [1, 1], {0}), [2, 1], {0}); Shaped(r) && r.length == 2
  {
  }

  lemma BarrierStops(items: seq<Item>, f: string)
    ensures forall g :: MergeAt(items + [Item.Flush], g) == None
  {
    forall g ensures MergeAt(items + [Item.Flush], g) == None {
      MergeAtSnoc(items, Item.Flush, g);
    }
  }

  lemma FlushWaitsThere()
    ensures var s := Rewriting();
      Waits(s.Meaning(), [], s.Pending(), 1, s.store) && Stored(s.Meaning().store["f"], 1) == 1
  {
    hide Drain, Patched, FileAsOf, State.Good, Agrees;
    var s := Rewriting();
    RewritingIsGood();
    OneDrained(1, s.store);
    TwoBytes(s.store["f"], 1);
    assert s.Pending()[..1] == [s.queue[0]];
    forall f ensures FileAsOf(Get(s.Meaning().store, f), Get(s.Meaning().store, f), s.Meaning(), [], f) {
      SameAsItself(Get(s.Meaning().store, f), s.Meaning(), [], f);
    }
  }

  /** The call that leads from one to the other. */
  lemma RewrittenMore()
    ensures var s, t, w := Rewriting(), RewritingMore(), Write(1, [3]);
      && t.Good() && t.Meaning() == Step(s.Meaning(), WriteAt("f", w))
      && FencesWritten(s.Pending(), t.Pending(), "f", [2, 1], w)
  {
    hide Drain, MemWrites, Patched, State.Good, State.Meaning, Agrees, FencesWritten, AfterWrite, Step;
    var s, w := Rewriting(), Write(1, [3]);
    var queue := [WriteTo("f", [2, 3], [Write(0, [2])]), Item.Flush];
    RewritingIsGood();
    assert MemWrite([2, 1], w) == [2, 3];
    assert Rewritten(s.queue, queue, "f", [2, 1], w);
    WriteMeans(s, [], queue, "f", [2, 3], w);
    FencesRewritten(s, [], queue, "f", [2, 1], [2, 3], w);
  }

  lemma FirstThere()
    ensures var t := RewritingMore(); var st := Drain(t.Pending()[..1], t.store); "f" in st && Stored(st["f"], 1) == 3
  {
    hide Drain, Patched, Step, MergeAt;
    var t := RewritingMore();
    var it := WriteTo("f", [2, 3], [Write(0, [2])]);
    BarrierStops([it], "f");
    assert [it] + [Item.Flush] == [it, Item.Flush];
    assert t.Pending()[..1] == [it];
    OneDrained(3, t.store);
    TwoBytes(t.store["f"], 3);
  }

  /** Bytes of later calls do show: the flush was called when the second byte was 1, and completes with 3. */
  lemma LaterByteShows()
    ensures var s, t, op := Rewriting(), RewritingMore(), WriteAt("f", Write(1, [3]));
      var st := Drain(t.Pending()[..1], t.store);
      && s.Good() && Agrees(s.Meaning()) && Waits(s.Meaning(), [], s.Pending(), 1, s.store)
      && t.Good() && t.Meaning() == Step(s.Meaning(), op) && Waits(s.Meaning(), [op], t.Pending(), 1, t.store)
      && "f" in st && Stored(s.Meaning().store["f"], 1) == 1 && Stored(st["f"], 1) == 3
  {
    RewritingIsGood();
    FlushWaitsThere();
    RewrittenMore();
    FirstThere();
    hide Drain, MemWrites, MemWrite, Patched, State.Good, Agrees, AsOf, FencesWritten, FencesKept, Step, Waits,
      Stored, AfterWrite;
    var s, t, op := Rewriting(), RewritingMore(), WriteAt("f", Write(1, [3]));
    MeaningParts(s);
    assert Run(s.Meaning(), []) == s.Meaning() && [] + [op] == [op];
    StillWaits(s.Meaning(), [], op, s.Pending(), t.Pending(), 1, s.store);
  }
}
