// What the IndexedDB file system of web/sqflite_sw.js (`A.cc`, `A.i9`) does, seen from outside.

/** What the file system is for: files in memory, and a store that follows them item by item. */
module Worlds {
  import opened Basics
  import opened FileContents
  import opened WorkItems

  /** temp holds the delete-on-close files, which are never stored. */
  datatype World = World(mem: map<string, Bytes>, temp: set<string>, store: Store)

  datatype Op =
    | Open(name: string, create: bool, deleteOnClose: bool)
    | WriteAt(name: string, w: Write)
    | SetSize(name: string, size: nat)
    | Remove(name: string)
    | FlushAll

  const EMPTY: World := World(map[], {}, map[])

  /** A missing file reads as an empty one. */
  function ContentOf(s: World, f: string): Bytes {
    if f in s.mem then s.mem[f] else []
  }

  function Submit(s: World, it: Item): Store
    requires !it.Flush?
  {
    if it.name in s.temp then s.store else Apply(it, s.store)
  }

  /** Every submitted item takes effect at once and in order: no queue, no merging. An item for a file
      that is not stored, such as one written to after its deletion, fails and has no effect. */
  function Step(s: World, op: Op): World {
    match op
    case Open(f, create, deleteOnClose) =>
      if f in s.mem || !create then s
      else if deleteOnClose then World(s.mem[f := []], s.temp + {f}, s.store)
      else World(s.mem[f := []], s.temp, Apply(Create(f), s.store))
    case WriteAt(f, w) =>
      World(if f in s.mem || w.End() > 0 then s.mem[f := MemWrite(ContentOf(s, f), w)] else s.mem,
            s.temp, Submit(s, WriteTo(f, ContentOf(s, f), [w])))
    case SetSize(f, size) =>
      World(s.mem[f := MemTruncate(ContentOf(s, f), size)], s.temp, Submit(s, Item.Resize(f, size)))
    case Remove(f) =>
      World(s.mem - {f}, s.temp - {f}, Submit(s, Delete(f)))
    case FlushAll => s
  }

  // ----- memory, file by file

  /** The content of a file in memory, if there is such a file. */
  function InMemory(s: World, f: string): Option<Bytes> {
    if f in s.mem then Some(s.mem[f]) else None
  }

  predicate OnFile(op: Op, f: string) {
    !op.FlushAll? && op.name == f
  }

  /** What a call on a file does to its content, whether or not the file is deleted on close. */
  function After(o: Option<Bytes>, op: Op): Option<Bytes> {
    match (op, o)
    case (Open(_, create, _), None) => if create then Some([]) else None
    case (WriteAt(_, w), Some(content)) => Some(MemWrite(content, w))
    case (WriteAt(_, w), None) => if w.End() > 0 then Some(MemWrite([], w)) else None
    case (SetSize(_, size), Some(content)) => Some(MemTruncate(content, size))
    case (SetSize(_, size), None) => Some(MemTruncate([], size))
    case (Remove(_), _) => None
    case _ => o
  }

  lemma StepMemory(s: World, op: Op, f: string)
    ensures InMemory(Step(s, op), f) == if OnFile(op, f) then After(InMemory(s, f), op) else InMemory(s, f)
  {
    hide MemWrite, MemTruncate;
  }

  /** Which files are deleted on close. */
  lemma StepTemp(s: World, op: Op, f: string)
    ensures f in Step(s, op).temp <==>
      (f in s.temp && op != Remove(f)) || (f !in s.mem && op == Open(f, true, true))
  {
    hide MemWrite, MemTruncate;
  }

  /** The content after all calls of a history that are on the file. */
  function AfterAll(o: Option<Bytes>, ops: seq<Op>, f: string): Option<Bytes>
    decreases |ops|
  {
    if ops == [] then o else AfterAll(if OnFile(ops[0], f) then After(o, ops[0]) else o, ops[1..], f)
  }

  /** Delete-on-close files are in memory only, and nothing is stored that is not in memory. */
  ghost predicate Kept(s: World) {
    s.temp <= s.mem.Keys && s.store.Keys <= s.mem.Keys - s.temp
  }

  lemma StepKeeps(s: World, op: Op)
    requires Kept(s)
    ensures Kept(Step(s, op))
  {
  }

  /** The store has exactly the persistent names. */
  ghost predicate Named(s: World) {
    s.temp <= s.mem.Keys && s.store.Keys == s.mem.Keys - s.temp
  }

  /** Every persistent file reads back as it is in memory. */
  ghost predicate Agrees(s: World) {
    Named(s) && forall f :: f in s.store ==> Holds(s.store[f], s.mem[f])
  }

  /** No write starts behind the end of its file, no resize grows one, and files that are gone are left alone. */
  predicate Careful(s: World, op: Op) {
    match op
    case WriteAt(f, w) => f in s.mem && w.offset <= |s.mem[f]|
    case SetSize(f, size) => f in s.mem && size <= |s.mem[f]|
    case _ => true
  }

  /** What a call would have to leave clean in the stored file: nothing, if it is careful. A file that is
      gone may only be written nothing. */
  ghost predicate Clean(s: World, op: Op) {
    match op
    case WriteAt(f, w) =>
      if f in s.mem then f in s.store ==> GapIsClean(s.store[f], |s.mem[f]|, w.offset, Touched(w)) else w.End() == 0
    case SetSize(f, size) => f in s.mem && (f in s.store ==> GapIsClean(s.store[f], |s.mem[f]|, size, {}))
    case _ => true
  }

  lemma CarefulIsClean(s: World, op: Op)
    requires Careful(s, op)
    ensures Clean(s, op)
  {
  }

  /** Exactly when a call keeps store and memory in agreement. */
  lemma StepAgreesIff(s: World, op: Op)
    requires Agrees(s)
    ensures Agrees(Step(s, op)) <==> Clean(s, op)
  {
    hide Holds, Patched, Truncated, MemWrite, MemTruncate, GapIsClean, Touched, MemWrites, TouchedByAll;
    var t := Step(s, op);
    match op {
      case Open(f, create, deleteOnClose) =>
        NewFileHolds();
      case WriteAt(f, w) =>
        if f in s.store {
          WriteAgreesIff(s.store[f], s.mem[f], w);
          OneWrite(s.mem[f], w);
          OnlyOneChanges(s, t, f);
          WriteShape(s.store[f], s.mem[f], w);
        }
      case SetSize(f, size) =>
        if f in s.store {
          TruncateAgreesIff(s.store[f], s.mem[f], size);
          OnlyOneChanges(s, t, f);
        }
      case Remove(f) =>
      case FlushAll =>
    }
  }

  /** A file that is gone comes back in memory and is not stored again. */
  lemma GoneStaysUnstored()
    ensures Agrees(EMPTY)
    ensures !Agrees(Step(EMPTY, WriteAt("f", Write(0, [1])))) && !Agrees(Step(EMPTY, SetSize("f", 0)))
  {
    StepAgreesIff(EMPTY, WriteAt("f", Write(0, [1])));
    StepAgreesIff(EMPTY, SetSize("f", 0));
  }

  lemma NewFileHolds()
    ensures Holds(FileRecord(0, map[]), [])
  {
    assert ReadBack(FileRecord(0, map[])).value == [];
  }

  lemma WriteShape(rec: FileRecord, content: Bytes, w: Write)
    ensures Effect(WriteTo("", content, [w]), Some(rec)) == Some(Patched(rec, MemWrite(content, w), Touched(w)))
  {
    OneWrite(content, w);
  }

  lemma OnlyOneChanges(s: World, t: World, f: string)
    requires Agrees(s) && f in s.store && t.temp == s.temp && Named(t)
    requires t.mem.Keys == s.mem.Keys && t.store.Keys == s.store.Keys
    requires forall g :: g in s.mem && g != f ==> t.mem[g] == s.mem[g]
    requires forall g :: g in s.store && g != f ==> t.store[g] == s.store[g]
    ensures Agrees(t) <==> Holds(t.store[f], t.mem[f])
  {
  }

  // ----- what holds whether or not store and memory agree

  /** Every stored file can be read back, in the length that it has in memory. */
  ghost predicate Sound(s: World) {
    Kept(s) && forall f :: f in s.store ==> Shaped(s.store[f]) && s.store[f].length == |s.mem[f]|
  }

  lemma StepSound(s: World, op: Op)
    requires Sound(s)
    ensures Sound(Step(s, op))
  {
    hide Patched, Truncated, MemWrite, MemTruncate, Touched, MemWrites, TouchedByAll, Shaped;
    StepKeeps(s, op);
    match op {
      case Open(f, create, deleteOnClose) =>
        NewFileShaped();
      case WriteAt(f, w) =>
        if f in s.store {
          StillShaped(s.store[f], s.mem[f], w);
          WriteShape(s.store[f], s.mem[f], w);
        }
      case SetSize(f, size) =>
        if f in s.store { TruncatedShaped(s.store[f], size); }
      case Remove(f) =>
      case FlushAll =>
    }
  }

  lemma NewFileShaped()
    ensures Shaped(FileRecord(0, map[]))
  {
  }

  lemma AgreesIsSound(s: World)
    requires Agrees(s)
    ensures Sound(s)
  {
    hide Shaped;
    forall f | f in s.store ensures Shaped(s.store[f]) && s.store[f].length == |s.mem[f]| {
      HoldsShape(s.store[f], s.mem[f]);
    }
  }

  lemma HoldsShape(rec: FileRecord, content: Bytes)
    requires Holds(rec, content)
    ensures Shaped(rec) && rec.length == |content|
  {
  }

  lemma SoundReads(s: World)
    requires Sound(s)
    ensures forall f :: f in s.store ==> ReadBack(s.store[f]).Some? && |ReadBack(s.store[f]).value| == |s.mem[f]|
  {
    hide Shaped, ReadBack;
    forall f | f in s.store ensures ReadBack(s.store[f]).Some? && |ReadBack(s.store[f]).value| == |s.mem[f]| {
      ShapedReads(s.store[f]);
    }
  }

  /** What a stored file reads back as. */
  function Loaded(rec: FileRecord): Bytes {
    match ReadBack(rec) case None => [] case Some(content) => content
  }

  /** Closing and opening again: memory is what the stored files read back as. */
  function Reopened(s: World): World {
    World(map f | f in s.store :: Loaded(s.store[f]), {}, s.store)
  }

  /** Opening again restores agreement, with every file in its length; and it finds what was in memory, but for
      delete-on-close files, exactly if there was agreement. */
  lemma ReopenedAgrees(s: World)
    requires Sound(s)
    ensures Agrees(Reopened(s)) && forall f :: f in s.store ==> |Reopened(s).mem[f]| == |s.mem[f]|
    ensures Agrees(s) <==> Reopened(s) == World(s.mem - s.temp, {}, s.store)
  {
    hide Shaped, ReadBack;
    SoundReads(s);
    if Agrees(s) {
      assert Reopened(s).mem == s.mem - s.temp;
    }
    if Reopened(s).mem == s.mem - s.temp {
      assert Reopened(s).mem.Keys == s.store.Keys;
      forall f | f in s.store ensures Holds(s.store[f], s.mem[f]) {
        assert Reopened(s).mem[f] == s.mem[f];
      }
    }
  }

  // ----- whole histories

  predicate CarefulRun(s: World, ops: seq<Op>)
    decreases |ops|
  {
    ops == [] || (Careful(s, ops[0]) && CarefulRun(Step(s, ops[0]), ops[1..]))
  }

  function Run(s: World, ops: seq<Op>): World
    decreases |ops|
  {
    if ops == [] then s else Run(Step(s, ops[0]), ops[1..])
  }

  /** What a file holds in memory is what the calls on it have made of it, and no others. */
  lemma {:induction false} RunMemory(s: World, ops: seq<Op>, f: string)
    ensures InMemory(Run(s, ops), f) == AfterAll(InMemory(s, f), ops, f)
    decreases |ops|
  {
    hide Step, After, InMemory;
    if ops != [] {
      StepMemory(s, ops[0], f);
      RunMemory(Step(s, ops[0]), ops[1..], f);
    }
  }

  /** Whatever is called, no stored file becomes unreadable or gets another length than in memory. */
  lemma {:induction false} RunSound(s: World, ops: seq<Op>)
    requires Sound(s)
    ensures Sound(Run(s, ops))
    ensures var t := Run(s, ops);
      forall f :: f in t.store ==> ReadBack(t.store[f]).Some? && |ReadBack(t.store[f]).value| == |t.mem[f]|
    decreases |ops|
  {
    if ops == [] {
      SoundReads(s);
    } else {
      StepSound(s, ops[0]);
      RunSound(Step(s, ops[0]), ops[1..]);
    }
  }

  lemma {:induction false} RunSnoc(s: World, ops: seq<Op>, op: Op)
    ensures Run(s, ops + [op]) == Step(Run(s, ops), op)
    decreases |ops|
  {
    hide Step;
    if ops == [] {
      assert [] + [op] == [op];
    } else {
      assert (ops + [op])[1..] == ops[1..] + [op];
      RunSnoc(Step(s, ops[0]), ops[1..], op);
    }
  }

  /** Over any careful history the stale bytes that truncation leaves behind are never visible. */
  lemma {:induction false} CarefulRunAgrees(s: World, ops: seq<Op>)
    requires Agrees(s) && CarefulRun(s, ops)
    ensures Agrees(Run(s, ops))
    decreases |ops|
  {
    if ops != [] {
      CarefulIsClean(s, ops[0]);
      StepAgreesIff(s, ops[0]);
      CarefulRunAgrees(Step(s, ops[0]), ops[1..]);
    }
  }
}
