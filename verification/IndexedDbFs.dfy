// The IndexedDB file system of web/sqflite_sw.js (`A.cc`, `A.i9`, over `A.fA`, `A.i8`): files live in
// memory, and every change of a persistent file is also queued as a work item for the block store.

module FileSystems {
  import opened Basics
  import opened FileContents
  import opened BlockWriters
  import opened WorkItems
  import opened BlockStores
  import opened Worlds
  import opened QueueStates
  import opened Flushes

  /** A queued work item. A write keeps a reference to the array that held the file before it, and
      that array may be written in place while the item waits. */
  datatype QItem =
    | QCreate(name: string)
    | QDelete(name: string)
    | QFlush
    | QResize(name: string, size: nat)
    | QWrite(name: string, original: array<Byte>, writes: seq<Write>)

  /** The item as it would run now. */
  ghost function Value(q: QItem): Item
    reads if q.QWrite? then {q.original} else {}
  {
    match q
    case QCreate(f) => Create(f)
    case QDelete(f) => Delete(f)
    case QFlush => Item.Flush
    case QResize(f, size) => Item.Resize(f, size)
    case QWrite(f, original, ws) => WriteTo(f, original[..], ws)
  }

  lemma ValueShape(q: QItem)
    ensures var it := Value(q);
      && (it.Create? <==> q.QCreate?) && (it.Delete? <==> q.QDelete?) && (it.Flush? <==> q.QFlush?)
      && (it.Resize? <==> q.QResize?) && (it.WriteTo? <==> q.QWrite?)
      && (!q.QFlush? ==> it.name == q.name)
  {
  }

  ghost function Values(qs: seq<QItem>): (r: seq<Item>)
    reads set q | q in qs && q.QWrite? :: q.original
    ensures |r| == |qs| && forall i :: 0 <= i < |qs| ==> r[i] == Value(qs[i])
  {
    if qs == [] then [] else Values(qs[..|qs| - 1]) + [Value(qs[|qs| - 1])]
  }

  lemma ValuesAround(a: seq<QItem>, q: QItem, b: seq<QItem>)
    ensures Values(a + [q] + b) == Values(a) + [Value(q)] + Values(b)
    ensures Values(a + b) == Values(a) + Values(b)
  {
    hide Value;
  }

  lemma ValuesSnoc(qs: seq<QItem>, q: QItem)
    ensures Values(qs + [q]) == Values(qs) + [Value(q)]
  {
    hide Value;
  }

  lemma Middle<T>(a: seq<T>, x: T, b: seq<T>)
    ensures (a + [x] + b)[..|a|] == a && (a + [x] + b)[|a| + 1..] == b
    ensures (a + b)[..|a|] == a && (a + b)[|a|..] == b
  {
  }

  /** The arrays that queued writes refer to, with the files they are for. */
  ghost function Captures(qs: seq<QItem>): set<(string, array<Byte>)> {
    set q | q in qs && q.QWrite? :: (q.name, q.original)
  }

  lemma NewWrite(f: string, original: array<Byte>, w: Write)
    ensures Value(QWrite(f, original, [w])) == WriteTo(f, original[..], [w])
    ensures Captures([QWrite(f, original, [w])]) == {(f, original)}
  {
    assert QWrite(f, original, [w]) in [QWrite(f, original, [w])];
  }

  lemma OneCapture(q: QItem)
    ensures Captures([q]) == if q.QWrite? then {(q.name, q.original)} else {}
  {
    assert q in [q];
  }

  lemma NewDelete(f: string)
    ensures Value(QDelete(f)) == Delete(f) && Captures([QDelete(f)]) == {}
  {
  }

  /** No two files share an array, and pending writes refer to arrays of their own file only. */
  ghost predicate Apart(mem: map<string, array<Byte>>, temp: set<string>, captures: set<(string, array<Byte>)>) {
    && (forall f, g :: f in mem && g in mem && f != g ==> mem[f] != mem[g])
    && (forall c, f :: c in captures && f in mem && mem[f] == c.1 ==> c.0 == f && f !in temp)
  }

  lemma FewerCaptures(mem: map<string, array<Byte>>, temp: set<string>, c: set<(string, array<Byte>)>,
                      c': set<(string, array<Byte>)>)
    requires Apart(mem, temp, c) && c' <= c
    ensures Apart(mem, temp, c')
  {
  }

  lemma FewerFiles(mem: map<string, array<Byte>>, temp: set<string>, c: set<(string, array<Byte>)>, f: string)
    requires Apart(mem, temp, c)
    ensures Apart(mem - {f}, temp, c)
  {
  }

  lemma NewArrayApart(mem: map<string, array<Byte>>, temp: set<string>, c: set<(string, array<Byte>)>, f: string,
                      a: array<Byte>)
    requires Apart(mem, temp, c) && a !in mem.Values && forall x :: x in c ==> x.1 != a
    ensures Apart(mem[f := a], temp, c) && Apart(mem[f := a], temp + {f}, c)
  {
  }

  ghost predicate IdsKnown(ids: map<string, nat>, db: Database) {
    forall n :: n in ids ==> ids[n] in db.files && db.files[ids[n]].name == n
  }

  lemma OwnArray(mem: map<string, array<Byte>>, temp: set<string>, c: set<(string, array<Byte>)>, f: string)
    requires Apart(mem, temp, c) && f in mem
    ensures f !in temp ==> Apart(mem, temp, c + {(f, mem[f])})
  {
  }

  lemma OwnWrites(mem: map<string, array<Byte>>, temp: set<string>, c: set<(string, array<Byte>)>, qs: seq<QItem>,
                  f: string)
    requires Apart(mem, temp, c) && f in mem && Captures(qs) <= c
    ensures forall i :: 0 <= i < |qs| && qs[i].QWrite? && qs[i].original == mem[f] ==> qs[i].name == f && f !in temp
    ensures forall g :: g in mem && g != f ==> mem[g] != mem[f]
  {
    forall i | 0 <= i < |qs| && qs[i].QWrite? && qs[i].original == mem[f] ensures qs[i].name == f && f !in temp {
      assert (qs[i].name, qs[i].original) in Captures(qs);
    }
  }

  lemma CapturedCopy(mem: map<string, array<Byte>>, temp: set<string>, c: set<(string, array<Byte>)>, f: string,
                     a: array<Byte>)
    requires Apart(mem, temp, c) && a !in mem.Values
    ensures Apart(mem, temp, c + {(f, a)})
  {
  }

  lemma SmallerTemp(mem: map<string, array<Byte>>, temp: set<string>, c: set<(string, array<Byte>)>, f: string)
    requires Apart(mem, temp, c)
    ensures Apart(mem, temp - {f}, c)
  {
  }

  /** An item before w went through the array a of file f, which then held content. */
  ghost predicate Was(it: Item, q: QItem, f: string, a: array<Byte>, content: Bytes)
    reads if q.QWrite? then {q.original} else {}
  {
    if q.QWrite? && q.original == a then q.name == f && it == WriteTo(f, content, q.writes) else it == Value(q)
  }

  lemma ArrayOverwritten(items: seq<Item>, qs: seq<QItem>, f: string, a: array<Byte>, content: Bytes, w: Write)
    requires |items| == |qs| && InPlace(content, w) && a[..] == MemWrite(content, w)
    requires forall i :: 0 <= i < |qs| ==> Was(items[i], qs[i], f, a, content)
    ensures Rewritten(items, Values(qs), f, content, w)
  {
    hide MemWrite, InPlace;
  }

  /** The cached ids and contents of all files but those in todo. */
  ghost predicate ReadOf(ids: map<string, nat>, contents: map<string, Bytes>, db: Database, todo: set<nat>) {
    && IdsKnown(ids, db) && contents.Keys == ids.Keys && todo <= db.files.Keys
    && (forall i :: i in db.files && i !in todo ==> db.files[i].name in contents)
    && (forall f :: f in contents ==> Some(contents[f]) == ReadBack(db.Record(ids[f])))
  }

  lemma ReadOneMore(ids: map<string, nat>, contents: map<string, Bytes>, db: Database, todo: set<nat>, i: nat)
    requires ReadOf(ids, contents, db, todo) && i in db.files && ReadBack(db.Record(i)).Some?
    ensures var n := db.files[i].name; ReadOf(ids[n := i], contents[n := ReadBack(db.Record(i)).value], db, todo - {i})
  {
    hide Database.Record, ReadBack;
  }

  lemma ReadAll(ids: map<string, nat>, contents: map<string, Bytes>, db: Database)
    requires ReadOf(ids, contents, db, {}) && db.Valid()
    ensures IdsKnown(ids, db) && contents.Keys == db.View().Keys
    ensures forall f :: f in contents ==> Some(contents[f]) == ReadBack(db.View()[f])
  {
    hide Database.View, Database.Valid, Database.Record, ReadBack;
    forall f ensures f in db.View() <==> f in contents {
      db.NotInView(f);
      if f in contents { db.ViewAt(ids[f]); }
    }
    forall f | f in contents ensures db.View()[f] == db.Record(ids[f]) {
      db.ViewAt(ids[f]);
    }
  }

  /** What runs: nothing, an item taken from the queue, or one whose effect is in the block store. */
  datatype Runner = Idle | Taken(item: QItem) | Done

  /** What the item that was taken does in the background. */
  datatype Background = Starts | TakesEffect | Completes

  datatype Event = Do(op: Op) | Behind(step: Background)

  /** Between two moments either nothing took effect, or the first pending item did. */
  ghost predicate Worked(a: seq<Item>, before: Store, b: seq<Item>, after: Store) {
    || (b == a && after == before)
    || (a != [] && b == a[1..] && after == Apply(a[0], before))
  }

  lemma {:induction false} CallsSnoc(events: seq<Event>, n: nat)
    requires n < |events|
    ensures Calls(events[..n + 1]) == Calls(events[..n]) + if events[n].Do? then [events[n].op] else []
  {
    if n == 0 {
      assert events[..0] == [] && events[..1] == [events[0]];
    } else {
      CallsSnoc(events[1..], n - 1);
      assert events[..n + 1][1..] == events[1..][..n] && events[..n][1..] == events[1..][..n - 1];
    }
  }

  function Calls(events: seq<Event>): seq<Op> {
    if events == [] then []
    else if events[0].Do? then [events[0].op] + Calls(events[1..])
    else Calls(events[1..])
  }

  class FileSystem {
    const disk: BlockStore
    var mem: map<string, array<Byte>>
    var temp: set<string>            // delete-on-close files, kept in memory only
    var ids: map<string, nat>        // cached ids of stored files
    var queue: seq<QItem>
    var runner: Runner

    ghost function First(): seq<QItem>
      reads this
    {
      if runner.Taken? then [runner.item] else []
    }

    ghost function Arrays(): set<array<Byte>>
      reads this
    {
      mem.Values + (set q | q in First() && q.QWrite? :: q.original) + (set q | q in queue && q.QWrite? :: q.original)
    }

    ghost function Contents(): (m: map<string, Bytes>)
      reads this, mem.Values
      ensures m.Keys == mem.Keys && forall f :: f in mem ==> m[f] == mem[f][..]
    {
      map f | f in mem :: mem[f][..]
    }

    ghost function Now(): State
      reads this, disk, Arrays()
    {
      State(Values(First()), Values(queue), Contents(), temp, disk.db.View())
    }

    /** Memory as it is, and the store as it will be once the queue has run dry. */
    ghost function Abstract(): World
      reads this, disk, Arrays()
    {
      Now().Meaning()
    }

    ghost function Captured(): set<(string, array<Byte>)>
      reads this
    {
      Captures(First()) + Captures(queue)
    }

    ghost predicate Valid()
      reads this, disk, Arrays()
    {
      disk.db.Valid() && IdsKnown(ids, disk.db) && Apart(mem, temp, Captured()) && Now().Good()
    }

    /** Files are in new arrays or where they were. */
    twostate predicate MemoryMoved()
      reads this
    {
      forall f :: f in mem ==> fresh(mem[f]) || (f in old(mem) && mem[f] == old(mem)[f])
    }

    /** `dr`: take the next item if none is running. */
    method Pump()
      requires Valid()
      modifies this`queue, this`runner
      ensures Valid() && Abstract() == old(Abstract())
      ensures old(runner).Idle? ==>
        if old(queue) == [] then queue == [] && runner.Idle? else queue == old(queue)[1..] && runner.Taken?
      ensures !old(runner).Idle? ==> queue == old(queue) && runner == old(runner)
      ensures Now().Pending() == old(Now().Pending())
    {
      hide Database.View, Database.Valid, State.Good, State.Meaning, Apart, IdsKnown, Values;
      if runner.Idle? && |queue| > 0 {
        ghost var s, c := Now(), Captured();
        runner, queue := Taken(queue[0]), queue[1..];
        assert Now() == s.(first := [s.queue[0]], queue := s.queue[1..]);
        assert Now().Pending() == s.Pending();
        TakenKeepsMeaning(s);
        FewerCaptures(mem, temp, c, Captured());
      }
    }

    // ----- loading

    constructor (disk: BlockStore)
      ensures this.disk == disk && queue == [] && runner == Idle && mem == map[] && temp == {} && ids == map[]
    {
      this.disk := disk;
      queue, runner, mem, temp, ids := [], Idle, map[], {}, map[];
    }

    /** Before and while loading: nothing is queued, and memory is what was read of the files outside todo. */
    ghost predicate LoadedBut(todo: set<nat>)
      reads this, disk, mem.Values
    {
      && queue == [] && runner.Idle? && temp == {}
      && Apart(mem, {}, {}) && ReadOf(ids, Contents(), disk.db, todo)
    }

    lemma LoadedIsValid()
      requires LoadedBut({}) && disk.db.Valid()
      ensures Valid() && Abstract() == World(Contents(), {}, disk.db.View())
      ensures queue == [] && runner.Idle? && mem.Keys == disk.db.View().Keys
      ensures forall f :: f in mem ==> Some(mem[f][..]) == ReadBack(disk.db.View()[f])
    {
      hide Database.View, Database.Valid, ReadOf, ReadBack, Apart;
      ReadAll(ids, Contents(), disk.db);
      NothingPending(Contents(), disk.db.View());
      assert Captured() == {};
    }

    /** `fC`, `aU`: every stored file is read into memory; false where reading one throws. */
    method Load() returns (ok: bool)
      requires disk.db.Valid() && LoadedBut(disk.db.files.Keys) && mem == map[]
      modifies this`mem, this`ids
      ensures ok ==> Valid() && Abstract() == World(Contents(), {}, disk.db.View()) && MemoryMoved()
      ensures ok ==> queue == [] && runner.Idle? && mem.Keys == disk.db.View().Keys
      ensures ok ==> forall f :: f in mem ==> Some(mem[f][..]) == ReadBack(disk.db.View()[f])
      ensures ok <==> forall i :: i in disk.db.files ==> ReadBack(disk.db.Record(i)).Some?
    {
      hide Database.View, Database.Valid, Database.Record, ReadBack, LoadedBut;
      var todo := disk.db.files.Keys;
      while todo != {}
        invariant LoadedBut(todo) && todo <= disk.db.files.Keys
        invariant MemoryMoved()
        invariant forall i :: i in disk.db.files && i !in todo ==> ReadBack(disk.db.Record(i)).Some?
        decreases todo
      {
        var i :| i in todo;
        ok := LoadOne(i, todo);
        if !ok { return; }
        todo := todo - {i};
      }
      LoadedIsValid();
      ok := true;
    }

    method LoadOne(i: nat, ghost todo: set<nat>) returns (ok: bool)
      requires disk.db.Valid() && LoadedBut(todo) && i in todo && i in disk.db.files
      modifies this`mem, this`ids
      ensures ok <==> ReadBack(disk.db.Record(i)).Some?
      ensures ok ==> LoadedBut(todo - {i}) && MemoryMoved()
    {
      hide Database.View, Database.Record, ReadBack, ReadOf, Apart;
      var content := disk.Read(i);
      if content.None? { return false; }
      var n := disk.db.files[i].name;
      ghost var c := Contents();
      var a := NewArray(content.value);
      NewArrayApart(mem, {}, {}, n, a);
      ReadOneMore(ids, c, disk.db, todo, i);
      mem, ids := mem[n := a], ids[n := i];
      assert Contents() == c[n := content.value];
      ok := true;
    }

    static method NewArray(data: Bytes) returns (a: array<Byte>)
      ensures fresh(a) && a[..] == data
    {
      a := new Byte[|data|];
      CopyInto(a, 0, data);
    }

    /** `setRange`. */
    static method CopyInto(dst: array<Byte>, at: nat, data: Bytes)
      requires at + |data| <= dst.Length
      modifies dst
      ensures forall i :: 0 <= i < dst.Length ==>
        dst[i] == if at <= i < at + |data| then data[i - at] else old(dst[i])
    {
      var k := 0;
      while k < |data|
        invariant 0 <= k <= |data|
        invariant forall i :: 0 <= i < dst.Length ==>
          dst[i] == if at <= i < at + k then data[i - at] else old(dst[i])
      {
        dst[at + k] := data[k];
        k := k + 1;
      }
    }

    // ----- submitting items (`aV`, `cz`)

    /** `A.a8.cz`: at the end of the queue. */
    method Append(q: QItem)
      modifies this`queue
      ensures Values(queue) == Values(old(queue)) + [Value(q)]
      ensures Captures(queue) == Captures(old(queue)) + Captures([q])
      ensures !q.QWrite? ==> Captured() == old(Captured())
      ensures Now() == old(Now()).(queue := old(Now()).queue + [Value(q)])
    {
      hide Value, Values, Database.View;
      ghost var s, c := Now(), Captures(queue);
      ValuesSnoc(queue, q);
      queue := queue + [q];
      assert Captures(queue) == c + Captures([q]);
      assert Values(First()) == s.first && Contents() == s.mem;
    }

    /** The scan of `A.cw.cz`: a pending write of the same file, unless something stands in between. */
    method FindPending(f: string) returns (at: Option<nat>)
      ensures at == MergeAt(Values(queue), f)
    {
      hide Values, Value, MergeAt;
      ghost var vs := Values(queue);
      var s := |queue|;
      assert vs[..s] == vs;
      while s > 0
        invariant 0 <= s <= |queue| && MergeAt(vs, f) == MergeAt(vs[..s], f)
      {
        s := s - 1;
        var q := queue[s];
        MergeAtLast(vs[..s + 1], f);
        ValueShape(q);
        assert vs[..s + 1][..s] == vs[..s] && vs[..s + 1][s] == Value(q);
        if q.QWrite? {
          if q.name == f { return Some(s); }
        } else if q.QCreate? {
          if q.name == f { return None; }
        } else {
          return None;
        }
      }
      ScanNothing(f);
      at := None;
    }

    /** `A.cw.cz`. */
    method SubmitWrite(f: string, original: array<Byte>, w: Write) returns (accepted: bool)
      modifies this`queue
      ensures Now() == old(Now()).(queue := AfterWrite(old(Now()).queue, f, original[..], w))
      ensures Captured() <= old(Captured()) + {(f, original)}
    {
      hide Values, Value, MergeAt, Captures, Database.View;
      var at := FindPending(f);
      NewWrite(f, original, w);
      if at.Some? {
        ValueShape(queue[at.value]);
        Extend(at.value, w);
      } else {
        Append(QWrite(f, original, [w]));
      }
      accepted := at.None?;
    }

    /** `aW` on the list of writes. */
    method Extend(s: nat, w: Write)
      requires s < |queue| && queue[s].QWrite?
      modifies this`queue
      ensures var vs := Values(old(queue));
        Values(queue) == vs[s := WriteTo(vs[s].name, vs[s].original, vs[s].writes + [w])]
      ensures Captures(queue) <= Captures(old(queue))
    {
      queue := queue[s := QWrite(queue[s].name, queue[s].original, queue[s].writes + [w])];
    }

    /** The scan of `A.dd.cz`: unlink pending writes of the file, cancel against a pending create, and
        leave it at a pending delete. */
    method CancelPending(f: string) returns (pending: bool)
      modifies this`queue
      ensures (Values(queue), pending) == DeleteScan(Values(old(queue)), f)
      ensures Captures(queue) <= Captures(old(queue))
    {
      hide Values, Value, Captures, Scanning, DeleteScan;
      ghost var before, vs := queue, Values(queue);
      var s := |queue|;
      ScanStarts(vs, f);
      while s > 0
        invariant 0 <= s <= |queue| && Scanning(vs, Values(queue), s, f) && Captures(queue) <= Captures(before)
        decreases s
      {
        s := s - 1;
        var q := queue[s];
        ValueShape(q);
        ScanGoesOn(vs, Values(queue), s, f);
        if q.QDelete? {
          if q.name == f { return false; }
        } else if q.QWrite? {
          if q.name == f { Unlink(s); }
        } else if q.QCreate? {
          if q.name == f {
            Unlink(s);
            return false;
          }
        } else {
          return true;
        }
      }
      ScanEnds(vs, Values(queue), f);
      pending := true;
    }

    /** `A.dd.cz`. */
    method SubmitDelete(f: string) returns (accepted: bool)
      modifies this`queue
      ensures Now() == old(Now()).(queue := AfterDelete(old(Now()).queue, f))
      ensures Captured() <= old(Captured())
    {
      hide Values, Value, DeleteScan, Captures, Database.View;
      NewDelete(f);
      accepted := CancelPending(f);
      if accepted { Append(QDelete(f)); }
    }

    /** `ck`: take an item out of the list. */
    method Unlink(s: nat)
      requires s < |queue|
      modifies this`queue
      ensures queue == old(queue)[..s] + old(queue)[s + 1..] && Captures(queue) <= Captures(old(queue))
      ensures Values(queue) == Values(old(queue))[..s] + Values(old(queue))[s + 1..]
    {
      hide Values, Value;
      ghost var a, q, b := queue[..s], queue[s], queue[s + 1..];
      assert queue == a + [q] + b;
      ValuesAround(a, q, b);
      Middle(Values(a), Value(q), Values(b));
      queue := queue[..s] + queue[s + 1..];
    }

    // ----- the files in memory (`A.fA`, `A.i8`)

    /** The file gets an array of its own. */
    method PutFile(f: string, data: Bytes, ghost c: set<(string, array<Byte>)>)
      requires Apart(mem, temp, c)
      modifies this`mem
      ensures mem.Keys == old(mem.Keys) + {f} && MemoryMoved() && Now() == old(Now()).(mem := old(Now()).mem[f := data])
      ensures Apart(mem, temp, c) && Apart(mem, temp + {f}, c) && Captured() == old(Captured())
    {
      hide Values, Value, Database.View, Apart, Captures;
      ghost var s := Contents();
      var a := NewArray(data);
      NewArrayApart(mem, temp, c, f, a);
      mem := mem[f := a];
      assert Contents() == s[f := data];
    }

    method SetTemp(t: set<string>)
      modifies this`temp
      ensures temp == t && Now() == old(Now()).(temp := t) && Captured() == old(Captured())
    {
      temp := t;
    }

    // ----- the calls

    /** `b4`; false where the in-memory file system refuses with "unable to open" (14). */
    method Open(f: string, create: bool, deleteOnClose: bool) returns (ok: bool)
      requires Valid()
      modifies this
      ensures Valid() && Abstract() == Step(old(Abstract()), Op.Open(f, create, deleteOnClose)) && MemoryMoved()
      ensures ok == (f in old(mem) || create)
      ensures Contents() == if ok && f !in old(mem) then old(Contents())[f := []] else old(Contents())
      ensures temp == if ok && f !in old(mem) && deleteOnClose then old(temp) + {f} else old(temp)
      ensures FencesKept(old(Now().Pending()), Now().Pending())
    {
      hide Database.View, Database.Valid, State.Good, State.Meaning, Values, Captured, Apart, IdsKnown, Contents, Now,
        First;
      ghost var s := Now();
      MeaningParts(s);
      Parts();
      MemoryPart();
      FencesSame(s.Pending());
      if f in mem { return true; }
      if !create { return false; }
      ok := true;
      OpenMeans(s, f, deleteOnClose);
      PutFile(f, [], Captured());
      if deleteOnClose {
        SetTemp(temp + {f});
      } else {
        FencesSnoc(s.first, s.queue, Create(f));
        Append(QCreate(f));
        Pump();
      }
      MemoryPart();
    }

    lemma Parts()
      ensures Now().mem.Keys == mem.Keys && Now().temp == temp && Now().store == disk.db.View()
      ensures forall f :: f in mem ==> Now().mem[f] == mem[f][..]
    {
    }

    lemma MemoryPart()
      ensures Abstract().mem == Contents() && Abstract().temp == temp
    {
    }

    /** `i8.bM`; a missing file is made. */
    method Resize(f: string, size: nat)
      requires Apart(mem, temp, Captured())
      modifies this`mem
      ensures mem.Keys == old(mem.Keys) + {f} && MemoryMoved()
      ensures Now() == old(Now()).(mem := old(Now()).mem[f := MemTruncate(old(Now()).Content(f), size)])
      ensures Apart(mem, temp, Captured())
    {
      hide Values, Database.View, Apart, Captured, First;
      var p: seq<Byte> := seq(size, _ => 0);
      ghost var content := Now().Content(f);
      if f in mem {
        var keep := if size < mem[f].Length then size else mem[f].Length;
        p := mem[f][..keep] + p[keep..];
      }
      assert p == MemTruncate(content, size);
      PutFile(f, p, Captured());
    }

    /** `i9.bM`. */
    method SetSize(f: string, size: nat)
      requires Valid()
      modifies this
      ensures Valid() && Abstract() == Step(old(Abstract()), Op.SetSize(f, size)) && MemoryMoved()
      ensures Contents() ==
        old(Contents())[f := MemTruncate(if f in old(mem) then old(Contents())[f] else [], size)] && temp == old(temp)
      ensures FencesKept(old(Now().Pending()), Now().Pending())
    {
      hide Database.View, Database.Valid, State.Good, State.Meaning, Values, Captured, Apart, IdsKnown, Contents, Now,
        First;
      ghost var s, op := Now(), Op.SetSize(f, size);
      MeaningParts(s);
      Parts();
      MemoryPart();
      FencesSame(s.Pending());
      Resize(f, size);
      if f in temp {
        TempMeans(s, op);
      } else {
        BarrierMeans(s, op, Item.Resize(f, size));
        FencesSnoc(s.first, s.queue, Item.Resize(f, size));
        Append(QResize(f, size));
        Pump();
      }
      MemoryPart();
    }

    /** `fT`: the flush waits behind everything that is pending. */
    method Flush()
      requires Valid()
      modifies this`queue, this`runner
      ensures Valid() && Abstract() == Step(old(Abstract()), FlushAll) && MemoryMoved()
      ensures Now().Pending() == old(Now().Pending()) + [Item.Flush]
      ensures FencesKept(old(Now().Pending()), Now().Pending())
    {
      hide Database.View, Database.Valid, State.Good, State.Meaning, Values, Captured, Apart, IdsKnown, Contents, Now,
        First;
      ghost var s := Now();
      MeaningParts(s);
      BarrierMeans(s, FlushAll, Item.Flush);
      FencesSnoc(s.first, s.queue, Item.Flush);
      Append(QFlush);
      assert Now().Pending() == s.Pending() + [Item.Flush];
      Pump();
    }

    method DropFile(f: string)
      requires Apart(mem, temp, Captured())
      modifies this`mem
      ensures mem.Keys == old(mem.Keys) - {f} && MemoryMoved() && Now() == old(Now()).(mem := old(Now()).mem - {f})
      ensures Apart(mem, temp, Captured()) && Captured() == old(Captured())
    {
      hide Values, Value, Database.View, Apart, Captures;
      ghost var c := Contents();
      FewerFiles(mem, temp, Captured(), f);
      mem := mem - {f};
      assert Contents() == c - {f};
    }

    /** `cR`. */
    method Remove(f: string)
      requires Valid()
      modifies this
      ensures Valid() && Abstract() == Step(old(Abstract()), Op.Remove(f)) && MemoryMoved()
      ensures Contents() == old(Contents()) - {f} && temp == old(temp) - {f}
      ensures FencesKept(old(Now().Pending()), Now().Pending())
    {
      hide Database.View, Database.Valid, State.Good, State.Meaning, Values, Captured, Apart, IdsKnown, Contents, Now,
        First, AfterDelete;
      ghost var s, op := Now(), Op.Remove(f);
      MeaningParts(s);
      Parts();
      MemoryPart();
      FencesSame(s.Pending());
      DropFile(f);
      if f in temp {
        TempMeans(s, op);
        SmallerTemp(mem, temp, Captured(), f);
        SetTemp(temp - {f});
      } else {
        RemoveMeans(s, f);
        FencesDeleted(s.first, s.queue, f);
        ghost var c := Captured();
        var accepted := SubmitDelete(f);
        FewerCaptures(mem, temp, c, Captured());
        if accepted { Pump(); }
      }
      MemoryPart();
    }

    // ----- writing

    static method SetRange(a: array<Byte>, w: Write)
      requires w.End() <= a.Length
      modifies a
      ensures a[..] == MemWrite(old(a[..]), w)
    {
      ghost var content := a[..];
      CopyInto(a, w.offset, w.data);
      assert a[..] == MemWrite(content, w);
    }

    /** `setRange` on the array of file f, which shows in the file and in the queued writes that refer to it. */
    method Overwrite(f: string, w: Write)
      requires f in mem && w.End() <= mem[f].Length && Apart(mem, temp, Captured())
      modifies mem[f]
      ensures mem[f][..] == MemWrite(old(mem[f][..]), w)
      ensures |Now().first| == |old(Now()).first|
      ensures Now() == old(Now()).(first := Now().first, queue := Now().queue,
        mem := old(Now()).mem[f := MemWrite(old(mem[f][..]), w)])
      ensures Rewritten(old(Now()).first, Now().first, f, old(mem[f][..]), w)
      ensures Rewritten(old(Now()).queue, Now().queue, f, old(mem[f][..]), w)
      ensures f in temp ==> Now().first == old(Now()).first && Now().queue == old(Now()).queue
    {
      hide Values, Database.View, Rewritten, MemWrite, Apart, Captures;
      ghost var s, content := Now(), mem[f][..];
      OwnWrites(mem, temp, Captured(), First(), f);
      OwnWrites(mem, temp, Captured(), queue, f);
      SetRange(mem[f], w);
      forall i | 0 <= i < |First()|
        ensures Was(s.first[i], First()[i], f, mem[f], content) && (f in temp ==> s.first[i] == Value(First()[i]))
      {
      }
      forall i | 0 <= i < |queue|
        ensures Was(s.queue[i], queue[i], f, mem[f], content) && (f in temp ==> s.queue[i] == Value(queue[i]))
      {
      }
      ArrayOverwritten(s.first, First(), f, mem[f], content, w);
      ArrayOverwritten(s.queue, queue, f, mem[f], content, w);
      assert Contents() == s.mem[f := MemWrite(content, w)];
    }

    /** `i8.bN` on an existing file: in place where the data fits, otherwise into a longer array. */
    method WriteMemory(f: string, w: Write)
      requires f in mem && Apart(mem, temp, Captured())
      modifies this`mem, mem[f]
      ensures mem.Keys == old(mem.Keys) && MemoryMoved()
      ensures |Now().first| == |old(Now()).first|
      ensures Now() == old(Now()).(first := Now().first, queue := Now().queue,
        mem := old(Now()).mem[f := MemWrite(old(Now()).mem[f], w)])
      ensures Rewritten(old(Now()).first, Now().first, f, old(Now()).mem[f], w)
      ensures Rewritten(old(Now()).queue, Now().queue, f, old(Now()).mem[f], w)
      ensures f in temp ==> Now().first == old(Now()).first && Now().queue == old(Now()).queue
      ensures old(mem[f])[..] == old(mem[f][..]) ||
        (InPlace(old(mem[f][..]), w) && old(mem[f])[..] == MemWrite(old(mem[f][..]), w))
      ensures Captured() == old(Captured()) && Apart(mem, temp, Captured())
      ensures f !in temp ==> Apart(mem, temp, Captured() + {(f, old(mem[f]))})
    {
      hide Values, Database.View, Rewritten, Apart, Captured, Now, First, MemWrite, InPlace;
      Parts();
      var m := mem[f];
      OwnArray(mem, temp, Captured(), f);
      if w.End() <= m.Length {
        assert InPlace(m[..], w) by { Fits(m[..], w); }
        Overwrite(f, w);
      } else {
        NotRewritten(Now().first, f, m[..], w);
        NotRewritten(Now().queue, f, m[..], w);
        var p := Grown(m, w);
        ghost var c := if f in temp then Captured() else Captured() + {(f, m)};
        PutFile(f, p, c);
        FewerCaptures(mem, temp, c, Captured());
      }
    }

    /** `i8.bN` on a missing file, which is made unless nothing is written; empty is the array that stands
        for its content. */
    method WriteMissing(f: string, w: Write) returns (empty: array<Byte>)
      requires f !in mem && Apart(mem, temp, Captured())
      modifies this`mem
      ensures mem.Keys == old(mem.Keys) + (if w.End() > 0 then {f} else {}) && MemoryMoved()
      ensures Now() == old(Now()).(mem := if w.End() > 0 then old(Now()).mem[f := MemWrite([], w)] else old(Now()).mem)
      ensures empty[..] == [] && Captured() == old(Captured())
      ensures Apart(mem, temp, Captured()) && Apart(mem, temp, Captured() + {(f, empty)})
    {
      hide Values, Database.View, Apart, MemWrite;
      ghost var s := Now();
      empty := NewArray([]);
      assert Now() == s;
      CapturedCopy(mem, temp, Captured(), f, empty);
      ghost var c := Captured() + {(f, empty)};
      if w.End() > 0 {
        var p := Grown(empty, w);
        PutFile(f, p, c);
      }
      FewerCaptures(mem, temp, c, Captured());
    }

    method Grown(m: array<Byte>, w: Write) returns (data: Bytes)
      requires w.End() > m.Length
      ensures data == MemWrite(m[..], w) && Now() == old(Now())
    {
      hide Values, Database.View;
      var p := new Byte[w.End()](_ => 0);
      CopyInto(p, 0, m[..]);
      CopyInto(p, w.offset, w.data);
      data := p[..];
      assert data == MemWrite(m[..], w);
    }

    /** `i9.bN`. */
    method WriteAt(f: string, w: Write)
      requires Valid()
      modifies this, if f in mem then {mem[f]} else {}
      ensures Valid() && Abstract() == Step(old(Abstract()), Op.WriteAt(f, w)) && MemoryMoved()
      ensures f in old(mem) ==> Contents() == old(Contents())[f := MemWrite(old(Contents())[f], w)]
      ensures f !in old(mem) ==>
        Contents() == if w.End() > 0 then old(Contents())[f := MemWrite([], w)] else old(Contents())
      ensures temp == old(temp)
      ensures FencesWritten(old(Now().Pending()), Now().Pending(), f, old(Now().Content(f)), w)
    {
      hide Database.View, Database.Valid, State.Good, State.Meaning, Values, Captured, Apart, IdsKnown,
        Contents, Now, First, Rewritten, InPlace, AfterWrite;
      ghost var s, op := Now(), Op.WriteAt(f, w);
      MeaningParts(s);
      Parts();
      MemoryPart();
      NotRewritten(s.first, f, s.Content(f), w);
      NotRewritten(s.queue, f, s.Content(f), w);
      FencesUnwritten(s, f, w);
      var original;
      if f in mem {
        original := mem[f];
        WriteMemory(f, w);
      } else {
        original := WriteMissing(f, w);
      }
      if f in temp {
        TempMeans(s, op);
      } else {
        ghost var t, c := Now(), Captured() + {(f, original)};
        WriteMeans(s, t.first, t.queue, f, original[..], w);
        FencesRewritten(s, t.first, t.queue, f, s.Content(f), original[..], w);
        var accepted := SubmitWrite(f, original, w);
        FewerCaptures(mem, temp, c, Captured());
        if accepted { Pump(); }
      }
      MemoryPart();
    }

    // ----- running items (`E`, `jK`)

    /** `ao`; None where it throws. */
    method IdOf(f: string) returns (id: Option<nat>)
      requires disk.db.Valid() && IdsKnown(ids, disk.db)
      modifies this`ids
      ensures IdsKnown(ids, disk.db) && (id.Some? <==> f in disk.db.View())
      ensures id.Some? ==>
        id.value in disk.db.files && disk.db.files[id.value].name == f && ids == old(ids)[f := id.value]
      ensures id.None? ==> ids == old(ids)
    {
      hide Database.View;
      if f in ids {
        disk.db.ViewAt(ids[f]);
        return Some(ids[f]);
      }
      id := disk.Lookup(f);
      if id.Some? { ids := ids[f := id.value]; }
    }

    /** `E` of the four kinds of items; where it throws, nothing has changed. */
    method RunItem(q: QItem)
      requires disk.db.Valid() && IdsKnown(ids, disk.db)
      modifies this`ids, disk
      ensures disk.db.Valid() && IdsKnown(ids, disk.db) && disk.db.View() == Apply(Value(q), old(disk.db.View()))
    {
      hide Database.View, Database.Valid, Database.Record, Truncated, Patched, MemWrites;
      match q
      case QFlush =>
      case QCreate(f) =>
        var id := disk.Add(f);
        if id.Some? { ids := ids[f := id.value]; }
      case QDelete(f) =>
        var id := IdOf(f);
        if id.Some? {
          disk.db.ViewAt(id.value);
          ids := ids - {f};
          disk.Delete(id.value);
        }
      case QResize(f, size) =>
        var id := IdOf(f);
        if id.Some? {
          disk.db.ViewAt(id.value);
          var done := disk.Truncate(id.value, size);
        }
      case QWrite(f, original, writes) =>
        RunWrite(f, original, writes);
    }

    /** `A.cw.E`. */
    method RunWrite(f: string, original: array<Byte>, writes: seq<Write>)
      requires disk.db.Valid() && IdsKnown(ids, disk.db)
      modifies this`ids, disk
      ensures disk.db.Valid() && IdsKnown(ids, disk.db)
      ensures disk.db.View() == Apply(WriteTo(f, original[..], writes), old(disk.db.View()))
    {
      hide Database.View, Database.Valid, Database.Record, Patched, MemWrites;
      var blocks := new BlockWriter(original[..]);
      for n := 0 to |writes|
        invariant blocks.Represents(writes[..n])
        modifies blocks
      {
        blocks.Add(writes[n], writes[..n]);
        assert writes[..n] + [writes[n]] == writes[..n + 1];
      }
      assert writes[..|writes|] == writes;
      var id := IdOf(f);
      if id.Some? {
        disk.db.ViewAt(id.value);
        var done := disk.PutBlocks(id.value, blocks, MemWrites(original[..], writes), TouchedByAll(writes));
      }
    }

    /** The first part of `A.cw.E`: what a write takes from memory, it takes when it starts. */
    method Start()
      requires Valid() && runner.Taken?
      modifies this`runner
      ensures Valid() && Abstract() == old(Abstract()) && runner.Taken? && queue == old(queue)
      ensures Now().Pending() == old(Now().Pending())
    {
      hide Database.View, Database.Valid, State.Good, State.Meaning, Apart, IdsKnown, Values, Captures, Contents;
      if runner.item.QWrite? {
        ghost var s, c, q := Now(), Captured(), runner.item;
        var copy := NewArray(runner.item.original[..]);
        CapturedCopy(mem, temp, c, q.name, copy);
        runner := Taken(QWrite(runner.item.name, copy, runner.item.writes));
        OneCapture(runner.item);
        FewerCaptures(mem, temp, c + {(q.name, copy)}, Captured());
        assert Value(runner.item) == s.first[0];
        assert Values(First()) == s.first && Values(queue) == s.queue && Contents() == s.mem;
        assert Now() == s;
      }
    }

    /** The item has its effect on the block store. */
    method Execute()
      requires Valid() && runner.Taken?
      modifies this`runner, this`ids, disk
      ensures Valid() && Abstract() == old(Abstract()) && runner == Done && queue == old(queue)
      ensures |old(Now().Pending())| > 0 && Now().Pending() == old(Now().Pending())[1..]
      ensures disk.db.View() == Apply(old(Now().Pending())[0], old(disk.db.View()))
    {
      hide Database.View, Database.Valid, State.Good, State.Meaning, Apart, IdsKnown, Values, Value, Contents, Apply;
      ghost var s, c := Now(), Captured();
      assert s.first == [Value(runner.item)];
      ExecutedKeepsMeaning(s);
      RunItem(runner.item);
      runner := Done;
      FewerCaptures(mem, temp, c, Captured());
      assert Now() == s.(first := [], store := Apply(s.first[0], s.store));
    }

    /** `jK`: the item has completed, and the next one is taken. */
    method Finish()
      requires Valid() && runner.Done?
      modifies this`runner, this`queue
      ensures Valid() && Abstract() == old(Abstract())
      ensures if old(queue) == [] then queue == [] && runner.Idle? else queue == old(queue)[1..] && runner.Taken?
      ensures Now().Pending() == old(Now().Pending())
    {
      hide Database.View, Database.Valid, State.Good, State.Meaning, Apart, IdsKnown, Values, Contents;
      ghost var s, c := Now(), Captured();
      runner := Idle;
      assert Now() == s && Captured() == c;
      Pump();
    }

    // ----- whole histories

    method Call(op: Op)
      requires Valid()
      modifies this, mem.Values
      ensures Valid() && Abstract() == Step(old(Abstract()), op) && MemoryMoved()
      ensures
        if op.WriteAt?
        then FencesWritten(old(Now().Pending()), Now().Pending(), op.name, ContentOf(old(Abstract()), op.name), op.w)
        else FencesKept(old(Now().Pending()), Now().Pending())
    {
      hide Database.View, Database.Valid, State.Good, State.Meaning, Apart, IdsKnown, Values, Contents, Valid,
        FencesKept, FencesWritten, Now;
      MeaningParts(Now());
      match op
      case Open(f, create, deleteOnClose) => var ok := Open(f, create, deleteOnClose);
      case WriteAt(f, w) => WriteAt(f, w);
      case SetSize(f, size) => SetSize(f, size);
      case Remove(f) => Remove(f);
      case FlushAll => Flush();
    }

    /** A step of the item that runs; one that is not possible now is skipped. At most the first pending
        item takes effect. */
    method Work(step: Background)
      requires Valid()
      modifies this`runner, this`queue, this`ids, disk
      ensures Valid() && Abstract() == old(Abstract())
      ensures Worked(old(Now().Pending()), old(disk.db.View()), Now().Pending(), disk.db.View())
      ensures step != TakesEffect ==> Now().Pending() == old(Now().Pending())
    {
      hide Valid, Abstract, Now, Database.View, Apply;
      if step == Starts && runner.Taken? { Start(); }
      if step == TakesEffect && runner.Taken? { Execute(); }
      if step == Completes && runner.Done? { Finish(); }
    }

    /** Calls and background steps in any order: the calls mean what they mean without a queue. */
    method Serve(events: seq<Event>)
      requires Valid()
      modifies this, disk, mem.Values
      ensures Valid() && Abstract() == Run(old(Abstract()), Calls(events)) && MemoryMoved()
    {
      hide Valid, Abstract, Now, Database.View, Step, FencesKept, FencesWritten, Worked, ContentOf;
      ghost var first, ops := Abstract(), [];
      var n := 0;
      while n < |events|
        invariant n <= |events| && Valid() && MemoryMoved()
        invariant ops == Calls(events[..n]) && Abstract() == Run(first, ops)
      {
        CallsSnoc(events, n);
        match events[n] {
          case Do(op) =>
            RunSnoc(first, ops, op);
            Call(op);
            ops := ops + [op];
          case Behind(step) =>
            Work(step);
        }
        n := n + 1;
      }
      assert events[..n] == events;
    }

    /** The queue runs dry. */
    method Settle()
      requires Valid()
      modifies this`runner, this`queue, this`ids, disk
      ensures Valid() && Abstract() == old(Abstract()) && runner.Idle? && queue == []
      ensures disk.db.View() == Abstract().store
    {
      hide Valid, Abstract;
      Pump();
      while !runner.Idle? || queue != []
        invariant Valid() && Abstract() == old(Abstract()) && (runner.Idle? ==> queue == [])
        decreases |queue|, if runner.Taken? then 2 else if runner.Done? then 1 else 0
      {
        if runner.Taken? {
          Start();
          Execute();
        } else {
          Finish();
        }
      }
      Settled();
    }

    lemma Settled()
      requires Valid() && runner.Idle? && queue == []
      ensures disk.db.View() == Abstract().store
    {
    }

    function PendingCount(): nat
      reads this
    {
      (if runner.Taken? then 1 else 0) + |queue|
    }

    lemma Counts()
      ensures |Now().Pending()| == PendingCount()
    {
      hide Database.View;
    }

    /** `fT`: the flush waits behind everything that is pending. */
    method BeginFlush() returns (waiting: nat)
      requires Valid()
      modifies this`queue, this`runner
      ensures Valid() && Abstract() == old(Abstract())
      ensures Waits(old(Abstract()), [], Now().Pending(), waiting, disk.db.View())
    {
      hide Valid, Database.View, Waits, State.Meaning;
      Counts();
      waiting := PendingCount();
      FlushWaits(Now(), waiting);
      Flush();
    }

    /** A background step while a flush waits behind as many items. */
    method WorkTowards(step: Background, waiting: nat, ghost w: World, ghost ops: seq<Op>) returns (done: bool,
                       left: nat)
      requires Valid() && Waits(w, ops, Now().Pending(), waiting, disk.db.View())
      modifies this`runner, this`queue, this`ids, disk
      ensures Valid() && Abstract() == old(Abstract())
      ensures if done then AsOf(w, ops, disk.db.View()) else Waits(w, ops, Now().Pending(), left, disk.db.View())
      ensures done ==> step == TakesEffect
    {
      hide Valid, Abstract, Now, Database.View, Apply, AsOf, Drain;
      ghost var p, st := Now().Pending(), disk.db.View();
      Counts();
      var count := PendingCount();
      Work(step);
      Counts();
      done, left := false, waiting;
      if PendingCount() < count {
        HeadKeepsFlush(p, waiting, st);
        if waiting == 0 { done := true; } else { left := waiting - 1; }
      }
    }

    /** The items in front of a flush run, and then the flush. */
    method Await(waiting: nat, ghost w: World, ghost ops: seq<Op>)
      requires Valid() && Waits(w, ops, Now().Pending(), waiting, disk.db.View())
      modifies this`runner, this`queue, this`ids, disk
      ensures Valid() && Abstract() == old(Abstract()) && AsOf(w, ops, disk.db.View())
    {
      hide Valid, Abstract, Now, Database.View, Apply, AsOf, Drain;
      var left, done := waiting, false;
      while !done
        invariant Valid() && Abstract() == old(Abstract())
        invariant if done then AsOf(w, ops, disk.db.View()) else Waits(w, ops, Now().Pending(), left, disk.db.View())
        decreases !done, left, !runner.Taken?
      {
        Counts();
        if runner.Taken? {
          Start();
          HeadKeepsFlush(Now().Pending(), left, disk.db.View());
          Execute();
          if left == 0 { done := true; } else { left := left - 1; }
        } else if runner.Done? {
          Finish();
        } else {
          Pump();
        }
      }
    }

    /** A flush, and the time until its future completes. The calls that come in between mean what they always
        mean; and when the flush has taken effect, the store holds all files as of the flush, but for blocks
        that were overwritten in place in the meantime. */
    method FlushAndServe(events: seq<Event>) returns (served: nat)
      requires Valid()
      modifies this, disk, mem.Values
      ensures served <= |events| && Valid() && MemoryMoved()
      ensures Abstract() == Run(old(Abstract()), Calls(events[..served]))
      ensures AsOf(old(Abstract()), Calls(events[..served]), disk.db.View())
      ensures served < |events| ==> served > 0 && events[served - 1] == Behind(TakesEffect)
    {
      hide Valid, Abstract, Now, Database.View, AsOf, Step, FencesKept, FencesWritten, Waits;
      ghost var w, ops := Abstract(), [];
      var waiting := BeginFlush();
      served := 0;
      var done := false;
      while served < |events| && !done
        invariant served <= |events| && Valid() && MemoryMoved()
        invariant ops == Calls(events[..served]) && Abstract() == Run(w, ops)
        invariant if done then AsOf(w, ops, disk.db.View()) else Waits(w, ops, Now().Pending(), waiting, disk.db.View())
        invariant done ==> served > 0 && events[served - 1] == Behind(TakesEffect)
        decreases |events| - served
      {
        CallsSnoc(events, served);
        match events[served] {
          case Do(op) =>
            ghost var p := Now().Pending();
            RunSnoc(w, ops, op);
            Call(op);
            StillWaits(w, ops, op, p, Now().Pending(), waiting, disk.db.View());
            ops := ops + [op];
          case Behind(step) =>
            done, waiting := WorkTowards(step, waiting, w, ops);
        }
        served := served + 1;
      }
      if !done { Await(waiting, w, ops); }
    }

    /** Any history, and then the queue runs dry: every stored file can be read back, in the length that it has
        in memory. If store and memory agreed and the history was careful, exactly the persistent files are
        stored, and read back as they are in memory. */
    method Session(events: seq<Event>)
      requires Valid() && Sound(Abstract())
      modifies this, disk, mem.Values
      ensures Valid() && Abstract() == Run(old(Abstract()), Calls(events)) && Sound(Abstract()) && MemoryMoved()
      ensures queue == [] && runner.Idle? && disk.db.View() == Abstract().store
      ensures disk.db.View().Keys <= mem.Keys - temp
      ensures forall f :: f in disk.db.View() ==>
        ReadBack(disk.db.View()[f]).Some? && |ReadBack(disk.db.View()[f]).value| == mem[f].Length
      ensures old(Agrees(Abstract()) && CarefulRun(Abstract(), Calls(events))) ==>
        && Agrees(Abstract()) && disk.db.View().Keys == mem.Keys - temp
        && forall f :: f in disk.db.View() ==> ReadBack(disk.db.View()[f]) == Some(mem[f][..])
    {
      hide Database.View, Database.Valid, State.Good, Apart, IdsKnown, Values, Valid, Step, CarefulRun, ReadBack,
        Shaped;
      RunSound(Abstract(), Calls(events));
      if Agrees(Abstract()) && CarefulRun(Abstract(), Calls(events)) {
        CarefulRunAgrees(Abstract(), Calls(events));
      }
      Serve(events);
      Settle();
      MeaningParts(Now());
      Parts();
    }
  }

  /** Opening the store again, once the queue has run dry: every file can be read, and store and memory agree. */
  method Reopen(fs: FileSystem) returns (next: FileSystem)
    requires fs.Valid() && fs.runner.Idle? && fs.queue == [] && Sound(fs.Abstract())
    ensures fresh(next) && next.Valid() && next.disk == fs.disk && next.queue == [] && next.runner.Idle?
    ensures next.Abstract() == Reopened(old(fs.Abstract())) && Agrees(next.Abstract())
    ensures old(Agrees(fs.Abstract())) <==>
      next.Abstract() == World(old(fs.Abstract()).mem - fs.temp, {}, old(fs.Abstract()).store)
    ensures forall f :: f in next.mem ==> fresh(next.mem[f])
  {
    hide Database.View, Database.Valid, Database.Record, ReadBack, FileSystem.Valid, IdsKnown, Apart, Reopened,
      FileSystem.Abstract, Shaped;
    ghost var w := fs.Abstract();
    fs.Settled();
    fs.MemoryPart();
    SoundReads(w);
    AllReadable(fs);
    ReopenedAgrees(w);
    next := new FileSystem(fs.disk);
    NothingRead(fs.disk.db);
    var ok := next.Load();
    next.Parts();
    ReadAgain(w, next.Contents());
  }

  lemma ReadAgain(s: World, contents: map<string, Bytes>)
    requires contents.Keys == s.store.Keys && forall f :: f in contents ==> Some(contents[f]) == ReadBack(s.store[f])
    ensures World(contents, {}, s.store) == Reopened(s)
  {
    hide ReadBack;
    assert contents == Reopened(s).mem;
  }

  lemma NothingRead(db: Database)
    ensures ReadOf(map[], map[], db, db.files.Keys) && Apart(map[], {}, {})
  {
  }

  lemma AllReadable(fs: FileSystem)
    requires fs.Valid() && fs.disk.db.View() == fs.Abstract().store
    requires forall f :: f in fs.Abstract().store ==> ReadBack(fs.Abstract().store[f]).Some?
    ensures fs.disk.db.Valid()
    ensures forall i :: i in fs.disk.db.files ==> ReadBack(fs.disk.db.Record(i)).Some?
  {
    hide Database.View, Database.Record, ReadBack;
    forall i | i in fs.disk.db.files ensures ReadBack(fs.disk.db.Record(i)).Some? {
      fs.disk.db.ViewAt(i);
    }
  }

  // ----- any number of sessions

  /** Each session begins with what loading finds. */
  function RunSessions(s: World, sessions: seq<seq<Event>>): World
    decreases |sessions|
  {
    if sessions == [] then s else RunSessions(Reopened(Run(s, Calls(sessions[0]))), sessions[1..])
  }

  /** Each session begins with what was in memory, but for delete-on-close files. */
  function Remembered(s: World, sessions: seq<seq<Event>>): World
    decreases |sessions|
  {
    if sessions == [] then s
    else
      var t := Run(s, Calls(sessions[0]));
      Remembered(World(t.mem - t.temp, {}, t.store), sessions[1..])
  }

  /** Every session is careful on what the one before it has left. */
  predicate CarefulSessions(s: World, sessions: seq<seq<Event>>)
    decreases |sessions|
  {
    sessions == [] ||
    (CarefulRun(s, Calls(sessions[0])) && CarefulSessions(Reopened(Run(s, Calls(sessions[0]))), sessions[1..]))
  }

  /** Over careful sessions, loading never finds anything else than what was in memory. */
  lemma {:induction false} CarefulSessionsRemember(s: World, sessions: seq<seq<Event>>)
    requires Agrees(s) && CarefulSessions(s, sessions)
    ensures RunSessions(s, sessions) == Remembered(s, sessions) && Agrees(RunSessions(s, sessions))
    decreases |sessions|
  {
    hide Run, CarefulRun, Reopened, Holds;
    if sessions != [] {
      var t := Run(s, Calls(sessions[0]));
      CarefulRunAgrees(s, Calls(sessions[0]));
      AgreesIsSound(t);
      ReopenedAgrees(t);
      CarefulSessionsRemember(Reopened(t), sessions[1..]);
    }
  }

  /** From an empty store on, over any number of sessions with closing and reopening in between, and with
      background work anywhere: loading never fails, files and store are those of running every item at once,
      and if all sessions were careful, every file is what it was in memory before. */
  method Lifetime(sessions: seq<seq<Event>>) returns (fs: FileSystem)
    ensures fresh(fs) && fs.Valid() && fs.queue == [] && fs.runner.Idle?
    ensures fs.Abstract() == RunSessions(EMPTY, sessions) && Agrees(fs.Abstract())
    ensures CarefulSessions(EMPTY, sessions) ==> fs.Abstract() == Remembered(EMPTY, sessions)
    ensures fs.disk.db.View() == fs.Abstract().store
  {
    hide FileSystem.Valid, Database.View, Database.Valid, Database.Record, ReadBack, Reopened, CarefulRun, Run,
      IdsKnown, Apart,
      FileSystem.Abstract, Shaped, Holds;
    fs := Created();
    if CarefulSessions(EMPTY, sessions) { CarefulSessionsRemember(EMPTY, sessions); }
    var n := 0;
    assert sessions[0..] == sessions;
    while n < |sessions|
      invariant n <= |sessions| && fresh(fs) && fresh(fs.disk) && (forall f :: f in fs.mem ==> fresh(fs.mem[f]))
      invariant fs.Valid() && fs.queue == [] && fs.runner.Idle? && Agrees(fs.Abstract())
      invariant RunSessions(fs.Abstract(), sessions[n..]) == RunSessions(EMPTY, sessions)
    {
      assert sessions[n..][0] == sessions[n] && sessions[n..][1..] == sessions[n + 1..];
      AgreesIsSound(fs.Abstract());
      fs.Session(sessions[n]);
      fs := Reopen(fs);
      n := n + 1;
    }
    fs.Settled();
  }

  /** A new store, opened for the first time. */
  method Created() returns (fs: FileSystem)
    ensures fresh(fs) && fresh(fs.disk) && fs.Valid() && fs.queue == [] && fs.runner.Idle? && fs.mem == map[]
    ensures fs.Abstract() == EMPTY && Agrees(fs.Abstract())
  {
    hide Database.Record, ReadBack, FileSystem.Valid, IdsKnown;
    var disk := new BlockStore();
    fs := new FileSystem(disk);
    NothingRead(disk.db);
    NothingStored(disk.db);
    var ok := fs.Load();
  }

  lemma NothingStored(db: Database)
    requires db.View() == map[] && db.Valid()
    ensures db.files == map[]
  {
    hide Database.View, Database.Record;
    forall i ensures i !in db.files {
      if i in db.files { db.ViewAt(i); }
    }
  }
}
