// LevelDB's DBIter (db/db_iter.cc): a bidirectional iterator over an internal list of
// (user key, sequence, type) -> value entries that must present the map visible at one snapshot.

module Snapshots {
  import opened Basics
  import opened DbFormat

  datatype Entry = Entry(key: Bytes, value: Bytes)

  /** An internal list together with the comparator and the snapshot's sequence number. */
  datatype Snapshot = Snapshot(entries: seq<Entry>, cmp: Comparator, sequence: nat) {

    ghost predicate WellFormed() {
      && TotalOrder(cmp)
      && sequence <= MAX_SEQUENCE_NUMBER
      && (forall i :: 0 <= i < |entries| ==> Parse(entries[i].key).Some?)
      && (forall i, j :: 0 <= i < j < |entries| ==> Compare(cmp, entries[i].key, entries[j].key) < 0)
    }

    ghost function Key(i: nat): ParsedInternalKey
      requires WellFormed() && i < |entries|
    {
      Parse(entries[i].key).value
    }

    ghost function User(i: nat): Bytes
      requires WellFormed() && i < |entries|
    {
      Key(i).userKey
    }

    ghost predicate Readable(i: nat)
      requires WellFormed() && i < |entries|
    {
      Key(i).sequence <= sequence
    }

    /** Entry i is what the snapshot says about its user key: readable, and no readable entry of
        the same key is newer. */
    ghost predicate Current(i: nat)
      requires WellFormed() && i < |entries|
    {
      && Readable(i)
      && forall j :: 0 <= j < |entries| && Readable(j) && User(j) == User(i) ==> !Newer(Key(j), Key(i))
    }

    /** ... and it is not a deletion marker. */
    ghost predicate Shows(i: nat)
      requires WellFormed() && i < |entries|
    {
      Current(i) && Key(i).kind == Value
    }

    ghost function VisibleKeys(): set<Bytes>
      requires WellFormed()
    {
      set i | 0 <= i < |entries| && Shows(i) :: User(i)
    }

    /** The visible map. */
    ghost function View(): map<Bytes, Bytes>
      requires WellFormed()
    {
      map k | k in VisibleKeys() :: var i :| 0 <= i < |entries| && Shows(i) && User(i) == k; entries[i].value
    }

    lemma Parses(i: nat)
      requires WellFormed() && i < |entries|
      ensures Parse(entries[i].key).Some? && |entries[i].key| >= 8
      ensures ExtractUserKey(entries[i].key) == User(i) && Parse(entries[i].key).value == Key(i)
    {
    }

    // ----- the order of the list

    lemma Reflexive(i: nat)
      requires WellFormed() && i < |entries|
      ensures cmp(User(i), User(i)) <= 0
    {
    }

    lemma Ascending(i: nat, j: nat)
      requires WellFormed() && i < j < |entries|
      ensures cmp(User(i), User(j)) <= 0
      ensures User(i) == User(j) ==> Newer(Key(i), Key(j))
    {
      CompareIsNewestFirst(cmp, entries[i].key, entries[j].key);
    }

    /** Some readable entry before position c belongs to the user key of entry k. */
    ghost predicate Covered(c: nat, k: nat)
      requires WellFormed() && c <= |entries| && k < |entries|
    {
      exists j :: 0 <= j < c && Readable(j) && User(j) == User(k)
    }

    /** In a sorted list the newest readable entry of a key is the first one. */
    lemma CurrentIsFirst(i: nat)
      requires WellFormed() && i < |entries|
      ensures Current(i) <==> Readable(i) && !Covered(i, i)
    {
      if Current(i) && Covered(i, i) {
        var j :| 0 <= j < i && Readable(j) && User(j) == User(i);
        Ascending(j, i);
      }
      if Readable(i) && !Covered(i, i) {
        forall j | 0 <= j < |entries| && Readable(j) && User(j) == User(i)
          ensures !Newer(Key(j), Key(i))
        {
          if j > i { Ascending(i, j); }
        }
      }
    }

    lemma ShownOnce(i: nat, j: nat)
      requires WellFormed() && i < j < |entries| && Shows(i) && Shows(j)
      ensures cmp(User(i), User(j)) < 0
    {
      Ascending(i, j);
    }

    lemma ShownIsReadable(i: nat)
      requires WellFormed() && i < |entries| && Shows(i)
      ensures Readable(i)
    {
    }

    lemma Flip(i: nat, j: nat)
      requires WellFormed() && i < |entries| && j < |entries|
      ensures cmp(User(i), User(j)) < 0 <==> cmp(User(j), User(i)) > 0
    {
    }

    /** Up to a readable entry, only those of its own key cover a later one of a key that is not greater. */
    lemma CoveredBySame(c: nat, k: nat)
      requires WellFormed() && c < k < |entries| && Readable(c)
      ensures cmp(User(k), User(c)) <= 0 <==> Covered(c + 1, k)
    {
      hide TotalOrder, WellFormed, Key, Readable, Parse, Compare;
      Flip(c, k);
      if cmp(User(c), User(k)) < 0 {
        forall j | 0 <= j < c + 1 ensures User(j) != User(k) {
          Apart(j, c, k);
        }
      } else {
        SameUser(c, k);
        Reflexive(c);
      }
    }

    lemma ShownOnceSame(i: nat, j: nat)
      requires WellFormed() && i < j < |entries| && User(i) == User(j) && Shows(j)
      ensures !Shows(i)
    {
      if Shows(i) { ShownOnce(i, j); }
    }

    lemma SameUser(i: nat, j: nat)
      requires WellFormed() && i < j < |entries| && cmp(User(i), User(j)) >= 0
      ensures User(i) == User(j)
    {
      Ascending(i, j);
    }

    lemma Apart(i: nat, c: nat, j: nat)
      requires WellFormed() && i <= c < j < |entries| && cmp(User(c), User(j)) < 0
      ensures User(i) != User(j)
    {
      if i < c { Ascending(i, c); }
    }

    lemma AtOrPast(i: nat, j: nat, target: Bytes)
      requires WellFormed() && i <= j < |entries| && Parse(target).Some?
      requires Compare(cmp, entries[i].key, target) >= 0
      ensures Compare(cmp, entries[j].key, target) >= 0
    {
      CompareIsNewestFirst(cmp, entries[i].key, target);
      CompareIsNewestFirst(cmp, entries[j].key, target);
      if i < j { Ascending(i, j); }
    }

    /** A readable entry hides all older ones of its key. */
    lemma Shadows(i: nat, j: nat)
      requires WellFormed() && i < j < |entries| && Readable(i) && User(i) == User(j)
      ensures !Shows(j)
    {
      Ascending(i, j);
    }

    lemma FirstReadable(i: nat)
      requires WellFormed() && i < |entries| && Readable(i) && Key(i).kind == Value
      requires forall j :: 0 <= j < i ==> !Readable(j)
      ensures Shows(i)
    {
      CurrentIsFirst(i);
    }

    lemma SequenceFits()
      requires WellFormed()
      ensures sequence <= MAX_SEQUENCE_NUMBER
    {
    }

    /** Entry i is a value for user key k with the greatest sequence number that the snapshot may read. */
    ghost predicate LatestValue(i: nat, k: Bytes)
      requires WellFormed()
    {
      && i < |entries| && Parse(entries[i].key).value.userKey == k && Parse(entries[i].key).value.kind == Value
      && Parse(entries[i].key).value.sequence <= sequence
      && forall j :: 0 <= j < |entries| ==>
           var other := Parse(entries[j].key).value;
           other.userKey == k && other.sequence <= sequence ==> other.sequence <= Parse(entries[i].key).value.sequence
    }

    lemma ShowsIff(i: nat, k: Bytes)
      requires WellFormed() && i < |entries|
      ensures LatestValue(i, k) <==> Shows(i) && User(i) == k
    {
      hide TotalOrder, Compare, Parse;
      if Shows(i) && User(i) == k {
        forall j: nat | j < |entries|
          ensures var other := Parse(entries[j].key).value;
            other.userKey == k && other.sequence <= sequence ==> other.sequence <= Parse(entries[i].key).value.sequence
        {
          if User(j) == User(i) && Readable(j) { assert !Newer(Key(j), Key(i)); }
        }
      }
    }

    lemma InList(i: nat, k: Bytes)
      requires WellFormed() && LatestValue(i, k)
      ensures i < |entries|
    {
    }

    /** What a snapshot shows: of every user key the latest entry that it may read, unless that is a deletion. */
    lemma ViewIs(k: Bytes)
      requires WellFormed()
      ensures k in View() <==> exists i: nat :: LatestValue(i, k)
      ensures forall i: nat :: LatestValue(i, k) ==> View()[k] == entries[i].value
    {
      hide WellFormed, LatestValue, Shows, Key;
      forall i: nat | i < |entries| && LatestValue(i, k) ensures k in View() && View()[k] == entries[i].value {
        ShowsIff(i, k);
        ViewAt(i);
      }
      forall i: nat | LatestValue(i, k) ensures i < |entries| {
        InList(i, k);
      }
      if k in View() {
        var i: nat :| i < |entries| && Shows(i) && User(i) == k;
        ShowsIff(i, k);
      }
    }

    lemma ViewAt(i: nat)
      requires WellFormed() && i < |entries| && Shows(i)
      ensures User(i) in View() && View()[User(i)] == entries[i].value
    {
      hide TotalOrder, WellFormed, Current, Key, User;
      assert User(i) in VisibleKeys();
      var j :| 0 <= j < |entries| && Shows(j) && User(j) == User(i) && View()[User(i)] == entries[j].value;
      Reflexive(i);
      Flip(i, i);
      if j < i { ShownOnce(j, i); } else if i < j { ShownOnce(i, j); }
    }
  }
}

/** A plain cursor over a sorted map. */
module Cursors {
  import opened Basics
  import opened DbFormat

  datatype Cursor = Off | At(key: Bytes)
  datatype Range = Everything | From(k: Bytes) | After(k: Bytes) | Before(k: Bytes)

  predicate InRange(cmp: Comparator, r: Range, k: Bytes) {
    match r
    case Everything => true
    case From(t) => cmp(t, k) <= 0
    case After(t) => cmp(t, k) < 0
    case Before(t) => cmp(k, t) < 0
  }

  /** c is at the least key of m in the range, or off when there is none. */
  ghost predicate AtLeast(m: map<Bytes, Bytes>, cmp: Comparator, r: Range, c: Cursor) {
    match c
    case Off => forall k :: k in m ==> !InRange(cmp, r, k)
    case At(k0) =>
      && k0 in m && InRange(cmp, r, k0)
      && forall k :: k in m && InRange(cmp, r, k) ==> cmp(k0, k) <= 0
  }

  /** c is at the greatest key of m in the range, or off when there is none. */
  ghost predicate AtGreatest(m: map<Bytes, Bytes>, cmp: Comparator, r: Range, c: Cursor) {
    match c
    case Off => forall k :: k in m ==> !InRange(cmp, r, k)
    case At(k0) =>
      && k0 in m && InRange(cmp, r, k0)
      && forall k :: k in m && InRange(cmp, r, k) ==> cmp(k, k0) <= 0
  }

  datatype Op = SeekToFirst | SeekToLast | Seek(target: Bytes) | Next | Prev

  /** Next and Prev may only be called on a valid cursor. */
  predicate Allowed(c: Cursor, op: Op) {
    (op.Next? || op.Prev?) ==> c.At?
  }

  ghost predicate Moves(m: map<Bytes, Bytes>, cmp: Comparator, c: Cursor, op: Op, c': Cursor)
    requires Allowed(c, op)
  {
    match op
    case SeekToFirst => AtLeast(m, cmp, Everything, c')
    case SeekToLast => AtGreatest(m, cmp, Everything, c')
    case Seek(t) => AtLeast(m, cmp, From(t), c')
    case Next => AtLeast(m, cmp, After(c.key), c')
    case Prev => AtGreatest(m, cmp, Before(c.key), c')
  }

  /** The map and the call determine where a cursor goes. */
  lemma MovesIsFunctional(m: map<Bytes, Bytes>, cmp: Comparator, c: Cursor, op: Op, d: Cursor, e: Cursor)
    requires TotalOrder(cmp) && Allowed(c, op)
    requires Moves(m, cmp, c, op, d) && Moves(m, cmp, c, op, e)
    ensures d == e
  {
    if d.At? && e.At? {
      assert cmp(d.key, e.key) <= 0 && cmp(e.key, d.key) <= 0;
    }
  }

  /** cs lists where the cursor stands after each call; a call that is not allowed is not made. */
  ghost predicate Trace(m: map<Bytes, Bytes>, cmp: Comparator, c: Cursor, ops: seq<Op>, cs: seq<Cursor>)
    decreases |ops|
  {
    && |cs| == |ops|
    && (|ops| > 0 ==>
          && (if Allowed(c, ops[0]) then Moves(m, cmp, c, ops[0], cs[0]) else cs[0] == c)
          && Trace(m, cmp, cs[0], ops[1..], cs[1..]))
  }

  /** The map and the calls determine a whole run. */
  lemma {:induction false} TraceIsFunctional(
      m: map<Bytes, Bytes>, cmp: Comparator, c: Cursor, ops: seq<Op>, cs: seq<Cursor>, ds: seq<Cursor>)
    requires TotalOrder(cmp)
    requires Trace(m, cmp, c, ops, cs) && Trace(m, cmp, c, ops, ds)
    ensures cs == ds
    decreases |ops|
  {
    if |ops| > 0 {
      if Allowed(c, ops[0]) {
        MovesIsFunctional(m, cmp, c, ops[0], cs[0], ds[0]);
      }
      TraceIsFunctional(m, cmp, cs[0], ops[1..], cs[1..], ds[1..]);
      assert cs == [cs[0]] + cs[1..] && ds == [ds[0]] + ds[1..];
    }
  }

  // ----- what moving means for whole runs

  lemma SameKey(cmp: Comparator, j: Bytes, k: Bytes)
    requires TotalOrder(cmp)
    ensures cmp(k, k) == 0 && (cmp(j, k) == 0 <==> j == k) && (cmp(k, j) == 0 <==> j == k)
    ensures (cmp(j, k) < 0 <==> cmp(k, j) > 0) && (cmp(k, j) < 0 <==> cmp(j, k) > 0)
  {
  }

  /** Seeking a key that is there finds it, and going one step and back again leads to where one was. */
  lemma ThereAndBack(m: map<Bytes, Bytes>, cmp: Comparator, k: Bytes, d: Cursor, e: Cursor)
    requires TotalOrder(cmp) && k in m
    ensures Moves(m, cmp, Off, Op.Seek(k), d) ==> d == At(k)
    ensures d.At? && Moves(m, cmp, At(k), Op.Next, d) && Moves(m, cmp, d, Op.Prev, e) ==> e == At(k)
    ensures d.At? && Moves(m, cmp, At(k), Op.Prev, d) && Moves(m, cmp, d, Op.Next, e) ==> e == At(k)
  {
    hide TotalOrder;
    if d.At? {
      SameKey(cmp, d.key, k);
      if e.At? {
        SameKey(cmp, e.key, k);
        SameKey(cmp, e.key, d.key);
      }
    }
    SameKey(cmp, k, k);
  }

  /** Key j lies before key k in the direction of travel. */
  predicate Precedes(cmp: Comparator, forward: bool, j: Bytes, k: Bytes) {
    if forward then cmp(j, k) < 0 else cmp(k, j) < 0
  }

  predicate Steps(forward: bool, ops: seq<Op>) {
    forall i :: 0 <= i < |ops| ==> ops[i] == if forward then Op.Next else Op.Prev
  }

  /** The keys that are still to come. */
  ghost function Ahead(m: map<Bytes, Bytes>, cmp: Comparator, forward: bool, from: Bytes): set<Bytes> {
    set k | k in m && Precedes(cmp, forward, from, k)
  }

  /** One step goes forward, and passes no key. */
  lemma OneStep(m: map<Bytes, Bytes>, cmp: Comparator, forward: bool, from: Bytes, d: Cursor)
    requires TotalOrder(cmp) && Moves(m, cmp, At(from), if forward then Op.Next else Op.Prev, d)
    ensures d.Off? ==> Ahead(m, cmp, forward, from) == {}
    ensures d.At? ==> Precedes(cmp, forward, from, d.key)
    ensures d.At? ==> Ahead(m, cmp, forward, from) == {d.key} + Ahead(m, cmp, forward, d.key)
    ensures d.At? ==> d.key !in Ahead(m, cmp, forward, d.key)
  {
    if d.At? {
      assert cmp(d.key, d.key) == 0;
      forall k | k in m
        ensures Precedes(cmp, forward, from, k) <==> k == d.key || Precedes(cmp, forward, d.key, k)
      {
        assert forward ==> cmp(from, d.key) <= 0;
        assert !forward ==> cmp(d.key, from) <= 0;
        assert cmp(from, k) == 0 <==> from == k;
        assert cmp(k, d.key) == 0 <==> k == d.key;
      }
    }
  }

  lemma TraceTail(m: map<Bytes, Bytes>, cmp: Comparator, c: Cursor, ops: seq<Op>, cs: seq<Cursor>)
    requires Trace(m, cmp, c, ops, cs) && |ops| > 0
    ensures |cs| == |ops| && Trace(m, cmp, cs[0], ops[1..], cs[1..]) && cs == [cs[0]] + cs[1..]
    ensures if Allowed(c, ops[0]) then Moves(m, cmp, c, ops[0], cs[0]) else cs[0] == c
  {
    hide Moves;
  }

  /** Going on in one direction visits all keys ahead, once each. */
  lemma {:induction false} SweepFrom(
      m: map<Bytes, Bytes>, cmp: Comparator, forward: bool, from: Bytes, ops: seq<Op>, cs: seq<Cursor>)
    requires TotalOrder(cmp) && Steps(forward, ops) && Trace(m, cmp, At(from), ops, cs)
    requires |ops| >= |Ahead(m, cmp, forward, from)|
    ensures var n := |Ahead(m, cmp, forward, from)|;
      && (forall i :: 0 <= i < |cs| ==> (cs[i].At? <==> i < n))
      && (forall k :: k in Ahead(m, cmp, forward, from) ==> At(k) in cs[..n])
    decreases |ops|
  {
    hide TotalOrder, Moves;
    if |ops| > 0 {
      TraceTail(m, cmp, At(from), ops, cs);
      OneStep(m, cmp, forward, from, cs[0]);
      if cs[0].At? {
        var rest := Ahead(m, cmp, forward, cs[0].key);
        assert |Ahead(m, cmp, forward, from)| == 1 + |rest|;
        SweepFrom(m, cmp, forward, cs[0].key, ops[1..], cs[1..]);
        assert cs[..1 + |rest|] == [cs[0]] + cs[1..][..|rest|];
      } else {
        StaysOff(m, cmp, forward, ops[1..], cs[1..]);
      }
    }
  }

  lemma {:induction false} StaysOff(
      m: map<Bytes, Bytes>, cmp: Comparator, forward: bool, ops: seq<Op>, cs: seq<Cursor>)
    requires Steps(forward, ops) && Trace(m, cmp, Off, ops, cs)
    ensures forall i :: 0 <= i < |cs| ==> cs[i].Off?
    decreases |ops|
  {
    hide Moves;
    if |ops| > 0 {
      StaysOff(m, cmp, forward, ops[1..], cs[1..]);
      assert cs == [cs[0]] + cs[1..];
    }
  }

  /** The first key in the direction of travel is in front of all others. */
  lemma EndIsFirst(m: map<Bytes, Bytes>, cmp: Comparator, forward: bool, d: Cursor)
    requires TotalOrder(cmp) && Moves(m, cmp, Off, if forward then SeekToFirst else SeekToLast, d)
    ensures d.Off? ==> m.Keys == {}
    ensures d.At? ==> m.Keys == {d.key} + Ahead(m, cmp, forward, d.key) && d.key !in Ahead(m, cmp, forward, d.key)
  {
    hide TotalOrder;
    if d.At? {
      SameKey(cmp, d.key, d.key);
      forall j | j in m ensures j == d.key || Precedes(cmp, forward, d.key, j) {
        SameKey(cmp, d.key, j);
      }
    }
  }

  /** From the first key on with Next, or from the last one with Prev: the whole map is visited, every key once, and
      the cursor becomes invalid exactly then. */
  lemma Sweep(m: map<Bytes, Bytes>, cmp: Comparator, forward: bool, ops: seq<Op>, cs: seq<Cursor>)
    requires TotalOrder(cmp) && |ops| > |m| && Steps(forward, ops[1..])
    requires ops[0] == if forward then SeekToFirst else SeekToLast
    requires Trace(m, cmp, Off, ops, cs)
    ensures forall i :: 0 <= i < |cs| ==> (cs[i].At? <==> i < |m|)
    ensures forall k :: k in m ==> At(k) in cs[..|m|]
  {
    hide TotalOrder, Moves, Ahead, Steps, Trace;
    TraceTail(m, cmp, Off, ops, cs);
    var c := cs[0];
    EndIsFirst(m, cmp, forward, c);
    if c.At? {
      var rest := Ahead(m, cmp, forward, c.key);
      assert |m| == |m.Keys| == 1 + |rest|;
      SweepFrom(m, cmp, forward, c.key, ops[1..], cs[1..]);
      assert cs[..|m|] == [c] + cs[1..][..|rest|];
    } else {
      assert |m| == |m.Keys|;
      StaysOff(m, cmp, forward, ops[1..], cs[1..]);
    }
  }

  lemma TraceEmpty(m: map<Bytes, Bytes>, cmp: Comparator, c: Cursor)
    ensures Trace(m, cmp, c, [], [])
  {
  }

  lemma {:induction false} TraceSnoc(
      m: map<Bytes, Bytes>, cmp: Comparator, c: Cursor, ops: seq<Op>, cs: seq<Cursor>, op: Op, d: Cursor)
    requires Trace(m, cmp, c, ops, cs)
    requires var e := if |cs| == 0 then c else cs[|cs| - 1];
      if Allowed(e, op) then Moves(m, cmp, e, op, d) else d == e
    ensures Trace(m, cmp, c, ops + [op], cs + [d])
    decreases |ops|
  {
    if |ops| > 0 {
      TraceSnoc(m, cmp, cs[0], ops[1..], cs[1..], op, d);
      assert (ops + [op])[1..] == ops[1..] + [op] && (cs + [d])[1..] == cs[1..] + [d];
    }
  }
}

module DbIters {
  import opened Basics
  import opened DbFormat
  import opened Snapshots
  import opened Cursors

  // How a position in the internal list and a cursor over the visible map correspond.

  /** Nothing shown in lo..hi. */
  ghost predicate NoneShown(s: Snapshot, lo: nat, hi: nat)
    requires s.WellFormed() && hi <= |s.entries|
  {
    forall k :: lo <= k < hi ==> !s.Shows(k)
  }

  ghost predicate RangeStartsAt(s: Snapshot, r: Range, lo: nat)
    requires s.WellFormed()
  {
    forall k :: 0 <= k < |s.entries| && s.Shows(k) ==> (k >= lo <==> InRange(s.cmp, r, s.User(k)))
  }

  ghost predicate RangeEndsAt(s: Snapshot, r: Range, hi: nat)
    requires s.WellFormed()
  {
    forall k :: 0 <= k < |s.entries| && s.Shows(k) ==> (k < hi <==> InRange(s.cmp, r, s.User(k)))
  }

  lemma InView(s: Snapshot, key: Bytes) returns (i: nat)
    requires s.WellFormed() && key in s.View()
    ensures i < |s.entries| && s.Shows(i) && s.User(i) == key
  {
    i :| 0 <= i < |s.entries| && s.Shows(i) && s.User(i) == key;
  }

  /** A shown entry with the key at which a walk over the list stopped. */
  lemma FirstShown(s: Snapshot, r: Range, lo: nat, i: nat)
    requires s.WellFormed() && RangeStartsAt(s, r, lo)
    requires lo <= i <= |s.entries| && NoneShown(s, lo, i)
    requires i < |s.entries| ==> s.Shows(i)
    ensures AtLeast(s.View(), s.cmp, r, if i < |s.entries| then At(s.User(i)) else Off)
  {
    hide Snapshot.View, TotalOrder, Snapshot.WellFormed, Snapshot.Shows, Snapshot.User;
    if i < |s.entries| { s.ViewAt(i); }
    forall k | k in s.View() && InRange(s.cmp, r, k)
      ensures i < |s.entries| && s.cmp(s.User(i), k) <= 0
    {
      var j := InView(s, k);
      assert j >= lo;
      if i < j { s.Ascending(i, j); } else { s.Reflexive(i); }
    }
  }

  lemma LastShown(s: Snapshot, r: Range, hi: nat, i: nat, found: bool)
    requires s.WellFormed() && hi <= |s.entries| && RangeEndsAt(s, r, hi)
    requires found ==> i < hi && s.Shows(i) && NoneShown(s, i + 1, hi)
    requires !found ==> NoneShown(s, 0, hi)
    ensures AtGreatest(s.View(), s.cmp, r, if found then At(s.User(i)) else Off)
  {
    hide Snapshot.View, TotalOrder, Snapshot.WellFormed, Snapshot.Shows, Snapshot.User;
    if found { s.ViewAt(i); }
    forall k | k in s.View() && InRange(s.cmp, r, k)
      ensures found && s.cmp(k, s.User(i)) <= 0
    {
      var j := InView(s, k);
      assert j < hi;
      if j < i { s.Ascending(j, i); } else { s.Reflexive(i); }
    }
  }

  lemma ShownNeighbours(s: Snapshot, i: nat)
    requires s.WellFormed() && i < |s.entries| && s.Shows(i)
    ensures RangeStartsAt(s, After(s.User(i)), i + 1)
    ensures RangeEndsAt(s, Before(s.User(i)), i)
  {
    forall k | 0 <= k < |s.entries| && s.Shows(k)
      ensures k > i <==> s.cmp(s.User(i), s.User(k)) < 0
      ensures k < i <==> s.cmp(s.User(k), s.User(i)) < 0
    {
      if k < i { s.ShownOnce(k, i); } else if i < k { s.ShownOnce(i, k); }
    }
  }

  /** The seek key (t, snapshot, kValueTypeForSeek) sorts after every entry of t newer than the
      snapshot and not after any other entry of t. */
  lemma SeekKeySplits(s: Snapshot, t: Bytes, i: nat)
    requires s.WellFormed() && i < |s.entries|
    ensures var key := EncodeKey(ParsedInternalKey(t, s.sequence, Value));
      Compare(s.cmp, s.entries[i].key, key) < 0 <==>
        s.cmp(s.User(i), t) < 0 || (s.User(i) == t && !s.Readable(i))
  {
    var p := ParsedInternalKey(t, s.sequence, Value);
    KeyRoundTrip(p);
    CompareIsNewestFirst(s.cmp, s.entries[i].key, EncodeKey(p));
  }

  /** Everything shown at or behind the seek position is in the range, and nothing before it;
      no entry before it shadows one behind it. */
  lemma SeekPosition(s: Snapshot, t: Bytes, pos: nat)
    requires s.WellFormed() && pos <= |s.entries|
    requires var key := EncodeKey(ParsedInternalKey(t, s.sequence, Value));
      && (forall i :: 0 <= i < pos ==> Compare(s.cmp, s.entries[i].key, key) < 0)
      && (forall i :: pos <= i < |s.entries| ==> Compare(s.cmp, s.entries[i].key, key) >= 0)
    ensures RangeStartsAt(s, From(t), pos)
    ensures forall k :: pos <= k < |s.entries| && s.Readable(k) ==> !s.Covered(pos, k)
  {
    forall i | 0 <= i < |s.entries|
      ensures i < pos <==> s.cmp(s.User(i), t) < 0 || (s.User(i) == t && !s.Readable(i))
    {
      SeekKeySplits(s, t, i);
    }
  }

  /** `Iterator* iter_`: a position in the sorted internal list; |entries| stands for "not valid". */
  class InternalIterator {
    const s: Snapshot
    var pos: nat

    constructor (s: Snapshot)
      ensures this.s == s && pos == |s.entries|
    {
      this.s := s;
      pos := |s.entries|;
    }

    predicate Valid()
      reads this
    {
      pos < |s.entries|
    }

    function Key(): Bytes
      requires Valid()
      reads this
    {
      s.entries[pos].key
    }

    function Value(): Bytes
      requires Valid()
      reads this
    {
      s.entries[pos].value
    }

    method SeekToFirst()
      modifies this
      ensures pos == 0
    {
      pos := 0;
    }

    method SeekToLast()
      modifies this
      ensures if s.entries == [] then pos == 0 else pos == |s.entries| - 1
    {
      pos := if |s.entries| == 0 then 0 else |s.entries| - 1;
    }

    method Next()
      requires Valid()
      modifies this
      ensures pos == old(pos) + 1
    {
      pos := pos + 1;
    }

    method Prev()
      requires Valid()
      modifies this
      ensures pos == if old(pos) == 0 then |s.entries| else old(pos) - 1
    {
      pos := if pos == 0 then |s.entries| else pos - 1;
    }

    /** The first entry at or past the target. */
    method Seek(target: Bytes)
      requires s.WellFormed() && Parse(target).Some?
      modifies this
      ensures pos <= |s.entries|
      ensures forall i :: 0 <= i < pos ==> Compare(s.cmp, s.entries[i].key, target) < 0
      ensures forall i :: pos <= i < |s.entries| ==> Compare(s.cmp, s.entries[i].key, target) >= 0
    {
      hide TotalOrder, Compare;
      pos := 0;
      while pos < |s.entries| && Compare(s.cmp, s.entries[pos].key, target) < 0
        invariant pos <= |s.entries|
        invariant forall i :: 0 <= i < pos ==> Compare(s.cmp, s.entries[i].key, target) < 0
      {
        pos := pos + 1;
      }
      if pos < |s.entries| {
        forall i | pos <= i < |s.entries|
          ensures Compare(s.cmp, s.entries[i].key, target) >= 0
        {
          s.AtOrPast(pos, i, target);
        }
      }
    }
  }

  datatype Direction = Forward | Reverse

  class DBIter {
    const iter: InternalIterator
    const s: Snapshot
    var savedKey: Bytes
    var savedValue: Bytes
    var direction: Direction
    var valid: bool
    ghost var at: nat   // the entry that yields the current key and value

    /** The position invariants of both directions. In reverse, entries newer than the snapshot may
        lie between the internal position and the entries of the current key. */
    ghost predicate Consistent()
      reads this, iter
    {
      && s.WellFormed() && iter.s == s && iter.pos <= |s.entries|
      && (valid ==> at < |s.entries| && s.Shows(at))
      && (valid && direction == Forward ==> iter.pos == at)
      && (valid && direction == Reverse ==>
            && savedKey == s.User(at) && savedValue == s.entries[at].value
            && StandsBefore(s, iter.pos, at))
    }

    /** pos is the last readable entry before the ones of entry `at`; "not valid" if there is none. */
    static ghost predicate StandsBefore(s: Snapshot, pos: nat, at: nat)
      requires s.WellFormed() && at < |s.entries|
    {
      if pos >= |s.entries| then forall j :: 0 <= j < at ==> !s.Readable(j)
      else
        && pos < at && s.Readable(pos) && s.cmp(s.User(pos), s.User(at)) < 0
        && forall j :: pos < j < at ==> !s.Readable(j)
    }

    /** What a caller sees. */
    ghost function Cursor(): Cursor
      requires Consistent()
      reads this, iter
    {
      if valid then At(Key()) else Off
    }

    constructor (s: Snapshot)
      requires s.WellFormed()
      ensures Consistent() && this.s == s && Cursor() == Off && fresh(iter)
    {
      iter := new InternalIterator(s);
      this.s := s;
      savedKey, savedValue := [], [];
      direction, valid := Forward, false;
    }

    function Key(): (k: Bytes)
      requires Consistent() && valid
      reads this, iter
      ensures k == s.User(at) && k in s.View()
    {
      s.ViewAt(at);
      if direction == Forward then ExtractUserKey(iter.Key()) else savedKey
    }

    function Value(): (v: Bytes)
      requires Consistent() && valid
      reads this, iter
      ensures v == s.View()[Key()]
    {
      s.ViewAt(at);
      if direction == Forward then iter.Value() else savedValue
    }

    method Next()
      requires Consistent() && valid
      modifies this, iter
      ensures Consistent()
      ensures Moves(s.View(), s.cmp, old(Cursor()), Op.Next, Cursor())
    {
      hide TotalOrder, Snapshot.WellFormed, Snapshot.View, Snapshot.Current, AtLeast, RangeStartsAt,
        RangeEndsAt, InRange, EncodeKey, Snapshot.Covered, Compare, Parse, ExtractUserKey;
      ghost var from := at;
      ShownNeighbours(s, at);
      s.CurrentIsFirst(at);
      if direction == Reverse {
        direction := Forward;
        if !iter.Valid() {
          iter.SeekToFirst();
        } else {
          iter.Next();
        }
        assert iter.Valid();   // so the source's second check of Valid() here never fails
      } else {
        s.Parses(from);
        savedKey := ExtractUserKey(iter.Key());
        iter.Next();
        if !iter.Valid() {
          FirstShown(s, After(s.User(from)), from + 1, iter.pos);
          valid := false;
          savedKey := [];
          return;
        }
      }
      SkipFromCurrent(iter.pos, from);
      FindNextUserEntry(true, from + 1);
      FirstShown(s, After(s.User(from)), from + 1, if valid then at else |s.entries|);
    }

    /** From position c on, `skipping` with the saved key hides exactly the readable entries that
        an earlier one shadows; those before `floor` count as dealt with. */
    ghost predicate SkipsCovered(skipping: bool, c: nat, floor: nat)
      requires s.WellFormed() && c <= |s.entries| && floor <= |s.entries|
      reads this
    {
      forall k :: c <= k < |s.entries| && s.Readable(k) ==>
        (skipping && s.cmp(s.User(k), savedKey) <= 0 <==> s.Covered(if c < floor then floor else c, k))
    }

    lemma SkipFromCurrent(start: nat, from: nat)
      requires s.WellFormed() && from < |s.entries| && s.Shows(from) && savedKey == s.User(from)
      requires start <= from + 1
      requires forall j :: start <= j < from ==> !s.Readable(j)
      ensures SkipsCovered(true, start, from + 1)
    {
      hide TotalOrder, Snapshot.WellFormed, Snapshot.Key, Snapshot.Current, Parse, Compare;
      s.ShownIsReadable(from);
      s.Reflexive(from);
      forall k | start <= k < |s.entries| && s.Readable(k)
        ensures s.cmp(s.User(k), savedKey) <= 0 <==> s.Covered(from + 1, k)
      {
        if k > from { s.CoveredBySame(from, k); }
      }
    }

    lemma SkipStep(c: nat, floor: nat, skipping: bool)
      requires s.WellFormed() && c < |s.entries| && floor <= |s.entries|
      requires SkipsCovered(skipping, c, floor)
      requires s.Readable(c) ==> skipping && s.cmp(s.User(c), savedKey) <= 0
      ensures SkipsCovered(skipping, c + 1, floor)
    {
      if c >= floor {
        forall k | c < k < |s.entries| && s.Readable(k)
          ensures s.Covered(c + 1, k) <==> s.Covered(c, k)
        {
          if s.Covered(c + 1, k) {
            var j :| 0 <= j < c + 1 && s.Readable(j) && s.User(j) == s.User(k);
            if j == c {
              assert s.Covered(c, c);
              var i :| 0 <= i < c && s.Readable(i) && s.User(i) == s.User(c);
            }
          }
        }
      }
    }

    /** After a deletion marker that itself is not shadowed the saved key becomes its user key. */
    lemma SkipDeleted(c: nat, floor: nat)
      requires s.WellFormed() && floor <= c < |s.entries|
      requires s.Readable(c) && savedKey == s.User(c)
      ensures SkipsCovered(true, c + 1, floor)
    {
      forall k | c < k < |s.entries| && s.Readable(k)
        ensures s.cmp(s.User(k), savedKey) <= 0 <==> s.Covered(c + 1, k)
      {
        s.Ascending(c, k);
        if s.Covered(c + 1, k) {
          var j :| 0 <= j < c + 1 && s.Readable(j) && s.User(j) == s.User(k);
          if j < c { s.Ascending(j, c); }
        }
      }
    }

    lemma NothingCoveredYet()
      requires s.WellFormed()
      ensures SkipsCovered(false, 0, 0)
    {
    }

    /** An entry the walk does not hide is shown. */
    lemma NotHidden(c: nat, floor: nat, skipping: bool)
      requires s.WellFormed() && c < |s.entries| && floor <= |s.entries|
      requires SkipsCovered(skipping, c, floor)
      requires s.Readable(c) && s.Key(c).kind == DbFormat.Value
      requires !(skipping && s.cmp(s.User(c), savedKey) <= 0)
      ensures floor <= c && s.Shows(c)
    {
      s.CurrentIsFirst(c);
    }

    /** Its second argument in the source is always the address of `saved_key_`. */
    method FindNextUserEntry(skipping0: bool, ghost floor: nat)
      requires s.WellFormed() && iter.s == s && iter.Valid() && direction == Forward
      requires iter.pos <= floor <= |s.entries|
      requires forall k :: iter.pos <= k < floor && s.Readable(k) ==> s.Key(k).kind == DbFormat.Value
      requires SkipsCovered(skipping0, iter.pos, floor)
      modifies this, iter
      ensures Consistent() && direction == Forward
      ensures valid ==> floor <= at && NoneShown(s, floor, at)
      ensures !valid ==> NoneShown(s, floor, |s.entries|)
    {
      hide TotalOrder, Snapshot.WellFormed, Snapshot.View, Snapshot.Covered, Compare, Parse, ExtractUserKey;
      var skipping := skipping0;
      while true
        invariant iter.s == s && iter.pos < |s.entries| && direction == Forward
        invariant forall k :: iter.pos <= k < floor && s.Readable(k) ==> s.Key(k).kind == DbFormat.Value
        invariant SkipsCovered(skipping, iter.pos, floor)
        invariant forall k :: floor <= k < iter.pos ==> !s.Shows(k)
        decreases |s.entries| - iter.pos
      {
        ghost var c := iter.pos;
        s.Parses(c);
        var ikey := Parse(iter.Key()).value;
        s.CurrentIsFirst(c);
        if ikey.sequence <= s.sequence {
          match ikey.kind {
            case Deletion =>
              savedKey := ikey.userKey;
              skipping := true;
              SkipDeleted(c, floor);
            case Value =>
              if skipping && s.cmp(ikey.userKey, savedKey) <= 0 {
                SkipStep(c, floor, skipping);
              } else {
                NotHidden(c, floor, skipping);
                valid := true;
                at := c;
                savedKey := [];
                return;
              }
          }
        } else {
          SkipStep(c, floor, skipping);
        }
        iter.Next();
        if !iter.Valid() { break; }
      }
      savedKey := [];
      valid := false;
    }

    method Prev()
      requires Consistent() && valid
      modifies this, iter
      ensures Consistent()
      ensures Moves(s.View(), s.cmp, old(Cursor()), Op.Prev, Cursor())
    {
      hide TotalOrder, Snapshot.WellFormed, Snapshot.View, Snapshot.Covered, Compare, Parse, ExtractUserKey;
      ghost var from := at;
      ShownNeighbours(s, at);
      if direction == Forward {
        s.Parses(from);
        savedKey := ExtractUserKey(iter.Key());
        while true
          invariant s.WellFormed() && iter.s == s && iter.pos <= from < |s.entries|
          invariant direction == Forward && savedKey == s.User(from)
          invariant forall k :: iter.pos <= k <= from ==> s.User(k) == s.User(from)
          decreases iter.pos
        {
          iter.Prev();
          if !iter.Valid() {
            forall k | 0 <= k < from ensures !s.Shows(k) {
              s.ShownOnceSame(k, from);
            }
            LastShown(s, Before(s.User(from)), from, 0, false);
            valid := false;
            savedKey := [];
            savedValue := [];
            return;
          }
          s.Parses(iter.pos);
          s.Ascending(iter.pos, from);
          if s.cmp(ExtractUserKey(iter.Key()), savedKey) < 0 {
            break;
          }
          s.SameUser(iter.pos, from);
        }
        direction := Reverse;
      }
      ghost var hi := if iter.pos < |s.entries| then iter.pos + 1 else 0;
      forall k | hi <= k < from ensures !s.Shows(k) {
        if s.Readable(k) { s.ShownOnceSame(k, from); }
      }
      FindPrevUserEntry();
      LastShown(s, Before(s.User(from)), from, at, valid);
    }

    /** The walk is past the entries c..hi; m is the newest readable one seen of its key. */
    ghost predicate Candidate(c: nat, hi: nat, m: nat)
      requires s.WellFormed() && hi <= |s.entries|
      reads this
    {
      && c <= m < hi && s.Readable(m) && s.Key(m).kind == DbFormat.Value
      && savedKey == s.User(m) && savedValue == s.entries[m].value
      && (forall j :: c <= j < m ==> !s.Readable(j))
      && NoneShown(s, m + 1, hi)
    }

    lemma CandidateShadowed(c: nat, hi: nat, m: nat)
      requires s.WellFormed() && c + 1 < hi <= |s.entries| && Candidate(c + 1, hi, m)
      requires s.Readable(c) && s.cmp(s.User(c), savedKey) >= 0
      ensures NoneShown(s, c + 1, hi)
    {
      hide TotalOrder, Snapshot.WellFormed, Parse, Compare;
      s.SameUser(c, m);
      s.Shadows(c, m);
    }

    method FindPrevUserEntry()
      requires s.WellFormed() && iter.s == s && iter.pos <= |s.entries| && direction == Reverse
      modifies this, iter
      ensures Consistent()
      ensures var hi := if old(iter.pos) < |s.entries| then old(iter.pos) + 1 else 0;
        if valid then at < hi && NoneShown(s, at + 1, hi) else NoneShown(s, 0, hi)
    {
      hide TotalOrder, Snapshot.WellFormed, Snapshot.View, EncodeKey, Trailer, Snapshot.Current,
        Snapshot.Covered, Compare, Parse, ExtractUserKey;
      ghost var hi := if iter.pos < |s.entries| then iter.pos + 1 else 0;
      ghost var m := 0;
      var valueType := Deletion;
      if iter.Valid() {
        while true
          invariant s.WellFormed() && iter.s == s && iter.pos < hi <= |s.entries| && direction == Reverse
          invariant valueType == Deletion ==> NoneShown(s, iter.pos + 1, hi)
          invariant valueType == DbFormat.Value ==> Candidate(iter.pos + 1, hi, m)
          decreases iter.pos
        {
          ghost var c := iter.pos;
          s.Parses(c);
          var ikey := Parse(iter.Key()).value;
          s.CurrentIsFirst(c);
          if ikey.sequence <= s.sequence {
            if valueType != Deletion && s.cmp(ikey.userKey, savedKey) < 0 {
              StopsBefore(c, m);
              break;
            }
            if valueType != Deletion {
              CandidateShadowed(c, hi, m);
            }
            valueType := ikey.kind;
            if valueType == Deletion {
              savedKey := [];
              savedValue := [];
            } else {
              savedKey := ExtractUserKey(iter.Key());
              savedValue := iter.Value();
              m := c;
            }
          }
          iter.Prev();
          if !iter.Valid() {
            if valueType != Deletion { s.FirstReadable(m); }
            break;
          }
        }
      }
      if valueType == Deletion {
        valid := false;
        savedKey := [];
        savedValue := [];
        direction := Forward;
      } else {
        valid := true;
        at := m;
      }
    }

    /** A readable entry of a smaller key right before the candidate makes it the newest of its key. */
    lemma StopsBefore(c: nat, m: nat)
      requires s.WellFormed() && c < m < |s.entries| && s.Readable(m) && s.Key(m).kind == DbFormat.Value
      requires s.cmp(s.User(c), s.User(m)) < 0
      requires forall j :: c < j < m ==> !s.Readable(j)
      ensures s.Shows(m)
    {
      hide TotalOrder, Snapshot.WellFormed, Snapshot.Current, Parse, Compare;
      s.CurrentIsFirst(m);
      forall j | 0 <= j < m && s.Readable(j)
        ensures s.User(j) != s.User(m)
      {
        s.Apart(j, c, m);
      }
    }

    method Seek(target: Bytes)
      requires Consistent()
      modifies this, iter
      ensures Consistent()
      ensures Moves(s.View(), s.cmp, old(Cursor()), Op.Seek(target), Cursor())
    {
      hide TotalOrder, Snapshot.WellFormed, Snapshot.View, Snapshot.Covered, Compare, Parse, ExtractUserKey;
      direction := Forward;
      savedValue := [];
      savedKey := EncodeKey(ParsedInternalKey(target, s.sequence, DbFormat.Value));
      s.SequenceFits();
      KeyRoundTrip(ParsedInternalKey(target, s.sequence, DbFormat.Value));
      iter.Seek(savedKey);
      ghost var p := iter.pos;
      SeekPosition(s, target, p);
      if iter.Valid() {
        FindNextUserEntry(false, p);
      } else {
        valid := false;
      }
      FirstShown(s, From(target), p, if valid then at else |s.entries|);
    }

    method SeekToFirst()
      requires Consistent()
      modifies this, iter
      ensures Consistent()
      ensures Moves(s.View(), s.cmp, old(Cursor()), Op.SeekToFirst, Cursor())
    {
      hide TotalOrder, Snapshot.WellFormed, Snapshot.View, Snapshot.Covered, Compare, Parse, ExtractUserKey;
      direction := Forward;
      savedValue := [];
      iter.SeekToFirst();
      if iter.Valid() {
        NothingCoveredYet();
        FindNextUserEntry(false, 0);
      } else {
        valid := false;
      }
      FirstShown(s, Everything, 0, if valid then at else |s.entries|);
    }

    method SeekToLast()
      requires Consistent()
      modifies this, iter
      ensures Consistent()
      ensures Moves(s.View(), s.cmp, old(Cursor()), Op.SeekToLast, Cursor())
    {
      hide TotalOrder, Snapshot.WellFormed, Snapshot.View, Snapshot.Covered, Compare, Parse, ExtractUserKey;
      direction := Reverse;
      savedValue := [];
      iter.SeekToLast();
      FindPrevUserEntry();
      LastShown(s, Everything, |s.entries|, at, valid);
    }
  }

  ghost predicate Reports(m: map<Bytes, Bytes>, c: Cursor, v: Option<Bytes>) {
    match c
    case Off => v == None
    case At(k) => k in m && v == Some(m[k])
  }

  /** One call, if it is allowed, and what the iterator then shows. */
  method Perform(it: DBIter, op: Op) returns (c: Cursor, v: Option<Bytes>)
    requires it.Consistent()
    modifies it, it.iter
    ensures it.Consistent() && c == it.Cursor() && Reports(it.s.View(), c, v)
    ensures if Allowed(old(it.Cursor()), op) then Moves(it.s.View(), it.s.cmp, old(it.Cursor()), op, c)
            else c == old(it.Cursor())
  {
    hide TotalOrder, Snapshot.WellFormed, Snapshot.View, AtLeast, AtGreatest;
    match op {
      case SeekToFirst => it.SeekToFirst();
      case SeekToLast => it.SeekToLast();
      case Seek(t) => it.Seek(t);
      case Next => if it.valid { it.Next(); }
      case Prev => if it.valid { it.Prev(); }
    }
    if it.valid {
      c, v := At(it.Key()), Some(it.Value());
    } else {
      c, v := Off, None;
    }
  }

  /** Any sequence of calls on a fresh DBIter: key and value are, call by call, those of the plain
      cursor over the visible map. */
  method Drive(s: Snapshot, ops: seq<Op>) returns (seen: seq<Cursor>, values: seq<Option<Bytes>>)
    requires s.WellFormed()
    ensures Trace(s.View(), s.cmp, Off, ops, seen)
    ensures |values| == |seen|
    ensures forall i :: 0 <= i < |seen| ==> Reports(s.View(), seen[i], values[i])
  {
    hide TotalOrder, Snapshot.WellFormed, Snapshot.View, Moves, Trace, Reports;
    var it := new DBIter(s);
    seen, values := [], [];
    assert Trace(s.View(), s.cmp, Off, ops[..0], seen) by { TraceEmpty(s.View(), s.cmp, Off); }
    for i := 0 to |ops|
      invariant fresh(it) && fresh(it.iter) && it.s == s && it.Consistent()
      invariant |seen| == |values| == i && it.Cursor() == if i == 0 then Off else seen[i - 1]
      invariant Trace(s.View(), s.cmp, Off, ops[..i], seen)
      invariant forall k :: 0 <= k < i ==> Reports(s.View(), seen[k], values[k])
    {
      var c, v := Perform(it, ops[i]);
      TraceSnoc(s.View(), s.cmp, Off, ops[..i], seen, ops[i], c);
      assert ops[..i] + [ops[i]] == ops[..i + 1];
      seen, values := seen + [c], values + [v];
    }
    assert ops[..|ops|] == ops;
  }
}
