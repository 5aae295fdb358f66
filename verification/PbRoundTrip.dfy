// Round trips of nanopb messages: what a reader finds after decoding, field by field.

module PbRoundTrips {
  import opened Basics
  import opened PbSchemas
  import opened PbEncoding
  import opened PbMerging
  import opened PbDecodeIsMerge

  // ----- merging member by member

  function MergeItems(kw: Kind, fr: Field, slot: Slot, vs: seq<Value>): Option<Slot>
    decreases |vs|
  {
    if vs == [] then Some(slot)
    else match MergeOne(kw, fr, slot, vs[0]) case None => None case Some(t) => MergeItems(kw, fr, t, vs[1..])
  }

  /** A writer's member merged into a reader's. */
  function MergeMember(kw: Kind, fr: Field, slot: Slot, s: Slot): Option<Slot> {
    match s
    case One(v) => MergeOne(kw, fr, slot, v)
    case Opt(_, v) => MergeOne(kw, fr, slot, v)
    case Union(_, v) => MergeOne(kw, fr, slot, v)
    case Many(vs) => if kw.Packable() then MergePacked(kw, fr, slot, vs) else MergeItems(kw, fr, slot, vs)
  }

  lemma {:induction false} AllIsItems(kw: Kind, fr: Field, k: nat, acc: Slots, vs: seq<Value>)
    requires k < |acc|
    ensures MergeAll(kw, fr, k, acc, vs) == Stored(acc, k, MergeItems(kw, fr, acc[k], vs))
    decreases |vs|
  {
    hide MergeOne;
    if vs == [] {
      assert acc[k := acc[k]] == acc;
    } else {
      var t := MergeOne(kw, fr, acc[k], vs[0]);
      if t.Some? {
        AllIsItems(kw, fr, k, acc[k := t.value], vs[1..]);
        match MergeItems(kw, fr, t.value, vs[1..])
        case None =>
        case Some(u) => assert acc[k := t.value][k := u] == acc[k := u];
      }
    }
  }

  lemma SlotIsMember(kw: Kind, fr: Field, k: nat, acc: Slots, s: Slot)
    requires k < |acc|
    ensures MergeSlot(kw, fr, k, acc, s) == Stored(acc, k, MergeMember(kw, fr, acc[k], s))
  {
    hide MergeOne, MergePacked, MergeAll, MergeItems;
    if s.Many? && !kw.Packable() { AllIsItems(kw, fr, k, acc, s.items); }
  }

  /** The n-th field of w is in m and the reader keeps it in the member at k. */
  ghost predicate Targets(w: Schema, r: Schema, m: Slots, n: nat, k: nat)
    requires n < |w|
  {
    && Present(w[n], Get(m, SlotOf(w, n))) && Find(r, w[n].tag).Some?
    && SlotOf(r, Find(r, w[n].tag).value) == k
  }

  /** Fields that share a union for the reader share one for the writer. */
  ghost predicate SameUnions(w: Schema, r: Schema) {
    forall i, j | 0 <= i < j < |r| && Find(w, r[i].tag).Some? && Find(w, r[j].tag).Some? ::
      SlotOf(r, i) == SlotOf(r, j) ==>
      SlotOf(w, Find(w, r[i].tag).value) == SlotOf(w, Find(w, r[j].tag).value)
  }

  /** The reader's schema is fit for merging: distinct tags, the writer's types and unions. */
  ghost predicate Serves(w: Schema, r: Schema) {
    Tagged(w) && Tagged(r) && Reads(w, r) && SameUnions(w, r)
  }

  ghost predicate Sized(r: Schema, acc: Slots) {
    forall q: nat :: q < |r| ==> SlotOf(r, q) < |acc|
  }

  /** No two fields of a message go to the same member. */
  lemma TargetsOnce(w: Schema, r: Schema, m: Slots, n: nat, o: nat, k: nat)
    requires Serves(w, r) && n < |w| && o < |w| && Targets(w, r, m, n, k) && Targets(w, r, m, o, k)
    ensures n == o
  {
    hide SameKind, IsEmpty, SameUnions, Reads, Present;
    var i, j := Find(r, w[n].tag).value, Find(r, w[o].tag).value;
    FindIs(w, n);
    FindIs(w, o);
    ReadsKnows(w, r, n);
    ReadsKnows(w, r, o);
    if i < j {
      SlotsIncrease(r, i, j);
      OneUnion(w, r, i, j);
      OneSelected(w[n], w[o], Get(m, SlotOf(w, n)));
    } else if j < i {
      SlotsIncrease(r, j, i);
      OneUnion(w, r, j, i);
      OneSelected(w[n], w[o], Get(m, SlotOf(w, n)));
    }
  }

  lemma OneUnion(w: Schema, r: Schema, i: nat, j: nat)
    requires SameUnions(w, r) && i < j < |r| && SlotOf(r, i) == SlotOf(r, j)
    requires Find(w, r[i].tag).Some? && Find(w, r[j].tag).Some?
    ensures SlotOf(w, Find(w, r[i].tag).value) == SlotOf(w, Find(w, r[j].tag).value)
  {
  }

  lemma OneSelected(a: Field, b: Field, s: Slot)
    requires a.rule.Oneof? && b.rule.Oneof? && Present(a, s) && Present(b, s)
    ensures a.tag == b.tag
  {
  }

  ghost predicate FieldMerges(f: Field, r: Schema, acc: Slots, s: Slot) {
    Present(f, s) ==>
      match Find(r, f.tag)
      case None => Skippable(f.kind, s)
      case Some(q) => MergeMember(f.kind, r[q], Get(acc, SlotOf(r, q)), s).Some?
  }

  /** What the member at k gets from field n. */
  function Outcome(w: Schema, r: Schema, m: Slots, n: nat, before: Slot): Option<Slot>
    requires n < |w|
  {
    match Find(r, w[n].tag)
    case None => None
    case Some(q) => MergeMember(w[n].kind, r[q], before, Get(m, SlotOf(w, n)))
  }

  /** One field changes the member that it targets, and no other. */
  lemma OneStep(w: Schema, p: nat, r: Schema, acc: Slots, m: Slots, k: nat)
    requires p < |w| && Sized(r, acc) && k < |acc|
    ensures var x := MergeField(w[p], r, acc, Get(m, SlotOf(w, p)));
      && (x.Some? <==> FieldMerges(w[p], r, acc, Get(m, SlotOf(w, p))))
      && (x.Some? ==> |x.value| == |acc|)
      && (x.Some? && !Targets(w, r, m, p, k) ==> x.value[k] == acc[k])
      && (x.Some? && Targets(w, r, m, p, k) ==> Outcome(w, r, m, p, acc[k]) == Some(x.value[k]))
  {
    hide MergeSlot, MergeMember, Present, Skippable, Find, SlotOf;
    var f, s := w[p], Get(m, SlotOf(w, p));
    match Find(r, f.tag)
    case None =>
    case Some(q) => SlotIsMember(f.kind, r[q], SlotOf(r, q), acc, s);
  }

  /** Members that no field targets stay. */
  lemma {:induction false} Untouched(w: Schema, p: nat, r: Schema, acc: Slots, m: Slots, k: nat)
    requires p <= |w| && Sized(r, acc) && k < |acc| && MergeFrom(w, p, r, acc, m).Some?
    requires forall n: nat :: p <= n < |w| ==> !Targets(w, r, m, n, k)
    ensures |MergeFrom(w, p, r, acc, m).value| == |acc| && MergeFrom(w, p, r, acc, m).value[k] == acc[k]
    decreases |w| - p
  {
    hide MergeField, Targets, Outcome, FieldMerges;
    if p < |w| {
      OneStep(w, p, r, acc, m, k);
      Untouched(w, p + 1, r, MergeField(w[p], r, acc, Get(m, SlotOf(w, p))).value, m, k);
    }
  }

  /** A member that field n targets gets what merging into the old content gives. */
  lemma {:induction false} Touched(w: Schema, p: nat, r: Schema, acc: Slots, m: Slots, n: nat, k: nat)
    requires Serves(w, r) && p <= n < |w| && Sized(r, acc) && k < |acc| && MergeFrom(w, p, r, acc, m).Some?
    requires Targets(w, r, m, n, k)
    ensures |MergeFrom(w, p, r, acc, m).value| == |acc|
    ensures Outcome(w, r, m, n, acc[k]) == Some(MergeFrom(w, p, r, acc, m).value[k])
    decreases |w| - p
  {
    hide MergeField, Targets, Outcome, FieldMerges, Serves;
    OneStep(w, p, r, acc, m, k);
    var x := MergeField(w[p], r, acc, Get(m, SlotOf(w, p))).value;
    if p == n {
      forall o: nat | p + 1 <= o < |w| ensures !Targets(w, r, m, o, k) {
        if Targets(w, r, m, o, k) { TargetsOnce(w, r, m, n, o, k); }
      }
      Untouched(w, p + 1, r, x, m, k);
    } else {
      if Targets(w, r, m, p, k) { TargetsOnce(w, r, m, n, p, k); }
      Touched(w, p + 1, r, x, m, n, k);
    }
  }

  /** A field that cannot be merged now could not be merged before another one was, either. */
  lemma SameForLater(w: Schema, p: nat, r: Schema, acc: Slots, x: Slots, m: Slots, n: nat)
    requires Serves(w, r) && p < n < |w| && Sized(r, acc) && MergeField(w[p], r, acc, Get(m, SlotOf(w, p))) == Some(x)
    ensures Sized(r, x)
    ensures FieldMerges(w[n], r, x, Get(m, SlotOf(w, n))) <==> FieldMerges(w[n], r, acc, Get(m, SlotOf(w, n)))
  {
    hide MergeField, MergeMember, Skippable, Serves, Present, Find, SlotOf;
    if |r| == 0 {
      NothingFound(r, w[p].tag);
      NothingFound(r, w[n].tag);
      assert Sized(r, x);
    } else {
      OneStep(w, p, r, acc, m, SlotOf(r, 0));
      match Find(r, w[n].tag)
      case None =>
      case Some(q) =>
        var k := SlotOf(r, q);
        OneStep(w, p, r, acc, m, k);
        if Present(w[n], Get(m, SlotOf(w, n))) && Targets(w, r, m, p, k) {
          TargetsOnce(w, r, m, n, p, k);
        }
    }
  }

  lemma NothingFound(r: Schema, tag: nat)
    requires r == []
    ensures Find(r, tag) == None
  {
  }

  /** Merging succeeds exactly if every field merges into what acc has at the beginning. */
  lemma {:induction false} MergesIff(w: Schema, p: nat, r: Schema, acc: Slots, m: Slots)
    requires Serves(w, r) && p <= |w| && Sized(r, acc)
    ensures MergeFrom(w, p, r, acc, m).Some? <==>
      forall n: nat :: p <= n < |w| ==> FieldMerges(w[n], r, acc, Get(m, SlotOf(w, n)))
    decreases |w| - p
  {
    hide MergeField, FieldMerges, Serves, Sized;
    if p < |w| {
      StepMerges(w, p, r, acc, m);
      var x := MergeField(w[p], r, acc, Get(m, SlotOf(w, p)));
      if x.Some? {
        forall n: nat | p < n < |w|
          ensures FieldMerges(w[n], r, x.value, Get(m, SlotOf(w, n))) <==>
            FieldMerges(w[n], r, acc, Get(m, SlotOf(w, n)))
        {
          SameForLater(w, p, r, acc, x.value, m, n);
        }
        MergesIff(w, p + 1, r, x.value, m);
      }
    }
  }

  lemma StepMerges(w: Schema, p: nat, r: Schema, acc: Slots, m: Slots)
    requires p < |w| && Sized(r, acc)
    ensures var x := MergeField(w[p], r, acc, Get(m, SlotOf(w, p)));
      (x.Some? <==> FieldMerges(w[p], r, acc, Get(m, SlotOf(w, p)))) && (x.Some? ==> Sized(r, x.value))
  {
    hide MergeSlot, MergeMember, Present, Skippable, Find, SlotOf;
    var f, s := w[p], Get(m, SlotOf(w, p));
    match Find(r, f.tag)
    case None =>
    case Some(q) => SlotIsMember(f.kind, r[q], SlotOf(r, q), acc, s);
  }
}

/** What a reader with the same fields, or with some of them, finds in a message. */
module PbReaders {
  import opened Basics
  import opened PbVarint
  import opened PbSchemas
  import opened PbEncoding
  import opened PbMerging
  import opened PbDecodeIsMerge
  import opened PbRoundTrips

  /** r is w with some fields left out, at any depth; proto3 fields have no default values of their own. */
  ghost predicate Reduced(w: Schema, r: Schema)
    decreases w
  {
    Serves(w, r) && forall q: nat :: q < |r| ==> ReducedField(w[Find(w, r[q].tag).value], r[q])
  }

  ghost predicate ReducedField(a: Field, b: Field)
    decreases a
  {
    && (b.rule.Singular? ==> b.init.None?)
    && (a.kind.Submessage? && b.kind.Submessage? ==> Reduced(a.kind.schema, b.kind.schema))
  }

  // ----- equality up to the payload of absent fields

  ghost predicate ShowsValue(kw: Kind, kr: Kind, v: Value, x: Value)
    decreases kw
  {
    if kw.Submessage? && kr.Submessage?
    then v.Message? && x.Message? && Shows(kw.schema, kr.schema, v.slots, x.slots)
    else x == v
  }

  ghost predicate ShowsSlot(a: Field, b: Field, s: Slot, t: Slot)
    decreases a
  {
    match b.rule
    case Required => s.One? && t.One? && ShowsValue(a.kind, b.kind, s.value, t.value)
    case Singular => s.One? && t.One? && ShowsValue(a.kind, b.kind, s.value, t.value)
    case Optional => s.Opt? && t.Opt? && s.has == t.has && (s.has ==> ShowsValue(a.kind, b.kind, s.value, t.value))
    case Repeated(_) => s.Many? && t.Many? && ShowsAll(a, b, s.items, t.items)
    case Oneof =>
      s.Union? && t.Union? && (s.which == a.tag <==> t.which == b.tag) &&
      (s.which == a.tag ==> ShowsValue(a.kind, b.kind, s.value, t.value))
  }

  ghost predicate ShowsAll(a: Field, b: Field, vs: seq<Value>, xs: seq<Value>)
    decreases a, 0
  {
    |vs| == |xs| && forall i :: 0 <= i < |vs| ==> ShowsValue(a.kind, b.kind, vs[i], xs[i])
  }

  /** Every field of r reads in x as it does in m. */
  ghost predicate Shows(w: Schema, r: Schema, m: Slots, x: Slots)
    decreases w
  {
    Sized(r, x) && Chosen(r, x) &&
    forall q: nat :: q < |r| && Find(w, r[q].tag).Some? ==>
      var p := Find(w, r[q].tag).value; ShowsSlot(w[p], r[q], Get(m, SlotOf(w, p)), Get(x, SlotOf(r, q)))
  }

  /** A union holds nothing or one of its own fields. */
  ghost predicate Chosen(r: Schema, x: Slots) {
    forall q: nat :: q < |r| && r[q].rule.Oneof? ==> ChosenAt(r, SlotOf(r, q), Get(x, SlotOf(r, q)))
  }

  ghost predicate ChosenAt(r: Schema, k: nat, s: Slot) {
    s.Union? && (s.which == 0 || exists j: nat :: j < |r| && SlotOf(r, j) == k && r[j].tag == s.which)
  }

  // ----- what fits

  ghost predicate RoomValue(kw: Kind, kr: Kind, v: Value)
    decreases kw
  {
    PayloadFits(kw, v) &&
    match (kw, kr, v)
    case (Bytes(_), Bytes(cap), Data(d)) => |d| <= cap
    case (Text(_), Text(cap), Data(d)) => |d| < cap
    case (Submessage(w), Submessage(r), Message(m)) => Room(w, r, m)
    case _ => true
  }

  ghost predicate RoomSlot(a: Field, b: Field, s: Slot)
    decreases a, 0
  {
    match s
    case One(v) => RoomValue(a.kind, b.kind, v)
    case Opt(_, v) => RoomValue(a.kind, b.kind, v)
    case Union(_, v) => RoomValue(a.kind, b.kind, v)
    case Many(vs) =>
      && (b.rule.Repeated? ==> |vs| <= b.rule.max)
      && (if a.kind.Packable() then |Elements(a.kind, vs)| < TWO32
          else forall i :: 0 <= i < |vs| ==> RoomValue(a.kind, b.kind, vs[i]))
  }

  /** The reader has room for every field that is present, and no length takes more than 32 bits. */
  ghost predicate Room(w: Schema, r: Schema, m: Slots)
    decreases w
  {
    forall n: nat :: n < |w| ==> RoomField(w[n], r, Get(m, SlotOf(w, n)))
  }

  ghost predicate RoomField(f: Field, r: Schema, s: Slot)
    decreases f
  {
    Present(f, s) ==> match Find(r, f.tag) case None => Skippable(f.kind, s) case Some(q) => RoomSlot(f, r[q], s)
  }

  // ----- fresh messages

  lemma {:induction false} FreshAt(r: Schema, n: nat, q: nat)
    requires q < n <= |r|
    ensures SlotOf(r, q) < |Defaults(r, n)| && Defaults(r, n)[SlotOf(r, q)] == DefaultSlot(r[q])
    decreases n
  {
    if q < n - 1 {
      FreshAt(r, n - 1, q);
    } else if Joins(r, n - 1) {
      FreshAt(r, n - 1, n - 2);
    }
  }

  lemma FreshIsSized(r: Schema)
    ensures Sized(r, Fresh(r)) && forall q: nat :: q < |r| ==> Get(Fresh(r), SlotOf(r, q)) == DefaultSlot(r[q])
  {
    hide Defaults, SlotOf, DefaultSlot;
    forall q: nat | q < |r| ensures SlotOf(r, q) < |Fresh(r)| && Fresh(r)[SlotOf(r, q)] == DefaultSlot(r[q]) {
      FreshAt(r, |r|, q);
    }
  }

  // ----- absent fields show their defaults

  lemma {:induction false} EmptyShows(kw: Kind, kr: Kind, v: Value)
    requires SameKind(kw, kr) && Typed(kw, v) && IsEmpty(kw, v)
    requires kw.Submessage? ==> Reduced(kw.schema, kr.schema)
    ensures ShowsValue(kw, kr, v, Zero(kr))
    decreases kw, 0
  {
    hide AllDefault, TypedFrom, Shows, Defaults, Reduced;
    match kw
    case Submessage(w) => DefaultsShow(w, kr.schema, v.slots);
    case FixedBytes(_) => assert v.bytes == Zeros(0);
    case _ =>
  }

  lemma {:induction false} DefaultsShow(w: Schema, r: Schema, m: Slots)
    requires Reduced(w, r) && TypedFrom(w, 0, m) && AllDefault(w, 0, m)
    ensures Shows(w, r, m, Fresh(r))
    decreases w, 0
  {
    hide ShowsSlot, DefaultSlot, Fresh, TypedFrom, AllDefault, Reads, SameUnions, SlotOf, Find, TypedSlot;
    FreshIsSized(r);
    forall q: nat | q < |r| && Find(w, r[q].tag).Some?
      ensures var p := Find(w, r[q].tag).value; ShowsSlot(w[p], r[q], Get(m, SlotOf(w, p)), DefaultSlot(r[q]))
    {
      var p := Find(w, r[q].tag).value;
      TypedAt(w, 0, m, p);
      DefaultAt(w, 0, m, p);
      ReadsFits(w, r, q);
      AbsentShows(w[p], r[q], Get(m, SlotOf(w, p)));
    }
    forall q: nat | q < |r| && r[q].rule.Oneof? ensures ChosenAt(r, SlotOf(r, q), DefaultSlot(r[q])) {
      DefaultUnion(r[q]);
    }
  }

  lemma DefaultUnion(f: Field)
    requires f.rule.Oneof?
    ensures DefaultSlot(f) == Union(0, Number(0))
  {
  }

  lemma ReadsFits(w: Schema, r: Schema, q: nat)
    requires Reads(w, r) && q < |r|
    ensures Find(w, r[q].tag).Some? && Fits(w[Find(w, r[q].tag).value], r[q])
  {
  }

  lemma {:induction false} DefaultAt(w: Schema, p: nat, m: Slots, n: nat)
    requires p <= n < |w| && AllDefault(w, p, m) && 1 <= w[n].tag
    ensures !Present(w[n], Get(m, SlotOf(w, n)))
    decreases |w| - p
  {
    if p < n { DefaultAt(w, p + 1, m, n); }
  }

  lemma {:induction false} AbsentShows(a: Field, b: Field, s: Slot)
    requires Fits(a, b) && ReducedField(a, b) && TypedSlot(a, s) && !Present(a, s) && 1 <= b.tag
    ensures ShowsSlot(a, b, s, DefaultSlot(b))
    decreases a, 0
  {
    hide ShowsValue, Typed, IsEmpty, Reduced;
    if a.rule.Singular? {
      EmptyShows(a.kind, b.kind, s.value);
    }
  }

  // ----- present fields show their values

  lemma {:induction false} ValueShows(kw: Kind, kr: Kind, current: Value, v: Value)
    requires SameKind(kw, kr) && Typed(kw, v)
    requires kw.Submessage? ==> Reduced(kw.schema, kr.schema) && current == Zero(kr)
    ensures MergeValue(kw, kr, current, v).Some? <==> RoomValue(kw, kr, v)
    ensures RoomValue(kw, kr, v) ==> ShowsValue(kw, kr, v, MergeValue(kw, kr, current, v).value)
    decreases kw, 0
  {
    hide TypedFrom, Shows, Reduced, MergeFrom, Room, Defaults;
    match kw
    case Submessage(w) => MergeShows(w, kr.schema, v.slots);
    case _ =>
  }

  lemma {:induction false} ItemsShow(a: Field, b: Field, items: seq<Value>, vs: seq<Value>)
    requires Fits(a, b) && ReducedField(a, b) && b.rule.Repeated? && forall i :: 0 <= i < |vs| ==> Typed(a.kind, vs[i])
    ensures var t := MergeItems(a.kind, b, Many(items), vs);
      && (t.Some? <==>
            && (vs == [] || |items| + |vs| <= b.rule.max)
            && forall i :: 0 <= i < |vs| ==> RoomValue(a.kind, b.kind, vs[i]))
      && (t.Some? ==> t.value.Many? && |t.value.items| == |items| + |vs|)
      && (t.Some? ==> items == t.value.items[..|items|] && ShowsAll(a, b, vs, t.value.items[|items|..]))
    decreases a, 0, |vs|
  {
    hide MergeValue, ShowsValue, RoomValue, Typed, Reduced, Zero;
    if vs != [] {
      var v := vs[0];
      ValueShows(a.kind, b.kind, Zero(b.kind), v);
      assert vs == [v] + vs[1..];
      var x := MergeValue(a.kind, b.kind, Zero(b.kind), v);
      if |items| < b.rule.max && x.Some? {
        var next := items + [x.value];
        ItemsShow(a, b, next, vs[1..]);
        var t := MergeItems(a.kind, b, Many(next), vs[1..]);
        if t.Some? {
          assert t.value.items[|items|] == next[|items|]
            by { assert t.value.items[..|next|][|items|] == next[|items|]; }
          assert items == t.value.items[..|next|][..|items|];
          assert t.value.items[|items|..] == [x.value] + t.value.items[|next|..];
        }
      }
    }
  }

  /** A present field in a fresh reader. */
  lemma {:induction false} MemberShows(a: Field, b: Field, s: Slot)
    requires Fits(a, b) && ReducedField(a, b) && TypedSlot(a, s) && Present(a, s) && 1 <= a.tag == b.tag
    ensures var t := MergeMember(a.kind, b, DefaultSlot(b), s);
      && (t.Some? <==> RoomSlot(a, b, s))
      && (t.Some? ==> ShowsSlot(a, b, s, t.value) && (b.rule.Oneof? ==> t.value.Union? && t.value.which == b.tag))
    decreases a, 1
  {
    hide MergeValue, ShowsValue, RoomValue, Typed, Reduced, Zero, IsEmpty, MergeItems, ShowsAll, Elements, SameKind;
    match s
    case Many(vs) =>
      if a.kind.Packable() {
        PackedShows(a, b, vs);
      } else {
        ItemsShow(a, b, [], vs);
        var t := MergeItems(a.kind, b, Many([]), vs);
        if t.Some? { assert t.value.items[0..] == t.value.items; }
      }
    case One(v) =>
      StartsFresh(a.kind, b);
      ValueShows(a.kind, b.kind, DefaultValue(b), v);
    case Opt(_, v) =>
      StartsFresh(a.kind, b);
      ValueShows(a.kind, b.kind, DefaultValue(b), v);
    case Union(_, v) =>
      StartsFresh(a.kind, b);
      ValueShows(a.kind, b.kind, if b.kind.Submessage? then Zero(b.kind) else Number(0), v);
  }

  lemma StartsFresh(kw: Kind, b: Field)
    requires SameKind(kw, b.kind)
    ensures kw.Submessage? <==> b.kind.Submessage?
    ensures b.kind.Submessage? ==> DefaultValue(b) == Zero(b.kind)
  {
    hide Zero;
  }

  lemma PackedShows(a: Field, b: Field, vs: seq<Value>)
    requires Fits(a, b) && b.rule.Repeated? && a.kind.Packable()
    ensures var t := MergePacked(a.kind, b, Many([]), vs);
      && (t.Some? <==> |Elements(a.kind, vs)| < TWO32 && |vs| <= b.rule.max)
      && (t.Some? ==> t.value == Many(vs) && ShowsAll(a, b, vs, vs))
  {
    hide Elements, SameKind;
    assert [] + vs == vs;
  }

  // ----- messages

  /** Decoding into a fresh message succeeds exactly if there is room, and shows every field. */
  lemma {:induction false} MergeShows(w: Schema, r: Schema, m: Slots)
    requires Reduced(w, r) && TypedFrom(w, 0, m)
    ensures Merge(w, r, Fresh(r), m).Some? <==> Room(w, r, m)
    ensures Room(w, r, m) ==> Shows(w, r, m, Merge(w, r, Fresh(r), m).value)
    decreases w, 2
  {
    hide Serves, Fresh, MergeFrom, TypedFrom, ShowsSlot, RoomField, FieldMerges, ChosenAt, ReducedField;
    FreshIsSized(r);
    MergesIff(w, 0, r, Fresh(r), m);
    forall n: nat | n < |w|
      ensures FieldMerges(w[n], r, Fresh(r), Get(m, SlotOf(w, n))) <==> RoomField(w[n], r, Get(m, SlotOf(w, n)))
    {
      FieldShows(w, r, m, n);
    }
    if Room(w, r, m) {
      var x := Merge(w, r, Fresh(r), m).value;
      forall q: nat | q < |r|
        ensures SlotOf(r, q) < |x| && (r[q].rule.Oneof? ==> ChosenAt(r, SlotOf(r, q), Get(x, SlotOf(r, q))))
        ensures Find(w, r[q].tag).Some? ==>
          var p := Find(w, r[q].tag).value; ShowsSlot(w[p], r[q], Get(m, SlotOf(w, p)), Get(x, SlotOf(r, q)))
      {
        SlotShows(w, r, m, x, q);
      }
    }
  }

  lemma {:induction false} FieldShows(w: Schema, r: Schema, m: Slots, n: nat)
    requires Reduced(w, r) && TypedFrom(w, 0, m) && n < |w|
    ensures FieldMerges(w[n], r, Fresh(r), Get(m, SlotOf(w, n))) <==> RoomField(w[n], r, Get(m, SlotOf(w, n)))
    decreases w, 0
  {
    hide Fresh, TypedFrom, ShowsSlot, RoomSlot, MergeMember, Skippable, Present, SameUnions, Reads, TypedSlot,
      ReducedField, Fits, DefaultSlot;
    FreshIsSized(r);
    match Find(r, w[n].tag)
    case None =>
    case Some(q) =>
      if Present(w[n], Get(m, SlotOf(w, n))) {
        ReadsKnows(w, r, n);
        FindIs(w, n);
        TypedAt(w, 0, m, n);
        MemberShows(w[n], r[q], Get(m, SlotOf(w, n)));
      }
  }

  /** The q-th field of the reader. */
  lemma {:induction false} SlotShows(w: Schema, r: Schema, m: Slots, x: Slots, q: nat)
    requires Reduced(w, r) && TypedFrom(w, 0, m) && q < |r| && Merge(w, r, Fresh(r), m) == Some(x)
    ensures SlotOf(r, q) < |x| && (r[q].rule.Oneof? ==> ChosenAt(r, SlotOf(r, q), Get(x, SlotOf(r, q))))
    ensures Find(w, r[q].tag).Some? ==>
      var p := Find(w, r[q].tag).value; ShowsSlot(w[p], r[q], Get(m, SlotOf(w, p)), Get(x, SlotOf(r, q)))
    decreases w, 1
  {
    hide Serves, Fresh, MergeFrom, TypedFrom, ShowsSlot, Present, TypedSlot, ReducedField, DefaultSlot, Fits, Outcome;
    FreshIsSized(r);
    var k := SlotOf(r, q);
    ServesFits(w, r, q);
    var p := Find(w, r[q].tag).value;
    TypedAt(w, 0, m, p);
    if n: nat :| n < |w| && Targets(w, r, m, n, k) {
      Touched(w, 0, r, Fresh(r), m, n, k);
      TargetShows(w, r, m, x, q, n);
    } else {
      Untouched(w, 0, r, Fresh(r), m, k);
      assert x[k] == DefaultSlot(r[q]);
      assert !Targets(w, r, m, p, k);
      AbsentShows(w[p], r[q], Get(m, SlotOf(w, p)));
      if r[q].rule.Oneof? { DefaultUnion(r[q]); }
    }
  }

  lemma ServesFits(w: Schema, r: Schema, q: nat)
    requires Serves(w, r) && q < |r|
    ensures Find(w, r[q].tag).Some? && Fits(w[Find(w, r[q].tag).value], r[q])
    ensures Find(r, r[q].tag) == Some(q) && 1 <= r[q].tag
  {
    hide Fits, SameUnions;
    FindIs(r, q);
  }

  lemma {:induction false} TargetShows(w: Schema, r: Schema, m: Slots, x: Slots, q: nat, n: nat)
    requires Reduced(w, r) && TypedFrom(w, 0, m) && q < |r| && n < |w| && SlotOf(r, q) < |x|
    requires Targets(w, r, m, n, SlotOf(r, q)) && Outcome(w, r, m, n, DefaultSlot(r[q])) == Some(x[SlotOf(r, q)])
    ensures r[q].rule.Oneof? ==> ChosenAt(r, SlotOf(r, q), x[SlotOf(r, q)])
    ensures var p := Find(w, r[q].tag).value;
      Find(w, r[q].tag).Some? ==> ShowsSlot(w[p], r[q], Get(m, SlotOf(w, p)), x[SlotOf(r, q)])
    decreases w, 0
  {
    hide Serves, TypedFrom, ShowsSlot, Present, TypedSlot, ReducedField, DefaultSlot, Fits, MergeMember;
    var k, j := SlotOf(r, q), Find(r, w[n].tag).value;
    ServesFits(w, r, q);
    ServesFits(w, r, j);
    FindOwn(w, r, n);
    TypedAt(w, 0, m, n);
    if j == q {
      MemberShows(w[n], r[q], Get(m, SlotOf(w, n)));
    } else {
      if j < q { SlotsIncrease(r, j, q); } else { SlotsIncrease(r, q, j); }
      DefaultUnion(r[q]);
      DefaultUnion(r[j]);
      MemberShows(w[n], r[j], Get(m, SlotOf(w, n)));
      var p := Find(w, r[q].tag).value;
      TypedAt(w, 0, m, p);
      OtherChosen(w, r, m, q, j, n, p, x[k]);
    }
  }

  lemma FindOwn(w: Schema, r: Schema, n: nat)
    requires Serves(w, r) && n < |w|
    ensures Find(w, w[n].tag) == Some(n) && 1 <= w[n].tag
  {
    hide Reads, SameUnions;
    FindIs(w, n);
  }

  /** A union that holds another field shows that this one is absent. */
  lemma OtherChosen(w: Schema, r: Schema, m: Slots, q: nat, j: nat, n: nat, p: nat, t: Slot)
    requires Serves(w, r) && q < |r| && j < |r| && n < |w| && p < |w| && q != j
    requires Find(w, r[q].tag) == Some(p) && Find(r, w[n].tag) == Some(j) && Find(w, w[n].tag) == Some(n)
    requires r[q].rule.Oneof? && r[j].rule.Oneof? && SlotOf(r, q) == SlotOf(r, j) && Fits(w[p], r[q])
    requires Fits(w[n], r[j])
    requires Present(w[n], Get(m, SlotOf(w, n))) && TypedSlot(w[p], Get(m, SlotOf(w, p)))
    requires t.Union? && t.which == r[j].tag
    ensures ShowsSlot(w[p], r[q], Get(m, SlotOf(w, p)), t)
  {
    hide Serves, SameUnions, Fits, Present, TypedSlot, ShowsSlot, SlotOf, Find;
    ServesParts(w, r, q, j);
    if q < j { OneUnion(w, r, q, j); } else { OneUnion(w, r, j, q); }
    FitsOneof(w[p], r[q]);
    FitsOneof(w[n], r[j]);
    OneofPresent(w[n], Get(m, SlotOf(w, n)));
    AbsentFromUnion(w[p], r[q], Get(m, SlotOf(w, p)), t);
  }

  lemma ServesParts(w: Schema, r: Schema, q: nat, j: nat)
    requires Serves(w, r) && q < |r| && j < |r| && q != j
    ensures SameUnions(w, r) && r[q].tag != r[j].tag
  {
    hide SameUnions, Reads;
  }

  lemma FitsOneof(a: Field, b: Field)
    requires Fits(a, b) && b.rule.Oneof?
    ensures a.rule.Oneof?
  {
    hide SameKind;
  }

  lemma OneofPresent(f: Field, s: Slot)
    requires f.rule.Oneof? && Present(f, s)
    ensures s.Union? && s.which == f.tag
  {
    hide IsEmpty;
  }

  lemma AbsentFromUnion(a: Field, b: Field, s: Slot, t: Slot)
    requires b.rule.Oneof? && s.Union? && s.which != a.tag && t.Union? && t.which != b.tag
    ensures ShowsSlot(a, b, s, t)
  {
    hide ShowsValue;
  }
}
