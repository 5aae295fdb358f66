// Concatenated nanopb messages (Protocol Buffers Encoding guide, "Last One Wins"): decoding the encodings
// of two messages one behind the other gives the two messages merged.

module PbConcatenation {
  import opened Basics
  import opened PbVarint
  import opened PbSchemas
  import opened PbEncoding
  import opened PbDecoding
  import opened PbMerging
  import opened PbDecodeIsMerge
  import opened PbRoundTrips
  import opened PbReaders
  import opened PbTheorems

  // ----- decoded messages: members that are absent hold their defaults

  ghost predicate CleanValue(k: Kind, v: Value)
    decreases k
  {
    k.Submessage? ==> v.Message? && Clean(k.schema, v.slots)
  }

  ghost predicate CleanSlot(f: Field, s: Slot)
    decreases f
  {
    match f.rule
    case Required => s.One? && CleanValue(f.kind, s.value)
    case Singular => s.One? && CleanValue(f.kind, s.value)
    case Optional => s.Opt? && CleanValue(f.kind, s.value) && (!s.has ==> s.value == DefaultValue(f))
    case Repeated(_) => s.Many?
    case Oneof => s.Union? && (s.which == f.tag ==> CleanValue(f.kind, s.value))
  }

  ghost predicate Clean(w: Schema, x: Slots)
    decreases w
  {
    Sized(w, x) && forall q: nat :: q < |w| ==> CleanSlot(w[q], Get(x, SlotOf(w, q)))
  }

  lemma {:induction false} FreshIsClean(w: Schema)
    requires Good(w)
    ensures Clean(w, Fresh(w))
    decreases w
  {
    hide DefaultSlot, Fresh, SlotOf, CleanSlot;
    FreshIsSized(w);
    forall q: nat | q < |w| ensures CleanSlot(w[q], DefaultSlot(w[q])) {
      DefaultIsClean(w[q]);
    }
  }

  lemma {:induction false} DefaultIsClean(f: Field)
    requires GoodField(f) && 1 <= f.tag
    ensures CleanSlot(f, DefaultSlot(f)) && CleanValue(f.kind, Zero(f.kind))
    decreases f
  {
    hide Clean, Defaults;
    if f.kind.Submessage? {
      FreshIsClean(f.kind.schema);
      assert Zero(f.kind) == Message(Fresh(f.kind.schema)) && DefaultValue(f) == Zero(f.kind);
    }
  }

  lemma {:induction false} ValueClean(k: Kind, c: Value, v: Value)
    requires (k.Submessage? ==> Good(k.schema) && ZeroDefaults(k.schema)) && SameKind(k, k) && Typed(k, v)
    requires CleanValue(k, c)
    requires MergeValue(k, k, c, v).Some?
    ensures CleanValue(k, MergeValue(k, k, c, v).value)
    decreases k, 0
  {
    hide Clean, MergeFrom, TypedFrom, Good, ZeroDefaults;
    match k
    case Submessage(w) =>
      ReadsItself(w);
      MergeClean(w, c.slots, v.slots);
    case _ =>
  }

  lemma {:induction false} MemberClean(f: Field, slot: Slot, s: Slot)
    requires GoodField(f) && ZeroDefault(f) && Fits(f, f) && 1 <= f.tag && TypedSlot(f, s) && Present(f, s)
    requires CleanSlot(f, slot) || (f.rule.Oneof? && slot.Union? && slot.which != f.tag)
    requires MergeMember(f.kind, f, slot, s).Some?
    ensures CleanSlot(f, MergeMember(f.kind, f, slot, s).value)
    decreases f, 1
  {
    hide MergeValue, Typed, CleanValue, Zero, Good, ZeroDefaults, IsEmpty, MergeItems, MergePacked, SameKind;
    match s
    case Many(vs) =>
      if f.kind.Packable() { StaysMany(f, slot, vs); } else { ItemsStayMany(f, slot, vs); }
    case One(v) => ValueClean(f.kind, slot.value, v);
    case Opt(_, v) => ValueClean(f.kind, slot.value, v);
    case Union(_, v) =>
      DefaultIsClean(f);
      if f.kind.Submessage? && slot.which != f.tag {
        ValueClean(f.kind, Zero(f.kind), v);
      } else {
        AnyPlain(f.kind, slot.value);
        ValueClean(f.kind, slot.value, v);
      }
  }

  lemma AnyPlain(k: Kind, v: Value)
    ensures !k.Submessage? ==> CleanValue(k, v)
  {
  }

  lemma StaysMany(f: Field, slot: Slot, vs: seq<Value>)
    requires MergePacked(f.kind, f, slot, vs).Some?
    ensures MergePacked(f.kind, f, slot, vs).value.Many?
  {
  }

  lemma {:induction false} ItemsStayMany(f: Field, slot: Slot, vs: seq<Value>)
    requires f.rule.Repeated? && slot.Many? && MergeItems(f.kind, f, slot, vs).Some?
    ensures MergeItems(f.kind, f, slot, vs).value.Many?
    decreases |vs|
  {
    hide MergeValue, Zero;
    if vs != [] { ItemsStayMany(f, MergeOne(f.kind, f, slot, vs[0]).value, vs[1..]); }
  }

  /** Merging keeps that. */
  lemma {:induction false} MergeClean(w: Schema, acc: Slots, m: Slots)
    requires Good(w) && ZeroDefaults(w) && Serves(w, w) && Clean(w, acc) && TypedFrom(w, 0, m)
    requires Merge(w, w, acc, m).Some?
    ensures Clean(w, Merge(w, w, acc, m).value)
    decreases w, 2
  {
    hide Serves, MergeFrom, TypedFrom, CleanSlot, Good, ZeroDefaults, SlotOf, Clean;
    CleanParts(w, acc);
    var x := Merge(w, w, acc, m).value;
    forall q: nat | q < |w| ensures SlotOf(w, q) < |x| && CleanSlot(w[q], Get(x, SlotOf(w, q))) {
      SlotClean(w, acc, m, x, q);
    }
    CleanWhole(w, x);
  }

  lemma CleanParts(w: Schema, x: Slots)
    requires Clean(w, x)
    ensures Sized(w, x) && forall q: nat :: q < |w| ==> CleanSlot(w[q], Get(x, SlotOf(w, q)))
  {
    hide CleanSlot;
  }

  lemma CleanWhole(w: Schema, x: Slots)
    requires Sized(w, x) && forall q: nat :: q < |w| ==> CleanSlot(w[q], Get(x, SlotOf(w, q)))
    ensures Clean(w, x)
  {
    hide CleanSlot;
  }

  lemma GoodParts(w: Schema, n: nat)
    requires Good(w) && ZeroDefaults(w) && n < |w|
    ensures GoodField(w[n]) && ZeroDefault(w[n]) && 1 <= w[n].tag && Find(w, w[n].tag) == Some(n)
    ensures Fits(w[n], w[n]) && ReducedField(w[n], w[n])
  {
    hide GoodField, ZeroDefault, Fits, ReducedField;
    FindIs(w, n);
    FieldReadsItself(w[n]);
  }

  lemma {:induction false} SlotClean(w: Schema, acc: Slots, m: Slots, x: Slots, q: nat)
    requires Good(w) && ZeroDefaults(w) && Serves(w, w) && Clean(w, acc) && TypedFrom(w, 0, m) && q < |w|
    requires Merge(w, w, acc, m) == Some(x)
    ensures SlotOf(w, q) < |x| && CleanSlot(w[q], x[SlotOf(w, q)])
    decreases w, 1
  {
    hide Serves, MergeFrom, TypedFrom, CleanSlot, Good, ZeroDefaults, Present, TypedSlot, GoodField,
      ZeroDefault, MergeMember, Fits, Clean;
    var k := SlotOf(w, q);
    CleanParts(w, acc);
    if n: nat :| n < |w| && Targets(w, w, m, n, k) {
      Touched(w, 0, w, acc, m, n, k);
      TypedAt(w, 0, m, n);
      GoodParts(w, n);
      GoodParts(w, q);
      assert CleanSlot(w[n], acc[k]) && CleanSlot(w[q], acc[k]);
      MemberClean(w[n], acc[k], Get(m, SlotOf(w, n)));
      if n != q {
        if n < q { SlotsIncrease(w, n, q); } else { SlotsIncrease(w, q, n); }
        UnionResult(w[n], acc[k], Get(m, SlotOf(w, n)));
        OtherIsClean(w[q], x[k]);
      }
    } else {
      Untouched(w, 0, w, acc, m, k);
    }
  }

  lemma UnionResult(f: Field, slot: Slot, s: Slot)
    requires f.rule.Oneof? && Present(f, s) && MergeMember(f.kind, f, slot, s).Some?
    ensures var t := MergeMember(f.kind, f, slot, s).value; t.Union? && t.which == f.tag
  {
    hide MergeValue, Zero;
  }

  lemma OtherIsClean(f: Field, t: Slot)
    requires f.rule.Oneof? && t.Union? && t.which != f.tag
    ensures CleanSlot(f, t)
  {
    hide CleanValue;
  }

  // ----- when both messages fit

  ghost predicate FitValue(k: Kind, u: Value, v: Value)
    decreases k
  {
    if k.Submessage? && u.Message? && v.Message? then PayloadFits(k, v) && Fit(k.schema, u.slots, v.slots)
    else RoomValue(k, k, v)
  }

  ghost predicate FitField(f: Field, s: Slot, t: Slot)
    decreases f
  {
    Present(f, t) ==>
      match (f.rule, s, t)
      case (Required, One(u), One(v)) => FitValue(f.kind, u, v)
      case (Singular, One(u), One(v)) => FitValue(f.kind, u, v)
      case (Optional, Opt(has, u), Opt(_, v)) => if has then FitValue(f.kind, u, v) else RoomValue(f.kind, f.kind, v)
      case (Oneof, Union(which, u), Union(_, v)) =>
        if which == f.tag then FitValue(f.kind, u, v) else RoomValue(f.kind, f.kind, v)
      case (Repeated(max), Many(us), Many(vs)) =>
        |us| + |vs| <= max &&
        (if f.kind.Packable() then |Elements(f.kind, vs)| < TWO32
         else forall i :: 0 <= i < |vs| ==> RoomValue(f.kind, f.kind, vs[i]))
      case _ => false
  }

  /** The second message fits on top of the first: combined counts stay in bounds, at every level. */
  ghost predicate Fit(w: Schema, a: Slots, b: Slots)
    decreases w
  {
    forall n: nat :: n < |w| ==> FitField(w[n], Get(a, SlotOf(w, n)), Get(b, SlotOf(w, n)))
  }

  // ----- the merged message

  ghost predicate JoinedValue(k: Kind, u: Value, v: Value, y: Value)
    decreases k
  {
    if k.Submessage? then u.Message? && v.Message? && y.Message? && Joined(k.schema, u.slots, v.slots, y.slots)
    else y == v
  }

  /** s and t are the member in the first and the second message, y in the result: scalars take the last
      value, repeated fields append, submessages merge, and a oneof that switches starts afresh. */
  ghost predicate JoinedField(f: Field, s: Slot, t: Slot, y: Slot)
    decreases f
  {
    if !Present(f, t) then ShowsSlot(f, f, s, y)
    else match (f.rule, s, t, y)
      case (Required, One(u), One(v), One(x)) => JoinedValue(f.kind, u, v, x)
      case (Singular, One(u), One(v), One(x)) => JoinedValue(f.kind, u, v, x)
      case (Optional, Opt(has, u), Opt(_, v), Opt(has', x)) =>
        has' && (if has then JoinedValue(f.kind, u, v, x) else ShowsValue(f.kind, f.kind, v, x))
      case (Oneof, Union(which, u), Union(_, v), Union(which', x)) =>
        which' == f.tag && (if which == f.tag then JoinedValue(f.kind, u, v, x) else ShowsValue(f.kind, f.kind, v, x))
      case (Repeated(_), Many(us), Many(vs), Many(xs)) =>
        |xs| == |us| + |vs| && ShowsAll(f, f, us, xs[..|us|]) && ShowsAll(f, f, vs, xs[|us|..])
      case _ => false
  }

  /** Some field of the union is in the second message. */
  ghost predicate Switched(w: Schema, k: nat, t: Slot) {
    t.Union? && exists j: nat :: j < |w| && SlotOf(w, j) == k && w[j].rule.Oneof? && w[j].tag == t.which
  }

  ghost predicate Joined(w: Schema, a: Slots, b: Slots, y: Slots)
    decreases w
  {
    Sized(w, y) &&
    forall q: nat :: q < |w| ==>
      var k := SlotOf(w, q);
      if w[q].rule.Oneof? && Switched(w, k, Get(b, k)) && !Present(w[q], Get(b, k))
      then Get(y, k).Union? && Get(y, k).which == Get(b, k).which
      else JoinedField(w[q], Get(a, k), Get(b, k), Get(y, k))
  }

  lemma {:induction false} ValueJoins(k: Kind, u: Value, c: Value, v: Value)
    requires (k.Submessage? ==> Good(k.schema) && ZeroDefaults(k.schema)) && SameKind(k, k) && Typed(k, v)
    requires ShowsValue(k, k, u, c) && CleanValue(k, c)
    ensures MergeValue(k, k, c, v).Some? <==> FitValue(k, u, v)
    ensures FitValue(k, u, v) ==> JoinedValue(k, u, v, MergeValue(k, k, c, v).value)
    decreases k, 0
  {
    hide Clean, MergeFrom, TypedFrom, Good, ZeroDefaults, Fit, Joined, Shows, Room;
    match k
    case Submessage(w) =>
      ReadsItself(w);
      MessagesJoin(w, u.slots, c.slots, v.slots);
    case _ => ValueShows(k, k, c, v);
  }

  lemma {:induction false} MemberJoins(f: Field, s: Slot, slot: Slot, t: Slot)
    requires GoodField(f) && ZeroDefault(f) && Fits(f, f) && ReducedField(f, f) && TypedSlot(f, t) && Present(f, t)
    requires ShowsSlot(f, f, s, slot) && CleanSlot(f, slot)
    ensures MergeMember(f.kind, f, slot, t).Some? <==> FitField(f, s, t)
    ensures FitField(f, s, t) ==> JoinedField(f, s, t, MergeMember(f.kind, f, slot, t).value)
    decreases f, 0
  {
    hide MergeValue, Typed, CleanValue, Zero, Good, ZeroDefaults, IsEmpty, MergeItems, SameKind, ShowsValue,
      JoinedValue, FitValue,
      RoomValue, Elements, Reduced, ShowsAll;
    match t
    case Many(vs) =>
      if f.kind.Packable() { PackedJoins(f, s.items, slot.items, vs); } else { ItemsJoin(f, s.items, slot.items, vs); }
    case One(v) => ValueJoins(f.kind, s.value, slot.value, v);
    case Opt(_, v) =>
      if s.has {
        ValueJoins(f.kind, s.value, slot.value, v);
      } else {
        StartsFresh(f.kind, f);
        ValueShows(f.kind, f.kind, slot.value, v);
      }
    case Union(_, v) =>
      if s.which == f.tag {
        ValueJoins(f.kind, s.value, slot.value, v);
      } else {
        ValueShows(f.kind, f.kind, if f.kind.Submessage? then Zero(f.kind) else slot.value, v);
      }
  }

  lemma {:induction false} ItemsJoin(f: Field, us: seq<Value>, items: seq<Value>, vs: seq<Value>)
    requires Fits(f, f) && ReducedField(f, f) && f.rule.Repeated? && ShowsAll(f, f, us, items) && vs != []
    requires forall i :: 0 <= i < |vs| ==> Typed(f.kind, vs[i])
    ensures var t := MergeItems(f.kind, f, Many(items), vs);
      && (t.Some? <==> |us| + |vs| <= f.rule.max && forall i :: 0 <= i < |vs| ==> RoomValue(f.kind, f.kind, vs[i]))
      && (t.Some? ==> t.value.Many? && |t.value.items| == |us| + |vs|)
      && (t.Some? ==> ShowsAll(f, f, us, t.value.items[..|us|]) && ShowsAll(f, f, vs, t.value.items[|us|..]))
    decreases f, 0
  {
    hide ShowsValue, RoomValue, MergeItems, Typed, SameKind, Reduced;
    ItemsShow(f, f, items, vs);
  }

  lemma PackedJoins(f: Field, us: seq<Value>, items: seq<Value>, vs: seq<Value>)
    requires f.rule.Repeated? && f.kind.Packable() && ShowsAll(f, f, us, items)
    ensures |us| == |items|
    ensures var t := MergePacked(f.kind, f, Many(items), vs);
      && (t.Some? <==> |Elements(f.kind, vs)| < TWO32 && |us| + |vs| <= f.rule.max)
      && (t.Some? ==> t.value.Many? && |t.value.items| == |us| + |vs|)
      && (t.Some? ==> ShowsAll(f, f, us, t.value.items[..|us|]) && ShowsAll(f, f, vs, t.value.items[|us|..]))
  {
    hide Elements;
    assert (items + vs)[..|us|] == items && (items + vs)[|us|..] == vs;
  }

  /** x shows a; merging b into x succeeds exactly if b fits on top of a, and gives the merged message. */
  lemma {:induction false} MessagesJoin(w: Schema, a: Slots, x: Slots, b: Slots)
    requires Good(w) && ZeroDefaults(w) && Serves(w, w) && Shows(w, w, a, x) && Clean(w, x) && TypedFrom(w, 0, b)
    ensures Merge(w, w, x, b).Some? <==> Fit(w, a, b)
    ensures Fit(w, a, b) ==> Joined(w, a, b, Merge(w, w, x, b).value)
    decreases w, 2
  {
    hide Serves, MergeFrom, TypedFrom, CleanSlot, Good, ZeroDefaults, SlotOf, Clean, FieldMerges, FitField,
      JoinedField, Shows, Present;
    CleanParts(w, x);
    MergesIff(w, 0, w, x, b);
    forall n: nat | n < |w|
      ensures FieldMerges(w[n], w, x, Get(b, SlotOf(w, n))) <==>
        FitField(w[n], Get(a, SlotOf(w, n)), Get(b, SlotOf(w, n)))
    {
      FieldJoins(w, a, x, b, n);
    }
    if Fit(w, a, b) {
      var y := Merge(w, w, x, b).value;
      forall q: nat | q < |w|
        ensures SlotOf(w, q) < |y|
        ensures var k := SlotOf(w, q);
          if w[q].rule.Oneof? && Switched(w, k, Get(b, k)) && !Present(w[q], Get(b, k))
          then Get(y, k).Union? && Get(y, k).which == Get(b, k).which
          else JoinedField(w[q], Get(a, k), Get(b, k), Get(y, k))
      {
        SlotJoins(w, a, x, b, y, q);
      }
    }
  }

  lemma ShownAt(w: Schema, a: Slots, x: Slots, n: nat)
    requires Shows(w, w, a, x) && n < |w| && Find(w, w[n].tag) == Some(n)
    ensures ShowsSlot(w[n], w[n], Get(a, SlotOf(w, n)), Get(x, SlotOf(w, n)))
  {
    hide ShowsSlot, SlotOf;
  }

  lemma {:induction false} FieldJoins(w: Schema, a: Slots, x: Slots, b: Slots, n: nat)
    requires Good(w) && ZeroDefaults(w) && Shows(w, w, a, x) && Clean(w, x) && TypedFrom(w, 0, b) && n < |w|
    ensures FieldMerges(w[n], w, x, Get(b, SlotOf(w, n))) <==>
      FitField(w[n], Get(a, SlotOf(w, n)), Get(b, SlotOf(w, n)))
    decreases w, 0
  {
    hide TypedFrom, CleanSlot, Good, ZeroDefaults, SlotOf, Clean, JoinedField, Shows, ShowsSlot, Present, TypedSlot,
      MergeMember,
      GoodField, ZeroDefault, Fits, ReducedField;
    var s, t := Get(a, SlotOf(w, n)), Get(b, SlotOf(w, n));
    GoodParts(w, n);
    CleanParts(w, x);
    if Present(w[n], t) {
      TypedAt(w, 0, b, n);
      ShownAt(w, a, x, n);
      MemberJoins(w[n], s, x[SlotOf(w, n)], t);
    }
  }

  lemma {:induction false} SlotJoins(w: Schema, a: Slots, x: Slots, b: Slots, y: Slots, q: nat)
    requires Good(w) && ZeroDefaults(w) && Serves(w, w) && Shows(w, w, a, x) && Clean(w, x)
    requires TypedFrom(w, 0, b) && q < |w|
    requires Merge(w, w, x, b) == Some(y)
    ensures SlotOf(w, q) < |y|
    ensures var k := SlotOf(w, q);
      if w[q].rule.Oneof? && Switched(w, k, Get(b, k)) && !Present(w[q], Get(b, k))
      then Get(y, k).Union? && Get(y, k).which == Get(b, k).which
      else JoinedField(w[q], Get(a, k), Get(b, k), Get(y, k))
    decreases w, 1
  {
    hide Serves, MergeFrom, TypedFrom, CleanSlot, Good, ZeroDefaults, SlotOf, Clean, Shows, ShowsSlot, Present,
      TypedSlot, MergeMember,
      GoodField, ZeroDefault, Fits, ReducedField, FitField;
    var k := SlotOf(w, q);
    var s, t := Get(a, k), Get(b, k);
    GoodParts(w, q);
    CleanParts(w, x);
    if Present(w[q], t) {
      Touched(w, 0, w, x, b, q, k);
      TypedAt(w, 0, b, q);
      ShownAt(w, a, x, q);
      MemberJoins(w[q], s, x[k], t);
    } else if w[q].rule.Oneof? && Switched(w, k, t) {
      var j: nat :| j < |w| && SlotOf(w, j) == k && w[j].rule.Oneof? && w[j].tag == t.which;
      GoodParts(w, j);
      ThatIsPresent(w[j], t);
      Touched(w, 0, w, x, b, j, k);
      UnionResult(w[j], x[k], t);
    } else {
      forall n: nat | n < |w| ensures !Targets(w, w, b, n, k) {
        GoodParts(w, n);
        if SlotOf(w, n) == k && n != q { NotSwitched(w, b, q, n); }
      }
      Untouched(w, 0, w, x, b, k);
      ShownAt(w, a, x, q);
    }
  }

  lemma ThatIsPresent(f: Field, t: Slot)
    requires f.rule.Oneof? && t.Union? && t.which == f.tag
    ensures Present(f, t)
  {
  }

  lemma NotSwitched(w: Schema, b: Slots, q: nat, n: nat)
    requires q < |w| && n < |w| && n != q && SlotOf(w, n) == SlotOf(w, q)
    requires w[q].rule.Oneof? ==> !Switched(w, SlotOf(w, q), Get(b, SlotOf(w, q)))
    ensures !Present(w[n], Get(b, SlotOf(w, n)))
  {
    hide SlotOf;
    if n < q { SlotsIncrease(w, n, q); } else { SlotsIncrease(w, q, n); }
  }

  /** Last One Wins: decoding the concatenation succeeds exactly if the first message has room and the
      second fits on top of it, and gives the merged message. */
  lemma ConcatenationIsMerge(w: Schema, a: Slots, b: Slots)
    requires Good(w) && ZeroDefaults(w) && TypedFrom(w, 0, a) && TypedFrom(w, 0, b)
    requires |Encode(w, a)| < TWO63 && |Encode(w, b)| < TWO63
    ensures Decode(w, Encode(w, a) + Encode(w, b)).Some? <==> Room(w, w, a) && Fit(w, a, b)
    ensures Room(w, w, a) && Fit(w, a, b) ==>
      var y := Decode(w, Encode(w, a) + Encode(w, b)).value; y.rest == [] && Joined(w, a, b, y.value)
  {
    hide Good, ZeroDefaults, TypedFrom, Encode, Room, Fit, Joined, Decode, MergeFrom, Fresh, Serves, Shows, Clean;
    ReadsItself(w);
    ServesItself(w);
    Concatenation(w, w, a, b);
    MergeShows(w, w, a);
    if Room(w, w, a) {
      var x := Merge(w, w, Fresh(w), a).value;
      FreshIsClean(w);
      MergeClean(w, Fresh(w), a);
      MessagesJoin(w, a, x, b);
    }
  }

  lemma ServesItself(w: Schema)
    requires Reduced(w, w)
    ensures Serves(w, w)
  {
  }
}
