// Which encoded nanopb messages decode again, told from the message alone.

module PbValidMessages {
  import opened Basics
  import opened PbVarint
  import opened PbSchemas
  import opened PbEncoding
  import opened PbDecoding
  import opened PbMerging
  import opened PbDecodeIsMerge
  import opened PbReaders
  import opened PbTheorems
  import opened PbConcatenation
  import opened PbOutputs

  // ----- strings that end inside their member

  /** A string has a terminating NUL in its member. */
  ghost predicate Terminated(k: Kind, v: Value)
    decreases k
  {
    match (k, v)
    case (Text(cap), Data(d)) => |d| < cap
    case (Submessage(w), Message(m)) => AllTerminated(w, m)
    case _ => true
  }

  ghost predicate TerminatedSlot(f: Field, s: Slot)
    decreases f, 0
  {
    match s
    case One(v) => Terminated(f.kind, v)
    case Opt(_, v) => Terminated(f.kind, v)
    case Union(_, v) => Terminated(f.kind, v)
    case Many(vs) => forall i :: 0 <= i < |vs| ==> Terminated(f.kind, vs[i])
  }

  ghost predicate TerminatedField(f: Field, s: Slot)
    decreases f
  {
    Present(f, s) ==> TerminatedSlot(f, s)
  }

  /** So have all strings that are present, at any depth. */
  ghost predicate AllTerminated(w: Schema, m: Slots)
    decreases w
  {
    forall n: nat :: n < |w| ==> TerminatedField(w[n], Get(m, SlotOf(w, n)))
  }

  // ----- parts are no longer than the whole

  lemma {:induction false} FieldInside(w: Schema, p: nat, m: Slots, n: nat)
    requires p <= n < |w|
    ensures |EncodeField(w[n], Get(m, SlotOf(w, n)))| <= |EncodeFrom(w, p, m)|
    decreases |w| - p
  {
    hide EncodeField;
    if p < n { FieldInside(w, p + 1, m, n); }
  }

  lemma {:induction false} ItemInside(f: Field, vs: seq<Value>, i: nat)
    requires i < |vs|
    ensures |EncodeValue(f.kind, vs[i])| <= |Records(f, vs)|
  {
    hide EncodeValue, TagBytes;
    if i > 0 { ItemInside(f, vs[1..], i - 1); }
  }

  lemma {:induction false} EncodesAt(w: Schema, p: nat, m: Slots, n: nat)
    requires p <= n < |w| && EncodesFrom(w, p, m)
    ensures EncodesField(w[n], Get(m, SlotOf(w, n)))
    decreases |w| - p
  {
    if p < n { EncodesAt(w, p + 1, m, n); }
  }

  lemma PayloadInside(k: Kind, v: Value)
    requires |EncodeValue(k, v)| < TWO32
    ensures PayloadFits(k, v)
  {
    hide PbVarint.Varint, EncodeFrom;
  }

  // ----- room

  lemma {:induction false} ValueRoom(k: Kind, v: Value)
    requires Typed(k, v) && Encodes(k, v) && |EncodeValue(k, v)| < TWO32 && (k.Submessage? ==> Good(k.schema))
    ensures RoomValue(k, k, v) <==> Terminated(k, v)
    decreases k, 0
  {
    hide Good, TypedFrom, EncodesFrom, EncodeFrom, Room, AllTerminated, PbVarint.Varint;
    PayloadInside(k, v);
    match k
    case Submessage(w) => TerminatedRoom(w, v.slots);
    case _ =>
  }

  lemma {:induction false} SlotRoom(f: Field, s: Slot)
    requires TypedSlot(f, s) && EncodesField(f, s) && GoodField(f) && Present(f, s) && |EncodeField(f, s)| < TWO32
    ensures RoomSlot(f, f, s) <==> TerminatedSlot(f, s)
    decreases f, 0
  {
    hide Typed, Encodes, EncodeValue, RoomValue, Terminated, Good, IsEmpty, Records, Elements, TagBytes;
    match s
    case One(v) => ValueRoom(f.kind, v);
    case Opt(_, v) => ValueRoom(f.kind, v);
    case Union(_, v) => ValueRoom(f.kind, v);
    case Many(vs) =>
      if f.kind.Packable() {
        PlainTerminated(f.kind, vs);
      } else {
        forall i | 0 <= i < |vs| ensures RoomValue(f.kind, f.kind, vs[i]) <==> Terminated(f.kind, vs[i]) {
          ItemInside(f, vs, i);
          ValueRoom(f.kind, vs[i]);
        }
      }
  }

  lemma PlainTerminated(k: Kind, vs: seq<Value>)
    requires k.Packable()
    ensures forall i :: 0 <= i < |vs| ==> Terminated(k, vs[i])
  {
  }

  /** A message of less than 4 GiB that can be encoded has room in its own struct exactly if its strings
      are terminated. */
  lemma {:induction false} TerminatedRoom(w: Schema, m: Slots)
    requires Good(w) && TypedFrom(w, 0, m) && EncodesFrom(w, 0, m) && |Encode(w, m)| < TWO32
    ensures Room(w, w, m) <==> AllTerminated(w, m)
    decreases w, 1
  {
    hide TypedFrom, EncodesFrom, EncodeFrom, EncodeField, TypedSlot, EncodesField, RoomSlot, TerminatedSlot, Present,
      Skippable;
    forall n: nat | n < |w|
      ensures var s := Get(m, SlotOf(w, n)); RoomField(w[n], w, s) <==> TerminatedField(w[n], s)
    {
      FieldInside(w, 0, m, n);
      FindIs(w, n);
      TypedAt(w, 0, m, n);
      EncodesAt(w, 0, m, n);
      if Present(w[n], Get(m, SlotOf(w, n))) { SlotRoom(w[n], Get(m, SlotOf(w, n))); }
    }
  }

  /** What was encoded in less than 4 GiB decodes to the message again exactly if its strings are terminated. */
  lemma EncodedDecodes(w: Schema, m: Slots)
    requires Good(w) && ZeroDefaults(w) && TypedFrom(w, 0, m) && EncodesFrom(w, 0, m) && |Encode(w, m)| < TWO32
    ensures Decode(w, Encode(w, m)).Some? <==> AllTerminated(w, m)
    ensures AllTerminated(w, m) ==> var x := Decode(w, Encode(w, m)).value; x.rest == [] && Shows(w, w, m, x.value)
  {
    hide Good, ZeroDefaults, Encode, TypedFrom, EncodesFrom, Room, AllTerminated, Shows, Decode;
    TerminatedRoom(w, m);
    RoundTrip(w, m);
  }

  // ----- messages that are encoded and do not decode

  lemma FieldOnly(f: Field, s: Slot)
    ensures Encode([f], [s]) == EncodeField(f, s)
  {
    hide EncodeField;
    assert Get([s], SlotOf([f], 0)) == s && EncodeFrom([f], 1, [s]) == [];
  }

  /** Messages of one required or repeated field. */
  lemma OneField(f: Field, s: Slot)
    requires 1 <= f.tag < 0x2000_0000 && !f.kind.Submessage? && f.init.None? && TypedSlot(f, s) && EncodesField(f, s)
    requires |EncodeField(f, s)| < TWO63 && Present(f, s) && !RoomSlot(f, f, s)
    ensures Good([f]) && TypedFrom([f], 0, [s]) && EncodesFrom([f], 0, [s]) && Decode([f], Encode([f], [s])) == None
  {
    hide TypedSlot, EncodesField, EncodeField, RoomSlot, Present, Decode, Shows;
    var w, m := [f], [s];
    assert Get(m, SlotOf(w, 0)) == s && TypedFrom(w, 1, m) && EncodesFrom(w, 1, m);
    FieldOnly(f, s);
    FindIs(w, 0);
    assert !RoomField(w[0], w, s);
    RoundTrip(w, m);
  }

  /** A string that fills its member without a NUL. */
  lemma UnterminatedIsLost()
    ensures var w, m := [Field(1, Required, Text(1), false, 0, 1, None)], [One(Data([65]))];
      Good(w) && TypedFrom(w, 0, m) && EncodesFrom(w, 0, m) && Decode(w, Encode(w, m)) == None
  {
    var f, s := Field(1, Required, Text(1), false, 0, 1, None), One(Data([65]));
    VarintSize(1);
    VarintSize(10);
    OneField(f, s);
  }

  lemma {:induction false} VarintSize(n: nat)
    ensures |PbVarint.Varint(n)| <= n + 1
  {
    if n >= 128 { VarintSize(n / 128); }
  }

  /** A packed array of 2^30 words, whose block has a length of 33 bits. */
  lemma LongBlockIsLost(vs: seq<Value>)
    requires |vs| == 0x4000_0000 && forall i :: 0 <= i < |vs| ==> Typed(Fixed32, vs[i])
    ensures var w, m := [Field(1, Repeated(0x4000_0000), Fixed32, false, 0, 4, None)], [Many(vs)];
      Good(w) && TypedFrom(w, 0, m) && EncodesFrom(w, 0, m) && Decode(w, Encode(w, m)) == None
  {
    hide Elements;
    var f, s := Field(1, Repeated(0x4000_0000), Fixed32, false, 0, 4, None), Many(vs);
    FixedSize(Fixed32, vs);
    VarintSize(10);
    VarintSize(0x1_0000_0000);
    OneField(f, s);
  }

  /** Two messages of one element each, which do not decode together into a member for one. */
  lemma TogetherTooMany()
    ensures var w, m := [Field(1, Repeated(1), Bool, false, 0, 1, None)], [Many([Flag(true)])];
      Decode(w, Encode(w, m)).Some? && Decode(w, Encode(w, m) + Encode(w, m)) == None
  {
    var f, s := Field(1, Repeated(1), Bool, false, 0, 1, None), Many([Flag(true)]);
    var w, m := [f], [s];
    OneBool();
    hide EncodeField, Decode, Encode, Shows, Joined;
    assert Get(m, SlotOf(w, 0)) == s && TypedFrom(w, 1, m) && EncodesFrom(w, 1, m);
    FieldOnly(f, s);
    TerminatedRoom(w, m);
    RoundTrip(w, m);
    assert !FitField(f, s, s);
    ConcatenationIsMerge(w, m, m);
  }

  lemma OneBool()
    ensures |EncodeField(Field(1, Repeated(1), Bool, false, 0, 1, None), Many([Flag(true)]))| < TWO32
  {
    var e := EncodeValue(Bool, Flag(true));
    assert Elements(Bool, [Flag(true)]) == e + Elements(Bool, [Flag(true)][1..]);
    VarintSize(1);
    VarintSize(10);
    VarintSize(|e|);
  }
}
