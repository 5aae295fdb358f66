// What nanopb's decoder may return, whatever bytes it is given: messages that their members can hold, and
// that can be encoded again.

module PbDecodedMessages {
  import opened Basics
  import opened Products
  import opened PbVarint
  import opened PbSchemas
  import opened PbEncoding
  import opened PbDecoding
  import opened PbMerging
  import opened PbDecodeIsMerge
  import opened PbReaders
  import opened PbTheorems
  import opened PbOutputs
  import opened PbValidMessages

  // ----- integers

  lemma SignedIs(v: nat, x: Width, i: int)
    ensures Signed(v, x) == i <==> -(x.Span() as int) <= 2 * i < x.Span() && (v - i) % x.Span() == 0
  {
    var n := x.Span();
    Divided(v, n);
    if Signed(v, x) == i {
      if 2 * (v % n) < n {
        Congruent(v - i, n, v / n);
      } else {
        Congruent(v - i, n, v / n + 1);
      }
    }
    if -(n as int) <= 2 * i < n && (v - i) % n == 0 {
      var q := (v - i) / n;
      if i >= 0 { Congruence(v, n, q, i); } else { Congruence(v, n, q - 1, i + n); }
    }
  }

  lemma Divided(v: int, n: nat)
    requires n > 0
    ensures v == n * (v / n) + v % n && 0 <= v % n < n
  {
  }

  lemma Congruent(d: int, n: nat, q: int)
    requires n > 0 && d == n * q
    ensures d % n == 0
  {
    Congruence(d, n, q, 0);
  }

  lemma Congruence(d: int, n: nat, q: int, r: int)
    requires n > 0 && d == n * q + r && 0 <= r < n
    ensures d % n == r && d / n == q
  {
    Divided(d, n);
    SameParts(n, q, r, d / n, d % n);
  }

  lemma SameParts(n: nat, q: int, r: int, q': int, r': int)
    requires n * q + r == n * q' + r' && 0 <= r < n && 0 <= r' < n
    ensures q == q' && r == r'
  {
    Distribute(q, 1, n);
    Distribute(q', 1, n);
    if q < q' { MulMono(q + 1, q', n); } else if q' < q { MulMono(q' + 1, q, n); }
  }

  /** Signed numbers of one, two, four and eight bytes end before this one. */
  function Half(x: Width): nat {
    match x case W1 => 128 case W2 => 32768 case W4 => 0x8000_0000 case W8 => 0x8000_0000_0000_0000
  }

  /** A signed member takes exactly the number in its range that agrees with the low 32 bits, or all 64. */
  lemma NarrowIs(x: Width, v: nat, i: int)
    ensures NarrowVarint(x, v) == Some(i) <==>
      && -(Half(x) as int) <= i < Half(x)
      && (v - i) % (if x.W8? then 0x1_0000_0000_0000_0000 else 0x1_0000_0000) == 0
  {
    hide Signed;
    if x.W8? {
      SignedIs(v, W8, i);
    } else {
      SignedIs(v, W4, i);
      SignedIs(v, x, i);
      if (v - i) % 0x1_0000_0000 == 0 {
        var q := (v - i) / 0x1_0000_0000;
        match x {
          case W1 => Congruent(v - i, 0x100, 0x100_0000 * q);
          case W2 => Congruent(v - i, 0x1_0000, 0x1_0000 * q);
          case W4 =>
          case W8 =>
        }
      }
    }
  }

  /** An unsigned member takes exactly the numbers in its range, and so does a zigzag one: 0, -1, 1, -2 and so on. */
  lemma IntegerReads(x: Width, n: nat, rest: seq<Byte>)
    requires n < TWO64
    ensures DecodeScalar(UVarint(x), PbVarint.Varint(n) + rest) ==
      if n < 2 * Half(x) then Some(Got(Number(n), rest)) else None
    ensures var i := if n % 2 == 0 then n / 2 else -(n / 2) - 1;
      DecodeScalar(SVarint(x), PbVarint.Varint(n) + rest) ==
      if -(Half(x) as int) <= i < Half(x) then Some(Got(Number(i), rest)) else None
  {
    hide PbVarint.Varint, Varint64;
    Varint64RoundTrip(n, rest);
  }

  // ----- what members can hold

  /** Numbers in the range of their member, bytes and strings no longer than it, strings with a terminator. */
  ghost predicate Fitting(k: Kind, v: Value)
    decreases k
  {
    match k
    case Bool => v.Flag?
    case Varint(x) => v.Number? && -(Half(x) as int) <= v.i < Half(x)
    case SVarint(x) => v.Number? && -(Half(x) as int) <= v.i < Half(x)
    case UVarint(x) => v.Number? && 0 <= v.i < 2 * Half(x)
    case Fixed32 => v.Number? && 0 <= v.i < 0x1_0000_0000
    case Fixed64 => v.Number? && 0 <= v.i < 0x1_0000_0000_0000_0000
    case Bytes(cap) => v.Data? && |v.bytes| <= cap
    case Text(cap) => v.Data? && |v.bytes| < cap && forall i :: 0 <= i < |v.bytes| ==> v.bytes[i] != 0
    case FixedBytes(n) => v.Data? && |v.bytes| == n
    case Submessage(w) => v.Message? && FittingMessage(w, v.slots)
  }

  ghost predicate FittingSlot(f: Field, s: Slot)
    decreases f
  {
    match f.rule
    case Required => s.One? && Fitting(f.kind, s.value)
    case Singular => s.One? && Fitting(f.kind, s.value)
    case Optional => s.Opt? && Fitting(f.kind, s.value)
    case Repeated(max) => s.Many? && |s.items| <= max && forall i :: 0 <= i < |s.items| ==> Fitting(f.kind, s.items[i])
    case Oneof => s.Union? && (s.which == f.tag ==> Fitting(f.kind, s.value))
  }

  ghost predicate FittingMessage(w: Schema, m: Slots)
    decreases w
  {
    forall p: nat :: p < |w| ==> FittingSlot(w[p], Get(m, SlotOf(w, p)))
  }

  /** Default values fit their members, and a string has room for its terminator. */
  ghost predicate Proper(w: Schema)
    decreases w
  {
    forall p: nat :: p < |w| ==> ProperField(w[p])
  }

  ghost predicate ProperField(f: Field)
    decreases f
  {
    && (f.kind.Text? ==> f.kind.cap > 0)
    && (f.init.Some? && !f.kind.Submessage? ==> Fitting(f.kind, f.init.value))
    && (f.kind.Submessage? ==> Proper(f.kind.schema))
  }

  // ----- at the beginning

  lemma {:induction false} ZeroFits(f: Field)
    requires ProperField(f) && GoodField(f)
    ensures Fitting(f.kind, Zero(f.kind))
    decreases f, 0
  {
    hide FittingMessage, Proper, Good, Defaults;
    if f.kind.Submessage? { FreshFits(f.kind.schema); }
  }

  lemma {:induction false} DefaultFits(f: Field)
    requires ProperField(f) && GoodField(f) && 1 <= f.tag
    ensures FittingSlot(f, DefaultSlot(f))
    decreases f, 1
  {
    hide Fitting, Proper, Good, Zero;
    ZeroFits(f);
  }

  lemma {:induction false} FreshFits(w: Schema)
    requires Proper(w) && Good(w)
    ensures FittingMessage(w, Fresh(w))
    decreases w
  {
    hide FittingSlot, ProperField, GoodField, Fresh, DefaultSlot, SlotOf;
    FreshIsSized(w);
    forall p: nat | p < |w| ensures FittingSlot(w[p], Get(Fresh(w), SlotOf(w, p))) {
      DefaultFits(w[p]);
    }
  }

  // ----- every byte string

  lemma FixedFits(b: seq<Byte>)
    ensures DecodeFixed(b) < Power256(|b|)
  {
    if b != [] { FixedFits(b[1..]); }
  }

  lemma CStringEnds(d: seq<Byte>)
    ensures |CString(d)| <= |d| && forall i :: 0 <= i < |CString(d)| ==> CString(d)[i] != 0
  {
    if d != [] && d[0] != 0 { CStringEnds(d[1..]); }
  }

  /** Whatever the bytes are, a value that is decoded fits its member. */
  lemma ScalarFits(k: Kind, s: seq<Byte>)
    requires !k.Submessage? && DecodeScalar(k, s).Some?
    ensures Fitting(k, DecodeScalar(k, s).value.value)
  {
    hide Varint32, Varint64, NarrowVarint, CString, DecodeFixed;
    match k
    case Varint(x) => NarrowIs(x, Varint64(s).value.value, NarrowVarint(x, Varint64(s).value.value).value);
    case Fixed32 =>
      Powers();
      FixedFits(s[..4]);
    case Fixed64 =>
      Powers();
      FixedFits(s[..8]);
    case Text(_) =>
      var n := Varint32(s).value;
      CStringEnds(n.rest[..n.value]);
    case _ =>
  }

  lemma {:induction false} ValueFits(k: Kind, current: Value, s: seq<Byte>)
    requires k.Submessage? ==> Good(k.schema) && Proper(k.schema) && Fitting(k, current)
    ensures DecodeValue(k, current, s).Some? ==> Fitting(k, DecodeValue(k, current, s).value.value)
    decreases |s|, 0
  {
    hide DecodeScalar, DecodeLoop, Good, Proper, FittingMessage, Prefixed;
    match k
    case Submessage(w) =>
      if Prefixed(s).Some? { LoopFits(w, SlotsIn(current), {}, Prefixed(s).value.value); }
    case _ => if DecodeScalar(k, s).Some? { ScalarFits(k, s); }
  }

  lemma {:induction false} PackedFits(k: Kind, max: nat, items: seq<Value>, s: seq<Byte>)
    requires k.Packable() && |items| <= max && forall i :: 0 <= i < |items| ==> Fitting(k, items[i])
    ensures var r := DecodePacked(k, max, items, s);
      r.Some? ==> |r.value| <= max && forall i :: 0 <= i < |r.value| ==> Fitting(k, r.value[i])
    decreases |s|
  {
    hide DecodeScalar, Fitting;
    if s != [] && |items| < max && DecodeScalar(k, s).Some? {
      var g := DecodeScalar(k, s).value;
      ScalarFits(k, s);
      ScalarConsumes(k, s);
      PackedFits(k, max, items + [g.value], g.rest);
    }
  }

  lemma {:induction false} FieldFits(f: Field, slot: Slot, wireType: nat, s: seq<Byte>)
    requires FittingSlot(f, slot) && ProperField(f) && GoodField(f) && 1 <= f.tag
    ensures var r := DecodeField(f, slot, wireType, s);
      r.Some? ==> FittingSlot(f, r.value.value) && (f.rule.Oneof? ==> r.value.value.which == f.tag)
    decreases |s|, 1
  {
    hide DecodeValue, DecodePacked, Fitting, Prefixed, Zero, Good, Proper;
    ZeroFits(f);
    match slot
    case Many(items) =>
      if wireType == 2 && f.kind.Packable() {
        if Prefixed(s).Some? { PackedFits(f.kind, f.rule.max, items, Prefixed(s).value.value); }
      } else {
        ValueFits(f.kind, Zero(f.kind), s);
      }
    case One(v) => ValueFits(f.kind, v, s);
    case Opt(_, v) => ValueFits(f.kind, v, s);
    case Union(which, v) =>
      ValueFits(f.kind, if f.kind.Submessage? && which != f.tag then Zero(f.kind) else v, s);
  }

  /** One field changes no other one, except for the choice of its union. */
  lemma PutFits(w: Schema, m: Slots, p: nat, s: Slot)
    requires Tagged(w) && FittingMessage(w, m) && p < |w| && FittingSlot(w[p], s)
    requires w[p].rule.Oneof? ==> s.which == w[p].tag
    ensures FittingMessage(w, Put(m, SlotOf(w, p), s))
  {
    hide Fitting, SlotOf;
    forall q: nat | q < |w| ensures FittingSlot(w[q], Get(Put(m, SlotOf(w, p), s), SlotOf(w, q))) {
      assert FittingSlot(w[q], Get(m, SlotOf(w, q)));
      if SlotOf(w, q) == SlotOf(w, p) && q != p {
        if p < q { SlotsIncrease(w, p, q); } else { SlotsIncrease(w, q, p); }
        assert w[q].tag != w[p].tag;
      }
    }
  }

  /** The loop keeps members fitting. */
  lemma {:induction false} LoopFits(w: Schema, m: Slots, seen: set<nat>, s: seq<Byte>)
    requires Good(w) && Proper(w) && FittingMessage(w, m)
    ensures DecodeLoop(w, m, seen, s).Some? ==> FittingMessage(w, DecodeLoop(w, m, seen, s).value.value)
    decreases |s|, 0
  {
    hide DecodeField, Skip, SlotOf, Find, FittingSlot, ProperField, GoodField, AllSeen, Mark;
    if s != [] && Varint32(s).Some? && Varint32(s).value.value != 0 {
      var g := Varint32(s).value;
      match Find(w, g.value / 8)
      case Some(p) =>
        var slot := Get(m, SlotOf(w, p));
        FieldFits(w[p], slot, g.value % 8, g.rest);
        var h := DecodeField(w[p], slot, g.value % 8, g.rest);
        if h.Some? {
          PutFits(w, m, p, h.value.value);
          LoopFits(w, Put(m, SlotOf(w, p), h.value.value), Mark(w, p, seen), h.value.rest);
        }
      case None =>
        if w == [] && g.value / 8 == 0 {
          if Varint32(g.rest).Some? { LoopFits(w, m, seen, Varint32(g.rest).value.rest); }
        } else if Skip(g.value % 8, g.rest).Some? {
          LoopFits(w, m, seen, Skip(g.value % 8, g.rest).value);
        }
    }
  }

  // ----- messages that can be encoded again

  lemma {:induction false} FittingIsValid(k: Kind, v: Value)
    requires Fitting(k, v)
    ensures Typed(k, v) && Encodes(k, v) && Terminated(k, v)
    decreases k
  {
    hide FittingMessage, TypedFrom, EncodesFrom, AllTerminated;
    if k.Submessage? { MessageIsValid(k.schema, v.slots); }
  }

  lemma {:induction false} SlotIsValid(f: Field, s: Slot)
    requires FittingSlot(f, s)
    ensures TypedSlot(f, s) && EncodesField(f, s) && TerminatedField(f, s)
    decreases f
  {
    hide Fitting, Typed, Encodes, Terminated, IsEmpty;
    match s
    case Many(vs) =>
      forall i | 0 <= i < |vs| ensures Typed(f.kind, vs[i]) && Encodes(f.kind, vs[i]) && Terminated(f.kind, vs[i]) {
        FittingIsValid(f.kind, vs[i]);
      }
    case One(v) => FittingIsValid(f.kind, v);
    case Opt(_, v) => FittingIsValid(f.kind, v);
    case Union(which, v) => if which == f.tag { FittingIsValid(f.kind, v); }
  }

  lemma {:induction false} MessageIsValid(w: Schema, m: Slots)
    requires FittingMessage(w, m)
    ensures TypedFrom(w, 0, m) && EncodesFrom(w, 0, m) && AllTerminated(w, m)
    decreases w
  {
    hide FittingSlot, TypedFrom, EncodesFrom, TypedSlot, EncodesField, TerminatedField, SlotOf;
    forall p: nat | p < |w|
      ensures var s := Get(m, SlotOf(w, p)); TypedSlot(w[p], s) && EncodesField(w[p], s) && TerminatedField(w[p], s)
    {
      SlotIsValid(w[p], Get(m, SlotOf(w, p)));
    }
    FieldsSuffice(w, 0, m);
  }

  lemma {:induction false} FieldsSuffice(w: Schema, p: nat, m: Slots)
    requires p <= |w|
    requires forall q: nat :: p <= q < |w| ==>
      TypedSlot(w[q], Get(m, SlotOf(w, q))) && EncodesField(w[q], Get(m, SlotOf(w, q)))
    ensures TypedFrom(w, p, m) && EncodesFrom(w, p, m)
    decreases |w| - p
  {
    hide TypedSlot, EncodesField;
    if p < |w| { FieldsSuffice(w, p + 1, m); }
  }

  /** Whatever bytes are decoded, the message is one that its struct can hold and that can be encoded. */
  lemma DecodedIsValid(w: Schema, s: seq<Byte>)
    requires Good(w) && Proper(w) && Decode(w, s).Some?
    ensures var x := Decode(w, s).value.value; TypedFrom(w, 0, x) && EncodesFrom(w, 0, x) && AllTerminated(w, x)
  {
    hide Good, Proper, FittingMessage, DecodeLoop, TypedFrom, EncodesFrom, AllTerminated;
    FreshFits(w);
    LoopFits(w, Fresh(w), {}, s);
    MessageIsValid(w, Decode(w, s).value.value);
  }

  /** And decoding what is encoded gives it again. */
  lemma DecodedRoundTrip(w: Schema, s: seq<Byte>)
    requires Good(w) && Proper(w) && ZeroDefaults(w) && Decode(w, s).Some?
    requires |Encode(w, Decode(w, s).value.value)| < TWO32
    ensures var x := Decode(w, s).value.value; var y := Decode(w, Encode(w, x));
      y.Some? && y.value.rest == [] && Shows(w, w, x, y.value.value)
  {
    hide Good, Proper, ZeroDefaults, Decode, Encode, TypedFrom, EncodesFrom, AllTerminated, Shows;
    DecodedIsValid(w, s);
    EncodedDecodes(w, Decode(w, s).value.value);
  }

  /** A message that has room where it is can be encoded there. */
  lemma {:induction false} RoomIsEncodable(w: Schema, m: Slots)
    requires Good(w) && TypedFrom(w, 0, m) && Room(w, w, m)
    ensures EncodesFrom(w, 0, m)
    decreases w, 1
  {
    hide TypedFrom, EncodesFrom, TypedSlot, EncodesField, RoomField, SlotOf;
    forall p: nat | p < |w| ensures TypedSlot(w[p], Get(m, SlotOf(w, p))) && EncodesField(w[p], Get(m, SlotOf(w, p))) {
      TypedAt(w, 0, m, p);
      FindIs(w, p);
      assert RoomField(w[p], w, Get(m, SlotOf(w, p)));
      FieldIsEncodable(w[p], w, p, Get(m, SlotOf(w, p)));
    }
    FieldsSuffice(w, 0, m);
  }

  lemma {:induction false} FieldIsEncodable(f: Field, w: Schema, p: nat, s: Slot)
    requires p < |w| && w[p] == f && Find(w, f.tag) == Some(p) && GoodField(f) && TypedSlot(f, s) && RoomField(f, w, s)
    ensures EncodesField(f, s)
    decreases f
  {
    hide Typed, Encodes, RoomValue, IsEmpty, Find, Good, Elements;
    if Present(f, s) {
      match s
      case One(v) => ValueIsEncodable(f.kind, v);
      case Opt(_, v) => ValueIsEncodable(f.kind, v);
      case Union(_, v) => ValueIsEncodable(f.kind, v);
      case Many(vs) =>
        forall i | 0 <= i < |vs| ensures Encodes(f.kind, vs[i]) {
          if f.kind.Packable() { PlainEncodes(f.kind, vs[i]); } else { ValueIsEncodable(f.kind, vs[i]); }
        }
    }
  }

  lemma PlainEncodes(k: Kind, v: Value)
    requires k.Packable()
    ensures Encodes(k, v)
  {
  }

  lemma {:induction false} ValueIsEncodable(k: Kind, v: Value)
    requires Typed(k, v) && RoomValue(k, k, v) && (k.Submessage? ==> Good(k.schema))
    ensures Encodes(k, v)
    decreases k
  {
    hide TypedFrom, EncodesFrom, Room, Good;
    if k.Submessage? { RoomIsEncodable(k.schema, v.slots); }
  }
}
