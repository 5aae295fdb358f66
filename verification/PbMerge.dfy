// What decoding an encoded nanopb message means, without bytes: the message is merged into the one that
// is already there. The reader's schema may lack fields of the writer's, at any depth.

module PbMerging {
  import opened Basics
  import opened Products
  import opened PbVarint
  import opened PbSchemas
  import opened PbEncoding
  import opened PbDecoding

  // ----- readers

  predicate SameRule(a: Rule, b: Rule) {
    a == b || (a.Repeated? && b.Repeated?)
  }

  /** Capacities may differ. */
  predicate SameKind(a: Kind, b: Kind)
    decreases a
  {
    match (a, b)
    case (Bytes(_), Bytes(_)) => true
    case (Text(_), Text(_)) => true
    case (Submessage(w), Submessage(r)) => Reads(w, r)
    case _ => a == b && !a.Submessage?
  }

  /** Every field of r is one of w. */
  predicate Reads(w: Schema, r: Schema)
    decreases w
  {
    forall q | 0 <= q < |r| :: Find(w, r[q].tag).Some? && Fits(w[Find(w, r[q].tag).value], r[q])
  }

  predicate Fits(a: Field, b: Field)
    decreases a
  {
    SameRule(a.rule, b.rule) && SameKind(a.kind, b.kind)
  }

  // ----- merging

  /** The decoder reads lengths as 32-bit numbers. */
  predicate PayloadFits(k: Kind, v: Value) {
    match (k, v)
    case (Bytes(_), Data(d)) => |d| < TWO32
    case (Text(_), Data(d)) => |d| < TWO32
    case (FixedBytes(_), Data(d)) => |d| < TWO32
    case (Submessage(w), Message(m)) => |Encode(w, m)| < TWO32
    case _ => true
  }

  /** A value v of kind kw, merged into the current one of kind kr: submessages merge, all others are
      replaced. None where the reader has no room. */
  function MergeValue(kw: Kind, kr: Kind, current: Value, v: Value): Option<Value>
    decreases kw, 0
  {
    if !PayloadFits(kw, v) then None
    else match (kw, kr, v)
      case (Bytes(_), Bytes(cap), Data(d)) => if |d| <= cap then Some(v) else None
      case (Text(_), Text(cap), Data(d)) => if |d| + 1 <= cap then Some(v) else None
      case (Submessage(w), Submessage(r), Message(m)) =>
        (match MergeFrom(w, 0, r, SlotsIn(current), m) case None => None case Some(x) => Some(Message(x)))
      case _ => Some(v)
  }

  /** One value into a member: the last one wins, repeated fields append, and a oneof that switches to a
      submessage starts it afresh. */
  function MergeOne(kw: Kind, fr: Field, slot: Slot, v: Value): Option<Slot>
    decreases kw, 1
  {
    match (fr.rule, slot)
    case (Repeated(max), Many(items)) =>
      if |items| >= max then None
      else (match MergeValue(kw, fr.kind, Zero(fr.kind), v) case None => None case Some(x) => Some(Many(items + [x])))
    case (Optional, Opt(_, c)) =>
      (match MergeValue(kw, fr.kind, c, v) case None => None case Some(x) => Some(Opt(true, x)))
    case (Oneof, Union(which, c)) =>
      var current := if fr.kind.Submessage? && which != fr.tag then Zero(fr.kind) else c;
      (match MergeValue(kw, fr.kind, current, v) case None => None case Some(x) => Some(Union(fr.tag, x)))
    case (Required, One(c)) =>
      (match MergeValue(kw, fr.kind, c, v) case None => None case Some(x) => Some(One(x)))
    case (Singular, One(c)) =>
      (match MergeValue(kw, fr.kind, c, v) case None => None case Some(x) => Some(One(x)))
    case _ => None
  }

  /** One value after the other into the member at k. */
  function MergeAll(kw: Kind, fr: Field, k: nat, acc: Slots, vs: seq<Value>): Option<Slots>
    decreases kw, 2, |vs|
  {
    if vs == [] then Some(acc)
    else match MergeOne(kw, fr, Get(acc, k), vs[0])
      case None => None
      case Some(t) => MergeAll(kw, fr, k, Put(acc, k, t), vs[1..])
  }

  /** A packed block has a length of its own. */
  function MergePacked(kw: Kind, fr: Field, slot: Slot, vs: seq<Value>): Option<Slot> {
    match (fr.rule, slot)
    case (Repeated(max), Many(items)) =>
      if |Elements(kw, vs)| < TWO32 && |items| + |vs| <= max then Some(Many(items + vs)) else None
    case _ => None
  }

  predicate Present(f: Field, s: Slot) {
    match (f.rule, s)
    case (Required, One(_)) => true
    case (Singular, One(v)) => !IsEmpty(f.kind, v)
    case (Optional, Opt(has, _)) => has
    case (Repeated(_), Many(vs)) => vs != []
    case (Oneof, Union(which, _)) => which == f.tag
    case _ => false
  }

  function Stored(acc: Slots, k: nat, t: Option<Slot>): Option<Slots> {
    match t case None => None case Some(x) => Some(Put(acc, k, x))
  }

  function MergeSlot(kw: Kind, fr: Field, k: nat, acc: Slots, s: Slot): Option<Slots>
    decreases kw, 3
  {
    match s
    case One(v) => Stored(acc, k, MergeOne(kw, fr, Get(acc, k), v))
    case Opt(_, v) => Stored(acc, k, MergeOne(kw, fr, Get(acc, k), v))
    case Union(_, v) => Stored(acc, k, MergeOne(kw, fr, Get(acc, k), v))
    case Many(vs) =>
      if kw.Packable() then Stored(acc, k, MergePacked(kw, fr, Get(acc, k), vs)) else MergeAll(kw, fr, k, acc, vs)
  }

  /** A field that the reader does not know is skipped. */
  predicate Skippable(k: Kind, s: Slot) {
    match s
    case One(v) => PayloadFits(k, v)
    case Opt(_, v) => PayloadFits(k, v)
    case Union(_, v) => PayloadFits(k, v)
    case Many(vs) =>
      if k.Packable() then |Elements(k, vs)| < TWO32 else forall i | 0 <= i < |vs| :: PayloadFits(k, vs[i])
  }

  function MergeField(f: Field, r: Schema, acc: Slots, s: Slot): Option<Slots>
    decreases f
  {
    if !Present(f, s) then Some(acc)
    else match Find(r, f.tag)
      case None => if Skippable(f.kind, s) then Some(acc) else None
      case Some(q) => MergeSlot(f.kind, r[q], SlotOf(r, q), acc, s)
  }

  /** The fields of m from position p on, merged into acc one after the other. */
  function MergeFrom(w: Schema, p: nat, r: Schema, acc: Slots, m: Slots): Option<Slots>
    requires p <= |w|
    decreases w, |w| - p
  {
    if p == |w| then Some(acc)
    else match MergeField(w[p], r, acc, Get(m, SlotOf(w, p)))
      case None => None
      case Some(x) => MergeFrom(w, p + 1, r, x, m)
  }

  function Merge(w: Schema, r: Schema, acc: Slots, m: Slots): Option<Slots> {
    MergeFrom(w, 0, r, acc, m)
  }

  // ----- single values

  function Delivered(v: Option<Value>, rest: seq<Byte>): Option<Got<Value>> {
    match v case None => None case Some(x) => Some(Got(x, rest))
  }

  lemma LengthReads(n: nat, rest: seq<Byte>)
    requires n < TWO63
    ensures Varint32(PbVarint.Varint(n) + rest) == if n < TWO32 then Some(Got(n, rest)) else None
  {
    Varint32RoundTrip(n, rest);
  }

  lemma PrefixReads(data: seq<Byte>, rest: seq<Byte>)
    requires |data| < TWO63
    ensures Prefixed(Delimited(data) + rest) == if |data| < TWO32 then Some(Got(data, rest)) else None
  {
    hide Varint32, PbVarint.Varint;
    assert Delimited(data) + rest == PbVarint.Varint(|data|) + (data + rest);
    LengthReads(|data|, data + rest);
    assert (data + rest)[..|data|] == data && (data + rest)[|data|..] == rest;
  }

  lemma {:induction false} VarintSkips(n: nat, rest: seq<Byte>)
    ensures SkipVarint(PbVarint.Varint(n) + rest) == Some(rest)
  {
    Head(n, rest);
    if n >= 128 { VarintSkips(n / 128, rest); }
  }

  /** `pb_skip_field` consumes exactly one encoded payload. */
  lemma PayloadSkips(k: Kind, v: Value, rest: seq<Byte>)
    requires Typed(k, v) && |EncodeValue(k, v)| < TWO63
    ensures Skip(k.WireType(), EncodeValue(k, v) + rest) == if PayloadFits(k, v) then Some(rest) else None
  {
    hide Prefixed, SkipVarint, PbVarint.Varint, EncodeFrom, Delimited, Fixed;
    match k {
      case Bool => VarintSkips(if v.b then 1 else 0, rest);
      case Varint(_) => VarintSkips(v.i % TWO64, rest);
      case UVarint(_) => VarintSkips(v.i % TWO64, rest);
      case SVarint(_) => VarintSkips(ZigZag(v.i), rest);
      case Fixed32 =>
        assert (Fixed(v.i % TWO32, 4) + rest)[4..] == rest;
      case Fixed64 =>
        assert (Fixed(v.i % TWO64, 8) + rest)[8..] == rest;
      case Bytes(_) => DelimitedSkips(v.bytes, rest);
      case Text(_) => DelimitedSkips(v.bytes, rest);
      case FixedBytes(_) => DelimitedSkips(v.bytes, rest);
      case Submessage(w) => DelimitedSkips(EncodeFrom(w, 0, v.slots), rest);
    }
  }

  lemma DelimitedSkips(data: seq<Byte>, rest: seq<Byte>)
    requires |Delimited(data)| < TWO63
    ensures Skip(2, Delimited(data) + rest) == if |data| < TWO32 then Some(rest) else None
  {
    hide Prefixed, PbVarint.Varint;
    PrefixReads(data, rest);
  }

  lemma SignedPattern(x: Width, i: int)
    requires -(x.Span() as int) <= 2 * i < x.Span()
    ensures Signed(i % TWO64, x) == i
  {
    if i >= 0 {
      DivMod(i, TWO64, 0, i);
      DivMod(i, x.Span(), 0, i);
    } else {
      var q := match x
        case W1 => 0x100_0000_0000_0000
        case W2 => 0x1_0000_0000_0000
        case W4 => 0x1_0000_0000
        case W8 => 1;
      assert i % TWO64 == i + TWO64;
      DivMod(i + TWO64, x.Span(), q - 1, i + x.Span());
    }
  }

  lemma PatternNarrows(x: Width, i: int)
    requires -(x.Span() as int) <= 2 * i < x.Span()
    ensures NarrowVarint(x, i % TWO64) == Some(i)
  {
    hide Signed;
    SignedPattern(x, i);
    if !x.W8? { SignedPattern(W4, i); }
  }

  lemma FixedReads(v: nat, width: nat, rest: seq<Byte>)
    requires v < Power256(width)
    ensures ReadFixed(width, Fixed(v, width) + rest) == Some(Got(Number(v), rest))
  {
    FixedRoundTrip(v, width);
    assert (Fixed(v, width) + rest)[..width] == Fixed(v, width);
    assert (Fixed(v, width) + rest)[width..] == rest;
  }

  /** Every value but a submessage is read back as it is. */
  lemma ScalarReads(kw: Kind, kr: Kind, current: Value, v: Value, rest: seq<Byte>)
    requires SameKind(kw, kr) && !kw.Submessage? && Typed(kw, v) && |EncodeValue(kw, v)| < TWO63
    ensures DecodeScalar(kr, EncodeValue(kw, v) + rest) == Delivered(MergeValue(kw, kr, current, v), rest)
  {
    hide Varint32, PbVarint.Varint64, PbVarint.Varint, Fixed, ReadFixed, NarrowVarint, CString, Delimited, MergeFrom,
      Encode, EncodeFrom;
    match kw {
      case Bool => LengthReads(if v.b then 1 else 0, rest);
      case Varint(x) =>
        Varint64RoundTrip(v.i % TWO64, rest);
        PatternNarrows(x, v.i);
      case UVarint(x) => Varint64RoundTrip(v.i % TWO64, rest);
      case SVarint(x) =>
        ZigZagBits(v.i);
        Varint64RoundTrip(ZigZag(v.i), rest);
      case Fixed32 =>
        Powers();
        FixedReads(v.i, 4, rest);
      case Fixed64 =>
        Powers();
        FixedReads(v.i, 8, rest);
      case Bytes(_) => BlockReads(v.bytes, rest);
      case Text(_) => BlockReads(v.bytes, rest);
      case FixedBytes(_) => BlockReads(v.bytes, rest);
    }
  }

  /** A length-delimited block as the decoders of bytes and strings see it. */
  lemma BlockReads(data: seq<Byte>, rest: seq<Byte>)
    requires |data| < TWO63
    ensures var n := Varint32(Delimited(data) + rest);
      && (|data| >= TWO32 ==> n == None)
      && (|data| < TWO32 ==> n == Some(Got(|data|, data + rest)))
      && (data + rest)[..|data|] == data && (data + rest)[|data|..] == rest
  {
    hide Varint32, PbVarint.Varint;
    assert Delimited(data) + rest == PbVarint.Varint(|data|) + (data + rest);
    LengthReads(|data|, data + rest);
  }
}

/** Decoding encoded bytes is merging, exactly: it fails where merging does. */
module PbDecodeIsMerge {
  import opened Basics
  import opened PbVarint
  import opened PbSchemas
  import opened PbEncoding
  import opened PbDecoding
  import opened PbMerging

  /** A schema with distinct tags at every level. */
  ghost predicate Good(w: Schema)
    decreases w
  {
    Tagged(w) && forall p :: 0 <= p < |w| ==> GoodField(w[p])
  }

  ghost predicate GoodField(f: Field)
    decreases f
  {
    f.kind.Submessage? ==> Good(f.kind.schema)
  }

  /** If r knows the field, it agrees on its type. */
  ghost predicate KnownBy(f: Field, r: Schema) {
    Find(r, f.tag).Some? ==> Fits(f, r[Find(r, f.tag).value])
  }

  lemma ReadsKnows(w: Schema, r: Schema, p: nat)
    requires Tagged(w) && Reads(w, r) && p < |w|
    ensures KnownBy(w[p], r)
  {
    hide Fits;
    match Find(r, w[p].tag)
    case None =>
    case Some(q) => FindIs(w, p);
  }

  // ----- what has been seen

  function SeenField(f: Field, r: Schema, s: Slot, seen: set<nat>): set<nat> {
    if Present(f, s) && Find(r, f.tag).Some? then Mark(r, Find(r, f.tag).value, seen) else seen
  }

  function SeenFrom(w: Schema, p: nat, r: Schema, m: Slots, seen: set<nat>): set<nat>
    requires p <= |w|
    decreases |w| - p
  {
    if p == |w| then seen else SeenFrom(w, p + 1, r, m, SeenField(w[p], r, Get(m, SlotOf(w, p)), seen))
  }

  lemma {:induction false} SeenGrows(w: Schema, p: nat, r: Schema, m: Slots, seen: set<nat>)
    requires p <= |w|
    ensures seen <= SeenFrom(w, p, r, m, seen)
    decreases |w| - p
  {
    if p < |w| { SeenGrows(w, p + 1, r, m, SeenField(w[p], r, Get(m, SlotOf(w, p)), seen)); }
  }

  lemma {:induction false} SeenAt(w: Schema, p: nat, r: Schema, m: Slots, seen: set<nat>, n: nat)
    requires p <= n < |w| && Present(w[n], Get(m, SlotOf(w, n))) && Find(r, w[n].tag).Some?
    ensures Tracked(r, Find(r, w[n].tag).value) ==> Find(r, w[n].tag).value in SeenFrom(w, p, r, m, seen)
    decreases |w| - p
  {
    var seen' := SeenField(w[p], r, Get(m, SlotOf(w, p)), seen);
    if p == n { SeenGrows(w, p + 1, r, m, seen'); } else { SeenAt(w, p + 1, r, m, seen', n); }
  }

  /** The writer writes every required field of the reader. */
  lemma RequiredSeen(w: Schema, r: Schema, m: Slots, seen: set<nat>)
    requires Tagged(r) && Reads(w, r) && TypedFrom(w, 0, m)
    ensures AllSeen(r, SeenFrom(w, 0, r, m, seen))
  {
    hide SameKind;
    forall q: nat | Tracked(r, q) ensures q in SeenFrom(w, 0, r, m, seen) {
      var p := Find(w, r[q].tag).value;
      assert Fits(w[p], r[q]);
      FindIs(r, q);
      TypedAt(w, 0, m, p);
      SeenAt(w, 0, r, m, seen, p);
    }
  }

  lemma {:induction false} TypedAt(w: Schema, p: nat, m: Slots, n: nat)
    requires p <= n < |w| && TypedFrom(w, p, m)
    ensures TypedSlot(w[n], Get(m, SlotOf(w, n)))
    decreases |w| - p
  {
    if p < n { TypedAt(w, p + 1, m, n); }
  }

  // ----- records

  /** What is left to do after a merge step. */
  function Go(r: Schema, acc: Option<Slots>, seen: set<nat>, rest: seq<Byte>): Option<Got<Slots>> {
    match acc case None => None case Some(x) => DecodeLoop(r, x, seen, rest)
  }

  lemma TagReads(tag: nat, wireType: nat, rest: seq<Byte>)
    requires 1 <= tag < 0x2000_0000 && wireType < 8
    ensures Varint32(TagBytes(tag, wireType) + rest) == Some(Got(tag * 8 + wireType, rest))
    ensures (tag * 8 + wireType) / 8 == tag && (tag * 8 + wireType) % 8 == wireType
    ensures TagBytes(tag, wireType) + rest != []
  {
    hide Varint32;
    LengthReads(tag * 8 + wireType, rest);
  }

  /** One turn of the loop on a field that the reader knows. */
  lemma KnownTurn(r: Schema, acc: Slots, seen: set<nat>, tag: nat, wireType: nat, body: seq<Byte>, q: nat)
    requires 1 <= tag < 0x2000_0000 && wireType < 8 && Find(r, tag) == Some(q)
    ensures DecodeLoop(r, acc, seen, TagBytes(tag, wireType) + body) ==
      match DecodeField(r[q], Get(acc, SlotOf(r, q)), wireType, body)
      case None => None
      case Some(h) => DecodeLoop(r, Put(acc, SlotOf(r, q), h.value), Mark(r, q, seen), h.rest)
  {
    hide Varint32, TagBytes, DecodeField, Finished;
    TagReads(tag, wireType, body);
  }

  /** One turn on a field that it does not know. */
  lemma UnknownTurn(r: Schema, acc: Slots, seen: set<nat>, tag: nat, wireType: nat, body: seq<Byte>)
    requires 1 <= tag < 0x2000_0000 && wireType < 8 && Find(r, tag) == None
    ensures DecodeLoop(r, acc, seen, TagBytes(tag, wireType) + body) ==
      match Skip(wireType, body) case None => None case Some(rest) => DecodeLoop(r, acc, seen, rest)
  {
    hide Varint32, TagBytes, DecodeField, Finished, Skip;
    TagReads(tag, wireType, body);
  }

  /** One value on top of what a member holds. */
  lemma {:induction false} ValueReads(kw: Kind, kr: Kind, current: Value, v: Value, rest: seq<Byte>)
    requires SameKind(kw, kr) && Typed(kw, v) && |EncodeValue(kw, v)| < TWO63
    requires kw.Submessage? ==> Good(kw.schema) && Good(kr.schema)
    ensures DecodeValue(kr, current, EncodeValue(kw, v) + rest) == Delivered(MergeValue(kw, kr, current, v), rest)
    decreases kw, 0
  {
    hide DecodeScalar, EncodeFrom, MergeFrom, Prefixed, Delimited, DecodeLoop, TypedFrom, SeenFrom;
    match kw
    case Submessage(w) =>
      var r, m := kr.schema, v.slots;
      PrefixReads(Encode(w, m), rest);
      if |Encode(w, m)| < TWO32 {
        WholeReads(w, r, SlotsIn(current), m);
      }
    case _ => ScalarReads(kw, kr, current, v, rest);
  }

  /** A whole message. */
  lemma {:induction false} WholeReads(w: Schema, r: Schema, acc: Slots, m: Slots)
    requires Good(w) && Good(r) && Reads(w, r) && TypedFrom(w, 0, m) && |Encode(w, m)| < TWO63
    ensures DecodeLoop(r, acc, {}, Encode(w, m)) ==
      match Merge(w, r, acc, m) case None => None case Some(x) => Some(Got(x, []))
    decreases w, |w| + 1
  {
    hide MergeFrom, EncodeFrom, TypedFrom, SeenFrom, AllSeen;
    MessageReads(w, 0, r, acc, {}, m, []);
    RequiredSeen(w, r, m, {});
    assert EncodeFrom(w, 0, m) + [] == EncodeFrom(w, 0, m);
    match Merge(w, r, acc, m)
    case None =>
    case Some(x) => AtEnd(r, x, SeenFrom(w, 0, r, m, {}));
  }

  lemma AtEnd(r: Schema, acc: Slots, seen: set<nat>)
    ensures DecodeLoop(r, acc, seen, []) == Finished(r, acc, seen, [])
  {
  }

  /** One value into a repeated member. */
  lemma {:induction false} ElementReads(f: Field, fr: Field, slot: Slot, v: Value, rest: seq<Byte>)
    requires Fits(f, fr) && GoodField(f) && GoodField(fr) && Typed(f.kind, v) && |EncodeValue(f.kind, v)| < TWO63
    requires fr.rule.Repeated?
    ensures DecodeField(fr, slot, f.kind.WireType(), EncodeValue(f.kind, v) + rest) ==
      match MergeOne(f.kind, fr, slot, v) case None => None case Some(t) => Some(Got(t, rest))
    decreases f, 0
  {
    hide DecodeValue, EncodeValue, MergeValue, Typed, Zero, DecodePacked, Prefixed, DecodeScalar, SameKind;
    SamePackable(f.kind, fr.kind);
    NotPacked(f.kind);
    match slot
    case Many(_) => ValueReads(f.kind, fr.kind, Zero(fr.kind), v, rest);
    case _ =>
  }

  lemma NotPacked(k: Kind)
    ensures k.Packable() ==> k.WireType() != 2
  {
  }

  /** One value into a union. */
  lemma {:induction false} ChoiceReads(f: Field, fr: Field, slot: Slot, v: Value, rest: seq<Byte>)
    requires Fits(f, fr) && GoodField(f) && GoodField(fr) && Typed(f.kind, v) && |EncodeValue(f.kind, v)| < TWO63
    requires fr.rule.Oneof?
    ensures DecodeField(fr, slot, f.kind.WireType(), EncodeValue(f.kind, v) + rest) ==
      match MergeOne(f.kind, fr, slot, v) case None => None case Some(t) => Some(Got(t, rest))
    decreases f, 0
  {
    hide DecodeValue, EncodeValue, MergeValue, Typed, Zero, DecodePacked, Prefixed, DecodeScalar, SameKind;
    SamePackable(f.kind, fr.kind);
    match slot
    case Union(which, c) =>
      ValueReads(f.kind, fr.kind, if fr.kind.Submessage? && which != fr.tag then Zero(fr.kind) else c, v, rest);
    case _ =>
  }

  /** One value into any other member. */
  lemma {:induction false} SingleReads(f: Field, fr: Field, slot: Slot, v: Value, rest: seq<Byte>)
    requires Fits(f, fr) && GoodField(f) && GoodField(fr) && Typed(f.kind, v) && |EncodeValue(f.kind, v)| < TWO63
    requires !fr.rule.Repeated? && !fr.rule.Oneof?
    ensures DecodeField(fr, slot, f.kind.WireType(), EncodeValue(f.kind, v) + rest) ==
      match MergeOne(f.kind, fr, slot, v) case None => None case Some(t) => Some(Got(t, rest))
    decreases f, 0
  {
    hide DecodeValue, EncodeValue, MergeValue, Typed, Zero, DecodePacked, Prefixed, DecodeScalar, SameKind;
    SamePackable(f.kind, fr.kind);
    match slot
    case Opt(_, c) => ValueReads(f.kind, fr.kind, c, v, rest);
    case One(c) => ValueReads(f.kind, fr.kind, c, v, rest);
    case _ =>
  }

  lemma {:induction false} OneReads(f: Field, fr: Field, slot: Slot, v: Value, rest: seq<Byte>)
    requires Fits(f, fr) && GoodField(f) && GoodField(fr) && Typed(f.kind, v) && |EncodeValue(f.kind, v)| < TWO63
    ensures DecodeField(fr, slot, f.kind.WireType(), EncodeValue(f.kind, v) + rest) ==
      match MergeOne(f.kind, fr, slot, v) case None => None case Some(t) => Some(Got(t, rest))
    decreases f, 1
  {
    hide DecodeField, EncodeValue, MergeOne, Typed, SameKind;
    if fr.rule.Repeated? {
      ElementReads(f, fr, slot, v, rest);
    } else if fr.rule.Oneof? {
      ChoiceReads(f, fr, slot, v, rest);
    } else {
      SingleReads(f, fr, slot, v, rest);
    }
  }

  lemma SamePackable(a: Kind, b: Kind)
    requires SameKind(a, b)
    ensures a.Packable() == b.Packable() && a.Submessage? == b.Submessage?
  {
  }

  /** One tagged value. */
  lemma {:induction false} RecordReads(f: Field, r: Schema, acc: Slots, seen: set<nat>, v: Value, rest: seq<Byte>)
    requires 1 <= f.tag < 0x2000_0000 && KnownBy(f, r) && GoodField(f) && Good(r)
    requires Typed(f.kind, v) && |Record(f, v)| < TWO63
    ensures DecodeLoop(r, acc, seen, Record(f, v) + rest) ==
      match Find(r, f.tag)
      case None => (if PayloadFits(f.kind, v) then DecodeLoop(r, acc, seen, rest) else None)
      case Some(q) =>
        (match MergeOne(f.kind, r[q], Get(acc, SlotOf(r, q)), v)
         case None => None
         case Some(t) => DecodeLoop(r, Put(acc, SlotOf(r, q), t), Mark(r, q, seen), rest))
    decreases f, 2
  {
    hide DecodeField, EncodeValue, MergeOne, Typed, DecodeLoop, Skip, PayloadFits, TagBytes, Fits;
    var body := EncodeValue(f.kind, v) + rest;
    assert Record(f, v) + rest == TagBytes(f.tag, f.kind.WireType()) + body;
    match Find(r, f.tag)
    case None =>
      UnknownTurn(r, acc, seen, f.tag, f.kind.WireType(), body);
      PayloadSkips(f.kind, v, rest);
    case Some(q) =>
      KnownTurn(r, acc, seen, f.tag, f.kind.WireType(), body, q);
      OneReads(f, r[q], Get(acc, SlotOf(r, q)), v, rest);
  }

  /** One tag for each element. */
  lemma {:induction false} ItemsRead(f: Field, r: Schema, acc: Slots, seen: set<nat>, vs: seq<Value>, rest: seq<Byte>)
    requires 1 <= f.tag < 0x2000_0000 && f.rule.Repeated? && KnownBy(f, r) && GoodField(f) && Good(r)
    requires (forall i :: 0 <= i < |vs| ==> Typed(f.kind, vs[i])) && |Records(f, vs)| < TWO63
    ensures DecodeLoop(r, acc, seen, Records(f, vs) + rest) ==
      match Find(r, f.tag)
      case None =>
        (if forall i :: 0 <= i < |vs| ==> PayloadFits(f.kind, vs[i]) then DecodeLoop(r, acc, seen, rest) else None)
      case Some(q) => Go(r, MergeAll(f.kind, r[q], SlotOf(r, q), acc, vs), seen, rest)
    decreases f, 3, |vs|
  {
    hide DecodeLoop, MergeOne, Typed, PayloadFits, Record, SameKind;
    if vs == [] {
      assert [] + rest == rest;
    } else {
      assert Records(f, vs) + rest == Record(f, vs[0]) + (Records(f, vs[1..]) + rest);
      RecordReads(f, r, acc, seen, vs[0], Records(f, vs[1..]) + rest);
      match Find(r, f.tag)
      case None =>
        ItemsRead(f, r, acc, seen, vs[1..], rest);
        assert (forall i :: 0 <= i < |vs| ==> PayloadFits(f.kind, vs[i])) <==>
          PayloadFits(f.kind, vs[0]) && forall i :: 0 <= i < |vs| - 1 ==> PayloadFits(f.kind, vs[1..][i])
        by { SplitAll(f.kind, vs); }
      case Some(q) =>
        var t := MergeOne(f.kind, r[q], Get(acc, SlotOf(r, q)), vs[0]);
        if t.Some? {
          ItemsRead(f, r, Put(acc, SlotOf(r, q), t.value), seen, vs[1..], rest);
        }
    }
  }

  lemma SplitAll(k: Kind, vs: seq<Value>)
    requires vs != []
    ensures (forall i :: 0 <= i < |vs| ==> PayloadFits(k, vs[i])) <==>
      (PayloadFits(k, vs[0]) && forall i :: 0 <= i < |vs| - 1 ==> PayloadFits(k, vs[1..][i]))
  {
    hide PayloadFits;
    if PayloadFits(k, vs[0]) && forall i :: 0 <= i < |vs| - 1 ==> PayloadFits(k, vs[1..][i]) {
      forall i | 0 <= i < |vs| ensures PayloadFits(k, vs[i]) {
        if i > 0 { assert vs[i] == vs[1..][i - 1]; }
      }
    }
  }

  // ----- packed blocks

  lemma {:induction false} ElementsRead(kw: Kind, kr: Kind, max: nat, items: seq<Value>, vs: seq<Value>)
    requires SameKind(kw, kr) && kw.Packable() && forall i :: 0 <= i < |vs| ==> Typed(kw, vs[i])
    requires |Elements(kw, vs)| < TWO63
    ensures kr.Packable()
    ensures DecodePacked(kr, max, items, Elements(kw, vs)) ==
      if vs == [] || |items| + |vs| <= max then Some(items + vs) else None
    decreases |vs|
  {
    hide DecodeScalar, EncodeValue, Typed;
    SamePackable(kw, kr);
    if vs == [] {
      assert items + vs == items;
    } else {
      var v, tail := vs[0], Elements(kw, vs[1..]);
      ScalarReads(kw, kr, v, v, tail);
      SomeBytes(kw, v);
      PlainMerge(kw, kr, v);
      ElementsRead(kw, kr, max, items + [v], vs[1..]);
      assert items + [v] + vs[1..] == items + vs;
    }
  }

  lemma PlainMerge(kw: Kind, kr: Kind, v: Value)
    requires kw.Packable() && SameKind(kw, kr)
    ensures MergeValue(kw, kr, v, v) == Some(v)
  {
  }

  lemma SomeBytes(k: Kind, v: Value)
    requires Typed(k, v)
    ensures EncodeValue(k, v) != []
  {
  }

  lemma PackedReads(f: Field, r: Schema, acc: Slots, seen: set<nat>, vs: seq<Value>, rest: seq<Byte>)
    requires 1 <= f.tag < 0x2000_0000 && f.rule.Repeated? && KnownBy(f, r) && f.kind.Packable() && vs != []
    requires (forall i :: 0 <= i < |vs| ==> Typed(f.kind, vs[i])) && |PackedRecord(f, vs)| < TWO63
    ensures DecodeLoop(r, acc, seen, PackedRecord(f, vs) + rest) ==
      match Find(r, f.tag)
      case None => (if |Elements(f.kind, vs)| < TWO32 then DecodeLoop(r, acc, seen, rest) else None)
      case Some(q) =>
        Go(r, Stored(acc, SlotOf(r, q), MergePacked(f.kind, r[q], Get(acc, SlotOf(r, q)), vs)), seen, rest)
  {
    hide DecodeLoop, Elements, Typed, TagBytes, Delimited, Prefixed, SameKind;
    var body := Elements(f.kind, vs);
    assert PackedRecord(f, vs) + rest == TagBytes(f.tag, 2) + (Delimited(body) + rest);
    PrefixReads(body, rest);
    match Find(r, f.tag)
    case None =>
      UnknownTurn(r, acc, seen, f.tag, 2, Delimited(body) + rest);
      DelimitedSkips(body, rest);
    case Some(q) =>
      KnownTurn(r, acc, seen, f.tag, 2, Delimited(body) + rest, q);
      SamePackable(f.kind, r[q].kind);
      match (r[q].rule, Get(acc, SlotOf(r, q)))
      case (Repeated(max), Many(items)) => ElementsRead(f.kind, r[q].kind, max, items, vs);
      case _ =>
  }

  // ----- fields and messages

  lemma {:induction false} FieldReads(f: Field, r: Schema, acc: Slots, seen: set<nat>, s: Slot, rest: seq<Byte>)
    requires 1 <= f.tag < 0x2000_0000 && KnownBy(f, r) && GoodField(f) && Good(r)
    requires TypedSlot(f, s) && |EncodeField(f, s)| < TWO63
    ensures DecodeLoop(r, acc, seen, EncodeField(f, s) + rest) ==
      Go(r, MergeField(f, r, acc, s), SeenField(f, r, s, seen), rest)
    decreases f, 4
  {
    hide DecodeLoop, MergeOne, MergeAll, MergePacked, Typed, PayloadFits, Record, PackedRecord, Records, Elements,
      SameKind, IsEmpty;
    if !Present(f, s) {
      assert [] + rest == rest;
    } else {
      match s
      case One(v) => RecordReads(f, r, acc, seen, v, rest);
      case Opt(_, v) => RecordReads(f, r, acc, seen, v, rest);
      case Union(_, v) => RecordReads(f, r, acc, seen, v, rest);
      case Many(vs) =>
        if f.kind.Packable() { PackedReads(f, r, acc, seen, vs, rest); } else { ItemsRead(f, r, acc, seen, vs, rest); }
    }
  }

  /** Decoding the fields of m from position p on merges them, and goes on behind them. */
  lemma {:induction false} MessageReads(w: Schema, p: nat, r: Schema, acc: Slots, seen: set<nat>, m: Slots,
                                        rest: seq<Byte>)
    requires Good(w) && Good(r) && Reads(w, r) && p <= |w| && TypedFrom(w, p, m) && |EncodeFrom(w, p, m)| < TWO63
    ensures DecodeLoop(r, acc, seen, EncodeFrom(w, p, m) + rest) ==
      Go(r, MergeFrom(w, p, r, acc, m), SeenFrom(w, p, r, m, seen), rest)
    decreases w, |w| - p
  {
    hide DecodeLoop, EncodeField, MergeField, Typed, SeenField, TypedSlot, Reads, KnownBy;
    if p == |w| {
      assert [] + rest == rest;
    } else {
      var s := Get(m, SlotOf(w, p));
      var tail := EncodeFrom(w, p + 1, m) + rest;
      assert EncodeFrom(w, p, m) + rest == EncodeField(w[p], s) + tail;
      ReadsKnows(w, r, p);
      FieldReads(w[p], r, acc, seen, s, tail);
      var x := MergeField(w[p], r, acc, s);
      if x.Some? { MessageReads(w, p + 1, r, x.value, SeenField(w[p], r, s, seen), m, rest); }
    }
  }
}
