// The bytes of nanopb messages: what pb_encode.c writes and what pb_decode.c reads, as functions.

module PbEncoding {
  import opened Basics
  import opened PbVarint
  import opened PbSchemas

  function Delimited(data: seq<Byte>): (r: seq<Byte>)
    ensures |r| > |data|
  {
    PbVarint.Varint(|data|) + data
  }

  /** `pb_encode_tag`. */
  function TagBytes(tag: nat, wireType: nat): seq<Byte> {
    PbVarint.Varint(tag * 8 + wireType)
  }

  /** The `pb_enc_*` functions; negative numbers are cast to their 64-bit pattern. */
  function EncodeValue(k: Kind, v: Value): seq<Byte>
    decreases k, 0
  {
    match (k, v)
    case (Bool, Flag(b)) => PbVarint.Varint(if b then 1 else 0)
    case (Varint(_), Number(i)) => PbVarint.Varint(i % TWO64)
    case (UVarint(_), Number(i)) => PbVarint.Varint(i % TWO64)
    case (SVarint(_), Number(i)) => PbVarint.Varint(ZigZag(i))
    case (Fixed32, Number(i)) => Fixed(i % TWO32, 4)
    case (Fixed64, Number(i)) => Fixed(i % TWO64, 8)
    case (Bytes(_), Data(d)) => Delimited(d)
    case (Text(_), Data(d)) => Delimited(d)
    case (FixedBytes(_), Data(d)) => Delimited(d)
    case (Submessage(w), Message(m)) => Delimited(EncodeFrom(w, 0, m))
    case _ => []
  }

  /** A field with its tag. */
  function Record(f: Field, v: Value): seq<Byte>
    decreases f, 0
  {
    TagBytes(f.tag, f.kind.WireType()) + EncodeValue(f.kind, v)
  }

  function Elements(k: Kind, vs: seq<Value>): seq<Byte>
    decreases k, |vs| + 1
  {
    if vs == [] then [] else EncodeValue(k, vs[0]) + Elements(k, vs[1..])
  }

  function PackedRecord(f: Field, vs: seq<Value>): seq<Byte>
    decreases f, 0
  {
    TagBytes(f.tag, 2) + Delimited(Elements(f.kind, vs))
  }

  function Records(f: Field, vs: seq<Value>): seq<Byte>
    decreases f, 1, |vs|
  {
    if vs == [] then [] else Record(f, vs[0]) + Records(f, vs[1..])
  }

  /** `encode_field`. */
  function EncodeField(f: Field, s: Slot): seq<Byte>
    decreases f, 2
  {
    match (f.rule, s)
    case (Required, One(v)) => Record(f, v)
    case (Singular, One(v)) => if IsEmpty(f.kind, v) then [] else Record(f, v)
    case (Optional, Opt(has, v)) => if has then Record(f, v) else []
    case (Repeated(_), Many(vs)) =>
      if vs == [] then [] else if f.kind.Packable() then PackedRecord(f, vs) else Records(f, vs)
    case (Oneof, Union(which, v)) => if which == f.tag then Record(f, v) else []
    case _ => []
  }

  /** `pb_encode`, from the field at position p on. */
  function EncodeFrom(w: Schema, p: nat, m: Slots): seq<Byte>
    requires p <= |w|
    decreases w, |w| - p
  {
    if p == |w| then [] else EncodeField(w[p], Get(m, SlotOf(w, p))) + EncodeFrom(w, p + 1, m)
  }

  function Encode(w: Schema, m: Slots): seq<Byte> {
    EncodeFrom(w, 0, m)
  }

  /** `pb_check_proto3_default_value` for the member of a field. */
  predicate IsDefault(f: Field, s: Slot)
    decreases f, 1
  {
    match (f.rule, s)
    case (Required, _) => false
    case (Repeated(_), Many(vs)) => vs == []
    case (Oneof, Union(which, _)) => which == 0
    case (Optional, Opt(has, _)) => !has
    case (Singular, One(v)) => IsEmpty(f.kind, v)
    case _ => false
  }

  /** The same for the content of a singular field. */
  predicate IsEmpty(k: Kind, v: Value)
    decreases k
  {
    match (k, v)
    case (Bytes(_), Data(d)) => d == []
    case (Text(_), Data(d)) => d == []
    case (FixedBytes(n), _) => n == 0
    case (Submessage(w), Message(m)) => AllDefault(w, 0, m)
    case (Bool, Flag(b)) => !b
    case (_, Number(i)) => i == 0
    case _ => false
  }

  predicate AllDefault(w: Schema, p: nat, m: Slots)
    requires p <= |w|
    decreases w, |w| - p
  {
    p == |w| || (IsDefault(w[p], Get(m, SlotOf(w, p))) && AllDefault(w, p + 1, m))
  }

  // ----- what the C types allow

  /** The value is one that the member can hold; text is what lies before the terminating NUL. */
  ghost predicate Typed(k: Kind, v: Value)
    decreases k
  {
    match k
    case Bool => v.Flag?
    case Varint(x) => v.Number? && -(x.Span() as int) <= 2 * v.i < x.Span()
    case SVarint(x) => v.Number? && -(x.Span() as int) <= 2 * v.i < x.Span()
    case UVarint(x) => v.Number? && 0 <= v.i < x.Span()
    case Fixed32 => v.Number? && 0 <= v.i < TWO32
    case Fixed64 => v.Number? && 0 <= v.i < TWO64
    case Bytes(_) => v.Data?
    case Text(cap) => v.Data? && |v.bytes| <= cap && forall i :: 0 <= i < |v.bytes| ==> v.bytes[i] != 0
    case FixedBytes(n) => v.Data? && |v.bytes| == n
    case Submessage(w) => v.Message? && TypedFrom(w, 0, v.slots)
  }

  ghost predicate TypedSlot(f: Field, s: Slot)
    decreases f, 1
  {
    match f.rule
    case Required => s.One? && Typed(f.kind, s.value)
    case Singular => s.One? && Typed(f.kind, s.value)
    case Optional => s.Opt? && Typed(f.kind, s.value)
    case Repeated(_) => s.Many? && forall i :: 0 <= i < |s.items| ==> Typed(f.kind, s.items[i])
    case Oneof => s.Union? && (s.which == f.tag ==> Typed(f.kind, s.value))
  }

  ghost predicate TypedFrom(w: Schema, p: nat, m: Slots)
    requires p <= |w|
    decreases w, |w| - p
  {
    p == |w| || (TypedSlot(w[p], Get(m, SlotOf(w, p))) && TypedFrom(w, p + 1, m))
  }
}

module PbDecoding {
  import opened Basics
  import opened PbVarint
  import opened PbSchemas

  /** A length and that many bytes (`pb_make_string_substream`). */
  function Prefixed(s: seq<Byte>): (r: Option<Got<seq<Byte>>>)
    ensures r.Some? ==> |r.value.value| + |r.value.rest| < |s|
  {
    match Varint32(s)
    case None => None
    case Some(n) => if |n.rest| < n.value then None else Some(Got(n.rest[..n.value], n.rest[n.value..]))
  }

  /** `pb_skip_varint`. */
  function SkipVarint(s: seq<Byte>): (r: Option<seq<Byte>>)
    ensures r.Some? ==> |r.value| < |s|
  {
    if s == [] then None else if s[0] < 128 then Some(s[1..]) else SkipVarint(s[1..])
  }

  /** `pb_skip_field`: what is left behind one payload. */
  function Skip(wireType: nat, s: seq<Byte>): (r: Option<seq<Byte>>)
    ensures r.Some? ==> |r.value| < |s|
  {
    if wireType == 0 then SkipVarint(s)
    else if wireType == 1 then if |s| < 8 then None else Some(s[8..])
    else if wireType == 5 then if |s| < 4 then None else Some(s[4..])
    else if wireType != 2 then None
    else match Prefixed(s) case None => None case Some(g) => Some(g.rest)
  }

  /** The low bits of v as a signed number. */
  function Signed(v: nat, x: Width): int {
    var low := v % x.Span();
    if 2 * low < x.Span() then low else low - x.Span()
  }

  /** `pb_dec_varint`: members of up to 32 bits see the low 32 bits only. */
  function NarrowVarint(x: Width, v: nat): Option<int> {
    if x.W8? then Some(Signed(v, W8))
    else
      var i := Signed(v, W4);
      if Signed(v, x) == i then Some(i) else None
  }

  /** `pb_dec_svarint`. */
  function NarrowSVarint(x: Width, v: nat): Option<int> {
    var i := UnZigZag(v);
    if -(x.Span() as int) <= 2 * i < x.Span() then Some(i) else None
  }

  /** The bytes before the first NUL. */
  function CString(d: seq<Byte>): (r: seq<Byte>)
    ensures (forall i :: 0 <= i < |d| ==> d[i] != 0) ==> r == d
  {
    if d == [] || d[0] == 0 then [] else [d[0]] + CString(d[1..])
  }

  function ReadFixed(width: nat, s: seq<Byte>): Option<Got<Value>> {
    if |s| < width then None else Some(Got(Number(DecodeFixed(s[..width])), s[width..]))
  }

  function Numbered(i: Option<int>, rest: seq<Byte>): Option<Got<Value>> {
    match i case None => None case Some(x) => Some(Got(Number(x), rest))
  }

  /** Everything but submessages: the rest of the `pb_dec_*` functions. */
  function DecodeScalar(k: Kind, s: seq<Byte>): (r: Option<Got<Value>>)
    requires !k.Submessage?
  {
    match k
    case Bool => (match Varint32(s) case None => None case Some(g) => Some(Got(Flag(g.value != 0), g.rest)))
    case Varint(x) => (match Varint64(s) case None => None case Some(g) => Numbered(NarrowVarint(x, g.value), g.rest))
    case UVarint(x) =>
      (match Varint64(s)
       case None => None
       case Some(g) => Numbered(if g.value < x.Span() then Some(g.value) else None, g.rest))
    case SVarint(x) => (match Varint64(s) case None => None case Some(g) => Numbered(NarrowSVarint(x, g.value), g.rest))
    case Fixed32 => ReadFixed(4, s)
    case Fixed64 => ReadFixed(8, s)
    case Bytes(cap) =>
      (match Varint32(s)
       case None => None
       case Some(n) =>
         if n.value > cap || |n.rest| < n.value then None else Some(Got(Data(n.rest[..n.value]), n.rest[n.value..])))
    case Text(cap) =>
      (match Varint32(s)
       case None => None
       case Some(n) =>
         if n.value + 1 > cap || |n.rest| < n.value then None
         else Some(Got(Data(CString(n.rest[..n.value])), n.rest[n.value..])))
    case FixedBytes(length) =>
      (match Varint32(s)
       case None => None
       case Some(n) =>
         if n.value == 0 then Some(Got(Data(Zeros(length)), n.rest))
         else if n.value != length || |n.rest| < length then None
         else Some(Got(Data(n.rest[..length]), n.rest[length..])))
  }

  lemma ScalarConsumes(k: Kind, s: seq<Byte>)
    requires !k.Submessage?
    ensures DecodeScalar(k, s).Some? ==> |DecodeScalar(k, s).value.rest| < |s|
  {
  }

  function SlotsIn(v: Value): Slots {
    if v.Message? then v.slots else []
  }

  /** A value on top of what the member holds: submessages are merged into it. */
  function DecodeValue(k: Kind, current: Value, s: seq<Byte>): (r: Option<Got<Value>>)
    ensures r.Some? ==> |r.value.rest| < |s|
    decreases |s|, 0
  {
    match k
    case Submessage(w) =>
      (match Prefixed(s)
       case None => None
       case Some(g) =>
         match DecodeLoop(w, SlotsIn(current), {}, g.value)
         case None => None
         case Some(m) => Some(Got(Message(m.value), g.rest)))
    case _ =>
      ScalarConsumes(k, s);
      DecodeScalar(k, s)
  }

  /** The loop over a packed block; all of it must be used up. */
  function DecodePacked(k: Kind, max: nat, items: seq<Value>, s: seq<Byte>): Option<seq<Value>>
    requires k.Packable()
    decreases |s|
  {
    if s == [] then Some(items)
    else if |items| >= max then None
    else
      ScalarConsumes(k, s);
      match DecodeScalar(k, s)
      case None => None
      case Some(g) => DecodePacked(k, max, items + [g.value], g.rest)
  }

  /** `decode_static_field`. */
  function DecodeField(f: Field, slot: Slot, wireType: nat, s: seq<Byte>): (r: Option<Got<Slot>>)
    ensures r.Some? ==> |r.value.rest| < |s|
    decreases |s|, 1
  {
    match (f.rule, slot)
    case (Repeated(max), Many(items)) =>
      if wireType == 2 && f.kind.Packable() then
        match Prefixed(s)
        case None => None
        case Some(g) =>
          match DecodePacked(f.kind, max, items, g.value)
          case None => None
          case Some(vs) => Some(Got(Many(vs), g.rest))
      else if |items| >= max then None
      else
        (match DecodeValue(f.kind, Zero(f.kind), s)
         case None => None
         case Some(g) => Some(Got(Many(items + [g.value]), g.rest)))
    case (Optional, Opt(_, v)) =>
      (match DecodeValue(f.kind, v, s) case None => None case Some(g) => Some(Got(Opt(true, g.value), g.rest)))
    case (Oneof, Union(which, v)) =>
      var current := if f.kind.Submessage? && which != f.tag then Zero(f.kind) else v;
      (match DecodeValue(f.kind, current, s) case None => None case Some(g) => Some(Got(Union(f.tag, g.value), g.rest)))
    case (Required, One(v)) =>
      (match DecodeValue(f.kind, v, s) case None => None case Some(g) => Some(Got(One(g.value), g.rest)))
    case (Singular, One(v)) =>
      (match DecodeValue(f.kind, v, s) case None => None case Some(g) => Some(Got(One(g.value), g.rest)))
    case _ => None
  }

  const MAX_REQUIRED: nat := 64   // PB_MAX_REQUIRED_FIELDS

  /** A required field whose presence is tracked. */
  predicate Tracked(w: Schema, p: nat) {
    p < |w| && w[p].rule.Required? && RequiredBefore(w, p) < MAX_REQUIRED
  }

  predicate AllSeen(w: Schema, seen: set<nat>) {
    forall p: nat | p < |w| :: Tracked(w, p) ==> p in seen
  }

  function Mark(w: Schema, p: nat, seen: set<nat>): set<nat> {
    if Tracked(w, p) then seen + {p} else seen
  }

  /** `pb_decode_noinit`: what is left behind a zero tag stays unread. seen are the required fields so far. */
  function DecodeLoop(w: Schema, m: Slots, seen: set<nat>, s: seq<Byte>): (r: Option<Got<Slots>>)
    ensures r.Some? ==> |r.value.rest| <= |s|
    decreases |s|, 0
  {
    if s == [] then Finished(w, m, seen, s)
    else match Varint32(s)
      case None => None
      case Some(g) =>
        if g.value == 0 then Finished(w, m, seen, g.rest)
        else match Find(w, g.value / 8)
          case Some(p) =>
            (match DecodeField(w[p], Get(m, SlotOf(w, p)), g.value % 8, g.rest)
             case None => None
             case Some(h) => DecodeLoop(w, Put(m, SlotOf(w, p), h.value), Mark(w, p, seen), h.rest))
          case None =>
            if w == [] && g.value / 8 == 0 then
              // the search stops at the terminator, which reads as a bool
              match Varint32(g.rest) case None => None case Some(h) => DecodeLoop(w, m, seen, h.rest)
            else
              match Skip(g.value % 8, g.rest) case None => None case Some(rest) => DecodeLoop(w, m, seen, rest)
  }

  function Finished(w: Schema, m: Slots, seen: set<nat>, rest: seq<Byte>): Option<Got<Slots>> {
    if AllSeen(w, seen) then Some(Got(m, rest)) else None
  }

  /** `pb_decode`. */
  function Decode(w: Schema, s: seq<Byte>): Option<Got<Slots>> {
    DecodeLoop(w, Fresh(w), {}, s)
  }

  /** `pb_decode_delimited`. */
  function DecodeDelimited(w: Schema, s: seq<Byte>): Option<Got<Slots>> {
    match Prefixed(s)
    case None => None
    case Some(g) => match Decode(w, g.value) case None => None case Some(m) => Some(Got(m.value, g.rest))
  }
}
