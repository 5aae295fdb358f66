// nanopb's wire format, byte by byte: what encoded fields look like, and what the decoder makes of bytes that
// no encoder writes.

module PbWireFormat {
  import opened Basics
  import opened Products
  import opened PbVarint
  import opened PbSchemas
  import opened PbEncoding
  import opened PbDecoding

  // ----- what is written

  /** The wire type of a field: 0 for varints, 1 and 5 for 64 and 32 bits, 2 for whatever has a length. */
  function WireNumber(k: Kind): nat {
    match k
    case Bool => 0
    case Varint(_) => 0
    case UVarint(_) => 0
    case SVarint(_) => 0
    case Fixed64 => 1
    case Fixed32 => 5
    case Bytes(_) => 2
    case Text(_) => 2
    case FixedBytes(_) => 2
    case Submessage(_) => 2
  }

  /** A field begins with a varint of its tag and wire type, and one with a length goes on with a varint of it. */
  lemma FieldBytes(f: Field, v: Value)
    ensures Record(f, v) == PbVarint.Varint(8 * f.tag + WireNumber(f.kind)) + EncodeValue(f.kind, v)
    ensures WireNumber(f.kind) == 2 && !f.kind.Submessage? && v.Data? ==>
      EncodeValue(f.kind, v) == PbVarint.Varint(|v.bytes|) + v.bytes
    ensures f.kind.Submessage? && v.Message? ==>
      var body := Encode(f.kind.schema, v.slots); EncodeValue(f.kind, v) == PbVarint.Varint(|body|) + body
  {
    hide PbVarint.Varint, EncodeFrom;
  }

  /** A packed block has wire type 2, a length, and the bare elements one behind the other. */
  lemma {:induction false} BlockBytes(f: Field, vs: seq<Value>, v: Value)
    ensures var body := Elements(f.kind, vs);
      PackedRecord(f, vs) == PbVarint.Varint(8 * f.tag + 2) + (PbVarint.Varint(|body|) + body)
    ensures Elements(f.kind, []) == [] && Elements(f.kind, vs + [v]) == Elements(f.kind, vs) + EncodeValue(f.kind, v)
    decreases |vs|
  {
    hide PbVarint.Varint, EncodeValue;
    if vs == [] {
      assert [v][1..] == [];
    } else {
      BlockBytes(f, vs[1..], v);
      assert (vs + [v])[1..] == vs[1..] + [v];
      assert EncodeValue(f.kind, vs[0]) + (Elements(f.kind, vs[1..]) + EncodeValue(f.kind, v))
          == EncodeValue(f.kind, vs[0]) + Elements(f.kind, vs[1..]) + EncodeValue(f.kind, v);
    }
  }

  /** Exactly the fields of numbers and flags are packed. */
  lemma RepeatedBytes(f: Field, vs: seq<Value>)
    requires f.rule.Repeated?
    ensures f.kind.Packable() <==> WireNumber(f.kind) != 2
    ensures vs != [] && WireNumber(f.kind) != 2 ==>
      var body := Elements(f.kind, vs);
      EncodeField(f, Many(vs)) == PbVarint.Varint(8 * f.tag + 2) + (PbVarint.Varint(|body|) + body)
    ensures vs != [] && WireNumber(f.kind) == 2 ==>
      EncodeField(f, Many(vs)) == Record(f, vs[0]) + EncodeField(f, Many(vs[1..]))
    ensures EncodeField(f, Many([])) == []
  {
    hide PbVarint.Varint, EncodeValue, Elements, Record;
    if vs != [] && vs[1..] == [] { assert Records(f, vs[1..]) == []; }
  }

  /** Fields are written in the order of their descriptors. */
  lemma {:induction false} FieldsInOrder(w: Schema, p: nat, q: nat, m: Slots) returns (a: seq<Byte>)
    requires p <= q < |w|
    ensures EncodeFrom(w, p, m) == a + EncodeField(w[q], Get(m, SlotOf(w, q))) + EncodeFrom(w, q + 1, m)
    decreases q - p
  {
    hide EncodeField;
    if p == q {
      a := [];
      assert [] + EncodeField(w[q], Get(m, SlotOf(w, q))) == EncodeField(w[q], Get(m, SlotOf(w, q)));
    } else {
      var b := FieldsInOrder(w, p + 1, q, m);
      var first := EncodeField(w[p], Get(m, SlotOf(w, p)));
      a := first + b;
      assert first + (b + EncodeField(w[q], Get(m, SlotOf(w, q))) + EncodeFrom(w, q + 1, m))
          == a + EncodeField(w[q], Get(m, SlotOf(w, q))) + EncodeFrom(w, q + 1, m);
    }
  }

  /** Numbers: negative ones as their 64-bit pattern, zigzag 0, -1, 1, -2 as 0, 1, 2, 3, whatever the member's width. */
  lemma NumberBytes(i: int, x: Width)
    requires -0x8000_0000_0000_0000 <= i < 0x1_0000_0000_0000_0000
    ensures EncodeValue(Varint(x), Number(i)) == PbVarint.Varint(if i < 0 then i + 0x1_0000_0000_0000_0000 else i)
    ensures EncodeValue(UVarint(x), Number(i)) == EncodeValue(Varint(x), Number(i))
    ensures EncodeValue(SVarint(x), Number(i)) == PbVarint.Varint(if i < 0 then -2 * i - 1 else 2 * i)
    ensures EncodeValue(Bool, Flag(false)) == [0] && EncodeValue(Bool, Flag(true)) == [1]
  {
    hide PbVarint.Varint;
    OneByte(0);
    OneByte(1);
  }

  lemma OneByte(n: nat)
    requires n < 128
    ensures PbVarint.Varint(n) == [n]
  {
  }

  /** Fixed numbers have four or eight bytes, the least significant one first. */
  lemma FixedNumberBytes(i: nat, j: nat)
    ensures i < TWO32 && j < 4 ==>
      var b := EncodeValue(Fixed32, Number(i)); |b| == 4 && b[j] == i / Power256(j) % 256
    ensures i < TWO64 && j < 8 ==>
      var b := EncodeValue(Fixed64, Number(i)); |b| == 8 && b[j] == i / Power256(j) % 256
  {
    hide Fixed, Power256;
    if j < 4 { FixedByte(i, 4, j); }
    if j < 8 { FixedByte(i, 8, j); }
  }

  // ----- what is read

  /** A flag is set by any number but zero. */
  lemma FlagReads(n: nat, rest: seq<Byte>)
    requires n < TWO32
    ensures DecodeScalar(Bool, PbVarint.Varint(n) + rest) == Some(Got(Flag(n != 0), rest))
  {
    hide Varint32, PbVarint.Varint;
    Varint32RoundTrip(n, rest);
  }

  /** An array of fixed length may have length zero on the wire, and then is filled with zeros. */
  lemma NoFixedBytes(length: nat, rest: seq<Byte>)
    ensures DecodeScalar(FixedBytes(length), [0] + rest) == Some(Got(Data(seq(length, _ => 0)), rest))
  {
    hide Varint32;
    OneByte(0);
    Varint32RoundTrip(0, rest);
  }

  lemma {:induction false} UpToNul(a: seq<Byte>, b: seq<Byte>)
    requires forall i :: 0 <= i < |a| ==> a[i] != 0
    ensures CString(a + [0] + b) == a
  {
    if a == [] {
      assert a + [0] + b == [0] + b;
    } else {
      UpToNul(a[1..], b);
      assert (a + [0] + b)[1..] == a[1..] + [0] + b;
    }
  }

  /** A string ends at its first NUL. */
  lemma TextStopsAtNul(cap: nat, a: seq<Byte>, b: seq<Byte>, rest: seq<Byte>)
    requires (forall i :: 0 <= i < |a| ==> a[i] != 0) && |a| + 1 + |b| < cap && |a| + 1 + |b| < TWO32
    ensures var d := a + [0] + b;
      DecodeScalar(Text(cap), PbVarint.Varint(|d|) + (d + rest)) == Some(Got(Data(a), rest))
  {
    hide Varint32, PbVarint.Varint, CString;
    var d := a + [0] + b;
    Varint32RoundTrip(|d|, d + rest);
    assert (d + rest)[..|d|] == d && (d + rest)[|d|..] == rest;
    UpToNul(a, b);
  }

  /** The wire type matters only for repeated fields, and there only for whether there is a packed block. */
  lemma WireTypeIgnored(f: Field, slot: Slot, a: nat, b: nat, s: seq<Byte>)
    requires f.rule.Repeated? && f.kind.Packable() ==> (a == 2 <==> b == 2)
    ensures DecodeField(f, slot, a, s) == DecodeField(f, slot, b, s)
  {
    hide DecodeValue, DecodePacked, Prefixed;
  }

  /** What is skipped of an unknown field: other wire types than these are refused. */
  lemma SkipIs(wireType: nat, s: seq<Byte>)
    ensures Skip(wireType, s) ==
      match wireType
      case 0 => (match Terminator(s) case None => None case Some(n) => Some(s[n + 1..]))
      case 1 => if |s| >= 8 then Some(s[8..]) else None
      case 2 => (match Varint32(s)
                 case None => None
                 case Some(g) => if |g.rest| >= g.value then Some(g.rest[g.value..]) else None)
      case 5 => if |s| >= 4 then Some(s[4..]) else None
      case _ => None
  {
    hide Varint32;
    SkipVarintIs(s);
  }

  lemma {:induction false} SkipVarintIs(s: seq<Byte>)
    ensures SkipVarint(s) == match Terminator(s) case None => None case Some(n) => Some(s[n + 1..])
  {
    if s != [] && s[0] >= 128 { SkipVarintIs(s[1..]); }
  }

  /** Zero ends the message. */
  lemma ZeroEndsMessage(w: Schema, m: Slots, rest: seq<Byte>)
    ensures DecodeLoop(w, m, {}, [0] + rest) == if AllSeen(w, {}) then Some(Got(m, rest)) else None
  {
    assert ([0] + rest)[1..] == rest;
  }
}
