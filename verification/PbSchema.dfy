// nanopb's field descriptors (pb.h) and statically allocated messages, as values.

module PbSchemas {
  import opened Basics
  import Products

  /** Size of an integer member in bytes. */
  datatype Width = W1 | W2 | W4 | W8 {
    /** 2 to the number of its bits. */
    function Span(): nat {
      match this
      case W1 => 0x100
      case W2 => 0x1_0000
      case W4 => 0x1_0000_0000
      case W8 => 0x1_0000_0000_0000_0000
    }
  }

  /** The LTYPE of a field, with its data_size where that matters: bytes and strings have room for cap bytes,
      the terminator of a string among them. */
  datatype Kind =
    | Bool
    | Varint(width: Width)
    | UVarint(width: Width)
    | SVarint(width: Width)
    | Fixed32
    | Fixed64
    | Bytes(cap: nat)
    | Text(cap: nat)
    | FixedBytes(length: nat)
    | Submessage(schema: seq<Field>)
  {
    /** PB_LTYPE_LAST_PACKABLE. */
    predicate Packable() {
      Bool? || Varint? || UVarint? || SVarint? || Fixed32? || Fixed64?
    }

    /** The wire type of `pb_encode_tag_for_field`. */
    function WireType(): nat {
      if Fixed32? then 5 else if Fixed64? then 1 else if Packable() then 0 else 2
    }
  }

  /** The HTYPE; Singular is an optional field without has_ member, as proto3 has them. */
  datatype Rule = Required | Optional | Singular | Repeated(max: nat) | Oneof

  /** shared: the field lies in the same union as the field before it (data_offset is PB_SIZE_MAX).
      gap: the data_offset otherwise, from the end of the previous field. size: the data_size of one item.
      init: the default value, where the descriptor has one. */
  datatype Field = Field(tag: nat, rule: Rule, kind: Kind, shared: bool, gap: nat, size: nat, init: Option<Value>)

  type Schema = seq<Field>

  datatype Value = Flag(b: bool) | Number(i: int) | Data(bytes: seq<Byte>) | Message(slots: seq<Slot>)

  /** A member of the message struct with its has_, _count or which_ member. */
  datatype Slot =
    | One(value: Value)
    | Opt(has: bool, value: Value)
    | Many(items: seq<Value>)
    | Union(which: nat, value: Value)

  type Slots = seq<Slot>

  // ----- layout

  /** The field lies where the one before it lies. */
  predicate Joins(w: Schema, p: nat)
    requires p < |w|
  {
    p > 0 && w[p - 1].rule.Oneof? && w[p].rule.Oneof? && w[p].shared
  }

  /** The member that holds the field at position p. */
  function SlotOf(w: Schema, p: nat): (k: nat)
    requires p < |w|
    ensures k <= p
  {
    if p == 0 then 0 else SlotOf(w, p - 1) + if Joins(w, p) then 0 else 1
  }

  lemma {:induction false} SlotsIncrease(w: Schema, p: nat, q: nat)
    requires p <= q < |w|
    ensures SlotOf(w, p) <= SlotOf(w, q)
    ensures SlotOf(w, p) == SlotOf(w, q) && p < q ==> w[p].rule.Oneof? && w[q].rule.Oneof?
    decreases q
  {
    if p < q { SlotsIncrease(w, p, q - 1); }
  }

  /** Number of required fields before position p: required_field_index. */
  function RequiredBefore(w: Schema, p: nat): (n: nat)
    requires p <= |w|
    ensures n <= p
  {
    if p == 0 then 0 else RequiredBefore(w, p - 1) + if w[p - 1].rule.Required? then 1 else 0
  }

  lemma {:induction false} RequiredBeforeIs(w: Schema, p: nat)
    requires p <= |w|
    ensures RequiredBefore(w, p) == |set i: nat | i < p && w[i].rule.Required?|
  {
    if p > 0 {
      RequiredBeforeIs(w, p - 1);
      var a, b := (set i: nat | i < p - 1 && w[i].rule.Required?), (set i: nat | i < p && w[i].rule.Required?);
      if w[p - 1].rule.Required? {
        assert b == a + {p - 1};
      } else {
        assert b == a;
      }
    }
  }

  lemma {:induction false} RequiredGrows(w: Schema, p: nat, q: nat)
    requires p < q <= |w| && w[p].rule.Required?
    ensures RequiredBefore(w, p) < RequiredBefore(w, q)
    decreases q
  {
    if p < q - 1 { RequiredGrows(w, p, q - 1); }
  }

  /** Tags are distinct and in the range that the wire format allows. */
  ghost predicate Tagged(w: Schema) {
    && (forall p :: 0 <= p < |w| ==> 1 <= w[p].tag < 0x2000_0000)
    && (forall p, q :: 0 <= p < q < |w| ==> w[p].tag != w[q].tag)
  }

  function Find(w: Schema, tag: nat): (r: Option<nat>)
    ensures r.Some? ==> r.value < |w| && w[r.value].tag == tag
    ensures r.None? ==> forall p :: 0 <= p < |w| ==> w[p].tag != tag
  {
    if w == [] then None
    else if w[|w| - 1].tag == tag then Some(|w| - 1)
    else Find(w[..|w| - 1], tag)
  }

  lemma FindIs(w: Schema, p: nat)
    requires Tagged(w) && p < |w|
    ensures Find(w, w[p].tag) == Some(p)
  {
  }

  /** Bytes that a field takes in the message struct. */
  function Extent(f: Field): nat {
    if f.rule.Repeated? then Product(f.size, f.rule.max) else f.size
  }

  function Product(x: nat, y: nat): nat {
    Products.MulNonNegative(x, y);
    x * y
  }

  /** Where the iterator finds the field at position p, from the start of the struct. */
  function OffsetOf(w: Schema, p: nat): nat
    requires p < |w|
  {
    if p == 0 then w[0].gap
    else if Joins(w, p) then OffsetOf(w, p - 1)
    else OffsetOf(w, p - 1) + Extent(w[p - 1]) + w[p].gap
  }

  /** Member p of a struct with these offsets and sizes, as the macros of pb.h describe it
      (PB_DATAOFFSET_FIRST, _OTHER and _UNION); an array has the size of all its items. */
  ghost predicate PlacedAt(w: Schema, offsets: seq<nat>, sizes: seq<nat>, p: nat)
    requires p < |w| == |offsets| == |sizes|
  {
    && sizes[p] == (if w[p].rule.Repeated? then w[p].size * w[p].rule.max else w[p].size)
    && (if p == 0 then offsets[p] == w[p].gap
        else if Joins(w, p) then offsets[p] == offsets[p - 1]
        else offsets[p] == offsets[p - 1] + sizes[p - 1] + w[p].gap)
  }

  ghost predicate LaidOut(w: Schema, offsets: seq<nat>, sizes: seq<nat>) {
    |w| == |offsets| == |sizes| && forall p: nat :: p < |w| ==> PlacedAt(w, offsets, sizes, p)
  }

  /** How far it goes from one field to the next: over all items of an array, and nowhere within a union. */
  lemma NextMember(w: Schema, p: nat)
    requires p + 1 < |w|
    ensures Joins(w, p + 1) ==> OffsetOf(w, p + 1) == OffsetOf(w, p)
    ensures !Joins(w, p + 1) && !w[p].rule.Repeated? ==> OffsetOf(w, p + 1) == OffsetOf(w, p) + w[p].size + w[p + 1].gap
    ensures w[p].rule.Repeated? ==> OffsetOf(w, p + 1) == OffsetOf(w, p) + w[p].size * w[p].rule.max + w[p + 1].gap
  {
  }

  /** The iterator finds every member of such a struct. */
  lemma {:induction false} FindsMembers(w: Schema, offsets: seq<nat>, sizes: seq<nat>, p: nat)
    requires LaidOut(w, offsets, sizes) && p < |w|
    ensures OffsetOf(w, p) == offsets[p]
  {
    assert PlacedAt(w, offsets, sizes, p);
    if p > 0 {
      FindsMembers(w, offsets, sizes, p - 1);
      NextMember(w, p - 1);
      assert PlacedAt(w, offsets, sizes, p - 1);
    }
  }

  /** A member ends before all later ones begin, unless it shares its place with the next field. */
  lemma {:induction false} NoOverlap(w: Schema, p: nat, q: nat)
    requires p < q < |w| && !Joins(w, p + 1)
    ensures !w[p].rule.Repeated? ==> OffsetOf(w, p) + w[p].size <= OffsetOf(w, q)
    ensures w[p].rule.Repeated? ==> OffsetOf(w, p) + w[p].size * w[p].rule.max <= OffsetOf(w, q)
    decreases q
  {
    if q == p + 1 {
      NextMember(w, p);
    } else {
      NoOverlap(w, p, q - 1);
    }
  }

  /** Two fields are in one member exactly if each one on the way from the first joins the one before it. */
  lemma {:induction false} SameMemberIff(w: Schema, p: nat, q: nat)
    requires p <= q < |w|
    ensures SlotOf(w, p) == SlotOf(w, q) <==> forall j: nat :: p < j <= q ==> Joins(w, j)
    decreases q
  {
    if p < q {
      SameMemberIff(w, p, q - 1);
      SlotsIncrease(w, p, q - 1);
    }
  }

  // ----- default values (`pb_message_set_to_defaults`)

  function Zeros(n: nat): (r: seq<Byte>)
    ensures |r| == n && forall i :: 0 <= i < n ==> r[i] == 0
  {
    seq(n, _ => 0)
  }

  function Zero(k: Kind): Value {
    match k
    case Bool => Flag(false)
    case Bytes(_) => Data([])
    case Text(_) => Data([])
    case FixedBytes(n) => Data(Zeros(n))
    case Submessage(w) => Message(Defaults(w, |w|))
    case _ => Number(0)
  }

  /** What a member of a field is initialized to. */
  function DefaultValue(f: Field): Value
    decreases f, 0
  {
    if f.kind.Submessage? || f.init.None? then Zero(f.kind) else f.init.value
  }

  function DefaultSlot(f: Field): Slot
    decreases f, 1
  {
    match f.rule
    case Required => One(DefaultValue(f))
    case Singular => One(DefaultValue(f))
    case Optional => Opt(false, DefaultValue(f))
    case Repeated(_) => Many([])
    case Oneof => Union(0, Number(0))
  }

  /** The members of the first n fields. */
  function Defaults(w: Schema, n: nat): (r: Slots)
    requires n <= |w|
    ensures n > 0 ==> |r| == SlotOf(w, n - 1) + 1
    ensures n == 0 ==> r == []
    decreases w, n
  {
    if n == 0 then []
    else if Joins(w, n - 1) then Defaults(w, n - 1)
    else Defaults(w, n - 1) + [DefaultSlot(w[n - 1])]
  }

  function Fresh(w: Schema): Slots {
    Defaults(w, |w|)
  }

  function Get(m: Slots, k: nat): Slot {
    if k < |m| then m[k] else Many([])
  }

  function Put(m: Slots, k: nat, s: Slot): Slots {
    if k < |m| then m[k := s] else m
  }
}
