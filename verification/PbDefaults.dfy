// What nanopb's decoder fills in before the first byte is read and what stays of it, and what its encoder leaves out.

module PbFreshMessages {
  import opened Basics
  import opened PbSchemas
  import opened PbVarint
  import opened PbDecoding
  import opened PbDecodeIsMerge
  import opened PbReaders
  import opened PbTheorems

  /** A plain member without a default value of its own is filled with zero bytes. */
  ghost predicate AllZero(k: Kind, v: Value) {
    match k
    case Bool => v == Flag(false)
    case Bytes(_) => v == Data([])
    case Text(_) => v == Data([])
    case FixedBytes(n) => v.Data? && |v.bytes| == n && forall i :: 0 <= i < n ==> v.bytes[i] == 0
    case Submessage(w) => v == Message(Fresh(w))
    case _ => v == Number(0)
  }

  /** The default value of the descriptor, where it has one; a submessage has its own defaults. */
  ghost predicate Initial(f: Field, v: Value) {
    if f.init.Some? && !f.kind.Submessage? then v == f.init.value else AllZero(f.kind, v)
  }

  ghost predicate InitialSlot(f: Field, s: Slot) {
    match f.rule
    case Required => s.One? && Initial(f, s.value)
    case Singular => s.One? && Initial(f, s.value)
    case Optional => s.Opt? && !s.has && Initial(f, s.value)
    case Repeated(_) => s == Many([])
    case Oneof => s.Union? && s.which == 0
  }

  /** What every member holds at the beginning. */
  lemma FreshHolds(w: Schema, q: nat)
    requires q < |w|
    ensures SlotOf(w, q) < |Fresh(w)| && InitialSlot(w[q], Fresh(w)[SlotOf(w, q)])
  {
    FreshIsSized(w);
    hide Fresh, Defaults, SlotOf;
    assert Get(Fresh(w), SlotOf(w, q)) == DefaultSlot(w[q]);
    FieldInitial(w[q]);
  }

  lemma FieldInitial(f: Field)
    ensures InitialSlot(f, DefaultSlot(f))
  {
    hide AllZero, Zero;
    ZeroIsZero(f.kind);
  }

  lemma ZeroIsZero(k: Kind)
    ensures AllZero(k, Zero(k))
  {
    hide Defaults;
  }

  /** A member none of whose fields occurs stays as it is. */
  lemma {:induction false} WalkLeaves(w: Schema, m: Slots, s: seq<Byte>, k: nat)
    requires k < |m| && Walk(w, m, s).Some?
    requires forall p: nat :: p < |w| && SlotOf(w, p) == k ==> w[p].tag !in Walk(w, m, s).value.1
    ensures var x := Walk(w, m, s).value.0.value; |x| == |m| && x[k] == m[k]
    decreases |s|
  {
    hide DecodeField, Skip, SlotOf, Find;
    if s != [] && Varint32(s).Some? && Varint32(s).value.value != 0 {
      var g := Varint32(s).value;
      match Find(w, g.value / 8)
      case Some(p) =>
        var h := DecodeField(w[p], Get(m, SlotOf(w, p)), g.value % 8, g.rest).value;
        assert SlotOf(w, p) != k;
        WalkLeaves(w, Put(m, SlotOf(w, p), h.value), h.rest, k);
      case None =>
        if w == [] && g.value / 8 == 0 {
          WalkLeaves(w, m, Varint32(g.rest).value.rest, k);
        } else {
          WalkLeaves(w, m, Skip(g.value % 8, g.rest).value, k);
        }
    }
  }

  /** After decoding, every member none of whose fields occurred in the stream holds what it held at the
      beginning: an optional, required or singular one the default value of its descriptor, or zeros. */
  lemma DefaultsStay(w: Schema, s: seq<Byte>, q: nat)
    requires Good(w) && q < |w| && Decode(w, s).Some?
    ensures Walk(w, Fresh(w), s).Some?
    ensures (forall p: nat :: p < |w| && SlotOf(w, p) == SlotOf(w, q) ==> w[p].tag !in Walk(w, Fresh(w), s).value.1) ==>
      var x := Decode(w, s).value.value; SlotOf(w, q) < |x| && InitialSlot(w[q], x[SlotOf(w, q)])
  {
    hide DecodeLoop, Walk, Fresh, InitialSlot, SlotOf, GoodField;
    WalkTellsAll(w, Fresh(w), {}, s);
    FreshHolds(w, q);
    if forall p: nat :: p < |w| && SlotOf(w, p) == SlotOf(w, q) ==> w[p].tag !in Walk(w, Fresh(w), s).value.1 {
      WalkLeaves(w, Fresh(w), s, SlotOf(w, q));
    }
  }
}

/** What nanopb's encoder leaves out. */
module PbEmptyValues {
  import opened PbVarint
  import opened PbSchemas
  import opened PbEncoding
  import opened PbDecodeIsMerge
  import opened PbReaders
  import opened PbTheorems
  import opened PbFreshMessages

  /** A number, flag, string or byte array is left out exactly if it is what a member filled with zeros holds. */
  lemma EmptyIsZero(k: Kind, v: Value)
    requires Typed(k, v) && !k.FixedBytes? && !k.Submessage?
    ensures IsEmpty(k, v) <==> AllZero(k, v)
  {
  }

  /** An array of fixed length is left out only if it has no bytes, whatever they are. */
  lemma EmptyFixedBytes(n: nat, v: Value)
    requires Typed(FixedBytes(n), v)
    ensures IsEmpty(FixedBytes(n), v) <==> n == 0
  {
  }

  lemma RecordHasBytes(f: Field, v: Value)
    ensures Record(f, v) != [] && forall vs :: PackedRecord(f, vs) != []
  {
    hide EncodeValue, Elements;
    TagHasBytes(f.tag, f.kind.WireType());
    TagHasBytes(f.tag, 2);
  }

  lemma TagHasBytes(tag: nat, wireType: nat)
    ensures TagBytes(tag, wireType) != []
  {
  }

  /** A field writes nothing exactly if it is absent. */
  lemma FieldWritesNothing(f: Field, s: Slot)
    requires TypedSlot(f, s) && 1 <= f.tag
    ensures !f.rule.Oneof? ==> (EncodeField(f, s) == [] <==> IsDefault(f, s))
    ensures f.rule.Oneof? ==> (EncodeField(f, s) == [] <==> s.which != f.tag)
  {
    hide Record, PackedRecord, IsEmpty, Typed;
    match s
    case One(v) => RecordHasBytes(f, v);
    case Opt(_, v) => RecordHasBytes(f, v);
    case Union(_, v) => RecordHasBytes(f, v);
    case Many(vs) => if vs != [] { RecordHasBytes(f, vs[0]); }
  }

  lemma {:induction false} AllDefaultIff(w: Schema, p: nat, m: Slots)
    requires p <= |w|
    ensures AllDefault(w, p, m) <==> forall n: nat :: p <= n < |w| ==> IsDefault(w[n], Get(m, SlotOf(w, n)))
    decreases |w| - p
  {
    hide IsDefault;
    if p < |w| { AllDefaultIff(w, p + 1, m); }
  }

  lemma {:induction false} NothingEncodedIff(w: Schema, p: nat, m: Slots)
    requires p <= |w|
    ensures EncodeFrom(w, p, m) == [] <==>
      forall n: nat :: p <= n < |w| ==> EncodeField(w[n], Get(m, SlotOf(w, n))) == []
    decreases |w| - p
  {
    hide EncodeField;
    if p < |w| { NothingEncodedIff(w, p + 1, m); }
  }

  lemma DefaultChoice(f: Field, s: Slot)
    requires TypedSlot(f, s) && f.rule.Oneof?
    ensures s.Union? && (IsDefault(f, s) <==> s.which == 0)
  {
    hide Typed;
  }

  /** A union none of whose fields is written holds none. */
  lemma NothingChosen(w: Schema, m: Slots, n: nat)
    requires Good(w) && TypedFrom(w, 0, m) && Chosen(w, m) && n < |w| && w[n].rule.Oneof?
    requires forall j: nat :: j < |w| ==> EncodeField(w[j], Get(m, SlotOf(w, j))) == []
    ensures Get(m, SlotOf(w, n)).Union? && Get(m, SlotOf(w, n)).which == 0
  {
    hide TypedFrom, EncodeField, SlotOf, GoodField, TypedSlot;
    var k := SlotOf(w, n);
    ChosenOf(w, m, n);
    if Get(m, k).which != 0 {
      var j: nat :| j < |w| && SlotOf(w, j) == k && w[j].tag == Get(m, k).which;
      SameUnion(w, n, j);
      TypedAt(w, 0, m, j);
      FieldWritesNothing(w[j], Get(m, k));
    }
  }

  /** A submessage is left out exactly if it would be encoded in no bytes. */
  lemma EmptyMessage(w: Schema, m: Slots)
    requires Good(w) && TypedFrom(w, 0, m) && Chosen(w, m)
    ensures IsEmpty(Submessage(w), Message(m)) <==> Encode(w, m) == []
  {
    hide TypedFrom, IsDefault, EncodeField, TypedSlot, SlotOf, AllDefault, GoodField;
    AllDefaultIff(w, 0, m);
    NothingEncodedIff(w, 0, m);
    forall n: nat | n < |w|
      ensures TypedSlot(w[n], Get(m, SlotOf(w, n))) && 1 <= w[n].tag
    {
      TypedAt(w, 0, m, n);
    }
    forall n: nat | n < |w| && IsDefault(w[n], Get(m, SlotOf(w, n)))
      ensures EncodeField(w[n], Get(m, SlotOf(w, n))) == []
    {
      FieldWritesNothing(w[n], Get(m, SlotOf(w, n)));
      if w[n].rule.Oneof? { DefaultChoice(w[n], Get(m, SlotOf(w, n))); }
    }
    if forall n: nat :: n < |w| ==> EncodeField(w[n], Get(m, SlotOf(w, n))) == [] {
      forall n: nat | n < |w| ensures IsDefault(w[n], Get(m, SlotOf(w, n))) {
        FieldWritesNothing(w[n], Get(m, SlotOf(w, n)));
        if w[n].rule.Oneof? {
          DefaultChoice(w[n], Get(m, SlotOf(w, n)));
          NothingChosen(w, m, n);
        }
      }
    }
  }
}
