// The main results about nanopb's wire format: round trip, skipping of unknown fields, concatenation,
// packed and unpacked fields, and the delimited form.

module PbTheorems {
  import opened Basics
  import opened PbVarint
  import opened PbSchemas
  import opened PbEncoding
  import opened PbDecoding
  import opened PbMerging
  import opened PbDecodeIsMerge
  import opened PbRoundTrips
  import opened PbReaders

  // ----- every schema reads itself

  /** Singular fields have no default values of their own. */
  ghost predicate ZeroDefaults(w: Schema)
    decreases w
  {
    forall p :: 0 <= p < |w| ==> ZeroDefault(w[p])
  }

  ghost predicate ZeroDefault(f: Field)
    decreases f
  {
    (f.rule.Singular? ==> f.init.None?) && (f.kind.Submessage? ==> ZeroDefaults(f.kind.schema))
  }

  lemma {:induction false} ReadsItself(w: Schema)
    requires Good(w) && ZeroDefaults(w)
    ensures Reads(w, w) && Reduced(w, w)
    decreases w
  {
    forall q: nat | q < |w| ensures Find(w, w[q].tag) == Some(q) && Fits(w[q], w[q]) && ReducedField(w[q], w[q]) {
      FindIs(w, q);
      FieldReadsItself(w[q]);
    }
  }

  lemma {:induction false} FieldReadsItself(f: Field)
    requires GoodField(f) && ZeroDefault(f)
    ensures Fits(f, f) && ReducedField(f, f)
    decreases f
  {
    if f.kind.Submessage? { ReadsItself(f.kind.schema); }
  }

  // ----- round trip and unknown fields

  /** Whoever reads w, or only some of its fields, decodes what was encoded exactly if there is room for
      it, consumes all of it, and sees every field that it knows; all others are skipped. */
  lemma ReaderSees(w: Schema, r: Schema, m: Slots)
    requires Good(w) && Good(r) && Reduced(w, r) && TypedFrom(w, 0, m) && |Encode(w, m)| < TWO63
    ensures Decode(r, Encode(w, m)).Some? <==> Room(w, r, m)
    ensures Room(w, r, m) ==> var x := Decode(r, Encode(w, m)).value; x.rest == [] && Shows(w, r, m, x.value)
  {
    hide Good, Encode, TypedFrom, Room, Shows, Fresh, DecodeLoop, MergeFrom;
    ReducedReads(w, r);
    WholeReads(w, r, Fresh(r), m);
    MergeShows(w, r, m);
  }

  lemma ReducedReads(w: Schema, r: Schema)
    requires Reduced(w, r)
    ensures Reads(w, r)
  {
    hide SameUnions;
  }

  /** Decoding what was encoded gives the message back, up to the payload of absent fields. */
  lemma RoundTrip(w: Schema, m: Slots)
    requires Good(w) && ZeroDefaults(w) && TypedFrom(w, 0, m) && |Encode(w, m)| < TWO63
    ensures Decode(w, Encode(w, m)).Some? <==> Room(w, w, m)
    ensures Room(w, w, m) ==> var x := Decode(w, Encode(w, m)).value; x.rest == [] && Shows(w, w, m, x.value)
  {
    hide Good, ZeroDefaults, Encode, TypedFrom, Room, Shows, Decode, Reduced;
    ReadsItself(w);
    ReaderSees(w, w, m);
  }

  /** Unions of the two messages hold the same field. */
  lemma SameChoice(w: Schema, m: Slots, x: Slots, q: nat)
    requires Tagged(w) && Shows(w, w, m, x) && Chosen(w, m) && q < |w| && w[q].rule.Oneof?
    ensures var a, b := Get(m, SlotOf(w, q)), Get(x, SlotOf(w, q)); a.Union? && b.Union? && a.which == b.which
  {
    hide Shows, SlotOf, Get, Tagged;
    var k := SlotOf(w, q);
    var a, b := Get(m, k), Get(x, k);
    ChosenOf(w, m, q);
    ShownUnion(w, m, x, q);
    if a.which != 0 {
      var j: nat :| j < |w| && SlotOf(w, j) == k && w[j].tag == a.which;
      SameUnion(w, q, j);
      ShownUnion(w, m, x, j);
    } else if b.which != 0 {
      var j: nat :| j < |w| && SlotOf(w, j) == k && w[j].tag == b.which;
      SameUnion(w, q, j);
      ShownUnion(w, m, x, j);
    }
  }

  lemma SameUnion(w: Schema, q: nat, j: nat)
    requires q < |w| && j < |w| && SlotOf(w, q) == SlotOf(w, j) && w[q].rule.Oneof?
    ensures w[j].rule.Oneof?
  {
    hide SlotOf;
    if j < q { SlotsIncrease(w, j, q); } else if q < j { SlotsIncrease(w, q, j); }
  }

  lemma ChosenOf(w: Schema, m: Slots, q: nat)
    requires Chosen(w, m) && q < |w| && w[q].rule.Oneof?
    ensures ChosenAt(w, SlotOf(w, q), Get(m, SlotOf(w, q)))
  {
  }

  lemma ShownUnion(w: Schema, m: Slots, x: Slots, q: nat)
    requires Tagged(w) && Shows(w, w, m, x) && q < |w| && w[q].rule.Oneof?
    ensures var a, b := Get(m, SlotOf(w, q)), Get(x, SlotOf(w, q));
      a.Union? && b.Union? && (a.which == w[q].tag <==> b.which == w[q].tag) && ChosenAt(w, SlotOf(w, q), b)
  {
    hide ShowsValue, ChosenAt, Find, SlotOf;
    FindIs(w, q);
    ChosenOf(w, x, q);
  }

  /** The delimited form leaves the stream at the next message. */
  lemma DelimitedReading(w: Schema, r: Schema, m: Slots, rest: seq<Byte>)
    requires Good(w) && Good(r) && Reduced(w, r) && TypedFrom(w, 0, m) && |Encode(w, m)| < TWO63
    ensures DecodeDelimited(r, Delimited(Encode(w, m)) + rest).Some? <==> |Encode(w, m)| < TWO32 && Room(w, r, m)
    ensures |Encode(w, m)| < TWO32 && Room(w, r, m) ==>
      var x := DecodeDelimited(r, Delimited(Encode(w, m)) + rest).value; x.rest == rest && Shows(w, r, m, x.value)
  {
    hide Good, Reduced, Encode, TypedFrom, Room, Shows, Decode, Prefixed, Delimited;
    PrefixReads(Encode(w, m), rest);
    ReaderSees(w, r, m);
  }

  /** A message that ends with a zero is read up to there, whatever comes behind it. */
  lemma NullTerminatedReading(w: Schema, r: Schema, m: Slots, rest: seq<Byte>)
    requires Good(w) && Good(r) && Reduced(w, r) && TypedFrom(w, 0, m) && |Encode(w, m)| < TWO63
    ensures Decode(r, Encode(w, m) + [0] + rest).Some? <==> Room(w, r, m)
    ensures Room(w, r, m) ==>
      var x := Decode(r, Encode(w, m) + [0] + rest).value; x.rest == rest && Shows(w, r, m, x.value)
  {
    hide Good, EncodeFrom, TypedFrom, Room, Shows, Fresh, DecodeLoop, MergeFrom, SeenFrom, AllSeen, Reduced, Reads;
    ReducedReads(w, r);
    GoodTags(r);
    assert Encode(w, m) + [0] + rest == EncodeFrom(w, 0, m) + ([0] + rest);
    MessageReads(w, 0, r, Fresh(r), {}, m, [0] + rest);
    MergeShows(w, r, m);
    RequiredSeen(w, r, m, {});
    match Merge(w, r, Fresh(r), m)
    case None =>
    case Some(x) => ZeroEnds(r, x, SeenFrom(w, 0, r, m, {}), rest);
  }

  lemma ZeroEnds(r: Schema, acc: Slots, seen: set<nat>, rest: seq<Byte>)
    ensures DecodeLoop(r, acc, seen, [0] + rest) == Finished(r, acc, seen, rest)
  {
    assert ([0] + rest)[1..] == rest;
  }

  // ----- concatenation

  /** Decoding two messages one behind the other merges the second into the first. */
  lemma Concatenation(w: Schema, r: Schema, a: Slots, b: Slots)
    requires Good(w) && Good(r) && Reads(w, r) && TypedFrom(w, 0, a) && TypedFrom(w, 0, b)
    requires |Encode(w, a)| < TWO63 && |Encode(w, b)| < TWO63
    ensures Decode(r, Encode(w, a) + Encode(w, b)) ==
      match Merge(w, r, Fresh(r), a)
      case None => None
      case Some(x) => match Merge(w, r, x, b) case None => None case Some(y) => Some(Got(y, []))
  {
    hide Good, EncodeFrom, TypedFrom, Fresh, DecodeLoop, MergeFrom, SeenFrom, Reads, AllSeen;
    MessageReads(w, 0, r, Fresh(r), {}, a, Encode(w, b));
    match Merge(w, r, Fresh(r), a)
    case None =>
    case Some(x) =>
      var seen := SeenFrom(w, 0, r, a, {});
      MessageReads(w, 0, r, x, seen, b, []);
      assert EncodeFrom(w, 0, b) + [] == EncodeFrom(w, 0, b);
      GoodTags(r);
      RequiredSeen(w, r, b, seen);
      match Merge(w, r, x, b)
      case None =>
      case Some(y) => AtEnd(r, y, SeenFrom(w, 0, r, b, seen));
  }

  lemma GoodTags(w: Schema)
    requires Good(w)
    ensures Tagged(w)
  {
    hide Tagged, GoodField;
  }

  // ----- required fields

  /** The fields of a stream, decoded without a look at which of them are required: the message, the tags
      that occurred, and what is left. */
  function Walk(w: Schema, m: Slots, s: seq<Byte>): Option<(Got<Slots>, set<nat>)>
    decreases |s|
  {
    if s == [] then Some((Got(m, s), {}))
    else match Varint32(s)
      case None => None
      case Some(g) =>
        if g.value == 0 then Some((Got(m, g.rest), {}))
        else match Find(w, g.value / 8)
          case Some(p) =>
            (match DecodeField(w[p], Get(m, SlotOf(w, p)), g.value % 8, g.rest)
             case None => None
             case Some(h) => WithTag(Walk(w, Put(m, SlotOf(w, p), h.value), h.rest), g.value / 8))
          case None =>
            if w == [] && g.value / 8 == 0 then
              match Varint32(g.rest) case None => None case Some(h) => WithTag(Walk(w, m, h.rest), g.value / 8)
            else
              match Skip(g.value % 8, g.rest)
              case None => None
              case Some(rest) => WithTag(Walk(w, m, rest), g.value / 8)
  }

  function WithTag(r: Option<(Got<Slots>, set<nat>)>, tag: nat): Option<(Got<Slots>, set<nat>)> {
    match r case None => None case Some(x) => Some((x.0, x.1 + {tag}))
  }

  /** The tracked fields are among the tags, or were seen before. */
  ghost predicate Occurred(w: Schema, seen: set<nat>, tags: set<nat>) {
    forall p: nat :: Tracked(w, p) ==> p in seen || w[p].tag in tags
  }

  lemma {:induction false} WalkTellsAll(w: Schema, m: Slots, seen: set<nat>, s: seq<Byte>)
    requires Tagged(w)
    ensures DecodeLoop(w, m, seen, s) ==
      match Walk(w, m, s) case None => None case Some(x) => if Occurred(w, seen, x.1) then Some(x.0) else None
    decreases |s|
  {
    hide DecodeField, Skip, Varint32, Tracked, SlotOf, Tagged, Find;
    if s == [] {
      NoTags(w, seen);
    } else if Varint32(s).Some? {
      var g := Varint32(s).value;
      if g.value == 0 {
        NoTags(w, seen);
      } else {
        match Find(w, g.value / 8)
        case Some(p) =>
          var h := DecodeField(w[p], Get(m, SlotOf(w, p)), g.value % 8, g.rest);
          if h.Some? {
            var m' := Put(m, SlotOf(w, p), h.value.value);
            WalkTellsAll(w, m', Mark(w, p, seen), h.value.rest);
            match Walk(w, m', h.value.rest)
            case None =>
            case Some(x) => OneMoreTag(w, seen, x.1, p);
          }
        case None =>
          var rest := if w == [] && g.value / 8 == 0
            then (match Varint32(g.rest) case None => None case Some(h) => Some(h.rest))
            else Skip(g.value % 8, g.rest);
          if rest.Some? {
            WalkTellsAll(w, m, seen, rest.value);
            match Walk(w, m, rest.value)
            case None =>
            case Some(x) => OtherTag(w, seen, x.1, g.value / 8);
          }
      }
    }
  }

  lemma NoTags(w: Schema, seen: set<nat>)
    ensures AllSeen(w, seen) <==> Occurred(w, seen, {})
  {
  }

  lemma OneMoreTag(w: Schema, seen: set<nat>, tags: set<nat>, p: nat)
    requires Tagged(w) && p < |w|
    ensures Occurred(w, Mark(w, p, seen), tags) <==> Occurred(w, seen, tags + {w[p].tag})
  {
    if Occurred(w, seen, tags + {w[p].tag}) {
      forall q: nat | Tracked(w, q) ensures q in Mark(w, p, seen) || w[q].tag in tags {
        assert q in seen || w[q].tag in tags + {w[p].tag};
      }
    }
  }

  lemma OtherTag(w: Schema, seen: set<nat>, tags: set<nat>, tag: nat)
    requires Find(w, tag) == None
    ensures Occurred(w, seen, tags) <==> Occurred(w, seen, tags + {tag})
  {
    if Occurred(w, seen, tags + {tag}) {
      forall q: nat | Tracked(w, q) ensures q in seen || w[q].tag in tags {
        assert q in seen || w[q].tag in tags + {tag};
      }
    }
  }

  /** A stream whose fields all decode is accepted if and only if the tag of every required field occurs in it,
      where only the first 64 required fields of a message type count. */
  lemma RequiredExactly(w: Schema, s: seq<Byte>)
    requires Good(w)
    ensures Decode(w, s).Some? <==>
      && Walk(w, Fresh(w), s).Some?
      && forall p :: 0 <= p < |w| && w[p].rule.Required? && |set i: nat | i < p && w[i].rule.Required?| < 64 ==>
           w[p].tag in Walk(w, Fresh(w), s).value.1
    ensures Decode(w, s).Some? ==> Decode(w, s).value == Walk(w, Fresh(w), s).value.0
  {
    hide DecodeLoop, Walk, Fresh, GoodField, RequiredBefore;
    WalkTellsAll(w, Fresh(w), {}, s);
    forall p: nat | p < |w|
      ensures Tracked(w, p) <==> w[p].rule.Required? && |set i: nat | i < p && w[i].rule.Required?| < 64
    {
      RequiredBeforeIs(w, p);
    }
  }

  // ----- packed and unpacked

  /** For a reader, one packed block and one tagged field per element are the same, as long as the block's
      length fits. */
  lemma PackedIsUnpacked(f: Field, r: Schema, acc: Slots, seen: set<nat>, vs: seq<Value>, rest: seq<Byte>)
    requires 1 <= f.tag < 0x2000_0000 && f.rule.Repeated? && f.kind.Packable() && vs != [] && KnownBy(f, r) && Good(r)
    requires Sized(r, acc) && forall i :: 0 <= i < |vs| ==> Typed(f.kind, vs[i])
    requires |Elements(f.kind, vs)| < TWO32 && |Records(f, vs)| < TWO63
    ensures DecodeLoop(r, acc, seen, PackedRecord(f, vs) + rest) == DecodeLoop(r, acc, seen, Records(f, vs) + rest)
  {
    hide DecodeLoop, Elements, Records, PackedRecord, MergeAll, MergePacked, Typed, SameKind, Good, PayloadFits;
    PackedLength(f, vs);
    PackedReads(f, r, acc, seen, vs, rest);
    ItemsRead(f, r, acc, seen, vs, rest);
    PlainFits(f.kind, vs);
    match Find(r, f.tag)
    case None =>
    case Some(q) =>
      var k := SlotOf(r, q);
      AllIsItems(f.kind, r[q], k, acc, vs);
      SamePackable(f.kind, r[q].kind);
      PackedMerges(f.kind, r[q], acc[k], vs);
  }

  lemma PackedLength(f: Field, vs: seq<Value>)
    requires f.tag < 0x2000_0000 && |Elements(f.kind, vs)| < TWO32
    ensures |PackedRecord(f, vs)| < TWO63
  {
    hide Elements, PbVarint.Varint;
    ShortVarint(f.tag * 8 + 2);
    ShortVarint(|Elements(f.kind, vs)|);
  }

  lemma ShortVarint(n: nat)
    requires n < TWO32
    ensures |PbVarint.Varint(n)| <= 5
  {
    assert n / 128 / 128 / 128 / 128 < 128;
    var a := n / 128;
    var b := a / 128;
    var c := b / 128;
    assert |PbVarint.Varint(c / 128)| == 1;
    assert |PbVarint.Varint(c)| <= 2;
    assert |PbVarint.Varint(b)| <= 3;
    assert |PbVarint.Varint(a)| <= 4;
  }

  lemma PlainFits(k: Kind, vs: seq<Value>)
    requires k.Packable()
    ensures forall i :: 0 <= i < |vs| ==> PayloadFits(k, vs[i])
  {
  }

  /** One by one or at once. */
  lemma {:induction false} PackedMerges(kw: Kind, fr: Field, slot: Slot, vs: seq<Value>)
    requires kw.Packable() && SameKind(kw, fr.kind) && fr.rule.Repeated? && vs != [] && |Elements(kw, vs)| < TWO32
    ensures MergeItems(kw, fr, slot, vs) == MergePacked(kw, fr, slot, vs)
    decreases |vs|
  {
    hide SameKind, EncodeValue, Elements, MergeOne, Kind.Packable;
    PlainMerges(kw, fr, slot, vs[0]);
    FewerElements(kw, vs);
    if slot.Many? && |slot.items| < fr.rule.max {
      var next := Many(slot.items + [vs[0]]);
      if |vs| == 1 {
        assert MergeItems(kw, fr, next, vs[1..]) == Some(next);
        assert slot.items + vs == next.items;
      } else {
        PackedMerges(kw, fr, next, vs[1..]);
        assert next.items + vs[1..] == slot.items + vs;
      }
    }
  }

  lemma FewerElements(k: Kind, vs: seq<Value>)
    requires vs != []
    ensures |Elements(k, vs[1..])| <= |Elements(k, vs)|
  {
    hide EncodeValue;
  }

  lemma PlainMerges(kw: Kind, fr: Field, slot: Slot, v: Value)
    requires kw.Packable() && SameKind(kw, fr.kind) && fr.rule.Repeated?
    ensures MergeOne(kw, fr, slot, v) ==
      if slot.Many? && |slot.items| < fr.rule.max then Some(Many(slot.items + [v])) else None
  {
  }
}
