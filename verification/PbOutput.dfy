// nanopb's encoder (pb_encode.c) on its output stream, which writes into a buffer or only counts.

module PbOutputs {
  import opened Basics
  import opened PbVarint
  import opened PbSchemas
  import opened PbEncoding
  import opened PbFieldIters

  // ----- what the encoder refuses for its content

  /** No count or size in the message exceeds its member. */
  ghost predicate Encodes(k: Kind, v: Value)
    decreases k, 0
  {
    match (k, v)
    case (Bytes(cap), Data(d)) => |d| <= cap
    case (Submessage(w), Message(m)) => EncodesFrom(w, 0, m)
    case _ => true
  }

  ghost predicate EncodesAll(k: Kind, vs: seq<Value>)
    decreases k, 1
  {
    forall i :: 0 <= i < |vs| ==> Encodes(k, vs[i])
  }

  ghost predicate EncodesField(f: Field, s: Slot)
    decreases f
  {
    match (f.rule, s)
    case (Required, One(v)) => Encodes(f.kind, v)
    case (Singular, One(v)) => IsEmpty(f.kind, v) || Encodes(f.kind, v)
    case (Optional, Opt(has, v)) => has ==> Encodes(f.kind, v)
    case (Repeated(max), Many(vs)) => |vs| <= max && EncodesAll(f.kind, vs)
    case (Oneof, Union(which, v)) => which == f.tag ==> Encodes(f.kind, v)
    case _ => true
  }

  ghost predicate EncodesFrom(w: Schema, p: nat, m: Slots)
    requires p <= |w|
    decreases w, |w| - p
  {
    p == |w| || (EncodesField(w[p], Get(m, SlotOf(w, p))) && EncodesFrom(w, p + 1, m))
  }

  /** A stream by value: the bytes in front of it, how many were written through it, how many it may still
      write, and the bytes that it must not touch. */
  datatype Ink = Ink(counting: bool, out: seq<Byte>, written: nat, free: nat, beyond: seq<Byte>)

  /** An attempt to write bytes succeeds if the content is good and there is room; it never touches what
      is in front of the stream or beyond its room. */
  ghost predicate Attempt(a: Ink, b: Ink, ok: bool, good: bool, bytes: seq<Byte>) {
    && (ok <==> good && (a.counting || |bytes| <= a.free))
    && b.counting == a.counting && b.beyond == a.beyond && a.out <= b.out
    && (ok ==> b.written == a.written + |bytes|)
    && (ok && !a.counting ==> b.out == a.out + bytes && b.free == a.free - |bytes|)
  }

  lemma Then(a: Ink, b: Ink, c: Ink, good: bool, first: seq<Byte>, ok: bool, more: bool, second: seq<Byte>)
    requires Attempt(a, b, true, good, first) && Attempt(b, c, ok, more, second)
    ensures Attempt(a, c, ok, good && more, first + second)
  {
    assert (a.out + first) + second == a.out + (first + second);
  }

  lemma Stopped(a: Ink, b: Ink, good: bool, first: seq<Byte>, more: bool, second: seq<Byte>)
    requires Attempt(a, b, false, good, first)
    ensures Attempt(a, b, false, good && more, first + second)
  {
  }

  lemma Refused(a: Ink, bytes: seq<Byte>)
    ensures Attempt(a, a, false, false, bytes)
  {
  }

  lemma NothingWritten(a: Ink)
    ensures Attempt(a, a, true, true, [])
  {
  }

  lemma Counted(a: Ink, b: Ink, good: bool, bytes: seq<Byte>)
    requires Attempt(a, b, true, good, bytes)
    ensures b.counting == a.counting && b.written == a.written + |bytes|
  {
  }

  /** What a substream of exactly the right size writes, its parent has written. */
  lemma Substream(before: seq<Byte>, after: seq<Byte>, at: nat, written: nat, free: nat, t: Ink, ok: bool,
                  bytes: seq<Byte>)
    requires |before| == |after| && |bytes| <= free && at + free <= |before|
    requires Attempt(Ink(false, before[..at], 0, |bytes|, before[at + |bytes|..]), t, ok, true, bytes)
    requires t.written + t.free == |bytes| && |t.out| + t.free <= |after| && t.out == after[..|t.out|]
    requires t.beyond == after[|t.out| + t.free..]
    ensures ok && t.written == |bytes| && |t.out| == at + |bytes|
    ensures Attempt(Ink(false, before[..at], written, free, before[at + free..]),
                    Ink(false, after[..at + |bytes|], written + |bytes|, free - |bytes|, after[at + free..]),
                    true, true, bytes)
  {
    assert before[at + free..] == before[at + |bytes|..][free - |bytes|..];
    assert after[at + free..] == after[at + |bytes|..][free - |bytes|..];
  }

  class OStream {
    const buffer: array?<Byte>    // null: the stream only counts
    const max: nat
    var at: nat
    var written: nat

    ghost function Cells(): set<object> {
      if buffer == null then {} else {buffer}
    }

    /** max - written bytes are free behind at. */
    ghost predicate Valid()
      reads this
    {
      buffer != null ==> written <= max && at + (max - written) <= buffer.Length
    }

    ghost function Now(): Ink
      reads this, Cells()
      requires Valid()
    {
      if buffer == null then Ink(true, [], written, 0, [])
      else Ink(false, buffer[..at], written, max - written, buffer[at + (max - written)..])
    }

    constructor Sizing()
      ensures Valid() && buffer == null && written == 0 && Now() == Ink(true, [], 0, 0, [])
    {
      buffer, max, at, written := null, 0, 0, 0;
    }

    /** `pb_ostream_from_buffer`, and the substream of `pb_encode_submessage`. */
    constructor Onto(buffer: array<Byte>, at: nat, max: nat)
      requires at + max <= buffer.Length
      ensures Valid() && this.buffer == buffer && this.at == at && this.max == max
      ensures Now() == Ink(false, buffer[..at], 0, max, buffer[at + max..])
    {
      this.buffer, this.max, this.at, written := buffer, max, at, 0;
    }

    /** `buf_write`. */
    method Copy(bytes: seq<Byte>)
      requires buffer != null && at + |bytes| <= buffer.Length
      modifies this`at, Cells()
      ensures at == old(at) + |bytes| && buffer[..at] == old(buffer[..at]) + bytes
      ensures buffer[at..] == old(buffer[at + |bytes|..])
    {
      for i := 0 to |bytes|
        invariant at == old(at)
        invariant forall j :: 0 <= j < buffer.Length ==>
          buffer[j] == if at <= j < at + i then bytes[j - at] else old(buffer[j])
      {
        buffer[at + i] := bytes[i];
      }
      at := at + |bytes|;
    }

    /** `pb_write`. */
    method Write(bytes: seq<Byte>) returns (ok: bool)
      requires Valid()
      modifies this, Cells()
      ensures Valid() && Attempt(old(Now()), Now(), ok, true, bytes)
    {
      if |bytes| > 0 && buffer != null {
        if written + |bytes| > max { return false; }
        Copy(bytes);
        assert buffer[at + (max - written - |bytes|)..] == buffer[at..][max - written - |bytes|..];
      }
      written := written + |bytes|;
      ok := true;
    }

    /** `pb_write` with a null buffer on a stream that only counts. */
    method Count(n: nat)
      requires buffer == null
      modifies this`written
      ensures written == old(written) + n
    {
      written := written + n;
    }

    /** `pb_encode_varint`. */
    method EncodeVarint(value: nat) returns (ok: bool)
      requires Valid()
      modifies this, Cells()
      ensures Valid() && Attempt(old(Now()), Now(), ok, true, PbVarint.Varint(value))
    {
      hide Attempt, Now, Valid;
      if value <= 0x7F {
        ok := Write([value]);
      } else {
        var bytes := Groups(value);
        ok := Write(bytes);
      }
    }

    /** The loop of `pb_encode_varint`; the last byte loses its top bit. */
    static method Groups(value: nat) returns (bytes: seq<Byte>)
      requires value > 0x7F
      ensures bytes == PbVarint.Varint(value)
    {
      bytes := [];
      var v := value;
      ghost var last, init := value, [];
      while v != 0
        invariant v != 0 ==> bytes + PbVarint.Varint(v) == PbVarint.Varint(value)
        invariant v == 0 ==> last < 128 && bytes == init + [last + 128] && init + [last] == PbVarint.Varint(value)
      {
        last, init := v, bytes;
        bytes := bytes + [v % 128 + 128];
        assert v >= 128 ==> bytes + PbVarint.Varint(v / 128) == init + PbVarint.Varint(v);
        v := v / 128;
      }
      bytes := bytes[|bytes| - 1 := bytes[|bytes| - 1] - 128];
      assert bytes == init + [last];
    }

    /** `pb_encode_tag`. */
    method EncodeTag(wireType: nat, tag: nat) returns (ok: bool)
      requires Valid()
      modifies this, Cells()
      ensures Valid() && Attempt(old(Now()), Now(), ok, true, TagBytes(tag, wireType))
    {
      hide Attempt;
      ok := EncodeVarint(tag * 8 + wireType);
    }

    /** `pb_encode_string`. */
    method EncodeString(bytes: seq<Byte>) returns (ok: bool)
      requires Valid()
      modifies this, Cells()
      ensures Valid() && Attempt(old(Now()), Now(), ok, true, Delimited(bytes))
    {
      hide PbVarint.Varint, Attempt, Now, Valid;
      ghost var a := Now();
      ok := EncodeVarint(|bytes|);
      ghost var b := Now();
      if ok {
        ok := Write(bytes);
        Then(a, b, Now(), true, PbVarint.Varint(|bytes|), ok, true, bytes);
      } else {
        Stopped(a, b, true, PbVarint.Varint(|bytes|), true, bytes);
      }
    }

    /** `pb_enc_string`: the text ends at its terminator or where the member ends. */
    method EncodeText(cap: nat, text: seq<Byte>) returns (ok: bool)
      requires Valid() && Typed(Text(cap), Data(text))
      modifies this, Cells()
      ensures Valid() && Attempt(old(Now()), Now(), ok, true, Delimited(text))
    {
      hide Attempt, Now, Valid, Delimited;
      var size := 0;
      while size < cap && size < |text| && text[size] != 0
        invariant size <= |text|
      {
        size := size + 1;
      }
      assert text[..size] == text;
      ok := EncodeString(text[..size]);
    }

    /** The `pb_enc_*` functions. */
    method EncodeValue(k: Kind, v: Value) returns (ok: bool)
      requires Valid() && Typed(k, v)
      modifies this, Cells()
      ensures Valid() && Attempt(old(Now()), Now(), ok, Encodes(k, v), PbEncoding.EncodeValue(k, v))
      decreases k, 0
    {
      hide PbVarint.Varint, Fixed, Delimited, EncodeFrom, EncodesFrom, TypedFrom, Attempt, Now, Valid;
      match k {
        case Bool => ok := EncodeVarint(if v.b then 1 else 0);
        case Varint(_) => ok := EncodeVarint(v.i % TWO64);
        case UVarint(_) => ok := EncodeVarint(v.i % TWO64);
        case SVarint(_) => ok := EncodeVarint(ZigZag(v.i));
        case Fixed32 => ok := Write(Fixed(v.i % TWO32, 4));
        case Fixed64 => ok := Write(Fixed(v.i % TWO64, 8));
        case Bytes(cap) =>
          if |v.bytes| > cap {
            Refused(Now(), PbEncoding.EncodeValue(k, v));
            return false;
          }
          ok := EncodeString(v.bytes);
        case Text(cap) => ok := EncodeText(cap, v.bytes);
        case FixedBytes(length) =>
          assert v.bytes[..length] == v.bytes;
          ok := EncodeString(v.bytes[..length]);
        case Submessage(w) => ok := EncodeSubmessage(w, v.slots);
      }
    }

    /** `pb_encode_submessage`: first the size, then the message. */
    method EncodeSubmessage(w: Schema, m: Slots) returns (ok: bool)
      requires Valid() && TypedFrom(w, 0, m)
      modifies this, Cells()
      ensures Valid() && Attempt(old(Now()), Now(), ok, EncodesFrom(w, 0, m), Delimited(EncodeFrom(w, 0, m)))
      decreases w, 3
    {
      hide PbVarint.Varint, EncodeFrom, EncodesFrom, TypedFrom, Attempt;
      ghost var a, bytes := Now(), EncodeFrom(w, 0, m);
      var sizing := new OStream.Sizing();
      ok := sizing.Encode(w, m);
      if !ok {
        Unsized(sizing.Now(), EncodesFrom(w, 0, m), bytes);
        Refused(a, Delimited(bytes));
        return;
      }
      var size := sizing.written;
      Counted(Ink(true, [], 0, 0, []), sizing.Now(), EncodesFrom(w, 0, m), bytes);
      Succeeded(Ink(true, [], 0, 0, []), sizing.Now(), EncodesFrom(w, 0, m), bytes);
      ok := EncodeVarint(size);
      ghost var b := Now();
      if !ok {
        Stopped(a, b, true, PbVarint.Varint(size), true, bytes);
        return;
      }
      if buffer == null {
        Count(size);
        CountedOn(b, Now(), bytes);
        Then(a, b, Now(), true, PbVarint.Varint(size), true, true, bytes);
        return;
      }
      if written + size > max {
        NoRoom(b, bytes);
        Then(a, b, Now(), true, PbVarint.Varint(size), false, true, bytes);
        return false;
      }
      ok := EncodeBehind(w, m, size);
      Then(a, b, Now(), true, PbVarint.Varint(size), ok, true, bytes);
    }

    lemma Inked()
      requires Valid() && buffer != null
      ensures Now() == Ink(false, buffer[..][..at], written, max - written, buffer[..][at + (max - written)..])
    {
      assert buffer[..][..at] == buffer[..at] && buffer[..][at + (max - written)..] == buffer[at + (max - written)..];
    }

    /** The second pass, on a substream of exactly the size that was counted. */
    method EncodeBehind(w: Schema, m: Slots, size: nat) returns (ok: bool)
      requires Valid() && TypedFrom(w, 0, m) && EncodesFrom(w, 0, m) && size == |EncodeFrom(w, 0, m)|
      requires buffer != null && written + size <= max
      modifies this, Cells()
      ensures Valid() && Attempt(old(Now()), Now(), ok, true, EncodeFrom(w, 0, m))
      decreases w, 2
    {
      hide EncodeFrom, EncodesFrom, EncodesField, TypedFrom, TypedSlot, Attempt, Now;
      ghost var a, before, start, count, free := Now(), buffer[..], at, written, max - written;
      Inked();
      var substream := new OStream.Onto(buffer, at, size);
      substream.Inked();
      ok := substream.Encode(w, m);
      ghost var after := buffer[..];
      substream.Inked();
      Substream(before, after, start, count, free, substream.Now(), ok, EncodeFrom(w, 0, m));
      // "submsg size changed" does not happen
      assert substream.written == size;
      written := written + substream.written;
      at := substream.at;
      Inked();
      assert Attempt(a, Now(), ok, true, EncodeFrom(w, 0, m));
    }

    /** `pb_encode`. */
    method Encode(w: Schema, m: Slots) returns (ok: bool)
      requires Valid() && TypedFrom(w, 0, m)
      modifies this, Cells()
      ensures Valid() && Attempt(old(Now()), Now(), ok, EncodesFrom(w, 0, m), EncodeFrom(w, 0, m))
      decreases w, 1
    {
      hide PbEncoding.EncodeField, TypedSlot, EncodesField, Attempt, Now, Valid, SlotOf;
      ghost var a := Now();
      var iter := new FieldIter(w);
      if w == [] {
        NothingWritten(a);
        return true;
      }
      ghost var n, done := 0, [];
      NothingWritten(a);
      var more := true;
      while more
        invariant Valid() && iter.Valid() && iter.fields == w && n <= |w|
        invariant if more then n < |w| && iter.pos == n else n == |w|
        invariant done + EncodeFrom(w, n, m) == EncodeFrom(w, 0, m)
        invariant EncodesFrom(w, 0, m) <==> EncodesFrom(w, n, m)
        invariant TypedFrom(w, n, m) && Attempt(a, Now(), true, true, done)
        decreases |w| - n
      {
        ghost var b := Now();
        ghost var bytes, rest := PbEncoding.EncodeField(w[n], Get(m, SlotOf(w, n))), EncodeFrom(w, n + 1, m);
        assert EncodeFrom(w, 0, m) == done + bytes + rest;
        ok := EncodeField(w[iter.pos], Get(m, iter.slot));
        if !ok {
          Then(a, b, Now(), true, done, false, EncodesField(w[n], Get(m, SlotOf(w, n))), bytes);
          Stopped(a, Now(), EncodesField(w[n], Get(m, SlotOf(w, n))), done + bytes, EncodesFrom(w, n + 1, m), rest);
          return;
        }
        Then(a, b, Now(), true, done, true, EncodesField(w[n], Get(m, SlotOf(w, n))), bytes);
        Succeeded(b, Now(), EncodesField(w[n], Get(m, SlotOf(w, n))), bytes);
        done := done + bytes;
        n := n + 1;
        more := iter.Next();
      }
      assert done + [] == done;
      ok := true;
    }

    /** `pb_encode_delimited`. */
    method EncodeDelimited(w: Schema, m: Slots) returns (ok: bool)
      requires Valid() && TypedFrom(w, 0, m)
      modifies this, Cells()
      ensures Valid() && Attempt(old(Now()), Now(), ok, EncodesFrom(w, 0, m), Delimited(EncodeFrom(w, 0, m)))
    {
      hide Attempt, Now, Valid, EncodesFrom, EncodeFrom, TypedFrom;
      ok := EncodeSubmessage(w, m);
    }

    /** `pb_encode_nullterminated`. */
    method EncodeNullTerminated(w: Schema, m: Slots) returns (ok: bool)
      requires Valid() && TypedFrom(w, 0, m)
      modifies this, Cells()
      ensures Valid() && Attempt(old(Now()), Now(), ok, EncodesFrom(w, 0, m), EncodeFrom(w, 0, m) + [0])
    {
      hide Attempt, Now, Valid, EncodesFrom, EncodeFrom, TypedFrom;
      ghost var a := Now();
      ok := Encode(w, m);
      ghost var b := Now();
      if ok {
        ok := Write([0]);
        Then(a, b, Now(), EncodesFrom(w, 0, m), EncodeFrom(w, 0, m), ok, true, [0]);
      } else {
        Stopped(a, b, EncodesFrom(w, 0, m), EncodeFrom(w, 0, m), true, [0]);
      }
    }

    /** A tag and a value. */
    method EncodeRecord(f: Field, v: Value) returns (ok: bool)
      requires Valid() && Typed(f.kind, v)
      modifies this, Cells()
      ensures Valid() && Attempt(old(Now()), Now(), ok, Encodes(f.kind, v), Record(f, v))
      decreases f, 0
    {
      hide TagBytes, PbEncoding.EncodeValue, Attempt, Now, Valid, Encodes, Typed;
      ghost var a, tag, bytes := Now(), TagBytes(f.tag, f.kind.WireType()), PbEncoding.EncodeValue(f.kind, v);
      ok := EncodeTag(f.kind.WireType(), f.tag);
      ghost var b := Now();
      if ok {
        ok := EncodeValue(f.kind, v);
        Then(a, b, Now(), true, tag, ok, Encodes(f.kind, v), bytes);
      } else {
        Stopped(a, b, true, tag, Encodes(f.kind, v), bytes);
      }
    }

    /** The elements of a packed array. */
    method EncodeElements(k: Kind, vs: seq<Value>) returns (ok: bool)
      requires Valid() && k.Packable() && forall i :: 0 <= i < |vs| ==> Typed(k, vs[i])
      modifies this, Cells()
      ensures Valid() && Attempt(old(Now()), Now(), ok, true, Elements(k, vs))
      decreases k, 1
    {
      hide PbEncoding.EncodeValue, Attempt, Now, Valid, Typed;
      ghost var a, done := Now(), [];
      NothingWritten(a);
      var n := 0;
      while n < |vs|
        invariant Valid() && n <= |vs| && Attempt(a, Now(), true, true, done)
        invariant done + Elements(k, vs[n..]) == Elements(k, vs)
      {
        ghost var b, bytes, rest := Now(), PbEncoding.EncodeValue(k, vs[n]), Elements(k, vs[n + 1..]);
        assert vs[n..][0] == vs[n] && vs[n..][1..] == vs[n + 1..];
        assert Elements(k, vs) == done + bytes + rest;
        Plain(k, vs[n]);
        ok := EncodeValue(k, vs[n]);
        Then(a, b, Now(), true, done, ok, true, bytes);
        if !ok {
          Stopped(a, Now(), true, done + bytes, true, rest);
          return;
        }
        done := done + bytes;
        n := n + 1;
      }
      assert vs[n..] == [] && done + [] == done;
      ok := true;
    }

    /** One tag for each element. */
    method EncodeRecords(f: Field, vs: seq<Value>) returns (ok: bool)
      requires Valid() && forall i :: 0 <= i < |vs| ==> Typed(f.kind, vs[i])
      modifies this, Cells()
      ensures Valid() && Attempt(old(Now()), Now(), ok, EncodesAll(f.kind, vs), Records(f, vs))
      decreases f, 1
    {
      hide Record, Attempt, Now, Valid, Typed, Encodes;
      ghost var a, done := Now(), [];
      NothingWritten(a);
      var n := 0;
      while n < |vs|
        invariant Valid() && n <= |vs| && Attempt(a, Now(), true, true, done)
        invariant done + Records(f, vs[n..]) == Records(f, vs) && forall i :: 0 <= i < n ==> Encodes(f.kind, vs[i])
      {
        ghost var b, bytes, rest, good := Now(), Record(f, vs[n]), Records(f, vs[n + 1..]), Encodes(f.kind, vs[n]);
        assert vs[n..][0] == vs[n] && vs[n..][1..] == vs[n + 1..];
        assert Records(f, vs) == done + bytes + rest;
        ok := EncodeRecord(f, vs[n]);
        Then(a, b, Now(), true, done, ok, good, bytes);
        if !ok {
          Stopped(a, Now(), good, done + bytes, EncodesAll(f.kind, vs), rest);
          return;
        }
        Succeeded(b, Now(), good, bytes);
        done := done + bytes;
        n := n + 1;
      }
      assert vs[n..] == [] && done + [] == done;
      ok := true;
    }

    /** The size of a packed array. */
    method PackedSize(k: Kind, vs: seq<Value>) returns (size: nat)
      requires k.Packable() && forall i :: 0 <= i < |vs| ==> Typed(k, vs[i])
      ensures size == |Elements(k, vs)|
      decreases k, 2
    {
      hide Elements, Typed, Attempt;
      if k.Fixed32? {
        FixedSize(k, vs);
        size := 4 * |vs|;
      } else if k.Fixed64? {
        FixedSize(k, vs);
        size := 8 * |vs|;
      } else {
        var sizing := new OStream.Sizing();
        var ok := sizing.EncodeElements(k, vs);
        SizingSucceeds(sizing.Now(), ok, Elements(k, vs));
        size := sizing.written;
      }
    }

    /** `encode_array`. */
    method EncodeArray(f: Field, vs: seq<Value>) returns (ok: bool)
      requires Valid() && f.rule.Repeated? && forall i :: 0 <= i < |vs| ==> Typed(f.kind, vs[i])
      modifies this, Cells()
      ensures Valid()
      ensures Attempt(old(Now()), Now(), ok, EncodesField(f, Many(vs)), PbEncoding.EncodeField(f, Many(vs)))
      decreases f, 2
    {
      hide Attempt, Now, Valid, Typed, Records, PackedRecord, EncodesAll;
      if |vs| == 0 {
        NoneEncode(f.kind);
        NothingWritten(Now());
        return true;
      }
      if |vs| > f.rule.max {
        Refused(Now(), PbEncoding.EncodeField(f, Many(vs)));
        return false;
      }
      if f.kind.Packable() {
        AllPlain(f.kind, vs);
        ok := EncodePacked(f, vs);
      } else {
        ok := EncodeRecords(f, vs);
      }
    }

    method EncodePacked(f: Field, vs: seq<Value>) returns (ok: bool)
      requires Valid() && f.kind.Packable() && forall i :: 0 <= i < |vs| ==> Typed(f.kind, vs[i])
      modifies this, Cells()
      ensures Valid() && Attempt(old(Now()), Now(), ok, true, PackedRecord(f, vs))
      decreases f, 1
    {
      hide Attempt, Typed, Elements, TagBytes, PbVarint.Varint;
      ghost var a, tag, bytes := Now(), TagBytes(f.tag, 2), Elements(f.kind, vs);
      ghost var length := PbVarint.Varint(|bytes|);
      assert tag + (length + bytes) == tag + length + bytes;
      ok := EncodeTag(2, f.tag);
      ghost var b := Now();
      if !ok {
        Stopped(a, b, true, tag, true, length + bytes);
        return;
      }
      var size := PackedSize(f.kind, vs);
      ok := EncodeVarint(size);
      ghost var c := Now();
      Then(a, b, c, true, tag, ok, true, length);
      if !ok {
        Stopped(a, c, true, tag + length, true, bytes);
        return;
      }
      if buffer == null {
        Count(size);
        CountedOn(c, Now(), bytes);
        Then(a, c, Now(), true, tag + length, true, true, bytes);
        return;
      }
      ok := EncodeElements(f.kind, vs);
      Then(a, c, Now(), true, tag + length, ok, true, bytes);
    }

    /** `encode_basic_field`. */
    method EncodeField(f: Field, s: Slot) returns (ok: bool)
      requires Valid() && TypedSlot(f, s)
      modifies this, Cells()
      ensures Valid() && Attempt(old(Now()), Now(), ok, EncodesField(f, s), PbEncoding.EncodeField(f, s))
      decreases f, 3
    {
      hide Attempt, Now, Valid, Typed, Record, IsEmpty, Encodes;
      match f.rule
      case Required =>
        ok := EncodeRecord(f, s.value);
      case Optional =>
        ok := true;
        NothingWritten(Now());
        if s.has { ok := EncodeRecord(f, s.value); }
      case Singular =>
        ok := true;
        NothingWritten(Now());
        if !IsEmpty(f.kind, s.value) { ok := EncodeRecord(f, s.value); }
      case Repeated(_) =>
        ok := EncodeArray(f, s.items);
      case Oneof =>
        ok := true;
        NothingWritten(Now());
        if s.which == f.tag { ok := EncodeRecord(f, s.value); }
    }
  }

  lemma Plain(k: Kind, v: Value)
    requires k.Packable()
    ensures Encodes(k, v)
  {
  }

  lemma AllPlain(k: Kind, vs: seq<Value>)
    requires k.Packable()
    ensures EncodesAll(k, vs)
  {
  }

  lemma NoneEncode(k: Kind)
    ensures EncodesAll(k, [])
  {
  }

  lemma {:induction false} FixedSize(k: Kind, vs: seq<Value>)
    requires (k.Fixed32? || k.Fixed64?) && forall i :: 0 <= i < |vs| ==> Typed(k, vs[i])
    ensures |Elements(k, vs)| == (if k.Fixed32? then 4 else 8) * |vs|
  {
    hide Fixed;
    if vs != [] { FixedSize(k, vs[1..]); }
  }

  lemma SizingSucceeds(b: Ink, ok: bool, bytes: seq<Byte>)
    requires Attempt(Ink(true, [], 0, 0, []), b, ok, true, bytes)
    ensures ok && b.written == |bytes|
  {
  }

  /** `pb_get_encoded_size`: for a message that can be encoded, exactly the bytes that encoding writes. */
  method EncodedSize(w: Schema, m: Slots) returns (size: Option<nat>)
    requires TypedFrom(w, 0, m)
    ensures size == if EncodesFrom(w, 0, m) then Some(|PbEncoding.Encode(w, m)|) else None
  {
    hide EncodesFrom, EncodeFrom, TypedFrom;
    var sizing := new OStream.Sizing();
    var ok := sizing.Encode(w, m);
    size := if ok then Some(sizing.written) else None;
  }

  /** `pb_encode` into a buffer: it succeeds if and only if the message fits, and nothing is written behind
      the part of the buffer that was given. */
  method EncodeInto(buffer: array<Byte>, limit: nat, w: Schema, m: Slots) returns (ok: bool, size: nat)
    requires TypedFrom(w, 0, m) && limit <= buffer.Length
    modifies buffer
    ensures ok <==> EncodesFrom(w, 0, m) && |PbEncoding.Encode(w, m)| <= limit
    ensures ok ==> size == |PbEncoding.Encode(w, m)| && buffer[..size] == PbEncoding.Encode(w, m)
    ensures buffer[limit..] == old(buffer[limit..])
  {
    hide EncodesFrom, EncodeFrom, TypedFrom;
    var stream := new OStream.Onto(buffer, 0, limit);
    assert buffer[..0] == [];
    ok := stream.Encode(w, m);
    size := stream.written;
  }

  lemma Unsized(b: Ink, good: bool, bytes: seq<Byte>)
    requires Attempt(Ink(true, [], 0, 0, []), b, false, good, bytes)
    ensures !good
  {
  }

  lemma Succeeded(a: Ink, b: Ink, good: bool, bytes: seq<Byte>)
    requires Attempt(a, b, true, good, bytes)
    ensures good
  {
  }

  lemma NoRoom(a: Ink, bytes: seq<Byte>)
    requires !a.counting && |bytes| > a.free
    ensures Attempt(a, a, false, true, bytes)
  {
  }

  lemma CountedOn(a: Ink, b: Ink, bytes: seq<Byte>)
    requires a.counting && b == a.(written := a.written + |bytes|)
    ensures Attempt(a, b, true, true, bytes)
  {
  }
}
