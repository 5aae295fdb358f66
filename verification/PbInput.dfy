// nanopb's decoder (pb_decode.c) on its input stream.

/** The bitmap of required fields: two 32-bit words. */
module PbBitmaps {
  import opened Bits

  /** The word whose lowest bit stands for index lo: bit i is set if lo + i is in the set. */
  function Word(s: set<nat>, lo: nat, n: nat): nat
    decreases n
  {
    if n == 0 then 0 else (if lo in s then 1 else 0) + 2 * Word(s, lo + 1, n - 1)
  }

  lemma OrBit(x: nat, y: nat, b: nat, c: nat)
    requires b < 2 && c < 2
    ensures Or(b + 2 * x, c + 2 * y) == (if b == 1 || c == 1 then 1 else 0) + 2 * Or(x, y)
  {
    OrZero(x);
    OrZero(y);
    assert (b + 2 * x) / 2 == x && (c + 2 * y) / 2 == y;
    assert (b + 2 * x) % 2 == b && (c + 2 * y) % 2 == c;
  }

  lemma {:induction false} SetBit(s: set<nat>, lo: nat, n: nat, i: nat)
    requires i < n
    ensures Or(Word(s, lo, n), Pow2(i)) == Word(s + {lo + i}, lo, n)
    decreases n
  {
    hide Or;
    var b := if lo in s then 1 else 0;
    if i == 0 {
      OrBit(Word(s, lo + 1, n - 1), 0, b, 1);
      OrZero(Word(s, lo + 1, n - 1));
      Elsewhere(s, lo, lo + 1, n - 1);
    } else {
      SetBit(s, lo + 1, n - 1, i - 1);
      OrBit(Word(s, lo + 1, n - 1), Pow2(i - 1), b, 0);
      assert lo + 1 + (i - 1) == lo + i;
    }
  }

  /** Another word. */
  lemma {:induction false} Elsewhere(s: set<nat>, j: nat, lo: nat, n: nat)
    requires j < lo || lo + n <= j
    ensures Word(s + {j}, lo, n) == Word(s, lo, n)
    decreases n
  {
    if n > 0 { Elsewhere(s, j, lo + 1, n - 1); }
  }

  /** A word equals the mask of its k lowest bits exactly if these bits are set and no others. */
  lemma {:induction false} IsMask(s: set<nat>, lo: nat, n: nat, k: nat)
    requires k <= n
    ensures Word(s, lo, n) == Pow2(k) - 1 <==> forall i: nat :: lo <= i < lo + n ==> (i in s <==> i < lo + k)
    decreases n
  {
    if n > 0 {
      if k > 0 {
        IsMask(s, lo + 1, n - 1, k - 1);
      } else {
        IsMask(s, lo + 1, n - 1, 0);
      }
      assert Pow2(0) == 1;
    }
  }
}

/** The required fields that were seen, as positions, as indices and as bits. */
module PbRequired {
  import opened Bits
  import opened PbSchemas
  import opened PbDecoding
  import opened PbFieldIters
  import opened PbBitmaps

  /** The indices of the fields in seen. */
  ghost predicate Tracks(w: Schema, seen: set<nat>, bits: set<nat>) {
    && (forall p :: p in seen ==> Tracked(w, p) && RequiredBefore(w, p) in bits)
    && (forall i :: i in bits ==> exists p :: p in seen && RequiredBefore(w, p) == i)
  }

  function Limit(w: Schema): nat {
    if RequiredBefore(w, |w|) < MAX_REQUIRED then RequiredBefore(w, |w|) else MAX_REQUIRED
  }

  lemma {:induction false} EveryIndex(w: Schema, n: nat, i: nat) returns (p: nat)
    requires n <= |w| && i < RequiredBefore(w, n)
    ensures p < n && w[p].rule.Required? && RequiredBefore(w, p) == i
  {
    if i < RequiredBefore(w, n - 1) { p := EveryIndex(w, n - 1, i); } else { p := n - 1; }
  }

  /** All tracked fields are seen exactly if all their bits are set. */
  lemma AllBits(w: Schema, seen: set<nat>, bits: set<nat>)
    requires Tracks(w, seen, bits)
    ensures forall i :: i in bits ==> i < Limit(w)
    ensures AllSeen(w, seen) <==> forall i: nat :: i < Limit(w) ==> i in bits
  {
    forall i | i in bits ensures i < Limit(w) {
      var p :| p in seen && RequiredBefore(w, p) == i;
      RequiredGrows(w, p, |w|);
    }
    if AllSeen(w, seen) {
      forall i: nat | i < Limit(w) ensures i in bits {
        var p := EveryIndex(w, |w|, i);
        assert Tracked(w, p);
      }
    }
    if forall i: nat :: i < Limit(w) ==> i in bits {
      forall p: nat | Tracked(w, p) ensures p in seen {
        RequiredGrows(w, p, |w|);
        var i := RequiredBefore(w, p);
        assert i in bits;
        var q :| q in seen && RequiredBefore(w, q) == i;
        if p < q { RequiredGrows(w, p, q); }
        if q < p { RequiredGrows(w, q, p); }
      }
    }
  }

  lemma MarkTracks(w: Schema, seen: set<nat>, bits: set<nat>, p: nat)
    requires Tracks(w, seen, bits) && Tracked(w, p)
    ensures Tracks(w, Mark(w, p, seen), bits + {RequiredBefore(w, p)})
  {
    var seen' := Mark(w, p, seen);
    forall i | i in bits + {RequiredBefore(w, p)} ensures exists q :: q in seen' && RequiredBefore(w, q) == i {
      if i in bits {
        var q :| q in seen && RequiredBefore(w, q) == i;
        assert q in seen';
      } else {
        assert p in seen';
      }
    }
  }

  /** The two words of the bitmap. */
  ghost predicate Holds(words: seq<nat>, bits: set<nat>) {
    |words| == 2 && words[0] == Word(bits, 0, 32) && words[1] == Word(bits, 32, 32)
  }

  method SetRequired(words: seq<nat>, index: nat, ghost bits: set<nat>) returns (r: seq<nat>)
    requires Holds(words, bits) && index < MAX_REQUIRED
    ensures Holds(r, bits + {index}) && |r| == 2
  {
    hide Word, Or, Pow2;
    var tmp := Pow2(index % 32);
    r := words[index / 32 := Or(words[index / 32], tmp)];
    if index < 32 {
      SetBit(bits, 0, 32, index);
      Elsewhere(bits, index, 32, 32);
    } else {
      SetBit(bits, 32, 32, index - 32);
      Elsewhere(bits, index, 0, 32);
    }
  }

  /** The check at the end of `pb_decode_noinit`: seek to the end of the fields to count the required ones,
      and compare the bitmap with the mask of so many bits. */
  method CheckRequired(iter: FieldIter, words: seq<nat>, ghost seen: set<nat>, ghost bits: set<nat>) returns (ok: bool)
    requires iter.Valid() && (iter.fields != [] ==> Holds(words, bits) && Tracks(iter.fields, seen, bits))
    requires |words| == 2
    modifies iter
    ensures ok <==> AllSeen(iter.fields, seen)
  {
    hide Word, Pow2, Tracks;
    var w := iter.fields;
    var count, last := iter.requiredIndex, iter.pos;
    var more := iter.Next();
    while more
      invariant iter.Valid() && iter.fields == w
      invariant w != [] ==> last < |w| && count == RequiredBefore(w, last)
      invariant w != [] ==> (more ==> iter.pos == last + 1) && (!more ==> last + 1 == |w|)
      invariant w == [] ==> !more && count == 0
      decreases |w| - last, more
    {
      count, last := iter.requiredIndex, iter.pos;
      more := iter.Next();
    }
    if w == [] { return true; }
    if w[last].rule.Required? { count := count + 1; }
    assert count == RequiredBefore(w, |w|);
    if count > MAX_REQUIRED { count := MAX_REQUIRED; }
    AllBits(w, seen, bits);
    ok := Compare(words, count, bits);
  }

  method Compare(words: seq<nat>, count: nat, ghost bits: set<nat>) returns (ok: bool)
    requires Holds(words, bits) && count <= MAX_REQUIRED && forall i :: i in bits ==> i < count
    ensures ok <==> forall i: nat :: i < count ==> i in bits
  {
    hide Word, Pow2;
    IsMask(bits, 0, 32, if count < 32 then count else 32);
    IsMask(bits, 32, 32, if count < 32 then 0 else count - 32);
    var i := 0;
    while i < count / 32
      invariant 0 <= i <= count / 32
      invariant forall j :: 0 <= j < i ==> words[j] == Pow2(32) - 1
    {
      if words[i] != Pow2(32) - 1 { return false; }
      i := i + 1;
    }
    if count % 32 != 0 {
      if words[count / 32] != Pow2(count % 32) - 1 { return false; }
    }
    ok := true;
  }
}

module PbInputs {
  import opened Basics
  import opened Bits
  import opened PbVarint
  import opened PbSchemas
  import opened PbDecoding
  import opened PbDecodeIsMerge
  import opened PbFreshMessages
  import opened PbFieldIters
  import opened PbRequired

  class IStream {
    const data: seq<Byte>
    var pos: nat      // state
    var left: nat     // bytes_left

    ghost predicate Valid()
      reads this
    {
      pos + left <= |data|
    }

    ghost function Rest(): seq<Byte>
      reads this
      requires Valid()
    {
      data[pos..pos + left]
    }

    /** What every read keeps: the stream still ends where it did. */
    twostate predicate Moved()
      reads this
    {
      Valid() && pos + left == old(pos + left) && left <= old(left)
    }

    /** A failing read of a nested message may leave the stream short of where it should be. */
    twostate predicate Within()
      reads this
    {
      Valid() && pos + left <= old(pos + left) && left <= old(left)
    }

    /** `pb_istream_from_buffer`, and the substream of `pb_make_string_substream`. */
    constructor (data: seq<Byte>, pos: nat, left: nat)
      requires pos + left <= |data|
      ensures Valid() && this.data == data && this.pos == pos && this.left == left
    {
      this.data, this.pos, this.left := data, pos, left;
    }

    /** `pb_read`. */
    method Read(count: nat) returns (ok: bool, bytes: seq<Byte>)
      requires Valid()
      modifies this
      ensures Moved() && (ok <==> count <= old(left))
      ensures ok ==> bytes == old(Rest())[..count] && Rest() == old(Rest())[count..]
      ensures !ok ==> Rest() == old(Rest())
    {
      if count == 0 { return true, []; }
      if left < count { return false, []; }
      bytes := data[pos..pos + count];
      pos, left := pos + count, left - count;
      ok := true;
    }

    /** `pb_readbyte`. */
    method ReadByte() returns (ok: bool, b: Byte)
      requires Valid()
      modifies this
      ensures Moved() && (ok <==> old(left) > 0)
      ensures ok ==> b == old(Rest())[0] && Rest() == old(Rest())[1..] && left < old(left)
      ensures !ok ==> Rest() == old(Rest())
    {
      if left == 0 { return false, 0; }
      b := data[pos];
      pos, left := pos + 1, left - 1;
      ok := true;
    }

    /** `pb_decode_varint32_eof`. */
    method DecodeVarint32() returns (ok: bool, dest: nat, eof: bool)
      requires Valid()
      modifies this
      ensures Moved() && (ok <==> Varint32(old(Rest())).Some?)
      ensures ok ==> Varint32(old(Rest())) == Some(Got(dest, Rest()))
      ensures eof <==> old(left) == 0
    {
      hide Or, Pow2, Shifted;
      ghost var s := Rest();
      dest, eof := 0, false;
      var b: Byte;
      ok, b := ReadByte();
      if !ok {
        eof := true;
        return;
      }
      if b < 128 {
        dest := b;
        return;
      }
      var bitpos: nat, result: nat, more := 7, b as int % 128, true;
      while more
        invariant Moved() && bitpos < 256
        invariant more ==> Varint32(s) == Varint32Loop(Rest(), bitpos, result)
        invariant !more ==> Varint32(s) == if bitpos == 35 && b / 16 % 8 != 0 then None else Some(Got(result, Rest()))
        decreases more, left
      {
        ok, b := ReadByte();
        if !ok { return; }
        if bitpos >= 32 {
          var signExtension := if bitpos < 63 then 255 else 1;
          if b % 128 != 0 && (result < TWO31 || b != signExtension) {
            return false, 0, false;
          }
        } else {
          result := Or(result, Shifted(b as int % 128, bitpos, TWO32));
        }
        bitpos := (bitpos + 7) % 256;
        more := b >= 128;
      }
      if bitpos == 35 && b / 16 % 8 != 0 {
        return false, 0, false;
      }
      ok, dest := true, result;
    }

    /** `pb_decode_varint`. */
    method DecodeVarint() returns (ok: bool, dest: nat)
      requires Valid()
      modifies this
      ensures Moved() && (ok <==> Varint64(old(Rest())).Some?)
      ensures ok ==> Varint64(old(Rest())) == Some(Got(dest, Rest()))
    {
      hide Or, Pow2, Shifted;
      ghost var s := Rest();
      var bitpos, result, more, b: nat := 0, 0, true, 0;
      while more
        invariant Moved()
        invariant Varint64(s) == if more then Varint64Loop(Rest(), bitpos, result) else Some(Got(result, Rest()))
        decreases more, left
      {
        if bitpos >= 64 { return false, 0; }
        ok, b := ReadByte();
        if !ok { return false, 0; }
        result := Or(result, Shifted(b as int % 128, bitpos, TWO64));
        bitpos := bitpos + 7;
        more := b >= 128;
      }
      ok, dest := true, result;
    }

    /** `pb_skip_varint`. */
    method SkipVarint() returns (ok: bool)
      requires Valid()
      modifies this
      ensures Moved() && (ok <==> PbDecoding.SkipVarint(old(Rest())).Some?)
      ensures ok ==> PbDecoding.SkipVarint(old(Rest())) == Some(Rest())
    {
      ghost var s := Rest();
      var more := true;
      while more
        invariant Moved() && PbDecoding.SkipVarint(s) == if more then PbDecoding.SkipVarint(Rest()) else Some(Rest())
        decreases more, left
      {
        var bytes;
        ok, bytes := Read(1);
        if !ok { return; }
        more := bytes[0] >= 128;
      }
      ok := true;
    }

    /** `pb_make_string_substream`: the bytes are taken from the parent, which is left behind its length. */
    method MakeSubstream() returns (ok: bool, substream: IStream?)
      requires Valid()
      modifies this
      ensures Within()
      ensures ok <==> Prefixed(old(Rest())).Some?
      ensures ok ==> fresh(substream) && substream.Valid() && substream.data == data && substream.left < old(left)
      ensures ok ==> substream.pos == pos && pos + substream.left + left == old(pos + left) && left < old(left)
      ensures ok ==> Prefixed(old(Rest())) == Some(Got(substream.Rest(), data[pos + substream.left..old(pos + left)]))
    {
      hide Varint32;
      var size, eof;
      ok, size, eof := DecodeVarint32();
      substream := null;
      if !ok { return; }
      if left < size { return false, null; }
      substream := new IStream(data, pos, size);
      assert Rest()[..size] == substream.Rest() && Rest()[size..] == data[pos + size..pos + left];
      left := left - size;
    }

    /** `pb_close_string_substream`: what the reader left of the substream is skipped. */
    method CloseSubstream(substream: IStream)
      requires substream != this && substream.Valid() && substream.data == data
      requires substream.pos + substream.left + left <= |data|
      modifies this`pos, substream
      ensures Valid() && pos == old(substream.pos + substream.left)
    {
      if substream.left != 0 {
        var ok, skipped := substream.Read(substream.left);
      }
      pos := substream.pos;
    }

    /** `pb_skip_field`. */
    method SkipField(wireType: nat) returns (ok: bool)
      requires Valid()
      modifies this
      ensures Moved() && (ok <==> Skip(wireType, old(Rest())).Some?)
      ensures ok ==> Skip(wireType, old(Rest())) == Some(Rest())
    {
      hide Varint32, PbDecoding.SkipVarint;
      var bytes, length, eof;
      if wireType == 0 {
        ok := SkipVarint();
      } else if wireType == 1 {
        ok, bytes := Read(8);
      } else if wireType == 2 {
        ok, length, eof := DecodeVarint32();
        if ok { ok, bytes := Read(length); }
      } else if wireType == 5 {
        ok, bytes := Read(4);
      } else {
        ok := false;
      }
    }

    /** `pb_decode_tag`; eof also for the zero that may end a message. */
    method DecodeTag() returns (ok: bool, wireType: nat, tag: nat, eof: bool)
      requires Valid()
      modifies this
      ensures Moved()
      ensures ok ==> Varint32(old(Rest())) == Some(Got(tag * 8 + wireType, Rest()))
      ensures ok ==> wireType < 8 && tag * 8 + wireType != 0
      ensures !ok && eof ==> old(left) == 0 || Varint32(old(Rest())) == Some(Got(0, Rest()))
      ensures !ok && !eof ==> Varint32(old(Rest())) == None
    {
      hide Varint32;
      var temp;
      ok, temp, eof := DecodeVarint32();
      wireType, tag := 0, 0;
      if !ok { return; }
      if temp == 0 { return false, 0, 0, true; }
      tag, wireType := temp / 8, temp % 8;
    }

    // ----- values

    /** `pb_dec_varint`, `pb_dec_uvarint` and `pb_dec_svarint`. */
    method DecodeInteger(k: Kind) returns (ok: bool, v: Value)
      requires Valid() && (k.Varint? || k.UVarint? || k.SVarint?)
      modifies this
      ensures Moved() && (ok <==> DecodeScalar(k, old(Rest())).Some?)
      ensures ok ==> DecodeScalar(k, old(Rest())) == Some(Got(v, Rest()))
    {
      hide Varint64, NarrowVarint, NarrowSVarint;
      var n: nat;
      ok, n := DecodeVarint();
      v := Number(n);
      if !ok { return; }
      match k
      case Varint(x) =>
        var i := NarrowVarint(x, n);
        if i.None? { return false, v; }
        v := Number(i.value);
      case UVarint(x) =>
        if n >= x.Span() { return false, v; }
      case SVarint(x) =>
        var i := NarrowSVarint(x, n);
        if i.None? { return false, v; }
        v := Number(i.value);
    }

    /** `pb_dec_bytes`, `pb_dec_string` and `pb_dec_fixed_length_bytes`. */
    method DecodeBlock(k: Kind) returns (ok: bool, v: Value)
      requires Valid() && (k.Bytes? || k.Text? || k.FixedBytes?)
      modifies this
      ensures Moved() && (ok <==> DecodeScalar(k, old(Rest())).Some?)
      ensures ok ==> DecodeScalar(k, old(Rest())) == Some(Got(v, Rest()))
    {
      hide Varint32, CString;
      var n: nat, eof, bytes;
      v := Flag(false);
      ok, n, eof := DecodeVarint32();
      if !ok { return; }
      match k
      case Bytes(cap) =>
        if n > cap { return false, v; }
        ok, bytes := Read(n);
        v := Data(bytes);
      case Text(cap) =>
        if n + 1 > cap { return false, v; }
        ok, bytes := Read(n);
        v := Data(CString(bytes));
      case FixedBytes(length) =>
        if n == 0 { return true, Data(Zeros(length)); }
        if n != length { return false, v; }
        ok, bytes := Read(length);
        v := Data(bytes);
    }

    /** `pb_dec_fixed32` and `pb_dec_fixed64`. */
    method DecodeFixedWidth(k: Kind) returns (ok: bool, v: Value)
      requires Valid() && (k.Fixed32? || k.Fixed64?)
      modifies this
      ensures Moved() && (ok <==> DecodeScalar(k, old(Rest())).Some?)
      ensures ok ==> DecodeScalar(k, old(Rest())) == Some(Got(v, Rest()))
    {
      hide DecodeFixed;
      var bytes;
      ok, bytes := Read(if k.Fixed32? then 4 else 8);
      v := Number(DecodeFixed(bytes));
    }

    /** `pb_dec_bool`. */
    method DecodeBool() returns (ok: bool, v: Value)
      requires Valid()
      modifies this
      ensures Moved() && (ok <==> DecodeScalar(Bool, old(Rest())).Some?)
      ensures ok ==> DecodeScalar(Bool, old(Rest())) == Some(Got(v, Rest()))
    {
      hide Varint32;
      var n: nat, eof;
      ok, n, eof := DecodeVarint32();
      v := Flag(n != 0);
    }

    /** The `pb_dec_*` functions but that for submessages. */
    method DecodePlain(k: Kind) returns (ok: bool, v: Value)
      requires Valid() && !k.Submessage?
      modifies this
      ensures Moved() && (ok <==> DecodeScalar(k, old(Rest())).Some?)
      ensures ok ==> DecodeScalar(k, old(Rest())) == Some(Got(v, Rest())) && left < old(left)
    {
      hide DecodeScalar;
      ScalarConsumes(k, Rest());
      if k.Bool? {
        ok, v := DecodeBool();
      } else if k.Fixed32? || k.Fixed64? {
        ok, v := DecodeFixedWidth(k);
      } else if k.Bytes? || k.Text? || k.FixedBytes? {
        ok, v := DecodeBlock(k);
      } else {
        ok, v := DecodeInteger(k);
      }
    }

    // ----- messages

    /** `pb_dec_submessage`; the substream is closed whether or not its message was good. */
    method DecodeSubmessage(w: Schema, current: Slots) returns (ok: bool, m: Slots)
      requires Valid() && Good(w)
      modifies this
      ensures Within() && (ok ==> Moved() && left < old(left))
      ensures ok <==> DecodeValue(Submessage(w), Message(current), old(Rest())).Some?
      ensures ok ==> DecodeValue(Submessage(w), Message(current), old(Rest())) == Some(Got(Message(m), Rest()))
      decreases left, 0
    {
      hide Prefixed, DecodeLoop, Good;
      var substream;
      ok, substream := MakeSubstream();
      m := current;
      if !ok { return; }
      ok, m := substream.DecodeNoInit(w, current);
      CloseSubstream(substream);
    }

    /** The decoder of a kind of value. */
    method DecodeOne(k: Kind, current: Value) returns (ok: bool, v: Value)
      requires Valid() && (k.Submessage? ==> Good(k.schema))
      modifies this
      ensures Within() && (ok ==> Moved() && left < old(left))
      ensures ok <==> DecodeValue(k, current, old(Rest())).Some?
      ensures ok ==> DecodeValue(k, current, old(Rest())) == Some(Got(v, Rest()))
      decreases left, 1
    {
      hide DecodeLoop, DecodeScalar, Good;
      if k.Submessage? {
        var m;
        ok, m := DecodeSubmessage(k.schema, SlotsIn(current));
        v := Message(m);
      } else {
        ok, v := DecodePlain(k);
      }
    }

    /** The packed branch of `decode_static_field`. */
    method DecodePackedArray(k: Kind, max: nat, items: seq<Value>) returns (ok: bool, r: seq<Value>)
      requires Valid() && k.Packable()
      modifies this
      ensures Within() && (ok ==> Moved() && left < old(left))
      ensures ok <==>
        Prefixed(old(Rest())).Some? && DecodePacked(k, max, items, Prefixed(old(Rest())).value.value).Some?
      ensures ok ==> DecodePacked(k, max, items, Prefixed(old(Rest())).value.value) == Some(r)
      ensures ok ==> Rest() == Prefixed(old(Rest())).value.rest
      decreases left, 0
    {
      hide Prefixed, DecodeScalar;
      var substream;
      ok, substream := MakeSubstream();
      r := items;
      if !ok { return; }
      ghost var s := substream.Rest();
      ghost var end := substream.pos + substream.left;
      var status := true;
      while status && substream.left > 0 && |r| < max
        invariant substream.Valid() && substream.pos + substream.left == end && substream.left <= |s|
        invariant if status then DecodePacked(k, max, items, s) == DecodePacked(k, max, r, substream.Rest())
                  else DecodePacked(k, max, items, s) == None
        modifies substream
        decreases status, substream.left
      {
        var v;
        status, v := substream.DecodePlain(k);
        if status { r := r + [v]; }
      }
      if substream.left != 0 { return false, r; }
      CloseSubstream(substream);
      ok := status;
    }

    /** `decode_static_field`. */
    method DecodeField(f: Field, slot: Slot, wireType: nat) returns (ok: bool, r: Slot)
      requires Valid() && GoodField(f)
      modifies this
      ensures Within() && (ok ==> Moved() && left < old(left))
      ensures ok <==> PbDecoding.DecodeField(f, slot, wireType, old(Rest())).Some?
      ensures ok ==> PbDecoding.DecodeField(f, slot, wireType, old(Rest())) == Some(Got(r, Rest()))
      decreases left, 2
    {
      hide DecodeValue, DecodePacked, Prefixed, Good, Zero;
      var v;
      r := slot;
      match (f.rule, slot)
      case (Repeated(max), Many(items)) =>
        if wireType == 2 && f.kind.Packable() {
          var vs;
          ok, vs := DecodePackedArray(f.kind, max, items);
          r := Many(vs);
        } else {
          if |items| >= max { return false, slot; }
          ok, v := DecodeOne(f.kind, Zero(f.kind));
          r := Many(items + [v]);
        }
      case (Optional, Opt(_, current)) =>
        ok, v := DecodeOne(f.kind, current);
        r := Opt(true, v);
      case (Oneof, Union(which, current)) =>
        ok, v := DecodeOne(f.kind, if f.kind.Submessage? && which != f.tag then Zero(f.kind) else current);
        r := Union(f.tag, v);
      case (Required, One(current)) =>
        ok, v := DecodeOne(f.kind, current);
        r := One(v);
      case (Singular, One(current)) =>
        ok, v := DecodeOne(f.kind, current);
        r := One(v);
      case _ =>
        ok := false;
    }

    /** One turn of the loop in `pb_decode_noinit` for a field that was found. */
    method DecodeKnown(iter: FieldIter, wireType: nat, m: Slots, words: seq<nat>, ghost seen: set<nat>,
                       ghost bits: set<nat>)
      returns (ok: bool, x: Slots, r: seq<nat>, ghost bits': set<nat>)
      requires Valid() && Good(iter.fields) && iter.fields != [] && iter.Valid()
      requires Holds(words, bits) && |words| == 2 && Tracks(iter.fields, seen, bits)
      modifies this
      ensures Within() && (ok ==> Moved() && left < old(left) && iter.Valid())
      ensures ok ==> |r| == 2 && Holds(r, bits') && Tracks(iter.fields, Mark(iter.fields, iter.pos, seen), bits')
      ensures
        var slot := Get(m, SlotOf(iter.fields, iter.pos));
        match PbDecoding.DecodeField(iter.fields[iter.pos], slot, wireType, old(Rest()))
        case None => !ok
        case Some(h) => ok && x == Put(m, SlotOf(iter.fields, iter.pos), h.value) && Rest() == h.rest
      decreases left, 3
    {
      hide PbDecoding.DecodeField, Tracks, Holds, RequiredBefore, SlotOf;
      r, bits', x := words, bits, m;
      var f := iter.fields[iter.pos];
      if f.rule.Required? && iter.requiredIndex < MAX_REQUIRED {
        MarkTracks(iter.fields, seen, bits, iter.pos);
        r := SetRequired(words, iter.requiredIndex, bits);
        bits' := bits + {iter.requiredIndex};
      }
      var slot;
      ok, slot := DecodeField(f, Get(m, iter.slot), wireType);
      if ok { x := Put(m, iter.slot, slot); }
    }

    /** One turn of the loop in `pb_decode_noinit`; more is false behind a zero tag. */
    method Turn(iter: FieldIter, m: Slots, words: seq<nat>, ghost seen: set<nat>, ghost bits: set<nat>)
      returns (ok: bool, more: bool, x: Slots, r: seq<nat>, ghost seen': set<nat>, ghost bits': set<nat>)
      requires Valid() && left != 0 && Good(iter.fields) && iter.Valid() && |words| == 2
      requires iter.fields != [] ==> Holds(words, bits) && Tracks(iter.fields, seen, bits)
      modifies this, iter
      ensures Within() && (ok ==> Moved() && left < old(left) && iter.Valid() && |r| == 2)
      ensures ok && iter.fields != [] ==> Holds(r, bits') && Tracks(iter.fields, seen', bits')
      ensures !ok ==> DecodeLoop(iter.fields, m, seen, old(Rest())) == None
      ensures ok && more ==> DecodeLoop(iter.fields, m, seen, old(Rest())) == DecodeLoop(iter.fields, x, seen', Rest())
      ensures ok && !more ==> DecodeLoop(iter.fields, m, seen, old(Rest())) == Finished(iter.fields, x, seen', Rest())
      decreases left, 4
    {
      hide Varint32, PbDecoding.DecodeField, Skip, Tracks, Holds, AllSeen;
      more, x, r, seen', bits' := true, m, words, seen, bits;
      var wireType, tag, eof, n;
      ok, wireType, tag, eof := DecodeTag();
      if !ok {
        ok, more := eof, false;
        return;
      }
      var found := iter.Find(tag);
      if !found {
        ok := SkipField(wireType);
      } else if iter.fields == [] {
        // the terminator reads as a required bool
        r := words[0 := Or(words[0], 1)];
        ok, n, eof := DecodeVarint32();
      } else {
        seen' := Mark(iter.fields, iter.pos, seen);
        ok, x, r, bits' := DecodeKnown(iter, wireType, m, words, seen, bits);
      }
    }

    /** `pb_decode_noinit`. */
    method DecodeNoInit(w: Schema, m: Slots) returns (ok: bool, x: Slots)
      requires Valid() && Good(w)
      modifies this
      ensures Within() && (ok ==> Moved())
      ensures ok <==> DecodeLoop(w, m, {}, old(Rest())).Some?
      ensures ok ==> DecodeLoop(w, m, {}, old(Rest())) == Some(Got(x, Rest()))
      decreases left, 5
    {
      hide DecodeLoop, Tracks, Holds, AllSeen, Good;
      ghost var s := Rest();
      var iter := new FieldIter(w);
      var words: seq<nat> := [0, 0];
      ghost var seen, bits: set<nat> := {}, {};
      NothingSeen(w);
      x := m;
      var more := true;
      while more && left != 0
        invariant Moved() && iter.Valid() && iter.fields == w && |words| == 2
        invariant w != [] ==> Holds(words, bits) && Tracks(w, seen, bits)
        invariant DecodeLoop(w, m, {}, s) ==
          if more then DecodeLoop(w, x, seen, Rest()) else Finished(w, x, seen, Rest())
        modifies this, iter
        decreases more, left
      {
        ok, more, x, words, seen, bits := Turn(iter, x, words, seen, bits);
        if !ok { return; }
      }
      if left == 0 { assert Rest() == []; }
      AtEnd(w, x, seen);
      ok := CheckRequired(iter, words, seen, bits);
    }

    /** `pb_message_set_to_defaults`. */
    method SetToDefaults(w: Schema) returns (m: Slots)
      ensures m == Fresh(w)
      ensures forall q: nat :: q < |w| ==> SlotOf(w, q) < |m| && InitialSlot(w[q], m[SlotOf(w, q)])
    {
      hide DefaultSlot, InitialSlot, SlotOf;
      forall q: nat | q < |w| ensures SlotOf(w, q) < |Fresh(w)| && InitialSlot(w[q], Fresh(w)[SlotOf(w, q)]) {
        FreshHolds(w, q);
      }
      m := [];
      if w == [] { return; }
      var iter := new FieldIter(w);
      var n, more := 0, true;
      while more
        invariant iter.Valid() && iter.fields == w && n <= |w| && m == Defaults(w, n)
        invariant if more then n < |w| && iter.pos == n else n == |w|
        decreases |w| - n
      {
        if iter.slot == |m| { m := m + [DefaultSlot(w[iter.pos])]; }
        n := n + 1;
        more := iter.Next();
      }
    }

    /** `pb_decode`. */
    method Decode(w: Schema) returns (ok: bool, x: Slots)
      requires Valid() && Good(w)
      modifies this
      ensures Within() && (ok ==> Moved())
      ensures ok <==> PbDecoding.Decode(w, old(Rest())).Some?
      ensures ok ==> PbDecoding.Decode(w, old(Rest())) == Some(Got(x, Rest()))
    {
      hide DecodeLoop, Good;
      var m := SetToDefaults(w);
      ok, x := DecodeNoInit(w, m);
    }

    /** `pb_decode_delimited`. */
    method DecodeDelimited(w: Schema) returns (ok: bool, x: Slots)
      requires Valid() && Good(w)
      modifies this
      ensures Within() && (ok ==> Moved())
      ensures ok <==> PbDecoding.DecodeDelimited(w, old(Rest())).Some?
      ensures ok ==> PbDecoding.DecodeDelimited(w, old(Rest())) == Some(Got(x, Rest()))
    {
      hide Prefixed, PbDecoding.Decode, Good;
      var substream;
      ok, substream := MakeSubstream();
      x := [];
      if !ok { return; }
      ok, x := substream.Decode(w);
      CloseSubstream(substream);
    }
  }

  lemma NothingSeen(w: Schema)
    ensures Tracks(w, {}, {}) && Holds([0, 0], {})
  {
    NoBits(0, 32);
    NoBits(32, 32);
  }

  lemma {:induction false} NoBits(lo: nat, n: nat)
    ensures PbBitmaps.Word({}, lo, n) == 0
    decreases n
  {
    if n > 0 { NoBits(lo + 1, n - 1); }
  }
}
