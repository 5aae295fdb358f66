// nanopb's variable-length integers (pb_encode.c, pb_decode.c): seven bits a byte, lowest group first,
// with one decoder for 64-bit values and one for 32-bit values.

module PbVarint {
  import opened Basics
  import opened Products
  import opened Bits

  /** What a decoder delivers: a value and the input behind it. */
  datatype Got<T> = Got(value: T, rest: Bytes)

  const TWO31: nat := 0x8000_0000
  const TWO32: nat := 0x1_0000_0000
  const TWO63: nat := 0x8000_0000_0000_0000
  const TWO64: nat := 0x1_0000_0000_0000_0000

  /** The encoding of v. */
  function Varint(v: nat): (r: Bytes)
    ensures |r| >= 1
  {
    if v < 128 then [v] else [v % 128 + 128] + Varint(v / 128)
  }

  /** A group shifted into place, in a word of limited size. */
  function Shifted(group: nat, bitpos: nat, modulus: nat): nat
    requires modulus > 0
  {
    MulNonNegative(group, Pow2(bitpos));
    group * Pow2(bitpos) % modulus
  }

  // ----- the 64-bit decoder

  /** The loop of `pb_decode_varint`. */
  function Varint64Loop(s: Bytes, bitpos: nat, result: nat): (r: Option<Got<nat>>)
    ensures r.Some? ==> |r.value.rest| < |s| && r.value.rest == s[|s| - |r.value.rest|..]
  {
    if bitpos >= 64 || s == [] then None
    else
      var result' := Or(result, Shifted(s[0] as int % 128, bitpos, TWO64));
      if s[0] < 128 then Some(Got(result', s[1..])) else Varint64Loop(s[1..], bitpos + 7, result')
  }

  function Varint64(s: Bytes): Option<Got<nat>> {
    Varint64Loop(s, 0, 0)
  }

  // ----- the 32-bit decoder

  /** A byte behind bit 31 must be empty, or part of the sign extension of a negative number. */
  predicate Overflows(b: Byte, bitpos: nat, result: nat) {
    b % 128 != 0 && (result < TWO31 || b != if bitpos < 63 then 255 else 1)
  }

  /** The loop of `pb_decode_varint32_eof`; bitpos is kept in eight bits. */
  function Varint32Loop(s: Bytes, bitpos: nat, result: nat): (r: Option<Got<nat>>)
    ensures r.Some? ==> |r.value.rest| < |s| && r.value.rest == s[|s| - |r.value.rest|..]
  {
    if s == [] || (bitpos >= 32 && Overflows(s[0], bitpos, result)) then None
    else
      var result' := if bitpos >= 32 then result else Or(result, Shifted(s[0] as int % 128, bitpos, TWO32));
      if s[0] >= 128 then Varint32Loop(s[1..], (bitpos + 7) % 256, result')
      else if (bitpos + 7) % 256 == 35 && s[0] / 16 % 8 != 0 then None
      else Some(Got(result', s[1..]))
  }

  function Varint32(s: Bytes): (r: Option<Got<nat>>)
    ensures r.Some? ==> |r.value.rest| < |s| && r.value.rest == s[|s| - |r.value.rest|..]
  {
    if s == [] then None
    else if s[0] < 128 then Some(Got(s[0], s[1..]))
    else Varint32Loop(s[1..], 7, s[0] % 128)
  }

  // ----- round trips

  lemma Head(v: nat, rest: Bytes)
    ensures (Varint(v) + rest)[0] == if v < 128 then v else v % 128 + 128
    ensures (Varint(v) + rest)[1..] == if v < 128 then rest else Varint(v / 128) + rest
  {
    if v < 128 {
      assert ([v] + rest)[1..] == rest;
    } else {
      assert Varint(v) + rest == [v % 128 + 128] + (Varint(v / 128) + rest);
    }
  }

  /** Groups are put behind the bits that are already there. */
  lemma Place(result: nat, low: nat, bitpos: nat, modulus: nat)
    requires result < Pow2(bitpos) && low * Pow2(bitpos) < modulus
    ensures Or(result, Shifted(low, bitpos, modulus)) == result + low * Pow2(bitpos)
  {
    hide Or, Pow2;
    MulNonNegative(low, Pow2(bitpos));
    Small(low * Pow2(bitpos), modulus);
    Commute(low, Pow2(bitpos));
    OrDisjoint(result, low, bitpos);
  }

  lemma Small(x: nat, m: nat)
    requires x < m
    ensures x % m == x
  {
  }

  lemma SplitGroup(v: nat, p: nat)
    ensures v * p == v % 128 * p + v / 128 * (128 * p)
  {
    var q, r := v / 128, v % 128;
    assert v == 128 * q + r;
    Distribute(128 * q, r, p);
    Commute(128, q);
    Regroup(q, 128, p);
  }

  lemma Pow2Seven(n: nat)
    ensures Pow2(n + 7) == 128 * Pow2(n)
  {
    Pow2Plus(7, n);
    assert Pow2(7) == 128;
  }

  lemma {:induction false} Varint64Reads(v: nat, bitpos: nat, result: nat, rest: Bytes)
    requires bitpos <= 63 && result < Pow2(bitpos) && result + v * Pow2(bitpos) < TWO64
    ensures Varint64Loop(Varint(v) + rest, bitpos, result) == Some(Got(result + v * Pow2(bitpos), rest))
    decreases v
  {
    hide Or, Pow2, Shifted, Varint, Varint64Loop;
    var p := Pow2(bitpos);
    Head(v, rest);
    Step64(Varint(v) + rest, bitpos, result);
    Pow2Seven(bitpos);
    SplitGroup(v, p);
    MulNonNegative(v / 128, 128 * p);
    Place(result, v % 128, bitpos, TWO64);
    if v >= 128 {
      Roomy(v, bitpos);
      MulMono(v % 128, 127, p);
      Varint64Reads(v / 128, bitpos + 7, result + v % 128 * p, rest);
    }
  }

  lemma Roomy(v: nat, bitpos: nat)
    requires v >= 128 && bitpos <= 63 && v * Pow2(bitpos) < TWO64
    ensures bitpos + 7 <= 63
  {
    hide Pow2;
    MulMono(128, v, Pow2(bitpos));
    Pow2Seven(bitpos);
    Pow2Of32();
    Pow2Monotone(bitpos + 7, 64);
  }

  /** Every 64-bit value is read back. */
  lemma Varint64RoundTrip(v: nat, rest: Bytes)
    requires v < TWO64
    ensures Varint64(Varint(v) + rest) == Some(Got(v, rest))
  {
    assert Pow2(0) == 1;
    Varint64Reads(v, 0, 0, rest);
  }

  // ----- what the 32-bit decoder accepts

  /** The groups behind bit 34, k of them already read: all zeros or all ones each, then the top bit. */
  predicate SignExtension(u: nat, k: nat)
    requires k <= 4
    decreases 4 - k
  {
    if k == 4 then u == 1
    else u >= 128 && (u % 128 == 0 || u % 128 == 127) && SignExtension(u / 128, k + 1)
  }

  /** What the 32-bit decoder makes of the encoding of v. */
  function Narrowed(v: nat): Option<nat> {
    if v < TWO32 then Some(v)
    else if v % TWO32 >= TWO31 && SignExtension(v / 0x8_0000_0000, 0) then Some(v % TWO32)
    else None
  }

  function Reading(v: Option<nat>, rest: Bytes): Option<Got<nat>> {
    match v case None => None case Some(x) => Some(Got(x, rest))
  }

  lemma Unrolled32(s: Bytes, bitpos: nat, result: nat)
    requires s != []
    ensures Varint32Loop(s, bitpos, result) ==
      if bitpos >= 32 && Overflows(s[0], bitpos, result) then None
      else
        var result' := if bitpos >= 32 then result else Or(result, Shifted(s[0] as int % 128, bitpos, TWO32));
        if s[0] >= 128 then Varint32Loop(s[1..], (bitpos + 7) % 256, result')
        else if (bitpos + 7) % 256 == 35 && s[0] / 16 % 8 != 0 then None
        else Some(Got(result', s[1..]))
  {
    hide Or, Pow2, Shifted, Overflows;
  }

  lemma TopBits(b: Byte)
    ensures b < 128 ==> (b / 16 % 8 != 0 <==> b >= 16)
  {
  }

  lemma NextPosition(bitpos: nat)
    ensures bitpos < 249 ==> (bitpos + 7) % 256 == bitpos + 7
    ensures 249 <= bitpos < 256 ==> (bitpos + 7) % 256 < 7
  {
  }

  /** One turn of the 32-bit loop. */
  lemma Step32(s: Bytes, bitpos: nat, result: nat)
    requires s != []
    ensures var b := s[0]; var low, r := b as int % 128, Varint32Loop(s, bitpos, result);
      && (bitpos >= 32 && Overflows(b, bitpos, result) ==> r == None)
      && (bitpos >= 32 && !Overflows(b, bitpos, result) && b >= 128 ==>
        r == Varint32Loop(s[1..], (bitpos + 7) % 256, result))
      && (32 <= bitpos < 256 && !Overflows(b, bitpos, result) && b < 128 ==> r == Some(Got(result, s[1..])))
      && (bitpos < 32 && b >= 128 ==> r == Varint32Loop(s[1..], bitpos + 7, Or(result, Shifted(low, bitpos, TWO32))))
      && (bitpos < 28 && b < 128 ==> r == Some(Got(Or(result, Shifted(low, bitpos, TWO32)), s[1..])))
      && (bitpos == 28 && b < 16 ==> r == Some(Got(Or(result, Shifted(low, bitpos, TWO32)), s[1..])))
      && (bitpos == 28 && 16 <= b < 128 ==> r == None)
  {
    hide Or, Pow2, Shifted, Varint32Loop, Overflows;
    Unrolled32(s, bitpos, result);
    TopBits(s[0]);
    NextPosition(bitpos);
  }

  /** One turn of the 64-bit loop. */
  lemma Step64(s: Bytes, bitpos: nat, result: nat)
    requires s != [] && bitpos < 64
    ensures var r' := Or(result, Shifted(s[0] as int % 128, bitpos, TWO64));
      Varint64Loop(s, bitpos, result) ==
        if s[0] < 128 then Some(Got(r', s[1..])) else Varint64Loop(s[1..], bitpos + 7, r')
  {
    hide Or, Pow2, Shifted;
  }

  /** What is left of a 64-bit value behind the first 35 + 7 * k bits is below this. */
  function HighLimit(k: nat): nat {
    if k == 0 then 0x2000_0000 else if k == 1 then 0x40_0000 else if k == 2 then 0x8000 else if k == 3 then 0x100 else 2
  }

  /** A byte of a sign extension, or one that overflows. */
  lemma HighByte(u: nat, k: nat, result: nat)
    requires k <= 4 && 0 < u < HighLimit(k)
    ensures u < 128 ==> (Overflows(u, 35 + 7 * k, result) <==> !(result >= TWO31 && SignExtension(u, k)))
    ensures u >= 128 ==> k < 4 && 0 < u / 128 < HighLimit(k + 1)
    ensures u >= 128 && Overflows(u % 128 + 128, 35 + 7 * k, result) ==> !(result >= TWO31 && SignExtension(u, k))
    ensures u >= 128 && !Overflows(u % 128 + 128, 35 + 7 * k, result) && result >= TWO31 ==>
      (SignExtension(u, k) <==> SignExtension(u / 128, k + 1))
  {
  }

  lemma {:induction false} HighGroups(u: nat, k: nat, result: nat, rest: Bytes)
    requires k <= 4 && 0 < u < HighLimit(k)
    ensures Varint32Loop(Varint(u) + rest, 35 + 7 * k, result) ==
      Reading(if result >= TWO31 && SignExtension(u, k) then Some(result) else None, rest)
    decreases 4 - k
  {
    hide Or, Pow2, Shifted, Varint, Varint32Loop, Overflows, SignExtension, HighLimit;
    Head(u, rest);
    HighByte(u, k, result);
    NextPosition(35 + 7 * k);
    Step32(Varint(u) + rest, 35 + 7 * k, result);
    if u >= 128 { HighGroups(u / 128, k + 1, result, rest); }
  }

  lemma LowGroups()
    ensures Pow2(7) == 0x80 && Pow2(14) == 0x4000 && Pow2(21) == 0x20_0000 && Pow2(28) == 0x1000_0000
  {
    assert Pow2(7) == 128;
    hide Pow2;
    Pow2Seven(7);
    Pow2Seven(14);
    Pow2Seven(21);
  }

  lemma FifthValue(w: nat, result: nat)
    requires result < 0x1000_0000
    ensures w % 128 * 0x1000_0000 % TWO32 == w % 16 * 0x1000_0000
    ensures var v := result + w * 0x1000_0000;
      v % TWO32 == result + w % 16 * 0x1000_0000 && v / 0x8_0000_0000 == w / 128 && (v < TWO32 <==> w < 16)
  {
    GroupParts(w);
    FifthParts(w / 128, w % 128 / 16, w % 16, result);
  }

  lemma GroupParts(w: nat)
    ensures w == 128 * (w / 128) + 16 * (w % 128 / 16) + w % 16
    ensures w % 128 == 16 * (w % 128 / 16) + w % 16
    ensures w % 128 / 16 < 8 && (w < 16 <==> w / 128 == 0 && w % 128 / 16 == 0)
  {
    Division(w, 128);
    HalfGroups(w % 128);
    LowFour(w);
  }

  lemma HalfGroups(g: nat)
    requires g < 128
    ensures g == 16 * (g / 16) + g % 16 && g / 16 < 8 && g % 16 < 16
  {
  }

  lemma FifthParts(q: nat, e: nat, h: nat, result: nat)
    requires e < 8 && h < 16 && result < 0x1000_0000
    ensures (16 * e + h) * 0x1000_0000 % TWO32 == h * 0x1000_0000
    ensures var v := result + (128 * q + 16 * e + h) * 0x1000_0000;
      && v % TWO32 == result + h * 0x1000_0000 && v / 0x8_0000_0000 == q
      && (v < TWO32 <==> q == 0 && e == 0)
  {
    var v := result + (128 * q + 16 * e + h) * 0x1000_0000;
    DivMod((16 * e + h) * 0x1000_0000, TWO32, e, h * 0x1000_0000);
    DivMod(v, TWO32, e + 8 * q, result + h * 0x1000_0000);
    DivMod(v, 0x8_0000_0000, q, e * TWO32 + result + h * 0x1000_0000);
  }

  lemma FifthShift(g: nat)
    requires g < 128
    ensures Shifted(g, 28, TWO32) == g % 16 * 0x1000_0000 && Shifted(g, 28, TWO64) == g * 0x1000_0000
  {
    hide Pow2;
    LowGroups();
    FifthValue(g, 0);
    Small(g * 0x1000_0000, TWO64);
  }

  /** What is left of a value when only its low four bits of the fifth group fit. */
  lemma FifthNarrowed(w: nat, result: nat)
    requires result < 0x1000_0000
    ensures var v, low := result + w * 0x1000_0000, result + w % 16 * 0x1000_0000;
      && (w < 16 ==> Narrowed(v) == Some(low))
      && (16 <= w < 128 ==> Narrowed(v) == None)
      && (w >= 128 ==> Narrowed(v) == if low >= TWO31 && SignExtension(w / 128, 0) then Some(low) else None)
  {
    hide SignExtension;
    FifthValue(w, result);
    NoExtension(0);
  }

  lemma NoExtension(k: nat)
    requires k <= 4
    ensures !SignExtension(0, k)
  {
  }

  lemma FifthPlaced(w: nat, result: nat)
    requires result < 0x1000_0000
    ensures Or(result, Shifted(w % 128, 28, TWO32)) == result + w % 16 * 0x1000_0000
  {
    hide Or, Pow2, Shifted;
    LowFour(w);
    FifthShift(w % 128);
    OrAtFifth(result, w % 16);
  }

  lemma LowFour(w: nat)
    ensures w % 128 % 16 == w % 16
  {
    Division(w, 128);
    HalfGroups(w % 128);
    DivMod(w, 16, 8 * (w / 128) + w % 128 / 16, w % 128 % 16);
  }

  lemma OrAtFifth(result: nat, h: nat)
    requires result < 0x1000_0000
    ensures Or(result, h * 0x1000_0000) == result + h * 0x1000_0000
  {
    hide Or, Pow2;
    LowGroups();
    OrDisjoint(result, h, 28);
    Commute(h, 0x1000_0000);
  }

  lemma FifthGroup(w: nat, result: nat, rest: Bytes)
    requires result < 0x1000_0000 && result + w * 0x1000_0000 < TWO64
    ensures Varint32Loop(Varint(w) + rest, 28, result) == Reading(Narrowed(result + w * 0x1000_0000), rest)
  {
    hide Or, Pow2, Shifted, Varint, Varint32Loop, SignExtension, Narrowed;
    Head(w, rest);
    FifthNarrowed(w, result);
    FifthPlaced(w, result);
    Step32(Varint(w) + rest, 28, result);
    LowSeven(w % 128);
    if w >= 128 { HighGroups(w / 128, 0, result + w % 16 * 0x1000_0000, rest); }
  }

  lemma LowSeven(r: nat)
    requires r < 128
    ensures (r + 128) % 128 == r == r % 128
  {
  }

  lemma EarlyGroup(w: nat, bitpos: nat, p: nat, result: nat, rest: Bytes)
    requires bitpos <= 21 && p == Pow2(bitpos) && 128 * p <= TWO32 && result < p
    ensures w < 128 ==> Varint32Loop(Varint(w) + rest, bitpos, result) == Some(Got(result + w * p, rest))
    ensures w >= 128 ==>
      Varint32Loop(Varint(w) + rest, bitpos, result) ==
        Varint32Loop(Varint(w / 128) + rest, bitpos + 7, result + w % 128 * p)
  {
    hide Or, Pow2, Shifted, Varint, Varint32Loop;
    Head(w, rest);
    if w < 128 { Small(w, 128); }
    MulMonoStrict(w % 128, 128, p);
    Place(result, w % 128, bitpos, TWO32);
    Step32(Varint(w) + rest, bitpos, result);
  }

  function Placed(result: nat, group: nat, p: nat): nat {
    MulNonNegative(group, p);
    result + group * p
  }

  /** In the middle of reading v: w is still to come. */
  ghost predicate ReadUpTo(v: nat, rest: Bytes, w: nat, bitpos: nat, result: nat) {
    && Varint32(Varint(v) + rest) == Varint32Loop(Varint(w) + rest, bitpos, result)
    && result < Pow2(bitpos) && v == result + w * Pow2(bitpos)
  }

  lemma NextGroup(v: nat, rest: Bytes, w: nat, bitpos: nat, result: nat)
    requires bitpos in {7, 14, 21} && ReadUpTo(v, rest, w, bitpos, result)
    ensures if w < 128 then v < TWO32 && Varint32(Varint(v) + rest) == Some(Got(v, rest))
            else ReadUpTo(v, rest, w / 128, bitpos + 7, Placed(result, w % 128, Pow2(bitpos)))
  {
    hide Or, Pow2, Shifted, Varint, Varint32Loop, Varint32;
    LowGroups();
    var p := Pow2(bitpos);
    EarlyGroup(w, bitpos, p, result, rest);
    SplitGroup(w, p);
    Grows(result, w % 128, p);
    Pow2Seven(bitpos);
    if w < 128 { Grows(result, w, p); }
  }

  lemma Grows(result: nat, g: nat, p: nat)
    requires result < p && g < 128
    ensures result + g * p < 128 * p
  {
    MulMono(g, 127, p);
  }

  lemma FirstGroup(v: nat, rest: Bytes)
    ensures v < 128 ==> Varint32(Varint(v) + rest) == Some(Got(v, rest))
    ensures v >= 128 ==> ReadUpTo(v, rest, v / 128, 7, v % 128)
  {
    hide Or, Pow2, Shifted, Varint, Varint32Loop;
    LowGroups();
    Head(v, rest);
    var q, r := v / 128, v % 128;
    assert v == q * 128 + r && (r + 128) % 128 == r;
  }

  lemma LastGroup(v: nat, rest: Bytes, w: nat, result: nat)
    requires v < TWO64 && ReadUpTo(v, rest, w, 28, result)
    ensures Varint32(Varint(v) + rest) == Reading(Narrowed(v), rest)
  {
    hide Pow2, Varint, Varint32Loop, Varint32, Narrowed;
    LowGroups();
    FifthGroup(w, result, rest);
  }

  /** Exactly what the 32-bit decoder makes of a 64-bit value. */
  lemma Varint32Reads(v: nat, rest: Bytes)
    requires v < TWO64
    ensures Varint32(Varint(v) + rest) == Reading(Narrowed(v), rest)
  {
    hide Or, Pow2, Shifted, Varint, Varint32Loop, Varint32, ReadUpTo, SignExtension, Placed;
    FirstGroup(v, rest);
    if v >= 128 {
      var w, r := v / 128, v % 128;
      NextGroup(v, rest, w, 7, r);
      if w >= 128 {
        w, r := w / 128, Placed(r, w % 128, Pow2(7));
        NextGroup(v, rest, w, 14, r);
        if w >= 128 {
          w, r := w / 128, Placed(r, w % 128, Pow2(14));
          NextGroup(v, rest, w, 21, r);
          if w >= 128 {
            LastGroup(v, rest, w / 128, Placed(r, w % 128, Pow2(21)));
          }
        }
      }
    }
  }

  /** Below 2^63 exactly the 32-bit values are accepted. */
  lemma Varint32RoundTrip(v: nat, rest: Bytes)
    requires v < TWO63
    ensures Varint32(Varint(v) + rest) == if v < TWO32 then Some(Got(v, rest)) else None
  {
    Varint32Reads(v, rest);
    assert !SignExtension(v / 0x8_0000_0000, 0) by {
      NoTopBit(v / 0x8_0000_0000, 0);
    }
  }

  lemma {:induction false} NoTopBit(u: nat, k: nat)
    requires k <= 4 && u < [0x1000_0000, 0x20_0000, 0x4000, 0x80, 1][k]
    ensures !SignExtension(u, k)
    decreases 4 - k
  {
    if k < 4 { NoTopBit(u / 128, k + 1); }
  }

  /** A negative int32, written with sign extension as 64 bits, is read as its 32-bit pattern. */
  lemma NegativeNarrows(i: int, rest: Bytes)
    requires -0x8000_0000 <= i < 0
    ensures Varint32(Varint(i + TWO64) + rest) == Some(Got(i + TWO32, rest))
  {
    hide Varint, Varint32, SignExtension;
    Varint32Reads(i + TWO64, rest);
    DivMod(i + TWO64, 0x8_0000_0000, 0x1FFF_FFFF, i + 0x8_0000_0000);
    DivMod(i + TWO64, TWO32, TWO32 - 1, i + TWO32);
    AllOnes();
  }

  lemma AllOnes()
    ensures SignExtension(0x1FFF_FFFF, 0)
  {
    assert SignExtension(1, 4);
    assert SignExtension(0xFF, 3);
    assert SignExtension(0x7FFF, 2);
    assert SignExtension(0x3F_FFFF, 1);
  }

  // ----- the two decoders on arbitrary bytes

  lemma {:induction false} HighBytesAgree(s: Bytes, bitpos: nat, low: nat, result: nat)
    requires 35 <= bitpos && result % TWO32 == low && result < Pow2(bitpos)
    requires Varint32Loop(s, bitpos, low).Some? && Varint64Loop(s, bitpos, result).Some?
    ensures var a, b := Varint32Loop(s, bitpos, low).value, Varint64Loop(s, bitpos, result).value;
      a.rest == b.rest && a.value == b.value % TWO32
    decreases |s|
  {
    hide Or, Pow2, Shifted;
    var x := Shifted(s[0] as int % 128, bitpos, TWO64);
    HighPart(s[0] as int % 128, bitpos, result);
    if s[0] >= 128 {
      HighBytesAgree(s[1..], bitpos + 7, low, Or(result, x));
    }
  }

  /** A group behind bit 34 leaves the low 32 bits alone. */
  lemma HighPart(g: nat, bitpos: nat, result: nat)
    requires 35 <= bitpos <= 63 && g < 128 && result < Pow2(bitpos)
    ensures var r := Or(result, Shifted(g, bitpos, TWO64)); r % TWO32 == result % TWO32 && r < Pow2(bitpos + 7)
  {
    hide Or, Pow2;
    var p := Pow2(bitpos);
    var q := Pow2(64 - bitpos);
    Pow2Plus(bitpos, 64 - bitpos);
    Pow2Of32();
    Division(g, q);
    // g * p mod p * q is (g mod q) * p
    var h := g % q;
    assert g * p % TWO64 == h * p by {
      MulNonNegative(h, p);
      Distribute(q * (g / q), h, p);
      Regroup(q, g / q, p);
      Commute(g / q, p);
      Regroup(q, p, g / q);
      Commute(q, p);
      MulMonoStrict(h, q, p);
      DivMod(g * p, TWO64, g / q, h * p);
    }
    Commute(h, p);
    OrDisjoint(result, h, bitpos);
    Pow2Plus(32, bitpos - 32);
    Regroup(Pow2(32), Pow2(bitpos - 32), h);
    ModAdd(result, Pow2(bitpos - 32) * h, TWO32);
    Pow2Seven(bitpos);
    MulMono(h, 127, p);
  }

  lemma ModAdd(x: nat, k: nat, m: nat)
    requires m > 0
    ensures (x + m * k) % m == x % m
  {
    MulNonNegative(m, k);
    Division(x, m);
    Distribute(x / m, k, m);
    DivMod(x + m * k, m, x / m + k, x % m);
  }

  lemma FifthByteAgrees(s: Bytes, result: nat)
    requires result < 0x1000_0000
    requires Varint32Loop(s, 28, result).Some? && Varint64Loop(s, 28, result).Some?
    ensures var a, b := Varint32Loop(s, 28, result).value, Varint64Loop(s, 28, result).value;
      a.rest == b.rest && a.value == b.value % TWO32
  {
    hide Or, Pow2, Shifted, Varint32Loop, Varint64Loop;
    StopsAt(s, 28, result);
    LowGroups();
    Pow2Seven(28);
    var g := s[0] as int % 128;
    FifthValue(g, result);
    FifthShift(g);
    Place(result, g, 28, TWO64);
    OrDisjoint(result, g % 16, 28);
    Step32(s, 28, result);
    Step64(s, 28, result);
    if s[0] >= 128 { HighBytesAgree(s[1..], 35, result + g % 16 * 0x1000_0000, result + g * 0x1000_0000); }
  }

  /** Both loops are in the same state in front of t. */
  ghost predicate Together(s: Bytes, t: Bytes, bitpos: nat, result: nat) {
    && Varint32(s) == Varint32Loop(t, bitpos, result) && Varint64(s) == Varint64Loop(t, bitpos, result)
    && result < Pow2(bitpos)
  }

  ghost predicate AgreeOn(s: Bytes) {
    && Varint32(s).Some? && Varint64(s).Some? && Varint32(s).value.rest == Varint64(s).value.rest
    && Varint32(s).value.value == Varint64(s).value.value % TWO32
  }

  lemma EarlyByteAgrees(s: Bytes, t: Bytes, bitpos: nat, result: nat)
    requires bitpos in {7, 14, 21} && Together(s, t, bitpos, result) && Varint32(s).Some? && Varint64(s).Some?
    ensures t != []
    ensures if t[0] < 128
      then AgreeOn(s) else Together(s, t[1..], bitpos + 7, Placed(result, t[0] as int % 128, Pow2(bitpos)))
  {
    hide Or, Pow2, Shifted, Varint32Loop, Varint64Loop, Varint32, Varint64;
    StopsAt(t, bitpos, result);
    LowGroups();
    Pow2Seven(bitpos);
    var g, p := t[0] as int % 128, Pow2(bitpos);
    MulMonoStrict(g, 128, p);
    Place(result, g, bitpos, TWO32);
    Place(result, g, bitpos, TWO64);
    Step32(t, bitpos, result);
    Step64(t, bitpos, result);
    Grows(result, g, p);
    if t[0] < 128 { Small(result + g * p, TWO32); }
  }

  /** When both decoders accept some bytes, they consume the same and agree on the low 32 bits. */
  lemma DecodersAgree(s: Bytes)
    requires Varint32(s).Some? && Varint64(s).Some?
    ensures Varint32(s).value.rest == Varint64(s).value.rest
    ensures Varint32(s).value.value == Varint64(s).value.value % TWO32
  {
    hide Or, Pow2, Shifted, Varint32Loop, Varint64Loop;
    LowGroups();
    PowZero();
    var r, t := s[0] as int % 128, s[1..];
    Place(0, r, 0, TWO64);
    Step64(s, 0, 0);
    if s[0] >= 128 {
      EarlyByteAgrees(s, t, 7, r);
      if t[0] >= 128 {
        r, t := r + t[0] as int % 128 * 0x80, t[1..];
        EarlyByteAgrees(s, t, 14, r);
        if t[0] >= 128 {
          r, t := r + t[0] as int % 128 * 0x4000, t[1..];
          EarlyByteAgrees(s, t, 21, r);
          if t[0] >= 128 {
            FifthByteAgrees(t[1..], r + t[0] as int % 128 * 0x20_0000);
          }
        }
      }
    }
  }

  lemma PowZero()
    ensures Pow2(0) == 1
  {
  }

  lemma StopsAt(s: Bytes, bitpos: nat, result: nat)
    ensures Varint32Loop(s, bitpos, result).Some? ==> s != []
  {
  }

  // ----- zigzag

  function ZigZag(i: int): nat {
    if i < 0 then -2 * i - 1 else 2 * i
  }

  function UnZigZag(v: nat): int {
    if v % 2 == 1 then -(v / 2) - 1 else v / 2
  }

  /** `pb_encode_svarint`: the complement of the doubled 64-bit pattern is the zigzag number. */
  lemma ZigZagBits(i: int)
    requires -0x8000_0000_0000_0000 <= i < 0x8000_0000_0000_0000
    ensures i < 0 ==> TWO64 - 1 - (2 * (i + TWO64)) % TWO64 == ZigZag(i)
    ensures ZigZag(i) < TWO64 && UnZigZag(ZigZag(i)) == i
  {
  }

  // ----- what the bytes stand for

  /** Groups of seven bits, the least significant one first. */
  function Base128(b: Bytes): nat {
    if b == [] then 0 else b[0] % 128 + 128 * Base128(b[1..])
  }

  /** The top bit of every byte but the last one is set, the groups are the number, and none is superfluous. */
  lemma {:induction false} VarintIs(v: nat)
    ensures var b := Varint(v);
      && Base128(b) == v && b[|b| - 1] < 128 && (|b| > 1 ==> b[|b| - 1] > 0)
      && forall i :: 0 <= i < |b| - 1 ==> b[i] >= 128
  {
    if v >= 128 {
      VarintIs(v / 128);
      assert Varint(v)[1..] == Varint(v / 128);
    }
  }

  /** Where the first byte without a top bit is. */
  function Terminator(s: Bytes): (n: Option<nat>)
    ensures n.Some? ==> n.value < |s|
  {
    if s == [] then None
    else if s[0] < 128 then Some(0)
    else match Terminator(s[1..]) case None => None case Some(n) => Some(n + 1)
  }

  lemma FirstOf(s: Bytes, n: nat)
    requires n < |s|
    ensures Base128(s[..n + 1]) == s[0] as int % 128 + 128 * Base128(s[1..][..n])
  {
    assert s[..n + 1][1..] == s[1..][..n];
  }

  /** A group at a position below 63 is put behind the bits that are there. */
  lemma RoomyPlace(result: nat, g: nat, j: nat)
    requires j <= 8 && g < 128 && result < Pow2(7 * j)
    ensures var p, r' := Pow2(7 * j), Or(result, Shifted(g, 7 * j, TWO64));
      r' == result + p * g < TWO64 && r' < Pow2(7 * j + 7) == 128 * p
  {
    hide Or, Pow2, Shifted;
    var p := Pow2(7 * j);
    Pow2Of32();
    Pow2Seven(7 * j);
    Pow2Monotone(7 * j + 7, 64);
    MulMono(g + 1, 128, p);
    Distribute(g, 1, p);
    Commute(p, g);
    Place(result, g, 7 * j, TWO64);
  }

  /** In the last byte only one bit is left. */
  lemma LastPlace(result: nat, g: nat)
    requires result < Pow2(63)
    ensures Or(result, Shifted(g, 63, TWO64)) == (result + Pow2(63) * g) % TWO64
  {
    hide Or, Pow2;
    Pow2Of32();
    Pow2Plus(1, 63);
    assert Pow2(1) == 2 by { Two(); }
    var p := Pow2(63);
    Commute(g, p);
    DivMod(p * g, TWO64, g / 2, p * (g % 2)) by { HalfOf(p, g); }
    OrDisjoint(result, g % 2, 63);
    DivMod(result + p * g, TWO64, g / 2, result + p * (g % 2)) by { HalfOf(p, g); }
  }

  lemma Two()
    ensures Pow2(1) == 2
  {
    assert Pow2(0) == 1;
  }

  lemma HalfOf(p: nat, g: nat)
    requires 2 * p == TWO64
    ensures p * g == TWO64 * (g / 2) + p * (g % 2) && 0 <= p * (g % 2) <= p
  {
    var q, r := g / 2, g % 2;
    assert g == 2 * q + r;
    Distribute(2 * q, r, p);
    Regroup(p, 2, q);
    Commute(p, 2);
  }

  lemma {:induction false} Varint64LoopIs(s: Bytes, j: nat, result: nat)
    requires j <= 10 && (j <= 9 ==> result < Pow2(7 * j))
    ensures Varint64Loop(s, 7 * j, result) ==
      match Terminator(s)
      case None => None
      case Some(n) =>
        if n + j < 10 then Some(Got((result + Pow2(7 * j) * Base128(s[..n + 1])) % TWO64, s[n + 1..])) else None
    decreases 10 - j
  {
    hide Or, Pow2, Shifted, Varint64Loop, Base128;
    if j == 10 {
      TooLong64(s, result);
    } else if s == [] {
      Nothing64(7 * j, result);
    } else {
      var g, p := s[0] as int % 128, Pow2(7 * j);
      Step64(s, 7 * j, result);
      if j == 9 { LastPlace(result, g); } else { RoomyPlace(result, g, j); }
      if s[0] < 128 {
        FirstOf(s, 0);
        NoGroups();
        assert s[1..][..0] == [];
        if j < 9 { Small(result + p * g, TWO64); }
      } else {
        Varint64LoopIs(s[1..], j + 1, Or(result, Shifted(g, 7 * j, TWO64)));
        match Terminator(s[1..])
        case None =>
        case Some(n) =>
          if n + j + 1 < 10 {
            FirstOf(s, n + 1);
            OneGroupMore(result, p, g, Base128(s[1..][..n + 1]));
          }
      }
    }
  }

  lemma OneGroupMore(result: nat, p: nat, g: nat, b: nat)
    ensures result + p * g + (128 * p) * b == result + p * (g + 128 * b)
  {
    Distribute(g, 128 * b, p);
    Commute(128, p);
    Regroup(p, 128, b);
  }

  lemma NoGroups()
    ensures Base128([]) == 0
  {
  }

  lemma TooLong64(s: Bytes, result: nat)
    ensures Varint64Loop(s, 70, result) == None
  {
  }

  lemma Nothing64(bitpos: nat, result: nat)
    ensures Varint64Loop([], bitpos, result) == None
  {
  }

  /** What the 64-bit decoder makes of any bytes: it accepts at most ten, and takes their low 64 bits. */
  lemma Varint64Is(s: Bytes)
    ensures Varint64(s) ==
      match Terminator(s)
      case None => None
      case Some(n) => if n < 10 then Some(Got(Base128(s[..n + 1]) % 0x1_0000_0000_0000_0000, s[n + 1..])) else None
  {
    hide Varint64Loop, Base128;
    assert Pow2(0) == 1;
    Varint64LoopIs(s, 0, 0);
  }

  /** Byte i behind the fifth: no bits, or those of a sign extension of a negative number. */
  predicate HighOk(b: Byte, i: nat, low: nat) {
    b % 128 == 0 || (low >= 0x8000_0000 && b == if i < 9 then 255 else 1)
  }

  predicate TailOk(s: Bytes, from: nat, to: nat, j: nat, low: nat)
    requires to < |s|
  {
    forall i :: from <= i <= to ==> HighOk(s[i], j + i, low)
  }

  lemma {:induction false} Unterminated(s: Bytes, bitpos: nat, result: nat)
    requires Terminator(s) == None
    ensures Varint32Loop(s, bitpos, result) == None
    decreases |s|
  {
    hide Or, Shifted, Varint32Loop, Overflows;
    if s == [] {
      Nothing32(bitpos, result);
    } else {
      Unrolled32(s, bitpos, result);
      var result' := if bitpos >= 32 then result else Or(result, Shifted(s[0] as int % 128, bitpos, TWO32));
      Unterminated(s[1..], (bitpos + 7) % 256, result');
    }
  }

  lemma Nothing32(bitpos: nat, result: nat)
    ensures Varint32Loop([], bitpos, result) == None
  {
  }

  /** Behind the fifth byte, up to where the bit count wraps around. */
  lemma {:induction false} TailIs(s: Bytes, j: nat, low: nat, n: nat)
    requires 5 <= j && Terminator(s) == Some(n) && n + j <= 36
    ensures Varint32Loop(s, 7 * j, low) == if TailOk(s, 0, n, j, low) then Some(Got(low, s[n + 1..])) else None
    decreases n
  {
    hide Or, Shifted, Varint32Loop, Overflows, HighOk;
    Step32(s, 7 * j, low);
    HighByteOk(s[0], j, low);
    NextPosition(7 * j);
    if n == 0 {
      assert TailOk(s, 0, 0, j, low) <==> HighOk(s[0], j, low);
    } else {
      TailIs(s[1..], j + 1, low, n - 1);
      TailSplits(s, n, j, low);
    }
  }

  lemma HighByteOk(b: Byte, j: nat, low: nat)
    requires 5 <= j
    ensures Overflows(b, 7 * j, low) <==> !HighOk(b, j, low)
  {
  }

  lemma TailSplits(s: Bytes, n: nat, j: nat, low: nat)
    requires 0 < n < |s|
    ensures TailOk(s, 0, n, j, low) <==> HighOk(s[0], j, low) && TailOk(s[1..], 0, n - 1, j + 1, low)
  {
    hide HighOk;
    if HighOk(s[0], j, low) && TailOk(s[1..], 0, n - 1, j + 1, low) {
      forall i | 0 <= i <= n ensures HighOk(s[i], j + i, low) {
        if i > 0 { assert HighOk(s[1..][i - 1], j + 1 + (i - 1), low); }
      }
    }
    if TailOk(s, 0, n, j, low) {
      forall i | 0 <= i <= n - 1 ensures HighOk(s[1..][i], j + 1 + i, low) {
        assert HighOk(s[i + 1], j + (i + 1), low);
      }
    }
  }

  /** What the 32-bit loop makes of the rest s of a varint whose first j groups are in result, if the first
      byte without a top bit is at n. */
  function Read32(s: Bytes, j: nat, result: nat, n: nat): Option<Got<nat>>
    requires j <= 4 && n < |s|
  {
    if n + j < 4 then Some(Got(Gathered(s, j, result, n + 1), s[n + 1..]))
    else if n + j == 4 then if s[n] < 16 then Some(Got(Gathered(s, j, result, n + 1), s[n + 1..])) else None
    else
      var low := Gathered(s, j, result, 5 - j) % 0x1_0000_0000;
      if TailOk(s, 5 - j, n, j, low) then Some(Got(low, s[n + 1..])) else None
  }

  /** The first k groups of s put behind the j groups in result. */
  function Gathered(s: Bytes, j: nat, result: nat, k: nat): nat
    requires k <= |s|
  {
    MulNonNegative(Pow2(7 * j), Base128(s[..k]));
    result + Pow2(7 * j) * Base128(s[..k])
  }

  lemma GatheredNext(s: Bytes, j: nat, result: nat, k: nat)
    requires 0 < k <= |s|
    ensures var r' := result + Pow2(7 * j) * (s[0] as int % 128);
      r' >= 0 && Gathered(s, j, result, k) == Gathered(s[1..], j + 1, r', k - 1)
  {
    hide Pow2, Base128;
    var p, g, b := Pow2(7 * j), s[0] as int % 128, Base128(s[1..][..k - 1]);
    FirstOf(s, k - 1);
    Pow2Seven(7 * j);
    MulNonNegative(p, g);
    OneGroupMore(result, p, g, b);
  }

  lemma GatheredOne(s: Bytes, j: nat, result: nat)
    requires s != []
    ensures Gathered(s, j, result, 1) == result + Pow2(7 * j) * (s[0] as int % 128)
  {
    hide Pow2, Base128;
    FirstOf(s, 0);
    NoGroups();
    assert s[1..][..0] == [];
  }

  lemma ShiftedTail(s: Bytes, from: nat, n: nat, j: nat, low: nat)
    requires 0 < from <= n < |s|
    ensures TailOk(s, from, n, j, low) <==> TailOk(s[1..], from - 1, n - 1, j + 1, low)
  {
    hide HighOk;
    if TailOk(s[1..], from - 1, n - 1, j + 1, low) {
      forall i | from <= i <= n ensures HighOk(s[i], j + i, low) {
        assert HighOk(s[1..][i - 1], j + 1 + (i - 1), low);
      }
    }
    if TailOk(s, from, n, j, low) {
      forall i | from - 1 <= i <= n - 1 ensures HighOk(s[1..][i], j + 1 + i, low) {
        assert HighOk(s[i + 1], j + (i + 1), low);
      }
    }
  }

  /** One group more of the first four. */
  lemma ReadNext(s: Bytes, j: nat, result: nat, n: nat)
    requires j < 4 && 0 < n < |s|
    ensures var r' := result + Pow2(7 * j) * (s[0] as int % 128);
      r' >= 0 && Read32(s, j, result, n) == Read32(s[1..], j + 1, r', n - 1)
  {
    hide Gathered, TailOk, Pow2;
    GatheredNext(s, j, result, if n + j <= 4 then n + 1 else 5 - j);
    assert s[1..][n..] == s[n + 1..] && s[1..][n - 1] == s[n];
    if n + j > 4 { ShiftedTail(s, 5 - j, n, j, Gathered(s, j, result, 5 - j) % 0x1_0000_0000); }
  }

  /** The fifth byte has room for four bits. */
  lemma FifthByte(result: nat, b: Byte)
    requires result < 0x1000_0000
    ensures var g := b as int % 128;
      Or(result, Shifted(g, 28, TWO32)) == (result + 0x1000_0000 * g) % 0x1_0000_0000
    ensures b < 16 ==> (result + 0x1000_0000 * b) % 0x1_0000_0000 == result + 0x1000_0000 * b
  {
    hide Or, Shifted;
    FifthPlaced(b as int, result);
    FifthValue(b as int % 128, result);
    LowFour(b as int);
    if b < 16 { Small(result + 0x1000_0000 * b, 0x1_0000_0000); }
  }

  lemma RoomyPlace32(result: nat, g: nat, j: nat)
    requires j <= 3 && g < 128 && result < Pow2(7 * j)
    ensures var p, r' := Pow2(7 * j), Or(result, Shifted(g, 7 * j, TWO32));
      r' == result + p * g && r' < Pow2(7 * j + 7)
  {
    hide Or, Pow2, Shifted;
    var p := Pow2(7 * j);
    LowGroups();
    Pow2Seven(7 * j);
    Pow2Monotone(7 * j + 7, 28);
    MulMono(g + 1, 128, p);
    Distribute(g, 1, p);
    Commute(p, g);
    Place(result, g, 7 * j, TWO32);
  }

  /** A terminating byte among the first four. */
  lemma EarlyEnd(s: Bytes, j: nat, result: nat)
    requires j < 4 && result < Pow2(7 * j) && Terminator(s) == Some(0)
    ensures Varint32Loop(s, 7 * j, result) == Read32(s, j, result, 0)
  {
    hide Or, Pow2, Shifted, Varint32Loop, Overflows, Gathered, TailOk;
    var g := s[0] as int % 128;
    Step32(s, 7 * j, result);
    GatheredOne(s, j, result);
    RoomyPlace32(result, g, j);
  }

  /** Another one. */
  lemma EarlyStep(s: Bytes, j: nat, result: nat, n: nat)
    requires j < 4 && result < Pow2(7 * j) && Terminator(s) == Some(n) && n > 0
    ensures Terminator(s[1..]) == Some(n - 1)
    ensures var r' := result + Pow2(7 * j) * (s[0] as int % 128);
      0 <= r' < Pow2(7 * (j + 1)) && Varint32Loop(s, 7 * j, result) == Varint32Loop(s[1..], 7 * (j + 1), r')
  {
    hide Or, Pow2, Shifted, Varint32Loop, Overflows;
    Step32(s, 7 * j, result);
    RoomyPlace32(result, s[0] as int % 128, j);
  }

  /** The fifth byte and what follows. */
  lemma FifthIs(s: Bytes, result: nat, n: nat)
    requires result < 0x1000_0000 && Terminator(s) == Some(n) && n + 4 <= 36
    ensures Varint32Loop(s, 28, result) == Read32(s, 4, result, n)
  {
    hide Or, Pow2, Shifted, Varint32Loop, Overflows, Gathered, TailOk;
    LowGroups();
    Step32(s, 28, result);
    GatheredOne(s, 4, result);
    FifthByte(result, s[0]);
    if n > 0 {
      var low := (result + 0x1000_0000 * (s[0] as int % 128)) % 0x1_0000_0000;
      TailIs(s[1..], 5, low, n - 1);
      ShiftedTail(s, 1, n, 4, low);
      assert s[1..][n..] == s[n + 1..];
    }
  }

  lemma {:induction false} Varint32LoopIs(s: Bytes, j: nat, result: nat, n: nat)
    requires j <= 4 && result < Pow2(7 * j) && Terminator(s) == Some(n) && n + j <= 36
    ensures Varint32Loop(s, 7 * j, result) == Read32(s, j, result, n)
    decreases n
  {
    hide Pow2, Varint32Loop, Terminator, Read32;
    if j == 4 {
      LowGroups();
      FifthIs(s, result, n);
    } else if n == 0 {
      EarlyEnd(s, j, result);
    } else {
      EarlyStep(s, j, result, n);
      ReadNext(s, j, result, n);
      Varint32LoopIs(s[1..], j + 1, result + Pow2(7 * j) * (s[0] as int % 128), n - 1);
    }
  }

  lemma ReadFirst(s: Bytes, n: nat)
    requires Terminator(s) == Some(n) && n <= 36
    ensures Varint32(s) == Read32(s, 0, 0, n)
  {
    hide Varint32Loop, Read32, Base128, Gathered;
    assert Pow2(0) == 1;
    if n == 0 {
      SingleByte(s);
    } else {
      LowGroups();
      ReadNext(s, 0, 0, n);
      Varint32LoopIs(s[1..], 1, s[0] as int % 128, n - 1);
    }
  }

  lemma SingleByte(s: Bytes)
    requires s != [] && s[0] < 128
    ensures Read32(s, 0, 0, 0) == Some(Got(s[0] as int, s[1..]))
  {
    hide Gathered;
    assert Pow2(0) == 1;
    GatheredOne(s, 0, 0);
  }

  lemma GatheredAll(s: Bytes, k: nat)
    requires k <= |s|
    ensures Gathered(s, 0, 0, k) == Base128(s[..k])
  {
    assert Pow2(0) == 1;
  }

  lemma NoneRead(s: Bytes)
    requires Terminator(s) == None
    ensures Varint32(s) == None
  {
    hide Varint32Loop;
    if s != [] { Unterminated(s[1..], 7, s[0] as int % 128); }
  }

  /** What the 32-bit decoder makes of any bytes, up to 37 of which are one varint: of the fifth byte only four bits
      may be set, unless it is a negative number whose sign fills all groups up to bit 63. */
  lemma Varint32Is(s: Bytes)
    ensures Terminator(s) == None ==> Varint32(s) == None
    ensures Terminator(s).Some? && Terminator(s).value <= 36 ==>
      var n := Terminator(s).value;
      Varint32(s) ==
        if n < 4 || (n == 4 && s[4] < 16) then Some(Got(Base128(s[..n + 1]), s[n + 1..]))
        else if n == 4 then None
        else
          var low := Base128(s[..5]) % 0x1_0000_0000;
          if forall i :: 5 <= i <= n ==> HighOk(s[i], i, low) then Some(Got(low, s[n + 1..])) else None
  {
    hide Varint32, Varint32Loop, Base128, HighOk, Gathered;
    match Terminator(s)
    case None => NoneRead(s);
    case Some(n) =>
      if n <= 36 {
        ReadFirst(s, n);
        GatheredAll(s, if n <= 4 then n + 1 else 5);
      }
  }
}
