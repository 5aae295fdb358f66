// Shared by the models of LevelDB, nanopb and the web library: options, bytes, strings and fixed-width numbers.

module Basics {
  import opened Products

  type Byte = b: int | 0 <= b < 256
  type Bytes = seq<Byte>

  datatype Option<T> = None | Some(value: T)

  lemma Reassociate<T>(a: seq<T>, b: seq<T>, c: seq<T>)
    ensures a + b + c == a + (b + c)
  {
  }

  /** `PutFixed64`, least significant byte first. */
  function Fixed(v: nat, width: nat): (r: Bytes)
    ensures |r| == width
  {
    if width == 0 then [] else [v % 256] + Fixed(v / 256, width - 1)
  }

  /** `DecodeFixed64`. */
  function DecodeFixed(b: Bytes): nat {
    if |b| == 0 then 0 else b[0] + 256 * DecodeFixed(b[1..])
  }

  function Power256(n: nat): (p: nat)
    ensures p > 0
  {
    if n == 0 then 1 else 256 * Power256(n - 1)
  }

  lemma {:induction false} FixedRoundTrip(v: nat, width: nat)
    requires v < Power256(width)
    ensures DecodeFixed(Fixed(v, width)) == v
  {
    if width > 0 {
      FixedRoundTrip(v / 256, width - 1);
      assert Fixed(v, width)[1..] == Fixed(v / 256, width - 1);
    }
  }

  lemma {:induction false} FixedOf(b: Bytes)
    ensures Fixed(DecodeFixed(b), |b|) == b
  {
    if b != [] {
      FixedOf(b[1..]);
      var v := DecodeFixed(b[1..]);
      DivMod(DecodeFixed(b), 256, v, b[0]);
      assert Fixed(DecodeFixed(b), |b|) == [b[0]] + Fixed(v, |b| - 1) == [b[0]] + b[1..] == b;
    }
  }

  /** The least significant byte first. */
  lemma {:induction false} FixedByte(v: nat, width: nat, j: nat)
    requires j < width
    ensures Fixed(v, width)[j] == v / Power256(j) % 256
  {
    if j == 0 {
      assert Power256(0) == 1;
    } else {
      FixedByte(v / 256, width - 1, j - 1);
      DivideTwice(v, 256, Power256(j - 1));
    }
  }

  lemma Powers()
    ensures Power256(4) == 0x1_0000_0000 && Power256(8) == 0x1_0000_0000_0000_0000
  {
  }
}
