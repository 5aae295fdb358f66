// The arbitrary-precision integers of web/sqflite_sw.js (`A.a7`): sign, digit array, digits in use.

module BigInts {
  import opened Bits
  import opened Products
  import opened DigitValues
  import opened BigDigits

  /** A digit array is never written again once a number holds it. */
  datatype BigInt = BigInt(neg: bool, digits: array<Digit>, used: nat) {

    /** No leading zero digit, and zero is not negative. */
    ghost predicate Valid()
      reads digits
    {
      && used <= digits.Length
      && (used > 0 ==> digits[used - 1] != 0)
      && (used == 0 ==> !neg)
    }

    ghost function Abs(): nat
      requires used <= digits.Length
      reads digits
    {
      Val(digits[..used])
    }

    ghost function Value(): int
      requires used <= digits.Length
      reads digits
    {
      if neg then -(Abs() as int) else Abs()
    }
  }

  lemma AbsZero(x: BigInt)
    requires x.Valid()
    ensures x.Abs() == 0 <==> x.used == 0
    ensures x.Value() == 0 <==> x.used == 0
    ensures x.used > 0 ==> Pow(x.used - 1) <= x.Abs()
    ensures x.Abs() < Pow(x.used)
  {
    ValBound(x.digits[..x.used]);
    if x.used > 0 {
      ValTop(x.digits[..x.used]);
      MulMono(1, x.digits[x.used - 1], Pow(x.used - 1));
    }
  }

  /** The constructor call that closes every operation: trim, and keep zero non-negative. */
  method Make(neg: bool, digits: array<Digit>, n: nat) returns (r: BigInt)
    requires n <= digits.Length
    ensures r.Valid() && r.digits == digits && (r.neg ==> neg)
    ensures r.Value() == if neg then -(Val(digits[..n]) as int) else Val(digits[..n])
  {
    var m := Normalized(n, digits);
    r := BigInt(m != 0 && neg, digits, m);
    AbsZeroDigits(digits[..0]);
  }

  lemma AbsZeroDigits(s: seq<Digit>)
    requires s == []
    ensures Val(s) == 0
  {
  }

  /** `B.c.gdG`: the number of bits of a positive integer. */
  function BitLength(x: nat): nat {
    if x == 0 then 0 else 1 + BitLength(x / 2)
  }

  lemma {:induction false} BitLengthBounds(x: nat)
    ensures x < Pow2(BitLength(x))
    ensures x > 0 ==> BitLength(x) > 0 && Pow2(BitLength(x) - 1) <= x
  {
    if x > 0 { BitLengthBounds(x / 2); }
  }

  /** `A.ly`. */
  method FromInt(x: int) returns (r: BigInt)
    ensures r.Valid() && r.Value() == x && fresh(r.digits)
  {
    var a := x;
    var o := a < 0;
    if o {
      if a == -0x8000_0000_0000_0000 {
        var s := new Digit[4](_ => 0);
        s[3] := 32768;
        assert s[..4] == [0, 0, 0, 32768];
        LongMin();
        r := Make(true, s, 4);
        return;
      }
      a := -a;
    }
    if a < 65536 {
      var s := new Digit[1](_ => 0);
      s[0] := a;
      assert s[..1] == [a];
      ValEmpty();
      r := Make(o, s, 1);
      return;
    }
    if a <= 4294967295 {
      var s := new Digit[2](_ => 0);
      s[0] := a % 65536;
      s[1] := a / 65536;
      assert s[..2] == [a % 65536, a / 65536] && s[..2][1..] == [a / 65536];
      ValEmpty();
      r := Make(o, s, 2);
      return;
    }
    var n := (BitLength(a) - 1) / 16 + 1;
    DigitsNeeded(a, n);
    var s := SplitOff(a, n);
    r := Make(o, s, n);
  }

  /** The loop of `A.ly`: low digits first. */
  method SplitOff(whole: nat, n: nat) returns (s: array<Digit>)
    requires whole < Pow(n)
    ensures fresh(s) && s.Length == n && Val(s[..n]) == whole
  {
    hide Val, Pow;
    ValEmpty();
    s := new Digit[n](_ => 0);
    var a, q := whole, 0;
    while a != 0
      invariant 0 <= q <= n && 0 <= a < Pow(n - q)
      invariant Val(s[..][..q]) + a * Pow(q) == whole
      invariant forall i :: q <= i < n ==> s[i] == 0
    {
      ghost var before, a0 := s[..][..q], a;
      LastDigit(a, n - q);
      s[q] := a % 65536;
      a := a / 65536;
      assert s[..][..q] == before;
      ValPrefix(s[..], q);
      NextDigit(a0, q);
      q := q + 1;
    }
    ValTrimmed(s[..], q);
    assert s[..] == s[..n];
  }

  lemma LastDigit(a: nat, k: nat)
    requires 0 < a < Pow(k)
    ensures k > 0 && a / 65536 < Pow(k - 1)
  {
  }

  lemma NextDigit(a: nat, q: nat)
    ensures a * Pow(q) == Pow(q) * (a % 65536) + (a / 65536) * Pow(q + 1)
  {
    Distribute(a % 65536, 65536 * (a / 65536), Pow(q));
    Regroup(a / 65536, 65536, Pow(q));
    Commute(a % 65536, Pow(q));
  }

  lemma LongMin()
    ensures Val([0, 0, 0, 32768]) == 0x8000_0000_0000_0000
  {
    assert Val([32768]) == 32768;
    assert [0, 0, 0, 32768][1..] == [0, 0, 32768] && [0, 0, 32768][1..] == [0, 32768] && [0, 32768][1..] == [32768];
  }

  lemma DigitsNeeded(a: nat, n: nat)
    requires a > 0 && n == (BitLength(a) - 1) / 16 + 1
    ensures a < Pow(n)
  {
    BitLengthBounds(a);
    PowIsPow2(n);
    Pow2Monotone(BitLength(a), 16 * n);
  }

  /** `a6`. */
  method Negate(x: BigInt) returns (r: BigInt)
    requires x.Valid()
    ensures r.Valid() && r.Value() == -x.Value() && r.digits == x.digits
  {
    if x.used == 0 {
      AbsZero(x);
      return x;
    }
    r := Make(!x.neg, x.digits, x.used);
  }

  /** `a0`. */
  method Compare(x: BigInt, y: BigInt) returns (o: int)
    requires x.Valid() && y.Valid()
    ensures o < 0 <==> x.Value() < y.Value()
    ensures o == 0 <==> x.Value() == y.Value()
  {
    AbsZero(x);
    AbsZero(y);
    if x.neg == y.neg {
      var r := CompareDigits(x.digits, x.used, y.digits, y.used);
      return if x.neg then -r else r;
    }
    return if x.neg then -1 else 1;
  }

  /** `bR`: add magnitudes, with the given sign. */
  method AddAbs(x: BigInt, y: BigInt, neg: bool) returns (r: BigInt)
    requires x.Valid() && y.Valid()
    ensures r.Valid() && r.Value() == if neg then -(x.Abs() + y.Abs()) else x.Abs() + y.Abs()
    decreases x.used < y.used
  {
    AbsZero(x);
    AbsZero(y);
    if x.used < y.used {
      r := AddAbs(y, x, neg);
      return;
    }
    if x.used == 0 {
      r := FromInt(0);
      return;
    }
    if y.used == 0 {
      if x.neg == neg { return x; }
      r := Negate(x);
      return;
    }
    var s := x.used + 1;
    var d := new Digit[s](_ => 0);
    AddDigits(x.digits, x.used, y.digits, y.used, d);
    r := Make(neg, d, s);
  }

  /** `b7`: subtract magnitudes, with the given sign. */
  method SubAbs(x: BigInt, y: BigInt, neg: bool) returns (r: BigInt)
    requires x.Valid() && y.Valid() && x.Abs() >= y.Abs()
    ensures r.Valid() && r.Value() == if neg then -(x.Abs() - y.Abs()) else x.Abs() - y.Abs()
  {
    AbsZero(x);
    AbsZero(y);
    if x.used == 0 {
      r := FromInt(0);
      return;
    }
    if y.used == 0 {
      if x.neg == neg { return x; }
      r := Negate(x);
      return;
    }
    if x.used < y.used {
      ShorterIsSmaller(x.digits[..x.used], y.digits[..y.used]);
    }
    var d := new Digit[x.used](_ => 0);
    SubtractDigits(x.digits, x.used, y.digits, y.used, d);
    r := Make(neg, d, x.used);
  }

  /** `b5`. */
  method Add(x: BigInt, y: BigInt) returns (r: BigInt)
    requires x.Valid() && y.Valid()
    ensures r.Valid() && r.Value() == x.Value() + y.Value()
  {
    AbsZero(x);
    AbsZero(y);
    if x.used == 0 { return y; }
    if y.used == 0 { return x; }
    if x.neg == y.neg {
      r := AddAbs(x, y, x.neg);
      return;
    }
    var o := CompareDigits(x.digits, x.used, y.digits, y.used);
    if o >= 0 {
      r := SubAbs(x, y, x.neg);
    } else {
      r := SubAbs(y, x, !x.neg);
    }
  }

  /** `aN`. */
  method Subtract(x: BigInt, y: BigInt) returns (r: BigInt)
    requires x.Valid() && y.Valid()
    ensures r.Valid() && r.Value() == x.Value() - y.Value()
  {
    AbsZero(x);
    AbsZero(y);
    if x.used == 0 {
      r := Negate(y);
      return;
    }
    if y.used == 0 { return x; }
    if x.neg != y.neg {
      r := AddAbs(x, y, x.neg);
      return;
    }
    var o := CompareDigits(x.digits, x.used, y.digits, y.used);
    if o >= 0 {
      r := SubAbs(x, y, x.neg);
    } else {
      r := SubAbs(y, x, !x.neg);
    }
  }

  /** The partial product fits, and is what the definition of Val says. */
  lemma PartialProduct(x: seq<Digit>, y: seq<Digit>, n: nat, top: nat)
    requires n < |y| && |x| + n + 1 <= top
    ensures Val(x) * Val(y[..n]) + Multiple(y[n], x, n) == Val(x) * Val(y[..n + 1])
    ensures Val(x) * Val(y[..n + 1]) < Pow(top)
  {
    hide Val, Pow;
    ValPrefix(y, n);
    var v, P, d := Val(x), Pow(n), y[n] as int;
    Distribute(Val(y[..n]), P * d, v);
    Commute(P, d);
    Regroup(v, d, P);
    Commute(v, d);
    ValBound(x);
    ValBound(y[..n + 1]);
    var w := Val(y[..n + 1]);
    PowPlus(|x|, n + 1);
    PowMonotone(|x| + n + 1, top);
    MulMono(v, Pow(|x|), w);
    MulMonoStrict(w, Pow(n + 1), Pow(|x|));
  }

  /** `b6`. */
  method Multiply(x: BigInt, y: BigInt) returns (r: BigInt)
    requires x.Valid() && y.Valid()
    ensures r.Valid() && r.Value() == x.Value() * y.Value()
  {
    hide Val, Pow, Multiple;
    AbsZero(x);
    AbsZero(y);
    ghost var X, Y := x.digits[..x.used], y.digits[..y.used];
    if x.used == 0 || y.used == 0 {
      r := FromInt(0);
      Commute(x.Value(), y.Value());
      return;
    }
    var s := x.used + y.used;
    var p := new Digit[s](_ => 0);
    ValZeros(p[..s]);
    ValEmpty();
    var n := 0;
    assert Y[..0] == [];
    while n < y.used
      invariant 0 <= n <= y.used && p.Length == s && fresh(p)
      invariant Val(p[..s]) == Val(X) * Val(Y[..n])
    {
      assert x.digits[0..x.used] == X && Y[n] == y.digits[n];
      PartialProduct(X, Y, n, s);
      MultiplyAdd(y.digits[n], x.digits, 0, p, n, x.used, s);
      n := n + 1;
    }
    assert Y[..n] == Y;
    r := Make(x.neg != y.neg, p, s);
    Signs(x.Abs(), y.Abs());
  }

  lemma Signs(a: int, b: int)
    ensures (-a) * b == -(a * b) && a * (-b) == -(a * b) && (-a) * (-b) == a * b
  {
  }

  // ----- shift right

  predicate AnyNonZero(s: seq<Digit>) {
    exists i :: 0 <= i < |s| && s[i] != 0
  }

  lemma {:induction false} AnyNonZeroIsPositive(s: seq<Digit>)
    ensures AnyNonZero(s) <==> Val(s) > 0
  {
    if !AnyNonZero(s) {
      ValZeros(s);
    } else {
      var i :| 0 <= i < |s| && s[i] != 0;
      ValSplit(s, i);
      ValSplit(s[i..], 1);
      assert s[i..][..1] == [s[i]];
      ValEmpty();
      MulMono(1, Val(s[i..]), Pow(i));
      MulNonNegative(Pow(1), Val(s[i..][1..]));
    }
  }

  /** Rounding towards minus infinity, from quotient and remainder of the magnitude. */
  lemma FloorOfNegative(a: int, p: nat, d: int, low: int)
    requires a >= 0 && d >= 0 && a == p * d + low && 0 <= low < p
    ensures a / p == d
    ensures (-a) / p == if low == 0 then -d else -d - 1
  {
    Division(a, p);
    Commute(p, d);
    Commute(p, a / p);
    QuotientUnique(a / p, p, d, a % p, low);
    FloorUnique(-a, p, if low == 0 then -d else -d - 1, if low == 0 then 0 else p - low);
  }

  lemma FloorUnique(n: int, p: nat, q: int, r: nat)
    requires r < p && n == p * q + r
    ensures n / p == q
  {
    var q', r' := n / p, n % p;
    assert n == p * q' + r' && 0 <= r' < p;
    Distribute(q, 1, p);
    Distribute(q', 1, p);
    if q < q' { MulMono(q + 1, q', p); } else if q' < q { MulMono(q' + 1, q, p); }
  }

  /** Everything is shifted out: zero, or minus one for a negative number. */
  lemma ShiftedOut(x: BigInt, n: nat)
    requires x.Valid() && x.used > 0 && 16 * x.used <= n
    ensures x.Value() / Pow2(n) == if x.neg then -1 else 0
  {
    AbsZero(x);
    PowIsPow2(x.used);
    Pow2Monotone(16 * x.used, n);
    Commute(Pow2(n), 0);
    FloorOfNegative(x.Abs(), Pow2(n), 0, x.Abs());
  }

  /** Dropping `drop` digits and then `bits` bits. */
  lemma FloorByParts(s: seq<Digit>, drop: nat, bits: nat, d: nat, low: nat)
    requires drop <= |s| && low < Pow2(bits) && Val(s[drop..]) == Pow2(bits) * d + low
    ensures var P := Pow2(16 * drop + bits);
      && Val(s) == P * d + (Pow(drop) * low + Val(s[..drop]))
      && 0 <= Pow(drop) * low + Val(s[..drop]) < P
    ensures Pow(drop) * low + Val(s[..drop]) == 0 <==> low == 0 && Val(s[..drop]) == 0
  {
    hide Val, Pow, Pow2;
    ValSplit(s, drop);
    ValBound(s[..drop]);
    PowIsPow2(drop);
    Pow2Plus(16 * drop, bits);
    var D, K := Pow(drop), Pow2(bits);
    Distribute(K * d, low, D);
    Regroup(D, K, d);
    MulMono(low + 1, K, D);
    Distribute(low, 1, D);
    MulNonNegative(D, low);
    if low > 0 { MulMono(1, low, D); } else { Commute(D, 0); }
  }

  /** Dropping whole digits. */
  lemma FloorByDigits(s: seq<Digit>, drop: nat)
    requires drop <= |s|
    ensures var P, d, low := Pow2(16 * drop), Val(s[drop..]), Val(s[..drop]);
      Val(s) / P == d && (0 - Val(s)) / P == if low == 0 then 0 - d else 0 - d - 1
  {
    hide Val, Pow, Pow2;
    Pow2Zero();
    FloorByParts(s, drop, 0, Val(s[drop..]), 0);
    Commute(Pow(drop), 0);
    FloorOfNegative(Val(s), Pow2(16 * drop), Val(s[drop..]), Val(s[..drop]));
  }

  /** `eV`: drop a digits, rounding down. */
  method ShiftRightDigits(x: BigInt, a: nat) returns (r: BigInt)
    requires x.Valid()
    ensures r.Valid() && r.Value() == x.Value() / Pow2(16 * a)
  {
    hide Val, Pow, Pow2;
    if x.used == 0 {
      AbsZero(x);
      ZeroShifted(16 * a);
      r := FromInt(0);
      return;
    }
    if x.used <= a {
      ShiftedOut(x, 16 * a);
      r := FromInt(if x.neg then -1 else 0);
      return;
    }
    var s := x.used - a;
    var q := CloneDigits(x.digits, a, x.used, s);
    assert q[..s] == x.digits[a..x.used];
    r := Make(x.neg, q, s);
    ghost var X := x.digits[..x.used];
    assert X[a..] == q[..s] && X[..a] == x.digits[..a];
    FloorByDigits(X, a);
    AnyNonZeroIsPositive(X[..a]);
    if x.neg {
      var o := 0;
      while o < a
        invariant 0 <= o <= a
        invariant forall i :: 0 <= i < o ==> X[i] == 0
      {
        if x.digits[o] != 0 {
          assert X[..a][o] != 0;
          var one := FromInt(1);
          r := Subtract(r, one);
          return;
        }
        o := o + 1;
      }
    }
  }

  lemma ZeroShifted(n: nat)
    ensures 0 / Pow2(n) == 0
  {
    Commute(Pow2(n), 0);
    FloorUnique(0, Pow2(n), 0, 0);
  }

  /** `aL`: floor division by 2^n; a negative amount throws. */
  method ShiftRightBits(x: BigInt, n: int) returns (thrown: bool, r: BigInt)
    requires x.Valid()
    ensures thrown == (n < 0)
    ensures !thrown ==> r.Valid() && r.Value() == x.Value() / Pow2(n)
  {
    hide Val, Pow, Pow2, Low;
    if n < 0 {
      return true, x;
    }
    thrown := false;
    var s := x.used;
    if s == 0 {
      AbsZero(x);
      ZeroShifted(n);
      return false, x;
    }
    var r0, q := n / 16, n % 16;
    if q == 0 {
      r := ShiftRightDigits(x, r0);
      return;
    }
    var p := s - r0;
    if p <= 0 {
      ShiftedOut(x, n);
      r := FromInt(if x.neg then -1 else 0);
      return;
    }
    var o := x.digits;
    var d := new Digit[p](_ => 0);
    ShiftRight(o, s, n, d);
    r := Make(x.neg, d, p);
    ghost var X, low := o[..s], BigDigits.Low(o[r0], q);
    assert X[r0..] == o[r0..s] && X[..r0] == o[..r0];
    LowBound(o[r0], q);
    FloorByParts(X, r0, q, Val(d[..p]), low);
    FloorOfNegative(x.Abs(), Pow2(n), Val(d[..p]), Pow(r0) * low + Val(X[..r0]));
    AnyNonZeroIsPositive(X[..r0]);
    if x.neg {
      if BigDigits.Low(o[r0], q) != 0 {
        var one := FromInt(1);
        r := Subtract(r, one);
        return;
      }
      var k := 0;
      while k < r0
        invariant 0 <= k <= r0
        invariant forall i :: 0 <= i < k ==> X[i] == 0
      {
        if o[k] != 0 {
          assert X[..r0][k] != 0;
          var one := FromInt(1);
          r := Subtract(r, one);
          return;
        }
        k := k + 1;
      }
    }
  }

  lemma LowBound(x: nat, k: nat)
    ensures Low(x, k) < Pow2(k)
  {
  }
}
