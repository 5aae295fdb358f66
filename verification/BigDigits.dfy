// The digit routines of the arbitrary-precision integers in web/sqflite_sw.js: numbers are arrays of
// 16-bit digits, least significant first, written in place by carry and borrow loops. Digits have a
// type of their own, so every array write also proves that no bit is lost in a Uint16Array.

module DigitValues {
  import opened Bits
  import opened Products

  type Digit = d: int | 0 <= d < 65536

  /** 65536 to the power of n. */
  function Pow(n: nat): (p: nat)
    ensures p > 0
  {
    if n == 0 then 1 else 65536 * Pow(n - 1)
  }

  /** The number that a digit sequence stands for. */
  function Val(s: seq<Digit>): (v: nat) {
    if |s| == 0 then 0 else s[0] + 65536 * Val(s[1..])
  }

  lemma ValEmpty()
    ensures Val([]) == 0 && Pow(0) == 1 && Pow(1) == 65536
    ensures forall d: Digit :: Val([d]) == d
  {
  }

  lemma {:induction false} PowPlus(m: nat, n: nat)
    ensures Pow(m + n) == Pow(m) * Pow(n)
  {
    if m > 0 {
      PowPlus(m - 1, n);
      Regroup(65536, Pow(m - 1), Pow(n));
    }
  }

  lemma {:induction false} PowMonotone(m: nat, n: nat)
    requires m <= n
    ensures Pow(m) <= Pow(n)
  {
    if m < n { PowMonotone(m, n - 1); }
  }

  lemma {:induction false} PowIsPow2(n: nat)
    ensures Pow(n) == Pow2(16 * n)
  {
    if n > 0 {
      PowIsPow2(n - 1);
      Pow2Of16();
      Pow2Plus(16, 16 * (n - 1));
    }
  }

  lemma {:induction false} ValSplit(s: seq<Digit>, i: nat)
    requires i <= |s|
    ensures Val(s) == Val(s[..i]) + Pow(i) * Val(s[i..])
  {
    if i == 0 {
      assert s[..0] == [] && s[0..] == s;
    } else {
      ValSplit(s[1..], i - 1);
      assert s[1..][..i - 1] == s[..i][1..] && s[1..][i - 1..] == s[i..];
      Regroup(65536, Pow(i - 1), Val(s[i..]));
    }
  }

  lemma ValPrefix(s: seq<Digit>, i: nat)
    requires i < |s|
    ensures Val(s[..i + 1]) == Val(s[..i]) + Pow(i) * s[i]
  {
    ValSplit(s[..i + 1], i);
    assert s[..i + 1][..i] == s[..i] && s[..i + 1][i..] == [s[i]];
    assert Val([s[i]]) == s[i] + 65536 * Val([]);
  }

  lemma {:induction false} ValBound(s: seq<Digit>)
    ensures Val(s) < Pow(|s|)
  {
    if |s| > 0 { ValBound(s[1..]); }
  }

  lemma {:induction false} ValZeros(s: seq<Digit>)
    requires forall i :: 0 <= i < |s| ==> s[i] == 0
    ensures Val(s) == 0
  {
    if |s| > 0 { ValZeros(s[1..]); }
  }

  /** A prefix of zeros multiplies by a power of the base. */
  lemma ValShifted(s: seq<Digit>, c: nat)
    requires c <= |s|
    requires forall i :: 0 <= i < c ==> s[i] == 0
    ensures Val(s) == Val(s[c..]) * Pow(c)
  {
    ValSplit(s, c);
    ValZeros(s[..c]);
    Commute(Pow(c), Val(s[c..]));
  }

  /** Leading zeros do not count. */
  lemma ValTrimmed(s: seq<Digit>, n: nat)
    requires n <= |s|
    requires forall i :: n <= i < |s| ==> s[i] == 0
    ensures Val(s) == Val(s[..n])
  {
    hide Val, Pow;
    ValSplit(s, n);
    ValZeros(s[n..]);
    Commute(Pow(n), 0);
  }

  lemma ValTop(s: seq<Digit>)
    requires |s| > 0
    ensures Val(s) == Val(s[..|s| - 1]) + Pow(|s| - 1) * s[|s| - 1]
    ensures Pow(|s| - 1) * s[|s| - 1] <= Val(s) < Pow(|s| - 1) * (s[|s| - 1] as int + 1)
  {
    var n := |s| - 1;
    ValPrefix(s, n);
    assert s[..n + 1] == s;
    ValBound(s[..n]);
    Distribute(s[n], 1, Pow(n));
  }

  /** Low and high part of a digit sequence, from its value. */
  lemma ValParts(s: seq<Digit>, i: nat, high: nat, low: nat)
    requires i <= |s| && low < Pow(i) && Val(s) == high * Pow(i) + low
    ensures Val(s[..i]) == low && Val(s[i..]) == high
  {
    ValSplit(s, i);
    ValBound(s[..i]);
    var v := Val(s[i..]);
    Commute(Pow(i), v);
    QuotientUnique(v, Pow(i), high, Val(s[..i]), low);
  }
}

module BigDigits {
  import opened Bits
  import opened Products
  import opened DigitValues

  /** `A.aW`: the number of digits without leading zeros. */
  method Normalized(a: nat, b: array<Digit>) returns (n: nat)
    requires a <= b.Length
    ensures n <= a && (n > 0 ==> b[n - 1] != 0)
    ensures forall i :: n <= i < a ==> b[i] == 0
    ensures Val(b[..n]) == Val(b[..a])
  {
    n := a;
    while n > 0 && b[n - 1] == 0
      invariant n <= a
      invariant forall i :: n <= i < a ==> b[i] == 0
    {
      n := n - 1;
    }
    ValTrimmed(b[..a], n);
    assert b[..a][..n] == b[..n];
  }

  /** `A.og`: a fresh array of d digits whose first c - b are a[b..c]. */
  method CloneDigits(a: array<Digit>, b: nat, c: nat, d: nat) returns (p: array<Digit>)
    requires b <= c <= a.Length && c - b <= d
    ensures fresh(p) && p.Length == d
    ensures p[..c - b] == a[b..c]
    ensures forall i :: c - b <= i < d ==> p[i] == 0
  {
    p := new Digit[d](_ => 0);
    var o := c - b;
    var r := 0;
    while r < o
      invariant r <= o && p[..r] == a[b..b + r]
      invariant forall i :: r <= i < d ==> p[i] == 0
    {
      p[r] := a[b + r];
      r := r + 1;
    }
  }

  /** `A.oh`: shift left by c whole digits; source and destination may be the same array. */
  method ShiftDigits(a: array<Digit>, b: nat, c: nat, d: array<Digit>) returns (n: nat)
    requires b <= a.Length && b + c <= d.Length
    modifies d
    ensures n == if b == 0 then 0 else b + c
    ensures Val(d[..n]) == Val(old(a[..b])) * Pow(c)
    ensures b > 0 ==> d[c..n] == old(a[..b]) && d[n..] == old(d[n..])
  {
    if b == 0 {
      return 0;
    }
    if c == 0 && d == a {
      assert Pow(0) == 1;
      return b;
    }
    var s := b;
    while s > 0
      invariant 0 <= s <= b
      invariant forall i :: 0 <= i < s ==> a[i] == old(a[i])
      invariant forall i :: s <= i < b ==> d[i + c] == old(a[i])
      invariant d[b + c..] == old(d[b + c..])
    {
      s := s - 1;
      d[s + c] := a[s];
    }
    assert d[c..b + c] == old(a[..b]) by {
      forall i | 0 <= i < b ensures d[c..b + c][i] == old(a[..b])[i] {
        assert d[c..b + c][i] == d[i + c];
      }
    }
    s := c;
    while s > 0
      invariant s <= c
      invariant forall i :: s <= i < c ==> d[i] == 0
      invariant d[c..b + c] == old(a[..b]) && d[b + c..] == old(d[b + c..])
    {
      s := s - 1;
      d[s] := 0;
    }
    n := b + c;
    ValShifted(d[..n], c);
    assert d[..n][c..] == d[c..n];
  }

  /** `A.lz`. */
  method CompareDigits(a: array<Digit>, b: nat, c: array<Digit>, d: nat) returns (o: int)
    requires b <= a.Length && d <= c.Length
    requires b != d ==> (b > 0 ==> a[b - 1] != 0) && (d > 0 ==> c[d - 1] != 0)
    ensures o < 0 <==> Val(a[..b]) < Val(c[..d])
    ensures o == 0 <==> Val(a[..b]) == Val(c[..d])
  {
    o := b - d;
    if o == 0 {
      var s := b;
      while s > 0
        invariant 0 <= s <= b && o == 0 && a[s..b] == c[s..b]
      {
        s := s - 1;
        o := a[s] as int - c[s];
        if o != 0 {
          MostSignificantDifference(a[..b], c[..b], s);
          return;
        }
      }
      assert a[..b] == a[0..b] && c[..b] == c[0..b];
    } else if o < 0 {
      ShorterIsSmaller(a[..b], c[..d]);
    } else {
      ShorterIsSmaller(c[..d], a[..b]);
    }
  }

  lemma ShorterIsSmaller(x: seq<Digit>, y: seq<Digit>)
    requires |x| < |y| && y[|y| - 1] != 0
    ensures Val(x) < Val(y)
  {
    ValBound(x);
    ValTop(y);
    PowMonotone(|x|, |y| - 1);
    MulMono(1, y[|y| - 1], Pow(|y| - 1));
  }

  lemma LeadingDigitDecides(P: nat, x: nat, y: nat, dx: nat, dy: nat)
    requires P * dx <= x < P * (dx + 1) && P * dy <= y < P * (dy + 1) && dx < dy
    ensures x < y
  {
    MulMono(dx + 1, dy, P);
  }

  lemma MostSignificantDifference(x: seq<Digit>, y: seq<Digit>, s: nat)
    requires |x| == |y| && s < |x| && x[s + 1..] == y[s + 1..] && x[s] != y[s]
    ensures x[s] < y[s] <==> Val(x) < Val(y)
    ensures Val(x) != Val(y)
  {
    hide Val, Pow;
    ValSplit(x, s + 1);
    ValSplit(y, s + 1);
    var xs, ys := x[..s + 1], y[..s + 1];
    ValTop(xs);
    ValTop(ys);
    assert xs[s] == x[s] && ys[s] == y[s];
    if x[s] < y[s] {
      LeadingDigitDecides(Pow(s), Val(xs), Val(ys), x[s], y[s]);
    } else {
      LeadingDigitDecides(Pow(s), Val(ys), Val(xs), y[s], x[s]);
    }
  }

  lemma CarryStep(P: int, sum: int, ve: int, x: int, carry: int, e: int, carry': int)
    requires ve + carry * P == sum && x + carry == e + 65536 * carry'
    ensures (ve + P * e) + carry' * (65536 * P) == sum + P * x
  {
    Distribute(x, carry, P);
    Distribute(e, 65536 * carry', P);
    Regroup(carry', 65536, P);
    Commute(P, carry);
  }

  /** One more digit of the result, one more digit x of the operands. */
  lemma SumStep(e: seq<Digit>, o: nat, sum: int, x: int, carry: int, carry': int)
    requires o < |e| && Val(e[..o]) + carry * Pow(o) == sum && x + carry == e[o] + 65536 * carry'
    ensures Val(e[..o + 1]) + carry' * Pow(o + 1) == sum + Pow(o) * x
  {
    ValPrefix(e, o);
    CarryStep(Pow(o), sum, Val(e[..o]), x, carry, e[o], carry');
  }

  /** The lowest o digits of the result and the carry p into the next one stand for this sum. */
  ghost predicate Accumulated(e: seq<Digit>, o: nat, p: int, sum: int) {
    o <= |e| && Val(e[..o]) + p * Pow(o) == sum
  }

  lemma NothingAccumulated(e: seq<Digit>)
    ensures Accumulated(e, 0, 0, 0)
  {
    assert e[..0] == [];
  }

  lemma OneAccumulated(e: seq<Digit>, e': seq<Digit>, o: nat, sum: int, x: int, carry: int, carry': int)
    requires Accumulated(e, o, carry, sum) && o < |e'| && e'[..o] == e[..o] && x + carry == e'[o] + 65536 * carry'
    ensures Accumulated(e', o + 1, carry', sum + Pow(o) * x)
  {
    hide Val, Pow;
    SumStep(e', o, sum, x, carry, carry');
  }

  /** A digit of both operands of an addition. */
  lemma SumDigit(a: seq<Digit>, c: seq<Digit>, e: seq<Digit>, e': seq<Digit>, o: nat, carry: int, carry': int)
    requires o < |a| && o < |c| && o < |e'| && o <= |e| && e'[..o] == e[..o]
    requires Accumulated(e, o, carry, Val(a[..o]) + Val(c[..o]))
    requires carry + a[o] + c[o] == e'[o] + 65536 * carry'
    ensures Accumulated(e', o + 1, carry', Val(a[..o + 1]) + Val(c[..o + 1]))
  {
    hide Val, Pow, Accumulated;
    ValPrefix(a, o);
    ValPrefix(c, o);
    OneAccumulated(e, e', o, Val(a[..o]) + Val(c[..o]), a[o] as int + c[o], carry, carry');
    Distribute(a[o], c[o], Pow(o));
  }

  /** A digit of both operands of a subtraction. */
  lemma DifferenceDigit(a: seq<Digit>, c: seq<Digit>, e: seq<Digit>, e': seq<Digit>, o: nat, carry: int, carry': int)
    requires o < |a| && o < |c| && o < |e'| && o <= |e| && e'[..o] == e[..o]
    requires Accumulated(e, o, carry, Val(a[..o]) - Val(c[..o]))
    requires carry + (a[o] as int - c[o]) == e'[o] + 65536 * carry'
    ensures Accumulated(e', o + 1, carry', Val(a[..o + 1]) - Val(c[..o + 1]))
  {
    hide Val, Pow, Accumulated;
    ValPrefix(a, o);
    ValPrefix(c, o);
    OneAccumulated(e, e', o, Val(a[..o]) - Val(c[..o]), a[o] as int - c[o], carry, carry');
    DistributeMinus(a[o], c[o], Pow(o));
  }

  /** A digit of the longer operand alone. */
  lemma CarryDigit(a: seq<Digit>, e: seq<Digit>, e': seq<Digit>, o: nat, other: int, carry: int, carry': int)
    requires o < |a| && o < |e'| && o <= |e| && e'[..o] == e[..o]
    requires Accumulated(e, o, carry, Val(a[..o]) + other)
    requires carry + a[o] == e'[o] + 65536 * carry'
    ensures Accumulated(e', o + 1, carry', Val(a[..o + 1]) + other)
  {
    hide Val, Pow, Accumulated;
    ValPrefix(a, o);
    OneAccumulated(e, e', o, Val(a[..o]) + other, a[o], carry, carry');
  }

  /** The last carry is a digit of its own. */
  lemma LastCarry(e: seq<Digit>, e': seq<Digit>, o: nat, p: int, sum: int)
    requires Accumulated(e, o, p, sum) && o < |e'| && e'[..o] == e[..o] && e'[o] == p
    ensures Val(e'[..o + 1]) == sum
  {
    ValPrefix(e', o);
    Commute(p, Pow(o));
  }

  /** `A.tX`: e := a + c, with one more digit for the carry. */
  method AddDigits(a: array<Digit>, b: nat, c: array<Digit>, d: nat, e: array<Digit>)
    requires d <= b <= a.Length && d <= c.Length && b < e.Length
    requires e != a && e != c
    modifies e
    ensures Val(e[..b + 1]) == Val(a[..b]) + Val(c[..d])
  {
    hide Val, Pow, Accumulated;
    ghost var sa, sc, before := a[..], c[..], e[..];
    ValEmpty();
    NothingAccumulated(e[..]);
    var p: int := 0;
    var o := 0;
    while o < d
      invariant o <= d && 0 <= p <= 1
      invariant Accumulated(e[..], o, p, Val(sa[..o]) + Val(sc[..o]))
    {
      ghost var carry: int := p;
      before := e[..];
      p := p + a[o] + c[o];
      e[o] := p % 65536;
      p := p / 65536;
      SumDigit(sa, sc, before, e[..], o, carry, p);
      o := o + 1;
    }
    while o < b
      invariant d <= o <= b && 0 <= p <= 1
      invariant Accumulated(e[..], o, p, Val(sa[..o]) + Val(sc[..d]))
    {
      ghost var carry: int := p;
      before := e[..];
      p := p + a[o];
      e[o] := p % 65536;
      p := p / 65536;
      CarryDigit(sa, before, e[..], o, Val(sc[..d]), carry, p);
      o := o + 1;
    }
    before := e[..];
    e[b] := p;
    LastCarry(before, e[..], b, p, Val(sa[..b]) + Val(sc[..d]));
    assert e[..][..b + 1] == e[..b + 1] && sa[..b] == a[..b] && sc[..d] == c[..d];
  }

  /** A difference that is not negative leaves no borrow. */
  lemma NoBorrow(e: seq<Digit>, o: nat, p: int, difference: nat)
    requires -1 <= p <= 0 && Accumulated(e, o, p, difference)
    ensures Val(e[..o]) == difference
  {
    ValBound(e[..o]);
  }

  function LowDigit(p: int): Digit {
    p % 65536
  }

  /** `0-(p>>16&1)` for a difference of two digits and a borrow. */
  function Borrow(p: int): (r: int)
    ensures -1 <= r <= 0
  {
    if p < 0 then -1 else 0
  }

  lemma BorrowSplits(p: int)
    requires -65536 <= p < 65536
    ensures p == LowDigit(p) + 65536 * Borrow(p)
  {
  }

  /** `A.hR`: e := a - c; the result may overwrite a. */
  method SubtractDigits(a: array<Digit>, b: nat, c: array<Digit>, d: nat, e: array<Digit>)
    requires d <= b <= a.Length && d <= c.Length && b <= e.Length && e != c
    requires Val(a[..b]) >= Val(c[..d])
    modifies e
    ensures Val(e[..b]) == old(Val(a[..b])) - Val(c[..d])
    ensures e[b..] == old(e[b..])
  {
    hide Val, Pow, LowDigit, Borrow, Accumulated;
    ghost var sa, sc, se, before := a[..], c[..], e[..], e[..];
    ValEmpty();
    NothingAccumulated(e[..]);
    var p: int := 0;
    var o := 0;
    while o < d
      invariant o <= d && -1 <= p <= 0
      invariant Accumulated(e[..], o, p, Val(sa[..o]) - Val(sc[..o]))
      invariant forall k :: o <= k < b ==> a[k] == sa[k]
      invariant e[b..] == se[b..]
    {
      ghost var carry: int := p;
      before := e[..];
      p := p + (a[o] as int - c[o]);
      BorrowSplits(p);
      e[o], p := LowDigit(p), Borrow(p);
      DifferenceDigit(sa, sc, before, e[..], o, carry, p);
      o := o + 1;
    }
    ghost var other: int := 0 - Val(sc[..d]);
    while o < b
      invariant d <= o <= b && -1 <= p <= 0
      invariant Accumulated(e[..], o, p, Val(sa[..o]) + other)
      invariant forall k :: o <= k < b ==> a[k] == sa[k]
      invariant e[b..] == se[b..]
    {
      ghost var carry: int := p;
      before := e[..];
      p := p + a[o];
      BorrowSplits(p);
      e[o], p := LowDigit(p), Borrow(p);
      CarryDigit(sa, before, e[..], o, other, carry, p);
      o := o + 1;
    }
    assert e[..][..b] == e[..b] && sc[..d] == c[..d] && sa[..b] == old(a[..b]);
    NoBorrow(e[..], b, p, Val(sa[..b]) + other);
  }

  lemma ProductStep(P: int, a: int, v: int, Pi: int, o: int, Pe: int)
    requires P == Pi * Pe
    ensures a * (v + Pi * o) * Pe == a * v * Pe + P * (a * o)
  {
    Distribute(v, Pi * o, a);
    Distribute(a * v, a * (Pi * o), Pe);
    Regroup(a, Pi * o, Pe);
    Regroup(Pi, o, Pe);
    Commute(o, Pe);
    Regroup(Pi, Pe, o);
    Regroup(a, P, o);
    Commute(a, P);
    Regroup(P, a, o);
  }

  /** s holds the sum of before and `added` up to digit e, q is the carry into digit e. */
  ghost predicate SumSoFar(s: seq<Digit>, before: seq<Digit>, e: nat, q: int, added: int) {
    e <= |s| == |before| && Val(s[..e]) + q * Pow(e) == Val(before[..e]) + added
  }

  ghost function Multiple(a: Digit, b: seq<Digit>, e0: nat): int {
    a * Val(b) * Pow(e0)
  }

  /** One turn of the multiply-and-add loop. */
  lemma MultiplyStep(d: seq<Digit>, d': seq<Digit>, b: seq<Digit>, a: Digit, e0: nat, i: nat, q: int, q': int)
    requires i < |b| && e0 + i < |d| == |d'|
    requires SumSoFar(d', d, e0 + i, q, Multiple(a, b[..i], e0))
    requires a * b[i] + d[e0 + i] + q == d'[e0 + i] + 65536 * q'
    ensures SumSoFar(d', d, e0 + i + 1, q', Multiple(a, b[..i + 1], e0))
  {
    hide Val, Pow;
    var P: nat, x: int := Pow(e0 + i), a * b[i] + d[e0 + i];
    SumStep(d', e0 + i, Val(d[..e0 + i]) + Multiple(a, b[..i], e0), x, q, q');
    ValPrefix(d, e0 + i);
    ValPrefix(b, i);
    PowPlus(i, e0);
    ProductStep(P, a, Val(b[..i]), Pow(i), b[i], Pow(e0));
    Distribute(a * b[i], d[e0 + i], P);
  }

  lemma CarryOut(s: seq<Digit>, d: seq<Digit>, e: nat, top: nat, added: int)
    requires e <= top <= |s| == |d|
    requires forall k :: e <= k < top ==> s[k] == d[k]
    requires Val(d[..e]) == Val(s[..e]) + added
    ensures Val(d[..top]) == Val(s[..top]) + added
  {
    ValSplit(d[..top], e);
    ValSplit(s[..top], e);
    assert d[..top][..e] == d[..e] && s[..top][..e] == s[..e];
    assert d[..top][e..] == s[..top][e..];
  }

  lemma PositiveCarry(q: int, P: nat)
    requires q >= 1
    ensures q * P >= P
  {
  }

  lemma MultiplyStart(s: seq<Digit>, a: Digit, b: seq<Digit>, e0: nat)
    requires e0 <= |s|
    ensures SumSoFar(s, s, e0, 0, Multiple(a, b[..0], e0))
    ensures Multiple(0, b, e0) == 0
  {
    assert b[..0] == [];
  }

  lemma MultiplyOne(d: seq<Digit>, d': seq<Digit>, d'': seq<Digit>, b: seq<Digit>, a: Digit, e0: nat, i: nat, q: int,
                    q': int)
    requires i < |b| && e0 + i < |d| == |d''|
    requires SumSoFar(d', d, e0 + i, q, Multiple(a, b[..i], e0)) && d''[..e0 + i] == d'[..e0 + i]
    requires a * b[i] + d[e0 + i] + q == d''[e0 + i] + 65536 * q'
    ensures SumSoFar(d'', d, e0 + i + 1, q', Multiple(a, b[..i + 1], e0))
  {
    MultiplyStep(d, d'', b, a, e0, i, q, q');
  }

  lemma CarryOne(d: seq<Digit>, d': seq<Digit>, d'': seq<Digit>, e: nat, q: int, q': int, added: int)
    requires e < |d| == |d''|
    requires SumSoFar(d', d, e, q, added) && d''[..e] == d'[..e]
    requires d[e] + q == d''[e] + 65536 * q'
    ensures SumSoFar(d'', d, e + 1, q', added)
  {
    hide Val, Pow;
    SumStep(d'', e, Val(d[..e]) + added, d[e], q, q');
    ValPrefix(d, e);
  }

  lemma NoCarryAtTop(d: seq<Digit>, d': seq<Digit>, top: nat, q: int, added: int)
    requires SumSoFar(d', d, top, q, added) && Val(d[..top]) + added < Pow(top) && q >= 0
    ensures q == 0
  {
    if q >= 1 { PositiveCarry(q, Pow(top)); }
  }

  lemma CarriesDone(d: seq<Digit>, d': seq<Digit>, e: nat, top: nat, added: int)
    requires e <= top <= |d| == |d'| && SumSoFar(d', d, e, 0, added)
    requires forall k :: e <= k < top ==> d[k] == d'[k]
    ensures Val(d'[..top]) == Val(d[..top]) + added
  {
    CarryOut(d, d', e, top, added);
  }

  /** `A.pH`: d := d + a * b[c0..c0 + f] * 65536^e0. When the sum fits below digit `top`, no carry
      leaves that range. */
  method MultiplyAdd(a: Digit, b: array<Digit>, c0: nat, d: array<Digit>, e0: nat, f: nat, ghost top: nat)
    requires b != d && c0 + f <= b.Length && e0 + f <= top <= d.Length
    requires Val(d[..top]) + Multiple(a, b[c0..c0 + f], e0) < Pow(top)
    modifies d
    ensures Val(d[..top]) == old(Val(d[..top])) + Multiple(a, b[c0..c0 + f], e0)
    ensures d[top..] == old(d[top..])
  {
    hide Val, Pow, SumSoFar, Multiple;
    ghost var sb, sd := b[c0..c0 + f], d[..];
    assert sd[..top] == d[..top];
    MultiplyStart(sd, a, sb, e0);
    if a == 0 {
      return;
    }
    var q, c, e, k := 0, c0, e0, f;
    while k > 0
      invariant 0 <= k <= f && c == c0 + f - k && e == e0 + f - k && 0 <= q < 65536
      invariant SumSoFar(d[..], sd, e, q, Multiple(a, sb[..f - k], e0))
      invariant forall i :: e <= i < d.Length ==> d[i] == sd[i]
    {
      ghost var before, q0 := d[..], q;
      assert sb[f - k] == b[c];
      ProductFits(a, b[c]);
      var n := a * b[c] + d[e] + q;
      d[e] := n % 65536;
      q := n / 65536;
      MultiplyOne(sd, before, d[..], sb, a, e0, f - k, q0, q);
      k, c, e := k - 1, c + 1, e + 1;
    }
    assert sb[..f] == sb;
    CarryOn(d, e, q, top, sd, Multiple(a, sb, e0));
  }

  lemma ProductFits(a: Digit, b: Digit)
    ensures 0 <= a * b <= 65535 * 65535
  {
    MulMono(a, 65535, b);
    MulMono(0, a, b);
  }

  /** The second loop of `A.pH`. */
  method CarryOn(d: array<Digit>, e0: nat, q0: int, ghost top: nat, ghost sd: seq<Digit>, ghost added: int)
    requires e0 <= top <= d.Length == |sd| && 0 <= q0 < 65536
    requires SumSoFar(d[..], sd, e0, q0, added) && Val(sd[..top]) + added < Pow(top)
    requires forall i :: e0 <= i < d.Length ==> d[i] == sd[i]
    modifies d
    ensures Val(d[..top]) == Val(sd[..top]) + added
    ensures d[top..] == sd[top..]
  {
    hide Val, Pow, SumSoFar;
    var q, e := q0, e0;
    while q != 0
      invariant e0 <= e <= top && 0 <= q < 65536
      invariant SumSoFar(d[..], sd, e, q, added)
      invariant forall i :: e <= i < d.Length ==> d[i] == sd[i]
      decreases top - e
    {
      if e == top {
        NoCarryAtTop(sd, d[..], top, q, added);
        assert false;
      }
      ghost var before, prior := d[..], q;
      var l := d[e] as int + q;
      d[e] := l % 65536;
      q := l / 65536;
      CarryOne(sd, before, d[..], e, prior, q, added);
      e := e + 1;
    }
    CarriesDone(sd, d[..], e, top, added);
    assert d[..][..top] == d[..top];
  }

  // ----- shifts by bits

  /** `x >> k`, `x << k` (within 32 bits) and `x & (1 << k) - 1`. */
  function Shr(x: nat, k: nat): nat {
    Division(x, Pow2(k));
    x / Pow2(k)
  }

  function Shl(x: nat, k: nat): nat {
    MulNonNegative(Pow2(k), x);
    Pow2(k) * x
  }

  function Low(x: nat, k: nat): nat {
    x % Pow2(k)
  }

  lemma SplitDigit(o: Digit, k: nat)
    requires k <= 16
    ensures o == Shl(Shr(o, 16 - k), 16 - k) + Low(o, 16 - k)
    ensures 0 <= Shr(o, 16 - k) < Pow2(k)
    ensures o * Pow2(k) == 65536 * Shr(o, 16 - k) + Shl(Low(o, 16 - k), k)
    ensures 0 <= Shl(Low(o, 16 - k), k) <= 65536 - Pow2(k)
  {
    hide Pow2;
    WholeDigit(k);
    var K, J := Pow2(k), Pow2(16 - k);
    SplitAt(o, J, K);
  }

  lemma WholeDigit(k: nat)
    requires k <= 16
    ensures Pow2(k) * Pow2(16 - k) == 65536
  {
    Pow2Of16();
    Pow2Plus(k, 16 - k);
  }

  lemma SplitAt(o: nat, J: nat, K: nat)
    requires J > 0 && K > 0 && K * J == 65536 && o < 65536
    ensures o == J * (o / J) + o % J && 0 <= o / J < K
    ensures o * K == 65536 * (o / J) + K * (o % J)
    ensures 0 <= K * (o % J) <= 65536 - K
  {
    Division(o, J);
    SplitParts(o, J, K, o / J, o % J);
  }

  lemma SplitParts(o: nat, J: nat, K: nat, m: nat, r: nat)
    requires K > 0 && K * J == 65536 && o < 65536 && o == J * m + r && r < J
    ensures m < K
    ensures o * K == 65536 * m + K * r
    ensures 0 <= K * r <= 65536 - K
  {
    if m >= K {
      MulMono(K, m, J);
      Commute(J, m);
    }
    Distribute(J * m, r, K);
    Commute(J, m);
    Regroup(m, J, K);
    Commute(K, J);
    Commute(m, 65536);
    Commute(r, K);
    MulMono(r + 1, J, K);
    Distribute(r, 1, K);
    MulNonNegative(K, r);
  }

  lemma OrOfParts(m: nat, z: nat, k: nat)
    requires k <= 16 && m < Pow2(k) && Shl(z, k) <= 65536 - Pow2(k)
    ensures Or(m, Shl(z, k)) == m + Shl(z, k) < 65536
    ensures Or(Shl(z, k), m) == m + Shl(z, k)
  {
    OrDisjoint(m, z, k);
  }

  lemma LeftShiftStep(x: int, rest: int, high: int, p: int, m: int, p': int, K: int)
    requires rest * K == 65536 * high + p && x * K == 65536 * m + p'
    ensures (x + 65536 * rest) * K == 65536 * ((m + p) + 65536 * high) + p'
  {
    Distribute(x, 65536 * rest, K);
    Regroup(65536, rest, K);
  }

  /** The digits of a, shifted left by k bits, are those of d, with p still to go below them. */
  ghost predicate LeftSoFar(a: seq<Digit>, d: seq<Digit>, p: nat, k: nat) {
    Val(a) * Pow2(k) == 65536 * Val(d) + p
  }

  lemma LeftStart(k: nat)
    requires k < 16
    ensures LeftSoFar([], [], 0, k) && Shl(0, k) == 0
    ensures RoomBelow(0, k)
  {
    MulMonoPow(k);
  }

  lemma LeftOne(o: Digit, a: seq<Digit>, d: seq<Digit>, p: nat, k: nat, digit: Digit)
    requires k <= 16 && LeftSoFar(a, d, p, k) && digit == Shr(o, 16 - k) + p
    ensures LeftSoFar([o] + a, [digit] + d, Shl(Low(o, 16 - k), k), k)
  {
    hide Pow2, Shr, Shl, Low;
    SplitDigit(o, k);
    LeftShiftStep(o, Val(a), Val(d), p, Shr(o, 16 - k), Shl(Low(o, 16 - k), k), Pow2(k));
    assert ([o] + a)[1..] == a && ([digit] + d)[1..] == d;
  }

  /** Room is left for k bits below p. */
  ghost predicate RoomBelow(p: nat, k: nat) {
    p <= 65536 - Pow2(k)
  }

  /** One turn of the loop of `A.tZ`. */
  lemma LeftTurn(o: Digit, a: seq<Digit>, d: seq<Digit>, z: nat, k: nat)
    requires k <= 16 && RoomBelow(Shl(z, k), k) && LeftSoFar(a, d, Shl(z, k), k)
    ensures Or(Shr(o, 16 - k), Shl(z, k)) < 65536
    ensures LeftSoFar([o] + a, [Or(Shr(o, 16 - k), Shl(z, k))] + d, Shl(Low(o, 16 - k), k), k)
    ensures RoomBelow(Shl(Low(o, 16 - k), k), k) && Shl(Low(o, 16 - k), k) < 65536
  {
    hide Pow2, Or, Val, LeftSoFar, Shr, Shl, Low;
    SplitDigit(o, k);
    var m := Shr(o, 16 - k);
    OrOfParts(m, z, k);
    LeftOne(o, a, d, Shl(z, k), k, Or(m, Shl(z, k)));
  }

  lemma LeftDone(a: seq<Digit>, d: seq<Digit>, p: Digit, k: nat)
    requires LeftSoFar(a, d, p, k)
    ensures Val([p] + d) == Val(a) * Pow2(k)
  {
    assert ([p] + d)[1..] == d;
  }

  /** The loop of `A.tZ`: shift left by l digits and k bits. */
  method ShiftInto(a: array<Digit>, b: nat, l: nat, k: nat, d: array<Digit>)
    requires a != d && b <= a.Length && l + b < d.Length && k < 16
    modifies d
    ensures Val(d[l..l + b + 1]) == Val(a[..b]) * Pow2(k)
    ensures forall i :: 0 <= i < l || l + b < i < d.Length ==> d[i] == old(d[i])
  {
    LeftStart(k);
    hide Pow2, Or, Pow, Val, LeftSoFar, RoomBelow, Shr, Shl, Low;
    var j := 16 - k;
    var p, s := 0, b;
    ghost var z := 0;
    assert a[b..b] == [] && d[l + b + 1..l + b + 1] == [];
    while s > 0
      invariant 0 <= s <= b && z >= 0 && p == Shl(z, k) < 65536 && RoomBelow(p, k)
      invariant LeftSoFar(a[s..b], d[l + s + 1..l + b + 1], p, k)
      invariant forall i :: 0 <= i < l || l + b < i < d.Length ==> d[i] == old(d[i])
    {
      s := s - 1;
      var o := a[s];
      var m := Shr(o, j);
      ghost var high, digits := d[l + s + 2..l + b + 1], a[s + 1..b];
      LeftTurn(o, digits, high, z, k);
      d[l + s + 1] := Or(m, p);
      assert d[l + s + 1..l + b + 1] == [d[l + s + 1]] + high;
      assert a[s..b] == [o] + digits;
      z := Low(o, j);
      p := Shl(Low(o, j), k);
    }
    ghost var high := d[l + 1..l + b + 1];
    d[l] := p;
    assert d[l..l + b + 1] == [d[l]] + high;
    LeftDone(a[0..b], high, p, k);
    assert a[0..b] == a[..b];
  }

  /** `A.tZ`: shift left by c bits into d[c / 16 .. c / 16 + b + 1]. */
  method ShiftBits(a: array<Digit>, b: nat, c: nat, d: array<Digit>)
    requires a != d && b <= a.Length && b + c / 16 < d.Length
    modifies d
    ensures Val(d[c / 16..c / 16 + b + 1]) == Val(a[..b]) * Pow2(c % 16)
    ensures forall i :: 0 <= i < c / 16 || c / 16 + b < i < d.Length ==> d[i] == old(d[i])
  {
    hide Pow2, Val;
    ShiftInto(a, b, c / 16, c % 16, d);
  }

  lemma MulMonoPow(k: nat)
    requires k <= 16
    ensures 0 < Pow2(k) <= 65536
  {
    WholeDigit(k);
    MulMono(1, Pow2(16 - k), Pow2(k));
  }

  /** `A.pC`. */
  method ShiftLeft(a: array<Digit>, b: nat, c: nat, d: array<Digit>) returns (n: nat)
    requires a != d && 0 < b <= a.Length && b + c / 16 < d.Length
    modifies d
    ensures n == b + c / 16 || (n == b + c / 16 + 1 && d[n - 1] != 0)
    ensures Val(d[..n]) == Val(a[..b]) * Pow2(c)
  {
    hide Pow2, Pow, Val;
    var o := c / 16;
    Pow2Plus(16 * o, c % 16);
    PowIsPow2(o);
    Commute(Pow2(16 * o), Pow2(c % 16));
    if c % 16 == 0 {
      Pow2Zero();
      n := ShiftDigits(a, b, o, d);
      return;
    }
    n := b + o + 1;
    ShiftBits(a, b, c, d);
    ghost var shifted := d[o..n];
    var q := o;
    while q > 0
      invariant 0 <= q <= o && d[o..n] == shifted
      invariant forall i :: q <= i < o ==> d[i] == 0
    {
      q := q - 1;
      d[q] := 0;
    }
    ValShifted(d[..n], o);
    assert d[..n][o..] == shifted;
    Regroup(Val(a[..b]), Pow2(c % 16), Pow(o));
    if d[n - 1] == 0 {
      n := n - 1;
      ValTrimmed(d[..n + 1], n);
      assert d[..n + 1][..n] == d[..n];
    }
  }

  lemma Pow2Zero()
    ensures Pow2(0) == 1
  {
  }

  lemma RightShiftStep(P: int, L: int, K: int, vd: int, s: int, low: int, v: int, n: int, nl: int, nh: int)
    requires L * K == 65536 && n == nl + L * nh
    requires v == L * (vd + s * P) + low
    ensures v + (65536 * P) * n == L * ((vd + P * (s + K * nl)) + nh * (65536 * P)) + low
  {
    var Q := 65536 * P;
    calc {
      L * ((vd + P * (s + K * nl)) + nh * Q);
      { Distribute(s, K * nl, P); Commute(P, s); }
      L * ((vd + s * P) + P * (K * nl) + nh * Q);
      { Distribute(vd + s * P, P * (K * nl) + nh * Q, L); Distribute(P * (K * nl), nh * Q, L); }
      L * (vd + s * P) + L * (P * (K * nl)) + L * (nh * Q);
      { Rotate(L, P, K, nl); Regroup(L, nh, Q); }
      L * (vd + s * P) + Q * nl + (L * nh) * Q;
      { Commute(L * nh, Q); Distribute(nl, L * nh, Q); }
      L * (vd + s * P) + Q * n;
    }
  }

  lemma Rotate(L: int, P: int, K: int, nl: int)
    requires L * K == 65536
    ensures L * (P * (K * nl)) == (65536 * P) * nl
  {
    Regroup(P, K, nl);
    Regroup(L, P * K, nl);
    Regroup(L, P, K);
    Commute(L, P);
    Regroup(P, L, K);
    Commute(P, 65536);
  }

  /** The lowest p + 1 digits of a are those of d, shifted left by l bits, with s on top and `low` below. */
  ghost predicate RightSoFar(a: seq<Digit>, d: seq<Digit>, p: nat, s: nat, l: nat, low: nat) {
    p < |a| && p <= |d| && Val(a[..p + 1]) == Pow2(l) * (Val(d[..p]) + s * Pow(p)) + low
  }

  lemma RightStart(a: seq<Digit>, d: seq<Digit>, l: nat)
    requires |a| > 0 && l <= 16
    ensures RightSoFar(a, d, 0, Shr(a[0], l), l, Low(a[0], l))
    ensures Shr(a[0], l) < Pow2(16 - l)
  {
    hide Pow2, Shr, Low;
    SplitDigit(a[0], 16 - l);
    assert a[..1] == [a[0]] && d[..0] == [];
    ValEmpty();
  }

  lemma RightOne(a: seq<Digit>, d: seq<Digit>, d': seq<Digit>, p: nat, s: nat, l: nat, low: nat)
    requires RightSoFar(a, d, p, s, l, low) && p + 1 < |a| && p < |d'| && l <= 16
    requires d'[..p] == d[..p] && d'[p] == s + Shl(Low(a[p + 1], l), 16 - l)
    ensures RightSoFar(a, d', p + 1, Shr(a[p + 1], l), l, low)
  {
    hide Pow2, Shr, Low;
    var n := a[p + 1];
    SplitDigit(n, 16 - l);
    WholeDigit(l);
    ValPrefix(a, p + 1);
    ValPrefix(d', p);
    PowSucc(p);
    RightShiftStep(Pow(p), Pow2(l), Pow2(16 - l), Val(d[..p]), s, low, Val(a[..p + 1]), n, Low(n, l), Shr(n, l));
  }

  lemma RightDone(a: seq<Digit>, d: seq<Digit>, p: nat, l: nat, low: nat)
    requires p < |d| && RightSoFar(a, d, p, d[p], l, low) && |a| == p + 1
    ensures Val(a) == Pow2(l) * Val(d[..p + 1]) + low
  {
    ValPrefix(d, p);
    Commute(d[p], Pow(p));
    assert a[..p + 1] == a;
  }

  /** `A.u1`: shift right by c bits, dropping c / 16 whole digits. */
  method ShiftRight(a: array<Digit>, b: nat, c: nat, d: array<Digit>)
    requires a != d && b <= a.Length && c / 16 < b && b - c / 16 <= d.Length
    modifies d
    ensures Val(a[c / 16..b]) == Pow2(c % 16) * Val(d[..b - c / 16]) + Low(a[c / 16], c % 16)
  {
    hide Pow2, Or, Val, Pow, RightSoFar, Shr, Shl, Low;
    var m, l := c / 16, c % 16;
    var k := 16 - l;
    ghost var sa := a[m..b];
    var s := Shr(a[m], l);
    RightStart(sa, d[..], l);
    var r, p := b - m - 1, 0;
    while p < r
      invariant 0 <= p <= r && 0 <= s < Pow2(k)
      invariant RightSoFar(sa, d[..], p, s, l, Low(sa[0], l))
    {
      var n := a[p + m + 1];
      assert sa[p + 1] == n;
      SplitDigit(n, k);
      OrOfParts(s, Low(n, l), k);
      ghost var before := d[..];
      d[p] := Or(Shl(Low(n, l), k), s);
      RightOne(sa, before, d[..], p, s, l, Low(sa[0], l));
      s := Shr(n, l);
      p := p + 1;
    }
    MulMonoPow(k);
    ghost var before := d[..];
    d[r] := s;
    RightFrame(sa, before, d[..], r, s, l, Low(sa[0], l));
    RightDone(sa, d[..], r, l, Low(sa[0], l));
    assert d[..][..r + 1] == d[..b - m];
  }

  lemma RightFrame(a: seq<Digit>, d: seq<Digit>, d': seq<Digit>, p: nat, s: nat, l: nat, low: nat)
    requires RightSoFar(a, d, p, s, l, low) && p <= |d'| && d'[..p] == d[..p]
    ensures RightSoFar(a, d', p, s, l, low)
  {
  }

  lemma PowSucc(p: nat)
    ensures Pow(p + 1) == 65536 * Pow(p)
  {
  }
}
