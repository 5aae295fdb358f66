// Division of the arbitrary-precision integers (web/sqflite_sw.js, `A.tY`, `d5`, `eU`, `ff`): Knuth's
// Algorithm D, which adds multiples of 65536^n - y instead of subtracting y so that each quotient digit
// appears in the digit it has just cleared, with a cache of the last result.

module DivisionTheory {
  import opened Products
  import opened DigitValues

  /** `A.tY`: estimate of a quotient digit from the two leading dividend digits and the leading
      divisor digit. */
  function Estimate(k: Digit, top: Digit, next: Digit): Digit
    requires k > 0
  {
    if top == k then 65535
    else
      var q := (top * 65536 + next) / k;
      if q > 65535 then 65535 else q
  }

  /** Knuth's theorems A and B of section 4.3.1: the estimate is never too small, and for a normalised
      divisor y = k * P + y0 at most two too large. */
  lemma EstimateBounds(k: Digit, top: Digit, next: Digit, P: nat, y0: nat, x0: nat, q: nat)
    requires 2 * k >= 65536 && y0 < P && x0 < P
    requires var y, x := k * P + y0, (top * 65536 + next) * P + x0;
      q * y <= x < (q + 1) * y && q < 65536
    ensures q <= Estimate(k, top, next) <= q + 2
  {
    var y, u, c := k * P + y0, top * 65536 + next, Estimate(k, top, next) as int;
    TopIsAtMost(k, top, next, P, y0, x0, q);
    Division(u, k);
    assert c * k <= u && (c < 65535 ==> u < (c + 1) * k) by { EstimateCase(k, top, next); }
    if c < 65535 {
      // not too small
      MulMono(u + 1, (c + 1) * k, P);
      Distribute(u, 1, P);
      Regroup(c + 1, k, P);
      MulMono(k * P, y, c + 1);
      if q > c { MulMono(c + 1, q, y); }
    }
    if c >= q + 3 {
      // not too large: (c - 2) * y <= c * k * P <= x
      MulMono(c * k, u, P);
      Regroup(c, k, P);
      Distribute(k * P, y0, c);
      DistributeMinus(c, 2, y);
      Commute(y, c - 2);
      Commute(y, c);
      MulMono(2 * k, 2 * k, P);
      MulMono(65536, 2 * k, P);
      Regroup(2, k, P);
      MulMono(c, 65536, P);
      MulMono(y0, P, c);
      MulMono(q + 1, c - 2, y);
    }
  }

  lemma EstimateCase(k: Digit, top: Digit, next: Digit)
    requires k > 0 && top <= k
    ensures var c, u := Estimate(k, top, next) as int, top * 65536 + next;
      c * k <= u && (c < 65535 ==> u < (c + 1) * k)
  {
    var u := top * 65536 + next;
    Division(u, k);
    var t := u / k;
    Commute(t, k);
    Distribute(t, 1, k);
    if top == k {
      Commute(65535, k);
    } else if t > 65535 {
      MulMono(65535, t, k);
    }
  }

  /** The leading digit of what is left never exceeds that of the divisor. */
  lemma TopIsAtMost(k: Digit, top: Digit, next: Digit, P: nat, y0: nat, x0: nat, q: nat)
    requires y0 < P && q < 65536
    requires (top * 65536 + next) * P + x0 < (q + 1) * (k * P + y0)
    ensures top <= k
  {
    if top > k {
      MulMono((k + 1) * 65536, top * 65536 + next, P);
      MulMono(q + 1, 65536, k * P + y0);
      Distribute(k, 1, P);
      Regroup(65536, k + 1, P);
      Commute(65536, k + 1);
    }
  }

  /** The window X = q * y + rem of dividend digits, after adding c * (N - y), for N = 65536^n:
      its top digit is c exactly when c is the right quotient digit. */
  lemma WindowTop(X: nat, y: nat, N: nat, c: nat, q: nat, rem: nat)
    requires X == q * y + rem && rem < y <= N && q <= c < 65536
    ensures X + c * (N - y) == c * N + rem - (c - q) * y
    ensures 0 <= X + c * (N - y) < 65536 * N
    ensures c == q ==> X + c * (N - y) == q * N + rem
    ensures c > q ==> X + c * (N - y) < c * N
    ensures c > q ==> X + c * (N - y) >= N - y
  {
    DistributeMinus(N, y, c);
    DistributeMinus(c, q, y);
    Commute(c, y);
    Commute(q, y);
    Commute(c - q, y);
    MulNonNegative(c, N - y);
    MulMono(c, 65535, N);
    if c > q {
      MulMono(1, c - q, y);
      MulMono(1, c, N - y);
    }
  }
}

module BigDivision {
  import opened Bits
  import opened Products
  import opened DigitValues
  import opened BigDigits
  import opened BigInts
  import opened DivisionTheory

  // ----- the state of the digit loop, on values

  ghost function Quotient(x: nat, y: nat): nat
    requires y > 0
  {
    Division(x, y);
    x / y
  }

  ghost function Remainder(x: nat, y: nat): nat
    requires y > 0
  {
    x % y
  }

  lemma QuotientLaw(x: nat, y: nat)
    requires y > 0
    ensures x == Quotient(x, y) * y + Remainder(x, y) && Remainder(x, y) < y
  {
    Division(x, y);
    Commute(y, x / y);
  }

  /** High part h at digit i, low part below. */
  ghost function Placed(h: int, i: nat, low: int): int {
    h * Pow(i) + low
  }

  lemma PlacedFits(h: nat, i: nat, low: nat, bound: nat)
    requires h < bound && low < Pow(i)
    ensures 0 <= Placed(h, i, low) < bound * Pow(i)
  {
    MulMono(h + 1, bound, Pow(i));
    Distribute(h, 1, Pow(i));
    MulNonNegative(h, Pow(i));
  }

  lemma PlacedTwice(h: int, i: nat, m: int, k: nat, low: int)
    ensures Placed(Placed(h, i, m), k, low) == Placed(h, i + k, Placed(m, k, low))
  {
    Distribute(h * Pow(i), m, Pow(k));
    Regroup(h, Pow(i), Pow(k));
    PowPlus(i, k);
  }

  lemma PlacedParts(s: seq<Digit>, i: nat, high: nat, low: nat)
    requires i <= |s| && low < Pow(i) && Val(s) == Placed(high, i, low)
    ensures Val(s[..i]) == low && Val(s[i..]) == high
  {
    ValParts(s, i, high, low);
  }

  lemma PlacedSplit(s: seq<Digit>, i: nat)
    requires i <= |s|
    ensures Val(s) == Placed(Val(s[i..]), i, Val(s[..i]))
    ensures Val(s[..i]) < Pow(i)
  {
    ValSplit(s, i);
    ValBound(s[..i]);
    Commute(Pow(i), Val(s[i..]));
  }

  /** m, up to digit g, holds the quotient Q so far above digit n + j and the remainder R below. */
  ghost predicate DigitsLeft(m: seq<Digit>, g: nat, n: nat, j: nat, M0: nat, y: nat, Q: nat, R: nat) {
    && n + j < g <= |m|
    && Val(m[..g]) == Placed(Q, n + j, R)
    && M0 == Q * (Pow(j) * y) + R
    && R < Pow(j) * y
  }

  /** What is left above digit j: the window of n + 1 digits from which the next quotient digit comes. */
  ghost predicate Window(m: seq<Digit>, g: nat, n: nat, j: nat, y: nat, Q: nat, X: nat, L: nat) {
    && n + j + 1 < g <= |m|
    && Val(m[..g]) == Placed(Q, n + j + 1, Placed(X, j, L))
    && Val(m[..n + j + 1]) == Placed(X, j, L)
    && L < Pow(j) && X < 65536 * y && 0 < y < Pow(n)
    && X == Val(m[j..n + j + 1])
  }

  lemma OpenWindow(m: seq<Digit>, g: nat, n: nat, j: nat, M0: nat, y: nat, Q: nat, R: nat) returns (X: nat, L: nat)
    requires DigitsLeft(m, g, n, j + 1, M0, y, Q, R) && 0 < y < Pow(n)
    ensures Window(m, g, n, j, y, Q, X, L)
    ensures R == Placed(X, j, L)
  {
    hide Val, Pow, Placed;
    var w := m[..n + j + 1];
    PowSucc(j);
    MulMonoStrict(y, Pow(n), Pow(j + 1));
    PowPlus(j + 1, n);
    assert m[..g][..n + j + 1] == w;
    PlacedParts(m[..g], n + j + 1, Q, R);
    PlacedSplit(w, j);
    L, X := Val(w[..j]), Val(w[j..]);
    assert w[j..] == m[j..n + j + 1];
    if X >= 65536 * y {
      WindowTooBig(X, j, L, y);
    }
  }

  lemma WindowTooBig(X: nat, j: nat, L: nat, y: nat)
    requires X >= 65536 * y
    ensures Placed(X, j, L) >= Pow(j + 1) * y
  {
    PowSucc(j);
    MulMono(65536 * y, X, Pow(j));
    Regroup(65536, y, Pow(j));
    Commute(y, Pow(j));
    Regroup(65536, Pow(j), y);
  }

  /** The two leading digits of the window and the leading digit of y bound the quotient digit. */
  lemma EstimateInWindow(m: seq<Digit>, y: seq<Digit>, n: nat, j: nat, X: nat)
    requires 0 < n <= |y| && n + j < |m| && y[n - 1] >= 32768
    requires X == Val(m[j..n + j + 1]) && 0 < Val(y[..n]) && X < 65536 * Val(y[..n])
    ensures Quotient(X, Val(y[..n])) <= Estimate(y[n - 1], m[n + j], m[n + j - 1]) <= Quotient(X, Val(y[..n])) + 2
  {
    hide Val, Pow, Estimate, Quotient, Remainder;
    var w, k := m[j..n + j + 1], y[n - 1];
    ValPrefix(y, n - 1);
    ValBound(y[..n - 1]);
    ValPrefix(w, n);
    ValPrefix(w, n - 1);
    ValBound(w[..n - 1]);
    assert w[..n + 1] == w;
    var P, vy := Pow(n - 1), Val(y[..n]);
    PowSucc(n - 1);
    Commute(P, k);
    LeadingDigits(w[n], w[n - 1], P);
    var q := Quotient(X, vy);
    QuotientLaw(X, vy);
    Distribute(q, 1, vy);
    if q >= 65536 { MulMono(65536, q, vy); }
    EstimateBounds(k, w[n], w[n - 1], P, Val(y[..n - 1]), Val(w[..n - 1]), q);
  }

  lemma LeadingDigits(top: int, next: int, P: int)
    ensures (65536 * P) * top + P * next == (top * 65536 + next) * P
  {
    Commute(65536 * P, top);
    Regroup(top, 65536, P);
    Commute(P, next);
    Distribute(top * 65536, next, P);
  }

  /** The window with c * (65536^n - y) added to it. */
  ghost function Spread(n: nat, y: nat, X: nat, c: nat): int {
    X + c * (Pow(n) - y)
  }

  lemma SpreadLaw(n: nat, y: nat, X: nat, c: nat)
    requires 0 < y < Pow(n) && Quotient(X, y) <= c < 65536
    ensures 0 <= Spread(n, y, X, c) < Pow(n + 1)
    ensures c == Quotient(X, y) ==> Spread(n, y, X, c) == Placed(c, n, Remainder(X, y))
    ensures c > Quotient(X, y) ==> Spread(n, y, X, c) < c * Pow(n)
    ensures c > Quotient(X, y) ==>
      Spread(n, y, X, c) >= Pow(n) - y && Spread(n, y, X, c - 1) == Spread(n, y, X, c) - (Pow(n) - y)
  {
    hide Quotient, Remainder, Pow;
    QuotientLaw(X, y);
    WindowTop(X, y, Pow(n), c, Quotient(X, y), Remainder(X, y));
    PowSucc(n);
    Distribute(c - 1, 1, Pow(n) - y);
  }

  ghost predicate Adjusted(m: seq<Digit>, g: nat, n: nat, j: nat, y: nat, Q: nat, X: nat, L: nat, c: nat) {
    && n + j + 1 < g <= |m|
    && Val(m[..g]) == Placed(Q, n + j + 1, Placed(Spread(n, y, X, c), j, L))
    && L < Pow(j) && 0 < y < Pow(n) && Quotient(X, y) <= c < 65536
  }

  lemma AdjustedWindow(m: seq<Digit>, g: nat, n: nat, j: nat, y: nat, Q: nat, X: nat, L: nat, c: nat)
    requires Adjusted(m, g, n, j, y, Q, X, L, c)
    ensures Val(m[..n + j + 1]) == Placed(Spread(n, y, X, c), j, L)
    ensures 0 <= Placed(Spread(n, y, X, c), j, L) < Pow(n + j + 1)
    ensures Spread(n, y, X, c) >= 0
  {
    hide Quotient, Remainder, Pow, Placed, Spread, Val;
    SpreadLaw(n, y, X, c);
    PlacedFits(Spread(n, y, X, c), j, L, Pow(n + 1));
    PowPlus(n + 1, j);
    assert m[..g][..n + j + 1] == m[..n + j + 1];
    PlacedParts(m[..g], n + j + 1, Q, Placed(Spread(n, y, X, c), j, L));
  }

  /** Top digit of an adjusted window: c exactly when c is the quotient digit, else smaller. */
  lemma TopTellsTheDigit(m: seq<Digit>, g: nat, n: nat, j: nat, y: nat, Q: nat, X: nat, L: nat, c: nat)
    requires Adjusted(m, g, n, j, y, Q, X, L, c)
    ensures m[n + j] < c <==> c > Quotient(X, y)
    ensures c == Quotient(X, y) ==> m[n + j] == c
  {
    hide Quotient, Remainder, Pow, Placed, Spread, Val;
    AdjustedWindow(m, g, n, j, y, Q, X, L, c);
    SpreadLaw(n, y, X, c);
    var w, W := m[..n + j + 1], Spread(n, y, X, c);
    PlacedSplit(w, n + j);
    assert w[n + j..] == [m[n + j]];
    ValEmpty();
    if c > Quotient(X, y) {
      PlacedFits(W, j, L, c * Pow(n));
      PowPlus(n, j);
      Regroup(c, Pow(n), Pow(j));
      if m[n + j] >= c { PlacedAtLeast(m[n + j], n + j, Val(w[..n + j]), c); }
    } else {
      QuotientLaw(X, y);
      PlacedTwice(c, n, Remainder(X, y), j, L);
      PlacedFits(Remainder(X, y), j, L, Pow(n));
      PowPlus(n, j);
      PlacedUnique(m[n + j], n + j, Val(w[..n + j]), c, Placed(Remainder(X, y), j, L));
    }
  }

  lemma PlacedAtLeast(h: nat, i: nat, low: nat, c: nat)
    requires h >= c
    ensures Placed(h, i, low) >= c * Pow(i)
  {
    MulMono(c, h, Pow(i));
  }

  lemma PlacedUnique(h: nat, i: nat, low: nat, h': nat, low': nat)
    requires low < Pow(i) && low' < Pow(i) && Placed(h, i, low) == Placed(h', i, low')
    ensures h == h' && low == low'
  {
    QuotientUnique(h, Pow(i), h', low, low');
  }

  /** The multiply-and-add fits below digit n + j + 1 and adjusts the window. */
  lemma AdjustFits(m: seq<Digit>, g: nat, n: nat, j: nat, y: nat, Q: nat, X: nat, L: nat, c: Digit, e: seq<Digit>)
    requires Window(m, g, n, j, y, Q, X, L) && Quotient(X, y) <= c
    requires Val(e) == Pow(n) - y
    ensures Val(m[..n + j + 1]) + Multiple(c, e, j) == Placed(Spread(n, y, X, c), j, L) < Pow(n + j + 1)
  {
    hide Quotient, Remainder, Pow, Val;
    SpreadLaw(n, y, X, c);
    PlacedFits(Spread(n, y, X, c), j, L, Pow(n + 1));
    PowPlus(n + 1, j);
    Distribute(X, c * (Pow(n) - y), Pow(j));
  }

  lemma AdjustDone(m: seq<Digit>, m': seq<Digit>, g: nat, n: nat, j: nat, y: nat, Q: nat, X: nat, L: nat, c: Digit)
    requires Window(m, g, n, j, y, Q, X, L) && Quotient(X, y) <= c
    requires |m'| == |m| && m'[n + j + 1..] == m[n + j + 1..]
    requires Val(m'[..n + j + 1]) == Placed(Spread(n, y, X, c), j, L)
    ensures Adjusted(m', g, n, j, y, Q, X, L, c)
  {
    hide Val, Pow, Quotient, Remainder, Placed, Spread;
    var i := n + j + 1;
    PlacedSplit(m[..g], i);
    PlacedSplit(m'[..g], i);
    assert m[..g][..i] == m[..i] && m'[..g][..i] == m'[..i];
    assert m'[..g][i..] == m'[i..][..g - i] && m[..g][i..] == m[i..][..g - i];
    PlacedParts(m[..g], i, Q, Placed(X, j, L));
  }

  /** Taking 65536^n - y back once lowers the digit tried by one. */
  lemma TakeBack(m: seq<Digit>, g: nat, n: nat, j: nat, y: nat, Q: nat, X: nat, L: nat, c: nat)
    requires Adjusted(m, g, n, j, y, Q, X, L, c) && c > Quotient(X, y)
    ensures (Pow(n) - y) * Pow(j) <= Val(m[..g])
    ensures Val(m[..g]) - (Pow(n) - y) * Pow(j) == Placed(Q, n + j + 1, Placed(Spread(n, y, X, c - 1), j, L))
  {
    hide Val, Pow, Quotient, Remainder, Spread;
    SpreadLaw(n, y, X, c);
    var E, W := Pow(n) - y, Spread(n, y, X, c);
    MulMono(E, W, Pow(j));
    MulNonNegative(Q, Pow(n + j + 1));
    Distribute(W - E, E, Pow(j));
  }

  /** With the right digit in place the state is that of the next, lower position. */
  lemma CloseWindow(m: seq<Digit>, g: nat, n: nat, j: nat, M0: nat, y: nat, Q: nat, R: nat, X: nat, L: nat, c: nat)
    requires Adjusted(m, g, n, j, y, Q, X, L, c) && c == Quotient(X, y)
    requires R == Placed(X, j, L) && M0 == Q * (Pow(j + 1) * y) + R
    ensures Placed(Remainder(X, y), j, L) >= 0
    ensures DigitsLeft(m, g, n, j, M0, y, 65536 * Q + c, Placed(Remainder(X, y), j, L))
  {
    hide Val, Pow, Quotient, Remainder, Placed, Spread;
    SpreadLaw(n, y, X, c);
    QuotientLaw(X, y);
    var r := Remainder(X, y);
    PlacedTwice(c, n, r, j, L);
    NextQuotient(Q, n + j, c, Placed(r, j, L));
    PlacedFits(r, j, L, y);
    Commute(y, Pow(j));
    NextDividend(Q, j, y, c, r, L);
  }

  lemma NextQuotient(Q: int, i: nat, c: int, low: int)
    ensures Placed(Q, i + 1, Placed(c, i, low)) == Placed(65536 * Q + c, i, low)
  {
    PowSucc(i);
    Commute(Q, 65536);
    Regroup(Q, 65536, Pow(i));
    Distribute(65536 * Q, c, Pow(i));
  }

  lemma NextDividend(Q: nat, j: nat, y: nat, c: nat, r: nat, L: nat)
    ensures Q * (Pow(j + 1) * y) + Placed(c * y + r, j, L) == (65536 * Q + c) * (Pow(j) * y) + Placed(r, j, L)
  {
    PowSucc(j);
    var J := Pow(j);
    Distribute(c * y, r, J);
    Regroup(c, y, J);
    Commute(y, J);
    Regroup(65536, J, y);
    Commute(Q, 65536);
    Regroup(Q, 65536, J * y);
    Distribute(65536 * Q, c, J * y);
  }

  // ----- before and after the loop

  /** After the first comparison the top digit holds 0 or 1. */
  lemma FirstDigit(m: seq<Digit>, l: nat, n: nat, j: nat, M0: nat, y: nat, d: nat)
    requires l < |m| && l == n + j && 0 < y && 2 * y >= Pow(n) && d <= 1 && M0 < Pow(l)
    requires m[l] == d && Val(m[..l]) + d * (Pow(j) * y) == M0
    requires d == 0 ==> M0 < Pow(j) * y
    ensures DigitsLeft(m, l + 1, n, j, M0, y, d, Val(m[..l]))
  {
    hide Val, Pow;
    ValPrefix(m, l);
    Commute(Pow(l), d);
    PowPlus(j, n);
    MulMono(Pow(n), 2 * y, Pow(j));
    Commute(Pow(j), y);
    Regroup(2, y, Pow(j));
    Commute(Pow(j), 2 * y);
  }

  /** Shifting dividend and divisor alike shifts the remainder and keeps the quotient. */
  lemma Unshift(M0: nat, A: nat, y: nat, Y: nat, S: nat, Q: nat, R: nat)
    requires S > 0 && Y > 0 && M0 == A * S && y == Y * S && M0 == Q * y + R && R < y
    ensures Q == A / Y && R == (A % Y) * S
  {
    Division(A, Y);
    var q, r := A / Y, A % Y;
    Commute(Y, q);
    Distribute(q * Y, r, S);
    Regroup(q, Y, S);
    MulMono(r + 1, Y, S);
    Distribute(r, 1, S);
    MulNonNegative(r, S);
    QuotientUnique(Q, y, q, R, r * S);
  }

  // ----- the divisor

  /** A divisor shifted so that its leading digit has its top bit set keeps its length. */
  lemma NormalisedDivisor(s: seq<Digit>, o: seq<Digit>, n: nat, p: nat)
    requires |s| > 0 && s[|s| - 1] != 0 && BitLength(s[|s| - 1]) <= 16 && p == 16 - BitLength(s[|s| - 1])
    requires n <= |o| && (n == |s| || (n == |s| + 1 && o[n - 1] != 0)) && Val(o[..n]) == Val(s) * Pow2(p)
    ensures n == |s| && o[n - 1] >= 32768
  {
    hide Val, Pow, Pow2;
    var r, t := |s|, s[|s| - 1] as int;
    BitLengthBounds(t);
    ValTop(s);
    WholeDigit(p);
    HalfPower(16 - p);
    LeadingBitMoves(Pow(r - 1), t, Val(s), Pow2(p), Pow2(16 - p));
    PowSucc(r - 1);
    ValTop(o[..n]);
    if n == r + 1 {
      MulMono(1, o[n - 1], Pow(r));
    } else {
      var d := o[n - 1] as int;
      assert o[..n][n - 1] == d;
      Commute(Pow(r - 1), 32768);
      if d < 32768 {
        MulMono(d + 1, 32768, Pow(r - 1));
      }
    }
  }

  /** P * t <= v < P * (t + 1) with T <= 2 * t and t < T: times S = 65536 / T this lies in the upper
      half of P * 65536. */
  lemma LeadingBitMoves(P: nat, t: nat, v: nat, S: nat, T: nat)
    requires P * t <= v < P * (t + 1) && t < T <= 2 * t && S * T == 65536
    ensures 32768 * P <= v * S < 65536 * P
  {
    MulMono(t + 1, T, P);
    Commute(P, T);
    MulMono(v + 1, P * T, S);
    Distribute(v, 1, S);
    Regroup(P, T, S);
    Commute(S, T);
    Commute(P, 65536);
    if S == 0 { Commute(S, T); }
    MulMono(T, 2 * t, P);
    Commute(P, 2 * t);
    Regroup(2, t, P);
    Commute(t, P);
    MulMono(P * T, 2 * v, S);
    Regroup(2, v, S);
  }

  lemma HalfPower(k: nat)
    requires k > 0
    ensures Pow2(k) == 2 * Pow2(k - 1)
  {
  }

  lemma TopBit(t: Digit)
    requires t > 0
    ensures 1 <= BitLength(t) <= 16
  {
    hide Pow2, BitLength;
    BitLengthBounds(t);
    if BitLength(t) > 16 {
      Pow2Monotone(16, BitLength(t) - 1);
      Pow2Of16();
    }
  }

  // ----- the algorithm

  /** 65536^n - y for a divisor of n digits. */
  method Complement(o: array<Digit>, n: nat) returns (e: array<Digit>)
    requires 0 < n <= o.Length && Val(o[..n]) > 0
    ensures fresh(e) && e.Length == n + 2 && Val(e[..n]) == Pow(n) - Val(o[..n])
  {
    hide Val, Pow;
    ValEmpty();
    e := new Digit[n + 2](_ => 0);
    e[n] := 1;
    ValZeros(e[..n]);
    ValPrefix(e[..], n);
    assert e[..][..n] == e[..n] && e[..][..n + 1] == e[..n + 1];
    ValBound(o[..n]);
    SubtractDigits(e, n + 1, o, n, e);
    PlacedParts(e[..n + 1], n, 0, Val(e[..n + 1])) by { PlacedZero(n, Val(e[..n + 1])); }
    assert e[..n + 1][..n] == e[..n];
  }

  lemma PlacedZero(i: nat, low: int)
    ensures Placed(0, i, low) == low
  {
  }

  /** One quotient digit: estimate, multiply and add, take back while the digit comes out too small. */
  method OneDigit(o: array<Digit>, n: nat, e: array<Digit>, i: array<Digit>, m: array<Digit>, g: nat, j: nat,
                  ghost M0: nat, ghost Q: nat, ghost R: nat) returns (ghost Q': nat, ghost R': nat)
    requires o != m && e != m && i != m && o != i && e != i
    requires 0 < n <= o.Length && n < e.Length && g <= m.Length && n + j < i.Length
    requires o[n - 1] >= 32768 && 0 < Val(o[..n]) < Pow(n) && Val(e[..n]) == Pow(n) - Val(o[..n])
    requires DigitsLeft(m[..], g, n, j + 1, M0, Val(o[..n]), Q, R)
    modifies m, i
    ensures DigitsLeft(m[..], g, n, j, M0, Val(o[..n]), Q', R')
  {
    hide Val, Pow, Quotient, Remainder, Placed, Spread, Estimate, Multiple, DigitsLeft, Window, Adjusted;
    ghost var y := Val(o[..n]);
    var d := n + j;
    ghost var X, L := OpenWindow(m[..], g, n, j, M0, y, Q, R);
    ghost var q := Quotient(X, y);
    WindowFacts(m[..], g, n, j, M0, y, Q, R, X, L);
    EstimateInWindow(m[..], o[..], n, j, X) by { assert o[..][..n] == o[..n]; }
    assert o[..][..n] == o[..n];
    var c := Estimate(o[n - 1], m[d], m[d - 1]) as int;
    ghost var before := m[..];
    assert e[0..n] == e[..n] && m[..][..d + 1] == m[..d + 1];
    AdjustFits(m[..], g, n, j, y, Q, X, L, c, e[..n]);
    MultiplyAdd(c, e, 0, m, j, n, d + 1);
    assert m[..][d + 1..] == before[d + 1..] && m[..][..d + 1] == m[..d + 1];
    AdjustDone(before, m[..], g, n, j, y, Q, X, L, c);
    c := Correct(e, i, m, g, n, j, y, Q, X, L, c);
    CloseWindow(m[..], g, n, j, M0, y, Q, R, X, L, c);
    Q', R' := 65536 * Q + c, Placed(Remainder(X, y), j, L);
  }

  /** The correction loop ends, with the right quotient digit in place. */
  method Correct(e: array<Digit>, i: array<Digit>, m: array<Digit>, g: nat, n: nat, j: nat,
                 ghost y: nat, ghost Q: nat, ghost X: nat, ghost L: nat, c0: nat) returns (c: nat)
    requires e != m && i != m && e != i
    requires 0 < n < e.Length && g <= m.Length && n + j < i.Length
    requires Adjusted(m[..], g, n, j, y, Q, X, L, c0) && Val(e[..n]) == Pow(n) - y
    modifies m, i
    ensures c == Quotient(X, y) && Adjusted(m[..], g, n, j, y, Q, X, L, c)
  {
    AdjustedShape(m[..], g, n, j, y, Q, X, L, c0);
    hide Val, Pow, Quotient, Remainder, Placed, Spread, Adjusted;
    c := c0;
    ghost var q := Quotient(X, y);
    var d := n + j;
    TopTellsTheDigit(m[..], g, n, j, y, Q, X, L, c);
    if m[d] < c {
      var h := ShiftDigits(e, n, j, i);
      TakeBackOnce(i, h, m, g, n, j, y, Q, X, L, c);
      c := c - 1;
      TopTellsTheDigit(m[..], g, n, j, y, Q, X, L, c);
      while m[d] < c
        invariant q <= c && Adjusted(m[..], g, n, j, y, Q, X, L, c)
        invariant (m[d] < c <==> c > q)
        invariant Val(i[..h]) == (Pow(n) - y) * Pow(j)
        decreases c - q
      {
        TakeBackOnce(i, h, m, g, n, j, y, Q, X, L, c);
        c := c - 1;
        TopTellsTheDigit(m[..], g, n, j, y, Q, X, L, c);
      }
    }
  }

  lemma AdjustedShape(m: seq<Digit>, g: nat, n: nat, j: nat, y: nat, Q: nat, X: nat, L: nat, c: nat)
    requires Adjusted(m, g, n, j, y, Q, X, L, c)
    ensures n + j + 1 < g <= |m| && 0 < y < Pow(n) && Quotient(X, y) <= c
  {
  }

  lemma WindowFacts(m: seq<Digit>, g: nat, n: nat, j: nat, M0: nat, y: nat, Q: nat, R: nat, X: nat, L: nat)
    requires DigitsLeft(m, g, n, j + 1, M0, y, Q, R) && Window(m, g, n, j, y, Q, X, L)
    ensures n + j + 1 < g <= |m| && X < 65536 * y && X == Val(m[j..n + j + 1])
    ensures M0 == Q * (Pow(j + 1) * y) + R
  {
  }

  method TakeBackOnce(i: array<Digit>, h: nat, m: array<Digit>, g: nat, n: nat, j: nat,
                      ghost y: nat, ghost Q: nat, ghost X: nat, ghost L: nat, ghost c: nat)
    requires i != m && h == n + j < g <= m.Length && h <= i.Length
    requires Adjusted(m[..], g, n, j, y, Q, X, L, c) && c > Quotient(X, y)
    requires Val(i[..h]) == (Pow(n) - y) * Pow(j)
    modifies m
    ensures Adjusted(m[..], g, n, j, y, Q, X, L, c - 1)
  {
    hide Val, Pow, Quotient, Remainder, Placed, Spread;
    TakeBack(m[..], g, n, j, y, Q, X, L, c);
    assert m[..][..g] == m[..g];
    SubtractDigits(m, g, i, h, m);
    assert m[..][..g] == m[..g];
  }

  /** Dividend and divisor, shifted left by p bits into fresh arrays with room to work in. */
  method Normalise(x: BigInt, y: BigInt, p: nat) returns (o: array<Digit>, n: nat, m: array<Digit>, l: nat)
    requires x.Valid() && y.Valid() && 0 < y.used <= x.used
    requires BitLength(y.digits[y.used - 1]) <= 16 && p == 16 - BitLength(y.digits[y.used - 1]) && p < 16
    ensures fresh(m) && (fresh(o) || o == y.digits) && o != m
    ensures n == y.used <= o.Length && x.used <= l < m.Length
    ensures Val(o[..n]) == Val(y.digits[..y.used]) * Pow2(p) && o[n - 1] >= 32768
    ensures Val(m[..l]) == Val(x.digits[..x.used]) * Pow2(p)
  {
    hide Val, Pow, Pow2, BitLength;
    var s, r, a := y.digits, y.used, x.used;
    if p > 0 {
      o := new Digit[r + 5](_ => 0);
      n := ShiftLeft(s, r, p, o);
      m := new Digit[a + 5](_ => 0);
      l := ShiftLeft(x.digits, a, p, m);
    } else {
      m := CloneDigits(x.digits, 0, a, a + 2);
      assert m[..a] == x.digits[..a];
      n, o, l := r, s, a;
      Pow2Zero();
    }
    assert o[..n][n - 1] == o[n - 1] && s[..r][r - 1] == s[r - 1];
    assert o[..n][..n] == o[..n];
    NormalisedDivisor(s[..r], o[..n], n, p);
  }

  lemma DivisorBounds(s: seq<Digit>)
    requires |s| > 0 && s[|s| - 1] >= 32768
    ensures 0 < Val(s) < Pow(|s|) && Pow(|s|) <= 2 * Val(s)
  {
    ValBound(s);
    ValTop(s);
    MulMono(32768, s[|s| - 1], Pow(|s| - 1));
    PowSucc(|s| - 1);
  }

  /** The first subtraction: digit l holds the 1 of the quotient and is not touched by a borrow. */
  method SubtractTop(m: array<Digit>, l: nat, i: array<Digit>)
    requires i != m && l < m.Length && l <= i.Length && m[l] == 1
    requires Val(m[..l]) >= Val(i[..l])
    modifies m
    ensures m[l] == 1 && Val(m[..l]) == old(Val(m[..l])) - Val(i[..l])
  {
    hide Val, Pow;
    ghost var v, w := Val(m[..l]), Val(i[..l]);
    ValPrefix(m[..], l);
    assert m[..][..l] == m[..l] && m[..][..l + 1] == m[..l + 1];
    ValBound(m[..l]);
    SubtractDigits(m, l + 1, i, l, m);
    ValPrefix(m[..], l);
    assert m[..][..l] == m[..l] && m[..][..l + 1] == m[..l + 1];
    ValBound(m[..l]);
    Commute(Pow(l), m[l]);
    QuotientUnique(m[l], Pow(l), 1, Val(m[..l]), v - w);
  }

  /** After the last digit: remainder below digit n, quotient above, of the operands before the shift. */
  lemma Finish(m: seq<Digit>, g: nat, n: nat, M0: nat, v: nat, Q: nat, R: nat, A: nat, Y: nat, S: nat)
    requires DigitsLeft(m, g, n, 0, M0, v, Q, R) && v < Pow(n) && Y > 0 && S > 0
    requires M0 == A * S && v == Y * S
    ensures n < g <= |m| && Val(m[..n]) == Remainder(A, Y) * S && Val(m[n..g]) == Quotient(A, Y)
  {
    hide Val, Placed;
    assert Pow(0) == 1;
    PlacedParts(m[..g], n, Q, R);
    assert m[..g][..n] == m[..n] && m[..g][n..] == m[n..g];
    Unshift(M0, A, v, Y, S, Q, R);
  }

  /** The digit above the others is 1 when the divisor, moved all the way up, still fits. */
  method LeadingQuotientDigit(o: array<Digit>, n: nat, m: array<Digit>, l: nat, i: array<Digit>)
    returns (ghost Q: nat, ghost R: nat)
    requires o != m && i != m && i != o && 0 < n <= o.Length && n <= l < m.Length && i.Length == l
    requires o[n - 1] >= 32768
    modifies m, i
    ensures DigitsLeft(m[..], l + 1, n, l - n, old(Val(m[..l])), Val(o[..n]), Q, R)
  {
    hide Val, Pow, DigitsLeft;
    ghost var M0, v := Val(m[..l]), Val(o[..n]);
    var j := l - n;
    var h := ShiftDigits(o, n, j, i);
    DivisorBounds(o[..n]);
    ValBound(m[..l]);
    Commute(v, Pow(j));
    var order := CompareDigits(m, l, i, h);
    ghost var digits := m[..l];
    if order >= 0 {
      m[l] := 1;
      assert m[..l] == digits;
      SubtractTop(m, l, i);
      Q := 1;
    } else {
      m[l] := 0;
      assert m[..l] == digits;
      Q := 0;
    }
    R := Val(m[..l]);
    assert m[..][..l] == m[..l];
    FirstDigit(m[..], l, n, j, M0, v, Q);
  }

  /** The body of `d5` on a cache miss. */
  method LongDivision(x: BigInt, y: BigInt) returns (m: array<Digit>, g: nat, n: nat, p: nat)
    requires x.Valid() && y.Valid() && 0 < y.used <= x.used
    ensures fresh(m) && n <= g <= m.Length && y.Abs() > 0
    ensures Val(m[..n]) == Remainder(x.Abs(), y.Abs()) * Pow2(p)
    ensures Val(m[n..g]) == Quotient(x.Abs(), y.Abs())
  {
    hide Val, Pow, Pow2, BitLength, Quotient, Remainder, Placed, DigitsLeft, BigInt.Value;
    AbsZero(y);
    TopBit(y.digits[y.used - 1]);
    p := 16 - BitLength(y.digits[y.used - 1]);
    ghost var A, Y := x.Abs(), y.Abs();
    var o, l;
    o, n, m, l := Normalise(x, y, p);
    ghost var M0, v, e0 := Val(m[..l]), Val(o[..n]), o[..n];
    DivisorBounds(o[..n]);
    var j := l - n;
    g := l + 1;
    var i := new Digit[l](_ => 0);
    ghost var Q, R := LeadingQuotientDigit(o, n, m, l, i);
    var e := Complement(o, n);
    while j > 0
      invariant 0 <= j <= l - n && o[..n] == e0 && Val(e[..n]) == Pow(n) - v
      invariant DigitsLeft(m[..], g, n, j, M0, v, Q, R)
    {
      j := j - 1;
      assert o[..n][n - 1] == o[n - 1];
      Q, R := OneDigit(o, n, e, i, m, g, j, M0, Q, R);
    }
    Finish(m[..], g, n, M0, v, Q, R, A, Y, Pow2(p));
    assert m[..][..n] == m[..n] && m[..][n..g] == m[n..g];
  }

  lemma SmallQuotient(x: nat, y: nat)
    requires x < y
    ensures Quotient(x, y) == 0 && Remainder(x, y) == x
  {
    QuotientLaw(x, y);
    QuotientUnique(Quotient(x, y), y, 0, Remainder(x, y), x);
  }

  method ShiftedBack(x: BigInt, n: nat, ghost r: nat) returns (q: BigInt)
    requires x.Valid() && x.Value() == r * Pow2(n)
    ensures q.Valid() && q.Value() == r && !q.neg
  {
    hide Pow2;
    Unscale(r, Pow2(n));
    q := x;
    if n > 0 {
      var thrown;
      thrown, q := ShiftRightBits(x, n);
    } else {
      Pow2Zero();
    }
    AbsZero(q);
  }

  method WithSign(x: BigInt, neg: bool) returns (q: BigInt)
    requires x.Valid() && !x.neg
    ensures q.Valid() && q.Value() == if neg then -x.Value() else x.Value()
  {
    AbsZero(x);
    q := x;
    if neg && x.used > 0 {
      q := Negate(x);
    }
  }

  lemma Unscale(r: nat, S: nat)
    requires S > 0
    ensures (r * S) / S == r
  {
    Commute(r, S);
    FloorUnique(r * S, S, r, 0);
  }

  /** `$.pD` ... `$.of`: operands and outcome of the last division. */
  class DivisionCache {
    var dividend: array?<Digit>
    var dividendUsed: nat
    var divisor: array?<Digit>
    var divisorUsed: nat
    var quoRem: array<Digit>    // remainder digits (shifted), then quotient digits
    var quoRemUsed: nat
    var remUsed: nat
    var remShift: nat

    /** The stored digits are quotient and remainder of these operands. */
    ghost predicate Holds(x: array<Digit>, xUsed: nat, y: array<Digit>, yUsed: nat)
      reads this, quoRem, x, y
    {
      && xUsed <= x.Length && yUsed <= y.Length && remUsed <= quoRemUsed <= quoRem.Length
      && Val(y[..yUsed]) > 0
      && Val(quoRem[..remUsed]) == Remainder(Val(x[..xUsed]), Val(y[..yUsed])) * Pow2(remShift)
      && Val(quoRem[remUsed..quoRemUsed]) == Quotient(Val(x[..xUsed]), Val(y[..yUsed]))
    }

    ghost predicate Valid()
      reads this, quoRem, dividend, divisor
    {
      dividend != null && divisor != null ==> Holds(dividend, dividendUsed, divisor, divisorUsed)
    }

    constructor ()
      ensures Valid() && fresh(quoRem)
    {
      dividend, divisor := null, null;
      dividendUsed, divisorUsed, quoRemUsed, remUsed, remShift := 0, 0, 0, 0, 0;
      quoRem := new Digit[0];
    }

    /** `d5`. */
    method Divide(x: BigInt, y: BigInt)
      requires Valid() && x.Valid() && y.Valid() && 0 < y.used <= x.used
      modifies this
      ensures Valid() && Holds(x.digits, x.used, y.digits, y.used)
      ensures fresh(quoRem) || quoRem == old(quoRem)
    {
      hide Val, Pow, Pow2, Quotient, Remainder;
      var a := x.used;
      if a == dividendUsed && y.used == divisorUsed && x.digits == dividend && y.digits == divisor {
        return;
      }
      var m, g, n, p := LongDivision(x, y);
      dividend, dividendUsed, divisor, divisorUsed := x.digits, a, y.digits, y.used;
      quoRem, quoRemUsed, remUsed, remShift := m, g, n, p;
    }

    /** `eU`: the quotient, rounded towards zero. */
    method QuotientOf(x: BigInt, y: BigInt) returns (q: BigInt)
      requires Valid() && x.Valid() && y.Valid() && y.Value() != 0
      modifies this
      ensures Valid() && q.Valid()
      ensures q.Value() == TruncatedQuotient(x.Value(), y.Value())
      ensures fresh(quoRem) || quoRem == old(quoRem)
    {
      hide Val, Pow, Pow2, Quotient, Remainder;
      AbsZero(x);
      AbsZero(y);
      if x.used < y.used {
        PowMonotone(x.used, y.used - 1);
        SmallQuotient(x.Abs(), y.Abs());
        q := FromInt(0);
        return;
      }
      Divide(x, y);
      var s := quoRemUsed - remUsed;
      var r := CloneDigits(quoRem, remUsed, quoRemUsed, s);
      assert r[..s] == quoRem[remUsed..quoRemUsed];
      q := Make(false, r, s);
      q := WithSign(q, x.neg != y.neg);
    }

    /** `ff`: the remainder, with the sign of the dividend. */
    method RemainderOf(x: BigInt, y: BigInt) returns (q: BigInt)
      requires Valid() && x.Valid() && y.Valid() && y.Value() != 0
      modifies this
      ensures Valid() && q.Valid()
      ensures q.Value() == TruncatedRemainder(x.Value(), y.Value())
      ensures fresh(quoRem) || quoRem == old(quoRem)
    {
      hide Val, Pow, Pow2, Quotient, Remainder;
      AbsZero(x);
      AbsZero(y);
      if x.used < y.used {
        PowMonotone(x.used, y.used - 1);
        SmallQuotient(x.Abs(), y.Abs());
        return x;
      }
      Divide(x, y);
      var r := CloneDigits(quoRem, 0, remUsed, remUsed);
      assert r[..remUsed] == quoRem[..remUsed];
      q := Make(false, r, remUsed);
      q := ShiftedBack(q, remShift, Remainder(x.Abs(), y.Abs()));
      q := WithSign(q, x.neg);
    }
  }

  // ----- truncated division

  ghost function Magnitude(x: int): nat {
    if x < 0 then -x else x
  }

  ghost function TruncatedQuotient(x: int, y: int): int
    requires y != 0
  {
    var q := Quotient(Magnitude(x), Magnitude(y));
    if (x < 0) != (y < 0) then -(q as int) else q
  }

  ghost function TruncatedRemainder(x: int, y: int): int
    requires y != 0
  {
    var r := Remainder(Magnitude(x), Magnitude(y));
    if x < 0 then -(r as int) else r
  }

  /** What division means: quotient and remainder are the only pair with these properties. */
  lemma TruncatedDivision(x: int, y: int, q: int, r: int)
    requires y != 0
    ensures q == TruncatedQuotient(x, y) && r == TruncatedRemainder(x, y) <==>
      x == q * y + r && Magnitude(r) < Magnitude(y) && (x >= 0 ==> r >= 0) && (x <= 0 ==> r <= 0)
  {
    var X, Y := Magnitude(x), Magnitude(y);
    QuotientLaw(X, Y);
    Signs(q, Y);
    Signs(TruncatedQuotient(x, y), Y);
    Signs(Quotient(X, Y), Y);
    if x == q * y + r && Magnitude(r) < Y && (x >= 0 ==> r >= 0) && (x <= 0 ==> r <= 0) {
      var q' := if (x < 0) != (y < 0) then -q else q;
      Signs(q', Y);
      if q' < 0 { MulMono(q', -1, Y); }
      QuotientUnique(q', Y, Quotient(X, Y), Magnitude(r), Remainder(X, Y));
    }
  }
}
