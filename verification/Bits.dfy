// Powers of two and bitwise "or" on natural numbers, shared by the digit and the codec modules.

/** Laws of multiplication, applied one at a time to keep nonlinear goals small. */
module Products {

  lemma Commute(x: int, y: int)
    ensures x * y == y * x
  {
  }

  lemma Regroup(x: int, y: int, z: int)
    ensures (x * y) * z == x * (y * z)
  {
  }

  lemma Distribute(x: int, y: int, z: int)
    ensures (x + y) * z == x * z + y * z
    ensures z * (x + y) == z * x + z * y
  {
  }

  lemma DistributeMinus(x: int, y: int, z: int)
    ensures z * (x - y) == z * x - z * y
  {
  }

  lemma MulMono(x: int, y: int, z: int)
    requires x <= y && 0 <= z
    ensures x * z <= y * z && z * x <= z * y
  {
  }

  lemma MulMonoStrict(x: int, y: int, z: int)
    requires x < y && 0 < z
    ensures x * z < y * z && z * x < z * y
  {
  }

  lemma MulNonNegative(x: nat, y: nat)
    ensures x * y >= 0
  {
  }

  /** Division is pinned down by its two laws, without asking the solver about `/` itself. */
  lemma Division(x: nat, p: nat)
    requires p > 0
    ensures x / p >= 0 && 0 <= x % p < p && x == p * (x / p) + x % p
  {
  }

  lemma QuotientUnique(a: nat, b: nat, q: nat, p: nat, r: nat)
    requires r < b && p < b && a * b + p == q * b + r
    ensures a == q && p == r
  {
    Distribute(a, 1, b);
    Distribute(q, 1, b);
    if a < q {
      MulMono(a + 1, q, b);
    } else if q < a {
      MulMono(q + 1, a, b);
    }
  }

  lemma DivMod(x: nat, m: nat, q: nat, r: nat)
    requires m > 0 && r < m && x == m * q + r
    ensures x % m == r && x / m == q
  {
    Division(x, m);
    Commute(m, q);
    Commute(m, x / m);
    QuotientUnique(x / m, m, q, x % m, r);
  }

  lemma DivideTwice(v: nat, a: nat, b: nat)
    requires a > 0 && b > 0
    ensures a * b > 0 && v / a / b == v / (a * b)
  {
    var q, r := v / a, v % a;
    var q', r' := q / b, q % b;
    Division(v, a);
    Division(q, b);
    MulMonoStrict(0, b, a);
    Distribute(b * q', r', a);
    Regroup(a, b, q');
    MulMono(r' + 1, b, a);
    Distribute(r', 1, a);
    Commute(a, r');
    Commute(a * b, q');
    DivMod(v, a * b, q', a * r' + r);
  }
}

module Bits {
  import opened Products

  function Pow2(n: nat): (p: nat)
    ensures p > 0
  {
    if n == 0 then 1 else 2 * Pow2(n - 1)
  }

  lemma {:induction false} Pow2Plus(m: nat, n: nat)
    ensures Pow2(m + n) == Pow2(m) * Pow2(n)
  {
    if m > 0 {
      Pow2Plus(m - 1, n);
      Regroup(2, Pow2(m - 1), Pow2(n));
    }
  }

  lemma {:induction false} Pow2Monotone(m: nat, n: nat)
    ensures Pow2(m) < Pow2(n) <==> m < n
  {
    if m > 0 && n > 0 { Pow2Monotone(m - 1, n - 1); }
  }

  lemma Pow2Of16()
    ensures Pow2(8) == 256 && Pow2(16) == 65536 && Pow2(15) == 32768
  {
    assert Pow2(8) == 256;
    Pow2Plus(8, 8);
    Pow2Plus(8, 7);
    assert Pow2(7) == 128;
  }

  lemma Pow2Of32()
    ensures Pow2(32) == 0x1_0000_0000 && Pow2(64) == 0x1_0000_0000_0000_0000
  {
    hide Pow2;
    Pow2Of16();
    Pow2Plus(16, 16);
    Pow2Plus(32, 32);
  }

  /** Bitwise or. */
  function Or(x: nat, y: nat): nat {
    if x == 0 then y
    else if y == 0 then x
    else (if x % 2 == 1 || y % 2 == 1 then 1 else 0) + 2 * Or(x / 2, y / 2)
  }

  /** Without common bits, "or" is addition. */
  lemma {:induction false} OrDisjoint(x: nat, z: nat, k: nat)
    requires x < Pow2(k)
    ensures Or(x, Pow2(k) * z) == x + Pow2(k) * z
    ensures Or(Pow2(k) * z, x) == x + Pow2(k) * z
  {
    hide Or;
    if k == 0 {
      OrZero(z);
    } else {
      OrDisjoint(x / 2, z, k - 1);
      var half := Pow2(k - 1) * z;
      Regroup(2, Pow2(k - 1), z);
      OrStep(x, half);
    }
  }

  lemma OrZero(y: nat)
    ensures Or(0, y) == y && Or(y, 0) == y
  {
  }

  lemma OrStep(x: nat, h: nat)
    ensures x != 0 && h != 0 ==> Or(x, 2 * h) == x % 2 + 2 * Or(x / 2, h)
    ensures x != 0 && h != 0 ==> Or(2 * h, x) == x % 2 + 2 * Or(h, x / 2)
    ensures h == 0 ==> Or(x, 0) == x && Or(0, x) == x
    ensures x == 0 ==> Or(x, 2 * h) == 2 * h && Or(2 * h, x) == 2 * h
  {
    assert (2 * h) / 2 == h && (2 * h) % 2 == 0;
  }
}
