// Powers of two and the division facts the other modules need.
module Arith {

  function Pow2(n: nat): (r: nat)
    ensures r > 0
  {
    if n == 0 then 1 else 2 * Pow2(n - 1)
  }

  lemma {:induction false} Pow2Sum(a: nat, b: nat)
    ensures Pow2(a + b) == Pow2(a) * Pow2(b)
  {
    if a > 0 {
      Pow2Sum(a - 1, b);
      MulAssoc(2, Pow2(a - 1), Pow2(b));
    }
  }

  lemma {:induction false} Pow2Mono(a: nat, b: nat)
    requires a <= b
    ensures Pow2(a) <= Pow2(b)
    decreases b
  {
    if a < b {
      Pow2Mono(a, b - 1);
    }
  }

  lemma {:induction false} Pow2Exceeds(n: nat)
    ensures Pow2(n) > n
  {
    if n > 0 {
      Pow2Exceeds(n - 1);
    }
  }

  // ---------- products ----------

  lemma MulMono(a: int, b: int, c: int)
    requires a <= b && c >= 0
    ensures a * c <= b * c
  {
  }

  lemma MulSub(a: int, b: int, c: int)
    ensures (a - b) * c == a * c - b * c
  {
  }

  lemma MulAdd(a: int, b: int, c: int)
    ensures (a + b) * c == a * c + b * c
  {
  }

  lemma MulAssoc(a: int, b: int, c: int)
    ensures (a * b) * c == a * (b * c)
  {
  }

  lemma MulZero(d: int, k: int)
    requires -d < k * d < d
    ensures k == 0
  {
    if k >= 1 {
      MulMono(1, k, d);
    }
    if k <= -1 {
      MulMono(k, -1, d);
    }
  }

  lemma ScaledBound(a: int, k: nat, m: nat)
    requires a < Pow2(k)
    ensures a * Pow2(m) < Pow2(k + m)
  {
    Pow2Sum(k, m);
    MulMono(a, Pow2(k) - 1, Pow2(m));
    MulSub(Pow2(k), 1, Pow2(m));
  }

  // ---------- quotients ----------

  lemma DivMod(a: int, d: int)
    requires d > 0
    ensures a == (a / d) * d + a % d && 0 <= a % d < d
  {
  }

  lemma QuotientUnique(a: int, d: int, q: int, r: int)
    requires d > 0 && a == q * d + r && 0 <= r < d
    ensures a / d == q && a % d == r
  {
    DivMod(a, d);
    MulSub(q, a / d, d);
    MulZero(d, q - a / d);
  }

  lemma NestedQuotient(a: nat, b: nat, c: nat, q: nat, r: nat, q2: nat, r2: nat)
    requires b > 0 && c > 0
    requires a == q * b + r && r < b && q == q2 * c + r2 && r2 < c
    ensures a == q2 * (b * c) + (r2 * b + r)
    ensures 0 <= r2 * b + r < b * c
  {
    MulAdd(q2 * c, r2, b);
    MulAssoc(q2, c, b);
    MulMono(r2, c - 1, b);
    MulSub(c, 1, b);
  }

  lemma DivDiv(a: nat, b: nat, c: nat)
    requires b > 0 && c > 0
    ensures b * c > 0
    ensures a / b / c == a / (b * c)
  {
    DivMod(a, b);
    DivMod(a / b, c);
    var q2, r2 := a / b / c, a / b % c;
    NestedQuotient(a, b, c, a / b, a % b, q2, r2);
    QuotientUnique(a, b * c, q2, r2 * b + a % b);
  }

  lemma ModHalf(b: nat, v: nat, m: nat)
    requires b < 2 && m > 0
    ensures (b + 2 * v) % (2 * m) == b + 2 * (v % m)
  {
    DivMod(v, m);
    MulAssoc(2, v / m, m);
    MulAssoc(v / m, 2, m);
    QuotientUnique(b + 2 * v, 2 * m, v / m, b + 2 * (v % m));
  }

  /** Membership in the q-th block of d numbers. */
  lemma DivIsBlock(a: int, d: int, q: int)
    requires d > 0
    ensures a / d == q <==> q * d <= a < (q + 1) * d
  {
    DivMod(a, d);
    MulAdd(q, 1, d);
    if q * d <= a < (q + 1) * d {
      QuotientUnique(a, d, q, a - q * d);
    }
  }

  /** n without its k low bits; C's `n >> k`. */
  function Drop(n: nat, k: nat): nat {
    if k == 0 then n else Drop(n, k - 1) / 2
  }

  lemma {:induction false} DropIsDiv(n: nat, k: nat)
    ensures Drop(n, k) == n / Pow2(k)
  {
    if k > 0 {
      DropIsDiv(n, k - 1);
      DivDiv(n, Pow2(k - 1), 2);
    }
  }

  /** n * 2^k; C's `n << k` when nothing is lost. */
  function Lift(n: nat, k: nat): nat {
    if k == 0 then n else 2 * Lift(n, k - 1)
  }

  lemma {:induction false} LiftIsProduct(n: nat, k: nat)
    ensures Lift(n, k) == n * Pow2(k)
  {
    if k > 0 {
      LiftIsProduct(n, k - 1);
      MulAssoc(n, Pow2(k - 1), 2);
    }
  }

  lemma {:induction false} LiftMono(a: nat, b: nat, k: nat)
    requires a < b
    ensures Lift(a, k) < Lift(b, k)
  {
    if k > 0 {
      LiftMono(a, b, k - 1);
    }
  }

  lemma LiftBound(a: nat, j: nat, k: nat)
    requires a < Pow2(j)
    ensures Lift(a, k) < Pow2(j + k)
  {
    LiftIsProduct(a, k);
    ScaledBound(a, j, k);
  }

  /** n >> k == q exactly for the 2^k numbers from q << k on. */
  lemma {:induction false} DropIsBlock(n: nat, k: nat, q: nat)
    ensures Drop(n, k) == q <==> Lift(q, k) <= n < Lift(q + 1, k)
  {
    DropIsDiv(n, k);
    DivIsBlock(n, Pow2(k), q);
    LiftIsProduct(q, k);
    LiftIsProduct(q + 1, k);
  }

  lemma DropZero(n: nat, k: nat)
    ensures Drop(n, k) == 0 <==> n < Pow2(k)
  {
    DropIsBlock(n, k, 0);
    LiftIsProduct(0, k);
    LiftIsProduct(1, k);
  }

  // ---------- exact reals ----------

  /** 2^n as a double; exact in the range of steps used. */
  function Pow2R(n: nat): (r: real)
    ensures r >= 1.0
  {
    if n == 0 then 1.0 else 2.0 * Pow2R(n - 1)
  }

  lemma {:induction false} Pow2RIsPow2(n: nat)
    ensures Pow2R(n) == Pow2(n) as real
  {
    if n > 0 {
      Pow2RIsPow2(n - 1);
    }
  }

  lemma {:induction false} Pow2RSum(a: nat, b: nat)
    ensures Pow2R(a + b) == Pow2R(a) * Pow2R(b)
  {
    if a > 0 {
      Pow2RSum(a - 1, b);
      assert Pow2R(a + b) == 2.0 * Pow2R(a - 1 + b);
    }
  }

  lemma RealMulMono(a: real, b: real, c: real)
    requires a <= b && c >= 0.0
    ensures a * c <= b * c
  {
  }

  lemma RealMulLess(a: real, b: real, c: real)
    requires c > 0.0
    ensures a < b <==> a * c < b * c
  {
  }

  lemma SignOfProduct(f: real, c: real, p: real)
    requires c > 0.0 && p == f * c
    ensures f > 0.0 <==> p > 0.0
    ensures f >= 0.0 <==> p >= 0.0
  {
  }

  lemma RealDivMul(a: real, c: real)
    requires c != 0.0
    ensures a / c * c == a
  {
  }
}
