/**
 * Bernstein weights of the analytic derivatives (script.js:239-247):
 * `binom` uses the multiplicative loop, `bern` natural powers.
 */
module Bernstein {

  /** `Math.pow(x, n)` for a natural exponent; `Pow(x, 0) == 1` also for x == 0, as in JavaScript. */
  function Pow(x: real, n: nat): real {
    if n == 0 then 1.0 else x * Pow(x, n - 1)
  }

  /** The loop of `binom` from index i on, with r the value so far. */
  function BinomLoop(n: nat, k: nat, i: nat, r: real): real
    requires i >= 1
    decreases k + 1 - i
  {
    if i > k then r else BinomLoop(n, k, i + 1, r * ((n + 1 - i) as real) / (i as real))
  }

  /** `binom(n, k)`: r starts at 1 and the loop runs `r = r * (n + 1 - i) / i` for i = 1..k. */
  function Binom(n: nat, k: nat): real {
    BinomLoop(n, k, 1, 1.0)
  }

  /** The reference definition: the entry of Pascal's triangle, 0 past the end of a row. */
  function Choose(n: nat, k: nat): real {
    if k == 0 then 1.0 else if n == 0 then 0.0 else Choose(n - 1, k) + Choose(n - 1, k - 1)
  }

  /** `bern(n, i, t)`: C(n, i)·t^i·(1 - t)^(n - i). Every caller passes i <= n. */
  function Bern(n: nat, i: nat, t: real): (r: real)
    requires i <= n
    ensures 0.0 <= t <= 1.0 ==> r >= 0.0
  {
    BinomIsChoose(n, i);
    ChooseNonNegative(n, i);
    PowNonNegative(t, i);
    PowNonNegative(1.0 - t, n - i);
    NonNegativeProduct(Binom(n, i), Pow(t, i), Pow(1.0 - t, n - i));
    Weight(Binom(n, i), n, i, t, 1.0 - t)
  }

  /**
   * The weight c·t^i·u^(n - i): `bern` has c = binom(n, i) and u = 1 - t.
   * Keeping c and u abstract keeps the recurrence's products small.
   */
  function Weight(c: real, n: nat, i: nat, t: real, u: real): real
    requires i <= n
  {
    c * Pow(t, i) * Pow(u, n - i)
  }

  lemma NonNegativeProduct(a: real, b: real, c: real)
    ensures a >= 0.0 && b >= 0.0 && c >= 0.0 ==> a * b * c >= 0.0
  {
  }

  lemma {:induction false} PowNonNegative(x: real, n: nat)
    ensures x >= 0.0 ==> Pow(x, n) >= 0.0
  {
    if n > 0 {
      PowNonNegative(x, n - 1);
    }
  }

  /** The absorption identity k·C(n, k) = (n + 1 - k)·C(n, k - 1). */
  lemma {:induction false} Absorption(n: nat, k: nat)
    requires k >= 1
    ensures Choose(n, k) * (k as real) == Choose(n, k - 1) * ((n + 1 - k) as real)
    decreases n, 1
  {
    if n > 0 && k == 1 {
      AbsorptionFirst(n);
    } else if n > 0 {
      AbsorptionInner(n, k);
    }
  }

  /** Row n from row n - 1, at k = 1: C(n, 1) = n. */
  lemma {:induction false} AbsorptionFirst(n: nat)
    requires n >= 1
    ensures Choose(n, 1) == n as real
    decreases n, 0
  {
    Absorption(n - 1, 1);
  }

  /** Row n from row n - 1, for k >= 2. */
  lemma {:induction false} AbsorptionInner(n: nat, k: nat)
    requires n >= 1 && k >= 2
    ensures Choose(n, k) * (k as real) == Choose(n, k - 1) * ((n + 1 - k) as real)
    decreases n, 0
  {
    Absorption(n - 1, k);
    Absorption(n - 1, k - 1);
    AbsorptionArithmetic(Choose(n - 1, k), Choose(n - 1, k - 1), Choose(n - 1, k - 2), k as real, (n + 1 - k) as real);
  }

  /**
   * With c = C(n-1, k), a = C(n-1, k-1) and b = C(n-1, k-2), row n - 1's two
   * absorption identities give row n's, because C(n, k) = c + a and
   * C(n, k-1) = a + b. The entries and factors are plain reals here so that
   * the solver multiplies them as opaque values and never unfolds `Choose`
   * inside a product.
   */
  lemma AbsorptionArithmetic(c: real, a: real, b: real, k: real, m: real)
    ensures c * k == a * (m - 1.0) && a * (k - 1.0) == b * m
            ==> (c + a) * k == (a + b) * m
  {
    assert (c + a) * k == c * k + a * (k - 1.0) + a;
  }

  lemma {:induction false} ChooseNonNegative(n: nat, k: nat)
    ensures Choose(n, k) >= 0.0
  {
    if k > 0 && n > 0 {
      ChooseNonNegative(n - 1, k);
      ChooseNonNegative(n - 1, k - 1);
    }
  }

  lemma DivideOut(p: real, q: real, d: real)
    requires d > 0.0 && q * d == p
    ensures p / d == q
  {
  }

  /** One round of the loop, stated without the division: the next value r2 satisfies r2·i = r·(n + 1 - i). */
  lemma LoopStep(n: nat, k: nat, i: nat, r: real, r2: real)
    requires 1 <= i <= k && r2 * (i as real) == r * ((n + 1 - i) as real)
    ensures BinomLoop(n, k, i, r) == BinomLoop(n, k, i + 1, r2)
  {
    DivideOut(r * ((n + 1 - i) as real), r2, i as real);
  }

  /** The loop invariant: entering round i, r holds C(n, i - 1). */
  lemma {:induction false} LoopFrom(n: nat, k: nat, i: nat)
    requires 1 <= i <= k + 1
    ensures BinomLoop(n, k, i, Choose(n, i - 1)) == Choose(n, k)
    decreases k + 1 - i
  {
    if i <= k {
      Absorption(n, i);
      LoopStep(n, k, i, Choose(n, i - 1), Choose(n, i));
      LoopFrom(n, k, i + 1);
    }
  }

  /** The multiplicative loop computes the entry of Pascal's triangle, for every n and k. */
  lemma BinomIsChoose(n: nat, k: nat)
    ensures Binom(n, k) == Choose(n, k)
  {
    LoopFrom(n, k, 1);
  }

  /** Pascal's rule for the multiplicative `binom`: C(n, k) = C(n-1, k) + C(n-1, k-1). */
  lemma Pascal(n: nat, k: nat)
    requires n >= 1 && k >= 1
    ensures Binom(n, k) == Binom(n - 1, k) + Binom(n - 1, k - 1)
  {
    BinomIsChoose(n, k);
    BinomIsChoose(n - 1, k);
    BinomIsChoose(n - 1, k - 1);
  }

  lemma {:induction false} ChooseBeyond(n: nat, k: nat)
    requires k > n
    ensures Choose(n, k) == 0.0
  {
    if n > 0 {
      ChooseBeyond(n - 1, k);
      ChooseBeyond(n - 1, k - 1);
    }
  }

  lemma {:induction false} ChooseDiagonal(m: nat)
    ensures Choose(m, m) == 1.0
  {
    if m > 0 {
      ChooseBeyond(m - 1, m);
      ChooseDiagonal(m - 1);
    }
  }

  /** The two ends of every row of Pascal's triangle are 1. */
  lemma BinomEnds(m: nat)
    ensures Binom(m, 0) == 1.0
    ensures Binom(m, m) == 1.0
  {
    BinomIsChoose(m, m);
    ChooseDiagonal(m);
  }

  /** Past the end of the row the multiplicative loop reaches the factor 0. */
  lemma BinomBeyond(n: nat, k: nat)
    requires k > n
    ensures Binom(n, k) == 0.0
  {
    BinomIsChoose(n, k);
    ChooseBeyond(n, k);
  }

  lemma {:induction false} PowOne(n: nat)
    ensures Pow(1.0, n) == 1.0
  {
    if n > 0 {
      PowOne(n - 1);
    }
  }

  /** At t = 0 only the first weight is 1, and at t = 1 only the last. */
  lemma BernEndpoints(n: nat, i: nat)
    requires i <= n
    ensures Bern(n, i, 0.0) == if i == 0 then 1.0 else 0.0
    ensures Bern(n, i, 1.0) == if i == n then 1.0 else 0.0
  {
    BinomEnds(n);
    PowOne(n - i);
    PowOne(i);
  }

  lemma PowStep(x: real, k: nat)
    requires k >= 1
    ensures Pow(x, k) == x * Pow(x, k - 1)
  {
  }

  /**
   * The ring identity under the inner recurrence:
   * (a + b)·t^j·u^(n-j) splits into u·a·t^j·u^(n-1-j) + t·b·t^(j-1)·u^(n-j).
   */
  lemma WeightSplit(a: real, b: real, n: nat, j: nat, t: real, u: real)
    requires 0 < j < n
    ensures Weight(a + b, n, j, t, u) == u * Weight(a, n - 1, j, t, u) + t * Weight(b, n - 1, j - 1, t, u)
  {
    PowStep(t, j);
    PowStep(u, n - j);
    var p, q := Pow(t, j - 1), Pow(u, n - 1 - j);
    assert Weight(a + b, n, j, t, u) == (a + b) * (t * p) * (u * q);
    assert Weight(a, n - 1, j, t, u) == a * (t * p) * q;
    assert Weight(b, n - 1, j - 1, t, u) == b * p * (u * q);
  }

  /** `bern` with its binomial coefficient read as Pascal's triangle. */
  lemma BernIsChooseWeight(n: nat, i: nat, t: real)
    requires i <= n
    ensures Bern(n, i, t) == Weight(Choose(n, i), n, i, t, 1.0 - t)
  {
    BinomIsChoose(n, i);
  }

  /** u·a + t·b, the mix in which each weight of degree n combines two of degree n - 1. */
  function Blend(u: real, a: real, t: real, b: real): real {
    u * a + t * b
  }

  /**
   * The Bernstein recurrence, for every u (the weights of `bern` have
   * u = 1 - t): each weight of degree n mixes the neighbouring weights of
   * degree n - 1, with the out-of-range ones taken as 0.
   */
  lemma WeightRecurrence(n: nat, j: nat, t: real, u: real)
    requires n >= 1 && j <= n
    ensures Weight(Choose(n, j), n, j, t, u)
         == Blend(u, if j < n then Weight(Choose(n - 1, j), n - 1, j, t, u) else 0.0,
                  t, if j > 0 then Weight(Choose(n - 1, j - 1), n - 1, j - 1, t, u) else 0.0)
  {
    if j == 0 {
      WeightRecurrenceFirst(n, t, u);
    } else if j == n {
      WeightRecurrenceLast(n, t, u);
    } else {
      WeightRecurrenceInner(n, j, t, u);
    }
  }

  lemma WeightRecurrenceFirst(n: nat, t: real, u: real)
    requires n >= 1
    ensures Weight(Choose(n, 0), n, 0, t, u) == u * Weight(Choose(n - 1, 0), n - 1, 0, t, u)
  {
    PowStep(u, n);
  }

  lemma WeightRecurrenceLast(n: nat, t: real, u: real)
    requires n >= 1
    ensures Weight(Choose(n, n), n, n, t, u) == t * Weight(Choose(n - 1, n - 1), n - 1, n - 1, t, u)
  {
    ChooseDiagonal(n);
    ChooseDiagonal(n - 1);
    PowStep(t, n);
  }

  /** Inside the row the coefficient is Pascal's sum, which splits the weight. */
  lemma WeightRecurrenceInner(n: nat, j: nat, t: real, u: real)
    requires 0 < j < n
    ensures Weight(Choose(n, j), n, j, t, u)
         == u * Weight(Choose(n - 1, j), n - 1, j, t, u) + t * Weight(Choose(n - 1, j - 1), n - 1, j - 1, t, u)
  {
    WeightSplit(Choose(n - 1, j), Choose(n - 1, j - 1), n, j, t, u);
  }
}
