/** Binomial coefficients and the exact division steps the ranking algorithms rely on.

    Comb follows Pascal's triangle, so that it counts combinations by whether they take the first element. The source
    never builds the triangle: it moves from one coefficient to a neighbour by a multiplication and a division.

    TakeOne, SkipOne and GrowOne say that each of these divisions is exact. */
module Binomials {

  import opened Division

  ghost function Comb(n: nat, k: nat): nat {
    if k == 0 then 1 else if n == 0 then 0 else Comb(n - 1, k - 1) + Comb(n - 1, k)
  }

  lemma {:induction false} CombZero(n: nat, k: nat)
    requires n < k
    ensures Comb(n, k) == 0
  {
    if n > 0 {
      CombZero(n - 1, k - 1);
      CombZero(n - 1, k);
    }
  }

  lemma {:induction false} CombSelf(n: nat)
    ensures Comb(n, n) == 1
  {
    if n > 0 {
      CombSelf(n - 1);
      CombZero(n - 1, n);
    }
  }

  lemma {:induction false} CombPositive(n: nat, k: nat)
    requires k <= n
    ensures Comb(n, k) >= 1
  {
    if k > 0 { CombPositive(n - 1, k - 1); }
  }

  lemma AbsorbStep(n: int, k: int, a: int, b: int, c: int)
    requires (k - 1) * (a + b) == (n - 1) * a && k * c == (n - 1) * b
    ensures k * (a + b + c) == n * (a + b)
  {
    assert k * (a + b + c) == (k - 1) * (a + b) + (a + b) + k * c;
    assert n * (a + b) == (n - 1) * a + (n - 1) * b + (a + b);
  }

  /** k * C(n, k) = n * C(n-1, k-1) */
  lemma {:induction false} Absorb(n: nat, k: nat)
    requires n >= 1 && k >= 1
    ensures k * Comb(n, k) == n * Comb(n - 1, k - 1)
  {
    if n == 1 {
      CombZero(0, k);
      if k > 1 { CombZero(0, k - 1); }
    } else {
      Absorb(n - 1, k);
      if k == 1 {
        assert Comb(n, 1) == 1 + Comb(n - 1, 1);
      } else {
        Absorb(n - 1, k - 1);
        AbsorbStep(n, k, Comb(n - 2, k - 2), Comb(n - 2, k - 1), Comb(n - 1, k));
      }
    }
  }

  lemma DropStep(n: int, k: int, a: int, b: int)
    requires k * (a + b) == n * a
    ensures (a + b) * (n - k) == n * b
  {
    assert (a + b) * (n - k) == n * (a + b) - k * (a + b);
    assert n * (a + b) == n * a + n * b;
  }

  /** (n - k) * C(n, k) = n * C(n-1, k) */
  lemma Drop(n: nat, k: nat)
    requires n >= 1 && k <= n
    ensures Comb(n, k) * (n - k) == n * Comb(n - 1, k)
  {
    if k > 0 {
      Absorb(n, k);
      DropStep(n, k, Comb(n - 1, k - 1), Comb(n - 1, k));
    }
  }

  lemma ExactDivision(a: nat, b: nat, n: nat)
    requires n >= 1 && a == n * b
    ensures a / n == b
  {
    IsDivMod(a, n);
    MultipleDivides(b, n);
    assert b * n == n * b;
  }

  /** The division c * r // n that fixes one element is exact. */
  lemma TakeOne(n: nat, r: nat)
    requires n >= 1 && r >= 1
    ensures Comb(n, r) * r / n == Comb(n - 1, r - 1)
  {
    Absorb(n, r);
    ExactDivision(Comb(n, r) * r, Comb(n - 1, r - 1), n);
  }

  /** The division c * (n - r) // n that skips one element is exact. */
  lemma SkipOne(n: nat, r: nat)
    requires n >= 1 && r <= n
    ensures Comb(n, r) * (n - r) / n == Comb(n - 1, r)
  {
    Drop(n, r);
    ExactDivision(Comb(n, r) * (n - r), Comb(n - 1, r), n);
  }

  /** The division c * m // i of the product form is exact. */
  lemma GrowOne(m: nat, i: nat)
    requires m >= 1 && i >= 1
    ensures Comb(m - 1, i - 1) * m / i == Comb(m, i)
  {
    Absorb(m, i);
    ExactDivision(Comb(m - 1, i - 1) * m, Comb(m, i), i);
  }

  lemma {:induction false} Symmetry(n: nat, k: nat)
    requires k <= n
    ensures Comb(n, k) == Comb(n, n - k)
  {
    if k == 0 || k == n {
      CombSelf(n);
    } else {
      Symmetry(n - 1, k - 1);
      Symmetry(n - 1, k);
    }
  }
}
