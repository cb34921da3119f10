/** Quotient and remainder of naturals by repeated subtraction, and their laws; Python's // and %
    on naturals are the same functions (see IsDivMod).

    The recursive form is what the proofs about counters, digits, multiples and primes induct on: one subtraction is one
    lap of a wheel, one digit carried, one multiple passed. Divisibility is a remainder of zero.

    Nothing here is specific to one algorithm. */
module Division {

  ghost function Quot(m: nat, n: nat): nat
    requires n >= 1
  {
    if m < n then 0 else Quot(m - n, n) + 1
  }

  ghost function Rem(m: nat, n: nat): (r: nat)
    requires n >= 1
    ensures r < n
  {
    if m < n then m else Rem(m - n, n)
  }

  ghost predicate Divides(d: nat, n: nat)
    requires d >= 1
  {
    Rem(n, d) == 0
  }

  lemma {:induction false} DivisionFacts(m: nat, n: nat)
    requires n >= 1
    ensures m == Quot(m, n) * n + Rem(m, n)
  {
    if m >= n { DivisionFacts(m - n, n); }
  }

  lemma {:induction false} DivUnique(q: nat, n: nat, r: nat)
    requires r < n
    ensures Quot(q * n + r, n) == q && Rem(q * n + r, n) == r
  {
    if q > 0 {
      assert q * n + r == (q - 1) * n + r + n;
      DivUnique(q - 1, n, r);
    }
  }

  /** Python's m // n and m % n. */
  lemma IsDivMod(m: nat, n: nat)
    requires n >= 1
    ensures m / n == Quot(m, n) && m % n == Rem(m, n)
  {
    var q, r := m / n, m % n;
    assert m == q * n + r;
    DivUnique(q, n, r);
  }

  lemma {:induction false} DivStep(m: nat, n: nat)
    requires n >= 1
    ensures Rem(m, n) == n - 1 ==> Quot(m + 1, n) == Quot(m, n) + 1 && Rem(m + 1, n) == 0
    ensures Rem(m, n) != n - 1 ==> Quot(m + 1, n) == Quot(m, n) && Rem(m + 1, n) == Rem(m, n) + 1
  {
    if m >= n { DivStep(m - n, n); }
  }

  lemma MultipleDivides(q: nat, d: nat)
    requires d >= 1
    ensures Divides(d, q * d) && Quot(q * d, d) == q
  {
    DivUnique(q, d, 0);
  }

  /** Adding a multiple of d does not change the remainder. */
  lemma {:induction false} RemAddMultiple(q: nat, d: nat, b: nat)
    requires d >= 1
    ensures Rem(q * d + b, d) == Rem(b, d)
  {
    if q > 0 {
      assert q * d + b == (q - 1) * d + b + d;
      RemAddMultiple(q - 1, d, b);
    }
  }

  lemma DividesSum(d: nat, a: nat, b: nat)
    requires d >= 1 && Divides(d, a)
    ensures Divides(d, a + b) <==> Divides(d, b)
  {
    DivisionFacts(a, d);
    RemAddMultiple(Quot(a, d), d, b);
  }

  lemma DividesProduct(d: nat, a: nat, b: nat)
    requires d >= 1 && Divides(d, a)
    ensures Divides(d, a * b) && Divides(d, b * a)
  {
    DivisionFacts(a, d);
    var q := Quot(a, d);
    assert a * b == (q * b) * d by { assert (q * d) * b == (q * b) * d; }
    MultipleDivides(q * b, d);
  }

  lemma DividesTransitive(c: nat, d: nat, n: nat)
    requires c >= 1 && d >= 1 && Divides(c, d) && Divides(d, n)
    ensures Divides(c, n)
  {
    DivisionFacts(n, d);
    DividesProduct(c, d, Quot(n, d));
  }

  lemma DivisorBound(d: nat, n: nat)
    requires d >= 1 && n >= 1 && Divides(d, n)
    ensures d <= n
  {
  }
}
