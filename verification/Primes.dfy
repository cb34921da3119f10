/** Primes: what sieve, factor and totient (more_itertools/recipes.py) are specified against.

    A prime has no divisor between 1 and itself. Every number from 2 on has a prime divisor, a composite one has a
    divisor up to its square root, and a prime that divides a product divides a factor.

    PrimesBelow lists the primes in order by trying every number. */
module Primes {

  import opened Division

  ghost predicate IsPrime(n: nat) {
    n >= 2 && forall d :: 2 <= d < n ==> !Divides(d, n)
  }

  ghost predicate AllPrime(ps: seq<nat>) {
    forall i :: 0 <= i < |ps| ==> IsPrime(ps[i])
  }

  /** The least divisor above 1 is prime. */
  lemma {:induction false} PrimeDivisorFrom(n: nat, d: nat) returns (p: nat)
    requires n >= 2 && 2 <= d <= n && forall c :: 2 <= c < d ==> !Divides(c, n)
    ensures IsPrime(p) && Divides(p, n) && d <= p
    decreases n - d
  {
    if Divides(d, n) {
      p := d;
      forall c | 2 <= c < d ensures !Divides(c, d) {
        if Divides(c, d) { DividesTransitive(c, d, n); }
      }
    } else {
      if d == n {
        MultipleDivides(1, n);
      }
      p := PrimeDivisorFrom(n, d + 1);
    }
  }

  lemma PrimeDivisor(n: nat) returns (p: nat)
    requires n >= 2
    ensures IsPrime(p) && Divides(p, n)
  {
    p := PrimeDivisorFrom(n, 2);
  }

  lemma CofactorIsSmaller(d: nat, e: nat)
    requires 2 <= d < e * d
    ensures 2 <= e < e * d
  {
    if e >= 2 {
      TimesLess(e, 2, d);
    }
  }

  lemma TimesLess(a: nat, b: nat, c: nat)
    requires b <= c
    ensures a * b <= a * c
  {
  }

  lemma Cofactor(n: nat, d: nat, e: nat)
    requires 2 <= d < n && n == e * d
    ensures 2 <= e < n
    ensures (e <= d ==> e * e <= n) && (d <= e ==> d * d <= n)
  {
    CofactorIsSmaller(d, e);
    if e <= d {
      TimesLess(e, e, d);
    } else {
      TimesLess(d, d, e);
    }
  }

  /** A composite number has a divisor up to its square root. */
  lemma SmallDivisor(n: nat) returns (d: nat)
    requires n >= 2 && !IsPrime(n)
    ensures 2 <= d < n && d * d <= n && Divides(d, n)
  {
    d :| 2 <= d < n && Divides(d, n);
    DivisionFacts(n, d);
    var e := Quot(n, d);
    Cofactor(n, d, e);
    if e < d {
      MultipleDivides(d, e);
      d := e;
    }
  }

  lemma Distribute(p: nat, q: nat, a: nat, r: nat, b: nat)
    requires p == q * a + r
    ensures p * b == q * (a * b) + r * b
  {
    assert (q * a) * b == q * (a * b);
  }

  /** If p divides a * b it divides r * b, where r is what remains of x = q * a + r or of a itself. */
  lemma DividesRest(p: nat, x: nat, q: nat, a: nat, r: nat, b: nat)
    requires p >= 1 && x == q * a + r && Divides(p, x * b) && Divides(p, q * (a * b))
    ensures Divides(p, r * b)
  {
    Distribute(x, q, a, r, b);
    DividesSum(p, q * (a * b), r * b);
  }

  /** Euclid: a prime that divides a product divides a factor. */
  lemma {:induction false} Euclid(p: nat, a: nat, b: nat)
    requires IsPrime(p) && Divides(p, a * b) && !Divides(p, a)
    ensures Divides(p, b)
    decreases a
  {
    MultipleDivides(1, p);
    DividesProduct(p, p, b);
    if a >= p {
      DividesRest(p, a, 1, p, a - p, b);
      Euclid(p, a - p, b);
    } else if a > 1 {
      DivisionFacts(p, a);
      assert !Divides(a, p);
      DividesProduct(p, a * b, Quot(p, a));
      DividesRest(p, p, Quot(p, a), a, Rem(p, a), b);
      Euclid(p, Rem(p, a), b);
    }
  }

  /** A prime divides another prime only if they are equal. */
  lemma PrimeDividesPrime(p: nat, q: nat)
    requires IsPrime(p) && IsPrime(q) && Divides(p, q)
    ensures p == q
  {
    DivisorBound(p, q);
  }

  /** The primes below n, in order. */
  ghost function PrimesBelow(n: nat): seq<nat> {
    if n == 0 then [] else PrimesBelow(n - 1) + if IsPrime(n - 1) then [n - 1] else []
  }
}
