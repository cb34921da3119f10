/** factor and totient (more_itertools/recipes.py): the prime factorisation, and Euler's product
    against the plain count of coprime numbers. */
module Totient {

  import opened Lists
  import opened Division
  import opened Primes
  import Sieve

  // ---- factor ----

  ghost function Product(s: seq<nat>): nat {
    if s == [] then 1 else Product(s[..|s| - 1]) * s[|s| - 1]
  }

  /** No prime below b divides m. */
  ghost predicate NoPrimeBelow(m: nat, b: nat) {
    forall p :: 0 <= p < b && IsPrime(p) ==> !Divides(p, m)
  }

  /** The factors found so far, the rest m, and the bound below which m has no prime. */
  ghost predicate Factored(out: seq<nat>, m: nat, b: nat, n: nat) {
    && m >= 1 && Product(out) * m == n
    && AllPrime(out) && Nondecreasing(out)
    && (forall i :: 0 <= i < |out| ==> out[i] <= b)
    && NoPrimeBelow(m, b)
  }

  /** Dividing out one prime. */
  lemma FactoredStep(out: seq<nat>, m: nat, p: nat, n: nat)
    requires Factored(out, m, p, n) && IsPrime(p) && Divides(p, m)
    ensures m / p >= 1 && m / p < m && m == p * (m / p)
    ensures Factored(out + [p], m / p, p, n)
  {
    IsDivMod(m, p);
    DivisionFacts(m, p);
    var q := Quot(m, p);
    Regroup(Product(out), q, p, m, n);
    forall r | 0 <= r < p && IsPrime(r) ensures !Divides(r, q) {
      if Divides(r, q) { DividesProduct(r, q, p); }
    }
  }

  lemma Regroup(a: nat, q: nat, p: nat, m: nat, n: nat)
    requires m == q * p && a * m == n && m >= 1 && p >= 2
    ensures a * p * q == n && 1 <= q < m && m == p * q
  {
    assert a * p * q == a * (q * p);
    assert q != 0;
    assert q * p >= q * 2;
  }

  /** What has no prime up to the root of n >= m is 1 or prime. */
  lemma RestIsPrime(m: nat, n: nat, root: nat)
    requires 2 <= m <= n < (root + 1) * (root + 1) && NoPrimeBelow(m, root + 1)
    ensures IsPrime(m) && m > root
  {
    var p := PrimeDivisor(m);
    DivisorBound(p, m);
    if !IsPrime(m) {
      var d := SmallDivisor(m);
      var q := PrimeDivisor(d);
      DivisorBound(q, d);
      DividesTransitive(q, d, m);
      Sieve.SquaresInOrder(root, d);
      assert false;
    }
  }

  lemma {:induction false} PrimesBelowIs(n: nat)
    ensures forall p :: p in PrimesBelow(n) <==> 0 <= p < n && IsPrime(p)
    ensures forall i, j :: 0 <= i < j < |PrimesBelow(n)| ==> PrimesBelow(n)[i] < PrimesBelow(n)[j]
  {
    if n > 0 {
      PrimesBelowIs(n - 1);
      var front := PrimesBelow(n - 1);
      assert forall i :: 0 <= i < |front| ==> front[i] in front;
    }
  }

  /** The prime tried at position i; past the last one, the end of the range. */
  function Tried(primes: seq<nat>, n: nat, i: nat): nat
    requires i <= |primes|
  {
    if i < |primes| then primes[i] else n
  }

  /** No prime lies between two positions of the list. */
  lemma NoPrimeBetween(primes: seq<nat>, n: nat, i: nat, m: nat)
    requires primes == PrimesBelow(n) && i <= |primes|
    requires if i == 0 then true else NoPrimeBelow(m, primes[i - 1] + 1)
    ensures NoPrimeBelow(m, Tried(primes, n, i))
    ensures forall j :: 0 <= j < i ==> primes[j] <= Tried(primes, n, i)
  {
    PrimesBelowIs(n);
    assert forall j :: 0 <= j < |primes| ==> primes[j] in primes;
    forall p | 0 <= p < Tried(primes, n, i) && IsPrime(p) ensures !Divides(p, m) {
      assert p in primes;
      var j :| 0 <= j < |primes| && primes[j] == p;
      assert j < i;
      assert primes[j] <= primes[i - 1];
    }
  }

  lemma TriedIsPrime(n: nat, i: nat)
    requires i < |PrimesBelow(n)|
    ensures IsPrime(PrimesBelow(n)[i]) && PrimesBelow(n)[i] < n
  {
    PrimesBelowIs(n);
    assert PrimesBelow(n)[i] in PrimesBelow(n);
  }

  /** All prime factors with multiplicity, in order: their product is n. */
  ghost predicate Factorization(out: seq<nat>, n: nat) {
    AllPrime(out) && Nondecreasing(out) && Product(out) == n
  }

  /** The inner loop: divide out one prime; stop early when nothing is left. */
  method DivideOut(before: seq<nat>, m0: nat, prime: nat, ghost n: nat) returns (out: seq<nat>, m: nat)
    requires IsPrime(prime) && Factored(before, m0, prime, n)
    ensures Factored(out, m, prime, n) && m <= m0
    ensures m == 1 || !Divides(prime, m)
  {
    out, m := before, m0;
    while m % prime == 0
      invariant m <= m0 && Factored(out, m, prime, n)
      decreases m
    {
      IsDivMod(m, prime);
      FactoredStep(out, m, prime, n);
      out := out + [prime];
      m := m / prime;
      if m == 1 {
        return;
      }
    }
    IsDivMod(m, prime);
  }

  lemma NothingLeft(out: seq<nat>, b: nat, n: nat)
    requires Factored(out, 1, b, n)
    ensures Factorization(out, n)
  {
  }

  lemma PrimeLeft(out: seq<nat>, m: nat, root: nat, n: nat)
    requires Factored(out, m, root + 1, n) && 1 < m <= n < (root + 1) * (root + 1)
    requires forall i :: 0 <= i < |out| ==> out[i] <= root
    ensures Factorization(out + [m], n)
  {
    RestIsPrime(m, n, root);
  }

  /** One prime of the list; what is left has no prime below the next one. */
  method TryPrime(before: seq<nat>, m0: nat, primes: seq<nat>, i: nat, root: nat, ghost n: nat)
    returns (out: seq<nat>, m: nat)
    requires primes == PrimesBelow(root + 1) && i < |primes| && 1 <= m0 <= n
    requires Factored(before, m0, Tried(primes, root + 1, i), n)
    ensures 1 <= m <= n && Factored(out, m, Tried(primes, root + 1, i + 1), n)
    ensures forall k :: 0 <= k < |out| ==> out[k] <= root
  {
    TriedIsPrime(root + 1, i);
    out, m := DivideOut(before, m0, primes[i], n);
    if m == 1 {
      NotDividesOne(primes[i]);
    }
    NoPrimeBetween(primes, root + 1, i + 1, m);
  }

  lemma NotDividesOne(p: nat)
    requires IsPrime(p)
    ensures !Divides(p, 1)
  {
    if Divides(p, 1) { DivisorBound(p, 1); }
  }

  /** factor(n) yields the prime factorisation of n. */
  method Factor(n: nat) returns (out: seq<nat>)
    requires n >= 1
    ensures Factorization(out, n)
  {
    out := [];
    var m: nat := n;
    var root := Sieve.Isqrt(n);
    var primes := Sieve.Generate(root + 1);
    NoPrimeBetween(primes, root + 1, 0, m);
    for i := 0 to |primes|
      invariant 1 <= m <= n && Factored(out, m, Tried(primes, root + 1, i), n)
      invariant forall k :: 0 <= k < |out| ==> out[k] <= root
    {
      out, m := TryPrime(out, m, primes, i, root, n);
      if m == 1 {
        NothingLeft(out, Tried(primes, root + 1, i + 1), n);
        return;
      }
    }
    if m > 1 {
      PrimeLeft(out, m, root, n);
      out := out + [m];
    }
  }

  // ---- totient ----

  /** No prime of the list divides k. */
  ghost predicate Avoids(ps: seq<nat>, k: nat)
    requires AllPrime(ps)
  {
    forall i :: 0 <= i < |ps| ==> !Divides(ps[i], k)
  }

  /** How many of 1..m avoid the primes of the list. */
  ghost function AvoidCount(ps: seq<nat>, m: nat): nat
    requires AllPrime(ps)
  {
    if m == 0 then 0 else AvoidCount(ps, m - 1) + if Avoids(ps, m) then 1 else 0
  }

  /** How many of 1..m avoid the primes of the list and are multiples of p. */
  ghost function MultipleCount(ps: seq<nat>, p: nat, m: nat): nat
    requires AllPrime(ps) && IsPrime(p)
  {
    if m == 0 then 0 else MultipleCount(ps, p, m - 1) + if Avoids(ps, m) && Divides(p, m) then 1 else 0
  }

  lemma AvoidsAppend(ps: seq<nat>, p: nat, k: nat)
    requires AllPrime(ps) && IsPrime(p)
    ensures AllPrime(ps + [p])
    ensures Avoids(ps + [p], k) <==> Avoids(ps, k) && !Divides(p, k)
  {
    assert (ps + [p])[|ps|] == p;
    assert forall i :: 0 <= i < |ps| ==> (ps + [p])[i] == ps[i];
  }

  lemma {:induction false} CountSplits(ps: seq<nat>, p: nat, m: nat)
    requires AllPrime(ps) && IsPrime(p) && AllPrime(ps + [p])
    ensures AvoidCount(ps, m) == AvoidCount(ps + [p], m) + MultipleCount(ps, p, m)
  {
    if m > 0 {
      CountSplits(ps, p, m - 1);
      AvoidsAppend(ps, p, m);
    }
  }

  /** A multiple p * k avoids the list exactly when k does (p not in the list). */
  lemma AvoidsMultiple(ps: seq<nat>, p: nat, k: nat)
    requires AllPrime(ps) && IsPrime(p) && p !in ps
    ensures Avoids(ps, p * k) <==> Avoids(ps, k)
  {
    forall i | 0 <= i < |ps| ensures Divides(ps[i], p * k) <==> Divides(ps[i], k) {
      if Divides(ps[i], k) {
        DividesProduct(ps[i], k, p);
      }
      if Divides(ps[i], p * k) {
        if Divides(ps[i], p) { PrimeDividesPrime(ps[i], p); }
        Euclid(ps[i], p, k);
      }
    }
  }

  /** A multiple avoids the list exactly when its quotient does. */
  lemma MultipleAvoids(ps: seq<nat>, p: nat, m: nat)
    requires AllPrime(ps) && IsPrime(p) && p !in ps && Divides(p, m)
    ensures Avoids(ps, m) <==> Avoids(ps, Quot(m, p))
  {
    DivisionFacts(m, p);
    assert m == p * Quot(m, p);
    AvoidsMultiple(ps, p, Quot(m, p));
  }

  /** Among 1..m, the multiples of p that avoid the list correspond to the numbers up to m // p that do. */
  lemma {:induction false} MultiplesCorrespond(ps: seq<nat>, p: nat, m: nat)
    requires AllPrime(ps) && IsPrime(p) && p !in ps
    ensures MultipleCount(ps, p, m) == AvoidCount(ps, Quot(m, p))
  {
    if m > 0 {
      MultiplesCorrespond(ps, p, m - 1);
      DivStep(m - 1, p);
      if Divides(p, m) {
        MultipleAvoids(ps, p, m);
      }
    }
  }

  /** The list divides m. */
  ghost predicate AllDivide(ps: seq<nat>, m: nat)
    requires AllPrime(ps)
  {
    forall i :: 0 <= i < |ps| ==> Divides(ps[i], m)
  }

  /** Avoiding primes that divide m is periodic with period m. */
  lemma {:induction false} CountPeriod(ps: seq<nat>, m: nat, j: nat)
    requires AllPrime(ps) && AllDivide(ps, m)
    ensures AvoidCount(ps, m + j) == AvoidCount(ps, m) + AvoidCount(ps, j)
  {
    if j > 0 {
      CountPeriod(ps, m, j - 1);
      forall i | 0 <= i < |ps| ensures Divides(ps[i], m + j) <==> Divides(ps[i], j) {
        DividesSum(ps[i], m, j);
      }
      assert m + j - 1 == m + (j - 1);
    }
  }

  lemma {:induction false} CountScales(ps: seq<nat>, m: nat, a: nat)
    requires AllPrime(ps) && AllDivide(ps, m)
    ensures AvoidCount(ps, a * m) == a * AvoidCount(ps, m)
  {
    if a > 0 {
      CountScales(ps, m, a - 1);
      CountPeriod(ps, m, (a - 1) * m);
      assert a * m == m + (a - 1) * m;
      assert a * AvoidCount(ps, m) == AvoidCount(ps, m) + (a - 1) * AvoidCount(ps, m);
    }
  }

  /** Euler's step: one more distinct prime divisor p of n takes the share 1/p away, exactly. */
  lemma EulerStep(ps: seq<nat>, p: nat, n: nat)
    requires AllPrime(ps) && IsPrime(p) && p !in ps && AllDivide(ps, n) && Divides(p, n) && AllPrime(ps + [p])
    ensures AvoidCount(ps + [p], n) == AvoidCount(ps, n) / p * (p - 1)
  {
    DivisionFacts(n, p);
    var j := Quot(n, p);
    assert n == j * p == p * j;
    CountSplits(ps, p, n);
    MultiplesCorrespond(ps, p, n);
    forall i | 0 <= i < |ps| ensures Divides(ps[i], j) {
      if Divides(ps[i], p) { PrimeDividesPrime(ps[i], p); }
      Euclid(ps[i], p, j);
    }
    CountScales(ps, j, p);
    OneShareLess(AvoidCount(ps, j), p);
  }

  lemma OneShareLess(c: nat, p: nat)
    requires p >= 1
    ensures p * c / p * (p - 1) == p * c - c
  {
    IsDivMod(p * c, p);
    MultipleDivides(c, p);
    assert c * p == p * c;
    assert p * c - c == c * (p - 1);
  }

  /** k and n have no common divisor above 1. */
  ghost predicate Coprime(k: nat, n: nat) {
    forall d :: d >= 2 && Divides(d, k) ==> !Divides(d, n)
  }

  /** How many of 1..m are coprime to n. */
  ghost function CoprimeCount(n: nat, m: nat): nat {
    if m == 0 then 0 else CoprimeCount(n, m - 1) + if Coprime(m, n) then 1 else 0
  }

  /** The list holds exactly the primes that divide n. */
  ghost predicate PrimesOf(ps: seq<nat>, n: nat) {
    AllPrime(ps) && forall p :: p in ps <==> p >= 0 && IsPrime(p) && Divides(p, n)
  }

  lemma AvoidingIsCoprime(ps: seq<nat>, n: nat, k: nat)
    requires PrimesOf(ps, n) && k >= 1
    ensures Avoids(ps, k) <==> Coprime(k, n)
  {
    if Avoids(ps, k) {
      forall d | d >= 2 && Divides(d, k) ensures !Divides(d, n) {
        if Divides(d, n) {
          var p := PrimeDivisor(d);
          DividesTransitive(p, d, k);
          DividesTransitive(p, d, n);
          assert false;
        }
      }
    }
    assert forall i :: 0 <= i < |ps| ==> ps[i] in ps;
  }

  lemma {:induction false} AvoidCountIsCoprimeCount(ps: seq<nat>, n: nat, m: nat)
    requires PrimesOf(ps, n)
    ensures AvoidCount(ps, m) == CoprimeCount(n, m)
  {
    if m > 0 {
      AvoidCountIsCoprimeCount(ps, n, m - 1);
      AvoidingIsCoprime(ps, n, m);
    }
  }

  /** A prime divides a product of primes exactly when it is one of them. */
  lemma {:induction false} PrimesOfProduct(s: seq<nat>, p: nat)
    requires AllPrime(s) && IsPrime(p)
    ensures Divides(p, Product(s)) <==> p in s
  {
    if s != [] {
      var front, q := s[..|s| - 1], s[|s| - 1];
      PrimesOfProduct(front, p);
      if Divides(p, Product(front)) {
        DividesProduct(p, Product(front), q);
      } else if p == q {
        MultipleDivides(Product(front), q);
      } else if Divides(p, Product(s)) {
        Euclid(p, Product(front), q);
        PrimeDividesPrime(p, q);
      }
    }
  }

  /** unique_justseen(s): the first element of every run. */
  function UniqueJustSeen(s: seq<nat>): seq<nat> {
    if |s| <= 1 then s
    else if s[|s| - 2] == s[|s| - 1] then UniqueJustSeen(s[..|s| - 1])
    else UniqueJustSeen(s[..|s| - 1]) + [s[|s| - 1]]
  }

  /** On a nondecreasing list it keeps every element, once. */
  lemma {:induction false} UniqueJustSeenIsDistinct(s: seq<nat>)
    requires Nondecreasing(s)
    ensures forall x :: x in UniqueJustSeen(s) <==> x in s
    ensures Increasing(UniqueJustSeen(s))
  {
    if |s| > 1 {
      var front, x := s[..|s| - 1], s[|s| - 1];
      UniqueJustSeenIsDistinct(front);
      var u := UniqueJustSeen(front);
      assert front[|s| - 2] == s[|s| - 2];
      if front[|s| - 2] != x {
        var w := u + [x];
        assert UniqueJustSeen(s) == w;
        forall i, j | 0 <= i < j < |w| ensures w[i] < w[j] {
          if j == |u| {
            assert u[i] in front;
            var k :| 0 <= k < |front| && front[k] == u[i];
            assert s[k] <= s[|s| - 2] < x;
          }
        }
      }
    }
  }

  lemma {:induction false} NothingToAvoid(m: nat)
    ensures AvoidCount([], m) == m
  {
    if m > 0 { NothingToAvoid(m - 1); }
  }

  lemma EulerNext(ps: seq<nat>, i: nat, n: nat)
    requires PrimesOf(ps, n) && Increasing(ps) && i < |ps| && AllPrime(ps[..i])
    ensures AllPrime(ps[..i + 1]) && ps[i] >= 2
    ensures AvoidCount(ps[..i + 1], n) == AvoidCount(ps[..i], n) / ps[i] * (ps[i] - 1)
  {
    assert ps[i] in ps && ps[i] !in ps[..i];
    assert ps[..i + 1] == ps[..i] + [ps[i]];
    assert forall k :: 0 <= k < i ==> ps[k] in ps;
    EulerStep(ps[..i], ps[i], n);
  }

  /** totient(n) is the number of k in 1..n that are coprime to n. */
  method Totient(n: nat) returns (r: nat)
    requires n >= 1
    ensures r == CoprimeCount(n, n)
  {
    var factors := Factor(n);
    var ps := UniqueJustSeen(factors);
    DistinctPrimesOf(factors, ps, n);
    r := n;
    NothingToAvoid(n);
    for i := 0 to |ps|
      invariant AllPrime(ps[..i]) && r == AvoidCount(ps[..i], n)
    {
      EulerNext(ps, i, n);
      r := r / ps[i] * (ps[i] - 1);
    }
    assert ps[..|ps|] == ps;
    AvoidCountIsCoprimeCount(ps, n, n);
  }

  lemma DistinctPrimesOf(factors: seq<nat>, ps: seq<nat>, n: nat)
    requires Factorization(factors, n) && ps == UniqueJustSeen(factors)
    ensures PrimesOf(ps, n) && Increasing(ps)
  {
    UniqueJustSeenIsDistinct(factors);
    forall p | p >= 0 ensures p in ps <==> IsPrime(p) && Divides(p, n) {
      if IsPrime(p) { PrimesOfProduct(factors, p); }
    }
    assert forall i :: 0 <= i < |ps| ==> ps[i] in ps;
  }
}
