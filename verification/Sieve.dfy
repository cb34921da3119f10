/** sieve and iter_index (more_itertools/recipes.py): the bytearray sieve yields exactly the primes. */
module Sieve {

  import opened Division
  import opened Primes
  import opened Results

  /** math.isqrt */
  function Isqrt(n: nat): (r: nat)
    ensures r * r <= n < (r + 1) * (r + 1)
  {
    if n == 0 then 0 else
      var r := Isqrt(n - 1);
      if (r + 1) * (r + 1) <= n then r + 1 else r
  }

  /** The indexes in [start, stop) at which s holds the value, in order. */
  ghost function IndexesOf<T>(s: seq<T>, value: T, start: nat, stop: nat): seq<nat>
    decreases stop
  {
    if stop <= start then []
    else IndexesOf(s, value, start, stop - 1) + if stop <= |s| && s[stop - 1] == value then [stop - 1] else []
  }

  function StopOf(length: nat, stop: Option<nat>): nat {
    if stop.None? then length else stop.value
  }

  /** iter_index of a sequence. */
  method IterIndex<T(==)>(data: array<T>, value: T, start: nat, stop: Option<nat>) returns (out: seq<nat>)
    ensures out == IndexesOf(data[..], value, start, StopOf(data.Length, stop))
  {
    out := [];
    var i, end := start, StopOf(data.Length, stop);
    while i < end && i < data.Length
      invariant i == start || start <= i <= end
      invariant i <= end ==> out == IndexesOf(data[..], value, start, i)
      invariant i > end ==> out == []
    {
      if data[i] == value {
        out := out + [i];
      }
      i := i + 1;
    }
    if i < end {
      NoneBeyond(data[..], value, start, i, end);
    }
  }

  lemma {:induction false} NoneBeyond<T>(s: seq<T>, value: T, start: nat, lo: nat, stop: nat)
    requires |s| <= lo <= stop
    ensures IndexesOf(s, value, start, stop) == IndexesOf(s, value, start, lo)
    decreases stop
  {
    if lo < stop { NoneBeyond(s, value, start, lo, stop - 1); }
  }

  /** next(iter_index(...)): the first index in [start, stop) that holds 1; |data| or stop if there is none. */
  method NextIndex(data: array<nat>, start: nat, stop: nat) returns (found: bool, i: nat)
    ensures found ==> start <= i < stop && i < data.Length && data[i] == 1
    ensures forall k :: start <= k < data.Length && k < (if found then i else stop) ==> data[k] != 1
  {
    i := start;
    while i < stop && i < data.Length
      invariant start <= i
      invariant forall k :: start <= k < data.Length && k < i ==> data[k] != 1
    {
      if data[i] == 1 {
        return true, i;
      }
      i := i + 1;
    }
    found := false;
  }

  /** k is odd and no d up to b with d * d <= k divides it: what the sieve has not crossed out after
      treating the numbers up to b. */
  ghost predicate Survives(k: nat, b: nat) {
    !Divides(2, k) && forall d :: 3 <= d <= b && d * d <= k ==> !Divides(d, k)
  }

  /** Numbers that were crossed out already do not cross out anything new. */
  lemma SkipCrossedOut(k: nat, b: nat, c: nat)
    requires 2 <= b <= c && Survives(k, b)
    requires forall d :: b < d <= c && d <= k ==> !Survives(d, b)
    ensures Survives(k, c)
  {
    forall d | 3 <= d <= c && d * d <= k ensures !Divides(d, k) {
      if Divides(d, k) && d > b {
        assert d <= k by { assert d <= d * d; }
        assert !Survives(d, b);
        if Divides(2, d) {
          DividesTransitive(2, d, k);
        } else {
          var e :| 3 <= e <= b && e * e <= d && Divides(e, d);
          DividesTransitive(e, d, k);
        }
      }
    }
  }

  lemma SquareMonotone(p: nat, r: nat)
    requires p <= r
    ensures p * p <= r * r
  {
    assert p * p <= p * r <= r * r;
  }

  lemma SquaresInOrder(b: nat, d: nat)
    ensures b < d ==> (b + 1) * (b + 1) <= d * d
  {
    if b < d { assert (b + 1) * (b + 1) <= (b + 1) * d <= d * d; }
  }

  /** Below the square of b + 1 the survivors are the odd primes. */
  lemma SurvivorsArePrime(k: nat, b: nat)
    requires 3 <= k < (b + 1) * (b + 1)
    ensures Survives(k, b) <==> IsPrime(k)
  {
    if Survives(k, b) && !IsPrime(k) {
      var d := SmallDivisor(k);
      SquaresInOrder(b, d);
      assert false;
    }
    if IsPrime(k) {
      assert !Divides(2, k);
      forall d | 3 <= d <= b && d * d <= k ensures !Divides(d, k) {
        assert d < k by { assert 3 * d <= d * d; }
      }
    }
  }

  /** What the array holds: 1 exactly at the survivors (0 and 1 aside). */
  ghost predicate Crossed(s: seq<nat>, b: nat) {
    forall k :: 3 <= k < |s| ==> (s[k] == 1 <==> Survives(k, b))
  }

  /** Reading off the survivors of [lo, hi) continues the list of primes. */
  lemma {:induction false} ReadPrimes(s: seq<nat>, b: nat, lo: nat, hi: nat)
    requires 3 <= lo <= hi <= (b + 1) * (b + 1) && Crossed(s, b)
    requires forall k :: lo <= k < hi && |s| <= k ==> !IsPrime(k)
    ensures PrimesBelow(lo) + IndexesOf(s, 1, lo, hi) == PrimesBelow(hi)
    decreases hi
  {
    if lo < hi {
      ReadPrimes(s, b, lo, hi - 1);
      SurvivorsArePrime(hi - 1, b);
    }
  }

  lemma Parity(k: nat)
    ensures Divides(2, k) <==> k % 2 == 0
  {
    IsDivMod(k, 2);
  }

  /** Between two odd multiples of an odd p, two p apart, the only multiple of p is even. */
  lemma OddMultiples(p: nat, k: nat, i: nat)
    requires p % 2 == 1 && k % 2 == 1 && Divides(p, k) && k < i < k + 2 * p && Divides(p, i)
    ensures i % 2 == 0
  {
    DividesSum(p, k, i - k);
    var d := i - k;
    assert d >= p ==> Rem(d, p) == Rem(d - p, p) == d - p;
  }

  lemma OddSquare(p: nat)
    requires p % 2 == 1
    ensures (p * p) % 2 == 1 && Divides(p, p * p)
  {
    var m := p / 2;
    assert p * p == 2 * (2 * (m * m) + 2 * m) + 1;
    MultipleDivides(p, p);
  }

  /** i is crossed out by p, from its square on. */
  ghost predicate CrossedBy(p: nat, square: nat, i: nat)
    requires p >= 1
  {
    square <= i && i % 2 == 1 && Divides(p, i)
  }

  lemma CrossedNext(p: nat, square: nat, k: nat, i: nat)
    requires p % 2 == 1 && k % 2 == 1 && Divides(p, k) && square <= k
    ensures CrossedBy(p, square, i) && i < k + 2 * p <==> i == k || (CrossedBy(p, square, i) && i < k)
  {
    if CrossedBy(p, square, i) && k < i < k + 2 * p {
      OddMultiples(p, k, i);
    }
  }

  lemma NextOddMultiple(p: nat, k: nat)
    requires p % 2 == 1 && k % 2 == 1 && Divides(p, k)
    ensures Divides(p, k + 2 * p) && (k + 2 * p) % 2 == 1
  {
    MultipleDivides(2, p);
    DividesSum(p, k, 2 * p);
  }

  lemma SurvivesNext(k: nat, p: nat)
    requires p >= 3
    ensures Survives(k, p) <==> Survives(k, p - 1) && !CrossedBy(p, p * p, k)
  {
    Parity(k);
  }

  /** s is s0 with the numbers below k that p crosses out set to 0. */
  ghost predicate CrossedTo(s0: seq<nat>, s: seq<nat>, p: nat, square: nat, k: nat)
    requires p >= 1
  {
    |s| == |s0| && forall i :: 0 <= i < |s| ==> s[i] == if CrossedBy(p, square, i) && i < k then 0 else s0[i]
  }

  lemma CrossedToNext(s0: seq<nat>, s: seq<nat>, p: nat, square: nat, k: nat)
    requires p % 2 == 1 && k % 2 == 1 && Divides(p, k) && square <= k < |s| && CrossedTo(s0, s, p, square, k)
    ensures CrossedTo(s0, s[k := 0], p, square, k + 2 * p)
  {
    forall i | 0 <= i < |s| ensures s[k := 0][i] == if CrossedBy(p, square, i) && i < k + 2 * p then 0 else s0[i] {
      CrossedNext(p, square, k, i);
    }
  }

  lemma CrossedAll(s0: seq<nat>, s: seq<nat>, p: nat, k: nat)
    requires p >= 3 && Crossed(s0, p - 1) && CrossedTo(s0, s, p, p * p, k) && k >= |s|
    ensures Crossed(s, p)
  {
    forall i | 3 <= i < |s| ensures s[i] == 1 <==> Survives(i, p) {
      SurvivesNext(i, p);
    }
  }

  /** data[p * p : n : p + p] = zeros; the slice ends inside the array because p * p is odd. */
  method CrossOut(data: array<nat>, n: nat, p: nat)
    requires p >= 3 && p % 2 == 1 && data.Length == 2 * (n / 2) && Crossed(data[..], p - 1)
    modifies data
    ensures Crossed(data[..], p)
  {
    ghost var s0 := data[..];
    OddSquare(p);
    ghost var k := CrossFrom(data, n, p, p * p);
    CrossedAll(s0, data[..], p, k);
  }

  method CrossFrom(data: array<nat>, n: nat, p: nat, square: nat) returns (ghost end: nat)
    requires p >= 1 && p % 2 == 1 && data.Length == 2 * (n / 2) && square % 2 == 1 && Divides(p, square)
    modifies data
    ensures end >= data.Length && CrossedTo(old(data[..]), data[..], p, square, end)
  {
    ghost var s0 := data[..];
    var k := square;
    while k < n
      invariant k % 2 == 1 && Divides(p, k) && square <= k
      invariant CrossedTo(s0, data[..], p, square, k)
    {
      CrossedToNext(s0, data[..], p, square, k);
      NextOddMultiple(p, k);
      data[k] := 0;
      k := k + p + p;
    }
    end := k;
  }

  /** The array covers every odd number below n. */
  lemma NoPrimeBeyond(n: nat, len: nat, k: nat)
    requires len == 2 * (n / 2) && len <= k < n && 3 <= k
    ensures !IsPrime(k)
  {
    Parity(k);
    assert k % 2 == 0;
  }

  /** Nothing between b and c is marked, so the array is crossed out by everything up to c. */
  lemma CrossedUpTo(s: seq<nat>, b: nat, c: nat)
    requires 2 <= b <= c && Crossed(s, b)
    requires forall k :: b < k <= c && k < |s| ==> s[k] != 1
    ensures Crossed(s, c)
  {
    forall k | 3 <= k < |s| ensures s[k] == 1 <==> Survives(k, c) {
      if s[k] == 1 {
        SkipCrossedOut(k, b, c);
      }
    }
  }

  /** The next number found is odd, and what is read off up to its square are the next primes. */
  lemma NextBlock(s: seq<nat>, n: nat, last: nat, p: nat, start: nat)
    requires |s| == 2 * (n / 2) && 2 <= last < p < |s| && p * p <= n && Crossed(s, last)
    requires s[p] == 1 && forall k :: last < k < p ==> s[k] != 1
    requires start == (if last == 2 then 3 else last * last) && 3 <= start
    ensures Crossed(s, p - 1) && p % 2 == 1 && start <= p * p
    ensures PrimesBelow(start) + IndexesOf(s, 1, start, p * p) == PrimesBelow(p * p)
  {
    CrossedUpTo(s, last, p - 1);
    Parity(p);
    SquareMonotone(if last == 2 then 3 else last, p);
    forall k | start <= k < p * p && |s| <= k ensures !IsPrime(k) {
      NoPrimeBeyond(n, |s|, k);
    }
    ReadPrimes(s, p - 1, start, p * p);
  }

  /** When no number up to the root is left, what is still marked are the remaining primes. */
  lemma LastBlock(s: seq<nat>, n: nat, last: nat, start: nat)
    requires n > 2 && |s| == 2 * (n / 2) && 2 <= last && Crossed(s, last)
    requires forall k :: last < k <= Isqrt(n) && k < |s| ==> s[k] != 1
    requires start == (if last == 2 then 3 else last * last) && 3 <= start <= n
    ensures PrimesBelow(start) + IndexesOf(s, 1, start, |s|) == PrimesBelow(n)
  {
    var b := if last < Isqrt(n) then Isqrt(n) else last;
    CrossedUpTo(s, last, b);
    SquaresInOrder(Isqrt(n), b + 1);
    forall k | start <= k < n && |s| <= k ensures !IsPrime(k) {
      NoPrimeBeyond(n, |s|, k);
    }
    ReadPrimes(s, b, start, n);
    NoneBeyond(s, 1, start, |s|, n);
  }

  lemma RootBound(n: nat, p: nat)
    requires p <= Isqrt(n)
    ensures p * p <= n
  {
    SquareMonotone(p, Isqrt(n));
  }

  /** sieve(n) yields the primes below n, in order. */
  method Generate(n: nat) returns (out: seq<nat>)
    ensures out == PrimesBelow(n)
  {
    out := [];
    if n > 2 {
      out := out + [2];
    }
    var start := 3;
    var data := new nat[2 * (n / 2)](i => i % 2);
    var limit := Isqrt(n) + 1;
    var last := 2;
    FreshArray(data[..]);
    while true
      invariant 2 <= last && Crossed(data[..], last)
      invariant start == (if last == 2 then 3 else last * last) && 3 <= start
      invariant if n > 2 then start <= n && out == PrimesBelow(start) else start == 3 && out == []
      decreases limit - last
    {
      var found, p := NextIndex(data, last + 1, limit);
      if !found {
        break;
      }
      RootBound(n, p);
      NextBlock(data[..], n, last, p, start);
      var block := IterIndex(data, 1, start, Some(p * p));
      out := out + block;
      CrossOut(data, n, p);
      start := p * p;
      last := p;
    }
    var rest := IterIndex(data, 1, start, None);
    if n > 2 {
      LastBlock(data[..], n, last, start);
    }
    out := out + rest;
  }

  /** bytearray((0, 1)) * (n // 2) marks the odd numbers. */
  lemma FreshArray(s: seq<nat>)
    requires forall k :: 0 <= k < |s| ==> s[k] == k % 2
    ensures Crossed(s, 2)
  {
    forall k | 3 <= k < |s| ensures s[k] == 1 <==> Survives(k, 2) {
      Parity(k);
    }
  }
}
