/** nth_permutation and permutation_index (more_itertools/more.py): factorial-base digits against
    repeated removal from a shrinking pool, and against the plain list of permutations. */
module Permutations {

  import opened Lists
  import opened Division
  import opened Results

  /** a * b by repeated addition. */
  function Times(a: nat, b: nat): nat {
    if a == 0 then 0 else b + Times(a - 1, b)
  }

  lemma {:induction false} TimesIsProduct(a: nat, b: nat)
    ensures Times(a, b) == a * b
  {
    if a > 0 {
      TimesIsProduct(a - 1, b);
      assert a * b == b + (a - 1) * b;
    }
  }

  /** math.perm(n, r) */
  function Perm(n: nat, r: nat): nat
    requires r <= n
  {
    if r == 0 then 1 else Times(n, Perm(n - 1, r - 1))
  }

  /** math.factorial(n) */
  function Factorial(n: nat): nat {
    if n == 0 then 1 else Times(n, Factorial(n - 1))
  }

  lemma {:induction false} PermPositive(n: nat, r: nat)
    requires r <= n
    ensures Perm(n, r) >= 1
  {
    if r > 0 { PermPositive(n - 1, r - 1); }
  }

  lemma {:induction false} TimesDistributes(a: nat, b: nat, c: nat)
    ensures Times(a + b, c) == Times(a, c) + Times(b, c)
  {
    if a > 0 { TimesDistributes(a - 1, b, c); }
  }

  lemma {:induction false} TimesAssociates(a: nat, b: nat, c: nat)
    ensures Times(a, Times(b, c)) == Times(Times(a, b), c)
  {
    if a > 0 {
      TimesAssociates(a - 1, b, c);
      TimesDistributes(b, Times(a - 1, b), c);
    }
  }

  lemma {:induction false} TimesOrder(a: nat, b: nat, c: nat)
    requires a <= b
    ensures Times(a, c) <= Times(b, c)
  {
    TimesDistributes(a, b - a, c);
  }

  lemma TimesOne(a: nat)
    ensures Times(a, 1) == a
  {
    TimesIsProduct(a, 1);
  }

  /** The last factor of a falling product. */
  lemma {:induction false} PermLast(n: nat, r: nat)
    requires r < n
    ensures Perm(n, r + 1) == Times(Perm(n, r), n - r)
  {
    if r > 0 {
      PermLast(n - 1, r - 1);
      TimesAssociates(n, Perm(n - 1, r - 1), n - r);
    } else {
      TimesOne(n);
    }
  }

  lemma {:induction false} FactorialSplits(n: nat, r: nat)
    requires r <= n
    ensures Factorial(n) == Times(Perm(n, r), Factorial(n - r))
  {
    if r > 0 {
      FactorialSplits(n - 1, r - 1);
      TimesAssociates(n, Perm(n - 1, r - 1), Factorial(n - r));
    }
  }

  lemma {:induction false} FactorialIsPerm(n: nat)
    ensures Factorial(n) == Perm(n, n)
  {
    if n > 0 { FactorialIsPerm(n - 1); }
  }

  // ---- digits ----

  /** Digit k counts the choices before the one made from the n - k items left. */
  ghost predicate Digits(ds: seq<nat>, n: nat) {
    |ds| <= n && forall k :: 0 <= k < |ds| ==> ds[k] < n - k
  }

  /** What permutation_index computes from the digits, starting with q. */
  ghost function Horner(q: nat, ds: seq<nat>, n: nat): nat
    requires |ds| <= n
    decreases |ds|
  {
    if ds == [] then q else Horner(Times(q, n) + ds[0], ds[1..], n - 1)
  }

  /** The starting value carries the weight of all choices of the rest. */
  lemma {:induction false} HornerLinear(q: nat, ds: seq<nat>, n: nat)
    requires |ds| <= n
    ensures Horner(q, ds, n) == Times(q, Perm(n, |ds|)) + Horner(0, ds, n)
    decreases |ds|
  {
    if ds != [] {
      var p := Perm(n - 1, |ds| - 1);
      HornerLinear(Times(q, n) + ds[0], ds[1..], n - 1);
      HornerLinear(ds[0], ds[1..], n - 1);
      TimesDistributes(Times(q, n), ds[0], p);
      TimesAssociates(q, n, p);
    } else {
      TimesOne(q);
    }
  }

  lemma Below(d: nat, n: nat, p: nat, rest: nat)
    requires d < n && rest < p
    ensures Times(d, p) + rest < Times(n, p)
  {
    TimesOrder(d + 1, n, p);
  }

  lemma {:induction false} HornerBound(ds: seq<nat>, n: nat)
    requires Digits(ds, n)
    ensures Horner(0, ds, n) < Perm(n, |ds|)
    decreases |ds|
  {
    if ds != [] {
      HornerBound(ds[1..], n - 1);
      HornerLinear(ds[0], ds[1..], n - 1);
      Below(ds[0], n, Perm(n - 1, |ds| - 1), Horner(0, ds[1..], n - 1));
    }
  }

  lemma HornerStep(ds: seq<nat>, n: nat)
    requires ds != [] && Digits(ds, n)
    ensures var p, x := Perm(n - 1, |ds| - 1), Horner(0, ds[1..], n - 1);
      x < p && Horner(0, ds, n) == Times(ds[0], p) + x
  {
    HornerBound(ds[1..], n - 1);
    HornerLinear(ds[0], ds[1..], n - 1);
  }

  // ---- the items the digits stand for ----

  function Remove<T>(pool: seq<T>, d: nat): seq<T>
    requires d < |pool|
  {
    pool[..d] + pool[d + 1..]
  }

  /** tuple(map(pool.pop, digits)) */
  ghost function Popped<T>(pool: seq<T>, ds: seq<nat>): (out: seq<T>)
    requires Digits(ds, |pool|)
    ensures |out| == |ds|
  {
    if ds == [] then [] else [pool[ds[0]]] + Popped(Remove(pool, ds[0]), ds[1..])
  }

  // ---- the plain list ----

  /** list(permutations(pool, r)): lexicographic by position. */
  ghost function AllPerms<T>(pool: seq<T>, r: nat): seq<seq<T>>
    requires r <= |pool|
    decreases r, |pool| + 1
  {
    if r == 0 then [[]] else PermsFrom(pool, r, 0)
  }

  /** Those that start with the item at i or later. */
  ghost function PermsFrom<T>(pool: seq<T>, r: nat, i: nat): seq<seq<T>>
    requires 1 <= r <= |pool| && i <= |pool|
    decreases r, |pool| - i
  {
    if i == |pool| then [] else Prepend(pool[i], AllPerms(Remove(pool, i), r - 1)) + PermsFrom(pool, r, i + 1)
  }

  lemma {:induction false} PermsLength<T>(pool: seq<T>, r: nat)
    requires r <= |pool|
    ensures |AllPerms(pool, r)| == Perm(|pool|, r)
    decreases r, |pool| + 1
  {
    if r > 0 { PermsFromLength(pool, r, 0); }
  }

  lemma {:induction false} PermsFromLength<T>(pool: seq<T>, r: nat, i: nat)
    requires 1 <= r <= |pool| && i <= |pool|
    ensures |PermsFrom(pool, r, i)| == Times(|pool| - i, Perm(|pool| - 1, r - 1))
    decreases r, |pool| - i
  {
    if i < |pool| {
      PermsLength(Remove(pool, i), r - 1);
      PermsFromLength(pool, r, i + 1);
    }
  }

  /** The first block of the list, of length p, and what follows it. */
  lemma FirstBlock<T>(pool: seq<T>, r: nat, i: nat, k: nat, p: nat)
    requires 1 <= r <= |pool| && i < |pool| && p == Perm(|pool| - 1, r - 1)
    ensures |AllPerms(Remove(pool, i), r - 1)| == p && |PermsFrom(pool, r, i)| == p + |PermsFrom(pool, r, i + 1)|
    ensures k < p ==> PermsFrom(pool, r, i)[k] == [pool[i]] + AllPerms(Remove(pool, i), r - 1)[k]
    ensures p <= k < |PermsFrom(pool, r, i)| ==> PermsFrom(pool, r, i)[k] == PermsFrom(pool, r, i + 1)[k - p]
  {
    PermsLength(Remove(pool, i), r - 1);
    if k < p {
      PrependAt(pool[i], AllPerms(Remove(pool, i), r - 1), k);
    }
  }

  /** The block of the permutations that start with item m, place x in it. */
  lemma {:induction false} PermsFromAt<T>(pool: seq<T>, r: nat, i: nat, m: nat, x: nat, p: nat)
    requires 1 <= r <= |pool| && i <= m < |pool| && p == Perm(|pool| - 1, r - 1)
    requires x < p == |AllPerms(Remove(pool, m), r - 1)|
    ensures Times(m - i, p) + x < |PermsFrom(pool, r, i)|
    ensures PermsFrom(pool, r, i)[Times(m - i, p) + x] == [pool[m]] + AllPerms(Remove(pool, m), r - 1)[x]
    decreases m - i
  {
    if m == i {
      FirstBlock(pool, r, i, x, p);
    } else {
      var k := Times(m - (i + 1), p) + x;
      var here, rest := PermsFrom(pool, r, i), PermsFrom(pool, r, i + 1);
      PermsFromAt(pool, r, i + 1, m, x, p);
      assert k < |rest| && rest[k] == [pool[m]] + AllPerms(Remove(pool, m), r - 1)[x];
      FirstBlock(pool, r, i, p + k, p);
      assert here[p + k] == rest[k];
      assert Times(m - i, p) + x == p + k;
    }
  }

  lemma ListedStep<T>(pool: seq<T>, ds: seq<nat>, x: nat, p: nat, h: nat)
    requires ds != [] && Digits(ds, |pool|) && p == Perm(|pool| - 1, |ds| - 1)
    requires Digits(ds[1..], |pool| - 1)
    requires var later := AllPerms(Remove(pool, ds[0]), |ds| - 1);
      x < p == |later| && later[x] == Popped(Remove(pool, ds[0]), ds[1..])
    requires h == Times(ds[0], p) + x
    ensures h < |AllPerms(pool, |ds|)| && AllPerms(pool, |ds|)[h] == Popped(pool, ds)
  {
    PermsFromAt(pool, |ds|, 0, ds[0], x, p);
    assert AllPerms(pool, |ds|) == PermsFrom(pool, |ds|, 0);
    var later := AllPerms(Remove(pool, ds[0]), |ds| - 1);
    assert PermsFrom(pool, |ds|, 0)[h] == [pool[ds[0]]] + later[x];
  }

  /** The digits' index is the place in the list of the items they stand for. */
  lemma {:induction false} ListedAtIndex<T>(pool: seq<T>, ds: seq<nat>)
    requires Digits(ds, |pool|)
    ensures Horner(0, ds, |pool|) < |AllPerms(pool, |ds|)|
    ensures AllPerms(pool, |ds|)[Horner(0, ds, |pool|)] == Popped(pool, ds)
    decreases |ds|
  {
    if ds != [] {
      var rest, n := Remove(pool, ds[0]), |pool|;
      var x, p := Horner(0, ds[1..], n - 1), Perm(n - 1, |ds| - 1);
      ListedAtIndex(rest, ds[1..]);
      HornerStep(ds, n);
      PermsLength(rest, |ds| - 1);
      ListedStep(pool, ds, x, p, Horner(0, ds, n));
    }
  }

  // ---- nth_permutation ----

  /** index * n! // (n)_r is index * (n-r)!, exactly. */
  lemma ScaledIndex(n: nat, r: nat, index: nat)
    requires r <= n
    ensures Perm(n, r) >= 1 && index * Factorial(n) / Perm(n, r) == Times(index, Perm(n - r, n - r))
  {
    PermPositive(n, r);
    FactorialSplits(n, r);
    FactorialIsPerm(n - r);
    var p, f := Perm(n, r), Factorial(n - r);
    TimesIsProduct(p, f);
    TimesIsProduct(index, f);
    ExactDivision(index, p, f);
  }

  lemma ExactDivision(a: nat, p: nat, f: nat)
    requires p >= 1
    ensures a * (p * f) / p == a * f && a * (p * f) % p == 0 && a * f >= 0
  {
    assert a * (p * f) == (a * f) * p;
    MultipleDivides(a * f, p);
    IsDivMod((a * f) * p, p);
  }

  /** The first n - r divisions only take off the scaling. */
  lemma Unscale(index: nat, m: nat, d: nat)
    requires 1 <= d <= m
    ensures var q := Times(index, Perm(m, m - d + 1));
      q / d == Times(index, Perm(m, m - d)) && q % d == 0
  {
    PermLast(m, m - d);
    var f := Perm(m, m - d);
    TimesIsProduct(f, d);
    TimesIsProduct(index, f * d);
    TimesIsProduct(index, f);
    assert f * d == d * f;
    ExactDivision(index, d, f);
  }

  /** The digit array after the positions j.. are filled: q is what is left for the positions before. */
  ghost predicate Filled(ds: seq<nat>, j: nat, q: nat, n: nat, index: nat) {
    && j <= |ds| <= n
    && (forall k :: j <= k < |ds| ==> ds[k] < n - k)
    && (forall k :: 0 <= k < j ==> ds[k] == 0)
    && Horner(q, ds[j..], n - j) == index && q < Perm(n, j)
  }

  /** Filling one more position. */
  lemma FillNext(ds: seq<nat>, j: nat, q: nat, n: nat, index: nat)
    requires Filled(ds, j, q, n, index) && j >= 1
    ensures Filled(ds[j - 1 := q % (n - j + 1)], j - 1, q / (n - j + 1), n, index)
  {
    var d := n - j + 1;
    IsDivMod(q, d);
    DivisionFacts(q, d);
    var ds' := ds[j - 1 := q % d];
    assert ds'[j - 1..][1..] == ds[j..];
    TimesIsProduct(q / d, d);
    PermLast(n, j - 1);
    QuotientBound(q, q / d, d, q % d, Perm(n, j - 1));
  }

  lemma QuotientBound(q: nat, a: nat, d: nat, b: nat, p: nat)
    requires q == Times(a, d) + b && q < Times(p, d)
    ensures a < p
  {
    if a >= p { TimesOrder(p, a, d); }
  }

  lemma {:induction false} HornerOfZeros(ds: seq<nat>, j: nat, n: nat)
    requires j <= |ds| <= n && forall k :: 0 <= k < j ==> ds[k] == 0
    ensures Horner(0, ds, n) == Horner(0, ds[j..], n - j)
    decreases |ds|
  {
    if j > 0 {
      HornerOfZeros(ds[1..], j - 1, n - 1);
      assert ds[1..][j - 1..] == ds[j..];
    } else {
      assert ds[0..] == ds;
    }
  }

  /** When nothing is left, the digits spell the index. */
  lemma FilledUp(ds: seq<nat>, j: nat, n: nat, index: nat)
    requires Filled(ds, j, 0, n, index)
    ensures Digits(ds, n) && Horner(0, ds, n) == index
  {
    HornerOfZeros(ds, j, n);
  }

  /** The digit loop before division d: first the scaling comes off, then the digits are filled. */
  ghost predicate Dividing(ds: seq<nat>, d: nat, q: nat, n: nat, r: nat, index: nat)
    requires 1 <= d <= n + 1 && r <= n
  {
    |ds| == r &&
    if d <= n - r then q == Times(index, Perm(n - r, n - r - d + 1)) && Filled(ds, r, index, n, index)
    else Filled(ds, n - d + 1, q, n, index)
  }

  lemma DivideStep(ds: seq<nat>, d: nat, q: nat, n: nat, r: nat, index: nat)
    requires r <= n && 1 <= d <= n && Dividing(ds, d, q, n, r, index)
    ensures q / d >= 0 && Dividing(if n - d < r then ds[n - d := q % d] else ds, d + 1, q / d, n, r, index)
  {
    IsDivMod(q, d);
    if n - d < r {
      FillNext(ds, n - d + 1, q, n, index);
    } else {
      Unscale(index, n - r, d);
      TimesOne(index);
    }
  }

  lemma NothingLeft(ds: seq<nat>, d: nat, q: nat, n: nat, r: nat, index: nat)
    requires r <= n && 1 <= d <= n + 1 && Dividing(ds, d, q, n, r, index) && (q == 0 || d == n + 1)
    ensures Digits(ds, n) && Horner(0, ds, n) == index
  {
    if d <= n - r {
      PermPositive(n - r, n - r - d + 1);
      FilledUp(ds, r, n, index);
    } else {
      assert d == n + 1 ==> Perm(n, 0) == 1;
      FilledUp(ds, n - d + 1, n, index);
    }
  }

  lemma StartDividing(ds: seq<nat>, q: nat, n: nat, r: nat, index: nat)
    requires r <= n && |ds| == r && index < Perm(n, r) && forall k :: 0 <= k < r ==> ds[k] == 0
    requires q == if r < n then index * Factorial(n) / Perm(n, r) else index
    ensures Dividing(ds, 1, q, n, r, index)
  {
    ScaledIndex(n, r, index);
  }

  /** The digit loop, with its early break. */
  method FindDigits(n: nat, r: nat, index: nat) returns (ds: seq<nat>)
    requires r <= n && index < Perm(n, r)
    ensures |ds| == r && Digits(ds, n) && Horner(0, ds, n) == index
  {
    var result := new nat[r](_ => 0);
    ScaledIndex(n, r, index);
    var q: nat := if r < n then index * Factorial(n) / Perm(n, r) else index;
    StartDividing(result[..], q, n, r, index);
    ghost var next := 1;
    for d := 1 to n + 1
      invariant next == d && Dividing(result[..], d, q, n, r, index)
    {
      DivideStep(result[..], d, q, n, r, index);
      if 0 <= n - d < r {
        result[n - d] := q % d;
      }
      q := q / d;
      next := d + 1;
      if q == 0 {
        break;
      }
    }
    NothingLeft(result[..], next, q, n, r, index);
    return result[..];
  }

  /** tuple(map(pool.pop, digits)) pops from the list. */
  method PopAll<T>(items: seq<T>, ds: seq<nat>) returns (out: seq<T>)
    requires Digits(ds, |items|)
    ensures out == Popped(items, ds)
  {
    out := [];
    var pool := items;
    for k := 0 to |ds|
      invariant |pool| == |items| - k && Digits(ds[k..], |pool|)
      invariant Popped(items, ds) == out + Popped(pool, ds[k..])
    {
      assert ds[k..][0] == ds[k] && ds[k..][1..] == ds[k + 1..];
      out := out + [pool[ds[k]]];
      pool := Remove(pool, ds[k]);
    }
  }

  /** Without r the whole pool is permuted. */
  function Size<T>(pool: seq<T>, r: Option<int>): int {
    if r.None? then |pool| else r.value
  }

  /** list(permutations(pool, r))[index], with Python's negative indexes. */
  method NthPermutation<T>(pool: seq<T>, r: Option<int>, index: int) returns (result: Result<seq<T>>)
    ensures var size := Size(pool, r);
      && (result == Failure("ValueError") <==> size < 0 || size > |pool|)
      && (result == Failure("IndexError") <==>
        0 <= size <= |pool| && (index + Perm(|pool|, size) < 0 || index >= Perm(|pool|, size)))
      && (result.Failure? ==> result.error in {"ValueError", "IndexError"})
    ensures result.Success? ==>
      var all := AllPerms(pool, Size(pool, r));
      var i := if index < 0 then index + |all| else index;
      0 <= i < |all| && result.value == all[i]
    ensures result.Success? ==>
      exists ds: seq<nat> :: |ds| == Size(pool, r) && Digits(ds, |pool|) && result.value == Popped(pool, ds)
        && Horner(0, ds, |pool|) == if index < 0 then index + Perm(|pool|, Size(pool, r)) else index
  {
    var n, size := |pool|, Size(pool, r);
    var c;
    if r.None? || size == n {
      c := Factorial(n);
      FactorialSplits(n, n);
      TimesOne(Perm(n, n));
    } else if size < 0 || size > n {
      return Failure("ValueError");
    } else {
      c := Perm(n, size);
    }
    var i := index;
    if i < 0 {
      i := i + c;
    }
    if i < 0 || i >= c {
      return Failure("IndexError");
    }
    PermsLength(pool, size);
    var ds := FindDigits(n, size, i);
    ListedAtIndex(pool, ds);
    var out := PopAll(pool, ds);
    return Success(out);
  }

  // ---- permutation_index ----

  /** list.index: the first occurrence. */
  function IndexOf<T(==)>(pool: seq<T>, x: T): (found: Option<nat>)
    ensures found.Some? ==> found.value < |pool| && pool[found.value] == x && forall k :: 0 <= k < found.value ==>
      pool[k] != x
    ensures found.None? <==> x !in pool
  {
    if pool == [] then None
    else if pool[0] == x then Some(0)
    else
      var rest := IndexOf(pool[1..], x);
      assert pool == [pool[0]] + pool[1..];
      if rest.None? then None else Some(rest.value + 1)
  }

  /** The digits of the first permutation that equals the element. */
  ghost function FirstDigits<T>(pool: seq<T>, element: seq<T>): (found: Option<seq<nat>>)
    ensures found.Some? ==> |found.value| == |element| && Digits(found.value, |pool|)
  {
    if element == [] then Some([])
    else
      var d := IndexOf(pool, element[0]);
      if d.None? then None else
        var rest := FirstDigits(Remove(pool, d.value), element[1..]);
        if rest.None? then None else Some([d.value] + rest.value)
  }

  lemma {:induction false} FirstDigitsSpell<T>(pool: seq<T>, element: seq<T>)
    requires FirstDigits(pool, element).Some?
    ensures Popped(pool, FirstDigits(pool, element).value) == element
  {
    if element != [] {
      var d := IndexOf(pool, element[0]);
      FirstDigitsSpell(Remove(pool, d.value), element[1..]);
    }
  }

  lemma RemoveMultiset<T>(pool: seq<T>, d: nat)
    requires d < |pool|
    ensures multiset(Remove(pool, d)) == multiset(pool) - multiset{pool[d]}
  {
    assert pool == pool[..d] + [pool[d]] + pool[d + 1..];
  }

  /** The element is found exactly if the pool holds its items, repeats counted. */
  lemma {:induction false} FirstDigitsExist<T>(pool: seq<T>, element: seq<T>)
    ensures FirstDigits(pool, element).Some? <==> multiset(element) <= multiset(pool)
  {
    if element != [] {
      var x, rest := element[0], element[1..];
      assert element == [x] + rest;
      var d := IndexOf(pool, x);
      if d.Some? {
        RemoveMultiset(pool, d.value);
        FirstDigitsExist(Remove(pool, d.value), rest);
        assert x in multiset(pool);
      } else {
        assert x in multiset(element);
      }
    }
  }

  lemma {:induction false} PoppedMultiset<T>(pool: seq<T>, ds: seq<nat>)
    requires Digits(ds, |pool|)
    ensures multiset(Popped(pool, ds)) <= multiset(pool)
    decreases |ds|
  {
    if ds != [] {
      RemoveMultiset(pool, ds[0]);
      PoppedMultiset(Remove(pool, ds[0]), ds[1..]);
      assert pool[ds[0]] in multiset(pool);
    }
  }

  /** The first digit decides. */
  lemma FirstDigitDecides(a: seq<nat>, b: seq<nat>, n: nat)
    requires Digits(a, n) && Digits(b, n) && |a| == |b| && a != []
    ensures a[0] < b[0] ==> Horner(0, a, n) <= Horner(0, b, n)
    ensures a[0] == b[0] && Horner(0, a[1..], n - 1) <= Horner(0, b[1..], n - 1) ==> Horner(0, a, n) <= Horner(0, b, n)
  {
    HornerLinear(a[0], a[1..], n - 1);
    HornerLinear(b[0], b[1..], n - 1);
    HornerBound(a[1..], n - 1);
    if a[0] < b[0] {
      Below(a[0], b[0], Perm(n - 1, |a| - 1), Horner(0, a[1..], n - 1));
    }
  }

  lemma FirstDigitsUnfold<T>(pool: seq<T>, element: seq<T>)
    requires element != [] && FirstDigits(pool, element).Some?
    ensures var ds := FirstDigits(pool, element).value;
      && pool[ds[0]] == element[0] && (forall k :: 0 <= k < ds[0] ==> pool[k] != element[0])
      && FirstDigits(Remove(pool, ds[0]), element[1..]) == Some(ds[1..])
  {
    var d := IndexOf(pool, element[0]).value;
    var rest := FirstDigits(Remove(pool, d), element[1..]).value;
    assert FirstDigits(pool, element).value == [d] + rest;
  }

  /** The first digits, one step: they are the digits themselves or start lower. */
  lemma FirstDigitAtMost<T>(pool: seq<T>, ds: seq<nat>)
    requires Digits(ds, |pool|) && ds != []
    requires FirstDigits(pool, Popped(pool, ds)).Some?
    ensures var first, rest := FirstDigits(pool, Popped(pool, ds)).value, Remove(pool, ds[0]);
      first[0] < ds[0] || (first[0] == ds[0] && FirstDigits(rest, Popped(rest, ds[1..])) == Some(first[1..]))
  {
    FirstDigitsUnfold(pool, Popped(pool, ds));
  }

  /** Lexicographic order. */
  ghost predicate AtMost(a: seq<nat>, b: seq<nat>)
    requires |a| == |b|
  {
    a == [] || a[0] < b[0] || (a[0] == b[0] && AtMost(a[1..], b[1..]))
  }

  lemma {:induction false} AtMostIndex(a: seq<nat>, b: seq<nat>, n: nat)
    requires Digits(a, n) && Digits(b, n) && |a| == |b| && AtMost(a, b)
    ensures Horner(0, a, n) <= Horner(0, b, n)
    decreases |a|
  {
    if a != [] {
      if a[0] == b[0] {
        AtMostIndex(a[1..], b[1..], n - 1);
      }
      FirstDigitDecides(a, b, n);
    }
  }

  /** Whatever digits spell the element, the first ones are least. */
  lemma {:induction false} FirstDigitsAreLeast<T>(pool: seq<T>, ds: seq<nat>)
    requires Digits(ds, |pool|)
    ensures FirstDigits(pool, Popped(pool, ds)).Some?
    ensures AtMost(FirstDigits(pool, Popped(pool, ds)).value, ds)
    decreases |ds|
  {
    PoppedMultiset(pool, ds);
    FirstDigitsExist(pool, Popped(pool, ds));
    if ds != [] {
      FirstDigitAtMost(pool, ds);
      FirstDigitsAreLeast(Remove(pool, ds[0]), ds[1..]);
    }
  }

  /** Every index below (n)_r has digits. */
  lemma {:induction false} DigitsExist(n: nat, r: nat, index: nat) returns (ds: seq<nat>)
    requires r <= n && index < Perm(n, r)
    ensures |ds| == r && Digits(ds, n) && Horner(0, ds, n) == index
    decreases r
  {
    if r == 0 {
      ds := [];
    } else {
      var p := Perm(n - 1, r - 1);
      PermPositive(n - 1, r - 1);
      DivisionFacts(index, p);
      var d, x := Quot(index, p), Rem(index, p);
      TimesIsProduct(d, p);
      QuotientBound(index, d, p, x, n);
      var rest := DigitsExist(n - 1, r - 1, x);
      ds := [d] + rest;
      assert ds[1..] == rest;
      HornerLinear(d, rest, n - 1);
    }
  }

  /** v is the first place in the list that holds the element. */
  ghost predicate IsFirstAt<T>(all: seq<seq<T>>, element: seq<T>, v: nat) {
    v < |all| && all[v] == element && forall j :: 0 <= j < v ==> all[j] != element
  }

  lemma FirstListed<T>(pool: seq<T>, element: seq<T>)
    requires FirstDigits(pool, element).Some?
    ensures |element| <= |pool|
    ensures IsFirstAt(AllPerms(pool, |element|), element, Horner(0, FirstDigits(pool, element).value, |pool|))
  {
    var ds := FirstDigits(pool, element).value;
    FirstDigitsSpell(pool, element);
    ListedAtIndex(pool, ds);
    var all := AllPerms(pool, |element|);
    PermsLength(pool, |element|);
    forall j | 0 <= j < Horner(0, ds, |pool|) ensures all[j] != element {
      var other := DigitsExist(|pool|, |element|, j);
      ListedAtIndex(pool, other);
      if all[j] == element {
        FirstDigitsAreLeast(pool, other);
        AtMostIndex(ds, other, |pool|);
      }
    }
  }

  /** The index computed from what is left of the element, starting with an index so far. */
  ghost function RankFrom<T>(pool: seq<T>, element: seq<T>, index: nat): Option<nat> {
    if element == [] then Some(index)
    else
      var d := IndexOf(pool, element[0]);
      if d.None? then None else RankFrom(Remove(pool, d.value), element[1..], Times(index, |pool|) + d.value)
  }

  lemma {:induction false} RankIsHorner<T>(pool: seq<T>, element: seq<T>, index: nat)
    ensures var ds := FirstDigits(pool, element);
      RankFrom(pool, element, index) == if ds.None? then None else Some(Horner(index, ds.value, |pool|))
  {
    if element != [] && IndexOf(pool, element[0]).Some? {
      var d := IndexOf(pool, element[0]).value;
      RankIsHorner(Remove(pool, d), element[1..], Times(index, |pool|) + d);
      var rest := FirstDigits(Remove(pool, d), element[1..]);
      if rest.Some? {
        assert ([d] + rest.value)[1..] == rest.value;
      }
    }
  }

  /** The index of the first permutation that equals the element; an error exactly if the pool lacks an item. */
  method PermutationIndex<T(==)>(element: seq<T>, items: seq<T>) returns (result: Result<nat>)
    ensures if multiset(element) <= multiset(items) then result.Success? else result == Failure("ValueError")
    ensures result.Success? ==> |element| <= |items| && IsFirstAt(AllPerms(items, |element|), element, result.value)
  {
    FirstDigitsExist(items, element);
    RankIsHorner(items, element, 0);
    var index: nat := 0;
    var pool := items;
    for k := 0 to |element|
      invariant k <= |items| && |pool| == |items| - k
      invariant RankFrom(pool, element[k..], index) == RankFrom(items, element, 0)
    {
      assert element[k..][0] == element[k] && element[k..][1..] == element[k + 1..];
      var i := |pool|;
      var r := IndexOf(pool, element[k]);
      if r.None? {
        return Failure("ValueError");
      }
      TimesIsProduct(index, i);
      index := index * i + r.value;
      pool := Remove(pool, r.value);
    }
    FirstListed(items, element);
    return Success(index);
  }

  /** On distinct items different digits spell different permutations. */
  lemma {:induction false} PoppedIsInjective<T>(pool: seq<T>, a: seq<nat>, b: seq<nat>)
    requires Distinct(pool) && Digits(a, |pool|) && Digits(b, |pool|) && Popped(pool, a) == Popped(pool, b)
    ensures a == b
    decreases |a|
  {
    assert |a| == |b|;
    if a != [] {
      assert pool[a[0]] == Popped(pool, a)[0] == Popped(pool, b)[0] == pool[b[0]];
      assert Popped(pool, a)[1..] == Popped(Remove(pool, a[0]), a[1..]);
      assert Popped(pool, b)[1..] == Popped(Remove(pool, b[0]), b[1..]);
      PoppedIsInjective(Remove(pool, a[0]), a[1..], b[1..]);
      assert a == [a[0]] + a[1..] && b == [b[0]] + b[1..];
    }
  }

  /** On distinct items permutation_index undoes nth_permutation. */
  method IndexOfNth<T(==)>(pool: seq<T>, r: nat, index: nat) returns (back: Result<nat>)
    requires Distinct(pool) && r <= |pool| && index < Perm(|pool|, r)
    ensures back == Success(index)
  {
    var element := NthPermutation(pool, Some(r), index);
    ghost var ds: seq<nat> :| |ds| == r && Digits(ds, |pool|) && element.value == Popped(pool, ds)
      && Horner(0, ds, |pool|) == index;
    PoppedMultiset(pool, ds);
    back := PermutationIndex(element.value, pool);
    FirstDigitsExist(pool, element.value);
    ghost var first := FirstDigits(pool, element.value).value;
    FirstDigitsSpell(pool, element.value);
    PoppedIsInjective(pool, first, ds);
    FirstListed(pool, element.value);
    assert back.value == index;
  }

  /** nth_permutation undoes permutation_index. */
  method NthOfIndex<T(==)>(pool: seq<T>, element: seq<T>) returns (index: Result<nat>, back: Result<seq<T>>)
    ensures index.Success? ==> back == Success(element)
  {
    index := PermutationIndex(element, pool);
    back := Failure("");
    if index.Success? {
      PermsLength(pool, |element|);
      back := NthPermutation(pool, Some(|element|), index.value);
    }
  }
}
