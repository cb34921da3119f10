/** nth_combination (more_itertools/recipes.py) and combination_index (more_itertools/more.py),
    against the plain lexicographic list of combinations. */
module Combinations {

  import opened Lists
  import opened Binomials
  import opened Results

  /** The r-element sets of positions among lo..n-1, as increasing lists, in lexicographic order. */
  ghost function AllCombs(lo: nat, n: nat, r: nat): seq<seq<nat>>
    requires lo <= n
    decreases n - lo
  {
    if r == 0 then [[]]
    else if lo == n then []
    else Prepend(lo, AllCombs(lo + 1, n, r - 1)) + AllCombs(lo + 1, n, r)
  }

  lemma {:induction false} CombsLength(lo: nat, n: nat, r: nat)
    requires lo <= n
    ensures |AllCombs(lo, n, r)| == Comb(n - lo, r)
    decreases n - lo
  {
    if r > 0 && lo < n {
      CombsLength(lo + 1, n, r - 1);
      CombsLength(lo + 1, n, r);
      assert AllCombs(lo, n, r) == Prepend(lo, AllCombs(lo + 1, n, r - 1)) + AllCombs(lo + 1, n, r);
    }
  }

  /** The combinations that start with lo come first. */
  lemma ListedInFirst(lo: nat, n: nat, r: nat, i: nat)
    requires lo < n && r > 0 && i < |AllCombs(lo + 1, n, r - 1)|
    ensures i < |AllCombs(lo, n, r)| && AllCombs(lo, n, r)[i] == [lo] + AllCombs(lo + 1, n, r - 1)[i]
  {
    InFirst(lo, AllCombs(lo + 1, n, r - 1), AllCombs(lo + 1, n, r), i);
  }

  lemma InFirst(x: nat, first: seq<seq<nat>>, rest: seq<seq<nat>>, i: nat)
    requires i < |first|
    ensures (Prepend(x, first) + rest)[i] == [x] + first[i]
  {
    PrependAt(x, first, i);
  }

  lemma ListedInRest(lo: nat, n: nat, r: nat, i: nat, j: nat)
    requires lo < n && r > 0 && i == |AllCombs(lo + 1, n, r - 1)| + j && j < |AllCombs(lo + 1, n, r)|
    ensures i < |AllCombs(lo, n, r)| && AllCombs(lo, n, r)[i] == AllCombs(lo + 1, n, r)[j]
  {
    InRest(lo, AllCombs(lo + 1, n, r - 1), AllCombs(lo + 1, n, r), j);
  }

  lemma InRest(x: nat, first: seq<seq<nat>>, rest: seq<seq<nat>>, j: nat)
    requires j < |rest|
    ensures (Prepend(x, first) + rest)[|first| + j] == rest[j]
  {
  }

  /** The i-th of these lists, found without building the others. */
  ghost function Nth(lo: nat, n: nat, r: nat, i: nat): seq<nat>
    requires lo <= n && i < Comb(n - lo, r)
    decreases n - lo
  {
    if r == 0 then []
    else if lo == n then []
    else
      var c := Comb(n - (lo + 1), r - 1);
      if i < c then [lo] + Nth(lo + 1, n, r - 1, i) else Nth(lo + 1, n, r, i - c)
  }

  lemma NthSplit(lo: nat, n: nat, r: nat, i: nat)
    requires lo < n && r > 0 && i < Comb(n - lo, r)
    ensures var c := Comb(n - (lo + 1), r - 1);
      if i < c then Nth(lo, n, r, i) == [lo] + Nth(lo + 1, n, r - 1, i)
      else i - c < Comb(n - (lo + 1), r) && Nth(lo, n, r, i) == Nth(lo + 1, n, r, i - c)
  {
  }

  lemma NthAtEnds(lo: nat, n: nat, r: nat, i: nat)
    requires lo <= n && i < Comb(n - lo, r) && (r == 0 || lo == n)
    ensures i < |AllCombs(lo, n, r)| && AllCombs(lo, n, r)[i] == Nth(lo, n, r, i)
  {
  }

  lemma NthInFirst(lo: nat, n: nat, r: nat, i: nat)
    requires lo < n && r > 0 && i < Comb(n - lo, r) && i < Comb(n - (lo + 1), r - 1)
    requires i < |AllCombs(lo + 1, n, r - 1)| && AllCombs(lo + 1, n, r - 1)[i] == Nth(lo + 1, n, r - 1, i)
    ensures i < |AllCombs(lo, n, r)| && AllCombs(lo, n, r)[i] == Nth(lo, n, r, i)
  {
    NthSplit(lo, n, r, i);
    ListedInFirst(lo, n, r, i);
  }

  lemma NthInRest(lo: nat, n: nat, r: nat, i: nat, j: nat)
    requires lo < n && r > 0 && i == Comb(n - (lo + 1), r - 1) + j && j < Comb(n - (lo + 1), r)
    ensures i < Comb(n - lo, r) && Nth(lo, n, r, i) == Nth(lo + 1, n, r, j)
  {
  }

  lemma ListedNext(lo: nat, n: nat, r: nat, i: nat, j: nat)
    requires lo < n && r > 0 && i == Comb(n - (lo + 1), r - 1) + j && j < |AllCombs(lo + 1, n, r)|
    ensures i < |AllCombs(lo, n, r)| && AllCombs(lo, n, r)[i] == AllCombs(lo + 1, n, r)[j]
  {
    assert |AllCombs(lo + 1, n, r - 1)| == Comb(n - (lo + 1), r - 1) by {
      CombsLength(lo + 1, n, r - 1);
    }
    ListedInRest(lo, n, r, i, j);
  }

  lemma {:induction false} NthIsListed(lo: nat, n: nat, r: nat, i: nat)
    requires lo <= n && i < Comb(n - lo, r)
    ensures i < |AllCombs(lo, n, r)| && AllCombs(lo, n, r)[i] == Nth(lo, n, r, i)
    decreases n - lo
  {
    if r == 0 || lo == n {
      NthAtEnds(lo, n, r, i);
    } else if i < Comb(n - (lo + 1), r - 1) {
      NthIsListed(lo + 1, n, r - 1, i);
      NthInFirst(lo, n, r, i);
    } else {
      var j := i - Comb(n - (lo + 1), r - 1);
      assert j < Comb(n - (lo + 1), r);
      NthIsListed(lo + 1, n, r, j);
      NthInRest(lo, n, r, i, j);
      ListedNext(lo, n, r, i, j);
    }
  }

  ghost predicate Ascending(ps: seq<nat>, lo: nat, n: nat) {
    && (forall i :: 0 <= i < |ps| ==> lo <= ps[i] < n)
    && (forall i, j :: 0 <= i < j < |ps| ==> ps[i] < ps[j])
  }

  lemma {:induction false} NthIsAscending(lo: nat, n: nat, r: nat, i: nat)
    requires lo <= n && i < Comb(n - lo, r)
    ensures |Nth(lo, n, r, i)| == r && Ascending(Nth(lo, n, r, i), lo, n)
    decreases n - lo
  {
    if r > 0 && lo < n {
      var c := Comb(n - (lo + 1), r - 1);
      if i < c {
        NthIsAscending(lo + 1, n, r - 1, i);
      } else {
        NthIsAscending(lo + 1, n, r, i - c);
      }
    }
  }

  /** The items at a list of positions. */
  function Pick<T>(pool: seq<T>, ps: seq<nat>): seq<T>
    requires forall i :: 0 <= i < |ps| ==> ps[i] < |pool|
  {
    if ps == [] then [] else [pool[ps[0]]] + Pick(pool, ps[1..])
  }

  lemma {:induction false} PickAt<T>(pool: seq<T>, ps: seq<nat>, i: nat)
    requires (forall i :: 0 <= i < |ps| ==> ps[i] < |pool|) && i < |ps|
    ensures |Pick(pool, ps)| == |ps| && Pick(pool, ps)[i] == pool[ps[i]]
  {
    if i > 0 {
      PickAt(pool, ps[1..], i - 1);
    } else if |ps| > 1 {
      PickAt(pool, ps[1..], 0);
    }
  }

  // ---- nth_combination ----

  /** c = n! / r! (n-r)! by multiplying up, every division exact. */
  method CountCombs(n: nat, r: nat) returns (c: nat)
    requires r <= n
    ensures c == Comb(n, r)
  {
    c := 1;
    var k := if r < n - r then r else n - r;
    for i := 1 to k + 1
      invariant c == Comb(n - k + i - 1, i - 1)
    {
      GrowOne(n - k + i, i);
      c := c * (n - k + i) / i;
    }
    Symmetry(n, r);
  }

  /** The inner loop skips the combinations that start with the first remaining elements. */
  method SkipTo(n0: nat, r: nat, index0: nat, c0: nat, ghost size: nat) returns (n: nat, index: nat, c: nat)
    requires n0 < size && index0 < Comb(n0 + 1, r + 1) && c0 == Comb(n0, r)
    ensures r <= n <= n0 && c == Comb(n, r) && index < c
    ensures Nth(size - 1 - n0, size, r + 1, index0) == [size - 1 - n] + Nth(size - n, size, r, index)
  {
    n, index, c := n0, index0, c0;
    while index >= c
      invariant n <= n0 && index < Comb(n + 1, r + 1) && c == Comb(n, r)
      invariant Nth(size - 1 - n0, size, r + 1, index0) == Nth(size - 1 - n, size, r + 1, index)
      decreases n
    {
      SkipFacts(n, r, index, size);
      index := index - c;
      c, n := c * (n - r) / n, n - 1;
    }
    if n < r {
      CombZero(n, r);
    }
  }

  lemma SkipFacts(n: nat, r: nat, index: nat, size: nat)
    requires n < size && Comb(n, r) <= index < Comb(n + 1, r + 1)
    ensures n >= 1 && r < n && Comb(n, r) * (n - r) / n == Comb(n - 1, r)
    ensures index - Comb(n, r) < Comb(n, r + 1)
    ensures Nth(size - 1 - n, size, r + 1, index) == Nth(size - n, size, r + 1, index - Comb(n, r))
  {
    assert index - Comb(n, r) < Comb(n, r + 1);
    if n < r + 1 {
      CombZero(n, r + 1);
    }
    SkipOne(n, r);
  }

  /** The outer loop: fix one element after the other. */
  method Unrank<T>(pool: seq<T>, r: nat, index: nat, count: nat) returns (out: seq<T>)
    requires r <= |pool| && index < count == Comb(|pool|, r)
    ensures forall k :: 0 <= k < |Nth(0, |pool|, r, index)| ==> Nth(0, |pool|, r, index)[k] < |pool|
    ensures out == Pick(pool, Nth(0, |pool|, r, index))
  {
    ghost var size, target := |pool|, Nth(0, |pool|, r, index);
    NthIsAscending(0, |pool|, r, index);
    out := [];
    var n: nat, left: nat, i: nat, c: nat := |pool|, r, index, count;
    assert target[0..] == target;
    while left > 0
      invariant left <= n <= size && c == Comb(n, left) && i < c
      invariant |out| + left == r && target[|out|..] == Nth(size - n, size, left, i)
      invariant forall k :: 0 <= k < |out| ==> out[k] == pool[target[k]]
      decreases left
    {
      n, left, i, c := TakeNext(n, left, i, c, size);
      NextTaken(target, |out|, size - 1 - n, Nth(size - n, size, left, i));
      out := out + [pool[|pool| - 1 - n]];
    }
    IsPicked(pool, target, out);
  }

  lemma NextTaken(target: seq<nat>, m: nat, p: nat, later: seq<nat>)
    requires m < |target| && target[m..] == [p] + later
    ensures target[m] == p && target[m + 1..] == later
  {
    assert target[m + 1..] == target[m..][1..];
  }

  lemma IsPicked<T>(pool: seq<T>, ps: seq<nat>, out: seq<T>)
    requires (forall i :: 0 <= i < |ps| ==> ps[i] < |pool|) && |out| == |ps|
    requires forall k :: 0 <= k < |out| ==> out[k] == pool[ps[k]]
    ensures out == Pick(pool, ps)
  {
    if ps != [] { PickAt(pool, ps, 0); }
    forall k | 0 <= k < |ps| ensures out[k] == Pick(pool, ps)[k] {
      PickAt(pool, ps, k);
    }
  }

  /** One element: the count of the combinations that take it, then the search for it. */
  method TakeNext(n0: nat, left0: nat, i0: nat, c0: nat, ghost size: nat)
    returns (n: nat, left: nat, i: nat, c: nat)
    requires 0 < left0 <= n0 <= size && c0 == Comb(n0, left0) && i0 < c0
    ensures left == left0 - 1 && left <= n < n0 && c == Comb(n, left) && i < c
    ensures Nth(size - n0, size, left0, i0) == [size - 1 - n] + Nth(size - n, size, left, i)
  {
    TakeOne(n0, left0);
    c, n, left := c0 * left0 / n0, n0 - 1, left0 - 1;
    n, i, c := SkipTo(n, left, i0, c, size);
  }

  lemma ListedFacts(n: nat, r: nat, i: nat)
    requires i < Comb(n, r)
    ensures |AllCombs(0, n, r)| == Comb(n, r) && AllCombs(0, n, r)[i] == Nth(0, n, r, i)
    ensures |Nth(0, n, r, i)| == r && Ascending(Nth(0, n, r, i), 0, n)
  {
    CombsLength(0, n, r);
    NthIsListed(0, n, r, i);
    NthIsAscending(0, n, r, i);
  }

  method NthCombination<T>(pool: seq<T>, r: int, index: int) returns (result: Result<seq<T>>)
    ensures result == Failure("ValueError") <==> r < 0 || r > |pool|
    ensures result == Failure("IndexError") <==>
      0 <= r <= |pool| && (index + Comb(|pool|, r) < 0 || index >= Comb(|pool|, r))
    ensures result.Failure? ==> result.error in {"ValueError", "IndexError"}
    ensures result.Success? ==>
      var all := AllCombs(0, |pool|, r);
      var i := if index < 0 then index + |all| else index;
      && 0 <= i < |all| && |all[i]| == r && Ascending(all[i], 0, |pool|)
      && result.value == Pick(pool, all[i])
  {
    var n := |pool|;
    if r < 0 || r > n {
      return Failure("ValueError");
    }
    var c := CountCombs(n, r);
    var i := index;
    if i < 0 {
      i := i + c;
    }
    if i < 0 || i >= c {
      return Failure("IndexError");
    }
    ListedFacts(n, r, i);
    var out := Unrank(pool, r, i, c);
    return Success(out);
  }

  // ---- combination_index ----

  /** The place of an increasing list of positions in the lexicographic order. */
  ghost function RankOf(ps: seq<nat>, lo: nat, n: nat): nat
    requires lo <= n && Ascending(ps, lo, n)
    decreases n - lo
  {
    if ps == [] then 0
    else if ps[0] == lo then RankOf(ps[1..], lo + 1, n)
    else Comb(n - (lo + 1), |ps| - 1) + RankOf(ps, lo + 1, n)
  }

  lemma {:induction false} NthOfRank(ps: seq<nat>, lo: nat, n: nat)
    requires lo <= n && Ascending(ps, lo, n)
    ensures RankOf(ps, lo, n) < Comb(n - lo, |ps|) && Nth(lo, n, |ps|, RankOf(ps, lo, n)) == ps
    decreases n - lo
  {
    if ps != [] {
      if ps[0] == lo {
        NthOfRank(ps[1..], lo + 1, n);
      } else {
        NthOfRank(ps, lo + 1, n);
      }
    }
  }

  lemma {:induction false} RankOfNth(lo: nat, n: nat, r: nat, i: nat)
    requires lo <= n && i < Comb(n - lo, r) && Ascending(Nth(lo, n, r, i), lo, n)
    ensures RankOf(Nth(lo, n, r, i), lo, n) == i
    decreases n - lo
  {
    NthIsAscending(lo, n, r, i);
    if r > 0 && lo < n {
      var c := Comb(n - (lo + 1), r - 1);
      if i < c {
        NthIsAscending(lo + 1, n, r - 1, i);
        RankOfNth(lo + 1, n, r - 1, i);
      } else {
        NthIsAscending(lo + 1, n, r, i - c);
        RankOfNth(lo + 1, n, r, i - c);
      }
    }
  }

  /** The first positions at which the elements occur one after the other. */
  ghost function Find<T>(pool: seq<T>, element: seq<T>, lo: nat): (found: Option<seq<nat>>)
    requires lo <= |pool|
    ensures found.Some? ==> |found.value| == |element| && Ascending(found.value, lo, |pool|)
    decreases |pool| - lo
  {
    if element == [] then Some([])
    else if lo == |pool| then None
    else if pool[lo] == element[0] then
      match Find(pool, element[1..], lo + 1)
      case None => None
      case Some(ps) => Some([lo] + ps)
    else Find(pool, element, lo + 1)
  }

  lemma {:induction false} FindPicks<T>(pool: seq<T>, element: seq<T>, lo: nat)
    requires lo <= |pool| && Find(pool, element, lo).Some?
    ensures Pick(pool, Find(pool, element, lo).value) == element
    decreases |pool| - lo
  {
    if element != [] {
      if pool[lo] == element[0] {
        FindPicks(pool, element[1..], lo + 1);
      } else {
        FindPicks(pool, element, lo + 1);
      }
    }
  }

  /** Whatever positions spell the element, the first ones are found and come no later in the order. */
  lemma {:induction false} FindIsFirst<T>(pool: seq<T>, element: seq<T>, lo: nat, ps: seq<nat>)
    requires lo <= |pool| && Ascending(ps, lo, |pool|) && Pick(pool, ps) == element
    ensures Find(pool, element, lo).Some?
    ensures RankOf(Find(pool, element, lo).value, lo, |pool|) <= RankOf(ps, lo, |pool|)
    decreases |pool| - lo
  {
    if ps != [] {
      PickAt(pool, ps, 0);
      var rest := element[1..];
      if ps[0] == lo {
        FindIsFirst(pool, rest, lo + 1, ps[1..]);
      } else if pool[lo] == element[0] {
        FindIsFirst(pool, rest, lo + 1, ps[1..]);
        NthOfRank(Find(pool, rest, lo + 1).value, lo + 1, |pool|);
      } else {
        FindIsFirst(pool, element, lo + 1, ps);
      }
    }
  }

  /** What the code subtracts: for every position, the combinations that lie after it. */
  ghost function After(ps: seq<nat>, n: nat): nat
    requires Ascending(ps, 0, n)
  {
    if ps == [] then 0 else Comb(n - 1 - ps[0], |ps|) + After(ps[1..], n)
  }

  lemma {:induction false} RankFormula(ps: seq<nat>, lo: nat, n: nat)
    requires lo <= n && Ascending(ps, lo, n)
    ensures RankOf(ps, lo, n) + 1 + After(ps, n) == Comb(n - lo, |ps|)
    decreases n - lo
  {
    if ps != [] {
      if ps[0] == lo {
        RankFormula(ps[1..], lo + 1, n);
      } else {
        RankFormula(ps, lo + 1, n);
      }
    }
  }

  /** The items at the positions ps are the elements. */
  ghost predicate Spells<T>(pool: seq<T>, ps: seq<nat>, element: seq<T>) {
    (forall i :: 0 <= i < |ps| ==> ps[i] < |pool|) && Pick(pool, ps) == element
  }

  /** v is the first place in the list at which the element is spelled: list.index(element). */
  ghost predicate IsFirstAt<T>(pool: seq<T>, all: seq<seq<nat>>, element: seq<T>, v: nat) {
    v < |all| && Spells(pool, all[v], element) && forall j :: 0 <= j < v ==> !Spells(pool, all[j], element)
  }

  /** The search loop of combination_index: the positions of a nonempty element, or an error. */
  method FindPositions<T(==)>(element: seq<T>, pool: seq<T>) returns (found: bool, indexes: seq<nat>)
    requires element != []
    ensures found <==> Find(pool, element, 0).Some?
    ensures found ==> indexes == Find(pool, element, 0).value
  {
    indexes := [];
    assert element[0..] == element;
    assert forall ps: seq<nat> :: [] + ps == ps;
    for n := 0 to |pool|
      invariant |indexes| < |element|
      invariant var rest := Find(pool, element[|indexes|..], n);
        Find(pool, element, 0) == if rest.None? then None else Some(indexes + rest.value)
    {
      if pool[n] == element[|indexes|] {
        ghost var left := element[|indexes|..];
        assert left[1..] == element[|indexes| + 1..];
        ghost var before := indexes;
        indexes := indexes + [n];
        assert forall ps: seq<nat> :: before + ([n] + ps) == indexes + ps;
        if |indexes| == |element| {
          return true, indexes;
        }
      }
    }
    return false, indexes;
  }

  /** The summing loop of combination_index, from the last position to the first; size is len(pool). */
  method SumAfter(indexes: seq<nat>, size: nat) returns (index: nat)
    requires Ascending(indexes, 0, size)
    ensures index == 1 + After(indexes, size)
  {
    var n, r := size - 1, |indexes|;
    index := 1;
    for i := 1 to r + 1
      invariant index == 1 + After(indexes[r - i + 1..], size)
    {
      var j := n - indexes[r - i];
      assert indexes[r - i..][1..] == indexes[r - i + 1..];
      if i <= j {
        var c := CountCombs(j, i);
        index := index + c;
      } else {
        CombZero(j, i);
      }
    }
    assert indexes[0..] == indexes;
  }

  /** The index of the first combination that equals the element. */
  method CombinationIndex<T(==)>(element: seq<T>, pool: seq<T>) returns (result: Result<nat>)
    ensures var all := AllCombs(0, |pool|, |element|);
      if result.Success? then IsFirstAt(pool, all, element, result.value)
      else result == Failure("ValueError") && forall j :: 0 <= j < |all| ==> !Spells(pool, all[j], element)
  {
    if element == [] {
      EmptyElement(pool);
      return Success(0);
    }
    var found, indexes := FindPositions(element, pool);
    FirstListed(pool, element);
    if !found {
      return Failure("ValueError");
    }
    var index := SumAfter(indexes, |pool|);
    RankFormula(indexes, 0, |pool|);
    CombinationsFit(indexes, |pool|);
    var total := CountCombs(|pool|, |element|);
    return Success(total - index);
  }

  lemma EmptyElement<T>(pool: seq<T>)
    ensures IsFirstAt(pool, AllCombs(0, |pool|, 0), [], 0)
  {
  }

  lemma CombinationsFit(ps: seq<nat>, n: nat)
    requires Ascending(ps, 0, n)
    ensures |ps| <= n
  {
    NthOfRank(ps, 0, n);
    if |ps| > n { CombZero(n, |ps|); }
  }

  /** No listed combination that spells the element comes before the found positions. */
  lemma NotBefore<T>(pool: seq<T>, element: seq<T>, j: nat)
    requires j < |AllCombs(0, |pool|, |element|)| && Spells(pool, AllCombs(0, |pool|, |element|)[j], element)
    ensures Find(pool, element, 0).Some? && RankOf(Find(pool, element, 0).value, 0, |pool|) <= j
  {
    CombsLength(0, |pool|, |element|);
    ListedFacts(|pool|, |element|, j);
    NotAfter(pool, element, j);
  }

  lemma NotAfter<T>(pool: seq<T>, element: seq<T>, j: nat)
    requires j < Comb(|pool|, |element|) && Spells(pool, Nth(0, |pool|, |element|, j), element)
    ensures Find(pool, element, 0).Some? && RankOf(Find(pool, element, 0).value, 0, |pool|) <= j
  {
    NthIsAscending(0, |pool|, |element|, j);
    FindIsFirst(pool, element, 0, Nth(0, |pool|, |element|, j));
    RankOfNth(0, |pool|, |element|, j);
  }

  /** The found positions are listed at their rank, and nothing before spells the element. */
  lemma FirstListed<T>(pool: seq<T>, element: seq<T>)
    ensures var all, f := AllCombs(0, |pool|, |element|), Find(pool, element, 0);
      if f.Some? then IsFirstAt(pool, all, element, RankOf(f.value, 0, |pool|))
      else forall j :: 0 <= j < |all| ==> !Spells(pool, all[j], element)
  {
    var all, f := AllCombs(0, |pool|, |element|), Find(pool, element, 0);
    if f.Some? {
      FindPicks(pool, element, 0);
      NthOfRank(f.value, 0, |pool|);
      NthIsListed(0, |pool|, |element|, RankOf(f.value, 0, |pool|));
    }
    forall j | 0 <= j < |all| && Spells(pool, all[j], element) ensures f.Some? && RankOf(f.value, 0, |pool|) <= j {
      NotBefore(pool, element, j);
    }
  }

  lemma {:induction false} PickIsInjective<T>(pool: seq<T>, ps: seq<nat>, qs: seq<nat>)
    requires Distinct(pool) && |ps| == |qs| && forall i :: 0 <= i < |qs| ==> qs[i] < |pool|
    requires Spells(pool, ps, Pick(pool, qs))
    ensures ps == qs
  {
    forall i | 0 <= i < |ps| ensures ps[i] == qs[i] {
      PickAt(pool, ps, i);
      PickAt(pool, qs, i);
    }
  }

  /** On distinct items every combination stands in the list once, so the index of the i-th is i. */
  lemma IndexOfListed<T>(pool: seq<T>, r: nat, i: nat, v: nat)
    requires Distinct(pool) && i < |AllCombs(0, |pool|, r)| && v < |AllCombs(0, |pool|, r)|
    requires forall k :: 0 <= k < |AllCombs(0, |pool|, r)[i]| ==> AllCombs(0, |pool|, r)[i][k] < |pool|
    requires Spells(pool, AllCombs(0, |pool|, r)[v], Pick(pool, AllCombs(0, |pool|, r)[i]))
    ensures v == i
  {
    CombsLength(0, |pool|, r);
    ListedFacts(|pool|, r, i);
    ListedFacts(|pool|, r, v);
    SameNth(pool, r, i, v);
  }

  lemma SameNth<T>(pool: seq<T>, r: nat, i: nat, v: nat)
    requires Distinct(pool) && i < Comb(|pool|, r) && v < Comb(|pool|, r)
    requires forall k :: 0 <= k < |Nth(0, |pool|, r, i)| ==> Nth(0, |pool|, r, i)[k] < |pool|
    requires Spells(pool, Nth(0, |pool|, r, v), Pick(pool, Nth(0, |pool|, r, i)))
    ensures v == i
  {
    NthIsAscending(0, |pool|, r, i);
    NthIsAscending(0, |pool|, r, v);
    PickIsInjective(pool, Nth(0, |pool|, r, v), Nth(0, |pool|, r, i));
    RankOfNth(0, |pool|, r, i);
    RankOfNth(0, |pool|, r, v);
  }

  /** On distinct items combination_index undoes nth_combination. */
  method IndexOfNth<T(==)>(pool: seq<T>, r: nat, index: nat) returns (back: Result<nat>)
    requires Distinct(pool) && r <= |pool| && index < Comb(|pool|, r)
    ensures back == Success(index)
  {
    CombsLength(0, |pool|, r);
    var element := NthCombination(pool, r, index);
    NthIsListed(0, |pool|, r, index);
    PickLength(pool, AllCombs(0, |pool|, r)[index]);
    back := CombinationIndex(element.value, pool);
    assert Spells(pool, AllCombs(0, |pool|, r)[index], element.value);
    IndexOfListed(pool, r, index, back.value);
  }

  /** nth_combination undoes combination_index. */
  method NthOfIndex<T(==)>(pool: seq<T>, element: seq<T>) returns (index: Result<nat>, back: Result<seq<T>>)
    ensures index.Success? ==> back == Success(element)
  {
    index := CombinationIndex(element, pool);
    back := Failure("");
    if index.Success? {
      CombsLength(0, |pool|, |element|);
      NthIsListed(0, |pool|, |element|, index.value);
      NthIsAscending(0, |pool|, |element|, index.value);
      CombinationsFit(Nth(0, |pool|, |element|, index.value), |pool|);
      back := NthCombination(pool, |element|, index.value);
    }
  }

  lemma PickLength<T>(pool: seq<T>, ps: seq<nat>)
    requires forall i :: 0 <= i < |ps| ==> ps[i] < |pool|
    ensures |Pick(pool, ps)| == |ps|
  {
    if ps != [] { PickAt(pool, ps, 0); }
  }
}
