/** distinct_permutations (more_itertools/more.py): every arrangement of r items, each once, in lexicographic order.
    Items are integers: the code only compares them. */
module DistinctPermutations {

  import opened Lists
  import opened Results

  /** a and b first differ at position k, and a is smaller there. */
  ghost predicate LessAt(a: seq<int>, b: seq<int>, k: nat) {
    |a| == |b| && k < |a| && a[..k] == b[..k] && a[k] < b[k]
  }

  ghost predicate Less(a: seq<int>, b: seq<int>) {
    exists k: nat :: LessAt(a, b, k)
  }

  ghost predicate AtMost(a: seq<int>, b: seq<int>) {
    a == b || Less(a, b)
  }

  ghost predicate Rearranges(a: seq<int>, b: seq<int>) {
    multiset(a) == multiset(b)
  }

  ghost predicate NonincreasingFrom(s: seq<int>, start: nat) {
    forall i, j :: start <= i < j < |s| ==> s[i] >= s[j]
  }

  lemma RearrangeLength(a: seq<int>, b: seq<int>)
    requires Rearranges(a, b)
    ensures |a| == |b|
  {
    assert |multiset(a)| == |multiset(b)|;
  }

  lemma SplitMultiset(a: seq<int>, k: nat)
    requires k <= |a|
    ensures multiset(a) == multiset(a[..k]) + multiset(a[k..])
  {
    assert a == a[..k] + a[k..];
  }

  /** Rearrangements with a common front have rearranged tails. */
  lemma TailsRearrange(a: seq<int>, b: seq<int>, k: nat)
    requires Rearranges(a, b) && k <= |a| && k <= |b| && a[..k] == b[..k]
    ensures Rearranges(a[k..], b[k..])
  {
    SplitMultiset(a, k);
    SplitMultiset(b, k);
    assert multiset(a[k..]) == multiset(a) - multiset(a[..k]);
    assert multiset(b[k..]) == multiset(b) - multiset(b[..k]);
  }

  /** Where two rearrangements differ, the larger entry occurs later in the smaller one. */
  lemma LargerOccursLater(a: seq<int>, b: seq<int>, k: nat) returns (m: nat)
    requires Rearranges(a, b) && LessAt(a, b, k)
    ensures k < m < |a| && a[m] == b[k]
  {
    TailsRearrange(a, b, k);
    assert b[k] == b[k..][0];
    assert b[k] in multiset(b[k..]);
    assert b[k] in a[k..];
    var i :| 0 <= i < |a[k..]| && a[k..][i] == b[k];
    m := k + i;
  }

  /** The nondecreasing arrangement comes first. */
  lemma {:induction false} SortedIsFirst(s: seq<int>, x: seq<int>)
    requires Nondecreasing(s) && Rearranges(s, x)
    ensures AtMost(s, x)
  {
    RearrangeLength(s, x);
    if s != x {
      var k := FirstDifference(s, x);
      if x[k] < s[k] {
        assert LessAt(x, s, k);
        var m := SmallerOccursLater(x, s, k);
      }
      assert LessAt(s, x, k);
    }
  }

  lemma FirstDifference(a: seq<int>, b: seq<int>) returns (k: nat)
    requires |a| == |b| && a != b
    ensures k < |a| && a[..k] == b[..k] && a[k] != b[k]
  {
    k := 0;
    while k < |a| && a[k] == b[k]
      invariant k <= |a| && forall p :: 0 <= p < k ==> a[p] == b[p]
    {
      k := k + 1;
    }
    assert k == |a| ==> a == b;
  }

  /** Where two rearrangements differ, the smaller entry occurs later in the larger one. */
  lemma SmallerOccursLater(a: seq<int>, b: seq<int>, k: nat) returns (m: nat)
    requires Rearranges(a, b) && LessAt(a, b, k)
    ensures k < m < |b| && b[m] == a[k]
  {
    TailsRearrange(a, b, k);
    assert a[k] == a[k..][0];
    assert a[k] in multiset(a[k..]);
    assert a[k] in b[k..];
    var i :| 0 <= i < |b[k..]| && b[k..][i] == a[k];
    m := k + i;
  }

  /** The nonincreasing arrangement comes last. */
  lemma ReverseSortedIsLast(s: seq<int>, x: seq<int>)
    requires NonincreasingFrom(s, 0) && Rearranges(s, x)
    ensures !Less(s, x)
  {
    if Less(s, x) {
      var k: nat :| LessAt(s, x, k);
      var m := LargerOccursLater(s, x, k);
      assert false;
    }
  }

  // ---- the successor step ----

  /** t is the next arrangement after s: nothing lies strictly between. */
  ghost predicate IsNext(s: seq<int>, t: seq<int>) {
    && Rearranges(s, t) && Less(s, t)
    && forall x :: Rearranges(s, x) && Less(s, x) ==> AtMost(t, x)
  }

  /** i is the last rise of s and j the last entry above s[i]. */
  ghost predicate Pivots(s: seq<int>, i: nat, j: nat) {
    && i < j < |s| && s[i] < s[j]
    && NonincreasingFrom(s, i + 1)
    && forall m :: j < m < |s| ==> s[m] <= s[i]
  }

  /** t is s with s[i] and s[j] swapped and the tail after i reversed. */
  ghost predicate Stepped(s: seq<int>, t: seq<int>, i: nat, j: nat)
    requires i < j < |s|
  {
    && |t| == |s| && t[..i] == s[..i] && t[i] == s[j]
    && forall m :: i < m < |s| ==> t[m] == if i + |s| - m == j then s[i] else s[i + |s| - m]
  }

  /** Nothing lies strictly between s and its successor. */
  lemma NothingBetween(s: seq<int>, t: seq<int>, i: nat, j: nat, x: seq<int>)
    requires Pivots(s, i, j) && Stepped(s, t, i, j) && Rearranges(s, t)
    requires Rearranges(s, x) && Less(s, x)
    ensures AtMost(t, x)
  {
    var k: nat :| LessAt(s, x, k);
    var m := LargerOccursLater(s, x, k);
    assert k <= i;
    if k < i {
      assert t[..k] == s[..k] by { assert t[..k] == t[..i][..k] && s[..k] == s[..i][..k]; }
      assert t[k] == t[..i][k] == s[..i][k] == s[k];
      assert LessAt(t, x, k);
    } else {
      assert m <= j;
      if x[i] == t[i] {
        assert x[..i + 1] == t[..i + 1] by { assert x[..i + 1] == x[..i] + [x[i]] && t[..i + 1] == t[..i] + [t[i]]; }
        TailsRearrange(t, x, i + 1);
        SortedIsFirst(t[i + 1..], x[i + 1..]);
        ExtendAtMost(t, x, i + 1);
      } else {
        assert LessAt(t, x, i);
      }
    }
  }

  lemma ExtendAtMost(a: seq<int>, b: seq<int>, k: nat)
    requires |a| == |b| && k <= |a| && a[..k] == b[..k] && AtMost(a[k..], b[k..])
    ensures AtMost(a, b)
  {
    if a[k..] == b[k..] {
      assert a == a[..k] + a[k..] && b == b[..k] + b[k..];
    } else {
      var m: nat :| LessAt(a[k..], b[k..], m);
      assert a[..k + m] == a[..k] + a[k..][..m] && b[..k + m] == b[..k] + b[k..][..m];
      assert LessAt(a, b, k + m);
    }
  }

  // ---- a number that grows with the arrangement ----

  /** Position of v among the sorted values. */
  ghost function Digit(values: seq<int>, v: int): nat {
    if values == [] then 0 else Digit(values[1..], v) + if values[0] < v then 1 else 0
  }

  lemma {:induction false} DigitMonotone(values: seq<int>, v: int, w: int)
    requires v <= w
    ensures Digit(values, v) <= Digit(values, w) <= |values|
    ensures v in values && v < w ==> Digit(values, v) < Digit(values, w)
    ensures v in values ==> Digit(values, v) < |values|
  {
    if values != [] { DigitMonotone(values[1..], v, w); }
  }

  /** The first k entries of s read as a number with the sorted positions as digits. */
  ghost function Code(values: seq<int>, s: seq<int>, k: nat): nat
    requires k <= |s|
  {
    if k == 0 then 0 else Code(values, s, k - 1) * |values| + Digit(values, s[k - 1])
  }

  ghost function Power(b: nat, k: nat): nat {
    if k == 0 then 1 else Power(b, k - 1) * b
  }

  lemma NextDigit(a: nat, b: nat, n: nat, c: nat, d: nat)
    requires a < b && c < n
    ensures a * n + c < b * n + d
  {
    assert (a + 1) * n <= b * n;
  }

  lemma {:induction false} CodeBound(values: seq<int>, s: seq<int>, k: nat)
    requires k <= |s| && forall i :: 0 <= i < |s| ==> s[i] in values
    ensures Code(values, s, k) < Power(|values|, k)
  {
    if k > 0 {
      CodeBound(values, s, k - 1);
      DigitMonotone(values, s[k - 1], s[k - 1]);
      NextDigit(Code(values, s, k - 1), Power(|values|, k - 1), |values|, Digit(values, s[k - 1]), 0);
    }
  }

  lemma {:induction false} CodeOfPrefix(values: seq<int>, a: seq<int>, b: seq<int>, k: nat)
    requires k <= |a| == |b| && a[..k] == b[..k]
    ensures Code(values, a, k) == Code(values, b, k)
  {
    if k > 0 {
      assert a[..k - 1] == a[..k][..k - 1] && b[..k - 1] == b[..k][..k - 1];
      assert a[..k][k - 1] == b[..k][k - 1];
      CodeOfPrefix(values, a, b, k - 1);
    }
  }

  lemma {:induction false} CodeGrows(values: seq<int>, a: seq<int>, b: seq<int>, k: nat, n: nat)
    requires LessAt(a, b, k) && k < n <= |a| && forall i :: 0 <= i < |a| ==> a[i] in values
    ensures Code(values, a, n) < Code(values, b, n)
    decreases n
  {
    DigitMonotone(values, a[n - 1], a[n - 1]);
    if n == k + 1 {
      CodeOfPrefix(values, a, b, k);
      DigitMonotone(values, a[k], b[k]);
    } else {
      CodeGrows(values, a, b, k, n - 1);
      NextDigit(Code(values, a, n - 1), Code(values, b, n - 1), |values|,
                Digit(values, a[n - 1]), Digit(values, b[n - 1]));
    }
  }

  // ---- the generator ----

  lemma SteppedRearranges(s: seq<int>, t: seq<int>, i: nat, j: nat)
    requires i < j < |s| && Stepped(s, t, i, j)
    ensures Rearranges(s, t)
  {
    var swapped := s[i := s[j]][j := s[i]];
    TailIsReversed(s, t, i, j);
    ReversedMultiset(swapped[i + 1..], t[i + 1..]);
    assert swapped[..i + 1] == s[..i] + [s[j]];
    assert t[..i + 1] == t[..i] + [t[i]];
    SplitMultiset(swapped, i + 1);
    SplitMultiset(t, i + 1);
    SwapRearranges(s, i, j);
  }

  lemma TailIsReversed(s: seq<int>, t: seq<int>, i: nat, j: nat)
    requires i < j < |s| && Stepped(s, t, i, j)
    ensures var a, b := s[i := s[j]][j := s[i]][i + 1..], t[i + 1..];
      |a| == |b| && forall m :: 0 <= m < |a| ==> b[m] == a[|a| - 1 - m]
  {
    var a, b := s[i := s[j]][j := s[i]][i + 1..], t[i + 1..];
    forall m | 0 <= m < |a| ensures b[m] == a[|a| - 1 - m] {
      assert b[m] == t[i + 1 + m];
    }
  }

  lemma SwapRearranges(s: seq<int>, i: nat, j: nat)
    requires i < j < |s|
    ensures Rearranges(s, s[i := s[j]][j := s[i]])
  {
  }

  lemma {:induction false} ReversedMultiset(a: seq<int>, b: seq<int>)
    requires |a| == |b| && forall m :: 0 <= m < |a| ==> b[m] == a[|a| - 1 - m]
    ensures multiset(a) == multiset(b)
  {
    if a != [] {
      ReversedMultiset(a[1..], b[..|b| - 1]);
      assert a == [a[0]] + a[1..] && b == b[..|b| - 1] + [a[0]];
    }
  }

  lemma StepIsNext(s: seq<int>, t: seq<int>, i: nat, j: nat)
    requires Pivots(s, i, j) && Stepped(s, t, i, j)
    ensures IsNext(s, t)
  {
    SteppedRearranges(s, t, i, j);
    assert LessAt(s, t, i);
    forall x | Rearranges(s, x) && Less(s, x) ensures AtMost(t, x) {
      NothingBetween(s, t, i, j, x);
    }
  }

  /** The two searches: the last rise i and the last entry j above A[i]. */
  method FindPivots(A: array<int>) returns (i: int, j: nat)
    requires A.Length > 0
    ensures i < 0 ==> NonincreasingFrom(A[..], 0)
    ensures i >= 0 ==> Pivots(A[..], i, j)
  {
    var size := A.Length;
    i, j := size - 2, 0;
    while i >= 0 && A[i] >= A[i + 1]
      invariant -1 <= i <= size - 2 && NonincreasingFrom(A[..], i + 1)
    {
      i := i - 1;
    }
    if i >= 0 {
      j := size - 1;
      while A[i] >= A[j]
        invariant i < j < size && forall m :: j < m < size ==> A[m] <= A[i]
        decreases j
      {
        j := j - 1;
      }
    }
  }

  /** The body of the loop after the yield: rearrange A into its successor, or report the last one. */
  method Advance(A: array<int>) returns (more: bool)
    requires A.Length > 0
    modifies A
    ensures more ==> IsNext(old(A[..]), A[..])
    ensures !more ==> A[..] == old(A[..]) && NonincreasingFrom(A[..], 0)
  {
    ghost var s := A[..];
    var i, j := FindPivots(A);
    if i < 0 {
      return false;
    }
    A[i], A[j] := A[j], A[i];
    assert A[..] == s[i := s[j]][j := s[i]];
    forall k | i < k < A.Length {
      A[k] := A[i + A.Length - k];
    }
    StepIsNext(s, A[..], i, j);
    return true;
  }

  /** out is strictly increasing. */
  ghost predicate Ascending(out: seq<seq<int>>) {
    forall i, j :: 0 <= i < j < |out| ==> Less(out[i], out[j])
  }

  lemma LessTransitive(a: seq<int>, b: seq<int>, c: seq<int>)
    requires Less(a, b) && Less(b, c)
    ensures Less(a, c)
  {
    var k: nat :| LessAt(a, b, k);
    var m: nat :| LessAt(b, c, m);
    var p := if k < m then k else m;
    assert a[..p] == a[..k][..p] && b[..p] == b[..k][..p] && b[..p] == b[..m][..p] && c[..p] == c[..m][..p];
    assert k < m ==> b[k] == b[..m][k] == c[..m][k];
    assert m < k ==> a[m] == a[..k][m] == b[..k][m];
    assert LessAt(a, c, p);
  }

  function Insert(x: int, s: seq<int>): seq<int> {
    if s == [] || x < s[0] then [x] + s else [s[0]] + Insert(x, s[1..])
  }

  lemma PrependKeepsOrder(x: int, r: seq<int>)
    requires Nondecreasing(r) && (r == [] || x <= r[0])
    ensures Nondecreasing([x] + r)
  {
    forall i, j | 0 <= i < j < |[x] + r| ensures ([x] + r)[i] <= ([x] + r)[j] {
      assert ([x] + r)[j] == r[j - 1] && r[0] <= r[j - 1];
    }
  }

  lemma {:induction false} InsertKeepsOrder(x: int, s: seq<int>)
    requires Nondecreasing(s)
    ensures Nondecreasing(Insert(x, s)) && Insert(x, s) != []
    ensures Insert(x, s)[0] == if s == [] || x < s[0] then x else s[0]
  {
    if s == [] || x < s[0] {
      PrependKeepsOrder(x, s);
    } else {
      InsertKeepsOrder(x, s[1..]);
      PrependKeepsOrder(s[0], Insert(x, s[1..]));
    }
  }

  lemma {:induction false} InsertRearranges(x: int, s: seq<int>)
    ensures multiset(Insert(x, s)) == multiset(s) + multiset{x}
  {
    if s != [] && x >= s[0] {
      InsertRearranges(x, s[1..]);
      assert s == [s[0]] + s[1..];
    }
  }

  /** sorted(iterable) */
  method Sorted(items: seq<int>) returns (s: seq<int>)
    ensures Rearranges(items, s) && Nondecreasing(s)
  {
    s := [];
    for n := 0 to |items|
      invariant Rearranges(items[..n], s) && Nondecreasing(s)
    {
      assert items[..n + 1] == items[..n] + [items[n]];
      InsertKeepsOrder(items[n], s);
      InsertRearranges(items[n], s);
      s := Insert(items[n], s);
    }
    assert items[..|items|] == items;
  }

  // ---- arrangements of r items ----

  /** x arranges r of the items. */
  ghost predicate Arranges(items: seq<int>, r: nat, x: seq<int>) {
    |x| == r && multiset(x) <= multiset(items)
  }

  lemma FullArrangement(items: seq<int>, x: seq<int>)
    ensures Arranges(items, |items|, x) <==> Rearranges(items, x)
  {
    if Arranges(items, |items|, x) {
      var rest := multiset(items) - multiset(x);
      assert multiset(items) == multiset(x) + rest && |rest| == 0;
    } else if Rearranges(items, x) {
      RearrangeLength(items, x);
    }
  }

  /** t is the next arrangement of r items after s. */
  ghost predicate IsNextOf(items: seq<int>, r: nat, s: seq<int>, t: seq<int>) {
    && Arranges(items, r, t) && Less(s, t)
    && forall x :: Arranges(items, r, x) && Less(s, x) ==> AtMost(t, x)
  }

  ghost predicate IsLastOf(items: seq<int>, r: nat, s: seq<int>) {
    forall x :: Arranges(items, r, x) ==> !Less(s, x)
  }

  lemma NextOfAll(items: seq<int>, s: seq<int>, t: seq<int>)
    requires Rearranges(items, s) && IsNext(s, t)
    ensures IsNextOf(items, |items|, s, t)
  {
    FullArrangement(items, t);
    forall x | Arranges(items, |items|, x) && Less(s, x) ensures AtMost(t, x) {
      FullArrangement(items, x);
    }
  }

  lemma LastOfAll(items: seq<int>, s: seq<int>)
    requires Rearranges(items, s) && NonincreasingFrom(s, 0)
    ensures IsLastOf(items, |items|, s)
  {
    forall x | Arranges(items, |items|, x) ensures !Less(s, x) {
      FullArrangement(items, x);
      ReverseSortedIsLast(s, x);
    }
  }

  /** Some order of a multiset. */
  lemma {:induction false} Listing(m: multiset<int>) returns (s: seq<int>)
    ensures multiset(s) == m
    decreases |m|
  {
    if |m| == 0 {
      s := [];
    } else {
      assert (forall x :: x !in m) ==> m == multiset{};
      var x :| x in m;
      var rest := Listing(m - multiset{x});
      s := rest + [x];
      assert multiset(s) == (m - multiset{x}) + multiset{x} == m;
    }
  }

  /** Any arrangement of r items can be completed. */
  lemma Completion(items: seq<int>, r: nat, x: seq<int>) returns (all: seq<int>)
    requires Arranges(items, r, x)
    ensures Rearranges(items, all) && r <= |all| && all[..r] == x
  {
    var rest := Listing(multiset(items) - multiset(x));
    all := x + rest;
    assert multiset(all) == multiset(x) + (multiset(items) - multiset(x)) == multiset(items);
  }

  lemma FrontArranges(items: seq<int>, s: seq<int>, r: nat)
    requires Rearranges(items, s) && r <= |s|
    ensures Arranges(items, r, s[..r])
  {
    SplitMultiset(s, r);
  }

  /** Less and AtMost of fronts. */
  lemma FrontLess(a: seq<int>, b: seq<int>, r: nat, k: nat)
    requires LessAt(a, b, k) && r <= |a|
    ensures k < r ==> LessAt(a[..r], b[..r], k)
    ensures AtMost(a[..r], b[..r])
  {
    if k < r {
      assert a[..r][..k] == a[..k] && b[..r][..k] == b[..k];
      assert LessAt(a[..r], b[..r], k);
    } else {
      assert a[..r] == a[..k][..r] == b[..k][..r] == b[..r];
    }
  }

  lemma ExtendLess(a: seq<int>, b: seq<int>, r: nat)
    requires |a| == |b| && r <= |a| && Less(a[..r], b[..r])
    ensures Less(a, b)
  {
    var k: nat :| LessAt(a[..r], b[..r], k);
    assert a[..k] == a[..r][..k] && b[..k] == b[..r][..k];
    assert LessAt(a, b, k);
  }

  /** One step of the full algorithm that changes the front gives the next front, if s is the last arrangement with
      its front or not. */
  lemma NextFront(items: seq<int>, r: nat, s: seq<int>, t: seq<int>, i: nat)
    requires Rearranges(items, s) && IsNext(s, t) && LessAt(s, t, i) && i < r <= |s|
    ensures IsNextOf(items, r, s[..r], t[..r])
  {
    FrontArranges(items, t, r);
    FrontLess(s, t, r, i);
    forall x | Arranges(items, r, x) && Less(s[..r], x) ensures AtMost(t[..r], x) {
      var all := Completion(items, r, x);
      RearrangeLength(s, all);
      ExtendLess(s, all, r);
      if t != all {
        var k: nat :| LessAt(t, all, k);
        FrontLess(t, all, r, k);
      }
    }
  }

  lemma LastFront(items: seq<int>, r: nat, s: seq<int>)
    requires Rearranges(items, s) && NonincreasingFrom(s, 0) && r <= |s|
    ensures IsLastOf(items, r, s[..r])
  {
    forall x | Arranges(items, r, x) ensures !Less(s[..r], x) {
      var all := Completion(items, r, x);
      RearrangeLength(s, all);
      ReverseSortedIsLast(s, all);
      if Less(s[..r], x) { ExtendLess(s, all, r); }
    }
  }

  lemma FirstFront(items: seq<int>, r: nat, start: seq<int>, x: seq<int>)
    requires Rearranges(items, start) && Nondecreasing(start) && r <= |start| && Arranges(items, r, x)
    ensures AtMost(start[..r], x)
  {
    var all := Completion(items, r, x);
    SortedIsFirst(start, all);
    if start != all {
      var k: nat :| LessAt(start, all, k);
      FrontLess(start, all, r, k);
    }
  }

  // ---- what is yielded ----

  /** What was yielded: arrangements in increasing order. */
  ghost predicate Yielded(items: seq<int>, r: nat, out: seq<seq<int>>) {
    Ascending(out) && forall k :: 0 <= k < |out| ==> Arranges(items, r, out[k])
  }

  /** The current arrangement s comes after all yielded ones, and every other one at or after s. */
  ghost predicate Pending(items: seq<int>, r: nat, out: seq<seq<int>>, s: seq<int>) {
    && Arranges(items, r, s)
    && (forall k :: 0 <= k < |out| ==> Less(out[k], s))
    && forall x :: Arranges(items, r, x) ==> x in out || AtMost(s, x)
  }

  lemma YieldStep(items: seq<int>, r: nat, out: seq<seq<int>>, s: seq<int>, t: seq<int>)
    requires Yielded(items, r, out) && Pending(items, r, out, s) && IsNextOf(items, r, s, t)
    ensures Yielded(items, r, out + [s]) && Pending(items, r, out + [s], t)
  {
    var out' := out + [s];
    forall k | 0 <= k < |out'| ensures Less(out'[k], t) {
      if k < |out| { LessTransitive(out[k], s, t); }
    }
    assert out'[|out|] == s;
    forall x | Arranges(items, r, x) ensures x in out' || AtMost(t, x) {
      if x in out {
        var k :| 0 <= k < |out| && out[k] == x;
        assert out'[k] == x;
      }
    }
  }

  lemma LastStep(items: seq<int>, r: nat, out: seq<seq<int>>, s: seq<int>)
    requires Yielded(items, r, out) && Pending(items, r, out, s) && IsLastOf(items, r, s)
    ensures Yielded(items, r, out + [s]) && forall x :: Arranges(items, r, x) ==> x in out + [s]
  {
    var out' := out + [s];
    assert out'[|out|] == s;
    forall x | Arranges(items, r, x) ensures x in out' {
      if x in out {
        var k :| 0 <= k < |out| && out[k] == x;
        assert out'[k] == x;
      }
    }
  }

  /** The measure of the loops. */
  lemma Progress(values: seq<int>, r: nat, s: seq<int>, t: seq<int>)
    requires Arranges(values, r, s) && IsNextOf(values, r, s, t)
    ensures |s| == |t| == r
    ensures Code(values, s, r) < Code(values, t, r) < Power(|values|, r)
  {
    MembersOf(values, s);
    MembersOf(values, t);
    var k: nat :| LessAt(s, t, k);
    CodeGrows(values, s, t, k, r);
    CodeBound(values, t, r);
  }

  lemma MembersOf(values: seq<int>, s: seq<int>)
    requires multiset(s) <= multiset(values)
    ensures forall i :: 0 <= i < |s| ==> s[i] in values
  {
    forall i | 0 <= i < |s| ensures s[i] in values {
      assert s[i] in multiset(s);
      assert s[i] in multiset(values);
    }
  }

  lemma SameItems(items: seq<int>, start: seq<int>)
    requires Rearranges(items, start)
    ensures |items| == |start| && forall r: nat, x :: Arranges(items, r, x) <==> Arranges(start, r, x)
  {
    RearrangeLength(items, start);
  }

  lemma AllPending(start: seq<int>, r: nat)
    requires Nondecreasing(start) && r <= |start|
    ensures Pending(start, r, [], start[..r])
  {
    FrontArranges(start, start, r);
    forall x | Arranges(start, r, x) ensures AtMost(start[..r], x) {
      FirstFront(start, r, start, x);
    }
  }

  /** _full: all rearrangements of the sorted items. */
  method Full(start: seq<int>) returns (out: seq<seq<int>>)
    requires Nondecreasing(start) && |start| > 0
    ensures Yielded(start, |start|, out) && forall x :: Arranges(start, |start|, x) ==> x in out
  {
    var size := |start|;
    var A := new int[size](i requires 0 <= i < size => start[i]);
    assert A[..] == start == start[..size];
    AllPending(start, size);
    out := [];
    ghost var code := Code(start, A[..], size);
    while true
      invariant A.Length == size && Yielded(start, size, out) && Pending(start, size, out, A[..])
      invariant code == Code(start, A[..], size)
      decreases Power(size, size) - code
    {
      ghost var before := out;
      var s := A[..];
      FullArrangement(start, s);
      out := out + [s];
      var more := Advance(A);
      if !more {
        LastOfAll(start, s);
        LastStep(start, size, before, s);
        break;
      }
      NextOfAll(start, s, A[..]);
      Progress(start, size, s, A[..]);
      YieldStep(start, size, before, s, A[..]);
      code := Code(start, A[..], size);
    }
  }

  // ---- the shorter arrangements ----

  function Reversed(s: seq<int>): (r: seq<int>)
    ensures |r| == |s|
  {
    if s == [] then [] else Reversed(s[1..]) + [s[0]]
  }

  lemma {:induction false} ReversedAt(s: seq<int>, p: nat)
    requires p < |s|
    ensures Reversed(s)[|s| - 1 - p] == s[p]
  {
    if p > 0 { ReversedAt(s[1..], p - 1); }
  }

  /** The last arrangement with this head, if the tail is sorted. */
  function LargestWith(head: seq<int>, tail: seq<int>): (s: seq<int>)
    ensures |s| == |head| + |tail| && s[..|head|] == head
  {
    head + Reversed(tail)
  }

  lemma TailOf(head: seq<int>, tail: seq<int>, p: nat)
    requires p < |tail|
    ensures LargestWith(head, tail)[|head| + |tail| - 1 - p] == tail[p]
  {
    ReversedAt(tail, p);
  }

  lemma HeadOf(head: seq<int>, tail: seq<int>, q: nat)
    requires q < |head|
    ensures LargestWith(head, tail)[q] == head[q]
  {
  }

  lemma TailFalls(head: seq<int>, tail: seq<int>)
    requires Nondecreasing(tail)
    ensures NonincreasingFrom(LargestWith(head, tail), |head|)
  {
    var s := LargestWith(head, tail);
    forall a, b | |head| <= a < b < |s| ensures s[a] >= s[b] {
      TailOf(head, tail, |s| - 1 - a);
      TailOf(head, tail, |s| - 1 - b);
    }
  }

  lemma FallsFromBefore(s: seq<int>, i: nat)
    requires i + 1 < |s| && NonincreasingFrom(s, i + 1) && s[i] >= s[i + 1]
    ensures NonincreasingFrom(s, i)
  {
  }

  /** The last position of the head that some later entry exceeds. */
  method FindPivot(head: seq<int>, tail: seq<int>) returns (i: int)
    requires tail != [] && Nondecreasing(tail)
    ensures var s := LargestWith(head, tail);
      && -1 <= i < |head| && NonincreasingFrom(s, i + 1) && (i >= 0 ==> s[i] < s[i + 1])
  {
    ghost var s := LargestWith(head, tail);
    TailFalls(head, tail);
    TailOf(head, tail, |tail| - 1);
    var pivot := tail[|tail| - 1];
    i := |head| - 1;
    while i >= 0 && head[i] >= pivot
      invariant -1 <= i < |head| && pivot == s[i + 1] && NonincreasingFrom(s, i + 1)
    {
      HeadOf(head, tail, i);
      FallsFromBefore(s, i);
      pivot := head[i];
      i := i - 1;
    }
    if i >= 0 { HeadOf(head, tail, i); }
  }

  /** The two searches for the entry to swap with: the tail from the left, then the head from the right. */
  method FindSwap(head: seq<int>, tail: seq<int>, i: nat) returns (inTail: bool, j: nat)
    requires i < |head| && tail != [] && Nondecreasing(tail)
    requires var s := LargestWith(head, tail); NonincreasingFrom(s, i + 1) && s[i] < s[i + 1]
    ensures inTail ==> j < |tail| && Pivots(LargestWith(head, tail), i, |head| + |tail| - 1 - j)
    ensures !inTail ==> j < |head| && Pivots(LargestWith(head, tail), i, j)
  {
    ghost var s := LargestWith(head, tail);
    HeadOf(head, tail, i);
    j := 0;
    while j < |tail| && tail[j] <= head[i]
      invariant j <= |tail| && forall m :: |s| - 1 - j < m < |s| ==> s[m] <= s[i]
    {
      TailOf(head, tail, j);
      j := j + 1;
    }
    inTail := j < |tail|;
    if inTail {
      TailOf(head, tail, j);
    } else {
      j := SearchHead(head, tail, i);
    }
  }

  method SearchHead(head: seq<int>, tail: seq<int>, i: nat) returns (j: nat)
    requires i < |head| && tail != []
    requires var s := LargestWith(head, tail); NonincreasingFrom(s, i + 1) && s[i] < s[i + 1]
    requires var s := LargestWith(head, tail); forall m :: |head| <= m < |s| ==> s[m] <= s[i]
    ensures j < |head| && Pivots(LargestWith(head, tail), i, j)
  {
    ghost var s := LargestWith(head, tail);
    HeadOf(head, tail, i);
    assert i + 1 < |head|;
    HeadOf(head, tail, i + 1);
    j := |head| - 1;
    while head[j] <= head[i]
      invariant i < j < |head| && forall m :: j < m < |s| ==> s[m] <= s[i]
      decreases j
    {
      HeadOf(head, tail, j);
      j := j - 1;
    }
    HeadOf(head, tail, j);
  }

  /** The head and tail after the swap of entry i of the head. */
  function SwappedHead(head: seq<int>, tail: seq<int>, i: nat, inTail: bool, j: nat): (r: seq<int>)
    requires i < |head| && (if inTail then j < |tail| else i < j < |head|)
    ensures |r| == |head|
  {
    if inTail then head[i := tail[j]] else head[i := head[j]][j := head[i]]
  }

  function SwappedTail(head: seq<int>, tail: seq<int>, i: nat, inTail: bool, j: nat): (r: seq<int>)
    requires i < |head| && (if inTail then j < |tail| else i < j < |head|)
    ensures |r| == |tail|
  {
    if inTail then tail[j := head[i]] else tail
  }

  /** The whole arrangement after the step: the rest of the head goes reversed behind the tail. */
  function Rebuilt(head: seq<int>, tail: seq<int>, i: nat): (t: seq<int>)
    requires i < |head|
    ensures |t| == |head| + |tail|
  {
    head[..i + 1] + (tail + Reversed(head[i + 1..]))
  }

  lemma RebuiltTail(head: seq<int>, tail: seq<int>, i: nat, p: nat)
    requires i < |head| && p < |tail|
    ensures Rebuilt(head, tail, i)[i + 1 + p] == tail[p]
  {
    assert (tail + Reversed(head[i + 1..]))[p] == tail[p];
  }

  lemma RebuiltHead(head: seq<int>, tail: seq<int>, i: nat, q: nat)
    requires i < q < |head|
    ensures Rebuilt(head, tail, i)[i + |head| + |tail| - q] == head[q]
  {
    var rest := head[i + 1..];
    ReversedAt(rest, q - i - 1);
    assert (tail + Reversed(rest))[|tail| + |head| - 1 - q] == Reversed(rest)[|head| - 1 - q];
  }

  /** That is the step of the full algorithm, entry by entry. */
  lemma SteppedAt(head: seq<int>, tail: seq<int>, i: nat, inTail: bool, j: nat, k: nat, m: nat)
    requires i < |head| && (if inTail then j < |tail| else i < j < |head|) && i < m < |head| + |tail|
    requires k == if inTail then |head| + |tail| - 1 - j else j
    ensures var s := LargestWith(head, tail);
      var t := Rebuilt(SwappedHead(head, tail, i, inTail, j), SwappedTail(head, tail, i, inTail, j), i);
      t[m] == if i + |s| - m == k then s[i] else s[i + |s| - m]
  {
    var head', tail' := SwappedHead(head, tail, i, inTail, j), SwappedTail(head, tail, i, inTail, j);
    var p, q := m - (i + 1), i + |head| + |tail| - m;
    HeadOf(head, tail, i);
    if p < |tail| {
      RebuiltTail(head', tail', i, p);
      TailOf(head, tail, p);
    } else {
      RebuiltHead(head', tail', i, q);
      HeadOf(head, tail, q);
    }
  }

  lemma SteppedFront(head: seq<int>, tail: seq<int>, i: nat, inTail: bool, j: nat, k: nat)
    requires i < |head| && (if inTail then j < |tail| else i < j < |head|)
    requires k == if inTail then |head| + |tail| - 1 - j else j
    ensures var s := LargestWith(head, tail);
      var t := Rebuilt(SwappedHead(head, tail, i, inTail, j), SwappedTail(head, tail, i, inTail, j), i);
      t[..i] == s[..i] && t[i] == s[k]
  {
    var head', tail' := SwappedHead(head, tail, i, inTail, j), SwappedTail(head, tail, i, inTail, j);
    var s, t := LargestWith(head, tail), Rebuilt(head', tail', i);
    if inTail {
      TailOf(head, tail, j);
    } else {
      HeadOf(head, tail, j);
    }
    assert t[..i] == head'[..i] == head[..i] == s[..i];
    assert t[i] == head'[i];
  }

  lemma RebuiltIsStepped(head: seq<int>, tail: seq<int>, i: nat, inTail: bool, j: nat, k: nat)
    requires i < |head| && (if inTail then j < |tail| else i < j < |head|)
    requires k == if inTail then |head| + |tail| - 1 - j else j
    ensures Stepped(LargestWith(head, tail),
      Rebuilt(SwappedHead(head, tail, i, inTail, j), SwappedTail(head, tail, i, inTail, j), i), i, k)
  {
    SteppedFront(head, tail, i, inTail, j, k);
    forall m | i < m < |head| + |tail|
      ensures var s := LargestWith(head, tail);
        var t := Rebuilt(SwappedHead(head, tail, i, inTail, j), SwappedTail(head, tail, i, inTail, j), i);
        t[m] == if i + |s| - m == k then s[i] else s[i + |s| - m]
    {
      SteppedAt(head, tail, i, inTail, j, k, m);
    }
  }

  lemma SortedTail(s: seq<int>, t: seq<int>, i: nat, j: nat)
    requires Pivots(s, i, j) && Stepped(s, t, i, j)
    ensures Nondecreasing(t[i + 1..])
  {
    forall a, b | i < a < b < |t| ensures t[a] <= t[b] {
      var p, q := i + |s| - a, i + |s| - b;
      assert s[p] <= s[q];
      assert s[j] <= s[q] || q > j;
    }
  }

  /** The front of the rebuilt arrangement is the next head, and the rest is sorted. */
  lemma StepOfHead(head: seq<int>, tail: seq<int>, s: seq<int>, t: seq<int>, i: nat, k: nat)
    requires i < |head| <= |s| && s[..|head|] == head && Pivots(s, i, k) && Stepped(s, t, i, k)
    ensures IsNext(s, t) && Less(head, t[..|head|]) && Nondecreasing(t[|head|..])
  {
    SortedTail(s, t, i, k);
    StepIsNext(s, t, i, k);
    assert t[|head|..] == t[i + 1..][|head| - i - 1..];
    assert LessAt(s, t, i);
    FrontLess(s, t, |head|, i);
  }

  /** What _partial does with the pivot: the swap, and the front of the rest moves into the head. */
  method StepHead(head: seq<int>, tail: seq<int>, i: nat) returns (head': seq<int>, tail': seq<int>)
    requires i < |head| && tail != [] && Nondecreasing(tail)
    requires var s := LargestWith(head, tail); NonincreasingFrom(s, i + 1) && s[i] < s[i + 1]
    ensures |head'| == |head| && Nondecreasing(tail') && Less(head, head')
    ensures IsNext(LargestWith(head, tail), head' + tail')
  {
    var inTail, j := FindSwap(head, tail, i);
    if inTail {
      head', tail' := head[i := tail[j]], tail[j := head[i]];
    } else {
      head', tail' := head[i := head[j]][j := head[i]], tail;
    }
    ghost var k := if inTail then |head| + |tail| - 1 - j else j;
    ghost var t := Rebuilt(head', tail', i);
    RebuiltIsStepped(head, tail, i, inTail, j, k);
    StepOfHead(head, tail, LargestWith(head, tail), t, i, k);
    head', tail' := MoveFront(head', tail', i);
  }

  /** tail += head[:i - r:-1]; i += 1; head[i:], tail[:] = tail[:r - i], tail[r - i:] */
  method MoveFront(head: seq<int>, tail: seq<int>, i: nat) returns (head': seq<int>, tail': seq<int>)
    requires i < |head|
    ensures var t := Rebuilt(head, tail, i); head' == t[..|head|] && tail' == t[|head|..] && head' + tail' == t
  {
    var longer := tail + Reversed(head[i + 1..]);
    head', tail' := head[..i + 1] + longer[..|head| - i - 1], longer[|head| - i - 1..];
    assert longer == longer[..|head| - i - 1] + tail';
  }

  /** The body of the loop of _partial after the yield: the next head, and the sorted rest. */
  method AdvancePartial(head: seq<int>, tail: seq<int>) returns (more: bool, head': seq<int>, tail': seq<int>)
    requires head != [] && tail != [] && Nondecreasing(tail)
    ensures !more ==> NonincreasingFrom(LargestWith(head, tail), 0)
    ensures more ==> |head'| == |head| && Nondecreasing(tail') && Less(head, head')
    ensures more ==> IsNext(LargestWith(head, tail), head' + tail')
  {
    more, head', tail' := false, head, tail;
    var i := FindPivot(head, tail);
    if i >= 0 {
      more := true;
      head', tail' := StepHead(head, tail, i);
    }
  }

  /** _partial: all arrangements of r of the sorted items. */
  method Partial(start: seq<int>, r: nat) returns (out: seq<seq<int>>)
    requires Nondecreasing(start) && 0 < r < |start|
    ensures Yielded(start, r, out) && forall x :: Arranges(start, r, x) ==> x in out
  {
    var head, tail := start[..r], start[r..];
    assert head + tail == start;
    AllPending(start, r);
    out := [];
    while true
      invariant |head| == r && tail != [] && Nondecreasing(tail) && Rearranges(start, head + tail)
      invariant Yielded(start, r, out) && Pending(start, r, out, head)
      decreases Power(|start|, r) - Code(start, head, r)
    {
      ghost var s, before, code := LargestWith(head, tail), out, Code(start, head, r);
      LargestRearranges(start, head, tail);
      out := out + [head];
      var more, head', tail' := AdvancePartial(head, tail);
      if !more {
        LastFront(start, r, s);
        LastStep(start, r, before, head);
        break;
      }
      ghost var t := head' + tail';
      FrontStep(start, head, s, t, r);
      assert t[..r] == head';
      Progress(start, r, head, head');
      YieldStep(start, r, before, head, head');
      RearrangeLength(s, t);
      head, tail := head', tail';
    }
  }

  lemma LargestRearranges(items: seq<int>, head: seq<int>, tail: seq<int>)
    requires Rearranges(items, head + tail)
    ensures Rearranges(items, LargestWith(head, tail))
  {
    forall m | 0 <= m < |tail| ensures Reversed(tail)[m] == tail[|tail| - 1 - m] {
      ReversedAt(tail, |tail| - 1 - m);
    }
    ReversedMultiset(tail, Reversed(tail));
  }

  /** A step that increases the head gives the next head. */
  lemma FrontStep(items: seq<int>, head: seq<int>, s: seq<int>, t: seq<int>, r: nat)
    requires Rearranges(items, s) && IsNext(s, t) && r <= |s| && s[..r] == head && r <= |t| && Less(head, t[..r])
    ensures IsNextOf(items, r, head, t[..r])
  {
    RearrangeLength(s, t);
    var i: nat :| LessAt(s[..r], t[..r], i);
    assert s[..i] == s[..r][..i] && t[..i] == t[..r][..i];
    assert LessAt(s, t, i);
    NextFront(items, r, s, t, i);
  }

  /** distinct_permutations(items, r): exactly the arrangements of r items, repeats included, each once, in
      lexicographic order; none at all if r is out of range. */
  method Generate(items: seq<int>, r: Option<int>) returns (out: seq<seq<int>>)
    ensures Ascending(out)
    ensures var n := if r.None? then |items| else r.value;
      forall x :: x in out <==> 0 <= n && Arranges(items, n, x)
  {
    var start := Sorted(items);
    SameItems(items, start);
    var size := |start|;
    var n := if r.None? then size else r.value;
    if 0 < n <= size {
      if n == size {
        out := Full(start);
      } else {
        out := Partial(start, n);
      }
      assert forall x :: x in out ==> Arranges(start, n, x);
    } else {
      out := if n != 0 then [] else [[]];
      NothingElse(items, n);
    }
  }

  /** Beyond the range there is no arrangement, and of no items there is one. */
  lemma NothingElse(items: seq<int>, n: int)
    requires n <= 0 || n > |items|
    ensures forall x: seq<int> :: 0 <= n && Arranges(items, n, x) <==> n == 0 && x == []
  {
    forall x: seq<int> | 0 <= n && Arranges(items, n, x) ensures n == 0 && x == [] {
      assert |multiset(items)| == |multiset(items) - multiset(x)| + |multiset(x)|;
    }
  }
}
