/** more_itertools.interleave_evenly: Bresenham's algorithm over several iterables. */
module InterleaveEvenly {

  import opened Lists
  import opened Results

  // ---- the error of one iterable ----

  /** Before round t an iterable of length d that has yielded m items has this error; `most` is the longest length. */
  ghost predicate HasError(most: nat, c: nat, t: nat, d: nat, m: nat, e: int) {
    e == c - t * d + m * most
  }

  ghost predicate InRange(e: int, most: nat) {
    0 <= e <= most && (most > 0 ==> e < most)
  }

  /** n items are within one item of t * d / most. */
  ghost predicate Near(n: nat, t: nat, d: nat, most: nat) {
    most > 0 ==> 0 - most < n * most - t * d < most
  }

  lemma ErrorIsNear(most: nat, c: nat, t: nat, d: nat, m: nat, e: int)
    requires HasError(most, c, t, d, m, e) && InRange(e, most) && c < most
    ensures Near(m, t, d, most)
  {
  }

  lemma Monotone(a: int, b: int, n: nat)
    ensures a <= b ==> a * n <= b * n
    ensures a * n < b * n ==> a < b
  {
    assert b * n - a * n == (b - a) * n;
  }

  /** Up to the last round no iterable runs dry, and after it all are used up. */
  lemma NeverTooMany(most: nat, c: nat, t: nat, d: nat, m: nat, e: int)
    requires HasError(most, c, t, d, m, e) && InRange(e, most) && c < most && t <= most
    ensures m <= d && (t == most ==> m == d)
  {
    Monotone(t, most, d);
    assert (d + 1) * most == most * d + most;
    Monotone(m, d + 1, most);
    assert (d - 1) * most == most * d - most;
    Monotone(d - 1, m, most);
  }

  // ---- how much an iterable has yielded ----

  /** The least m with m * most >= x. */
  ghost function Least(x: int, most: nat): (m: nat)
    requires most > 0
    ensures m * most >= x && (m > 0 ==> (m - 1) * most < x)
    decreases if x <= 0 then 0 else x
  {
    if x <= 0 then 0
    else
      var less := Least(x - most, most);
      assert (less + 1) * most == less * most + most && (less - 1) * most + most == less * most;
      less + 1
  }

  lemma LeastIsUnique(x: int, most: nat, m: nat)
    requires most > 0 && m * most >= x && (m > 0 ==> (m - 1) * most < x)
    ensures m == Least(x, most)
  {
    var n: int := Least(x, most);
    Monotone(m - 1, n, most);
    Monotone(n - 1, m, most);
  }

  /** Before round t an iterable of length d has yielded the least m with m * most >= t * d - most / n. */
  ghost function Quota(t: nat, d: nat, most: nat, n: nat): nat
    requires most > 0 && n > 0
  {
    Least(t * d - most / n, most)
  }

  lemma YieldedIsQuota(most: nat, n: nat, t: nat, d: nat, m: nat, e: int)
    requires most > 0 && n > 0 && HasError(most, most / n, t, d, m, e) && InRange(e, most)
    ensures m == Quota(t, d, most, n)
  {
    assert (m - 1) * most == m * most - most;
    LeastIsUnique(t * d - most / n, most, m);
  }

  /** One more item is due in round t exactly if the reduced error is negative. */
  lemma DueExactly(most: nat, n: nat, t: nat, d: nat, m: nat, e: int)
    requires most > 0 && n > 0 && HasError(most, most / n, t + 1, d, m, e) && InRange(e + d, most)
    ensures m == Quota(t, d, most, n) && (e < 0 <==> Quota(t + 1, d, most, n) > m)
  {
    assert (t + 1) * d == t * d + d;
    YieldedIsQuota(most, n, t, d, m, e + d);
    var next: int := Quota(t + 1, d, most, n);
    Monotone(next, m, most);
    Monotone(next - 1, m, most);
  }

  // ---- the order of the iterables ----

  /** a goes before b: it is longer, or as long and has the smaller index. */
  predicate GoesBefore(lengths: seq<nat>, a: nat, b: nat) {
    a < |lengths| && b < |lengths| && (lengths[a] > lengths[b] || (lengths[a] == lengths[b] && a < b))
  }

  /** Insert an index behind those of lists at least as long. */
  function Inserted(perm: seq<nat>, s: nat, lengths: seq<nat>): seq<nat>
    requires s < |lengths| && forall x :: x in perm ==> x < |lengths|
  {
    if perm == [] then [s]
    else
      assert perm[0] in perm && forall x :: x in perm[1..] ==> x in perm;
      if lengths[s] > lengths[perm[0]] then [s] + perm else [perm[0]] + Inserted(perm[1..], s, lengths)
  }

  ghost predicate Sorted(perm: seq<nat>, lengths: seq<nat>) {
    forall i, j :: 0 <= i < j < |perm| ==> GoesBefore(lengths, perm[i], perm[j])
  }

  /** The first n indices, each once, by descending length; equal lengths by index. */
  ghost predicate Descending(perm: seq<nat>, n: nat, lengths: seq<nat>) {
    && |perm| == n <= |lengths|
    && (forall s :: s in perm <==> 0 <= s < n)
    && Sorted(perm, lengths)
  }

  lemma {:induction false} InsertedIsSorted(perm: seq<nat>, s: nat, lengths: seq<nat>)
    requires s < |lengths| && (forall x :: x in perm ==> x < s) && Sorted(perm, lengths)
    ensures var q := Inserted(perm, s, lengths);
      |q| == |perm| + 1 && (forall x :: x in q <==> x in perm || x == s) && Sorted(q, lengths)
  {
    assert perm != [] ==> perm[0] in perm;
    if perm == [] {
    } else if lengths[s] > lengths[perm[0]] {
      assert forall x :: x in perm ==> GoesBefore(lengths, s, x) by {
        forall i | 0 <= i < |perm| ensures GoesBefore(lengths, s, perm[i]) {
          assert i == 0 || GoesBefore(lengths, perm[0], perm[i]);
        }
      }
    } else {
      assert forall x :: x in perm <==> x == perm[0] || x in perm[1..];
      assert GoesBefore(lengths, perm[0], s);
      var rest := Inserted(perm[1..], s, lengths);
      InsertedIsSorted(perm[1..], s, lengths);
      assert perm == [perm[0]] + perm[1..];
      forall x | x in rest ensures GoesBefore(lengths, perm[0], x) {
        if x != s {
          var i :| 0 <= i < |perm[1..]| && perm[1..][i] == x;
          assert GoesBefore(lengths, perm[0], perm[i + 1]);
        }
      }
    }
  }

  /** sorted(range(dims), key=lengths, reverse=True) */
  method SortByLength(lengths: seq<nat>) returns (perm: seq<nat>)
    ensures Descending(perm, |lengths|, lengths)
  {
    perm := [];
    for s := 0 to |lengths|
      invariant Descending(perm, s, lengths)
    {
      InsertedIsSorted(perm, s, lengths);
      perm := Inserted(perm, s, lengths);
    }
  }

  // ---- what was taken ----

  /** An iterable and a position in it. */
  type Pick = (nat, nat)

  /** The positions taken from one iterable, in order. */
  ghost function PositionsOf(picks: seq<Pick>, s: nat): seq<nat> {
    if picks == [] then []
    else
      var last := picks[|picks| - 1];
      PositionsOf(picks[..|picks| - 1], s) + if last.0 == s then [last.1] else []
  }

  ghost function UpTo(n: nat): seq<nat> {
    if n == 0 then [] else UpTo(n - 1) + [n - 1]
  }

  lemma PickOne(picks: seq<Pick>, p: Pick, s: nat)
    ensures PositionsOf(picks + [p], s) == if p.0 == s then PositionsOf(picks, s) + [p.1] else PositionsOf(picks, s)
  {
    assert (picks + [p])[..|picks|] == picks;
  }

  lemma {:induction false} UpToLength(n: nat)
    ensures |UpTo(n)| == n
  {
    if n > 0 { UpToLength(n - 1); }
  }

  /** From every iterable the items were taken from the front, as many as its position says. */
  ghost predicate TakenInOrder(picks: seq<Pick>, pos: seq<nat>) {
    forall s :: 0 <= s < |pos| ==> PositionsOf(picks, s) == UpTo(pos[s])
  }

  /** What every iterable has yielded is within one item of its share of the rounds so far. */
  ghost predicate EvenBefore(picks: seq<Pick>, t: nat, lengths: seq<nat>, most: nat) {
    forall s :: 0 <= s < |lengths| ==> Near(|PositionsOf(picks, s)|, t, lengths[s], most)
  }

  /** So it is whenever the longest iterable yields. */
  ghost predicate Even(picks: seq<Pick>, longest: nat, lengths: seq<nat>, most: nat) {
    forall k :: 0 <= k < |picks| && picks[k].0 == longest ==> EvenBefore(picks[..k], picks[k].1, lengths, most)
  }

  lemma EvenGrows(picks: seq<Pick>, p: Pick, longest: nat, lengths: seq<nat>, most: nat)
    requires Even(picks, longest, lengths, most)
    requires p.0 == longest ==> EvenBefore(picks, p.1, lengths, most)
    ensures Even(picks + [p], longest, lengths, most)
  {
    var all := picks + [p];
    forall k | 0 <= k < |all| && all[k].0 == longest ensures EvenBefore(all[..k], all[k].1, lengths, most) {
      assert all[..k] == picks[..k];
      assert picks[..|picks|] == picks;
    }
  }

  ghost predicate Indices(others: seq<nat>, lengths: seq<nat>) {
    forall k :: 0 <= k < |others| ==> others[k] < |lengths|
  }

  /** One more item of the iterable is due in round t. */
  ghost predicate IsDue(lengths: seq<nat>, longest: nat, s: nat, t: nat)
    requires longest < |lengths| && s < |lengths| && lengths[longest] > 0
  {
    var most, n := lengths[longest], |lengths|;
    Quota(t + 1, lengths[s], most, n) > Quota(t, lengths[s], most, n)
  }

  /** The picks of round t: the longest iterable's, then one from each of the others that are due, in their order. */
  ghost function RoundOf(lengths: seq<nat>, longest: nat, others: seq<nat>, t: nat): seq<Pick>
    requires longest < |lengths| && lengths[longest] > 0 && Indices(others, lengths)
  {
    if others == [] then [(longest, t)]
    else
      var k := |others| - 1;
      var s := others[k];
      RoundOf(lengths, longest, others[..k], t) +
        if IsDue(lengths, longest, s, t) then [(s, Quota(t, lengths[s], lengths[longest], |lengths|))] else []
  }

  /** The picks of the first t rounds. */
  ghost function RoundsOf(lengths: seq<nat>, longest: nat, others: seq<nat>, t: nat): seq<Pick>
    requires longest < |lengths| && t <= lengths[longest] && Indices(others, lengths)
  {
    if t == 0 then []
    else RoundsOf(lengths, longest, others, t - 1) + RoundOf(lengths, longest, others, t - 1)
  }

  /** By descending length there is only one order, so the lengths alone determine the picks. */
  lemma {:induction false} OrderIsUnique(a: seq<nat>, b: seq<nat>, lengths: seq<nat>, k: nat)
    requires Descending(a, |lengths|, lengths) && Descending(b, |lengths|, lengths) && k <= |lengths|
    ensures a[..k] == b[..k]
  {
    if k > 0 {
      var i := k - 1;
      OrderIsUnique(a, b, lengths, i);
      NoLater(a, b, lengths, i);
      NoLater(b, a, lengths, i);
      assert !(GoesBefore(lengths, a[i], b[i]) && GoesBefore(lengths, b[i], a[i]));
      assert a[..k] == a[..i] + [a[i]] && b[..k] == b[..i] + [b[i]];
    }
  }

  lemma NotAmong(b: seq<nat>, lengths: seq<nat>, i: nat)
    requires Descending(b, |lengths|, lengths) && i < |lengths|
    ensures forall j :: 0 <= j < i ==> b[j] != b[i]
  {
    forall j | 0 <= j < i ensures b[j] != b[i] {
      assert GoesBefore(lengths, b[j], b[i]);
    }
  }

  lemma NoLater(a: seq<nat>, b: seq<nat>, lengths: seq<nat>, i: nat)
    requires Descending(a, |lengths|, lengths) && Descending(b, |lengths|, lengths) && i < |lengths| && a[..i] == b[..i]
    ensures a[i] == b[i] || GoesBefore(lengths, a[i], b[i])
  {
    assert b[i] in b && b[i] in a;
    NotAmong(b, lengths, i);
    forall k | 0 <= k < i ensures a[k] == b[k] {
      assert a[..i][k] == b[..i][k];
    }
    var j :| 0 <= j < |a| && a[j] == b[i];
  }

  // ---- what is left ----

  ghost function Left(lengths: seq<nat>, pos: seq<nat>): int
    requires |lengths| == |pos|
  {
    if lengths == [] then 0 else lengths[0] - pos[0] + Left(lengths[1..], pos[1..])
  }

  lemma {:induction false} LeftAfter(lengths: seq<nat>, pos: seq<nat>, s: nat)
    requires s < |lengths| == |pos|
    ensures Left(lengths, pos[s := pos[s] + 1]) == Left(lengths, pos) - 1
  {
    if s > 0 {
      assert pos[s := pos[s] + 1][1..] == pos[1..][s - 1 := pos[s] + 1];
      LeftAfter(lengths[1..], pos[1..], s - 1);
    } else {
      assert pos[0 := pos[0] + 1][1..] == pos[1..];
    }
  }

  lemma {:induction false} NothingLeft(lengths: seq<nat>, pos: seq<nat>)
    requires |lengths| == |pos| && forall s :: 0 <= s < |pos| ==> pos[s] <= lengths[s]
    ensures Left(lengths, pos) >= 0 && (Left(lengths, pos) == 0 <==> pos == lengths)
  {
    if lengths != [] {
      NothingLeft(lengths[1..], pos[1..]);
      assert lengths == [lengths[0]] + lengths[1..] && pos == [pos[0]] + pos[1..];
    }
  }

  // ---- interleave_evenly ----

  /** The iterables and lengths, the index of the longest, and the indices of the others. */
  datatype Setup<T> = Setup(iterables: seq<seq<T>>, lengths: seq<nat>, primary: nat, secondaries: seq<nat>) {
    ghost predicate Valid() {
      && |iterables| == |lengths| == |secondaries| + 1 && primary < |lengths|
      && (forall i :: 0 <= i < |secondaries| ==>
            secondaries[i] < |lengths| && secondaries[i] != primary && lengths[secondaries[i]] <= lengths[primary])
      && (forall i, j :: 0 <= i < j < |secondaries| ==> secondaries[i] != secondaries[j])
    }

    /** No iterable is left out. */
    ghost predicate Covers() {
      forall s :: 0 <= s < |lengths| && s != primary ==> s in secondaries
    }

    /** delta_primary */
    function Most(): nat
      requires Valid()
    {
      lengths[primary]
    }

    /** The first error of every secondary iterable. */
    function Share(): nat
      requires Valid()
    {
      Most() / |lengths|
    }
  }

  /** The sorted order makes a setup. */
  lemma SortedSetup<T>(iterables: seq<seq<T>>, lengths: seq<nat>, perm: seq<nat>)
    requires |iterables| == |lengths| > 0 && Descending(perm, |lengths|, lengths)
    ensures var u := Setup(iterables, lengths, perm[0], perm[1..]);
      u.Valid() && u.Covers()
  {
    assert perm[0] in perm;
    forall i | 0 <= i < |perm| - 1 ensures GoesBefore(lengths, perm[0], perm[1..][i]) {
      assert perm[1..][i] == perm[i + 1];
    }
    forall i, j | 0 <= i < j < |perm| - 1 ensures perm[1..][i] != perm[1..][j] {
      assert GoesBefore(lengths, perm[i + 1], perm[j + 1]);
    }
    forall s | 0 <= s < |lengths| && s != perm[0] ensures s in perm[1..] {
      assert s in perm && perm == [perm[0]] + perm[1..];
    }
  }

  /** How far the iterators are, what is yet to yield, what was yielded, and from where it came. */
  datatype Progress<T> = Progress(pos: seq<nat>, toYield: int, out: seq<T>, picks: seq<Pick>)

  ghost predicate CameFrom<T>(x: T, p: Pick, iterables: seq<seq<T>>) {
    p.0 < |iterables| && p.1 < |iterables[p.0]| && x == iterables[p.0][p.1]
  }

  ghost predicate AllCameFrom<T>(out: seq<T>, picks: seq<Pick>, iterables: seq<seq<T>>) {
    |out| == |picks| && forall k :: 0 <= k < |out| ==> CameFrom(out[k], picks[k], iterables)
  }

  lemma CameFromGrows<T>(out: seq<T>, picks: seq<Pick>, x: T, p: Pick, iterables: seq<seq<T>>)
    requires AllCameFrom(out, picks, iterables) && CameFrom(x, p, iterables)
    ensures AllCameFrom(out + [x], picks + [p], iterables)
  {
  }

  ghost predicate InBounds<T>(iterables: seq<seq<T>>, lengths: seq<nat>, pos: seq<nat>) {
    |iterables| == |lengths| == |pos| && forall s :: 0 <= s < |pos| ==> pos[s] <= lengths[s] && pos[s] <= |iterables[s]|
  }

  ghost predicate Consistent<T>(u: Setup<T>, p: Progress<T>) {
    && u.Valid() && |p.pos| == |u.lengths|
    && InBounds(u.iterables, u.lengths, p.pos) && p.toYield == Left(u.lengths, p.pos)
    && TakenInOrder(p.picks, p.pos) && Even(p.picks, u.primary, u.lengths, u.Most())
    && AllCameFrom(p.out, p.picks, u.iterables)
  }

  function Yielded<T>(u: Setup<T>, p: Progress<T>, s: nat): Progress<T>
    requires s < |u.iterables| == |p.pos| && p.pos[s] < |u.iterables[s]|
  {
    Progress(p.pos[s := p.pos[s] + 1], p.toYield - 1, p.out + [u.iterables[s][p.pos[s]]], p.picks + [(s, p.pos[s])])
  }

  lemma TakenGrows(picks: seq<Pick>, pos: seq<nat>, s: nat)
    requires TakenInOrder(picks, pos) && s < |pos|
    ensures TakenInOrder(picks + [(s, pos[s])], pos[s := pos[s] + 1])
  {
    var after := pos[s := pos[s] + 1];
    forall x | 0 <= x < |after| ensures PositionsOf(picks + [(s, pos[s])], x) == UpTo(after[x]) {
      PickOne(picks, (s, pos[s]), x);
      assert PositionsOf(picks, x) == UpTo(pos[x]);
    }
  }

  lemma BoundsGrow<T>(iterables: seq<seq<T>>, lengths: seq<nat>, pos: seq<nat>, s: nat)
    requires InBounds(iterables, lengths, pos) && s < |pos| && pos[s] < |iterables[s]| && pos[s] < lengths[s]
    ensures InBounds(iterables, lengths, pos[s := pos[s] + 1])
  {
  }

  /** The positions after one item, and what is left. */
  lemma PositionsKeep<T>(u: Setup<T>, p: Progress<T>, s: nat)
    requires u.Valid() && |p.pos| == |u.lengths| && InBounds(u.iterables, u.lengths, p.pos)
    requires p.toYield == Left(u.lengths, p.pos)
    requires s < |u.lengths| && p.pos[s] < |u.iterables[s]| && p.pos[s] < u.lengths[s]
    ensures var q := Yielded(u, p, s);
      InBounds(u.iterables, u.lengths, q.pos) && q.toYield == Left(u.lengths, q.pos)
  {
    var q := Yielded(u, p, s);
    assert InBounds(u.iterables, u.lengths, q.pos) by { BoundsGrow(u.iterables, u.lengths, p.pos, s); }
    assert q.toYield == Left(u.lengths, q.pos) by { LeftAfter(u.lengths, p.pos, s); }
  }

  /** Where the items came from after one more. */
  lemma PicksKeep<T>(u: Setup<T>, p: Progress<T>, s: nat)
    requires u.Valid() && |p.pos| == |u.lengths| == |u.iterables|
    requires TakenInOrder(p.picks, p.pos) && Even(p.picks, u.primary, u.lengths, u.Most())
    requires s < |u.lengths| && p.pos[s] < |u.iterables[s]|
    requires s == u.primary ==> EvenBefore(p.picks, p.pos[s], u.lengths, u.Most())
    ensures var q := Yielded(u, p, s);
      TakenInOrder(q.picks, q.pos) && Even(q.picks, u.primary, u.lengths, u.Most())
  {
    var q, pick := Yielded(u, p, s), (s, p.pos[s]);
    assert q.picks == p.picks + [pick] && q.pos == p.pos[s := p.pos[s] + 1];
    assert Even(q.picks, u.primary, u.lengths, u.Most()) by {
      EvenGrows(p.picks, pick, u.primary, u.lengths, u.Most());
    }
    assert TakenInOrder(q.picks, q.pos) by { TakenGrows(p.picks, p.pos, s); }
  }

  lemma YieldKeeps<T>(u: Setup<T>, p: Progress<T>, s: nat)
    requires Consistent(u, p) && s < |u.lengths| && p.pos[s] < |u.iterables[s]| && p.pos[s] < u.lengths[s]
    requires s == u.primary ==> EvenBefore(p.picks, p.pos[s], u.lengths, u.Most())
    ensures Consistent(u, Yielded(u, p, s))
  {
    PositionsKeep(u, p, s);
    PicksKeep(u, p, s);
    assert CameFrom(u.iterables[s][p.pos[s]], (s, p.pos[s]), u.iterables);
    CameFromGrows(p.out, p.picks, u.iterables[s][p.pos[s]], (s, p.pos[s]), u.iterables);
  }

  /** Some iterable is shorter than its length says. */
  predicate RunsDry<T>(iterables: seq<seq<T>>, lengths: seq<nat>)
    requires |iterables| == |lengths|
  {
    exists s :: 0 <= s < |lengths| && lengths[s] > |iterables[s]|
  }

  /** next(iterator): it raises if the iterator is exhausted. */
  method Next<T>(u: Setup<T>, p: Progress<T>, s: nat) returns (ok: bool, q: Progress<T>)
    requires Consistent(u, p) && s < |u.lengths| && p.pos[s] < u.lengths[s]
    requires s == u.primary ==> EvenBefore(p.picks, p.pos[s], u.lengths, u.Most())
    ensures Consistent(u, q) && (!ok ==> q == p && RunsDry(u.iterables, u.lengths))
    ensures ok ==> p.pos[s] < |u.iterables[s]| && q == Yielded(u, p, s) && q.pos == p.pos[s := p.pos[s] + 1]
  {
    ok := p.pos[s] < |u.iterables[s]|;
    q := p;
    if ok {
      YieldKeeps(u, p, s);
      q := Yielded(u, p, s);
    }
  }

  /** Before round t the errors are right and in range. */
  ghost predicate ErrorsAt<T>(u: Setup<T>, pos: seq<nat>, errors: seq<int>, t: nat)
    requires u.Valid() && |pos| == |u.lengths|
  {
    && |errors| == |u.secondaries|
    && forall i :: 0 <= i < |errors| ==> ErrorAt(u, pos, errors[i], i, t) && InRange(errors[i], u.Most())
  }

  ghost predicate ErrorAt<T>(u: Setup<T>, pos: seq<nat>, e: int, i: nat, t: nat)
    requires u.Valid() && |pos| == |u.lengths| && i < |u.secondaries|
  {
    HasError(u.Most(), u.Share(), t, u.lengths[u.secondaries[i]], pos[u.secondaries[i]], e)
  }

  /** During round t the errors before i are those of the next round, the others are not corrected yet. */
  ghost predicate ErrorsDuring<T>(u: Setup<T>, pos: seq<nat>, errors: seq<int>, t: nat, i: nat)
    requires u.Valid() && |pos| == |u.lengths|
  {
    && |errors| == |u.secondaries|
    && (forall j :: 0 <= j < |errors| ==> ErrorAt(u, pos, errors[j], j, t + 1))
    && (forall j :: 0 <= j < i && j < |errors| ==> InRange(errors[j], u.Most()))
    && (forall j :: i <= j < |errors| ==> InRange(errors[j] + u.lengths[u.secondaries[j]], u.Most()))
  }

  /** The first error is smaller than the longest length, if there is a second iterable and anything to yield. */
  lemma ShareIsSmall<T>(u: Setup<T>)
    requires u.Valid() && |u.secondaries| > 0 && u.Most() > 0
    ensures u.Share() < u.Most()
  {
  }

  /** With the errors right, every iterable has yielded its share; after the last round all is yielded. */
  lemma RoundsAreEven<T>(u: Setup<T>, p: Progress<T>, errors: seq<int>, t: nat)
    requires Consistent(u, p) && u.Covers() && ErrorsAt(u, p.pos, errors, t) && t == p.pos[u.primary]
    ensures EvenBefore(p.picks, t, u.lengths, u.Most())
    ensures t == u.Most() ==> p.pos == u.lengths && p.toYield == 0
    ensures t < u.Most() ==> p.toYield > 0
  {
    var most := u.Most();
    forall s | 0 <= s < |u.lengths|
      ensures Near(|PositionsOf(p.picks, s)|, t, u.lengths[s], most) && (t == most ==> p.pos[s] == u.lengths[s])
    {
      assert PositionsOf(p.picks, s) == UpTo(p.pos[s]);
      UpToLength(p.pos[s]);
      if s != u.primary {
        assert s in u.secondaries;
        var k :| 0 <= k < |u.secondaries| && u.secondaries[k] == s;
        SecondaryIsNear(u, p.pos, errors[k], k, t);
      }
    }
    NothingLeft(u.lengths, p.pos);
  }

  lemma SecondaryIsNear<T>(u: Setup<T>, pos: seq<nat>, e: int, k: nat, t: nat)
    requires u.Valid() && |pos| == |u.lengths| && k < |u.secondaries| && t <= u.Most()
    requires ErrorAt(u, pos, e, k, t) && InRange(e, u.Most()) && pos[u.secondaries[k]] <= u.lengths[u.secondaries[k]]
    ensures var s := u.secondaries[k];
      Near(pos[s], t, u.lengths[s], u.Most()) && (t == u.Most() ==> pos[s] == u.lengths[s])
  {
    var s, most := u.secondaries[k], u.Most();
    if most > 0 {
      ShareIsSmall(u);
      ErrorIsNear(most, u.Share(), t, u.lengths[s], pos[s], e);
      NeverTooMany(most, u.Share(), t, u.lengths[s], pos[s], e);
    }
  }

  /** Every secondary error less its length. */
  method Reduce<T>(u: Setup<T>, errors: seq<int>) returns (reduced: seq<int>)
    requires u.Valid() && |errors| == |u.secondaries|
    ensures |reduced| == |errors| && forall j :: 0 <= j < |errors| ==>
      reduced[j] == errors[j] - u.lengths[u.secondaries[j]]
  {
    reduced := [];
    for i := 0 to |errors|
      invariant |reduced| == i && forall j :: 0 <= j < i ==> reduced[j] == errors[j] - u.lengths[u.secondaries[j]]
    {
      reduced := reduced + [errors[i] - u.lengths[u.secondaries[i]]];
    }
  }

  /** The primary item is yielded and the errors are reduced. */
  lemma RoundBegins<T>(u: Setup<T>, pos: seq<nat>, errors: seq<int>, reduced: seq<int>, t: nat)
    requires u.Valid() && |pos| == |u.lengths| && ErrorsAt(u, pos, errors, t)
    requires |reduced| == |errors| && forall j :: 0 <= j < |errors| ==>
      reduced[j] == errors[j] - u.lengths[u.secondaries[j]]
    ensures ErrorsDuring(u, pos[u.primary := pos[u.primary] + 1], reduced, t, 0)
  {
    var after := pos[u.primary := pos[u.primary] + 1];
    forall j | 0 <= j < |errors| ensures ErrorAt(u, after, reduced[j], j, t + 1) {
      var s := u.secondaries[j];
      assert ErrorAt(u, pos, errors[j], j, t);
    }
    forall j | 0 <= j < |errors| ensures InRange(reduced[j] + u.lengths[u.secondaries[j]], u.Most()) {
      assert InRange(errors[j], u.Most());
    }
  }

  /** A negative one is corrected by yielding one item, and there is one. */
  lemma Due<T>(u: Setup<T>, pos: seq<nat>, errors: seq<int>, t: nat, i: nat)
    requires u.Valid() && |pos| == |u.lengths| && ErrorsDuring(u, pos, errors, t, i) && i < |errors| && errors[i] < 0
    requires t < u.Most()
    ensures var s := u.secondaries[i];
      pos[s] < u.lengths[s] && ErrorsDuring(u, pos[s := pos[s] + 1], errors[i := errors[i] + u.Most()], t, i + 1)
  {
    DueExists(u, pos, errors[i], t, i);
    CorrectedErrors(u, pos, errors, t + 1, i);
    CorrectedRange(u, errors, i, errors[i] + u.Most());
  }

  lemma DueExists<T>(u: Setup<T>, pos: seq<nat>, error: int, t: nat, i: nat)
    requires u.Valid() && |pos| == |u.lengths| && i < |u.secondaries| && error < 0 && t < u.Most()
    requires ErrorAt(u, pos, error, i, t + 1) && InRange(error + u.lengths[u.secondaries[i]], u.Most())
    ensures var s := u.secondaries[i];
      pos[s] < u.lengths[s] && InRange(error + u.Most(), u.Most())
  {
    var s, most := u.secondaries[i], u.Most();
    ShareIsSmall(u);
    NeverTooMany(most, u.Share(), t + 1, u.lengths[s], pos[s] + 1, error + most);
  }

  lemma CorrectedErrors<T>(u: Setup<T>, pos: seq<nat>, errors: seq<int>, t: nat, i: nat)
    requires u.Valid() && |pos| == |u.lengths| && |errors| == |u.secondaries| && i < |errors|
    requires forall j :: 0 <= j < |errors| ==> ErrorAt(u, pos, errors[j], j, t)
    ensures var s := u.secondaries[i];
      var after, corrected := pos[s := pos[s] + 1], errors[i := errors[i] + u.Most()];
      forall j :: 0 <= j < |errors| ==> ErrorAt(u, after, corrected[j], j, t)
  {
    var s := u.secondaries[i];
    var after, corrected := pos[s := pos[s] + 1], errors[i := errors[i] + u.Most()];
    forall j | 0 <= j < |errors| ensures ErrorAt(u, after, corrected[j], j, t) {
      assert ErrorAt(u, pos, errors[j], j, t);
      assert j != i ==> u.secondaries[j] != s;
    }
  }

  lemma CorrectedRange<T>(u: Setup<T>, errors: seq<int>, i: nat, e: int)
    requires u.Valid() && |errors| == |u.secondaries| && i < |errors| && InRange(e, u.Most())
    requires forall j :: 0 <= j < i ==> InRange(errors[j], u.Most())
    requires forall j :: i <= j < |errors| ==> InRange(errors[j] + u.lengths[u.secondaries[j]], u.Most())
    ensures var corrected := errors[i := e];
      && (forall j :: 0 <= j < i + 1 ==> InRange(corrected[j], u.Most()))
      && (forall j :: i + 1 <= j < |errors| ==> InRange(corrected[j] + u.lengths[u.secondaries[j]], u.Most()))
  {
  }

  /** One that is not negative is left as it is. */
  lemma NotDue<T>(u: Setup<T>, pos: seq<nat>, errors: seq<int>, t: nat, i: nat)
    requires u.Valid() && |pos| == |u.lengths| && ErrorsDuring(u, pos, errors, t, i) && i < |errors| && errors[i] >= 0
    ensures ErrorsDuring(u, pos, errors, t, i + 1)
  {
    assert InRange(errors[i] + u.lengths[u.secondaries[i]], u.Most());
  }

  /** After the last secondary the next round may begin. */
  lemma RoundEnds<T>(u: Setup<T>, pos: seq<nat>, errors: seq<int>, t: nat)
    requires u.Valid() && |pos| == |u.lengths| && ErrorsDuring(u, pos, errors, t, |errors|)
    ensures ErrorsAt(u, pos, errors, t + 1)
  {
  }

  lemma FirstErrorInRange<T>(u: Setup<T>, i: nat)
    requires u.Valid() && i < |u.secondaries|
    ensures InRange(u.Share(), u.Most())
  {
    if u.Most() > 0 {
      ShareIsSmall(u);
    }
  }

  lemma AllUsed<T>(u: Setup<T>, p: Progress<T>)
    requires Consistent(u, p) && u.Covers() && p.toYield == 0
    ensures p.pos == u.lengths && TakenInOrder(p.picks, u.lengths) && !RunsDry(u.iterables, u.lengths)
    ensures forall s :: 0 <= s < |u.lengths| ==> u.lengths[s] <= u.Most()
  {
    NothingLeft(u.lengths, p.pos);
    forall s | 0 <= s < |u.lengths| ensures u.lengths[s] <= u.Most() {
      assert s == u.primary || s in u.secondaries;
    }
  }

  /** The picks of round t from the longest iterable and the first i others, behind those of the earlier rounds. */
  ghost function PickedDuring<T>(u: Setup<T>, t: nat, i: nat): seq<Pick>
    requires u.Valid() && i <= |u.secondaries| && t < u.Most()
  {
    RoundsOf(u.lengths, u.primary, u.secondaries, t) + RoundOf(u.lengths, u.primary, u.secondaries[..i], t)
  }

  /** One more secondary: its item is picked exactly if its error is negative. */
  lemma OneMoreSecondary<T>(u: Setup<T>, pos: seq<nat>, errors: seq<int>, t: nat, i: nat)
    requires u.Valid() && |pos| == |u.lengths| && ErrorsDuring(u, pos, errors, t, i) && i < |errors| && t < u.Most()
    ensures var s := u.secondaries[i];
      PickedDuring(u, t, i + 1) == PickedDuring(u, t, i) + if errors[i] < 0 then [(s, pos[s])] else []
  {
    var s := u.secondaries[i];
    assert u.secondaries[..i + 1][..i] == u.secondaries[..i];
    assert ErrorAt(u, pos, errors[i], i, t + 1);
    DueExactly(u.Most(), |u.lengths|, t, u.lengths[s], pos[s], errors[i]);
    Associate(RoundsOf(u.lengths, u.primary, u.secondaries, t),
              RoundOf(u.lengths, u.primary, u.secondaries[..i], t), if errors[i] < 0 then [(s, pos[s])] else []);
  }

  /** The diagonal step of one secondary iterable, if it is due. */
  method Diagonal<T>(u: Setup<T>, p: Progress<T>, errors: seq<int>, t: nat, i: nat)
    returns (ok: bool, q: Progress<T>, corrected: seq<int>)
    requires Consistent(u, p) && i < |errors| && ErrorsDuring(u, p.pos, errors, t, i) && t < u.Most()
    requires p.picks == PickedDuring(u, t, i)
    ensures Consistent(u, q) && q.pos[u.primary] == p.pos[u.primary]
    ensures |corrected| == |errors| && (ok ==> ErrorsDuring(u, q.pos, corrected, t, i + 1))
    ensures ok ==> q.picks == PickedDuring(u, t, i + 1)
    ensures !ok ==> RunsDry(u.iterables, u.lengths)
  {
    ok, q, corrected := true, p, errors;
    OneMoreSecondary(u, p.pos, errors, t, i);
    if errors[i] < 0 {
      ok, q, corrected := YieldDue(u, p, errors, t, i);
    } else {
      NotDue(u, p.pos, errors, t, i);
    }
  }

  method YieldDue<T>(u: Setup<T>, p: Progress<T>, errors: seq<int>, t: nat, i: nat)
    returns (ok: bool, q: Progress<T>, corrected: seq<int>)
    requires Consistent(u, p) && i < |errors| && ErrorsDuring(u, p.pos, errors, t, i) && t < u.Most() && errors[i] < 0
    ensures Consistent(u, q) && q.pos[u.primary] == p.pos[u.primary]
    ensures |corrected| == |errors| && (ok ==> ErrorsDuring(u, q.pos, corrected, t, i + 1))
    ensures ok ==> q.picks == p.picks + [(u.secondaries[i], p.pos[u.secondaries[i]])]
    ensures !ok ==> RunsDry(u.iterables, u.lengths)
  {
    var s := u.secondaries[i];
    ghost var after := p.pos[s := p.pos[s] + 1];
    Due(u, p.pos, errors, t, i);
    corrected := errors[i := errors[i] + u.Most()];
    ok, q := Next(u, p, s);
    assert ok ==> q.pos == after;
  }

  /** One round: the longest iterable yields, then every other that is due. */
  method Round<T>(u: Setup<T>, p: Progress<T>, errors: seq<int>, t: nat)
    returns (ok: bool, q: Progress<T>, corrected: seq<int>)
    requires Consistent(u, p) && u.Covers() && ErrorsAt(u, p.pos, errors, t) && p.pos[u.primary] == t < u.Most()
    requires p.picks == RoundsOf(u.lengths, u.primary, u.secondaries, t)
    ensures Consistent(u, q)
    ensures ok ==> q.pos[u.primary] == t + 1 && ErrorsAt(u, q.pos, corrected, t + 1)
    ensures ok ==> q.picks == RoundsOf(u.lengths, u.primary, u.secondaries, t + 1)
    ensures !ok ==> RunsDry(u.iterables, u.lengths)
  {
    RoundsAreEven(u, p, errors, t);
    ok, q := Next(u, p, u.primary);
    corrected := errors;
    if ok {
      corrected := Reduce(u, errors);
      RoundBegins(u, p.pos, errors, corrected, t);
      assert u.secondaries[..0] == [];
      ok, q, corrected := Secondaries(u, q, corrected, t);
    }
  }

  /** The diagonal steps of one round. */
  method Secondaries<T>(u: Setup<T>, p: Progress<T>, errors: seq<int>, t: nat)
    returns (ok: bool, q: Progress<T>, corrected: seq<int>)
    requires Consistent(u, p) && ErrorsDuring(u, p.pos, errors, t, 0) && t < u.Most()
    requires p.picks == PickedDuring(u, t, 0)
    ensures Consistent(u, q) && q.pos[u.primary] == p.pos[u.primary]
    ensures ok ==> ErrorsAt(u, q.pos, corrected, t + 1)
    ensures ok ==> q.picks == RoundsOf(u.lengths, u.primary, u.secondaries, t + 1)
    ensures !ok ==> RunsDry(u.iterables, u.lengths)
  {
    ok, q, corrected := true, p, errors;
    for i := 0 to |errors|
      invariant |corrected| == |errors| && Consistent(u, q) && q.pos[u.primary] == p.pos[u.primary]
      invariant ErrorsDuring(u, q.pos, corrected, t, i) && q.picks == PickedDuring(u, t, i)
    {
      ok, q, corrected := Diagonal(u, q, corrected, t, i);
      if !ok {
        return;
      }
    }
    RoundEnds(u, q.pos, corrected, t);
    assert u.secondaries[..|errors|] == u.secondaries;
  }

  function Sum(lengths: seq<nat>): nat {
    if lengths == [] then 0 else lengths[0] + Sum(lengths[1..])
  }

  /** [x] * n */
  function Repeated<T>(x: T, n: nat): (r: seq<T>)
    ensures |r| == n && forall i :: 0 <= i < n ==> r[i] == x
  {
    if n == 0 then [] else [x] + Repeated(x, n - 1)
  }

  lemma {:induction false} AllLeft(lengths: seq<nat>)
    ensures Left(lengths, Repeated(0, |lengths|)) == Sum(lengths)
  {
    if lengths != [] {
      AllLeft(lengths[1..]);
      assert Repeated(0, |lengths|)[1..] == Repeated(0, |lengths| - 1);
    }
  }

  /** No item yielded yet, and every error the share. */
  method Begin<T>(u: Setup<T>) returns (p: Progress<T>, errors: seq<int>)
    requires u.Valid()
    ensures Consistent(u, p) && ErrorsAt(u, p.pos, errors, 0) && p.pos[u.primary] == 0 && p.picks == []
  {
    AllLeft(u.lengths);
    p := Progress(Repeated(0, |u.lengths|), Sum(u.lengths), [], []);
    errors := Repeated(u.Share(), |u.secondaries|);
    forall i | 0 <= i < |errors| ensures ErrorAt(u, p.pos, errors[i], i, 0) && InRange(errors[i], u.Most()) {
      FirstErrorInRange(u, i);
    }
  }

  /** [len(it) for it in iterables] */
  function Lengths<T>(iterables: seq<seq<T>>): (lengths: seq<nat>)
    ensures |lengths| == |iterables| && forall s :: 0 <= s < |lengths| ==> lengths[s] == |iterables[s]|
  {
    if iterables == [] then [] else [|iterables[0]|] + Lengths(iterables[1..])
  }

  /** interleave_evenly. It fails exactly if there is no iterable, the numbers of iterables and lengths differ, or some
      iterable is shorter than its length says. Otherwise the output is this one: in every round the longest iterable
      yields, then by descending length every other of which one more item is due. So every iterable's items come in
      order and all are used up; and whenever the longest yields its item t, every other has yielded within one item of
      its share of t. */
  method InterleaveEvenly<T>(iterables: seq<seq<T>>, given: Option<seq<nat>>)
    returns (result: Result<seq<T>>, ghost picks: seq<Pick>, ghost order: seq<nat>)
    ensures given.None? ==> (if iterables == [] then result == Failure("IndexError") else result.Success?)
    ensures given.Some? ==>
      && (result == Failure("ValueError") <==> |iterables| != |given.value|)
      && (result == Failure("IndexError") <==> iterables == [] && given.value == [])
      && (result == Failure("RuntimeError") <==> |iterables| == |given.value| && RunsDry(iterables, given.value))
      && (result.Success? <==> |iterables| == |given.value| > 0 && !RunsDry(iterables, given.value))
    ensures result.Success? ==>
      var lengths := if given.None? then Lengths(iterables) else given.value;
      && AllCameFrom(result.value, picks, iterables)
      && lengths != [] && Descending(order, |lengths|, lengths) && Indices(order, lengths)
      && picks == RoundsOf(lengths, order[0], order[1..], lengths[order[0]])
      && TakenInOrder(picks, lengths) && Even(picks, order[0], lengths, lengths[order[0]])
  {
    picks, order := [], [];
    var lengths := if given.None? then Lengths(iterables) else given.value;
    if |iterables| != |lengths| {
      return Failure("ValueError"), picks, order;
    }
    var perm := SortByLength(lengths);
    if perm == [] {
      return Failure("IndexError"), picks, order;
    }
    SortedSetup(iterables, lengths, perm);
    var u := Setup(iterables, lengths, perm[0], perm[1..]);
    var ok, p := Rounds(u);
    if !ok {
      return Failure("RuntimeError"), picks, order;
    }
    AllUsed(u, p);
    assert forall k :: 0 <= k < |perm| ==> perm[k] in perm;
    return Success(p.out), p.picks, perm;
  }

  /** Rounds until everything is yielded. */
  method Rounds<T>(u: Setup<T>) returns (ok: bool, p: Progress<T>)
    requires u.Valid() && u.Covers()
    ensures Consistent(u, p) && (if ok then p.toYield == 0 else RunsDry(u.iterables, u.lengths))
    ensures ok ==> p.picks == RoundsOf(u.lengths, u.primary, u.secondaries, u.Most())
  {
    var errors;
    p, errors := Begin(u);
    ok := true;
    var t := 0;
    while p.toYield > 0
      invariant Consistent(u, p) && ErrorsAt(u, p.pos, errors, t) && t == p.pos[u.primary]
      invariant p.picks == RoundsOf(u.lengths, u.primary, u.secondaries, t)
      decreases u.Most() - t
    {
      RoundsAreEven(u, p, errors, t);
      ok, p, errors := Round(u, p, errors, t);
      if !ok {
        return;
      }
      t := t + 1;
    }
    RoundsAreEven(u, p, errors, t);
  }
}
