/** gray_product (more_itertools/more.py): Knuth's loopless reflected mixed-radix Gray generator. */
module GrayProduct {

  import opened Division
  import opened Results

  /** The radices of a product: every iterable has at least two items. */
  ghost predicate Radices(ns: seq<nat>) {
    forall j :: 0 <= j < |ns| ==> ns[j] >= 2
  }

  /** Number of tuples over the first j coordinates. */
  ghost function Volume(ns: seq<nat>, j: nat): nat
    requires j <= |ns|
  {
    if j == 0 then 1 else Volume(ns, j - 1) * ns[j - 1]
  }

  /** How often coordinate j has moved by step t: t divided by the radices below j. */
  ghost function Moves(t: nat, ns: seq<nat>, j: nat): nat
    requires Radices(ns) && j <= |ns|
  {
    if j == 0 then t else Quot(Moves(t, ns, j - 1), ns[j - 1])
  }

  /** Position of a coordinate that has moved m times up and down 0..n-1, turning at the ends. */
  ghost function Sweep(m: nat, n: nat): (p: nat)
    requires n >= 2
    ensures p < n
  {
    if Quot(m, n) % 2 == 0 then Rem(m, n) else n - 1 - Rem(m, n)
  }

  /** The direction (+1 or -1) of move m + 1 in such a sweep. */
  ghost function Heading(m: nat, n: nat): int
    requires n >= 2
  {
    if Quot(m + 1, n) % 2 == 0 then 1 else -1
  }

  /** Where coordinate j stands at step t. */
  ghost function Position(t: nat, ns: seq<nat>, j: nat): nat
    requires Radices(ns) && j < |ns|
  {
    Sweep(Moves(t, ns, j), ns[j])
  }

  /** The t-th tuple (of positions) of the reflected mixed-radix Gray code. */
  ghost function GrayTuple(t: nat, ns: seq<nat>): seq<nat>
    requires Radices(ns)
  {
    seq(|ns|, j requires 0 <= j < |ns| => Position(t, ns, j))
  }

  /** A tuple of positions that belongs to the product. */
  ghost predicate InProduct(a: seq<nat>, ns: seq<nat>) {
    |a| == |ns| && forall j :: 0 <= j < |ns| ==> a[j] < ns[j]
  }

  /** Coordinate j is passive when it stands at the end of its current sweep. */
  ghost predicate Passive(t: nat, ns: seq<nat>, j: nat)
    requires Radices(ns) && j < |ns|
  {
    Rem(Moves(t, ns, j), ns[j]) == ns[j] - 1
  }

  /** First coordinate at or after j that is not passive, |ns| if there is none. */
  ghost function FirstActive(t: nat, ns: seq<nat>, j: nat): (k: nat)
    requires Radices(ns) && j <= |ns|
    ensures j <= k <= |ns|
    ensures k < |ns| ==> !Passive(t, ns, k)
    ensures forall i :: j <= i < k ==> Passive(t, ns, i)
    decreases |ns| - j
  {
    if j == |ns| || !Passive(t, ns, j) then j else FirstActive(t, ns, j + 1)
  }

  /** What the focus pointer f[j] holds at step t: the leftmost coordinate of a passive run points
      past the run, every other coordinate points at itself. */
  ghost function Focus(t: nat, ns: seq<nat>, j: nat): nat
    requires Radices(ns) && j <= |ns|
  {
    if j == 0 || !Passive(t, ns, j - 1) then FirstActive(t, ns, j) else j
  }

  /** What the direction o[j] holds at step t: the direction of the next move. */
  ghost function Direction(t: nat, ns: seq<nat>, j: nat): int
    requires Radices(ns) && j < |ns|
  {
    Heading(Moves(t, ns, j), ns[j])
  }

  // ---- one coordinate ----

  /** A sweeping coordinate that is not at its end moves one position in its heading, and turns
      exactly when that takes it to either end; one at its end stays there to start the way back. */
  lemma SweepStep(m: nat, n: nat)
    requires n >= 2
    ensures Rem(m, n) == n - 1 ==> Sweep(m + 1, n) == Sweep(m, n) && Heading(m + 1, n) == Heading(m, n)
    ensures Rem(m, n) != n - 1 ==>
      var p := Sweep(m, n) + Heading(m, n);
      && Sweep(m + 1, n) == p
      && (Rem(m + 1, n) == n - 1 <==> p == 0 || p == n - 1)
      && Heading(m + 1, n) == if p == 0 || p == n - 1 then -Heading(m, n) else Heading(m, n)
  {
    DivStep(m, n);
    DivStep(m + 1, n);
    var q := Quot(m, n);
    assert (q + 1) % 2 == if q % 2 == 0 then 1 else 0;
  }

  // ---- one step ----

  /** From step t to t+1 the coordinates before the first active one carry, it moves, the rest stay. */
  lemma {:induction false} StepMoves(t: nat, ns: seq<nat>, k: nat)
    requires Radices(ns) && k <= |ns|
    ensures var j := FirstActive(t, ns, 0);
      Moves(t + 1, ns, k) == if k <= j then Moves(t, ns, k) + 1 else Moves(t, ns, k)
  {
    if k > 0 {
      StepMoves(t, ns, k - 1);
      assert k - 1 < FirstActive(t, ns, 0) ==> Passive(t, ns, k - 1);
      DivStep(Moves(t, ns, k - 1), ns[k - 1]);
    }
  }

  /** Which coordinates are passive after one step. */
  lemma StepPassive(t: nat, ns: seq<nat>, k: nat)
    requires Radices(ns) && k < |ns|
    ensures var j := FirstActive(t, ns, 0);
      && (k < j ==> !Passive(t + 1, ns, k))
      && (k == j ==> (Passive(t + 1, ns, k) <==> Rem(Moves(t, ns, k), ns[k]) + 1 == ns[k] - 1))
      && (k > j ==> (Passive(t + 1, ns, k) <==> Passive(t, ns, k)))
  {
    StepMoves(t, ns, k);
    assert k < FirstActive(t, ns, 0) ==> Passive(t, ns, k);
    DivStep(Moves(t, ns, k), ns[k]);
  }

  lemma {:induction false} FirstActiveStable(t: nat, ns: seq<nat>, k: nat)
    requires Radices(ns) && FirstActive(t, ns, 0) < k <= |ns|
    ensures FirstActive(t + 1, ns, k) == FirstActive(t, ns, k)
    decreases |ns| - k
  {
    if k < |ns| {
      StepPassive(t, ns, k);
      FirstActiveStable(t, ns, k + 1);
    }
  }

  /** One pass of the loop body moves only the focused coordinate, one position in its direction,
      and turns exactly when it reaches either end. */
  lemma StepCoordinate(t: nat, ns: seq<nat>, k: nat)
    requires Radices(ns) && k < |ns|
    ensures var j, p := FirstActive(t, ns, 0), Position(t + 1, ns, k);
      && (k != j ==> p == Position(t, ns, k) && Direction(t + 1, ns, k) == Direction(t, ns, k))
      && (k == j ==>
        && p == Position(t, ns, k) + Direction(t, ns, k)
        && (Passive(t + 1, ns, k) <==> p == 0 || p == ns[k] - 1)
        && Direction(t + 1, ns, k) == if Passive(t + 1, ns, k) then -Direction(t, ns, k) else Direction(t, ns, k))
  {
    StepMoves(t, ns, k);
    assert k < FirstActive(t, ns, 0) ==> Passive(t, ns, k);
    SweepStep(Moves(t, ns, k), ns[k]);
  }

  /** How the focus pointers change in one step. */
  lemma StepFocus(t: nat, ns: seq<nat>, k: nat)
    requires Radices(ns) && k <= |ns| && FirstActive(t, ns, 0) < |ns|
    ensures var j := FirstActive(t, ns, 0);
      Focus(t + 1, ns, k) ==
        if k == j && Passive(t + 1, ns, j) then Focus(t, ns, j + 1)
        else if k == j + 1 && Passive(t + 1, ns, j) then j + 1
        else if k == 0 then 0
        else Focus(t, ns, k)
  {
    var j := FirstActive(t, ns, 0);
    FirstActiveStable(t, ns, j + 1);
    if k < |ns| { StepPassive(t, ns, k); }
    if k > 0 { StepPassive(t, ns, k - 1); }
    if k > j { FirstActiveStable(t, ns, k); }
  }

  /** The three arrays hold what step t says. */
  ghost predicate AtStep(a: seq<int>, o: seq<int>, f: seq<int>, t: nat, ns: seq<nat>)
    requires Radices(ns)
  {
    && |a| == |o| == |ns| && |f| == |ns| + 1
    && (forall k {:trigger Position(t, ns, k)} :: 0 <= k < |ns| ==> a[k] == Position(t, ns, k))
    && (forall k {:trigger Direction(t, ns, k)} :: 0 <= k < |ns| ==> o[k] == Direction(t, ns, k))
    && (forall k {:trigger Focus(t, ns, k)} :: 0 <= k <= |ns| ==> f[k] == Focus(t, ns, k))
  }

  /** One pass of the loop body takes the arrays from step t to step t + 1. */
  lemma StepArrays(a: seq<int>, o: seq<int>, f: seq<int>, a': seq<int>, o': seq<int>, f': seq<int>, t: nat,
                   ns: seq<nat>)
    requires Radices(ns) && AtStep(a, o, f, t, ns) && f[0] == FirstActive(t, ns, 0) < |ns|
    requires a' == a[f[0] := a[f[0]] + o[f[0]]]
    requires var j, turn := f[0], a'[f[0]] == 0 || a'[f[0]] == ns[f[0]] - 1;
      && o' == (if turn then o[j := -o[j]] else o)
      && f' == if turn then f[0 := 0][j := f[0 := 0][j + 1]][j + 1 := j + 1] else f[0 := 0]
    ensures AtStep(a', o', f', t + 1, ns)
  {
    var j := FirstActive(t, ns, 0);
    StepCoordinate(t, ns, j);
    forall k | 0 <= k < |ns| ensures a'[k] == Position(t + 1, ns, k) { StepCoordinate(t, ns, k); }
    forall k | 0 <= k < |ns| ensures o'[k] == Direction(t + 1, ns, k) { StepCoordinate(t, ns, k); }
    forall k | 0 <= k <= |ns| ensures f'[k] == Focus(t + 1, ns, k) { StepFocus(t, ns, k); }
  }

  // ---- counting ----

  lemma Rotate(q: nat, v: nat, n: nat)
    ensures q * (v * n) == (q * n) * v
  {
  }

  lemma TimesMonotone(a: nat, b: nat, v: nat)
    requires a <= b
    ensures a * v <= b * v
  {
  }

  lemma CarryBounds(t: nat, m: nat, v: nat, q: nat, n: nat, r: nat)
    requires m == q * n + r && r < n && m * v <= t < (m + 1) * v
    ensures q * (v * n) <= t < (q + 1) * (v * n)
  {
    Rotate(q, v, n);
    Rotate(q + 1, v, n);
    assert (q + 1) * n == q * n + n;
    TimesMonotone(q * n, m, v);
    TimesMonotone(m + 1, (q + 1) * n, v);
  }

  lemma {:induction false} MovesBounds(t: nat, ns: seq<nat>, j: nat)
    requires Radices(ns) && j <= |ns|
    ensures Moves(t, ns, j) * Volume(ns, j) <= t < (Moves(t, ns, j) + 1) * Volume(ns, j)
  {
    if j > 0 {
      MovesBounds(t, ns, j - 1);
      var m, n := Moves(t, ns, j - 1), ns[j - 1];
      DivisionFacts(m, n);
      CarryBounds(t, m, Volume(ns, j - 1), Quot(m, n), n, Rem(m, n));
    }
  }

  lemma {:induction false} VolumePositive(ns: seq<nat>, j: nat)
    requires Radices(ns) && j <= |ns|
    ensures Volume(ns, j) >= 1
  {
    if j > 0 { VolumePositive(ns, j - 1); }
  }

  /** Step t is before the end exactly when the carry out of the last coordinate is zero. */
  lemma InRange(t: nat, ns: seq<nat>)
    requires Radices(ns)
    ensures t < Volume(ns, |ns|) <==> Moves(t, ns, |ns|) == 0
  {
    MovesBounds(t, ns, |ns|);
    VolumePositive(ns, |ns|);
    var m, v := Moves(t, ns, |ns|), Volume(ns, |ns|);
    if m > 0 { assert m * v >= 1 * v; }
  }

  /** The generator stops (all coordinates passive) at the last tuple and only there. */
  lemma StopsAtLast(t: nat, ns: seq<nat>)
    requires Radices(ns) && t < Volume(ns, |ns|)
    ensures FirstActive(t, ns, 0) == |ns| <==> t + 1 == Volume(ns, |ns|)
  {
    InRange(t, ns);
    InRange(t + 1, ns);
    StepMoves(t, ns, |ns|);
  }

  // ---- the inverse: which step yields a given tuple ----

  /** The number of moves coordinate j must have made for the generator to stand at a, from the
      coordinates at and above j. */
  ghost function MovesOf(a: seq<nat>, ns: seq<nat>, j: nat): nat
    requires Radices(ns) && InProduct(a, ns) && j <= |ns|
    decreases |ns| - j
  {
    if j == |ns| then 0 else
      var above := MovesOf(a, ns, j + 1);
      above * ns[j] + (if above % 2 == 0 then a[j] else ns[j] - 1 - a[j])
  }

  /** The step at which tuple a is yielded. */
  ghost function GrayRank(a: seq<nat>, ns: seq<nat>): nat
    requires Radices(ns) && InProduct(a, ns)
  {
    MovesOf(a, ns, 0)
  }

  lemma RankDigit(a: seq<nat>, ns: seq<nat>, j: nat)
    requires Radices(ns) && InProduct(a, ns) && j < |ns|
    ensures Quot(MovesOf(a, ns, j), ns[j]) == MovesOf(a, ns, j + 1)
    ensures Sweep(MovesOf(a, ns, j), ns[j]) == a[j]
  {
    var above := MovesOf(a, ns, j + 1);
    DivUnique(above, ns[j], if above % 2 == 0 then a[j] else ns[j] - 1 - a[j]);
  }

  lemma {:induction false} MovesOfRank(a: seq<nat>, ns: seq<nat>, j: nat)
    requires Radices(ns) && InProduct(a, ns) && j <= |ns|
    ensures Moves(GrayRank(a, ns), ns, j) == MovesOf(a, ns, j)
  {
    if j > 0 {
      MovesOfRank(a, ns, j - 1);
      RankDigit(a, ns, j - 1);
    }
  }

  lemma {:induction false} MovesOfTuple(t: nat, ns: seq<nat>, j: nat)
    requires Radices(ns) && t < Volume(ns, |ns|) && j <= |ns|
    ensures MovesOf(GrayTuple(t, ns), ns, j) == Moves(t, ns, j)
    decreases |ns| - j
  {
    if j == |ns| {
      InRange(t, ns);
    } else {
      MovesOfTuple(t, ns, j + 1);
      DivisionFacts(Moves(t, ns, j), ns[j]);
    }
  }

  /** Every tuple of the product is yielded, at its rank. */
  lemma EveryTupleIsVisited(a: seq<nat>, ns: seq<nat>)
    requires Radices(ns) && InProduct(a, ns)
    ensures GrayRank(a, ns) < Volume(ns, |ns|)
    ensures GrayTuple(GrayRank(a, ns), ns) == a
  {
    var t := GrayRank(a, ns);
    MovesOfRank(a, ns, |ns|);
    InRange(t, ns);
    forall j | 0 <= j < |ns| ensures GrayTuple(t, ns)[j] == a[j] {
      MovesOfRank(a, ns, j);
      RankDigit(a, ns, j);
    }
  }

  /** No tuple is yielded twice: the step is recovered from the tuple. */
  lemma NoTupleIsRepeated(t: nat, ns: seq<nat>)
    requires Radices(ns) && t < Volume(ns, |ns|)
    ensures InProduct(GrayTuple(t, ns), ns)
    ensures GrayRank(GrayTuple(t, ns), ns) == t
  {
    MovesOfTuple(t, ns, 0);
  }

  /** b is a with coordinate j moved one position up or down. */
  ghost predicate MovesOnlyBy1(a: seq<nat>, b: seq<nat>, j: nat) {
    && |a| == |b| && j < |a|
    && (b[j] == a[j] + 1 || a[j] == b[j] + 1)
    && forall k :: 0 <= k < |a| && k != j ==> b[k] == a[k]
  }

  /** Consecutive tuples differ in exactly one coordinate, by one position. */
  lemma ConsecutiveTuplesDifferOnce(t: nat, ns: seq<nat>)
    requires Radices(ns) && t + 1 < Volume(ns, |ns|)
    ensures var a, b := GrayTuple(t, ns), GrayTuple(t + 1, ns); exists j: nat :: MovesOnlyBy1(a, b, j)
  {
    StopsAtLast(t, ns);
    var j := FirstActive(t, ns, 0);
    forall k | 0 <= k < |ns| ensures k != j ==> Position(t + 1, ns, k) == Position(t, ns, k) {
      StepCoordinate(t, ns, k);
    }
    StepCoordinate(t, ns, j);
    assert MovesOnlyBy1(GrayTuple(t, ns), GrayTuple(t + 1, ns), j);
  }

  // ---- the generator ----

  /** The radices of a product are the lengths of its iterables. */
  ghost predicate Sizes<T>(ns: seq<nat>, iterables: seq<seq<T>>) {
    |ns| == |iterables| && forall j :: 0 <= j < |ns| ==> ns[j] == |iterables[j]|
  }

  ghost function Lengths<T>(iterables: seq<seq<T>>): (ns: seq<nat>)
    ensures Sizes(ns, iterables)
  {
    if iterables == [] then [] else [|iterables[0]|] + Lengths(iterables[1..])
  }

  /** out is what the generator yields in its first |out| steps: at step t, the items at the t-th tuple. */
  ghost predicate FirstYields<T>(out: seq<seq<T>>, iterables: seq<seq<T>>, ns: seq<nat>)
    requires Radices(ns) && Sizes(ns, iterables)
  {
    forall t {:trigger out[t]} :: 0 <= t < |out| ==> ItemsAt(out[t], iterables, GrayTuple(t, ns))
  }

  lemma YieldsMore<T>(out: seq<seq<T>>, items: seq<T>, iterables: seq<seq<T>>, ns: seq<nat>)
    requires Radices(ns) && Sizes(ns, iterables)
    requires FirstYields(out, iterables, ns) && ItemsAt(items, iterables, GrayTuple(|out|, ns))
    ensures FirstYields(out + [items], iterables, ns)
  {
  }

  /** items holds, for every coordinate j, the a[j]-th item of iterable j. */
  ghost predicate ItemsAt<T>(items: seq<T>, iterables: seq<seq<T>>, a: seq<int>) {
    && |items| == |iterables| == |a|
    && forall j :: 0 <= j < |a| ==> 0 <= a[j] < |iterables[j]| && items[j] == iterables[j][a[j]]
  }

  method Select<T>(iterables: seq<seq<T>>, a: array<int>) returns (items: seq<T>)
    requires a.Length == |iterables| && forall j :: 0 <= j < a.Length ==> 0 <= a[j] < |iterables[j]|
    ensures ItemsAt(items, iterables, a[..])
  {
    items := [];
    for i := 0 to |iterables|
      invariant |items| == i && forall j :: 0 <= j < i ==> items[j] == iterables[j][a[j]]
    {
      items := items + [iterables[i][a[i]]];
    }
  }

  /** The part of the loop body after the yield: stop at the last tuple, otherwise move on. */
  method Advance<T>(iterables: seq<seq<T>>, a: array<int>, o: array<int>, f: array<int>, ghost t: nat,
                    ghost ns: seq<nat>)
    returns (done: bool)
    requires Radices(ns) && Sizes(ns, iterables) && t < Volume(ns, |ns|)
    requires a != o && a != f && o != f && AtStep(a[..], o[..], f[..], t, ns)
    modifies a, o, f
    ensures done <==> t + 1 == Volume(ns, |ns|)
    ensures !done ==> AtStep(a[..], o[..], f[..], t + 1, ns)
  {
    ghost var a0, o0, f0 := a[..], o[..], f[..];
    StopsAtLast(t, ns);
    assert f0[0] == Focus(t, ns, 0) == FirstActive(t, ns, 0);
    var j := f[0];
    f[0] := 0;
    if j == |iterables| {
      return true;
    }
    a[j] := a[j] + o[j];
    if a[j] == 0 || a[j] == |iterables[j]| - 1 {
      o[j] := -o[j];
      f[j] := f[j + 1];
      f[j + 1] := j + 1;
    }
    StepArrays(a0, o0, f0, a[..], o[..], f[..], t, ns);
    return false;
  }

  /** The generator's loop yields the whole Gray sequence of the iterables' positions and stops. */
  method YieldAll<T>(iterables: seq<seq<T>>) returns (out: seq<seq<T>>)
    requires Radices(Lengths(iterables))
    ensures |out| == Volume(Lengths(iterables), |iterables|) && FirstYields(out, iterables, Lengths(iterables))
  {
    var count := |iterables|;
    ghost var ns := Lengths(iterables);
    var a := new int[count](_ => 0);
    var f := new int[count + 1](i => i);
    var o := new int[count](_ => 1);
    VolumePositive(ns, count);
    StartOfRun(a[..], o[..], f[..], ns);
    out := [];
    ghost var t := 0;
    while true
      invariant t == |out| < Volume(ns, count)
      invariant AtStep(a[..], o[..], f[..], t, ns)
      invariant FirstYields(out, iterables, ns)
      decreases Volume(ns, count) - t
    {
      assert a[..] == GrayTuple(t, ns);
      var items := Select(iterables, a);
      YieldsMore(out, items, iterables, ns);
      out := out + [items];
      var done := Advance(iterables, a, o, f, t, ns);
      if done {
        break;
      }
      t := t + 1;
    }
  }

  method Generate<T>(iterables: seq<seq<T>>) returns (r: Result<seq<seq<T>>>)
    ensures r.Failure? <==> exists j :: 0 <= j < |iterables| && |iterables[j]| < 2
    ensures r.Failure? ==> r.error == "each iterable must have two or more items"
    ensures r.Success? ==>
      && Radices(Lengths(iterables))
      && |r.value| == Volume(Lengths(iterables), |iterables|)
      && FirstYields(r.value, iterables, Lengths(iterables))
  {
    for i := 0 to |iterables|
      invariant forall j :: 0 <= j < i ==> |iterables[j]| >= 2
    {
      if |iterables[i]| < 2 {
        return Failure("each iterable must have two or more items");
      }
    }
    var out := YieldAll(iterables);
    return Success(out);
  }

  lemma {:induction false} ZeroMoves(ns: seq<nat>, j: nat)
    requires Radices(ns) && j <= |ns|
    ensures Moves(0, ns, j) == 0
  {
    if j > 0 { ZeroMoves(ns, j - 1); }
  }

  lemma StartOfRun(a: seq<int>, o: seq<int>, f: seq<int>, ns: seq<nat>)
    requires Radices(ns) && |a| == |o| == |ns| && |f| == |ns| + 1
    requires forall k :: 0 <= k < |ns| ==> a[k] == 0 && o[k] == 1
    requires forall k :: 0 <= k <= |ns| ==> f[k] == k
    ensures AtStep(a, o, f, 0, ns)
  {
    forall k | 0 <= k < |ns| ensures Position(0, ns, k) == 0 && Direction(0, ns, k) == 1 && !Passive(0, ns, k) {
      ZeroMoves(ns, k);
    }
  }
}
