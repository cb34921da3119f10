/** The difference map of the scheduler (usage_changes in ospy/scheduler.py): instant -> change of
    water usage, against the obvious sum over the intervals it was built from.

    The running sum of the map is the usage. */
module UsageProfile {

  import opened Lists

  /** A stretch of time [start, end) during which an amount of water usage is reserved. A run that was logged after
      its end is booked all the same; it counts negative from its end to its start. */
  datatype Booking = Booking(start: int, end: int, usage: real) {
    function At(t: int): real {
      (if start <= t then usage else 0.0) - (if end <= t then usage else 0.0)
    }

    ghost predicate WellFormed() {
      start <= end && usage >= 0.0
    }
  }

  /** Total usage reserved at instant t. */
  ghost function Load(bs: seq<Booking>, t: int): real {
    if bs == [] then 0.0
    else Load(bs[..|bs| - 1], t) + bs[|bs| - 1].At(t)
  }

  /** By how much one booking changes the usage at instant k. */
  ghost function Step(b: Booking, k: int): real {
    (if b.start == k then b.usage else 0.0) - (if b.end == k then b.usage else 0.0)
  }

  /** By how much all bookings change the usage at instant k. */
  ghost function Delta(bs: seq<Booking>, k: int): real {
    if bs == [] then 0.0 else Delta(bs[..|bs| - 1], k) + Step(bs[|bs| - 1], k)
  }

  ghost function SumDelta(bs: seq<Booking>, keys: seq<int>): real {
    if keys == [] then 0.0 else SumDelta(bs, keys[..|keys| - 1]) + Delta(bs, keys[|keys| - 1])
  }

  ghost function SumStep(b: Booking, keys: seq<int>): real {
    if keys == [] then 0.0 else SumStep(b, keys[..|keys| - 1]) + Step(b, keys[|keys| - 1])
  }

  /** The first n keys are those up to instant t. */
  ghost predicate SplitsAt(keys: seq<int>, n: int, t: int) {
    && 0 <= n <= |keys|
    && (forall i :: 0 <= i < n ==> keys[i] <= t)
    && (forall i :: n <= i < |keys| ==> t < keys[i])
  }

  lemma {:induction false} SumDeltaSplits(bs: seq<Booking>, keys: seq<int>)
    requires bs != []
    ensures SumDelta(bs, keys) == SumDelta(bs[..|bs| - 1], keys) + SumStep(bs[|bs| - 1], keys)
  {
    if keys != [] { SumDeltaSplits(bs, keys[..|keys| - 1]); }
  }

  lemma {:induction false} SumDeltaOfNothing(keys: seq<int>)
    ensures SumDelta([], keys) == 0.0
  {
    if keys != [] { SumDeltaOfNothing(keys[..|keys| - 1]); }
  }

  /** Over distinct keys the changes of one booking add up to what its two ends among them say. */
  lemma {:induction false} SumStepValue(b: Booking, keys: seq<int>)
    requires Increasing(keys)
    ensures SumStep(b, keys) == (if b.start in keys then b.usage else 0.0) - (if b.end in keys then b.usage else 0.0)
  {
    if keys != [] {
      var front, last := keys[..|keys| - 1], keys[|keys| - 1];
      SumStepValue(b, front);
      assert keys == front + [last];
      assert forall i :: 0 <= i < |front| ==> front[i] == keys[i];
      assert last !in front;
    }
  }

  /** The scheduler's running sum up to instant t is the usage of the bookings that cover t. */
  lemma {:induction false} PrefixSumIsLoad(bs: seq<Booking>, keys: seq<int>, n: int, t: int)
    requires Increasing(keys) && SplitsAt(keys, n, t)
    requires forall b :: b in bs ==> b.start in keys && b.end in keys
    ensures SumDelta(bs, keys[..n]) == Load(bs, t)
  {
    if bs == [] {
      SumDeltaOfNothing(keys[..n]);
    } else {
      var front, b := bs[..|bs| - 1], bs[|bs| - 1];
      assert forall c :: c in front ==> c in bs;
      PrefixSumIsLoad(front, keys, n, t);
      SumDeltaSplits(bs, keys[..n]);
      SumStepValue(b, keys[..n]);
      assert b in bs;
      assert b.start in keys[..n] <==> b.start <= t;
      assert b.end in keys[..n] <==> b.end <= t;
    }
  }

  lemma {:induction false} LoadNonnegative(bs: seq<Booking>, t: int)
    requires forall b :: b in bs ==> b.WellFormed()
    ensures Load(bs, t) >= 0.0
  {
    if bs != [] {
      assert forall c :: c in bs[..|bs| - 1] ==> c in bs;
      assert bs[|bs| - 1] in bs;
      LoadNonnegative(bs[..|bs| - 1], t);
    }
  }

  lemma {:induction false} LoadAfterAll(bs: seq<Booking>, t: int)
    requires forall b :: b in bs ==> b.start <= t && b.end <= t
    ensures Load(bs, t) == 0.0
  {
    if bs != [] {
      assert forall c :: c in bs[..|bs| - 1] ==> c in bs;
      assert bs[|bs| - 1] in bs;
      LoadAfterAll(bs[..|bs| - 1], t);
    }
  }

  /** The running sum of the changes at the first n keys. */
  ghost function UpTo(bs: seq<Booking>, keys: seq<int>, n: int): real
    requires 0 <= n <= |keys|
  {
    SumDelta(bs, keys[..n])
  }

  lemma NextSum(bs: seq<Booking>, keys: seq<int>, n: int)
    requires 0 <= n < |keys|
    ensures UpTo(bs, keys, n + 1) == UpTo(bs, keys, n) + Delta(bs, keys[n])
  {
    assert keys[..n + 1][..n] == keys[..n];
  }

  /** keys are the sorted instants at which the usage of bs changes. */
  ghost predicate KeysOf(keys: seq<int>, bs: seq<Booking>) {
    && Increasing(keys)
    && forall b :: b in bs ==> b.start in keys && b.end in keys
  }

  /** usage_changes, with the bookings entered into it so far. */
  class UsageChanges {
    var change: map<int, real>
    ghost var bookings: seq<Booking>

    ghost predicate Valid()
      reads this
    {
      && (forall b :: b in bookings ==> b.start in change && b.end in change)
      && (forall k :: k in change ==> change[k] == Delta(bookings, k))
    }

    constructor ()
      ensures Valid() && bookings == []
    {
      change := map[];
      bookings := [];
    }

    /** setdefault(key, 0) */
    method SetDefault(key: int)
      requires Valid()
      modifies this`change
      ensures Valid() && change.Keys == old(change.Keys) + {key}
    {
      if key !in change {
        NotAKey(bookings, key);
        change := change[key := 0.0];
      }
    }

    /** Enter one interval: raise the usage at its start, lower it at its end. */
    method Book(start: int, end: int, usage: real)
      requires Valid()
      modifies this
      ensures Valid() && bookings == old(bookings) + [Booking(start, end, usage)]
      ensures change.Keys == old(change.Keys) + {start, end}
    {
      ghost var b := Booking(start, end, usage);
      SetDefault(start);
      SetDefault(end);
      ghost var before := change;
      change := change[start := change[start] + usage];
      change := change[end := change[end] - usage];
      ChangesAt(before, change, b);
      forall k | k in change ensures change[k] == Delta(bookings + [b], k) {
        DeltaAppend(bookings, b, k);
      }
      bookings := bookings + [b];
    }
  }

  lemma ChangesAt(before: map<int, real>, after: map<int, real>, b: Booking)
    requires b.start in before && b.end in before
    requires var raised := before[b.start := before[b.start] + b.usage];
      after == raised[b.end := raised[b.end] - b.usage]
    ensures after.Keys == before.Keys && forall k :: k in after ==> after[k] == before[k] + Step(b, k)
  {
  }

  lemma DeltaAppend(bs: seq<Booking>, b: Booking, k: int)
    ensures Delta(bs + [b], k) == Delta(bs, k) + Step(b, k)
  {
    assert (bs + [b])[..|bs|] == bs;
  }

  lemma {:induction false} NotAKey(bs: seq<Booking>, k: int)
    requires forall b :: b in bs ==> b.start != k && b.end != k
    ensures Delta(bs, k) == 0.0
  {
    if bs != [] {
      assert forall c :: c in bs[..|bs| - 1] ==> c in bs;
      assert bs[|bs| - 1] in bs;
      NotAKey(bs[..|bs| - 1], k);
    }
  }

  function Insert(x: int, keys: seq<int>): (r: seq<int>)
    requires Increasing(keys) && x !in keys
    ensures Increasing(r) && forall k :: k in r <==> k == x || k in keys
  {
    if keys == [] || x < keys[0] then
      [x] + keys
    else
      var r := Insert(x, keys[1..]);
      assert forall k :: k in keys <==> k == keys[0] || k in keys[1..];
      assert forall i :: 0 <= i < |r| ==> r[i] in r;
      [keys[0]] + r
  }

  /** sorted(usage_changes.keys()) */
  method SortedKeys(s: set<int>) returns (keys: seq<int>)
    ensures Increasing(keys) && forall k :: k in keys <==> k in s
  {
    keys := [];
    var rest := s;
    while rest != {}
      invariant Increasing(keys)
      invariant rest <= s
      invariant forall k :: k in keys <==> k in s - rest
      decreases rest
    {
      assert (forall y :: y !in rest) ==> rest == {};
      var x :| x in rest;
      keys := Insert(x, keys);
      rest := rest - {x};
    }
  }
}
