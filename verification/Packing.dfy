/** The packing loop of predicted_schedule (ospy/scheduler.py): every runnable interval is slid
    forward until the water usage fits under the limit for its whole duration. */
module Packing {

  import opened Lists
  import opened Intervals
  import opened StationDelay
  import opened UsageProfile

  /** The options and sensor readings the loop consults. */
  datatype Settings = Settings(
    schedulerEnabled: bool,
    rainBlockStart: int,
    rainBlockEnd: int,
    rainSensed: bool,
    maxUsage: real,
    stationDelay: nat,
    minRuntime: nat
  )

  // ---- how the usage moves ----

  ghost function CountUpTo(keys: seq<int>, t: int): (n: int)
    requires Increasing(keys)
    ensures SplitsAt(keys, n, t)
  {
    if keys == [] || keys[|keys| - 1] <= t then |keys| else CountUpTo(keys[..|keys| - 1], t)
  }

  lemma SplitsInOrder(keys: seq<int>, n: int, a: int, m: int, t: int)
    requires SplitsAt(keys, n, a) && SplitsAt(keys, m, t) && a <= t
    ensures n <= m
  {
    assert m < |keys| && t < keys[m] ==> a < keys[m];
  }

  lemma SplitsAtKey(keys: seq<int>, j: int)
    requires Increasing(keys) && 0 <= j < |keys|
    ensures SplitsAt(keys, j + 1, keys[j])
  {
  }

  ghost predicate NoDrop(bs: seq<Booking>, keys: seq<int>, i: int, j: int) {
    forall m :: 0 <= i <= m < j <= |keys| ==> Delta(bs, keys[m]) >= 0.0
  }

  /** The usage fits under the limit at instant s and from then on for duration d. */
  ghost predicate Fits(bs: seq<Booking>, usage: real, limit: real, s: int, d: int) {
    forall t :: s <= t < s + d || t == s ==> Load(bs, t) + usage <= limit
  }

  /** No start in [from, to) fits. */
  ghost predicate NoneFits(bs: seq<Booking>, usage: real, limit: real, from: int, to: int, d: int) {
    forall s :: from <= s < to ==> !Fits(bs, usage, limit, s, d)
  }

  lemma {:induction false} OneStep(bs: seq<Booking>, t: int)
    ensures Load(bs, t) == Load(bs, t - 1) + Delta(bs, t)
  {
    if bs != [] {
      OneStep(bs[..|bs| - 1], t);
    }
  }

  /** Without a drop the usage only rises. */
  lemma {:induction false} NoFall(bs: seq<Booking>, w: int, s: int)
    requires w <= s && forall t :: w < t <= s ==> Delta(bs, t) >= 0.0
    ensures Load(bs, w) <= Load(bs, s)
    decreases s - w
  {
    if w < s {
      NoFall(bs, w, s - 1);
      OneStep(bs, s);
    }
  }

  /** If the run does not fit at a, it fits at no later start before the usage drops. */
  lemma NoFitBeforeDrop(bs: seq<Booking>, a: int, s: int, d: nat, usage: real, limit: real)
    requires !Fits(bs, usage, limit, a, d)
    requires a <= s && forall t :: a < t <= s ==> Delta(bs, t) >= 0.0
    ensures !Fits(bs, usage, limit, s, d)
  {
    var w :| (a <= w < a + d || w == a) && Load(bs, w) + usage > limit;
    if s <= w {
      assert s <= w < s + d || w == s;
    } else {
      NoFall(bs, w, s);
    }
  }

  /** Through a window [a, end) the usage only takes the values of the running sum over its keys. */
  lemma LoadInWindow(bs: seq<Booking>, keys: seq<int>, n: int, a: int, index: int, end: int, t: int) returns (m: int)
    requires KeysOf(keys, bs) && SplitsAt(keys, n, a) && n <= index <= |keys| && (a <= t < end || t == a)
    requires index < |keys| ==> keys[index] >= end
    ensures n <= m <= index && Load(bs, t) == UpTo(bs, keys, m)
  {
    m := CountUpTo(keys, t);
    PrefixSumIsLoad(bs, keys, m, t);
    SplitsInOrder(keys, n, a, m, t);
    assert t != a && index < |keys| ==> t < keys[index];
    if t == a {
      SplitsInOrder(keys, m, t, n, a);
    }
  }

  // ---- the steps of the search ----

  /** The last key up to the requested start and the usage there. */
  method UsageAtStart(changes: UsageChanges, keys: seq<int>, start: int) returns (startUsage: real, startKey: int)
    requires changes.Valid() && Increasing(keys) && forall i :: 0 <= i < |keys| ==> keys[i] in changes.change
    ensures -1 <= startKey < |keys| && SplitsAt(keys, startKey + 1, start)
    ensures startUsage == UpTo(changes.bookings, keys, startKey + 1)
  {
    startUsage, startKey := 0.0, -1;
    var index := 0;
    while index < |keys|
      invariant startKey == index - 1 && 0 <= index <= |keys|
      invariant forall i :: 0 <= i < index ==> keys[i] <= start
      invariant startUsage == UpTo(changes.bookings, keys, index)
    {
      if keys[index] > start {
        break;
      }
      startKey := index;
      startUsage := startUsage + changes.change[keys[index]];
      NextSum(changes.bookings, keys, index);
      index := index + 1;
    }
  }

  /** The highest of the running sums over the keys of a window is the highest usage in it. */
  lemma WindowPeak(bs: seq<Booking>, keys: seq<int>, n: int, a: int, w: int, index: int, end: int, peak: real)
    requires KeysOf(keys, bs) && SplitsAt(keys, n, a) && a <= end && n <= w <= index <= |keys|
    requires (index < |keys| ==> keys[index] >= end) && (w > n ==> keys[w - 1] < end)
    requires peak == UpTo(bs, keys, w) - UpTo(bs, keys, n)
    requires forall i :: n <= i <= index ==> UpTo(bs, keys, i) - UpTo(bs, keys, n) <= peak
    ensures forall t :: a <= t < end || t == a ==> Load(bs, t) <= Load(bs, a) + peak
    ensures exists t :: (a <= t < end || t == a) && Load(bs, t) == Load(bs, a) + peak
  {
    PrefixSumIsLoad(bs, keys, n, a);
    forall t | a <= t < end || t == a ensures Load(bs, t) <= Load(bs, a) + peak {
      var m := LoadInWindow(bs, keys, n, a, index, end, t);
    }
    var top := if w == n then a else keys[w - 1];
    PrefixSumIsLoad(bs, keys, w, top);
    assert Load(bs, top) == Load(bs, a) + peak;
  }

  /** The highest rise of the usage above its value at a, over [a, end). */
  method PeakRise(changes: UsageChanges, keys: seq<int>, startKey: int, ghost a: int, end: int) returns (peak: real)
    requires changes.Valid() && KeysOf(keys, changes.bookings) && forall i :: 0 <= i < |keys| ==>
      keys[i] in changes.change
    requires -1 <= startKey && SplitsAt(keys, startKey + 1, a) && a <= end
    ensures forall t :: a <= t < end || t == a ==> Load(changes.bookings, t) <= Load(changes.bookings, a) + peak
    ensures exists t :: (a <= t < end || t == a) && Load(changes.bookings, t) == Load(changes.bookings, a) + peak
  {
    ghost var bs := changes.bookings;
    ghost var base := UpTo(bs, keys, startKey + 1);
    peak := 0.0;
    var current := 0.0;
    var index := startKey + 1;
    ghost var w := startKey + 1;
    while index < |keys|
      invariant startKey + 1 <= w <= index <= |keys|
      invariant forall i :: startKey + 1 <= i < index ==> keys[i] < end
      invariant current == UpTo(bs, keys, index) - base && peak == UpTo(bs, keys, w) - base
      invariant forall i :: startKey + 1 <= i <= index ==> UpTo(bs, keys, i) - base <= peak
    {
      var key := keys[index];
      if key >= end {
        break;
      }
      NextSum(bs, keys, index);
      current := current + changes.change[key];
      index := index + 1;
      if current > peak {
        peak, w := current, index;
      }
    }
    WindowPeak(bs, keys, startKey + 1, a, w, index, end, peak);
  }

  /** Advance to the next key at which the usage drops; |keys| when there is none. */
  method NextDrop(changes: UsageChanges, keys: seq<int>, startKey: int, usage: real) returns (j: int, usageAt: real)
    requires changes.Valid() && forall i :: 0 <= i < |keys| ==> keys[i] in changes.change
    requires -1 <= startKey < |keys| && usage == UpTo(changes.bookings, keys, startKey + 1)
    ensures startKey < j <= |keys| && NoDrop(changes.bookings, keys, startKey + 1, j)
    ensures j < |keys| ==> changes.change[keys[j]] < 0.0 && usageAt == UpTo(changes.bookings, keys, j + 1)
  {
    j, usageAt := startKey + 1, usage;
    while j < |keys|
      invariant startKey < j <= |keys| && NoDrop(changes.bookings, keys, startKey + 1, j)
      invariant usageAt == UpTo(changes.bookings, keys, j)
    {
      var change := changes.change[keys[j]];
      usageAt := usageAt + change;
      NextSum(changes.bookings, keys, j);
      if change < 0.0 {
        break;
      }
      j := j + 1;
    }
  }

  // ---- which start the search chooses ----

  /** The station delay after a drop of the usage: none after a short run. */
  ghost function DelayAt(bs: seq<Booking>, k: int, settings: Settings): nat {
    if ShortRun(bs, k, settings.minRuntime) then 0 else settings.stationDelay
  }

  /** The instants the search tries for a run requested at s0: that one, and every later drop of the usage. */
  ghost predicate Position(bs: seq<Booking>, s0: int, p: int) {
    p == s0 || (p > s0 && Delta(bs, p) < 0.0)
  }

  /** Where the run starts when it is tried at p. */
  ghost function StartFrom(bs: seq<Booking>, s0: int, p: int, settings: Settings): int {
    if p == s0 then s0 else p + DelayAt(bs, p, settings)
  }

  /** The run, of duration d, fits when it is tried at p: from p itself, through the station delay, to its end. */
  ghost predicate FitsFrom(bs: seq<Booking>, usage: real, s0: int, d: int, p: int, settings: Settings) {
    Fits(bs, usage, settings.maxUsage, p, StartFrom(bs, s0, p, settings) + d - p)
  }

  /** The search ends at p: the first position at which the run fits, or the last one of all. */
  ghost predicate Chosen(bs: seq<Booking>, usage: real, s0: int, d: int, p: int, settings: Settings) {
    && Position(bs, s0, p)
    && (forall q :: s0 <= q < p && Position(bs, s0, q) ==> !FitsFrom(bs, usage, s0, d, q, settings))
    && (FitsFrom(bs, usage, s0, d, p, settings) || forall q :: q > p ==> !Position(bs, s0, q))
  }

  /** There is only one such position. */
  lemma ChosenIsUnique(bs: seq<Booking>, usage: real, s0: int, d: int, p: int, q: int, settings: Settings)
    requires Chosen(bs, usage, s0, d, p, settings) && Chosen(bs, usage, s0, d, q, settings)
    ensures p == q
  {
  }

  /** Unless runs were logged after their end, the search fails exactly if the usage alone exceeds the limit. */
  lemma FailsExactly(bs: seq<Booking>, usage: real, s0: int, d: nat, p: int, settings: Settings)
    requires (forall b :: b in bs ==> b.WellFormed()) && Chosen(bs, usage, s0, d, p, settings)
    ensures FitsFrom(bs, usage, s0, d, p, settings) <==> usage <= settings.maxUsage
  {
    LoadNonnegative(bs, p);
    if !FitsFrom(bs, usage, s0, d, p, settings) {
      var length := StartFrom(bs, s0, p, settings) + d - p;
      var w :| (p <= w < p + length || w == p) && Load(bs, w) + usage > settings.maxUsage;
      forall t | t > w ensures Delta(bs, t) >= 0.0 {
        assert !Position(bs, s0, t);
      }
      UsageComesDown(bs, w);
    }
  }

  /** Usage cannot have a last rise: if it never drops after an instant, there is none left at it. */
  lemma UsageComesDown(bs: seq<Booking>, t: int)
    requires forall k :: k > t ==> Delta(bs, k) >= 0.0
    ensures Load(bs, t) <= 0.0
  {
    var far := AfterAll(bs, t);
    LoadAfterAll(bs, far);
    NoFall(bs, t, far);
  }

  lemma {:induction false} AfterAll(bs: seq<Booking>, t: int) returns (far: int)
    ensures far >= t && forall b :: b in bs ==> b.start <= far && b.end <= far
  {
    far := t;
    if bs != [] {
      var b := bs[|bs| - 1];
      far := AfterAll(bs[..|bs| - 1], t);
      far := if far < b.start then b.start else far;
      far := if far < b.end then b.end else far;
      assert forall c :: c in bs ==> c == b || c in bs[..|bs| - 1];
    }
  }

  /** Without station delay the chosen start is the earliest at which the run fits at all. */
  lemma ChosenIsEarliest(bs: seq<Booking>, usage: real, s0: int, d: nat, p: int, settings: Settings)
    requires settings.stationDelay == 0
    requires Chosen(bs, usage, s0, d, p, settings) && FitsFrom(bs, usage, s0, d, p, settings)
    ensures StartFrom(bs, s0, p, settings) == p && Fits(bs, usage, settings.maxUsage, p, d)
    ensures NoneFits(bs, usage, settings.maxUsage, s0, p, d)
  {
    forall s | s0 <= s < p ensures !Fits(bs, usage, settings.maxUsage, s, d) {
      var q := LastPosition(bs, s0, s);
      assert !FitsFrom(bs, usage, s0, d, q, settings);
      NoFitBeforeDrop(bs, q, s, d, usage, settings.maxUsage);
    }
  }

  lemma {:induction false} LastPosition(bs: seq<Booking>, s0: int, s: int) returns (q: int)
    requires s0 <= s
    ensures s0 <= q <= s && Position(bs, s0, q) && forall t :: q < t <= s ==> Delta(bs, t) >= 0.0
    decreases s - s0
  {
    q := s;
    if !Position(bs, s0, s) {
      q := LastPosition(bs, s0, s - 1);
    }
  }

  // ---- the search ----

  /** Where the search stands: the last key up to instant a, and the usage at a. */
  ghost predicate StandsAt(bs: seq<Booking>, keys: seq<int>, startKey: int, startUsage: real, a: int) {
    -1 <= startKey < |keys| && SplitsAt(keys, startKey + 1, a) && startUsage == Load(bs, a)
  }

  /** No position lies between two instants at which the key index says so. */
  lemma NothingBetween(bs: seq<Booking>, keys: seq<int>, n: int, j: int, s0: int, a: int, t: int)
    requires KeysOf(keys, bs) && SplitsAt(keys, n, a) && NoDrop(bs, keys, n, j) && n <= j <= |keys|
    requires s0 <= a < t && (j < |keys| ==> t < keys[j])
    ensures !Position(bs, s0, t)
  {
    if t in keys {
      var m :| 0 <= m < |keys| && keys[m] == t;
      assert n <= m < j && Delta(bs, keys[m]) >= 0.0;
    } else {
      NotAKey(bs, t);
    }
  }

  /** A run that does not fit when it is tried at a is moved to the next position: the next drop of the usage, and the
      station delay unless what ends there was short. It fails if there is none. */
  method MoveToNextDrop(interval: Interval, changes: UsageChanges, keys: seq<int>, startKey: int, startUsage: real,
                        settings: Settings, ghost s0: int, ghost a: int, ghost d: nat)
    returns (failed: bool, key: int, usage: real)
    requires changes.Valid() && KeysOf(keys, changes.bookings) && forall i :: 0 <= i < |keys| ==>
      keys[i] in changes.change
    requires StandsAt(changes.bookings, keys, startKey, startUsage, a) && s0 <= a && interval.end - interval.start == d
    requires !Fits(changes.bookings, interval.usage, settings.maxUsage, a, interval.end - a)
    modifies interval`start, interval`end
    ensures interval.end - interval.start == d
    ensures failed ==> interval.start == old(interval.start)
    ensures failed ==> forall t :: t > a ==> !Position(changes.bookings, s0, t)
    ensures !failed ==>
      && startKey < key < |keys| && StandsAt(changes.bookings, keys, key, usage, keys[key])
      && a < keys[key] && Position(changes.bookings, s0, keys[key])
      && (forall t :: a < t < keys[key] ==> !Position(changes.bookings, s0, t))
      && interval.start == StartFrom(changes.bookings, s0, keys[key], settings)
  {
    ghost var bs := changes.bookings;
    PrefixSumIsLoad(bs, keys, startKey + 1, a);
    key, usage := NextDrop(changes, keys, startKey, startUsage);
    forall t | a < t && (key < |keys| ==> t < keys[key]) ensures !Position(bs, s0, t) {
      NothingBetween(bs, keys, startKey + 1, key, s0, a, t);
    }
    if key == |keys| {
      failed := true;
      return;
    }
    failed := false;
    SplitsAtKey(keys, key);
    PrefixSumIsLoad(bs, keys, key + 1, keys[key]);
    var option := keys[key];
    var skip := SkipsDelay(changes, keys, key, settings.minRuntime);
    if skip {
      interval.Shift(option - interval.start);
    } else {
      interval.Shift(option + settings.stationDelay - interval.start);
    }
  }

  /** Slide the interval forward until its usage fits: it starts where the chosen position says, and the search fails
      exactly when it does not fit there either. */
  method FindStart(interval: Interval, changes: UsageChanges, settings: Settings) returns (failed: bool, ghost p: int)
    requires changes.Valid() && interval.start <= interval.end && settings.maxUsage > 0.0
    modifies interval`start, interval`end
    ensures failed <==> !FitsFrom(changes.bookings, interval.usage, old(interval.start),
                                  interval.end - interval.start, p, settings)
    ensures interval.end - interval.start == old(interval.end - interval.start)
    ensures Chosen(changes.bookings, interval.usage, old(interval.start), interval.end - interval.start, p, settings)
    ensures interval.start == StartFrom(changes.bookings, old(interval.start), p, settings)
  {
    ghost var bs, s0, d: nat := changes.bookings, interval.start, interval.end - interval.start;
    var keys := SortedKeys(changes.change.Keys);
    assert KeysOf(keys, bs);
    assert forall i :: 0 <= i < |keys| ==> keys[i] in keys;
    var startUsage, startKey := UsageAtStart(changes, keys, interval.start);
    PrefixSumIsLoad(bs, keys, startKey + 1, s0);
    failed := false;
    var finished := false;
    p := s0;
    while !failed && !finished
      invariant StandsAt(bs, keys, startKey, startUsage, p) && s0 <= p && Position(bs, s0, p)
      invariant interval.start == StartFrom(bs, s0, p, settings) && interval.end - interval.start == d
      invariant forall q :: s0 <= q < p && Position(bs, s0, q) ==> !FitsFrom(bs, interval.usage, s0, d, q, settings)
      invariant failed ==> !FitsFrom(bs, interval.usage, s0, d, p, settings)
      invariant failed ==> forall q :: q > p ==> !Position(bs, s0, q)
      invariant finished ==> FitsFrom(bs, interval.usage, s0, d, p, settings)
      decreases !failed && !finished, |keys| - startKey
    {
      var peak := PeakRise(changes, keys, startKey, p, interval.end);
      if startUsage + peak + interval.usage <= settings.maxUsage {
        finished := true;
      } else {
        var key, usage;
        failed, key, usage := MoveToNextDrop(interval, changes, keys, startKey, startUsage, settings, s0, p, d);
        if !failed {
          startKey, startUsage, p := key, usage, keys[key];
        }
      }
    }
  }

  // ---- the whole loop ----

  /** Why a run is not scheduled at all, or Free: the tests before the packing, in their order. */
  function Verdict(interval: Interval, settings: Settings): Block
    reads interval
  {
    VerdictFor(interval.blocked, interval.start, interval.manual, interval.fixed, interval.ignoreRain,
               interval.adjustment, interval.cutOff, settings)
  }

  function VerdictFor(blocked: Block, start: int, manual: bool, fixed: bool, ignoreRain: bool, adjustment: real,
                      cutOff: real, settings: Settings): Block
  {
    if blocked.Blocked? then blocked
    else if !manual && !settings.schedulerEnabled then Blocked("disabled scheduler")
    else if !manual && !ignoreRain && settings.rainBlockStart <= start < settings.rainBlockEnd
      then Blocked("rain delay")
    else if !manual && !ignoreRain && settings.rainSensed then Blocked("rain sensor")
    else if !fixed && adjustment < cutOff then Blocked("cut-off")
    else Free
  }

  /** What blocks a run, read off the settings and the request, and which reason wins. What was blocked stays so. Rain
      and a disabled scheduler never block a manual run, and rain never blocks a station that ignores it. A run that
      nothing speaks against is packed, which fails only under a limit. */
  ghost predicate Judged(block: Block, asked: Block, start: int, manual: bool, fixed: bool, ignoreRain: bool,
                         adjustment: real, cutOff: real, settings: Settings)
  {
    var disabled := !manual && !settings.schedulerEnabled;
    var delayed := !manual && !ignoreRain && settings.rainBlockStart <= start < settings.rainBlockEnd;
    var wet := !manual && !ignoreRain && settings.rainSensed;
    var cut := !fixed && adjustment < cutOff;
    if asked.Blocked? then block == asked
    else
      && (block == Blocked("disabled scheduler") <==> disabled)
      && (block == Blocked("rain delay") <==> delayed && !disabled)
      && (block == Blocked("rain sensor") <==> wet && !delayed && !disabled)
      && (block == Blocked("cut-off") <==> cut && !wet && !delayed && !disabled)
      && (block.Free? || block == Blocked("scheduler error") <==> !cut && !wet && !delayed && !disabled)
      && (block == Blocked("scheduler error") ==> settings.maxUsage > 0.0)
  }

  lemma VerdictIsJudged(asked: Block, start: int, manual: bool, fixed: bool, ignoreRain: bool, adjustment: real,
                        cutOff: real, settings: Settings)
    ensures var verdict := VerdictFor(asked, start, manual, fixed, ignoreRain, adjustment, cutOff, settings);
      && Judged(verdict, asked, start, manual, fixed, ignoreRain, adjustment, cutOff, settings)
      && (verdict.Free? && settings.maxUsage > 0.0 ==>
        Judged(Blocked("scheduler error"), asked, start, manual, fixed, ignoreRain, adjustment, cutOff, settings))
  {
  }

  /** The timetable entry of an interval, as a value. */
  datatype Run = Run(start: int, end: int, usage: real, blocked: Block) {
    function AsBooking(): Booking {
      Booking(start, end, usage)
    }
  }

  ghost function RunOf(interval: Interval): Run
    reads interval
  {
    Run(interval.start, interval.end, interval.usage, interval.blocked)
  }

  /** The time and usage that the runnable entries of a timetable take. */
  ghost function BookingsOf(runs: seq<Run>): seq<Booking> {
    if runs == [] then []
    else
      var last := runs[|runs| - 1];
      BookingsOf(runs[..|runs| - 1]) + if last.blocked.Free? then [last.AsBooking()] else []
  }

  /** Runnable entries never see the usage above the limit while they run. */
  ghost predicate Safe(runs: seq<Run>, bs: seq<Booking>, limit: real) {
    forall i, t {:trigger runs[i], Load(bs, t)} ::
      0 <= i < |runs| && runs[i].blocked.Free? && runs[i].start <= t < runs[i].end ==> Load(bs, t) <= limit
  }

  lemma LoadAppend(bs: seq<Booking>, b: Booking, t: int)
    ensures Load(bs + [b], t) == Load(bs, t) + b.At(t)
  {
    assert (bs + [b])[..|bs|] == bs;
  }

  /** Placing one more run where it fits keeps the whole timetable under the limit. */
  lemma SafeAppend(runs: seq<Run>, bs: seq<Booking>, next: Run, limit: real)
    requires Safe(runs, bs, limit) && next.start <= next.end
    requires forall t :: next.start <= t < next.end ==> Load(bs, t) + next.usage <= limit
    ensures Safe(runs + [next], bs + [next.AsBooking()], limit)
  {
    forall i, t | 0 <= i < |runs + [next]| && (runs + [next])[i].blocked.Free?
      && (runs + [next])[i].start <= t < (runs + [next])[i].end
      ensures Load(bs + [next.AsBooking()], t) <= limit
    {
      LoadAppend(bs, next.AsBooking(), t);
      assert i < |runs| ==> (runs + [next])[i] == runs[i];
    }
  }

  /** What becomes of a run, given its verdict and the bookings before it: it keeps its usage and duration; unless it is
      blocked, or there is no limit, it starts where the search ends, and is blocked if it does not fit there either. */
  ghost predicate Placed(request: Run, verdict: Block, run: Run, before: seq<Booking>, settings: Settings) {
    && run.usage == request.usage && run.end - run.start == request.end - request.start
    && if verdict.Free? && settings.maxUsage > 0.0 then StartsWhereChosen(request, run, before, settings)
       else run.start == request.start && run.blocked == verdict
  }

  ghost predicate StartsWhereChosen(request: Run, run: Run, before: seq<Booking>, settings: Settings) {
    exists p :: StartsAt(request, run, before, p, settings)
  }

  /** The search for the run ends at p. */
  ghost predicate StartsAt(request: Run, run: Run, before: seq<Booking>, p: int, settings: Settings) {
    var d := run.end - run.start;
    var fits := FitsFrom(before, run.usage, request.start, d, p, settings);
    && Chosen(before, run.usage, request.start, d, p, settings)
    && run.start == StartFrom(before, request.start, p, settings)
    && run.blocked == if fits then Free else Blocked("scheduler error")
  }

  /** The bookings after these runs. */
  ghost function Booked(runs: seq<Run>, before: seq<Booking>, settings: Settings): seq<Booking> {
    if settings.maxUsage > 0.0 then before + BookingsOf(runs) else before
  }

  /** Every run is placed around the ones before it. */
  ghost predicate PlacedAll(requests: seq<Run>, verdicts: seq<Block>, runs: seq<Run>, before: seq<Booking>,
                            settings: Settings)
  {
    && |runs| <= |requests| == |verdicts|
    && (forall i :: 0 <= i < |runs| ==>
      Placed(requests[i], verdicts[i], runs[i], Booked(runs[..i], before, settings), settings))
  }

  /** What the packing loop makes of the first |runs| requests, given the bookings before it: every run is placed around
      the ones before it, and with a usage limit the timetable stays under it. */
  ghost predicate Packed(requests: seq<Run>, verdicts: seq<Block>, runs: seq<Run>, before: seq<Booking>,
                         after: seq<Booking>, settings: Settings)
  {
    && PlacedAll(requests, verdicts, runs, before, settings)
    && after == Booked(runs, before, settings)
    && (settings.maxUsage > 0.0 ==> Safe(runs, after, settings.maxUsage))
  }

  /** A placed run never starts early, and fits under the limit while it runs. */
  lemma PlacedFits(request: Run, verdict: Block, run: Run, before: seq<Booking>, settings: Settings)
    requires Placed(request, verdict, run, before, settings)
    ensures run.start >= request.start
    ensures run.blocked.Free? && settings.maxUsage > 0.0 ==>
      forall t :: run.start <= t < run.end ==> Load(before, t) + run.usage <= settings.maxUsage
  {
  }

  lemma PackedAppend(requests: seq<Run>, verdicts: seq<Block>, runs: seq<Run>, run: Run,
                     before: seq<Booking>, middle: seq<Booking>, settings: Settings)
    requires Packed(requests, verdicts, runs, before, middle, settings) && |runs| < |requests|
    requires Placed(requests[|runs|], verdicts[|runs|], run, middle, settings)
    requires requests[|runs|].start <= requests[|runs|].end
    ensures Packed(requests, verdicts, runs + [run], before, AfterRun(run, middle, settings), settings)
  {
    PlacedAppend(requests, verdicts, runs, run, before, settings);
    BookedAppend(runs, run, before, settings);
    if settings.maxUsage > 0.0 {
      PlacedFits(requests[|runs|], verdicts[|runs|], run, middle, settings);
      if run.blocked.Free? {
        SafeAppend(runs, middle, run, settings.maxUsage);
      } else {
        assert middle + [] == middle;
      }
    }
  }

  lemma PlacedAppend(requests: seq<Run>, verdicts: seq<Block>, runs: seq<Run>, run: Run, before: seq<Booking>,
                     settings: Settings)
    requires PlacedAll(requests, verdicts, runs, before, settings) && |runs| < |requests|
    requires Placed(requests[|runs|], verdicts[|runs|], run, Booked(runs, before, settings), settings)
    ensures PlacedAll(requests, verdicts, runs + [run], before, settings)
  {
    var runs' := runs + [run];
    forall i | 0 <= i < |runs'|
      ensures Placed(requests[i], verdicts[i], runs'[i], Booked(runs'[..i], before, settings), settings)
    {
      assert runs'[..i] == runs[..i];
      if i == |runs| {
        assert runs[..i] == runs;
      }
    }
  }

  lemma BookedAppend(runs: seq<Run>, run: Run, before: seq<Booking>, settings: Settings)
    ensures Booked(runs + [run], before, settings) == AfterRun(run, Booked(runs, before, settings), settings)
  {
    assert (runs + [run])[..|runs|] == runs;
    Associate(before, BookingsOf(runs), if run.blocked.Free? then [run.AsBooking()] else []);
    assert before + [] == before;
  }

  ghost function AfterRun(run: Run, before: seq<Booking>, settings: Settings): seq<Booking> {
    before + if settings.maxUsage > 0.0 && run.blocked.Free? then [run.AsBooking()] else []
  }

  /** The requests, their verdicts and the bookings before determine the whole timetable. */
  lemma {:induction false} PackedIsUnique(requests: seq<Run>, verdicts: seq<Block>, runs: seq<Run>, other: seq<Run>,
                                          before: seq<Booking>, after: seq<Booking>, after': seq<Booking>,
                                          settings: Settings, n: nat)
    requires Packed(requests, verdicts, runs, before, after, settings)
    requires Packed(requests, verdicts, other, before, after', settings)
    requires n <= |runs| && n <= |other|
    ensures runs[..n] == other[..n]
  {
    if n > 0 {
      var i := n - 1;
      PackedIsUnique(requests, verdicts, runs, other, before, after, after', settings, i);
      assert Placed(requests[i], verdicts[i], runs[i], Booked(runs[..i], before, settings), settings);
      assert Placed(requests[i], verdicts[i], other[i], Booked(other[..i], before, settings), settings);
      PlacedIsUnique(requests[i], verdicts[i], runs[i], other[i], Booked(runs[..i], before, settings), settings);
      assert runs[..n] == runs[..i] + [runs[i]] && other[..n] == other[..i] + [other[i]];
    }
  }

  lemma PlacedIsUnique(request: Run, verdict: Block, run: Run, other: Run, before: seq<Booking>, settings: Settings)
    requires Placed(request, verdict, run, before, settings) && Placed(request, verdict, other, before, settings)
    ensures run == other
  {
    if verdict.Free? && settings.maxUsage > 0.0 {
      var p :| StartsAt(request, run, before, p, settings);
      var q :| StartsAt(request, other, before, q, settings);
      ChosenIsUnique(before, run.usage, request.start, request.end - request.start, p, q, settings);
    }
  }

  /** Unless runs were logged after their end, a run that is searched for is blocked exactly if its usage alone exceeds
      the limit. */
  lemma BlockedExactly(request: Run, verdict: Block, run: Run, before: seq<Booking>, settings: Settings)
    requires Placed(request, verdict, run, before, settings) && verdict.Free? && settings.maxUsage > 0.0
    requires request.start <= request.end && forall b :: b in before ==> b.WellFormed()
    ensures run.blocked.Free? <==> run.usage <= settings.maxUsage
  {
    var p :| StartsAt(request, run, before, p, settings);
    FailsExactly(before, run.usage, request.start, run.end - run.start, p, settings);
  }

  lemma PlacedIsEarliest(request: Run, verdict: Block, run: Run, before: seq<Booking>, settings: Settings)
    requires Placed(request, verdict, run, before, settings) && settings.maxUsage > 0.0 && settings.stationDelay == 0
    requires run.blocked.Free? && run.start <= run.end
    ensures Fits(before, run.usage, settings.maxUsage, run.start, run.end - run.start)
    ensures NoneFits(before, run.usage, settings.maxUsage, request.start, run.start, run.end - run.start)
  {
    var d := run.end - run.start;
    var p :| StartsAt(request, run, before, p, settings);
    ChosenIsEarliest(before, run.usage, request.start, d, p, settings);
  }

  /** Without station delay every run that is not blocked sits at the earliest start at which it fits around the runs
      placed before it. */
  lemma PackedIsEarliest(requests: seq<Run>, verdicts: seq<Block>, runs: seq<Run>, before: seq<Booking>,
                         after: seq<Booking>, settings: Settings, i: nat)
    requires Packed(requests, verdicts, runs, before, after, settings) && settings.maxUsage > 0.0
    requires settings.stationDelay == 0
    requires i < |runs| && runs[i].blocked.Free? && runs[i].start <= runs[i].end
    ensures var bs, run := Booked(runs[..i], before, settings), runs[i];
      && Fits(bs, run.usage, settings.maxUsage, run.start, run.end - run.start)
      && NoneFits(bs, run.usage, settings.maxUsage, requests[i].start, run.start, run.end - run.start)
  {
    PlacedIsEarliest(requests[i], verdicts[i], runs[i], Booked(runs[..i], before, settings), settings);
  }

  /** In the timetable every run is blocked as it is judged. */
  lemma PlacedIsJudged(request: Run, run: Run, manual: bool, fixed: bool, ignoreRain: bool, adjustment: real,
                       cutOff: real, before: seq<Booking>, settings: Settings)
    requires Placed(request, VerdictFor(request.blocked, request.start, manual, fixed, ignoreRain, adjustment, cutOff,
                                        settings), run, before, settings)
    ensures Judged(run.blocked, request.blocked, request.start, manual, fixed, ignoreRain, adjustment, cutOff, settings)
  {
    VerdictIsJudged(request.blocked, request.start, manual, fixed, ignoreRain, adjustment, cutOff, settings);
  }

  /** One pass of the loop. */
  method Place(interval: Interval, changes: UsageChanges, settings: Settings)
    requires changes.Valid() && interval.start <= interval.end
    modifies interval, changes
    ensures changes.Valid()
    ensures Placed(old(RunOf(interval)), old(Verdict(interval, settings)),
                   RunOf(interval), old(changes.bookings), settings)
    ensures changes.bookings == AfterRun(RunOf(interval), old(changes.bookings), settings)
    ensures Judged(interval.blocked, old(interval.blocked), old(interval.start), interval.manual, interval.fixed,
                   interval.ignoreRain, interval.adjustment, interval.cutOff, settings)
  {
    ghost var request, before := RunOf(interval), changes.bookings;
    VerdictIsJudged(interval.blocked, interval.start, interval.manual, interval.fixed, interval.ignoreRain,
                    interval.adjustment, interval.cutOff, settings);
    interval.blocked := Verdict(interval, settings);
    if interval.blocked.Free? && settings.maxUsage > 0.0 {
      ghost var p;
      var failed;
      failed, p := FindStart(interval, changes, settings);
      if failed {
        interval.blocked := Blocked("scheduler error");
      } else {
        changes.Book(interval.start, interval.end, interval.usage);
      }
      assert StartsAt(request, RunOf(interval), before, p, settings);
    } else {
      assert before + [] == before;
    }
  }

  ghost function RunsOf(all: seq<Interval>): seq<Run>
    reads all
  {
    if all == [] then [] else RunsOf(all[..|all| - 1]) + [RunOf(all[|all| - 1])]
  }

  ghost function VerdictsOf(all: seq<Interval>, settings: Settings): seq<Block>
    reads all
  {
    if all == [] then [] else VerdictsOf(all[..|all| - 1], settings) + [Verdict(all[|all| - 1], settings)]
  }

  lemma OneMoreRun(all: seq<Interval>, i: nat)
    requires i < |all|
    ensures RunsOf(all[..i + 1]) == RunsOf(all[..i]) + [RunOf(all[i])]
  {
    assert all[..i + 1][..i] == all[..i];
  }

  /** The state of the packing loop before interval i: the first i requests are packed, the rest untouched. */
  ghost predicate PackedSoFar(all: seq<Interval>, i: nat, changes: UsageChanges, settings: Settings,
                              requests: seq<Run>, verdicts: seq<Block>, before: seq<Booking>)
    requires i <= |all|
    reads all, changes
  {
    && changes.Valid()
    && |requests| == |verdicts| == |all| && |RunsOf(all[..i])| == i
    && (forall k :: i <= k < |all| ==>
      && RunOf(all[k]) == requests[k] && Verdict(all[k], settings) == verdicts[k]
      && all[k].start <= all[k].end)
    && Packed(requests, verdicts, RunsOf(all[..i]), before, changes.bookings, settings)
  }

  /** One pass of the packing loop. */
  method PlaceNext(all: seq<Interval>, i: nat, changes: UsageChanges, settings: Settings,
                   ghost requests: seq<Run>, ghost verdicts: seq<Block>, ghost before: seq<Booking>)
    requires i < |all| && Distinct(all) && PackedSoFar(all, i, changes, settings, requests, verdicts, before)
    modifies all[i], changes
    ensures PackedSoFar(all, i + 1, changes, settings, requests, verdicts, before)
  {
    ghost var middle, runs := changes.bookings, RunsOf(all[..i]);
    assert forall k :: i < k < |all| ==> all[k] != all[i];
    assert all[i] !in all[..i];
    Place(all[i], changes, settings);
    assert RunsOf(all[..i]) == runs;
    OneMoreRun(all, i);
    forall k | i < k < |all|
      ensures RunOf(all[k]) == requests[k] && Verdict(all[k], settings) == verdicts[k] && all[k].start <= all[k].end
    {
    }
    PackedAppend(requests, verdicts, runs, RunOf(all[i]), before, middle, settings);
  }

  /** The packing loop over all intervals. */
  method Pack(all: seq<Interval>, changes: UsageChanges, settings: Settings)
    requires changes.Valid() && Distinct(all)
    requires forall i :: 0 <= i < |all| ==> all[i].start <= all[i].end
    modifies all, changes
    ensures changes.Valid()
    ensures |RunsOf(all)| == |all|
    ensures Packed(old(RunsOf(all)), old(VerdictsOf(all, settings)), RunsOf(all),
                   old(changes.bookings), changes.bookings, settings)
    ensures forall i :: 0 <= i < |all| ==>
      Judged(all[i].blocked, old(all[i].blocked), old(all[i].start), all[i].manual, all[i].fixed, all[i].ignoreRain,
             all[i].adjustment, all[i].cutOff, settings)
  {
    ghost var requests, verdicts, before := RunsOf(all), VerdictsOf(all, settings), changes.bookings;
    ViewsAt(all, settings);
    StartPacking(all, changes, settings);
    for i := 0 to |all|
      invariant PackedSoFar(all, i, changes, settings, requests, verdicts, before)
    {
      PlaceNext(all, i, changes, settings, requests, verdicts, before);
    }
    assert all[..|all|] == all;
    AllJudged(all, requests, verdicts, before, changes.bookings, settings);
  }

  lemma {:induction false} AllJudged(all: seq<Interval>, requests: seq<Run>, verdicts: seq<Block>, before: seq<Booking>,
                  after: seq<Booking>, settings: Settings)
    requires Packed(requests, verdicts, RunsOf(all), before, after, settings) && |requests| == |all|
    requires forall i :: 0 <= i < |all| ==> verdicts[i] == VerdictAsked(all[i], requests[i], settings)
    ensures forall i :: 0 <= i < |all| ==>
      Judged(all[i].blocked, requests[i].blocked, requests[i].start, all[i].manual, all[i].fixed, all[i].ignoreRain,
             all[i].adjustment, all[i].cutOff, settings)
  {
    ViewsAt(all, settings);
    var runs := RunsOf(all);
    forall i | 0 <= i < |all|
      ensures Judged(all[i].blocked, requests[i].blocked, requests[i].start, all[i].manual, all[i].fixed,
                     all[i].ignoreRain, all[i].adjustment, all[i].cutOff, settings)
    {
      assert Placed(requests[i], verdicts[i], runs[i], Booked(runs[..i], before, settings), settings);
      OneJudged(all[i], requests[i], runs[i], Booked(runs[..i], before, settings), settings);
    }
  }

  /** The verdict on a request for this record. */
  ghost function VerdictAsked(x: Interval, request: Run, settings: Settings): Block {
    VerdictFor(request.blocked, request.start, x.manual, x.fixed, x.ignoreRain, x.adjustment, x.cutOff, settings)
  }

  lemma OneJudged(x: Interval, request: Run, run: Run, before: seq<Booking>, settings: Settings)
    requires Placed(request, VerdictAsked(x, request, settings), run, before, settings)
    ensures Judged(run.blocked, request.blocked, request.start, x.manual, x.fixed, x.ignoreRain, x.adjustment, x.cutOff,
                   settings)
  {
    PlacedIsJudged(request, run, x.manual, x.fixed, x.ignoreRain, x.adjustment, x.cutOff, before, settings);
  }

  lemma StartPacking(all: seq<Interval>, changes: UsageChanges, settings: Settings)
    requires changes.Valid() && forall i :: 0 <= i < |all| ==> all[i].start <= all[i].end
    ensures PackedSoFar(all, 0, changes, settings, RunsOf(all), VerdictsOf(all, settings), changes.bookings)
  {
    ViewsAt(all, settings);
    NothingPacked(RunsOf(all), VerdictsOf(all, settings), changes.bookings, settings);
    assert all[..0] == [];
  }

  lemma NothingPacked(requests: seq<Run>, verdicts: seq<Block>, before: seq<Booking>, settings: Settings)
    requires |requests| == |verdicts|
    ensures Packed(requests, verdicts, [], before, before, settings)
  {
    assert before + [] == before;
  }

  lemma {:induction false} ViewsAt(all: seq<Interval>, settings: Settings)
    ensures |RunsOf(all)| == |VerdictsOf(all, settings)| == |all|
    ensures forall i :: 0 <= i < |all| ==>
      RunsOf(all)[i] == RunOf(all[i]) && VerdictsOf(all, settings)[i] == Verdict(all[i], settings)
  {
    if all != [] { ViewsAt(all[..|all| - 1], settings); }
  }

  /** In a packed timetable two runs whose usages together exceed the limit never run at the same time. */
  lemma HeavyRunsDoNotOverlap(requests: seq<Run>, verdicts: seq<Block>, runs: seq<Run>, before: seq<Booking>,
                              after: seq<Booking>, settings: Settings, i: int, j: int, t: int)
    requires settings.maxUsage > 0.0 && Packed(requests, verdicts, runs, before, after, settings)
    requires forall b :: b in before ==> b.WellFormed()
    requires forall k :: 0 <= k < |runs| ==> runs[k].start <= runs[k].end && runs[k].usage >= 0.0
    requires 0 <= i < j < |runs| && runs[i].blocked.Free? && runs[j].blocked.Free?
    requires runs[i].usage + runs[j].usage > settings.maxUsage
    requires runs[i].start <= t < runs[i].end
    ensures !(runs[j].start <= t < runs[j].end)
  {
    assert runs[i].blocked.Free? && Load(after, t) <= settings.maxUsage;
    if runs[j].start <= t < runs[j].end {
      TwoRunsCover(runs, before, i, j, t);
      assert false;
    }
  }

  lemma LoadConcat(xs: seq<Booking>, ys: seq<Booking>, t: int)
    ensures Load(xs + ys, t) == Load(xs, t) + Load(ys, t)
    decreases ys
  {
    if ys == [] {
      assert xs + ys == xs;
    } else {
      LoadConcat(xs, ys[..|ys| - 1], t);
      assert (xs + ys)[..|xs + ys| - 1] == xs + ys[..|ys| - 1];
    }
  }

  /** The usage of a run that covers t, or nothing. */
  ghost function Part(run: Run, t: int): real {
    if run.blocked.Free? && run.start <= t < run.end then run.usage else 0.0
  }

  lemma {:induction false} LoadNext(runs: seq<Run>, t: int)
    requires runs != [] && runs[|runs| - 1].start <= runs[|runs| - 1].end
    ensures Load(BookingsOf(runs), t) == Load(BookingsOf(runs[..|runs| - 1]), t) + Part(runs[|runs| - 1], t)
  {
    var front, last := runs[..|runs| - 1], runs[|runs| - 1];
    if last.blocked.Free? {
      LoadAppend(BookingsOf(front), last.AsBooking(), t);
    } else {
      assert BookingsOf(front) + [] == BookingsOf(front);
    }
  }

  lemma {:induction false} RunsCover(runs: seq<Run>, i: int, j: int, t: int)
    requires forall k :: 0 <= k < |runs| ==> runs[k].start <= runs[k].end && runs[k].usage >= 0.0
    requires -1 <= i < j < |runs|
    ensures Load(BookingsOf(runs), t) >= (if i >= 0 then Part(runs[i], t) else 0.0) + Part(runs[j], t)
  {
    var front := runs[..|runs| - 1];
    LoadNext(runs, t);
    if j < |runs| - 1 {
      RunsCover(front, i, j, t);
    } else if i >= 0 {
      RunsCover(front, -1, i, t);
    } else {
      LoadNonnegativeRuns(front, t);
    }
  }

  lemma {:induction false} LoadNonnegativeRuns(runs: seq<Run>, t: int)
    requires forall k :: 0 <= k < |runs| ==> runs[k].start <= runs[k].end && runs[k].usage >= 0.0
    ensures Load(BookingsOf(runs), t) >= 0.0
  {
    if runs != [] {
      LoadNext(runs, t);
      LoadNonnegativeRuns(runs[..|runs| - 1], t);
    }
  }

  lemma TwoRunsCover(runs: seq<Run>, before: seq<Booking>, i: int, j: int, t: int)
    requires forall b :: b in before ==> b.WellFormed()
    requires forall k :: 0 <= k < |runs| ==> runs[k].start <= runs[k].end && runs[k].usage >= 0.0
    requires 0 <= i < j < |runs| && Part(runs[i], t) == runs[i].usage && Part(runs[j], t) == runs[j].usage
    ensures Load(before + BookingsOf(runs), t) >= runs[i].usage + runs[j].usage
  {
    LoadConcat(before, BookingsOf(runs), t);
    LoadNonnegative(before, t);
    RunsCover(runs, i, j, t);
  }
}
