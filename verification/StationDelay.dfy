/** When the scheduler leaves out the station delay (ospy/scheduler.py): a run may follow at once if what ends there has
    been running for less than the minimum. */
module StationDelay {

  import opened Intervals
  import opened UsageProfile

  /** The usage falls to nothing; what is below 0.01 counts as nothing. */
  ghost predicate GoesIdle(bs: seq<Booking>, t: int) {
    Delta(bs, t) < 0.0 && Load(bs, t) < 0.01
  }

  /** The usage rises from nothing, and the last time it fell to nothing is more than three seconds ago. */
  ghost predicate StartsRunning(bs: seq<Booking>, t: int) {
    && Delta(bs, t) > 0.0 && Load(bs, t - 1) < 0.01
    && (exists e :: e < t - 3 * SECOND && GoesIdle(bs, e))
    && (forall e :: t - 3 * SECOND <= e < t ==> !GoesIdle(bs, e))
  }

  /** What ends at this instant has been running for less than the minimum, or never started after an idle time. */
  ghost predicate ShortRun(bs: seq<Booking>, at: int, minRuntime: nat) {
    minRuntime > 0 &&
    ((forall t :: t < at ==> !StartsRunning(bs, t)) || (exists t :: at - minRuntime < t < at && StartsRunning(bs, t)))
  }

  /** x is the last time before the bound at which the usage fell to nothing, or at if there is none. */
  ghost predicate LastIdle(bs: seq<Booking>, bound: int, at: int, x: int) {
    if x == at then forall e :: e < bound ==> !GoesIdle(bs, e)
    else x < bound && GoesIdle(bs, x) && forall e :: x < e < bound ==> !GoesIdle(bs, e)
  }

  ghost predicate LastStart(bs: seq<Booking>, bound: int, at: int, x: int) {
    if x == at then forall e :: e < bound ==> !StartsRunning(bs, e)
    else x < bound && StartsRunning(bs, x) && forall e :: x < e < bound ==> !StartsRunning(bs, e)
  }

  /** Nothing changes between two keys, or before the first. */
  lemma Quiet(bs: seq<Booking>, keys: seq<int>, i: int, t: int)
    requires KeysOf(keys, bs) && -1 <= i < |keys| - 1 && t < keys[i + 1] && (i >= 0 ==> keys[i] < t)
    ensures Delta(bs, t) == 0.0
  {
    NotAKey(bs, t);
  }

  /** The usage just before a key and at it. */
  lemma AroundKey(bs: seq<Booking>, keys: seq<int>, i: int)
    requires KeysOf(keys, bs) && 0 <= i < |keys|
    ensures Load(bs, keys[i] - 1) == UpTo(bs, keys, i) && Load(bs, keys[i]) == UpTo(bs, keys, i + 1)
  {
    PrefixSumIsLoad(bs, keys, i, keys[i] - 1);
    PrefixSumIsLoad(bs, keys, i + 1, keys[i]);
  }

  /** One key further. */
  lemma NextKey(bs: seq<Booking>, keys: seq<int>, i: int, at: int, idle: int, since: int)
    requires KeysOf(keys, bs) && 0 <= i < |keys| - 1 && keys[i] < at
    requires LastIdle(bs, keys[i], at, idle) && LastStart(bs, keys[i], at, since)
    ensures var k := keys[i];
      && LastIdle(bs, keys[i + 1], at, if GoesIdle(bs, k) then k else idle)
      && LastStart(bs, keys[i + 1], at, if StartsRunning(bs, k) then k else since)
      && (StartsRunning(bs, k) <==> Load(bs, k - 1) < 0.01 && Delta(bs, k) > 0.0 && k - idle > 3 * SECOND)
  {
    forall t | keys[i] < t < keys[i + 1] ensures !GoesIdle(bs, t) && !StartsRunning(bs, t) {
      Quiet(bs, keys, i, t);
    }
  }

  lemma FirstKey(bs: seq<Booking>, keys: seq<int>, at: int)
    requires KeysOf(keys, bs) && keys != []
    ensures LastIdle(bs, keys[0], at, at) && LastStart(bs, keys[0], at, at)
  {
    forall t | t < keys[0] ensures !GoesIdle(bs, t) && !StartsRunning(bs, t) {
      Quiet(bs, keys, -1, t);
    }
  }

  /** The scan over the keys before keys[j] finds out whether the run that ends there was short. */
  method SkipsDelay(changes: UsageChanges, keys: seq<int>, j: nat, minRuntime: nat) returns (skip: bool)
    requires changes.Valid() && KeysOf(keys, changes.bookings) && j < |keys|
    requires forall i :: 0 <= i < |keys| ==> keys[i] in changes.change
    ensures skip <==> ShortRun(changes.bookings, keys[j], minRuntime)
  {
    skip := false;
    if minRuntime > 0 {
      ghost var bs := changes.bookings;
      var usage, runningSince, notRunningSince := 0.0, keys[j], keys[j];
      FirstKey(bs, keys, keys[j]);
      for i := 0 to j
        invariant usage == UpTo(bs, keys, i)
        invariant LastIdle(bs, keys[i], keys[j], notRunningSince) && LastStart(bs, keys[i], keys[j], runningSince)
      {
        var key := keys[i];
        AroundKey(bs, keys, i);
        NextSum(bs, keys, i);
        NextKey(bs, keys, i, keys[j], notRunningSince, runningSince);
        if usage < 0.01 && changes.change[key] > 0.0 && key - notRunningSince > 3 * SECOND {
          runningSince := key;
        }
        usage := usage + changes.change[key];
        if usage < 0.01 && changes.change[key] < 0.0 {
          notRunningSince := key;
        }
      }
      skip := keys[j] - runningSince < minRuntime;
    }
  }
}
