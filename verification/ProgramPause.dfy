/** _apply_program_pause (ospy/scheduler.py): program occurrences are shifted to leave an idle gap
    after the latest-ending run of another program. First the pass over occurrences as values, then
    over the interval records. */
module ProgramPause {

  import opened Lists
  import opened Intervals
  import opened Results

  /** One occurrence of a program, from its first start to its last end. */
  datatype Occurrence = Occurrence(program: int, start: int, end: int)

  /** The latest end so far and the program it belongs to. */
  datatype Latest = Latest(program: int, end: int)

  ghost predicate WellFormed(occs: seq<Occurrence>) {
    forall k :: 0 <= k < |occs| ==> occs[k].start <= occs[k].end
  }

  predicate Before(a: Occurrence, b: Occurrence) {
    a.start < b.start || (a.start == b.start && a.program <= b.program)
  }

  /** The order in which the pass visits: by start, then by program. */
  ghost predicate InOrder(occs: seq<Occurrence>) {
    forall i, k :: 0 <= i < k < |occs| ==>
      occs[i].start < occs[k].start || (occs[i].start == occs[k].start && occs[i].program <= occs[k].program)
  }

  function ShiftFor(o: Occurrence, latest: Option<Latest>, delay: int): int {
    if latest.Some? && latest.value.program != o.program && o.start < latest.value.end + delay
    then latest.value.end + delay - o.start else 0
  }

  function Shifted(o: Occurrence, shift: int): Occurrence {
    o.(start := o.start + shift, end := o.end + shift)
  }

  function LatestAfter(latest: Option<Latest>, o: Occurrence): Option<Latest> {
    if latest.None? || o.end > latest.value.end then Some(Latest(o.program, o.end)) else latest
  }

  /** The occurrences after the pause pass, in the order in which it visits them. */
  ghost function Paused(occs: seq<Occurrence>, latest: Option<Latest>, delay: int): seq<Occurrence> {
    if occs == [] then [] else
      var o := Shifted(occs[0], ShiftFor(occs[0], latest, delay));
      [o] + Paused(occs[1..], LatestAfter(latest, o), delay)
  }

  /** The latest end when the pass reaches occurrence k. */
  ghost function LatestAt(occs: seq<Occurrence>, latest: Option<Latest>, delay: int, k: nat): Option<Latest>
    requires k <= |occs|
  {
    if k == 0 then latest else
      var o := Shifted(occs[0], ShiftFor(occs[0], latest, delay));
      LatestAt(occs[1..], LatestAfter(latest, o), delay, k - 1)
  }

  lemma {:induction false} LatestStep(occs: seq<Occurrence>, latest: Option<Latest>, delay: int, k: nat)
    requires k < |occs|
    ensures var at := LatestAt(occs, latest, delay, k);
      LatestAt(occs, latest, delay, k + 1) == LatestAfter(at, Shifted(occs[k], ShiftFor(occs[k], at, delay)))
  {
    if k > 0 {
      var o := Shifted(occs[0], ShiftFor(occs[0], latest, delay));
      LatestStep(occs[1..], LatestAfter(latest, o), delay, k - 1);
    }
  }

  /** Every occurrence keeps its program and length and never moves back; it is shifted by what the
      latest end before it demands. */
  lemma {:induction false} PausedAt(occs: seq<Occurrence>, latest: Option<Latest>, delay: int, k: nat)
    requires k < |occs|
    ensures |Paused(occs, latest, delay)| == |occs|
    ensures var s := ShiftFor(occs[k], LatestAt(occs, latest, delay, k), delay);
      s >= 0 && Paused(occs, latest, delay)[k] == Shifted(occs[k], s)
  {
    var o := Shifted(occs[0], ShiftFor(occs[0], latest, delay));
    if |occs| > 1 {
      PausedAt(occs[1..], LatestAfter(latest, o), delay, if k == 0 then 0 else k - 1);
    }
  }

  lemma {:induction false} PausedLength(occs: seq<Occurrence>, latest: Option<Latest>, delay: int)
    ensures |Paused(occs, latest, delay)| == |occs|
  {
    if occs != [] { PausedAt(occs, latest, delay, 0); }
  }

  /** The latest end at occurrence k is no earlier than any end before it. */
  lemma {:induction false} LatestBounds(occs: seq<Occurrence>, latest: Option<Latest>, delay: int, k: nat)
    requires k <= |occs| == |Paused(occs, latest, delay)|
    ensures var at, paused := LatestAt(occs, latest, delay, k), Paused(occs, latest, delay);
      && (latest.Some? ==> at.Some? && at.value.end >= latest.value.end)
      && forall i :: 0 <= i < k ==> at.Some? && at.value.end >= paused[i].end
  {
    if k > 0 {
      var o := Shifted(occs[0], ShiftFor(occs[0], latest, delay));
      var rest, next := occs[1..], LatestAfter(latest, o);
      var at, paused, tail := LatestAt(occs, latest, delay, k), Paused(occs, latest, delay), Paused(rest, next, delay);
      assert paused == [o] + tail;
      LatestBounds(rest, next, delay, k - 1);
      forall i | 0 <= i < k ensures at.Some? && at.value.end >= paused[i].end {
        assert i > 0 ==> paused[i] == tail[i - 1];
      }
    }
  }

  /** The latest end belongs to what it was before or to an occurrence of its program. */
  lemma {:induction false} LatestOwner(occs: seq<Occurrence>, latest: Option<Latest>, delay: int, k: nat)
    requires k <= |occs| == |Paused(occs, latest, delay)|
    ensures var at, paused := LatestAt(occs, latest, delay, k), Paused(occs, latest, delay);
      at == latest || exists i :: 0 <= i < k && at == Some(Latest(occs[i].program, paused[i].end))
  {
    if k > 0 {
      var o := Shifted(occs[0], ShiftFor(occs[0], latest, delay));
      var rest, next := occs[1..], LatestAfter(latest, o);
      var at, paused, tail := LatestAt(occs, latest, delay, k), Paused(occs, latest, delay), Paused(rest, next, delay);
      assert paused == [o] + tail;
      LatestOwner(rest, next, delay, k - 1);
      if at == next {
        assert at == latest || at == Some(Latest(occs[0].program, paused[0].end));
      } else {
        var i :| 0 <= i < k - 1 && at == Some(Latest(rest[i].program, tail[i].end));
        assert at == Some(Latest(occs[i + 1].program, paused[i + 1].end));
      }
    }
  }

  /** For all inputs: an occurrence starts at least the delay after every earlier end, unless the latest
      of these ends belongs to its own program. */
  lemma {:induction false} GapUnlessSameProgram(occs: seq<Occurrence>, latest: Option<Latest>, delay: int, k: nat)
    requires k < |occs| == |Paused(occs, latest, delay)|
    requires LatestAt(occs, latest, delay, k).Some?
    requires LatestAt(occs, latest, delay, k).value.program != occs[k].program
    ensures latest.Some? ==> Paused(occs, latest, delay)[k].start >= latest.value.end + delay
    ensures forall i :: 0 <= i < k ==>
      Paused(occs, latest, delay)[k].start >= Paused(occs, latest, delay)[i].end + delay
  {
    PausedAt(occs, latest, delay, k);
    LatestBounds(occs, latest, delay, k);
  }

  /** The latest end after occurrence k is the last visited program's own. */
  lemma LatestProgram(occs: seq<Occurrence>, latest: Option<Latest>, delay: int, k: nat)
    requires WellFormed(occs) && delay > 0 && k < |occs|
    ensures var at := LatestAt(occs, latest, delay, k + 1); at.Some? && at.value.program == occs[k].program
  {
    LatestStep(occs, latest, delay, k);
  }

  /** Starts that respect the requested ones and leave the delay after every earlier run of another
      program: the schedules the pass could have produced while visiting in the same order. */
  ghost predicate Respects(starts: seq<int>, occs: seq<Occurrence>, latest: Option<Latest>, delay: int) {
    && |starts| == |occs|
    && (forall k :: 0 <= k < |occs| ==> starts[k] >= occs[k].start)
    && (forall k :: 0 <= k < |occs| && latest.Some? && latest.value.program != occs[k].program ==>
      starts[k] >= latest.value.end + delay)
    && (forall i, k :: 0 <= i < k < |occs| && occs[i].program != occs[k].program ==>
      starts[k] >= starts[i] + (occs[i].end - occs[i].start) + delay)
  }

  /** For all inputs: the pass starts every occurrence no later than any schedule that respects the delay. */
  lemma {:induction false} PauseIsEarliest(occs: seq<Occurrence>, latest: Option<Latest>, delay: int,
                                           starts: seq<int>, k: nat)
    requires Respects(starts, occs, latest, delay) && k < |occs| == |Paused(occs, latest, delay)|
    ensures Paused(occs, latest, delay)[k].start <= starts[k]
    decreases k
  {
    PausedAt(occs, latest, delay, k);
    LatestOwner(occs, latest, delay, k);
    var at, paused := LatestAt(occs, latest, delay, k), Paused(occs, latest, delay);
    if at != latest {
      var i :| 0 <= i < k && at == Some(Latest(occs[i].program, paused[i].end));
      PausedAt(occs, latest, delay, i);
      PauseIsEarliest(occs, latest, delay, starts, i);
    }
  }

  /** The earliest start of occurrence k that leaves the delay after the processed runs and after every
      earlier occurrence, as far as they are of another program. It reads the requested occurrences only. */
  function Need(occs: seq<Occurrence>, latest: Option<Latest>, delay: int, k: nat): int
    requires k < |occs|
    decreases k, k + 1
  {
    NeedAfter(occs, latest, delay, k, k)
  }

  /** The same, looking at the first n occurrences only. */
  function NeedAfter(occs: seq<Occurrence>, latest: Option<Latest>, delay: int, k: nat, n: nat): int
    requires n <= k < |occs|
    decreases k, n
  {
    if n == 0 then
      occs[k].start + ShiftFor(occs[k], latest, delay)
    else
      var others := NeedAfter(occs, latest, delay, k, n - 1);
      var gap := Need(occs, latest, delay, n - 1) + (occs[n - 1].end - occs[n - 1].start) + delay;
      if occs[n - 1].program != occs[k].program && others < gap then gap else others
  }

  /** start is late enough for occurrence k, if the first n start when they need to. */
  ghost predicate LateEnough(start: int, occs: seq<Occurrence>, latest: Option<Latest>, delay: int, k: nat, n: nat)
    requires n <= k < |occs|
  {
    && start >= occs[k].start
    && (latest.Some? && latest.value.program != occs[k].program ==> start >= latest.value.end + delay)
    && (forall i :: 0 <= i < n && occs[i].program != occs[k].program ==>
      start >= Need(occs, latest, delay, i) + (occs[i].end - occs[i].start) + delay)
  }

  lemma {:induction false} NeedIsLeast(occs: seq<Occurrence>, latest: Option<Latest>, delay: int, k: nat, n: nat,
                                       start: int)
    requires n <= k < |occs|
    ensures LateEnough(start, occs, latest, delay, k, n) <==> start >= NeedAfter(occs, latest, delay, k, n)
  {
    if n > 0 { NeedIsLeast(occs, latest, delay, k, n - 1, start); }
  }

  /** No respecting schedule starts an occurrence before it needs to. */
  lemma {:induction false} RespectingIsLater(occs: seq<Occurrence>, latest: Option<Latest>, delay: int,
                                             starts: seq<int>, k: nat)
    requires Respects(starts, occs, latest, delay) && k < |occs|
    ensures starts[k] >= Need(occs, latest, delay, k)
    decreases k
  {
    forall i | 0 <= i < k ensures starts[i] >= Need(occs, latest, delay, i) {
      RespectingIsLater(occs, latest, delay, starts, i);
    }
    NeedIsLeast(occs, latest, delay, k, k, starts[k]);
  }

  /** Starting every occurrence when it needs to respects the delay. */
  lemma NeedRespects(occs: seq<Occurrence>, latest: Option<Latest>, delay: int, starts: seq<int>)
    requires |starts| == |occs| && forall k :: 0 <= k < |occs| ==> starts[k] == Need(occs, latest, delay, k)
    ensures Respects(starts, occs, latest, delay)
  {
    forall k | 0 <= k < |occs| ensures LateEnough(starts[k], occs, latest, delay, k, k) {
      NeedIsLeast(occs, latest, delay, k, k, starts[k]);
    }
  }

  /** An occurrence visited directly after one of its own program need not move. That is the one case
      in which the pass leaves an occurrence where it is without looking at the other programs. */
  predicate NoneMissed(occs: seq<Occurrence>, latest: Option<Latest>, delay: int) {
    forall k :: 0 < k < |occs| && occs[k - 1].program == occs[k].program ==>
      Need(occs, latest, delay, k) == occs[k].start
  }

  ghost predicate StartsAre(starts: seq<int>, occs: seq<Occurrence>) {
    |starts| == |occs| && forall k :: 0 <= k < |occs| ==> starts[k] == occs[k].start
  }

  /** An occurrence directly after one of its own program is left where it is. */
  lemma SameProgramStays(occs: seq<Occurrence>, latest: Option<Latest>, delay: int, k: nat)
    requires WellFormed(occs) && delay > 0 && 0 < k < |occs| && occs[k - 1].program == occs[k].program
    ensures |Paused(occs, latest, delay)| == |occs| && Paused(occs, latest, delay)[k] == occs[k]
  {
    LatestProgram(occs, latest, delay, k - 1);
    PausedAt(occs, latest, delay, k);
  }

  /** The pass starts an occurrence when it needs to, if that holds of the earlier ones and the
      occurrence is not missed. */
  lemma PausedWhenNeeded(occs: seq<Occurrence>, latest: Option<Latest>, delay: int, k: nat)
    requires WellFormed(occs) && delay > 0 && k < |occs| == |Paused(occs, latest, delay)|
    requires forall i :: 0 <= i < k ==> Paused(occs, latest, delay)[i].start == Need(occs, latest, delay, i)
    requires 0 < k && occs[k - 1].program == occs[k].program ==> Need(occs, latest, delay, k) == occs[k].start
    ensures Paused(occs, latest, delay)[k].start == Need(occs, latest, delay, k)
  {
    var paused := Paused(occs, latest, delay);
    PausedAt(occs, latest, delay, k);
    LatestOwner(occs, latest, delay, k);
    if 0 < k && occs[k - 1].program == occs[k].program {
      SameProgramStays(occs, latest, delay, k);
    } else {
      forall i | 0 <= i < k
        ensures paused[i].end == Need(occs, latest, delay, i) + (occs[i].end - occs[i].start)
      {
        PausedAt(occs, latest, delay, i);
      }
      if k > 0 {
        LatestProgram(occs, latest, delay, k - 1);
        GapUnlessSameProgram(occs, latest, delay, k);
      }
      NeedIsLeast(occs, latest, delay, k, k, paused[k].start);
      NeedIsLeast(occs, latest, delay, k, k, Need(occs, latest, delay, k));
    }
  }

  lemma {:induction false} PausedIsNeeded(occs: seq<Occurrence>, latest: Option<Latest>, delay: int, n: nat)
    requires WellFormed(occs) && delay > 0 && n <= |occs| == |Paused(occs, latest, delay)|
    requires NoneMissed(occs, latest, delay)
    ensures forall k :: 0 <= k < n ==> Paused(occs, latest, delay)[k].start == Need(occs, latest, delay, k)
  {
    if n > 0 {
      PausedIsNeeded(occs, latest, delay, n - 1);
      PausedWhenNeeded(occs, latest, delay, n - 1);
    }
  }

  /** Exactly when the pass meets the delay. */
  lemma PauseRespectsExactly(occs: seq<Occurrence>, latest: Option<Latest>, delay: int, starts: seq<int>)
    requires WellFormed(occs) && delay > 0 && StartsAre(starts, Paused(occs, latest, delay))
    ensures Respects(starts, occs, latest, delay) <==> NoneMissed(occs, latest, delay)
  {
    PausedLength(occs, latest, delay);
    if NoneMissed(occs, latest, delay) {
      PausedIsNeeded(occs, latest, delay, |occs|);
      NeedRespects(occs, latest, delay, starts);
    }
    if Respects(starts, occs, latest, delay) {
      forall k | 0 < k < |occs| && occs[k - 1].program == occs[k].program
        ensures Need(occs, latest, delay, k) == occs[k].start
      {
        SameProgramStays(occs, latest, delay, k);
        RespectingIsLater(occs, latest, delay, starts, k);
        NeedIsLeast(occs, latest, delay, k, k, Need(occs, latest, delay, k));
      }
    }
  }

  /** Programs that never run twice in a row are all kept apart, however often they run. */
  lemma TakingTurnsRespects(occs: seq<Occurrence>, latest: Option<Latest>, delay: int, starts: seq<int>)
    requires WellFormed(occs) && delay > 0 && StartsAre(starts, Paused(occs, latest, delay))
    requires forall k :: 0 < k < |occs| ==> occs[k - 1].program != occs[k].program
    ensures Respects(starts, occs, latest, delay)
  {
    PauseRespectsExactly(occs, latest, delay, starts);
  }

  /** Runs of different programs end up the delay apart, in the order in which they are visited. */
  lemma PauseSeparates(occs: seq<Occurrence>, latest: Option<Latest>, delay: int, i: nat, k: nat)
    requires WellFormed(occs) && delay > 0 && NoneMissed(occs, latest, delay)
    requires i < k < |occs| == |Paused(occs, latest, delay)| && occs[i].program != occs[k].program
    ensures Paused(occs, latest, delay)[k].start >= Paused(occs, latest, delay)[i].end + delay
  {
    PausedAt(occs, latest, delay, i);
    PausedIsNeeded(occs, latest, delay, |occs|);
    NeedIsLeast(occs, latest, delay, k, k, Need(occs, latest, delay, k));
  }

  /** A schedule that respects the delay is left alone by the pass. */
  lemma {:induction false} RespectingIsKept(occs: seq<Occurrence>, latest: Option<Latest>, delay: int, starts: seq<int>)
    requires Respects(starts, occs, latest, delay) && StartsAre(starts, occs)
    ensures Paused(occs, latest, delay) == occs
  {
    PausedLength(occs, latest, delay);
    forall k | 0 <= k < |occs| ensures Paused(occs, latest, delay)[k] == occs[k] {
      PausedAt(occs, latest, delay, k);
      PauseIsEarliest(occs, latest, delay, starts, k);
    }
  }

  /** For all inputs: a second pass in the same order changes nothing. */
  lemma {:induction false} PauseIsIdempotent(occs: seq<Occurrence>, latest: Option<Latest>, delay: int)
    ensures Paused(Paused(occs, latest, delay), latest, delay) == Paused(occs, latest, delay)
  {
    if occs != [] {
      var o := Shifted(occs[0], ShiftFor(occs[0], latest, delay));
      var tail := Paused(occs[1..], LatestAfter(latest, o), delay);
      PauseIsIdempotent(occs[1..], LatestAfter(latest, o), delay);
      assert ([o] + tail)[1..] == tail;
      assert Shifted(o, 0) == o;
    }
  }

  /** A second pass visits in the same order exactly if the pass met the delay. */
  lemma SameOrderExactly(occs: seq<Occurrence>, latest: Option<Latest>, delay: int)
    requires WellFormed(occs) && delay > 0 && InOrder(occs)
    ensures InOrder(Paused(occs, latest, delay)) <==> NoneMissed(occs, latest, delay)
  {
    PausedLength(occs, latest, delay);
    if NoneMissed(occs, latest, delay) {
      OrderIsKept(occs, latest, delay);
    }
    if InOrder(Paused(occs, latest, delay)) {
      OrderMeansNoneMissed(occs, latest, delay, |occs|);
    }
  }

  lemma OrderIsKept(occs: seq<Occurrence>, latest: Option<Latest>, delay: int)
    requires WellFormed(occs) && delay > 0 && InOrder(occs) && |Paused(occs, latest, delay)| == |occs|
    requires NoneMissed(occs, latest, delay)
    ensures InOrder(Paused(occs, latest, delay))
  {
    var paused := Paused(occs, latest, delay);
    PausedIsNeeded(occs, latest, delay, |occs|);
    forall i, k | 0 <= i < k < |occs| ensures Before(paused[i], paused[k]) {
      PausedAt(occs, latest, delay, i);
      PausedAt(occs, latest, delay, k);
      if occs[i].program != occs[k].program {
        PauseSeparates(occs, latest, delay, i, k);
      } else {
        // what occurrence i needs, a later one of its program needs as well
        var need := Need(occs, latest, delay, k);
        NeedIsLeast(occs, latest, delay, k, k, need);
        assert Before(occs[i], occs[k]);
        NeedIsLeast(occs, latest, delay, i, i, need);
      }
    }
  }

  lemma OrderMeansNotMissed(occs: seq<Occurrence>, latest: Option<Latest>, delay: int, k: nat)
    requires WellFormed(occs) && delay > 0 && 0 < k < |occs| == |Paused(occs, latest, delay)|
    requires occs[k - 1].program == occs[k].program
    requires Before(Paused(occs, latest, delay)[k - 1], Paused(occs, latest, delay)[k])
    requires Paused(occs, latest, delay)[k - 1].start == Need(occs, latest, delay, k - 1)
    ensures Need(occs, latest, delay, k) == occs[k].start
  {
    SameProgramStays(occs, latest, delay, k);
    var before, start := Need(occs, latest, delay, k - 1), occs[k].start;
    assert LateEnough(before, occs, latest, delay, k - 1, k - 1) by {
      NeedIsLeast(occs, latest, delay, k - 1, k - 1, before);
    }
    assert LateEnough(start, occs, latest, delay, k, k);
    NeedIsLeast(occs, latest, delay, k, k, start);
    NeedIsLeast(occs, latest, delay, k, k, Need(occs, latest, delay, k));
  }

  lemma {:induction false} OrderMeansNoneMissed(occs: seq<Occurrence>, latest: Option<Latest>, delay: int, n: nat)
    requires WellFormed(occs) && delay > 0 && n <= |occs| == |Paused(occs, latest, delay)|
    requires InOrder(Paused(occs, latest, delay))
    ensures forall k :: 0 <= k < n ==> Paused(occs, latest, delay)[k].start == Need(occs, latest, delay, k)
    ensures forall k :: 0 < k < n && occs[k - 1].program == occs[k].program ==>
      Need(occs, latest, delay, k) == occs[k].start
  {
    if n > 0 {
      var k := n - 1;
      OrderMeansNoneMissed(occs, latest, delay, k);
      if 0 < k && occs[k - 1].program == occs[k].program {
        OrderMeansNotMissed(occs, latest, delay, k);
      }
      PausedWhenNeeded(occs, latest, delay, k);
    }
  }

  /** With two occurrences of a program the delay can be missed: the second run of program 2 stays
      where it overlaps program 1. */
  lemma SecondOccurrenceEscapesPause()
    ensures exists occs: seq<Occurrence>, latest: Option<Latest>, delay: int ::
      && WellFormed(occs) && delay > 0 && InOrder(occs)
      && var paused := Paused(occs, latest, delay);
        |paused| == 3 && paused[0].program != paused[2].program && paused[2].start < paused[0].end
  {
    var occs := [Occurrence(1, 0, 10), Occurrence(2, 5, 15), Occurrence(2, 6, 16)];
    var a, b, c := Occurrence(1, 0, 10), Occurrence(2, 20, 30), Occurrence(2, 6, 16);
    assert occs[1..] == [occs[1], occs[2]] && occs[1..][1..] == [occs[2]] && [occs[2]][1..] == [];
    assert Paused([occs[2]], Some(Latest(2, 30)), 10) == [c] + Paused([], Some(Latest(2, 30)), 10);
    assert Paused(occs[1..], Some(Latest(1, 10)), 10) == [b] + Paused([occs[2]], Some(Latest(2, 30)), 10);
    assert Paused(occs, None, 10) == [a] + Paused(occs[1..], Some(Latest(1, 10)), 10) == [a, b, c];
  }

  // ---- the pass over the interval records ----

  /** A run already in the log: it may reserve the first pause. */
  datatype Processed = Processed(program: int, manual: bool, blocked: bool, end: int) {
    predicate Counts() {
      !manual && !blocked && program >= 0
    }
  }

  predicate Eligible(interval: Interval)
    reads interval`blocked
  {
    !interval.manual && interval.blocked.Free? && interval.program >= 0
  }

  /** Occurrences are keyed by program and original start. */
  datatype Key = Key(program: int, originalStart: int)

  function KeyOf(interval: Interval): Key {
    Key(interval.program, interval.originalStart)
  }

  /** Run i counts, no counted run ends later, and no earlier one ends at the same time. */
  ghost predicate LastsLongest(processed: seq<Processed>, i: nat)
    requires i < |processed|
  {
    && processed[i].Counts()
    && forall j :: 0 <= j < |processed| && processed[j].Counts() ==>
      processed[j].end <= processed[i].end && (j < i ==> processed[j].end < processed[i].end)
  }

  /** max(completed, key=end): the first of the latest-ending counted runs. */
  ghost predicate IsLatest(latest: Option<Latest>, processed: seq<Processed>) {
    && (latest.None? <==> forall p :: p in processed ==> !p.Counts())
    && (latest.Some? ==> exists i: nat ::
      i < |processed| && LastsLongest(processed, i) && latest.value == Latest(processed[i].program, processed[i].end))
  }

  lemma LatestIsUnique(a: Option<Latest>, b: Option<Latest>, processed: seq<Processed>)
    requires IsLatest(a, processed) && IsLatest(b, processed)
    ensures a == b
  {
    if a.Some? && b.Some? {
      var i: nat :| i < |processed| && LastsLongest(processed, i)
        && a.value == Latest(processed[i].program, processed[i].end);
      var j: nat :| j < |processed| && LastsLongest(processed, j)
        && b.value == Latest(processed[j].program, processed[j].end);
      assert i == j;
    }
  }

  method LatestProcessed(processed: seq<Processed>) returns (latest: Option<Latest>)
    ensures IsLatest(latest, processed)
  {
    latest := None;
    for i := 0 to |processed|
      invariant IsLatest(latest, processed[..i])
    {
      var p := processed[i];
      ghost var seen := processed[..i];
      assert processed[..i + 1] == seen + [p];
      assert p in processed[..i + 1];
      if p.Counts() && (latest.None? || p.end > latest.value.end) {
        latest := Some(Latest(p.program, p.end));
        assert LastsLongest(processed[..i + 1], i);
      } else if latest.Some? {
        ghost var j: nat :| j < i && LastsLongest(seen, j) && latest.value == Latest(seen[j].program, seen[j].end);
        assert LastsLongest(processed[..i + 1], j);
      }
    }
    assert processed[..|processed|] == processed;
  }

  /** members are the eligible intervals with this key, each once. */
  ghost predicate GroupOf(members: seq<Interval>, key: Key, intervals: seq<Interval>)
    reads intervals`blocked
  {
    && Distinct(members)
    && (forall x :: x in members ==> x in intervals && Eligible(x) && KeyOf(x) == key)
    && (forall x :: x in intervals && Eligible(x) && KeyOf(x) == key ==> x in members)
  }

  ghost predicate Grouped(occurrences: map<Key, seq<Interval>>, intervals: seq<Interval>)
    reads intervals`blocked
  {
    && (forall key :: key in occurrences ==> occurrences[key] != [] && GroupOf(occurrences[key], key, intervals))
    && (forall x :: x in intervals && Eligible(x) ==> KeyOf(x) in occurrences)
  }

  /** The keys of the eligible intervals by first appearance: the order of the dict. */
  ghost function KeysSeen(intervals: seq<Interval>): seq<Key>
    reads intervals`blocked
  {
    if intervals == [] then [] else
      var n := |intervals| - 1;
      assert forall x :: x in intervals[..n] ==> x in intervals;
      var keys := KeysSeen(intervals[..n]);
      if Eligible(intervals[n]) && KeyOf(intervals[n]) !in keys then keys + [KeyOf(intervals[n])] else keys
  }

  lemma GroupsGrow(occurrences: map<Key, seq<Interval>>, seen: seq<Interval>, next: Interval)
    requires Grouped(occurrences, seen) && next !in seen
    ensures var key := KeyOf(next);
      if !Eligible(next) then Grouped(occurrences, seen + [next])
      else if key in occurrences then Grouped(occurrences[key := occurrences[key] + [next]], seen + [next])
      else Grouped(occurrences[key := [next]], seen + [next])
  {
  }

  /** occurrences.setdefault(key, []).append(interval), for every eligible interval; keys in dict order. */
  method GroupOccurrences(intervals: seq<Interval>) returns (occurrences: map<Key, seq<Interval>>, keys: seq<Key>)
    requires Distinct(intervals)
    ensures Grouped(occurrences, intervals)
    ensures keys == KeysSeen(intervals) && Distinct(keys) && forall key :: key in keys <==> key in occurrences
  {
    occurrences, keys := map[], [];
    for i := 0 to |intervals|
      invariant Grouped(occurrences, intervals[..i])
      invariant keys == KeysSeen(intervals[..i]) && Distinct(keys) && forall key :: key in keys <==> key in occurrences
    {
      var next := intervals[i];
      assert next !in intervals[..i];
      assert intervals[..i + 1] == intervals[..i] + [next];
      GroupsGrow(occurrences, intervals[..i], next);
      if Eligible(next) {
        if KeyOf(next) !in occurrences {
          keys := keys + [KeyOf(next)];
          occurrences := occurrences[KeyOf(next) := [next]];
        } else {
          occurrences := occurrences[KeyOf(next) := occurrences[KeyOf(next)] + [next]];
        }
      }
    }
    assert intervals[..|intervals|] == intervals;
  }

  ghost function PlaceIn(keys: seq<Key>, key: Key): (p: nat)
    ensures p <= |keys| && (key in keys ==> p < |keys| && keys[p] == key)
  {
    if keys == [] || keys[0] == key then 0 else 1 + PlaceIn(keys[1..], key)
  }

  /** In order and, where two occurrences have the same start and program, in the order of keys. */
  ghost predicate Precedes(x: Key, a: Occurrence, y: Key, b: Occurrence, keys: seq<Key>) {
    || a.start < b.start
    || (a.start == b.start && a.program < b.program)
    || (a.start == b.start && a.program == b.program && PlaceIn(keys, x) < PlaceIn(keys, y))
  }

  ghost predicate Sorted(ordered: seq<Key>, table: map<Key, Occurrence>, keys: seq<Key>) {
    && (forall i :: 0 <= i < |ordered| ==> ordered[i] in table)
    && (forall i, j :: 0 <= i < j < |ordered| ==>
      Precedes(ordered[i], table[ordered[i]], ordered[j], table[ordered[j]], keys))
  }

  function InsertKey(key: Key, ordered: seq<Key>, table: map<Key, Occurrence>, ghost keys: seq<Key>): (r: seq<Key>)
    requires Sorted(ordered, table, keys) && Distinct(ordered) && key in table && key !in ordered
    requires forall x :: x in ordered ==> PlaceIn(keys, x) < PlaceIn(keys, key)
    ensures Sorted(r, table, keys) && Distinct(r)
    ensures forall x :: x in r <==> x == key || x in ordered
  {
    if ordered == [] || !Before(table[ordered[0]], table[key]) then
      [key] + ordered
    else
      assert forall x :: x in ordered <==> x == ordered[0] || x in ordered[1..];
      var r := InsertKey(key, ordered[1..], table, keys);
      assert forall i :: 0 <= i < |r| ==> r[i] in r;
      assert forall x :: x in ordered[1..] ==>
        Precedes(ordered[0], table[ordered[0]], x, table[x], keys) && x != ordered[0];
      [ordered[0]] + r
  }

  /** The first n keys sorted, each inserted behind what may stand before it. */
  function SortFirst(keys: seq<Key>, table: map<Key, Occurrence>, n: nat): (ordered: seq<Key>)
    requires n <= |keys| && Distinct(keys) && forall i :: 0 <= i < |keys| ==> keys[i] in table
    ensures Sorted(ordered, table, keys) && Distinct(ordered)
    ensures forall key :: key in ordered <==> key in keys[..n]
    ensures forall key :: key in ordered ==> PlaceIn(keys, key) < n
  {
    if n == 0 then [] else
      assert keys[..n] == keys[..n - 1] + [keys[n - 1]];
      assert PlaceIn(keys, keys[n - 1]) == n - 1;
      InsertKey(keys[n - 1], SortFirst(keys, table, n - 1), table, keys)
  }

  /** sorted(occurrences, key=(first start, program)), stable. */
  function SortOccurrences(keys: seq<Key>, table: map<Key, Occurrence>): (ordered: seq<Key>)
    requires Distinct(keys) && forall i :: 0 <= i < |keys| ==> keys[i] in table
    ensures Sorted(ordered, table, keys) && Distinct(ordered)
    ensures forall key :: key in ordered <==> key in keys
  {
    assert keys[..|keys|] == keys;
    SortFirst(keys, table, |keys|)
  }

  /** o runs from the first start to the last end of a group. */
  ghost predicate Spans(o: Occurrence, group: seq<Interval>)
    reads group`start, group`end
  {
    && (forall x :: x in group ==> o.start <= x.start && x.end <= o.end && x.program == o.program)
    && (exists x :: x in group && o.start == x.start)
    && (exists x :: x in group && o.end == x.end)
  }

  /** o runs from the first start to the last end of the eligible intervals with a key. */
  ghost predicate SpansKey(o: Occurrence, key: Key, intervals: seq<Interval>)
    reads intervals`start, intervals`end, intervals`blocked
  {
    && o.program == key.program
    && (forall x :: x in intervals && Eligible(x) && KeyOf(x) == key ==> o.start <= x.start && x.end <= o.end)
    && (exists x :: x in intervals && Eligible(x) && KeyOf(x) == key && o.start == x.start)
    && (exists x :: x in intervals && Eligible(x) && KeyOf(x) == key && o.end == x.end)
  }

  /** min(start) and max(end) of a group. */
  function SpanOf(group: seq<Interval>): (o: Occurrence)
    requires group != [] && forall x :: x in group ==> x.program == group[0].program
    reads group`start, group`end
    ensures Spans(o, group)
  {
    var x := group[|group| - 1];
    assert x in group;
    if |group| == 1 then Occurrence(x.program, x.start, x.end)
    else
      var front := group[..|group| - 1];
      assert group == front + [x] && forall y :: y in front ==> y in group;
      Joined(SpanOf(front), x, front)
  }

  function Joined(o: Occurrence, x: Interval, ghost front: seq<Interval>): (p: Occurrence)
    requires Spans(o, front) && x.program == o.program
    reads front`start, front`end, x`start, x`end
    ensures Spans(p, front + [x])
  {
    assert exists y :: y in front + [x] && y.start == if x.start < o.start then x.start else o.start by {
      var y :| y in front && o.start == y.start;
      assert y in front + [x] && x in front + [x];
    }
    assert exists y :: y in front + [x] && y.end == if x.end > o.end then x.end else o.end by {
      var y :| y in front && o.end == y.end;
      assert y in front + [x] && x in front + [x];
    }
    Occurrence(o.program, if x.start < o.start then x.start else o.start, if x.end > o.end then x.end else o.end)
  }

  lemma SpanIsUnique(o: Occurrence, p: Occurrence, group: seq<Interval>)
    requires Spans(o, group) && Spans(p, group)
    ensures o == p
  {
  }

  /** The groups with their spans. */
  method SpanTable(occurrences: map<Key, seq<Interval>>, ghost keys: seq<Key>, ghost intervals: seq<Interval>)
    returns (table: map<Key, Occurrence>)
    requires Grouped(occurrences, intervals) && keys == KeysSeen(intervals)
    ensures Grouped(occurrences, intervals) && keys == KeysSeen(intervals)
    ensures table.Keys == occurrences.Keys && forall key :: key in table ==> Spans(table[key], occurrences[key])
  {
    forall key | key in occurrences
      ensures occurrences[key] != [] && forall x :: x in occurrences[key] ==> x.program == occurrences[key][0].program
    {
      assert occurrences[key][0] in occurrences[key];
    }
    table := map key | key in occurrences :: SpanOf(occurrences[key]);
  }

  method ShiftGroup(group: seq<Interval>, shift: int)
    requires Distinct(group)
    modifies group`start, group`end
    ensures forall x :: x in group ==>
      x.start == old(x.start) + shift && x.end == old(x.end) + shift
  {
    for i := 0 to |group|
      invariant forall k :: 0 <= k < i ==>
        && group[k].start == old(group[k].start) + shift
        && group[k].end == old(group[k].end) + shift
      invariant forall k :: i <= k < |group| ==> unchanged(group[k])
    {
      group[i].Shift(shift);
    }
  }

  /** The shifting part of the loop body. */
  method ShiftOccurrence(group: seq<Interval>, shift: int, ghost o: Occurrence)
    requires Distinct(group) && Spans(o, group)
    modifies group`start, group`end
    ensures Spans(Shifted(o, shift), group)
    ensures forall x :: x in group ==>
      x.start == old(x.start) + shift && x.end == old(x.end) + shift
  {
    ghost var x :| x in group && o.start == x.start;
    ghost var y :| y in group && o.end == y.end;
    ShiftGroup(group, shift);
    assert x.start == o.start + shift && y.end == o.end + shift;
  }

  /** One pass of the loop: shift the whole occurrence if another program's latest end demands it. */
  method PauseOccurrence(group: seq<Interval>, latest: Option<Latest>, delay: int, ghost o: Occurrence)
    returns (latest': Option<Latest>)
    requires Distinct(group) && Spans(o, group)
    modifies group`start, group`end
    ensures latest' == LatestAfter(latest, Shifted(o, ShiftFor(o, latest, delay)))
    ensures var s := ShiftFor(o, latest, delay); forall x :: x in group ==>
      x.start == old(x.start) + s && x.end == old(x.end) + s
  {
    ghost var x :| x in group && o.start == x.start;
    assert group[0] in group;
    var span := SpanOf(group);
    SpanIsUnique(o, span, group);
    var shift := ShiftFor(span, latest, delay);
    ShiftOccurrence(group, shift, o);
    assert group[0] in group;
    var moved := SpanOf(group);
    SpanIsUnique(Shifted(o, shift), moved, group);
    latest' := LatestAfter(latest, moved);
  }

  ghost predicate ShiftedBy(x: Interval, start: int, end: int, s: int)
    reads x
  {
    x.start == start + s && x.end == end + s
  }

  /** The shift of occurrence j. */
  ghost function ShiftAt(occs: seq<Occurrence>, latest: Option<Latest>, delay: int, j: nat): int
    requires j < |occs|
  {
    ShiftFor(occs[j], LatestAt(occs, latest, delay, j), delay)
  }

  /** occs[j] spans group j, which holds distinct records. */
  ghost predicate GroupSpan(groups: seq<seq<Interval>>, occs: seq<Occurrence>, j: nat)
    requires j < |groups| == |occs|
    reads groups[j]
  {
    Distinct(groups[j]) && Spans(occs[j], groups[j])
  }

  /** owner says in which group each record is; none is in two groups. */
  ghost predicate Owns(owner: map<Interval, nat>, groups: seq<seq<Interval>>) {
    && (forall j :: 0 <= j < |groups| ==> forall x :: x in groups[j] ==> x in owner && owner[x] == j)
    && (forall x :: x in owner ==> owner[x] < |groups| && x in groups[owner[x]])
  }

  /** The loop over the occurrences in order. */
  method PauseGroups(groups: seq<seq<Interval>>, latest: Option<Latest>, delay: int,
                     ghost occs: seq<Occurrence>, ghost shifts: seq<int>, ghost owner: map<Interval, nat>)
    requires Owns(owner, groups) && |occs| == |groups| && forall j {:trigger GroupSpan(groups, occs, j)} ::
      0 <= j < |groups| ==> GroupSpan(groups, occs, j)
    requires |shifts| == |occs| && forall j {:trigger ShiftAt(occs, latest, delay, j)} ::
      0 <= j < |shifts| ==> shifts[j] == ShiftAt(occs, latest, delay, j)
    modifies owner.Keys`start, owner.Keys`end
    ensures forall x :: x in owner ==>
      ShiftedBy(x, old(x.start), old(x.end), shifts[owner[x]])
  {
    var current := latest;
    for i := 0 to |groups|
      invariant forall x :: x in owner && owner[x] >= i ==> unchanged(x)
      invariant forall x :: x in owner && owner[x] < i ==>
        ShiftedBy(x, old(x.start), old(x.end), shifts[owner[x]])
      invariant current == LatestAt(occs, latest, delay, i)
    {
      assert GroupSpan(groups, occs, i);
      assert ShiftAt(occs, latest, delay, i) == shifts[i];
      assert forall x :: x in owner ==> (owner[x] == i <==> x in groups[i]);
      label before:
      current := PauseOccurrence(groups[i], current, delay, occs[i]);
      LatestStep(occs, latest, delay, i);
      forall x | x in owner && owner[x] <= i ensures ShiftedBy(x, old(x.start), old(x.end), shifts[owner[x]]) {
        assert x in groups[i] || (x.start == old@before(x.start) && x.end == old@before(x.end));
      }
    }
  }

  function Lookup<V>(keys: seq<Key>, m: map<Key, V>): (values: seq<V>)
    requires forall key :: key in keys ==> key in m
    ensures |values| == |keys| && forall j :: 0 <= j < |keys| ==> keys[j] in m && values[j] == m[keys[j]]
  {
    if keys == [] then [] else
      assert forall key :: key in keys[1..] ==> key in keys;
      [m[keys[0]]] + Lookup(keys[1..], m)
  }

  ghost predicate Visited(ordered: seq<Key>, occs: seq<Occurrence>, keys: seq<Key>)
    requires |occs| == |ordered|
  {
    forall i, j {:trigger Precedes(ordered[i], occs[i], ordered[j], occs[j], keys)} :: 0 <= i < j < |ordered| ==>
      Precedes(ordered[i], occs[i], ordered[j], occs[j], keys)
  }

  /** The occurrences of a list of intervals in visiting order: one per key, spanning its intervals. */
  ghost predicate Occurrences(ordered: seq<Key>, occs: seq<Occurrence>, intervals: seq<Interval>)
    reads intervals`start, intervals`end, intervals`blocked
  {
    && |occs| == |ordered| && Distinct(ordered) && Visited(ordered, occs, KeysSeen(intervals))
    && (forall j {:trigger SpansKey(occs[j], ordered[j], intervals)} :: 0 <= j < |ordered| ==>
      SpansKey(occs[j], ordered[j], intervals))
    && (forall x :: x in intervals && Eligible(x) ==> KeyOf(x) in ordered)
  }

  lemma SortedIsVisited(ordered: seq<Key>, table: map<Key, Occurrence>, keys: seq<Key>)
    requires Sorted(ordered, table, keys)
    requires forall key :: key in ordered ==> key in table
    ensures Visited(ordered, Lookup(ordered, table), keys)
  {
    var occs := Lookup(ordered, table);
    forall i, j | 0 <= i < j < |ordered| ensures Precedes(ordered[i], occs[i], ordered[j], occs[j], keys) {
      assert Precedes(ordered[i], table[ordered[i]], ordered[j], table[ordered[j]], keys);
    }
  }

  lemma VisitedInOrder(ordered: seq<Key>, occs: seq<Occurrence>, keys: seq<Key>)
    requires |occs| == |ordered| && Visited(ordered, occs, keys)
    ensures InOrder(occs)
  {
    forall i, k | 0 <= i < k < |occs| ensures Before(occs[i], occs[k]) {
      assert Precedes(ordered[i], occs[i], ordered[k], occs[k], keys);
    }
  }

  /** Looked up in visiting order, the groups and their spans are those of their keys. */
  lemma GroupsOfKeys(intervals: seq<Interval>, occurrences: map<Key, seq<Interval>>, table: map<Key, Occurrence>,
                     keys: seq<Key>, ordered: seq<Key>, groups: seq<seq<Interval>>, occs: seq<Occurrence>)
    requires Grouped(occurrences, intervals) && table.Keys == occurrences.Keys
    requires forall key :: key in table ==> Spans(table[key], occurrences[key])
    requires forall key :: key in ordered ==> key in occurrences
    requires groups == Lookup(ordered, occurrences) && occs == Lookup(ordered, table)
    requires keys == KeysSeen(intervals) && Sorted(ordered, table, keys) && Distinct(ordered)
    requires forall key :: key in occurrences ==> key in ordered
    ensures Occurrences(ordered, occs, intervals)
    ensures forall j {:trigger GroupSpan(groups, occs, j)} :: 0 <= j < |groups| ==> GroupSpan(groups, occs, j)
    ensures forall j {:trigger groups[j]} :: 0 <= j < |groups| ==> GroupOf(groups[j], ordered[j], intervals)
  {
    SortedIsVisited(ordered, table, keys);
    forall j | 0 <= j < |ordered|
      ensures GroupOf(groups[j], ordered[j], intervals) && GroupSpan(groups, occs, j)
      ensures SpansKey(occs[j], ordered[j], intervals)
    {
      assert ordered[j] in ordered;
    }
  }

  method OrderedGroups(intervals: seq<Interval>)
    returns (ordered: seq<Key>, groups: seq<seq<Interval>>, occs: seq<Occurrence>)
    requires Distinct(intervals)
    ensures Occurrences(ordered, occs, intervals) && |groups| == |ordered|
    ensures forall j {:trigger GroupSpan(groups, occs, j)} :: 0 <= j < |groups| ==> GroupSpan(groups, occs, j)
    ensures forall j {:trigger groups[j]} :: 0 <= j < |groups| ==> GroupOf(groups[j], ordered[j], intervals)
  {
    var occurrences, keys := GroupOccurrences(intervals);
    var table := SpanTable(occurrences, keys, intervals);
    assert forall i :: 0 <= i < |keys| ==> keys[i] in keys;
    ordered := SortOccurrences(keys, table);
    assert forall key :: key in ordered ==> key in occurrences;
    groups := Lookup(ordered, occurrences);
    occs := Lookup(ordered, table);
    GroupsOfKeys(intervals, occurrences, table, keys, ordered, groups, occs);
  }

  /** Every eligible interval is owned by the group of its key, and no other interval is owned. */
  lemma OwnerOf(intervals: seq<Interval>, ordered: seq<Key>, groups: seq<seq<Interval>>)
    returns (owner: map<Interval, nat>)
    requires |groups| == |ordered| && Distinct(ordered)
    requires forall j {:trigger groups[j]} :: 0 <= j < |groups| ==> GroupOf(groups[j], ordered[j], intervals)
    requires forall x :: x in intervals && Eligible(x) ==> KeyOf(x) in ordered
    ensures Owns(owner, groups)
    ensures forall x :: x in owner <==> x in intervals && Eligible(x)
    ensures forall x :: x in owner ==> KeyOf(x) == ordered[owner[x]]
  {
    owner := map x | x in intervals && Eligible(x) :: var j :| 0 <= j < |ordered| && ordered[j] == KeyOf(x); j;
    forall j, x | 0 <= j < |groups| && x in groups[j] ensures x in owner && owner[x] == j {
      assert KeyOf(x) == ordered[j];
    }
  }

  ghost function Shifts(occs: seq<Occurrence>, latest: Option<Latest>, delay: int): (s: seq<int>)
    ensures |s| == |occs| && forall j :: 0 <= j < |s| ==> s[j] == ShiftAt(occs, latest, delay, j)
  {
    seq(|occs|, j requires 0 <= j < |occs| => ShiftAt(occs, latest, delay, j))
  }

  ghost predicate Lasting(intervals: seq<Interval>)
    reads intervals`start, intervals`end, intervals`blocked
  {
    forall x :: x in intervals && Eligible(x) ==> x.start <= x.end
  }

  /** Eligible records of different programs are the delay apart, in the order of their occurrences, and
      the delay after the latest processed run if that is of another program. */
  ghost predicate Apart(intervals: seq<Interval>, ordered: seq<Key>, latest: Option<Latest>, delay: int)
    reads intervals`start, intervals`end, intervals`blocked
  {
    && (forall x, y, i: nat, j: nat ::
      x in intervals && y in intervals && Eligible(x) && Eligible(y) && x.program != y.program ==>
      i < j < |ordered| && KeyOf(x) == ordered[i] && KeyOf(y) == ordered[j] ==> x.end + delay <= y.start)
    && (forall x :: x in intervals && Eligible(x) && latest.Some? && latest.value.program != x.program ==>
      latest.value.end + delay <= x.start)
  }

  lemma LastingIsWellFormed(intervals: seq<Interval>, ordered: seq<Key>, occs: seq<Occurrence>)
    requires Occurrences(ordered, occs, intervals) && Lasting(intervals)
    ensures WellFormed(occs)
  {
    forall k | 0 <= k < |occs| ensures occs[k].start <= occs[k].end {
      assert SpansKey(occs[k], ordered[k], intervals);
    }
  }

  /** The gap between two occurrences holds for the records inside them. */
  lemma ShiftedApart(occs: seq<Occurrence>, latest: Option<Latest>, delay: int, i: nat, j: nat, end: int, start: int)
    requires WellFormed(occs) && delay > 0 && NoneMissed(occs, latest, delay)
    requires i < j < |occs| && occs[i].program != occs[j].program && end <= occs[i].end && occs[j].start <= start
    ensures end + ShiftAt(occs, latest, delay, i) + delay <= start + ShiftAt(occs, latest, delay, j)
  {
    PausedAt(occs, latest, delay, i);
    PausedAt(occs, latest, delay, j);
    PauseSeparates(occs, latest, delay, i, j);
  }

  lemma ShiftedAfterLatest(occs: seq<Occurrence>, latest: Option<Latest>, delay: int, j: nat, start: int)
    requires WellFormed(occs) && delay > 0 && NoneMissed(occs, latest, delay)
    requires j < |occs| && occs[j].start <= start && latest.Some? && latest.value.program != occs[j].program
    ensures latest.value.end + delay <= start + ShiftAt(occs, latest, delay, j)
  {
    PausedAt(occs, latest, delay, j);
    PausedIsNeeded(occs, latest, delay, |occs|);
    NeedIsLeast(occs, latest, delay, j, j, Need(occs, latest, delay, j));
  }

  /** The records of a all end the delay before the first record of b. */
  ghost predicate KeysApart(intervals: seq<Interval>, a: Key, b: Key, delay: int)
    reads intervals`start, intervals`end, intervals`blocked
  {
    forall x, y :: x in intervals && y in intervals && Eligible(x) && Eligible(y) ==>
      KeyOf(x) == a && KeyOf(y) == b ==> x.end + delay <= y.start
  }

  lemma SpanGap(o: Occurrence, p: Occurrence, a: Key, b: Key, intervals: seq<Interval>, delay: int)
    requires SpansKey(o, a, intervals) && SpansKey(p, b, intervals) && KeysApart(intervals, a, b, delay)
    ensures o.end + delay <= p.start
  {
  }

  lemma ApartEitherWay(intervals: seq<Interval>, was: seq<Key>, latest: Option<Latest>, delay: int, a: Key, b: Key)
    requires Apart(intervals, was, latest, delay) && a in was && b in was && a.program != b.program
    ensures KeysApart(intervals, a, b, delay) || KeysApart(intervals, b, a, delay)
  {
    var i :| 0 <= i < |was| && was[i] == a;
    var j :| 0 <= j < |was| && was[j] == b;
    assert i != j;
  }

  lemma StaysApart(o: Occurrence, p: Occurrence, a: Key, b: Key, intervals: seq<Interval>, was: seq<Key>,
                   latest: Option<Latest>, delay: int)
    requires SpansKey(o, a, intervals) && SpansKey(p, b, intervals) && a in was && b in was
    requires Apart(intervals, was, latest, delay) && o.program != p.program && delay > 0
    requires o.start <= p.start <= p.end
    ensures o.end + delay <= p.start
  {
    ApartEitherWay(intervals, was, latest, delay, a, b);
    if KeysApart(intervals, a, b, delay) {
      SpanGap(o, p, a, b, intervals, delay);
    } else {
      SpanGap(p, o, b, a, intervals, delay);
    }
  }

  ghost predicate NoShift(occs: seq<Occurrence>, latest: Option<Latest>, delay: int) {
    forall j :: 0 <= j < |occs| ==> ShiftAt(occs, latest, delay, j) == 0
  }

  /** Records that are apart are apart in any visiting order. */
  lemma ApartStays(intervals: seq<Interval>, was: seq<Key>, ordered: seq<Key>, occs: seq<Occurrence>,
                   latest: Option<Latest>, delay: int)
    requires Apart(intervals, was, latest, delay) && Lasting(intervals) && delay > 0
    requires forall x :: x in intervals && Eligible(x) ==> KeyOf(x) in was
    requires Occurrences(ordered, occs, intervals)
    ensures NoShift(occs, latest, delay)
  {
    LastingIsWellFormed(intervals, ordered, occs);
    VisitedInOrder(ordered, occs, KeysSeen(intervals));
    var starts := seq(|occs|, k requires 0 <= k < |occs| => occs[k].start);
    forall i, k | 0 <= i < k < |occs| && occs[i].program != occs[k].program
      ensures starts[k] >= starts[i] + (occs[i].end - occs[i].start) + delay
    {
      assert SpansKey(occs[i], ordered[i], intervals) && SpansKey(occs[k], ordered[k], intervals);
      assert Before(occs[i], occs[k]);
      StaysApart(occs[i], occs[k], ordered[i], ordered[k], intervals, was, latest, delay);
    }
    forall k | 0 <= k < |occs| && latest.Some? && latest.value.program != occs[k].program
      ensures starts[k] >= latest.value.end + delay
    {
      assert SpansKey(occs[k], ordered[k], intervals);
    }
    RespectingIsKept(occs, latest, delay, starts);
    forall j | 0 <= j < |occs| ensures ShiftAt(occs, latest, delay, j) == 0 {
      PausedAt(occs, latest, delay, j);
    }
  }

  /** Every occurrence in order, over the records. */
  method PauseAll(intervals: seq<Interval>, latest: Option<Latest>, delay: int)
    returns (ghost ordered: seq<Key>, ghost occs: seq<Occurrence>)
    requires Distinct(intervals)
    modifies intervals`start, intervals`end
    ensures old(Occurrences(ordered, occs, intervals))
    ensures forall x :: x in intervals && !Eligible(x) ==> unchanged(x)
    ensures forall x: Interval, j: nat :: x in intervals && Eligible(x) && j < |ordered| && KeyOf(x) == ordered[j] ==>
      ShiftedBy(x, old(x.start), old(x.end), ShiftAt(occs, latest, delay, j))
  {
    var order, groups, spans := OrderedGroups(intervals);
    ordered, occs := order, spans;
    ghost var owner := OwnerOf(intervals, order, groups);
    PauseGroups(groups, latest, delay, occs, Shifts(occs, latest, delay), owner);
  }

  /** The same; if no occurrence is missed, the records are apart afterwards. */
  method PauseApart(intervals: seq<Interval>, latest: Option<Latest>, delay: int)
    returns (ghost ordered: seq<Key>, ghost occs: seq<Occurrence>)
    requires Distinct(intervals) && delay > 0
    modifies intervals`start, intervals`end
    ensures old(Occurrences(ordered, occs, intervals))
    ensures forall x :: x in intervals && !Eligible(x) ==> unchanged(x)
    ensures forall x: Interval, j: nat :: x in intervals && Eligible(x) && j < |ordered| && KeyOf(x) == ordered[j] ==>
      ShiftedBy(x, old(x.start), old(x.end), ShiftAt(occs, latest, delay, j))
    ensures WellFormed(occs) && NoneMissed(occs, latest, delay) ==> Apart(intervals, ordered, latest, delay)
  {
    ordered, occs := PauseAll(intervals, latest, delay);
    if WellFormed(occs) && NoneMissed(occs, latest, delay) {
      forall x, y, i: nat, j: nat |
        && x in intervals && y in intervals && Eligible(x) && Eligible(y) && x.program != y.program
        && i < j < |ordered| && KeyOf(x) == ordered[i] && KeyOf(y) == ordered[j]
        ensures x.end + delay <= y.start
      {
        assert old(SpansKey(occs[i], ordered[i], intervals)) && old(SpansKey(occs[j], ordered[j], intervals));
        ShiftedApart(occs, latest, delay, i, j, old(x.end), old(y.start));
      }
      forall x | x in intervals && Eligible(x) && latest.Some? && latest.value.program != x.program
        ensures latest.value.end + delay <= x.start
      {
        assert old(Eligible(x));
        ghost var j: nat :| j < |ordered| && ordered[j] == KeyOf(x);
        assert old(SpansKey(occs[j], ordered[j], intervals));
        ShiftedAfterLatest(occs, latest, delay, j, old(x.start));
      }
    }
  }

  /** The pause in force, in microseconds: the option, kept between 0 and one year. */
  function Delay(pauseSeconds: int): int {
    (if pauseSeconds < 0 then 0 else if pauseSeconds < 31536000 then pauseSeconds else 31536000) * SECOND
  }

  /** The pause pass: intervals of one occurrence move together by what Paused says for it; manual,
      blocked and program-less intervals stay. */
  method ApplyPause(intervals: seq<Interval>, processed: seq<Processed>, pauseSeconds: int)
    returns (ghost ordered: seq<Key>, ghost occs: seq<Occurrence>, ghost latest: Option<Latest>)
    requires Distinct(intervals)
    modifies intervals`start, intervals`end
    ensures forall x :: x in intervals && (pauseSeconds <= 0 || !Eligible(x)) ==> unchanged(x)
    ensures pauseSeconds > 0 ==> IsLatest(latest, processed) && old(Occurrences(ordered, occs, intervals))
    ensures pauseSeconds > 0 ==>
      forall x: Interval, j: nat :: x in intervals && Eligible(x) && j < |ordered| && KeyOf(x) == ordered[j] ==>
        ShiftedBy(x, old(x.start), old(x.end), ShiftAt(occs, latest, Delay(pauseSeconds), j))
    ensures pauseSeconds > 0 && WellFormed(occs) && NoneMissed(occs, latest, Delay(pauseSeconds)) ==>
      Apart(intervals, ordered, latest, Delay(pauseSeconds))
  {
    ordered, occs, latest := [], [], None;
    var delay := Delay(pauseSeconds);
    if delay > 0 {
      var current := LatestProcessed(processed);
      latest := current;
      ordered, occs := PauseApart(intervals, current, delay);
    }
  }

  /** Over records that are apart already, the pass changes nothing. */
  method ApplyAgain(intervals: seq<Interval>, processed: seq<Processed>, pauseSeconds: int,
                    ghost was: seq<Key>, ghost latest: Option<Latest>)
    requires Distinct(intervals) && Lasting(intervals) && pauseSeconds > 0 && IsLatest(latest, processed)
    requires forall x :: x in intervals && Eligible(x) ==> KeyOf(x) in was
    modifies intervals`start, intervals`end
    ensures forall x :: x in intervals && !Eligible(x) ==> unchanged(x)
    ensures old(Apart(intervals, was, latest, Delay(pauseSeconds))) ==> forall x :: x in intervals ==> unchanged(x)
  {
    ghost var delay := Delay(pauseSeconds);
    ghost var apart := Apart(intervals, was, latest, delay);
    if apart {
      forall order, spans | Occurrences(order, spans, intervals) ensures NoShift(spans, latest, delay) {
        ApartStays(intervals, was, order, spans, latest, delay);
      }
    }
    ghost var order, spans, latest' := ApplyPause(intervals, processed, pauseSeconds);
    LatestIsUnique(latest, latest', processed);
    if apart {
      assert old(Occurrences(order, spans, intervals));
      forall x | x in intervals && Eligible(x) ensures x.start == old(x.start) && x.end == old(x.end) {
        assert old(Eligible(x));
        ghost var j: nat :| j < |order| && order[j] == KeyOf(x);
        assert ShiftedBy(x, old(x.start), old(x.end), ShiftAt(spans, latest, delay, j));
      }
    }
  }

  /** A second pass leaves every record where the first one put it, if no occurrence was missed. */
  method ApplyTwice(intervals: seq<Interval>, processed: seq<Processed>, pauseSeconds: int)
    returns (ghost ordered: seq<Key>, ghost occs: seq<Occurrence>, ghost latest: Option<Latest>)
    requires Distinct(intervals) && Lasting(intervals) && pauseSeconds > 0
    modifies intervals`start, intervals`end
    ensures IsLatest(latest, processed) && old(Occurrences(ordered, occs, intervals))
    ensures forall x :: x in intervals && !Eligible(x) ==> unchanged(x)
    ensures NoneMissed(occs, latest, Delay(pauseSeconds)) ==>
      forall x: Interval, j: nat :: x in intervals && Eligible(x) && j < |ordered| && KeyOf(x) == ordered[j] ==>
        ShiftedBy(x, old(x.start), old(x.end), ShiftAt(occs, latest, Delay(pauseSeconds), j))
  {
    ordered, occs, latest := ApplyPause(intervals, processed, pauseSeconds);
    assert WellFormed(occs) by {
      forall k | 0 <= k < |occs| ensures occs[k].start <= occs[k].end {
        assert old(SpansKey(occs[k], ordered[k], intervals));
      }
    }
    ApplyAgain(intervals, processed, pauseSeconds, ordered, latest);
  }
}
