/** The log of watering runs (ospy/log.py) and the tick that starts and finishes them (ospy/scheduler.py). */
module RunLog {

  import opened Lists
  import opened Intervals
  import opened Results

  /** An interval of the schedule, as it is copied into the log. */
  datatype Run = Run(uid: string, station: nat, program: int, originalStart: int, start: int, end: int,
                     active: bool, blocked: bool, manual: bool, fixed: bool,
                     adjustment: real, cutOff: real, usage: real)

  /** What clear_runs reads: options, the clock, and the first midnight that some weather program still needs. */
  datatype Reading = Reading(time: int, runLog: bool, runEntries: int, stationDelay: int, minRuntime: int,
                             masterOffDelay: int, pruneTime: int, minEto: int)

  datatype Event = Started(uid: string) | Finished(uid: string)

  // Times are microseconds; every reading of the clock and of the options is a parameter.

  // ---- the log as a value ----

  function Uids(runs: seq<Run>): set<string> {
    if runs == [] then {} else {runs[0].uid} + Uids(runs[1..])
  }

  ghost predicate DistinctUids(runs: seq<Run>) {
    runs == [] || (runs[0].uid !in Uids(runs[1..]) && DistinctUids(runs[1..]))
  }

  ghost function ActiveUids(runs: seq<Run>): set<string> {
    if runs == [] then {} else (if runs[0].active then {runs[0].uid} else {}) + ActiveUids(runs[1..])
  }

  function Actives(runs: seq<Run>): seq<Run> {
    if runs == [] then [] else (if runs[0].active then [runs[0]] else []) + Actives(runs[1..])
  }

  /** The active runs are not blocked, and were not logged later than their end plus a minute. */
  ghost predicate ActiveRunsInTime(runs: seq<Run>) {
    forall r :: r in runs && r.active ==> !r.blocked && r.start <= r.end + 60 * SECOND
  }

  lemma {:induction false} UidsOf(runs: seq<Run>, u: string)
    ensures u in Uids(runs) <==> exists r :: r in runs && r.uid == u
  {
    if runs != [] {
      UidsOf(runs[1..], u);
      assert runs == [runs[0]] + runs[1..];
    }
  }

  lemma {:induction false} UidsAppend(a: seq<Run>, b: seq<Run>)
    ensures Uids(a + b) == Uids(a) + Uids(b) && ActiveUids(a + b) == ActiveUids(a) + ActiveUids(b)
  {
    if a == [] {
      assert a + b == b;
    } else {
      UidsAppend(a[1..], b);
      assert (a + b)[1..] == a[1..] + b;
    }
  }

  lemma {:induction false} DistinctAppend(a: seq<Run>, b: Run)
    requires DistinctUids(a) && b.uid !in Uids(a)
    ensures DistinctUids(a + [b])
  {
    if a != [] {
      DistinctAppend(a[1..], b);
      UidsAppend(a[1..], [b]);
      assert (a + [b])[1..] == a[1..] + [b];
    }
  }

  lemma {:induction false} ActivesAreUids(runs: seq<Run>)
    ensures ActiveUids(runs) == Uids(Actives(runs)) <= Uids(runs)
    decreases |runs|
  {
    if runs != [] {
      var rest := Actives(runs[1..]);
      ActivesAreUids(runs[1..]);
      if runs[0].active {
        assert ([runs[0]] + rest)[1..] == rest;
      } else {
        assert [] + rest == rest;
      }
    }
  }

  lemma {:induction false} ActivesAreLogged(runs: seq<Run>)
    ensures DistinctUids(runs) ==> DistinctUids(Actives(runs))
    ensures forall r :: r in Actives(runs) <==> r in runs && r.active
  {
    if runs != [] {
      var rest := Actives(runs[1..]);
      ActivesAreLogged(runs[1..]);
      ActivesAreUids(runs[1..]);
      assert runs == [runs[0]] + runs[1..];
      if runs[0].active {
        assert ([runs[0]] + rest)[1..] == rest;
      } else {
        assert [] + rest == rest;
      }
    }
  }

  // ---- the history ----

  /** Started and not finished since. */
  ghost function Running(h: seq<Event>): set<string> {
    if h == [] then {}
    else
      var before, e := Running(h[..|h| - 1]), h[|h| - 1];
      if e.Started? then before + {e.uid} else before - {e.uid}
  }

  ghost function StartedIn(h: seq<Event>): set<string> {
    if h == [] then {}
    else
      var before, e := StartedIn(h[..|h| - 1]), h[|h| - 1];
      if e.Started? then before + {e.uid} else before
  }

  /** Nothing starts while it runs. */
  ghost predicate Orderly(h: seq<Event>) {
    h == [] || (Orderly(h[..|h| - 1]) && (h[|h| - 1].Started? ==> h[|h| - 1].uid !in Running(h[..|h| - 1])))
  }

  /** Nothing starts twice. */
  ghost predicate StartedOnce(h: seq<Event>) {
    h == [] || (StartedOnce(h[..|h| - 1]) && (h[|h| - 1].Started? ==> h[|h| - 1].uid !in StartedIn(h[..|h| - 1])))
  }

  lemma {:induction false} RunningSince(h: seq<Event>, i: nat)
    requires i < |h| && h[i].Started?
    requires forall k :: i < k < |h| ==> h[k] != Finished(h[i].uid)
    ensures h[i].uid in Running(h)
  {
    if i < |h| - 1 { RunningSince(h[..|h| - 1], i); }
  }

  /** In an orderly history two starts of one run have a finish of that run between them. */
  lemma {:induction false} FinishedBetweenStarts(h: seq<Event>, i: nat, j: nat)
    requires Orderly(h) && i < j < |h| && h[i].Started? && h[j] == h[i]
    ensures exists k :: i < k < j && h[k] == Finished(h[i].uid)
  {
    if j < |h| - 1 {
      FinishedBetweenStarts(h[..|h| - 1], i, j);
    } else if forall k :: i < k < j ==> h[k] != Finished(h[i].uid) {
      RunningSince(h[..j], i);
      assert false;
    }
  }

  lemma {:induction false} StartIsRecorded(h: seq<Event>, i: nat)
    requires i < |h| && h[i].Started?
    ensures h[i].uid in StartedIn(h)
  {
    if i < |h| - 1 { StartIsRecorded(h[..|h| - 1], i); }
  }

  /** No event of StartedOnce repeats. */
  lemma {:induction false} NoSecondStart(h: seq<Event>, i: nat, j: nat)
    requires StartedOnce(h) && i < j < |h| && h[i].Started? && h[j].Started?
    ensures h[i] != h[j]
  {
    if j < |h| - 1 {
      NoSecondStart(h[..|h| - 1], i, j);
    } else {
      StartIsRecorded(h[..j], i);
    }
  }

  // ---- pruning ----

  function Max(a: int, b: int): int {
    if a < b then b else a
  }

  function Min(a: int, b: int): int {
    if a < b then a else b
  }

  /** Finished so recently, in seconds, that a run still matters. */
  function Margin(o: Reading): (seconds: int)
    ensures seconds >= 60
  {
    Max(Max(o.stationDelay + o.minRuntime, o.masterOffDelay), 60)
  }

  /** min([now] + [start of the active runs]) */
  function FirstStart(runs: seq<Run>, now: int): (first: int)
    ensures first <= now && forall r :: r in runs && r.active ==> first <= r.start
    ensures first == now || exists r :: r in runs && r.active && first == r.start
  {
    if runs == [] then now
    else
      assert runs == [runs[0]] + runs[1..];
      var later := FirstStart(runs[1..], now);
      if runs[0].active && runs[0].start < later then runs[0].start else later
  }

  /** The run has an impact on the current state. */
  predicate Matters(r: Run, first: int, o: Reading) {
    !r.blocked && (first - r.end <= Margin(o) * SECOND || r.end >= o.minEto)
  }

  function Kept(runs: seq<Run>, first: int, o: Reading): seq<Run> {
    if runs == [] then []
    else (if Matters(runs[0], first, o) then [runs[0]] else []) + Kept(runs[1..], first, o)
  }

  /** clear_runs returns at once if the log is kept without a limit. */
  predicate Prunes(allEntries: bool, o: Reading) {
    allEntries || !o.runLog || o.runEntries > 0
  }

  /** Runs that may be pruned: all but the last few. */
  function Prunable(runs: seq<Run>, allEntries: bool, o: Reading): (n: nat)
    ensures n <= |runs|
  {
    var minimum := if allEntries || !o.runLog then 0 else o.runEntries;
    if minimum < 0 || minimum >= |runs| then 0 else |runs| - minimum
  }

  /** What clear_runs leaves. */
  function Pruned(runs: seq<Run>, allEntries: bool, o: Reading): seq<Run> {
    if !Prunes(allEntries, o) then runs
    else
      var n := Prunable(runs, allEntries, o);
      Kept(runs[..n], FirstStart(runs, o.pruneTime), o) + runs[n..]
  }

  /** Pruning keeps exactly what matters, and everything of the part it does not look at. */
  lemma {:induction false} KeptExactly(runs: seq<Run>, first: int, o: Reading, r: Run)
    ensures r in Kept(runs, first, o) <==> r in runs && Matters(r, first, o)
  {
    if runs != [] {
      KeptExactly(runs[1..], first, o, r);
      assert runs == [runs[0]] + runs[1..];
    }
  }

  lemma {:induction false} KeptUids(a: seq<Run>, b: seq<Run>, first: int, o: Reading)
    requires DistinctUids(a + b)
    ensures DistinctUids(Kept(a, first, o) + b) && Uids(Kept(a, first, o) + b) <= Uids(a + b)
  {
    if a == [] {
      assert Kept(a, first, o) + b == a + b;
    } else {
      var rest := Kept(a[1..], first, o);
      assert (a + b)[1..] == a[1..] + b;
      KeptUids(a[1..], b, first, o);
      if Matters(a[0], first, o) {
        assert (Kept(a, first, o) + b)[1..] == rest + b;
      } else {
        assert Kept(a, first, o) + b == rest + b;
      }
    }
  }

  lemma {:induction false} KeptActives(a: seq<Run>, first: int, o: Reading)
    ensures ActiveUids(Kept(a, first, o)) <= ActiveUids(a)
    ensures (forall r :: r in a && r.active ==> Matters(r, first, o)) ==> ActiveUids(Kept(a, first, o)) == ActiveUids(a)
  {
    if a != [] {
      var rest := Kept(a[1..], first, o);
      assert a == [a[0]] + a[1..];
      KeptActives(a[1..], first, o);
      if Matters(a[0], first, o) {
        assert Kept(a, first, o)[1..] == rest;
      } else {
        assert Kept(a, first, o) == rest;
      }
    }
  }

  /** No uid appears twice after pruning. */
  lemma PruningDrops(runs: seq<Run>, allEntries: bool, o: Reading)
    requires DistinctUids(runs)
    ensures var left := Pruned(runs, allEntries, o);
      && DistinctUids(left) && Uids(left) <= Uids(runs) && ActiveUids(left) <= ActiveUids(runs)
      && forall r :: r in left ==> r in runs
  {
    var n, first := Prunable(runs, allEntries, o), FirstStart(runs, o.pruneTime);
    assert runs == runs[..n] + runs[n..];
    KeptUids(runs[..n], runs[n..], first, o);
    KeptActives(runs[..n], first, o);
    UidsAppend(Kept(runs[..n], first, o), runs[n..]);
    UidsAppend(runs[..n], runs[n..]);
    forall r ensures r in Kept(runs[..n], first, o) <==> r in runs[..n] && Matters(r, first, o) {
      KeptExactly(runs[..n], first, o, r);
    }
  }

  /** Pruning never drops an active run that was logged in time. */
  lemma PruningKeepsActives(runs: seq<Run>, allEntries: bool, o: Reading)
    requires DistinctUids(runs) && ActiveRunsInTime(runs)
    ensures var left := Pruned(runs, allEntries, o);
      && ActiveRunsInTime(left) && ActiveUids(left) == ActiveUids(runs)
      && forall r :: r in runs && r.active ==> r in left
  {
    var n, first := Prunable(runs, allEntries, o), FirstStart(runs, o.pruneTime);
    assert runs == runs[..n] + runs[n..];
    KeptUids(runs[..n], runs[n..], first, o);
    KeptActives(runs[..n], first, o);
    UidsAppend(Kept(runs[..n], first, o), runs[n..]);
    UidsAppend(runs[..n], runs[n..]);
    forall r ensures r in Kept(runs[..n], first, o) <==> r in runs[..n] && Matters(r, first, o) {
      KeptExactly(runs[..n], first, o, r);
    }
  }

  /** So much later than its end, in microseconds, a run still matters. */
  ghost predicate WithinMargin(age: int, o: Reading) {
    || age <= (o.stationDelay + o.minRuntime) * 1000000
    || age <= o.masterOffDelay * 1000000
    || age <= 60000000
  }

  /** The entries that outlive pruning: all of them while it is off, the last few, and of the unblocked ones those that
      a weather program needs and those that were recent when the clock was read or when some active run started. */
  ghost predicate Survives(r: Run, runs: seq<Run>, allEntries: bool, o: Reading) {
    || (!allEntries && o.runLog && (o.runEntries <= 0 || r in LastOf(runs, o.runEntries)))
    || (!r.blocked && (r.end >= o.minEto || WithinMargin(o.pruneTime - r.end, o)))
    || (!r.blocked && exists x :: x in runs && x.active && WithinMargin(x.start - r.end, o))
  }

  ghost function LastOf(runs: seq<Run>, n: nat): seq<Run> {
    if n < |runs| then runs[|runs| - n..] else runs
  }

  /** Those of the part that survive, in order. */
  ghost function Surviving(part: seq<Run>, runs: seq<Run>, allEntries: bool, o: Reading): seq<Run> {
    if part == [] then []
    else (if Survives(part[0], runs, allEntries, o) then [part[0]] else []) + Surviving(part[1..], runs, allEntries, o)
  }

  lemma MattersExactly(r: Run, runs: seq<Run>, o: Reading)
    ensures Matters(r, FirstStart(runs, o.pruneTime), o) <==>
      || (!r.blocked && (r.end >= o.minEto || WithinMargin(o.pruneTime - r.end, o)))
      || (!r.blocked && exists x :: x in runs && x.active && WithinMargin(x.start - r.end, o))
  {
    var first := FirstStart(runs, o.pruneTime);
    assert first - r.end <= Margin(o) * SECOND <==> WithinMargin(first - r.end, o);
    if exists x :: x in runs && x.active && WithinMargin(x.start - r.end, o) {
      var x :| x in runs && x.active && WithinMargin(x.start - r.end, o);
      assert first <= x.start;
    }
  }

  lemma {:induction false} AllSurvive(part: seq<Run>, runs: seq<Run>, allEntries: bool, o: Reading)
    requires forall r :: r in part ==> Survives(r, runs, allEntries, o)
    ensures Surviving(part, runs, allEntries, o) == part
  {
    if part != [] { AllSurvive(part[1..], runs, allEntries, o); }
  }

  /** In the front the runs that matter survive, behind it all do. */
  lemma {:induction false} KeptSurvive(front: seq<Run>, last: seq<Run>, runs: seq<Run>, first: int, allEntries: bool,
                                       o: Reading)
    requires forall r :: r in front ==> (Survives(r, runs, allEntries, o) <==> Matters(r, first, o))
    requires forall r :: r in last ==> Survives(r, runs, allEntries, o)
    ensures Kept(front, first, o) + last == Surviving(front + last, runs, allEntries, o)
  {
    if front == [] {
      AllSurvive(last, runs, allEntries, o);
      assert front + last == last && Kept(front, first, o) + last == last;
    } else {
      var r, later := front[0], front[1..];
      assert r in front && forall x :: x in later ==> x in front;
      KeptSurvive(later, last, runs, first, allEntries, o);
      assert (front + last)[1..] == later + last;
      OneMoreKept(r, Kept(later, first, o), last);
    }
  }

  lemma OneMoreKept(r: Run, kept: seq<Run>, last: seq<Run>)
    ensures ([r] + kept) + last == [r] + (kept + last) && ([] + kept) + last == [] + (kept + last)
  {
  }

  /** No entry of the front is one of the last few. */
  lemma FrontIsNotLast(runs: seq<Run>, n: nat, r: Run)
    requires DistinctUids(runs) && n <= |runs| && r in runs[..|runs| - n]
    ensures r !in LastOf(runs, n)
  {
    var k := |runs| - n;
    var i :| 0 <= i < k && runs[i] == r;
    forall j | k <= j < |runs| ensures runs[j] != r {
      DistinctAt(runs, i, j);
    }
  }

  lemma FrontMatters(runs: seq<Run>, allEntries: bool, o: Reading)
    requires DistinctUids(runs) && Prunes(allEntries, o)
    ensures forall r :: r in runs[..Prunable(runs, allEntries, o)] ==>
      (Survives(r, runs, allEntries, o) <==> Matters(r, FirstStart(runs, o.pruneTime), o))
  {
    var n, first := Prunable(runs, allEntries, o), FirstStart(runs, o.pruneTime);
    forall r | r in runs[..n] ensures Survives(r, runs, allEntries, o) <==> Matters(r, first, o) {
      MattersExactly(r, runs, o);
      if !allEntries && o.runLog {
        FrontIsNotLast(runs, o.runEntries, r);
      }
    }
  }

  lemma LastSurvive(runs: seq<Run>, allEntries: bool, o: Reading)
    requires Prunes(allEntries, o)
    ensures forall r :: r in runs[Prunable(runs, allEntries, o)..] ==> Survives(r, runs, allEntries, o)
  {
    var n := Prunable(runs, allEntries, o);
    if !allEntries && o.runLog {
      assert runs[n..] == LastOf(runs, o.runEntries);
    } else {
      assert runs[n..] == [];
    }
  }

  /** For every log: what pruning leaves is exactly what survives, in order. */
  lemma PrunedExactly(runs: seq<Run>, allEntries: bool, o: Reading)
    requires DistinctUids(runs)
    ensures Pruned(runs, allEntries, o) == Surviving(runs, runs, allEntries, o)
  {
    if !allEntries && o.runLog && o.runEntries <= 0 {
      AllSurvive(runs, runs, allEntries, o);
    } else {
      var n, first := Prunable(runs, allEntries, o), FirstStart(runs, o.pruneTime);
      var front, last := runs[..n], runs[n..];
      FrontMatters(runs, allEntries, o);
      LastSurvive(runs, allEntries, o);
      KeptSurvive(front, last, runs, first, allEntries, o);
      assert runs == front + last;
    }
  }

  lemma {:induction false} SurvivorsAre(part: seq<Run>, runs: seq<Run>, allEntries: bool, o: Reading, r: Run)
    ensures r in Surviving(part, runs, allEntries, o) <==> r in part && Survives(r, runs, allEntries, o)
  {
    if part != [] {
      SurvivorsAre(part[1..], runs, allEntries, o, r);
      assert part == [part[0]] + part[1..];
    }
  }

  /** For every log: pruning loses an entry, active or not, exactly if it does not survive. An active run
      logged later than the margin after its end is among these unless an earlier active run, the number
      of entries to keep, or a weather program keeps it. */
  lemma SurvivesExactly(r: Run, runs: seq<Run>, allEntries: bool, o: Reading)
    requires DistinctUids(runs) && r in runs
    ensures r in Pruned(runs, allEntries, o) <==> Survives(r, runs, allEntries, o)
    ensures r.uid in Uids(Pruned(runs, allEntries, o)) <==> Survives(r, runs, allEntries, o)
  {
    var left := Pruned(runs, allEntries, o);
    PrunedExactly(runs, allEntries, o);
    SurvivorsAre(runs, runs, allEntries, o, r);
    UidsOf(left, r.uid);
    PruningDrops(runs, allEntries, o);
    if r.uid in Uids(left) {
      var x :| x in left && x.uid == r.uid;
      SameUidSameRun(runs, x, r);
    }
  }

  lemma SameUidSameRun(runs: seq<Run>, x: Run, y: Run)
    requires DistinctUids(runs) && x in runs && y in runs && x.uid == y.uid
    ensures x == y
  {
    var i :| 0 <= i < |runs| && runs[i] == x;
    var j :| 0 <= j < |runs| && runs[j] == y;
    if i < j {
      DistinctAt(runs, i, j);
    } else if j < i {
      DistinctAt(runs, j, i);
    }
  }

  /** The only active run of a log without limit: it is lost exactly if it was logged later than the
      margin after its end and no weather program needs its day. */
  lemma OnlyActiveRunIsLost(r: Run, runs: seq<Run>, o: Reading)
    requires DistinctUids(runs) && r in runs && r.active && !r.blocked && !o.runLog && r.start <= o.pruneTime
    requires forall x :: x in runs && x.active ==> x == r
    ensures r !in Pruned(runs, false, o) <==> !WithinMargin(r.start - r.end, o) && r.end < o.minEto
  {
    SurvivesExactly(r, runs, false, o);
  }

  // ---- finishing ----

  predicate Hits(r: Run, uid: Option<string>) {
    r.active && (uid.None? || r.uid == uid.value)
  }

  /** The active runs asked for, ended when the clock is read for them; the others as they are. */
  function FinishEach(runs: seq<Run>, uid: Option<string>, clock: nat -> int, at: nat): (done: seq<Run>)
    ensures |done| == |runs|
  {
    if runs == [] then []
    else
      var done := if Hits(runs[0], uid) then runs[0].(end := clock(at), active := false) else runs[0];
      [done] + FinishEach(runs[1..], uid, clock, at + 1)
  }

  function Finishes(runs: seq<Run>, uid: Option<string>): seq<Event> {
    if runs == [] then [] else (if Hits(runs[0], uid) then [Finished(runs[0].uid)] else []) + Finishes(runs[1..], uid)
  }

  ghost function HitUids(runs: seq<Run>, uid: Option<string>): set<string> {
    if runs == [] then {} else (if Hits(runs[0], uid) then {runs[0].uid} else {}) + HitUids(runs[1..], uid)
  }

  lemma {:induction false} HitsAreActive(runs: seq<Run>, uid: Option<string>)
    ensures HitUids(runs, uid) <= ActiveUids(runs) <= Uids(runs)
  {
    if runs != [] { HitsAreActive(runs[1..], uid); }
  }

  /** All active runs are asked for, or the one with this uid. */
  lemma {:induction false} HitsExactly(runs: seq<Run>, uid: Option<string>)
    ensures uid.None? ==> HitUids(runs, uid) == ActiveUids(runs)
    ensures uid.Some? ==> HitUids(runs, uid) == ActiveUids(runs) * {uid.value}
  {
    if runs != [] { HitsExactly(runs[1..], uid); }
  }

  lemma {:induction false} FinishedUids(runs: seq<Run>, uid: Option<string>, clock: nat -> int, at: nat)
    requires DistinctUids(runs)
    ensures var done := FinishEach(runs, uid, clock, at);
      && Uids(done) == Uids(runs) && DistinctUids(done)
      && ActiveUids(done) == ActiveUids(runs) - HitUids(runs, uid)
  {
    if runs != [] {
      FinishedUids(runs[1..], uid, clock, at + 1);
      HitsAreActive(runs[1..], uid);
      assert FinishEach(runs, uid, clock, at)[1..] == FinishEach(runs[1..], uid, clock, at + 1);
    }
  }

  lemma {:induction false} FinishedRuns(runs: seq<Run>, uid: Option<string>, clock: nat -> int, at: nat)
    ensures forall r :: r in FinishEach(runs, uid, clock, at) && r.active ==> r in runs
    ensures forall r :: r in runs && !Hits(r, uid) ==> r in FinishEach(runs, uid, clock, at)
  {
    if runs != [] {
      FinishedRuns(runs[1..], uid, clock, at + 1);
      assert runs == [runs[0]] + runs[1..];
    }
  }

  lemma {:induction false} FinishOthers(runs: seq<Run>, uid: string, clock: nat -> int, at: nat)
    requires uid !in Uids(runs)
    ensures FinishEach(runs, Some(uid), clock, at) == runs && Finishes(runs, Some(uid)) == []
  {
    if runs != [] { FinishOthers(runs[1..], uid, clock, at + 1); }
  }

  /** One run finishes if it is active, and nothing else happens. */
  lemma {:induction false} FinishesOne(runs: seq<Run>, uid: string)
    requires DistinctUids(runs)
    ensures Finishes(runs, Some(uid)) == if uid in ActiveUids(runs) then [Finished(uid)] else []
    ensures HitUids(runs, Some(uid)) == if uid in ActiveUids(runs) then {uid} else {}
  {
    if runs != [] {
      FinishesOne(runs[1..], uid);
      HitsAreActive(runs[1..], Some(uid));
    }
  }

  /** The history after some runs finish. */
  lemma {:induction false} AfterFinishes(h: seq<Event>, runs: seq<Run>, uid: Option<string>)
    ensures var after := h + Finishes(runs, uid);
      && Running(after) == Running(h) - HitUids(runs, uid)
      && StartedIn(after) == StartedIn(h)
      && (Orderly(h) ==> Orderly(after)) && (StartedOnce(h) ==> StartedOnce(after))
    decreases |runs|
  {
    if runs == [] {
      assert h + [] == h;
    } else if Hits(runs[0], uid) {
      var u, later := runs[0].uid, Finishes(runs[1..], uid);
      AfterFinish(h, u);
      AfterFinishes(h + [Finished(u)], runs[1..], uid);
      Associate(h, [Finished(u)], later);
      assert HitUids(runs, uid) == {u} + HitUids(runs[1..], uid);
    } else {
      assert Finishes(runs, uid) == Finishes(runs[1..], uid);
      AfterFinishes(h, runs[1..], uid);
    }
  }

  lemma AfterFinish(h: seq<Event>, u: string)
    ensures var after := h + [Finished(u)];
      && Running(after) == Running(h) - {u} && StartedIn(after) == StartedIn(h)
      && (Orderly(h) ==> Orderly(after)) && (StartedOnce(h) ==> StartedOnce(after))
  {
    var after := h + [Finished(u)];
    assert after[..|after| - 1] == h;
  }

  // ---- the water in use ----

  /** The usage of the active runs, unblocked ones, that have not reached their end. */
  ghost function Watering(runs: seq<Run>, now: int): real {
    if runs == [] then 0.0
    else
      var r := runs[0];
      (if r.active && !r.blocked && now < r.end then r.usage else 0.0) + Watering(runs[1..], now)
  }

  ghost predicate NonNegative(runs: seq<Run>) {
    forall r :: r in runs ==> r.usage >= 0.0
  }

  ghost predicate LoggedBy(runs: seq<Run>, t: int) {
    forall r :: r in runs ==> r.start <= t
  }

  /** No more water is in use than before, and nothing was logged. */
  ghost predicate Shrinks(before: seq<Run>, after: seq<Run>) {
    && (NonNegative(before) ==> NonNegative(after) && forall t :: Watering(after, t) <= Watering(before, t))
    && (forall t :: LoggedBy(before, t) ==> LoggedBy(after, t))
  }

  /** What finishing one run does to the others and to the water in use. */
  ghost predicate EndsOnly(before: seq<Run>, after: seq<Run>, uid: string, late: bool) {
    && Uids(after) <= Uids(before) && ActiveUids(after) <= ActiveUids(before) && Shrinks(before, after)
    && (!late ==> forall r :: r in before && r.active && r.uid != uid ==> r in after)
  }

  lemma EndsOnlyTwice(a: seq<Run>, b: seq<Run>, c: seq<Run>, uid: string, late: bool)
    requires EndsOnly(a, b, uid, late) && EndsOnly(b, c, uid, late)
    ensures EndsOnly(a, c, uid, late)
  {
    ShrinksTwice(a, b, c);
  }

  lemma {:induction false} WateringAppend(a: seq<Run>, b: seq<Run>, now: int)
    ensures Watering(a + b, now) == Watering(a, now) + Watering(b, now)
  {
    if a == [] {
      assert a + b == b;
    } else {
      WateringAppend(a[1..], b, now);
      assert (a + b)[1..] == a[1..] + b;
    }
  }

  lemma {:induction false} KeptWatering(runs: seq<Run>, first: int, o: Reading, now: int)
    requires NonNegative(runs)
    ensures Watering(Kept(runs, first, o), now) <= Watering(runs, now)
  {
    if runs != [] {
      var rest := Kept(runs[1..], first, o);
      assert runs == [runs[0]] + runs[1..];
      KeptWatering(runs[1..], first, o, now);
      assert ([runs[0]] + rest)[1..] == rest && [] + rest == rest;
    }
  }

  lemma PruningShrinks(runs: seq<Run>, allEntries: bool, o: Reading)
    ensures Shrinks(runs, Pruned(runs, allEntries, o))
  {
    var n, first := Prunable(runs, allEntries, o), FirstStart(runs, o.pruneTime);
    var kept := Kept(runs[..n], first, o);
    assert runs == runs[..n] + runs[n..];
    forall r ensures r in kept <==> r in runs[..n] && Matters(r, first, o) {
      KeptExactly(runs[..n], first, o, r);
    }
    if NonNegative(runs) {
      forall t ensures Watering(Pruned(runs, allEntries, o), t) <= Watering(runs, t) {
        KeptWatering(runs[..n], first, o, t);
        WateringAppend(kept, runs[n..], t);
        WateringAppend(runs[..n], runs[n..], t);
      }
    }
  }

  lemma {:induction false} FinishedWatering(runs: seq<Run>, uid: Option<string>, clock: nat -> int, at: nat, now: int)
    requires NonNegative(runs)
    ensures Watering(FinishEach(runs, uid, clock, at), now) <= Watering(runs, now)
  {
    if runs != [] {
      assert runs == [runs[0]] + runs[1..];
      FinishedWatering(runs[1..], uid, clock, at + 1, now);
      assert FinishEach(runs, uid, clock, at)[1..] == FinishEach(runs[1..], uid, clock, at + 1);
    }
  }

  lemma {:induction false} FinishedLog(runs: seq<Run>, uid: Option<string>, clock: nat -> int, at: nat)
    ensures NonNegative(runs) ==> NonNegative(FinishEach(runs, uid, clock, at))
    ensures forall t :: LoggedBy(runs, t) ==> LoggedBy(FinishEach(runs, uid, clock, at), t)
  {
    if runs != [] {
      assert runs == [runs[0]] + runs[1..];
      FinishedLog(runs[1..], uid, clock, at + 1);
      forall t | LoggedBy(runs, t) ensures LoggedBy(FinishEach(runs, uid, clock, at), t) {
        assert LoggedBy(runs[1..], t);
      }
    }
  }

  lemma FinishingShrinks(runs: seq<Run>, uid: Option<string>, clock: nat -> int)
    ensures Shrinks(runs, FinishEach(runs, uid, clock, 0))
  {
    FinishedLog(runs, uid, clock, 0);
    if NonNegative(runs) {
      forall t ensures Watering(FinishEach(runs, uid, clock, 0), t) <= Watering(runs, t) {
        FinishedWatering(runs, uid, clock, 0, t);
      }
    }
  }

  lemma ShrinksTwice(a: seq<Run>, b: seq<Run>, c: seq<Run>)
    requires Shrinks(a, b) && Shrinks(b, c)
    ensures Shrinks(a, c)
  {
    if NonNegative(a) {
      forall t ensures Watering(c, t) <= Watering(a, t) {
        assert Watering(c, t) <= Watering(b, t) <= Watering(a, t);
      }
    }
  }

  /** Time passing ends runs. */
  lemma {:induction false} WateringFalls(runs: seq<Run>, now: int, later: int)
    requires NonNegative(runs) && now <= later
    ensures Watering(runs, later) <= Watering(runs, now)
  {
    if runs != [] {
      assert runs == [runs[0]] + runs[1..];
      WateringFalls(runs[1..], now, later);
    }
  }

  // ---- the skip loop of predicted_schedule ----

  /** A candidate scheduled before a logged run is dropped, unless only the logged one is blocked. */
  predicate Before(c: Run, t: Run) {
    c.originalStart < t.originalStart && (!t.blocked || c.blocked)
  }

  /** The candidates left after one logged run: the scan stops once it has dropped the run itself. */
  function SkipOne(cs: seq<Run>, t: Run): seq<Run> {
    if cs == [] then []
    else if Before(cs[0], t) then SkipOne(cs[1..], t)
    else if cs[0].uid == t.uid then cs[1..]
    else [cs[0]] + SkipOne(cs[1..], t)
  }

  function SkipAll(cs: seq<Run>, logged: seq<Run>): seq<Run>
    decreases |logged|
  {
    if logged == [] then cs else SkipAll(SkipOne(cs, logged[0]), logged[1..])
  }

  ghost predicate LiesBefore(c: Run, t: Run) {
    c.originalStart < t.originalStart && !(t.blocked && !c.blocked)
  }

  lemma {:induction false} SkipOneDrops(cs: seq<Run>, t: Run)
    requires DistinctUids(cs)
    ensures var left := SkipOne(cs, t);
      DistinctUids(left) && Uids(left) <= Uids(cs) && t.uid !in Uids(left)
    ensures forall c :: c in cs && c.uid != t.uid && !LiesBefore(c, t) ==> c in SkipOne(cs, t)
    ensures forall c :: c in SkipOne(cs, t) ==> c in cs
    ensures forall c :: c in SkipOne(cs, t) && t.uid !in Uids(cs) ==> !LiesBefore(c, t)
  {
    if cs != [] {
      SkipOneDrops(cs[1..], t);
      assert cs == [cs[0]] + cs[1..];
      var rest := SkipOne(cs[1..], t);
      if !Before(cs[0], t) && cs[0].uid != t.uid {
        assert SkipOne(cs, t)[1..] == rest;
      }
    }
  }

  ghost function NoneBefore(cs: seq<Run>, t: Run): seq<Run> {
    if cs == [] then [] else (if LiesBefore(cs[0], t) then [] else [cs[0]]) + NoneBefore(cs[1..], t)
  }

  /** cs[k] is the logged run itself, or there is none in the list. */
  ghost predicate FoundAt(cs: seq<Run>, t: Run, k: nat) {
    && k <= |cs| && (k < |cs| ==> cs[k].uid == t.uid && !LiesBefore(cs[k], t))
    && forall i :: 0 <= i < k ==> cs[i].uid != t.uid || LiesBefore(cs[i], t)
  }

  /** Up to the logged run the candidates that lie before it go, and those behind it stay. */
  lemma {:induction false} SkipOneExactly(cs: seq<Run>, t: Run, k: nat)
    requires FoundAt(cs, t, k)
    ensures SkipOne(cs, t) == NoneBefore(cs[..k], t) + if k < |cs| then cs[k + 1..] else []
  {
    if k > 0 {
      var c, later := cs[0], cs[1..];
      var behind := if k < |cs| then cs[k + 1..] else [];
      assert FoundAt(later, t, k - 1) by {
        assert forall i :: 0 <= i < k - 1 ==> later[i] == cs[i + 1];
      }
      SkipOneExactly(later, t, k - 1);
      assert k < |cs| ==> later[k..] == behind;
      assert cs[..k][1..] == later[..k - 1] && cs[..k][0] == c;
      OneMoreKept(c, NoneBefore(later[..k - 1], t), behind);
    }
  }

  /** With distinct candidates no logged run is left, and nothing is lost that is neither logged nor before a logged
      run. What is before a logged run that is no candidate itself is lost. */
  lemma {:induction false} SkipAllDrops(cs: seq<Run>, logged: seq<Run>)
    requires DistinctUids(cs)
    ensures var left := SkipAll(cs, logged);
      DistinctUids(left) && Uids(left) <= Uids(cs) && Uids(left) !! Uids(logged)
    ensures forall c :: c in cs && c.uid !in Uids(logged) && (forall t :: t in logged ==> !LiesBefore(c, t)) ==>
      c in SkipAll(cs, logged)
    ensures forall c :: c in SkipAll(cs, logged) ==> c in cs
    ensures forall c, t :: c in SkipAll(cs, logged) && t in logged && t.uid !in Uids(cs) ==> !LiesBefore(c, t)
    decreases |logged|
  {
    if logged != [] {
      assert logged == [logged[0]] + logged[1..];
      SkipOneDrops(cs, logged[0]);
      SkipAllDrops(SkipOne(cs, logged[0]), logged[1..]);
    }
  }

  /** Distinct candidates are needed: of two with one uid the second outlives the skip loop. */
  lemma SecondTwinIsNotSkipped(r: Run)
    ensures SkipAll([r, r], [r]) == [r]
  {
    assert [r, r][1..] == [r] && [r][1..] == [];
  }

  /** A candidate whose run is logged is skipped. After pruning it stays skipped if the entry survives;
      otherwise it is a candidate again, unless it lies before another logged run. */
  lemma PrunedRunIsACandidateAgain(cs: seq<Run>, c: Run, runs: seq<Run>, r: Run, allEntries: bool, o: Reading)
    requires DistinctUids(cs) && c in cs && DistinctUids(runs) && r in runs && r.uid == c.uid
    ensures c !in SkipAll(cs, runs)
    ensures var left := Pruned(runs, allEntries, o);
      (forall t :: t in left ==> !LiesBefore(c, t)) ==> (c in SkipAll(cs, left) <==> !Survives(r, runs, allEntries, o))
  {
    var left := Pruned(runs, allEntries, o);
    SkipAllDrops(cs, runs);
    SkipAllDrops(cs, left);
    SurvivesExactly(r, runs, allEntries, o);
    UidsOf(runs, r.uid);
    UidsOf(SkipAll(cs, runs), c.uid);
    UidsOf(SkipAll(cs, left), c.uid);
  }

  lemma ScanStep(done: seq<Run>, c: Run, rest: seq<Run>, t: Run)
    ensures SkipOne([c] + rest, t) ==
      if Before(c, t) then SkipOne(rest, t) else if c.uid == t.uid then rest else [c] + SkipOne(rest, t)
    ensures done + ([c] + SkipOne(rest, t)) == (done + [c]) + SkipOne(rest, t)
    ensures var all := done + ([c] + rest);
      all[|done|] == c && all[..|done|] + all[|done| + 1..] == done + rest && all == done + [c] + rest
  {
    assert ([c] + rest)[1..] == rest;
    Associate(done, [c], rest);
    Associate(done, [c], SkipOne(rest, t));
    var all := done + ([c] + rest);
    assert all[..|done|] == done && all[|done| + 1..] == rest;
  }

  /** The inner loop, deleting in place. */
  method SkipOneLogged(candidates: seq<Run>, toSkip: Run) returns (all: seq<Run>)
    ensures all == SkipOne(candidates, toSkip)
  {
    all := candidates;
    var index := 0;
    ghost var done: seq<Run>, rest := [], candidates;
    while index < |all|
      invariant index == |done| && all == done + rest
      invariant SkipOne(candidates, toSkip) == done + SkipOne(rest, toSkip)
      decreases |all| - index
    {
      var interval := all[index];
      assert rest == [rest[0]] + rest[1..];
      ScanStep(done, rest[0], rest[1..], toSkip);
      if Before(interval, toSkip) {
        all := all[..index] + all[index + 1..];
      } else if interval.uid == toSkip.uid {
        all := all[..index] + all[index + 1..];
        return;
      } else {
        index := index + 1;
        done := done + [interval];
      }
      rest := rest[1..];
    }
  }

  /** The skip loop. */
  method SkipLogged(candidates: seq<Run>, logged: seq<Run>) returns (all: seq<Run>)
    ensures all == SkipAll(candidates, logged)
  {
    all := candidates;
    for k := 0 to |logged|
      invariant SkipAll(all, logged[k..]) == SkipAll(candidates, logged)
    {
      assert logged[k..][0] == logged[k] && logged[k..][1..] == logged[k + 1..];
      all := SkipOneLogged(all, logged[k]);
    }
  }

  lemma PruneStep(before: seq<Run>, index: nat, n: nat, first: int, o: Reading, kept: seq<Run>, tail: seq<Run>)
    requires index < n <= |before| && kept == Kept(before[index + 1..n], first, o)
    ensures var runs, x := before[..index + 1] + (kept + tail), before[index];
      && runs == before[..index] + (([x] + kept) + tail)
      && runs[..index] + runs[index + 1..] == before[..index] + (kept + tail)
      && Kept(before[index..n], first, o) == if Matters(x, first, o) then [x] + kept else kept
  {
    var x := before[index];
    assert before[..index + 1] == before[..index] + [x];
    assert before[index..n] == [x] + before[index + 1..n];
    assert [] + kept == kept;
  }

  // ---- the log ----

  /** No uid is logged twice. While no run has been logged late, what the history says runs is what is logged
      active, and nothing started while it ran. While pruning has been off, nothing started twice. */
  ghost predicate Sound(runs: seq<Run>, history: seq<Event>, pruned: bool, late: bool) {
    && DistinctUids(runs)
    && (!late ==> ActiveRunsInTime(runs) && Running(history) == ActiveUids(runs) && Orderly(history))
    && (!pruned ==> StartedOnce(history) && StartedIn(history) <= Uids(runs))
  }

  /** The run was logged when it was blocked or more than a minute past its end. */
  predicate LoggedLate(r: Run, time: int) {
    r.blocked || time > r.end + 60 * SECOND
  }

  lemma {:induction false} DistinctAt(runs: seq<Run>, i: nat, j: nat)
    requires DistinctUids(runs) && i < j < |runs|
    ensures runs[i].uid != runs[j].uid
  {
    if i == 0 {
      UidsOf(runs[1..], runs[j].uid);
      assert runs[j] == runs[1..][j - 1];
    } else {
      DistinctAt(runs[1..], i - 1, j - 1);
    }
  }

  /** No uid has two entries, let alone two active ones. A uid starts twice only if pruning has been on, and then
      the run was finished in between, unless some run has been logged late. */
  ghost predicate OnceOnly(runs: seq<Run>, history: seq<Event>, pruned: bool, late: bool) {
    && (forall i, j :: 0 <= i < j < |runs| ==> runs[i].uid != runs[j].uid)
    && (forall i, j :: 0 <= i < j < |history| && history[i].Started? && history[j] == history[i] ==>
      pruned && (late || exists k :: i < k < j && history[k] == Finished(history[i].uid)))
  }

  lemma NeverTwice(runs: seq<Run>, history: seq<Event>, pruned: bool, late: bool)
    requires Sound(runs, history, pruned, late)
    ensures OnceOnly(runs, history, pruned, late)
  {
    forall i, j | 0 <= i < j < |runs| ensures runs[i].uid != runs[j].uid {
      DistinctAt(runs, i, j);
    }
    forall i, j | 0 <= i < j < |history| && history[i].Started? && history[j] == history[i]
      ensures pruned && (late || exists k :: i < k < j && history[k] == Finished(history[i].uid))
    {
      if !pruned {
        NoSecondStart(history, i, j);
      }
      if !late {
        FinishedBetweenStarts(history, i, j);
      }
    }
  }

  lemma PruningKeepsSound(runs: seq<Run>, history: seq<Event>, pruned: bool, late: bool, allEntries: bool, o: Reading)
    requires Sound(runs, history, pruned, late)
    ensures Sound(Pruned(runs, allEntries, o), history, pruned || Prunes(allEntries, o), late)
    ensures !late ==> forall r :: r in runs && r.active ==> r in Pruned(runs, allEntries, o)
  {
    PruningDrops(runs, allEntries, o);
    if !late { PruningKeepsActives(runs, allEntries, o); }
  }

  lemma StartKeepsSound(runs: seq<Run>, history: seq<Event>, pruned: bool, late: bool, entry: Run)
    requires Sound(runs, history, pruned, late) && entry.uid !in Uids(runs) && entry.active
    ensures Sound(runs + [entry], history + [Started(entry.uid)], pruned, late || LoggedLate(entry, entry.start))
  {
    DistinctAppend(runs, entry);
    UidsAppend(runs, [entry]);
    ActivesAreUids(runs);
    var h := history + [Started(entry.uid)];
    assert h[..|h| - 1] == history;
  }

  lemma FinishKeepsSound(runs: seq<Run>, history: seq<Event>, pruned: bool, late: bool, uid: Option<string>,
                         clock: nat -> int)
    requires Sound(runs, history, pruned, late)
    ensures Sound(FinishEach(runs, uid, clock, 0), history + Finishes(runs, uid), pruned, late)
  {
    FinishedUids(runs, uid, clock, 0);
    FinishedRuns(runs, uid, clock, 0);
    AfterFinishes(history, runs, uid);
  }

  /** A run that has ended is finished, unless it rains and its station does not ignore that. */
  function EndOf(r: Run, now: int, rain: bool, ignoresRain: set<int>): seq<Event> {
    if r.end <= now && (!rain || r.station in ignoresRain) then [Finished(r.uid)] else []
  }

  function Ended(active: seq<Run>, now: int, rain: bool, ignoresRain: set<int>): seq<Event> {
    if active == [] then [] else EndOf(active[0], now, rain, ignoresRain) + Ended(active[1..], now, rain, ignoresRain)
  }

  /** Exactly the runs that have ended finish, unless it rains and their stations do not ignore that. */
  lemma {:induction false} EndedExactly(active: seq<Run>, now: int, rain: bool, ignoresRain: set<int>, u: string)
    ensures Finished(u) in Ended(active, now, rain, ignoresRain) <==>
      exists r :: r in active && r.uid == u && r.end <= now && (rain ==> r.station in ignoresRain)
  {
    if active != [] {
      var r, later := active[0], Ended(active[1..], now, rain, ignoresRain);
      EndedExactly(active[1..], now, rain, ignoresRain, u);
      assert active == [r] + active[1..];
      assert Finished(u) in EndOf(r, now, rain, ignoresRain) + later <==>
        Finished(u) in EndOf(r, now, rain, ignoresRain) || Finished(u) in later;
    }
  }

  /** Each of them once. */
  lemma {:induction false} EndedOnce(active: seq<Run>, now: int, rain: bool, ignoresRain: set<int>)
    requires DistinctUids(active)
    ensures Distinct(Ended(active, now, rain, ignoresRain))
  {
    if active != [] {
      EndedOnce(active[1..], now, rain, ignoresRain);
      EndedExactly(active[1..], now, rain, ignoresRain, active[0].uid);
      LaterHaveOtherUids(active);
    }
  }

  lemma EndedFacts(active: seq<Run>, now: int, rain: bool, ignoresRain: set<int>)
    requires DistinctUids(active)
    ensures Distinct(Ended(active, now, rain, ignoresRain))
    ensures forall u :: Finished(u) in Ended(active, now, rain, ignoresRain) <==>
      exists r :: r in active && r.uid == u && r.end <= now && (rain ==> r.station in ignoresRain)
  {
    EndedOnce(active, now, rain, ignoresRain);
    forall u ensures Finished(u) in Ended(active, now, rain, ignoresRain) <==>
      exists r :: r in active && r.uid == u && r.end <= now && (rain ==> r.station in ignoresRain)
    {
      EndedExactly(active, now, rain, ignoresRain, u);
    }
  }

  /** Exactly those of the runs have finished, each once, that have ended, unless it rains and their stations do not
      ignore that. They are not active any more; the others still are. */
  ghost predicate EndedAsDue(active: seq<Run>, after: seq<Run>, events: seq<Event>, late: bool, now: int, rain: bool,
                             ignoresRain: set<int>)
  {
    && (forall r :: r in active && r.end <= now && (rain ==> r.station in ignoresRain) ==> r.uid !in ActiveUids(after))
    && (!late ==> Distinct(events) && forall u :: Finished(u) in events <==>
      exists r :: r in active && r.uid == u && r.end <= now && (rain ==> r.station in ignoresRain))
    && (!late ==> forall r :: r in active && !(r.end <= now && (rain ==> r.station in ignoresRain)) ==> r in after)
  }

  /** Exactly the unblocked runs of the schedule whose time has come are active, in the rain only where it is ignored;
      the others are not logged. */
  ghost predicate StartedAsDue(schedule: seq<Run>, after: seq<Run>, late: bool, now: int, rain: bool,
                               ignoresRain: set<int>)
  {
    forall r :: r in schedule ==>
      if r.start <= now < r.end && !r.blocked && (rain ==> r.station in ignoresRain)
      then !late ==> r.uid in ActiveUids(after) else r.uid !in Uids(after)
  }

  /** A run of the schedule whose time has come and that nothing blocks is started, rain permitting. */
  function StartOf(r: Run, now: int, rain: bool, ignoresRain: set<int>): seq<Event> {
    if r.start <= now < r.end && !r.blocked && (!rain || r.station in ignoresRain) then [Started(r.uid)] else []
  }

  function Starts(schedule: seq<Run>, now: int, rain: bool, ignoresRain: set<int>): seq<Event> {
    if schedule == [] then []
    else StartOf(schedule[0], now, rain, ignoresRain) + Starts(schedule[1..], now, rain, ignoresRain)
  }

  /** Exactly the unblocked runs of the schedule whose time has come start, in the rain only where it is ignored. */
  lemma {:induction false} StartsExactly(schedule: seq<Run>, now: int, rain: bool, ignoresRain: set<int>, u: string)
    ensures Started(u) in Starts(schedule, now, rain, ignoresRain) <==>
      exists r :: r in schedule && r.uid == u
        && r.start <= now < r.end && !r.blocked && (rain ==> r.station in ignoresRain)
  {
    if schedule != [] {
      var r, later := schedule[0], Starts(schedule[1..], now, rain, ignoresRain);
      StartsExactly(schedule[1..], now, rain, ignoresRain, u);
      assert schedule == [r] + schedule[1..];
      assert Started(u) in StartOf(r, now, rain, ignoresRain) + later <==>
        Started(u) in StartOf(r, now, rain, ignoresRain) || Started(u) in later;
    }
  }

  /** What starts runs. */
  lemma {:induction false} RunningAfterStarts(h: seq<Event>, starts: seq<Event>, u: string)
    requires (forall e :: e in starts ==> e.Started?) && Started(u) in starts
    ensures u in Running(h + starts)
  {
    var n := |starts| - 1;
    assert (h + starts)[..|h| + n] == h + starts[..n];
    if starts[n] != Started(u) {
      RunningAfterStarts(h, starts[..n], u);
    }
  }

  lemma {:induction false} StartsStart(schedule: seq<Run>, now: int, rain: bool, ignoresRain: set<int>)
    ensures forall e :: e in Starts(schedule, now, rain, ignoresRain) ==> e.Started?
  {
    if schedule != [] { StartsStart(schedule[1..], now, rain, ignoresRain); }
  }

  lemma StartStep(before: seq<Event>, events: seq<Event>, schedule: seq<Run>, k: nat, now: int, rain: bool,
                  ignoresRain: set<int>)
    requires k < |schedule|
    ensures var start := StartOf(schedule[k], now, rain, ignoresRain);
      && before + events + start == before + (events + start)
      && events + Starts(schedule[k..], now, rain, ignoresRain) ==
         events + start + Starts(schedule[k + 1..], now, rain, ignoresRain)
  {
    var start := StartOf(schedule[k], now, rain, ignoresRain);
    assert schedule[k] == schedule[k..][0] && schedule[k..][1..] == schedule[k + 1..];
    Associate(before, events, start);
    Associate(events, start, Starts(schedule[k + 1..], now, rain, ignoresRain));
  }

  /** The water that a started run of the schedule uses. */
  ghost function DueUsage(r: Run, now: int, rain: bool, ignoresRain: set<int>): real {
    if StartOf(r, now, rain, ignoresRain) != [] then r.usage else 0.0
  }

  ghost function DueUsages(schedule: seq<Run>, now: int, rain: bool, ignoresRain: set<int>): real {
    if schedule == [] then 0.0
    else
      var n := |schedule| - 1;
      DueUsages(schedule[..n], now, rain, ignoresRain) + DueUsage(schedule[n], now, rain, ignoresRain)
  }

  ghost predicate ReadBy(readings: nat -> Reading, t: int) {
    forall k :: readings(k).time <= t
  }

  /** What is logged when the clock is read is logged by then. */
  ghost predicate KeepsTime(before: seq<Run>, after: seq<Run>, readings: nat -> Reading) {
    forall t :: ReadBy(readings, t) && LoggedBy(before, t) ==> LoggedBy(after, t)
  }

  /** At most this much more water is in use. */
  ghost predicate Grows(before: seq<Run>, after: seq<Run>, entries: seq<Run>, extra: real, now: int) {
    NonNegative(before) && NonNegative(entries) ==>
      NonNegative(after) && Watering(after, now) <= Watering(before, now) + extra
  }

  lemma StartGrows(runs: seq<Run>, entry: Run, now: int, rain: bool, ignoresRain: set<int>, o: Reading)
    ensures var after := if StartOf(entry, now, rain, ignoresRain) == [] then runs
                         else Pruned(runs + [entry.(start := o.time, active := true)], false, o);
      && Grows(runs, after, [entry], DueUsage(entry, now, rain, ignoresRain), now)
      && forall t :: o.time <= t && LoggedBy(runs, t) ==> LoggedBy(after, t)
  {
    if StartOf(entry, now, rain, ignoresRain) != [] {
      var started := entry.(start := o.time, active := true);
      var more := runs + [started];
      assert entry in [entry] && forall r :: r in more ==> r in runs || r == started;
      PruningShrinks(more, false, o);
      WateringAppend(runs, [started], now);
      assert Watering([started], now) == entry.usage;
      forall t | o.time <= t && LoggedBy(runs, t) ensures LoggedBy(Pruned(more, false, o), t) {
        assert LoggedBy(more, t);
      }
    }
  }

  lemma GrowsMore(before: seq<Run>, middle: seq<Run>, after: seq<Run>, schedule: seq<Run>, k: nat, now: int, rain: bool,
                  ignoresRain: set<int>)
    requires k < |schedule|
    requires Grows(before, middle, schedule[..k], DueUsages(schedule[..k], now, rain, ignoresRain), now)
    requires Grows(middle, after, [schedule[k]], DueUsage(schedule[k], now, rain, ignoresRain), now)
    ensures Grows(before, after, schedule[..k + 1], DueUsages(schedule[..k + 1], now, rain, ignoresRain), now)
  {
    assert schedule[..k + 1][..k] == schedule[..k];
    assert schedule[..k + 1] == schedule[..k] + [schedule[k]];
  }

  /** finished_runs */
  function Inactives(runs: seq<Run>): seq<Run> {
    if runs == [] then [] else (if runs[0].active then [] else [runs[0]]) + Inactives(runs[1..])
  }

  lemma {:induction false} SplitUids(runs: seq<Run>)
    ensures Uids(Inactives(runs)) + Uids(Actives(runs)) == Uids(runs)
  {
    if runs != [] {
      SplitUids(runs[1..]);
      UidsAppend(if runs[0].active then [] else [runs[0]], Inactives(runs[1..]));
      UidsAppend(if runs[0].active then [runs[0]] else [], Actives(runs[1..]));
    }
  }

  lemma {:induction false} ActiveIsIn(runs: seq<Run>, r: Run)
    requires r in runs && r.active
    ensures r.uid in ActiveUids(runs)
  {
    assert runs == [runs[0]] + runs[1..];
    if r != runs[0] { ActiveIsIn(runs[1..], r); }
  }

  lemma LaterHaveOtherUids(runs: seq<Run>)
    requires DistinctUids(runs) && runs != []
    ensures forall r :: r in runs[1..] ==> r.uid != runs[0].uid
  {
    forall r | r in runs[1..] ensures r.uid != runs[0].uid {
      UidsOf(runs[1..], r.uid);
    }
  }

  class Log {
    var runs: seq<Run>
    ghost var history: seq<Event>
    /** Pruning was on at some time. */
    ghost var pruned: bool
    /** Some run was logged late. */
    ghost var late: bool

    ghost predicate Valid()
      reads this
    {
      Sound(runs, history, pruned, late)
    }

    constructor ()
      ensures Valid() && runs == [] && history == [] && !pruned && !late
    {
      runs, history, pruned, late := [], [], false, false;
    }

    /** The deletions of clear_runs, from the back. */
    method DropPrunable(minimum: nat, first: int, o: Reading)
      modifies this`runs
      ensures var n := if minimum < |old(runs)| then |old(runs)| - minimum else 0;
        runs == Kept(old(runs)[..n], first, o) + old(runs)[n..]
    {
      ghost var before := runs;
      var n := if minimum < |runs| then |runs| - minimum else 0;
      ghost var tail := before[n..];
      ghost var kept := [];
      assert before[n..n] == [] && kept + tail == tail;
      for index := n downto 0
        invariant kept == Kept(before[index..n], first, o) && runs == before[..index] + (kept + tail)
      {
        var interval := runs[index];
        PruneStep(before, index, n, first, o, kept, tail);
        var delete := false;
        if index < |runs| - minimum {
          delete := true;
        } else if interval.end - interval.start > 12 * 3600 * SECOND {
          delete := true;
        }
        if !interval.blocked && first - interval.end <= Margin(o) * SECOND {
          delete := false;
        } else if !interval.blocked && interval.end >= o.minEto {
          delete := false;
        }
        if delete {
          runs := runs[..index] + runs[index + 1..];
        } else {
          kept := [interval] + kept;
        }
      }
    }

    /** clear_runs */
    method ClearRuns(allEntries: bool, o: Reading)
      requires Valid()
      modifies this
      ensures Valid() && history == old(history) && late == old(late)
      ensures runs == Pruned(old(runs), allEntries, o)
      ensures !late ==> forall r :: r in old(runs) && r.active ==> r in runs
      ensures pruned == (old(pruned) || Prunes(allEntries, o))
    {
      PruningKeepsSound(runs, history, pruned, late, allEntries, o);
      ghost var left := Pruned(runs, allEntries, o);
      if Prunes(allEntries, o) {
        var minimum := if allEntries || !o.runLog then 0 else o.runEntries;
        DropPrunable(minimum, FirstStart(runs, o.pruneTime), o);
        pruned := true;
      }
      assert runs == left;
    }

    /** start_run, on a run that is not logged. */
    method StartRun(interval: Run, o: Reading)
      requires Valid() && interval.uid !in Uids(runs)
      modifies this
      ensures Valid() && history == old(history) + [Started(interval.uid)]
      ensures runs == Pruned(old(runs) + [interval.(start := o.time, active := true)], false, o)
      ensures Uids(runs) <= Uids(old(runs)) + {interval.uid}
      ensures pruned == (old(pruned) || Prunes(false, o)) && late == (old(late) || LoggedLate(interval, o.time))
    {
      var entry := interval.(start := o.time, active := true);
      StartKeepsSound(runs, history, pruned, late, entry);
      UidsAppend(runs, [entry]);
      runs := runs + [entry];
      history := history + [Started(entry.uid)];
      late := late || LoggedLate(entry, entry.start);
      PruningDrops(runs, false, o);
      ClearRuns(false, o);
    }

    /** finish_run, for one run or for all. The clock is read for each. */
    method FinishRun(uid: Option<string>, clock: nat -> int, o: Reading)
      requires Valid()
      modifies this
      ensures Valid() && history == old(history) + Finishes(old(runs), uid)
      ensures runs == Pruned(FinishEach(old(runs), uid, clock, 0), false, o)
      ensures Uids(runs) <= Uids(old(runs)) && ActiveUids(runs) <= ActiveUids(old(runs))
      ensures if uid.None? then ActiveUids(runs) == {} else uid.value !in ActiveUids(runs)
      ensures !late && uid.Some? ==> ActiveUids(runs) == ActiveUids(old(runs)) - {uid.value}
      ensures !Prunes(false, o) ==> Uids(runs) == Uids(old(runs))
      ensures !late && uid.Some? ==> forall r :: r in old(runs) && r.active && r.uid != uid.value ==> r in runs
      ensures pruned == (old(pruned) || Prunes(false, o)) && late == old(late)
    {
      FinishKeepsSound(runs, history, pruned, late, uid, clock);
      FinishedUids(runs, uid, clock, 0);
      FinishedRuns(runs, uid, clock, 0);
      HitsExactly(runs, uid);
      FinishHits(uid, clock);
      PruningDrops(runs, false, o);
      if !late { PruningKeepsActives(runs, false, o); }
      ClearRuns(false, o);
    }

    /** The loop of finish_run: one run is looked for only until it is found. */
    method FinishHits(uid: Option<string>, clock: nat -> int)
      requires DistinctUids(runs)
      modifies this`runs, this`history
      ensures runs == FinishEach(old(runs), uid, clock, 0) && history == old(history) + Finishes(old(runs), uid)
    {
      ghost var rest: seq<Run>, done: seq<Run> := runs, [];
      ghost var allRuns, allEvents := FinishEach(runs, uid, clock, 0), history + Finishes(runs, uid);
      assert done + rest == rest && done + allRuns == allRuns;
      for i := 0 to |runs|
        invariant |done| == i && runs == done + rest && DistinctUids(rest)
        invariant done + FinishEach(rest, uid, clock, i) == allRuns && history + Finishes(rest, uid) == allEvents
      {
        var hit := FinishAt(i, uid, clock, done, rest);
        if hit && uid.Some? {
          FinishOthers(rest[1..], uid.value, clock, i + 1);
          assert history + [] == history;
          return;
        }
        done, rest := done + [runs[i]], rest[1..];
      }
      assert done + [] == done && history + [] == history;
    }

    /** One entry in the loop of finish_run. */
    method FinishAt(i: nat, uid: Option<string>, clock: nat -> int, ghost done: seq<Run>, ghost rest: seq<Run>)
      returns (hit: bool)
      requires i == |done| && rest != [] && runs == done + rest
      modifies this`runs, this`history
      ensures hit == Hits(rest[0], uid) && |runs| == |old(runs)| && runs == (done + [runs[i]]) + rest[1..]
      ensures done + FinishEach(rest, uid, clock, i) == (done + [runs[i]]) + FinishEach(rest[1..], uid, clock, i + 1)
      ensures old(history) + Finishes(rest, uid) == history + Finishes(rest[1..], uid)
    {
      FinishStep(done, history, rest, uid, clock);
      var entry := runs[i];
      hit := Hits(entry, uid);
      if hit {
        runs := runs[i := entry.(end := clock(i), active := false)];
        history := history + [Finished(entry.uid)];
      }
    }

    /** finish_run for one run: a second call for the same run does nothing more. */
    method FinishOne(uid: string, o: Reading)
      requires Valid()
      modifies this
      ensures Valid() && uid !in ActiveUids(runs)
      ensures history == if uid in ActiveUids(old(runs)) then old(history) + [Finished(uid)] else old(history)
      ensures EndsOnly(old(runs), runs, uid, late) && (!Prunes(false, o) ==> Uids(runs) == Uids(old(runs)))
      ensures pruned == (old(pruned) || Prunes(false, o)) && late == old(late)
    {
      FinishesOne(runs, uid);
      assert history + [] == history;
      var clock: nat -> int := _ => o.time;
      FinishingShrinks(runs, Some(uid), clock);
      PruningShrinks(FinishEach(runs, Some(uid), clock, 0), false, o);
      ghost var done := FinishEach(runs, Some(uid), clock, 0);
      ShrinksTwice(runs, done, Pruned(done, false, o));
      FinishRun(Some(uid), clock, o);
    }

    /** One active run in the loop of _check_schedule. During rain a run that does not ignore it is only switched
        off: its entry stays active. */
    method FinishIfEnded(entry: Run, now: int, rain: bool, ignoresRain: set<int>, first: Reading, second: Reading)
      requires Valid()
      modifies this
      ensures Valid() && late == old(late)
      ensures history == old(history) +
        if entry.uid in ActiveUids(old(runs)) then EndOf(entry, now, rain, ignoresRain) else []
      ensures EndsOnly(old(runs), runs, entry.uid, late)
      ensures !Prunes(false, first) && !Prunes(false, second) ==> Uids(runs) == Uids(old(runs)) && pruned == old(pruned)
      ensures if entry.end <= now && (rain ==> entry.station in ignoresRain)
        then entry.uid !in ActiveUids(runs) else runs == old(runs)
    {
      assert history + [] == history;
      var ignoreRain := entry.station in ignoresRain;
      if entry.end <= now || (rain && !ignoreRain && !entry.blocked && !entry.manual) {
        FinishUnlessRain(entry.uid, rain, ignoreRain, first, second);
      }
    }

    /** The two calls of finish_run. */
    method FinishUnlessRain(uid: string, rain: bool, ignoreRain: bool, first: Reading, second: Reading)
      requires Valid()
      modifies this
      ensures Valid() && late == old(late) && EndsOnly(old(runs), runs, uid, late)
      ensures history == old(history) +
        if uid in ActiveUids(old(runs)) && (!rain || ignoreRain) then [Finished(uid)] else []
      ensures !Prunes(false, first) && !Prunes(false, second) ==> Uids(runs) == Uids(old(runs)) && pruned == old(pruned)
      ensures if rain && !ignoreRain then runs == old(runs) else uid !in ActiveUids(runs)
    {
      assert history + [] == history;
      if !rain {
        FinishOne(uid, first);
      }
      ghost var middle := runs;
      if ignoreRain {
        FinishOne(uid, second);
        EndsOnlyTwice(old(runs), middle, runs, uid, late);
      }
    }

    /** One pass of the loop over the active runs. */
    method FinishNext(active: seq<Run>, k: nat, ghost first: seq<Run>, now: int, rain: bool, ignoresRain: set<int>,
                      before: Reading, after: Reading)
      returns (ghost end: seq<Event>)
      requires Valid() && k < |active| && DistinctUids(active) && LoggedActive(active, first)
      requires EndedSoFar(active[..k], active[k..], first, runs, late, now, rain, ignoresRain)
      modifies this
      ensures Valid() && late == old(late)
      ensures EndedSoFar(active[..k + 1], active[k + 1..], first, runs, late, now, rain, ignoresRain)
      ensures history == old(history) + end && forall e :: e in end ==> e.Finished?
      ensures !late ==> end == EndOf(active[k], now, rain, ignoresRain)
      ensures !Prunes(false, before) && !Prunes(false, after) ==> Uids(runs) == Uids(old(runs)) && pruned == old(pruned)
    {
      ghost var logged := runs;
      end := if active[k].uid in ActiveUids(runs) then EndOf(active[k], now, rain, ignoresRain) else [];
      if !late {
        assert active[k] == active[k..][0];
        ActiveIsIn(runs, active[k]);
      }
      FinishIfEnded(active[k], now, rain, ignoresRain, before, after);
      OneMoreEnded(active, k, first, logged, runs, late, now, rain, ignoresRain);
    }

    /** The loop over the active runs. */
    method FinishAll(active: seq<Run>, now: int, rain: bool, ignoresRain: set<int>, readings: nat -> Reading)
      returns (ghost events: seq<Event>)
      requires Valid() && DistinctUids(active) && LoggedActive(active, runs)
      modifies this
      ensures Valid() && late == old(late)
      ensures EndedSoFar(active, [], old(runs), runs, late, now, rain, ignoresRain)
      ensures history == old(history) + events && forall e :: e in events ==> e.Finished?
      ensures !late ==> events == Ended(active, now, rain, ignoresRain)
      ensures (forall k :: !Prunes(false, readings(k))) ==> Uids(runs) == Uids(old(runs)) && pruned == old(pruned)
    {
      ghost var before := history;
      events := [];
      assert before + [] == before && active[..0] == [] && active[0..] == active;
      for k := 0 to |active|
        invariant Valid() && late == old(late)
        invariant EndedSoFar(active[..k], active[k..], old(runs), runs, late, now, rain, ignoresRain)
        invariant (forall k :: !Prunes(false, readings(k))) ==> Uids(runs) == Uids(old(runs)) && pruned == old(pruned)
        invariant history == before + events && forall e :: e in events ==> e.Finished?
        invariant !late ==> Ended(active, now, rain, ignoresRain) == events + Ended(active[k..], now, rain, ignoresRain)
      {
        ghost var end := FinishNext(active, k, old(runs), now, rain, ignoresRain, readings(2 * k), readings(2 * k + 1));
        EndStep(before, events, active, k, end, now, rain, ignoresRain);
        events := events + end;
      }
      assert active[..|active|] == active;
    }

    /** The loop over the active runs in _check_schedule: exactly those finish that have ended, unless it rains and
        their stations do not ignore that; the others stay active. */
    method FinishEnded(active: seq<Run>, now: int, rain: bool, ignoresRain: set<int>, readings: nat -> Reading)
      returns (ghost events: seq<Event>)
      requires Valid() && DistinctUids(active) && LoggedActive(active, runs)
      modifies this
      ensures Valid() && late == old(late) && Uids(runs) <= Uids(old(runs))
      ensures history == old(history) + events && forall e :: e in events ==> e.Finished?
      ensures !late ==> events == Ended(active, now, rain, ignoresRain)
      ensures (forall k :: !Prunes(false, readings(k))) ==> Uids(runs) == Uids(old(runs)) && pruned == old(pruned)
      ensures EndedAsDue(active, runs, events, late, now, rain, ignoresRain)
      ensures Shrinks(old(runs), runs)
    {
      events := FinishAll(active, now, rain, ignoresRain, readings);
      EndedFacts(active, now, rain, ignoresRain);
    }

    /** One entry of the schedule in _check_schedule. */
    method StartIfDue(entry: Run, now: int, rain: bool, ignoresRain: set<int>, o: Reading)
      requires Valid() && entry.uid !in Uids(runs)
      modifies this
      ensures Valid() && history == old(history) + StartOf(entry, now, rain, ignoresRain)
      ensures Uids(runs) <= Uids(old(runs)) + {entry.uid}
      ensures NotLogged([entry], runs, now, rain, ignoresRain)
      ensures !Prunes(false, o) ==> pruned == old(pruned)
      ensures o.time <= now + 60 * SECOND ==> late == old(late)
      ensures Grows(old(runs), runs, [entry], DueUsage(entry, now, rain, ignoresRain), now)
      ensures forall t :: o.time <= t && LoggedBy(old(runs), t) ==> LoggedBy(runs, t)
    {
      assert history + [] == history;
      StartGrows(runs, entry, now, rain, ignoresRain, o);
      if entry.start <= now < entry.end {
        if entry.blocked {
          return;
        }
        if rain && entry.station in ignoresRain {
          StartRun(entry, o);
        }
        if !rain {
          StartRun(entry, o);
        }
      }
    }

    /** One pass of the loop over the schedule. */
    method StartNext(schedule: seq<Run>, k: nat, ghost first: seq<Run>, now: int, rain: bool, ignoresRain: set<int>,
                     o: Reading)
      requires Valid() && k < |schedule| && DistinctUids(schedule)
      requires StartedSoFar(schedule, k, first, runs, now, rain, ignoresRain)
      modifies this
      ensures Valid() && history == old(history) + StartOf(schedule[k], now, rain, ignoresRain)
      ensures StartedSoFar(schedule, k + 1, first, runs, now, rain, ignoresRain)
      ensures !Prunes(false, o) ==> pruned == old(pruned)
      ensures o.time <= now + 60 * SECOND ==> late == old(late)
      ensures forall t :: o.time <= t && LoggedBy(old(runs), t) ==> LoggedBy(runs, t)
    {
      ghost var logged := runs;
      NextIsNew(schedule, k, runs);
      StartIfDue(schedule[k], now, rain, ignoresRain, o);
      OneMoreStarted(schedule, k, first, logged, runs, now, rain, ignoresRain);
    }

    /** The loop over the schedule. */
    method StartAll(schedule: seq<Run>, now: int, rain: bool, ignoresRain: set<int>, readings: nat -> Reading)
      requires Valid() && DistinctUids(schedule) && Uids(schedule) !! Uids(runs)
      modifies this
      ensures Valid() && history == old(history) + Starts(schedule, now, rain, ignoresRain)
      ensures StartedSoFar(schedule, |schedule|, old(runs), runs, now, rain, ignoresRain)
      ensures (forall k :: !Prunes(false, readings(k))) ==> pruned == old(pruned)
      ensures (forall k :: readings(k).time <= now + 60 * SECOND) ==> late == old(late)
      ensures KeepsTime(old(runs), runs, readings)
    {
      ghost var before, events := history, [];
      assert before + [] == before && schedule[..0] == [] && schedule[0..] == schedule;
      for k := 0 to |schedule|
        invariant Valid() && StartedSoFar(schedule, k, old(runs), runs, now, rain, ignoresRain)
        invariant (forall k :: !Prunes(false, readings(k))) ==> pruned == old(pruned)
        invariant (forall k :: readings(k).time <= now + 60 * SECOND) ==> late == old(late)
        invariant history == before + events
        invariant Starts(schedule, now, rain, ignoresRain) == events + Starts(schedule[k..], now, rain, ignoresRain)
        invariant KeepsTime(old(runs), runs, readings)
      {
        StartStep(before, events, schedule, k, now, rain, ignoresRain);
        StartNext(schedule, k, old(runs), now, rain, ignoresRain, readings(k));
        events := events + StartOf(schedule[k], now, rain, ignoresRain);
      }
    }

    /** The loop over the schedule in _check_schedule: exactly the unblocked runs start whose time has come, in the rain
        only where it is ignored. */
    method StartDue(schedule: seq<Run>, now: int, rain: bool, ignoresRain: set<int>, readings: nat -> Reading)
      requires Valid() && DistinctUids(schedule) && Uids(schedule) !! Uids(runs)
      modifies this
      ensures Valid() && history == old(history) + Starts(schedule, now, rain, ignoresRain)
      ensures Uids(runs) <= Uids(old(runs)) + Uids(schedule)
      ensures (forall k :: !Prunes(false, readings(k))) ==> pruned == old(pruned)
      ensures (forall k :: readings(k).time <= now + 60 * SECOND) ==> late == old(late)
      ensures Grows(old(runs), runs, schedule, DueUsages(schedule, now, rain, ignoresRain), now)
      ensures KeepsTime(old(runs), runs, readings)
      ensures StartedAsDue(schedule, runs, late, now, rain, ignoresRain)
    {
      ghost var before := history;
      StartAll(schedule, now, rain, ignoresRain, readings);
      assert schedule[..|schedule|] == schedule;
      StartedAreActive(before, schedule, now, rain, ignoresRain);
    }
  }

  /** The loop has been through the first k runs of the schedule, and none of the others is logged. */
  ghost predicate StartedSoFar(schedule: seq<Run>, k: nat, first: seq<Run>, runs: seq<Run>, now: int, rain: bool,
                               ignoresRain: set<int>)
    requires k <= |schedule|
  {
    var done, rest := schedule[..k], schedule[k..];
    && DistinctUids(rest) && Uids(rest) !! Uids(runs) && Uids(runs) + Uids(rest) <= Uids(first) + Uids(schedule)
    && NotLogged(done, runs, now, rain, ignoresRain)
    && Grows(first, runs, done, DueUsages(done, now, rain, ignoresRain), now)
  }

  lemma NextIsNew(schedule: seq<Run>, k: nat, runs: seq<Run>)
    requires k < |schedule| && DistinctUids(schedule[k..]) && Uids(schedule[k..]) !! Uids(runs)
    ensures schedule[k].uid !in Uids(runs) && schedule[k].uid !in Uids(schedule[k + 1..])
    ensures DistinctUids(schedule[k + 1..]) && Uids(schedule[k..]) == {schedule[k].uid} + Uids(schedule[k + 1..])
  {
    assert schedule[k] == schedule[k..][0] && schedule[k..][1..] == schedule[k + 1..];
  }

  lemma OneMoreStarted(schedule: seq<Run>, k: nat, first: seq<Run>, before: seq<Run>, after: seq<Run>, now: int,
                       rain: bool, ignoresRain: set<int>)
    requires k < |schedule| && DistinctUids(schedule)
    requires StartedSoFar(schedule, k, first, before, now, rain, ignoresRain)
    requires Uids(after) <= Uids(before) + {schedule[k].uid} && NotLogged([schedule[k]], after, now, rain, ignoresRain)
    requires Grows(before, after, [schedule[k]], DueUsage(schedule[k], now, rain, ignoresRain), now)
    ensures StartedSoFar(schedule, k + 1, first, after, now, rain, ignoresRain)
  {
    NextIsNew(schedule, k, before);
    GrowsMore(first, before, after, schedule, k, now, rain, ignoresRain);
    StillNotLogged(schedule, k, before, after, now, rain, ignoresRain);
  }

  /** What is not to start is not logged. */
  ghost predicate NotLogged(entries: seq<Run>, runs: seq<Run>, now: int, rain: bool, ignoresRain: set<int>) {
    forall r | r in entries ::
      (r.start <= now < r.end && !r.blocked && (rain ==> r.station in ignoresRain)) || r.uid !in Uids(runs)
  }

  lemma StillNotLogged(schedule: seq<Run>, k: nat, before: seq<Run>, after: seq<Run>, now: int, rain: bool,
                       ignoresRain: set<int>)
    requires DistinctUids(schedule) && k < |schedule| && NotLogged(schedule[..k], before, now, rain, ignoresRain)
    requires schedule[k].uid !in Uids(before) && Uids(after) <= Uids(before) + {schedule[k].uid}
    requires NotLogged([schedule[k]], after, now, rain, ignoresRain)
    ensures NotLogged(schedule[..k + 1], after, now, rain, ignoresRain)
  {
    assert schedule[..k + 1] == schedule[..k] + [schedule[k]];
    assert schedule[k] in [schedule[k]];
    forall i | 0 <= i < k ensures schedule[i].uid != schedule[k].uid {
      DistinctAt(schedule, i, k);
    }
  }

  lemma StartedAreActive(before: seq<Event>, schedule: seq<Run>, now: int, rain: bool, ignoresRain: set<int>)
    ensures forall r ::
      r in schedule && r.start <= now < r.end && !r.blocked && (rain ==> r.station in ignoresRain) ==>
        r.uid in Running(before + Starts(schedule, now, rain, ignoresRain))
  {
    StartsStart(schedule, now, rain, ignoresRain);
    forall r | r in schedule && r.start <= now < r.end && !r.blocked && (rain ==> r.station in ignoresRain)
      ensures r.uid in Running(before + Starts(schedule, now, rain, ignoresRain))
    {
      StartsExactly(schedule, now, rain, ignoresRain, r.uid);
      RunningAfterStarts(before, Starts(schedule, now, rain, ignoresRain), r.uid);
    }
  }

  /** What is read at a time, with the log of runs switched off and no weather program. */
  function Unlogged(time: int): Reading {
    Reading(time, false, 0, 0, 0, 0, time, 24 * 3600 * SECOND)
  }

  lemma PrunedOne(r: Run, o: Reading)
    requires !o.runLog
    ensures Pruned([r], false, o) ==
      if Matters(r, if r.active then Min(r.start, o.pruneTime) else o.pruneTime, o) then [r] else []
  {
    var first := if r.active then Min(r.start, o.pruneTime) else o.pruneTime;
    assert [r][..1] == [r] && [r][1..] == [];
    assert FirstStart([r], o.pruneTime) == first;
    assert Kept([r], first, o) == if Matters(r, first, o) then [r] else [];
    assert [r] + [] == [r];
  }

  lemma NoUids(runs: seq<Run>)
    ensures runs == [] || Uids(runs) != {}
  {
    if runs != [] { assert runs[0].uid in Uids(runs); }
  }

  /** A run of an hour is stopped by hand after ten seconds. */
  method Stopped(r: Run) returns (log: Log)
    requires r.end == 3600 * SECOND && !r.blocked
    ensures fresh(log) && log.Valid() && !log.late && log.history == [Started(r.uid), Finished(r.uid)]
    ensures log.runs == [r.(start := 0, end := 10 * SECOND, active := false)]
  {
    var stop := Unlogged(10 * SECOND);
    log := new Log();
    log.StartRun(r, Unlogged(0));
    ghost var entry := r.(start := 0, active := true);
    assert [] + [entry] == [entry];
    PrunedOne(entry, Unlogged(0));
    var clock: nat -> int := _ => stop.time;
    log.FinishRun(Some(r.uid), clock, stop);
    FinishesAlone(entry, clock);
    PrunedOne(entry.(end := 10 * SECOND, active := false), stop);
  }

  lemma FinishesAlone(r: Run, clock: nat -> int)
    requires r.active
    ensures FinishEach([r], Some(r.uid), clock, 0) == [r.(end := clock(0), active := false)]
    ensures Finishes([r], Some(r.uid)) == [Finished(r.uid)]
  {
    assert [r][1..] == [];
  }

  /** A prune more than a minute later drops its entry. */
  method StoppedAndPruned(r: Run) returns (log: Log)
    requires r.end == 3600 * SECOND && !r.blocked
    ensures fresh(log) && log.Valid() && !log.late && log.runs == []
    ensures log.history == [Started(r.uid), Finished(r.uid)]
  {
    var later := Unlogged(80 * SECOND);
    log := Stopped(r);
    PrunedOne(r.(start := 0, end := 10 * SECOND, active := false), later);
    log.ClearRuns(false, later);
  }

  /** A run logged late is lost at once, so that it can start again without having finished. */
  method LateRunStartsTwice(r: Run) returns (log: Log)
    requires r.end == 10 * SECOND
    ensures fresh(log) && log.Valid() && log.late && log.history == [Started(r.uid), Started(r.uid)]
  {
    var late := Unlogged(80 * SECOND);
    log := new Log();
    log.StartRun(r, late);
    ghost var entry := r.(start := 80 * SECOND, active := true);
    assert [] + [entry] == [entry];
    PrunedOne(entry, late);
    log.StartRun(r, late);
  }

  ghost predicate LoggedActive(active: seq<Run>, runs: seq<Run>) {
    forall r :: r in active ==> r in runs && r.active
  }

  /** Those of the list that have not ended are in the log, the others are not active any more. */
  ghost predicate EndedOnly(active: seq<Run>, runs: seq<Run>, late: bool, now: int, rain: bool, ignoresRain: set<int>) {
    forall r | r in active ::
      if r.end <= now && (rain ==> r.station in ignoresRain) then r.uid !in ActiveUids(runs) else late || r in runs
  }

  /** The loop has been through the runs in `done`, and the others are still to come. */
  ghost predicate EndedSoFar(done: seq<Run>, rest: seq<Run>, first: seq<Run>, runs: seq<Run>, late: bool, now: int,
                             rain: bool, ignoresRain: set<int>)
  {
    && DistinctUids(rest) && (late || LoggedActive(rest, runs)) && EndedOnly(done, runs, late, now, rain, ignoresRain)
    && Uids(runs) <= Uids(first) && Shrinks(first, runs)
  }

  lemma OneMoreEnded(active: seq<Run>, k: nat, first: seq<Run>, before: seq<Run>, after: seq<Run>, late: bool, now: int,
                     rain: bool, ignoresRain: set<int>)
    requires k < |active| && DistinctUids(active) && LoggedActive(active, first)
    requires EndedSoFar(active[..k], active[k..], first, before, late, now, rain, ignoresRain)
    requires EndsOnly(before, after, active[k].uid, late)
    requires if active[k].end <= now && (rain ==> active[k].station in ignoresRain)
      then active[k].uid !in ActiveUids(after) else after == before
    ensures EndedSoFar(active[..k + 1], active[k + 1..], first, after, late, now, rain, ignoresRain)
  {
    assert active[k] == active[k..][0] && active[k..][1..] == active[k + 1..];
    ShrinksTwice(first, before, after);
    if !late {
      StillLogged(active[k..], before, after);
      EarlierStay(active, k, first, before, after);
    }
    OneMoreEndedOnly(active, k, before, after, late, now, rain, ignoresRain);
  }

  lemma StillLogged(rest: seq<Run>, before: seq<Run>, after: seq<Run>)
    requires rest != [] && DistinctUids(rest) && LoggedActive(rest, before)
    requires forall r :: r in before && r.active && r.uid != rest[0].uid ==> r in after
    ensures LoggedActive(rest[1..], after) && rest[0] in before
  {
    LaterHaveOtherUids(rest);
  }

  lemma EarlierStay(active: seq<Run>, k: nat, first: seq<Run>, before: seq<Run>, after: seq<Run>)
    requires k < |active| && DistinctUids(active) && LoggedActive(active, first)
    requires forall r :: r in before && r.active && r.uid != active[k].uid ==> r in after
    ensures forall i :: 0 <= i < k && active[i] in before ==> active[i] in after
  {
    forall i | 0 <= i < k && active[i] in before ensures active[i] in after {
      DistinctAt(active, i, k);
      assert active[i] in active;
    }
  }

  lemma OneMoreEndedOnly(active: seq<Run>, k: nat, before: seq<Run>, after: seq<Run>, late: bool, now: int, rain: bool,
                         ignoresRain: set<int>)
    requires k < |active| && EndedOnly(active[..k], before, late, now, rain, ignoresRain)
    requires ActiveUids(after) <= ActiveUids(before)
    requires late || forall i :: 0 <= i < k && active[i] in before ==> active[i] in after
    requires late || active[k] in before
    requires if active[k].end <= now && (rain ==> active[k].station in ignoresRain)
      then active[k].uid !in ActiveUids(after) else after == before
    ensures EndedOnly(active[..k + 1], after, late, now, rain, ignoresRain)
  {
    assert active[..k + 1] == active[..k] + [active[k]];
  }

  lemma EndStep(before: seq<Event>, events: seq<Event>, active: seq<Run>, k: nat, end: seq<Event>, now: int, rain: bool,
                ignoresRain: set<int>)
    requires k < |active|
    ensures before + events + end == before + (events + end)
    ensures end == EndOf(active[k], now, rain, ignoresRain) ==>
      events + Ended(active[k..], now, rain, ignoresRain) ==
      events + end + Ended(active[k + 1..], now, rain, ignoresRain)
  {
    assert active[k] == active[k..][0] && active[k..][1..] == active[k + 1..];
    Associate(before, events, end);
    Associate(events, end, Ended(active[k + 1..], now, rain, ignoresRain));
  }

  lemma FinishStep(done: seq<Run>, history: seq<Event>, rest: seq<Run>, uid: Option<string>, clock: nat -> int)
    requires rest != []
    ensures var x, later := rest[0], rest[1..];
      var y := if Hits(x, uid) then x.(end := clock(|done|), active := false) else x;
      && (done + rest)[|done|] == x && done + rest == done + [x] + later
      && (done + rest)[|done| := y] == done + [y] + later
      && done + FinishEach(rest, uid, clock, |done|) == done + [y] + FinishEach(later, uid, clock, |done| + 1)
      && history + Finishes(rest, uid) ==
        (if Hits(x, uid) then history + [Finished(x.uid)] else history) + Finishes(later, uid)
  {
    var x, later := rest[0], rest[1..];
    var y := if Hits(x, uid) then x.(end := clock(|done|), active := false) else x;
    assert rest == [x] + later;
    Associate(done, [x], later);
    Associate(done, [y], FinishEach(later, uid, clock, |done| + 1));
    if Hits(x, uid) {
      Associate(history, [Finished(x.uid)], Finishes(later, uid));
    } else {
      assert [] + Finishes(later, uid) == Finishes(later, uid);
    }
    ReplaceFirst(done, x, y, later);
  }

  lemma ReplaceFirst(done: seq<Run>, x: Run, y: Run, later: seq<Run>)
    ensures (done + ([x] + later))[|done| := y] == done + [y] + later
  {
  }
}
