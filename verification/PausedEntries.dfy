/** What the program pause makes of a timetable, as values (ospy/scheduler.py). */
module PausedEntries {

  import opened Lists
  import opened Intervals
  import opened Results
  import opened RunLog
  import opened ProgramPause

  /** The runs that the program pause concerns. */
  ghost predicate Automatic(r: Run) {
    !r.manual && !r.blocked && r.program >= 0
  }

  /** r belongs to this occurrence of a program. */
  ghost predicate BelongsTo(r: Run, key: Key) {
    Automatic(r) && r.program == key.program && r.originalStart == key.originalStart
  }

  /** The occurrences by first appearance. */
  ghost function KeysIn(entries: seq<Run>): seq<Key> {
    if entries == [] then []
    else
      var n := |entries| - 1;
      var keys, r := KeysIn(entries[..n]), entries[n];
      var key := Key(r.program, r.originalStart);
      if Automatic(r) && key !in keys then keys + [key] else keys
  }

  /** o runs from the first start to the last end of the runs of one occurrence. */
  ghost predicate Covers(o: Occurrence, key: Key, entries: seq<Run>) {
    && o.program == key.program
    && (forall i :: 0 <= i < |entries| && BelongsTo(entries[i], key) ==>
      o.start <= entries[i].start && entries[i].end <= o.end)
    && (exists i :: 0 <= i < |entries| && BelongsTo(entries[i], key) && o.start == entries[i].start)
    && (exists i :: 0 <= i < |entries| && BelongsTo(entries[i], key) && o.end == entries[i].end)
  }

  /** The occurrences of a timetable: by start, then program, then first appearance. */
  ghost predicate Visits(ordered: seq<Key>, occs: seq<Occurrence>, entries: seq<Run>) {
    && |occs| == |ordered| && Distinct(ordered) && Visited(ordered, occs, KeysIn(entries))
    && (forall j {:trigger Covers(occs[j], ordered[j], entries)} :: 0 <= j < |ordered| ==>
      Covers(occs[j], ordered[j], entries))
    && (forall i :: 0 <= i < |entries| && Automatic(entries[i]) ==>
      Key(entries[i].program, entries[i].originalStart) in ordered)
  }

  /** The automatic run of the list that ends last, the first one if several do; none if there is no automatic one. */
  ghost predicate EndsLast(latest: Option<Latest>, runs: seq<Run>) {
    && (latest.None? <==> forall r :: r in runs ==> !Automatic(r))
    && (latest.Some? ==> exists i :: 0 <= i < |runs| && EndsLastAt(latest.value, runs, i))
  }

  ghost predicate EndsLastAt(latest: Latest, runs: seq<Run>, i: nat)
    requires i < |runs|
  {
    && Automatic(runs[i]) && latest == Latest(runs[i].program, runs[i].end)
    && forall j :: 0 <= j < |runs| && Automatic(runs[j]) ==>
      runs[j].end <= runs[i].end && (j < i ==> runs[j].end < runs[i].end)
  }

  /** The pause in microseconds, at most one year. */
  ghost function Pause(seconds: int): int {
    1000000 * if seconds < 31536000 then seconds else 31536000
  }

  /** Every run of an occurrence moves by the shift of that occurrence, and no other run moves. */
  ghost predicate PausedBy(entries: seq<Run>, moved: seq<Run>, seconds: int, ordered: seq<Key>, occs: seq<Occurrence>,
                           latest: Option<Latest>)
  {
    && |moved| == |entries| && |occs| == |ordered|
    && (forall i {:trigger moved[i]} :: 0 <= i < |entries| && !Automatic(entries[i]) ==> moved[i] == entries[i])
    && (forall i, j {:trigger moved[i], ordered[j]} ::
      0 <= i < |entries| && 0 <= j < |ordered| && BelongsTo(entries[i], ordered[j]) ==>
        MovedBy(entries[i], moved[i], ShiftAt(occs, latest, Pause(seconds), j)))
  }

  ghost predicate MovedBy(r: Run, s: Run, shift: int) {
    s == r.(start := r.start + shift, end := r.end + shift)
  }

  /** moved is what the pause makes of the entries, after these runs. */
  ghost predicate PausedAs(entries: seq<Run>, moved: seq<Run>, runs: seq<Run>, seconds: int) {
    exists ordered, occs, latest ::
      && Visits(ordered, occs, entries) && EndsLast(latest, runs)
      && PausedBy(entries, moved, seconds, ordered, occs, latest)
  }

  // ---- the occurrences are determined ----

  lemma SameKeys(a: seq<Key>, x: seq<Occurrence>, b: seq<Key>, y: seq<Occurrence>, entries: seq<Run>)
    requires Visits(a, x, entries) && Visits(b, y, entries)
    ensures forall key :: key in a ==> key in b
  {
    forall key | key in a ensures key in b {
      var j :| 0 <= j < |a| && a[j] == key;
      assert Covers(x[j], a[j], entries);
    }
  }

  lemma CoverIsUnique(o: Occurrence, p: Occurrence, key: Key, entries: seq<Run>)
    requires Covers(o, key, entries) && Covers(p, key, entries)
    ensures o == p
  {
  }

  /** Up to place k the two orders agree, so b[k] is not earlier in a. */
  lemma ComesNext(a: seq<Key>, x: seq<Occurrence>, b: seq<Key>, y: seq<Occurrence>, entries: seq<Run>, k: nat)
    requires Visits(a, x, entries) && Visits(b, y, entries) && k < |a| && k < |b| && a[..k] == b[..k]
    ensures a[k] == b[k] || Precedes(a[k], x[k], b[k], y[k], KeysIn(entries))
  {
    SameKeys(b, y, a, x, entries);
    assert b[k] in b;
    forall i | 0 <= i < k ensures a[i] == b[i] {
      assert a[..k][i] == b[..k][i];
    }
    var j :| 0 <= j < |a| && a[j] == b[k];
    assert Covers(x[j], a[j], entries) && Covers(y[k], b[k], entries);
    CoverIsUnique(x[j], y[k], b[k], entries);
    if k < j {
      assert Precedes(a[k], x[k], a[j], x[j], KeysIn(entries));
    }
  }

  lemma {:induction false} SamePrefix(a: seq<Key>, x: seq<Occurrence>, b: seq<Key>, y: seq<Occurrence>,
                                      entries: seq<Run>, k: nat)
    requires Visits(a, x, entries) && Visits(b, y, entries) && k <= |a| && k <= |b|
    ensures a[..k] == b[..k]
  {
    if k > 0 {
      var i := k - 1;
      SamePrefix(a, x, b, y, entries, i);
      ComesNext(a, x, b, y, entries, i);
      ComesNext(b, y, a, x, entries, i);
      assert a[..k] == a[..i] + [a[i]] && b[..k] == b[..i] + [b[i]];
    }
  }

  lemma NotBeyond(a: seq<Key>, b: seq<Key>)
    requires Distinct(a) && |b| < |a| && a[..|b|] == b
    ensures a[|b|] !in b
  {
    forall j | 0 <= j < |b| ensures b[j] != a[|b|] {
      assert b[j] == a[j];
    }
  }

  lemma NoMore(a: seq<Key>, x: seq<Occurrence>, b: seq<Key>, y: seq<Occurrence>, entries: seq<Run>)
    requires Visits(a, x, entries) && Visits(b, y, entries)
    ensures |a| <= |b|
  {
    if |b| < |a| {
      assert a[|b|] in a && b[..|b|] == b;
      SamePrefix(a, x, b, y, entries, |b|);
      NotBeyond(a, b);
      SameKeys(a, x, b, y, entries);
      assert false;
    }
  }

  /** A timetable has one list of occurrences. */
  lemma VisitsAreUnique(a: seq<Key>, x: seq<Occurrence>, b: seq<Key>, y: seq<Occurrence>, entries: seq<Run>)
    requires Visits(a, x, entries) && Visits(b, y, entries)
    ensures a == b && x == y
  {
    NoMore(a, x, b, y, entries);
    NoMore(b, y, a, x, entries);
    SamePrefix(a, x, b, y, entries, |a|);
    forall j | 0 <= j < |a| ensures x[j] == y[j] {
      assert Covers(x[j], a[j], entries) && Covers(y[j], b[j], entries);
      CoverIsUnique(x[j], y[j], a[j], entries);
    }
  }

  lemma LastIsUnique(a: Option<Latest>, b: Option<Latest>, runs: seq<Run>)
    requires EndsLast(a, runs) && EndsLast(b, runs)
    ensures a == b
  {
    if a.Some? && b.Some? {
      var i :| 0 <= i < |runs| && EndsLastAt(a.value, runs, i);
      var j :| 0 <= j < |runs| && EndsLastAt(b.value, runs, j);
      assert i == j;
    }
  }

  lemma OwnKey(ordered: seq<Key>, occs: seq<Occurrence>, entries: seq<Run>, i: nat) returns (j: nat)
    requires Visits(ordered, occs, entries) && i < |entries| && Automatic(entries[i])
    ensures j < |ordered| && BelongsTo(entries[i], ordered[j])
  {
    j :| j < |ordered| && ordered[j] == Key(entries[i].program, entries[i].originalStart);
  }

  /** The timetable and the runs before it leave one outcome of the pause. */
  lemma PausedIsUnique(entries: seq<Run>, moved: seq<Run>, other: seq<Run>, runs: seq<Run>, seconds: int)
    requires PausedAs(entries, moved, runs, seconds) && PausedAs(entries, other, runs, seconds)
    ensures moved == other
  {
    var a, x, l :|
      Visits(a, x, entries) && EndsLast(l, runs) && PausedBy(entries, moved, seconds, a, x, l);
    var b, y, m :|
      Visits(b, y, entries) && EndsLast(m, runs) && PausedBy(entries, other, seconds, b, y, m);
    VisitsAreUnique(a, x, b, y, entries);
    LastIsUnique(l, m, runs);
    forall i | 0 <= i < |entries| ensures moved[i] == other[i] {
      if Automatic(entries[i]) {
        var j := OwnKey(a, x, entries, i);
        assert MovedBy(entries[i], moved[i], ShiftAt(x, l, Pause(seconds), j));
        assert MovedBy(entries[i], other[i], ShiftAt(x, l, Pause(seconds), j));
      }
    }
  }

  // ---- what the pause achieves ----

  ghost predicate EndAfterStart(entries: seq<Run>) {
    forall r :: r in entries ==> r.start <= r.end
  }

  lemma VisitsAreWellFormed(ordered: seq<Key>, occs: seq<Occurrence>, entries: seq<Run>)
    requires Visits(ordered, occs, entries) && EndAfterStart(entries)
    ensures WellFormed(occs)
  {
    forall k | 0 <= k < |occs| ensures occs[k].start <= occs[k].end {
      assert Covers(occs[k], ordered[k], entries);
    }
  }

  /** In the order of the occurrences the later of two is the pause behind the earlier. */
  lemma LaterIsApart(entries: seq<Run>, moved: seq<Run>, seconds: int, ordered: seq<Key>, occs: seq<Occurrence>,
                     latest: Option<Latest>, i: nat, j: nat, a: nat, b: nat)
    requires Visits(ordered, occs, entries) && EndAfterStart(entries) && seconds > 0
    requires PausedBy(entries, moved, seconds, ordered, occs, latest) && NoneMissed(occs, latest, Pause(seconds))
    requires i < |entries| && j < |entries| && a < b < |ordered|
    requires BelongsTo(entries[i], ordered[a]) && BelongsTo(entries[j], ordered[b])
    requires entries[i].program != entries[j].program
    ensures moved[i].end + Pause(seconds) <= moved[j].start
  {
    VisitsAreWellFormed(ordered, occs, entries);
    assert Covers(occs[a], ordered[a], entries) && Covers(occs[b], ordered[b], entries);
    assert MovedBy(entries[i], moved[i], ShiftAt(occs, latest, Pause(seconds), a));
    assert MovedBy(entries[j], moved[j], ShiftAt(occs, latest, Pause(seconds), b));
    ShiftedApart(occs, latest, Pause(seconds), a, b, entries[i].end, entries[j].start);
  }

  /** If no occurrence is missed, automatic runs of different programs are the pause apart. */
  lemma PausedAreApart(entries: seq<Run>, moved: seq<Run>, seconds: int, ordered: seq<Key>, occs: seq<Occurrence>,
                       latest: Option<Latest>, i: nat, j: nat)
    requires Visits(ordered, occs, entries) && EndAfterStart(entries) && seconds > 0
    requires PausedBy(entries, moved, seconds, ordered, occs, latest) && NoneMissed(occs, latest, Pause(seconds))
    requires i < |entries| && j < |entries| && Automatic(entries[i]) && Automatic(entries[j])
    requires entries[i].program != entries[j].program
    ensures moved[i].end + Pause(seconds) <= moved[j].start || moved[j].end + Pause(seconds) <= moved[i].start
  {
    var a := OwnKey(ordered, occs, entries, i);
    var b := OwnKey(ordered, occs, entries, j);
    if a < b {
      LaterIsApart(entries, moved, seconds, ordered, occs, latest, i, j, a, b);
    } else if b < a {
      LaterIsApart(entries, moved, seconds, ordered, occs, latest, j, i, b, a);
    }
  }

  /** And the pause behind the run before them that ends last, if that is of another program. */
  lemma PausedAfterLast(entries: seq<Run>, moved: seq<Run>, seconds: int, ordered: seq<Key>, occs: seq<Occurrence>,
                        latest: Option<Latest>, i: nat)
    requires Visits(ordered, occs, entries) && EndAfterStart(entries) && seconds > 0
    requires PausedBy(entries, moved, seconds, ordered, occs, latest) && NoneMissed(occs, latest, Pause(seconds))
    requires i < |entries| && Automatic(entries[i]) && latest.Some? && latest.value.program != entries[i].program
    ensures latest.value.end + Pause(seconds) <= moved[i].start
  {
    var a := OwnKey(ordered, occs, entries, i);
    VisitsAreWellFormed(ordered, occs, entries);
    assert Covers(occs[a], ordered[a], entries);
    assert MovedBy(entries[i], moved[i], ShiftAt(occs, latest, Pause(seconds), a));
    ShiftedAfterLatest(occs, latest, Pause(seconds), a, entries[i].start);
  }

  /** For all inputs: nothing moves back, and no schedule that keeps the pause in this order moves a run less. */
  lemma LeastShift(entries: seq<Run>, moved: seq<Run>, seconds: int, ordered: seq<Key>, occs: seq<Occurrence>,
                   latest: Option<Latest>, starts: seq<int>, i: nat, j: nat)
    requires Visits(ordered, occs, entries) && PausedBy(entries, moved, seconds, ordered, occs, latest)
    requires Respects(starts, occs, latest, Pause(seconds))
    requires i < |entries| && j < |ordered| && BelongsTo(entries[i], ordered[j])
    ensures 0 <= moved[i].start - entries[i].start <= starts[j] - occs[j].start
  {
    assert MovedBy(entries[i], moved[i], ShiftAt(occs, latest, Pause(seconds), j));
    PausedAt(occs, latest, Pause(seconds), j);
    PauseIsEarliest(occs, latest, Pause(seconds), starts, j);
  }

  // ---- the records ----

  /** What the pause sees of a record is what the entry says. */
  ghost predicate Shows(x: Interval, r: Run)
    reads x
  {
    && x.manual == r.manual && x.program == r.program && x.originalStart == r.originalStart
    && x.start == r.start && x.end == r.end && x.blocked.Blocked? == r.blocked
  }

  ghost predicate ShowsAll(all: seq<Interval>, entries: seq<Run>)
    reads all
  {
    |all| == |entries| && forall i :: 0 <= i < |all| ==> Shows(all[i], entries[i])
  }

  lemma ShownIsAutomatic(x: Interval, r: Run)
    requires Shows(x, r)
    ensures Eligible(x) <==> Automatic(r)
    ensures KeyOf(x) == Key(r.program, r.originalStart)
  {
  }

  lemma {:induction false} SameKeysSeen(all: seq<Interval>, entries: seq<Run>)
    requires ShowsAll(all, entries)
    ensures KeysSeen(all) == KeysIn(entries)
  {
    if all != [] {
      var n := |all| - 1;
      SameKeysSeen(all[..n], entries[..n]);
      ShownIsAutomatic(all[n], entries[n]);
    }
  }

  lemma SpanCovers(o: Occurrence, key: Key, all: seq<Interval>, entries: seq<Run>)
    requires ShowsAll(all, entries) && SpansKey(o, key, all)
    ensures Covers(o, key, entries)
  {
    forall i | 0 <= i < |all| ensures BelongsTo(entries[i], key) <==> Eligible(all[i]) && KeyOf(all[i]) == key {
      ShownIsAutomatic(all[i], entries[i]);
      assert all[i] in all;
    }
    var x :| x in all && Eligible(x) && KeyOf(x) == key && o.start == x.start;
    var i :| 0 <= i < |all| && all[i] == x;
    var y :| y in all && Eligible(y) && KeyOf(y) == key && o.end == y.end;
    var j :| 0 <= j < |all| && all[j] == y;
    assert BelongsTo(entries[i], key) && BelongsTo(entries[j], key);
    forall k | 0 <= k < |entries| && BelongsTo(entries[k], key)
      ensures o.start <= entries[k].start && entries[k].end <= o.end
    {
      assert all[k] in all;
    }
  }

  /** The occurrences of the records are those of the entries. */
  lemma OccurrencesAreVisits(ordered: seq<Key>, occs: seq<Occurrence>, all: seq<Interval>, entries: seq<Run>)
    requires ShowsAll(all, entries) && Occurrences(ordered, occs, all)
    ensures Visits(ordered, occs, entries)
  {
    SameKeysSeen(all, entries);
    forall j | 0 <= j < |ordered| ensures Covers(occs[j], ordered[j], entries) {
      SpanCovers(occs[j], ordered[j], all, entries);
    }
    forall i | 0 <= i < |entries| && Automatic(entries[i])
      ensures Key(entries[i].program, entries[i].originalStart) in ordered
    {
      ShownIsAutomatic(all[i], entries[i]);
      assert all[i] in all;
    }
  }

  // ---- the runs before ----

  function ProcessedOf(runs: seq<Run>): (processed: seq<Processed>)
    ensures |processed| == |runs|
  {
    if runs == [] then []
    else
      var r := runs[0];
      [Processed(r.program, r.manual, r.blocked, r.end)] + ProcessedOf(runs[1..])
  }

  lemma {:induction false} ProcessedAt(runs: seq<Run>, i: nat)
    requires i < |runs|
    ensures var p, r := ProcessedOf(runs)[i], runs[i];
      p.program == r.program && p.end == r.end && (p.Counts() <==> Automatic(r))
  {
    if i > 0 { ProcessedAt(runs[1..], i - 1); }
  }

  lemma LatestEndsLast(latest: Option<Latest>, runs: seq<Run>)
    requires IsLatest(latest, ProcessedOf(runs))
    ensures EndsLast(latest, runs)
  {
    var processed := ProcessedOf(runs);
    forall i | 0 <= i < |runs| ensures processed[i] in processed && (processed[i].Counts() <==> Automatic(runs[i])) {
      ProcessedAt(runs, i);
    }
    if latest.Some? {
      var i: nat :| i < |processed| && LastsLongest(processed, i)
        && latest.value == Latest(processed[i].program, processed[i].end);
      forall j | 0 <= j < |runs| ensures processed[j].end == runs[j].end {
        ProcessedAt(runs, j);
      }
      ProcessedAt(runs, i);
      assert EndsLastAt(latest.value, runs, i);
    } else {
      forall r | r in runs ensures !Automatic(r) {
        var i :| 0 <= i < |runs| && runs[i] == r;
        assert !processed[i].Counts();
      }
    }
  }

  lemma EveryOrderVisits(all: seq<Interval>, entries: seq<Run>)
    requires ShowsAll(all, entries)
    ensures forall ordered, occs {:trigger Occurrences(ordered, occs, all)} ::
      Occurrences(ordered, occs, all) ==> Visits(ordered, occs, entries)
    ensures forall i :: 0 <= i < |all| ==>
      all[i] in all && (Eligible(all[i]) <==> Automatic(entries[i]))
      && KeyOf(all[i]) == Key(entries[i].program, entries[i].originalStart)
  {
    forall ordered, occs | Occurrences(ordered, occs, all) ensures Visits(ordered, occs, entries) {
      OccurrencesAreVisits(ordered, occs, all, entries);
    }
    forall i | 0 <= i < |all|
      ensures all[i] in all && (Eligible(all[i]) <==> Automatic(entries[i]))
      ensures KeyOf(all[i]) == Key(entries[i].program, entries[i].originalStart)
    {
      ShownIsAutomatic(all[i], entries[i]);
    }
  }

  /** The entries, where the records are now. */
  ghost function Reread(all: seq<Interval>, entries: seq<Run>): (moved: seq<Run>)
    requires |all| == |entries|
    reads all
    ensures |moved| == |all|
    ensures forall i :: 0 <= i < |all| ==> moved[i] == entries[i].(start := all[i].start, end := all[i].end)
  {
    if all == [] then []
    else
      var n := |all| - 1;
      Reread(all[..n], entries[..n]) + [entries[n].(start := all[n].start, end := all[n].end)]
  }

  /** The records have moved as the pause says. */
  ghost predicate Shifts(all: seq<Interval>, entries: seq<Run>, seconds: int, ordered: seq<Key>, occs: seq<Occurrence>,
                         latest: Option<Latest>)
    requires |all| == |entries| && |occs| == |ordered|
    reads all
  {
    && (forall i :: 0 <= i < |all| && !Automatic(entries[i]) ==>
      ShiftedBy(all[i], entries[i].start, entries[i].end, 0))
    && (forall i, j {:trigger all[i], ordered[j]} ::
      0 <= i < |all| && 0 <= j < |ordered| && BelongsTo(entries[i], ordered[j]) ==>
        ShiftedBy(all[i], entries[i].start, entries[i].end, ShiftAt(occs, latest, Delay(seconds), j)))
  }

  lemma {:induction false} RereadIsPaused(all: seq<Interval>, entries: seq<Run>, runs: seq<Run>, seconds: int,
                                          ordered: seq<Key>, occs: seq<Occurrence>, latest: Option<Latest>)
    requires seconds > 0 && |all| == |entries| && Visits(ordered, occs, entries) && EndsLast(latest, runs)
    requires Shifts(all, entries, seconds, ordered, occs, latest)
    ensures PausedAs(entries, Reread(all, entries), runs, seconds)
  {
    var moved := Reread(all, entries);
    forall i, j | 0 <= i < |entries| && 0 <= j < |ordered| && BelongsTo(entries[i], ordered[j])
      ensures MovedBy(entries[i], moved[i], ShiftAt(occs, latest, Pause(seconds), j))
    {
      assert ShiftedBy(all[i], entries[i].start, entries[i].end, ShiftAt(occs, latest, Delay(seconds), j));
    }
    assert PausedBy(entries, moved, seconds, ordered, occs, latest);
  }

  /** The pause pass over the records, as values. */
  method PauseShown(all: seq<Interval>, runs: seq<Run>, seconds: int, ghost entries: seq<Run>)
    requires Distinct(all) && ShowsAll(all, entries)
    modifies all`start, all`end
    ensures if seconds > 0 then PausedAs(entries, Reread(all, entries), runs, seconds)
            else Reread(all, entries) == entries
  {
    EveryOrderVisits(all, entries);
    assert forall i :: 0 <= i < |all| ==> Shows(all[i], entries[i]);
    ghost var ordered, occs, latest := ApplyPause(all, ProcessedOf(runs), seconds);
    if seconds > 0 {
      assert old(Occurrences(ordered, occs, all));
      LatestEndsLast(latest, runs);
      forall i, j | 0 <= i < |all| && 0 <= j < |ordered| && BelongsTo(entries[i], ordered[j])
        ensures ShiftedBy(all[i], entries[i].start, entries[i].end, ShiftAt(occs, latest, Delay(seconds), j))
      {
        assert KeyOf(all[i]) == ordered[j];
      }
      RereadIsPaused(all, entries, runs, seconds, ordered, occs, latest);
    }
  }
}
