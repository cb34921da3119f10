/** predicted_schedule from its candidates on, and the tick that starts and finishes runs (ospy/scheduler.py). */
module Scheduler {

  import opened Lists
  import opened Intervals
  import opened Results
  import opened RunLog
  import opened PausedEntries
  import UsageProfile
  import Packing
  import ProgramPause

  datatype Options = Options(packing: Packing.Settings, programPause: int)

  // ---- the interval records ----

  function BlockOf(c: Run): Block {
    if c.blocked then Blocked("blocked") else Free
  }

  /** The record carries what the scheduler never changes. */
  predicate Records(x: Interval, c: Run, ignoresRain: set<int>) {
    && x.uid == c.uid && x.station == c.station && x.program == c.program && x.originalStart == c.originalStart
    && x.manual == c.manual && x.fixed == c.fixed && x.ignoreRain == (c.station in ignoresRain)
    && x.adjustment == c.adjustment && x.cutOff == c.cutOff && x.usage == c.usage
  }

  /** The record as it would be logged, before it runs. */
  function EntryOf(x: Interval): Run
    reads x
  {
    Run(x.uid, x.station, x.program, x.originalStart, x.start, x.end, false, x.blocked.Blocked?, x.manual, x.fixed,
        x.adjustment, x.cutOff, x.usage)
  }

  method MakeRecords(cs: seq<Run>, ignoresRain: set<int>) returns (all: seq<Interval>)
    ensures |all| == |cs| && Distinct(all) && forall i :: 0 <= i < |all| ==> fresh(all[i])
    ensures forall i :: 0 <= i < |all| ==>
      && Records(all[i], cs[i], ignoresRain)
      && all[i].start == cs[i].start && all[i].end == cs[i].end && all[i].blocked == BlockOf(cs[i])
  {
    all := [];
    for k := 0 to |cs|
      invariant |all| == k && Distinct(all) && forall i :: 0 <= i < |all| ==> fresh(all[i])
      invariant forall i :: 0 <= i < |all| ==>
        && Records(all[i], cs[i], ignoresRain)
        && all[i].start == cs[i].start && all[i].end == cs[i].end && all[i].blocked == BlockOf(cs[i])
    {
      var c := cs[k];
      var x := new Interval(c.uid, c.station, c.program, c.manual, c.fixed, c.station in ignoresRain, c.adjustment,
                            c.cutOff, c.usage, c.originalStart, c.start, c.end, BlockOf(c));
      all := all + [x];
    }
  }

  /** What the packing loop is asked for. */
  ghost function Requests(cs: seq<Run>): (rs: seq<Packing.Run>)
    ensures |rs| == |cs|
  {
    if cs == [] then []
    else
      var c := cs[0];
      [Packing.Run(c.start, c.end, c.usage, BlockOf(c))] + Requests(cs[1..])
  }

  ghost function Verdicts(cs: seq<Run>, settings: Packing.Settings, ignoresRain: set<int>): (vs: seq<Block>)
    ensures |vs| == |cs|
  {
    if cs == [] then []
    else
      var c := cs[0];
      [Packing.VerdictFor(BlockOf(c), c.start, c.manual, c.fixed, c.station in ignoresRain, c.adjustment, c.cutOff,
                          settings)]
        + Verdicts(cs[1..], settings, ignoresRain)
  }

  /** The candidates where the packing put them. */
  ghost function Timetable(cs: seq<Run>, placed: seq<Packing.Run>): (entries: seq<Run>)
    requires |placed| == |cs|
    ensures |entries| == |cs|
  {
    if cs == [] then [] else [PlacedEntry(cs[0], placed[0])] + Timetable(cs[1..], placed[1..])
  }

  ghost function PlacedEntry(c: Run, p: Packing.Run): Run {
    c.(start := p.start, end := p.end, blocked := p.blocked.Blocked?, active := false)
  }

  lemma {:induction false} RequestsAt(cs: seq<Run>, settings: Packing.Settings, ignoresRain: set<int>, i: nat)
    requires i < |cs|
    ensures var c := cs[i];
      && Requests(cs)[i] == Packing.Run(c.start, c.end, c.usage, BlockOf(c))
      && Verdicts(cs, settings, ignoresRain)[i] ==
         Packing.VerdictFor(BlockOf(c), c.start, c.manual, c.fixed, c.station in ignoresRain, c.adjustment, c.cutOff,
                            settings)
  {
    if i > 0 { RequestsAt(cs[1..], settings, ignoresRain, i - 1); }
  }

  lemma {:induction false} TimetableAt(cs: seq<Run>, placed: seq<Packing.Run>, i: nat)
    requires |placed| == |cs| && i < |cs|
    ensures Timetable(cs, placed)[i] == PlacedEntry(cs[i], placed[i])
  {
    if i > 0 { TimetableAt(cs[1..], placed[1..], i - 1); }
  }

  /** The record carries everything of the entry but its times. */
  ghost predicate Carries(x: Interval, r: Run)
    reads x`blocked
  {
    && x.uid == r.uid && x.station == r.station && x.program == r.program && x.originalStart == r.originalStart
    && x.manual == r.manual && x.fixed == r.fixed && x.adjustment == r.adjustment && x.cutOff == r.cutOff
    && x.usage == r.usage && x.blocked.Blocked? == r.blocked && !r.active
  }

  ghost predicate CarriesAll(all: seq<Interval>, entries: seq<Run>)
    reads all`blocked
  {
    |all| == |entries| && forall i :: 0 <= i < |all| ==> Carries(all[i], entries[i])
  }

  method EntriesOf(all: seq<Interval>, ghost entries: seq<Run>) returns (moved: seq<Run>)
    requires CarriesAll(all, entries)
    ensures moved == Reread(all, entries)
  {
    moved := [];
    for k := 0 to |all|
      invariant |moved| == k && forall i :: 0 <= i < k ==> moved[i] == Reread(all, entries)[i]
    {
      assert Carries(all[k], entries[k]);
      moved := moved + [EntryOf(all[k])];
    }
  }

  /** After packing the records carry the timetable. */
  lemma PackedRecords(all: seq<Interval>, cs: seq<Run>, ignoresRain: set<int>)
    requires |all| == |cs| && forall i :: 0 <= i < |all| ==> Records(all[i], cs[i], ignoresRain)
    requires |Packing.RunsOf(all)| == |cs|
    ensures var entries := Timetable(cs, Packing.RunsOf(all));
      CarriesAll(all, entries) && ShowsAll(all, entries)
  {
    var placed := Packing.RunsOf(all);
    Packing.ViewsAt(all, Packing.Settings(true, 0, 0, false, 0.0, 0, 0));
    forall i | 0 <= i < |all|
      ensures Carries(all[i], Timetable(cs, placed)[i]) && Shows(all[i], Timetable(cs, placed)[i])
    {
      TimetableAt(cs, placed, i);
    }
  }

  // ---- booking what is logged ----

  ghost function Bookings(runs: seq<Run>): seq<UsageProfile.Booking> {
    if runs == [] then []
    else
      var r := runs[|runs| - 1];
      Bookings(runs[..|runs| - 1]) + if r.blocked then [] else [UsageProfile.Booking(r.start, r.end, r.usage)]
  }

  method BookLogged(runs: seq<Run>) returns (changes: UsageProfile.UsageChanges)
    ensures fresh(changes) && changes.Valid() && changes.bookings == Bookings(runs)
  {
    changes := new UsageProfile.UsageChanges();
    for k := 0 to |runs|
      invariant fresh(changes) && changes.Valid() && changes.bookings == Bookings(runs[..k])
    {
      assert runs[..k + 1][..k] == runs[..k];
      if !runs[k].blocked {
        changes.Book(runs[k].start, runs[k].end, runs[k].usage);
      }
    }
    assert runs[..|runs|] == runs;
  }

  // ---- the orders ----

  function Those(cs: seq<Run>, manual: bool): seq<Run> {
    if cs == [] then [] else (if cs[0].manual == manual then [cs[0]] else []) + Those(cs[1..], manual)
  }

  /** sort(key=not manual), stable */
  function ManualFirst(cs: seq<Run>): seq<Run> {
    Those(cs, true) + Those(cs, false)
  }

  /** Behind everything that starts no later. */
  function InsertByStart(c: Run, cs: seq<Run>): seq<Run> {
    if cs == [] then [c]
    else
      var n := |cs| - 1;
      if cs[n].start <= c.start then cs + [c] else InsertByStart(c, cs[..n]) + [cs[n]]
  }

  /** sort(key=start), stable */
  function SortByStart(cs: seq<Run>): seq<Run> {
    if cs == [] then [] else InsertByStart(cs[|cs| - 1], SortByStart(cs[..|cs| - 1]))
  }

  /** The sum of a weight over the runs. Two lists with the same sums are rearrangements of each other. */
  ghost function Total(cs: seq<Run>, weight: Run -> real): real {
    if cs == [] then 0.0 else Total(cs[..|cs| - 1], weight) + weight(cs[|cs| - 1])
  }

  lemma {:induction false} TotalAppend(a: seq<Run>, b: seq<Run>, weight: Run -> real)
    ensures Total(a + b, weight) == Total(a, weight) + Total(b, weight)
  {
    if b == [] {
      assert a + b == a;
    } else {
      TotalAppend(a, b[..|b| - 1], weight);
      assert (a + b)[..|a + b| - 1] == a + b[..|b| - 1];
    }
  }

  lemma {:induction false} TotalOfInserted(c: Run, cs: seq<Run>, weight: Run -> real)
    ensures Total(InsertByStart(c, cs), weight) == Total(cs, weight) + weight(c)
  {
    if cs == [] || cs[|cs| - 1].start <= c.start {
      assert (cs + [c])[..|cs|] == cs;
    } else {
      var front := InsertByStart(c, cs[..|cs| - 1]);
      TotalOfInserted(c, cs[..|cs| - 1], weight);
      assert (front + [cs[|cs| - 1]])[..|front|] == front;
    }
  }

  /** Sorting rearranges. */
  lemma {:induction false} TotalOfSorted(cs: seq<Run>, weight: Run -> real)
    ensures Total(SortByStart(cs), weight) == Total(cs, weight)
  {
    if cs != [] {
      TotalOfSorted(cs[..|cs| - 1], weight);
      TotalOfInserted(cs[|cs| - 1], SortByStart(cs[..|cs| - 1]), weight);
    }
  }

  /** Manual runs come first; within each kind nothing changes its place. */
  lemma ManualComeFirst(cs: seq<Run>, i: nat, j: nat)
    requires i < j < |ManualFirst(cs)|
    ensures ManualFirst(cs)[j].manual ==> ManualFirst(cs)[i].manual
  {
    ThoseAre(cs, true);
    ThoseAre(cs, false);
    assert j >= |Those(cs, true)| ==> ManualFirst(cs)[j] in Those(cs, false);
    assert i < |Those(cs, true)| ==> ManualFirst(cs)[i] in Those(cs, true);
  }

  lemma {:induction false} ThoseAre(cs: seq<Run>, manual: bool)
    ensures forall c :: c in Those(cs, manual) <==> c in cs && c.manual == manual
  {
    if cs != [] {
      ThoseAre(cs[1..], manual);
      assert cs == [cs[0]] + cs[1..];
    }
  }

  /** The runs that start at an instant, in order. */
  ghost function StartingAt(cs: seq<Run>, t: int): seq<Run> {
    if cs == [] then []
    else
      var n := |cs| - 1;
      StartingAt(cs[..n], t) + if cs[n].start == t then [cs[n]] else []
  }

  lemma {:induction false} InsertedLast(c: Run, cs: seq<Run>, t: int)
    requires InOrder(cs)
    ensures StartingAt(InsertByStart(c, cs), t) == StartingAt(cs, t) + if c.start == t then [c] else []
  {
    if cs == [] || cs[|cs| - 1].start <= c.start {
      assert (cs + [c])[..|cs|] == cs;
    } else {
      var n := |cs| - 1;
      var front := InsertByStart(c, cs[..n]);
      InsertedLast(c, cs[..n], t);
      assert (front + [cs[n]])[..|front|] == front;
      if cs[n].start == t {
        assert StartingAt(cs[..n], t) + [] + [cs[n]] == StartingAt(cs[..n], t) + [cs[n]] + [];
      } else {
        assert forall s: seq<Run> :: s + [] == s;
      }
    }
  }

  /** Runs that start at the same time keep their order. */
  lemma {:induction false} SortIsStable(cs: seq<Run>, t: int)
    ensures StartingAt(SortByStart(cs), t) == StartingAt(cs, t)
  {
    if cs != [] {
      var n := |cs| - 1;
      SortIsStable(cs[..n], t);
      SortedInOrder(cs[..n]);
      InsertedLast(cs[n], SortByStart(cs[..n]), t);
    }
  }

  ghost predicate InOrder(cs: seq<Run>) {
    forall i, j :: 0 <= i < j < |cs| ==> cs[i].start <= cs[j].start
  }

  lemma {:induction false} InsertedInOrder(c: Run, cs: seq<Run>)
    requires InOrder(cs)
    ensures InOrder(InsertByStart(c, cs))
  {
    if cs != [] && cs[|cs| - 1].start > c.start {
      var front, last := cs[..|cs| - 1], cs[|cs| - 1];
      InsertedInOrder(c, front);
      InsertedMembers(c, front);
      var r := InsertByStart(c, front);
      forall i | 0 <= i < |r| ensures r[i].start <= last.start {
        assert r[i] in r;
      }
    }
  }

  lemma {:induction false} SortedInOrder(cs: seq<Run>)
    ensures InOrder(SortByStart(cs))
  {
    if cs != [] {
      SortedInOrder(cs[..|cs| - 1]);
      InsertedInOrder(cs[|cs| - 1], SortByStart(cs[..|cs| - 1]));
    }
  }

  // ---- distinct uids through all of it ----

  ghost function Is(u: string): Run -> real {
    (r: Run) => if r.uid == u then 1.0 else 0.0
  }

  lemma {:induction false} UidTotal(cs: seq<Run>, u: string)
    ensures Total(cs, Is(u)) >= 0.0 && (u in Uids(cs) <==> Total(cs, Is(u)) >= 1.0)
    ensures u !in Uids(cs) ==> Total(cs, Is(u)) == 0.0
  {
    if cs != [] {
      UidTotal(cs[..|cs| - 1], u);
      UidsAppend(cs[..|cs| - 1], [cs[|cs| - 1]]);
      assert cs == cs[..|cs| - 1] + [cs[|cs| - 1]];
    }
  }

  lemma {:induction false} DistinctByTotals(cs: seq<Run>)
    ensures DistinctUids(cs) <==> forall u :: Total(cs, Is(u)) <= 1.0
  {
    if cs != [] {
      var c, rest := cs[0], cs[1..];
      DistinctByTotals(rest);
      forall u ensures Total(cs, Is(u)) == Is(u)(c) + Total(rest, Is(u)) {
        TotalAppend([c], rest, Is(u));
        assert cs == [c] + rest && [c][..0] == [];
      }
      UidTotal(rest, c.uid);
      if DistinctUids(cs) {
        forall u ensures Total(cs, Is(u)) <= 1.0 {
          assert u != c.uid ==> Total(rest, Is(u)) <= 1.0;
        }
      } else if DistinctUids(rest) {
        assert Total(cs, Is(c.uid)) >= 2.0;
      } else {
        var u :| Total(rest, Is(u)) > 1.0;
        assert Total(cs, Is(u)) > 1.0;
      }
    }
  }

  lemma SameTotals(a: seq<Run>, b: seq<Run>)
    requires forall u :: Total(a, Is(u)) == Total(b, Is(u))
    ensures Uids(a) == Uids(b) && (DistinctUids(a) <==> DistinctUids(b))
  {
    DistinctByTotals(a);
    DistinctByTotals(b);
    forall u ensures u in Uids(a) <==> u in Uids(b) {
      UidTotal(a, u);
      UidTotal(b, u);
    }
  }

  lemma {:induction false} TotalOfParts(cs: seq<Run>, weight: Run -> real)
    ensures Total(Those(cs, true), weight) + Total(Those(cs, false), weight) == Total(cs, weight)
  {
    if cs != [] {
      var c, rest := cs[0], cs[1..];
      TotalOfParts(rest, weight);
      TotalAppend([c], rest, weight);
      TotalAppend([c], Those(rest, c.manual), weight);
      assert cs == [c] + rest && [] + Those(rest, !c.manual) == Those(rest, !c.manual);
    }
  }

  lemma {:induction false} UidTotalOfTimetable(cs: seq<Run>, placed: seq<Packing.Run>, u: string)
    requires |placed| == |cs|
    ensures Total(Timetable(cs, placed), Is(u)) == Total(cs, Is(u))
  {
    if cs != [] {
      var entry, rest := PlacedEntry(cs[0], placed[0]), Timetable(cs[1..], placed[1..]);
      UidTotalOfTimetable(cs[1..], placed[1..], u);
      TotalAppend([entry], rest, Is(u));
      TotalAppend([cs[0]], cs[1..], Is(u));
      assert cs == [cs[0]] + cs[1..] && [entry][..0] == [] && [cs[0]][..0] == [];
    }
  }

  // ---- the whole schedule ----

  /** What the program pause makes of the packed entries: nothing unless it is positive. */
  ghost predicate Moved(entries: seq<Run>, moved: seq<Run>, logged: seq<Run>, pause: int) {
    if pause > 0 then PausedAs(entries, moved, logged, pause) else moved == entries
  }

  /** An entry moves as it is. */
  lemma MovedKeeps(entries: seq<Run>, moved: seq<Run>, logged: seq<Run>, pause: int)
    requires Moved(entries, moved, logged, pause)
    ensures |moved| == |entries|
    ensures forall i :: 0 <= i < |entries| ==> moved[i] == entries[i].(start := moved[i].start, end := moved[i].end)
  {
    if pause > 0 {
      var ordered, occs, latest :| Visits(ordered, occs, entries) && EndsLast(latest, logged)
        && PausedBy(entries, moved, pause, ordered, occs, latest);
      forall i | 0 <= i < |entries|
        ensures moved[i] == entries[i].(start := moved[i].start, end := moved[i].end)
      {
        if Automatic(entries[i]) {
          var j := OwnKey(ordered, occs, entries, i);
          assert MovedBy(entries[i], moved[i], ProgramPause.ShiftAt(occs, latest, Pause(pause), j));
        }
      }
    }
  }

  lemma {:induction false} UidTotalOfMoved(entries: seq<Run>, moved: seq<Run>, u: string)
    requires |moved| == |entries|
    requires forall i :: 0 <= i < |entries| ==> moved[i] == entries[i].(start := moved[i].start, end := moved[i].end)
    ensures Total(moved, Is(u)) == Total(entries, Is(u))
  {
    if entries != [] {
      var n := |entries| - 1;
      UidTotalOfMoved(entries[..n], moved[..n], u);
    }
  }

  /** The candidates as they are packed: the survivors of the skip loop, manual ones first. */
  ghost function Ranked(candidates: seq<Run>, runs: seq<Run>): seq<Run> {
    ManualFirst(SkipAll(candidates, Inactives(runs) + Actives(runs)))
  }

  /** What predicted_schedule makes of its candidates and the log: they are packed around what is logged, then paused,
      and sorted by start. */
  ghost predicate Scheduled(candidates: seq<Run>, runs: seq<Run>, options: Options, ignoresRain: set<int>,
                            schedule: seq<Run>, placed: seq<Packing.Run>, moved: seq<Run>)
  {
    var logged, cs := Inactives(runs) + Actives(runs), Ranked(candidates, runs);
    && Packing.Packed(Requests(cs), Verdicts(cs, options.packing, ignoresRain), placed, Bookings(logged),
                      Packing.Booked(placed, Bookings(logged), options.packing), options.packing)
    && |placed| == |cs| && Moved(Timetable(cs, placed), moved, logged, options.programPause)
    && schedule == SortByStart(moved)
  }

  lemma {:induction false} ThoseOf(cs: seq<Run>, manual: bool)
    ensures forall c :: c in Those(cs, manual) ==> c in cs
  {
    if cs != [] { ThoseOf(cs[1..], manual); }
  }

  lemma RankedAreCandidates(candidates: seq<Run>, runs: seq<Run>)
    requires DistinctUids(candidates)
    ensures forall c :: c in Ranked(candidates, runs) ==> c in candidates
  {
    var kept := SkipAll(candidates, Inactives(runs) + Actives(runs));
    SkipAllDrops(candidates, Inactives(runs) + Actives(runs));
    ThoseOf(kept, true);
    ThoseOf(kept, false);
  }

  /** The candidate and the packed run that an entry of the schedule comes from. */
  lemma WhereFrom(candidates: seq<Run>, runs: seq<Run>, options: Options, ignoresRain: set<int>, schedule: seq<Run>,
                  placed: seq<Packing.Run>, moved: seq<Run>, r: Run)
    returns (i: nat)
    requires DistinctUids(candidates) && r in schedule
    requires Scheduled(candidates, runs, options, ignoresRain, schedule, placed, moved)
    ensures var cs := Ranked(candidates, runs);
      && |placed| == |moved| == |cs| && i < |cs| && moved[i] == r && cs[i] in candidates
      && r == PlacedEntry(cs[i], placed[i]).(start := r.start, end := r.end)
  {
    var cs := Ranked(candidates, runs);
    SortedMembers(moved);
    i :| 0 <= i < |moved| && moved[i] == r;
    MovedKeeps(Timetable(cs, placed), moved, Inactives(runs) + Actives(runs), options.programPause);
    TimetableAt(cs, placed, i);
    RankedAreCandidates(candidates, runs);
    assert cs[i] in cs;
  }

  /** The records as the packing loop sees them. */
  lemma RecordsAreRequests(all: seq<Interval>, cs: seq<Run>, settings: Packing.Settings, ignoresRain: set<int>)
    requires |all| == |cs| && forall i :: 0 <= i < |all| ==>
      && Records(all[i], cs[i], ignoresRain)
      && all[i].start == cs[i].start && all[i].end == cs[i].end && all[i].blocked == BlockOf(cs[i])
    ensures Packing.RunsOf(all) == Requests(cs)
    ensures Packing.VerdictsOf(all, settings) == Verdicts(cs, settings, ignoresRain)
  {
    Packing.ViewsAt(all, settings);
    forall i | 0 <= i < |all|
      ensures Packing.RunsOf(all)[i] == Requests(cs)[i]
      ensures Packing.VerdictsOf(all, settings)[i] == Verdicts(cs, settings, ignoresRain)[i]
    {
      RequestsAt(cs, settings, ignoresRain, i);
    }
  }

  method PackRecords(all: seq<Interval>, changes: UsageProfile.UsageChanges, settings: Packing.Settings,
                     ghost cs: seq<Run>, ignoresRain: set<int>)
    requires changes.Valid() && Distinct(all) && |all| == |cs|
    requires forall i :: 0 <= i < |all| ==>
      && Records(all[i], cs[i], ignoresRain)
      && all[i].start == cs[i].start && all[i].end == cs[i].end && all[i].blocked == BlockOf(cs[i])
    requires forall c :: c in cs ==> c.start <= c.end
    modifies all, changes
    ensures |Packing.RunsOf(all)| == |cs|
    ensures var bs := old(changes.bookings);
      Packing.Packed(Requests(cs), Verdicts(cs, settings, ignoresRain), Packing.RunsOf(all), bs,
                     Packing.Booked(Packing.RunsOf(all), bs, settings), settings)
  {
    RecordsAreRequests(all, cs, settings, ignoresRain);
    assert forall i :: 0 <= i < |cs| ==> cs[i] in cs;
    Packing.Pack(all, changes, settings);
  }

  /** The candidates as records, packed around what is logged. */
  method PackCandidates(cs: seq<Run>, logged: seq<Run>, settings: Packing.Settings, ignoresRain: set<int>)
    returns (all: seq<Interval>, ghost placed: seq<Packing.Run>)
    requires forall c :: c in cs ==> c.start <= c.end
    ensures Distinct(all) && (forall i :: 0 <= i < |all| ==> fresh(all[i])) && |placed| == |cs|
    ensures CarriesAll(all, Timetable(cs, placed)) && ShowsAll(all, Timetable(cs, placed))
    ensures Packing.Packed(Requests(cs), Verdicts(cs, settings, ignoresRain), placed, Bookings(logged),
                           Packing.Booked(placed, Bookings(logged), settings), settings)
  {
    var changes := BookLogged(logged);
    all := MakeRecords(cs, ignoresRain);
    PackRecords(all, changes, settings, cs, ignoresRain);
    placed := Packing.RunsOf(all);
    PackedRecords(all, cs, ignoresRain);
  }

  method PauseRecords(all: seq<Interval>, logged: seq<Run>, pause: int, ghost entries: seq<Run>)
    requires Distinct(all) && ShowsAll(all, entries) && CarriesAll(all, entries)
    modifies all`start, all`end
    ensures CarriesAll(all, entries) && Moved(entries, Reread(all, entries), logged, pause)
  {
    PauseShown(all, logged, pause, entries);
  }

  lemma ScheduledUids(candidates: seq<Run>, runs: seq<Run>, placed: seq<Packing.Run>, moved: seq<Run>, pause: int)
    requires DistinctUids(candidates) && |placed| == |Ranked(candidates, runs)|
    requires Moved(Timetable(Ranked(candidates, runs), placed), moved, Inactives(runs) + Actives(runs), pause)
    ensures var kept := SkipAll(candidates, Inactives(runs) + Actives(runs));
      var schedule := SortByStart(moved);
      DistinctUids(schedule) && Uids(schedule) == Uids(kept)
    ensures Uids(SortByStart(moved)) !! Uids(Inactives(runs) + Actives(runs))
  {
    var logged := Inactives(runs) + Actives(runs);
    var kept, cs := SkipAll(candidates, logged), Ranked(candidates, runs);
    var entries := Timetable(cs, placed);
    SkipAllDrops(candidates, logged);
    MovedKeeps(entries, moved, logged, pause);
    forall u ensures Total(SortByStart(moved), Is(u)) == Total(kept, Is(u)) {
      TotalOfParts(kept, Is(u));
      TotalAppend(Those(kept, true), Those(kept, false), Is(u));
      UidTotalOfTimetable(cs, placed, u);
      UidTotalOfMoved(entries, moved, u);
      TotalOfSorted(moved, Is(u));
    }
    SameTotals(SortByStart(moved), kept);
  }

  /** predicted_schedule, from the candidates on. */
  method PredictedSchedule(candidates: seq<Run>, runs: seq<Run>, options: Options, ignoresRain: set<int>)
    returns (schedule: seq<Run>, ghost placed: seq<Packing.Run>, ghost moved: seq<Run>)
    requires DistinctUids(candidates) && forall c :: c in candidates ==> c.start <= c.end
    ensures Scheduled(candidates, runs, options, ignoresRain, schedule, placed, moved)
    ensures DistinctUids(schedule) && Uids(schedule) == Uids(SkipAll(candidates, Inactives(runs) + Actives(runs)))
    ensures Uids(schedule) !! Uids(Inactives(runs) + Actives(runs))
  {
    var logged := Inactives(runs) + Actives(runs);
    var kept := SkipLogged(candidates, logged);
    var cs := ManualFirst(kept);
    RankedAreCandidates(candidates, runs);
    var all;
    all, placed := PackCandidates(cs, logged, options.packing, ignoresRain);
    ghost var entries := Timetable(cs, placed);
    PauseRecords(all, logged, options.programPause, entries);
    var result := EntriesOf(all, entries);
    moved := result;
    ScheduledUids(candidates, runs, placed, moved, options.programPause);
    schedule := SortByStart(result);
  }

  // ---- what the schedule promises ----

  lemma TimetableEndsAfterStart(candidates: seq<Run>, runs: seq<Run>, options: Options, ignoresRain: set<int>,
                                schedule: seq<Run>, placed: seq<Packing.Run>, moved: seq<Run>)
    requires DistinctUids(candidates) && forall c :: c in candidates ==> c.start <= c.end
    requires Scheduled(candidates, runs, options, ignoresRain, schedule, placed, moved)
    ensures EndAfterStart(Timetable(Ranked(candidates, runs), placed))
  {
    var cs := Ranked(candidates, runs);
    RankedAreCandidates(candidates, runs);
    forall i | 0 <= i < |cs|
      ensures Timetable(cs, placed)[i].start <= Timetable(cs, placed)[i].end
    {
      assert cs[i] in cs;
      TimetableAt(cs, placed, i);
      PlacedThere(candidates, runs, options, ignoresRain, schedule, placed, moved, i);
    }
  }

  /** How the packing treats one candidate. */
  lemma PlacedThere(candidates: seq<Run>, runs: seq<Run>, options: Options, ignoresRain: set<int>, schedule: seq<Run>,
                    placed: seq<Packing.Run>, moved: seq<Run>, i: nat)
    requires Scheduled(candidates, runs, options, ignoresRain, schedule, placed, moved)
    requires i < |Ranked(candidates, runs)|
    ensures var c := Ranked(candidates, runs)[i];
      var before := Packing.Booked(placed[..i], Bookings(Inactives(runs) + Actives(runs)), options.packing);
      Packing.Placed(Packing.Run(c.start, c.end, c.usage, BlockOf(c)),
                     Packing.VerdictFor(BlockOf(c), c.start, c.manual, c.fixed, c.station in ignoresRain, c.adjustment,
                                        c.cutOff, options.packing), placed[i], before, options.packing)
  {
    var cs := Ranked(candidates, runs);
    RequestsAt(cs, options.packing, ignoresRain, i);
    assert Packing.Placed(Requests(cs)[i], Verdicts(cs, options.packing, ignoresRain)[i], placed[i],
                          Packing.Booked(placed[..i], Bookings(Inactives(runs) + Actives(runs)), options.packing),
                          options.packing);
  }

  /** With a pause, if no occurrence is missed: unblocked automatic runs of different programs are the pause apart, and
      the pause behind the logged automatic run that ends last, if that is of another program. */
  lemma PauseKeepsApart(candidates: seq<Run>, runs: seq<Run>, options: Options, ignoresRain: set<int>,
                        schedule: seq<Run>, placed: seq<Packing.Run>, moved: seq<Run>,
                        ordered: seq<ProgramPause.Key>, occs: seq<ProgramPause.Occurrence>,
                        latest: Option<ProgramPause.Latest>)
    requires DistinctUids(candidates) && forall c :: c in candidates ==> c.start <= c.end
    requires Scheduled(candidates, runs, options, ignoresRain, schedule, placed, moved) && options.programPause > 0
    requires Visits(ordered, occs, Timetable(Ranked(candidates, runs), placed))
    requires EndsLast(latest, Inactives(runs) + Actives(runs))
    requires ProgramPause.NoneMissed(occs, latest, Pause(options.programPause))
    ensures forall r, s :: r in schedule && s in schedule && Automatic(r) && Automatic(s) && r.program != s.program ==>
      r.end + Pause(options.programPause) <= s.start || s.end + Pause(options.programPause) <= r.start
    ensures forall r :: r in schedule && Automatic(r) && latest.Some? && latest.value.program != r.program ==>
      latest.value.end + Pause(options.programPause) <= r.start
  {
    var cs, logged, pause := Ranked(candidates, runs), Inactives(runs) + Actives(runs), options.programPause;
    var entries := Timetable(cs, placed);
    TimetableEndsAfterStart(candidates, runs, options, ignoresRain, schedule, placed, moved);
    ThePause(entries, moved, logged, pause, ordered, occs, latest);
    forall r, s | r in schedule && s in schedule && Automatic(r) && Automatic(s) && r.program != s.program
      ensures r.end + Pause(pause) <= s.start || s.end + Pause(pause) <= r.start
    {
      var i := WhereFrom(candidates, runs, options, ignoresRain, schedule, placed, moved, r);
      var j := WhereFrom(candidates, runs, options, ignoresRain, schedule, placed, moved, s);
      TimetableAt(cs, placed, i);
      TimetableAt(cs, placed, j);
      PausedAreApart(entries, moved, pause, ordered, occs, latest, i, j);
    }
    forall r | r in schedule && Automatic(r) && latest.Some? && latest.value.program != r.program
      ensures latest.value.end + Pause(pause) <= r.start
    {
      var i := WhereFrom(candidates, runs, options, ignoresRain, schedule, placed, moved, r);
      TimetableAt(cs, placed, i);
      PausedAfterLast(entries, moved, pause, ordered, occs, latest, i);
    }
  }

  /** The occurrences that the pause went through are those of the timetable. */
  lemma ThePause(entries: seq<Run>, moved: seq<Run>, logged: seq<Run>, pause: int, ordered: seq<ProgramPause.Key>,
                 occs: seq<ProgramPause.Occurrence>, latest: Option<ProgramPause.Latest>)
    requires PausedAs(entries, moved, logged, pause) && Visits(ordered, occs, entries) && EndsLast(latest, logged)
    ensures PausedBy(entries, moved, pause, ordered, occs, latest)
  {
    var a, x, l :| Visits(a, x, entries) && EndsLast(l, logged) && PausedBy(entries, moved, pause, a, x, l);
    VisitsAreUnique(a, x, ordered, occs, entries);
    LastIsUnique(l, latest, logged);
  }

  /** For all inputs: the packed runs of one occurrence of a program move together, never back, and by no more than in
      any schedule that keeps the pause in that order. Manual, blocked and program-less runs stay. */
  lemma OccurrencesMoveLeast(candidates: seq<Run>, runs: seq<Run>, options: Options, ignoresRain: set<int>,
                             schedule: seq<Run>, placed: seq<Packing.Run>, moved: seq<Run>,
                             ordered: seq<ProgramPause.Key>, occs: seq<ProgramPause.Occurrence>,
                             latest: Option<ProgramPause.Latest>, starts: seq<int>, i: nat, k: nat, j: nat)
    requires Scheduled(candidates, runs, options, ignoresRain, schedule, placed, moved) && options.programPause > 0
    requires var entries := Timetable(Ranked(candidates, runs), placed);
      Visits(ordered, occs, entries) && i < |entries| && k < |entries|
    requires EndsLast(latest, Inactives(runs) + Actives(runs))
    requires ProgramPause.Respects(starts, occs, latest, Pause(options.programPause)) && j < |ordered|
    ensures var entries := Timetable(Ranked(candidates, runs), placed);
      && |moved| == |entries|
      && (!Automatic(entries[i]) ==> moved[i] == entries[i])
      && (BelongsTo(entries[i], ordered[j]) && BelongsTo(entries[k], ordered[j]) ==>
        && 0 <= moved[i].start - entries[i].start == moved[k].start - entries[k].start
        && moved[i].start - entries[i].start <= starts[j] - occs[j].start)
  {
    var entries, pause := Timetable(Ranked(candidates, runs), placed), options.programPause;
    ThePause(entries, moved, Inactives(runs) + Actives(runs), pause, ordered, occs, latest);
    if BelongsTo(entries[i], ordered[j]) && BelongsTo(entries[k], ordered[j]) {
      LeastShift(entries, moved, pause, ordered, occs, latest, starts, i, j);
      var shift := ProgramPause.ShiftAt(occs, latest, Pause(pause), j);
      assert MovedBy(entries[i], moved[i], shift) && MovedBy(entries[k], moved[k], shift);
    }
  }

  /** Candidates, log and options leave one schedule. */
  lemma ScheduleIsUnique(candidates: seq<Run>, runs: seq<Run>, options: Options, ignoresRain: set<int>,
                         schedule: seq<Run>, placed: seq<Packing.Run>, moved: seq<Run>,
                         schedule': seq<Run>, placed': seq<Packing.Run>, moved': seq<Run>)
    requires Scheduled(candidates, runs, options, ignoresRain, schedule, placed, moved)
    requires Scheduled(candidates, runs, options, ignoresRain, schedule', placed', moved')
    ensures schedule == schedule'
  {
    var logged, cs, settings := Inactives(runs) + Actives(runs), Ranked(candidates, runs), options.packing;
    var before := Bookings(logged);
    Packing.PackedIsUnique(Requests(cs), Verdicts(cs, settings, ignoresRain), placed, placed', before,
                           Packing.Booked(placed, before, settings), Packing.Booked(placed', before, settings),
                           settings, |cs|);
    assert placed[..|cs|] == placed && placed'[..|cs|] == placed';
    if options.programPause > 0 {
      PausedIsUnique(Timetable(cs, placed), moved, moved', logged, options.programPause);
    }
  }

  /** Which entries of the schedule come out blocked: those whose candidate was, the automatic ones under a disabled
      scheduler, and in a rain delay or sensed rain where it is not ignored, those below their cut-off; and under a
      limit those that the packing found no place for, which is so for the ones whose usage alone exceeds it. */
  lemma BlockedEntries(candidates: seq<Run>, runs: seq<Run>, options: Options, ignoresRain: set<int>,
                       schedule: seq<Run>, placed: seq<Packing.Run>, moved: seq<Run>, r: Run)
    requires DistinctUids(candidates) && (forall c :: c in candidates ==> c.start <= c.end) && r in schedule
    requires Scheduled(candidates, runs, options, ignoresRain, schedule, placed, moved)
    ensures exists c :: c in candidates && c.uid == r.uid && SpokenAgainst(c, r, options.packing, ignoresRain)
    ensures NonNegative(candidates) && AllWellFormed(Bookings(Inactives(runs) + Actives(runs))) ==>
      exists c :: c in candidates && c.uid == r.uid &&
        (r.blocked <==> Against(c, options.packing, ignoresRain)
                        || (options.packing.maxUsage > 0.0 && c.usage > options.packing.maxUsage))
  {
    var logged, cs, settings := Inactives(runs) + Actives(runs), Ranked(candidates, runs), options.packing;
    var i := WhereFrom(candidates, runs, options, ignoresRain, schedule, placed, moved, r);
    var c := cs[i];
    var request := Packing.Run(c.start, c.end, c.usage, BlockOf(c));
    var before := Packing.Booked(placed[..i], Bookings(logged), settings);
    PlacedThere(candidates, runs, options, ignoresRain, schedule, placed, moved, i);
    Packing.PlacedIsJudged(request, placed[i], c.manual, c.fixed, c.station in ignoresRain, c.adjustment, c.cutOff,
                           before, settings);
    assert SpokenAgainst(c, r, settings, ignoresRain);
    if NonNegative(candidates) && AllWellFormed(Bookings(logged)) {
      BookedWellFormed(candidates, runs, options, ignoresRain, schedule, placed, moved, i);
      if settings.maxUsage > 0.0 && !Against(c, settings, ignoresRain) {
        var verdict := Packing.VerdictFor(BlockOf(c), c.start, c.manual, c.fixed, c.station in ignoresRain,
                                          c.adjustment, c.cutOff, settings);
        Packing.BlockedExactly(request, verdict, placed[i], before, settings);
      }
    }
  }

  /** Nothing was logged after its end. */
  ghost predicate AllWellFormed(bs: seq<UsageProfile.Booking>) {
    forall b :: b in bs ==> b.WellFormed()
  }

  /** A condition that blocks the candidate before it is packed. */
  ghost predicate Against(c: Run, settings: Packing.Settings, ignoresRain: set<int>) {
    || c.blocked
    || (!c.manual && !settings.schedulerEnabled)
    || (!c.manual && c.station !in ignoresRain && settings.rainBlockStart <= c.start < settings.rainBlockEnd)
    || (!c.manual && c.station !in ignoresRain && settings.rainSensed)
    || (!c.fixed && c.adjustment < c.cutOff)
  }

  ghost predicate SpokenAgainst(c: Run, r: Run, settings: Packing.Settings, ignoresRain: set<int>) {
    (Against(c, settings, ignoresRain) ==> r.blocked) && (r.blocked ==>
      Against(c, settings, ignoresRain) || settings.maxUsage > 0.0)
  }

  lemma BookedWellFormed(candidates: seq<Run>, runs: seq<Run>, options: Options, ignoresRain: set<int>,
                         schedule: seq<Run>, placed: seq<Packing.Run>, moved: seq<Run>, i: nat)
    requires DistinctUids(candidates) && NonNegative(candidates) && forall c :: c in candidates ==> c.start <= c.end
    requires Scheduled(candidates, runs, options, ignoresRain, schedule, placed, moved) && i <= |placed|
    requires AllWellFormed(Bookings(Inactives(runs) + Actives(runs)))
    ensures AllWellFormed(Packing.Booked(placed[..i], Bookings(Inactives(runs) + Actives(runs)), options.packing))
  {
    var cs := Ranked(candidates, runs);
    RankedAreCandidates(candidates, runs);
    forall k | 0 <= k < |placed| ensures placed[k].start <= placed[k].end && placed[k].usage >= 0.0 {
      assert cs[k] in cs;
      PlacedThere(candidates, runs, options, ignoresRain, schedule, placed, moved, k);
    }
    BookingsWellFormed(placed[..i]);
  }

  lemma {:induction false} BookingsWellFormed(runs: seq<Packing.Run>)
    requires forall k :: 0 <= k < |runs| ==> runs[k].start <= runs[k].end && runs[k].usage >= 0.0
    ensures forall b :: b in Packing.BookingsOf(runs) ==> b.WellFormed()
  {
    if runs != [] {
      var n := |runs| - 1;
      assert forall k :: 0 <= k < n ==> runs[..n][k] == runs[k];
      BookingsWellFormed(runs[..n]);
      assert forall b :: b in Packing.BookingsOf(runs) ==>
        b in Packing.BookingsOf(runs[..n]) || b == runs[n].AsBooking();
    }
  }

  // ---- the tick ----

  /** The part of _check_schedule that finishes and starts runs. */
  method CheckSchedule(log: Log, now: int, rain: bool, manualMode: bool, ignoresRain: set<int>, candidates: seq<Run>,
                       options: Options, ending: nat -> Reading, starting: nat -> Reading)
    returns (ghost logged: seq<Run>, ghost ended: seq<Event>, ghost schedule: seq<Run>,
             ghost placed: seq<Packing.Run>, ghost moved: seq<Run>)
    requires log.Valid() && DistinctUids(candidates) && forall c :: c in candidates ==> c.start <= c.end
    modifies log
    ensures log.Valid() && Uids(logged) <= Uids(old(log.runs))
    ensures Uids(log.runs) <= Uids(old(log.runs)) + Uids(candidates)
    ensures forall e :: e in ended ==> e.Finished?
    ensures EndedAsDue(Actives(old(log.runs)), logged, ended, old(log.late), now, rain, ignoresRain)
    ensures if manualMode then schedule == []
      else Scheduled(candidates, logged, options, ignoresRain, schedule, placed, moved)
    ensures log.history == old(log.history) + ended + Starts(schedule, now, rain, ignoresRain)
    ensures (forall k :: !Prunes(false, ending(k))) ==> Uids(logged) == Uids(old(log.runs))
    ensures (forall k :: !Prunes(false, ending(k)) && !Prunes(false, starting(k))) ==> log.pruned == old(log.pruned)
    ensures (forall k :: starting(k).time <= now + 60 * SECOND) ==> log.late == old(log.late)
    ensures Shrinks(old(log.runs), logged)
    ensures Grows(logged, log.runs, schedule, DueUsages(schedule, now, rain, ignoresRain), now)
    ensures KeepsTime(logged, log.runs, starting)
    ensures StartedAsDue(schedule, log.runs, log.late, now, rain, ignoresRain)
  {
    ended := EndActives(log, now, rain, ignoresRain, ending);
    logged, schedule, placed, moved := log.runs, [], [], [];
    ghost var before := log.history;
    assert before + [] == before;
    if !manualMode {
      schedule, placed, moved := StartScheduled(log, now, rain, ignoresRain, candidates, options, starting);
    }
  }

  /** The part that finishes runs. */
  method EndActives(log: Log, now: int, rain: bool, ignoresRain: set<int>, ending: nat -> Reading)
    returns (ghost ended: seq<Event>)
    requires log.Valid()
    modifies log
    ensures log.Valid() && Uids(log.runs) <= Uids(old(log.runs)) && Shrinks(old(log.runs), log.runs)
    ensures log.history == old(log.history) + ended && forall e :: e in ended ==> e.Finished?
    ensures EndedAsDue(Actives(old(log.runs)), log.runs, ended, log.late, now, rain, ignoresRain)
    ensures (forall k :: !Prunes(false, ending(k))) ==>
      Uids(log.runs) == Uids(old(log.runs)) && log.pruned == old(log.pruned)
    ensures log.late == old(log.late)
  {
    ActivesAreLogged(log.runs);
    ended := log.FinishEnded(Actives(log.runs), now, rain, ignoresRain, ending);
  }

  /** The part that starts runs. */
  method StartScheduled(log: Log, now: int, rain: bool, ignoresRain: set<int>, candidates: seq<Run>, options: Options,
                        starting: nat -> Reading)
    returns (ghost schedule: seq<Run>, ghost placed: seq<Packing.Run>, ghost moved: seq<Run>)
    requires log.Valid() && DistinctUids(candidates) && forall c :: c in candidates ==> c.start <= c.end
    modifies log
    ensures log.Valid() && Uids(log.runs) <= Uids(old(log.runs)) + Uids(candidates)
    ensures Scheduled(candidates, old(log.runs), options, ignoresRain, schedule, placed, moved)
    ensures log.history == old(log.history) + Starts(schedule, now, rain, ignoresRain)
    ensures (forall k :: !Prunes(false, starting(k))) ==> log.pruned == old(log.pruned)
    ensures (forall k :: starting(k).time <= now + 60 * SECOND) ==> log.late == old(log.late)
    ensures Grows(old(log.runs), log.runs, schedule, DueUsages(schedule, now, rain, ignoresRain), now)
    ensures KeepsTime(old(log.runs), log.runs, starting)
    ensures StartedAsDue(schedule, log.runs, log.late, now, rain, ignoresRain)
  {
    SplitUids(log.runs);
    UidsAppend(Inactives(log.runs), Actives(log.runs));
    SkipAllDrops(candidates, Inactives(log.runs) + Actives(log.runs));
    var entries;
    entries, placed, moved := PredictedSchedule(candidates, log.runs, options, ignoresRain);
    schedule := entries;
    log.StartDue(entries, now, rain, ignoresRain, starting);
  }

  // ---- the water in use ----

  lemma {:induction false} BookingsAppend(a: seq<Run>, b: seq<Run>)
    ensures Bookings(a + b) == Bookings(a) + Bookings(b)
  {
    if b == [] {
      assert a + b == a && Bookings(a) + [] == Bookings(a);
    } else {
      var front, last := b[..|b| - 1], b[|b| - 1];
      BookingsAppend(a, front);
      assert (a + b)[..|a + b| - 1] == a + front;
      Associate(Bookings(a), Bookings(front),
                if last.blocked then [] else [UsageProfile.Booking(last.start, last.end, last.usage)]);
    }
  }

  /** What is logged by now and still running is booked now. */
  lemma {:induction false} BookedWater(runs: seq<Run>, now: int)
    requires NonNegative(runs) && LoggedBy(runs, now)
    ensures Watering(runs, now) <= UsageProfile.Load(Bookings(runs), now)
  {
    if runs != [] {
      var front, last := runs[..|runs| - 1], runs[|runs| - 1];
      var more: seq<UsageProfile.Booking> :=
        if last.blocked then [] else [UsageProfile.Booking(last.start, last.end, last.usage)];
      assert runs == front + [last] && last in runs;
      assert forall r :: r in front ==> r in runs;
      BookedWater(front, now);
      WateringAppend(front, [last], now);
      Packing.LoadConcat(Bookings(front), more, now);
      OneBooked(last, more, now);
    }
  }

  lemma OneBooked(r: Run, more: seq<UsageProfile.Booking>, now: int)
    requires r.usage >= 0.0 && r.start <= now
    requires more == if r.blocked then [] else [UsageProfile.Booking(r.start, r.end, r.usage)]
    ensures Watering([r], now) <= UsageProfile.Load(more, now)
  {
    assert UsageProfile.Load([], now) == 0.0 && Watering([], now) == 0.0 && [r][1..] == [];
    assert !r.blocked ==> more[..0] == [];
  }

  lemma {:induction false} SplitWater(runs: seq<Run>, now: int)
    ensures Watering(Inactives(runs) + Actives(runs), now) == Watering(runs, now)
    ensures forall r :: r in Inactives(runs) + Actives(runs) ==> r in runs
  {
    if runs != [] {
      var r, rest := runs[0], runs[1..];
      var idle, active := if r.active then [] else [r], if r.active then [r] else [];
      SplitWater(rest, now);
      assert runs == [r] + rest;
      WateringAppend(Inactives(rest), Actives(rest), now);
      WateringAppend(idle, Inactives(rest), now);
      WateringAppend(active, Actives(rest), now);
      WateringAppend(Inactives(runs), Actives(runs), now);
    }
  }

  /** The usage of a run of the schedule if it starts now, as a weight. */
  ghost function Due(now: int, rain: bool, ignoresRain: set<int>): Run -> real {
    (r: Run) => DueUsage(r, now, rain, ignoresRain)
  }

  lemma {:induction false} DueIsTotal(cs: seq<Run>, now: int, rain: bool, ignoresRain: set<int>)
    ensures DueUsages(cs, now, rain, ignoresRain) == Total(cs, Due(now, rain, ignoresRain))
  {
    if cs != [] { DueIsTotal(cs[..|cs| - 1], now, rain, ignoresRain); }
  }

  /** What starts now is packed now. */
  lemma {:induction false} DueIsPacked(cs: seq<Run>, placed: seq<Packing.Run>, now: int, rain: bool,
                                       ignoresRain: set<int>)
    requires |placed| == |cs|
    requires forall i :: 0 <= i < |cs| ==> 0.0 <= cs[i].usage == placed[i].usage && placed[i].start <= placed[i].end
    ensures Total(Timetable(cs, placed), Due(now, rain, ignoresRain)) <=
      UsageProfile.Load(Packing.BookingsOf(placed), now)
  {
    if cs != [] {
      var n := |cs| - 1;
      var entries := Timetable(cs, placed);
      DueIsPacked(cs[..n], placed[..n], now, rain, ignoresRain);
      TimetableFront(cs, placed, n);
      TimetableAt(cs, placed, n);
      Packing.LoadNext(placed, now);
    }
  }

  lemma {:induction false} TimetableFront(cs: seq<Run>, placed: seq<Packing.Run>, n: nat)
    requires |placed| == |cs| && n <= |cs|
    ensures Timetable(cs, placed)[..n] == Timetable(cs[..n], placed[..n])
  {
    if n > 0 {
      TimetableFront(cs[1..], placed[1..], n - 1);
      assert cs[..n][1..] == cs[1..][..n - 1] && placed[..n][1..] == placed[1..][..n - 1];
      assert Timetable(cs, placed)[..n] == [PlacedEntry(cs[0], placed[0])] + Timetable(cs[1..], placed[1..])[..n - 1];
    }
  }

  /** Nothing starts, or some packed run covers this instant. */
  lemma {:induction false} SomeRunCovers(cs: seq<Run>, placed: seq<Packing.Run>, now: int, rain: bool,
                                         ignoresRain: set<int>)
    requires |placed| == |cs|
    ensures Total(Timetable(cs, placed), Due(now, rain, ignoresRain)) == 0.0
      || exists i :: 0 <= i < |placed| && placed[i].blocked.Free? && placed[i].start <= now < placed[i].end
  {
    if cs != [] {
      var n := |cs| - 1;
      SomeRunCovers(cs[..n], placed[..n], now, rain, ignoresRain);
      TimetableFront(cs, placed, n);
      TimetableAt(cs, placed, n);
    }
  }

  /** The packed runs keep the usage and the length of what was asked for. */
  lemma PackedAsAsked(cs: seq<Run>, placed: seq<Packing.Run>, settings: Packing.Settings, ignoresRain: set<int>,
                      before: seq<UsageProfile.Booking>, after: seq<UsageProfile.Booking>)
    requires Packing.Packed(Requests(cs), Verdicts(cs, settings, ignoresRain), placed, before, after, settings)
    requires |placed| == |cs| && NonNegative(cs) && forall c :: c in cs ==> c.start <= c.end
    ensures forall i :: 0 <= i < |cs| ==> 0.0 <= cs[i].usage == placed[i].usage && placed[i].start <= placed[i].end
  {
    forall i | 0 <= i < |cs| ensures 0.0 <= cs[i].usage == placed[i].usage && placed[i].start <= placed[i].end {
      assert cs[i] in cs;
      RequestsAt(cs, settings, ignoresRain, i);
      assert Packing.Placed(Requests(cs)[i], Verdicts(cs, settings, ignoresRain)[i], placed[i],
                            Packing.Booked(placed[..i], before, settings), settings);
    }
  }

  /** With a limit and no pause, what is running and what starts now stay under the limit together. */
  lemma StartsUnderLimit(candidates: seq<Run>, runs: seq<Run>, options: Options, rain: bool, ignoresRain: set<int>,
                         schedule: seq<Run>, placed: seq<Packing.Run>, moved: seq<Run>, now: int)
    requires Scheduled(candidates, runs, options, ignoresRain, schedule, placed, moved) && DistinctUids(candidates)
    requires options.packing.maxUsage > 0.0 && options.programPause <= 0
    requires NonNegative(runs) && LoggedBy(runs, now)
    requires NonNegative(candidates) && forall c :: c in candidates ==> c.start <= c.end
    ensures var due := DueUsages(schedule, now, rain, ignoresRain);
      due == 0.0 || Watering(runs, now) + due <= options.packing.maxUsage
  {
    var logged := Inactives(runs) + Actives(runs);
    var kept := SkipAll(candidates, logged);
    var cs := ManualFirst(kept);
    var before := Bookings(logged);
    var after := Packing.Booked(placed, before, options.packing);
    var due := DueUsages(schedule, now, rain, ignoresRain);
    SkipAllDrops(candidates, logged);
    ThoseOf(kept, true);
    ThoseOf(kept, false);
    DueIsTotal(schedule, now, rain, ignoresRain);
    TotalOfSorted(Timetable(cs, placed), Due(now, rain, ignoresRain));
    SomeRunCovers(cs, placed, now, rain, ignoresRain);
    if due != 0.0 {
      var i :| 0 <= i < |placed| && placed[i].blocked.Free? && placed[i].start <= now < placed[i].end;
      assert UsageProfile.Load(after, now) <= options.packing.maxUsage;
      PackedAsAsked(cs, placed, options.packing, ignoresRain, before, after);
      DueIsPacked(cs, placed, now, rain, ignoresRain);
      Packing.LoadConcat(before, Packing.BookingsOf(placed), now);
      SplitWater(runs, now);
      BookedWater(logged, now);
    }
  }

  // ---- any mix of operations ----

  datatype Step =
    | Tick(now: int, rain: bool, manualMode: bool, ignoresRain: set<int>, candidates: seq<Run>, options: Options,
           ending: nat -> Reading, starting: nat -> Reading)
    | Start(interval: Run, o: Reading)
    | Finish(uid: Option<string>, clock: nat -> int, o: Reading)
    | Clear(allEntries: bool, o: Reading)

  /** The uids that a step may log. */
  ghost function Offered(step: Step): set<string> {
    match step
    case Tick(_, _, _, _, candidates, _, _, _) => Uids(candidates)
    case Start(interval, _) => {interval.uid}
    case Finish(_, _, _) => {}
    case Clear(_, _) => {}
  }

  /** The candidates of a tick have distinct uids and end after they start; a start from outside the tick brings a new
      uid. */
  ghost predicate Allowed(step: Step, used: set<string>) {
    && (step.Tick? ==> DistinctUids(step.candidates) && forall c :: c in step.candidates ==> c.start <= c.end)
    && (step.Start? ==> step.interval.uid !in used)
  }

  ghost predicate Playable(steps: seq<Step>, used: set<string>) {
    steps == [] || (Allowed(steps[0], used) && Playable(steps[1..], used + Offered(steps[0])))
  }

  ghost predicate NeverPrunes(step: Step) {
    match step
    case Tick(_, _, _, _, _, _, ending, starting) =>
      forall k :: !Prunes(false, ending(k)) && !Prunes(false, starting(k))
    case Start(_, o) => !Prunes(false, o)
    case Finish(_, _, o) => !Prunes(false, o)
    case Clear(allEntries, o) => !Prunes(allEntries, o)
  }

  /** The clock is read for a start at most a minute after the tick began or the run ended. */
  ghost predicate InTime(step: Step) {
    match step
    case Tick(now, _, _, _, _, _, _, starting) => forall k :: starting(k).time <= now + 60 * SECOND
    case Start(interval, o) => !LoggedLate(interval, o.time)
    case Finish(_, _, _) => true
    case Clear(_, _) => true
  }

  /** When the step begins. */
  ghost function TimeOf(step: Step): int {
    if step.Tick? then step.now else step.o.time
  }

  /** The clock is read for every start of the step by time t. */
  ghost predicate StartsBy(step: Step, t: int) {
    match step
    case Tick(_, _, _, _, _, _, _, starting) => ReadBy(starting, t)
    case Start(_, o) => o.time <= t
    case Finish(_, _, _) => true
    case Clear(_, _) => true
  }

  /** Runs are started by ticks only, under this limit and without a program pause. */
  ghost predicate Limited(step: Step, limit: real) {
    && !step.Start?
    && (step.Tick? ==>
      step.options.packing.maxUsage == limit && step.options.programPause <= 0 && NonNegative(step.candidates))
  }

  /** What is logged by time t, with no more water in use than the limit. */
  ghost predicate UnderLimit(runs: seq<Run>, t: int, limit: real) {
    NonNegative(runs) && LoggedBy(runs, t) && Watering(runs, t) <= limit
  }

  /** A log between two steps. */
  datatype Snapshot = Snapshot(runs: seq<Run>, history: seq<Event>, late: bool)

  /** What a step makes of the log. */
  ghost predicate Performed(step: Step, before: Snapshot, after: Snapshot) {
    match step
    case Tick(_, _, _, _, _, _, _, _) =>
      exists logged, ended, schedule, placed, moved ::
        Ticked(step, before, after, logged, ended, schedule, placed, moved)
    case Start(interval, o) =>
      && after.runs == Pruned(before.runs + [interval.(start := o.time, active := true)], false, o)
      && after.history == before.history + [Started(interval.uid)]
    case Finish(uid, clock, o) =>
      && after.runs == Pruned(FinishEach(before.runs, uid, clock, 0), false, o)
      && after.history == before.history + Finishes(before.runs, uid)
    case Clear(allEntries, o) => after.runs == Pruned(before.runs, allEntries, o) && after.history == before.history
  }

  /** A tick ends what is due to end, makes its schedule from what is then logged, and starts what is due of it. */
  ghost predicate Ticked(step: Step, before: Snapshot, after: Snapshot, logged: seq<Run>, ended: seq<Event>,
                         schedule: seq<Run>, placed: seq<Packing.Run>, moved: seq<Run>)
    requires step.Tick?
  {
    && EndedAsDue(Actives(before.runs), logged, ended, before.late, step.now, step.rain, step.ignoresRain)
    && (if step.manualMode then schedule == []
        else Scheduled(step.candidates, logged, step.options, step.ignoresRain, schedule, placed, moved))
    && StartedAsDue(schedule, after.runs, after.late, step.now, step.rain, step.ignoresRain)
    && after.history == before.history + ended + Starts(schedule, step.now, step.rain, step.ignoresRain)
  }

  ghost function View(log: Log): Snapshot
    reads log
  {
    Snapshot(log.runs, log.history, log.late)
  }

  method Perform(log: Log, step: Step, ghost limit: real)
    requires log.Valid() && Allowed(step, Uids(log.runs))
    modifies log
    ensures Performed(step, old(View(log)), View(log))
    ensures log.Valid() && Uids(log.runs) <= Uids(old(log.runs)) + Offered(step)
    ensures NeverPrunes(step) ==> log.pruned == old(log.pruned)
    ensures InTime(step) ==> log.late == old(log.late)
    ensures forall t :: LoggedBy(old(log.runs), t) && StartsBy(step, t) ==> LoggedBy(log.runs, t)
    ensures limit > 0.0 && Limited(step, limit) && UnderLimit(old(log.runs), TimeOf(step), limit) ==>
      NonNegative(log.runs) && Watering(log.runs, TimeOf(step)) <= limit
  {
    ghost var before := log.runs;
    match step
    case Tick(now, rain, manualMode, ignoresRain, candidates, options, ending, starting) =>
      PerformTick(log, step, limit);
    case Start(interval, o) =>
      ghost var more := log.runs + [interval.(start := o.time, active := true)];
      PruningShrinks(more, false, o);
      forall t | LoggedBy(before, t) && o.time <= t ensures LoggedBy(more, t) {
      }
      log.StartRun(interval, o);
    case Finish(uid, clock, o) =>
      ghost var done := FinishEach(log.runs, uid, clock, 0);
      FinishingShrinks(log.runs, uid, clock);
      PruningShrinks(done, false, o);
      ShrinksTwice(log.runs, done, Pruned(done, false, o));
      log.FinishRun(uid, clock, o);
    case Clear(allEntries, o) =>
      PruningDrops(log.runs, allEntries, o);
      PruningShrinks(log.runs, allEntries, o);
      log.ClearRuns(allEntries, o);
  }

  method PerformTick(log: Log, step: Step, ghost limit: real)
    requires log.Valid() && step.Tick? && Allowed(step, Uids(log.runs))
    modifies log
    ensures Performed(step, old(View(log)), View(log))
    ensures log.Valid() && Uids(log.runs) <= Uids(old(log.runs)) + Offered(step)
    ensures NeverPrunes(step) ==> log.pruned == old(log.pruned)
    ensures InTime(step) ==> log.late == old(log.late)
    ensures forall t :: LoggedBy(old(log.runs), t) && StartsBy(step, t) ==> LoggedBy(log.runs, t)
    ensures limit > 0.0 && Limited(step, limit) && UnderLimit(old(log.runs), TimeOf(step), limit) ==>
      NonNegative(log.runs) && Watering(log.runs, TimeOf(step)) <= limit
  {
    ghost var before := log.runs;
    ghost var logged, ended, schedule, placed, moved :=
      CheckSchedule(log, step.now, step.rain, step.manualMode, step.ignoresRain, step.candidates, step.options,
                    step.ending, step.starting);
    assert Ticked(step, old(View(log)), View(log), logged, ended, schedule, placed, moved);
    TickUnderLimit(before, logged, log.runs, step, schedule, placed, moved, limit);
  }

  /** A tick keeps the water in use under the limit. */
  lemma TickUnderLimit(before: seq<Run>, logged: seq<Run>, after: seq<Run>, step: Step, schedule: seq<Run>,
                       placed: seq<Packing.Run>, moved: seq<Run>, limit: real)
    requires step.Tick? && DistinctUids(step.candidates) && forall c :: c in step.candidates ==> c.start <= c.end
    requires Shrinks(before, logged)
    requires if step.manualMode then schedule == []
      else Scheduled(step.candidates, logged, step.options, step.ignoresRain, schedule, placed, moved)
    requires Grows(logged, after, schedule, DueUsages(schedule, step.now, step.rain, step.ignoresRain), step.now)
    ensures limit > 0.0 && Limited(step, limit) && UnderLimit(before, step.now, limit) ==>
      NonNegative(after) && Watering(after, step.now) <= limit
  {
    if limit > 0.0 && Limited(step, limit) && UnderLimit(before, step.now, limit) {
      if step.manualMode {
        assert NonNegative(schedule);
      } else {
        StartsUnderLimit(step.candidates, logged, step.options, step.rain, step.ignoresRain, schedule, placed, moved,
                         step.now);
        ScheduleNonNegative(step.candidates, logged, step.options, step.ignoresRain, schedule, placed, moved);
      }
    }
  }

  lemma ScheduleNonNegative(candidates: seq<Run>, runs: seq<Run>, options: Options, ignoresRain: set<int>,
                            schedule: seq<Run>, placed: seq<Packing.Run>, moved: seq<Run>)
    requires DistinctUids(candidates) && NonNegative(candidates)
    requires Scheduled(candidates, runs, options, ignoresRain, schedule, placed, moved)
    ensures NonNegative(schedule)
  {
    forall r | r in schedule ensures r.usage >= 0.0 {
      var i := WhereFrom(candidates, runs, options, ignoresRain, schedule, placed, moved, r);
      assert Ranked(candidates, runs)[i] in Ranked(candidates, runs);
    }
  }

  lemma {:induction false} InsertedMembers(c: Run, cs: seq<Run>)
    ensures forall x :: x in InsertByStart(c, cs) ==> x == c || x in cs
  {
    if cs != [] { InsertedMembers(c, cs[..|cs| - 1]); }
  }

  lemma {:induction false} SortedMembers(cs: seq<Run>)
    ensures forall x :: x in SortByStart(cs) ==> x in cs
  {
    if cs != [] {
      SortedMembers(cs[..|cs| - 1]);
      InsertedMembers(cs[|cs| - 1], SortByStart(cs[..|cs| - 1]));
    }
  }

  /** The steps follow each other in time. */
  ghost predicate Chronological(steps: seq<Step>) {
    forall i, j :: 0 <= i < j < |steps| ==> TimeOf(steps[i]) <= TimeOf(steps[j]) && StartsBy(steps[i], TimeOf(steps[j]))
  }

  /** From the empty log every step makes the next log of the trace. */
  ghost predicate Traces(trace: seq<Snapshot>, steps: seq<Step>) {
    && |trace| == |steps| + 1 && trace[0] == Snapshot([], [], false)
    && forall k :: 0 <= k < |steps| ==> Performed(steps[k], trace[k], trace[k + 1])
  }

  lemma TraceGrows(trace: seq<Snapshot>, steps: seq<Step>, k: nat, next: Snapshot)
    requires k < |steps| && Traces(trace, steps[..k]) && Performed(steps[k], trace[k], next)
    ensures Traces(trace + [next], steps[..k + 1])
  {
    var longer := trace + [next];
    forall i | 0 <= i < k + 1 ensures Performed(steps[..k + 1][i], longer[i], longer[i + 1]) {
      assert i < k ==> Performed(steps[..k][i], trace[i], trace[i + 1]);
    }
  }

  /** One step of a run that may be limited. */
  method PerformNext(log: Log, steps: seq<Step>, k: nat, ghost limit: real, ghost limited: bool)
    requires log.Valid() && k < |steps| && Allowed(steps[k], Uids(log.runs))
    requires limited ==> limit > 0.0 && Chronological(steps) && Limited(steps[k], limit)
    requires limited ==> KeepsUnder(log.runs, steps, k, limit)
    modifies log
    ensures Performed(steps[k], old(View(log)), View(log))
    ensures log.Valid() && Uids(log.runs) <= Uids(old(log.runs)) + Offered(steps[k])
    ensures NeverPrunes(steps[k]) ==> log.pruned == old(log.pruned)
    ensures InTime(steps[k]) ==> log.late == old(log.late)
    ensures limited ==> KeepsUnder(log.runs, steps, k + 1, limit)
  {
    ghost var before := log.runs;
    Perform(log, steps[k], limit);
    if limited {
      UnderAgain(before, log.runs, steps, k, limit);
    }
  }

  /** After every mix of ticks, starts, finishes and prunes no run is logged twice, and none has started twice without a
      finish in between. And if only ticks start runs, under one limit, without a program pause and as time goes on, the
      runs in the log never use more water together than the limit. */
  method Replay(steps: seq<Step>, ghost limit: real) returns (log: Log, ghost trace: seq<Snapshot>)
    requires Playable(steps, {})
    ensures Traces(trace, steps) && trace[|steps|] == View(log)
    ensures fresh(log) && log.Valid() && OnceOnly(log.runs, log.history, log.pruned, log.late)
    ensures (forall s :: s in steps ==> NeverPrunes(s)) ==> !log.pruned
    ensures (forall s :: s in steps ==> InTime(s)) ==> !log.late
    ensures limit > 0.0 && Chronological(steps) && (forall s :: s in steps ==> Limited(s, limit)) ==>
      forall t :: (forall s :: s in steps ==> TimeOf(s) <= t) ==> Watering(log.runs, t) <= limit
  {
    ghost var limited := limit > 0.0 && Chronological(steps) && forall s :: s in steps ==> Limited(s, limit);
    log, trace := PlayAll(steps, limit, limited);
    assert steps[..|steps|] == steps && forall i :: 0 <= i < |steps| ==> steps[i] in steps;
    NeverTwice(log.runs, log.history, log.pruned, log.late);
    if limited {
      UnderAtEnd(log.runs, steps, limit);
    }
  }

  /** The log and the trace after k steps, and the uids offered so far. */
  ghost predicate PlayedSoFar(steps: seq<Step>, k: nat, trace: seq<Snapshot>, now: Snapshot, pruned: bool,
                              used: set<string>, limit: real, limited: bool)
    requires k <= |steps|
  {
    && Traces(trace, steps[..k]) && trace[k] == now && Uids(now.runs) <= used && Playable(steps[k..], used)
    && ((forall i :: 0 <= i < k ==> NeverPrunes(steps[i])) ==> !pruned)
    && ((forall i :: 0 <= i < k ==> InTime(steps[i])) ==> !now.late)
    && (limited ==> KeepsUnder(now.runs, steps, k, limit))
  }

  lemma OneMorePlayed(steps: seq<Step>, k: nat, trace: seq<Snapshot>, now: Snapshot, next: Snapshot, pruned: bool,
                      pruned': bool, used: set<string>, limit: real, limited: bool)
    requires k < |steps| && PlayedSoFar(steps, k, trace, now, pruned, used, limit, limited)
    requires Performed(steps[k], now, next) && Uids(next.runs) <= Uids(now.runs) + Offered(steps[k])
    requires NeverPrunes(steps[k]) ==> pruned' == pruned
    requires InTime(steps[k]) ==> next.late == now.late
    requires limited ==> KeepsUnder(next.runs, steps, k + 1, limit)
    ensures PlayedSoFar(steps, k + 1, trace + [next], next, pruned', used + Offered(steps[k]), limit, limited)
  {
    TraceGrows(trace, steps, k, next);
    assert steps[k..][0] == steps[k] && steps[k..][1..] == steps[k + 1..];
  }

  method PlayAll(steps: seq<Step>, ghost limit: real, ghost limited: bool)
    returns (log: Log, ghost trace: seq<Snapshot>)
    requires Playable(steps, {})
    requires limited ==> limit > 0.0 && Chronological(steps) && forall s :: s in steps ==> Limited(s, limit)
    ensures fresh(log) && log.Valid()
    ensures exists used :: PlayedSoFar(steps, |steps|, trace, View(log), log.pruned, used, limit, limited)
  {
    log := new Log();
    trace := [View(log)];
    ghost var used: set<string> := {};
    assert steps[0..] == steps;
    for k := 0 to |steps|
      invariant fresh(log) && log.Valid() && PlayedSoFar(steps, k, trace, View(log), log.pruned, used, limit, limited)
    {
      ghost var now, pruned := View(log), log.pruned;
      assert steps[k..][0] == steps[k] && steps[k] in steps;
      PerformNext(log, steps, k, limit, limited);
      OneMorePlayed(steps, k, trace, now, View(log), pruned, log.pruned, used, limit, limited);
      trace, used := trace + [View(log)], used + Offered(steps[k]);
    }
  }

  /** After the first k steps: what is logged was logged by the time of the later steps, and from the last step on it is
      under the limit. */
  ghost predicate KeepsUnder(runs: seq<Run>, steps: seq<Step>, k: nat, limit: real)
    requires k <= |steps|
  {
    && NonNegative(runs)
    && (forall j :: k <= j < |steps| ==> LoggedBy(runs, TimeOf(steps[j])))
    && forall t :: (k > 0 ==> TimeOf(steps[k - 1]) <= t) ==> Watering(runs, t) <= limit
  }

  lemma UnderAgain(before: seq<Run>, after: seq<Run>, steps: seq<Step>, k: nat, limit: real)
    requires k < |steps| && Chronological(steps) && limit > 0.0 && Limited(steps[k], limit)
    requires KeepsUnder(before, steps, k, limit)
    requires forall t :: LoggedBy(before, t) && StartsBy(steps[k], t) ==> LoggedBy(after, t)
    requires UnderLimit(before, TimeOf(steps[k]), limit) ==>
      NonNegative(after) && Watering(after, TimeOf(steps[k])) <= limit
    ensures KeepsUnder(after, steps, k + 1, limit)
  {
    var now := TimeOf(steps[k]);
    assert k > 0 ==> TimeOf(steps[k - 1]) <= now;
    assert UnderLimit(before, now, limit);
    forall t | now <= t ensures Watering(after, t) <= limit {
      WateringFalls(after, now, t);
    }
    forall j | k + 1 <= j < |steps| ensures LoggedBy(after, TimeOf(steps[j])) {
      assert StartsBy(steps[k], TimeOf(steps[j]));
    }
  }

  lemma UnderAtEnd(runs: seq<Run>, steps: seq<Step>, limit: real)
    requires KeepsUnder(runs, steps, |steps|, limit)
    ensures forall t :: (forall s :: s in steps ==> TimeOf(s) <= t) ==> Watering(runs, t) <= limit
  {
    forall t | forall s :: s in steps ==> TimeOf(s) <= t ensures Watering(runs, t) <= limit {
      assert |steps| > 0 ==> steps[|steps| - 1] in steps;
    }
  }

  /** Without a limit and a pause, a tick at a time when r runs, with r as the only candidate and nothing logged, starts
      it. */
  lemma TickStarts(r: Run, now: int, options: Options, schedule: seq<Run>, placed: seq<Packing.Run>,
                   moved: seq<Run>)
    requires r.start <= now < r.end && !r.blocked && r.manual && r.fixed
    requires options.packing.maxUsage <= 0.0 && options.programPause <= 0
    requires Scheduled([r], [], options, {}, schedule, placed, moved)
    ensures Starts(schedule, now, false, {}) == [Started(r.uid)]
  {
    var settings := options.packing;
    assert [r][1..] == [] && Inactives([]) + Actives([]) == [];
    assert Those([r], true) == [r] + [] && Those([r], false) == [] + [];
    assert ManualFirst(SkipAll([r], Inactives([]) + Actives([]))) == [r];
    RequestsAt([r], settings, {}, 0);
    assert Packing.Placed(Requests([r])[0], Verdicts([r], settings, {})[0], placed[0],
                          Packing.Booked(placed[..0], [], settings), settings);
    var entry := PlacedEntry(r, placed[0]);
    TimetableAt([r], placed, 0);
    assert Timetable([r], placed) == [entry] && [entry][..0] == [] && SortByStart([entry]) == [entry];
    assert Starts([entry], now, false, {}) == StartOf(entry, now, false, {}) + [];
  }

  lemma NothingEnded(ended: seq<Event>, after: seq<Run>, now: int)
    requires EndedAsDue([], after, ended, false, now, false, {}) && forall e :: e in ended ==> e.Finished?
    ensures ended == []
  {
    forall e ensures e !in ended {
      assert Finished(e.uid) !in ended;
    }
    HeadIsIn(ended);
  }

  lemma HeadIsIn(events: seq<Event>)
    ensures events == [] || events[0] in events
  {
  }

  /** No limit, no pause, and nothing that blocks a run. */
  function NoOptions(): Options {
    Options(Packing.Settings(true, 0, 0, false, 0.0, 0, 0), 0)
  }

  /** A tick with this run as the only candidate, its time come and nothing logged. */
  method TickAlone(log: Log, r: Run, now: int)
    requires log.Valid() && !log.late && log.runs == []
    requires r.start <= now < r.end && !r.blocked && r.manual && r.fixed
    modifies log
    ensures log.Valid() && !log.late && log.history == old(log.history) + [Started(r.uid)]
  {
    var readings: nat -> Reading := _ => Unlogged(now);
    assert [r][1..] == [] && DistinctUids([r]);
    ghost var logged, ended, schedule, placed, moved :=
      CheckSchedule(log, now, false, false, {}, [r], NoOptions(), readings, readings);
    assert logged == [] by { NoUids(logged); }
    assert ended == [] by { NothingEnded(ended, logged, now); }
    TickStarts(r, now, NoOptions(), schedule, placed, moved);
    assert old(log.history) + [] == old(log.history);
  }

  /** The run that was stopped and pruned is started again by the next tick while its time is not over. */
  method StartsAgain(r: Run) returns (log: Log)
    requires r.start == 0 && r.end == 3600 * SECOND && !r.blocked && r.manual && r.fixed
    ensures fresh(log) && log.Valid() && !log.late
    ensures log.history == [Started(r.uid), Finished(r.uid), Started(r.uid)]
  {
    log := StoppedAndPruned(r);
    TickAlone(log, r, 80 * SECOND);
  }
}
