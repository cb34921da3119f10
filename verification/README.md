# Verified model of the watering controller's core and its libraries

The repository is a watering controller with the Python libraries it carries along. This project models its hardest
parts in Dafny and proves what they promise.

- **The scheduler** (`Intervals`, `UsageProfile`, `StationDelay`, `Packing`, `ProgramPause`, `PausedEntries`,
  `RunLog`, `Scheduler`). Candidate runs are slid forward until the summed water usage fits under the limit, whole program
  occurrences are shifted to leave a pause, and a tick starts and finishes runs against the log. Times are whole
  microseconds, usages exact reals; the clock, options, stations and sensor readings are parameters. Interval records
  are mutable objects, as in the source; candidates and log entries are values, the latter in a list that the log
  reassigns.
- **Combinatorics and number theory** (`GrayProduct`, `Division`, `Primes`, `Sieve`, `Totient`, `DistinctPermutations`,
  `ChunkedEven`, `Binomials`, `Combinations`, `Permutations`, `InterleaveEvenly`). Each in-place algorithm is proved
  against a plain specification: the whole lexicographic list, the count of coprime numbers, the one even split.
- **Calendar arithmetic** (`JulianDay`), over exact rationals.
- **Chunked transfer coding** (`ChunkedTransfer`; section 4.1 of RFC 7230): the encoder, the buffered decoder and
  their round trip.
- **Indexes and concurrent steps** (`Signals`, `Persistence`, `I2cGuard`). The signal registry is a class whose three
  maps refine a relation. The background writer and the bus lock are state machines whose atomic steps any number of
  threads take in any order.
- `Lists` and `Results` hold what several modules share.

## Where the code does not do what it promises

- The Julian day conversion and its inverse do not undo each other for any Gregorian date since 15 October 1582: line 98
  of `astral/julian.py` adds the quarter of the centuries where it would have to subtract it. 1 January 2024 comes back
  as 9 January. `JulianDay.GregorianRoundTripExactly`, `JulianDay.JulianRoundTripExactly`,
  `JulianDay.NumberRoundTripGregorianExactly` and `JulianDay.NumberRoundTripExactly` give the exact conditions, from
  dates and from day numbers, in both calendars. Where the date read is 29 February of a year that has none, as for
  23 February 1900 (`JulianDay.February1900Raises`), the inverse raises; `JulianDay.ReturnedDate` says exactly when.
- The program pause is missed when two occurrences of one program are visited in a row and the second does not start
  late enough by itself, because the same-program test looks only at the latest end
  (`ProgramPause.PauseRespectsExactly`, `ProgramPause.SecondOccurrenceEscapesPause`).
- A run whose entry has been pruned can start again while its time is not over (`RunLog.PrunedRunIsACandidateAgain`,
  `Scheduler.StartsAgain`). A run that is logged more than a minute after its end can be lost while it is active; which
  entries pruning loses is exact (`RunLog.SurvivesExactly`, `RunLog.OnlyActiveRunIsLost`). The test for long intervals
  (line 342 of `ospy/log.py`) is never reached, and the model keeps it so.
- A failed `connect` takes back more than itself if the receiver was connected before (`Signals.Signal.Connect`,
  `Signals.TakesBackTooMuch`).

## Model

| member | source | states |
|---|---|---|
| `UsageProfile.UsageChanges.Book` | ospy/scheduler.py:219-230 | entering an interval into the difference map keeps every change equal to the sum over the intervals entered, and adds exactly its two instants, also for a run logged after its end |
| `UsageProfile.PrefixSumIsLoad` | ospy/scheduler.py:412-416 | the running sum of the difference map up to an instant is the summed usage of the intervals there; one that was logged after its end counts negative in between |
| `UsageProfile.SortedKeys` | ospy/scheduler.py:408 | the keys of the map, each once, in increasing order |
| `Packing.UsageAtStart` | ospy/scheduler.py:409-416 | the last key up to the requested start, and the running sum there |
| `Packing.PeakRise` | ospy/scheduler.py:421-428 | the peak is reached and bounds the usage at every instant of the window, relative to its start |
| `Packing.UsageComesDown` | ospy/scheduler.py:443-456 | usage that never drops after an instant is nothing there, so the search always finds a drop while something runs |
| `Packing.NoFitBeforeDrop` | ospy/scheduler.py:430-456 | a run that does not fit at an instant fits at no start before the next drop of the usage |
| `Packing.NextDrop` | ospy/scheduler.py:443-456 | the next key at which the usage drops, the running sum there, and no drop passed over |
| `StationDelay.SkipsDelay` | ospy/scheduler.py:457-472 | the station delay is skipped if and only if, read off the load, the usage last rose from below 0.01 after more than three idle seconds less than the minimum ago, or never did |
| `Packing.MoveToNextDrop` | ospy/scheduler.py:443-481 | the run keeps its duration and moves to the next drop of the usage after the instant tried, plus the station delay exactly unless what ends there was short; it fails exactly when no drop follows |
| `Packing.FindStart` | ospy/scheduler.py:418-486 | the search terminates; the run keeps its duration and starts at the first of the positions (the requested start, then every later drop of the usage) at which it fits with that position's own delay, plus exactly that delay; it fails if and only if it fits at none |
| `Packing.FailsExactly` | ospy/scheduler.py:418-486 | unless runs were logged after their end, that is if and only if the usage alone exceeds the limit |
| `Packing.ChosenIsUnique` | ospy/scheduler.py:418-486 | there is only one such position, for every station delay |
| `Packing.ChosenIsEarliest` | ospy/scheduler.py:418-486 | without station delay it is the earliest start at all at which the run fits |
| `Packing.Place` | ospy/scheduler.py:390-486 | one interval: blocked exactly for the reason that settings and request give, with the one that wins named, or started where the search ends, delay included, and booked |
| `Packing.BlockedExactly` | ospy/scheduler.py:418-486 | unless runs were logged after their end, a run that is searched for is blocked if and only if its usage alone exceeds the limit |
| `Packing.Pack` | ospy/scheduler.py:389-486 | the whole loop: every run keeps usage and duration and starts where the search ends around the runs before it, delay included; a disabled scheduler, a rain delay, sensed rain and a cut-off block exactly the runs they concern, in that order, never a manual run or a station that ignores rain where they must not; the booked runs never take the usage above the limit |
| `Packing.PlacedIsJudged` | ospy/scheduler.py:390-405 | the timetable alone: which runs come out blocked and why, from settings and request; a run that nothing speaks against is packed |
| `Packing.PackedIsUnique` | ospy/scheduler.py:389-486 | that determines the whole timetable: requests, verdicts and the bookings before leave only one |
| `Packing.PackedIsEarliest` | ospy/scheduler.py:389-486 | without station delay every run that is not blocked sits at the earliest start the runs before it allow |
| `Packing.SafeAppend` | ospy/scheduler.py:430-441 | placing one more run where it fits keeps the whole timetable under the limit |
| `Packing.HeavyRunsDoNotOverlap` | ospy/scheduler.py:407-481 | in any packed timetable two runs whose usages together exceed the limit never run at the same time |
| `ProgramPause.LatestProcessed` | ospy/scheduler.py:513-529 | the first of the latest-ending runs that count, or none: no counted run ends later and no earlier one at the same time |
| `ProgramPause.GroupOccurrences` | ospy/scheduler.py:531-539 | every automatic, unblocked interval is in exactly the group of its program and original start, the keys by first appearance |
| `ProgramPause.SortOccurrences` | ospy/scheduler.py:541-547 | the occurrences by first start, then program, then their order in the dict |
| `ProgramPause.PauseOccurrence` | ospy/scheduler.py:548-560 | one occurrence moves as a whole by what the latest end demands, and the latest end is updated |
| `ProgramPause.ApplyPause` | ospy/scheduler.py:498-561 | manual, blocked and program-less intervals are untouched; every other moves together with its occurrence by the one shift that the value form gives it; and if no occurrence is missed, records of different programs are the pause apart and the pause after the latest processed run of another program |
| `ProgramPause.ApplyTwice` | ospy/scheduler.py:498-561 | if no occurrence is missed, a second pass over the records, in whatever order it visits, leaves every record where the first one put it |
| `ProgramPause.ApplyAgain` | ospy/scheduler.py:541-561 | over records that are apart the pass changes nothing |
| `ProgramPause.PausedAt` | ospy/scheduler.py:550-556 | every occurrence keeps program and length and never moves back |
| `ProgramPause.GapUnlessSameProgram` | ospy/scheduler.py:551-556 | for all inputs: an occurrence starts at least the pause after every earlier end, unless the latest end is of its own program |
| `ProgramPause.PauseSeparates` | ospy/scheduler.py:548-560 | if no occurrence is missed, any two of different programs end up at least the pause apart |
| `ProgramPause.PauseIsEarliest` | ospy/scheduler.py:548-560 | no schedule in the same order that respects the pause starts any occurrence earlier |
| `ProgramPause.PauseRespectsExactly` | ospy/scheduler.py:551-552 | the pass respects the pause if and only if every occurrence visited directly after one of its own program already starts late enough, which is read off the requested occurrences alone |
| `ProgramPause.RespectingIsLater` | ospy/scheduler.py:548-560 | late enough is exact: no schedule that respects the pause starts an occurrence before it needs to |
| `ProgramPause.NeedRespects` | ospy/scheduler.py:548-560 | and starting every occurrence when it needs to respects the pause |
| `ProgramPause.TakingTurnsRespects` | ospy/scheduler.py:548-560 | programs that never run twice in a row are always kept apart, however often they run |
| `ProgramPause.PauseIsIdempotent` | ospy/scheduler.py:548-561 | for all inputs: a second pass in the same order changes nothing |
| `ProgramPause.SameOrderExactly` | ospy/scheduler.py:541-561 | a second pass visits in the same order if and only if no occurrence was missed |
| `ProgramPause.SecondOccurrenceEscapesPause` | ospy/scheduler.py:551-552 | a concrete input with two occurrences of a program for which the pause is missed |
| `PausedEntries.PauseShown` | ospy/scheduler.py:498-561 | over the records of a timetable: every run of an occurrence moves by the one shift of that occurrence, after the logged automatic run that ends last; nothing else moves, and nothing at all without a positive pause |
| `PausedEntries.VisitsAreUnique` | ospy/scheduler.py:531-547 | a timetable has one list of occurrences in one order |
| `PausedEntries.PausedIsUnique` | ospy/scheduler.py:498-561 | timetable and log leave one outcome of the pause |
| `PausedEntries.PausedAreApart` | ospy/scheduler.py:548-560 | if no occurrence is missed, automatic runs of different programs are the pause apart |
| `PausedEntries.PausedAfterLast` | ospy/scheduler.py:513-556 | and the pause behind the logged automatic run that ends last, if that is of another program |
| `PausedEntries.LeastShift` | ospy/scheduler.py:551-556 | for all inputs: no schedule that keeps the pause in that order moves a run less |
| `RunLog.Log.StartRun` | ospy/log.py:203-223 | the run is appended with the current start and active, then the log is pruned; the history records one start, and whether it was logged late |
| `RunLog.Log.FinishRun` | ospy/log.py:225-250 | exactly the active runs asked for end, each when the clock is read for it, then the log is pruned; the history records their finishes; the other active runs stay unless some run was logged late |
| `RunLog.Log.FinishOne` | ospy/log.py:225-250 | one run finishes if it is active; calling it again for the same run does nothing more |
| `RunLog.Log.FinishHits` | ospy/log.py:236-248 | the loop with its early break does what finishing every match would, because uids are distinct |
| `RunLog.Log.ClearRuns` | ospy/log.py:309-355 | the entries left are exactly those the pruning rules keep, and every active run is among them unless some run was logged late |
| `RunLog.Log.DropPrunable` | ospy/log.py:334-355 | deleting by index from the back leaves the kept entries of the front part and all of the last ones |
| `RunLog.KeptExactly` | ospy/log.py:345-355 | an entry survives if and only if it matters: unblocked and recent, or still needed by a weather program |
| `RunLog.SurvivesExactly` | ospy/log.py:309-355 | for every log with distinct uids an entry is still there after pruning if and only if pruning is off, it is one of the last entries to be kept, or it is not blocked and a weather program needs it or it was recent, by the longest of the three margins, when the clock was read or some active run started |
| `RunLog.PrunedExactly` | ospy/log.py:309-355 | what pruning leaves is exactly what survives, in order |
| `RunLog.PruningKeepsActives` | ospy/log.py:321-355 | no active run is dropped if all were logged at most a minute after their end |
| `RunLog.OnlyActiveRunIsLost` | ospy/log.py:321-355 | with the log of runs switched off, the only active run is lost if and only if it was logged more than the margin after its end and no weather program needs its day |
| `RunLog.SkipLogged` | ospy/scheduler.py:373-384 | the nested loop that deletes in place is the fold of single skips |
| `RunLog.SkipAllDrops` | ospy/scheduler.py:373-384 | with distinct candidate uids no logged uid survives the skip loop, and no candidate is lost that is neither logged nor before a logged run; what is before a logged run that is no candidate is lost |
| `RunLog.SkipOneExactly` | ospy/scheduler.py:373-384 | one logged run: up to the run itself the candidates scheduled before it go, unless only the logged one is blocked, then the run itself; those behind it stay |
| `RunLog.SecondTwinIsNotSkipped` | ospy/scheduler.py:378-382 | distinct uids are needed: of two candidates with one uid the second survives |
| `RunLog.PrunedRunIsACandidateAgain` | ospy/scheduler.py:373-384 | for every log and every candidate list with distinct uids: a candidate whose run is logged is skipped, and, if it is not before another kept run, it comes back if and only if pruning loses the entry |
| `Scheduler.StartsAgain` | ospy/scheduler.py:701-761 | a run is started, stopped, pruned and started again by the next tick while its time is not over: the history itself |
| `RunLog.LateRunStartsTwice` | ospy/log.py:203-223 | a run logged late is lost at once and can start again without having finished |
| `RunLog.Log.FinishEnded` | ospy/scheduler.py:701-710 | exactly those of the active runs finish, each once, whose end has come, unless it rains and their stations do not ignore that: their uids are not active any more and the history says so; the others are still active, unless some run was logged late; no more water is in use afterwards |
| `RunLog.Log.StartDue` | ospy/scheduler.py:735-761 | exactly those runs of the schedule are active whose time has come and that are not blocked, in the rain only where it is ignored; the others are not logged; the water in use grows by at most their usage |
| `RunLog.EndedExactly` | ospy/scheduler.py:701-710 | the finishes of a tick, from the ends of the runs, the time and the rain |
| `RunLog.StartsExactly` | ospy/scheduler.py:735-761 | the starts of a tick, from the schedule, the time and the rain |
| `Scheduler.PredictedSchedule` | ospy/scheduler.py:217-495 | from the candidates on: what is logged is booked, the survivors of the skip loop are packed around it, manual ones first, then paused and sorted by start; no uid of the schedule is logged |
| `Scheduler.PauseKeepsApart` | ospy/scheduler.py:490-561 | on the schedule: with a pause, if no occurrence is missed, unblocked automatic runs of different programs are the pause apart, and the pause behind the logged automatic run that ends last, if that is of another program |
| `Scheduler.OccurrencesMoveLeast` | ospy/scheduler.py:548-560 | on the schedule, for all inputs: the packed runs of one occurrence move together, never back, and no more than in any schedule that keeps the pause in that order; manual, blocked and program-less runs stay |
| `Scheduler.BlockedEntries` | ospy/scheduler.py:390-486 | which entries of the schedule are blocked, from candidate and settings: exactly those that were, that a disabled scheduler, a rain delay, sensed rain or a cut-off concerns, or whose usage alone exceeds the limit, unless runs were logged after their end |
| `Scheduler.ScheduleIsUnique` | ospy/scheduler.py:217-495 | candidates, log and options leave one schedule |
| `Scheduler.ManualComeFirst` | ospy/scheduler.py:386-387 | manual runs are packed before the others |
| `Scheduler.SortIsStable` | ospy/scheduler.py:493 | runs that start at the same time keep their order |
| `Scheduler.TotalOfSorted` | ospy/scheduler.py:493 | the last sort rearranges |
| `Scheduler.SortedInOrder` | ospy/scheduler.py:493 | and puts the runs in order of their start |
| `Scheduler.CheckSchedule` | ospy/scheduler.py:701-761 | a whole tick at any clock readings: exactly the ended runs finish, then the schedule is made from all that is still logged, then exactly the due runs of it start; rain, stations that ignore it and blocked runs included; the invariant is kept |
| `Scheduler.BookedWater` | ospy/scheduler.py:217-230 | what is logged by now and still running is booked now |
| `Scheduler.StartsUnderLimit` | ospy/scheduler.py:407-486 | with a limit and no pause, what is running and what starts now use no more water together than the limit |
| `Scheduler.TickUnderLimit` | ospy/scheduler.py:701-761 | so a tick keeps the water in use under the limit |
| `Scheduler.Replay` | ospy/scheduler.py:701-761 | every step makes of the log what its operation says, a tick by ending what is due, making its schedule and starting what is due of it; and after every mix of ticks, starts, finishes and prunes: no uid has two entries; a uid starts twice only if pruning has been on, and then has a finish between the two starts unless some run was logged late; neither happens if no step prunes, or no step logs late. If only ticks start runs, under one limit, without a pause and as time goes on, the runs in the log that have not reached their end never use more water together than the limit |
| `RunLog.NeverTwice` | ospy/scheduler.py:701-761 | what the invariant says of a log and its history |
| `RunLog.FinishedBetweenStarts` | ospy/log.py:203-250 | two starts of one run in an orderly history have a finish of it between them |
| `RunLog.StartKeepsSound` | ospy/log.py:203-216 | logging the start of a run that is not logged keeps the invariant |
| `RunLog.FinishKeepsSound` | ospy/log.py:236-248 | finishing keeps the invariant and takes exactly the finished uids out of the running ones |
| `RunLog.AfterFinishes` | ospy/log.py:236-248 | the history after a finish: who runs, who ever started, and that it stays orderly |
| `GrayProduct.Generate` | more_itertools/more.py:4508-4547 | ValueError exactly if some iterable has fewer than two items; otherwise the generator stops after as many tuples as the product has, and the t-th one is the t-th tuple of the reflected mixed-radix Gray code |
| `GrayProduct.Advance` | more_itertools/more.py:4539-4547 | one pass of the loop takes the positions, directions and focus pointers from step t to step t + 1, and breaks exactly at the last tuple |
| `GrayProduct.StepArrays` | more_itertools/more.py:4539-4547 | the three arrays after one pass hold what step t + 1 says |
| `GrayProduct.StepFocus` | more_itertools/more.py:4540-4547 | how every focus pointer changes in one step |
| `GrayProduct.StepCoordinate` | more_itertools/more.py:4543-4545 | only the focused coordinate moves, by one position, and it turns exactly at its ends |
| `GrayProduct.StopsAtLast` | more_itertools/more.py:4541-4542 | all coordinates are passive at the last tuple and only there |
| `GrayProduct.EveryTupleIsVisited` | more_itertools/more.py:4508-4547 | every tuple of the product is yielded, at its rank |
| `GrayProduct.NoTupleIsRepeated` | more_itertools/more.py:4508-4547 | the step is recovered from the tuple, so none is yielded twice |
| `GrayProduct.ConsecutiveTuplesDifferOnce` | more_itertools/more.py:4509-4511 | consecutive tuples differ in exactly one coordinate, by one position |
| `Sieve.IterIndex` | more_itertools/recipes.py:847-856 | the indexes in the range that hold the value, in order, with or without a stop |
| `Sieve.NextIndex` | more_itertools/recipes.py:848-856 | the first index in the range that holds 1, or none |
| `Sieve.CrossOut` | more_itertools/recipes.py:871 | after the slice assignment the array marks exactly the odd numbers that no divisor up to p has crossed out |
| `Sieve.SurvivorsArePrime` | more_itertools/recipes.py:868-873 | below the square of the next candidate the survivors are the odd primes |
| `Sieve.SkipCrossedOut` | more_itertools/recipes.py:869 | numbers already crossed out need not be used |
| `Sieve.NextBlock` | more_itertools/recipes.py:869-872 | what is read off up to the square of the next prime are the next primes |
| `Sieve.LastBlock` | more_itertools/recipes.py:873 | what is still marked at the end are the remaining primes |
| `Sieve.Generate` | more_itertools/recipes.py:858-873 | sieve(n) yields exactly the primes below n, in order, for every n |
| `Totient.DivideOut` | more_itertools/recipes.py:951-955 | the inner loop divides out one prime completely, or stops when 1 is left |
| `Totient.Factor` | more_itertools/recipes.py:944-957 | a nondecreasing list of primes with product n, for every n >= 1 |
| `Totient.RestIsPrime` | more_itertools/recipes.py:956-957 | what is left after the primes up to the root is 1 or prime |
| `Totient.UniqueJustSeenIsDistinct` | more_itertools/recipes.py:521-533 | on a nondecreasing list every element is kept, once |
| `Totient.EulerStep` | more_itertools/recipes.py:1009-1010 | one more distinct prime divisor takes away exactly its share of the numbers counted |
| `Totient.PrimesOfProduct` | more_itertools/recipes.py:1009 | a prime divides a product of primes exactly if it is one of them |
| `Totient.Totient` | more_itertools/recipes.py:1001-1012 | totient(n) is the number of k in 1..n coprime to n, for every n >= 1 |
| `DistinctPermutations.FindPivots` | more_itertools/more.py:684-695 | the last rise and the last larger entry after it, or that there is no rise |
| `DistinctPermutations.Advance` | more_itertools/more.py:684-700 | the array becomes its lexicographic successor, or is the last arrangement and unchanged |
| `DistinctPermutations.StepIsNext` | more_itertools/more.py:692-700 | swap and reversal give a rearrangement with nothing strictly between |
| `DistinctPermutations.NothingBetween` | more_itertools/more.py:692-700 | no rearrangement lies strictly between an arrangement and its successor |
| `DistinctPermutations.SortedIsFirst` | more_itertools/more.py:742 | the sorted arrangement comes first |
| `DistinctPermutations.ReverseSortedIsLast` | more_itertools/more.py:688-690 | the nonincreasing arrangement comes last |
| `DistinctPermutations.Progress` | more_itertools/more.py:680-700 | the measure on which termination rests: a bounded code that grows with every step |
| `DistinctPermutations.FindPivot` | more_itertools/more.py:713-721 | the last position of the head that some later entry, in head or tail, exceeds |
| `DistinctPermutations.FindSwap` | more_itertools/more.py:723-735 | the entry to swap with, from the tail or else from the head, is the last one above the pivot in the largest arrangement with this head |
| `DistinctPermutations.RebuiltIsStepped` | more_itertools/more.py:725-740 | swap, reversal and the move of the tail are one step of the full algorithm |
| `DistinctPermutations.AdvancePartial` | more_itertools/more.py:713-740 | head and sorted tail after one pass: the next arrangement of all items after the largest one with the old head, with a larger head; or there is none |
| `DistinctPermutations.NextFront` | more_itertools/more.py:703-740 | the front of that is the next arrangement of r items: nothing lies strictly between |
| `DistinctPermutations.Full` | more_itertools/more.py:679-700 | every rearrangement, each once, in strictly increasing order |
| `DistinctPermutations.Partial` | more_itertools/more.py:703-740 | every arrangement of r of the items, each once, in strictly increasing order |
| `DistinctPermutations.Generate` | more_itertools/more.py:661-751 | for every r, or none: exactly the arrangements of r items, repeats included, each once, in strictly increasing order; nothing if r is out of range |
| `JulianDay.DayOfIsNumber` | astral/julian.py:32-60 | the day of a whole date is its calendar day number less one half |
| `JulianDay.ToDateTimeOfNumber` | astral/julian.py:89-125 | for every whole day number the result is midnight of the date read from the adjusted count, or ValueError if Python has no such date |
| `JulianDay.RepresentableExactly` | astral/julian.py:100-125 | reading a count gives a date of Python if and only if it lies in the years 1 to 9999 and is not 29 February of a century year that the Gregorian calendar does not count as a leap year |
| `JulianDay.FromCountHasNumber` | astral/julian.py:100-123 | reading a count gives a valid Julian-calendar date with that number |
| `JulianDay.FromCountRecovers` | astral/julian.py:100-123 | every Julian-calendar date is recovered from its number |
| `JulianDay.CenturyOfNumber` | astral/julian.py:97 | the truncated quotient counts the same centuries as the forward formula |
| `JulianDay.ReturnedDate` | astral/julian.py:89-125 | for every date of Python, which date the round trip returns, and that it raises exactly when the count it reads is no date of Python |
| `JulianDay.ReturnedTime` | astral/julian.py:38-125 | for every datetime of Python, to the second: the same date is returned as for its midnight, and the same time |
| `JulianDay.TimeRoundTripExactly` | astral/julian.py:89-125 | a datetime comes back, time included, if and only if its date does |
| `JulianDay.TimeIsRead` | astral/julian.py:107-114 | hours, minutes and seconds are those of the second of the day |
| `JulianDay.CountReadFor` | astral/julian.py:97-98 | the count that is read is the date's own exactly between March 200 and February 300, and at least 4 days late since the calendar change |
| `JulianDay.February1900Raises` | astral/julian.py:98-125 | a concrete date for which the round trip raises |
| `JulianDay.GregorianRoundTripExactly` | astral/julian.py:89-125 | a date comes back if and only if it lies between March 200 and February 300 |
| `JulianDay.JulianRoundTripExactly` | astral/julian.py:94-125 | a Julian-calendar date comes back if and only if its number is below 2299161 and Python has the date |
| `JulianDay.NumberRoundTripExactly` | astral/julian.py:89-125 | any day number comes back through its date in the Julian calendar if and only if it is below 2299161 and the number of a date of Python |
| `JulianDay.NumberRoundTripGregorianExactly` | astral/julian.py:89-125 | by the default, Gregorian calendar any day number comes back if and only if it is at least 1794168 and below 1830692 |
| `JulianDay.NewYear2024ComesBackLate` | astral/julian.py:98 | a concrete date that does not come back |
| `JulianDay.NextDayIsOneMore` | astral/julian.py:21-60 | the next calendar day is exactly one more, across months, leap years and centuries, in both calendars |
| `ChunkedEven.Finite` | more_itertools/more.py:4177-4203 | the chunks concatenate to the input, have at most n items, differ by at most one, larger first, and are as few as possible |
| `ChunkedEven.Sizes` | more_itertools/more.py:4181-4188 | the computed sizes and counts add up to the length |
| `ChunkedEven.EvenSplitIsUnique` | more_itertools/more.py:4144-4156 | there is only one such split |
| `ChunkedEven.NoSmallChunk` | more_itertools/more.py:4168 | a buffer of at least (n-1)(n-2) items splits into chunks of n and n-1 only |
| `ChunkedEven.FullChunkInFront` | more_itertools/more.py:4171-4173 | a full chunk in front of an even split of enough items is an even split of all |
| `ChunkedEven.Push` | more_itertools/more.py:4169-4173 | one item: nothing is lost, emitted chunks are full, the buffer keeps its reserve |
| `ChunkedEven.Online` | more_itertools/more.py:4166-4174 | the streaming form yields the same even split |
| `ChunkedEven.BothForms` | more_itertools/more.py:4158-4203 | both forms return the same list of chunks, for every input and n >= 1 |
| `Binomials.TakeOne` | more_itertools/recipes.py:691 | the division that fixes an element is exact and gives the next binomial |
| `Binomials.SkipOne` | more_itertools/recipes.py:694 | the division that skips an element is exact and gives the next binomial |
| `Binomials.GrowOne` | more_itertools/recipes.py:680-681 | every division of the product form is exact |
| `Combinations.CountCombs` | more_itertools/recipes.py:678-681 | the product form computes the binomial coefficient |
| `Combinations.SkipTo` | more_itertools/recipes.py:692-694 | the inner loop skips exactly the combinations starting with earlier elements |
| `Combinations.NthCombination` | more_itertools/recipes.py:658-697 | the errors exactly when r or the index is out of range; otherwise the item list at that place of the plain lexicographic list |
| `Combinations.NthIsListed` | more_itertools/recipes.py:689-697 | the recursion used agrees with the plain list at every index |
| `Combinations.SumAfter` | more_itertools/more.py:4022-4026 | the summing loop, with its guard, adds the binomials of the combinations after each position |
| `Combinations.RankFormula` | more_itertools/more.py:4021-4028 | the number of combinations less that sum is the place in the list |
| `Combinations.FindPositions` | more_itertools/more.py:4001-4017 | the greedy search finds the first positions that spell the element, or that there are none |
| `Combinations.FindIsFirst` | more_itertools/more.py:4006-4017 | whatever positions spell the element, the greedy ones come no later |
| `Combinations.CombinationIndex` | more_itertools/more.py:3988-4028 | the index of the first combination equal to the element, or an error exactly if there is none |
| `Combinations.IndexOfNth` | more_itertools/more.py:3988-4028 | on distinct items combination_index undoes nth_combination |
| `Combinations.NthOfIndex` | more_itertools/recipes.py:658-697 | nth_combination undoes combination_index |
| `Permutations.ScaledIndex` | more_itertools/more.py:3878 | the scaled start value is index times (n-r)!, an exact division |
| `Permutations.DivideStep` | more_itertools/more.py:3879-3884 | one division keeps the meaning of quotient and digits |
| `Permutations.FindDigits` | more_itertools/more.py:3877-3884 | the digit loop with its early break finds the mixed-radix digits of the index |
| `Permutations.ListedAtIndex` | more_itertools/more.py:3886 | popping by digits gives the permutation at their index in the plain list |
| `Permutations.PopAll` | more_itertools/more.py:3886 | popping from the shrinking list |
| `Permutations.NthPermutation` | more_itertools/more.py:3843-3886 | with or without r: the errors exactly when r or the index is out of range; otherwise the permutation at that place of the plain list |
| `Permutations.RankIsHorner` | more_itertools/more.py:4102-4107 | the index loop evaluates the digits of the first positions |
| `Permutations.FirstDigitsAreLeast` | more_itertools/more.py:4105 | whatever digits spell the element, those of the first occurrences are least |
| `Permutations.PermutationIndex` | more_itertools/more.py:4088-4109 | the index of the first permutation equal to the element; an error exactly if the pool lacks an item |
| `Permutations.IndexOfNth` | more_itertools/more.py:4088-4109 | on distinct items permutation_index undoes nth_permutation |
| `Permutations.NthOfIndex` | more_itertools/more.py:3843-3886 | nth_permutation undoes permutation_index |
| `ChunkedTransfer.Response.Write` | cheroot/server.py:1130-1137 | a nonempty chunk is framed with its size in hexadecimal; anything else is written as it is |
| `ChunkedTransfer.Response.WriteAll` | cheroot/server.py:1084-1085 | any writes, then the end of the body, put on the wire the nonempty chunks, the last chunk and a blank line |
| `ChunkedTransfer.FramesAreWire` | cheroot/server.py:1130-1137 | empty writes leave no trace on the wire |
| `ChunkedTransfer.SizeLineIsRead` | cheroot/server.py:478-482 | every size line is read as the number its digits spell, in either case, with leading zeros, with or without an extension |
| `ChunkedTransfer.ParsesExactly` | cheroot/server.py:479 | a size is read if and only if it is an integer of base 16 as Python reads it: blanks, sign, prefix, digits with single underscores; and it is that integer |
| `ChunkedTransfer.HexIsSizeLine` | cheroot/server.py:1133 | what the encoder writes in front of a chunk is such a line |
| `ChunkedTransfer.FetchChunk` | cheroot/server.py:463-504 | fetching moves exactly the next chunk into the buffer, unless the limit is exceeded |
| `ChunkedTransfer.FetchLast` | cheroot/server.py:489-491 | fetching the last chunk closes the reader and leaves what follows |
| `ChunkedTransfer.FetchesExactly` | cheroot/server.py:463-504 | on any stream, well-formed or not: a fetch succeeds if and only if line and data are within the limit, the size is a number, and the data is there with its line end; a size that is not positive closes the reader |
| `ChunkedTransfer.ChunkedRFile.Fetch` | cheroot/server.py:463-504 | on any stream: the new state and error of the value form; with a limit, delivered and buffered bytes never exceed it |
| `ChunkedTransfer.ChunkedRFile.Take` | cheroot/server.py:529-536 | bytes move from the front of the buffer, and none is lost |
| `ChunkedTransfer.ChunkedRFile.Read` | cheroot/server.py:506-536 | on a body with any such size lines the next slice of its data, raising only if the body exceeds the limit; on any body a short answer means the last chunk was seen; a size of zero or less reads nothing |
| `ChunkedTransfer.ChunkedRFile.ReadTrailerLines` | cheroot/server.py:601-629 | refused before the body is read; otherwise what comes out is a trailer, consuming exactly through the blank line, and an expected trailer comes out if and only if the limit admits it |
| `ChunkedTransfer.ReadPieces` | cheroot/server.py:506-536 | on a body with any such size lines reads of any sizes return consecutive slices, shorter than asked only at the end, and raise only if the body exceeds the limit |
| `ChunkedTransfer.Exchange` | cheroot/server.py:463-629 | reading the whole body and its trailer succeeds if and only if the limit, if there is one, admits size lines, data and blank line; then decoding undoes encoding: pieces and rest concatenate to everything written, and the trailer reader leaves exactly what follows the body |
| `InterleaveEvenly.SortByLength` | more_itertools/more.py:1132-1135 | the indices by descending length, equal lengths in order |
| `InterleaveEvenly.NeverTooMany` | more_itertools/more.py:1146-1158 | with the error in range no iterable has yielded more than it has, and after the last round exactly as much |
| `InterleaveEvenly.RoundsAreEven` | more_itertools/more.py:1145-1158 | after t rounds every iterable is within one item of its share, and after as many rounds as the longest length all is yielded |
| `InterleaveEvenly.Due` | more_itertools/more.py:1152-1158 | a negative error is corrected by yielding one item, and there is one |
| `InterleaveEvenly.Round` | more_itertools/more.py:1146-1158 | one round keeps all errors in range |
| `InterleaveEvenly.InterleaveEvenly` | more_itertools/more.py:1119-1158 | which error is raised exactly when; otherwise the output itself: in every round the longest iterable yields, then by descending length each other of which one more item is due, where before round t an iterable of length d has yielded the least m with m * L >= t * d - L / n (L the longest length, n the number of iterables); so all are used up in order and always within one item of their even share |
| `InterleaveEvenly.OrderIsUnique` | more_itertools/more.py:1132-1137 | there is only one order by descending length, equal lengths by index, so the lengths alone determine the picks |
| `InterleaveEvenly.DueExactly` | more_itertools/more.py:1146-1158 | one more item is due in a round exactly if the reduced error is negative |
| `Signals.Signal.Connect` | blinker/base.py:92-158 | the link is added and the first connection decides how the receiver is held; if a listener raises, exactly what is dropped, and that this undoes the connection if and only if there was none before |
| `Signals.Signal.Disconnect` | blinker/base.py:307-336 | the link, or all links of the receiver, go |
| `Signals.Signal.DisconnectAll` | blinker/base.py:329-336 | discarding only if the receiver names some sender still removes every link |
| `Signals.Signal.ReceiverDies` | blinker/base.py:338-340 | a weakly held receiver loses all its links |
| `Signals.Signal.CleanupSender` | blinker/base.py:342-348 | all links to the sender go |
| `Signals.Signal.SenderDies` | blinker/base.py:127-136 | they go exactly for senders that can be weakly referenced |
| `Signals.Signal.HasReceiversFor` | blinker/base.py:269-283 | what it returns, and that False means no receiver hears the sender |
| `Signals.Signal.ReceiversFor` | blinker/base.py:285-305 | exactly the live receivers linked to the sender or to every sender, each once; the dead ones met are disconnected and nothing else |
| `Signals.AddMirrors` | blinker/base.py:122-124 | adding to one bucket adds exactly one link |
| `Signals.Deliver` | blinker/base.py:92-348 | after any mix of steps, delivery agrees with the plain relation obtained by replaying them; a receiver that only ever connects strongly needs nothing else to keep it alive, one that only ever connects weakly does |
| `Signals.ClaimsTooMuch` | blinker/base.py:269-283 | a sender whose last receiver left is still said to have receivers |
| `Signals.TakesBackTooMuch` | blinker/base.py:137-157 | a failed connection to every sender takes back a link to one sender that was there before |
| `Persistence.Always` | ospy/log.py:41-68 | the invariant holds after every interleaving of submits and worker steps |
| `Persistence.LatestIsNeverForgotten` | ospy/log.py:41-68 | the latest value of every key is pending, in the worker's hand, or written or lost |
| `Persistence.NoOlderAfterNewer` | ospy/log.py:41-68 | no value is written, or tried, after one of the same key that was submitted later |
| `Persistence.EmptyMeansWritten` | ospy/log.py:70-75 | when wait_empty returns True every attribute whose last write did not raise holds its last submitted value, and all do if none raised |
| `Persistence.LostIfRaised` | ospy/log.py:57-65 | a value is lost only if some write raised |
| `Persistence.ChangedIfWritten` | ospy/log.py:57-65 | an attribute changes only if some write returned |
| `Persistence.Drains` | ospy/log.py:48-68 | from every idle state the worker can empty the queue in three steps an item |
| `I2cGuard.Run` | ospy/i2c_guard.py:12-49 | in every reachable state at most one thread holds the bus, exactly while it is active, and each waiting counter is the number of waiters at its level |
| `I2cGuard.StepKeeps` | ospy/i2c_guard.py:26-49 | every step of every thread keeps one holder at most and the counters exact |
| `I2cGuard.MutualExclusion` | ospy/i2c_guard.py:26-49 | in every interleaving at most one thread is inside |
| `I2cGuard.EntersExactly` | ospy/i2c_guard.py:29-33 | a waiting thread that looks gets in if and only if nobody is inside and no waiting thread arrived with a priority above its own: 'high', then any other name, then 'low' |
| `I2cGuard.WaitsOrGivesUp` | ospy/i2c_guard.py:35-38 | one that does not get in gives up if and only if its time is over, and goes on waiting otherwise; no other thread moves |
| `I2cGuard.SomeoneMayEnter` | ospy/i2c_guard.py:29-33 | a free bus with waiters always has one that may enter |

## Left out

- RunLog.Log.StartRun: requires that the uid is not logged, as in every call of the scheduler; the starts from the web pages are covered as long as they bring new uids, and `clear_all_runs`, which drops the history on purpose, is not modelled.
- Packing.HeavyRunsDoNotOverlap: requires that nothing booked before was logged after its end, because such a booking counts negative in between.
- RunLog.Log.FinishRun: that the other active runs stay is stated while no run has been logged more than a minute after its end; what pruning then loses is stated by SurvivesExactly.
- Scheduler.Replay: that the water in use stays under the limit is stated without a program pause, because the pause moves runs after they were packed, and without starts from the web pages, which are not packed.
- Scheduler.CheckSchedule: station switching, heartbeats, reports and the master relay are not modelled.
- Scheduler.PredictedSchedule: the candidates, their order (three stable sorts) and the group postponements are inputs, each with its end not before its start.
- Packing.Pack: the usage bound is stated for the packing result, not after a positive program pause.
- Packing.ChosenIsEarliest: is stated for a station delay of zero, because the code tries only the instants at which the usage drops, each with its own delay; which of them it takes is stated for every delay.
- ProgramPause.ApplyTwice: that the records stay is stated if no occurrence is missed; otherwise a second pass may move them or not.
- JulianDay.ReturnedTime: exact numbers; floating-point rounding may make the code return a time one second short.
- GrayProduct.Generate: the iterables are finite lists; so are those of all other modules, and a generator is modelled by the list of what it yields.
- DistinctPermutations.Generate: items are integers, because the code only compares them; items that compare equal without being the same are not modelled.
- InterleaveEvenly.InterleaveEvenly: lengths are not negative, and iterables whose length cannot be asked for are not modelled.
- Sieve.IterIndex: only sequences, whose `index` method it uses; the path for general iterables is not modelled.
- Signals.Signal.Connect: a listener of the broadcast either returns or raises; one that connects or disconnects receivers itself is not modelled.
- ChunkedTransfer.ChunkedRFile.Read: reads from a stream that is wholly there; sockets, `readline` (it does not return at a newline), `readlines` and header parsing are not modelled.
- Signals.Signal.ReceiversFor: is drained at once; a consumer that connects or disconnects between two items is not modelled, nor is the reuse of an identity after an object that cannot be weakly referenced has died.
- Persistence.Always: steps on values instead of a thread object; the dictionary's choice of the next key is any key, and waiting, timeouts and notification are not modelled.
- I2cGuard.StepKeeps: steps on values instead of module globals; the settle time and the length of the waits are not modelled, and a lower priority may wait for ever.
- Floating-point rounding everywhere: usages, times and calendar formulas are exact.
- Web pages, REST handlers, authentication, plugins, sensors, weather, backups and GPIO: plumbing or one-branch checks.
- Trigonometric astronomy (`astral/sun.py`, `astral/moon.py`) and `julianday_modified`: no exact specification.
- The remaining recipes and wrappers of more_itertools, and random sampling: single expressions or probabilistic.
- Gateway length accounting, TLS, selectors and the thread pool of cheroot: I/O.
