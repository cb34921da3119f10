/** The background writer of ospy/log.py, as atomic steps of any number of submitting threads and the one worker. */
module Persistence {

  import opened Results

  /** (id(target), attribute) */
  type Key = (int, string)
  type Value = int

  /** A submitted value; the stamp is its place in the history, and only the proofs look at it. */
  datatype Item = Item(value: Value, stamp: nat)

  /** What happened: a value was submitted, or the value submitted at that place was written, or writing it raised. */
  datatype Event = Submitted(key: Key, value: Value) | Written(key: Key, stamp: nat) | Lost(key: Key, stamp: nat)

  /** Where the worker is: waiting; between taking an item and setattr; between setattr and giving up _active. */
  datatype Phase = Idle | Holding(key: Key, item: Item) | Releasing

  datatype State = State(pending: map<Key, Item>, phase: Phase, attributes: map<Key, Value>, log: seq<Event>)

  datatype Action = Submit(key: Key, value: Value) | Take(key: Key) | Write(succeeds: bool) | Release

  function Initial(attributes: map<Key, Value>): State {
    State(map[], Idle, attributes, [])
  }

  /** One atomic step; a step that is not enabled leaves everything as it is. popitem may take any key. */
  function Next(s: State, a: Action): State {
    match a
    case Submit(k, v) => s.(pending := s.pending[k := Item(v, |s.log|)], log := s.log + [Submitted(k, v)])
    case Take(k) =>
      if s.phase.Idle? && k in s.pending then s.(pending := s.pending - {k}, phase := Holding(k, s.pending[k])) else s
    case Write(succeeds) =>
      if !s.phase.Holding? then s
      else
        var (k, item) := (s.phase.key, s.phase.item);
        if succeeds then
          s.(attributes := s.attributes[k := item.value], phase := Releasing, log := s.log + [Written(k, item.stamp)])
        else s.(phase := Releasing, log := s.log + [Lost(k, item.stamp)])
    case Release => if s.phase.Releasing? then s.(phase := Idle) else s
  }

  /** Any interleaving of the threads' steps. */
  function Run(attributes: map<Key, Value>, actions: seq<Action>): State {
    if actions == [] then Initial(attributes)
    else Next(Run(attributes, actions[..|actions| - 1]), actions[|actions| - 1])
  }

  /** The last submission of a key. */
  ghost function LastSubmitted(log: seq<Event>, k: Key): Option<nat> {
    if log == [] then None
    else
      var n := |log| - 1;
      if log[n].Submitted? && log[n].key == k then Some(n) else LastSubmitted(log[..n], k)
  }

  /** The submission of a key that was last written or lost. */
  ghost function LastSettled(log: seq<Event>, k: Key): Option<nat> {
    if log == [] then None
    else
      var n := |log| - 1;
      if !log[n].Submitted? && log[n].key == k then Some(log[n].stamp) else LastSettled(log[..n], k)
  }

  /** The submission of a key that was last written. */
  ghost function LastWritten(log: seq<Event>, k: Key): Option<nat> {
    if log == [] then None
    else
      var n := |log| - 1;
      if log[n].Written? && log[n].key == k then Some(log[n].stamp) else LastWritten(log[..n], k)
  }

  ghost predicate Precedes(a: Option<nat>, n: nat) {
    a.Some? ==> a.value < n
  }

  /** Every write carries what was submitted then, and comes after the writes of older submissions only. */
  ghost predicate Ordered(log: seq<Event>) {
    log == [] ||
    var n := |log| - 1;
    && Ordered(log[..n])
    && (!log[n].Submitted? ==> IsSubmission(log[..n], log[n].key, log[n].stamp))
    && (!log[n].Submitted? ==> Precedes(LastSettled(log[..n], log[n].key), log[n].stamp))
  }

  ghost predicate IsSubmission(log: seq<Event>, k: Key, n: nat) {
    n < |log| && log[n].Submitted? && log[n].key == k
  }

  ghost predicate Carries(log: seq<Event>, k: Key, item: Item) {
    IsSubmission(log, k, item.stamp) && log[item.stamp].value == item.value && Precedes(LastSettled(log, k), item.stamp)
  }

  /** The latest value of a key is pending, or in the worker's hand, or settled. */
  ghost predicate LatestIsSomewhere(s: State, k: Key) {
    var latest := LastSubmitted(s.log, k);
    latest.Some? ==>
      if k in s.pending then s.pending[k].stamp == latest.value
      else if s.phase.Holding? && s.phase.key == k then s.phase.item.stamp == latest.value
      else LastSettled(s.log, k) == latest
  }

  ghost predicate AttributeIsLastWritten(s: State, k: Key) {
    var w := LastWritten(s.log, k);
    w.Some? ==> k in s.attributes && IsSubmission(s.log, k, w.value) && s.attributes[k] == s.log[w.value].value
  }

  ghost predicate Inv(s: State) {
    && Ordered(s.log)
    && (forall k :: k in s.pending ==> Carries(s.log, k, s.pending[k]))
    && (s.phase.Holding? ==> Carries(s.log, s.phase.key, s.phase.item))
    && (s.phase.Holding? && s.phase.key in s.pending ==> s.phase.item.stamp < s.pending[s.phase.key].stamp)
    && (forall k :: LatestIsSomewhere(s, k))
    && (forall k :: AttributeIsLastWritten(s, k))
  }

  lemma SubmitKeeps(s: State, k: Key, v: Value)
    requires Inv(s)
    ensures Inv(Next(s, Submit(k, v)))
  {
    var t := Next(s, Submit(k, v));
    SettledIsSmall(s.log, k);
    forall x
      ensures LatestIsSomewhere(t, x) && AttributeIsLastWritten(t, x)
      ensures x in t.pending ==> Carries(t.log, x, t.pending[x])
    {
      assert LatestIsSomewhere(s, x) && AttributeIsLastWritten(s, x);
    }
  }

  lemma {:induction false} SettledIsSmall(log: seq<Event>, k: Key)
    requires Ordered(log)
    ensures Precedes(LastSettled(log, k), |log|)
  {
    if log != [] { SettledIsSmall(log[..|log| - 1], k); }
  }

  lemma TakeKeeps(s: State, k: Key)
    requires Inv(s)
    ensures Inv(Next(s, Take(k)))
  {
    var t := Next(s, Take(k));
    forall x ensures LatestIsSomewhere(t, x) && AttributeIsLastWritten(t, x) {
      assert LatestIsSomewhere(s, x) && AttributeIsLastWritten(s, x);
    }
  }

  lemma WriteKeeps(s: State, succeeds: bool)
    requires Inv(s)
    ensures Inv(Next(s, Write(succeeds)))
  {
    if s.phase.Holding? {
      var (k, item) := (s.phase.key, s.phase.item);
      var e := if succeeds then Written(k, item.stamp) else Lost(k, item.stamp);
      var t := Next(s, Write(succeeds));
      forall x
        ensures LatestIsSomewhere(t, x) && AttributeIsLastWritten(t, x)
        ensures x in t.pending ==> Carries(t.log, x, t.pending[x])
      {
        assert LatestIsSomewhere(s, x) && AttributeIsLastWritten(s, x);
      }
    }
  }

  lemma ReleaseKeeps(s: State)
    requires Inv(s)
    ensures Inv(Next(s, Release))
  {
    var t := Next(s, Release);
    forall x ensures LatestIsSomewhere(t, x) && AttributeIsLastWritten(t, x) {
      assert LatestIsSomewhere(s, x) && AttributeIsLastWritten(s, x);
    }
  }

  /** The invariant holds after every interleaving. */
  lemma {:induction false} Always(attributes: map<Key, Value>, actions: seq<Action>)
    ensures Inv(Run(attributes, actions))
  {
    if actions != [] {
      var before := actions[..|actions| - 1];
      Always(attributes, before);
      match actions[|actions| - 1]
      case Submit(k, v) => SubmitKeeps(Run(attributes, before), k, v);
      case Take(k) => TakeKeeps(Run(attributes, before), k);
      case Write(succeeds) => WriteKeeps(Run(attributes, before), succeeds);
      case Release => ReleaseKeeps(Run(attributes, before));
    }
  }

  // ---- what it means ----

  lemma {:induction false} SettledSince(log: seq<Event>, i: nat)
    requires Ordered(log) && i < |log| && !log[i].Submitted?
    ensures LastSettled(log, log[i].key).Some? && log[i].stamp <= LastSettled(log, log[i].key).value
  {
    if i < |log| - 1 { SettledSince(log[..|log| - 1], i); }
  }

  lemma {:induction false} OrderedPrefix(log: seq<Event>, n: nat)
    requires Ordered(log) && n <= |log|
    ensures Ordered(log[..n])
  {
    if n < |log| {
      OrderedPrefix(log[..|log| - 1], n);
      assert log[..|log| - 1][..n] == log[..n];
    } else {
      assert log[..n] == log;
    }
  }

  /** In every interleaving each write carries a value submitted before it, and no value is written, or tried, after a
      value of the same key that was submitted later. */
  lemma NoOlderAfterNewer(attributes: map<Key, Value>, actions: seq<Action>, i: nat, j: nat)
    requires var log := Run(attributes, actions).log;
      i < j < |log| && !log[i].Submitted? && !log[j].Submitted? && log[i].key == log[j].key
    ensures var log := Run(attributes, actions).log;
      log[i].stamp < log[j].stamp < j && IsSubmission(log, log[j].key, log[j].stamp)
  {
    var log := Run(attributes, actions).log;
    Always(attributes, actions);
    OrderedPrefix(log, j + 1);
    assert log[..j + 1][..j] == log[..j];
    OrderedPrefix(log, j);
    SettledSince(log[..j], i);
  }

  /** In every interleaving the latest value of a key is pending, in the worker's hand, or written or lost. */
  lemma LatestIsNeverForgotten(attributes: map<Key, Value>, actions: seq<Action>, k: Key)
    ensures LatestIsSomewhere(Run(attributes, actions), k)
  {
    Always(attributes, actions);
  }

  /** What wait_empty returns when it stops waiting. */
  predicate Empty(s: State) {
    s.pending == map[] && s.phase.Idle?
  }

  lemma {:induction false} SettledNotLost(log: seq<Event>, k: Key, n: nat)
    requires LastSettled(log, k) == Some(n)
    ensures Lost(k, n) in log || LastWritten(log, k) == Some(n)
  {
    var m := |log| - 1;
    if log[m].key != k || log[m].Submitted? {
      SettledNotLost(log[..m], k, n);
    } else if log[m].Lost? {
      assert log[m] == Lost(k, n);
    }
  }

  /** A value is lost only if some setattr raised. */
  lemma {:induction false} LostIfRaised(attributes: map<Key, Value>, actions: seq<Action>, k: Key, n: nat)
    requires Lost(k, n) in Run(attributes, actions).log
    ensures Write(false) in actions
  {
    if actions != [] {
      var before, a := actions[..|actions| - 1], actions[|actions| - 1];
      assert actions == before + [a];
      if Lost(k, n) in Run(attributes, before).log {
        LostIfRaised(attributes, before, k, n);
      }
    }
  }

  /** An attribute changes only if some setattr returned. */
  lemma {:induction false} ChangedIfWritten(attributes: map<Key, Value>, actions: seq<Action>)
    requires Run(attributes, actions).attributes != attributes
    ensures Write(true) in actions
  {
    if actions != [] {
      var before, a := actions[..|actions| - 1], actions[|actions| - 1];
      assert actions == before + [a];
      if Run(attributes, before).attributes != attributes {
        ChangedIfWritten(attributes, before);
      }
    }
  }

  /** When wait_empty returns True, every attribute whose last setattr did not raise holds its last submitted value. */
  lemma EmptyMeansWritten(attributes: map<Key, Value>, actions: seq<Action>, k: Key)
    requires var s := Run(attributes, actions); Empty(s) && LastSubmitted(s.log, k).Some?
    ensures var s := Run(attributes, actions); var n := LastSubmitted(s.log, k).value;
      n < |s.log| && (Lost(k, n) in s.log || (k in s.attributes && s.log[n] == Submitted(k, s.attributes[k])))
    ensures var s := Run(attributes, actions); var n := LastSubmitted(s.log, k).value;
      Write(false) !in actions ==> n < |s.log| && k in s.attributes && s.log[n] == Submitted(k, s.attributes[k])
  {
    var s := Run(attributes, actions);
    Always(attributes, actions);
    assert LatestIsSomewhere(s, k) && AttributeIsLastWritten(s, k);
    var n := LastSubmitted(s.log, k).value;
    SubmittedThere(s.log, k);
    SettledNotLost(s.log, k, n);
    if Lost(k, n) in s.log {
      LostIfRaised(attributes, actions, k, n);
    }
  }

  lemma {:induction false} SubmittedThere(log: seq<Event>, k: Key)
    ensures var n := LastSubmitted(log, k);
      n.Some? ==> IsSubmission(log, k, n.value) && forall i :: n.value < i < |log| && log[i].Submitted? ==>
        log[i].key != k
  {
    if log != [] {
      SubmittedThere(log[..|log| - 1], k);
    }
  }

  /** With nothing more submitted the worker empties the queue: each pending item takes it three steps. */
  lemma {:induction false} Drains(s: State) returns (rest: seq<Action>)
    requires s.phase.Idle?
    ensures Empty(Continue(s, rest)) && |rest| == 3 * |s.pending|
    decreases |s.pending|
  {
    if s.pending == map[] {
      rest := [];
    } else {
      assert (forall x :: x !in s.pending.Keys) ==> s.pending.Keys == {};
      var k :| k in s.pending;
      var t := Next(Next(Next(s, Take(k)), Write(true)), Release);
      assert t.pending.Keys == s.pending.Keys - {k};
      assert |t.pending| == |t.pending.Keys| && |s.pending| == |s.pending.Keys|;
      rest := Drains(t);
      ThreeMore(s, Take(k), Write(true), Release, rest);
      rest := [Take(k), Write(true), Release] + rest;
    }
  }

  function Continue(s: State, actions: seq<Action>): State
    decreases |actions|
  {
    if actions == [] then s else Continue(Next(s, actions[0]), actions[1..])
  }

  lemma ThreeMore(s: State, a: Action, b: Action, c: Action, rest: seq<Action>)
    ensures Continue(s, [a, b, c] + rest) == Continue(Next(Next(Next(s, a), b), c), rest)
  {
    var all := [a, b, c] + rest;
    assert all[1..] == [b, c] + rest && all[1..][1..] == [c] + rest && all[1..][1..][1..] == rest;
    assert Continue(s, all) == Continue(Next(s, a), all[1..]);
    assert Continue(Next(s, a), all[1..]) == Continue(Next(Next(s, a), b), all[1..][1..]);
  }
}
