/** The priority lock of ospy/i2c_guard.py, as atomic steps of any number of threads. */
module I2cGuard {

  type Tid = int

  /** 0 is the highest priority. */
  type Level = l: nat | l < 3

  datatype Thread = Waiting(level: Level) | Inside

  /** _I2C_ACTIVE, _I2C_WAITING, and where each thread that entered i2c_transaction is. */
  datatype State = State(active: bool, waiting: seq<nat>, threads: map<Tid, Thread>)

  /** A thread arrives; holding the condition it looks once more whether it may enter, and gives up if its time is over;
      it leaves. */
  datatype Action = Arrive(t: Tid, priority: string) | Look(t: Tid, expired: bool) | Leave(t: Tid)

  /** _I2C_PRIORITIES.get(priority, normal) */
  function LevelOf(priority: string): Level {
    if priority == "high" then 0 else if priority == "low" then 2 else 1
  }

  /** any(waiting[level] > 0 for level in range(priority_level)) */
  predicate HigherWaiting(waiting: seq<nat>, level: Level)
    requires |waiting| == 3
  {
    exists l :: 0 <= l < level && waiting[l] > 0
  }

  predicate MayEnter(s: State, level: Level)
    requires |s.waiting| == 3
  {
    !s.active && !HigherWaiting(s.waiting, level)
  }

  function Counted(waiting: seq<nat>, level: Level, change: int): seq<nat>
    requires |waiting| == 3 && waiting[level] + change >= 0
  {
    waiting[level := waiting[level] + change]
  }

  ghost function WaitingAt(threads: map<Tid, Thread>, level: Level): set<Tid> {
    set t | t in threads && threads[t] == Waiting(level)
  }

  ghost function Holders(threads: map<Tid, Thread>): set<Tid> {
    set t | t in threads && threads[t] == Inside
  }

  /** At most one holder, and exactly while the bus is active; each counter is the number of waiters of its level. */
  ghost predicate Inv(s: State) {
    && |s.waiting| == 3
    && (forall l: Level :: s.waiting[l] == |WaitingAt(s.threads, l)|)
    && |Holders(s.threads)| == if s.active then 1 else 0
  }

  /** The steps a thread can take where it is. */
  predicate Enabled(s: State, a: Action) {
    match a
    case Arrive(t, _) => t !in s.threads
    case Look(t, _) => t in s.threads && s.threads[t].Waiting?
    case Leave(t) => t in s.threads && s.threads[t].Inside?
  }

  function Next(s: State, a: Action): State
    requires |s.waiting| == 3
    requires a.Look? && Enabled(s, a) ==> s.waiting[s.threads[a.t].level] > 0
  {
    if !Enabled(s, a) then s
    else
      match a
      case Arrive(t, priority) =>
        var level := LevelOf(priority);
        State(s.active, Counted(s.waiting, level, 1), s.threads[t := Waiting(level)])
      case Look(t, expired) =>
        var level := s.threads[t].level;
        if MayEnter(s, level) then State(true, Counted(s.waiting, level, -1), s.threads[t := Inside])
        else if expired then State(s.active, Counted(s.waiting, level, -1), s.threads - {t})
        else s
      case Leave(t) => State(false, s.waiting, s.threads - {t})
  }

  lemma WaitersAreCounted(s: State, t: Tid)
    requires Inv(s) && t in s.threads && s.threads[t].Waiting?
    ensures s.waiting[s.threads[t].level] > 0
  {
    assert t in WaitingAt(s.threads, s.threads[t].level);
  }

  function One(b: bool): nat {
    if b then 1 else 0
  }

  lemma SameBut(a: set<Tid>, b: set<Tid>, t: Tid)
    requires forall x :: x != t ==> (x in a <==> x in b)
    ensures |b| == |a| - One(t in a) + One(t in b)
  {
    var rest := a - {t};
    assert forall x :: x in rest <==> x in b - {t};
    assert a == if t in a then rest + {t} else rest;
    assert b == if t in b then rest + {t} else rest;
  }

  ghost predicate Same(a: map<Tid, Thread>, b: map<Tid, Thread>, x: Tid) {
    (x in a <==> x in b) && (x in a ==> a[x] == b[x])
  }

  /** A thread goes to another place, or away. */
  lemma Moves(before: map<Tid, Thread>, t: Tid, after: map<Tid, Thread>, l: Level)
    requires forall x :: x != t ==> Same(before, after, x)
    ensures |WaitingAt(after, l)| ==
      |WaitingAt(before, l)| - One(t in WaitingAt(before, l)) + One(t in WaitingAt(after, l))
    ensures |Holders(after)| == |Holders(before)| - One(t in Holders(before)) + One(t in Holders(after))
  {
    forall x | x != t
      ensures (x in WaitingAt(before, l) <==> x in WaitingAt(after, l))
      ensures (x in Holders(before) <==> x in Holders(after))
    {
      assert Same(before, after, x);
    }
    SameBut(WaitingAt(before, l), WaitingAt(after, l), t);
    SameBut(Holders(before), Holders(after), t);
  }

  lemma StepKeeps(s: State, a: Action)
    requires Inv(s)
    ensures a.Look? && Enabled(s, a) ==> s.waiting[s.threads[a.t].level] > 0
    ensures Inv(Next(s, a))
  {
    if a.Look? && Enabled(s, a) {
      WaitersAreCounted(s, a.t);
    }
    forall l: Level {
      Moves(s.threads, a.t, Next(s, a).threads, l);
    }
    Moves(s.threads, a.t, Next(s, a).threads, 0);
  }

  /** The state after any interleaving of the threads' steps. */
  ghost function Run(actions: seq<Action>): (s: State)
    ensures Inv(s)
  {
    if actions == [] then Start()
    else
      var before := Run(actions[..|actions| - 1]);
      StepKeeps(before, actions[|actions| - 1]);
      Next(before, actions[|actions| - 1])
  }

  ghost function Start(): (s: State)
    ensures Inv(s)
  {
    var s := State(false, [0, 0, 0], map[]);
    assert Holders(s.threads) == {} && forall l: Level :: WaitingAt(s.threads, l) == {};
    s
  }

  /** In every interleaving at most one thread is inside. */
  lemma MutualExclusion(actions: seq<Action>, t: Tid, u: Tid)
    requires var threads := Run(actions).threads;
      t in threads && u in threads && threads[t].Inside? && threads[u].Inside?
    ensures t == u && Run(actions).active
  {
    var s := Run(actions);
    var both := {t, u};
    assert both <= Holders(s.threads);
    Subset(both, Holders(s.threads));
  }

  lemma {:induction false} Subset(a: set<Tid>, b: set<Tid>)
    requires a <= b
    ensures |a| <= |b|
  {
    var rest := b - a;
    assert b == a + rest;
  }

  /** The counters say whether some thread waits at a level. */
  lemma CounterPositive(s: State, l: Level)
    requires Inv(s)
    ensures s.waiting[l] > 0 <==> exists t :: t in s.threads && s.threads[t] == Waiting(l)
  {
    var w := WaitingAt(s.threads, l);
    assert (forall x :: x !in w) ==> w == {};
    if exists t :: t in s.threads && s.threads[t] == Waiting(l) {
      var t :| t in s.threads && s.threads[t] == Waiting(l);
      assert t in w;
    }
  }

  /** Whether a waiter of a higher priority is counted. */
  lemma HigherIsCounted(s: State, level: Level)
    requires Inv(s)
    ensures HigherWaiting(s.waiting, level) <==>
      exists u :: u in s.threads && s.threads[u].Waiting? && s.threads[u].level < level
  {
    if HigherWaiting(s.waiting, level) {
      var l: Level :| l < level && s.waiting[l] > 0;
      CounterPositive(s, l);
      var u :| u in s.threads && s.threads[u] == Waiting(l);
      assert s.threads[u].level < level;
    }
    if exists u :: u in s.threads && s.threads[u].Waiting? && s.threads[u].level < level {
      var u :| u in s.threads && s.threads[u].Waiting? && s.threads[u].level < level;
      WaitersAreCounted(s, u);
    }
  }

  lemma RunThen(actions: seq<Action>, a: Action)
    requires a.Look? && Enabled(Run(actions), a) ==> Run(actions).waiting[Run(actions).threads[a.t].level] > 0
    ensures Run(actions + [a]) == Next(Run(actions), a)
  {
    assert (actions + [a])[..|actions|] == actions;
  }

  lemma LookEnters(s: State, t: Tid, expired: bool)
    requires Inv(s) && Enabled(s, Look(t, expired)) && s.waiting[s.threads[t].level] > 0
    ensures var after := Next(s, Look(t, expired)).threads;
      t in after && after[t] == Inside <==> MayEnter(s, s.threads[t].level)
  {
  }

  /** The priority under which the thread arrived. */
  ghost function PriorityOf(actions: seq<Action>, t: Tid): string {
    if actions == [] then ""
    else
      var before, a := actions[..|actions| - 1], actions[|actions| - 1];
      if a.Arrive? && a.t == t && t !in Run(before).threads then a.priority else PriorityOf(before, t)
  }

  /** 'high' goes before every other priority, and every other priority before 'low'. */
  ghost predicate Outranks(a: string, b: string) {
    (a == "high" && b != "high") || (a != "low" && b == "low")
  }

  lemma {:induction false} LevelOfWaiter(actions: seq<Action>, t: Tid)
    requires t in Run(actions).threads && Run(actions).threads[t].Waiting?
    ensures Run(actions).threads[t] == Waiting(LevelOf(PriorityOf(actions, t)))
  {
    var before, a := actions[..|actions| - 1], actions[|actions| - 1];
    StepKeeps(Run(before), a);
    if a.Arrive? && a.t == t && t !in Run(before).threads {
      assert Run(actions) == Next(Run(before), a);
    } else {
      LevelOfWaiter(before, t);
    }
  }

  lemma LowerLevelOutranks(a: string, b: string)
    ensures LevelOf(a) < LevelOf(b) <==> Outranks(a, b)
  {
  }

  /** A waiting thread that looks gets in exactly if nobody is inside and no waiting thread outranks it. */
  lemma EntersExactly(actions: seq<Action>, t: Tid, expired: bool)
    requires Enabled(Run(actions), Look(t, expired))
    ensures var s := Run(actions);
      var after := Run(actions + [Look(t, expired)]);
      (t in after.threads && after.threads[t] == Inside) <==>
        && (forall u :: u in s.threads ==> !s.threads[u].Inside?)
        && (forall u :: u in s.threads && s.threads[u].Waiting? ==>
          !Outranks(PriorityOf(actions, u), PriorityOf(actions, t)))
  {
    var s := Run(actions);
    EntersByLevel(actions, t, expired);
    LevelOfWaiter(actions, t);
    forall u | u in s.threads && s.threads[u].Waiting?
      ensures s.threads[u].level >= s.threads[t].level <==> !Outranks(PriorityOf(actions, u), PriorityOf(actions, t))
    {
      LevelOfWaiter(actions, u);
      LowerLevelOutranks(PriorityOf(actions, u), PriorityOf(actions, t));
    }
  }

  /** One that does not get in goes on waiting, or gives up if and only if its time is over; the others stay where they
      are. */
  lemma WaitsOrGivesUp(actions: seq<Action>, t: Tid, expired: bool)
    requires Enabled(Run(actions), Look(t, expired))
    ensures var before, after := Run(actions).threads, Run(actions + [Look(t, expired)]).threads;
      && ((t in after && after[t] == Inside) || (if expired then t !in after else after == before))
      && forall u :: u != t ==> Same(before, after, u)
  {
    WaitersAreCounted(Run(actions), t);
    RunThen(actions, Look(t, expired));
  }

  lemma EntersByLevel(actions: seq<Action>, t: Tid, expired: bool)
    requires Enabled(Run(actions), Look(t, expired))
    ensures var s := Run(actions);
      var after := Run(actions + [Look(t, expired)]);
      (t in after.threads && after.threads[t] == Inside) <==>
        && (forall u :: u in s.threads ==> !s.threads[u].Inside?)
        && (forall u :: u in s.threads && s.threads[u].Waiting? ==> s.threads[u].level >= s.threads[t].level)
  {
    var s := Run(actions);
    WaitersAreCounted(s, t);
    RunThen(actions, Look(t, expired));
    LookEnters(s, t, expired);
    ActiveMeansInside(s);
    HigherIsCounted(s, s.threads[t].level);
  }

  lemma ActiveMeansInside(s: State)
    requires Inv(s)
    ensures s.active <==> exists u :: u in s.threads && s.threads[u].Inside?
  {
    var h := Holders(s.threads);
    assert (forall x :: x !in h) ==> h == {};
    if exists u :: u in s.threads && s.threads[u].Inside? {
      var u :| u in s.threads && s.threads[u].Inside?;
      assert u in h;
    }
  }

  /** A free bus with waiters always lets one in: a waiter of the highest level that has any. */
  lemma SomeoneMayEnter(actions: seq<Action>) returns (t: Tid)
    requires var s := Run(actions);
      !s.active && exists u :: u in s.threads && s.threads[u].Waiting?
    ensures var s := Run(actions);
      Enabled(s, Look(t, false)) && MayEnter(s, s.threads[t].level)
  {
    var s := Run(actions);
    var u :| u in s.threads && s.threads[u].Waiting?;
    WaitersAreCounted(s, u);
    var l: Level := if s.waiting[0] > 0 then 0 else if s.waiting[1] > 0 then 1 else 2;
    CounterPositive(s, l);
    t :| t in s.threads && s.threads[t] == Waiting(l);
  }
}
