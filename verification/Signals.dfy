/** The signal registry of blinker/base.py: three maps that together stand for a plain relation between receivers and
    senders. Objects are known by their identities.

    The buckets of the senders are the relation. The map by receiver is only an upper bound of it: disconnecting a
    receiver from one sender leaves that sender in the receiver's set, and _disconnect relies on no more. */
module Signals {

  import opened Lists
  import opened Results

  type Id = int

  /** Stands for every sender; no object has this identity. */
  const ANY_ID: Id := 0

  /** How the registry holds a receiver. */
  datatype Ref = Strong | Weak

  /** A receiver and the sender it listens to. */
  type Link = (Id, Id)

  function SenderId(sender: Option<Id>): Id {
    if sender.None? then ANY_ID else sender.value
  }

  /** defaultdict(set): the set stored for the key. */
  function Bucket(m: map<Id, set<Id>>, key: Id): set<Id> {
    if key in m then m[key] else {}
  }

  /** setdefault: the first connection decides how a receiver is held. */
  function Held(receivers: map<Id, Ref>, receiver: Id, weak: bool): map<Id, Ref> {
    receivers[receiver := if receiver in receivers then receivers[receiver] else if weak then Weak else Strong]
  }

  /** The links of a receiver. */
  ghost function LinksOf(relation: set<Link>, receiver: Id): set<Link> {
    set l | l in relation && l.0 == receiver
  }

  /** What disconnecting a receiver from a sender, or from all, takes away. */
  ghost function Dropped(relation: set<Link>, receiver: Id, sender: Option<Id>): set<Link> {
    if sender.None? then LinksOf(relation, receiver) else {(receiver, sender.value)}
  }

  /** The links to a sender. */
  ghost function LinksTo(relation: set<Link>, sender: Id): set<Link> {
    set l | l in relation && l.1 == sender
  }

  ghost predicate Mirrors(bySender: map<Id, set<Id>>, relation: set<Link>) {
    forall r, s :: (r, s) in relation <==> r in Bucket(bySender, s)
  }

  ghost predicate Backs(byReceiver: map<Id, set<Id>>, receivers: map<Id, Ref>, relation: set<Link>) {
    forall l :: l in relation ==> l.1 in Bucket(byReceiver, l.0) && l.0 in receivers
  }

  /** The sender is taken out of the sets of these receivers. */
  ghost predicate Discarded(before: map<Id, set<Id>>, after: map<Id, set<Id>>, sender: Id, bucket: set<Id>) {
    forall r :: Bucket(after, r) == Bucket(before, r) - if r in bucket then {sender} else {}
  }

  lemma AddMirrors(bySender: map<Id, set<Id>>, relation: set<Link>, receiver: Id, sender: Id)
    requires Mirrors(bySender, relation)
    ensures Mirrors(bySender[sender := Bucket(bySender, sender) + {receiver}], relation + {(receiver, sender)})
  {
    var after := bySender[sender := Bucket(bySender, sender) + {receiver}];
    forall r, s ensures (r, s) in relation + {(receiver, sender)} <==> r in Bucket(after, s) {
      assert (r, s) in relation <==> r in Bucket(bySender, s);
    }
  }

  lemma AddBacks(byReceiver: map<Id, set<Id>>, receivers: map<Id, Ref>, relation: set<Link>, receiver: Id, sender: Id)
    requires Backs(byReceiver, receivers, relation) && receiver in receivers
    ensures Backs(byReceiver[receiver := Bucket(byReceiver, receiver) + {sender}], receivers,
                  relation + {(receiver, sender)})
  {
  }

  class Signal {
    var receivers: map<Id, Ref>
    var byReceiver: map<Id, set<Id>>
    var bySender: map<Id, set<Id>>
    var weakSenders: set<Id>
    /** Which senders can be referenced weakly. */
    const weakrefable: Id -> bool
    /** What connect and disconnect said, and what death took away. */
    ghost var relation: set<Link>

    /** The buckets of the senders are the relation; byReceiver may also hold senders that are no longer linked. */
    ghost predicate Valid()
      reads this
    {
      && Mirrors(bySender, relation)
      && Backs(byReceiver, receivers, relation)
      && (forall l :: l in relation && l.1 != ANY_ID && weakrefable(l.1) ==> l.1 in weakSenders)
      && (forall s :: s in weakSenders ==> s != ANY_ID && weakrefable(s))
    }

    /** The receiver hears this sender. */
    ghost predicate Hears(r: Id, sender: Option<Id>)
      reads this
    {
      (r, SenderId(sender)) in relation || (r, ANY_ID) in relation
    }

    /** The receiver is there to be called: held strongly, or not dead yet. */
    predicate Live(r: Id, alive: set<Id>)
      reads this
    {
      r in receivers && (receivers[r].Strong? || r in alive)
    }

    constructor (weakrefable: Id -> bool)
      ensures Valid() && relation == {} && receivers == map[] && this.weakrefable == weakrefable
    {
      this.weakrefable := weakrefable;
      receivers, byReceiver, bySender, weakSenders, relation := map[], map[], map[], {}, {};
    }

    /** The buckets of connect: how the receiver is held is decided the first time. */
    method AddBuckets(receiver: Id, senderId: Id, weak: bool)
      requires Mirrors(bySender, relation) && Backs(byReceiver, receivers, relation)
      modifies this`receivers, this`bySender, this`byReceiver
      ensures receivers == Held(old(receivers), receiver, weak)
      ensures Mirrors(bySender, relation + {(receiver, senderId)})
      ensures Backs(byReceiver, receivers, relation + {(receiver, senderId)})
    {
      if receiver !in receivers {
        receivers := receivers[receiver := if weak then Weak else Strong];
      }
      AddMirrors(bySender, relation, receiver, senderId);
      AddBacks(byReceiver, receivers, relation, receiver, senderId);
      bySender := bySender[senderId := Bucket(bySender, senderId) + {receiver}];
      byReceiver := byReceiver[receiver := Bucket(byReceiver, receiver) + {senderId}];
    }

    /** The bookkeeping of connect. */
    method AddLink(receiver: Id, senderId: Id, weak: bool)
      requires Valid()
      modifies this
      ensures Valid() && relation == old(relation) + {(receiver, senderId)}
      ensures receivers == Held(old(receivers), receiver, weak)
    {
      AddBuckets(receiver, senderId, weak);
      if senderId != ANY_ID && senderId !in weakSenders && weakrefable(senderId) {
        weakSenders := weakSenders + {senderId};
      }
      relation := relation + {(receiver, senderId)};
    }

    /** connect. Some listener to the connection may raise; then the receiver is disconnected again. That takes back
        exactly this connection only if there was none before: of the receiver at all, if it was for any sender. */
    method Connect(receiver: Id, sender: Option<Id>, weak: bool, listenerRaises: bool) returns (connected: bool)
      requires Valid() && sender != Some(ANY_ID)
      modifies this
      ensures Valid() && connected == !listenerRaises
      ensures connected ==> relation == old(relation) + {(receiver, SenderId(sender))}
      ensures receivers == var held := Held(old(receivers), receiver, weak);
        if !connected && sender.None? then held - {receiver} else held
      ensures !connected ==> relation == old(relation) - Dropped(old(relation), receiver, sender)
      ensures !connected ==> (relation == old(relation) <==> Dropped(old(relation), receiver, sender) !! old(relation))
    {
      AddLink(receiver, SenderId(sender), weak);
      connected := !listenerRaises;
      if listenerRaises {
        Disconnect(receiver, sender);
      }
    }

    /** disconnect */
    method Disconnect(receiver: Id, sender: Option<Id>)
      requires Valid() && sender != Some(ANY_ID)
      modifies this
      ensures Valid()
      ensures relation == old(relation) - Dropped(old(relation), receiver, sender)
      ensures receivers == if sender.None? then old(receivers) - {receiver} else old(receivers)
      ensures sender.Some? ==> sender.value in bySender
    {
      if sender.None? {
        DisconnectAll(receiver);
      } else {
        bySender := bySender[sender.value := Bucket(bySender, sender.value) - {receiver}];
        relation := relation - {(receiver, sender.value)};
      }
    }

    /** _disconnect of a receiver from everything. The buckets are searched only if byReceiver names some sender. */
    method DisconnectAll(receiver: Id)
      requires Valid()
      modifies this
      ensures Valid()
      ensures relation == old(relation) - LinksOf(old(relation), receiver)
      ensures receivers == old(receivers) - {receiver} && weakSenders == old(weakSenders)
      ensures byReceiver == old(byReceiver) - {receiver}
    {
      var senders := Bucket(byReceiver, receiver);
      byReceiver := byReceiver - {receiver};
      if senders != {} {
        DiscardEverywhere(receiver);
      }
      receivers := receivers - {receiver};
      relation := relation - LinksOf(relation, receiver);
    }

    /** for bucket in by_sender.values(): bucket.discard(receiver) */
    method DiscardEverywhere(receiver: Id)
      modifies this`bySender
      ensures bySender.Keys == old(bySender).Keys
      ensures forall s :: Bucket(bySender, s) == Bucket(old(bySender), s) - {receiver}
    {
      ghost var before := bySender;
      var todo := bySender.Keys;
      while todo != {}
        invariant todo <= bySender.Keys == before.Keys
        invariant forall s :: s in before ==> bySender[s] == if s in todo then before[s] else before[s] - {receiver}
      {
        assert (forall x :: x !in todo) ==> todo == {};
        var s :| s in todo;
        bySender := bySender[s := bySender[s] - {receiver}];
        todo := todo - {s};
      }
    }

    /** A receiver dies. Its weak reference, if the registry kept one, calls back; a strongly held one cannot die. */
    method ReceiverDies(receiver: Id)
      requires Valid() && !(receiver in receivers && receivers[receiver].Strong?)
      modifies this
      ensures Valid() && relation == old(relation) - LinksOf(old(relation), receiver)
      ensures receivers == old(receivers) - {receiver}
    {
      if receiver in receivers {
        DisconnectAll(receiver);
      }
    }

    /** A sender dies; its weak reference, if there is one, calls back. */
    method SenderDies(sender: Id)
      requires Valid() && sender != ANY_ID
      modifies this
      ensures Valid() && receivers == old(receivers)
      ensures relation == old(relation) - if weakrefable(sender) then LinksTo(old(relation), sender) else {}
    {
      if sender in weakSenders {
        CleanupSender(sender);
      }
    }

    /** _cleanup_sender */
    method CleanupSender(sender: Id)
      requires Valid() && sender != ANY_ID
      modifies this
      ensures Valid() && receivers == old(receivers)
      ensures relation == old(relation) - LinksTo(old(relation), sender)
      ensures weakSenders == old(weakSenders) - {sender} && bySender == old(bySender) - {sender}
      ensures Discarded(old(byReceiver), byReceiver, sender, Bucket(old(bySender), sender))
    {
      weakSenders := weakSenders - {sender};
      var bucket := Bucket(bySender, sender);
      DiscardSender(sender, bucket);
      bySender := bySender - {sender};
      relation := relation - LinksTo(relation, sender);
    }

    /** for receiver in bucket: by_receiver[receiver].discard(sender) */
    method DiscardSender(sender: Id, bucket: set<Id>)
      modifies this`byReceiver
      ensures Discarded(old(byReceiver), byReceiver, sender, bucket)
    {
      ghost var before := byReceiver;
      var todo := bucket;
      while todo != {}
        invariant todo <= bucket
        invariant forall r :: Bucket(byReceiver, r) == Bucket(before, r) - if r in bucket - todo then {sender} else {}
      {
        assert (forall x :: x !in todo) ==> todo == {};
        var r :| r in todo;
        byReceiver := byReceiver[r := Bucket(byReceiver, r) - {sender}];
        todo := todo - {r};
      }
    }

    /** has_receivers_for: only an optimistic check, but its False is certain. */
    method HasReceiversFor(sender: Option<Id>) returns (found: bool)
      requires Valid() && sender != Some(ANY_ID)
      modifies this`bySender
      ensures Valid()
      ensures !found ==> forall r :: !Hears(r, sender)
      ensures found <==>
        receivers != map[] && (Bucket(old(bySender), ANY_ID) != {} || (sender.Some? && sender.value in old(bySender)))
    {
      if receivers == map[] {
        return false;
      }
      bySender := bySender[ANY_ID := Bucket(bySender, ANY_ID)];
      if bySender[ANY_ID] != {} {
        return true;
      }
      return sender.Some? && sender.value in bySender;
    }

    /** The identities receivers_for goes through. */
    method Candidates(sender: Option<Id>) returns (ids: set<Id>)
      requires Valid() && sender != Some(ANY_ID)
      modifies this`bySender
      ensures Valid() && forall r :: r in ids <==> Hears(r, sender)
    {
      bySender := bySender[ANY_ID := Bucket(bySender, ANY_ID)];
      ids := bySender[ANY_ID];
      if sender.Some? && sender.value in bySender {
        ids := ids + bySender[sender.value];
      }
    }

    /** receivers_for, all that it yields: exactly the live receivers that hear the sender, each once. The dead ones it
        meets are disconnected, and nothing else. */
    method ReceiversFor(sender: Option<Id>, alive: set<Id>) returns (out: seq<Id>)
      requires Valid() && sender != Some(ANY_ID)
      modifies this
      ensures Valid() && Distinct(out)
      ensures forall r :: r in out <==> old(Hears(r, sender)) && old(Live(r, alive))
      ensures forall l :: l in relation <==> l in old(relation) && (old(Hears(l.0, sender)) ==> old(Live(l.0, alive)))
    {
      out := [];
      if receivers == map[] {
        return;
      }
      var ids := Candidates(sender);
      ghost var before, known := relation, receivers;
      var todo := ids;
      while todo != {}
        invariant Valid() && todo <= ids && Distinct(out)
        invariant forall r :: r in todo ==> r in receivers && receivers[r] == known[r]
        invariant forall r :: r in out <==> r in ids - todo && old(Live(r, alive))
        invariant forall l :: l in relation <==> l in before && (l.0 in ids - todo ==> old(Live(l.0, alive)))
      {
        assert (forall x :: x !in todo) ==> todo == {};
        var r :| r in todo;
        todo := todo - {r};
        var live := Meet(r, alive);
        if live {
          out := out + [r];
        }
      }
    }

    /** One receiver in the loop of receivers_for: a dead one is disconnected. */
    method Meet(r: Id, alive: set<Id>) returns (live: bool)
      requires Valid()
      modifies this
      ensures Valid() && live == old(Live(r, alive))
      ensures live || r !in old(receivers) ==> relation == old(relation) && receivers == old(receivers)
      ensures !live && r in old(receivers) ==>
        relation == old(relation) - LinksOf(old(relation), r) && receivers == old(receivers) - {r}
    {
      live := r in receivers;
      if live && receivers[r].Weak? && r !in alive {
        DisconnectAll(r);
        live := false;
      }
    }
  }

  // ---- whole runs ----

  datatype Step =
    | Connects(receiver: Id, sender: Option<Id>, weak: bool, listenerRaises: bool)
    | Disconnects(receiver: Id, sender: Option<Id>)
    | ReceiverDeath(receiver: Id)
    | SenderDeath(who: Id)

  /** No object has the identity that stands for every sender. */
  ghost predicate Possible(step: Step) {
    match step
    case Connects(_, sender, _, _) => sender != Some(ANY_ID)
    case Disconnects(_, sender) => sender != Some(ANY_ID)
    case ReceiverDeath(_) => true
    case SenderDeath(who) => who != ANY_ID
  }

  /** The plain registry: who listens to whom, and how each receiver is held. */
  datatype Plain = Plain(relation: set<Link>, held: map<Id, Ref>)

  ghost function Drop(p: Plain, receiver: Id, sender: Option<Id>): Plain {
    Plain(p.relation - Dropped(p.relation, receiver, sender), if sender.None? then p.held - {receiver} else p.held)
  }

  ghost function Apply(p: Plain, step: Step, weakrefable: Id -> bool): Plain {
    match step
    case Connects(receiver, sender, weak, listenerRaises) =>
      var linked := Plain(p.relation + {(receiver, SenderId(sender))}, Held(p.held, receiver, weak));
      if listenerRaises then Drop(linked, receiver, sender) else linked
    case Disconnects(receiver, sender) => Drop(p, receiver, sender)
    case ReceiverDeath(receiver) =>
      if receiver in p.held && p.held[receiver].Strong? then p
      else Plain(p.relation - LinksOf(p.relation, receiver), p.held - {receiver})
    case SenderDeath(who) =>
      Plain(p.relation - if weakrefable(who) then LinksTo(p.relation, who) else {}, p.held)
  }

  ghost function Replay(steps: seq<Step>, weakrefable: Id -> bool): Plain {
    if steps == [] then Plain({}, map[])
    else Apply(Replay(steps[..|steps| - 1], weakrefable), steps[|steps| - 1], weakrefable)
  }

  /** r never connects weakly, or never strongly. */
  ghost predicate ConnectsOnly(steps: seq<Step>, r: Id, weak: bool) {
    forall s :: s in steps && s.Connects? && s.receiver == r ==> s.weak == weak
  }

  /** The registry holds a receiver as it was connected. */
  lemma {:induction false} HeldAsConnected(steps: seq<Step>, weakrefable: Id -> bool, r: Id, weak: bool)
    requires ConnectsOnly(steps, r, weak)
    ensures var held := Replay(steps, weakrefable).held; r in held ==> held[r] == if weak then Weak else Strong
  {
    if steps != [] {
      assert steps[|steps| - 1] in steps;
      HeldAsConnected(steps[..|steps| - 1], weakrefable, r, weak);
    }
  }

  ghost predicate Linked(p: Plain, r: Id, sender: Option<Id>) {
    ((r, SenderId(sender)) in p.relation || (r, ANY_ID) in p.relation) && r in p.held
  }

  /** What is delivered to exactly the live receivers of the plain registry. */
  ghost predicate Delivered(p: Plain, sender: Option<Id>, alive: set<Id>, out: seq<Id>) {
    Distinct(out) && forall r :: r in out <==> Linked(p, r, sender) && (p.held[r].Strong? || r in alive)
  }

  lemma DeliveredAsConnected(steps: seq<Step>, weakrefable: Id -> bool, sender: Option<Id>, alive: set<Id>,
                             out: seq<Id>, r: Id)
    requires Delivered(Replay(steps, weakrefable), sender, alive, out)
    ensures ConnectsOnly(steps, r, true) && r in out ==> r in alive
    ensures ConnectsOnly(steps, r, false) ==> (r in out <==> Linked(Replay(steps, weakrefable), r, sender))
  {
    if ConnectsOnly(steps, r, true) {
      HeldAsConnected(steps, weakrefable, r, true);
    }
    if ConnectsOnly(steps, r, false) {
      HeldAsConnected(steps, weakrefable, r, false);
    }
  }

  method Perform(registry: Signal, step: Step)
    requires registry.Valid() && Possible(step)
    modifies registry
    ensures registry.Valid()
    ensures Plain(registry.relation, registry.receivers) ==
      Apply(old(Plain(registry.relation, registry.receivers)), step, registry.weakrefable)
  {
    match step
    case Connects(receiver, sender, weak, listenerRaises) =>
      var _ := registry.Connect(receiver, sender, weak, listenerRaises);
    case Disconnects(receiver, sender) =>
      registry.Disconnect(receiver, sender);
    case ReceiverDeath(receiver) =>
      if !(receiver in registry.receivers && registry.receivers[receiver].Strong?) {
        registry.ReceiverDies(receiver);
      }
    case SenderDeath(who) =>
      registry.SenderDies(who);
  }

  /** After any mix of steps a sender reaches exactly the live receivers that the plain registry links to it or to every
      sender, each once; and has_receivers_for says no only if there are none. A receiver that only ever connects
      strongly needs nothing else to keep it alive; one that only ever connects weakly does. */
  method Deliver(steps: seq<Step>, weakrefable: Id -> bool, sender: Option<Id>, alive: set<Id>)
    returns (found: bool, out: seq<Id>)
    requires (forall i :: 0 <= i < |steps| ==> Possible(steps[i])) && sender != Some(ANY_ID)
    ensures Delivered(Replay(steps, weakrefable), sender, alive, out) && (!found ==> out == [])
    ensures forall r :: r in out && ConnectsOnly(steps, r, true) ==> r in alive
    ensures forall r :: ConnectsOnly(steps, r, false) ==>
      (r in out <==> Linked(Replay(steps, weakrefable), r, sender))
  {
    found, out := DeliverAfter(steps, weakrefable, sender, alive);
    forall r {
      DeliveredAsConnected(steps, weakrefable, sender, alive, out, r);
    }
  }

  method DeliverAfter(steps: seq<Step>, weakrefable: Id -> bool, sender: Option<Id>, alive: set<Id>)
    returns (found: bool, out: seq<Id>)
    requires (forall i :: 0 <= i < |steps| ==> Possible(steps[i])) && sender != Some(ANY_ID)
    ensures Delivered(Replay(steps, weakrefable), sender, alive, out) && (!found ==> out == [])
  {
    var registry := new Signal(weakrefable);
    assert steps[..0] == [];
    for i := 0 to |steps|
      invariant fresh(registry) && registry.Valid() && registry.weakrefable == weakrefable
      invariant Plain(registry.relation, registry.receivers) == Replay(steps[..i], weakrefable)
    {
      assert steps[..i + 1][..i] == steps[..i];
      Perform(registry, steps[i]);
    }
    assert steps[..|steps|] == steps;
    found := registry.HasReceiversFor(sender);
    label Checked:
    out := registry.ReceiversFor(sender, alive);
    if !found {
      forall r ensures r !in out {
        assert !old@Checked(registry.Hears(r, sender));
      }
      HeadIsIn(out);
    }
  }

  lemma HeadIsIn(s: seq<Id>)
    ensures s == [] || s[0] in s
  {
  }

  /** The check is only optimistic: a sender once connected is still said to have receivers after the last one left. */
  method ClaimsTooMuch(registry: Signal, receiver: Id, who: Id) returns (found: bool)
    requires registry.Valid() && registry.relation == {} && receiver !in registry.receivers && who != ANY_ID
    modifies registry
    ensures registry.Valid() && registry.relation == {} && found
  {
    var _ := registry.Connect(receiver, Some(who), false, false);
    registry.Disconnect(receiver, Some(who));
    assert receiver in registry.receivers;
    found := registry.HasReceiversFor(Some(who));
  }

  /** A failed connect can take back more than itself: the receiver heard one sender, then a listener refused its
      connection to every sender, and now it hears nobody. */
  method TakesBackTooMuch(registry: Signal, receiver: Id, who: Id) returns (connected: bool, ghost before: set<Link>)
    requires registry.Valid() && registry.relation == {} && who != ANY_ID
    modifies registry
    ensures registry.Valid() && !connected && before == {(receiver, who)} && registry.relation == {}
  {
    var _ := registry.Connect(receiver, Some(who), false, false);
    before := registry.relation;
    connected := registry.Connect(receiver, None, false, true);
  }
}
