// The shared bus: senders claim a flag under a mutex, sleep on a condition variable while it
// is taken, deliver outside the mutex, and release. Any number of senders, any number of calls.
module BusArbitration {
  import opened Arithmetic

  datatype Message = Message(source: nat, dest: nat, payload: int)

  // Where a sender is. `Arriving` and `Woken` are both on their way to the mutex, the first
  // with a new call and the second after being notified.
  datatype Place = Idle | Arriving | Sleeping | Woken | Sending | Delivered

  datatype Sender = Sender(place: Place, calls: seq<Message>)

  datatype Delivery = Delivery(sender: nat, message: Message)

  // `queues[d]` is destination d's queue; `received[d]` what has been taken from it.
  datatype Bus = Bus(occupied: bool, senders: seq<Sender>, queues: seq<seq<Message>>,
                     received: seq<seq<Message>>, log: seq<Delivery>)

  datatype Action =
    | Call(t: nat, message: Message)
    | Check(t: nat)
    | Deliver(t: nat)
    | Release(t: nat, woken: int)
    | SpuriousWake(t: nat)
    | Receive(d: nat)

  function Move(senders: seq<Sender>, t: nat, place: Place): seq<Sender>
    requires t < |senders|
  {
    senders[t := senders[t].(place := place)]
  }

  function Current(s: Sender): Message
    requires s.calls != []
  {
    s.calls[|s.calls| - 1]
  }

  ghost predicate Start(b: Bus) {
    && !b.occupied && b.log == [] && |b.received| == |b.queues|
    && (forall t :: 0 <= t < |b.senders| ==> b.senders[t] == Sender(Idle, []))
    && (forall d :: 0 <= d < |b.queues| ==> b.queues[d] == [] && b.received[d] == [])
  }

  ghost predicate Next(b: Bus, a: Action, b': Bus) {
    match a
    case Call(t, message) =>
      && t < |b.senders| && b.senders[t].place == Idle
      && b' == b.(senders := b.senders[t := Sender(Arriving, b.senders[t].calls + [message])])
    case Check(t) =>
      && t < |b.senders| && (b.senders[t].place == Arriving || b.senders[t].place == Woken)
      && (if b.occupied then b' == b.(senders := Move(b.senders, t, Sleeping))
          else b' == b.(occupied := true, senders := Move(b.senders, t, Sending)))
    case Deliver(t) =>
      && t < |b.senders| && b.senders[t].place == Sending && b.senders[t].calls != []
      && var m := Current(b.senders[t]);
         b' == b.(senders := Move(b.senders, t, Delivered), log := b.log + [Delivery(t, m)],
                  queues := if m.dest < |b.queues| then b.queues[m.dest := b.queues[m.dest] + [m]] else b.queues)
    case Release(t, woken) =>
      && t < |b.senders| && b.senders[t].place == Delivered
      && (if exists u :: 0 <= u < |b.senders| && b.senders[u].place == Sleeping
          then 0 <= woken < |b.senders| && b.senders[woken].place == Sleeping
               && b' == b.(occupied := false, senders := Move(Move(b.senders, t, Idle), woken, Woken))
          else woken == -1 && b' == b.(occupied := false, senders := Move(b.senders, t, Idle)))
    case SpuriousWake(t) =>
      && t < |b.senders| && b.senders[t].place == Sleeping
      && b' == b.(senders := Move(b.senders, t, Woken))
    case Receive(d) =>
      && d < |b.queues| == |b.received| && b.queues[d] != []
      && b' == b.(queues := b.queues[d := b.queues[d][1..]], received := b.received[d := b.received[d] + [b.queues[d][0]]])
  }

  ghost predicate IsRun(states: seq<Bus>, actions: seq<Action>) {
    && |states| == |actions| + 1
    && Start(states[0])
    && forall k :: 0 <= k < |actions| ==> Next(states[k], actions[k], states[k + 1])
  }

  // ---------- Arbitration ----------

  predicate Holds(s: Sender) {
    s.place == Sending || s.place == Delivered
  }

  // The flag is up exactly while one sender is between claiming and releasing, and never two are.
  ghost predicate Exclusive(b: Bus) {
    && (b.occupied <==> exists t :: 0 <= t < |b.senders| && Holds(b.senders[t]))
    && (forall t, u :: 0 <= t < u < |b.senders| ==> !(Holds(b.senders[t]) && Holds(b.senders[u])))
  }

  // When the bus is free and somebody sleeps, a notified sender is on its way to the mutex.
  ghost predicate NoLostWake(b: Bus) {
    !b.occupied && (exists t :: 0 <= t < |b.senders| && b.senders[t].place == Sleeping) ==>
      exists u :: 0 <= u < |b.senders| && b.senders[u].place == Woken
  }

  lemma {:induction false} MoveKeepsNobody(b: Bus, t: nat, place: Place)
    requires Exclusive(b) && t < |b.senders| && !Holds(b.senders[t]) && place != Sending && place != Delivered
    ensures forall u :: 0 <= u < |b.senders| ==> Holds(Move(b.senders, t, place)[u]) == Holds(b.senders[u])
  {
  }

  lemma {:induction false} CallKeeps(b: Bus, t: nat, m: Message, b': Bus)
    requires Exclusive(b) && NoLostWake(b) && Next(b, Call(t, m), b')
    ensures Exclusive(b') && NoLostWake(b')
  {
    assert forall u :: 0 <= u < |b.senders| ==> Holds(b'.senders[u]) == Holds(b.senders[u]);
    SameHolders(b, b');
    SameSleepers(b, b');
  }

  lemma {:induction false} SameHolders(b: Bus, b': Bus)
    requires Exclusive(b) && b'.occupied == b.occupied && |b'.senders| == |b.senders|
    requires forall u :: 0 <= u < |b.senders| ==> Holds(b'.senders[u]) == Holds(b.senders[u])
    ensures Exclusive(b')
  {
    if u :| 0 <= u < |b.senders| && Holds(b.senders[u]) {
      assert Holds(b'.senders[u]);
    }
  }

  // Nobody new falls asleep and nobody notified is lost.
  lemma {:induction false} SameSleepers(b: Bus, b': Bus)
    requires NoLostWake(b) && b'.occupied == b.occupied && |b'.senders| == |b.senders|
    requires forall u :: 0 <= u < |b.senders| && b'.senders[u].place == Sleeping ==> b.senders[u].place == Sleeping
    requires forall u :: 0 <= u < |b.senders| && b.senders[u].place == Woken ==> b'.senders[u].place == Woken
    ensures NoLostWake(b')
  {
    if !b'.occupied && (exists t :: 0 <= t < |b'.senders| && b'.senders[t].place == Sleeping) {
      var t :| 0 <= t < |b'.senders| && b'.senders[t].place == Sleeping;
      assert b.senders[t].place == Sleeping;
      var u :| 0 <= u < |b.senders| && b.senders[u].place == Woken;
      assert b'.senders[u].place == Woken;
    }
  }

  lemma {:induction false} CheckKeeps(b: Bus, t: nat, b': Bus)
    requires Exclusive(b) && NoLostWake(b) && Next(b, Check(t), b')
    ensures Exclusive(b') && NoLostWake(b')
  {
    if b.occupied {
      MoveKeepsNobody(b, t, Sleeping);
      SameHolders(b, b');
    } else {
      assert Holds(b'.senders[t]);
      assert forall u :: 0 <= u < |b.senders| ==> !Holds(b.senders[u]);
    }
  }

  lemma {:induction false} DeliverKeeps(b: Bus, t: nat, b': Bus)
    requires Exclusive(b) && NoLostWake(b) && Next(b, Deliver(t), b')
    ensures Exclusive(b') && NoLostWake(b')
  {
    assert Holds(b.senders[t]);
    SameHolders(b, b');
  }

  lemma {:induction false} ReleaseKeeps(b: Bus, t: nat, woken: int, b': Bus)
    requires Exclusive(b) && NoLostWake(b) && Next(b, Release(t, woken), b')
    ensures Exclusive(b') && NoLostWake(b')
  {
    assert Holds(b.senders[t]);
    forall u | 0 <= u < |b.senders|
      ensures !Holds(b'.senders[u])
    {
      assert u == t || !Holds(b.senders[u]);
    }
    if exists u :: 0 <= u < |b.senders| && b.senders[u].place == Sleeping {
      assert b'.senders[woken].place == Woken;
    } else {
      forall u | 0 <= u < |b.senders|
        ensures b'.senders[u].place != Sleeping
      {
        assert b.senders[u].place != Sleeping;
      }
    }
  }

  lemma {:induction false} SpuriousKeeps(b: Bus, t: nat, b': Bus)
    requires Exclusive(b) && NoLostWake(b) && Next(b, SpuriousWake(t), b')
    ensures Exclusive(b') && NoLostWake(b')
  {
    MoveKeepsNobody(b, t, Woken);
    SameHolders(b, b');
    SameSleepers(b, b');
  }

  lemma {:induction false} ArbitrationKept(b: Bus, a: Action, b': Bus)
    requires Exclusive(b) && NoLostWake(b) && Next(b, a, b')
    ensures Exclusive(b') && NoLostWake(b')
  {
    match a {
      case Call(t, m) => CallKeeps(b, t, m, b');
      case Check(t) => CheckKeeps(b, t, b');
      case Deliver(t) => DeliverKeeps(b, t, b');
      case Release(t, woken) => ReleaseKeeps(b, t, woken, b');
      case SpuriousWake(t) => SpuriousKeeps(b, t, b');
      case Receive(_) =>
        SameHolders(b, b');
        SameSleepers(b, b');
    }
  }

  // ---------- Delivery ----------

  function To(log: seq<Delivery>, d: nat): seq<Message> {
    if log == [] then [] else
    var k := |log| - 1;
    To(log[..k], d) + (if log[k].message.dest == d then [log[k].message] else [])
  }

  function From(log: seq<Delivery>, t: nat): seq<Message> {
    if log == [] then [] else
    var k := |log| - 1;
    From(log[..k], t) + (if log[k].sender == t then [log[k].message] else [])
  }

  // A call not yet delivered.
  predicate Pending(s: Sender) {
    s.place != Idle && s.place != Delivered
  }

  // The calls of a sender that have been delivered.
  function Completed(s: Sender): seq<Message>
    requires Pending(s) ==> s.calls != []
  {
    if Pending(s) then s.calls[..|s.calls| - 1] else s.calls
  }

  // Each destination's queue holds what was delivered to it and not yet received, in order;
  // each sender's calls are delivered once each, in order.
  ghost predicate Faithful(b: Bus) {
    && |b.received| == |b.queues|
    && (forall d :: 0 <= d < |b.queues| ==> b.received[d] + b.queues[d] == To(b.log, d))
    && (forall t :: 0 <= t < |b.senders| ==> Pending(b.senders[t]) ==> b.senders[t].calls != [])
    && (forall t :: 0 <= t < |b.senders| ==> From(b.log, t) == Completed(b.senders[t]))
  }

  lemma {:induction false} LogOneMore(log: seq<Delivery>, x: Delivery)
    ensures forall d :: To(log + [x], d) == To(log, d) + (if x.message.dest == d then [x.message] else [])
    ensures forall t :: From(log + [x], t) == From(log, t) + (if x.sender == t then [x.message] else [])
  {
    assert (log + [x])[..|log|] == log;
  }

  lemma {:induction false} FaithfulKept(b: Bus, a: Action, b': Bus)
    requires Faithful(b) && Next(b, a, b')
    ensures Faithful(b')
  {
    match a {
      case Call(t, m) => CallFaithful(b, t, m, b');
      case Deliver(t) => DeliverFaithful(b, t, b');
      case Receive(d) => ReceiveFaithful(b, d, b');
      case _ => MovesFaithful(b, a, b');
    }
  }

  lemma {:induction false} CallFaithful(b: Bus, t: nat, m: Message, b': Bus)
    requires Faithful(b) && Next(b, Call(t, m), b')
    ensures Faithful(b')
  {
    assert (b.senders[t].calls + [m])[..|b.senders[t].calls|] == b.senders[t].calls;
  }

  lemma {:induction false} ReceiveFaithful(b: Bus, d: nat, b': Bus)
    requires Faithful(b) && Next(b, Receive(d), b')
    ensures Faithful(b')
  {
    assert b.queues[d] == [b.queues[d][0]] + b.queues[d][1..];
  }

  lemma {:induction false} MovesFaithful(b: Bus, a: Action, b': Bus)
    requires Faithful(b) && Next(b, a, b') && (a.Check? || a.Release? || a.SpuriousWake?)
    ensures Faithful(b')
  {
    hide From, To, Faithful;
    forall t | 0 <= t < |b.senders|
      ensures Pending(b'.senders[t]) == Pending(b.senders[t]) && b'.senders[t].calls == b.senders[t].calls
    {
    }
    SameProgressFaithful(b, b');
  }

  lemma {:induction false} SameProgressFaithful(b: Bus, b': Bus)
    requires Faithful(b) && |b'.senders| == |b.senders|
    requires b'.queues == b.queues && b'.received == b.received && b'.log == b.log
    requires forall t :: 0 <= t < |b.senders| ==>
      Pending(b'.senders[t]) == Pending(b.senders[t]) && b'.senders[t].calls == b.senders[t].calls
    ensures Faithful(b')
  {
  }

  lemma {:induction false} DeliverFaithful(b: Bus, t: nat, b': Bus)
    requires Faithful(b) && Next(b, Deliver(t), b')
    ensures Faithful(b')
  {
    var s := b.senders[t];
    var m := Current(s);
    LogOneMore(b.log, Delivery(t, m));
    assert s.calls == s.calls[..|s.calls| - 1] + [m];
    forall d | 0 <= d < |b.queues|
      ensures b'.received[d] + b'.queues[d] == To(b'.log, d)
    {
      if d == m.dest {
        assert b.received[d] + (b.queues[d] + [m]) == (b.received[d] + b.queues[d]) + [m];
      }
    }
  }

  // ---------- Runs ----------

  // In every run: at most one sender holds the bus, no wake-up is lost, every call is
  // delivered at most once and in order, and receivers see deliveries in order.
  lemma {:induction false} BusSafety(states: seq<Bus>, actions: seq<Action>)
    requires IsRun(states, actions)
    ensures var b := states[|actions|]; Exclusive(b) && NoLostWake(b) && Faithful(b)
  {
    if actions != [] {
      var k := |actions| - 1;
      BusSafety(states[..k + 1], actions[..k]);
      assert Next(states[k], actions[k], states[k + 1]);
      ArbitrationKept(states[k], actions[k], states[k + 1]);
      FaithfulKept(states[k], actions[k], states[k + 1]);
    } else {
      assert forall t :: 0 <= t < |states[0].senders| ==> !Holds(states[0].senders[t]);
    }
  }

  // Everything delivered has been received or is still queued: with all senders idle and all
  // queues empty, each destination received exactly the messages sent to it.
  lemma {:induction false} QuiescentBus(states: seq<Bus>, actions: seq<Action>, d: nat)
    requires IsRun(states, actions)
    requires var b := states[|actions|]; d < |b.queues| && b.queues[d] == []
    requires var b := states[|actions|]; forall t :: 0 <= t < |b.senders| ==> b.senders[t].place == Idle
    ensures var b := states[|actions|];
            && d < |b.received| && b.received[d] == To(b.log, d)
            && (forall t :: 0 <= t < |b.senders| ==> From(b.log, t) == b.senders[t].calls)
  {
    BusSafety(states, actions);
  }

  ghost predicate Enabled(b: Bus) {
    exists a, b' :: Next(b, a, b') && !a.SpuriousWake? && !a.Call? && !a.Receive?
  }

  lemma {:induction false} EnabledBy(b: Bus, a: Action, b': Bus)
    requires Next(b, a, b') && !a.SpuriousWake? && !a.Call? && !a.Receive?
    ensures Enabled(b)
  {
  }

  lemma {:induction false} PlaceEnabled(b: Bus, t: nat)
    requires Faithful(b) && t < |b.senders| && b.senders[t].place != Idle && b.senders[t].place != Sleeping
    ensures Enabled(b)
  {
    var place := b.senders[t].place;
    if place == Sending {
      var m := Current(b.senders[t]);
      EnabledBy(b, Deliver(t), b.(senders := Move(b.senders, t, Delivered), log := b.log + [Delivery(t, m)],
        queues := if m.dest < |b.queues| then b.queues[m.dest := b.queues[m.dest] + [m]] else b.queues));
    } else if place == Delivered {
      if u :| 0 <= u < |b.senders| && b.senders[u].place == Sleeping {
        EnabledBy(b, Release(t, u), b.(occupied := false, senders := Move(Move(b.senders, t, Idle), u, Woken)));
      } else {
        EnabledBy(b, Release(t, -1), b.(occupied := false, senders := Move(b.senders, t, Idle)));
      }
    } else if b.occupied {
      EnabledBy(b, Check(t), b.(senders := Move(b.senders, t, Sleeping)));
    } else {
      EnabledBy(b, Check(t), b.(occupied := true, senders := Move(b.senders, t, Sending)));
    }
  }

  // No reachable state with a call in progress is stuck.
  lemma {:induction false} BusNeverStuck(states: seq<Bus>, actions: seq<Action>, t: nat)
    requires IsRun(states, actions)
    requires t < |states[|actions|].senders| && states[|actions|].senders[t].place != Idle
    ensures Enabled(states[|actions|])
  {
    var b := states[|actions|];
    BusSafety(states, actions);
    if b.senders[t].place != Sleeping {
      PlaceEnabled(b, t);
    } else if b.occupied {
      var u :| 0 <= u < |b.senders| && Holds(b.senders[u]);
      PlaceEnabled(b, u);
    } else {
      var u :| 0 <= u < |b.senders| && b.senders[u].place == Woken;
      PlaceEnabled(b, u);
    }
  }

  // ---------- Progress ----------

  // Steps a sender can still take, with the receipt of what it sends, as long as it is not put
  // back to sleep.
  function PlaceWork(place: Place): nat {
    match place
    case Idle => 0
    case Arriving => 5
    case Sleeping => 4
    case Woken => 5
    case Sending => 4
    case Delivered => 2
  }

  function SendersWork(senders: seq<Sender>): nat {
    if senders == [] then 0 else
    var k := |senders| - 1;
    SendersWork(senders[..k]) + PlaceWork(senders[k].place)
  }

  function Queued(queues: seq<seq<Message>>): nat {
    if queues == [] then 0 else
    var k := |queues| - 1;
    Queued(queues[..k]) + |queues[k]|
  }

  function WorkLeft(b: Bus): nat {
    SendersWork(b.senders) + Queued(b.queues)
  }

  lemma {:induction false} SendersUpdate(senders: seq<Sender>, t: nat, x: Sender)
    requires t < |senders|
    ensures SendersWork(senders[t := x]) == SendersWork(senders) + PlaceWork(x.place) - PlaceWork(senders[t].place)
  {
    var k := |senders| - 1;
    if t == k {
      assert senders[t := x][..k] == senders[..k];
    } else {
      assert senders[t := x][..k] == senders[..k][t := x];
      SendersUpdate(senders[..k], t, x);
    }
  }

  lemma {:induction false} QueuedUpdate(queues: seq<seq<Message>>, d: nat, q: seq<Message>)
    requires d < |queues|
    ensures Queued(queues[d := q]) == Queued(queues) + |q| - |queues[d]|
  {
    var k := |queues| - 1;
    if d == k {
      assert queues[d := q][..k] == queues[..k];
    } else {
      assert queues[d := q][..k] == queues[..k][d := q];
      QueuedUpdate(queues[..k], d, q);
    }
  }

  // What a step may add: a call brings five steps, a spurious wake-up one; every other takes one away.
  function Allowance(a: Action): int {
    if a.Call? then 5 else if a.SpuriousWake? then 1 else -1
  }

  lemma {:induction false} StepReducesWork(b: Bus, a: Action, b': Bus)
    requires Next(b, a, b')
    ensures WorkLeft(b') <= WorkLeft(b) + Allowance(a)
  {
    match a {
      case Receive(d) => QueuedUpdate(b.queues, d, b.queues[d][1..]);
      case Deliver(t) =>
        SendersUpdate(b.senders, t, b'.senders[t]);
        var m := Current(b.senders[t]);
        if m.dest < |b.queues| {
          QueuedUpdate(b.queues, m.dest, b.queues[m.dest] + [m]);
        }
      case Release(t, woken) =>
        var idle := Move(b.senders, t, Idle);
        SendersUpdate(b.senders, t, idle[t]);
        if exists u :: 0 <= u < |b.senders| && b.senders[u].place == Sleeping {
          SendersUpdate(idle, woken, idle[woken].(place := Woken));
        }
      case Call(t, _) => SendersUpdate(b.senders, t, b'.senders[t]);
      case Check(t) => SendersUpdate(b.senders, t, b'.senders[t]);
      case SpuriousWake(t) => SendersUpdate(b.senders, t, b'.senders[t]);
    }
  }

  function Calls(actions: seq<Action>): nat {
    if actions == [] then 0 else
    var k := |actions| - 1;
    Calls(actions[..k]) + Flag(actions[k].Call?)
  }

  function SpuriousWakes(actions: seq<Action>): nat {
    if actions == [] then 0 else
    var k := |actions| - 1;
    SpuriousWakes(actions[..k]) + Flag(actions[k].SpuriousWake?)
  }

  lemma {:induction false} NothingLeft(b: Bus)
    requires Start(b)
    ensures WorkLeft(b) == 0
  {
    NobodyWorks(b.senders);
    NothingQueued(b.queues);
  }

  lemma {:induction false} NobodyWorks(senders: seq<Sender>)
    requires forall t :: 0 <= t < |senders| ==> senders[t].place == Idle
    ensures SendersWork(senders) == 0
  {
    if senders != [] {
      NobodyWorks(senders[..|senders| - 1]);
    }
  }

  lemma {:induction false} NothingQueued(queues: seq<seq<Message>>)
    requires forall d :: 0 <= d < |queues| ==> queues[d] == []
    ensures Queued(queues) == 0
  {
    if queues != [] {
      NothingQueued(queues[..|queues| - 1]);
    }
  }

  // A run has at most six steps for each call and two for each spurious wake-up.
  lemma {:induction false} RunsAreBounded(states: seq<Bus>, actions: seq<Action>)
    requires IsRun(states, actions)
    ensures |actions| + WorkLeft(states[|actions|]) <= 6 * Calls(actions) + 2 * SpuriousWakes(actions)
  {
    if actions == [] {
      NothingLeft(states[0]);
    } else {
      var k := |actions| - 1;
      RunsAreBounded(states[..k + 1], actions[..k]);
      assert Next(states[k], actions[k], states[k + 1]);
      StepReducesWork(states[k], actions[k], states[k + 1]);
    }
  }
}
