// Threads raising a shared maximum with a weak compare-exchange loop.
module AtomicMaximum {
  import opened Arithmetic

  // A thread has not yet loaded the maximum, holds a possibly stale copy of it, or is done.
  datatype Place = Begin | Loaded(current: nat) | Done

  // `locals[t]` is thread t's own cycle count; `maxCycles` the shared atomic.
  datatype State = State(locals: seq<nat>, places: seq<Place>, maxCycles: nat)

  datatype Action = Load(t: nat) | Try(t: nat, spurious: bool)

  ghost predicate Start(s: State) {
    s.maxCycles == 0 && |s.places| == |s.locals| && forall t :: 0 <= t < |s.places| ==> s.places[t] == Begin
  }

  // One round of the loop: leave if the local count is no larger; otherwise exchange, which
  // may fail spuriously, and reloads the current value whenever it fails.
  ghost predicate Next(s: State, a: Action, s': State) {
    && a.t < |s.places| == |s.locals|
    && match a
       case Load(t) => s.places[t] == Begin && s' == s.(places := s.places[t := Loaded(s.maxCycles)])
       case Try(t, spurious) =>
         && s.places[t].Loaded?
         && (if s.locals[t] <= s.places[t].current then s' == s.(places := s.places[t := Done])
             else if s.places[t].current == s.maxCycles && !spurious
             then s' == s.(maxCycles := s.locals[t], places := s.places[t := Done])
             else s' == s.(places := s.places[t := Loaded(s.maxCycles)]))
  }

  ghost predicate IsRun(states: seq<State>, actions: seq<Action>) {
    && |states| == |actions| + 1
    && Start(states[0])
    && forall k :: 0 <= k < |actions| ==> Next(states[k], actions[k], states[k + 1])
  }

  function MaxOf(values: seq<nat>): (m: nat)
    ensures forall t :: 0 <= t < |values| ==> values[t] <= m
    ensures m == 0 || m in values
  {
    if values == [] then 0 else
    var k := |values| - 1;
    var m := MaxOf(values[..k]);
    assert forall t :: 0 <= t < k ==> values[t] == values[..k][t];
    if m < values[k] then values[k] else m
  }

  // Nothing above the shared value has been seen, it is some thread's count, and it covers
  // the count of every thread that is done.
  ghost predicate Inv(s: State) {
    && |s.places| == |s.locals|
    && (s.maxCycles == 0 || s.maxCycles in s.locals)
    && (forall t :: 0 <= t < |s.places| && s.places[t].Loaded? ==> s.places[t].current <= s.maxCycles)
    && (forall t :: 0 <= t < |s.places| && s.places[t].Done? ==> s.locals[t] <= s.maxCycles)
  }

  // The shared maximum never falls and never loses a finished thread's count.
  lemma {:induction false} MaximumRises(states: seq<State>, actions: seq<Action>)
    requires IsRun(states, actions)
    ensures Inv(states[|actions|]) && states[|actions|].locals == states[0].locals
    ensures forall k :: 0 <= k <= |actions| ==> states[k].maxCycles <= states[|actions|].maxCycles
  {
    if actions != [] {
      var k := |actions| - 1;
      MaximumRises(states[..k + 1], actions[..k]);
      assert Next(states[k], actions[k], states[k + 1]);
      assert forall j :: 0 <= j <= k ==> states[..k + 1][j] == states[j];
    }
  }

  // However the loads, exchanges and spurious failures interleave, when all threads are done
  // the shared value is the maximum of the local counts.
  lemma {:induction false} FinalMaximum(states: seq<State>, actions: seq<Action>)
    requires IsRun(states, actions)
    requires forall t :: 0 <= t < |states[|actions|].places| ==> states[|actions|].places[t].Done?
    ensures states[|actions|].maxCycles == MaxOf(states[0].locals)
  {
    MaximumRises(states, actions);
    var s := states[|actions|];
    var m := MaxOf(s.locals);
    if m != 0 {
      var t :| 0 <= t < |s.locals| && s.locals[t] == m;
      assert s.places[t].Done?;
    }
  }

  // ---------- Progress ----------

  // Steps a thread can still take while the others rest; a stale copy costs it one more round.
  function ThreadWork(place: Place, maxCycles: nat, n: nat): nat {
    match place
    case Begin => n + 2
    case Loaded(current) => n + 1 + Flag(current != maxCycles)
    case Done => 0
  }

  function WorkLeft(places: seq<Place>, maxCycles: nat, n: nat): nat {
    if places == [] then 0 else
    var k := |places| - 1;
    WorkLeft(places[..k], maxCycles, n) + ThreadWork(places[k], maxCycles, n)
  }

  lemma {:induction false} WorkUpdate(places: seq<Place>, t: nat, x: Place, maxCycles: nat, n: nat)
    requires t < |places|
    ensures WorkLeft(places[t := x], maxCycles, n)
         == WorkLeft(places, maxCycles, n) + ThreadWork(x, maxCycles, n) - ThreadWork(places[t], maxCycles, n)
  {
    var k := |places| - 1;
    if t == k {
      assert places[t := x][..k] == places[..k];
    } else {
      assert places[t := x][..k] == places[..k][t := x];
      WorkUpdate(places[..k], t, x, maxCycles, n);
    }
  }

  // A new maximum makes at most every copy stale.
  lemma {:induction false} NewMaximum(places: seq<Place>, before: nat, after: nat, n: nat)
    ensures WorkLeft(places, after, n) <= WorkLeft(places, before, n) + |places|
  {
    if places != [] {
      NewMaximum(places[..|places| - 1], before, after, n);
    }
  }

  // Every step but a spurious failure leaves less to do, and that one leaves no more.
  lemma {:induction false} StepReducesWork(s: State, a: Action, s': State)
    requires Next(s, a, s')
    ensures WorkLeft(s'.places, s'.maxCycles, |s.places|) + Flag(!(a.Try? && a.spurious))
         <= WorkLeft(s.places, s.maxCycles, |s.places|)
  {
    WorkUpdate(s.places, a.t, s'.places[a.t], s.maxCycles, |s.places|);
    if s'.maxCycles != s.maxCycles {
      NewMaximum(s'.places, s.maxCycles, s'.maxCycles, |s.places|);
    }
  }

  function SpuriousFailures(actions: seq<Action>): nat {
    if actions == [] then 0 else
    var k := |actions| - 1;
    SpuriousFailures(actions[..k]) + Flag(actions[k].Try? && actions[k].spurious)
  }

  lemma {:induction false} AllBegin(places: seq<Place>, maxCycles: nat, n: nat)
    requires forall t :: 0 <= t < |places| ==> places[t] == Begin
    ensures WorkLeft(places, maxCycles, n) == |places| * (n + 2)
  {
    if places != [] {
      AllBegin(places[..|places| - 1], maxCycles, n);
    }
  }

  // A run of n threads has at most n * (n + 2) steps besides the spurious failures.
  lemma {:induction false} RunsAreBounded(states: seq<State>, actions: seq<Action>)
    requires IsRun(states, actions)
    ensures |states[|actions|].places| == |states[0].locals|
    ensures var n := |states[0].locals|;
            |actions| + WorkLeft(states[|actions|].places, states[|actions|].maxCycles, n) <= n * (n + 2) + SpuriousFailures(actions)
  {
    if actions == [] {
      AllBegin(states[0].places, 0, |states[0].places|);
    } else {
      var k := |actions| - 1;
      RunsAreBounded(states[..k + 1], actions[..k]);
      assert Next(states[k], actions[k], states[k + 1]);
      StepReducesWork(states[k], actions[k], states[k + 1]);
    }
  }

  // And a thread that is not done can always move, without failing spuriously.
  lemma {:induction false} NeverStuck(states: seq<State>, actions: seq<Action>, t: nat)
    requires IsRun(states, actions)
    requires t < |states[|actions|].places| && !states[|actions|].places[t].Done?
    ensures exists a, s' :: Next(states[|actions|], a, s') && a.t == t && !(a.Try? && a.spurious)
  {
    var s := states[|actions|];
    MaximumRises(states, actions);
    var a := if s.places[t].Begin? then Load(t) else Try(t, false);
    var s' :=
      if s.places[t].Begin? then s.(places := s.places[t := Loaded(s.maxCycles)])
      else if s.locals[t] <= s.places[t].current then s.(places := s.places[t := Done])
      else if s.places[t].current == s.maxCycles then s.(maxCycles := s.locals[t], places := s.places[t := Done])
      else s.(places := s.places[t := Loaded(s.maxCycles)]);
    assert Next(s, a, s');
  }
}
