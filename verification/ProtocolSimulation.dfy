// MOESI, MESI and MSI run in lockstep on the same actions, and what each protocol pays in
// write-backs to memory.
module ProtocolSimulation {
  import opened Arithmetic
  import opened Snooping
  import Moesi
  import Mesi
  import Msi

  // ---------- N caches under MESI and under MSI ----------

  predicate MesiOthersValid(copies: seq<Mesi.State>, p: nat) {
    exists j :: 0 <= j < |copies| && j != p && Mesi.IsValid(copies[j])
  }

  function NextMesi(copies: seq<Mesi.State>, a: Action): (r: seq<Mesi.State>)
    requires a.p < |copies|
    ensures |r| == |copies|
  {
    var shared := MesiOthersValid(copies, a.p);
    seq(|copies|, j requires 0 <= j < |copies| =>
      match a
      case Read(p) => if j == p then Mesi.LocalRead(copies[j], shared) else Mesi.RemoteRead(copies[j])
      case Write(p, _) => if j == p then Mesi.LocalWrite(copies[j]) else Mesi.RemoteWrite(copies[j])
      case Evict(p) => if j == p then Mesi.Evict(copies[j]) else copies[j])
  }

  predicate MsiOthersValid(copies: seq<Msi.State>, p: nat) {
    exists j :: 0 <= j < |copies| && j != p && Msi.IsValid(copies[j])
  }

  function NextMsi(copies: seq<Msi.State>, a: Action): (r: seq<Msi.State>)
    requires a.p < |copies|
    ensures |r| == |copies|
  {
    var shared := MsiOthersValid(copies, a.p);
    seq(|copies|, j requires 0 <= j < |copies| =>
      match a
      case Read(p) => if j == p then Msi.LocalRead(copies[j], shared) else Msi.RemoteRead(copies[j])
      case Write(p, _) => if j == p then Msi.LocalWrite(copies[j]) else Msi.RemoteWrite(copies[j])
      case Evict(p) => if j == p then Msi.Invalid else copies[j])
  }

  function RunMoesi(n: nat, actions: seq<Action>): (r: seq<Moesi.State>)
    requires InRange(actions, n)
    ensures |r| == n
  {
    if actions == [] then seq(n, _ => Moesi.Invalid) else
    var m := |actions| - 1;
    NextCopies(RunMoesi(n, actions[..m]), actions[m])
  }

  function RunMesi(n: nat, actions: seq<Action>): (r: seq<Mesi.State>)
    requires InRange(actions, n)
    ensures |r| == n
  {
    if actions == [] then seq(n, _ => Mesi.Invalid) else
    var m := |actions| - 1;
    NextMesi(RunMesi(n, actions[..m]), actions[m])
  }

  function RunMsi(n: nat, actions: seq<Action>): (r: seq<Msi.State>)
    requires InRange(actions, n)
    ensures |r| == n
  {
    if actions == [] then seq(n, _ => Msi.Invalid) else
    var m := |actions| - 1;
    NextMsi(RunMsi(n, actions[..m]), actions[m])
  }

  // ---------- Lockstep ----------

  // MESI has no Owned state, and shows it as Shared.
  function ToMesi(s: Moesi.State): Mesi.State {
    match s
    case Modified => Mesi.Modified
    case Owned => Mesi.Shared
    case Exclusive => Mesi.Exclusive
    case Shared => Mesi.Shared
    case Invalid => Mesi.Invalid
  }

  // MSI has no Exclusive state either.
  function ToMsi(s: Mesi.State): Msi.State {
    match s
    case Modified => Msi.Modified
    case Exclusive => Msi.Shared
    case Shared => Msi.Shared
    case Invalid => Msi.Invalid
  }

  ghost predicate ShownInMesi(moesi: seq<Moesi.State>, mesi: seq<Mesi.State>) {
    |moesi| == |mesi| && forall j :: 0 <= j < |moesi| ==> mesi[j] == ToMesi(moesi[j])
  }

  ghost predicate ShownInMsi(mesi: seq<Mesi.State>, msi: seq<Msi.State>) {
    |mesi| == |msi| && forall j :: 0 <= j < |mesi| ==> msi[j] == ToMsi(mesi[j])
  }

  lemma {:induction false} MoesiStepInMesi(moesi: seq<Moesi.State>, mesi: seq<Mesi.State>, a: Action)
    requires ShownInMesi(moesi, mesi) && a.p < |moesi|
    ensures ShownInMesi(NextCopies(moesi, a), NextMesi(mesi, a))
  {
    if j :| 0 <= j < |moesi| && j != a.p && Moesi.IsValid(moesi[j]) {
      assert Mesi.IsValid(mesi[j]);
    }
    if j :| 0 <= j < |mesi| && j != a.p && Mesi.IsValid(mesi[j]) {
      assert Moesi.IsValid(moesi[j]);
    }
    assert OthersValid(moesi, a.p) == MesiOthersValid(mesi, a.p);
  }

  lemma {:induction false} MesiStepInMsi(mesi: seq<Mesi.State>, msi: seq<Msi.State>, a: Action)
    requires ShownInMsi(mesi, msi) && a.p < |mesi|
    ensures ShownInMsi(NextMesi(mesi, a), NextMsi(msi, a))
  {
  }

  // On any number of caches and any run, the MESI states are the MOESI states with O shown
  // as S, and the MSI states are the MESI states with E shown as S.
  lemma {:induction false} Lockstep(n: nat, actions: seq<Action>)
    requires InRange(actions, n)
    ensures ShownInMesi(RunMoesi(n, actions), RunMesi(n, actions))
    ensures ShownInMsi(RunMesi(n, actions), RunMsi(n, actions))
  {
    if actions != [] {
      var m := |actions| - 1;
      Lockstep(n, actions[..m]);
      MoesiStepInMesi(RunMoesi(n, actions[..m]), RunMesi(n, actions[..m]), actions[m]);
      MesiStepInMsi(RunMesi(n, actions[..m]), RunMsi(n, actions[..m]), actions[m]);
    }
  }

  // ---------- Write-backs ----------

  // Lines that stop requiring a write-back in one step.
  function MoesiDropped(before: seq<Moesi.State>, after: seq<Moesi.State>): nat
    requires |before| == |after|
  {
    if before == [] then 0 else
    var m := |before| - 1;
    MoesiDropped(before[..m], after[..m])
      + Flag(Moesi.RequiresWriteback(before[m]) && !Moesi.RequiresWriteback(after[m]))
  }

  function MesiDropped(before: seq<Mesi.State>, after: seq<Mesi.State>): nat
    requires |before| == |after|
  {
    if before == [] then 0 else
    var m := |before| - 1;
    MesiDropped(before[..m], after[..m])
      + Flag(Mesi.RequiresWriteback(before[m]) && !Mesi.RequiresWriteback(after[m]))
  }

  function MsiDropped(before: seq<Msi.State>, after: seq<Msi.State>): nat
    requires |before| == |after|
  {
    if before == [] then 0 else
    var m := |before| - 1;
    MsiDropped(before[..m], after[..m])
      + Flag(Msi.RequiresWriteback(before[m]) && !Msi.RequiresWriteback(after[m]))
  }

  // Owners that write their line again, so that it never has to be written back in between.
  function Reclaimed(before: seq<Moesi.State>, after: seq<Moesi.State>): nat
    requires |before| == |after|
  {
    if before == [] then 0 else
    var m := |before| - 1;
    Reclaimed(before[..m], after[..m]) + Flag(before[m] == Moesi.Owned && after[m] == Moesi.Modified)
  }

  function OwnedCopies(copies: seq<Moesi.State>): nat {
    if copies == [] then 0 else
    var m := |copies| - 1;
    OwnedCopies(copies[..m]) + Flag(copies[m] == Moesi.Owned)
  }

  function MoesiWriteBacks(n: nat, actions: seq<Action>): nat
    requires InRange(actions, n)
  {
    if actions == [] then 0 else
    var m := |actions| - 1;
    MoesiWriteBacks(n, actions[..m]) + MoesiDropped(RunMoesi(n, actions[..m]), RunMoesi(n, actions))
  }

  function MesiWriteBacks(n: nat, actions: seq<Action>): nat
    requires InRange(actions, n)
  {
    if actions == [] then 0 else
    var m := |actions| - 1;
    MesiWriteBacks(n, actions[..m]) + MesiDropped(RunMesi(n, actions[..m]), RunMesi(n, actions))
  }

  function MsiWriteBacks(n: nat, actions: seq<Action>): nat
    requires InRange(actions, n)
  {
    if actions == [] then 0 else
    var m := |actions| - 1;
    MsiWriteBacks(n, actions[..m]) + MsiDropped(RunMsi(n, actions[..m]), RunMsi(n, actions))
  }

  // Owned lines rewritten by their owner over a run.
  function Reclaims(n: nat, actions: seq<Action>): nat
    requires InRange(actions, n)
  {
    if actions == [] then 0 else
    var m := |actions| - 1;
    Reclaims(n, actions[..m]) + Reclaimed(RunMoesi(n, actions[..m]), RunMoesi(n, actions))
  }

  // A cache's part of one step of the run.
  ghost predicate Moves(before: seq<Moesi.State>, after: seq<Moesi.State>) {
    |before| == |after| &&
    forall j :: 0 <= j < |before| ==>
      || after[j] == before[j]
      || after[j] == Moesi.Invalid
      || after[j] == Moesi.Modified
      || after[j] == Moesi.RemoteRead(before[j])
      || (before[j] == Moesi.Invalid && (after[j] == Moesi.Shared || after[j] == Moesi.Exclusive))
  }

  lemma {:induction false} StepMoves(copies: seq<Moesi.State>, a: Action)
    requires a.p < |copies|
    ensures Moves(copies, NextCopies(copies, a))
  {
  }

  // In one step MESI pays what MOESI pays, plus the growth of owned copies, plus the reclaims.
  lemma {:induction false} StepCost(before: seq<Moesi.State>, after: seq<Moesi.State>,
                                    mesiBefore: seq<Mesi.State>, mesiAfter: seq<Mesi.State>)
    requires Moves(before, after)
    requires ShownInMesi(before, mesiBefore) && ShownInMesi(after, mesiAfter)
    ensures MesiDropped(mesiBefore, mesiAfter) + OwnedCopies(before)
         == MoesiDropped(before, after) + OwnedCopies(after) + Reclaimed(before, after)
  {
    if before != [] {
      var m := |before| - 1;
      StepCost(before[..m], after[..m], mesiBefore[..m], mesiAfter[..m]);
      assert after[m] == before[m] || after[m] != before[m];
    }
  }

  lemma {:induction false} MsiStepCost(before: seq<Mesi.State>, after: seq<Mesi.State>,
                                       msiBefore: seq<Msi.State>, msiAfter: seq<Msi.State>)
    requires ShownInMsi(before, msiBefore) && ShownInMsi(after, msiAfter) && |before| == |after|
    ensures MsiDropped(msiBefore, msiAfter) == MesiDropped(before, after)
  {
    if before != [] {
      var m := |before| - 1;
      MsiStepCost(before[..m], after[..m], msiBefore[..m], msiAfter[..m]);
    }
  }

  lemma {:induction false} NoneOwned(n: nat)
    ensures OwnedCopies(seq(n, _ => Moesi.Invalid)) == 0
  {
    if n > 0 {
      NoneOwned(n - 1);
      assert seq(n, _ => Moesi.Invalid)[..n - 1] == seq(n - 1, _ => Moesi.Invalid);
    }
  }

  // Exact accounting over any run: MESI writes back as often as MOESI, once more for every
  // line currently Owned, and once more for every Owned line its owner wrote again. MSI
  // writes back exactly as often as MESI. So MOESI never writes back more than the others.
  lemma {:induction false} WriteBackAccounting(n: nat, actions: seq<Action>)
    requires InRange(actions, n)
    ensures MesiWriteBacks(n, actions)
         == MoesiWriteBacks(n, actions) + OwnedCopies(RunMoesi(n, actions)) + Reclaims(n, actions)
    ensures MsiWriteBacks(n, actions) == MesiWriteBacks(n, actions)
    ensures MoesiWriteBacks(n, actions) <= MesiWriteBacks(n, actions)
  {
    if actions == [] {
      NoneOwned(n);
    } else {
      var m := |actions| - 1;
      WriteBackAccounting(n, actions[..m]);
      Lockstep(n, actions[..m]);
      Lockstep(n, actions);
      StepMoves(RunMoesi(n, actions[..m]), actions[m]);
      StepCost(RunMoesi(n, actions[..m]), RunMoesi(n, actions), RunMesi(n, actions[..m]), RunMesi(n, actions));
      MsiStepCost(RunMesi(n, actions[..m]), RunMesi(n, actions), RunMsi(n, actions[..m]), RunMsi(n, actions));
    }
  }

  // Exclusion carries over: under MESI and MSI a Modified copy is the only valid one, and so
  // is an Exclusive copy under MESI.
  lemma {:induction false} ExclusionShows(n: nat, actions: seq<Action>, i: nat, j: nat)
    requires InRange(actions, n) && i < n && j < n && i != j
    ensures RunMesi(n, actions)[i] in {Mesi.Modified, Mesi.Exclusive} ==> RunMesi(n, actions)[j] == Mesi.Invalid
    ensures RunMsi(n, actions)[i] == Msi.Modified ==> RunMsi(n, actions)[j] == Msi.Invalid
  {
    Lockstep(n, actions);
    RunExcludes(n, actions);
  }

  lemma {:induction false} RunExcludes(n: nat, actions: seq<Action>)
    requires InRange(actions, n)
    ensures Exclusion(RunMoesi(n, actions))
  {
    if actions != [] {
      var m := |actions| - 1;
      RunExcludes(n, actions[..m]);
      ExclusionKept(RunMoesi(n, actions[..m]), actions[m]);
    }
  }

  // The states of a run with data are the states of the state-only run of its actions.
  lemma {:induction false} CopiesOfRun(states: seq<System>, actions: seq<Action>)
    requires IsRun(states, actions)
    ensures InRange(actions, |states[0].copies|)
    ensures states[|actions|].copies == RunMoesi(|states[0].copies|, actions)
  {
    if actions == [] {
      assert states[0].copies == seq(|states[0].copies|, _ => Moesi.Invalid);
    } else {
      var m := |actions| - 1;
      CopiesOfRun(states[..m + 1], actions[..m]);
      assert Next(states[m], actions[m], states[m + 1]);
      assert |states[m].copies| == |states[0].copies|;
      forall i | 0 <= i < |actions|
        ensures actions[i].p < |states[0].copies|
      {
        if i < m {
          assert actions[..m][i] == actions[i];
        }
      }
    }
  }
}
