// What the transition counters of the three protocols say after any run of events on any number of
// copies: each counter is the number of events that took a copy from the one state to the other.
module TransitionFlow {
  import opened Transitions
  import Mesi
  import Moesi
  import Msi

  // What happens to a copy.
  datatype Event = LocalRead(shared: bool) | LocalWrite | RemoteRead | RemoteWrite

  datatype Call = Call(line: nat, event: Event)

  ghost predicate InRange(calls: seq<Call>, n: nat) {
    forall k :: 0 <= k < |calls| ==> calls[k].line < n
  }

  // The columns and rows of the tables.
  const MESI_ORDER := [Mesi.Modified, Mesi.Exclusive, Mesi.Shared, Mesi.Invalid]
  const MOESI_ORDER := [Moesi.Modified, Moesi.Owned, Moesi.Exclusive, Moesi.Shared, Moesi.Invalid]
  const MSI_ORDER := [Msi.Modified, Msi.Shared, Msi.Invalid]

  // ---------- MOESI ----------

  function MoesiNext(s: Moesi.State, event: Event): Moesi.State {
    match event
    case LocalRead(shared) => Moesi.LocalRead(s, shared)
    case LocalWrite => Moesi.LocalWrite(s)
    case RemoteRead => Moesi.RemoteRead(s)
    case RemoteWrite => Moesi.RemoteWrite(s)
  }

  function MoesiCopies(copies: seq<Moesi.State>, calls: seq<Call>): (r: seq<Moesi.State>)
    requires InRange(calls, |copies|)
    ensures |r| == |copies|
  {
    if calls == [] then copies else
    var m := |calls| - 1;
    var before := MoesiCopies(copies, calls[..m]);
    before[calls[m].line := MoesiNext(before[calls[m].line], calls[m].event)]
  }

  // The protocol's counters after the run.
  function MoesiTable(copies: seq<Moesi.State>, calls: seq<Call>): (t: Table)
    requires InRange(calls, |copies|)
    ensures IsTable(t, 5)
  {
    if calls == [] then ZeroTable(5) else
    var m := |calls| - 1;
    var s := MoesiCopies(copies, calls[..m])[calls[m].line];
    Moesi.Counted(MoesiTable(copies, calls[..m]), s, MoesiNext(s, calls[m].event))
  }

  // The events that took a copy from the one state to the other.
  function MoesiMoves(copies: seq<Moesi.State>, calls: seq<Call>, from: Moesi.State, to: Moesi.State): nat
    requires InRange(calls, |copies|)
  {
    if calls == [] then 0 else
    var m := |calls| - 1;
    var s := MoesiCopies(copies, calls[..m])[calls[m].line];
    MoesiMoves(copies, calls[..m], from, to) + if s == from && MoesiNext(s, calls[m].event) == to then 1 else 0
  }

  // Each counter is the number of those events; with all copies counted, the copies in a state are
  // the first ones plus the transitions into it minus those out of it; and each event is counted once.
  lemma {:induction false} MoesiCountersTell(copies: seq<Moesi.State>, calls: seq<Call>, i: nat, j: nat)
    requires InRange(calls, |copies|) && i < 5 && j < 5
    ensures var t, s := MoesiTable(copies, calls), MOESI_ORDER[i];
      && t[i][j] == MoesiMoves(copies, calls, s, MOESI_ORDER[j])
      && CountOf(MoesiCopies(copies, calls), s) == CountOf(copies, s) + Flow(t, 5, i)
      && Total(t) == |calls|
  {
    NoFlow(5, i);
    if calls != [] {
      var m := |calls| - 1;
      MoesiCountersTell(copies, calls[..m], i, j);
      var before := MoesiCopies(copies, calls[..m]);
      var s := before[calls[m].line];
      var s' := MoesiNext(s, calls[m].event);
      MoesiRanks(s, i);
      MoesiRanks(s', i);
      MoesiRanks(s', j);
      CountUpdate(before, calls[m].line, s', MOESI_ORDER[i]);
      BumpedFlow(MoesiTable(copies, calls[..m]), Moesi.Index(s), Moesi.Index(s'), 5, i);
      hide MoesiNext, Moesi.Index, CountOf, Flow, Total;
    }
  }

  lemma {:induction false} MoesiRanks(s: Moesi.State, i: nat)
    requires i < 5
    ensures Moesi.Index(s) == i <==> s == MOESI_ORDER[i]
  {
  }

  // ---------- MSI ----------

  function MsiNext(s: Msi.State, event: Event): Msi.State {
    match event
    case LocalRead(shared) => Msi.LocalRead(s, shared)
    case LocalWrite => Msi.LocalWrite(s)
    case RemoteRead => Msi.RemoteRead(s)
    case RemoteWrite => Msi.RemoteWrite(s)
  }

  function MsiCopies(copies: seq<Msi.State>, calls: seq<Call>): (r: seq<Msi.State>)
    requires InRange(calls, |copies|)
    ensures |r| == |copies|
  {
    if calls == [] then copies else
    var m := |calls| - 1;
    var before := MsiCopies(copies, calls[..m]);
    before[calls[m].line := MsiNext(before[calls[m].line], calls[m].event)]
  }

  // The protocol's counters after the run.
  function MsiTable(copies: seq<Msi.State>, calls: seq<Call>): (t: Table)
    requires InRange(calls, |copies|)
    ensures IsTable(t, 3)
  {
    if calls == [] then ZeroTable(3) else
    var m := |calls| - 1;
    var s := MsiCopies(copies, calls[..m])[calls[m].line];
    Msi.Counted(MsiTable(copies, calls[..m]), s, MsiNext(s, calls[m].event))
  }

  // The events that took a copy from the one state to the other.
  function MsiMoves(copies: seq<Msi.State>, calls: seq<Call>, from: Msi.State, to: Msi.State): nat
    requires InRange(calls, |copies|)
  {
    if calls == [] then 0 else
    var m := |calls| - 1;
    var s := MsiCopies(copies, calls[..m])[calls[m].line];
    MsiMoves(copies, calls[..m], from, to) + if s == from && MsiNext(s, calls[m].event) == to then 1 else 0
  }

  // Each counter is the number of those events; with all copies counted, the copies in a state are
  // the first ones plus the transitions into it minus those out of it; and each event is counted once.
  lemma {:induction false} MsiCountersTell(copies: seq<Msi.State>, calls: seq<Call>, i: nat, j: nat)
    requires InRange(calls, |copies|) && i < 3 && j < 3
    ensures var t, s := MsiTable(copies, calls), MSI_ORDER[i];
      && t[i][j] == MsiMoves(copies, calls, s, MSI_ORDER[j])
      && CountOf(MsiCopies(copies, calls), s) == CountOf(copies, s) + Flow(t, 3, i)
      && Total(t) == |calls|
  {
    NoFlow(3, i);
    if calls != [] {
      var m := |calls| - 1;
      MsiCountersTell(copies, calls[..m], i, j);
      var before := MsiCopies(copies, calls[..m]);
      var s := before[calls[m].line];
      var s' := MsiNext(s, calls[m].event);
      MsiRanks(s, i);
      MsiRanks(s', i);
      MsiRanks(s', j);
      CountUpdate(before, calls[m].line, s', MSI_ORDER[i]);
      BumpedFlow(MsiTable(copies, calls[..m]), Msi.Index(s), Msi.Index(s'), 3, i);
      hide MsiNext, Msi.Index, CountOf, Flow, Total;
    }
  }

  lemma {:induction false} MsiRanks(s: Msi.State, i: nat)
    requires i < 3
    ensures Msi.Index(s) == i <==> s == MSI_ORDER[i]
  {
  }

  // ---------- MESI ----------

  function MesiNext(s: Mesi.State, event: Event): Mesi.State {
    match event
    case LocalRead(shared) => Mesi.LocalRead(s, shared)
    case LocalWrite => Mesi.LocalWrite(s)
    case RemoteRead => Mesi.RemoteRead(s)
    case RemoteWrite => Mesi.RemoteWrite(s)
  }

  function MesiCopies(copies: seq<Mesi.State>, calls: seq<Call>): (r: seq<Mesi.State>)
    requires InRange(calls, |copies|)
    ensures |r| == |copies|
  {
    if calls == [] then copies else
    var m := |calls| - 1;
    var before := MesiCopies(copies, calls[..m]);
    before[calls[m].line := MesiNext(before[calls[m].line], calls[m].event)]
  }

  // The protocol's counters after the run.
  function MesiTable(copies: seq<Mesi.State>, calls: seq<Call>): (t: Table)
    requires InRange(calls, |copies|)
    ensures IsTable(t, 4)
  {
    if calls == [] then ZeroTable(4) else
    var m := |calls| - 1;
    var s := MesiCopies(copies, calls[..m])[calls[m].line];
    Mesi.Recorded(MesiTable(copies, calls[..m]), s, MesiNext(s, calls[m].event))
  }

  // The events that took a copy from the one state to the other.
  function MesiMoves(copies: seq<Mesi.State>, calls: seq<Call>, from: Mesi.State, to: Mesi.State): nat
    requires InRange(calls, |copies|)
  {
    if calls == [] then 0 else
    var m := |calls| - 1;
    var s := MesiCopies(copies, calls[..m])[calls[m].line];
    MesiMoves(copies, calls[..m], from, to) + if s == from && MesiNext(s, calls[m].event) == to then 1 else 0
  }

  // Each counter is the number of those events, if the states differ; with all copies counted, the
  // copies in a state are the first ones plus the transitions into it minus those out of it.
  lemma {:induction false} MesiCountersTell(copies: seq<Mesi.State>, calls: seq<Call>, i: nat, j: nat)
    requires InRange(calls, |copies|) && i < 4 && j < 4
    ensures var t, s := MesiTable(copies, calls), MESI_ORDER[i];
      && t[i][j] == (if i == j then 0 else MesiMoves(copies, calls, s, MESI_ORDER[j]))
      && CountOf(MesiCopies(copies, calls), s) == CountOf(copies, s) + Flow(t, 4, i)
  {
    NoFlow(4, i);
    if calls != [] {
      var m := |calls| - 1;
      MesiCountersTell(copies, calls[..m], i, j);
      var before := MesiCopies(copies, calls[..m]);
      var s := before[calls[m].line];
      var s' := MesiNext(s, calls[m].event);
      MesiRanks(s, i);
      MesiRanks(s', i);
      MesiRanks(s', j);
      CountUpdate(before, calls[m].line, s', MESI_ORDER[i]);
      if s != s' {
        BumpedFlow(MesiTable(copies, calls[..m]), Mesi.Index(s), Mesi.Index(s'), 4, i);
      }
      hide MesiNext, Mesi.Index, CountOf, Flow;
    }
  }

  lemma {:induction false} MesiRanks(s: Mesi.State, i: nat)
    requires i < 4
    ensures Mesi.Index(s) == i <==> s == MESI_ORDER[i]
  {
  }
}
