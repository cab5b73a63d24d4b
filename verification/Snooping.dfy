// N caches snooping one line under MOESI: a read or write applies the local handler to one
// cache and the remote handler to all others. Data values and memory are added to say what
// the states are for.
module Snooping {
  import Moesi

  datatype Action = Read(p: nat) | Write(p: nat, value: int) | Evict(p: nat)

  ghost predicate InRange(actions: seq<Action>, n: nat) {
    forall i :: 0 <= i < |actions| ==> actions[i].p < n
  }

  predicate OthersValid(copies: seq<Moesi.State>, p: nat) {
    exists j :: 0 <= j < |copies| && j != p && Moesi.IsValid(copies[j])
  }

  // The state of every cache after an action.
  function NextCopies(copies: seq<Moesi.State>, a: Action): (r: seq<Moesi.State>)
    requires a.p < |copies|
    ensures |r| == |copies|
  {
    var shared := OthersValid(copies, a.p);
    seq(|copies|, j requires 0 <= j < |copies| =>
      match a
      case Read(p) => if j == p then Moesi.LocalRead(copies[j], shared) else Moesi.RemoteRead(copies[j])
      case Write(p, _) => if j == p then Moesi.LocalWrite(copies[j]) else Moesi.RemoteWrite(copies[j])
      case Evict(p) => if j == p then Moesi.Invalid else copies[j])
  }

  // ---------- Data ----------

  // `values[j]` is what cache j holds for the line; it means something only while j is valid.
  datatype System = System(copies: seq<Moesi.State>, values: seq<int>, memory: int)

  ghost predicate Supplies(m: System, p: nat, j: int)
    requires |m.values| == |m.copies|
  {
    0 <= j < |m.copies| && j != p && Moesi.CanSupplyData(m.copies[j])
  }

  // A miss is served by a holder that can supply data, and by memory when there is none.
  ghost predicate Fetched(m: System, p: nat, v: int)
    requires |m.values| == |m.copies|
  {
    if exists j :: Supplies(m, p, j) then exists j :: Supplies(m, p, j) && v == m.values[j] else v == m.memory
  }

  // A line that stops requiring a write-back is written back.
  ghost predicate Drops(m: System, copies': seq<Moesi.State>, j: int)
    requires |copies'| == |m.copies|
  {
    0 <= j < |m.copies| && Moesi.RequiresWriteback(m.copies[j]) && !Moesi.RequiresWriteback(copies'[j])
  }

  ghost predicate WrittenBack(m: System, copies': seq<Moesi.State>, memory': int)
    requires |m.values| == |m.copies| == |copies'|
  {
    if exists j :: Drops(m, copies', j) then exists j :: Drops(m, copies', j) && memory' == m.values[j]
    else memory' == m.memory
  }

  ghost predicate Next(m: System, a: Action, m': System) {
    && a.p < |m.copies| == |m.values| == |m'.values|
    && m'.copies == NextCopies(m.copies, a)
    && WrittenBack(m, m'.copies, m'.memory)
    && (forall j :: 0 <= j < |m.values| && j != a.p ==> m'.values[j] == m.values[j])
    && match a
       case Read(p) => if Moesi.IsValid(m.copies[p]) then m'.values[p] == m.values[p] else Fetched(m, p, m'.values[p])
       case Write(p, v) => m'.values[p] == v
       case Evict(_) => true
  }

  ghost predicate Start(m: System) {
    |m.values| == |m.copies| && forall j :: 0 <= j < |m.copies| ==> m.copies[j] == Moesi.Invalid
  }

  ghost predicate IsRun(states: seq<System>, actions: seq<Action>) {
    && |states| == |actions| + 1
    && Start(states[0])
    && forall i :: 0 <= i < |actions| ==> Next(states[i], actions[i], states[i + 1])
  }

  // What the line should contain: the last value written, or memory's first content.
  function LastWritten(initial: int, actions: seq<Action>): int {
    if actions == [] then initial else
    var n := |actions| - 1;
    if actions[n].Write? then actions[n].value else LastWritten(initial, actions[..n])
  }

  // ---------- Safety ----------

  ghost predicate Alone(s: Moesi.State) {
    s == Moesi.Modified || s == Moesi.Exclusive
  }

  // M or E excludes every other valid copy, and two caches are never both M or O.
  ghost predicate Exclusion(copies: seq<Moesi.State>) {
    forall i, j :: 0 <= i < |copies| && 0 <= j < |copies| && i != j ==>
      && (Alone(copies[i]) ==> copies[j] == Moesi.Invalid)
      && !(Moesi.RequiresWriteback(copies[i]) && Moesi.RequiresWriteback(copies[j]))
  }

  // Every valid copy holds the last written value, and so does memory unless some cache
  // still has to write it back.
  ghost predicate DataCurrent(m: System, latest: int) {
    && |m.values| == |m.copies|
    && (forall j :: 0 <= j < |m.copies| && Moesi.IsValid(m.copies[j]) ==> m.values[j] == latest)
    && (m.memory == latest || exists j :: 0 <= j < |m.copies| && Moesi.RequiresWriteback(m.copies[j]))
  }

  lemma {:induction false} ExclusionKept(copies: seq<Moesi.State>, a: Action)
    requires Exclusion(copies) && a.p < |copies|
    ensures Exclusion(NextCopies(copies, a))
  {
  }

  lemma {:induction false} ReadKeepsData(m: System, p: nat, m': System, latest: int)
    requires Exclusion(m.copies) && DataCurrent(m, latest) && Next(m, Read(p), m')
    ensures DataCurrent(m', latest) && m'.values[p] == latest
  {
    assert forall j :: 0 <= j < |m.copies| && Moesi.RequiresWriteback(m.copies[j]) ==> Moesi.RequiresWriteback(m'.copies[j]);
    if !Moesi.IsValid(m.copies[p]) {
      if j :| Supplies(m, p, j) {
      } else {
        forall j | 0 <= j < |m.copies|
          ensures !Moesi.RequiresWriteback(m.copies[j])
        {
          assert !Supplies(m, p, j);
        }
      }
    }
  }

  lemma {:induction false} WriteKeepsData(m: System, p: nat, v: int, m': System, latest: int)
    requires DataCurrent(m, latest) && Next(m, Write(p, v), m')
    ensures DataCurrent(m', v)
  {
    assert Moesi.RequiresWriteback(m'.copies[p]);
  }

  lemma {:induction false} EvictKeepsData(m: System, p: nat, m': System, latest: int)
    requires Exclusion(m.copies) && DataCurrent(m, latest) && Next(m, Evict(p), m')
    ensures DataCurrent(m', latest)
  {
    if Moesi.RequiresWriteback(m.copies[p]) {
      assert Drops(m, m'.copies, p);
    } else {
      assert forall j :: !Drops(m, m'.copies, j);
      if j :| 0 <= j < |m.copies| && Moesi.RequiresWriteback(m.copies[j]) {
        assert Moesi.RequiresWriteback(m'.copies[j]);
      }
    }
  }

  // In every run of reads, writes and evictions on any number of caches the copies exclude
  // each other as they should and hold the last written value, and so does memory unless a
  // cache owes a write-back.
  lemma {:induction false} MoesiSafety(states: seq<System>, actions: seq<Action>)
    requires IsRun(states, actions)
    ensures var m := states[|actions|];
            Exclusion(m.copies) && DataCurrent(m, LastWritten(states[0].memory, actions))
  {
    if actions != [] {
      var n := |actions| - 1;
      var latest := LastWritten(states[0].memory, actions[..n]);
      MoesiSafety(states[..n + 1], actions[..n]);
      ExclusionKept(states[n].copies, actions[n]);
      match actions[n] {
        case Read(p) => ReadKeepsData(states[n], p, states[n + 1], latest);
        case Write(p, v) => WriteKeepsData(states[n], p, v, states[n + 1], latest);
        case Evict(p) => EvictKeepsData(states[n], p, states[n + 1], latest);
      }
    }
  }

  // Whatever supplier serves it, a read returns the last written value.
  lemma {:induction false} ReadsReturnLastWritten(states: seq<System>, actions: seq<Action>, i: nat)
    requires IsRun(states, actions) && i < |actions| && actions[i].Read?
    ensures states[i + 1].values[actions[i].p] == LastWritten(states[0].memory, actions[..i])
  {
    MoesiSafety(states[..i + 1], actions[..i]);
    ReadKeepsData(states[i], actions[i].p, states[i + 1], LastWritten(states[0].memory, actions[..i]));
  }

  // When no cache can supply the line, memory is current.
  lemma {:induction false} MemoryServesUnsuppliedMiss(states: seq<System>, actions: seq<Action>, p: nat)
    requires IsRun(states, actions)
    requires var m := states[|actions|]; p < |m.copies| && !Moesi.IsValid(m.copies[p])
    requires var m := states[|actions|];
             forall j :: 0 <= j < |m.copies| && j != p ==> !Moesi.CanSupplyData(m.copies[j])
    ensures states[|actions|].memory == LastWritten(states[0].memory, actions)
  {
    MoesiSafety(states, actions);
  }

  // Every action can be taken in every state, so runs do not get stuck.
  lemma {:induction false} StepExists(m: System, a: Action) returns (m': System)
    requires |m.values| == |m.copies| && a.p < |m.copies|
    ensures Next(m, a, m')
  {
    var copies' := NextCopies(m.copies, a);
    var memory' := m.memory;
    if j :| Drops(m, copies', j) {
      memory' := m.values[j];
    }
    var v := match a case Write(_, value) => value case _ => m.values[a.p];
    if a.Read? && !Moesi.IsValid(m.copies[a.p]) {
      v := m.memory;
      if j :| Supplies(m, a.p, j) {
        v := m.values[j];
      }
    }
    m' := System(copies', m.values[a.p := v], memory');
  }
}
