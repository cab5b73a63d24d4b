// The MSI protocol: next states per event, and the object that counts transitions.
module Msi {
  import opened Transitions

  datatype State = Modified | Shared | Invalid

  function Index(s: State): (i: nat)
    ensures i < 3
  {
    match s
    case Modified => 0
    case Shared => 1
    case Invalid => 2
  }

  function LocalRead(s: State, sharedCopy: bool): State {
    match s
    case Invalid => Shared
    case _ => s
  }

  function LocalWrite(s: State): State {
    Modified
  }

  function RemoteRead(s: State): State {
    match s
    case Modified => Shared
    case _ => s
  }

  function RemoteWrite(s: State): State {
    Invalid
  }

  predicate RequiresWriteback(s: State) {
    s == Modified
  }

  predicate IsValid(s: State) {
    s != Invalid
  }

  // Every handler call is counted, also when the state does not change.
  function Counted(t: Table, from: State, to: State): (r: Table)
    requires IsTable(t, 3)
    ensures IsTable(r, 3)
  {
    Bumped(t, Index(from), Index(to), 3)
  }

  class MsiProtocol {
    var transitionCount: Table

    ghost predicate Valid()
      reads this
    {
      IsTable(transitionCount, 3)
    }

    constructor ()
      ensures Valid() && transitionCount == ZeroTable(3)
    {
      transitionCount := ZeroTable(3);
    }

    method RecordStateTransition(from: State, to: State)
      requires Valid()
      modifies this
      ensures Valid() && transitionCount == Counted(old(transitionCount), from, to)
    {
      var fromIdx, toIdx := Index(from), Index(to);
      transitionCount := transitionCount[fromIdx := transitionCount[fromIdx][toIdx := transitionCount[fromIdx][toIdx] + 1]];
    }

    method HandleLocalRead(current: State, sharedCopy: bool) returns (next: State)
      requires Valid()
      modifies this
      ensures Valid() && next == LocalRead(current, sharedCopy)
      ensures transitionCount == Counted(old(transitionCount), current, next)
    {
      match current {
        case Modified | Shared => next := current;
        case Invalid => next := Shared;
      }
      RecordStateTransition(current, next);
    }

    method HandleLocalWrite(current: State) returns (next: State)
      requires Valid()
      modifies this
      ensures Valid() && next == LocalWrite(current)
      ensures transitionCount == Counted(old(transitionCount), current, next)
    {
      match current {
        case Modified => next := Modified;
        case Shared | Invalid => next := Modified;
      }
      RecordStateTransition(current, next);
    }

    method HandleRemoteRead(current: State) returns (next: State)
      requires Valid()
      modifies this
      ensures Valid() && next == RemoteRead(current)
      ensures transitionCount == Counted(old(transitionCount), current, next)
    {
      match current {
        case Modified => next := Shared;
        case Shared | Invalid => next := current;
      }
      RecordStateTransition(current, next);
    }

    method HandleRemoteWrite(current: State) returns (next: State)
      requires Valid()
      modifies this
      ensures Valid() && next == RemoteWrite(current)
      ensures transitionCount == Counted(old(transitionCount), current, next)
    {
      match current {
        case Modified | Shared => next := Invalid;
        case Invalid => next := Invalid;
      }
      RecordStateTransition(current, next);
    }
  }
}
