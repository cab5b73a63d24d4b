// The MOESI protocol: next states per event, and the object that counts transitions.
module Moesi {
  import opened Transitions

  datatype State = Modified | Owned | Exclusive | Shared | Invalid

  function Index(s: State): (i: nat)
    ensures i < 5
  {
    match s
    case Modified => 0
    case Owned => 1
    case Exclusive => 2
    case Shared => 3
    case Invalid => 4
  }

  function LocalRead(s: State, sharedCopy: bool): State {
    match s
    case Invalid => if sharedCopy then Shared else Exclusive
    case _ => s
  }

  function LocalWrite(s: State): State {
    Modified
  }

  function RemoteRead(s: State): State {
    match s
    case Modified => Owned
    case Exclusive => Shared
    case _ => s
  }

  function RemoteWrite(s: State): State {
    Invalid
  }

  predicate RequiresWriteback(s: State) {
    s == Modified || s == Owned
  }

  predicate IsValid(s: State) {
    s != Invalid
  }

  predicate CanSupplyData(s: State) {
    s == Modified || s == Owned || s == Exclusive
  }

  // Every handler call is counted, also when the state does not change.
  function Counted(t: Table, from: State, to: State): (r: Table)
    requires IsTable(t, 5)
    ensures IsTable(r, 5)
  {
    Bumped(t, Index(from), Index(to), 5)
  }

  class MoesiProtocol {
    var transitionCount: Table

    ghost predicate Valid()
      reads this
    {
      IsTable(transitionCount, 5)
    }

    constructor ()
      ensures Valid() && transitionCount == ZeroTable(5)
    {
      transitionCount := ZeroTable(5);
    }

    method RecordStateTransition(from: State, to: State)
      requires Valid()
      modifies this
      ensures Valid() && transitionCount == Counted(old(transitionCount), from, to)
    {
      var fromIdx, toIdx := Index(from), Index(to);
      transitionCount := transitionCount[fromIdx := transitionCount[fromIdx][toIdx := transitionCount[fromIdx][toIdx] + 1]];
    }

    method HandleLocalRead(current: State, sharedCopy: bool) returns (next: State)
      requires Valid()
      modifies this
      ensures Valid() && next == LocalRead(current, sharedCopy)
      ensures transitionCount == Counted(old(transitionCount), current, next)
    {
      match current {
        case Modified | Owned | Exclusive | Shared => next := current;
        case Invalid => next := if sharedCopy then Shared else Exclusive;
      }
      RecordStateTransition(current, next);
    }

    method HandleLocalWrite(current: State) returns (next: State)
      requires Valid()
      modifies this
      ensures Valid() && next == LocalWrite(current)
      ensures transitionCount == Counted(old(transitionCount), current, next)
    {
      match current {
        case Modified => next := Modified;
        case Owned | Exclusive | Shared => next := Modified;
        case Invalid => next := Modified;
      }
      RecordStateTransition(current, next);
    }

    method HandleRemoteRead(current: State) returns (next: State)
      requires Valid()
      modifies this
      ensures Valid() && next == RemoteRead(current)
      ensures transitionCount == Counted(old(transitionCount), current, next)
    {
      match current {
        case Modified => next := Owned;
        case Owned => next := Owned;
        case Exclusive => next := Shared;
        case Shared | Invalid => next := current;
      }
      RecordStateTransition(current, next);
    }

    method HandleRemoteWrite(current: State) returns (next: State)
      requires Valid()
      modifies this
      ensures Valid() && next == RemoteWrite(current)
      ensures transitionCount == Counted(old(transitionCount), current, next)
    {
      match current {
        case Modified | Owned => next := Invalid;
        case Exclusive | Shared => next := Invalid;
        case Invalid => next := Invalid;
      }
      RecordStateTransition(current, next);
    }
  }
}
