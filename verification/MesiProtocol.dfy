// The MESI protocol: next states per event, and the object that counts transitions.
module Mesi {
  import opened Transitions

  datatype State = Modified | Exclusive | Shared | Invalid

  function Index(s: State): (i: nat)
    ensures i < 4
  {
    match s
    case Modified => 0
    case Exclusive => 1
    case Shared => 2
    case Invalid => 3
  }

  function LocalRead(s: State, otherCachesHaveCopy: bool): State {
    match s
    case Invalid => if otherCachesHaveCopy then Shared else Exclusive
    case _ => s
  }

  function LocalWrite(s: State): State {
    Modified
  }

  function RemoteRead(s: State): State {
    match s
    case Modified => Shared
    case Exclusive => Shared
    case _ => s
  }

  function RemoteWrite(s: State): State {
    Invalid
  }

  function Evict(s: State): State {
    Invalid
  }

  predicate RequiresWriteback(s: State) {
    s == Modified
  }

  predicate IsValid(s: State) {
    s != Invalid
  }

  // Only changes of state are recorded.
  function Recorded(t: Table, from: State, to: State): (r: Table)
    requires IsTable(t, 4)
    ensures IsTable(r, 4)
  {
    if from == to then t else Bumped(t, Index(from), Index(to), 4)
  }

  class MesiProtocol {
    var transitionCount: Table

    ghost predicate Valid()
      reads this
    {
      IsTable(transitionCount, 4)
    }

    constructor ()
      ensures Valid() && transitionCount == ZeroTable(4)
    {
      transitionCount := ZeroTable(4);
    }

    method RecordStateTransition(from: State, to: State)
      requires Valid()
      modifies this
      ensures Valid() && transitionCount == Recorded(old(transitionCount), from, to)
    {
      if from != to {
        var fromIdx, toIdx := Index(from), Index(to);
        transitionCount := transitionCount[fromIdx := transitionCount[fromIdx][toIdx := transitionCount[fromIdx][toIdx] + 1]];
      }
    }

    method HandleLocalRead(current: State, otherCachesHaveCopy: bool) returns (next: State)
      requires Valid()
      modifies this
      ensures Valid() && next == LocalRead(current, otherCachesHaveCopy)
      ensures transitionCount == Recorded(old(transitionCount), current, next)
    {
      next := current;
      match current {
        case Invalid => next := if otherCachesHaveCopy then Shared else Exclusive;
        case Modified | Exclusive | Shared => next := current;
      }
      RecordStateTransition(current, next);
    }

    method HandleLocalWrite(current: State) returns (next: State)
      requires Valid()
      modifies this
      ensures Valid() && next == LocalWrite(current)
      ensures transitionCount == Recorded(old(transitionCount), current, next)
    {
      next := Modified;
      RecordStateTransition(current, next);
    }

    method HandleRemoteRead(current: State) returns (next: State)
      requires Valid()
      modifies this
      ensures Valid() && next == RemoteRead(current)
      ensures transitionCount == Recorded(old(transitionCount), current, next)
    {
      next := current;
      match current {
        case Modified | Exclusive => next := Shared;
        case Shared | Invalid => next := current;
      }
      RecordStateTransition(current, next);
    }

    method HandleRemoteWrite(current: State) returns (next: State)
      requires Valid()
      modifies this
      ensures Valid() && next == RemoteWrite(current)
      ensures transitionCount == Recorded(old(transitionCount), current, next)
    {
      next := Invalid;
      RecordStateTransition(current, next);
    }

    method HandleEviction(current: State) returns (next: State)
      requires Valid()
      modifies this
      ensures Valid() && next == Evict(current)
      ensures transitionCount == Recorded(old(transitionCount), current, next)
    {
      next := Invalid;
      RecordStateTransition(current, next);
    }
  }
}
