// The directory-based coherence controller, and its relation to snooping MESI caches.
module Directory {
  import opened MachineIntegers
  import Mesi
  import Recency

  // Processor ids are 32-bit and owners are stored signed, with -1 for none: an id taken as an
  // owner, or compared with one, becomes signed, and an owner read as an id unsigned again.
  const NO_OWNER: int := -1
  const PHANTOM: nat := 0xFFFF_FFFF
  const ID_LIMIT: int := 0x8000_0000

  function Signed(id: nat): (owner: int)
    ensures -ID_LIMIT <= owner
    ensures id < PHANTOM ==> owner < ID_LIMIT && owner != NO_OWNER && AsId(owner) == id
  {
    if id < ID_LIMIT then id else id - U32_LIMIT
  }

  function AsId(owner: int): (id: nat)
    requires -ID_LIMIT <= owner
  {
    if owner >= 0 then owner else owner + U32_LIMIT
  }

  datatype RequestType = ReadRequest | WriteRequest | InvalidateRequest | WritebackRequest | ShareRequest | FlushRequest

  datatype Entry = Entry(state: Mesi.State, owner: int, sharers: set<nat>, dirty: bool)

  const EMPTY_ENTRY := Entry(Mesi.Invalid, NO_OWNER, {}, false)

  ghost predicate EntryOk(e: Entry) {
    -ID_LIMIT <= e.owner < ID_LIMIT
  }

  // An owner other than the requestor; negative ones are passed over.
  predicate TellsOwner(e: Entry, requestor: nat) {
    e.owner >= 0 && e.owner != Signed(requestor)
  }

  // Sharers and owner other than the requestor.
  function OtherHolders(e: Entry, requestor: nat): set<nat> {
    (e.sharers - {requestor}) + (if TellsOwner(e, requestor) then {e.owner} else {})
  }

  // How many notices reaching those holders takes; an owner among the sharers gets two.
  function Notices(e: Entry, requestor: nat): nat {
    |e.sharers - {requestor}| + if TellsOwner(e, requestor) then 1 else 0
  }

  function NoticesFor(e: Entry, requestor: nat, kind: RequestType): nat {
    match kind
    case WriteRequest =>
      if e.state == Mesi.Shared then Notices(e, requestor)
      else if e.state == Mesi.Invalid || e.owner == Signed(requestor) then 0 else 1
    case InvalidateRequest => Notices(e, requestor)
    case _ => 0
  }

  predicate TakesFromOwner(e: Entry, requestor: nat) {
    (e.state == Mesi.Exclusive || e.state == Mesi.Modified) && e.owner != Signed(requestor)
  }

  // The hops a request takes beyond the first.
  function ExtraHops(e: Entry, requestor: nat, kind: RequestType): nat {
    match kind
    case ReadRequest => if TakesFromOwner(e, requestor) then 1 else 0
    case WriteRequest => NoticesFor(e, requestor, kind)
    case _ => 0
  }

  // The processors told to invalidate.
  function Invalidated(e: Entry, requestor: nat, kind: RequestType): set<nat>
    requires -ID_LIMIT <= e.owner
  {
    match kind
    case WriteRequest =>
      (match e.state
       case Invalid => {}
       case Shared => OtherHolders(e, requestor)
       case _ => if e.owner == Signed(requestor) then {} else {AsId(e.owner)})
    case InvalidateRequest => OtherHolders(e, requestor)
    case _ => {}
  }

  function AfterRequest(e: Entry, requestor: nat, kind: RequestType): Entry
    requires -ID_LIMIT <= e.owner
  {
    match kind
    case ReadRequest =>
      (match e.state
       case Invalid => e.(state := Mesi.Exclusive, owner := Signed(requestor))
       case Shared => e.(sharers := e.sharers + {requestor})
       case _ =>
         if e.owner == Signed(requestor) then e
         else e.(state := Mesi.Shared, sharers := e.sharers + {AsId(e.owner)} + {requestor}, owner := NO_OWNER))
    case WriteRequest =>
      (match e.state
       case Shared => Entry(Mesi.Modified, Signed(requestor), {}, true)
       case _ => e.(state := Mesi.Modified, owner := Signed(requestor), dirty := true))
    case InvalidateRequest => e.(state := Mesi.Invalid, owner := NO_OWNER, sharers := {})
    case WritebackRequest => if e.owner == Signed(requestor) then e.(dirty := false) else e
    case _ => e
  }

  // The state a read or write request is granted.
  function Granted(e: Entry, requestor: nat, kind: RequestType): Mesi.State {
    if kind == WriteRequest then Mesi.Modified else
    match e.state
    case Invalid => Mesi.Exclusive
    case Shared => Mesi.Shared
    case _ => if e.owner == Signed(requestor) then e.state else Mesi.Shared
  }

  predicate Grants(e: Entry, requestor: nat, kind: RequestType) {
    match kind
    case WritebackRequest => e.owner == Signed(requestor)
    case ShareRequest | FlushRequest => false
    case _ => true
  }

  function AfterDrop(e: Entry, p: nat): Entry {
    e.(sharers := e.sharers - {p}, owner := if e.owner == Signed(p) then NO_OWNER else e.owner)
  }

  // The state the directory reports for a processor.
  function LineState(e: Entry, p: nat): Mesi.State {
    if e.state == Mesi.Shared && p in e.sharers then Mesi.Shared
    else if (e.state == Mesi.Exclusive || e.state == Mesi.Modified) && e.owner == Signed(p) then e.state
    else Mesi.Invalid
  }

  function Lookup(directory: map<nat, Entry>, address: nat): Entry {
    if address in directory then directory[address] else EMPTY_ENTRY
  }

  lemma {:induction false} ElemsSnoc(s: seq<nat>, p: nat)
    ensures Recency.Elems(s + [p]) == Recency.Elems(s) + {p}
  {
  }

  // `got` lists the members of `all` other than `exclude` that are no longer in `rest`, each once.
  ghost predicate Collected(all: set<nat>, rest: set<nat>, exclude: nat, got: seq<nat>) {
    rest <= all && Recency.Elems(got) == all - rest - {exclude} && |got| + |rest - {exclude}| == |all - {exclude}|
  }

  lemma {:induction false} NothingCollected(all: set<nat>, exclude: nat)
    ensures Collected(all, all, exclude, []) && Recency.Elems<nat>([]) == {}
  {
    assert Recency.Elems<nat>([]) == {};
  }

  lemma {:induction false} AllCollected(all: set<nat>, exclude: nat, got: seq<nat>)
    requires Collected(all, {}, exclude, got)
    ensures Recency.Elems(got) == all - {exclude} && |got| == |all - {exclude}|
  {
    assert {} - {exclude} == {};
  }

  lemma {:induction false} Collect(all: set<nat>, rest: set<nat>, p: nat, exclude: nat, got: seq<nat>)
    requires Collected(all, rest, exclude, got) && p in rest
    ensures Collected(all, rest - {p}, exclude, if p == exclude then got else got + [p])
  {
    OneLess(rest, p, exclude);
    OneMore(all, rest, p, exclude);
    ElemsSnoc(got, p);
    hide Recency.Elems;
  }

  lemma {:induction false} OneLess(rest: set<nat>, p: nat, exclude: nat)
    requires p in rest
    ensures |rest - {exclude}| == |rest - {p} - {exclude}| + if p == exclude then 0 else 1
  {
    var less := rest - {p} - {exclude};
    if p == exclude {
      assert less == rest - {exclude};
    } else {
      assert rest - {exclude} == less + {p};
    }
  }

  lemma {:induction false} OneMore(all: set<nat>, rest: set<nat>, p: nat, exclude: nat)
    requires p in rest && rest <= all
    ensures all - (rest - {p}) - {exclude} == (all - rest - {exclude}) + if p == exclude then {} else {p}
  {
  }

  lemma {:induction false} Unserved(e: Entry, requestor: nat, kind: RequestType)
    requires -ID_LIMIT <= e.owner && kind in {ShareRequest, FlushRequest}
    ensures AfterRequest(e, requestor, kind) == e && Invalidated(e, requestor, kind) == {}
  {
  }

  class CoherenceController {
    const numProcessors: nat
    const interconnectLatency: nat
    var directory: map<nat, Entry>
    var readRequests: nat
    var writeRequests: nat
    var invalidations: nat
    var writebacks: nat
    var stateTransitions: nat
    var coherenceMessages: nat

    ghost predicate Valid()
      reads this`directory
    {
      forall a :: a in directory ==> EntryOk(directory[a])
    }

    constructor (numProcessors: nat, interconnectLatency: nat)
      ensures Valid() && directory == map[]
      ensures this.numProcessors == numProcessors && this.interconnectLatency == interconnectLatency
    {
      this.numProcessors := numProcessors;
      this.interconnectLatency := interconnectLatency;
      directory := map[];
      readRequests, writeRequests, invalidations, writebacks := 0, 0, 0, 0;
      stateTransitions, coherenceMessages := 0, 0;
    }

    // The sharers other than `exclude` in some order, each once, then the owner.
    method InvalidateSharers(address: nat, exclude: U32) returns (invalidated: seq<nat>)
      requires Valid()
      ensures Recency.Elems(invalidated) == OtherHolders(Lookup(directory, address), exclude)
      ensures |invalidated| == Notices(Lookup(directory, address), exclude)
      ensures var e := Lookup(directory, address);
        && |e.sharers - {exclude}| <= |invalidated|
        && Recency.Elems(invalidated[..|e.sharers - {exclude}|]) == e.sharers - {exclude}
        && (TellsOwner(e, exclude) ==> invalidated[|invalidated| - 1] == e.owner)
    {
      hide Recency.Elems, Collected;
      invalidated := [];
      NothingCollected({}, exclude);
      if address in directory {
        var entry := directory[address];
        var sharers := OtherSharers(entry.sharers, exclude);
        invalidated := sharers;
        ElemsSnoc(sharers, AsId(entry.owner));
        if entry.owner >= 0 && entry.owner != Signed(exclude) {
          invalidated := sharers + [entry.owner];
        }
        assert invalidated[..|sharers|] == sharers;
      }
    }

    static method OtherSharers(sharers: set<nat>, exclude: U32) returns (others: seq<nat>)
      ensures Recency.Elems(others) == sharers - {exclude} && |others| == |sharers - {exclude}|
    {
      others := [];
      var rest := sharers;
      hide Recency.Elems, Collected;
      NothingCollected(sharers, exclude);
      while rest != {}
        invariant Collected(sharers, rest, exclude, others)
        decreases |rest|
      {
        var sharer :| sharer in rest;
        Collect(sharers, rest, sharer, exclude, others);
        if sharer != exclude {
          others := others + [sharer];
        }
        rest := rest - {sharer};
      }
      AllCollected(sharers, exclude, others);
    }

    // Every request makes its message; a read is a hop longer when it takes the line from an
    // owner, a write by a hop for each processor it invalidates.
    method ProcessRequest(requestor: U32, address: nat, kind: RequestType)
      returns (granted: bool, hasData: bool, newState: Mesi.State, latency: nat, invalidated: seq<nat>)
      requires Valid()
      modifies this
      ensures Valid()
      ensures var e := Lookup(old(directory), address);
        && directory == old(directory)[address := AfterRequest(e, requestor, kind)]
        && Recency.Elems(invalidated) == Invalidated(e, requestor, kind)
        && |invalidated| == NoticesFor(e, requestor, kind)
        && (kind == ReadRequest || kind == WriteRequest ==> newState == Granted(e, requestor, kind))
        && granted == Grants(e, requestor, kind) && !hasData
        && latency == interconnectLatency + interconnectLatency * ExtraHops(e, requestor, kind)
      ensures coherenceMessages == old(coherenceMessages) + 1 && stateTransitions == old(stateTransitions)
      ensures readRequests == old(readRequests) + (if kind == ReadRequest then 1 else 0)
      ensures writeRequests == old(writeRequests) + (if kind == WriteRequest then 1 else 0)
      ensures writebacks == old(writebacks) + (if kind == WritebackRequest then 1 else 0)
      ensures invalidations == old(invalidations)
                             + (if kind == WriteRequest then |invalidated| else if kind == InvalidateRequest then 1 else 0)
    {
      hide AfterRequest, Invalidated, OtherHolders, Notices, Valid, Signed, TakesFromOwner;
      granted, hasData, newState, latency, invalidated := false, false, Mesi.Invalid, interconnectLatency, [];
      var entry := GetOrCreateEntry(address);
      match kind {
        case ReadRequest =>
          readRequests := readRequests + 1;
          granted := true;
          var hops;
          entry, newState, hops := ServeRead(entry, requestor);
          latency := latency + interconnectLatency * hops;
        case WriteRequest =>
          writeRequests := writeRequests + 1;
          granted, newState := true, Mesi.Modified;
          entry, invalidated := ServeWrite(address, requestor);
          latency := latency + interconnectLatency * |invalidated|;
          invalidations := invalidations + |invalidated|;
        case InvalidateRequest =>
          invalidations := invalidations + 1;
          entry, invalidated := ServeInvalidate(address, requestor);
          granted := true;
        case WritebackRequest =>
          writebacks := writebacks + 1;
          entry, granted := ServeWriteback(entry, requestor);
        case ShareRequest | FlushRequest => Unserved(entry, requestor, kind);
      }
      Store(address, entry);
      coherenceMessages := coherenceMessages + 1;
    }

    // A read request on an entry; `hops` counts the extra trips to a remote owner.
    static method ServeRead(e: Entry, requestor: U32) returns (entry: Entry, newState: Mesi.State, hops: nat)
      requires EntryOk(e)
      ensures entry == AfterRequest(e, requestor, ReadRequest) && newState == Granted(e, requestor, ReadRequest)
      ensures Invalidated(e, requestor, ReadRequest) == {}
      ensures EntryOk(entry) && hops == if TakesFromOwner(e, requestor) then 1 else 0
    {
      entry, hops := e, 0;
      if entry.state == Mesi.Invalid {
        entry := entry.(state := Mesi.Exclusive, owner := Signed(requestor));
        newState := Mesi.Exclusive;
      } else if entry.state == Mesi.Exclusive || entry.state == Mesi.Modified {
        if entry.owner == Signed(requestor) {
          newState := entry.state;
        } else {
          entry := entry.(state := Mesi.Shared);
          entry := entry.(sharers := entry.sharers + {AsId(entry.owner)});
          entry := entry.(sharers := entry.sharers + {requestor});
          entry := entry.(owner := NO_OWNER);
          newState, hops := Mesi.Shared, 1;
        }
      } else {
        entry := entry.(sharers := entry.sharers + {requestor});
        newState := Mesi.Shared;
      }
    }

    // A write request on an entry of the directory.
    method ServeWrite(address: nat, requestor: U32) returns (entry: Entry, invalidated: seq<nat>)
      requires Valid() && address in directory
      ensures entry == AfterRequest(directory[address], requestor, WriteRequest) && EntryOk(entry)
      ensures Recency.Elems(invalidated) == Invalidated(directory[address], requestor, WriteRequest)
      ensures |invalidated| == NoticesFor(directory[address], requestor, WriteRequest)
    {
      entry, invalidated := directory[address], [];
      if entry.state == Mesi.Invalid {
        entry := entry.(state := Mesi.Modified, owner := Signed(requestor), dirty := true);
      } else if entry.state == Mesi.Shared {
        invalidated := InvalidateSharers(address, requestor);
        entry := entry.(state := Mesi.Modified, owner := Signed(requestor), sharers := {}, dirty := true);
      } else if entry.owner == Signed(requestor) {
        entry := entry.(state := Mesi.Modified, dirty := true);
      } else {
        invalidated := [AsId(entry.owner)];
        entry := entry.(state := Mesi.Modified, owner := Signed(requestor), dirty := true);
      }
    }

    method GetOrCreateEntry(address: nat) returns (entry: Entry)
      requires Valid()
      modifies this`directory
      ensures Valid() && EntryOk(entry) && entry == Lookup(old(directory), address)
      ensures directory == old(directory)[address := entry]
    {
      entry := if address in directory then directory[address] else EMPTY_ENTRY;
      directory := directory[address := entry];
    }

    method Store(address: nat, entry: Entry)
      requires Valid() && EntryOk(entry)
      modifies this`directory
      ensures Valid() && directory == old(directory)[address := entry]
    {
      directory := directory[address := entry];
    }

    method ServeInvalidate(address: nat, requestor: U32) returns (entry: Entry, invalidated: seq<nat>)
      requires Valid() && address in directory
      ensures entry == AfterRequest(directory[address], requestor, InvalidateRequest) && EntryOk(entry)
      ensures Recency.Elems(invalidated) == Invalidated(directory[address], requestor, InvalidateRequest)
      ensures |invalidated| == Notices(directory[address], requestor)
    {
      invalidated := InvalidateSharers(address, requestor);
      entry := directory[address].(state := Mesi.Invalid, owner := NO_OWNER, sharers := {});
    }

    static method ServeWriteback(e: Entry, requestor: U32) returns (entry: Entry, granted: bool)
      requires EntryOk(e)
      ensures entry == AfterRequest(e, requestor, WritebackRequest) && EntryOk(entry)
      ensures granted <==> e.owner == Signed(requestor)
      ensures Invalidated(e, requestor, WritebackRequest) == {}
    {
      entry, granted := e, false;
      if entry.owner == Signed(requestor) {
        entry := entry.(dirty := false);
        granted := true;
      }
    }

    method UpdateCacheState(processorId: U32, address: nat, newState: Mesi.State)
      requires Valid()
      modifies this
      ensures Valid()
      ensures var e := Lookup(old(directory), address);
        directory == old(directory)[address := if newState == Mesi.Invalid then AfterDrop(e, processorId) else e]
      ensures stateTransitions == old(stateTransitions) + 1
    {
      stateTransitions := stateTransitions + 1;
      var entry := if address in directory then directory[address] else EMPTY_ENTRY;
      if newState == Mesi.Invalid {
        entry := entry.(sharers := entry.sharers - {processorId});
        if entry.owner == Signed(processorId) {
          entry := entry.(owner := NO_OWNER);
        }
      }
      directory := directory[address := entry];
    }

    method GetCacheLineState(processorId: U32, address: nat) returns (state: Mesi.State)
      ensures state == LineState(Lookup(directory, address), processorId)
    {
      if address !in directory {
        return Mesi.Invalid;
      }
      var entry := directory[address];
      if entry.state == Mesi.Shared && processorId in entry.sharers {
        return Mesi.Shared;
      } else if (entry.state == Mesi.Exclusive || entry.state == Mesi.Modified) && entry.owner == Signed(processorId) {
        return entry.state;
      }
      return Mesi.Invalid;
    }
  }
}
