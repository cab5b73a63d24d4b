// What the recency-list refinement gives for runs of an LRU cache from cold: exact hit
// prediction by stack distance, inclusion between cache geometries, and miss counts.
module LruTheorems {
  import opened MachineIntegers
  import opened Recency
  import opened CacheModel
  import opened LruCache
  import R = ReplacementPolicies
  import Mesi

  // The block numbers a list of requests touches.
  function Blocks(c: Config, requests: seq<Request>): (r: seq<nat>)
    requires ValidConfig(c)
    ensures |r| == |requests|
  {
    seq(|requests|, i requires 0 <= i < |requests| => BlockOf(c, requests[i].address))
  }

  predicate Contains(c: Config, k: CacheModel.Cache, address: U32)
    requires Shape(c, k)
  {
    FindWayFrom(k.sets[SetOf(c, address)].blocks, TagOf(c, address), 0) >= 0
  }

  lemma {:induction false} ContainsIsHeld(c: Config, k: CacheModel.Cache, address: U32)
    requires Invariant(c, k) && c.policy == R.LRU
    ensures Contains(c, k, address) <==> Holds(Abstract(c, k), BlockOf(c, address))
  {
    AccessRefines(c, k, address, false);
  }

  lemma {:induction false} ColdIsEmpty(c: Config, order: seq<nat>, blocks: seq<Block>, s: nat)
    requires WaysIn(order, |blocks|) && forall i :: 0 <= i < |blocks| ==> !blocks[i].valid
    ensures Listing(c, order, blocks, s) == []
  {
    if order != [] {
      ColdIsEmpty(c, order[1..], blocks, s);
    }
  }

  lemma {:induction false} ColdAbstract(c: Config)
    requires ValidConfig(c) && c.policy == R.LRU
    ensures Invariant(c, Cold(c)) && Abstract(c, Cold(c)) == ColdLists(c.numSets)
  {
    ColdInvariant(c);
    forall s | 0 <= s < c.numSets
      ensures Abstract(c, Cold(c))[s] == []
    {
      var set_ := Cold(c).sets[s];
      ColdIsEmpty(c, set_.policy.order, set_.blocks, s);
    }
  }

  ghost predicate Tracks(c: Config, k: CacheModel.Cache, trace: seq<nat>) {
    && ValidConfig(c) && c.policy == R.LRU
    && Invariant(c, k)
    && Abstract(c, k) == Lists(trace, c.numSets, c.ways)
    && k.stats.misses == Misses(ColdLists(c.numSets), trace, c.ways)
    && k.stats.hits + k.stats.misses == |trace|
  }

  lemma {:induction false} TracksCold(c: Config)
    requires ValidConfig(c) && c.policy == R.LRU
    ensures Shape(c, Cold(c)) && Tracks(c, Cold(c), [])
  {
    ColdAbstract(c);
    assert Accesses([]) == [];
  }

  lemma {:induction false} TrackOneMore(c: Config, k: CacheModel.Cache, trace: seq<nat>, r: Request)
    requires Tracks(c, k, trace)
    ensures Tracks(c, CacheModel.Access(c, k, r.address, r.isWrite).cache, trace + [BlockOf(c, r.address)])
  {
    hide CacheModel.Access, Shape, StepLists, SetInvariant;
    AccessRefines(c, k, r.address, r.isWrite);
    AccessCounts(c, k, r.address, r.isWrite);
    ListsSnoc(trace, BlockOf(c, r.address), c.numSets, c.ways);
    MissesSnoc(ColdLists(c.numSets), trace, BlockOf(c, r.address), c.ways);
  }

  // After any requests the cache stands for the list rule run on their blocks, and its miss
  // counter is the number of times the rule missed.
  lemma {:induction false} ServeRefines(c: Config, requests: seq<Request>)
    requires ValidConfig(c) && c.policy == R.LRU
    ensures Tracks(c, Serve(c, Cold(c), requests), Blocks(c, requests))
  {
    hide CacheModel.Access, Shape, Tracks, Cold;
    TracksCold(c);
    if requests == [] {
      assert Blocks(c, requests) == [];
    } else {
      var n := |requests| - 1;
      ServeRefines(c, requests[..n]);
      TrackOneMore(c, Serve(c, Cold(c), requests[..n]), Blocks(c, requests[..n]), requests[n]);
      assert Blocks(c, requests) == Blocks(c, requests[..n]) + [BlockOf(c, requests[n].address)];
    }
  }

  // An access hits exactly when its block was touched before and fewer than `ways` distinct
  // other blocks of its set were touched since.
  lemma {:induction false} HitIffStackDistance(c: Config, requests: seq<Request>, next: Request)
    requires ValidConfig(c) && c.policy == R.LRU
    ensures var trace, b := Blocks(c, requests), BlockOf(c, next.address);
            CacheModel.Access(c, Serve(c, Cold(c), requests), next.address, next.isWrite).hit
            <==> b in trace && |Since(trace, c.numSets, b)| < c.ways
  {
    ServeRefines(c, requests);
    AccessRefines(c, Serve(c, Cold(c), requests), next.address, next.isWrite);
    StackDistance(Blocks(c, requests), c.numSets, c.ways, BlockOf(c, next.address));
  }

  // Two LRU caches with equal block size, where the first has a set count dividing the
  // second's and no more ways.
  ghost predicate Smaller(c1: Config, c2: Config, k: nat) {
    && ValidConfig(c1) && ValidConfig(c2)
    && c1.policy == R.LRU && c2.policy == R.LRU
    && c1.blockSize == c2.blockSize
    && k > 0 && c2.numSets == c1.numSets * k
    && c1.ways <= c2.ways
  }

  // On every trace from cold, whatever the smaller cache contains the larger one contains,
  // and the larger one hits at least as often. Write policies may differ.
  lemma {:induction false} InclusionOnEveryTrace(c1: Config, c2: Config, k: nat, requests: seq<Request>, address: U32)
    requires Smaller(c1, c2, k)
    ensures Contains(c1, Serve(c1, Cold(c1), requests), address) ==> Contains(c2, Serve(c2, Cold(c2), requests), address)
    ensures Serve(c1, Cold(c1), requests).stats.hits <= Serve(c2, Cold(c2), requests).stats.hits
  {
    hide Serve, Cold, Misses, Lists, Since, FindWayFrom;
    ColdShape(c1);
    ColdShape(c2);
    ServeRefines(c1, requests);
    ServeRefines(c2, requests);
    var trace := Blocks(c1, requests);
    assert trace == Blocks(c2, requests);
    ContainsIsHeld(c1, Serve(c1, Cold(c1), requests), address);
    ContainsIsHeld(c2, Serve(c2, Cold(c2), requests), address);
    Inclusion(trace, c1.numSets, k, c1.ways, c2.ways, BlockOf(c1, address));
    InclusionMisses(trace, c1.numSets, k, c1.ways, c2.ways);
  }

  // ---------- Runs that also carry coherence traffic ----------

  datatype Command =
    | Issue(request: Request)
    | Invalidated(address: U32)
    | Updated(address: U32, state: Mesi.State)

  function Obey(c: Config, k: CacheModel.Cache, m: Command): (r: CacheModel.Cache)
    requires Shape(c, k)
    ensures Shape(c, r)
  {
    match m
    case Issue(q) => CacheModel.Access(c, k, q.address, q.isWrite).cache
    case Invalidated(a) => CacheModel.Invalidate(c, k, a)
    case Updated(a, state) => SetState(c, k, a, state)
  }

  function ObeyAll(c: Config, k: CacheModel.Cache, commands: seq<Command>): (r: CacheModel.Cache)
    requires Shape(c, k)
    ensures Shape(c, r)
  {
    if commands == [] then k else
    var n := |commands| - 1;
    Obey(c, ObeyAll(c, k, commands[..n]), commands[n])
  }

  // The list events of a command; an update to a valid state is none.
  function EventsOf(c: Config, m: Command): seq<Event>
    requires ValidConfig(c)
  {
    match m
    case Issue(q) => [Recency.Access(BlockOf(c, q.address))]
    case Invalidated(a) => [Recency.Invalidate(BlockOf(c, a))]
    case Updated(a, state) => if state == Mesi.Invalid then [Recency.Invalidate(BlockOf(c, a))] else []
  }

  function AllEvents(c: Config, commands: seq<Command>): seq<Event>
    requires ValidConfig(c)
  {
    if commands == [] then [] else
    var n := |commands| - 1;
    AllEvents(c, commands[..n]) + EventsOf(c, commands[n])
  }

  lemma {:induction false} RunOneMore(lists: seq<seq<nat>>, before: seq<Event>, e: Event, ways: nat)
    requires |lists| > 0
    ensures RunLists(lists, before + [e], ways) == StepLists(RunLists(lists, before, ways), e, ways)
  {
    assert (before + [e])[..|before|] == before;
  }

  // Under any mix of accesses, invalidations and state updates the recency lists of the
  // sets evolve by the list rule.
  lemma {:induction false} ObeyRefines(c: Config, commands: seq<Command>)
    requires ValidConfig(c) && c.policy == R.LRU
    ensures var k := ObeyAll(c, Cold(c), commands);
            Invariant(c, k) && Abstract(c, k) == RunLists(ColdLists(c.numSets), AllEvents(c, commands), c.ways)
  {
    ColdAbstract(c);
    if commands != [] {
      var n := |commands| - 1;
      ObeyRefines(c, commands[..n]);
      ObeyOneMore(c, ObeyAll(c, Cold(c), commands[..n]), commands[n], ColdLists(c.numSets), AllEvents(c, commands[..n]));
    }
    hide Obey, EventsOf, Cold, ColdLists, Invariant, Abstract;
  }

  lemma {:induction false} ObeyOneMore(c: Config, k: CacheModel.Cache, m: Command, cold: seq<seq<nat>>, events: seq<Event>)
    requires Invariant(c, k) && c.policy == R.LRU && |cold| == c.numSets
    requires Abstract(c, k) == RunLists(cold, events, c.ways)
    ensures Invariant(c, Obey(c, k, m)) && Abstract(c, Obey(c, k, m)) == RunLists(cold, events + EventsOf(c, m), c.ways)
  {
    match m {
      case Issue(q) =>
        AccessRefines(c, k, q.address, q.isWrite);
        RunOneMore(cold, events, Recency.Access(BlockOf(c, q.address)), c.ways);
      case Invalidated(a) =>
        InvalidateRefines(c, k, a);
        RunOneMore(cold, events, Recency.Invalidate(BlockOf(c, a)), c.ways);
      case Updated(a, state) =>
        SetStateRefines(c, k, a, state);
        if state == Mesi.Invalid {
          RunOneMore(cold, events, Recency.Invalidate(BlockOf(c, a)), c.ways);
        } else {
          assert events + [] == events;
        }
    }
    hide RunLists, StepLists, CacheModel.Access, SetState, CacheModel.Invalidate, Abstract;
  }

  // The lists are duplicate-free and never longer than the associativity.
  lemma {:induction false} ListsAreBounded(c: Config, commands: seq<Command>, s: nat)
    requires ValidConfig(c) && c.policy == R.LRU && s < c.numSets
    ensures var list := Abstract(c, ObeyAll(c, Cold(c), commands))[s];
            Distinct(list) && |list| <= c.ways && forall b :: b in list ==> b % c.numSets == s
  {
    ObeyRefines(c, commands);
    var k := ObeyAll(c, Cold(c), commands);
    var set_ := k.sets[s];
    ListingDistinct(c, set_.policy.order, set_.blocks, s);
    forall b | b in Abstract(c, k)[s]
      ensures b % c.numSets == s
    {
      ListingMembers(c, set_.policy.order, set_.blocks, s, b);
      var w :| w in set_.policy.order && w < |set_.blocks| && BlockNumber(c, set_.blocks[w].tag, s) == b;
      BlockNumberInverts(c, set_.blocks[w].tag, s);
    }
  }
}
