// The cache as the program runs it: way-scanning loops over vectors of blocks, one policy
// object per set, a MESI protocol object, counters, and calls into the next level.
module CacheObject {
  import opened MachineIntegers
  import opened ReplacementPolicies
  import CacheModel
  import Mesi
  import opened Transitions

  type Block = CacheModel.Block

  // ---------- A policy object of any of the three kinds ----------

  datatype PolicyObject = LruObject(lru: LRUPolicy) | FifoObject(fifo: FIFOPolicy) | PlruObject(plru: PLRUPolicy) {
    function Obj(): object {
      match this
      case LruObject(p) => p
      case FifoObject(p) => p
      case PlruObject(p) => p
    }

    ghost predicate Valid(ways: nat)
      reads Obj()
    {
      match this
      case LruObject(p) => p.Valid() && p.numBlocks == ways
      case FifoObject(p) => p.Valid() && p.numBlocks == ways
      case PlruObject(p) => p.Valid() && p.numBlocks == ways
    }

    ghost function State(): PolicyState
      reads Obj()
    {
      match this
      case LruObject(p) => p.State()
      case FifoObject(p) => p.State()
      case PlruObject(p) => p.State()
    }

    method OnAccess(way: nat, ghost ways: nat)
      requires Valid(ways) && way < ways
      modifies Obj()
      ensures Valid(ways) && State() == Accessed(old(State()), way, ways)
    {
      match this {
        case LruObject(p) => p.OnAccess(way);
        case FifoObject(p) =>
        case PlruObject(p) => p.OnAccess(way);
      }
    }

    method OnInstall(way: nat, ghost ways: nat)
      requires Valid(ways) && way < ways
      modifies Obj()
      ensures Valid(ways) && State() == Installed(old(State()), way, ways)
    {
      match this {
        case LruObject(p) => p.OnInstall(way);
        case FifoObject(p) => p.OnInstall(way);
        case PlruObject(p) => p.OnAccess(way);
      }
    }

    method SelectVictim(valid: seq<bool>) returns (r: nat)
      requires Valid(|valid|)
      ensures r == Victim(State(), valid)
    {
      match this {
        case LruObject(p) => r := p.SelectVictim(valid);
        case FifoObject(p) => r := p.SelectVictim(valid);
        case PlruObject(p) => r := p.SelectVictim(valid);
      }
    }
  }

  ghost predicate Separate(ps: seq<PolicyObject>) {
    forall i, j :: 0 <= i < j < |ps| ==> ps[i].Obj() != ps[j].Obj()
  }

  method CreatePolicy(kind: PolicyKind, ways: nat) returns (p: PolicyObject)
    requires ways > 0 && (kind == PLRU ==> IsPowerOfTwo(ways))
    ensures p.Valid(ways) && fresh(p.Obj()) && p.State() == Initial(kind, ways)
  {
    match kind {
      case LRU => var o := new LRUPolicy(ways); p := LruObject(o);
      case FIFO => var o := new FIFOPolicy(ways); p := FifoObject(o);
      case PLRU => var o := new PLRUPolicy(ways); p := PlruObject(o);
    }
  }

  method CreatePolicies(kind: PolicyKind, ways: nat, n: nat) 
    returns (ps: seq<PolicyObject>, ghost objects: set<object>)
    requires ways > 0 && (kind == PLRU ==> IsPowerOfTwo(ways))
    ensures |ps| == n && Separate(ps) && fresh(objects) && forall i :: 0 <= i < n ==> ps[i].Obj() in objects
    ensures forall i :: 0 <= i < n ==> ps[i].Valid(ways) && fresh(ps[i].Obj()) && ps[i].State() == Initial(kind, ways)
  {
    ps, objects := [], {};
    for i := 0 to n
      invariant |ps| == i && Separate(ps) && fresh(objects) && forall j :: 0 <= j < i ==> ps[j].Obj() in objects
      invariant forall j :: 0 <= j < i ==> ps[j].Valid(ways) && fresh(ps[j].Obj()) && ps[j].State() == Initial(kind, ways)
    {
      var p := CreatePolicy(kind, ways);
      ps, objects := ps + [p], objects + {p.Obj()};
    }
  }

  // ---------- The cache ----------

  class Cache {
    const config: CacheModel.Config
    const replacementPolicies: seq<PolicyObject>
    const mesiProtocol: Mesi.MesiProtocol
    var sets: seq<seq<Block>>
    var hits: nat
    var misses: nat
    var readCount: nat
    var writeCount: nat
    var writeBacks: nat
    var writeThroughs: nat
    var missTypeStats: seq<nat>

    ghost const Repr: set<object>

    // How the objects are wired together; none of this changes after construction.
    ghost predicate Wired() {
      && CacheModel.ValidConfig(config)
      && |replacementPolicies| == config.numSets
      && Separate(replacementPolicies)
      && mesiProtocol as object != this
      && (forall s :: 0 <= s < |replacementPolicies| ==>
            replacementPolicies[s].Obj() != this && replacementPolicies[s].Obj() != mesiProtocol)
      && this in Repr && mesiProtocol in Repr
      && PoliciesIn(|replacementPolicies|)
    }

    ghost predicate PoliciesIn(n: nat) {
      n <= |replacementPolicies| && forall s :: 0 <= s < n ==> replacementPolicies[s].Obj() in Repr
    }

    ghost predicate Valid()
      reads Repr
      ensures Valid() ==> Wired()
      ensures Valid() ==> CacheModel.ValidConfig(config) && |sets| == config.numSets && CacheModel.Shape(config, Value())
      ensures Valid() ==> forall s :: 0 <= s < config.numSets ==> |sets[s]| == config.ways && Value().sets[s].blocks == sets[s]
    {
      && Wired()
      && |sets| == config.numSets
      && (forall s :: 0 <= s < config.numSets ==> replacementPolicies[s].Valid(config.ways))
      && mesiProtocol.Valid()
      && CacheModel.Shape(config, Value())
    }

    // The blocks and policy state of the first n sets.
    ghost function SetValues(n: nat): (r: seq<CacheModel.CacheSet>)
      reads this`sets, Repr
      requires n <= |sets| && PoliciesIn(n)
      ensures |r| == n
      ensures forall s :: 0 <= s < n ==> r[s] == CacheModel.CacheSet(sets[s], replacementPolicies[s].State())
    {
      if n == 0 then [] else
      SetValues(n - 1) + [CacheModel.CacheSet(sets[n - 1], replacementPolicies[n - 1].State())]
    }

    // The cache value this object stands for.
    ghost function Value(): CacheModel.Cache
      reads Repr
      requires Wired() && |sets| == config.numSets
    {
      CacheModel.Cache(SetValues(|sets|), StatsValue(), mesiProtocol.transitionCount)
    }

    ghost function StatsValue(): CacheModel.Stats
      reads this
    {
      CacheModel.Stats(hits, misses, readCount, writeCount, writeBacks, writeThroughs, missTypeStats)
    }

    constructor (config: CacheModel.Config)
      requires CacheModel.ValidConfig(config)
      ensures Valid() && fresh(Repr) && this.config == config
      ensures Value() == CacheModel.Cold(config)
    {
      this.config := config;
      var ps, objects := CreatePolicies(config.policy, config.ways, config.numSets);
      replacementPolicies := ps;
      var protocol := new Mesi.MesiProtocol();
      mesiProtocol := protocol;
      Repr := {this, protocol} + objects;
      sets := seq(config.numSets, _ => seq(config.ways, _ => CacheModel.EMPTY_BLOCK));
      hits, misses, readCount, writeCount, writeBacks, writeThroughs := 0, 0, 0, 0, 0, 0;
      missTypeStats := [0, 0, 0, 0];
      new;
      hide CacheModel.Shape, IsPowerOfTwo, Initial;
      CacheModel.ColdShape(config);
      Assembled();
    }

    lemma {:induction false} Assembled()
      requires Wired() && |sets| == config.numSets && StatsValue() == CacheModel.Cold(config).stats
      requires forall s :: 0 <= s < config.numSets ==> sets[s] == CacheModel.Cold(config).sets[s].blocks
      requires forall s :: 0 <= s < config.numSets ==>
        replacementPolicies[s].State() == Initial(config.policy, config.ways)
      requires mesiProtocol.transitionCount == ZeroTable(4)
      ensures Value() == CacheModel.Cold(config)
    {
      assert Value().sets == CacheModel.Cold(config).sets;
    }

    method FindBlock(address: U32) returns (way: int)
      requires Valid()
      ensures way == CacheModel.FindWayFrom(sets[CacheModel.SetOf(config, address)],
                                            CacheModel.TagOf(config, address), 0)
    {
      var tag, setIndex := CacheModel.TagOf(config, address), CacheModel.SetOf(config, address);
      var blocks := sets[setIndex];
      assert CacheModel.SetShape(config, Value().sets[setIndex]);
      for i := 0 to config.ways
        invariant CacheModel.FindWayFrom(blocks, tag, 0) == CacheModel.FindWayFrom(blocks, tag, i)
      {
        if blocks[i].valid && blocks[i].tag == tag {
          return i;
        }
      }
      return -1;
    }

    method ClassifyMiss(setIndex: nat) returns (t: nat)
      requires setIndex < |sets|
      ensures t == CacheModel.MissType(config, sets[setIndex])
      ensures t == CacheModel.COMPULSORY <==> exists w :: 0 <= w < |sets[setIndex]| && !sets[setIndex][w].valid
      ensures t != CacheModel.COMPULSORY ==>
        t == if config.ways < config.numSets then CacheModel.CONFLICT else CacheModel.CAPACITY
    {
      var blocks := sets[setIndex];
      for i := 0 to |blocks|
        invariant CacheModel.FirstInvalidFrom(blocks, 0) == CacheModel.FirstInvalidFrom(blocks, i)
      {
        if !blocks[i].valid {
          return CacheModel.COMPULSORY;
        }
      }
      t := if config.ways < config.numSets then CacheModel.CONFLICT else CacheModel.CAPACITY;
    }

    method FindVictim(setIndex: nat) returns (way: nat)
      requires Valid() && setIndex < config.numSets
      ensures CacheModel.SetShape(config, Value().sets[setIndex])
      ensures way == CacheModel.FindVictim(Value().sets[setIndex])
    {
      var blocks := sets[setIndex];
      assert CacheModel.SetShape(config, Value().sets[setIndex]);
      for i := 0 to config.ways
        invariant CacheModel.FirstInvalidFrom(blocks, 0) == CacheModel.FirstInvalidFrom(blocks, i)
      {
        if !blocks[i].valid {
          return i;
        }
      }
      way := replacementPolicies[setIndex].SelectVictim(CacheModel.AllTrue(config.ways));
    }

    // ---------- Updates of one set ----------

    method StoreBlock(setIndex: nat, way: nat, block: Block)
      requires Valid() && setIndex < config.numSets && way < config.ways
      modifies this`sets
      ensures Valid()
      ensures Value() == WithBlock(old(Value()), setIndex, way, block)
    {
      ghost var before := Value();
      assert CacheModel.SetShape(config, before.sets[setIndex]);
      sets := sets[setIndex := sets[setIndex][way := block]];
      assert Value().sets == WithBlock(before, setIndex, way, block).sets;
    }

    method NotifyAccess(setIndex: nat, way: nat)
      requires Valid() && setIndex < config.numSets && way < config.ways
      modifies replacementPolicies[setIndex].Obj()
      ensures Valid()
      ensures Value() == WithPolicy(old(Value()), setIndex, Accessed(old(Value()).sets[setIndex].policy, way, config.ways))
    {
      ghost var before := Value();
      assert CacheModel.SetShape(config, before.sets[setIndex]);
      replacementPolicies[setIndex].OnAccess(way, config.ways);
      assert forall s :: 0 <= s < config.numSets && s != setIndex ==> replacementPolicies[s].State() == before.sets[s].policy;
      assert Value().sets == WithPolicy(before, setIndex, Accessed(before.sets[setIndex].policy, way, config.ways)).sets;
    }

    method NotifyInstall(setIndex: nat, way: nat)
      requires Valid() && setIndex < config.numSets && way < config.ways
      modifies replacementPolicies[setIndex].Obj()
      ensures Valid()
      ensures Value() == WithPolicy(old(Value()), setIndex, Installed(old(Value()).sets[setIndex].policy, way, config.ways))
    {
      ghost var before := Value();
      assert CacheModel.SetShape(config, before.sets[setIndex]);
      replacementPolicies[setIndex].OnInstall(way, config.ways);
      assert forall s :: 0 <= s < config.numSets && s != setIndex ==> replacementPolicies[s].State() == before.sets[s].policy;
      assert Value().sets == WithPolicy(before, setIndex, Installed(before.sets[setIndex].policy, way, config.ways)).sets;
    }

    method Record(from: Mesi.State, to: Mesi.State)
      requires Valid()
      modifies mesiProtocol
      ensures Valid()
      ensures Value() == old(Value()).(transitions := Mesi.Recorded(old(Value()).transitions, from, to))
    {
      ghost var before := Value();
      mesiProtocol.RecordStateTransition(from, to);
      assert Value().sets == before.sets;
    }

    method RemoteWrite(state: Mesi.State) returns (next: Mesi.State)
      requires Valid()
      modifies mesiProtocol
      ensures Valid() && next == Mesi.RemoteWrite(state)
      ensures Value() == old(Value()).(transitions := Mesi.Recorded(old(Value()).transitions, state, next))
    {
      ghost var before := Value();
      next := mesiProtocol.HandleRemoteWrite(state);
      assert Value().sets == before.sets;
    }

    method CountAccess(isWrite: bool)
      requires Valid()
      modifies this`readCount, this`writeCount
      ensures Valid()
      ensures Value() == old(Value()).(stats := CacheModel.Count(old(Value()).stats, isWrite))
    {
      if isWrite {
        writeCount := writeCount + 1;
      } else {
        readCount := readCount + 1;
      }
    }

    method CountHit()
      requires Valid()
      modifies this`hits
      ensures Valid()
      ensures Value() == var k := old(Value()); k.(stats := k.stats.(hits := k.stats.hits + 1))
    {
      hits := hits + 1;
    }

    method CountMiss(setIndex: nat)
      requires Valid() && setIndex < config.numSets
      modifies this`misses, this`missTypeStats
      ensures Valid()
      ensures Value() == CacheModel.CountMiss(config, old(Value()), setIndex)
    {
      misses := misses + 1;
      var missType := ClassifyMiss(setIndex);
      missTypeStats := missTypeStats[missType := missTypeStats[missType] + 1];
    }

    method CountWriteBack()
      requires Valid()
      modifies this`writeBacks
      ensures Valid()
      ensures Value() == var k := old(Value()); k.(stats := k.stats.(writeBacks := k.stats.writeBacks + 1))
    {
      writeBacks := writeBacks + 1;
    }

    method CountWriteThrough()
      requires Valid()
      modifies this`writeThroughs
      ensures Valid()
      ensures Value() == var k := old(Value()); k.(stats := k.stats.(writeThroughs := k.stats.writeThroughs + 1))
    {
      writeThroughs := writeThroughs + 1;
    }

    method CountCoherenceMiss()
      requires Valid()
      modifies this`missTypeStats
      ensures Valid()
      ensures Value() == var k := old(Value());
                         k.(stats := k.stats.(missTypes := k.stats.missTypes[CacheModel.COHERENCE := k.stats.missTypes[CacheModel.COHERENCE] + 1]))
    {
      missTypeStats := missTypeStats[CacheModel.COHERENCE := missTypeStats[CacheModel.COHERENCE] + 1];
    }

    // ---------- Requests to the next level ----------

    ghost predicate Below(nextLevel: Cache?)
      reads Repr, if nextLevel == null then {} else nextLevel.Repr
    {
      nextLevel != null ==> nextLevel.Valid() && nextLevel.Repr !! Repr
    }

    method Send(address: U32, isWrite: bool, nextLevel: Cache?)
      requires Valid() && Below(nextLevel)
      modifies if nextLevel == null then {} else nextLevel.Repr
      ensures Valid() && Below(nextLevel) && Value() == old(Value())
      ensures nextLevel != null ==>
        nextLevel.Value() == CacheModel.Access(nextLevel.config, old(nextLevel.Value()), address, isWrite).cache
      decreases if nextLevel == null then 0 else 1, 0
    {
      hide Valid, CacheModel.Shape, CacheModel.SetShape, CacheModel.Access;
      if nextLevel != null {
        var _ := nextLevel.Access(address, isWrite, null);
      }
    }

    // One access, exactly as the cache value prescribes; the requests it issues reach the next level in order.
    method Access(address: U32, isWrite: bool, nextLevel: Cache?) returns (hit: bool)
      requires Valid() && Below(nextLevel)
      modifies Repr, if nextLevel == null then {} else nextLevel.Repr
      ensures Valid() && Below(nextLevel)
      ensures hit == CacheModel.Access(config, old(Value()), address, isWrite).hit
      ensures Value() == CacheModel.Access(config, old(Value()), address, isWrite).cache
      ensures nextLevel != null ==>
        nextLevel.Value() == CacheModel.Serve(nextLevel.config, old(nextLevel.Value()),
                                              CacheModel.Access(config, old(Value()), address, isWrite).issued)
      decreases if nextLevel == null then 0 else 1, 4
    {
      hide Valid, CacheModel.Shape, CacheModel.SetShape, CacheModel.HitStep, CacheModel.MissStep;
      CountAccess(isWrite);
      var setIndex := CacheModel.SetOf(config, address);
      var way := FindBlock(address);
      if way >= 0 {
        AccessHit(address, isWrite, setIndex, way, nextLevel);
        return true;
      } else {
        AccessMiss(address, isWrite, setIndex, nextLevel);
        return false;
      }
    }

    method AccessHit(address: U32, isWrite: bool, setIndex: nat, way: nat, nextLevel: Cache?)
      requires Valid() && Below(nextLevel) && setIndex < config.numSets && way < config.ways
      modifies Repr, if nextLevel == null then {} else nextLevel.Repr
      ensures Valid() && Below(nextLevel)
      ensures Value() == CacheModel.HitStep(config, old(Value()), address, isWrite, setIndex, way).cache
      ensures nextLevel != null ==>
        nextLevel.Value() == CacheModel.Serve(nextLevel.config, old(nextLevel.Value()),
                                              CacheModel.HitStep(config, old(Value()), address, isWrite, setIndex, way).issued)
      decreases if nextLevel == null then 0 else 1, 3
    {
      hide Valid, CacheModel.Shape, CacheModel.SetShape, Accessed, CacheModel.TouchBlock, CacheModel.Serve, Value;
      CountHit();
      TouchBlock(address, isWrite, setIndex, way, nextLevel);
      NotifyAccess(setIndex, way);
    }

    method TouchBlock(address: U32, isWrite: bool, setIndex: nat, way: nat, nextLevel: Cache?)
      requires Valid() && Below(nextLevel) && setIndex < config.numSets && way < config.ways
      modifies Repr, if nextLevel == null then {} else nextLevel.Repr
      ensures Valid() && Below(nextLevel)
      ensures Value() == CacheModel.TouchBlock(config, old(Value()), address, isWrite, setIndex, way).cache
      ensures nextLevel != null ==>
        nextLevel.Value() == CacheModel.Serve(nextLevel.config, old(nextLevel.Value()),
                                              CacheModel.TouchBlock(config, old(Value()), address, isWrite, setIndex, way).issued)
      decreases if nextLevel == null then 0 else 1, 2
    {
      hide Valid, CacheModel.Shape, CacheModel.SetShape, Mesi.Recorded, CacheModel.Access, CacheModel.Serve;
      if nextLevel != null {
        CacheModel.ServeOne(nextLevel.config, nextLevel.Value(), CacheModel.Request(address, true));
      }
      if !isWrite {
        SameBlock(Value(), setIndex, way);
      } else if config.write == CacheModel.WriteThrough {
        WriteThroughHit(address, setIndex, way, nextLevel);
      } else {
        WriteBackHit(setIndex, way);
      }
    }

    method WriteThroughHit(address: U32, setIndex: nat, way: nat, nextLevel: Cache?)
      requires Valid() && Below(nextLevel) && setIndex < config.numSets && way < config.ways
      modifies Repr, if nextLevel == null then {} else nextLevel.Repr
      ensures Valid() && Below(nextLevel)
      ensures var k := old(Value());
              Value() == WithBlock(k, setIndex, way, k.sets[setIndex].blocks[way].(dirty := false)).(
                           stats := k.stats.(writeThroughs := k.stats.writeThroughs + 1))
      ensures nextLevel != null ==>
        nextLevel.Value() == CacheModel.Access(nextLevel.config, old(nextLevel.Value()), address, true).cache
      decreases if nextLevel == null then 0 else 1, 1
    {
      hide Valid, CacheModel.Shape, CacheModel.SetShape, CacheModel.Access;
      var block := sets[setIndex][way];
      CountWriteThrough();
      Send(address, true, nextLevel);
      StoreBlock(setIndex, way, block.(dirty := false));
    }

    method WriteBackHit(setIndex: nat, way: nat)
      requires Valid() && setIndex < config.numSets && way < config.ways
      modifies Repr
      ensures Valid()
      ensures var k := old(Value());
              var b := k.sets[setIndex].blocks[way];
              Value() == WithBlock(k, setIndex, way, b.(dirty := true, mesi := Mesi.Modified)).(
                           transitions := Mesi.Recorded(k.transitions, b.mesi, Mesi.Modified))
    {
      hide Valid, CacheModel.Shape, CacheModel.SetShape, Mesi.Recorded;
      var block := sets[setIndex][way];
      StoreBlock(setIndex, way, block.(dirty := true, mesi := Mesi.Modified));
      Record(block.mesi, Mesi.Modified);
    }

    method AccessMiss(address: U32, isWrite: bool, setIndex: nat, nextLevel: Cache?)
      requires Valid() && Below(nextLevel) && setIndex < config.numSets
      modifies Repr, if nextLevel == null then {} else nextLevel.Repr
      ensures Valid() && Below(nextLevel)
      ensures Value() == CacheModel.MissStep(config, old(Value()), address, isWrite, setIndex).cache
      ensures nextLevel != null ==>
        nextLevel.Value() == CacheModel.Serve(nextLevel.config, old(nextLevel.Value()),
                                              CacheModel.MissStep(config, old(Value()), address, isWrite, setIndex).issued)
      decreases if nextLevel == null then 0 else 1, 3
    {
      hide Valid, CacheModel.Shape, CacheModel.SetShape, CacheModel.Serve, CacheModel.ReplaceStep, CacheModel.FindVictim,
           CacheModel.CountMiss, Fits;
      CacheModel.ShapeOfSet(config, Value(), setIndex);
      CountMiss(setIndex);
      var victim := FindVictim(setIndex);
      ReplaceBlock(address, isWrite, setIndex, victim, nextLevel);
    }

    method ReplaceBlock(address: U32, isWrite: bool, setIndex: nat, victim: nat, nextLevel: Cache?)
      requires Valid() && Below(nextLevel) && setIndex < config.numSets && victim < config.ways
      modifies Repr, if nextLevel == null then {} else nextLevel.Repr
      ensures Valid() && Below(nextLevel)
      ensures Value() == CacheModel.ReplaceStep(config, old(Value()), address, isWrite, setIndex, victim).cache
      ensures nextLevel != null ==>
        nextLevel.Value() == CacheModel.Serve(nextLevel.config, old(nextLevel.Value()),
                                              CacheModel.ReplaceStep(config, old(Value()), address, isWrite, setIndex, victim).issued)
      decreases if nextLevel == null then 0 else 1, 2
    {
      hide Valid, CacheModel.Shape, CacheModel.SetShape, CacheModel.Serve, CacheModel.Access, Installed, Mesi.Recorded;
      ghost var k := Value();
      var victimBlock := sets[setIndex][victim];
      CacheModel.ShapeOfSet(config, k, setIndex);
      BlockThenPolicy(k, setIndex, victim, CacheModel.NewBlock(CacheModel.TagOf(config, address), isWrite),
                      Installed(k.sets[setIndex].policy, victim, config.ways));
      if nextLevel != null {
        ServedInOrder(nextLevel.config, nextLevel.Value(),
                      if victimBlock.valid && CacheModel.NeedsWriteback(victimBlock)
                      then [CacheModel.Request(CacheModel.VictimAddress(config, victimBlock.tag, setIndex), true)] else [],
                      CacheModel.Request(address, false));
      }
      WriteBackVictim(setIndex, victim, nextLevel);
      InstallBlock(address, setIndex, victim, isWrite, nextLevel);
      NotifyInstall(setIndex, victim);
    }

    method WriteBackVictim(setIndex: nat, way: nat, nextLevel: Cache?)
      requires Valid() && Below(nextLevel) && setIndex < config.numSets && way < config.ways
      modifies Repr, if nextLevel == null then {} else nextLevel.Repr
      ensures Valid() && Below(nextLevel)
      ensures var k := old(Value());
              var b := k.sets[setIndex].blocks[way];
              Value() == k.(stats := k.stats.(writeBacks := k.stats.writeBacks
                                                   + (if b.valid && (b.dirty || b.mesi == Mesi.Modified) then 1 else 0)))
      ensures nextLevel != null ==>
                var b := old(sets[setIndex][way]);
                nextLevel.Value() == if b.valid && (b.dirty || b.mesi == Mesi.Modified)
                                     then CacheModel.Access(nextLevel.config, old(nextLevel.Value()),
                                                            CacheModel.VictimAddress(config, b.tag, setIndex), true).cache
                                     else old(nextLevel.Value())
      decreases if nextLevel == null then 0 else 1, 1
    {
      hide Valid, CacheModel.Shape, CacheModel.SetShape, CacheModel.Access;
      var victimBlock := sets[setIndex][way];
      if victimBlock.valid && CacheModel.NeedsWriteback(victimBlock) {
        CountWriteBack();
        Send(CacheModel.VictimAddress(config, victimBlock.tag, setIndex), true, nextLevel);
      }
    }

    method InstallBlock(address: U32, setIndex: nat, way: nat, isWrite: bool, nextLevel: Cache?)
      requires Valid() && Below(nextLevel) && setIndex < config.numSets && way < config.ways
      modifies Repr, if nextLevel == null then {} else nextLevel.Repr
      ensures Valid() && Below(nextLevel)
      ensures var k, b := old(Value()), CacheModel.NewBlock(CacheModel.TagOf(config, address), isWrite);
              Value() == WithBlock(k, setIndex, way, b).(
                transitions := Mesi.Recorded(k.transitions, k.sets[setIndex].blocks[way].mesi, b.mesi))
      ensures nextLevel != null ==>
        nextLevel.Value() == CacheModel.Access(nextLevel.config, old(nextLevel.Value()), address, false).cache
      decreases if nextLevel == null then 0 else 1, 1
    {
      hide Valid, CacheModel.Shape, CacheModel.SetShape, CacheModel.Access, Mesi.Recorded;
      Send(address, false, nextLevel);
      var oldState := sets[setIndex][way].mesi;
      StoreBlock(setIndex, way, CacheModel.NewBlock(CacheModel.TagOf(config, address), isWrite));
      Record(oldState, if isWrite then Mesi.Modified else Mesi.Exclusive);
    }

    // ---------- Coherence ----------

    method UpdateMesiState(address: U32, newState: Mesi.State)
      requires Valid()
      modifies Repr
      ensures Valid() && Value() == CacheModel.SetState(config, old(Value()), address, newState)
      ensures |sets| == |old(sets)| && forall s :: 0 <= s < |sets| ==> |sets[s]| == |old(sets)[s]|
      ensures forall s, w :: 0 <= s < |sets| && 0 <= w < |sets[s]| ==>
        sets[s][w].dirty == old(sets)[s][w].dirty && sets[s][w].tag == old(sets)[s][w].tag
    {
      hide Valid, CacheModel.Shape, CacheModel.SetShape, Mesi.Recorded;
      var setIndex := CacheModel.SetOf(config, address);
      var way := FindBlock(address);
      if way >= 0 {
        var block := sets[setIndex][way];
        Record(block.mesi, newState);
        StoreBlock(setIndex, way, block.(mesi := newState, valid := newState != Mesi.Invalid));
      }
    }

    method InvalidateBlock(address: U32)
      requires Valid()
      modifies Repr
      ensures Valid() && Value() == CacheModel.Invalidate(config, old(Value()), address)
    {
      hide Valid, CacheModel.Shape, CacheModel.SetShape, Mesi.Recorded;
      var setIndex := CacheModel.SetOf(config, address);
      var way := FindBlock(address);
      if way >= 0 {
        var block := sets[setIndex][way];
        var next := RemoteWrite(block.mesi);
        StoreBlock(setIndex, way, block.(mesi := next, valid := if next == Mesi.Invalid then false else block.valid));
        if next == Mesi.Invalid {
          CountCoherenceMiss();
        }
      }
    }
  }

  // `k` with one block, or one policy state, replaced.
  ghost function WithBlock(k: CacheModel.Cache, s: nat, way: nat, b: Block): CacheModel.Cache
    requires s < |k.sets| && way < |k.sets[s].blocks|
  {
    k.(sets := k.sets[s := k.sets[s].(blocks := k.sets[s].blocks[way := b])])
  }

  ghost function WithPolicy(k: CacheModel.Cache, s: nat, p: PolicyState): CacheModel.Cache
    requires s < |k.sets|
  {
    k.(sets := k.sets[s := k.sets[s].(policy := p)])
  }

  lemma {:induction false} ServedInOrder(c: CacheModel.Config, k: CacheModel.Cache, first: seq<CacheModel.Request>, last: CacheModel.Request)
    requires CacheModel.Shape(c, k) && |first| <= 1
    ensures CacheModel.Serve(c, k, first + [last])
         == CacheModel.Access(c, if first == [] then k else CacheModel.Access(c, k, first[0].address, first[0].isWrite).cache,
                              last.address, last.isWrite).cache
  {
    CacheModel.ServeSnoc(c, k, first, last);
    if first != [] {
      assert first == [first[0]];
      CacheModel.ServeOne(c, k, first[0]);
    }
  }

  lemma {:induction false} BlockThenPolicy(k: CacheModel.Cache, s: nat, way: nat, b: Block, p: PolicyState)
    requires s < |k.sets| && way < |k.sets[s].blocks|
    ensures WithPolicy(WithBlock(k, s, way, b), s, p).sets
         == k.sets[s := CacheModel.CacheSet(k.sets[s].blocks[way := b], p)]
  {
  }

  lemma {:induction false} SameBlock(k: CacheModel.Cache, s: nat, way: nat)
    requires s < |k.sets| && way < |k.sets[s].blocks|
    ensures WithBlock(k, s, way, k.sets[s].blocks[way]) == k
  {
    assert k.sets[s].blocks[way := k.sets[s].blocks[way]] == k.sets[s].blocks;
    assert k.sets[s := k.sets[s]] == k.sets;
  }
}
