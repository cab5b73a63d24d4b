// What a cached block's dirty flag and coherence state say about its past, which evictions are
// therefore written back, and that no write is lost unless its block is set Invalid.
module BlockHistory {
  import opened MachineIntegers
  import opened Arithmetic
  import opened ReplacementPolicies
  import opened CacheModel
  import opened WriteConservation
  import opened LruTheorems
  import Mesi

  // ---------- One access ----------

  // A miss sends down a write into the victim's block if and only if the victim is valid and dirty
  // or Modified, and then reads the missed address; `writeBacks` counts exactly these writes.
  lemma {:induction false} MissSends(c: Config, k: Cache, r: Request)
    requires Invariant(c, k) && !Contains(c, k, r.address)
    ensures var o, s := Access(c, k, r.address, r.isWrite), SetOf(c, r.address);
      var victim := k.sets[s].blocks[FindVictim(k.sets[s])];
      var owed := victim.valid && (victim.dirty || victim.mesi == Mesi.Modified);
      && |o.issued| == 1 + Flag(owed) && o.issued[|o.issued| - 1] == Request(r.address, false)
      && (owed ==> o.issued[0].isWrite && BlockOf(c, o.issued[0].address) == BlockNumber(c, victim.tag, s))
      && o.cache.stats.writeBacks == k.stats.writeBacks + Flag(owed)
      && o.cache.stats.writeThroughs == k.stats.writeThroughs
  {
    var s := SetOf(c, r.address);
    var victim := k.sets[s].blocks[FindVictim(k.sets[s])];
    if victim.valid {
      VictimAddressInverts(c, victim.tag, s);
    }
    hide FindWayFrom, FindVictim, Installed, Mesi.Recorded, VictimAddress;
  }

  // A hit sends down the write itself, under write-through only, and counts it.
  lemma {:induction false} HitSends(c: Config, k: Cache, r: Request)
    requires Shape(c, k) && Contains(c, k, r.address)
    ensures var o := Access(c, k, r.address, r.isWrite);
      && o.issued == (if r.isWrite && c.write == WriteThrough then [r] else [])
      && o.cache.stats.writeThroughs == k.stats.writeThroughs + Flag(r.isWrite && c.write == WriteThrough)
      && o.cache.stats.writeBacks == k.stats.writeBacks
  {
    hide FindWayFrom, Accessed, Mesi.Recorded;
  }

  // ---------- One state update ----------

  // A state update changes the state and validity of the one block, if the cache has it, and
  // nothing else of it, of any other block, of the policies or of the counters.
  lemma {:induction false} SetStateChangesOnly(c: Config, k: Cache, address: U32, state: Mesi.State)
    requires Shape(c, k)
    ensures var k', s := SetState(c, k, address, state), SetOf(c, address);
      var way := FindWayFrom(k.sets[s].blocks, TagOf(c, address), 0);
      && k'.stats == k.stats
      && forall t, w :: 0 <= t < c.numSets && 0 <= w < c.ways ==>
           var before, after := k.sets[t].blocks[w], k'.sets[t].blocks[w];
           && k'.sets[t].policy == k.sets[t].policy && after.tag == before.tag && after.dirty == before.dirty
           && (if t == s && w == way then after.mesi == state && (after.valid <==> state != Mesi.Invalid)
               else after == before)
  {
  }

  // An invalidation does the same with Invalid, and counts a coherence miss if the cache has the block.
  lemma {:induction false} InvalidateChangesOnly(c: Config, k: Cache, address: U32)
    requires Shape(c, k)
    ensures var k' := CacheModel.Invalidate(c, k, address);
      && k'.sets == SetState(c, k, address, Mesi.Invalid).sets
      && k'.stats == k.stats.(missTypes := k'.stats.missTypes)
      && forall t :: 0 <= t < 4 ==>
           k'.stats.missTypes[t] == k.stats.missTypes[t] + Flag(t == COHERENCE && Contains(c, k, address))
  {
  }

  // ---------- What the flags remember ----------

  // The dirty flag and state a block should have, by its history alone.
  datatype Mark = Mark(dirty: bool, state: Mesi.State)

  function Before(commands: seq<Command>): seq<Command>
    requires commands != []
  {
    commands[..|commands| - 1]
  }

  // Installed by a write: dirty and Modified; by a read: clean and Exclusive. A write hit makes it
  // dirty and Modified under write-back, and clean under write-through. A state update sets the state.
  function MarkOf(c: Config, commands: seq<Command>, b: nat): Mark
    requires ValidConfig(c)
  {
    if commands == [] then Mark(false, Mesi.Invalid) else
    ColdShape(c);
    var before, k := MarkOf(c, Before(commands), b), ObeyAll(c, Cold(c), Before(commands));
    match commands[|commands| - 1]
    case Issue(q) =>
      if BlockOf(c, q.address) != b then before
      else if !Contains(c, k, q.address) then Mark(q.isWrite, if q.isWrite then Mesi.Modified else Mesi.Exclusive)
      else if !q.isWrite then before
      else if c.write == WriteBack then Mark(true, Mesi.Modified)
      else Mark(false, before.state)
    case Invalidated(a) => if BlockOf(c, a) == b then Mark(before.dirty, Mesi.Invalid) else before
    case Updated(a, state) => if BlockOf(c, a) == b && Contains(c, k, a) then Mark(before.dirty, state) else before
  }

  function WayOf(c: Config, k: Cache, b: nat): (way: int)
    requires Shape(c, k)
    ensures way < c.ways
  {
    FindWayFrom(k.sets[b % c.numSets].blocks, b / c.numSets, 0)
  }

  function BlockAt(c: Config, k: Cache, b: nat): Block
    requires Shape(c, k) && WayOf(c, k, b) >= 0
  {
    k.sets[b % c.numSets].blocks[WayOf(c, k, b)]
  }

  ghost predicate Shows(c: Config, k: Cache, b: nat, m: Mark)
    requires Shape(c, k)
  {
    WayOf(c, k, b) >= 0 ==> BlockAt(c, k, b).dirty == m.dirty && BlockAt(c, k, b).mesi == m.state
  }

  // An access to another block leaves a block as it is, or evicts it.
  lemma {:induction false} OtherBlockKept(c: Config, k: Cache, r: Request, b: nat)
    requires Invariant(c, k) && BlockOf(c, r.address) != b
    ensures var k' := Access(c, k, r.address, r.isWrite).cache;
      WayOf(c, k', b) >= 0 ==> WayOf(c, k, b) == WayOf(c, k', b) && BlockAt(c, k', b) == BlockAt(c, k, b)
  {
    var s, k' := b % c.numSets, Access(c, k, r.address, r.isWrite).cache;
    AccessSets(c, k, r.address, r.isWrite);
    if SetOf(c, r.address) == s && TagOf(c, r.address) == b / c.numSets {
      SameBlockNumber(c, r.address, b);
    }
    var way := WayOf(c, k', b);
    if way >= 0 {
      StillFound(c, k.sets[s], s, way);
    }
    hide Access, Invariant;
  }

  // The accessed block itself.
  lemma {:induction false} AccessedBlock(c: Config, k: Cache, r: Request)
    requires Invariant(c, k)
    ensures var k', b := Access(c, k, r.address, r.isWrite).cache, BlockOf(c, r.address);
      && WayOf(c, k', b) >= 0 && (Contains(c, k, r.address) <==> WayOf(c, k, b) >= 0)
      && BlockAt(c, k', b) == if WayOf(c, k, b) >= 0 then HitBlock(BlockAt(c, k, b), r.isWrite, c.write)
                              else NewBlock(TagOf(c, r.address), r.isWrite)
  {
    var s, k' := SetOf(c, r.address), Access(c, k, r.address, r.isWrite).cache;
    AccessKeepsInvariant(c, k, r.address, r.isWrite);
    AccessSets(c, k, r.address, r.isWrite);
    var found := FindWayFrom(k.sets[s].blocks, TagOf(c, r.address), 0);
    StillFound(c, k'.sets[s], s, if found >= 0 then found else FindVictim(k.sets[s]));
    hide Access, Invariant, FindVictim;
  }

  lemma {:induction false} UpdatedBlock(c: Config, k: Cache, a: U32, state: Mesi.State, b: nat)
    requires Invariant(c, k)
    ensures var k' := SetState(c, k, a, state);
      && (WayOf(c, k', b) >= 0 ==> WayOf(c, k, b) == WayOf(c, k', b))
      && (WayOf(c, k, b) >= 0 && !(BlockOf(c, a) == b && state == Mesi.Invalid) ==> WayOf(c, k', b) >= 0)
      && (WayOf(c, k', b) >= 0 ==>
            BlockAt(c, k', b) == if BlockOf(c, a) == b then BlockAt(c, k, b).(mesi := state) else BlockAt(c, k, b))
      && (BlockOf(c, a) == b ==> (Contains(c, k, a) <==> WayOf(c, k, b) >= 0))
      && (BlockOf(c, a) == b && state == Mesi.Invalid ==> WayOf(c, k', b) < 0)
  {
    var s, k' := b % c.numSets, SetState(c, k, a, state);
    SetStateKeepsInvariant(c, k, a, state);
    if SetOf(c, a) == s && TagOf(c, a) == b / c.numSets {
      SameBlockNumber(c, a, b);
    }
    if WayOf(c, k', b) >= 0 {
      StillFound(c, k.sets[s], s, WayOf(c, k', b));
    }
    if WayOf(c, k, b) >= 0 && !(BlockOf(c, a) == b && state == Mesi.Invalid) {
      StillFound(c, k'.sets[s], s, WayOf(c, k, b));
    }
  }

  lemma {:induction false} ObeyInvariant(c: Config, commands: seq<Command>)
    requires ValidConfig(c)
    ensures Shape(c, Cold(c)) && Invariant(c, ObeyAll(c, Cold(c), commands))
  {
    hide Access, SetState, CacheModel.Invalidate, Invariant, Cold;
    ColdShape(c);
    ColdInvariant(c);
    if commands != [] {
      var k := ObeyAll(c, Cold(c), Before(commands));
      ObeyInvariant(c, Before(commands));
      match commands[|commands| - 1] {
        case Issue(q) => AccessKeepsInvariant(c, k, q.address, q.isWrite);
        case Invalidated(a) => SetStateKeepsInvariant(c, k, a, Mesi.Invalid);
        case Updated(a, state) => SetStateKeepsInvariant(c, k, a, state);
      }
    }
  }

  // Over every run of accesses, invalidations and state updates, a resident block's dirty flag and
  // state are what its history says.
  lemma {:induction false} HistoryShows(c: Config, commands: seq<Command>, b: nat)
    requires ValidConfig(c)
    ensures Shape(c, Cold(c)) && Shows(c, ObeyAll(c, Cold(c), commands), b, MarkOf(c, commands, b))
  {
    ColdInvariant(c);
    if commands != [] {
      var k := ObeyAll(c, Cold(c), Before(commands));
      HistoryShows(c, Before(commands), b);
      ObeyInvariant(c, Before(commands));
      HistoryStep(c, commands, b);
    } else {
      assert forall s :: 0 <= s < c.numSets ==> forall w :: 0 <= w < c.ways ==> !Cold(c).sets[s].blocks[w].valid;
    }
    hide *;
  }

  lemma {:induction false} HistoryStep(c: Config, commands: seq<Command>, b: nat)
    requires ValidConfig(c) && commands != [] && Shape(c, Cold(c))
    requires Invariant(c, ObeyAll(c, Cold(c), Before(commands)))
    requires Shows(c, ObeyAll(c, Cold(c), Before(commands)), b, MarkOf(c, Before(commands), b))
    ensures Shows(c, ObeyAll(c, Cold(c), commands), b, MarkOf(c, commands, b))
  {
    hide Access, SetState, CacheModel.Invalidate, Invariant, Cold, WayOf, BlockAt;
    var k := ObeyAll(c, Cold(c), Before(commands));
    match commands[|commands| - 1] {
      case Issue(q) =>
        if BlockOf(c, q.address) == b {
          AccessedBlock(c, k, q);
        } else {
          OtherBlockKept(c, k, q, b);
        }
      case Invalidated(a) =>
        InvalidateChangesOnly(c, k, a);
        SameWays(c, CacheModel.Invalidate(c, k, a), SetState(c, k, a, Mesi.Invalid), b);
        UpdatedBlock(c, k, a, Mesi.Invalid, b);
      case Updated(a, state) => UpdatedBlock(c, k, a, state, b);
    }
  }

  lemma {:induction false} SameWays(c: Config, k: Cache, k': Cache, b: nat)
    requires Shape(c, k) && Shape(c, k') && k.sets == k'.sets
    ensures WayOf(c, k, b) == WayOf(c, k', b) && (WayOf(c, k, b) >= 0 ==> BlockAt(c, k, b) == BlockAt(c, k', b))
  {
  }

  // So after any run, a miss writes its valid victim back if and only if the victim's history leaves
  // it dirty or Modified.
  lemma {:induction false} EvictionWrittenBackIff(c: Config, commands: seq<Command>, next: Request)
    requires ValidConfig(c)
    requires Shape(c, Cold(c)) && !Contains(c, ObeyAll(c, Cold(c), commands), next.address)
    ensures var k, s := ObeyAll(c, Cold(c), commands), SetOf(c, next.address);
      var victim := k.sets[s].blocks[FindVictim(k.sets[s])];
      var m := MarkOf(c, commands, BlockNumber(c, victim.tag, s));
      var sent := WritesDown(c, Access(c, k, next.address, next.isWrite).issued, BlockNumber(c, victim.tag, s));
      victim.valid ==> (sent <==> m.dirty || m.state == Mesi.Modified)
  {
    hide Access, FindVictim;
    ObeyInvariant(c, commands);
    var k, s := ObeyAll(c, Cold(c), commands), SetOf(c, next.address);
    var w := FindVictim(k.sets[s]);
    var victim := k.sets[s].blocks[w];
    if victim.valid {
      var b := BlockNumber(c, victim.tag, s);
      BlockNumberInverts(c, victim.tag, s);
      StillFound(c, k.sets[s], s, w);
      HistoryShows(c, commands, b);
      MissSends(c, k, next);
    }
  }

  // ---------- Without state updates ----------

  ghost predicate OnlyIssues(commands: seq<Command>) {
    forall j :: 0 <= j < |commands| ==> commands[j].Issue?
  }

  // Step j of a run from cold misses.
  ghost predicate MissesAt(c: Config, commands: seq<Command>, j: nat)
    requires ValidConfig(c) && j < |commands| && commands[j].Issue?
  {
    Shape(c, Cold(c)) && !Contains(c, ObeyAll(c, Cold(c), commands[..j]), commands[j].request.address)
  }

  // Step i wrote block `b`, which installed it or marked it under write-back, and it has not been
  // installed anew since.
  ghost predicate MarksAt(c: Config, commands: seq<Command>, i: nat, b: nat)
    requires ValidConfig(c) && OnlyIssues(commands)
  {
    && i < |commands| && commands[i].request.isWrite && BlockOf(c, commands[i].request.address) == b
    && (c.write == WriteBack || MissesAt(c, commands, i))
    && forall j :: i < j < |commands| && BlockOf(c, commands[j].request.address) == b ==> !MissesAt(c, commands, j)
  }

  lemma {:induction false} SameMisses(c: Config, commands: seq<Command>, j: nat)
    requires ValidConfig(c) && j < |commands| - 1 && commands[j].Issue?
    ensures MissesAt(c, Before(commands), j) == MissesAt(c, commands, j)
  {
    assert Before(commands)[..j] == commands[..j];
    hide Cold, Contains, ObeyAll;
  }

  // What the last step does to an earlier mark: an installation of the block ends it.
  lemma {:induction false} MarksOneMore(c: Config, commands: seq<Command>, i: nat, b: nat)
    requires ValidConfig(c) && OnlyIssues(commands) && i < |commands| - 1 && OnlyIssues(Before(commands))
    ensures var n := |commands| - 1;
      var installs := BlockOf(c, commands[n].request.address) == b && MissesAt(c, commands, n);
      MarksAt(c, commands, i, b) == (MarksAt(c, Before(commands), i, b) && !installs)
  {
    hide MissesAt, BlockOf;
    var before := Before(commands);
    SameMisses(c, commands, i);
    forall j | 0 <= j < |before|
      ensures before[j] == commands[j] && MissesAt(c, before, j) == MissesAt(c, commands, j)
    {
      SameMisses(c, commands, j);
    }
  }

  // Without state updates a dirty block is Modified.
  lemma {:induction false} DirtyIsModified(c: Config, commands: seq<Command>, b: nat)
    requires ValidConfig(c) && OnlyIssues(commands)
    ensures MarkOf(c, commands, b).dirty ==> MarkOf(c, commands, b).state == Mesi.Modified
  {
    if commands != [] {
      DirtyIsModified(c, Before(commands), b);
    }
    hide Contains, ObeyAll, Cold, BlockOf;
  }

  // In a run of accesses only, a block is dirty or Modified if and only if it was installed by a
  // write, or written under write-back since it was installed.
  lemma {:induction false} OwedIffWritten(c: Config, commands: seq<Command>, b: nat)
    requires ValidConfig(c) && OnlyIssues(commands)
    ensures MarkOf(c, commands, b).state == Mesi.Modified <==> exists i :: MarksAt(c, commands, i, b)
    ensures MarkOf(c, commands, b).dirty ==> MarkOf(c, commands, b).state == Mesi.Modified
  {
    DirtyIsModified(c, commands, b);
    if commands != [] {
      OwedIffWritten(c, Before(commands), b);
      OwedStep(c, commands, b);
    }
    hide Contains, ObeyAll, Cold, BlockOf, MissesAt;
  }

  lemma {:induction false} OwedStep(c: Config, commands: seq<Command>, b: nat)
    requires ValidConfig(c) && OnlyIssues(commands) && commands != [] && OnlyIssues(Before(commands))
    requires MarkOf(c, Before(commands), b).state == Mesi.Modified <==> exists i :: MarksAt(c, Before(commands), i, b)
    ensures MarkOf(c, commands, b).state == Mesi.Modified <==> exists i :: MarksAt(c, commands, i, b)
  {
    LastStep(c, commands, b);
    var n := |commands| - 1;
    hide MarksAt, MissesAt, MarkOf;
    if MarkOf(c, Before(commands), b).state == Mesi.Modified {
      var i :| MarksAt(c, Before(commands), i, b);
      EarlierMark(c, Before(commands), i, b);
      MarksOneMore(c, commands, i, b);
    }
    if i :| MarksAt(c, commands, i, b) && i != n {
      EarlierMark(c, commands, i, b);
      MarksOneMore(c, commands, i, b);
    }
  }

  lemma {:induction false} EarlierMark(c: Config, commands: seq<Command>, i: nat, b: nat)
    requires ValidConfig(c) && OnlyIssues(commands) && MarksAt(c, commands, i, b)
    ensures i < |commands|
  {
  }

  // The last step marks the block, ends its mark, or leaves it.
  lemma {:induction false} LastStep(c: Config, commands: seq<Command>, b: nat)
    requires ValidConfig(c) && OnlyIssues(commands) && commands != []
    ensures var n := |commands| - 1;
      var modified, installs := MarkOf(c, commands, b).state == Mesi.Modified,
                                BlockOf(c, commands[n].request.address) == b && MissesAt(c, commands, n);
      if MarksAt(c, commands, n, b) then modified
      else modified == (MarkOf(c, Before(commands), b).state == Mesi.Modified && !installs)
  {
    ColdShape(c);
    assert commands[..|commands| - 1] == Before(commands);
    hide Contains, ObeyAll, Cold, BlockOf;
  }

  // So in such a run a miss writes its valid victim back if and only if the victim was installed by a
  // write, or written under write-back since.
  lemma {:induction false} WrittenVictimIsWrittenBack(c: Config, commands: seq<Command>, next: Request)
    requires ValidConfig(c) && OnlyIssues(commands)
    requires Shape(c, Cold(c)) && !Contains(c, ObeyAll(c, Cold(c), commands), next.address)
    ensures var k, s := ObeyAll(c, Cold(c), commands), SetOf(c, next.address);
      var victim := k.sets[s].blocks[FindVictim(k.sets[s])];
      var b := BlockNumber(c, victim.tag, s);
      var sent := WritesDown(c, Access(c, k, next.address, next.isWrite).issued, b);
      victim.valid ==> (sent <==> exists i :: MarksAt(c, commands, i, b))
  {
    EvictionWrittenBackIff(c, commands, next);
    var k, s := ObeyAll(c, Cold(c), commands), SetOf(c, next.address);
    OwedIffWritten(c, commands, BlockNumber(c, k.sets[s].blocks[FindVictim(k.sets[s])].tag, s));
    hide Access, FindVictim, MarksAt, MarkOf, WritesDown, Contains, ObeyAll, Cold;
  }

  // ---------- No write is lost unless its block is set Invalid ----------

  // The block is resident and dirty.
  ghost predicate DirtyHere(c: Config, k: Cache, b: nat)
    requires Shape(c, k)
  {
    WayOf(c, k, b) >= 0 && BlockAt(c, k, b).dirty
  }

  ghost predicate SetsInvalid(c: Config, m: Command, b: nat)
    requires ValidConfig(c)
  {
    match m
    case Issue(_) => false
    case Invalidated(a) => BlockOf(c, a) == b
    case Updated(a, state) => state == Mesi.Invalid && BlockOf(c, a) == b
  }

  // What step m of a run from cold sends down; state updates send nothing.
  function SentBy(c: Config, commands: seq<Command>, m: nat): seq<Request>
    requires ValidConfig(c) && m < |commands|
  {
    ColdShape(c);
    if commands[m].Issue?
    then Access(c, ObeyAll(c, Cold(c), commands[..m]), commands[m].request.address, commands[m].request.isWrite).issued
    else []
  }

  lemma {:induction false} WriteIsDirty(c: Config, k: Cache, r: Request)
    requires Invariant(c, k) && r.isWrite
    ensures var o, b := Access(c, k, r.address, r.isWrite), BlockOf(c, r.address);
            DirtyHere(c, o.cache, b) || WritesDown(c, o.issued, b)
  {
    hide Access, BlockAt, WayOf, Contains;
    AccessedBlock(c, k, r);
    if Contains(c, k, r.address) {
      HitSends(c, k, r);
      if c.write == WriteThrough {
        assert Access(c, k, r.address, r.isWrite).issued[0] == r;
      }
    }
  }

  lemma {:induction false} DirtyStaysOnAccess(c: Config, k: Cache, r: Request, b: nat)
    requires Invariant(c, k) && DirtyHere(c, k, b)
    ensures var o := Access(c, k, r.address, r.isWrite); DirtyHere(c, o.cache, b) || WritesDown(c, o.issued, b)
  {
    var o := Access(c, k, r.address, r.isWrite);
    if BlockOf(c, r.address) == b {
      AccessedBlock(c, k, r);
      HitSends(c, k, r);
    } else if WayOf(c, o.cache, b) >= 0 {
      OtherBlockKept(c, k, r, b);
    } else {
      EvictedIsVictim(c, k, r, b);
      BlockAtNumber(c, k, b);
      MissSends(c, k, r);
    }
    hide Access, FindVictim;
  }

  lemma {:induction false} EvictedIsVictim(c: Config, k: Cache, r: Request, b: nat)
    requires Invariant(c, k) && WayOf(c, k, b) >= 0 && WayOf(c, Access(c, k, r.address, r.isWrite).cache, b) < 0
    ensures !Contains(c, k, r.address) && SetOf(c, r.address) == b % c.numSets
    ensures FindVictim(k.sets[b % c.numSets]) == WayOf(c, k, b)
  {
    hide Access, Invariant, FindVictim, Contains, WayOf, BlockAt, SetOf, TagOf;
    InvariantIsShaped(c, k);
    if SetOf(c, r.address) != b % c.numSets {
      KeptElsewhere(c, k, r, b);
    } else if Contains(c, k, r.address) {
      KeptOnHit(c, k, r, b);
    } else if FindVictim(k.sets[b % c.numSets]) != WayOf(c, k, b) {
      KeptInOtherWay(c, k, r, b);
    }
  }

  lemma {:induction false} KeptInOtherWay(c: Config, k: Cache, r: Request, b: nat)
    requires Invariant(c, k) && !Contains(c, k, r.address) && SetOf(c, r.address) == b % c.numSets && WayOf(c, k, b) >= 0
    requires FindVictim(k.sets[b % c.numSets]) != WayOf(c, k, b)
    ensures WayOf(c, Access(c, k, r.address, r.isWrite).cache, b) >= 0
  {
    KeptOnMiss(c, k, r, WayOf(c, k, b));
    hide Access, Invariant, FindVictim;
  }

  lemma {:induction false} BlockAtNumber(c: Config, k: Cache, b: nat)
    requires Shape(c, k) && WayOf(c, k, b) >= 0
    ensures BlockNumber(c, BlockAt(c, k, b).tag, b % c.numSets) == b
  {
  }

  lemma {:induction false} KeptElsewhere(c: Config, k: Cache, r: Request, b: nat)
    requires Shape(c, k) && SetOf(c, r.address) != b % c.numSets
    ensures WayOf(c, Access(c, k, r.address, r.isWrite).cache, b) == WayOf(c, k, b)
  {
    AccessSets(c, k, r.address, r.isWrite);
    hide Access, FindVictim, FindWayFrom;
  }

  lemma {:induction false} KeptOnHit(c: Config, k: Cache, r: Request, b: nat)
    requires Invariant(c, k) && Contains(c, k, r.address) && SetOf(c, r.address) == b % c.numSets && WayOf(c, k, b) >= 0
    ensures WayOf(c, Access(c, k, r.address, r.isWrite).cache, b) >= 0
  {
    var s, w, k' := b % c.numSets, WayOf(c, k, b), Access(c, k, r.address, r.isWrite).cache;
    AccessSets(c, k, r.address, r.isWrite);
    AccessKeepsInvariant(c, k, r.address, r.isWrite);
    assert k'.sets[s].blocks[w].valid && k'.sets[s].blocks[w].tag == b / c.numSets;
    StillFound(c, k'.sets[s], s, w);
    hide Access, Invariant, FindVictim, FindWayFrom;
  }

  lemma {:induction false} DirtyStaysOnUpdate(c: Config, k: Cache, a: U32, state: Mesi.State, b: nat)
    requires Invariant(c, k) && DirtyHere(c, k, b) && !(BlockOf(c, a) == b && state == Mesi.Invalid)
    ensures DirtyHere(c, SetState(c, k, a, state), b)
  {
    UpdatedBlock(c, k, a, state, b);
    hide SetState, WayOf, BlockAt;
  }

  lemma {:induction false} DirtyStays(c: Config, commands: seq<Command>, b: nat)
    requires ValidConfig(c) && commands != [] && Shape(c, Cold(c)) && !SetsInvalid(c, commands[|commands| - 1], b)
    requires DirtyHere(c, ObeyAll(c, Cold(c), Before(commands)), b)
    ensures DirtyHere(c, ObeyAll(c, Cold(c), commands), b) || WritesDown(c, SentBy(c, commands, |commands| - 1), b)
  {
    hide Access, SetState, CacheModel.Invalidate, Cold, DirtyHere, WritesDown;
    var k := ObeyAll(c, Cold(c), Before(commands));
    ObeyInvariant(c, Before(commands));
    match commands[|commands| - 1] {
      case Issue(q) => DirtyStaysOnAccess(c, k, q, b);
      case Invalidated(a) =>
        InvalidateChangesOnly(c, k, a);
        DirtyStaysOnUpdate(c, k, a, Mesi.Invalid, b);
        SameDirty(c, CacheModel.Invalidate(c, k, a), SetState(c, k, a, Mesi.Invalid), b);
      case Updated(a, state) => DirtyStaysOnUpdate(c, k, a, state, b);
    }
  }

  lemma {:induction false} SameDirty(c: Config, k: Cache, k': Cache, b: nat)
    requires Shape(c, k) && Shape(c, k') && k.sets == k'.sets
    ensures DirtyHere(c, k, b) == DirtyHere(c, k', b)
  {
  }

  // After a write to block `b` at step i, in every run of accesses and state updates that does not
  // set b Invalid afterwards, b is at every later point resident and dirty, or a write to an address
  // in it was sent down at step i or later.
  lemma {:induction false} NoLostWriteUnlessInvalidated(c: Config, commands: seq<Command>, i: nat, b: nat)
    requires ValidConfig(c) && i < |commands| && commands[i].Issue?
    requires commands[i].request.isWrite && BlockOf(c, commands[i].request.address) == b
    requires forall j :: i < j < |commands| ==> !SetsInvalid(c, commands[j], b)
    ensures Shape(c, Cold(c))
    ensures DirtyHere(c, ObeyAll(c, Cold(c), commands), b)
         || exists m :: i <= m < |commands| && WritesDown(c, SentBy(c, commands, m), b)
    decreases |commands|
  {
    hide Access, SetState, CacheModel.Invalidate, Cold, DirtyHere, WritesDown, SetsInvalid, Invariant;
    var n := |commands| - 1;
    var before := Before(commands);
    assert before == commands[..n];
    ObeyInvariant(c, before);
    InvariantIsShaped(c, ObeyAll(c, Cold(c), before));
    if i == n {
      WriteIsDirty(c, ObeyAll(c, Cold(c), before), commands[n].request);
      assert DirtyHere(c, ObeyAll(c, Cold(c), commands), b) || WritesDown(c, SentBy(c, commands, n), b);
    } else {
      NoLostWriteUnlessInvalidated(c, before, i, b);
      if DirtyHere(c, ObeyAll(c, Cold(c), before), b) {
        DirtyStays(c, commands, b);
        assert DirtyHere(c, ObeyAll(c, Cold(c), commands), b) || WritesDown(c, SentBy(c, commands, n), b);
      } else {
        var m :| i <= m < n && WritesDown(c, SentBy(c, before, m), b);
        assert before[..m] == commands[..m];
        assert WritesDown(c, SentBy(c, commands, m), b);
      }
    }
  }

  // Setting a block Invalid drops it, dirty or not, and sends nothing: a write to a cold cache is
  // lost when its block is invalidated next.
  lemma {:induction false} InvalidationLosesWrite(c: Config, a: U32)
    requires ValidConfig(c)
    ensures var commands, b := [Issue(Request(a, true)), Invalidated(a)], BlockOf(c, a);
      && Shape(c, Cold(c)) && !DirtyHere(c, ObeyAll(c, Cold(c), commands), b)
      && forall m :: 0 <= m < 2 ==> !WritesDown(c, SentBy(c, commands, m), b)
  {
    var write := [Issue(Request(a, true))];
    var commands := [Issue(Request(a, true)), Invalidated(a)];
    assert commands[..0] == [] && write[..0] == [] && commands[..1] == write;
    ColdInvariant(c);
    ColdHolds(c, a);
    MissSends(c, Cold(c), Request(a, true));
    ObeyInvariant(c, write);
    var k := ObeyAll(c, Cold(c), write);
    InvalidateChangesOnly(c, k, a);
    UpdatedBlock(c, k, a, Mesi.Invalid, BlockOf(c, a));
    SameDirty(c, CacheModel.Invalidate(c, k, a), SetState(c, k, a, Mesi.Invalid), BlockOf(c, a));
    hide Access, SetState, CacheModel.Invalidate, Cold, FindVictim, Invariant;
  }

  lemma {:induction false} ColdHolds(c: Config, a: U32)
    requires ValidConfig(c)
    ensures Shape(c, Cold(c)) && !Contains(c, Cold(c), a)
    ensures !Cold(c).sets[SetOf(c, a)].blocks[FindVictim(Cold(c).sets[SetOf(c, a)])].valid
  {
    ColdInvariant(c);
  }

  // ---------- Coherence misses ----------

  // How many invalidations found their block.
  function Dropped(c: Config, commands: seq<Command>): nat
    requires ValidConfig(c)
  {
    if commands == [] then 0 else
    ColdShape(c);
    var last := commands[|commands| - 1];
    Dropped(c, Before(commands))
      + Flag(last.Invalidated? && Contains(c, ObeyAll(c, Cold(c), Before(commands)), last.address))
  }

  // Every such invalidation counts one coherence miss, and nothing else does.
  lemma {:induction false} CoherenceMissesCount(c: Config, commands: seq<Command>)
    requires ValidConfig(c)
    ensures Shape(c, Cold(c)) && ObeyAll(c, Cold(c), commands).stats.missTypes[COHERENCE] == Dropped(c, commands)
  {
    ColdShape(c);
    hide Access, SetState, CacheModel.Invalidate, Contains;
    if commands != [] {
      var k := ObeyAll(c, Cold(c), Before(commands));
      CoherenceMissesCount(c, Before(commands));
      match commands[|commands| - 1] {
        case Issue(q) => AccessIsNoCoherenceMiss(c, k, q);
        case Invalidated(a) => InvalidateChangesOnly(c, k, a);
        case Updated(a, state) => SetStateChangesOnly(c, k, a, state);
      }
    }
  }

  lemma {:induction false} AccessIsNoCoherenceMiss(c: Config, k: Cache, r: Request)
    requires Shape(c, k)
    ensures Access(c, k, r.address, r.isWrite).cache.stats.missTypes[COHERENCE] == k.stats.missTypes[COHERENCE]
  {
    hide FindWayFrom, FindVictim, Installed, Accessed, Mesi.Recorded, FirstInvalidFrom;
  }
}
