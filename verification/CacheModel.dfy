// One set-associative cache as a value: address mapping, the blocks and policy of each set,
// and what one access, invalidation or state update does to them. Prefetching is off.
module CacheModel {
  import opened MachineIntegers
  import opened Arithmetic
  import opened ReplacementPolicies
  import opened Transitions
  import Mesi

  // ---------- Configuration ----------

  datatype WritePolicy = WriteBack | WriteThrough

  datatype Config = Config(numSets: nat, ways: nat, blockSize: nat, policy: PolicyKind, write: WritePolicy)

  ghost predicate ValidConfig(c: Config) {
    c.numSets > 0 && c.ways > 0 && c.blockSize > 0 && (c.policy == PLRU ==> IsPowerOfTwo(c.ways))
  }

  // ---------- Address mapping ----------

  function BlockOf(c: Config, address: U32): nat
    requires ValidConfig(c)
  {
    address / c.blockSize
  }

  function SetOf(c: Config, address: U32): (s: nat)
    requires ValidConfig(c)
    ensures s < c.numSets
  {
    BlockOf(c, address) % c.numSets
  }

  function TagOf(c: Config, address: U32): (t: nat)
    requires ValidConfig(c)
  {
    BlockOf(c, address) / c.numSets
  }

  // The block number a tag stands for in set `s`.
  function BlockNumber(c: Config, tag: nat, s: nat): nat {
    c.numSets * tag + s
  }

  // The address recomputed for an evicted block, in 32-bit arithmetic.
  function VictimAddress(c: Config, tag: nat, s: nat): U32
    requires ValidConfig(c)
  {
    ((tag * c.numSets % U32_LIMIT + s) % U32_LIMIT) * c.blockSize % U32_LIMIT
  }

  lemma {:induction false} BlockNumberInverts(c: Config, tag: nat, s: nat)
    requires ValidConfig(c) && s < c.numSets
    ensures BlockNumber(c, tag, s) / c.numSets == tag && BlockNumber(c, tag, s) % c.numSets == s
  {
    DivModUnique(c.numSets, tag, s);
  }

  lemma {:induction false} MappingInverts(c: Config, address: U32)
    requires ValidConfig(c)
    ensures BlockNumber(c, TagOf(c, address), SetOf(c, address)) == BlockOf(c, address)
    ensures c.blockSize * BlockOf(c, address) <= address
  {
  }

  ghost predicate Representable(c: Config, tag: nat, s: nat) {
    c.blockSize * BlockNumber(c, tag, s) < U32_LIMIT
  }

  // Recomputing a victim's address does not overflow, and maps back to its tag and set.
  lemma {:induction false} VictimAddressInverts(c: Config, tag: nat, s: nat)
    requires ValidConfig(c) && s < c.numSets && Representable(c, tag, s)
    ensures VictimAddress(c, tag, s) == c.blockSize * BlockNumber(c, tag, s)
    ensures BlockOf(c, VictimAddress(c, tag, s)) == BlockNumber(c, tag, s)
    ensures TagOf(c, VictimAddress(c, tag, s)) == tag && SetOf(c, VictimAddress(c, tag, s)) == s
  {
    NoOverflow(tag, c.numSets, s, c.blockSize);
    DivModUnique(c.blockSize, BlockNumber(c, tag, s), 0);
    BlockNumberInverts(c, tag, s);
  }

  lemma {:induction false} NoOverflow(tag: nat, numSets: nat, s: nat, blockSize: nat)
    requires blockSize > 0 && blockSize * (numSets * tag + s) < U32_LIMIT
    ensures ((tag * numSets % U32_LIMIT + s) % U32_LIMIT) * blockSize % U32_LIMIT
         == blockSize * (numSets * tag + s)
  {
    var b := numSets * tag + s;
    MulAtLeast(blockSize, b);
    MulCommutes(tag, numSets);
    MulCommutes(b, blockSize);
    assert tag * numSets % U32_LIMIT == tag * numSets;
    assert (tag * numSets + s) % U32_LIMIT == b;
  }

  lemma {:induction false} MulAtLeast(a: nat, b: nat)
    requires a > 0
    ensures a * b >= b
  {
  }

  lemma {:induction false} MulCommutes(a: nat, b: nat)
    ensures a * b == b * a
  {
  }

  // ---------- Blocks and sets ----------

  datatype Block = Block(valid: bool, dirty: bool, tag: nat, mesi: Mesi.State)

  const EMPTY_BLOCK := Block(false, false, 0, Mesi.Invalid)

  predicate NeedsWriteback(b: Block) {
    b.dirty || b.mesi == Mesi.Modified
  }

  datatype CacheSet = CacheSet(blocks: seq<Block>, policy: PolicyState)

  // The way holding `tag`, from way `i` on; -1 when there is none.
  function FindWayFrom(blocks: seq<Block>, tag: nat, i: nat): (r: int)
    requires i <= |blocks|
    ensures -1 <= r < |blocks|
    ensures r >= 0 ==> i <= r && blocks[r].valid && blocks[r].tag == tag
    ensures r == -1 ==> forall j :: i <= j < |blocks| ==> !(blocks[j].valid && blocks[j].tag == tag)
    decreases |blocks| - i
  {
    if i == |blocks| then -1 else
    if blocks[i].valid && blocks[i].tag == tag then i else FindWayFrom(blocks, tag, i + 1)
  }

  function FirstInvalidFrom(blocks: seq<Block>, i: nat): (r: int)
    requires i <= |blocks|
    ensures -1 <= r < |blocks|
    ensures r >= 0 ==> i <= r && !blocks[r].valid
    ensures r >= 0 ==> forall j :: i <= j < r ==> blocks[j].valid
    ensures r == -1 ==> forall j :: i <= j < |blocks| ==> blocks[j].valid
    decreases |blocks| - i
  {
    if i == |blocks| then -1 else if !blocks[i].valid then i else FirstInvalidFrom(blocks, i + 1)
  }

  function AllTrue(n: nat): (r: seq<bool>)
    ensures |r| == n && forall i :: 0 <= i < n ==> r[i]
  {
    seq(n, _ => true)
  }

  function FindVictim(set_: CacheSet): (r: nat)
    requires Fits(set_.policy, |set_.blocks|) && set_.blocks != []
    ensures r < |set_.blocks|
  {
    var i := FirstInvalidFrom(set_.blocks, 0);
    if i >= 0 then i else Victim(set_.policy, AllTrue(|set_.blocks|))
  }

  function HitBlock(b: Block, isWrite: bool, write: WritePolicy): Block {
    if !isWrite then b else
    if write == WriteThrough then b.(dirty := false) else b.(dirty := true, mesi := Mesi.Modified)
  }

  function NewBlock(tag: nat, isWrite: bool): Block {
    Block(true, isWrite, tag, if isWrite then Mesi.Modified else Mesi.Exclusive)
  }

  // ---------- The whole cache ----------

  datatype Stats = Stats(hits: nat, misses: nat, readCount: nat, writeCount: nat,
                         writeBacks: nat, writeThroughs: nat, missTypes: seq<nat>)

  // Indices into `missTypes`.
  const COMPULSORY := 0
  const CAPACITY := 1
  const CONFLICT := 2
  const COHERENCE := 3

  datatype Cache = Cache(sets: seq<CacheSet>, stats: Stats, transitions: Table)

  // A request a cache sends to the level below it.
  datatype Request = Request(address: U32, isWrite: bool)

  datatype Outcome = Outcome(cache: Cache, hit: bool, issued: seq<Request>)

  function Cold(c: Config): Cache
    requires ValidConfig(c)
  {
    Cache(seq(c.numSets, _ => CacheSet(seq(c.ways, _ => EMPTY_BLOCK), Initial(c.policy, c.ways))),
          Stats(0, 0, 0, 0, 0, 0, [0, 0, 0, 0]), ZeroTable(4))
  }

  ghost predicate SetShape(c: Config, set_: CacheSet) {
    && |set_.blocks| == c.ways
    && Fits(set_.policy, c.ways)
    && (match c.policy case LRU => set_.policy.Lru? case FIFO => set_.policy.Fifo? case PLRU => set_.policy.Plru?)
  }

  // Valid tags of a set are pairwise distinct, valid and MESI state agree, and tags came from 32-bit addresses.
  ghost predicate SetInvariant(c: Config, set_: CacheSet, s: nat) {
    && SetShape(c, set_)
    && (forall i, j :: 0 <= i < j < c.ways && set_.blocks[i].valid && set_.blocks[j].valid
          ==> set_.blocks[i].tag != set_.blocks[j].tag)
    && (forall i :: 0 <= i < c.ways ==> (set_.blocks[i].valid <==> set_.blocks[i].mesi != Mesi.Invalid))
    && (forall i :: 0 <= i < c.ways && set_.blocks[i].valid ==> Representable(c, set_.blocks[i].tag, s))
  }

  ghost predicate Shape(c: Config, k: Cache) {
    && ValidConfig(c)
    && |k.sets| == c.numSets
    && |k.stats.missTypes| == 4
    && IsTable(k.transitions, 4)
    && forall s :: 0 <= s < c.numSets ==> SetShape(c, k.sets[s])
  }

  ghost predicate Invariant(c: Config, k: Cache) {
    && Shape(c, k)
    && forall s :: 0 <= s < c.numSets ==> SetInvariant(c, k.sets[s], s)
  }

  function MissType(c: Config, blocks: seq<Block>): (t: nat)
    ensures t < 4
  {
    if FirstInvalidFrom(blocks, 0) >= 0 then COMPULSORY
    else if c.ways < c.numSets then CONFLICT
    else CAPACITY
  }

  function Count(stats: Stats, isWrite: bool): Stats {
    if isWrite then stats.(writeCount := stats.writeCount + 1) else stats.(readCount := stats.readCount + 1)
  }

  // What a hit does to the block itself, and what it sends down.
  function TouchBlock(c: Config, k: Cache, address: U32, isWrite: bool, s: nat, way: nat): (o: Outcome)
    requires Shape(c, k) && s < c.numSets && way < c.ways
    ensures o.hit
  {
    var b := k.sets[s].blocks[way];
    var through := isWrite && c.write == WriteThrough;
    Outcome(
      Cache(k.sets[s := k.sets[s].(blocks := k.sets[s].blocks[way := HitBlock(b, isWrite, c.write)])],
            k.stats.(writeThroughs := k.stats.writeThroughs + (if through then 1 else 0)),
            if isWrite && !through then Mesi.Recorded(k.transitions, b.mesi, Mesi.Modified) else k.transitions),
      true,
      if through then [Request(address, true)] else [])
  }

  function HitStep(c: Config, k: Cache, address: U32, isWrite: bool, s: nat, way: nat): (o: Outcome)
    requires Shape(c, k) && s < c.numSets && way < c.ways
    ensures o.hit
  {
    var o := TouchBlock(c, k.(stats := k.stats.(hits := k.stats.hits + 1)), address, isWrite, s, way);
    var set_ := o.cache.sets[s];
    o.(cache := o.cache.(sets := o.cache.sets[s := set_.(policy := Accessed(set_.policy, way, c.ways))]))
  }

  // Evict the block of a way, writing it back if it must be, and install the requested one.
  function ReplaceStep(c: Config, k: Cache, address: U32, isWrite: bool, s: nat, way: nat): (o: Outcome)
    requires Shape(c, k) && s < c.numSets && way < c.ways
    ensures !o.hit
  {
    var set_ := k.sets[s];
    var old_ := set_.blocks[way];
    var fresh_ := NewBlock(TagOf(c, address), isWrite);
    var evictsDirty := old_.valid && NeedsWriteback(old_);
    Outcome(
      Cache(k.sets[s := CacheSet(set_.blocks[way := fresh_], Installed(set_.policy, way, c.ways))],
            k.stats.(writeBacks := k.stats.writeBacks + (if evictsDirty then 1 else 0)),
            Mesi.Recorded(k.transitions, old_.mesi, fresh_.mesi)),
      false,
      (if evictsDirty then [Request(VictimAddress(c, old_.tag, s), true)] else []) + [Request(address, false)])
  }

  // Count and classify a miss in set s.
  function CountMiss(c: Config, k: Cache, s: nat): (r: Cache)
    requires Shape(c, k) && s < c.numSets
    ensures Shape(c, r) && r.sets == k.sets
  {
    var t := MissType(c, k.sets[s].blocks);
    var types := k.stats.missTypes;
    k.(stats := k.stats.(misses := k.stats.misses + 1, missTypes := types[t := types[t] + 1]))
  }

  function MissStep(c: Config, k: Cache, address: U32, isWrite: bool, s: nat): (o: Outcome)
    requires Shape(c, k) && s < c.numSets
    ensures !o.hit
  {
    ReplaceStep(c, CountMiss(c, k, s), address, isWrite, s, FindVictim(k.sets[s]))
  }

  // One access: its effect on the cache, whether it hit, and the requests it sends down.
  function Access(c: Config, k: Cache, address: U32, isWrite: bool): (o: Outcome)
    requires Shape(c, k)
    ensures Shape(c, o.cache)
  {
    var s := SetOf(c, address);
    var way := FindWayFrom(k.sets[s].blocks, TagOf(c, address), 0);
    var counted := k.(stats := Count(k.stats, isWrite));
    if way >= 0 then HitStep(c, counted, address, isWrite, s, way)
    else MissStep(c, counted, address, isWrite, s)
  }

  // The one way an access rewrites, and what it puts there.
  lemma {:induction false} AccessSets(c: Config, k: Cache, address: U32, isWrite: bool)
    requires Shape(c, k)
    ensures var s, tag := SetOf(c, address), TagOf(c, address);
            var set_ := k.sets[s];
            var way := FindWayFrom(set_.blocks, tag, 0);
            Access(c, k, address, isWrite).cache.sets ==
              k.sets[s := if way >= 0
                          then CacheSet(set_.blocks[way := HitBlock(set_.blocks[way], isWrite, c.write)],
                                        Accessed(set_.policy, way, c.ways))
                          else CacheSet(set_.blocks[FindVictim(set_) := NewBlock(tag, isWrite)],
                                        Installed(set_.policy, FindVictim(set_), c.ways))]
  {
  }

  // Every access counts as one hit or one miss.
  lemma {:induction false} AccessCounts(c: Config, k: Cache, address: U32, isWrite: bool)
    requires Shape(c, k)
    ensures var o := Access(c, k, address, isWrite);
            && o.cache.stats.hits == k.stats.hits + (if o.hit then 1 else 0)
            && o.cache.stats.misses == k.stats.misses + (if o.hit then 0 else 1)
  {
  }

  lemma {:induction false} ShapeOfSet(c: Config, k: Cache, s: nat)
    requires Shape(c, k) && s < c.numSets
    ensures SetShape(c, k.sets[s]) && Fits(k.sets[s].policy, c.ways) && |k.sets[s].blocks| == c.ways
  {
  }

  // A cache serving requests in turn.
  function Serve(c: Config, k: Cache, requests: seq<Request>): (r: Cache)
    requires Shape(c, k)
    ensures Shape(c, r)
  {
    if requests == [] then k else
    var n := |requests| - 1;
    Access(c, Serve(c, k, requests[..n]), requests[n].address, requests[n].isWrite).cache
  }

  lemma {:induction false} ServeSnoc(c: Config, k: Cache, requests: seq<Request>, r: Request)
    requires Shape(c, k)
    ensures Serve(c, k, requests + [r]) == Access(c, Serve(c, k, requests), r.address, r.isWrite).cache
  {
    assert (requests + [r])[..|requests|] == requests;
  }

  lemma {:induction false} ServeOne(c: Config, k: Cache, r: Request)
    requires Shape(c, k)
    ensures Serve(c, k, []) == k
    ensures Serve(c, k, [r]) == Access(c, k, r.address, r.isWrite).cache
  {
    assert [r][..0] == [];
  }

  // A coherence update of the block holding `address`, if the cache has it.
  function SetState(c: Config, k: Cache, address: U32, state: Mesi.State): (r: Cache)
    requires Shape(c, k)
    ensures Shape(c, r)
  {
    var s := SetOf(c, address);
    var set_ := k.sets[s];
    var way := FindWayFrom(set_.blocks, TagOf(c, address), 0);
    if way < 0 then k else
    var b := set_.blocks[way];
    k.(sets := k.sets[s := set_.(blocks := set_.blocks[way := b.(mesi := state, valid := state != Mesi.Invalid)])],
       transitions := Mesi.Recorded(k.transitions, b.mesi, state))
  }

  function Invalidate(c: Config, k: Cache, address: U32): (r: Cache)
    requires Shape(c, k)
    ensures Shape(c, r)
  {
    if FindWayFrom(k.sets[SetOf(c, address)].blocks, TagOf(c, address), 0) < 0 then k else
    var types := k.stats.missTypes;
    SetState(c, k, address, Mesi.RemoteWrite(Mesi.Shared)).(
      stats := k.stats.(missTypes := types[COHERENCE := types[COHERENCE] + 1]))
  }

  // ---------- The invariant is kept ----------

  lemma {:induction false} SetUpdate(c: Config, set_: CacheSet, s: nat, way: nat, b: Block, policy: PolicyState)
    requires ValidConfig(c) && SetInvariant(c, set_, s) && way < c.ways
    requires SetShape(c, CacheSet(set_.blocks, policy))
    requires b.valid <==> b.mesi != Mesi.Invalid
    requires b.valid ==> Representable(c, b.tag, s)
    requires b.valid ==> forall i :: 0 <= i < c.ways && i != way && set_.blocks[i].valid ==> set_.blocks[i].tag != b.tag
    ensures SetInvariant(c, CacheSet(set_.blocks[way := b], policy), s)
  {
  }

  lemma {:induction false} AccessKeepsInvariant(c: Config, k: Cache, address: U32, isWrite: bool)
    requires Invariant(c, k)
    ensures Invariant(c, Access(c, k, address, isWrite).cache)
  {
    var s := SetOf(c, address);
    var set_ := k.sets[s];
    var way := FindWayFrom(set_.blocks, TagOf(c, address), 0);
    if way >= 0 {
      SetUpdate(c, set_, s, way, HitBlock(set_.blocks[way], isWrite, c.write), Accessed(set_.policy, way, c.ways));
    } else {
      MappingInverts(c, address);
      var victim := FindVictim(set_);
      SetUpdate(c, set_, s, victim, NewBlock(TagOf(c, address), isWrite), Installed(set_.policy, victim, c.ways));
    }
  }

  lemma {:induction false} SetStateKeepsInvariant(c: Config, k: Cache, address: U32, state: Mesi.State)
    requires Invariant(c, k)
    ensures Invariant(c, SetState(c, k, address, state))
    ensures Invariant(c, Invalidate(c, k, address))
  {
    var s := SetOf(c, address);
    var set_ := k.sets[s];
    var way := FindWayFrom(set_.blocks, TagOf(c, address), 0);
    if way >= 0 {
      var b := set_.blocks[way];
      SetUpdate(c, set_, s, way, b.(mesi := state, valid := state != Mesi.Invalid), set_.policy);
      SetUpdate(c, set_, s, way, b.(mesi := Mesi.Invalid, valid := false), set_.policy);
    }
  }

  lemma {:induction false} ColdShape(c: Config)
    requires ValidConfig(c)
    ensures Shape(c, Cold(c))
  {
  }

  lemma {:induction false} ColdCounts(c: Config)
    requires ValidConfig(c)
    ensures Cold(c).stats.hits == 0 && Cold(c).stats.misses == 0
  {
  }

  lemma {:induction false} ColdInvariant(c: Config)
    requires ValidConfig(c)
    ensures Invariant(c, Cold(c))
  {
  }
}
