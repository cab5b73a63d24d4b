// No write is lost: whatever was written is still held and marked for write-back, or was
// written to the level below since. And no more is written back than was written.
module WriteConservation {
  import opened MachineIntegers
  import opened Arithmetic
  import opened ReplacementPolicies
  import opened CacheModel

  // Block `b` is resident and must be written back when evicted.
  predicate HeldDirty(c: Config, k: Cache, b: nat)
    requires Shape(c, k)
  {
    var blocks := k.sets[b % c.numSets].blocks;
    var way := FindWayFrom(blocks, b / c.numSets, 0);
    way >= 0 && NeedsWriteback(blocks[way])
  }

  ghost predicate WritesDown(c: Config, issued: seq<Request>, b: nat)
    requires ValidConfig(c)
  {
    exists i :: 0 <= i < |issued| && issued[i].isWrite && BlockOf(c, issued[i].address) == b
  }

  lemma {:induction false} FindUnique(blocks: seq<Block>, tag: nat, i: nat, w: nat)
    requires i <= w < |blocks| && blocks[w].valid && blocks[w].tag == tag
    requires forall j :: i <= j < w ==> !(blocks[j].valid && blocks[j].tag == tag)
    ensures FindWayFrom(blocks, tag, i) == w
    decreases w - i
  {
    if i < w {
      FindUnique(blocks, tag, i + 1, w);
    }
  }

  // In a set with distinct tags, a way still holding its tag is still found.
  lemma {:induction false} StillFound(c: Config, set_: CacheSet, s: nat, w: nat)
    requires SetInvariant(c, set_, s) && w < c.ways && set_.blocks[w].valid
    ensures FindWayFrom(set_.blocks, set_.blocks[w].tag, 0) == w
  {
    FindUnique(set_.blocks, set_.blocks[w].tag, 0, w);
  }

  // ---------- One access ----------

  lemma {:induction false} WriteIsHeld(c: Config, k: Cache, r: Request)
    requires Invariant(c, k) && r.isWrite
    ensures var o := Access(c, k, r.address, r.isWrite);
            HeldDirty(c, o.cache, BlockOf(c, r.address)) || WritesDown(c, o.issued, BlockOf(c, r.address))
  {
    var o := Access(c, k, r.address, r.isWrite);
    var s, tag := SetOf(c, r.address), TagOf(c, r.address);
    AccessKeepsInvariant(c, k, r.address, r.isWrite);
    var hitWay := FindWayFrom(k.sets[s].blocks, tag, 0);
    if hitWay >= 0 && c.write == WriteThrough {
      assert o.issued[0] == Request(r.address, true);
    } else {
      var way := if hitWay >= 0 then hitWay else FindVictim(k.sets[s]);
      StillFound(c, o.cache.sets[s], s, way);
    }
  }

  lemma {:induction false} OtherSetsUntouched(c: Config, k: Cache, r: Request, b: nat)
    requires Shape(c, k) && b % c.numSets != SetOf(c, r.address)
    ensures HeldDirty(c, Access(c, k, r.address, r.isWrite).cache, b) == HeldDirty(c, k, b)
  {
  }

  lemma {:induction false} HeldStaysHeldOnHit(c: Config, k: Cache, r: Request, b: nat)
    requires Invariant(c, k) && HeldDirty(c, k, b) && b % c.numSets == SetOf(c, r.address)
    requires FindWayFrom(k.sets[SetOf(c, r.address)].blocks, TagOf(c, r.address), 0) >= 0
    ensures var o := Access(c, k, r.address, r.isWrite); HeldDirty(c, o.cache, b) || WritesDown(c, o.issued, b)
  {
    var o := Access(c, k, r.address, r.isWrite);
    var s, tag := SetOf(c, r.address), TagOf(c, r.address);
    AccessKeepsInvariant(c, k, r.address, r.isWrite);
    var hitWay, way := FindWayFrom(k.sets[s].blocks, tag, 0), FindWayFrom(k.sets[s].blocks, b / c.numSets, 0);
    if hitWay == way && r.isWrite && c.write == WriteThrough {
      SameBlockNumber(c, r.address, b);
      assert o.issued[0] == Request(r.address, true);
    } else {
      StillFound(c, o.cache.sets[s], s, way);
    }
  }

  lemma {:induction false} SameBlockNumber(c: Config, address: U32, b: nat)
    requires ValidConfig(c) && b % c.numSets == SetOf(c, address) && b / c.numSets == TagOf(c, address)
    ensures BlockOf(c, address) == b
  {
    MappingInverts(c, address);
    assert b == c.numSets * (b / c.numSets) + b % c.numSets;
  }

  lemma {:induction false} EvictionWritesDown(c: Config, k: Cache, r: Request, s: nat)
    requires Invariant(c, k) && s == SetOf(c, r.address)
    requires FindWayFrom(k.sets[s].blocks, TagOf(c, r.address), 0) < 0
    requires var old_ := k.sets[s].blocks[FindVictim(k.sets[s])]; old_.valid && NeedsWriteback(old_)
    ensures var old_ := k.sets[s].blocks[FindVictim(k.sets[s])];
            WritesDown(c, Access(c, k, r.address, r.isWrite).issued, BlockNumber(c, old_.tag, s))
  {
    var tag := k.sets[s].blocks[FindVictim(k.sets[s])].tag;
    var issued := Access(c, k, r.address, r.isWrite).issued;
    VictimAddressInverts(c, tag, s);
    assert issued[0] == Request(VictimAddress(c, tag, s), true);
  }

  lemma {:induction false} HeldStaysHeldOnMiss(c: Config, k: Cache, r: Request, b: nat)
    requires Invariant(c, k) && HeldDirty(c, k, b) && b % c.numSets == SetOf(c, r.address)
    requires FindWayFrom(k.sets[SetOf(c, r.address)].blocks, TagOf(c, r.address), 0) < 0
    ensures var o := Access(c, k, r.address, r.isWrite); HeldDirty(c, o.cache, b) || WritesDown(c, o.issued, b)
  {
    hide Access, WritesDown, FindVictim, SetInvariant;
    var s := SetOf(c, r.address);
    if FindVictim(k.sets[s]) == FindWayFrom(k.sets[s].blocks, b / c.numSets, 0) {
      EvictionWritesDown(c, k, r, s);
      assert BlockNumber(c, b / c.numSets, s) == b;
    } else {
      KeptOnMiss(c, k, r, FindWayFrom(k.sets[s].blocks, b / c.numSets, 0));
    }
  }

  lemma {:induction false} KeptOnMiss(c: Config, k: Cache, r: Request, way: nat)
    requires Invariant(c, k) && way < c.ways && k.sets[SetOf(c, r.address)].blocks[way].valid
    requires FindWayFrom(k.sets[SetOf(c, r.address)].blocks, TagOf(c, r.address), 0) < 0
    requires way != FindVictim(k.sets[SetOf(c, r.address)])
    ensures var s, o := SetOf(c, r.address), Access(c, k, r.address, r.isWrite);
            var b := k.sets[s].blocks[way];
            FindWayFrom(o.cache.sets[s].blocks, b.tag, 0) == way && o.cache.sets[s].blocks[way] == b
  {
    hide Representable, VictimAddress;
    AccessKeepsInvariant(c, k, r.address, r.isWrite);
    AccessSets(c, k, r.address, r.isWrite);
    StillFound(c, Access(c, k, r.address, r.isWrite).cache.sets[SetOf(c, r.address)], SetOf(c, r.address), way);
  }

  lemma {:induction false} HeldStaysHeld(c: Config, k: Cache, r: Request, b: nat)
    requires Invariant(c, k) && HeldDirty(c, k, b)
    ensures var o := Access(c, k, r.address, r.isWrite); HeldDirty(c, o.cache, b) || WritesDown(c, o.issued, b)
  {
    if b % c.numSets != SetOf(c, r.address) {
      OtherSetsUntouched(c, k, r, b);
    } else if FindWayFrom(k.sets[SetOf(c, r.address)].blocks, TagOf(c, r.address), 0) >= 0 {
      HeldStaysHeldOnHit(c, k, r, b);
    } else {
      HeldStaysHeldOnMiss(c, k, r, b);
    }
  }

  // ---------- Runs ----------

  lemma {:induction false} ServeKeepsInvariant(c: Config, k: Cache, requests: seq<Request>)
    requires Invariant(c, k)
    ensures Invariant(c, Serve(c, k, requests))
  {
    if requests != [] {
      var n := |requests| - 1;
      ServeKeepsInvariant(c, k, requests[..n]);
      AccessKeepsInvariant(c, Serve(c, k, requests[..n]), requests[n].address, requests[n].isWrite);
    }
  }

  // What step m of a run from cold sends down.
  function IssuedAt(c: Config, requests: seq<Request>, m: nat): seq<Request>
    requires ValidConfig(c) && m < |requests|
  {
    ColdShape(c);
    Access(c, Serve(c, Cold(c), requests[..m]), requests[m].address, requests[m].isWrite).issued
  }

  // After a write to block `b` at step i, at every later point the block is resident and
  // marked for write-back, or a write to an address in it went down at step i or later.
  lemma {:induction false} NoLostWrite(c: Config, requests: seq<Request>, i: nat, b: nat)
    requires ValidConfig(c) && i < |requests|
    requires requests[i].isWrite && BlockOf(c, requests[i].address) == b
    ensures HeldDirty(c, Serve(c, Cold(c), requests), b)
         || exists m :: i <= m < |requests| && WritesDown(c, IssuedAt(c, requests, m), b)
    decreases |requests|
  {
    hide Access, Invariant, HeldDirty, WritesDown, Cold;
    var n := |requests| - 1;
    ColdInvariant(c);
    ServeKeepsInvariant(c, Cold(c), requests[..n]);
    InvariantIsShaped(c, Serve(c, Cold(c), requests[..n]));
    if i == n {
      WriteIsHeld(c, Serve(c, Cold(c), requests[..n]), requests[n]);
      assert HeldDirty(c, Serve(c, Cold(c), requests), b) || WritesDown(c, IssuedAt(c, requests, n), b);
    } else {
      NoLostWrite(c, requests[..n], i, b);
      if HeldDirty(c, Serve(c, Cold(c), requests[..n]), b) {
        HeldStaysHeld(c, Serve(c, Cold(c), requests[..n]), requests[n], b);
        assert HeldDirty(c, Serve(c, Cold(c), requests), b) || WritesDown(c, IssuedAt(c, requests, n), b);
      } else {
        var m :| i <= m < n && WritesDown(c, IssuedAt(c, requests[..n], m), b);
        assert requests[..n][..m] == requests[..m];
        assert WritesDown(c, IssuedAt(c, requests, m), b);
      }
    }
  }

  lemma {:induction false} InvariantIsShaped(c: Config, k: Cache)
    requires Invariant(c, k)
    ensures Shape(c, k)
  {
  }

  // ---------- Counting ----------

  predicate IsDirty(b: Block) {
    b.valid && NeedsWriteback(b)
  }

  function DirtyIn(blocks: seq<Block>): nat {
    if blocks == [] then 0 else
    var n := |blocks| - 1;
    DirtyIn(blocks[..n]) + Flag(IsDirty(blocks[n]))
  }

  function DirtyBlocks(sets: seq<CacheSet>): nat {
    if sets == [] then 0 else
    var n := |sets| - 1;
    DirtyBlocks(sets[..n]) + DirtyIn(sets[n].blocks)
  }

  lemma {:induction false} DirtyInUpdate(blocks: seq<Block>, w: nat, b: Block)
    requires w < |blocks|
    ensures DirtyIn(blocks[w := b]) + Flag(IsDirty(blocks[w])) == DirtyIn(blocks) + Flag(IsDirty(b))
  {
    var n := |blocks| - 1;
    if w == n {
      assert blocks[w := b][..n] == blocks[..n];
    } else {
      assert blocks[w := b][..n] == blocks[..n][w := b];
      DirtyInUpdate(blocks[..n], w, b);
    }
  }

  lemma {:induction false} DirtyBlocksUpdate(sets: seq<CacheSet>, s: nat, set_: CacheSet)
    requires s < |sets|
    ensures DirtyBlocks(sets[s := set_]) + DirtyIn(sets[s].blocks) == DirtyBlocks(sets) + DirtyIn(set_.blocks)
  {
    var n := |sets| - 1;
    if s == n {
      assert sets[s := set_][..n] == sets[..n];
    } else {
      assert sets[s := set_][..n] == sets[..n][s := set_];
      DirtyBlocksUpdate(sets[..n], s, set_);
    }
  }

  lemma {:induction false} OneBlockUpdate(sets: seq<CacheSet>, s: nat, w: nat, b: Block, policy: PolicyState)
    requires s < |sets| && w < |sets[s].blocks|
    ensures DirtyBlocks(sets[s := CacheSet(sets[s].blocks[w := b], policy)]) + Flag(IsDirty(sets[s].blocks[w]))
         == DirtyBlocks(sets) + Flag(IsDirty(b))
  {
    DirtyBlocksUpdate(sets, s, CacheSet(sets[s].blocks[w := b], policy));
    DirtyInUpdate(sets[s].blocks, w, b);
  }

  // Writes sent down so far, plus writes still owed.
  function Accounted(k: Cache): nat {
    k.stats.writeBacks + k.stats.writeThroughs + DirtyBlocks(k.sets)
  }

  lemma {:induction false} AccessAccounts(c: Config, k: Cache, r: Request)
    requires Invariant(c, k)
    ensures var k' := Access(c, k, r.address, r.isWrite).cache;
            && Accounted(k') <= Accounted(k) + Flag(r.isWrite)
            && k'.stats.writeCount == k.stats.writeCount + Flag(r.isWrite)
  {
    AccessSets(c, k, r.address, r.isWrite);
    var s := SetOf(c, r.address);
    var set_ := k.sets[s];
    var hitWay := FindWayFrom(set_.blocks, TagOf(c, r.address), 0);
    if hitWay >= 0 {
      OneBlockUpdate(k.sets, s, hitWay, HitBlock(set_.blocks[hitWay], r.isWrite, c.write), Accessed(set_.policy, hitWay, c.ways));
    } else {
      var victim := FindVictim(set_);
      OneBlockUpdate(k.sets, s, victim, NewBlock(TagOf(c, r.address), r.isWrite), Installed(set_.policy, victim, c.ways));
    }
  }

  lemma {:induction false} ColdIsClean(sets: seq<CacheSet>)
    requires forall s :: 0 <= s < |sets| ==> forall w :: 0 <= w < |sets[s].blocks| ==> !sets[s].blocks[w].valid
    ensures DirtyBlocks(sets) == 0
  {
    if sets != [] {
      ColdIsClean(sets[..|sets| - 1]);
      InvalidIsClean(sets[|sets| - 1].blocks);
    }
  }

  lemma {:induction false} InvalidIsClean(blocks: seq<Block>)
    requires forall w :: 0 <= w < |blocks| ==> !blocks[w].valid
    ensures DirtyIn(blocks) == 0
  {
    if blocks != [] {
      InvalidIsClean(blocks[..|blocks| - 1]);
    }
  }

  // Under either write policy, write-backs, write-throughs and resident blocks that still
  // need a write-back together never exceed the writes received.
  lemma {:induction false} WritesCoverWriteBacks(c: Config, requests: seq<Request>)
    requires ValidConfig(c)
    ensures Invariant(c, Serve(c, Cold(c), requests))
    ensures Accounted(Serve(c, Cold(c), requests)) <= Serve(c, Cold(c), requests).stats.writeCount
  {
    ColdInvariant(c);
    ServeKeepsInvariant(c, Cold(c), requests);
    if requests == [] {
      ColdIsClean(Cold(c).sets);
    } else {
      var n := |requests| - 1;
      WritesCoverWriteBacks(c, requests[..n]);
      AccessAccounts(c, Serve(c, Cold(c), requests[..n]), requests[n]);
    }
  }
}
