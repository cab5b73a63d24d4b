// An LRU cache follows the recency-list rule: the ways, tags and policy order of every set,
// read together, are one duplicate-free list of blocks, most recent first.
module LruCache {
  import opened MachineIntegers
  import opened Recency
  import opened ReplacementPolicies
  import opened CacheModel
  import Mesi

  ghost predicate WaysIn(order: seq<nat>, ways: nat) {
    forall i :: 0 <= i < |order| ==> order[i] < ways
  }

  lemma {:induction false} WaysInWithout(order: seq<nat>, w: nat, ways: nat)
    requires WaysIn(order, ways)
    ensures WaysIn(Without(order, w), ways)
  {
    var r := Without(order, w);
    forall i | 0 <= i < |r|
      ensures r[i] < ways
    {
      assert r[i] in order;
    }
  }

  // The valid blocks of a set in policy order, as block numbers.
  ghost function Listing(c: Config, order: seq<nat>, blocks: seq<Block>, s: nat): (r: seq<nat>)
    requires WaysIn(order, |blocks|)
    ensures |r| <= |order|
  {
    if order == [] then [] else
    var rest := Listing(c, order[1..], blocks, s);
    var b := blocks[order[0]];
    if b.valid then [BlockNumber(c, b.tag, s)] + rest else rest
  }

  ghost predicate DistinctTags(order: seq<nat>, blocks: seq<Block>) {
    && Distinct(order)
    && WaysIn(order, |blocks|)
    && (forall i, j :: 0 <= i < j < |blocks| && blocks[i].valid && blocks[j].valid ==> blocks[i].tag != blocks[j].tag)
  }

  lemma {:induction false} ListingMembers(c: Config, order: seq<nat>, blocks: seq<Block>, s: nat, b: nat)
    requires WaysIn(order, |blocks|)
    ensures b in Listing(c, order, blocks, s)
       <==> exists w :: w in order && w < |blocks| && blocks[w].valid && BlockNumber(c, blocks[w].tag, s) == b
  {
    if order != [] {
      ListingMembers(c, order[1..], blocks, s, b);
      assert order == [order[0]] + order[1..];
    }
  }

  lemma {:induction false} BlockNumberInjective(c: Config, t1: nat, t2: nat, s: nat)
    requires ValidConfig(c) && s < c.numSets && BlockNumber(c, t1, s) == BlockNumber(c, t2, s)
    ensures t1 == t2
  {
    BlockNumberInverts(c, t1, s);
    BlockNumberInverts(c, t2, s);
  }

  // A way's block is not listed by the other ways.
  lemma {:induction false} NotListedElsewhere(c: Config, order: seq<nat>, blocks: seq<Block>, s: nat, w: nat)
    requires ValidConfig(c) && s < c.numSets && DistinctTags(order, blocks)
    requires w !in order && w < |blocks| && blocks[w].valid
    ensures BlockNumber(c, blocks[w].tag, s) !in Listing(c, order, blocks, s)
  {
    var b := BlockNumber(c, blocks[w].tag, s);
    ListingMembers(c, order, blocks, s, b);
    forall v | v in order && v < |blocks| && blocks[v].valid
      ensures BlockNumber(c, blocks[v].tag, s) != b
    {
      if BlockNumber(c, blocks[v].tag, s) == b {
        BlockNumberInjective(c, blocks[v].tag, blocks[w].tag, s);
      }
    }
  }

  lemma {:induction false} ListingDistinct(c: Config, order: seq<nat>, blocks: seq<Block>, s: nat)
    requires ValidConfig(c) && s < c.numSets && DistinctTags(order, blocks)
    ensures Distinct(Listing(c, order, blocks, s))
  {
    if order != [] {
      ListingDistinct(c, order[1..], blocks, s);
      assert order[0] !in order[1..];
      if blocks[order[0]].valid {
        NotListedElsewhere(c, order[1..], blocks, s, order[0]);
      }
    }
  }

  // Taking a way out of the order takes its block out of the listing.
  lemma {:induction false} ListingWithout(c: Config, order: seq<nat>, blocks: seq<Block>, s: nat, w: nat)
    requires ValidConfig(c) && s < c.numSets && DistinctTags(order, blocks) && w in order
    ensures WaysIn(Without(order, w), |blocks|)
    ensures Listing(c, Without(order, w), blocks, s)
         == if blocks[w].valid then Without(Listing(c, order, blocks, s), BlockNumber(c, blocks[w].tag, s))
            else Listing(c, order, blocks, s)
  {
    WaysInWithout(order, w, |blocks|);
    var first := order[0];
    if first == w {
      assert w !in order[1..];
      if blocks[w].valid {
        NotListedElsewhere(c, order[1..], blocks, s, w);
      }
    } else {
      ListingWithout(c, order[1..], blocks, s, w);
      assert ([first] + Without(order[1..], w))[1..] == Without(order[1..], w);
      if blocks[first].valid && blocks[w].valid {
        if BlockNumber(c, blocks[first].tag, s) == BlockNumber(c, blocks[w].tag, s) {
          BlockNumberInjective(c, blocks[first].tag, blocks[w].tag, s);
        }
      }
    }
  }

  // Overwriting a way outside the order does not change the listing.
  lemma {:induction false} ListingIgnores(c: Config, order: seq<nat>, blocks: seq<Block>, s: nat, w: nat, b: Block)
    requires WaysIn(order, |blocks|)
    requires w !in order && w < |blocks|
    ensures Listing(c, order, blocks[w := b], s) == Listing(c, order, blocks, s)
  {
    if order != [] {
      ListingIgnores(c, order[1..], blocks, s, w, b);
      assert order[0] in order;
    }
  }

  // Overwriting a block without changing whether it is valid or its tag does not change the listing.
  lemma {:induction false} ListingRetags(c: Config, order: seq<nat>, blocks: seq<Block>, s: nat, w: nat, b: Block)
    requires WaysIn(order, |blocks|)
    requires w < |blocks| && b.valid == blocks[w].valid && b.tag == blocks[w].tag
    ensures Listing(c, order, blocks[w := b], s) == Listing(c, order, blocks, s)
  {
    if order != [] {
      ListingRetags(c, order[1..], blocks, s, w, b);
    }
  }

  lemma {:induction false} ListingWhenFull(c: Config, order: seq<nat>, blocks: seq<Block>, s: nat)
    requires WaysIn(order, |blocks|) && forall i :: 0 <= i < |order| ==> blocks[order[i]].valid
    ensures |Listing(c, order, blocks, s)| == |order|
    ensures forall i :: 0 <= i < |order| ==> Listing(c, order, blocks, s)[i] == BlockNumber(c, blocks[order[i]].tag, s)
  {
    if order != [] {
      ListingWhenFull(c, order[1..], blocks, s);
    }
  }

  lemma {:induction false} ListingWithHole(c: Config, order: seq<nat>, blocks: seq<Block>, s: nat, w: nat)
    requires WaysIn(order, |blocks|)
    requires w in order && !blocks[w].valid
    ensures |Listing(c, order, blocks, s)| < |order|
  {
    if order[0] != w {
      ListingWithHole(c, order[1..], blocks, s, w);
    }
  }

  // ---------- One set ----------

  ghost function SetList(c: Config, set_: CacheSet, s: nat): seq<nat>
    requires SetShape(c, set_) && set_.policy.Lru?
  {
    Listing(c, set_.policy.order, set_.blocks, s)
  }

  // Bringing block `b` to way `w`, at the front of the order.
  lemma {:induction false} FrontListing(c: Config, set_: CacheSet, s: nat, w: nat, b: Block)
    requires ValidConfig(c) && s < c.numSets && c.policy == LRU && SetInvariant(c, set_, s) && w < c.ways && b.valid
    ensures SetShape(c, CacheSet(set_.blocks[w := b], Lru(Promote(set_.policy.order, w))))
    ensures SetList(c, CacheSet(set_.blocks[w := b], Lru(Promote(set_.policy.order, w))), s)
         == [BlockNumber(c, b.tag, s)] +
            (if set_.blocks[w].valid then Without(SetList(c, set_, s), BlockNumber(c, set_.blocks[w].tag, s))
             else SetList(c, set_, s))
  {
    var order := set_.policy.order;
    PromoteKeepsOrder(order, w, c.ways);
    var rest := Without(order, w);
    assert ([w] + rest)[1..] == rest;
    ListingWithout(c, order, set_.blocks, s, w);
    ListingIgnores(c, rest, set_.blocks, s, w, b);
  }

  lemma {:induction false} LruVictimIsLast(order: seq<nat>, n: nat)
    requires IsOrder(order, n) && n > 0
    ensures LruVictim(order, AllTrue(n)) == order[n - 1]
  {
    assert order[n - 1] < n;
  }

  // Hit or miss, an access moves the block to the front of its set's list and drops what
  // no longer fits.
  lemma {:induction false} AccessSetList(c: Config, k: CacheModel.Cache, address: U32, isWrite: bool)
    requires Invariant(c, k) && c.policy == LRU
    ensures var s, b, o := SetOf(c, address), BlockOf(c, address), CacheModel.Access(c, k, address, isWrite);
            SetShape(c, o.cache.sets[s]) &&
            SetList(c, o.cache.sets[s], s) == Touch(SetList(c, k.sets[s], s), b, c.ways) &&
            o.hit == (b in SetList(c, k.sets[s], s))
  {
    AccessKeepsInvariant(c, k, address, isWrite);
    MappingInverts(c, address);
    var s, tag := SetOf(c, address), TagOf(c, address);
    var set_ := k.sets[s];
    var order := set_.policy.order;
    var way := FindWayFrom(set_.blocks, tag, 0);
    ListingMembers(c, order, set_.blocks, s, BlockOf(c, address));
    ListingDistinct(c, order, set_.blocks, s);
    if way >= 0 {
      assert way in order;
      FrontListing(c, set_, s, way, HitBlock(set_.blocks[way], isWrite, c.write));
      WithoutKeepsDistinct(SetList(c, set_, s), BlockOf(c, address));
    } else {
      MissNotListed(c, set_, s, tag);
      MissSetList(c, set_, s, tag, isWrite);
    }
  }

  lemma {:induction false} MissNotListed(c: Config, set_: CacheSet, s: nat, tag: nat)
    requires ValidConfig(c) && s < c.numSets && c.policy == LRU && SetInvariant(c, set_, s)
    requires FindWayFrom(set_.blocks, tag, 0) < 0
    ensures BlockNumber(c, tag, s) !in SetList(c, set_, s)
  {
    ListingMembers(c, set_.policy.order, set_.blocks, s, BlockNumber(c, tag, s));
    forall w | w < |set_.blocks| && w in set_.policy.order && set_.blocks[w].valid
      ensures BlockNumber(c, set_.blocks[w].tag, s) != BlockNumber(c, tag, s)
    {
      if BlockNumber(c, set_.blocks[w].tag, s) == BlockNumber(c, tag, s) {
        BlockNumberInjective(c, set_.blocks[w].tag, tag, s);
      }
    }
  }

  lemma {:induction false} MissSetList(c: Config, set_: CacheSet, s: nat, tag: nat, isWrite: bool)
    requires ValidConfig(c) && s < c.numSets && c.policy == LRU && SetInvariant(c, set_, s)
    requires BlockNumber(c, tag, s) !in SetList(c, set_, s)
    ensures var w := FindVictim(set_);
            var set' := CacheSet(set_.blocks[w := NewBlock(tag, isWrite)], Installed(set_.policy, w, c.ways));
            SetShape(c, set') && SetList(c, set', s) == Touch(SetList(c, set_, s), BlockNumber(c, tag, s), c.ways)
  {
    if FirstInvalidFrom(set_.blocks, 0) >= 0 {
      FillHole(c, set_, s, tag, isWrite);
    } else {
      ReplaceLast(c, set_, s, tag, isWrite);
    }
  }

  lemma {:induction false} FillHole(c: Config, set_: CacheSet, s: nat, tag: nat, isWrite: bool)
    requires ValidConfig(c) && s < c.numSets && c.policy == LRU && SetInvariant(c, set_, s)
    requires BlockNumber(c, tag, s) !in SetList(c, set_, s)
    requires FirstInvalidFrom(set_.blocks, 0) >= 0
    ensures var w := FirstInvalidFrom(set_.blocks, 0);
            var set' := CacheSet(set_.blocks[w := NewBlock(tag, isWrite)], Lru(Promote(set_.policy.order, w)));
            SetShape(c, set') && SetList(c, set', s) == Touch(SetList(c, set_, s), BlockNumber(c, tag, s), c.ways)
  {
    var w := FirstInvalidFrom(set_.blocks, 0);
    FrontListing(c, set_, s, w, NewBlock(tag, isWrite));
    ListingWithHole(c, set_.policy.order, set_.blocks, s, w);
  }

  lemma {:induction false} ReplaceLast(c: Config, set_: CacheSet, s: nat, tag: nat, isWrite: bool)
    requires ValidConfig(c) && s < c.numSets && c.policy == LRU && SetInvariant(c, set_, s)
    requires BlockNumber(c, tag, s) !in SetList(c, set_, s)
    requires FirstInvalidFrom(set_.blocks, 0) < 0
    ensures var w := LruVictim(set_.policy.order, AllTrue(c.ways));
            var set' := CacheSet(set_.blocks[w := NewBlock(tag, isWrite)], Lru(Promote(set_.policy.order, w)));
            SetShape(c, set') && SetList(c, set', s) == Touch(SetList(c, set_, s), BlockNumber(c, tag, s), c.ways)
  {
    var w := set_.policy.order[c.ways - 1];
    LruVictimIsLast(set_.policy.order, c.ways);
    FrontListing(c, set_, s, w, NewBlock(tag, isWrite));
    FullListEndsAt(c, set_, s);
    TouchDropsLast(SetList(c, set_, s), BlockNumber(c, tag, s), c.ways);
  }

  lemma {:induction false} FullListEndsAt(c: Config, set_: CacheSet, s: nat)
    requires ValidConfig(c) && s < c.numSets && c.policy == LRU && SetInvariant(c, set_, s)
    requires FirstInvalidFrom(set_.blocks, 0) < 0
    ensures var list, w := SetList(c, set_, s), set_.policy.order[c.ways - 1];
            Distinct(list) && |list| == c.ways && set_.blocks[w].valid &&
            list[c.ways - 1] == BlockNumber(c, set_.blocks[w].tag, s)
  {
    ListingWhenFull(c, set_.policy.order, set_.blocks, s);
    ListingDistinct(c, set_.policy.order, set_.blocks, s);
  }

  // ---------- The whole cache ----------

  // The recency lists a cache stands for.
  ghost function Abstract(c: Config, k: CacheModel.Cache): (r: seq<seq<nat>>)
    requires Shape(c, k) && c.policy == LRU
    ensures |r| == c.numSets
  {
    seq(c.numSets, s requires 0 <= s < c.numSets => SetList(c, k.sets[s], s))
  }

  lemma {:induction false} AccessRefines(c: Config, k: CacheModel.Cache, address: U32, isWrite: bool)
    requires Invariant(c, k) && c.policy == LRU
    ensures var o := CacheModel.Access(c, k, address, isWrite);
            && Invariant(c, o.cache)
            && Abstract(c, o.cache) == StepLists(Abstract(c, k), Recency.Access(BlockOf(c, address)), c.ways)
            && o.hit == Holds(Abstract(c, k), BlockOf(c, address))
  {
    AccessKeepsInvariant(c, k, address, isWrite);
    AccessSetList(c, k, address, isWrite);
    var o := CacheModel.Access(c, k, address, isWrite);
    var s := SetOf(c, address);
    forall t | 0 <= t < c.numSets && t != s
      ensures Abstract(c, o.cache)[t] == Abstract(c, k)[t]
    {
      assert o.cache.sets[t] == k.sets[t];
    }
  }

  lemma {:induction false} SetStateRefines(c: Config, k: CacheModel.Cache, address: U32, state: Mesi.State)
    requires Invariant(c, k) && c.policy == LRU
    ensures var k' := SetState(c, k, address, state);
            && Invariant(c, k')
            && Abstract(c, k') == (if state == Mesi.Invalid
                                   then StepLists(Abstract(c, k), Recency.Invalidate(BlockOf(c, address)), c.ways)
                                   else Abstract(c, k))
  {
    SetStateKeepsInvariant(c, k, address, state);
    var k' := SetState(c, k, address, state);
    var s, tag := SetOf(c, address), TagOf(c, address);
    var set_ := k.sets[s];
    var order := set_.policy.order;
    MappingInverts(c, address);
    var w := FindWayFrom(set_.blocks, tag, 0);
    if w < 0 {
      MissNotListed(c, set_, s, tag);
    } else if state == Mesi.Invalid {
      DropListing(c, set_, s, w, set_.blocks[w].(mesi := state, valid := false));
    } else {
      ListingRetags(c, order, set_.blocks, s, w, set_.blocks[w].(mesi := state, valid := true));
    }
    var expected := if state == Mesi.Invalid
                    then StepLists(Abstract(c, k), Recency.Invalidate(BlockOf(c, address)), c.ways)
                    else Abstract(c, k);
    forall t | 0 <= t < c.numSets
      ensures Abstract(c, k')[t] == expected[t]
    {
      if t != s {
        assert k'.sets[t] == k.sets[t];
      }
    }
  }

  lemma {:induction false} DropListing(c: Config, set_: CacheSet, s: nat, w: nat, b: Block)
    requires ValidConfig(c) && s < c.numSets && c.policy == LRU && SetInvariant(c, set_, s)
    requires w < c.ways && set_.blocks[w].valid && !b.valid
    ensures Listing(c, set_.policy.order, set_.blocks[w := b], s)
         == Without(SetList(c, set_, s), BlockNumber(c, set_.blocks[w].tag, s))
  {
    var order := set_.policy.order;
    ListingWithout(c, order, set_.blocks, s, w);
    WithoutKeepsDistinct(order, w);
    ListingIgnores(c, Without(order, w), set_.blocks, s, w, b);
    HoleNotListed(c, order, set_.blocks[w := b], s, w);
  }

  lemma {:induction false} HoleNotListed(c: Config, order: seq<nat>, blocks: seq<Block>, s: nat, w: nat)
    requires ValidConfig(c) && s < c.numSets && DistinctTags(order, blocks) && w in order && !blocks[w].valid
    ensures WaysIn(Without(order, w), |blocks|)
    ensures Listing(c, order, blocks, s) == Listing(c, Without(order, w), blocks, s)
  {
    ListingWithout(c, order, blocks, s, w);
  }

  lemma {:induction false} InvalidateRefines(c: Config, k: CacheModel.Cache, address: U32)
    requires Invariant(c, k) && c.policy == LRU
    ensures var k' := CacheModel.Invalidate(c, k, address);
            && Invariant(c, k')
            && Abstract(c, k') == StepLists(Abstract(c, k), Recency.Invalidate(BlockOf(c, address)), c.ways)
  {
    SetStateKeepsInvariant(c, k, address, Mesi.Invalid);
    SetStateRefines(c, k, address, Mesi.Invalid);
    var k' := CacheModel.Invalidate(c, k, address);
    assert k'.sets == SetState(c, k, address, Mesi.Invalid).sets;
    assert Abstract(c, k') == Abstract(c, SetState(c, k, address, Mesi.Invalid));
  }
}
