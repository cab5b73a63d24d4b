// How many misses of a run are compulsory, conflict and capacity misses, counted without looking
// at the cache: a set's first misses fill its ways, and the geometry names all others.
module MissKinds {
  import opened Arithmetic
  import opened ReplacementPolicies
  import opened CacheModel
  import opened WriteConservation
  import opened LruTheorems
  import opened FifoPlruCache
  import Mesi

  function Least(a: nat, b: nat): nat {
    if a < b then a else b
  }

  function ValidWays(blocks: seq<Block>): (n: nat)
    ensures n <= |blocks|
  {
    if blocks == [] then 0 else
    var w := |blocks| - 1;
    ValidWays(blocks[..w]) + Flag(blocks[w].valid)
  }

  lemma {:induction false} ValidWaysUpdate(blocks: seq<Block>, w: nat, b: Block)
    requires w < |blocks|
    ensures ValidWays(blocks[w := b]) + Flag(blocks[w].valid) == ValidWays(blocks) + Flag(b.valid)
  {
    var n := |blocks| - 1;
    if w == n {
      assert blocks[w := b][..n] == blocks[..n];
    } else {
      assert blocks[w := b][..n] == blocks[..n][w := b];
      ValidWaysUpdate(blocks[..n], w, b);
    }
  }

  lemma {:induction false} FullIff(blocks: seq<Block>)
    ensures ValidWays(blocks) == |blocks| <==> forall w :: 0 <= w < |blocks| ==> blocks[w].valid
  {
    if blocks != [] {
      var n := |blocks| - 1;
      FullIff(blocks[..n]);
      assert forall w :: 0 <= w < n ==> blocks[..n][w] == blocks[w];
    }
  }

  // What one access does to the number of valid ways of a set: a miss there fills one more, as long
  // as there is one to fill.
  lemma {:induction false} AccessFills(c: Config, k: CacheModel.Cache, r: Request, s: nat)
    requires Shape(c, k) && s < c.numSets
    ensures var o := Access(c, k, r.address, r.isWrite);
      ValidWays(o.cache.sets[s].blocks)
        == Least(ValidWays(k.sets[s].blocks) + Flag(!o.hit && SetOf(c, r.address) == s), c.ways)
  {
    var set_, blocks := k.sets[s], k.sets[s].blocks;
    HitMeansFound(c, k, r);
    ShapeOfSet(c, k, s);
    AccessedBlocks(c, k, r, s);
    var way := FindWayFrom(blocks, TagOf(c, r.address), 0);
    if SetOf(c, r.address) != s {
      AlreadyLeast(ValidWays(blocks), c.ways);
    } else if way >= 0 {
      HitFillsNone(blocks, way, r.isWrite, c.write);
    } else {
      MissFillsOne(set_, NewBlock(TagOf(c, r.address), r.isWrite));
      NewIsValid(TagOf(c, r.address), r.isWrite);
    }
    hide Access, ValidWays, FindVictim, FindWayFrom, HitBlock, NewBlock, Shape, SetShape, Least, Fits, SetOf, TagOf;
  }

  lemma {:induction false} AccessedBlocks(c: Config, k: CacheModel.Cache, r: Request, s: nat)
    requires Shape(c, k) && s < c.numSets && Fits(k.sets[s].policy, |k.sets[s].blocks|) && k.sets[s].blocks != []
    ensures var blocks, tag := k.sets[s].blocks, TagOf(c, r.address);
      var way := FindWayFrom(blocks, tag, 0);
      Access(c, k, r.address, r.isWrite).cache.sets[s].blocks
        == if SetOf(c, r.address) != s then blocks
           else if way >= 0 then blocks[way := HitBlock(blocks[way], r.isWrite, c.write)]
           else blocks[FindVictim(k.sets[s]) := NewBlock(tag, r.isWrite)]
  {
    AccessSets(c, k, r.address, r.isWrite);
    hide Access, FindVictim, FindWayFrom, HitBlock, NewBlock, Accessed, Installed;
  }

  lemma {:induction false} AlreadyLeast(n: nat, ways: nat)
    ensures n <= ways ==> Least(n, ways) == n && Least(n + 0, ways) == n
  {
  }

  lemma {:induction false} NewIsValid(tag: nat, isWrite: bool)
    ensures NewBlock(tag, isWrite).valid
  {
  }

  lemma {:induction false} HitFillsNone(blocks: seq<Block>, way: nat, isWrite: bool, write: WritePolicy)
    requires way < |blocks|
    ensures ValidWays(blocks[way := HitBlock(blocks[way], isWrite, write)]) == Least(ValidWays(blocks), |blocks|)
  {
    ValidWaysUpdate(blocks, way, HitBlock(blocks[way], isWrite, write));
    hide ValidWays;
  }

  lemma {:induction false} MissFillsOne(set_: CacheSet, b: Block)
    requires Fits(set_.policy, |set_.blocks|) && set_.blocks != []
    ensures b.valid ==>
      ValidWays(set_.blocks[FindVictim(set_) := b]) == Least(ValidWays(set_.blocks) + 1, |set_.blocks|)
  {
    FullIff(set_.blocks);
    VictimIsFree(set_);
    ValidWaysUpdate(set_.blocks, FindVictim(set_), b);
    hide ValidWays, FindVictim;
  }

  lemma {:induction false} VictimIsFree(set_: CacheSet)
    requires Fits(set_.policy, |set_.blocks|) && set_.blocks != []
    ensures (forall w :: 0 <= w < |set_.blocks| ==> set_.blocks[w].valid) <==> set_.blocks[FindVictim(set_)].valid
  {
  }

  lemma {:induction false} NoneValid(blocks: seq<Block>)
    requires forall w :: 0 <= w < |blocks| ==> !blocks[w].valid
    ensures ValidWays(blocks) == 0
  {
    if blocks != [] {
      NoneValid(blocks[..|blocks| - 1]);
    }
  }

  // A cold cache has filled as many ways of a set as it has missed there, up to all of them.
  lemma {:induction false} SetFills(c: Config, requests: seq<Request>, s: nat)
    requires ValidConfig(c) && s < c.numSets
    ensures Shape(c, Cold(c))
    ensures ValidWays(Serve(c, Cold(c), requests).sets[s].blocks) == Least(InstallsIn(c, requests, s), c.ways)
  {
    ColdFillsNone(c, s);
    if requests != [] {
      var m := |requests| - 1;
      SetFills(c, requests[..m], s);
      LastRequest(c, requests, s);
      FillsOneMore(c, Serve(c, Cold(c), requests[..m]), requests[m], s, InstallsIn(c, requests[..m], s));
    }
    hide *;
  }

  lemma {:induction false} FillsOneMore(c: Config, k: CacheModel.Cache, r: Request, s: nat, installs: nat)
    requires Shape(c, k) && s < c.numSets && ValidWays(k.sets[s].blocks) == Least(installs, c.ways)
    ensures var o := Access(c, k, r.address, r.isWrite);
      ValidWays(o.cache.sets[s].blocks)
        == Least(installs + (if !o.hit && SetOf(c, r.address) == s then 1 else 0), c.ways)
  {
    hide Access, ValidWays, Least, SetShape;
    AccessFills(c, k, r, s);
    LeastTwice(installs, Flag(!Access(c, k, r.address, r.isWrite).hit && SetOf(c, r.address) == s), c.ways);
  }

  lemma {:induction false} ColdFillsNone(c: Config, s: nat)
    requires ValidConfig(c) && s < c.numSets
    ensures Shape(c, Cold(c)) && ValidWays(Serve(c, Cold(c), []).sets[s].blocks) == Least(InstallsIn(c, [], s), c.ways)
  {
    ColdShape(c);
    NoneValid(Cold(c).sets[s].blocks);
  }

  lemma {:induction false} LeastTwice(x: nat, more: nat, bound: nat)
    ensures Least(Least(x, bound) + more, bound) == Least(x + more, bound)
  {
  }

  // The misses that filled a way of the first n sets.
  function Filling(c: Config, requests: seq<Request>, n: nat): nat
    requires ValidConfig(c)
  {
    if n == 0 then 0 else Filling(c, requests, n - 1) + Least(InstallsIn(c, requests, n - 1), c.ways)
  }

  lemma {:induction false} FillingStep(c: Config, requests: seq<Request>, n: nat)
    requires ValidConfig(c) && Shape(c, Cold(c)) && requests != []
    ensures var m := |requests| - 1;
      var before := Serve(c, Cold(c), requests[..m]);
      var s := SetOf(c, requests[m].address);
      var missed := !Access(c, before, requests[m].address, requests[m].isWrite).hit;
      Filling(c, requests, n)
        == Filling(c, requests[..m], n) + Flag(missed && s < n && InstallsIn(c, requests[..m], s) < c.ways)
  {
    hide Access, Cold, InstallsIn, Serve, SetOf, Least;
    if n > 0 {
      FillingStep(c, requests, n - 1);
      LastRequest(c, requests, n - 1);
      var m := |requests| - 1;
      var missed := !Access(c, Serve(c, Cold(c), requests[..m]), requests[m].address, requests[m].isWrite).hit;
      LeastStep(InstallsIn(c, requests[..m], n - 1), missed && SetOf(c, requests[m].address) == n - 1, c.ways);
    }
  }

  lemma {:induction false} LeastStep(x: nat, more: bool, bound: nat)
    ensures Least(x + Flag(more), bound) == Least(x, bound) + Flag(more && x < bound)
  {
  }

  lemma {:induction false} AccessKind(c: Config, k: CacheModel.Cache, r: Request)
    requires Shape(c, k)
    ensures var o := Access(c, k, r.address, r.isWrite);
      var before, after := k.stats.missTypes, o.cache.stats.missTypes;
      var fills := ValidWays(k.sets[SetOf(c, r.address)].blocks) < c.ways;
      && |after| == 4
      && after[COMPULSORY] == before[COMPULSORY] + Flag(!o.hit && fills)
      && (if c.ways < c.numSets
          then after[CONFLICT] == before[CONFLICT] + Flag(!o.hit && !fills) && after[CAPACITY] == before[CAPACITY]
          else after[CAPACITY] == before[CAPACITY] + Flag(!o.hit && !fills) && after[CONFLICT] == before[CONFLICT])
  {
    FullIff(k.sets[SetOf(c, r.address)].blocks);
    hide FindWayFrom, FindVictim, Installed, Accessed, Mesi.Recorded, ValidWays;
  }

  // After any requests from cold the compulsory misses are, over the sets, the misses there up to
  // the ways; all others are conflict misses if there are fewer ways than sets, else capacity misses.
  lemma {:induction false} MissKindsCount(c: Config, requests: seq<Request>)
    requires ValidConfig(c)
    ensures Shape(c, Cold(c))
    ensures var stats := Serve(c, Cold(c), requests).stats;
      && stats.missTypes[COMPULSORY] == Filling(c, requests, c.numSets)
      && (if c.ways < c.numSets
          then stats.missTypes[CONFLICT] == stats.misses - Filling(c, requests, c.numSets) && stats.missTypes[CAPACITY] == 0
          else stats.missTypes[CAPACITY] == stats.misses - Filling(c, requests, c.numSets) && stats.missTypes[CONFLICT] == 0)
  {
    ColdShape(c);
    if requests == [] {
      NothingFilled(c, c.numSets);
    } else {
      var m := |requests| - 1;
      var before, r := Serve(c, Cold(c), requests[..m]), requests[m];
      MissKindsCount(c, requests[..m]);
      SetFills(c, requests[..m], SetOf(c, r.address));
      FillingStep(c, requests, c.numSets);
      AccessKind(c, before, r);
      AccessCounts(c, before, r.address, r.isWrite);
    }
    hide Access, Filling, ValidWays, InstallsIn;
  }

  lemma {:induction false} NothingFilled(c: Config, n: nat)
    requires ValidConfig(c)
    ensures Filling(c, [], n) == 0
  {
    if n > 0 {
      NothingFilled(c, n - 1);
    }
  }
}
