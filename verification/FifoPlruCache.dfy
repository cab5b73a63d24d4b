// FIFO and tree-PLRU caches over whole runs: which way, and which block, the next miss replaces.
module FifoPlruCache {
  import opened MachineIntegers
  import opened Arithmetic
  import opened ReplacementPolicies
  import opened CacheModel
  import opened WriteConservation
  import opened LruTheorems

  // ---------- FIFO ----------

  // Misses of a run from cold in set `s`.
  function InstallsIn(c: Config, requests: seq<Request>, s: nat): (n: nat)
    requires ValidConfig(c)
    ensures n <= |requests|
  {
    if requests == [] then 0 else
    var m := |requests| - 1;
    ColdShape(c);
    var missed := !CacheModel.Access(c, Serve(c, Cold(c), requests[..m]), requests[m].address, requests[m].isWrite).hit;
    InstallsIn(c, requests[..m], s) + (if missed && SetOf(c, requests[m].address) == s then 1 else 0)
  }

  // A FIFO set after `n` installs fills its ways in order and then goes round; each way's
  // stamp is the latest install number that is congruent to it.
  ghost predicate RoundRobin(set_: CacheSet, ways: nat, n: nat) {
    && ways > 0 && |set_.blocks| == ways
    && set_.policy.Fifo? && |set_.policy.stamps| == ways
    && set_.policy.counter == n
    && (forall i :: 0 <= i < ways ==> (set_.blocks[i].valid <==> i < n))
    && (forall i :: 0 <= i < ways && i < n ==>
          n - ways <= set_.policy.stamps[i] < n && set_.policy.stamps[i] % ways == i)
  }

  lemma {:induction false} NextInTurn(set_: CacheSet, ways: nat, n: nat)
    requires RoundRobin(set_, ways, n) && Fits(set_.policy, ways) && n <= U64_MAX
    ensures FindVictim(set_) == n % ways
  {
    if n < ways {
      FirstFreeInTurn(set_, ways, n);
      DivModUnique(ways, 0, n);
    } else {
      NoneFreeInTurn(set_, ways, n);
      OldestInTurn(set_, ways, n);
    }
    hide RoundRobin, FirstInvalidFrom, Fits;
  }

  lemma {:induction false} FirstFreeInTurn(set_: CacheSet, ways: nat, n: nat)
    requires RoundRobin(set_, ways, n) && n < ways
    ensures FirstInvalidFrom(set_.blocks, 0) == n
  {
    assert !set_.blocks[n].valid;
  }

  lemma {:induction false} NoneFreeInTurn(set_: CacheSet, ways: nat, n: nat)
    requires RoundRobin(set_, ways, n) && ways <= n
    ensures FirstInvalidFrom(set_.blocks, 0) == -1 && set_.policy.Fifo? && |set_.blocks| == ways
  {
  }

  lemma {:induction false} OldestInTurn(set_: CacheSet, ways: nat, n: nat)
    requires RoundRobin(set_, ways, n) && Fits(set_.policy, ways) && ways <= n <= U64_MAX
    ensures FifoVictim(set_.policy.stamps, AllTrue(ways)) == n % ways
  {
    var stamps, w := set_.policy.stamps, n % ways;
    SameResidue(ways, stamps[w], n);
    forall i | 0 <= i < ways && i != w
      ensures stamps[w] < stamps[i]
    {
      SameResidue(ways, stamps[i], n);
    }
    FifoScanFindsMinimum(stamps, AllTrue(ways), ways);
  }

  // A number within `ways` below n and congruent to n is n - ways; and n - ways is congruent to n.
  lemma {:induction false} SameResidue(ways: nat, x: nat, n: nat)
    requires ways > 0 && n - ways <= x < n
    ensures x % ways == n % ways <==> x == n - ways
  {
    var q, r := n / ways, n % ways;
    assert n == ways * q + r;
    if x == n - ways {
      assert x == ways * (q - 1) + r;
      ModUnique(ways, q - 1, r, x);
    } else if x % ways == r {
      var p := x / ways;
      assert x == ways * p + r;
      GapAtLeast(ways, q - p, n - x);
    }
  }

  lemma {:induction false} ModUnique(ways: nat, q: int, r: nat, x: nat)
    requires r < ways && x == ways * q + r
    ensures x % ways == r
  {
    if q < 0 {
      MulBound(ways, q);
    }
    DivModUnique(ways, q, r);
  }

  lemma {:induction false} GapAtLeast(ways: nat, d: int, x: int)
    requires x == ways * d && x > 0
    ensures x >= ways
  {
    MulBound(ways, d);
  }

  lemma {:induction false} InstallKeepsTurn(set_: CacheSet, ways: nat, n: nat, b: Block)
    requires RoundRobin(set_, ways, n) && Fits(set_.policy, ways) && n < U64_MAX && b.valid
    ensures var w := FindVictim(set_);
            RoundRobin(CacheSet(set_.blocks[w := b], Installed(set_.policy, w, ways)), ways, n + 1)
  {
    hide FindVictim, Fits;
    NextInTurn(set_, ways, n);
    var w := n % ways;
    if n < ways {
      assert w == n;
    } else {
      var stamps := set_.policy.stamps;
      forall i | 0 <= i < ways && i != w
        ensures stamps[i] != n - ways
      {
        SameResidue(ways, stamps[i], n);
      }
      StampsMoveOn(stamps, ways, n);
    }
  }

  lemma {:induction false} StampsMoveOn(stamps: seq<nat>, ways: nat, n: nat)
    requires |stamps| == ways > 0 && n >= ways
    requires forall i :: 0 <= i < ways ==> n - ways <= stamps[i] < n && stamps[i] % ways == i
    requires forall i :: 0 <= i < ways && i != n % ways ==> stamps[i] != n - ways
    ensures var stamps' := stamps[n % ways := n];
            forall i :: 0 <= i < ways ==> n + 1 - ways <= stamps'[i] < n + 1 && stamps'[i] % ways == i
  {
  }

  lemma {:induction false} ColdTurn(c: Config, s: nat)
    requires ValidConfig(c) && c.policy == FIFO && s < c.numSets
    ensures Shape(c, Cold(c)) && RoundRobin(Cold(c).sets[s], c.ways, 0)
  {
    ColdInvariant(c);
  }

  lemma {:induction false} LastRequest(c: Config, requests: seq<Request>, s: nat)
    requires ValidConfig(c) && Shape(c, Cold(c)) && requests != []
    ensures var m := |requests| - 1;
            var before := Serve(c, Cold(c), requests[..m]);
            var o := CacheModel.Access(c, before, requests[m].address, requests[m].isWrite);
            && Serve(c, Cold(c), requests) == o.cache
            && InstallsIn(c, requests, s) == InstallsIn(c, requests[..m], s)
                 + (if !o.hit && SetOf(c, requests[m].address) == s then 1 else 0)
  {
    hide CacheModel.Access, Cold;
  }

  // Hits do not matter: the next install into a set always goes to the way whose number is
  // the install count modulo the associativity. (Install counters are 64-bit.)
  lemma {:induction false} FifoRun(c: Config, requests: seq<Request>, s: nat)
    requires ValidConfig(c) && c.policy == FIFO && s < c.numSets && InstallsIn(c, requests, s) <= U64_MAX
    ensures Invariant(c, Serve(c, Cold(c), requests))
    ensures RoundRobin(Serve(c, Cold(c), requests).sets[s], c.ways, InstallsIn(c, requests, s))
  {
    ColdInvariant(c);
    ServeKeepsInvariant(c, Cold(c), requests);
    if requests == [] {
      ColdTurn(c, s);
    } else {
      LastRequest(c, requests, s);
    }
    assert requests == [] ==> Serve(c, Cold(c), requests) == Cold(c) && InstallsIn(c, requests, s) == 0;
    hide CacheModel.Access, Cold, Invariant, RoundRobin, SetOf, Serve, InstallsIn;
    if requests != [] {
      var m := |requests| - 1;
      FifoRun(c, requests[..m], s);
      FifoStep(c, Serve(c, Cold(c), requests[..m]), requests[m], s, InstallsIn(c, requests[..m], s));
    }
  }

  lemma {:induction false} FifoStep(c: Config, k: CacheModel.Cache, r: Request, s: nat, n: nat)
    requires Invariant(c, k) && c.policy == FIFO && s < c.numSets
    requires RoundRobin(k.sets[s], c.ways, n)
    requires var o := CacheModel.Access(c, k, r.address, r.isWrite);
             n + (if !o.hit && SetOf(c, r.address) == s then 1 else 0) <= U64_MAX
    ensures var o := CacheModel.Access(c, k, r.address, r.isWrite);
            RoundRobin(o.cache.sets[s], c.ways, n + (if !o.hit && SetOf(c, r.address) == s then 1 else 0))
  {
    hide CacheModel.Access, FindVictim, SetInvariant;
    AccessSets(c, k, r.address, r.isWrite);
    HitMeansFound(c, k, r);
    if SetOf(c, r.address) == s && FindWayFrom(k.sets[s].blocks, TagOf(c, r.address), 0) < 0 {
      InstallKeepsTurn(k.sets[s], c.ways, n, NewBlock(TagOf(c, r.address), r.isWrite));
    }
  }

  lemma {:induction false} HitMeansFound(c: Config, k: CacheModel.Cache, r: Request)
    requires Shape(c, k)
    ensures CacheModel.Access(c, k, r.address, r.isWrite).hit <==> Contains(c, k, r.address)
  {
  }

  // In a FIFO cache with no invalidations, the way a miss in set `s` replaces is the number
  // of earlier misses in that set, modulo the associativity: eviction j goes to way j mod ways.
  lemma {:induction false} FifoEvictsInTurn(c: Config, requests: seq<Request>, s: nat)
    requires ValidConfig(c) && c.policy == FIFO && s < c.numSets && InstallsIn(c, requests, s) <= U64_MAX
    ensures Invariant(c, Serve(c, Cold(c), requests))
    ensures FindVictim(Serve(c, Cold(c), requests).sets[s]) == InstallsIn(c, requests, s) % c.ways
    ensures InstallsIn(c, requests, s) >= c.ways ==>
      FindVictim(Serve(c, Cold(c), requests).sets[s]) == (InstallsIn(c, requests, s) - c.ways) % c.ways
  {
    hide CacheModel.Access, FindVictim, InstallsIn;
    FifoRun(c, requests, s);
    var n := InstallsIn(c, requests, s);
    NextInTurn(Serve(c, Cold(c), requests).sets[s], c.ways, n);
    if n >= c.ways {
      SameResidue(c.ways, n - c.ways, n);
    }
  }

  // ---------- Tree PLRU ----------

  lemma {:induction false} ElsewhereKeepsSet(c: Config, k: CacheModel.Cache, requests: seq<Request>, s: nat)
    requires Invariant(c, k) && s < c.numSets
    requires forall i :: 0 <= i < |requests| ==> SetOf(c, requests[i].address) != s
    ensures Invariant(c, Serve(c, k, requests))
    ensures Serve(c, k, requests).sets[s] == k.sets[s]
  {
    ServeKeepsInvariant(c, k, requests);
    if requests != [] {
      var n := |requests| - 1;
      ElsewhereKeepsSet(c, k, requests[..n], s);
      AccessSets(c, Serve(c, k, requests[..n]), requests[n].address, requests[n].isWrite);
    }
  }

  // Right after an access, the accessed block sits where the next victim of a full set is taken.
  lemma {:induction false} PlruPointsAtAccessed(c: Config, k: CacheModel.Cache, r: Request)
    requires Invariant(c, k) && c.policy == PLRU
    requires var s, k' := SetOf(c, r.address), CacheModel.Access(c, k, r.address, r.isWrite).cache;
             forall i :: 0 <= i < c.ways ==> k'.sets[s].blocks[i].valid
    ensures var s, k' := SetOf(c, r.address), CacheModel.Access(c, k, r.address, r.isWrite).cache;
            Invariant(c, k') && FindVictim(k'.sets[s]) == FindWayFrom(k'.sets[s].blocks, TagOf(c, r.address), 0)
  {
    hide CacheModel.Access, PlruVictim, PointPath, IsPowerOfTwo, Representable;
    AccessKeepsInvariant(c, k, r.address, r.isWrite);
    AccessSets(c, k, r.address, r.isWrite);
    var s := SetOf(c, r.address);
    var set_, set' := k.sets[s], CacheModel.Access(c, k, r.address, r.isWrite).cache.sets[s];
    var found := FindWayFrom(set_.blocks, TagOf(c, r.address), 0);
    var way := if found >= 0 then found else FindVictim(set_);
    StillFound(c, set', s, way);
    PlruPicksLastTouched(set_.policy.bits, way, AllTrue(c.ways));
  }

  // In a full PLRU set a miss replaces the block used last, whatever happened in other sets
  // meanwhile, and keeps every other block.
  lemma {:induction false} PlruReplacesMostRecent(c: Config, k: CacheModel.Cache, last: Request, elsewhere: seq<Request>, next: Request)
    requires Invariant(c, k) && c.policy == PLRU
    requires SetOf(c, next.address) == SetOf(c, last.address)
    requires forall i :: 0 <= i < |elsewhere| ==> SetOf(c, elsewhere[i].address) != SetOf(c, last.address)
    requires var k1 := Serve(c, CacheModel.Access(c, k, last.address, last.isWrite).cache, elsewhere);
             && !Contains(c, k1, next.address)
             && forall i :: 0 <= i < c.ways ==> k1.sets[SetOf(c, last.address)].blocks[i].valid
    ensures var k1 := Serve(c, CacheModel.Access(c, k, last.address, last.isWrite).cache, elsewhere);
            var k2 := CacheModel.Access(c, k1, next.address, next.isWrite).cache;
            && Contains(c, k1, last.address)
            && !Contains(c, k2, last.address)
            && (forall a: U32 :: Contains(c, k1, a) && BlockOf(c, a) != BlockOf(c, last.address) ==> Contains(c, k2, a))
  {
    hide CacheModel.Access, FindVictim, SetInvariant, Installed, Accessed;
    var k0 := CacheModel.Access(c, k, last.address, last.isWrite).cache;
    var s := SetOf(c, last.address);
    AccessKeepsInvariant(c, k, last.address, last.isWrite);
    ElsewhereKeepsSet(c, k0, elsewhere, s);
    PlruPointsAtAccessed(c, k, last);
    MissDropsOnlyVictim(c, Serve(c, k0, elsewhere), next, last.address);
  }

  lemma {:induction false} MissDropsOnlyVictim(c: Config, k: CacheModel.Cache, next: Request, victim: U32)
    requires Invariant(c, k) && !Contains(c, k, next.address)
    requires SetOf(c, victim) == SetOf(c, next.address)
    requires FindVictim(k.sets[SetOf(c, victim)]) == FindWayFrom(k.sets[SetOf(c, victim)].blocks, TagOf(c, victim), 0)
    ensures var k' := CacheModel.Access(c, k, next.address, next.isWrite).cache;
            && !Contains(c, k', victim)
            && (forall a: U32 :: Contains(c, k, a) && BlockOf(c, a) != BlockOf(c, victim) ==> Contains(c, k', a))
  {
    var k' := CacheModel.Access(c, k, next.address, next.isWrite).cache;
    var s := SetOf(c, victim);
    AccessSets(c, k, next.address, next.isWrite);
    VictimGone(c, k, next, victim);
    forall a: U32 | Contains(c, k, a) && BlockOf(c, a) != BlockOf(c, victim)
      ensures Contains(c, k', a)
    {
      if SetOf(c, a) == s {
        var way := FindWayFrom(k.sets[s].blocks, TagOf(c, a), 0);
        if way == FindVictim(k.sets[s]) {
          SameBlockNumber(c, a, BlockOf(c, victim));
        }
        KeptOnMiss(c, k, next, way);
      }
    }
  }

  lemma {:induction false} VictimGone(c: Config, k: CacheModel.Cache, next: Request, victim: U32)
    requires Invariant(c, k) && !Contains(c, k, next.address)
    requires SetOf(c, victim) == SetOf(c, next.address)
    requires FindVictim(k.sets[SetOf(c, victim)]) == FindWayFrom(k.sets[SetOf(c, victim)].blocks, TagOf(c, victim), 0)
    ensures !Contains(c, CacheModel.Access(c, k, next.address, next.isWrite).cache, victim)
  {
    var s, w := SetOf(c, victim), FindVictim(k.sets[SetOf(c, victim)]);
    var blocks := k.sets[s].blocks;
    AccessSets(c, k, next.address, next.isWrite);
    assert blocks[w].tag == TagOf(c, victim) != TagOf(c, next.address);
    var now := CacheModel.Access(c, k, next.address, next.isWrite).cache.sets[s].blocks;
    assert now == blocks[w := NewBlock(TagOf(c, next.address), next.isWrite)];
  }
}
