// A cache over a second cache: what the two levels' counters say of each other, and that a
// written block stays held in one of them until the lower one has written it further down.
module TwoLevels {
  import opened MachineIntegers
  import opened Arithmetic
  import opened ReplacementPolicies
  import opened CacheModel
  import opened WriteConservation
  import Mesi
  import opened Transitions

  datatype Levels = Levels(upper: Cache, lower: Cache)

  // Both levels after a run of requests from cold; the lower one serves what the upper one sends.
  function ServeBoth(c1: Config, c2: Config, requests: seq<Request>): (r: Levels)
    requires ValidConfig(c1) && ValidConfig(c2)
    ensures Shape(c1, r.upper) && Shape(c2, r.lower)
  {
    ColdShape(c1);
    ColdShape(c2);
    if requests == [] then Levels(Cold(c1), Cold(c2)) else
    var n := |requests| - 1;
    var before := ServeBoth(c1, c2, requests[..n]);
    var o := Access(c1, before.upper, requests[n].address, requests[n].isWrite);
    Levels(o.cache, Serve(c2, before.lower, o.issued))
  }

  lemma {:induction false} UpperIsAlone(c1: Config, c2: Config, requests: seq<Request>)
    requires ValidConfig(c1) && ValidConfig(c2)
    ensures Shape(c1, Cold(c1)) && ServeBoth(c1, c2, requests).upper == Serve(c1, Cold(c1), requests)
  {
    ColdShape(c1);
    if requests != [] {
      UpperIsAlone(c1, c2, requests[..|requests| - 1]);
    }
    hide Access, Cold;
  }

  lemma {:induction false} InvariantsBoth(c1: Config, c2: Config, requests: seq<Request>)
    requires ValidConfig(c1) && ValidConfig(c2)
    ensures Invariant(c1, ServeBoth(c1, c2, requests).upper) && Invariant(c2, ServeBoth(c1, c2, requests).lower)
  {
    hide Access, Cold, Invariant, Shape;
    ColdInvariant(c1);
    ColdInvariant(c2);
    if requests != [] {
      var n := |requests| - 1;
      InvariantsBoth(c1, c2, requests[..n]);
      var before := ServeBoth(c1, c2, requests[..n]);
      AccessKeepsInvariant(c1, before.upper, requests[n].address, requests[n].isWrite);
      ServeKeepsInvariant(c2, before.lower, Access(c1, before.upper, requests[n].address, requests[n].isWrite).issued);
    }
  }

  // ---------- Counters ----------

  function CountOf(requests: seq<Request>, isWrite: bool): (n: nat) {
    if requests == [] then 0 else
    var n := |requests| - 1;
    CountOf(requests[..n], isWrite) + Flag(requests[n].isWrite == isWrite)
  }

  // Each access is one hit or miss and one read or write, and each miss has one kind.
  ghost predicate Balanced(s: Stats) {
    && s.hits + s.misses == s.readCount + s.writeCount
    && |s.missTypes| == 4
    && s.missTypes[COMPULSORY] + s.missTypes[CAPACITY] + s.missTypes[CONFLICT] == s.misses
  }

  // How one access moves the counters, and what it sends down.
  ghost predicate StepBalance(s: Stats, o: Outcome, isWrite: bool) {
    var s' := o.cache.stats;
    && s'.readCount == s.readCount + Flag(!isWrite) && s'.writeCount == s.writeCount + Flag(isWrite)
    && (Balanced(s) ==> Balanced(s'))
    && CountOf(o.issued, false) + s.misses == s'.misses
    && CountOf(o.issued, true) + s.writeBacks + s.writeThroughs == s'.writeBacks + s'.writeThroughs
  }

  lemma {:induction false} AccessBalance(c: Config, k: Cache, r: Request)
    requires Shape(c, k)
    ensures StepBalance(k.stats, Access(c, k, r.address, r.isWrite), r.isWrite)
  {
    var s := SetOf(c, r.address);
    var way := FindWayFrom(k.sets[s].blocks, TagOf(c, r.address), 0);
    if way >= 0 {
      HitBalance(c, k, r, s, way);
    } else {
      MissBalance(c, k, r, s);
    }
    hide HitStep, MissStep, FindWayFrom, StepBalance;
  }

  lemma {:induction false} HitBalance(c: Config, k: Cache, r: Request, s: nat, way: nat)
    requires Shape(c, k) && s < c.numSets && way < c.ways
    ensures StepBalance(k.stats, HitStep(c, k.(stats := Count(k.stats, r.isWrite)), r.address, r.isWrite, s, way), r.isWrite)
  {
    hide HitStep, CountOf, SetShape, IsTable;
    HitCounts(c, k.(stats := Count(k.stats, r.isWrite)), r, s, way);
  }

  lemma {:induction false} HitCounts(c: Config, k: Cache, r: Request, s: nat, way: nat)
    requires Shape(c, k) && s < c.numSets && way < c.ways
    ensures var o := HitStep(c, k, r.address, r.isWrite, s, way);
      && o.cache.stats == k.stats.(hits := k.stats.hits + 1, writeThroughs := k.stats.writeThroughs + CountOf(o.issued, true))
      && CountOf(o.issued, false) == 0
  {
    hide CountOf, Accessed, HitBlock, Mesi.Recorded, SetShape;
    CountOfFew(HitStep(c, k, r.address, r.isWrite, s, way).issued);
    hide Shape;
  }

  lemma {:induction false} MissBalance(c: Config, k: Cache, r: Request, s: nat)
    requires Shape(c, k) && s < c.numSets
    ensures StepBalance(k.stats, MissStep(c, k.(stats := Count(k.stats, r.isWrite)), r.address, r.isWrite, s), r.isWrite)
  {
    var counted := k.(stats := Count(k.stats, r.isWrite));
    hide CountOf, CountMiss, ReplaceStep, FindVictim, SetShape, IsTable;
    ShapeOfSet(c, counted, s);
    CountMissBalance(c, counted, s);
    ReplaceBalance(c, CountMiss(c, counted, s), r, s, FindVictim(counted.sets[s]));
  }

  lemma {:induction false} CountMissBalance(c: Config, k: Cache, s: nat)
    requires Shape(c, k) && s < c.numSets
    ensures var t, t' := k.stats.missTypes, CountMiss(c, k, s).stats.missTypes;
      && CountMiss(c, k, s).stats == k.stats.(misses := k.stats.misses + 1, missTypes := t') && |t'| == 4
      && t'[COMPULSORY] + t'[CAPACITY] + t'[CONFLICT] == t[COMPULSORY] + t[CAPACITY] + t[CONFLICT] + 1
  {
    hide SetShape;
  }

  lemma {:induction false} ReplaceBalance(c: Config, k: Cache, r: Request, s: nat, way: nat)
    requires Shape(c, k) && s < c.numSets && way < c.ways
    ensures var o := ReplaceStep(c, k, r.address, r.isWrite, s, way);
      && o.cache.stats == k.stats.(writeBacks := k.stats.writeBacks + CountOf(o.issued, true))
      && CountOf(o.issued, false) == 1
  {
    CountOfFew(ReplaceStep(c, k, r.address, r.isWrite, s, way).issued);
    hide CountOf, Installed, NewBlock, VictimAddress, Mesi.Recorded, Shape, SetShape, NeedsWriteback;
  }

  lemma {:induction false} CountOfFew(requests: seq<Request>)
    ensures |requests| == 0 ==> CountOf(requests, true) == CountOf(requests, false) == 0
    ensures |requests| == 1 ==> forall w :: CountOf(requests, w) == Flag(requests[0].isWrite == w)
    ensures |requests| == 2 ==>
      forall w :: CountOf(requests, w) == Flag(requests[0].isWrite == w) + Flag(requests[1].isWrite == w)
  {
    if |requests| == 2 {
      forall w
        ensures CountOf(requests, w) == Flag(requests[0].isWrite == w) + Flag(requests[1].isWrite == w)
      {
        assert CountOf(requests[..1], w) == Flag(requests[0].isWrite == w);
      }
    }
  }

  lemma {:induction false} ServeCounts(c: Config, k: Cache, requests: seq<Request>)
    requires Shape(c, k)
    ensures var s, s' := k.stats, Serve(c, k, requests).stats;
      && s'.readCount == s.readCount + CountOf(requests, false)
      && s'.writeCount == s.writeCount + CountOf(requests, true)
      && (Balanced(s) ==> Balanced(s'))
  {
    if requests != [] {
      var n := |requests| - 1;
      ServeCounts(c, k, requests[..n]);
      AccessBalance(c, Serve(c, k, requests[..n]), requests[n]);
    }
    hide Access, Balanced;
  }

  // After every run the lower level has read once per miss of the upper one and written once
  // per write-back or write-through, and the counters of each level add up.
  lemma {:induction false} LevelsBalance(c1: Config, c2: Config, requests: seq<Request>)
    requires ValidConfig(c1) && ValidConfig(c2)
    ensures var r := ServeBoth(c1, c2, requests);
      var s1, s2 := r.upper.stats, r.lower.stats;
      && Balanced(s1) && Balanced(s2)
      && s1.readCount == CountOf(requests, false) && s1.writeCount == CountOf(requests, true)
      && s2.readCount == s1.misses
      && s2.writeCount == s1.writeBacks + s1.writeThroughs
  {
    if requests == [] {
      assert Balanced(Cold(c1).stats) && Balanced(Cold(c2).stats);
    } else {
      var n := |requests| - 1;
      LevelsBalance(c1, c2, requests[..n]);
      var before := ServeBoth(c1, c2, requests[..n]);
      AccessBalance(c1, before.upper, requests[n]);
      ServeCounts(c2, before.lower, Access(c1, before.upper, requests[n].address, requests[n].isWrite).issued);
    }
    hide Access, Balanced, Serve;
  }

  // ---------- Writes ----------

  // All that a cache sends down while serving requests.
  function SentDown(c: Config, k: Cache, requests: seq<Request>): seq<Request>
    requires Shape(c, k)
  {
    if requests == [] then [] else
    var n := |requests| - 1;
    SentDown(c, k, requests[..n])
      + Access(c, Serve(c, k, requests[..n]), requests[n].address, requests[n].isWrite).issued
  }

  lemma {:induction false} SentEither(c: Config, a: seq<Request>, b: seq<Request>, block: nat)
    requires ValidConfig(c) && (WritesDown(c, a, block) || WritesDown(c, b, block))
    ensures WritesDown(c, a + b, block)
  {
    if WritesDown(c, a, block) {
      var i :| 0 <= i < |a| && a[i].isWrite && BlockOf(c, a[i].address) == block;
      assert (a + b)[i] == a[i];
    } else {
      var i :| 0 <= i < |b| && b[i].isWrite && BlockOf(c, b[i].address) == block;
      assert (a + b)[|a| + i] == b[i];
    }
  }

  // Serving requests keeps a block that needs write-back, or writes it down.
  lemma {:induction false} ServeKeepsHeld(c: Config, k: Cache, requests: seq<Request>, b: nat)
    requires Invariant(c, k) && HeldDirty(c, k, b)
    ensures HeldDirty(c, Serve(c, k, requests), b) || WritesDown(c, SentDown(c, k, requests), b)
  {
    if requests != [] {
      var n := |requests| - 1;
      ServeKeepsHeld(c, k, requests[..n], b);
      ServeOneMore(c, k, requests, b);
    }
    hide HeldDirty, WritesDown, Access;
  }

  lemma {:induction false} ServeOneMore(c: Config, k: Cache, requests: seq<Request>, b: nat)
    requires Invariant(c, k) && requests != []
    requires var n := |requests| - 1;
             HeldDirty(c, Serve(c, k, requests[..n]), b) || WritesDown(c, SentDown(c, k, requests[..n]), b)
             || (requests[n].isWrite && BlockOf(c, requests[n].address) == b)
    ensures HeldDirty(c, Serve(c, k, requests), b) || WritesDown(c, SentDown(c, k, requests), b)
  {
    hide HeldDirty, WritesDown, Access, Invariant, Shape, BlockOf;
    InvariantIsShaped(c, k);
    var n := |requests| - 1;
    var before := Serve(c, k, requests[..n]);
    ServeKeepsInvariant(c, k, requests[..n]);
    var sent, more := SentDown(c, k, requests[..n]), Access(c, before, requests[n].address, requests[n].isWrite).issued;
    if WritesDown(c, sent, b) {
      SentEither(c, sent, more, b);
    } else {
      if HeldDirty(c, before, b) {
        HeldStaysHeld(c, before, requests[n], b);
      } else {
        WriteIsHeld(c, before, requests[n]);
      }
      if WritesDown(c, more, b) {
        SentEither(c, sent, more, b);
      }
    }
  }

  // A served write leaves its block held, or written down.
  lemma {:induction false} ServeHoldsWrite(c: Config, k: Cache, requests: seq<Request>, b: nat)
    requires Invariant(c, k) && WritesDown(c, requests, b)
    ensures HeldDirty(c, Serve(c, k, requests), b) || WritesDown(c, SentDown(c, k, requests), b)
  {
    InvariantIsShaped(c, k);
    LastOrBefore(c, requests, b);
    hide HeldDirty, WritesDown, Access, Invariant, Shape, BlockOf, Serve, SentDown;
    if WritesDown(c, requests[..|requests| - 1], b) {
      ServeHoldsWrite(c, k, requests[..|requests| - 1], b);
    }
    ServeOneMore(c, k, requests, b);
  }

  lemma {:induction false} LastOrBefore(c: Config, requests: seq<Request>, b: nat)
    requires ValidConfig(c) && WritesDown(c, requests, b)
    ensures requests != []
    ensures var n := |requests| - 1;
            WritesDown(c, requests[..n], b) || (requests[n].isWrite && BlockOf(c, requests[n].address) == b)
  {
    var i :| 0 <= i < |requests| && requests[i].isWrite && BlockOf(c, requests[i].address) == b;
    if i < |requests| - 1 {
      assert requests[..|requests| - 1][i] == requests[i];
    }
  }

  // What the lower level sends further down in step m of a run.
  function SentAt(c1: Config, c2: Config, requests: seq<Request>, m: nat): seq<Request>
    requires ValidConfig(c1) && ValidConfig(c2) && m < |requests|
  {
    var before := ServeBoth(c1, c2, requests[..m]);
    SentDown(c2, before.lower, Access(c1, before.upper, requests[m].address, requests[m].isWrite).issued)
  }

  // In step i or later the lower level wrote block `b` further down.
  ghost predicate SentSince(c1: Config, c2: Config, requests: seq<Request>, i: nat, b: nat)
    requires ValidConfig(c1) && ValidConfig(c2)
  {
    exists m :: i <= m < |requests| && WritesDown(c2, SentAt(c1, c2, requests, m), b)
  }

  lemma {:induction false} SentSinceGrows(c1: Config, c2: Config, requests: seq<Request>, i: nat, b: nat)
    requires ValidConfig(c1) && ValidConfig(c2) && requests != [] && i < |requests|
    ensures SentSince(c1, c2, requests[..|requests| - 1], i, b) ==> SentSince(c1, c2, requests, i, b)
    ensures WritesDown(c2, SentAt(c1, c2, requests, |requests| - 1), b) ==> SentSince(c1, c2, requests, i, b)
  {
    hide WritesDown, ServeBoth, SentDown, Access, ValidConfig;
    var shorter := requests[..|requests| - 1];
    if SentSince(c1, c2, shorter, i, b) {
      var m :| i <= m < |shorter| && WritesDown(c2, SentAt(c1, c2, shorter, m), b);
      assert shorter[..m] == requests[..m];
      assert SentAt(c1, c2, requests, m) == SentAt(c1, c2, shorter, m);
    }
  }

  // Addresses in one block of the upper level are in one block of the lower level.
  ghost predicate Coarser(c1: Config, c2: Config)
    requires ValidConfig(c1) && ValidConfig(c2)
  {
    forall x: U32, y: U32 :: BlockOf(c1, x) == BlockOf(c1, y) ==> BlockOf(c2, x) == BlockOf(c2, y)
  }

  // That is so when the lower block size is a multiple of the upper one, or the lower blocks are
  // as large as the address space, and not otherwise.
  lemma {:induction false} CoarserIff(c1: Config, c2: Config)
    requires ValidConfig(c1) && ValidConfig(c2)
    ensures Coarser(c1, c2) <==> c2.blockSize % c1.blockSize == 0 || c2.blockSize >= U32_LIMIT
  {
    if c2.blockSize >= U32_LIMIT {
      AddressSpaceInOneBlock(c2);
    } else if c2.blockSize % c1.blockSize == 0 {
      MultipleIsCoarser(c1, c2, c2.blockSize / c1.blockSize);
    } else {
      BoundaryInside(c1, c2);
    }
  }

  lemma {:induction false} AddressSpaceInOneBlock(c: Config)
    requires ValidConfig(c) && c.blockSize >= U32_LIMIT
    ensures forall x: U32 :: BlockOf(c, x) == 0
  {
    forall x: U32
      ensures BlockOf(c, x) == 0
    {
      QuotientIs(x, c.blockSize, 0, x);
    }
  }

  lemma {:induction false} MultipleIsCoarser(c1: Config, c2: Config, ratio: nat)
    requires ValidConfig(c1) && ValidConfig(c2) && c2.blockSize == c1.blockSize * ratio
    ensures Coarser(c1, c2)
  {
    assert ratio > 0;
    forall x: U32, y: U32 | BlockOf(c1, x) == BlockOf(c1, y)
      ensures BlockOf(c2, x) == BlockOf(c2, y)
    {
      DivideTwice(x, c1.blockSize, ratio);
      DivideTwice(y, c1.blockSize, ratio);
    }
  }

  // The second block of the lower level starts inside a block of the upper one.
  lemma {:induction false} BoundaryInside(c1: Config, c2: Config)
    requires ValidConfig(c1) && ValidConfig(c2)
    requires c2.blockSize % c1.blockSize != 0 && c2.blockSize < U32_LIMIT
    ensures var base := c1.blockSize * (c2.blockSize / c1.blockSize);
      && base < c2.blockSize && BlockOf(c1, base) == BlockOf(c1, c2.blockSize)
      && BlockOf(c2, base) == 0 && BlockOf(c2, c2.blockSize) == 1
  {
    var q := c2.blockSize / c1.blockSize;
    QuotientIs(c1.blockSize * q, c1.blockSize, q, 0);
    QuotientIs(c1.blockSize * q, c2.blockSize, 0, c1.blockSize * q);
    QuotientIs(c2.blockSize, c2.blockSize, 1, 0);
  }

  lemma {:induction false} DivideTwice(x: nat, n: nat, k: nat)
    requires n > 0 && k > 0
    ensures n * k > 0 && x / (n * k) == x / n / k
  {
    var y := x / n;
    Regroup(x, n, k, y, y / k, y % k, x % n);
    RestFits(n, k, y % k, x % n);
    QuotientIs(x, n * k, y / k, n * (y % k) + x % n);
  }

  lemma {:induction false} Regroup(x: nat, n: nat, k: nat, y: nat, q: nat, r': nat, r: nat)
    requires x == n * y + r && y == k * q + r'
    ensures x == (n * k) * q + (n * r' + r)
  {
    assert n * (k * q + r') == (n * k) * q + n * r';
  }

  lemma {:induction false} QuotientIs(x: nat, m: nat, q: nat, r: nat)
    requires r < m && x == m * q + r
    ensures x / m == q
  {
    DivModUnique(m, q, r);
  }

  lemma {:induction false} RestFits(n: nat, k: nat, r': nat, r: nat)
    requires r' < k && r < n
    ensures n * r' + r < n * k
  {
    MulBound(n, k - r');
    assert n * k == n * r' + n * (k - r');
  }

  // A write to a block of the upper level is a write to the larger block of the lower level.
  lemma {:induction false} CoarserBlocks(c1: Config, c2: Config, issued: seq<Request>, address: U32)
    requires ValidConfig(c1) && ValidConfig(c2) && Coarser(c1, c2)
    requires WritesDown(c1, issued, BlockOf(c1, address))
    ensures WritesDown(c2, issued, BlockOf(c2, address))
  {
    var i :| 0 <= i < |issued| && issued[i].isWrite && BlockOf(c1, issued[i].address) == BlockOf(c1, address);
    assert BlockOf(c2, issued[i].address) == BlockOf(c2, address);
  }

  // The write of `a` at step i is, after the whole run, held in need of write-back at one of the
  // levels, or the lower one has written its block further down since.
  ghost predicate KeepsWrite(c1: Config, c2: Config, requests: seq<Request>, i: nat, a: U32)
    requires ValidConfig(c1) && ValidConfig(c2)
  {
    || HeldDirty(c1, ServeBoth(c1, c2, requests).upper, BlockOf(c1, a))
    || HeldDirty(c2, ServeBoth(c1, c2, requests).lower, BlockOf(c2, a))
    || SentSince(c1, c2, requests, i, BlockOf(c2, a))
  }

  // No write is lost when addresses that share an upper block share a lower one.
  lemma {:induction false} NoWriteLostBetweenLevels(c1: Config, c2: Config, requests: seq<Request>, i: nat, a: U32)
    requires ValidConfig(c1) && ValidConfig(c2) && Coarser(c1, c2)
    requires i < |requests| && requests[i] == Request(a, true)
    ensures KeepsWrite(c1, c2, requests, i, a)
    decreases |requests|
  {
    hide *;
    if i < |requests| - 1 {
      NoWriteLostBetweenLevels(c1, c2, requests[..|requests| - 1], i, a);
    }
    KeptOneMore(c1, c2, requests, i, a);
  }

  lemma {:induction false} KeptOneMore(c1: Config, c2: Config, requests: seq<Request>, i: nat, a: U32)
    requires ValidConfig(c1) && ValidConfig(c2) && Coarser(c1, c2) && i < |requests|
    requires if i == |requests| - 1 then requests[i] == Request(a, true)
             else KeepsWrite(c1, c2, requests[..|requests| - 1], i, a)
    ensures KeepsWrite(c1, c2, requests, i, a)
  {
    var n := |requests| - 1;
    var b1, b2 := BlockOf(c1, a), BlockOf(c2, a);
    hide Access, HeldDirty, WritesDown, BlockOf, Invariant, Shape, Serve, SentDown, SentSince, SentAt, ServeBoth, Coarser;
    SentSinceGrows(c1, c2, requests, i, b2);
    if i == n || HeldDirty(c1, ServeBoth(c1, c2, requests[..n]).upper, b1) {
      UpperStep(c1, c2, requests, a);
    } else if HeldDirty(c2, ServeBoth(c1, c2, requests[..n]).lower, b2) {
      LowerStep(c1, c2, requests, b2);
    }
  }

  // The last step of a run, for a block held below before it.
  lemma {:induction false} LowerStep(c1: Config, c2: Config, requests: seq<Request>, b: nat)
    requires ValidConfig(c1) && ValidConfig(c2) && requests != []
    requires HeldDirty(c2, ServeBoth(c1, c2, requests[..|requests| - 1]).lower, b)
    ensures HeldDirty(c2, ServeBoth(c1, c2, requests).lower, b)
         || WritesDown(c2, SentAt(c1, c2, requests, |requests| - 1), b)
  {
    var n := |requests| - 1;
    var before := ServeBoth(c1, c2, requests[..n]);
    InvariantsBoth(c1, c2, requests[..n]);
    hide Access, HeldDirty, WritesDown, Invariant, Shape, Serve, SentDown;
    ServeKeepsHeld(c2, before.lower, Access(c1, before.upper, requests[n].address, requests[n].isWrite).issued, b);
  }

  // The last step of a run, for a block held above before it or written in it.
  lemma {:induction false} UpperStep(c1: Config, c2: Config, requests: seq<Request>, a: U32)
    requires ValidConfig(c1) && ValidConfig(c2) && Coarser(c1, c2)
    requires requests != []
    requires var n := |requests| - 1;
      HeldDirty(c1, ServeBoth(c1, c2, requests[..n]).upper, BlockOf(c1, a))
      || (requests[n].isWrite && requests[n].address == a)
    ensures var r, n := ServeBoth(c1, c2, requests), |requests| - 1;
      || HeldDirty(c1, r.upper, BlockOf(c1, a))
      || HeldDirty(c2, r.lower, BlockOf(c2, a))
      || WritesDown(c2, SentAt(c1, c2, requests, n), BlockOf(c2, a))
  {
    var n := |requests| - 1;
    var before := ServeBoth(c1, c2, requests[..n]);
    InvariantsBoth(c1, c2, requests[..n]);
    hide Access, HeldDirty, WritesDown, BlockOf, Invariant, Shape, Serve, SentDown, Coarser;
    var o := Access(c1, before.upper, requests[n].address, requests[n].isWrite);
    if HeldDirty(c1, before.upper, BlockOf(c1, a)) {
      HeldStaysHeld(c1, before.upper, requests[n], BlockOf(c1, a));
    } else {
      WriteIsHeld(c1, before.upper, requests[n]);
    }
    if WritesDown(c1, o.issued, BlockOf(c1, a)) {
      CoarserBlocks(c1, c2, o.issued, a);
      ServeHoldsWrite(c2, before.lower, o.issued, BlockOf(c2, a));
    }
  }
}
