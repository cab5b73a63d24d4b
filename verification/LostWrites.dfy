// When two cache levels can lose a write: exactly when a block of the upper one straddles a
// block boundary of the lower one, because an evicted block is written down by its first address only.
module LostWrites {
  import opened MachineIntegers
  import opened ReplacementPolicies
  import opened CacheModel
  import opened WriteConservation
  import opened LruCache
  import opened LruTheorems
  import opened FifoPlruCache
  import opened TwoLevels
  import Mesi
  import Recency

  // ---------- Filling one set ----------

  // Requests for pairwise distinct blocks of set `s`.
  ghost predicate Visits(c: Config, s: nat, requests: seq<Request>)
    requires ValidConfig(c)
  {
    && (forall j :: 0 <= j < |requests| ==> SetOf(c, requests[j].address) == s)
    && (forall i, j :: 0 <= i < j < |requests| ==> TagOf(c, requests[i].address) != TagOf(c, requests[j].address))
  }

  // The requested blocks fill the ways in order; an LRU order lists them latest first.
  ghost predicate Filled(c: Config, set_: CacheSet, requests: seq<Request>)
    requires ValidConfig(c)
  {
    var n := |requests|;
    && SetShape(c, set_) && n <= c.ways
    && (forall j :: 0 <= j < n ==> set_.blocks[j] == NewBlock(TagOf(c, requests[j].address), requests[j].isWrite))
    && (forall j :: n <= j < c.ways ==> !set_.blocks[j].valid)
    && (c.policy == LRU ==> LatestFirst(set_.policy.order, n))
    && (c.policy == FIFO ==> RoundRobin(set_, c.ways, n))
  }

  ghost predicate LatestFirst(order: seq<nat>, n: nat) {
    forall i :: 0 <= i < |order| ==> order[i] == if i < n then n - 1 - i else i
  }

  lemma {:induction false} PromoteNext(order: seq<nat>, n: nat)
    requires Recency.Distinct(order) && LatestFirst(order, n) && n < |order|
    ensures LatestFirst(Promote(order, n), n + 1)
  {
    assert order[n] == n;
    Recency.WithoutAt(order, n);
  }

  lemma {:induction false} ColdFilled(c: Config, s: nat)
    requires ValidConfig(c) && s < c.numSets
    ensures Shape(c, Cold(c)) && Filled(c, Cold(c).sets[s], [])
  {
    ColdInvariant(c);
  }

  lemma {:induction false} NotYetThere(c: Config, set_: CacheSet, s: nat, requests: seq<Request>, r: Request)
    requires ValidConfig(c) && Filled(c, set_, requests) && Visits(c, s, requests + [r])
    ensures FindWayFrom(set_.blocks, TagOf(c, r.address), 0) < 0
  {
    var all := requests + [r];
    forall j | 0 <= j < |requests|
      ensures TagOf(c, requests[j].address) != TagOf(c, r.address)
    {
      assert all[j] == requests[j] && all[|requests|] == r;
    }
  }

  lemma {:induction false} FillOneMore(c: Config, set_: CacheSet, requests: seq<Request>, r: Request)
    requires ValidConfig(c) && Filled(c, set_, requests) && |requests| < c.ways < U64_MAX
    ensures FindVictim(set_) == |requests|
    ensures Filled(c, CacheSet(set_.blocks[|requests| := NewBlock(TagOf(c, r.address), r.isWrite)],
                               Installed(set_.policy, |requests|, c.ways)), requests + [r])
  {
    var n := |requests|;
    assert FirstInvalidFrom(set_.blocks, 0) == n by {
      assert !set_.blocks[n].valid;
    }
    if c.policy == LRU {
      PromoteNext(set_.policy.order, n);
    } else if c.policy == FIFO {
      InstallKeepsTurn(set_, c.ways, n, NewBlock(TagOf(c, r.address), r.isWrite));
    }
  }

  // The first requests for distinct blocks of one set all miss and fill its ways in turn.
  lemma {:induction false} FillRun(c: Config, s: nat, requests: seq<Request>)
    requires ValidConfig(c) && s < c.numSets && c.ways < U64_MAX
    requires Visits(c, s, requests) && |requests| <= c.ways
    ensures Shape(c, Cold(c)) && Filled(c, Serve(c, Cold(c), requests).sets[s], requests)
  {
    ColdFilled(c, s);
    if requests != [] {
      var n := |requests| - 1;
      var before, r := requests[..n], requests[n];
      assert requests == before + [r];
      FillRun(c, s, before);
      var k := Serve(c, Cold(c), before);
      NotYetThere(c, k.sets[s], s, before, r);
      FillOneMore(c, k.sets[s], before, r);
      AccessSets(c, k, r.address, r.isWrite);
      hide Access, Filled, Cold;
    }
  }

  // Each of them misses, and so does one more.
  lemma {:induction false} EachMisses(c: Config, s: nat, requests: seq<Request>, m: nat)
    requires ValidConfig(c) && s < c.numSets && c.ways < U64_MAX
    requires Visits(c, s, requests) && m < |requests| && m <= c.ways
    ensures Shape(c, Cold(c)) && !Contains(c, Serve(c, Cold(c), requests[..m]), requests[m].address)
  {
    FillRun(c, s, requests[..m]);
    assert Visits(c, s, requests[..m] + [requests[m]]);
    NotYetThere(c, Serve(c, Cold(c), requests[..m]).sets[s], s, requests[..m], requests[m]);
  }

  // ---------- Evicting a chosen block ----------

  // Which of the blocks that fill a set goes first: the one touched last under tree PLRU, the
  // first one otherwise.
  function Doomed(c: Config): nat {
    if c.policy == PLRU && c.ways > 0 then c.ways - 1 else 0
  }

  lemma {:induction false} DoomedIsNext(c: Config, s: nat, requests: seq<Request>)
    requires ValidConfig(c) && s < c.numSets && c.ways < U64_MAX
    requires Visits(c, s, requests) && |requests| == c.ways
    ensures Shape(c, Cold(c))
    ensures var set_ := Serve(c, Cold(c), requests).sets[s];
            FindVictim(set_) == FindWayFrom(set_.blocks, TagOf(c, requests[Doomed(c)].address), 0)
  {
    ColdInvariant(c);
    ServeKeepsInvariant(c, Cold(c), requests);
    FillRun(c, s, requests);
    if c.policy == PLRU {
      LastIsNext(c, s, requests);
    } else {
      hide Access, Filled, Cold, FindVictim, Serve;
      WayOfVisit(c, Serve(c, Cold(c), requests).sets[s], s, requests, 0);
      FirstIsNext(c, Serve(c, Cold(c), requests).sets[s], requests);
    }
    hide *;
  }

  lemma {:induction false} WayOfVisit(c: Config, set_: CacheSet, s: nat, requests: seq<Request>, j: nat)
    requires SetInvariant(c, set_, s) && ValidConfig(c) && Filled(c, set_, requests) && j < |requests|
    ensures FindWayFrom(set_.blocks, TagOf(c, requests[j].address), 0) == j
  {
    StillFound(c, set_, s, j);
  }

  lemma {:induction false} LastIsNext(c: Config, s: nat, requests: seq<Request>)
    requires ValidConfig(c) && s < c.numSets && c.policy == PLRU
    requires Visits(c, s, requests) && |requests| == c.ways
    requires Shape(c, Cold(c)) && Filled(c, Serve(c, Cold(c), requests).sets[s], requests)
    ensures var set_ := Serve(c, Cold(c), requests).sets[s];
            FindVictim(set_) == FindWayFrom(set_.blocks, TagOf(c, requests[c.ways - 1].address), 0)
  {
    var n := c.ways - 1;
    ColdInvariant(c);
    ServeKeepsInvariant(c, Cold(c), requests[..n]);
    PlruPointsAtAccessed(c, Serve(c, Cold(c), requests[..n]), requests[n]);
    hide Access, Cold, FindVictim;
  }

  lemma {:induction false} FirstIsNext(c: Config, set_: CacheSet, requests: seq<Request>)
    requires ValidConfig(c) && c.policy != PLRU && Filled(c, set_, requests) && |requests| == c.ways < U64_MAX
    ensures FindVictim(set_) == 0
  {
    if c.policy == LRU {
      LruVictimIsLast(set_.policy.order, c.ways);
    } else {
      NextInTurn(set_, c.ways, c.ways);
    }
  }

  // Filling a set from cold and missing in it once more evicts the doomed block.
  lemma {:induction false} DoomedIsEvicted(c: Config, s: nat, requests: seq<Request>)
    requires ValidConfig(c) && s < c.numSets && c.ways < U64_MAX
    requires Visits(c, s, requests) && |requests| == c.ways + 1
    ensures Shape(c, Cold(c)) && !Contains(c, Serve(c, Cold(c), requests), requests[Doomed(c)].address)
  {
    var n := c.ways;
    var before := requests[..n];
    ColdInvariant(c);
    ServeKeepsInvariant(c, Cold(c), before);
    DoomedIsNext(c, s, before);
    EachMisses(c, s, requests, n);
    assert Serve(c, Cold(c), requests) == Access(c, Serve(c, Cold(c), before), requests[n].address, requests[n].isWrite).cache by {
      hide Access, Cold;
    }
    hide Access, Cold, Serve, Invariant, FindVictim, Contains;
    VictimGone(c, Serve(c, Cold(c), before), requests[n], requests[Doomed(c)].address);
  }

  // ---------- Caches dirty in one block only ----------

  ghost predicate OnlyDirty(c: Config, k: Cache, b: nat)
    requires Shape(c, k)
  {
    forall s, w :: 0 <= s < c.numSets && 0 <= w < c.ways ==>
      var block := k.sets[s].blocks[w];
      block.valid && NeedsWriteback(block) ==> BlockNumber(c, block.tag, s) == b
  }

  // All writes are to block `b`.
  ghost predicate WritesOnly(c: Config, requests: seq<Request>, b: nat)
    requires ValidConfig(c)
  {
    forall i :: 0 <= i < |requests| && requests[i].isWrite ==> BlockOf(c, requests[i].address) == b
  }

  // A cache dirty in block `b` only, and asked to write only there, stays so; what it writes
  // down is the first address of `b`, or a write-through of a hit.
  lemma {:induction false} ConfinedStep(c: Config, k: Cache, r: Request, b: nat)
    requires Invariant(c, k) && OnlyDirty(c, k, b) && (r.isWrite ==> BlockOf(c, r.address) == b)
    ensures var o := Access(c, k, r.address, r.isWrite);
      && OnlyDirty(c, o.cache, b)
      && forall i :: 0 <= i < |o.issued| && o.issued[i].isWrite ==>
           o.issued[i].address == c.blockSize * b || (o.issued[i] == r && Contains(c, k, r.address))
  {
    StaysConfined(c, k, r, b);
    forall i | 0 <= i < |Access(c, k, r.address, r.isWrite).issued| && Access(c, k, r.address, r.isWrite).issued[i].isWrite
      ensures var q := Access(c, k, r.address, r.isWrite).issued[i];
              q.address == c.blockSize * b || (q == r && Contains(c, k, r.address))
    {
      IssuedWrites(c, k, r, i);
      if !Contains(c, k, r.address) {
        var s := SetOf(c, r.address);
        VictimAddressInverts(c, k.sets[s].blocks[FindVictim(k.sets[s])].tag, s);
      }
    }
    hide Access, OnlyDirty;
  }

  lemma {:induction false} StaysConfined(c: Config, k: Cache, r: Request, b: nat)
    requires Invariant(c, k) && OnlyDirty(c, k, b) && (r.isWrite ==> BlockOf(c, r.address) == b)
    ensures OnlyDirty(c, Access(c, k, r.address, r.isWrite).cache, b)
  {
    hide Access, FindVictim, Accessed, Installed, Invariant;
    InvariantIsShaped(c, k);
    var s, tag := SetOf(c, r.address), TagOf(c, r.address);
    AccessSets(c, k, r.address, r.isWrite);
    assert BlockNumber(c, tag, s) == BlockOf(c, r.address) by { MappingInverts(c, r.address); }
  }

  // Where a write sent down comes from: the written hit, or the victim.
  lemma {:induction false} IssuedWrites(c: Config, k: Cache, r: Request, i: nat)
    requires Shape(c, k)
    requires i < |Access(c, k, r.address, r.isWrite).issued| && Access(c, k, r.address, r.isWrite).issued[i].isWrite
    ensures var q, s := Access(c, k, r.address, r.isWrite).issued[i], SetOf(c, r.address);
      if Contains(c, k, r.address) then q == r
      else
        var old_ := k.sets[s].blocks[FindVictim(k.sets[s])];
        old_.valid && NeedsWriteback(old_) && q.address == VictimAddress(c, old_.tag, s)
  {
    hide FindWayFrom, FindVictim, Accessed, Installed, NewBlock, HitBlock, VictimAddress, Mesi.Recorded, NeedsWriteback;
  }

  lemma {:induction false} ServeConfined(c: Config, k: Cache, requests: seq<Request>, b: nat)
    requires Invariant(c, k) && OnlyDirty(c, k, b) && WritesOnly(c, requests, b)
    ensures OnlyDirty(c, Serve(c, k, requests), b) && WritesOnly(c, SentDown(c, k, requests), b)
  {
    if requests != [] {
      var n := |requests| - 1;
      var before := Serve(c, k, requests[..n]);
      assert WritesOnly(c, requests[..n], b);
      ServeConfined(c, k, requests[..n], b);
      ServeKeepsInvariant(c, k, requests[..n]);
      ConfinedStep(c, before, requests[n], b);
      WritesFromBlock(c, Access(c, before, requests[n].address, requests[n].isWrite).issued, requests[n], b);
    }
    hide Access, OnlyDirty, Invariant;
  }

  lemma {:induction false} WritesFromBlock(c: Config, issued: seq<Request>, r: Request, b: nat)
    requires ValidConfig(c) && (r.isWrite ==> BlockOf(c, r.address) == b)
    requires forall i :: 0 <= i < |issued| && issued[i].isWrite ==> issued[i].address == c.blockSize * b || issued[i] == r
    ensures WritesOnly(c, issued, b)
  {
    QuotientIs(c.blockSize * b, c.blockSize, b, 0);
  }

  lemma {:induction false} ColdIsConfined(c: Config, b: nat)
    requires ValidConfig(c)
    ensures Shape(c, Cold(c)) && OnlyDirty(c, Cold(c), b)
  {
    ColdInvariant(c);
  }

  // Writes that all miss, in one upper block that starts in lower block 0, reach the lower level
  // only there.
  ghost predicate MissedWrites(c: Config, requests: seq<Request>, b: nat)
    requires ValidConfig(c) && Shape(c, Cold(c))
  {
    forall m :: 0 <= m < |requests| && requests[m].isWrite ==>
      BlockOf(c, requests[m].address) == b && !Contains(c, Serve(c, Cold(c), requests[..m]), requests[m].address)
  }

  lemma {:induction false} MissedWritesBefore(c: Config, requests: seq<Request>, b: nat)
    requires ValidConfig(c) && Shape(c, Cold(c)) && MissedWrites(c, requests, b) && requests != []
    ensures MissedWrites(c, requests[..|requests| - 1], b)
  {
    var before := requests[..|requests| - 1];
    forall m | 0 <= m < |before| && before[m].isWrite
      ensures BlockOf(c, before[m].address) == b && !Contains(c, Serve(c, Cold(c), before[..m]), before[m].address)
    {
      assert before[m] == requests[m] && before[..m] == requests[..m];
    }
  }

  // Block `b` of the upper level starts in the first block of the lower one.
  ghost predicate StartsFirst(c1: Config, c2: Config, b: nat) {
    c1.blockSize * b < c2.blockSize
  }

  // The last step of such a run.
  lemma {:induction false} MissedStep(c1: Config, c2: Config, requests: seq<Request>, b: nat)
    requires ValidConfig(c1) && ValidConfig(c2) && Shape(c1, Cold(c1)) && MissedWrites(c1, requests, b)
    requires StartsFirst(c1, c2, b) && requests != []
    requires var before := ServeBoth(c1, c2, requests[..|requests| - 1]);
             OnlyDirty(c1, before.upper, b) && OnlyDirty(c2, before.lower, 0)
    ensures OnlyDirty(c1, ServeBoth(c1, c2, requests).upper, b) && OnlyDirty(c2, ServeBoth(c1, c2, requests).lower, 0)
    ensures WritesOnly(c2, SentAt(c1, c2, requests, |requests| - 1), 0)
  {
    var n := |requests| - 1;
    var before, r := ServeBoth(c1, c2, requests[..n]), requests[n];
    InvariantsBoth(c1, c2, requests[..n]);
    UpperIsAlone(c1, c2, requests[..n]);
    hide Access, OnlyDirty, Invariant, Serve, Cold, SentDown;
    ConfinedStep(c1, before.upper, r, b);
    hide Contains;
    var issued := Access(c1, before.upper, r.address, r.isWrite).issued;
    FirstBlockOnly(c1, c2, issued, b);
    ServeConfined(c2, before.lower, issued, 0);
  }

  lemma {:induction false} FirstBlockOnly(c1: Config, c2: Config, issued: seq<Request>, b: nat)
    requires ValidConfig(c2) && StartsFirst(c1, c2, b)
    requires forall i :: 0 <= i < |issued| && issued[i].isWrite ==> issued[i].address == c1.blockSize * b
    ensures WritesOnly(c2, issued, 0)
  {
    QuotientIs(c1.blockSize * b, c2.blockSize, 0, c1.blockSize * b);
  }

  // All that the lower level writes further down is in block `b`.
  ghost predicate SendsOnly(c1: Config, c2: Config, requests: seq<Request>, b: nat)
    requires ValidConfig(c1) && ValidConfig(c2)
  {
    forall m :: 0 <= m < |requests| ==> WritesOnly(c2, SentAt(c1, c2, requests, m), b)
  }

  lemma {:induction false} BothConfined(c1: Config, c2: Config, requests: seq<Request>, b: nat)
    requires ValidConfig(c1) && ValidConfig(c2) && Shape(c1, Cold(c1)) && MissedWrites(c1, requests, b)
    requires StartsFirst(c1, c2, b)
    ensures OnlyDirty(c1, ServeBoth(c1, c2, requests).upper, b) && OnlyDirty(c2, ServeBoth(c1, c2, requests).lower, 0)
    ensures SendsOnly(c1, c2, requests, 0)
  {
    if requests == [] {
      ColdIsConfined(c1, b);
      ColdIsConfined(c2, 0);
      assert SendsOnly(c1, c2, requests, 0);
    }
    hide *;
    if requests != [] {
      MissedWritesBefore(c1, requests, b);
      BothConfined(c1, c2, requests[..|requests| - 1], b);
      MissedStep(c1, c2, requests, b);
      SendsOneMore(c1, c2, requests, 0);
    }
  }

  lemma {:induction false} SendsOneMore(c1: Config, c2: Config, requests: seq<Request>, b: nat)
    requires ValidConfig(c1) && ValidConfig(c2) && requests != []
    requires SendsOnly(c1, c2, requests[..|requests| - 1], b)
    requires WritesOnly(c2, SentAt(c1, c2, requests, |requests| - 1), b)
    ensures SendsOnly(c1, c2, requests, b)
  {
    hide SentAt, WritesOnly;
    forall m | 0 <= m < |requests| - 1
      ensures WritesOnly(c2, SentAt(c1, c2, requests, m), b)
    {
      SameStep(c1, c2, requests, m);
    }
  }

  lemma {:induction false} SameStep(c1: Config, c2: Config, requests: seq<Request>, m: nat)
    requires ValidConfig(c1) && ValidConfig(c2) && m < |requests| - 1
    ensures SentAt(c1, c2, requests, m) == SentAt(c1, c2, requests[..|requests| - 1], m)
  {
    var before := requests[..|requests| - 1];
    assert before[..m] == requests[..m] && before[m] == requests[m];
    hide Access, ServeBoth, SentDown;
  }

  // ---------- The losing run ----------

  // The address space holds one more block of each set than the set has ways.
  ghost predicate Overflows(c: Config) {
    (c.ways + 1) * c.numSets * c.blockSize <= U32_LIMIT
  }

  // Tags from 0 on, without `tag`.
  function OtherTag(tag: nat, j: nat): nat {
    if j < tag then j else j + 1
  }

  lemma {:induction false} TagFits(c: Config, s: nat, tag: nat)
    requires ValidConfig(c) && s < c.numSets && tag <= c.ways && Overflows(c)
    ensures c.blockSize * BlockNumber(c, tag, s) < U32_LIMIT
  {
    var rows := c.ways + 1;
    RestFits(c.numSets, tag + 1, tag, s);
    assert BlockNumber(c, tag, s) < c.numSets * (tag + 1) <= c.numSets * rows by { Monotone(c.numSets, tag + 1, rows); }
    Monotone(c.blockSize, BlockNumber(c, tag, s) + 1, c.numSets * rows);
    assert c.blockSize * (c.numSets * rows) == rows * c.numSets * c.blockSize;
  }

  lemma {:induction false} Monotone(n: nat, x: nat, y: nat)
    requires x <= y
    ensures n * x <= n * y
  {
  }

  // The first address of the block with a tag in set `s`.
  function AddressAt(c: Config, s: nat, tag: nat): (a: U32)
    requires ValidConfig(c) && s < c.numSets && tag <= c.ways && Overflows(c)
    ensures TagOf(c, a) == tag && SetOf(c, a) == s
  {
    TagFits(c, s, tag);
    QuotientIs(c.blockSize * BlockNumber(c, tag, s), c.blockSize, BlockNumber(c, tag, s), 0);
    BlockNumberInverts(c, tag, s);
    c.blockSize * BlockNumber(c, tag, s)
  }

  // One write to `a` among reads of other blocks of its set, placed so that the last read evicts it.
  function LosingRun(c: Config, a: U32): (r: seq<Request>)
    requires ValidConfig(c) && Overflows(c)
    ensures |r| == c.ways + 1
    ensures forall j :: 0 <= j < |r| ==> r[j] == if j == Doomed(c) then Request(a, true) else OtherRead(c, a, j)
  {
    seq(c.ways + 1, j requires 0 <= j < c.ways + 1 => if j == Doomed(c) then Request(a, true) else OtherRead(c, a, j))
  }

  function OtherRead(c: Config, a: U32, j: nat): (r: Request)
    requires ValidConfig(c) && Overflows(c) && j <= c.ways && j != Doomed(c)
    ensures !r.isWrite && SetOf(c, r.address) == SetOf(c, a)
    ensures TagOf(c, r.address) == OtherTag(TagOf(c, a), if j < Doomed(c) then j else j - 1)
  {
    Request(AddressAt(c, SetOf(c, a), OtherTag(TagOf(c, a), if j < Doomed(c) then j else j - 1)), false)
  }

  lemma {:induction false} LosingRunVisits(c: Config, a: U32)
    requires ValidConfig(c) && Overflows(c)
    ensures Visits(c, SetOf(c, a), LosingRun(c, a))
  {
    hide LosingRun, OtherRead, Overflows, SetOf, TagOf;
  }

  lemma {:induction false} LosingRunMisses(c: Config, a: U32)
    requires ValidConfig(c) && Overflows(c) && c.ways < U64_MAX
    ensures Shape(c, Cold(c)) && MissedWrites(c, LosingRun(c, a), BlockOf(c, a))
  {
    LosingRunVisits(c, a);
    EachMisses(c, SetOf(c, a), LosingRun(c, a), Doomed(c));
    hide LosingRun, OtherRead, Overflows, SetOf, TagOf, Serve, Cold, Contains, BlockOf;
  }

  lemma {:induction false} FewWays(c: Config)
    requires ValidConfig(c) && Overflows(c)
    ensures c.ways < U64_MAX
  {
    Monotone(c.ways + 1, 1, c.numSets * c.blockSize);
    assert (c.ways + 1) * (c.numSets * c.blockSize) == (c.ways + 1) * c.numSets * c.blockSize;
  }

  lemma {:induction false} NotHeldElsewhere(c: Config, k: Cache, b: nat, other: nat)
    requires Shape(c, k) && OnlyDirty(c, k, b) && other != b
    ensures !HeldDirty(c, k, other)
  {
  }

  lemma {:induction false} NotSentElsewhere(c1: Config, c2: Config, requests: seq<Request>, i: nat, b: nat, other: nat)
    requires ValidConfig(c1) && ValidConfig(c2) && other != b
    requires SendsOnly(c1, c2, requests, b)
    ensures !SentSince(c1, c2, requests, i, other)
  {
    hide SentAt;
  }

  // A write at the second block boundary of the lower level is lost when that boundary lies inside
  // a block of the upper level: its block is evicted above, and below only the boundary's other
  // side has been written.
  lemma {:induction false} MisalignedWriteIsLost(c1: Config, c2: Config)
    requires ValidConfig(c1) && ValidConfig(c2) && Overflows(c1)
    requires c2.blockSize % c1.blockSize != 0 && c2.blockSize < U32_LIMIT
    ensures var a: U32 := c2.blockSize;
      var run := LosingRun(c1, a);
      && Doomed(c1) < |run| && run[Doomed(c1)] == Request(a, true)
      && !KeepsWrite(c1, c2, run, Doomed(c1), a)
  {
    var a: U32 := c2.blockSize;
    var run, b := LosingRun(c1, a), BlockOf(c1, a);
    BoundaryInside(c1, c2);
    hide LosingRun, OtherRead, Overflows, Cold, ServeBoth, Serve, HeldDirty, SentSince, SentAt, Invariant, Access, OnlyDirty, WritesOnly, MissedWrites;
    FewWays(c1);
    LosingRunVisits(c1, a);
    LosingRunMisses(c1, a);
    DoomedIsEvicted(c1, SetOf(c1, a), run);
    UpperIsAlone(c1, c2, run);
    NotContainedNotHeld(c1, ServeBoth(c1, c2, run).upper, a);
    BothConfined(c1, c2, run, b);
    NotHeldElsewhere(c2, ServeBoth(c1, c2, run).lower, 0, 1);
    NotSentElsewhere(c1, c2, run, Doomed(c1), 0, 1);
  }

  lemma {:induction false} NotContainedNotHeld(c: Config, k: Cache, a: U32)
    requires Shape(c, k) && !Contains(c, k, a)
    ensures !HeldDirty(c, k, BlockOf(c, a))
  {
  }

  // ---------- Exactly when ----------

  ghost predicate LosesNoWrite(c1: Config, c2: Config)
    requires ValidConfig(c1) && ValidConfig(c2)
  {
    forall requests: seq<Request>, i: nat, a: U32 :: i < |requests| && requests[i] == Request(a, true) ==>
      KeepsWrite(c1, c2, requests, i, a)
  }

  // Under every policy: no run loses a write if and only if the upper block size divides the lower
  // one, or the lower blocks are as large as the address space.
  lemma {:induction false} NoWriteLostIffAligned(c1: Config, c2: Config)
    requires ValidConfig(c1) && ValidConfig(c2) && Overflows(c1)
    ensures LosesNoWrite(c1, c2) <==> c2.blockSize % c1.blockSize == 0 || c2.blockSize >= U32_LIMIT
  {
    CoarserIff(c1, c2);
    if c2.blockSize % c1.blockSize == 0 || c2.blockSize >= U32_LIMIT {
      forall requests: seq<Request>, i: nat, a: U32 | i < |requests| && requests[i] == Request(a, true)
        ensures KeepsWrite(c1, c2, requests, i, a)
      {
        NoWriteLostBetweenLevels(c1, c2, requests, i, a);
      }
    } else {
      MisalignedWriteIsLost(c1, c2);
    }
    hide KeepsWrite, Coarser;
  }

  // Sizes as the constructor computes them, in signed 32-bit numbers.
  ghost predicate SignedSize(c: Config) {
    c.ways * (c.numSets * c.blockSize) < 0x8000_0000
  }

  // For such caches the condition is divisibility alone.
  lemma {:induction false} SignedSizesAligned(c1: Config, c2: Config)
    requires ValidConfig(c1) && ValidConfig(c2) && SignedSize(c1) && SignedSize(c2)
    ensures LosesNoWrite(c1, c2) <==> c2.blockSize % c1.blockSize == 0
  {
    SizeBounds(c1.ways, c1.numSets, c1.blockSize);
    SizeBounds(c2.ways, c2.numSets, c2.blockSize);
    NoWriteLostIffAligned(c1, c2);
  }

  lemma {:induction false} SizeBounds(ways: nat, numSets: nat, blockSize: nat)
    requires ways > 0 && numSets > 0 && ways * (numSets * blockSize) < 0x8000_0000
    ensures (ways + 1) * numSets * blockSize <= U32_LIMIT && blockSize < 0x8000_0000
  {
    var row := numSets * blockSize;
    Monotone(blockSize, 1, numSets);
    Monotone(row, 1, ways);
    assert (ways + 1) * numSets * blockSize == ways * row + row;
  }
}
