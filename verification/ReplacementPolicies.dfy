// LRU, FIFO and tree-PLRU victim selection for one set: what each policy computes on its
// state, and the policy objects that keep that state.
module ReplacementPolicies {
  import opened MachineIntegers
  import opened Recency

  datatype PolicyKind = LRU | FIFO | PLRU

  datatype PolicyState =
    | Lru(order: seq<nat>)                   // ways, most recent first
    | Fifo(stamps: seq<nat>, counter: nat)   // install time per way, 64-bit
    | Plru(bits: seq<bool>)                  // internal nodes of the tree in heap order

  // ---------- LRU ----------

  ghost predicate IsOrder(order: seq<nat>, ways: nat) {
    && |order| == ways
    && Distinct(order)
    && (forall i :: 0 <= i < ways ==> order[i] < ways)
    && (forall w :: 0 <= w < ways ==> w in order)
  }

  function InitialOrder(ways: nat): (r: seq<nat>)
    ensures |r| == ways && forall i :: 0 <= i < ways ==> r[i] == i
  {
    seq(ways, i requires 0 <= i < ways => i)
  }

  lemma {:induction false} InitialIsOrder(ways: nat)
    ensures IsOrder(InitialOrder(ways), ways)
  {
    forall w | 0 <= w < ways
      ensures w in InitialOrder(ways)
    {
      assert InitialOrder(ways)[w] == w;
    }
  }

  function Promote(order: seq<nat>, way: nat): seq<nat> {
    if way in order then [way] + Without(order, way) else order
  }

  lemma {:induction false} PromoteKeepsOrder(order: seq<nat>, way: nat, ways: nat)
    requires IsOrder(order, ways)
    ensures IsOrder(Promote(order, way), ways)
  {
    if way in order {
      hide Without;
      WithoutKeepsDistinct(order, way);
      var rest := Without(order, way);
      var r := [way] + rest;
      forall i | 0 <= i < |rest|
        ensures rest[i] != way && rest[i] < ways
      {
        assert rest[i] in rest;
      }
      forall w | 0 <= w < ways
        ensures w in r
      {
        assert w in order;
        if w == way {
          assert r[0] == w;
        } else {
          assert w in rest;
        }
      }
    }
  }

  // Index of the first set flag, 0 when there is none.
  function FirstValidFrom(valid: seq<bool>, i: nat): (r: nat)
    requires i <= |valid|
    ensures valid != [] ==> r < |valid|
    decreases |valid| - i
  {
    if i == |valid| then 0 else if valid[i] then i else FirstValidFrom(valid, i + 1)
  }

  function LruVictim(order: seq<nat>, valid: seq<bool>): (r: nat)
    ensures valid != [] ==> r < |valid|
  {
    if order == [] then FirstValidFrom(valid, 0) else
    var last := order[|order| - 1];
    if last < |valid| && valid[last] then last else LruVictim(order[..|order| - 1], valid)
  }

  ghost predicate IsFirstValid(valid: seq<bool>, r: nat) {
    || (r < |valid| && valid[r] && forall j :: 0 <= j < r ==> !valid[j])
    || (r == 0 && forall j :: 0 <= j < |valid| ==> !valid[j])
  }

  lemma {:induction false} FirstValidIsFirst(valid: seq<bool>, i: nat)
    requires i <= |valid| && forall j :: 0 <= j < i ==> !valid[j]
    ensures IsFirstValid(valid, FirstValidFrom(valid, i))
    decreases |valid| - i
  {
    if i < |valid| && !valid[i] {
      FirstValidIsFirst(valid, i + 1);
    }
  }

  predicate IsValidAt(order: seq<nat>, valid: seq<bool>, p: nat) {
    p < |order| && order[p] < |valid| && valid[order[p]]
  }

  // The valid way latest in the order; without one, the first valid way, or 0.
  ghost predicate IsLeastRecent(order: seq<nat>, valid: seq<bool>, r: nat) {
    if exists p: nat :: IsValidAt(order, valid, p)
    then exists p: nat :: IsValidAt(order, valid, p) && r == order[p] && forall q: nat :: IsValidAt(order, valid, q) ==> q <= p
    else IsFirstValid(valid, r)
  }

  lemma {:induction false} LruVictimIsLeastRecent(order: seq<nat>, valid: seq<bool>)
    ensures IsLeastRecent(order, valid, LruVictim(order, valid))
  {
    if order == [] {
      FirstValidIsFirst(valid, 0);
    } else {
      var n := |order| - 1;
      LruVictimIsLeastRecent(order[..n], valid);
      assert forall p: nat :: p < n ==> IsValidAt(order, valid, p) == IsValidAt(order[..n], valid, p);
      assert !IsValidAt(order, valid, n) ==> LruVictim(order, valid) == LruVictim(order[..n], valid);
      if IsValidAt(order, valid, n) {
        assert forall q: nat :: IsValidAt(order, valid, q) ==> q <= n;
      } else if p: nat :| IsValidAt(order, valid, p) {
        assert IsValidAt(order[..n], valid, p);
        var p': nat :| IsValidAt(order[..n], valid, p') && LruVictim(order, valid) == order[..n][p'] &&
                  forall q: nat :: IsValidAt(order[..n], valid, q) ==> q <= p';
        forall q: nat | IsValidAt(order, valid, q)
          ensures q <= p'
        {
          assert IsValidAt(order[..n], valid, q);
        }
        assert IsValidAt(order, valid, p');
      }
    }
  }

  // ---------- FIFO ----------

  // Best candidate among the first k ways, with its stamp; (-1, maximum) when there is none.
  function FifoScan(stamps: seq<nat>, valid: seq<bool>, k: nat): (r: (int, nat))
    requires k <= |valid| <= |stamps|
    ensures -1 <= r.0 < k
  {
    if k == 0 then (-1, U64_MAX) else
    var (victim, oldest) := FifoScan(stamps, valid, k - 1);
    if valid[k - 1] && stamps[k - 1] < oldest then (k - 1, stamps[k - 1]) else (victim, oldest)
  }

  function FifoVictim(stamps: seq<nat>, valid: seq<bool>): (r: nat)
    requires |valid| <= |stamps|
    ensures valid != [] ==> r < |valid|
  {
    var victim := FifoScan(stamps, valid, |valid|).0;
    if victim >= 0 then victim else 0
  }

  // The first of the valid ways below k with the smallest stamp.
  ghost predicate IsOldest(stamps: seq<nat>, valid: seq<bool>, k: nat, w: int)
    requires k <= |valid| <= |stamps|
  {
    && 0 <= w < k && valid[w]
    && (forall i :: 0 <= i < k && valid[i] ==> stamps[w] <= stamps[i])
    && (forall i :: 0 <= i < w && valid[i] ==> stamps[w] < stamps[i])
  }

  // The scan finds that way, as long as some valid way has a stamp below the maximum; that stamp
  // itself is never taken for old.
  lemma {:induction false} FifoScanFindsMinimum(stamps: seq<nat>, valid: seq<bool>, k: nat)
    requires k <= |valid| <= |stamps| && forall i :: 0 <= i < k ==> stamps[i] <= U64_MAX
    ensures var (w, oldest) := FifoScan(stamps, valid, k);
      if exists i :: 0 <= i < k && valid[i] && stamps[i] < U64_MAX
      then IsOldest(stamps, valid, k, w) && oldest == stamps[w] < U64_MAX
      else w == -1 && oldest == U64_MAX
  {
    if k > 0 {
      FifoScanFindsMinimum(stamps, valid, k - 1);
    }
  }

  // The way the policy picks: the first oldest one, or way 0 if none has a stamp below the maximum.
  ghost predicate IsFifoChoice(stamps: seq<nat>, valid: seq<bool>, r: nat)
    requires |valid| <= |stamps|
  {
    if exists i :: 0 <= i < |valid| && valid[i] && stamps[i] < U64_MAX
    then IsOldest(stamps, valid, |valid|, r)
    else r == 0
  }

  // ---------- Tree PLRU ----------

  function Levels(ways: nat): nat {
    if ways <= 1 then 0 else 1 + Levels(ways / 2)
  }

  function Pow2(k: nat): (r: nat)
    ensures r > 0
  {
    if k == 0 then 1 else 2 * Pow2(k - 1)
  }

  ghost predicate IsPowerOfTwo(n: nat) {
    exists k: nat :: n == Pow2(k)
  }

  // Follow the bits down from `node`: a set bit goes right.
  function Walk(bits: seq<bool>, node: nat, levels: nat): nat
    decreases levels
  {
    if levels == 0 || node >= |bits| then node else
    Walk(bits, if bits[node] then 2 * node + 2 else 2 * node + 1, levels - 1)
  }

  // Write the bits on the path from `node` up to the root, as an access to that leaf does.
  function PointPath(bits: seq<bool>, node: nat): (r: seq<bool>)
    requires node <= 2 * |bits|
    ensures |r| == |bits|
    ensures forall i :: node <= i < |bits| ==> r[i] == bits[i]
    decreases node
  {
    if node == 0 then bits else
    var parent := (node - 1) / 2;
    PointPath(bits[parent := node % 2 == 0], parent)
  }

  function PlruVictim(bits: seq<bool>, valid: seq<bool>): (r: nat)
    ensures valid != [] ==> r < |valid|
  {
    var leaf := Walk(bits, 0, Levels(|bits| + 1)) - |bits|;
    if 0 <= leaf < |valid| && valid[leaf] then leaf else FirstValidFrom(valid, 0)
  }

  lemma {:induction false} LevelsOfPow2(k: nat)
    ensures Levels(Pow2(k)) == k
  {
    if k > 0 {
      LevelsOfPow2(k - 1);
    }
  }

  // Nodes at depth d are numbered Pow2(d) - 1 to Pow2(d + 1) - 2.
  lemma {:induction false} WalkDepth(bits: seq<bool>, k: nat, d: nat, node: nat)
    requires |bits| == Pow2(k) - 1 && d <= k
    requires Pow2(d) - 1 <= node < 2 * Pow2(d) - 1
    ensures Pow2(k) - 1 <= Walk(bits, node, k - d) < 2 * Pow2(k) - 1
    decreases k - d
  {
    if d < k {
      Pow2Monotone(d + 1, k);
      WalkDepth(bits, k, d + 1, if bits[node] then 2 * node + 2 else 2 * node + 1);
    }
  }

  lemma {:induction false} Pow2Monotone(a: nat, b: nat)
    requires a <= b
    ensures Pow2(a) <= Pow2(b)
  {
    if a < b {
      Pow2Monotone(a, b - 1);
    }
  }

  lemma {:induction false} WalkSnoc(bits: seq<bool>, node: nat, levels: nat)
    requires levels > 0
    ensures Walk(bits, node, levels) == Walk(bits, Walk(bits, node, levels - 1), 1)
    decreases levels
  {
    if levels > 1 && node < |bits| {
      WalkSnoc(bits, if bits[node] then 2 * node + 2 else 2 * node + 1, levels - 1);
    }
  }

  // After the path bits of a node are written, the walk leads to that node.
  lemma {:induction false} PointedWalk(bits: seq<bool>, d: nat, node: nat)
    requires Pow2(d) - 1 <= node < 2 * Pow2(d) - 1 && node <= 2 * |bits|
    ensures Walk(PointPath(bits, node), 0, d) == node
    decreases d
  {
    if d > 0 {
      var parent := (node - 1) / 2;
      var bits' := bits[parent := node % 2 == 0];
      PointedWalk(bits', d - 1, parent);
      WalkSnoc(PointPath(bits, node), 0, d);
      LastTurn(bits, node);
    }
  }

  lemma {:induction false} LastTurn(bits: seq<bool>, node: nat)
    requires 0 < node <= 2 * |bits|
    ensures Walk(PointPath(bits, node), (node - 1) / 2, 1) == node
  {
    var parent := (node - 1) / 2;
    var pointed := PointPath(bits, node);
    assert pointed[parent] == (node % 2 == 0);
    assert Walk(pointed, node, 0) == node;
  }

  // The walk always ends at a leaf, and right after an access it ends at the accessed way,
  // so a full set would replace the way touched last.
  lemma {:induction false} PlruPicksLastTouched(bits: seq<bool>, way: nat, valid: seq<bool>)
    requires |bits| + 1 == |valid| && IsPowerOfTwo(|valid|) && way < |valid|
    requires valid[way]
    ensures PlruVictim(PointPath(bits, way + |bits|), valid) == way
  {
    var k :| |valid| == Pow2(k);
    PlruWalkAfterTouch(bits, way, k);
    VictimIsLeafReached(PointPath(bits, way + |bits|), way, valid);
  }

  lemma {:induction false} VictimIsLeafReached(bits: seq<bool>, way: nat, valid: seq<bool>)
    requires way < |valid| && valid[way]
    requires Walk(bits, 0, Levels(|bits| + 1)) == way + |bits|
    ensures PlruVictim(bits, valid) == way
  {
  }

  lemma {:induction false} PlruWalkAfterTouch(bits: seq<bool>, way: nat, k: nat)
    requires |bits| + 1 == Pow2(k) && way <= |bits|
    ensures Walk(PointPath(bits, way + |bits|), 0, Levels(|bits| + 1)) == way + |bits|
  {
    LevelsOfPow2(k);
    PointedWalk(bits, k, way + |bits|);
  }

  lemma {:induction false} PlruWalkEndsAtLeaf(bits: seq<bool>)
    requires IsPowerOfTwo(|bits| + 1)
    ensures |bits| <= Walk(bits, 0, Levels(|bits| + 1)) <= 2 * |bits|
  {
    var k :| |bits| + 1 == Pow2(k);
    LevelsOfPow2(k);
    WalkDepth(bits, k, 0, 0);
  }

  // Every node on the way from the root to this one has its bit turned toward it.
  ghost predicate PointsTo(bits: seq<bool>, node: nat)
    requires node <= 2 * |bits|
  {
    node == 0 || (bits[(node - 1) / 2] == (node % 2 == 0) && PointsTo(bits, (node - 1) / 2))
  }

  lemma {:induction false} WalkIffPointed(bits: seq<bool>, d: nat, node: nat)
    requires Pow2(d) - 1 <= node < 2 * Pow2(d) - 1 && node <= 2 * |bits|
    ensures PointsTo(bits, node) <==> Walk(bits, 0, d) == node
  {
    if d > 0 {
      WalkIffPointed(bits, d - 1, (node - 1) / 2);
      WalkSnoc(bits, 0, d);
      WalkUpper(bits, d - 1);
      WalkTo(bits, Walk(bits, 0, d - 1), node);
    }
  }

  lemma {:induction false} WalkUpper(bits: seq<bool>, d: nat)
    ensures Walk(bits, 0, d) < 2 * Pow2(d) - 1
  {
    if d > 0 {
      WalkUpper(bits, d - 1);
      WalkSnoc(bits, 0, d);
      var from := Walk(bits, 0, d - 1);
      if from < |bits| {
        var next := if bits[from] then 2 * from + 2 else 2 * from + 1;
        assert Walk(bits, next, 0) == next;
      }
    }
  }

  lemma {:induction false} WalkTo(bits: seq<bool>, from: nat, node: nat)
    requires 0 < node <= 2 * |bits| && (from >= |bits| ==> from != node)
    ensures Walk(bits, from, 1) == node <==> from == (node - 1) / 2 && bits[from] == (node % 2 == 0)
  {
    if from < |bits| {
      var next := if bits[from] then 2 * from + 2 else 2 * from + 1;
      assert Walk(bits, next, 0) == next;
    }
  }

  ghost predicate PointsToWay(bits: seq<bool>, way: nat) {
    way <= |bits| && PointsTo(bits, way + |bits|)
  }

  // The way the policy picks: the one all bits on its path point to, if it is valid; else the first
  // valid way, or 0.
  ghost predicate IsPlruChoice(bits: seq<bool>, valid: seq<bool>, r: nat) {
    if exists w: nat :: w < |valid| && PointsToWay(bits, w) && valid[w]
    then r < |valid| && PointsToWay(bits, r) && valid[r]
    else IsFirstValid(valid, r)
  }

  lemma {:induction false} PlruVictimIsPointedAt(bits: seq<bool>, valid: seq<bool>)
    requires |bits| + 1 == |valid| && IsPowerOfTwo(|valid|)
    ensures IsPlruChoice(bits, valid, PlruVictim(bits, valid))
    ensures forall v: nat, w: nat :: PointsToWay(bits, v) && PointsToWay(bits, w) ==> v == w
  {
    var k :| |valid| == Pow2(k);
    LevelsOfPow2(k);
    PlruWalkEndsAtLeaf(bits);
    FirstValidIsFirst(valid, 0);
    forall w: nat
      ensures PointsToWay(bits, w) <==> Walk(bits, 0, k) == w + |bits|
    {
      if w <= |bits| { WalkIffPointed(bits, k, w + |bits|); }
    }
    hide Walk, PointsTo, Levels, FirstValidFrom;
  }

  // With the bits of a new set that is way 0.
  lemma {:induction false} NewBitsPointToFirst(bits: seq<bool>, k: nat)
    requires |bits| + 1 == Pow2(k) && forall i :: 0 <= i < |bits| ==> !bits[i]
    ensures PointsToWay(bits, 0)
  {
    PointsLeft(bits, k);
  }

  lemma {:induction false} PointsLeft(bits: seq<bool>, d: nat)
    requires Pow2(d) - 1 <= 2 * |bits| && forall i :: 0 <= i < |bits| ==> !bits[i]
    ensures PointsTo(bits, Pow2(d) - 1)
  {
    if d > 0 {
      assert (Pow2(d) - 2) / 2 == Pow2(d - 1) - 1 && (Pow2(d) - 1) % 2 == 1;
      PointsLeft(bits, d - 1);
    }
  }

  // ---------- The three policies as one interface ----------

  ghost predicate Fits(p: PolicyState, ways: nat) {
    match p
    case Lru(order) => IsOrder(order, ways)
    case Fifo(stamps, counter) =>
      |stamps| == ways && counter <= U64_MAX && forall i :: 0 <= i < ways ==> stamps[i] <= U64_MAX
    case Plru(bits) => IsPowerOfTwo(ways) && |bits| + 1 == ways
  }

  function Initial(kind: PolicyKind, ways: nat): (p: PolicyState)
    requires ways > 0
    ensures kind != PLRU || IsPowerOfTwo(ways) ==> Fits(p, ways)
  {
    match kind
    case LRU => InitialIsOrder(ways); Lru(InitialOrder(ways))
    case FIFO => Fifo(seq(ways, _ => 0), 0)
    case PLRU => Plru(seq(ways - 1, _ => false))
  }

  function Accessed(p: PolicyState, way: nat, ways: nat): (r: PolicyState)
    requires Fits(p, ways) && way < ways
    ensures Fits(r, ways)
  {
    match p
    case Lru(order) => PromoteKeepsOrder(order, way, ways); Lru(Promote(order, way))
    case Fifo(_, _) => p
    case Plru(bits) => Plru(PointPath(bits, way + |bits|))
  }

  function Installed(p: PolicyState, way: nat, ways: nat): (r: PolicyState)
    requires Fits(p, ways) && way < ways
    ensures Fits(r, ways)
  {
    if p.Fifo? then Fifo(p.stamps[way := p.counter], if p.counter == U64_MAX then 0 else p.counter + 1)
    else Accessed(p, way, ways)
  }

  function Victim(p: PolicyState, valid: seq<bool>): (r: nat)
    requires Fits(p, |valid|)
    ensures valid != [] ==> r < |valid|
  {
    match p
    case Lru(order) => LruVictim(order, valid)
    case Fifo(stamps, _) => FifoVictim(stamps, valid)
    case Plru(bits) => PlruVictim(bits, valid)
  }

  // ---------- Policy objects ----------

  method FirstValid(valid: seq<bool>) returns (r: nat)
    ensures r == FirstValidFrom(valid, 0)
  {
    for i := 0 to |valid|
      invariant FirstValidFrom(valid, 0) == FirstValidFrom(valid, i)
    {
      if valid[i] {
        return i;
      }
    }
    return 0;
  }

  class LRUPolicy {
    const numBlocks: nat
    var lruOrder: seq<nat>

    ghost predicate Valid()
      reads this
    {
      IsOrder(lruOrder, numBlocks)
    }

    ghost function State(): PolicyState
      reads this
    {
      Lru(lruOrder)
    }

    constructor (numBlocks: nat)
      ensures Valid() && this.numBlocks == numBlocks && State() == Lru(InitialOrder(numBlocks))
    {
      this.numBlocks := numBlocks;
      lruOrder := InitialOrder(numBlocks);
      InitialIsOrder(numBlocks);
    }

    method OnAccess(blockIndex: nat)
      requires Valid()
      modifies this`lruOrder
      ensures Valid() && lruOrder == Promote(old(lruOrder), blockIndex)
    {
      ghost var before := lruOrder;
      PromoteKeepsOrder(before, blockIndex, numBlocks);
      var i := 0;
      while i < |lruOrder| && lruOrder[i] != blockIndex
        invariant 0 <= i <= |lruOrder|
        invariant lruOrder == before && forall j :: 0 <= j < i ==> before[j] != blockIndex
      {
        i := i + 1;
      }
      if i < |lruOrder| {
        WithoutAt(before, i);
        lruOrder := lruOrder[..i] + lruOrder[i + 1..];
        lruOrder := [blockIndex] + lruOrder;
      }
    }

    method OnInstall(blockIndex: nat)
      requires Valid()
      modifies this`lruOrder
      ensures Valid() && lruOrder == Promote(old(lruOrder), blockIndex)
    {
      OnAccess(blockIndex);
    }

    method SelectVictim(validBlocks: seq<bool>) returns (r: nat)
      ensures r == LruVictim(lruOrder, validBlocks) && IsLeastRecent(lruOrder, validBlocks, r)
    {
      LruVictimIsLeastRecent(lruOrder, validBlocks);
      var i := |lruOrder|;
      assert lruOrder[..i] == lruOrder;
      while i > 0
        invariant 0 <= i <= |lruOrder|
        invariant LruVictim(lruOrder, validBlocks) == LruVictim(lruOrder[..i], validBlocks)
      {
        i := i - 1;
        assert lruOrder[..i + 1][..i] == lruOrder[..i];
        if lruOrder[i] < |validBlocks| && validBlocks[lruOrder[i]] {
          return lruOrder[i];
        }
      }
      r := FirstValid(validBlocks);
    }

    method Reset()
      modifies this`lruOrder
      ensures Valid() && lruOrder == InitialOrder(numBlocks)
    {
      lruOrder := InitialOrder(numBlocks);
      InitialIsOrder(numBlocks);
    }
  }

  class FIFOPolicy {
    const numBlocks: nat
    var fifoOrder: seq<nat>
    var installCounter: nat

    ghost predicate Valid()
      reads this
    {
      Fits(State(), numBlocks)
    }

    ghost function State(): PolicyState
      reads this
    {
      Fifo(fifoOrder, installCounter)
    }

    constructor (numBlocks: nat)
      ensures Valid() && this.numBlocks == numBlocks && State() == Fifo(seq(numBlocks, _ => 0), 0)
    {
      this.numBlocks := numBlocks;
      fifoOrder := seq(numBlocks, _ => 0);
      installCounter := 0;
    }

    method OnInstall(blockIndex: nat)
      requires Valid() && blockIndex < numBlocks
      modifies this`fifoOrder, this`installCounter
      ensures Valid() && State() == Installed(old(State()), blockIndex, numBlocks)
    {
      fifoOrder := fifoOrder[blockIndex := installCounter];
      installCounter := if installCounter == U64_MAX then 0 else installCounter + 1;
    }

    method SelectVictim(validBlocks: seq<bool>) returns (r: nat)
      requires Valid() && |validBlocks| <= |fifoOrder|
      ensures r == FifoVictim(fifoOrder, validBlocks) && IsFifoChoice(fifoOrder, validBlocks, r)
    {
      FifoScanFindsMinimum(fifoOrder, validBlocks, |validBlocks|);
      var victim: int := -1;
      var oldestTime := U64_MAX;
      for i := 0 to |validBlocks|
        invariant (victim, oldestTime) == FifoScan(fifoOrder, validBlocks, i)
      {
        if validBlocks[i] && fifoOrder[i] < oldestTime {
          oldestTime := fifoOrder[i];
          victim := i;
        }
      }
      r := if victim >= 0 then victim else 0;
    }
  }

  class PLRUPolicy {
    const numBlocks: nat
    var treeBits: seq<bool>

    ghost predicate Valid()
      reads this
    {
      Fits(State(), numBlocks)
    }

    ghost function State(): PolicyState
      reads this
    {
      Plru(treeBits)
    }

    constructor (numBlocks: nat)
      requires IsPowerOfTwo(numBlocks)
      ensures Valid() && this.numBlocks == numBlocks && State() == Plru(seq(numBlocks - 1, _ => false))
    {
      this.numBlocks := numBlocks;
      treeBits := seq(numBlocks - 1, _ => false);
    }

    method OnAccess(blockIndex: nat)
      requires Valid() && blockIndex < numBlocks
      modifies this`treeBits
      ensures Valid() && treeBits == PointPath(old(treeBits), blockIndex + numBlocks - 1)
    {
      var node := blockIndex + (numBlocks - 1);
      while node > 0
        invariant 0 <= node <= 2 * |treeBits| && |treeBits| == numBlocks - 1
        invariant PointPath(treeBits, node) == PointPath(old(treeBits), blockIndex + numBlocks - 1)
        decreases node
      {
        var parent := (node - 1) / 2;
        treeBits := treeBits[parent := node % 2 == 0];
        node := parent;
      }
    }

    method SelectVictim(validBlocks: seq<bool>) returns (r: nat)
      requires Valid()
      ensures r == PlruVictim(treeBits, validBlocks)
    {
      var numLevels := 0;
      var n := numBlocks;
      while n > 1
        invariant numLevels + Levels(n) == Levels(numBlocks)
      {
        n := n / 2;
        numLevels := numLevels + 1;
      }
      var node := 0;
      var i := 0;
      while i < numLevels
        invariant 0 <= i <= numLevels && 0 <= node
        invariant Walk(treeBits, node, numLevels - i) == Walk(treeBits, 0, numLevels)
      {
        if node >= |treeBits| {
          break;
        }
        node := if treeBits[node] then 2 * node + 2 else 2 * node + 1;
        i := i + 1;
      }
      var blockIndex := node - (numBlocks - 1);
      if 0 <= blockIndex < |validBlocks| && validBlocks[blockIndex] {
        return blockIndex;
      }
      r := FirstValid(validBlocks);
    }
  }
}
