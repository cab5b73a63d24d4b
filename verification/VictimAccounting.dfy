// Where the blocks put into a victim cache have gone: each is still held, was taken out, was
// invalidated, or was counted as evicted.
module VictimAccounting {
  import opened VictimCache

  // The blocks of a list with an address in the range.
  function InRange(l: seq<VictimBlock>, lo: nat, hi: nat): nat {
    if l == [] then 0 else InRange(l[1..], lo, hi) + if lo <= l[0].address <= hi then 1 else 0
  }

  ghost predicate Holds(l: seq<VictimBlock>, address: nat) {
    exists k :: 0 <= k < |l| && l[k].address == address
  }

  // The inserts of blocks not held at that time, the removals of blocks held, and the blocks hit by
  // range invalidations.
  ghost function NewBlocks(ops: seq<Op>, maxSize: nat): nat {
    if ops == [] then 0 else
    var n := |ops| - 1;
    var new_ := ops[n].InsertOp? && !Holds(RunList(ops[..n], maxSize), ops[n].block.address);
    NewBlocks(ops[..n], maxSize) + if new_ then 1 else 0
  }

  ghost function TakenOut(ops: seq<Op>, maxSize: nat): nat {
    if ops == [] then 0 else
    var n := |ops| - 1;
    var taken := ops[n].RemoveOp? && Holds(RunList(ops[..n], maxSize), ops[n].address);
    TakenOut(ops[..n], maxSize) + if taken then 1 else 0
  }

  ghost function InvalidatedBlocks(ops: seq<Op>, maxSize: nat): nat {
    if ops == [] then 0 else
    var n := |ops| - 1;
    InvalidatedBlocks(ops[..n], maxSize)
    + if ops[n].InvalidateOp? then InRange(RunList(ops[..n], maxSize), ops[n].lo, ops[n].hi) else 0
  }

  // The evictions the object counts.
  function EvictionsCounted(ops: seq<Op>, maxSize: nat): nat {
    if ops == [] then 0 else
    var n := |ops| - 1;
    EvictionsCounted(ops[..n], maxSize) + if ops[n].InsertOp? && CountsEviction(Run(ops[..n], maxSize), ops[n].block, maxSize) then 1 else 0
  }

  lemma {:induction false} FoundIffHeld(l: seq<VictimBlock>, address: nat)
    ensures ListFind(l, address) >= 0 <==> Holds(l, address)
  {
  }

  lemma {:induction false} InvalidationTakes(l: seq<VictimBlock>, lo: nat, hi: nat)
    ensures |l| == |ListInvalidate(l, lo, hi)| + InRange(l, lo, hi)
  {
    if l != [] {
      InvalidationTakes(l[1..], lo, hi);
    }
  }

  // An insert counts an eviction exactly when it brings in a new block while the cache is full.
  lemma {:induction false} EvictsIffFull(v: Slots, maxSize: nat, b: VictimBlock)
    requires Consistent(v, maxSize) && maxSize > 0 && b.valid && Acceptable(v, b)
    ensures CountsEviction(v, b, maxSize) <==> !Holds(Contents(v), b.address) && |Contents(v)| == maxSize
  {
    var existing := FindAddress(v.blocks, b.address, 0);
    if existing >= 0 {
      var p :| 0 <= p < |v.fifo| && v.fifo[p] == existing;
      assert Contents(v)[p].address == b.address;
    } else {
      assert forall k :: 0 <= k < |v.fifo| ==> Contents(v)[k].address != b.address;
    }
    hide FindAddress;
  }

  lemma {:induction false} InsertLength(l: seq<VictimBlock>, b: VictimBlock, maxSize: nat)
    requires |l| <= maxSize && maxSize > 0
    ensures var new_ := !Holds(l, b.address);
            |ListInsert(l, b, maxSize)| == |l| + (if new_ then 1 else 0) - (if new_ && |l| == maxSize then 1 else 0)
  {
    FoundIffHeld(l, b.address);
    hide ListFind, Holds;
  }

  lemma {:induction false} RemoveLength(l: seq<VictimBlock>, address: nat)
    ensures |ListRemove(l, address)| == |l| - if Holds(l, address) then 1 else 0
  {
    FoundIffHeld(l, address);
    hide ListFind, Holds;
  }

  // Over every well-used run from an empty cache no block is unaccounted for.
  lemma {:induction false} BlocksAreAccountedFor(ops: seq<Op>, maxSize: nat)
    requires maxSize > 0 && WellUsed(ops, maxSize)
    ensures NewBlocks(ops, maxSize)
         == Run(ops, maxSize).size + TakenOut(ops, maxSize) + InvalidatedBlocks(ops, maxSize) + EvictionsCounted(ops, maxSize)
  {
    if ops != [] {
      var n := |ops| - 1;
      PrefixIsWellUsed(ops, maxSize);
      BlocksAreAccountedFor(ops[..n], maxSize);
      RunRefines(ops[..n], maxSize);
      RunRefines(ops, maxSize);
      var before := RunList(ops[..n], maxSize);
      hide Consistent, Contents, Holds, ListInsert, ListRemove, ListInvalidate, InRange, CountsEviction, WellUsed, Acceptable;
      match ops[n] {
        case InsertOp(b) =>
          EvictsIffFull(Run(ops[..n], maxSize), maxSize, b);
          InsertLength(before, b, maxSize);
        case RemoveOp(a) =>
          RemoveLength(before, a);
        case InvalidateOp(lo, hi) =>
          InvalidationTakes(before, lo, hi);
      }
    }
  }

  lemma {:induction false} PrefixIsWellUsed(ops: seq<Op>, maxSize: nat)
    requires ops != [] && WellUsed(ops, maxSize)
    ensures WellUsed(ops[..|ops| - 1], maxSize)
    ensures ops[|ops| - 1].InsertOp? ==>
      var b := ops[|ops| - 1].block; b.valid && Acceptable(Run(ops[..|ops| - 1], maxSize), b)
  {
    var n := |ops| - 1;
    assert forall k :: 0 <= k < n ==> ops[..n][..k] == ops[..k];
    hide Acceptable, Run;
  }

  // ---------- What a search finds ----------

  ghost predicate DistinctAddresses(l: seq<VictimBlock>) {
    forall i, j :: 0 <= i < j < |l| ==> l[i].address != l[j].address
  }

  // The blocks of a list with the address.
  ghost function Named(l: seq<VictimBlock>, address: nat): set<VictimBlock> {
    set k | 0 <= k < |l| && l[k].address == address :: l[k]
  }

  // The block last inserted with the address, unless it was then removed, invalidated, or the oldest
  // one when a new block came into a full cache.
  ghost function Latest(ops: seq<Op>, maxSize: nat, address: nat): set<VictimBlock> {
    if ops == [] then {} else
    var n := |ops| - 1;
    var before, held := Latest(ops[..n], maxSize, address), RunList(ops[..n], maxSize);
    match ops[n]
    case InsertOp(b) =>
      if b.address == address then {b}
      else if !Holds(held, b.address) && |held| == maxSize && held != [] && held[0].address == address then {}
      else before
    case RemoveOp(a) => if a == address then {} else before
    case InvalidateOp(lo, hi) => if lo <= address <= hi then {} else before
  }

  lemma {:induction false} NamedAfterInsert(l: seq<VictimBlock>, b: VictimBlock, maxSize: nat, address: nat)
    requires DistinctAddresses(l) && |l| <= maxSize && maxSize > 0
    ensures Named(ListInsert(l, b, maxSize), address)
         == if b.address == address then {b}
            else if !Holds(l, b.address) && |l| == maxSize && l[0].address == address then {}
            else Named(l, address)
  {
    FoundIffHeld(l, b.address);
    var k, l' := ListFind(l, b.address), ListInsert(l, b, maxSize);
    hide ListFind;
    if k >= 0 {
      assert l'[k] == b && forall j :: 0 <= j < |l| && j != k ==> l'[j] == l[j];
    } else {
      var rest := if |l| >= maxSize then l[1..] else l;
      assert l' == rest + [b] && l'[|rest|] == b && forall j :: 0 <= j < |rest| ==> l'[j] == rest[j];
      var shift := |l| - |rest|;
      assert forall j :: 0 <= j < |rest| ==> rest[j] == l[j + shift];
      assert forall j :: shift <= j < |l| ==> l[j] == l'[j - shift];
    }
  }

  lemma {:induction false} NamedConcat(l: seq<VictimBlock>, m: seq<VictimBlock>, address: nat)
    ensures Named(l + m, address) == Named(l, address) + Named(m, address)
  {
    var all := l + m;
    assert forall k :: 0 <= k < |l| ==> all[k] == l[k];
    assert forall k :: 0 <= k < |m| ==> all[|l| + k] == m[k];
  }

  lemma {:induction false} NamedAfterRemove(l: seq<VictimBlock>, removed: nat, address: nat)
    requires DistinctAddresses(l)
    ensures Named(ListRemove(l, removed), address) == if removed == address then {} else Named(l, address)
  {
    var k := ListFind(l, removed);
    if k < 0 {
      NoneNamed(l, removed);
    } else {
      var front, back := l[..k], l[k + 1..];
      assert l == front + ([l[k]] + back);
      NamedConcat(front, [l[k]] + back, address);
      NamedCons(l[k], back, address);
      NamedConcat(front, back, address);
      NoneNamed(front, removed);
      NoneNamed(back, removed);
    }
    hide ListFind, Named;
  }

  lemma {:induction false} NoneNamed(l: seq<VictimBlock>, address: nat)
    requires forall k :: 0 <= k < |l| ==> l[k].address != address
    ensures Named(l, address) == {}
  {
  }

  lemma {:induction false} NamedAfterInvalidate(l: seq<VictimBlock>, lo: nat, hi: nat, address: nat)
    ensures Named(ListInvalidate(l, lo, hi), address) == if lo <= address <= hi then {} else Named(l, address)
  {
    if l != [] {
      NamedAfterInvalidate(l[1..], lo, hi, address);
      NamedCons(l[0], l[1..], address);
      NamedCons(l[0], ListInvalidate(l[1..], lo, hi), address);
      assert l == [l[0]] + l[1..];
    }
    hide Named;
  }

  lemma {:induction false} NamedCons(b: VictimBlock, l: seq<VictimBlock>, address: nat)
    ensures Named([b] + l, address) == (if b.address == address then {b} else {}) + Named(l, address)
  {
    var all := [b] + l;
    assert all[0] == b && forall k :: 0 <= k < |l| ==> all[k + 1] == l[k];
  }

  lemma {:induction false} FoundIsNamed(v: Slots, maxSize: nat, address: nat)
    requires Consistent(v, maxSize)
    ensures var slot := FindValid(v.blocks, address, 0);
            Named(Contents(v), address) == (if slot >= 0 then {v.blocks[slot]} else {}) && DistinctAddresses(Contents(v))
  {
    ContentsAddresses(v, maxSize);
    var slot, l := FindValid(v.blocks, address, 0), Contents(v);
    if slot >= 0 {
      var p :| 0 <= p < |v.fifo| && v.fifo[p] == slot;
      assert l[p] == v.blocks[slot];
    } else {
      assert forall k :: 0 <= k < |v.fifo| ==> l[k].address != address;
    }
    hide FindValid;
  }

  // After every well-used run a search for an address finds exactly that block.
  lemma {:induction false} SearchFindsLatest(ops: seq<Op>, maxSize: nat, address: nat)
    requires maxSize > 0 && WellUsed(ops, maxSize)
    ensures var blocks := Run(ops, maxSize).blocks; var slot := FindValid(blocks, address, 0);
            Latest(ops, maxSize, address) == if slot >= 0 then {blocks[slot]} else {}
  {
    NamedIsLatest(ops, maxSize, address);
    RunRefines(ops, maxSize);
    FoundIsNamed(Run(ops, maxSize), maxSize, address);
    hide *;
  }

  lemma {:induction false} NamedIsLatest(ops: seq<Op>, maxSize: nat, address: nat)
    requires maxSize > 0 && WellUsed(ops, maxSize)
    ensures Named(RunList(ops, maxSize), address) == Latest(ops, maxSize, address)
  {
    if ops != [] {
      var n := |ops| - 1;
      PrefixIsWellUsed(ops, maxSize);
      NamedIsLatest(ops[..n], maxSize, address);
      RunRefines(ops[..n], maxSize);
      FoundIsNamed(Run(ops[..n], maxSize), maxSize, address);
      hide Consistent, Contents, Holds, ListInsert, ListRemove, ListInvalidate, Named, WellUsed, Acceptable, DistinctAddresses;
      var before := RunList(ops[..n], maxSize);
      match ops[n] {
        case InsertOp(b) => NamedAfterInsert(before, b, maxSize, address);
        case RemoveOp(a) => NamedAfterRemove(before, a, address);
        case InvalidateOp(lo, hi) => NamedAfterInvalidate(before, lo, hi, address);
      }
    }
  }

  // ---------- The order of eviction ----------

  // The step that brought the address in: its last insert while not held; -1 without one.
  ghost function BroughtIn(ops: seq<Op>, maxSize: nat, address: nat): (step: int)
    ensures step < |ops|
  {
    if ops == [] then -1 else
    var n := |ops| - 1;
    if ops[n].InsertOp? && ops[n].block.address == address && !Holds(RunList(ops[..n], maxSize), address) then n
    else BroughtIn(ops[..n], maxSize, address)
  }

  ghost predicate ByArrival(l: seq<VictimBlock>, ops: seq<Op>, maxSize: nat) {
    forall i, j :: 0 <= i < j < |l| ==> BroughtIn(ops, maxSize, l[i].address) < BroughtIn(ops, maxSize, l[j].address)
  }

  // After every well-used run the held blocks, in the order in which they would be evicted, are in
  // the order in which their addresses were brought in; updating a block does not renew it.
  lemma {:induction false} HeldByArrival(ops: seq<Op>, maxSize: nat)
    requires maxSize > 0 && WellUsed(ops, maxSize)
    ensures ByArrival(RunList(ops, maxSize), ops, maxSize)
  {
    if ops != [] {
      var n := |ops| - 1;
      PrefixIsWellUsed(ops, maxSize);
      HeldByArrival(ops[..n], maxSize);
      var before := RunList(ops[..n], maxSize);
      hide Holds, ListInsert, ListRemove, ListInvalidate, WellUsed, Acceptable, ByArrival, BroughtIn;
      match ops[n] {
        case InsertOp(b) => InsertKeepsArrival(before, ops, maxSize);
        case RemoveOp(a) =>
          NothingArrives(before, ops, maxSize);
          RemoveKeepsArrival(before, ops, maxSize, a);
        case InvalidateOp(lo, hi) =>
          NothingArrives(before, ops, maxSize);
          InvalidateKeepsArrival(before, ops, maxSize, lo, hi);
      }
    }
  }

  lemma {:induction false} NothingArrives(l: seq<VictimBlock>, ops: seq<Op>, maxSize: nat)
    requires ops != [] && !ops[|ops| - 1].InsertOp? && ByArrival(l, ops[..|ops| - 1], maxSize)
    ensures ByArrival(l, ops, maxSize)
  {
    assert forall a :: BroughtIn(ops, maxSize, a) == BroughtIn(ops[..|ops| - 1], maxSize, a);
    hide BroughtIn;
  }

  lemma {:induction false} InsertKeepsArrival(l: seq<VictimBlock>, ops: seq<Op>, maxSize: nat)
    requires ops != [] && ops[|ops| - 1].InsertOp? && l == RunList(ops[..|ops| - 1], maxSize)
    requires ByArrival(l, ops[..|ops| - 1], maxSize)
    ensures ByArrival(ListInsert(l, ops[|ops| - 1].block, maxSize), ops, maxSize)
  {
    var n, b := |ops| - 1, ops[|ops| - 1].block;
    FoundIffHeld(l, b.address);
    var k, l' := ListFind(l, b.address), ListInsert(l, b, maxSize);
    assert forall a :: a != b.address || k >= 0 ==> BroughtIn(ops, maxSize, a) == BroughtIn(ops[..n], maxSize, a);
    assert k < 0 ==> BroughtIn(ops, maxSize, b.address) == n;
    assert k < 0 ==> forall i :: 0 <= i < |l| ==> l[i].address != b.address;
    hide ListFind, BroughtIn, Holds, RunList;
    if k >= 0 {
      assert forall j :: 0 <= j < |l| ==> l'[j].address == l[j].address;
    } else {
      var rest := if |l| >= maxSize && l != [] then l[1..] else l;
      assert l' == rest + [b];
      var shift := |l| - |rest|;
      assert forall j :: 0 <= j < |rest| ==> l'[j] == l[j + shift];
    }
  }

  lemma {:induction false} RemoveKeepsArrival(l: seq<VictimBlock>, ops: seq<Op>, maxSize: nat, removed: nat)
    requires ByArrival(l, ops, maxSize)
    ensures ByArrival(ListRemove(l, removed), ops, maxSize)
  {
    var k, l' := ListFind(l, removed), ListRemove(l, removed);
    hide ListFind, BroughtIn;
    if k >= 0 {
      assert forall j :: 0 <= j < |l'| ==> l'[j] == l[if j < k then j else j + 1];
    }
  }

  lemma {:induction false} InvalidateKeepsArrival(l: seq<VictimBlock>, ops: seq<Op>, maxSize: nat, lo: nat, hi: nat)
    requires ByArrival(l, ops, maxSize)
    ensures ByArrival(ListInvalidate(l, lo, hi), ops, maxSize)
    ensures forall b :: b in ListInvalidate(l, lo, hi) ==> b in l
  {
    hide BroughtIn;
    if l != [] {
      InvalidateKeepsArrival(l[1..], ops, maxSize, lo, hi);
      var rest := ListInvalidate(l[1..], lo, hi);
      assert forall j :: 0 <= j < |rest| ==> rest[j] in l[1..];
    }
  }

  // With inserts of new addresses alone, the cache holds the last of them in order.
  lemma {:induction false} HoldsTheLast(blocks: seq<VictimBlock>, maxSize: nat)
    requires maxSize > 0 && forall i, j :: 0 <= i < j < |blocks| ==> blocks[i].address != blocks[j].address
    ensures RunList(Inserts(blocks), maxSize) == Last(blocks, maxSize)
  {
    if blocks != [] {
      var n := |blocks| - 1;
      HoldsTheLast(blocks[..n], maxSize);
      InsertsLast(blocks, maxSize);
      LastGrows(blocks, maxSize);
    }
    hide ListInsert, Last;
  }

  function Last(blocks: seq<VictimBlock>, maxSize: nat): seq<VictimBlock> {
    if |blocks| > maxSize then blocks[|blocks| - maxSize..] else blocks
  }

  lemma {:induction false} LastGrows(blocks: seq<VictimBlock>, maxSize: nat)
    requires maxSize > 0 && blocks != [] && forall i, j :: 0 <= i < j < |blocks| ==> blocks[i].address != blocks[j].address
    ensures var n := |blocks| - 1; ListInsert(Last(blocks[..n], maxSize), blocks[n], maxSize) == Last(blocks, maxSize)
  {
    var n := |blocks| - 1;
    var l := Last(blocks[..n], maxSize);
    assert forall k :: 0 <= k < |l| ==> l[k].address != blocks[n].address;
    assert ListFind(l, blocks[n].address) < 0;
    hide ListFind;
  }

  function Inserts(blocks: seq<VictimBlock>): (ops: seq<Op>)
    ensures |ops| == |blocks| && forall k :: 0 <= k < |ops| ==> ops[k] == InsertOp(blocks[k])
  {
    seq(|blocks|, k requires 0 <= k < |blocks| => InsertOp(blocks[k]))
  }

  lemma {:induction false} InsertsLast(blocks: seq<VictimBlock>, maxSize: nat)
    requires blocks != []
    ensures var n := |blocks| - 1;
            RunList(Inserts(blocks), maxSize) == ListInsert(RunList(Inserts(blocks[..n]), maxSize), blocks[n], maxSize)
  {
    assert Inserts(blocks)[..|blocks| - 1] == Inserts(blocks[..|blocks| - 1]);
    hide ListInsert;
  }
}
