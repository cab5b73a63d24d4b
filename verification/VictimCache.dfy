// The victim cache: slots, a queue of slot numbers, and an address map, which together are
// meant to be one bounded first-in-first-out list of blocks.
module VictimCache {
  import opened MachineIntegers
  import opened Recency

  datatype VictimBlock = VictimBlock(address: nat, tag: nat, valid: bool, dirty: bool)

  datatype Slots = Slots(blocks: seq<VictimBlock>, fifo: seq<nat>, index: map<nat, nat>, size: nat)

  // Unsigned decrement.
  function Dec(n: nat): nat {
    if n == 0 then U64_MAX else n - 1
  }

  // ---------- Searches ----------

  // First slot from i on with this address, valid or not; -1 when there is none.
  function FindAddress(blocks: seq<VictimBlock>, address: nat, i: nat): (r: int)
    requires i <= |blocks|
    ensures -1 <= r < |blocks|
    ensures r >= 0 ==> r >= i && blocks[r].address == address
    ensures r == -1 ==> forall j :: i <= j < |blocks| ==> blocks[j].address != address
    decreases |blocks| - i
  {
    if i == |blocks| then -1 else if blocks[i].address == address then i else FindAddress(blocks, address, i + 1)
  }

  function FindValid(blocks: seq<VictimBlock>, address: nat, i: nat): (r: int)
    requires i <= |blocks|
    ensures -1 <= r < |blocks|
    ensures r >= 0 ==> r >= i && blocks[r].address == address && blocks[r].valid
    ensures r == -1 ==> forall j :: i <= j < |blocks| ==> !(blocks[j].address == address && blocks[j].valid)
    decreases |blocks| - i
  {
    if i == |blocks| then -1 else
    if blocks[i].address == address && blocks[i].valid then i else FindValid(blocks, address, i + 1)
  }

  function FirstFree(blocks: seq<VictimBlock>, i: nat): (r: int)
    requires i <= |blocks|
    ensures -1 <= r < |blocks|
    ensures r >= 0 ==> r >= i && !blocks[r].valid
    ensures r == -1 ==> forall j :: i <= j < |blocks| ==> blocks[j].valid
    decreases |blocks| - i
  {
    if i == |blocks| then -1 else if !blocks[i].valid then i else FirstFree(blocks, i + 1)
  }

  // ---------- Operations ----------

  // Delete position p, if there is one.
  function EraseAt(s: seq<nat>, p: int): seq<nat>
    requires -1 <= p < |s|
  {
    if p < 0 then s else s[..p] + s[p + 1..]
  }

  lemma {:induction false} NothingErased(s: seq<nat>)
    ensures EraseAt(s, -1) == s
  {
  }

  lemma {:induction false} EraseInRange(s: seq<nat>, p: int, n: nat)
    requires -1 <= p < |s| && forall k :: 0 <= k < |s| ==> s[k] < n
    ensures forall k :: 0 <= k < |EraseAt(s, p)| ==> EraseAt(s, p)[k] < n
  {
  }

  function FirstSlot(fifo: seq<nat>, slot: nat, k: nat): (r: int)
    requires k <= |fifo|
    ensures -1 <= r < |fifo|
    ensures r >= 0 ==> r >= k && fifo[r] == slot
    ensures r == -1 ==> forall j :: k <= j < |fifo| ==> fifo[j] != slot
    decreases |fifo| - k
  {
    if k == |fifo| then -1 else if fifo[k] == slot then k else FirstSlot(fifo, slot, k + 1)
  }

  // First queued slot naming `address`.
  function FirstNamed(blocks: seq<VictimBlock>, fifo: seq<nat>, address: nat, k: nat): (r: int)
    requires k <= |fifo|
    ensures -1 <= r < |fifo|
    ensures r >= 0 ==> r >= k && fifo[r] < |blocks| && blocks[fifo[r]].address == address
    ensures r == -1 ==> forall j :: k <= j < |fifo| && fifo[j] < |blocks| ==> blocks[fifo[j]].address != address
    decreases |fifo| - k
  {
    if k == |fifo| then -1 else
    if fifo[k] < |blocks| && blocks[fifo[k]].address == address then k else FirstNamed(blocks, fifo, address, k + 1)
  }

  // Search and remove.
  function Remove(v: Slots, address: nat): Slots {
    var slot := FindValid(v.blocks, address, 0);
    if slot < 0 then v else
    Slots(v.blocks[slot := v.blocks[slot].(valid := false)], EraseAt(v.fifo, FirstSlot(v.fifo, slot, 0)),
          v.index - {address}, Dec(v.size))
  }

  // Whether making room drops a block.
  predicate Evicts(v: Slots) {
    v.fifo != [] && v.size > 0 && v.fifo[0] < |v.blocks|
  }

  function EvictOldest(v: Slots): Slots {
    if v.fifo == [] || v.size == 0 then v else
    var oldest := v.fifo[0];
    if oldest >= |v.blocks| then v.(fifo := v.fifo[1..]) else
    Slots(v.blocks[oldest := v.blocks[oldest].(valid := false)], v.fifo[1..],
          v.index - {v.blocks[oldest].address}, Dec(v.size))
  }

  function Place(v: Slots, b: VictimBlock): Slots {
    var free := FirstFree(v.blocks, 0);
    var slot := if free >= 0 then free else |v.blocks|;
    Slots(if free >= 0 then v.blocks[free := b] else v.blocks + [b],
          v.fifo + [slot], v.index[b.address := slot], v.size + 1)
  }

  function Insert(v: Slots, b: VictimBlock, maxSize: nat): Slots {
    var existing := FindAddress(v.blocks, b.address, 0);
    if existing >= 0 then v.(blocks := v.blocks[existing := b])
    else Place(if v.size >= maxSize then EvictOldest(v) else v, b)
  }

  // Whether an insert counts an eviction.
  predicate CountsEviction(v: Slots, b: VictimBlock, maxSize: nat) {
    FindAddress(v.blocks, b.address, 0) < 0 && v.size >= maxSize && Evicts(v)
  }

  function InvalidateSlot(v: Slots, i: nat): (r: Slots)
    requires i < |v.blocks|
    ensures |r.blocks| == |v.blocks|
  {
    var a := v.blocks[i].address;
    Slots(v.blocks[i := v.blocks[i].(valid := false)], EraseAt(v.fifo, FirstNamed(v.blocks, v.fifo, a, 0)),
          v.index - {a}, Dec(v.size))
  }

  // Range invalidation of the slots from i on.
  function InvalidateFrom(v: Slots, i: nat, lo: nat, hi: nat): Slots
    decreases |v.blocks| - i
  {
    if i >= |v.blocks| then v else
    var b := v.blocks[i];
    InvalidateFrom(if lo <= b.address <= hi && b.valid then InvalidateSlot(v, i) else v, i + 1, lo, hi)
  }

  // ---------- What the slots stand for ----------

  // The queue lists each valid slot once, the map sends exactly the valid addresses to their
  // slots, the size counts the valid slots, and no two slots name the same address.
  ghost predicate Consistent(v: Slots, maxSize: nat) {
    && |v.blocks| <= maxSize
    && (forall i, j :: 0 <= i < j < |v.blocks| ==> v.blocks[i].address != v.blocks[j].address)
    && QueueOk(v)
    && IndexOk(v)
    && v.size == |v.fifo| <= maxSize
  }

  ghost predicate QueueOk(v: Slots) {
    && Distinct(v.fifo)
    && (forall k :: 0 <= k < |v.fifo| ==> v.fifo[k] < |v.blocks| && v.blocks[v.fifo[k]].valid)
    && (forall i: nat :: i < |v.blocks| && v.blocks[i].valid ==> i in v.fifo)
  }

  ghost predicate IndexOk(v: Slots) {
    && (forall i: nat :: i < |v.blocks| && v.blocks[i].valid ==> v.blocks[i].address in v.index && v.index[v.blocks[i].address] == i)
    && (forall a :: a in v.index ==> v.index[a] < |v.blocks| && v.blocks[v.index[a]].valid && v.blocks[v.index[a]].address == a)
  }

  // The valid blocks, oldest insertion first.
  ghost function Contents(v: Slots): (r: seq<VictimBlock>)
    requires QueueOk(v)
    ensures |r| == |v.fifo| && forall k :: 0 <= k < |r| ==> r[k] == v.blocks[v.fifo[k]]
  {
    seq(|v.fifo|, k requires 0 <= k < |v.fifo| => v.blocks[v.fifo[k]])
  }

  ghost function ValidSlots(blocks: seq<VictimBlock>): set<nat> {
    set j: nat | j < |blocks| && blocks[j].valid
  }

  // The bounded first-in-first-out list the slots refine.
  function ListFind(l: seq<VictimBlock>, address: nat): (r: int)
    ensures -1 <= r < |l|
    ensures r >= 0 ==> l[r].address == address
    ensures r == -1 ==> forall k :: 0 <= k < |l| ==> l[k].address != address
  {
    FindAddress(l, address, 0)
  }

  function ListInsert(l: seq<VictimBlock>, b: VictimBlock, maxSize: nat): seq<VictimBlock> {
    var k := ListFind(l, b.address);
    if k >= 0 then l[k := b]
    else (if |l| >= maxSize && l != [] then l[1..] else l) + [b]
  }

  function ListRemove(l: seq<VictimBlock>, address: nat): seq<VictimBlock> {
    var k := ListFind(l, address);
    if k < 0 then l else l[..k] + l[k + 1..]
  }

  function ListInvalidate(l: seq<VictimBlock>, lo: nat, hi: nat): seq<VictimBlock> {
    if l == [] then [] else
    var rest := ListInvalidate(l[1..], lo, hi);
    if lo <= l[0].address <= hi then rest else [l[0]] + rest
  }

  // ---------- Dropping a slot ----------

  // What removal, eviction and invalidation all do to a consistent cache.
  function Drop(v: Slots, slot: nat): Slots
    requires slot < |v.blocks|
  {
    Slots(v.blocks[slot := v.blocks[slot].(valid := false)], Without(v.fifo, slot),
          v.index - {v.blocks[slot].address}, Dec(v.size))
  }

  lemma {:induction false} DropKeeps(v: Slots, maxSize: nat, slot: nat)
    requires Consistent(v, maxSize) && slot < |v.blocks| && v.blocks[slot].valid
    ensures Consistent(Drop(v, slot), maxSize)
  {
    DropKeepsQueue(v, slot);
    DropKeepsIndex(v, slot);
    WithoutKeepsDistinct(v.fifo, slot);
    assert slot in v.fifo;
    hide QueueOk, IndexOk, Without;
  }

  lemma {:induction false} DropKeepsQueue(v: Slots, slot: nat)
    requires QueueOk(v) && slot < |v.blocks|
    ensures QueueOk(Drop(v, slot))
  {
    var v' := Drop(v, slot);
    WithoutKeepsDistinct(v.fifo, slot);
    hide Distinct, Without;
    forall k | 0 <= k < |v'.fifo|
      ensures v'.fifo[k] < |v'.blocks| && v'.blocks[v'.fifo[k]].valid
    {
      assert v'.fifo[k] in v'.fifo;
      assert v'.fifo[k] in v.fifo;
    }
  }

  lemma {:induction false} DropKeepsIndex(v: Slots, slot: nat)
    requires IndexOk(v) && slot < |v.blocks| && v.blocks[slot].valid
    ensures IndexOk(Drop(v, slot))
  {
  }

  // Queue positions name different addresses.
  lemma {:induction false} ContentsAddresses(v: Slots, maxSize: nat)
    requires Consistent(v, maxSize)
    ensures forall k, l :: 0 <= k < |v.fifo| && 0 <= l < |v.fifo| && k != l ==> Contents(v)[k].address != Contents(v)[l].address
  {
  }

  lemma {:induction false} FindAddressAt(l: seq<VictimBlock>, p: nat, i: nat)
    requires i <= p < |l| && forall k :: 0 <= k < |l| && k != p ==> l[k].address != l[p].address
    ensures FindAddress(l, l[p].address, i) == p
    decreases p - i
  {
    if i < p {
      FindAddressAt(l, p, i + 1);
    }
  }

  lemma {:induction false} DropQueuePosition(v: Slots, maxSize: nat, p: nat)
    requires Consistent(v, maxSize) && p < |v.fifo|
    ensures Without(v.fifo, v.fifo[p]) == v.fifo[..p] + v.fifo[p + 1..]
    ensures EraseAt(v.fifo, FirstSlot(v.fifo, v.fifo[p], 0)) == v.fifo[..p] + v.fifo[p + 1..]
    ensures EraseAt(v.fifo, FirstNamed(v.blocks, v.fifo, v.blocks[v.fifo[p]].address, 0)) == v.fifo[..p] + v.fifo[p + 1..]
  {
    WithoutAt(v.fifo, p);
    var q := FirstSlot(v.fifo, v.fifo[p], 0);
    var r := FirstNamed(v.blocks, v.fifo, v.blocks[v.fifo[p]].address, 0);
    assert q >= 0 && r >= 0;
    assert q == p;
    assert v.fifo[r] == v.fifo[p];
  }

  // It deletes the slot's block from the contents.
  lemma {:induction false} DropContents(v: Slots, maxSize: nat, p: nat)
    requires Consistent(v, maxSize) && p < |v.fifo|
    ensures Consistent(Drop(v, v.fifo[p]), maxSize)
    ensures Contents(Drop(v, v.fifo[p])) == Contents(v)[..p] + Contents(v)[p + 1..]
    ensures ListRemove(Contents(v), v.blocks[v.fifo[p]].address) == Contents(v)[..p] + Contents(v)[p + 1..]
  {
    DropKeeps(v, maxSize, v.fifo[p]);
    DropQueuePosition(v, maxSize, p);
    ContentsAddresses(v, maxSize);
    FindAddressAt(Contents(v), p, 0);
    DroppedList(v, Drop(v, v.fifo[p]), p);
  }

  lemma {:induction false} DroppedList(v: Slots, v': Slots, p: nat)
    requires QueueOk(v) && QueueOk(v') && p < |v.fifo|
    requires v'.fifo == v.fifo[..p] + v.fifo[p + 1..]
    requires |v'.blocks| == |v.blocks| && forall i :: 0 <= i < |v.blocks| && i != v.fifo[p] ==> v'.blocks[i] == v.blocks[i]
    ensures Contents(v') == Contents(v)[..p] + Contents(v)[p + 1..]
  {
    var expected := Contents(v)[..p] + Contents(v)[p + 1..];
    assert |expected| == |Contents(v')|;
    forall k | 0 <= k < |v'.fifo|
      ensures Contents(v')[k] == expected[k]
    {
      var q := if k < p then k else k + 1;
      assert v'.fifo[k] == v.fifo[q] != v.fifo[p];
      assert v.fifo[q] < |v.blocks|;
      assert expected[k] == Contents(v)[q] == v.blocks[v.fifo[q]];
    }
    hide QueueOk, Contents;
  }

  // ---------- Removal ----------

  lemma {:induction false} RemoveRefines(v: Slots, maxSize: nat, address: nat)
    requires Consistent(v, maxSize)
    ensures Consistent(Remove(v, address), maxSize)
    ensures Contents(Remove(v, address)) == ListRemove(Contents(v), address)
  {
    var slot := FindValid(v.blocks, address, 0);
    if slot >= 0 {
      var p :| 0 <= p < |v.fifo| && v.fifo[p] == slot;
      DropQueuePosition(v, maxSize, p);
      DropContents(v, maxSize, p);
      assert Remove(v, address) == Drop(v, slot);
    } else {
      assert forall k :: 0 <= k < |v.fifo| ==> Contents(v)[k].address != address;
    }
  }

  // ---------- Insertion ----------

  lemma {:induction false} EvictRefines(v: Slots, maxSize: nat)
    requires Consistent(v, maxSize) && v.fifo != []
    ensures Consistent(EvictOldest(v), maxSize)
    ensures Contents(EvictOldest(v)) == Contents(v)[1..]
    ensures EvictOldest(v).size == v.size - 1
    ensures |EvictOldest(v).blocks| == |v.blocks|
    ensures forall i :: 0 <= i < |v.blocks| ==> EvictOldest(v).blocks[i].address == v.blocks[i].address
  {
    ShapeOf(v, maxSize);
    hide *;
    EvictIsDrop(v, maxSize);
    DropContents(v, maxSize, 0);
    DropShape(v, v.fifo[0]);
    WithoutFirst(Contents(v));
  }

  lemma {:induction false} WithoutFirst(l: seq<VictimBlock>)
    requires l != []
    ensures l[..0] + l[1..] == l[1..]
  {
  }

  lemma {:induction false} DropShape(v: Slots, slot: nat)
    requires slot < |v.blocks| && v.size > 0
    ensures Drop(v, slot).size == v.size - 1 && |Drop(v, slot).blocks| == |v.blocks|
    ensures forall i :: 0 <= i < |v.blocks| ==> Drop(v, slot).blocks[i].address == v.blocks[i].address
  {
  }

  lemma {:induction false} EvictIsDrop(v: Slots, maxSize: nat)
    requires Consistent(v, maxSize) && v.fifo != []
    ensures EvictOldest(v) == Drop(v, v.fifo[0])
  {
    WithoutAt(v.fifo, 0);
    assert v.fifo[..0] + v.fifo[1..] == v.fifo[1..];
    hide Without;
  }

  // Queueing a slot that now holds a valid block.
  lemma {:induction false} QueueAppend(v: Slots, v': Slots, slot: nat)
    requires QueueOk(v) && slot !in v.fifo && v'.fifo == v.fifo + [slot]
    requires slot < |v'.blocks| && v'.blocks[slot].valid
    requires |v'.blocks| == if slot < |v.blocks| then |v.blocks| else |v.blocks| + 1
    requires forall i :: 0 <= i < |v.blocks| && i != slot ==> v'.blocks[i] == v.blocks[i]
    ensures QueueOk(v') && Contents(v') == Contents(v) + [v'.blocks[slot]]
  {
    forall i: nat | i < |v'.blocks| && v'.blocks[i].valid
      ensures i in v'.fifo
    {
      if i != slot {
        assert v'.blocks[i] == v.blocks[i];
        assert i in v.fifo;
      } else {
        assert v'.fifo[|v.fifo|] == slot;
      }
    }
    assert Contents(v') == Contents(v) + [v'.blocks[slot]];
  }

  lemma {:induction false} PlaceKeepsQueue(v: Slots, maxSize: nat, b: VictimBlock)
    requires Consistent(v, maxSize) && b.valid && v.size < maxSize
    ensures QueueOk(Place(v, b)) && Contents(Place(v, b)) == Contents(v) + [b]
    ensures |Place(v, b).blocks| <= maxSize
  {
    var free := FirstFree(v.blocks, 0);
    var slot: nat := if free >= 0 then free else |v.blocks|;
    NotQueued(v, slot);
    RoomLeft(v, maxSize);
    QueueAppend(v, Place(v, b), slot);
  }

  lemma {:induction false} NotQueued(v: Slots, slot: nat)
    requires QueueOk(v) && (slot < |v.blocks| ==> !v.blocks[slot].valid)
    ensures slot !in v.fifo
  {
  }

  lemma {:induction false} RoomLeft(v: Slots, maxSize: nat)
    requires Consistent(v, maxSize) && v.size < maxSize
    ensures FirstFree(v.blocks, 0) < 0 ==> |v.blocks| < maxSize
  {
    OrderLength(v.fifo, |v.blocks|);
  }

  lemma {:induction false} PlaceRefines(v: Slots, maxSize: nat, b: VictimBlock)
    requires Consistent(v, maxSize) && b.valid && v.size < maxSize
    requires forall i :: 0 <= i < |v.blocks| ==> v.blocks[i].address != b.address
    ensures Consistent(Place(v, b), maxSize) && Contents(Place(v, b)) == Contents(v) + [b]
  {
    hide QueueOk, IndexOk, Contents;
    PlaceKeepsQueue(v, maxSize, b);
    PlaceKeepsIndex(v, b);
    PlaceKeepsAddresses(v, b);
    hide Place, FirstFree;
  }

  lemma {:induction false} PlaceKeepsAddresses(v: Slots, b: VictimBlock)
    requires forall i, j :: 0 <= i < j < |v.blocks| ==> v.blocks[i].address != v.blocks[j].address
    requires forall i :: 0 <= i < |v.blocks| ==> v.blocks[i].address != b.address
    ensures forall i, j :: 0 <= i < j < |Place(v, b).blocks| ==> Place(v, b).blocks[i].address != Place(v, b).blocks[j].address
    ensures Place(v, b).size == v.size + 1 && |Place(v, b).fifo| == |v.fifo| + 1
  {
  }

  lemma {:induction false} PlaceKeepsIndex(v: Slots, b: VictimBlock)
    requires IndexOk(v) && b.valid
    requires forall i :: 0 <= i < |v.blocks| ==> v.blocks[i].address != b.address
    ensures IndexOk(Place(v, b))
  {
    assert b.address !in v.index;
  }

  // The block named by an insert is in a valid slot, or no slot names it: the update then
  // keeps the slot's validity.
  predicate Acceptable(v: Slots, b: VictimBlock) {
    var existing := FindAddress(v.blocks, b.address, 0);
    b.valid == (existing < 0 || v.blocks[existing].valid)
  }

  lemma {:induction false} UpdateRefines(v: Slots, maxSize: nat, slot: nat, b: VictimBlock)
    requires Consistent(v, maxSize) && slot < |v.blocks| && v.blocks[slot].address == b.address
    requires v.blocks[slot].valid == b.valid
    ensures Consistent(v.(blocks := v.blocks[slot := b]), maxSize)
    ensures b.valid ==> Contents(v.(blocks := v.blocks[slot := b])) == ListInsert(Contents(v), b, maxSize)
  {
    var v' := v.(blocks := v.blocks[slot := b]);
    if b.valid {
      var p :| 0 <= p < |v.fifo| && v.fifo[p] == slot;
      ContentsAddresses(v, maxSize);
      FindAddressAt(Contents(v), p, 0);
      assert Contents(v') == Contents(v)[p := b];
    }
    hide Contents, ListInsert;
  }

  // A valid insert that does not name an address left in an invalid slot acts on the
  // first-in-first-out list: update in place, or append after dropping the oldest when full.
  lemma {:induction false} InsertRefines(v: Slots, maxSize: nat, b: VictimBlock)
    requires Consistent(v, maxSize) && maxSize > 0 && b.valid && Acceptable(v, b)
    ensures Consistent(Insert(v, b, maxSize), maxSize)
    ensures Contents(Insert(v, b, maxSize)) == ListInsert(Contents(v), b, maxSize)
  {
    var existing := FindAddress(v.blocks, b.address, 0);
    if existing >= 0 {
      UpdateRefines(v, maxSize, existing, b);
    } else {
      hide Consistent, Contents, Place, EvictOldest, ListInsert;
      ShapeOf(v, maxSize);
      NewToList(v, maxSize, b);
      if v.size >= maxSize {
        EvictRefines(v, maxSize);
        PlaceRefines(EvictOldest(v), maxSize, b);
      } else {
        PlaceRefines(v, maxSize, b);
      }
    }
  }

  lemma {:induction false} ShapeOf(v: Slots, maxSize: nat)
    requires Consistent(v, maxSize)
    ensures v.size == |v.fifo| <= maxSize && QueueOk(v)
  {
  }

  lemma {:induction false} NewToList(v: Slots, maxSize: nat, b: VictimBlock)
    requires Consistent(v, maxSize) && FindAddress(v.blocks, b.address, 0) < 0
    ensures ListInsert(Contents(v), b, maxSize)
         == (if v.size >= maxSize && v.fifo != [] then Contents(v)[1..] else Contents(v)) + [b]
  {
    assert forall k :: 0 <= k < |v.fifo| ==> Contents(v)[k].address != b.address;
  }

  // For any insert into a consistent cache, the result is consistent exactly when the insert
  // is acceptable: naming a removed address, or inserting an invalid block, breaks it.
  lemma {:induction false} InsertKeepsConsistentIff(v: Slots, maxSize: nat, b: VictimBlock)
    requires Consistent(v, maxSize) && maxSize > 0
    ensures Consistent(Insert(v, b, maxSize), maxSize) <==> Acceptable(v, b)
  {
    var existing := FindAddress(v.blocks, b.address, 0);
    if Acceptable(v, b) {
      if b.valid {
        InsertRefines(v, maxSize, b);
      } else {
        UpdateRefines(v, maxSize, existing, b);
      }
    } else if existing >= 0 {
      UpdateBreaks(v, maxSize, existing, b);
    } else {
      PlaceInvalidBreaks(if v.size >= maxSize then EvictOldest(v) else v, b);
    }
  }

  lemma {:induction false} UpdateBreaks(v: Slots, maxSize: nat, slot: nat, b: VictimBlock)
    requires QueueOk(v) && slot < |v.blocks| && v.blocks[slot].valid != b.valid
    ensures !QueueOk(v.(blocks := v.blocks[slot := b]))
  {
    var v' := v.(blocks := v.blocks[slot := b]);
    if b.valid {
      assert v'.blocks[slot].valid && slot !in v.fifo;
    } else {
      var p :| 0 <= p < |v.fifo| && v.fifo[p] == slot;
      assert !v'.blocks[v'.fifo[p]].valid;
    }
  }

  lemma {:induction false} PlaceInvalidBreaks(v: Slots, b: VictimBlock)
    requires !b.valid
    ensures !QueueOk(Place(v, b))
  {
    var v' := Place(v, b);
    var last := |v'.fifo| - 1;
    assert !v'.blocks[v'.fifo[last]].valid;
  }

  // The broken case is reachable in three calls: insert, remove, insert again. The block is
  // valid but is neither queued nor mapped nor counted.
  lemma {:induction false} ReinsertionIsLost(b: VictimBlock)
    requires b.valid
    ensures var empty := Slots([], [], map[], 0);
            var v := Insert(Remove(Insert(empty, b, 4), b.address), b, 4);
            v.blocks == [b] && v.fifo == [] && b.address !in v.index && v.size == 0
  {
    var v1 := Insert(Slots([], [], map[], 0), b, 4);
    assert v1 == Slots([b], [0], map[b.address := 0], 1);
    assert FindValid(v1.blocks, b.address, 0) == 0;
    assert FirstSlot(v1.fifo, 0, 0) == 0;
    assert EraseAt(v1.fifo, 0) == [];
  }

  // ---------- Range invalidation ----------

  lemma {:induction false} InvalidateNone(l: seq<VictimBlock>, lo: nat, hi: nat)
    requires forall k :: 0 <= k < |l| ==> !(lo <= l[k].address <= hi)
    ensures ListInvalidate(l, lo, hi) == l
  {
    if l != [] {
      InvalidateNone(l[1..], lo, hi);
    }
  }

  lemma {:induction false} InvalidateAbsorbs(l: seq<VictimBlock>, p: nat, lo: nat, hi: nat)
    requires p < |l| && lo <= l[p].address <= hi
    ensures ListInvalidate(l[..p] + l[p + 1..], lo, hi) == ListInvalidate(l, lo, hi)
  {
    if p == 0 {
      assert l[..0] + l[1..] == l[1..];
    } else {
      InvalidateAbsorbs(l[1..], p - 1, lo, hi);
      assert (l[..p] + l[p + 1..])[1..] == l[1..][..p - 1] + l[1..][p..];
    }
  }

  lemma {:induction false} InvalidateSlotRefines(v: Slots, maxSize: nat, i: nat, lo: nat, hi: nat)
    requires Consistent(v, maxSize) && i < |v.blocks| && v.blocks[i].valid && lo <= v.blocks[i].address <= hi
    ensures Consistent(InvalidateSlot(v, i), maxSize)
    ensures ListInvalidate(Contents(InvalidateSlot(v, i)), lo, hi) == ListInvalidate(Contents(v), lo, hi)
  {
    var p :| 0 <= p < |v.fifo| && v.fifo[p] == i;
    DropQueuePosition(v, maxSize, p);
    DropContents(v, maxSize, p);
    assert InvalidateSlot(v, i) == Drop(v, i);
    InvalidateAbsorbs(Contents(v), p, lo, hi);
  }

  // The slots before i hold no valid block of the range.
  ghost predicate Cleared(v: Slots, i: nat, lo: nat, hi: nat) {
    forall j :: 0 <= j < i && j < |v.blocks| ==> !(v.blocks[j].valid && lo <= v.blocks[j].address <= hi)
  }

  lemma {:induction false} InvalidateFromRefines(v: Slots, maxSize: nat, i: nat, lo: nat, hi: nat)
    requires Consistent(v, maxSize) && Cleared(v, i, lo, hi)
    ensures Consistent(InvalidateFrom(v, i, lo, hi), maxSize)
    ensures Contents(InvalidateFrom(v, i, lo, hi)) == ListInvalidate(Contents(v), lo, hi)
    decreases |v.blocks| - i
  {
    hide Consistent, Contents, ListInvalidate, InvalidateSlot, Cleared;
    if i >= |v.blocks| {
      NothingLeft(v, maxSize, i, lo, hi);
    } else {
      ClearedNext(v, i, lo, hi);
      var b := v.blocks[i];
      if lo <= b.address <= hi && b.valid {
        InvalidateSlotRefines(v, maxSize, i, lo, hi);
        InvalidateFromRefines(InvalidateSlot(v, i), maxSize, i + 1, lo, hi);
      } else {
        InvalidateFromRefines(v, maxSize, i + 1, lo, hi);
      }
    }
  }

  lemma {:induction false} NothingLeft(v: Slots, maxSize: nat, i: nat, lo: nat, hi: nat)
    requires Consistent(v, maxSize) && Cleared(v, i, lo, hi) && i >= |v.blocks|
    ensures ListInvalidate(Contents(v), lo, hi) == Contents(v)
  {
    InvalidateNone(Contents(v), lo, hi);
  }

  lemma {:induction false} ClearedNext(v: Slots, i: nat, lo: nat, hi: nat)
    requires Cleared(v, i, lo, hi) && i < |v.blocks|
    ensures Cleared(InvalidateSlot(v, i), i + 1, lo, hi)
    ensures !(lo <= v.blocks[i].address <= hi && v.blocks[i].valid) ==> Cleared(v, i + 1, lo, hi)
  {
  }

  // ---------- Runs ----------

  datatype Op = InsertOp(block: VictimBlock) | RemoveOp(address: nat) | InvalidateOp(lo: nat, hi: nat)

  function Apply(v: Slots, op: Op, maxSize: nat): Slots {
    match op
    case InsertOp(b) => Insert(v, b, maxSize)
    case RemoveOp(a) => Remove(v, a)
    case InvalidateOp(lo, hi) => InvalidateFrom(v, 0, lo, hi)
  }

  function ApplyList(l: seq<VictimBlock>, op: Op, maxSize: nat): seq<VictimBlock> {
    match op
    case InsertOp(b) => ListInsert(l, b, maxSize)
    case RemoveOp(a) => ListRemove(l, a)
    case InvalidateOp(lo, hi) => ListInvalidate(l, lo, hi)
  }

  function Run(ops: seq<Op>, maxSize: nat): Slots {
    if ops == [] then Slots([], [], map[], 0) else
    var n := |ops| - 1;
    Apply(Run(ops[..n], maxSize), ops[n], maxSize)
  }

  function RunList(ops: seq<Op>, maxSize: nat): seq<VictimBlock> {
    if ops == [] then [] else
    var n := |ops| - 1;
    ApplyList(RunList(ops[..n], maxSize), ops[n], maxSize)
  }

  // Every insert is of a valid block, and names no address left in an invalid slot.
  ghost predicate WellUsed(ops: seq<Op>, maxSize: nat) {
    forall k :: 0 <= k < |ops| && ops[k].InsertOp? ==>
      ops[k].block.valid && Acceptable(Run(ops[..k], maxSize), ops[k].block)
  }

  // On every such run the slots, queue and map are one bounded first-in-first-out list.
  lemma {:induction false} RunRefines(ops: seq<Op>, maxSize: nat)
    requires maxSize > 0 && WellUsed(ops, maxSize)
    ensures Consistent(Run(ops, maxSize), maxSize)
    ensures Contents(Run(ops, maxSize)) == RunList(ops, maxSize)
    ensures |RunList(ops, maxSize)| == Run(ops, maxSize).size <= maxSize
  {
    if ops != [] {
      hide Consistent, Insert, Remove, InvalidateFrom;
      var n := |ops| - 1;
      var before := Run(ops[..n], maxSize);
      assert WellUsed(ops[..n], maxSize) by {
        assert forall k :: 0 <= k < n ==> ops[..n][..k] == ops[..k];
      }
      RunRefines(ops[..n], maxSize);
      match ops[n] {
        case InsertOp(b) => InsertRefines(before, maxSize, b);
        case RemoveOp(a) => RemoveRefines(before, maxSize, a);
        case InvalidateOp(lo, hi) => InvalidateFromRefines(before, maxSize, 0, lo, hi);
      }
      ShapeOf(Run(ops, maxSize), maxSize);
    }
  }

  // ---------- The object ----------

  class VictimCacheObject {
    const maxSize: nat
    var blocks: seq<VictimBlock>
    var fifoQueue: seq<nat>
    var addressToIndex: map<nat, nat>
    var currentSize: nat
    var hits: nat
    var misses: nat
    var evictions: nat

    ghost function State(): Slots
      reads this
    {
      Slots(blocks, fifoQueue, addressToIndex, currentSize)
    }

    // Queued slot numbers are always in range, consistent or not.
    ghost predicate Valid()
      reads this
    {
      maxSize > 0 && forall k :: 0 <= k < |fifoQueue| ==> fifoQueue[k] < |blocks|
    }

    constructor (size: nat)
      requires size > 0
      ensures Valid() && maxSize == size && State() == Slots([], [], map[], 0)
      ensures hits == misses == evictions == 0
    {
      maxSize := size;
      blocks, fifoQueue, addressToIndex, currentSize := [], [], map[], 0;
      hits, misses, evictions := 0, 0, 0;
    }

    // The first valid slot with the address, or the number of slots.
    method FirstHolding(address: nat) returns (slot: nat)
      ensures slot <= |blocks| && FindValid(blocks, address, 0) == if slot < |blocks| then slot else -1
    {
      slot := 0;
      while slot < |blocks| && !(blocks[slot].address == address && blocks[slot].valid)
        invariant 0 <= slot <= |blocks| && FindValid(blocks, address, 0) == FindValid(blocks, address, slot)
      {
        slot := slot + 1;
      }
    }

    // The first position of the slot in the queue, or the queue's length.
    method FirstQueued(slot: nat) returns (k: nat)
      ensures k <= |fifoQueue| && FirstSlot(fifoQueue, slot, 0) == if k < |fifoQueue| then k else -1
    {
      k := 0;
      while k < |fifoQueue| && fifoQueue[k] != slot
        invariant 0 <= k <= |fifoQueue| && FirstSlot(fifoQueue, slot, 0) == FirstSlot(fifoQueue, slot, k)
      {
        k := k + 1;
      }
    }

    // The first position in the queue of a slot naming the address, or the queue's length.
    method FirstNamedInQueue(address: nat) returns (k: nat)
      requires Valid()
      ensures k <= |fifoQueue| && FirstNamed(blocks, fifoQueue, address, 0) == if k < |fifoQueue| then k else -1
    {
      k := 0;
      while k < |fifoQueue| && blocks[fifoQueue[k]].address != address
        invariant 0 <= k <= |fifoQueue|
        invariant FirstNamed(blocks, fifoQueue, address, 0) == FirstNamed(blocks, fifoQueue, address, k)
      {
        k := k + 1;
      }
    }

    method FindBlock(address: nat) returns (found: bool)
      modifies this`hits, this`misses
      ensures found <==> FindValid(blocks, address, 0) >= 0
      ensures hits == old(hits) + (if found then 1 else 0) && misses == old(misses) + (if found then 0 else 1)
    {
      var slot := FirstHolding(address);
      found := slot < |blocks|;
      if found {
        hits := hits + 1;
      } else {
        misses := misses + 1;
      }
    }

    method SearchAndRemove(address: nat) returns (found: bool, block: VictimBlock)
      requires Valid()
      modifies this
      ensures Valid() && State() == Remove(old(State()), address)
      ensures found <==> FindValid(old(blocks), address, 0) >= 0
      ensures found ==> block == old(blocks)[FindValid(old(blocks), address, 0)]
      ensures hits == old(hits) + (if found then 1 else 0) && misses == old(misses) + (if found then 0 else 1)
      ensures evictions == old(evictions)
    {
      hide FindValid, FirstSlot, EraseAt;
      var slot := FirstHolding(address);
      if slot == |blocks| {
        misses := misses + 1;
        return false, VictimBlock(0, 0, false, false);
      }
      found, block := true, blocks[slot];
      var k := FirstQueued(slot);
      NothingErased(fifoQueue);
      if k < |fifoQueue| {
        EraseInRange(fifoQueue, k, |blocks|);
        fifoQueue := EraseAt(fifoQueue, k);
      }
      blocks := blocks[slot := blocks[slot].(valid := false)];
      addressToIndex := addressToIndex - {address};
      currentSize := Dec(currentSize);
      hits := hits + 1;
    }

    method EvictOldestBlock()
      requires Valid()
      modifies this
      ensures Valid() && State() == EvictOldest(old(State()))
      ensures hits == old(hits) && misses == old(misses)
      ensures evictions == old(evictions) + (if Evicts(old(State())) then 1 else 0)
    {
      if fifoQueue != [] && currentSize > 0 {
        var oldestIndex := fifoQueue[0];
        fifoQueue := fifoQueue[1..];
        if oldestIndex < |blocks| {
          addressToIndex := addressToIndex - {blocks[oldestIndex].address};
          blocks := blocks[oldestIndex := blocks[oldestIndex].(valid := false)];
          currentSize := Dec(currentSize);
          evictions := evictions + 1;
        }
      }
    }

    method InsertBlock(newBlock: VictimBlock)
      requires Valid()
      modifies this
      ensures Valid() && State() == Insert(old(State()), newBlock, maxSize)
      ensures hits == old(hits) && misses == old(misses)
      ensures evictions == old(evictions)
        + (if CountsEviction(old(State()), newBlock, maxSize) then 1 else 0)
    {
      var existing := 0;
      while existing < |blocks| && blocks[existing].address != newBlock.address
        invariant 0 <= existing <= |blocks|
        invariant FindAddress(blocks, newBlock.address, 0) == FindAddress(blocks, newBlock.address, existing)
      {
        existing := existing + 1;
      }
      assert FindAddress(blocks, newBlock.address, 0) == if existing < |blocks| then existing else -1;
      hide FindAddress;
      if existing < |blocks| {
        blocks := blocks[existing := newBlock];
        return;
      }
      if currentSize >= maxSize {
        EvictOldestBlock();
      }
      var insertIndex := 0;
      while insertIndex < |blocks| && blocks[insertIndex].valid
        invariant 0 <= insertIndex <= |blocks| && FirstFree(blocks, 0) == FirstFree(blocks, insertIndex)
      {
        insertIndex := insertIndex + 1;
      }
      assert FirstFree(blocks, 0) == if insertIndex < |blocks| then insertIndex else -1;
      hide FirstFree;
      if insertIndex < |blocks| {
        blocks := blocks[insertIndex := newBlock];
      } else {
        blocks := blocks + [newBlock];
      }
      fifoQueue := fifoQueue + [insertIndex];
      addressToIndex := addressToIndex[newBlock.address := insertIndex];
      currentSize := currentSize + 1;
    }

    method RemoveFromDataStructures(i: nat)
      requires Valid() && i < |blocks|
      modifies this`fifoQueue, this`addressToIndex, this`currentSize
      ensures Valid()
      ensures State() == Slots(blocks, EraseAt(old(fifoQueue), FirstNamed(blocks, old(fifoQueue), blocks[i].address, 0)),
                               old(addressToIndex) - {blocks[i].address}, Dec(old(currentSize)))
    {
      hide FirstNamed, EraseAt;
      var address := blocks[i].address;
      addressToIndex := addressToIndex - {address};
      var k := FirstNamedInQueue(address);
      NothingErased(fifoQueue);
      if k < |fifoQueue| {
        EraseInRange(fifoQueue, k, |blocks|);
        fifoQueue := EraseAt(fifoQueue, k);
      }
      currentSize := Dec(currentSize);
    }

    method InvalidateBlocksInRange(startAddr: nat, endAddr: nat)
      requires Valid()
      modifies this`blocks, this`fifoQueue, this`addressToIndex, this`currentSize
      ensures Valid() && State() == InvalidateFrom(old(State()), 0, startAddr, endAddr)
    {
      hide FirstNamed, EraseAt;
      ghost var n := |blocks|;
      for i := 0 to |blocks|
        invariant Valid() && |blocks| == n
        invariant InvalidateFrom(State(), i, startAddr, endAddr) == InvalidateFrom(old(State()), 0, startAddr, endAddr)
      {
        var addr := blocks[i].address;
        if addr >= startAddr && addr <= endAddr && blocks[i].valid {
          RemoveFromDataStructures(i);
          blocks := blocks[i := blocks[i].(valid := false)];
        }
      }
    }

    method CountValidBlocks() returns (n: nat)
      ensures n == |ValidSlots(blocks)|
      ensures QueueOk(State()) ==> n == |fifoQueue|
    {
      n := 0;
      ghost var seen: set<nat> := {};
      for i := 0 to |blocks|
        invariant seen == (set j: nat | j < i && blocks[j].valid) && n == |seen|
      {
        if blocks[i].valid {
          n := n + 1;
          seen := seen + {i};
        }
      }
      if QueueOk(State()) {
        DistinctCount(fifoQueue);
        assert seen == Elems(fifoQueue);
      }
      assert seen == ValidSlots(blocks);
    }
  }
}
