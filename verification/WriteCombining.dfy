// The write combining buffer: fixed slots stamped with write times, which together always
// hold the most recently written distinct addresses since the last flush.
module WriteCombining {
  import opened Recency

  datatype Entry = Entry(address: nat, valid: bool, timestamp: nat)

  // Valid slots by falling write time, with pairwise distinct addresses.
  ghost predicate Chain(es: seq<Entry>, order: seq<nat>, time: nat) {
    && Distinct(order)
    && (forall k :: 0 <= k < |order| ==> order[k] < |es| && es[order[k]].valid && es[order[k]].timestamp <= time)
    && (forall k, l :: 0 <= k < l < |order| ==> es[order[k]].timestamp > es[order[l]].timestamp)
    && (forall k, l :: 0 <= k < l < |order| ==> es[order[k]].address != es[order[l]].address)
  }

  // `order` is such a chain of all valid slots.
  ghost predicate Ordered(es: seq<Entry>, order: seq<nat>, time: nat) {
    Chain(es, order, time) && forall i: nat :: i < |es| && es[i].valid ==> i in order
  }

  // The buffered addresses, most recently written first.
  ghost function Addresses(es: seq<Entry>, order: seq<nat>): (r: seq<nat>)
    requires forall k :: 0 <= k < |order| ==> order[k] < |es|
    ensures |r| == |order| && forall k :: 0 <= k < |order| ==> r[k] == es[order[k]].address
  {
    seq(|order|, k requires 0 <= k < |order| => es[order[k]].address)
  }

  lemma {:induction false} AddressesDistinct(es: seq<Entry>, order: seq<nat>, time: nat)
    requires Ordered(es, order, time)
    ensures Distinct(Addresses(es, order))
  {
  }

  // ---------- Writing a slot ----------

  lemma {:induction false} ChainWithout(es: seq<Entry>, order: seq<nat>, time: nat, p: nat)
    requires Chain(es, order, time) && p < |order|
    ensures Chain(es, order[..p] + order[p + 1..], time)
  {
    var rest := order[..p] + order[p + 1..];
    assert forall k :: 0 <= k < |rest| ==> rest[k] == order[if k < p then k else k + 1];
  }

  lemma {:induction false} AddressesWithout(es: seq<Entry>, order: seq<nat>, time: nat, p: nat)
    requires Chain(es, order, time) && p < |order|
    requires Chain(es, order[..p] + order[p + 1..], time)
    ensures Addresses(es, order[..p] + order[p + 1..]) == Without(Addresses(es, order), es[order[p]].address)
  {
    var list := Addresses(es, order);
    assert Distinct(list);
    WithoutAt(list, p);
    assert Addresses(es, order[..p] + order[p + 1..]) == list[..p] + list[p + 1..];
  }

  // A slot outside the chain, freshly stamped with a new address, goes to its front.
  lemma {:induction false} ChainCons(es: seq<Entry>, rest: seq<nat>, time: nat, w: nat, address: nat)
    requires Chain(es, rest, time) && w < |es| && w !in rest && address !in Addresses(es, rest)
    ensures var es' := es[w := Entry(address, true, time + 1)];
            Chain(es', [w] + rest, time + 1) && Addresses(es', [w] + rest) == [address] + Addresses(es, rest)
  {
    var es' := es[w := Entry(address, true, time + 1)];
    assert forall k :: 0 <= k < |rest| ==> es'[rest[k]] == es[rest[k]] && Addresses(es, rest)[k] == es[rest[k]].address;
  }

  // The chain after writing `address` into slot w.
  ghost function Rewritten(order: seq<nat>, w: nat): seq<nat> {
    [w] + Without(order, w)
  }

  lemma {:induction false} RewriteInChain(es: seq<Entry>, order: seq<nat>, time: nat, w: nat, address: nat)
    requires Ordered(es, order, time) && w in order && w < |es|
    requires address == es[w].address || address !in Addresses(es, order)
    ensures var es' := es[w := Entry(address, true, time + 1)];
            && Ordered(es', Rewritten(order, w), time + 1)
            && Addresses(es', Rewritten(order, w)) == [address] + Without(Addresses(es, order), es[w].address)
  {
    var p :| 0 <= p < |order| && order[p] == w;
    WithoutAt(order, p);
    ChainWithout(es, order, time, p);
    AddressesWithout(es, order, time, p);
    ChainCons(es, Without(order, w), time, w, address);
  }

  lemma {:induction false} RewriteFree(es: seq<Entry>, order: seq<nat>, time: nat, w: nat, address: nat)
    requires Ordered(es, order, time) && w < |es| && !es[w].valid && address !in Addresses(es, order)
    ensures var es' := es[w := Entry(address, true, time + 1)];
            && Ordered(es', Rewritten(order, w), time + 1)
            && Addresses(es', Rewritten(order, w)) == [address] + Addresses(es, order)
            && |order| < |es|
  {
    assert w !in order;
    OrderLength(order, |es|);
    ChainCons(es, order, time, w, address);
  }

  // ---------- The three ways a write goes ----------

  // Rewriting an address already held moves it to the front.
  lemma {:induction false} Combine(es: seq<Entry>, order: seq<nat>, time: nat, w: nat)
    requires Ordered(es, order, time) && w < |es| && es[w].valid
    ensures var es' := es[w := Entry(es[w].address, true, time + 1)];
            && Ordered(es', Rewritten(order, w), time + 1)
            && Addresses(es', Rewritten(order, w)) == Touch(Addresses(es, order), es[w].address, |es|)
            && es[w].address in Addresses(es, order)
  {
    var p :| 0 <= p < |order| && order[p] == w;
    assert Addresses(es, order)[p] == es[w].address;
    AddressesDistinct(es, order, time);
    WithoutKeepsDistinct(Addresses(es, order), es[w].address);
    OrderLength(order, |es|);
    RewriteInChain(es, order, time, w, es[w].address);
  }

  // A new address takes a free slot.
  lemma {:induction false} Fill(es: seq<Entry>, order: seq<nat>, time: nat, w: nat, address: nat)
    requires Ordered(es, order, time) && w < |es| && !es[w].valid && address !in Addresses(es, order)
    ensures var es' := es[w := Entry(address, true, time + 1)];
            && Ordered(es', Rewritten(order, w), time + 1)
            && Addresses(es', Rewritten(order, w)) == Touch(Addresses(es, order), address, |es|)
            && |order| < |es|
  {
    RewriteFree(es, order, time, w, address);
  }

  lemma {:induction false} NotHeld(es: seq<Entry>, order: seq<nat>, time: nat, address: nat)
    requires Ordered(es, order, time)
    requires forall j :: 0 <= j < |es| ==> !(es[j].valid && es[j].address == address)
    ensures address !in Addresses(es, order)
  {
  }

  // With no slot free, it takes the one written longest ago.
  lemma {:induction false} Displace(es: seq<Entry>, order: seq<nat>, time: nat, w: nat, address: nat)
    requires Ordered(es, order, time) && |es| >= 1 && address !in Addresses(es, order)
    requires forall i :: 0 <= i < |es| ==> es[i].valid
    requires w < |es| && forall i :: 0 <= i < |es| ==> es[w].timestamp <= es[i].timestamp
    ensures |order| == |es|
    ensures var es' := es[w := Entry(address, true, time + 1)];
            && Ordered(es', Rewritten(order, w), time + 1)
            && Addresses(es', Rewritten(order, w)) == Touch(Addresses(es, order), address, |es|)
  {
    hide Touch, Without, Rewritten;
    var n, list := |es|, Addresses(es, order);
    OrderLength(order, n);
    OldestIsLast(es, order, time, w);
    RewriteInChain(es, order, time, w, address);
    AddressesDistinct(es, order, time);
    TouchDropsLast(list, address, n);
  }

  lemma {:induction false} OldestIsLast(es: seq<Entry>, order: seq<nat>, time: nat, w: nat)
    requires Ordered(es, order, time) && w < |es| == |order| && es[w].valid
    requires forall i :: 0 <= i < |es| ==> es[w].timestamp <= es[i].timestamp
    ensures order[|es| - 1] == w && Addresses(es, order)[|es| - 1] == es[w].address
  {
    var p :| 0 <= p < |order| && order[p] == w;
    assert es[order[p]].timestamp <= es[order[|es| - 1]].timestamp;
  }

  // ---------- The order of the slots ----------

  // The first n slots are the valid ones.
  ghost predicate Packed(es: seq<Entry>, n: nat) {
    n <= |es| && forall i :: 0 <= i < |es| ==> (es[i].valid <==> i < n)
  }

  ghost function SlotAddresses(es: seq<Entry>, n: nat): (r: seq<nat>)
    requires n <= |es|
    ensures |r| == n && forall i :: 0 <= i < n ==> r[i] == es[i].address
  {
    seq(n, i requires 0 <= i < n => es[i].address)
  }

  function Replaced(s: seq<nat>, old_: nat, new_: nat): (r: seq<nat>)
    ensures |r| == |s| && forall i :: 0 <= i < |s| ==> r[i] == if s[i] == old_ then new_ else s[i]
  {
    seq(|s|, i requires 0 <= i < |s| => if s[i] == old_ then new_ else s[i])
  }

  // Where a write goes among the slots, `list` being what they hold by time: a new address comes
  // last, or into the place of the one written longest ago.
  function Placed(slots: seq<nat>, list: seq<nat>, address: nat, size: nat): seq<nat> {
    if address in list then slots
    else if |slots| < size || list == [] then slots + [address]
    else Replaced(slots, list[|list| - 1], address)
  }

  lemma {:induction false} RewrittenLength(es: seq<Entry>, order: seq<nat>, time: nat, w: nat)
    requires Ordered(es, order, time) && w < |es|
    ensures |Rewritten(order, w)| == if es[w].valid then |order| else |order| + 1
    ensures |order| <= |es|
  {
    WithoutKeepsDistinct(order, w);
    OrderLength(order, |es|);
  }

  // The three ways a write goes keep the slots so.
  lemma {:induction false} SlotWritten(es: seq<Entry>, order: seq<nat>, time: nat, w: nat, address: nat)
    requires Ordered(es, order, time) && Packed(es, |order|) && w < |es|
    requires if es[w].valid then address == es[w].address || (|order| == |es| && OldestSlot(es, w) && address !in Addresses(es, order))
             else w == |order| && address !in Addresses(es, order)
    ensures var es', order' := es[w := Entry(address, true, time + 1)], Rewritten(order, w);
      && Packed(es', |order'|)
      && SlotAddresses(es', |order'|) == Placed(SlotAddresses(es, |order|), Addresses(es, order), address, |es|)
  {
    RewrittenLength(es, order, time, w);
    hide Ordered, Rewritten;
    if !es[w].valid {
      SlotFilled(es, Addresses(es, order), time, w, address);
    } else if address == es[w].address {
      SlotHeld(es, order, time, w);
      SlotRestamped(es, |order|, time, w);
    } else {
      OldestIsLast(es, order, time, w);
      SlotsDiffer(es, order, time, w);
      SlotDisplaced(es, Addresses(es, order), time, w, address);
    }
  }

  lemma {:induction false} SlotHeld(es: seq<Entry>, order: seq<nat>, time: nat, w: nat)
    requires Ordered(es, order, time) && w < |es| && es[w].valid
    ensures es[w].address in Addresses(es, order)
  {
    var p :| 0 <= p < |order| && order[p] == w;
    assert Addresses(es, order)[p] == es[w].address;
  }

  lemma {:induction false} SlotFilled(es: seq<Entry>, list: seq<nat>, time: nat, n: nat, address: nat)
    requires Packed(es, n) && n < |es| && address !in list
    ensures var es' := es[n := Entry(address, true, time + 1)];
      Packed(es', n + 1) && SlotAddresses(es', n + 1) == Placed(SlotAddresses(es, n), list, address, |es|)
  {
  }

  lemma {:induction false} SlotRestamped(es: seq<Entry>, n: nat, time: nat, w: nat)
    requires Packed(es, n) && w < |es| && es[w].valid
    ensures var es' := es[w := Entry(es[w].address, true, time + 1)];
      Packed(es', n) && SlotAddresses(es', n) == SlotAddresses(es, n)
  {
  }

  lemma {:induction false} SlotDisplaced(es: seq<Entry>, list: seq<nat>, time: nat, w: nat, address: nat)
    requires Packed(es, |es|) && w < |es| && address !in list && list != [] && list[|list| - 1] == es[w].address
    requires forall i: nat :: i < |es| && es[i].valid && i != w ==> es[i].address != es[w].address
    ensures var es' := es[w := Entry(address, true, time + 1)];
      Packed(es', |es|) && SlotAddresses(es', |es|) == Placed(SlotAddresses(es, |es|), list, address, |es|)
  {
  }

  ghost predicate OldestSlot(es: seq<Entry>, w: nat)
    requires w < |es|
  {
    forall i :: 0 <= i < |es| ==> es[w].timestamp <= es[i].timestamp
  }

  lemma {:induction false} SlotsDiffer(es: seq<Entry>, order: seq<nat>, time: nat, w: nat)
    requires Ordered(es, order, time) && w < |es| && es[w].valid
    ensures forall i: nat :: i < |es| && es[i].valid && i != w ==> es[i].address != es[w].address
  {
    var p :| 0 <= p < |order| && order[p] == w;
    forall i: nat | i < |es| && es[i].valid && i != w
      ensures es[i].address != es[w].address
    {
      var q :| 0 <= q < |order| && order[q] == i;
    }
  }

  lemma {:induction false} NothingOrdered(es: seq<Entry>, time: nat)
    requires forall i :: 0 <= i < |es| ==> !es[i].valid
    ensures Ordered(es, [], time) && Packed(es, 0)
  {
  }

  lemma {:induction false} SlotsAreContents(es: seq<Entry>, order: seq<nat>, time: nat)
    requires Ordered(es, order, time) && Packed(es, |order|)
    ensures var slots := SlotAddresses(es, |order|);
            Distinct(slots) && forall a :: a in slots <==> a in Addresses(es, order)
  {
    var slots, list := SlotAddresses(es, |order|), Addresses(es, order);
    forall a
      ensures a in slots <==> a in list
    {
      if i: nat :| i < |slots| && slots[i] == a {
        assert i in order;
        var p :| 0 <= p < |order| && order[p] == i;
        assert list[p] == a;
      }
      if p: nat :| p < |list| && list[p] == a {
        assert slots[order[p]] == a;
      }
    }
    forall i, j | 0 <= i < j < |slots|
      ensures slots[i] != slots[j]
    {
      SlotsDiffer(es, order, time, i);
    }
  }

  // ---------- The buffer ----------

  class WriteCombiningBuffer {
    const entries: array<Entry>
    var currentTime: nat
    ghost var order: seq<nat>

    ghost predicate Valid()
      reads this, entries
    {
      Ordered(entries[..], order, currentTime) && Packed(entries[..], |order|)
    }

    ghost function Contents(): seq<nat>
      reads this, entries
      requires Valid()
    {
      Addresses(entries[..], order)
    }

    // The same addresses in the order of their slots.
    ghost function Slots(): seq<nat>
      reads this, entries
      requires Valid()
    {
      SlotAddresses(entries[..], |order|)
    }

    constructor (size: nat)
      ensures Valid() && fresh(entries) && entries.Length == size && Contents() == [] && Slots() == []
    {
      entries := new Entry[size](_ => Entry(0, false, 0));
      currentTime := 0;
      order := [];
    }

    // A write puts its address first. It is combined or takes a free slot exactly when the
    // result is true; otherwise the address written longest ago is displaced.
    method TryWrite(address: nat) returns (kept: bool)
      requires Valid() && entries.Length >= 1
      modifies this, entries
      ensures Valid()
      ensures Contents() == Touch(old(Contents()), address, entries.Length)
      ensures Slots() == Placed(old(Slots()), old(Contents()), address, entries.Length)
      ensures !kept <==> address !in old(Contents()) && |old(Contents())| == entries.Length
    {
      hide Ordered, Touch, Addresses, Rewritten, SlotAddresses, Placed;
      ghost var es, ord, time := entries[..], order, currentTime;
      currentTime := currentTime + 1;
      for i := 0 to entries.Length
        invariant entries[..] == es && order == ord && currentTime == time + 1
        invariant forall j :: 0 <= j < i ==> !(es[j].valid && es[j].address == address)
      {
        if entries[i].valid && entries[i].address == address {
          Combine(es, ord, time, i);
          SlotWritten(es, ord, time, i, address);
          entries[i] := entries[i].(timestamp := currentTime);
          order := Rewritten(ord, i);
          assert entries[..] == es[i := Entry(address, true, time + 1)];
          return true;
        }
      }
      NotHeld(es, ord, time, address);
      for i := 0 to entries.Length
        invariant entries[..] == es && order == ord && currentTime == time + 1
        invariant forall j :: 0 <= j < i ==> es[j].valid
      {
        if !entries[i].valid {
          Fill(es, ord, time, i, address);
          assert i > 0 ==> es[i - 1].valid;
          SlotWritten(es, ord, time, i, address);
          entries[i] := Entry(address, true, currentTime);
          order := Rewritten(ord, i);
          assert entries[..] == es[i := Entry(address, true, time + 1)];
          return true;
        }
      }
      var oldest := 0;
      for i := 1 to entries.Length
        invariant entries[..] == es && order == ord && currentTime == time + 1
        invariant 0 <= oldest < entries.Length
        invariant forall j :: 0 <= j < i ==> es[oldest].timestamp <= es[j].timestamp
      {
        if entries[i].timestamp < entries[oldest].timestamp {
          oldest := i;
        }
      }
      Displace(es, ord, time, oldest, address);
      SlotWritten(es, ord, time, oldest, address);
      entries[oldest] := entries[oldest].(address := address, timestamp := currentTime);
      order := Rewritten(ord, oldest);
      assert entries[..] == es[oldest := Entry(address, true, time + 1)];
      return false;
    }

    // Each held address is returned once, in the order of the slots, and the buffer is empty afterwards.
    method Flush() returns (addresses: seq<nat>)
      requires Valid()
      modifies this, entries
      ensures Valid() && Contents() == [] && Slots() == []
      ensures addresses == old(Slots())
      ensures Distinct(addresses)
      ensures forall a :: a in addresses <==> a in old(Contents())
    {
      ghost var es, ord, time := entries[..], order, currentTime;
      SlotsAreContents(es, ord, time);
      hide Ordered;
      addresses := [];
      for i := 0 to entries.Length
        invariant forall j :: 0 <= j < i ==> !entries[j].valid
        invariant forall j :: i <= j < entries.Length ==> entries[j] == es[j]
        invariant addresses == SlotAddresses(es, if i < |ord| then i else |ord|)
      {
        if entries[i].valid {
          addresses := addresses + [entries[i].address];
          entries[i] := entries[i].(valid := false);
        }
      }
      order := [];
      NothingOrdered(entries[..], currentTime);
    }

    method GetOccupancy() returns (n: nat)
      requires Valid()
      ensures n == |Contents()|
    {
      n := 0;
      ghost var seen: set<nat> := {};
      for i := 0 to entries.Length
        invariant seen == (set j: nat | j < i && entries[j].valid) && n == |seen|
      {
        if entries[i].valid {
          n := n + 1;
          seen := seen + {i};
        }
      }
      DistinctCount(order);
      assert seen == Elems(order);
    }
  }

  // ---------- Runs ----------

  // What the buffer holds after `writes` since it was last empty.
  function Held(writes: seq<nat>, size: nat): seq<nat> {
    Lists(writes, 1, size)[0]
  }

  // Each write acts on the held list as `TryWrite` does.
  lemma {:induction false} HeldOneMore(writes: seq<nat>, a: nat, size: nat)
    ensures Held(writes + [a], size) == Touch(Held(writes, size), a, size)
    ensures Held([], size) == []
  {
    ListsSnoc(writes, a, 1, size);
    assert Accesses([]) == [];
  }

  lemma {:induction false} SinceOne(writes: seq<nat>, a: nat)
    ensures Since(writes, 1, a) <= Elems(writes)
  {
    if writes != [] {
      var n := |writes| - 1;
      SinceOne(writes[..n], a);
      assert writes == writes[..n] + [writes[n]];
    }
  }

  // The buffer holds min(size, d) of the d distinct addresses written, each once: those with
  // fewer than `size` distinct addresses written after them.
  lemma {:induction false} HoldsMostRecent(writes: seq<nat>, size: nat)
    requires size >= 1
    ensures Distinct(Held(writes, size))
    ensures |Held(writes, size)| == if |Elems(writes)| < size then |Elems(writes)| else size
    ensures forall a: nat :: a in Held(writes, size) <==> a in writes && |Since(writes, 1, a)| < size
  {
    var stack := Stack(writes, 1, 0);
    ListIsStackPrefix(writes, 1, size, 0);
    StackShape(writes, 1, 0);
    DistinctCount(stack);
    assert Elems(stack) == Elems(writes) by {
      assert forall b: nat :: b % 1 == 0;
    }
    forall a: nat
      ensures a in Held(writes, size) <==> a in writes && |Since(writes, 1, a)| < size
    {
      StackDistance(writes, 1, size, a);
      assert a % 1 == 0;
    }
  }

  // What the buffer holds by slots, and so returns when flushed.
  function HeldSlots(writes: seq<nat>, size: nat): seq<nat> {
    if writes == [] then [] else
    var n := |writes| - 1;
    Placed(HeldSlots(writes[..n], size), Held(writes[..n], size), writes[n], size)
  }

  // Addresses in the order of their first writes.
  function FirstWrites(writes: seq<nat>): seq<nat> {
    if writes == [] then [] else
    var n := |writes| - 1;
    FirstWrites(writes[..n]) + if writes[n] in writes[..n] then [] else [writes[n]]
  }

  lemma {:induction false} HeldIfRoom(writes: seq<nat>, size: nat)
    requires size >= 1 && |Elems(writes)| <= size
    ensures forall a :: a in Held(writes, size) <==> a in writes
  {
    HoldsMostRecent(writes, size);
    var held := Held(writes, size);
    DistinctCount(held);
    assert Elems(held) <= Elems(writes);
    SameIfAsMany(Elems(held), Elems(writes));
    assert forall a :: a in held <==> a in Elems(held);
    assert forall a :: a in writes <==> a in Elems(writes);
    hide Held;
  }

  lemma {:induction false} SameIfAsMany(a: set<nat>, b: set<nat>)
    requires a <= b && |a| == |b|
    ensures a == b
  {
    if x :| x in b && x !in a {
      FewerElements(a, b - {x});
      assert false;
    }
  }

  lemma {:induction false} FewerElements(a: set<nat>, b: set<nat>)
    requires a <= b
    ensures |a| <= |b|
  {
    if x :| x in a {
      FewerElements(a - {x}, b - {x});
    }
  }

  // While all the addresses written fit, a flush returns them in the order of their first writes.
  lemma {:induction false} FlushesInFirstWriteOrder(writes: seq<nat>, size: nat)
    requires size >= 1 && |Elems(writes)| <= size
    ensures HeldSlots(writes, size) == FirstWrites(writes) && |FirstWrites(writes)| == |Elems(writes)|
  {
    if writes != [] {
      var n := |writes| - 1;
      assert writes == writes[..n] + [writes[n]];
      assert Elems(writes) == Elems(writes[..n]) + {writes[n]};
      FewerElements(Elems(writes[..n]), Elems(writes));
      FlushesInFirstWriteOrder(writes[..n], size);
      HeldIfRoom(writes[..n], size);
      hide Held;
    }
  }
}
