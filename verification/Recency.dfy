// The list rule that an LRU set is meant to follow, stated without ways, tags or
// policy objects: a recency list per set, most recent block first.
module Recency {
  import opened Arithmetic

  // ---------- Deleting from a list ----------

  // `s` with every occurrence of `x` deleted.
  function Without<T(==, !new)>(s: seq<T>, x: T): (r: seq<T>)
    ensures |r| <= |s|
    ensures x !in s ==> r == s
    ensures forall y :: y in r <==> y in s && y != x
  {
    if s == [] then [] else
    if s[0] == x then Without(s[1..], x) else [s[0]] + Without(s[1..], x)
  }

  ghost predicate Distinct<T>(s: seq<T>) {
    forall i, j :: 0 <= i < j < |s| ==> s[i] != s[j]
  }

  lemma {:induction false} DistinctSnoc<T>(s: seq<T>, x: T)
    requires Distinct(s) && x !in s
    ensures Distinct(s + [x])
  {
  }

  lemma {:induction false} WithoutKeepsDistinct<T(!new)>(s: seq<T>, x: T)
    requires Distinct(s)
    ensures Distinct(Without(s, x))
    ensures x in s ==> |Without(s, x)| == |s| - 1
  {
    if s != [] {
      WithoutKeepsDistinct(s[1..], x);
      if s[0] == x {
        assert x !in s[1..];
      } else {
        assert s[0] !in Without(s[1..], x);
      }
    }
  }

  lemma {:induction false} WithoutAt<T(!new)>(s: seq<T>, p: nat)
    requires Distinct(s) && p < |s|
    ensures Without(s, s[p]) == s[..p] + s[p + 1..]
  {
    if p == 0 {
      assert s[0] !in s[1..];
    } else {
      WithoutAt(s[1..], p - 1);
      assert s[1..][..p - 1] == s[1..p];
    }
  }

  function Take<T>(s: seq<T>, n: nat): (r: seq<T>)
    ensures |r| <= n && r <= s
  {
    if |s| <= n then s else s[..n]
  }

  // ---------- The rule ----------

  // Move `b` to the front, then drop the tail past `ways` entries.
  function Touch<T(==, !new)>(list: seq<T>, b: T, ways: nat): seq<T> {
    Take([b] + Without(list, b), ways)
  }

  // What happens to a cache seen at block granularity.
  datatype Event = Access(block: nat) | Invalidate(block: nat)

  function ColdLists(numSets: nat): (r: seq<seq<nat>>)
    ensures |r| == numSets && forall s :: 0 <= s < numSets ==> r[s] == []
  {
    seq(numSets, _ => [])
  }

  // One event on the recency lists of all sets; a block's set is its number modulo the set count.
  function StepLists(lists: seq<seq<nat>>, e: Event, ways: nat): (r: seq<seq<nat>>)
    requires |lists| > 0
    ensures |r| == |lists|
  {
    var s := e.block % |lists|;
    lists[s := if e.Access? then Touch(lists[s], e.block, ways) else Without(lists[s], e.block)]
  }

  function RunLists(lists: seq<seq<nat>>, events: seq<Event>, ways: nat): (r: seq<seq<nat>>)
    requires |lists| > 0
    ensures |r| == |lists|
  {
    if events == [] then lists else
    var n := |events| - 1;
    StepLists(RunLists(lists, events[..n], ways), events[n], ways)
  }

  function Accesses(trace: seq<nat>): (r: seq<Event>)
    ensures |r| == |trace|
    ensures forall i :: 0 <= i < |trace| ==> r[i] == Access(trace[i])
  {
    seq(|trace|, i requires 0 <= i < |trace| => Access(trace[i]))
  }

  // The lists of a cold cache after a trace of block numbers.
  function Lists(trace: seq<nat>, numSets: nat, ways: nat): (r: seq<seq<nat>>)
    requires numSets > 0
    ensures |r| == numSets
  {
    RunLists(ColdLists(numSets), Accesses(trace), ways)
  }

  predicate Holds(lists: seq<seq<nat>>, b: nat)
    requires |lists| > 0
  {
    b in lists[b % |lists|]
  }

  lemma {:induction false} ListsSnoc(trace: seq<nat>, x: nat, numSets: nat, ways: nat)
    requires numSets > 0
    ensures Lists(trace + [x], numSets, ways) == StepLists(Lists(trace, numSets, ways), Access(x), ways)
  {
    var t := trace + [x];
    assert Accesses(t)[..|t| - 1] == Accesses(trace);
  }

  // On a full list a new block displaces the last one.
  lemma {:induction false} TouchDropsLast(list: seq<nat>, b: nat, ways: nat)
    requires Distinct(list) && |list| == ways > 0 && b !in list
    ensures [b] + Without(list, list[ways - 1]) == Touch(list, b, ways)
  {
    hide Without;
    WithoutAt(list, ways - 1);
    assert list[ways..] == [];
    assert Without(list, list[ways - 1]) == list[..ways - 1];
    var all := [b] + list;
    assert Touch(list, b, ways) == all[..ways];
    assert all[..ways] == [b] + list[..ways - 1];
  }

  // ---------- Stack distance ----------

  // Every block of set `s` the trace touched, most recent first: an LRU list that never drops.
  function Stack(trace: seq<nat>, numSets: nat, s: nat): seq<nat>
    requires numSets > 0
  {
    if trace == [] then [] else
    var n := |trace| - 1;
    var before := Stack(trace[..n], numSets, s);
    if trace[n] % numSets == s then [trace[n]] + Without(before, trace[n]) else before
  }

  // The other blocks of b's set touched after the last touch of b.
  function Since(trace: seq<nat>, numSets: nat, b: nat): set<nat>
    requires numSets > 0
  {
    if trace == [] then {} else
    var n := |trace| - 1;
    if trace[n] == b then {} else
    Since(trace[..n], numSets, b) + (if trace[n] % numSets == b % numSets then {trace[n]} else {})
  }

  lemma {:induction false} StackShape(trace: seq<nat>, numSets: nat, s: nat)
    requires numSets > 0
    ensures Distinct(Stack(trace, numSets, s))
    ensures forall b :: b in Stack(trace, numSets, s) <==> b in trace && b % numSets == s
  {
    if trace != [] {
      var n := |trace| - 1;
      StackShape(trace[..n], numSets, s);
      WithoutKeepsDistinct(Stack(trace[..n], numSets, s), trace[n]);
      assert trace == trace[..n] + [trace[n]];
    }
  }

  // Truncating after every touch is the same as truncating once at the end.
  lemma {:induction false} TouchTruncates(st: seq<nat>, x: nat, ways: nat)
    requires Distinct(st)
    ensures Touch(Take(st, ways), x, ways) == Take([x] + Without(st, x), ways)
  {
    if |st| > ways {
      AgreesBelow(st, x, ways);
      TakeCons(x, Without(st[..ways], x), Without(st, x), ways);
    }
  }

  lemma {:induction false} AgreesBelow(st: seq<nat>, x: nat, ways: nat)
    requires Distinct(st) && ways < |st|
    ensures |Without(st[..ways], x)| + 1 >= ways && |Without(st, x)| + 1 >= ways
    ensures forall i :: 0 <= i < ways - 1 ==> Without(st[..ways], x)[i] == Without(st, x)[i]
  {
    hide Without;
    if x in st {
      var p :| 0 <= p < |st| && st[p] == x;
      WithoutAt(st, p);
      if p < ways {
        WithoutAt(st[..ways], p);
      } else {
        assert forall i :: 0 <= i < ways ==> st[..ways][i] == st[i] != x;
        assert Without(st[..ways], x) == st[..ways];
      }
    } else {
      assert forall i :: 0 <= i < ways ==> st[..ways][i] == st[i];
      assert Without(st[..ways], x) == st[..ways];
    }
  }

  lemma {:induction false} TakeCons(x: nat, a: seq<nat>, b: seq<nat>, ways: nat)
    requires |a| + 1 >= ways && |b| + 1 >= ways
    requires forall i :: 0 <= i < ways - 1 ==> a[i] == b[i]
    ensures Take([x] + a, ways) == Take([x] + b, ways)
  {
    var l, r := Take([x] + a, ways), Take([x] + b, ways);
    assert |l| == |r| == ways;
    assert forall i :: 0 <= i < ways ==> l[i] == r[i];
  }

  lemma {:induction false} ListIsStackPrefix(trace: seq<nat>, numSets: nat, ways: nat, s: nat)
    requires numSets > 0 && s < numSets
    ensures Lists(trace, numSets, ways)[s] == Take(Stack(trace, numSets, s), ways)
  {
    if trace == [] {
      assert Accesses(trace) == [];
    } else {
      var n := |trace| - 1;
      var x := trace[n];
      assert trace == trace[..n] + [x];
      ListsSnoc(trace[..n], x, numSets, ways);
      ListIsStackPrefix(trace[..n], numSets, ways, s);
      StackShape(trace[..n], numSets, s);
      if x % numSets == s {
        TouchTruncates(Stack(trace[..n], numSets, s), x, ways);
      }
    }
  }

  ghost function Elems<T>(s: seq<T>): set<T> {
    set x | x in s
  }

  lemma {:induction false} DistinctCount<T>(s: seq<T>)
    requires Distinct(s)
    ensures |Elems(s)| == |s|
  {
    if s != [] {
      var n := |s| - 1;
      DistinctCount(s[..n]);
      assert Elems(s) == Elems(s[..n]) + {s[n]};
    }
  }

  // Moving x to the front keeps b findable and adds x to what is above it.
  lemma {:induction false} MoveAbove(st: seq<nat>, x: nat, q: nat) returns (p: nat)
    requires Distinct(st) && q < |st| && st[q] != x
    ensures p < |[x] + Without(st, x)| && ([x] + Without(st, x))[p] == st[q]
    ensures Elems(([x] + Without(st, x))[..p]) == Elems(st[..q]) + {x}
  {
    if x !in st {
      p := q + 1;
      PrefixOfCons(x, st, q, st);
    } else {
      var k :| 0 <= k < |st| && st[k] == x;
      WithoutAt(st, k);
      if k < q {
        p := q;
        MoveFromAbove(st, k, q);
      } else {
        p := q + 1;
        PrefixOfCons(x, st[..k] + st[k + 1..], q, st);
      }
    }
  }

  lemma {:induction false} PrefixOfCons(x: nat, a: seq<nat>, q: nat, st: seq<nat>)
    requires q < |a| && q < |st| && forall i :: 0 <= i <= q ==> a[i] == st[i]
    ensures ([x] + a)[q + 1] == st[q]
    ensures Elems(([x] + a)[..q + 1]) == Elems(st[..q]) + {x}
  {
    assert ([x] + a)[..q + 1] == [x] + st[..q];
    ElemsJoin([], x, st[..q]);
    assert [] + [x] + st[..q] == [x] + st[..q];
  }

  lemma {:induction false} MoveFromAbove(st: seq<nat>, k: nat, q: nat)
    requires k < q < |st|
    ensures q < |[st[k]] + (st[..k] + st[k + 1..])| && ([st[k]] + (st[..k] + st[k + 1..]))[q] == st[q]
    ensures Elems(([st[k]] + (st[..k] + st[k + 1..]))[..q]) == Elems(st[..q]) + {st[k]}
  {
    assert ([st[k]] + (st[..k] + st[k + 1..]))[..q] == [st[k]] + st[..k] + st[k + 1..q];
    assert st[..q] == st[..k] + [st[k]] + st[k + 1..q];
    ElemsJoin(st[..k], st[k], st[k + 1..q]);
  }

  lemma {:induction false} ElemsJoin(a: seq<nat>, x: nat, b: seq<nat>)
    ensures Elems(a + [x] + b) == Elems(a) + {x} + Elems(b)
    ensures Elems([x] + a + b) == Elems(a) + {x} + Elems(b)
  {
    assert forall y :: y in a + [x] + b <==> y in a || y == x || y in b;
    assert forall y :: y in [x] + a + b <==> y in a || y == x || y in b;
  }

  // The blocks above b on the stack are exactly those touched since b.
  lemma {:induction false} AboveIsSince(trace: seq<nat>, numSets: nat, b: nat) returns (p: nat)
    requires numSets > 0 && b in trace
    ensures p < |Stack(trace, numSets, b % numSets)| && Stack(trace, numSets, b % numSets)[p] == b
    ensures Elems(Stack(trace, numSets, b % numSets)[..p]) == Since(trace, numSets, b)
  {
    var n, s := |trace| - 1, b % numSets;
    var x := trace[n];
    if x == b {
      p := 0;
    } else {
      assert trace == trace[..n] + [x];
      var q := AboveIsSince(trace[..n], numSets, b);
      if x % numSets == s {
        StackShape(trace[..n], numSets, s);
        p := MoveAbove(Stack(trace[..n], numSets, s), x, q);
      } else {
        p := q;
      }
    }
  }

  // A cold LRU cache holds a block exactly when it was touched and fewer than `ways`
  // distinct other blocks of its set were touched since.
  lemma {:induction false} StackDistance(trace: seq<nat>, numSets: nat, ways: nat, b: nat)
    requires numSets > 0
    ensures Holds(Lists(trace, numSets, ways), b) <==> b in trace && |Since(trace, numSets, b)| < ways
  {
    var s := b % numSets;
    var st := Stack(trace, numSets, s);
    ListIsStackPrefix(trace, numSets, ways, s);
    StackShape(trace, numSets, s);
    if b in trace {
      var p := AboveIsSince(trace, numSets, b);
      DistinctCount(st[..p]);
      if p < ways {
        assert Take(st, ways)[p] == b;
      } else {
        assert forall i :: 0 <= i < p ==> st[i] != b;
      }
    }
  }

  // ---------- Inclusion ----------

  lemma {:induction false} SinceShrinks(trace: seq<nat>, n1: nat, n2: nat, k: nat, b: nat)
    requires n1 > 0 && k > 0 && n2 == n1 * k
    ensures Since(trace, n2, b) <= Since(trace, n1, b)
  {
    if trace != [] {
      var n := |trace| - 1;
      SinceShrinks(trace[..n], n1, n2, k, b);
      if trace[n] % n2 == b % n2 {
        ModOfMultiple(trace[n], n1, k);
        ModOfMultiple(b, n1, k);
      }
    }
  }

  lemma {:induction false} SubsetCount<T>(a: set<T>, b: set<T>)
    requires a <= b
    ensures |a| <= |b|
  {
    assert b == a + (b - a);
  }

  // Every block the smaller cache holds is held by the larger one, after any trace.
  lemma {:induction false} Inclusion(trace: seq<nat>, n1: nat, k: nat, ways1: nat, ways2: nat, b: nat)
    requires n1 > 0 && k > 0 && ways1 <= ways2
    ensures n1 * k > 0
    ensures Holds(Lists(trace, n1, ways1), b) ==> Holds(Lists(trace, n1 * k, ways2), b)
  {
    assert n1 * k > 0 by { ModOfMultiple(0, n1, k); }
    StackDistance(trace, n1, ways1, b);
    StackDistance(trace, n1 * k, ways2, b);
    SinceShrinks(trace, n1, n1 * k, k, b);
    SubsetCount(Since(trace, n1 * k, b), Since(trace, n1, b));
  }

  // ---------- Counting misses ----------

  function Misses(lists: seq<seq<nat>>, trace: seq<nat>, ways: nat): (m: nat)
    requires |lists| > 0
    ensures m <= |trace|
    decreases |trace|
  {
    if trace == [] then 0 else
    (if Holds(lists, trace[0]) then 0 else 1) + Misses(StepLists(lists, Access(trace[0]), ways), trace[1..], ways)
  }

  lemma {:induction false} MissesSnoc(lists: seq<seq<nat>>, trace: seq<nat>, x: nat, ways: nat)
    requires |lists| > 0
    ensures Misses(lists, trace + [x], ways)
         == Misses(lists, trace, ways) + (if Holds(RunLists(lists, Accesses(trace), ways), x) then 0 else 1)
    decreases |trace|
  {
    if trace == [] {
      assert Accesses(trace) == [];
      assert [x][1..] == [];
    } else {
      var next := StepLists(lists, Access(trace[0]), ways);
      assert (trace + [x])[1..] == trace[1..] + [x];
      MissesSnoc(next, trace[1..], x, ways);
      RunListsCons(lists, trace, ways);
    }
  }

  lemma {:induction false} RunSnoc(lists: seq<seq<nat>>, trace: seq<nat>, x: nat, ways: nat)
    requires |lists| > 0
    ensures RunLists(lists, Accesses(trace + [x]), ways) == StepLists(RunLists(lists, Accesses(trace), ways), Access(x), ways)
  {
    var events := Accesses(trace + [x]);
    assert events[..|trace|] == Accesses(trace);
  }

  lemma {:induction false} RunListsCons(lists: seq<seq<nat>>, trace: seq<nat>, ways: nat)
    requires |lists| > 0 && trace != []
    ensures RunLists(lists, Accesses(trace), ways)
         == RunLists(StepLists(lists, Access(trace[0]), ways), Accesses(trace[1..]), ways)
  {
    hide StepLists, RunLists, Accesses;
    if |trace| == 1 {
      assert trace == [trace[0]] && trace[1..] == [];
      RunListsOne(lists, trace[0], ways);
    } else {
      var init, x := trace[..|trace| - 1], trace[|trace| - 1];
      assert trace == init + [x] && trace[1..] == init[1..] + [x];
      RunListsCons(lists, init, ways);
      RunSnoc(lists, init, x, ways);
      RunSnoc(StepLists(lists, Access(trace[0]), ways), init[1..], x, ways);
    }
  }

  lemma {:induction false} RunListsOne(lists: seq<seq<nat>>, x: nat, ways: nat)
    requires |lists| > 0
    ensures RunLists(lists, Accesses([x]), ways) == RunLists(StepLists(lists, Access(x), ways), Accesses([]), ways)
  {
    RunSnoc(lists, [], x, ways);
    assert [] + [x] == [x] && Accesses([]) == [];
    hide StepLists;
  }

  // The smaller cache of `Inclusion` misses at least as often.
  lemma {:induction false} InclusionMisses(trace: seq<nat>, n1: nat, k: nat, ways1: nat, ways2: nat)
    requires n1 > 0 && k > 0 && ways1 <= ways2
    ensures n1 * k > 0
    ensures Misses(ColdLists(n1 * k), trace, ways2) <= Misses(ColdLists(n1), trace, ways1)
  {
    assert n1 * k > 0 by { ModOfMultiple(0, n1, k); }
    if trace != [] {
      var n := |trace| - 1;
      assert trace == trace[..n] + [trace[n]];
      InclusionMisses(trace[..n], n1, k, ways1, ways2);
      MissesSnoc(ColdLists(n1), trace[..n], trace[n], ways1);
      MissesSnoc(ColdLists(n1 * k), trace[..n], trace[n], ways2);
      Inclusion(trace[..n], n1, k, ways1, ways2, trace[n]);
    }
  }

  // ---------- Counting distinct numbers ----------

  // The numbers below n.
  ghost function Below(n: nat): (r: set<nat>)
    ensures forall i: nat :: i in r <==> i < n
    ensures |r| == n
  {
    if n == 0 then {} else Below(n - 1) + {n - 1}
  }

  lemma {:induction false} OrderLength(order: seq<nat>, n: nat)
    requires Distinct(order) && forall k :: 0 <= k < |order| ==> order[k] < n
    ensures |order| <= n
    ensures (exists i: nat :: i < n && i !in order) ==> |order| < n
    ensures (forall i: nat :: i < n ==> i in order) ==> |order| == n
  {
    DistinctCount(order);
    assert Elems(order) <= Below(n);
    SubsetCount(Elems(order), Below(n));
    if i: nat :| i < n && i !in order {
      assert Elems(order) <= Below(n) - {i};
      SubsetCount(Elems(order), Below(n) - {i});
    } else {
      assert Below(n) == Elems(order);
    }
  }
}
