// What restarting from an empty cache costs: the miss count of a trace replayed in chunks,
// each chunk on a fresh LRU cache, against the miss count of one uninterrupted replay.
module ColdRestart {
  import opened Recency

  // ---------- One set ----------

  ghost predicate Bounded(list: seq<nat>, ways: nat) {
    Distinct(list) && |list| <= ways
  }

  // Touching keeps a cold list a prefix of a warm one, and every extra cold miss uses up
  // one entry of the warm list's lead.
  lemma {:induction false} TouchLead(cold: seq<nat>, warm: seq<nat>, x: nat, ways: nat)
    requires cold <= warm && Bounded(warm, ways)
    ensures Touch(cold, x, ways) <= Touch(warm, x, ways) && Bounded(Touch(warm, x, ways), ways)
    ensures x in cold ==> x in warm
    ensures |Touch(warm, x, ways)| - |Touch(cold, x, ways)| + (if x in warm && x !in cold then 1 else 0)
         <= |warm| - |cold|
  {
    hide Touch;
    TouchBounded(warm, x, ways);
    if x in warm {
      var p :| 0 <= p < |warm| && warm[p] == x;
      if p < |cold| {
        assert cold[p] == x;
        LeadOnHit(cold, warm, p, ways);
      } else {
        assert forall i :: 0 <= i < |cold| ==> cold[i] == warm[i] != x;
        LeadOnColdMiss(cold, warm, p, ways);
      }
    } else {
      assert forall i :: 0 <= i < |cold| ==> cold[i] == warm[i];
      LeadOnMiss(cold, warm, x, ways);
    }
  }

  lemma {:induction false} TouchBounded(list: seq<nat>, x: nat, ways: nat)
    requires Distinct(list)
    ensures Bounded(Touch(list, x, ways), ways)
  {
    hide Without;
    WithoutKeepsDistinct(list, x);
    var rest := Without(list, x);
    assert forall i :: 0 <= i < |rest| ==> rest[i] in rest;
    assert Distinct([x] + rest);
  }

  // What a touch of the entry at position p leaves.
  lemma {:induction false} TouchAt(list: seq<nat>, p: nat, ways: nat)
    requires Distinct(list) && p < |list| <= ways
    ensures Touch(list, list[p], ways) == [list[p]] + list[..p] + list[p + 1..]
  {
    hide Without;
    WithoutAt(list, p);
    assert [list[p]] + (list[..p] + list[p + 1..]) == [list[p]] + list[..p] + list[p + 1..];
  }

  lemma {:induction false} LeadOnHit(cold: seq<nat>, warm: seq<nat>, p: nat, ways: nat)
    requires cold <= warm && Bounded(warm, ways) && p < |cold|
    ensures Touch(cold, warm[p], ways) <= Touch(warm, warm[p], ways)
    ensures |Touch(warm, warm[p], ways)| - |Touch(cold, warm[p], ways)| == |warm| - |cold|
  {
    hide Touch;
    TouchAt(cold, p, ways);
    TouchAt(warm, p, ways);
  }

  lemma {:induction false} LeadOnColdMiss(cold: seq<nat>, warm: seq<nat>, p: nat, ways: nat)
    requires cold <= warm && Bounded(warm, ways) && |cold| <= p < |warm| && warm[p] !in cold
    ensures Touch(cold, warm[p], ways) <= Touch(warm, warm[p], ways)
    ensures |Touch(warm, warm[p], ways)| - |Touch(cold, warm[p], ways)| == |warm| - |cold| - 1
  {
    TouchAt(warm, p, ways);
    hide Without;
    assert Touch(cold, warm[p], ways) == [warm[p]] + cold;
  }

  lemma {:induction false} LeadOnMiss(cold: seq<nat>, warm: seq<nat>, x: nat, ways: nat)
    requires cold <= warm && Bounded(warm, ways) && x !in warm && x !in cold
    ensures Touch(cold, x, ways) <= Touch(warm, x, ways)
    ensures |Touch(warm, x, ways)| - |Touch(cold, x, ways)| <= |warm| - |cold|
  {
    hide Without;
    var c, w := [x] + cold, [x] + warm;
    assert c <= w;
    assert Touch(cold, x, ways) == Take(c, ways) && Touch(warm, x, ways) == Take(w, ways);
  }

  // ---------- All sets ----------

  ghost predicate Leads(colds: seq<seq<nat>>, warms: seq<seq<nat>>, ways: nat) {
    |colds| == |warms| > 0 &&
    forall s :: 0 <= s < |warms| ==> colds[s] <= warms[s] && Bounded(warms[s], ways)
  }

  ghost function Lead(colds: seq<seq<nat>>, warms: seq<seq<nat>>): int
    requires |colds| == |warms|
  {
    if colds == [] then 0 else
    var n := |colds| - 1;
    Lead(colds[..n], warms[..n]) + |warms[n]| - |colds[n]|
  }

  lemma {:induction false} LeadUpdate(colds: seq<seq<nat>>, warms: seq<seq<nat>>, s: nat, c: seq<nat>, w: seq<nat>)
    requires |colds| == |warms| && s < |colds|
    ensures Lead(colds[s := c], warms[s := w])
         == Lead(colds, warms) + (|w| - |c|) - (|warms[s]| - |colds[s]|)
  {
    var n := |colds| - 1;
    if s == n {
      assert colds[s := c][..n] == colds[..n];
      assert warms[s := w][..n] == warms[..n];
    } else {
      LeadUpdate(colds[..n], warms[..n], s, c, w);
      assert colds[s := c][..n] == colds[..n][s := c];
      assert warms[s := w][..n] == warms[..n][s := w];
    }
  }

  lemma {:induction false} LeadAtMostCapacity(colds: seq<seq<nat>>, warms: seq<seq<nat>>, ways: nat)
    requires |colds| == |warms|
    requires forall s :: 0 <= s < |warms| ==> colds[s] <= warms[s] && |warms[s]| <= ways
    ensures 0 <= Lead(colds, warms) <= |colds| * ways
  {
    if colds != [] {
      var n := |colds| - 1;
      LeadAtMostCapacity(colds[..n], warms[..n], ways);
      assert |colds| * ways == n * ways + ways;
    }
  }

  lemma {:induction false} LeadStep(colds: seq<seq<nat>>, warms: seq<seq<nat>>, x: nat, ways: nat)
    requires Leads(colds, warms, ways)
    ensures Leads(StepLists(colds, Access(x), ways), StepLists(warms, Access(x), ways), ways)
    ensures Holds(colds, x) ==> Holds(warms, x)
    ensures Lead(StepLists(colds, Access(x), ways), StepLists(warms, Access(x), ways))
            + (if Holds(warms, x) && !Holds(colds, x) then 1 else 0) <= Lead(colds, warms)
  {
    var s := x % |warms|;
    TouchLead(colds[s], warms[s], x, ways);
    LeadUpdate(colds, warms, s, Touch(colds[s], x, ways), Touch(warms[s], x, ways));
  }

  lemma {:induction false} LeadBoundsMisses(colds: seq<seq<nat>>, warms: seq<seq<nat>>, trace: seq<nat>, ways: nat)
    requires Leads(colds, warms, ways)
    ensures Misses(warms, trace, ways) <= Misses(colds, trace, ways)
    ensures Misses(colds, trace, ways) <= Misses(warms, trace, ways) + Lead(colds, warms)
    decreases |trace|
  {
    if trace == [] {
      LeadAtMostCapacity(colds, warms, ways);
    } else {
      LeadStep(colds, warms, trace[0], ways);
      LeadBoundsMisses(StepLists(colds, Access(trace[0]), ways), StepLists(warms, Access(trace[0]), ways),
                       trace[1..], ways);
    }
  }

  lemma {:induction false} ListsBounded(lists: seq<seq<nat>>, trace: seq<nat>, ways: nat)
    requires Leads(ColdLists(|lists|), lists, ways)
    ensures Leads(ColdLists(|lists|), RunLists(lists, Accesses(trace), ways), ways)
    decreases |trace|
  {
    if trace == [] {
      assert Accesses(trace) == [];
    } else {
      var s := trace[0] % |lists|;
      TouchLead([], lists[s], trace[0], ways);
      ListsBounded(StepLists(lists, Access(trace[0]), ways), trace[1..], ways);
      RunListsCons(lists, trace, ways);
    }
  }

  // ---------- Chunks ----------

  function Concat<T>(chunks: seq<seq<T>>): seq<T> {
    if chunks == [] then [] else chunks[0] + Concat(chunks[1..])
  }

  // Misses of a fresh cache per chunk, added up.
  function ChunkedMisses(chunks: seq<seq<nat>>, numSets: nat, ways: nat): nat
    requires numSets > 0
  {
    if chunks == [] then 0 else
    Misses(ColdLists(numSets), chunks[0], ways) + ChunkedMisses(chunks[1..], numSets, ways)
  }

  lemma {:induction false} MissesSplit(lists: seq<seq<nat>>, a: seq<nat>, b: seq<nat>, ways: nat)
    requires |lists| > 0
    ensures Misses(lists, a + b, ways)
         == Misses(lists, a, ways) + Misses(RunLists(lists, Accesses(a), ways), b, ways)
    decreases |a|
  {
    if a == [] {
      assert a + b == b && Accesses(a) == [];
    } else {
      assert (a + b)[1..] == a[1..] + b;
      MissesSplit(StepLists(lists, Access(a[0]), ways), a[1..], b, ways);
      RunListsCons(lists, a, ways);
    }
  }

  // Blocks a cache can hold.
  function Capacity(numSets: nat, ways: nat): nat {
    numSets * ways
  }

  // One chunk on a warm cache, then the rest.
  lemma {:induction false} WarmChunk(lists: seq<seq<nat>>, chunk: seq<nat>, rest: seq<nat>, ways: nat)
    requires Leads(ColdLists(|lists|), lists, ways)
    ensures var after := RunLists(lists, Accesses(chunk), ways);
            && Leads(ColdLists(|lists|), after, ways)
            && Misses(lists, chunk + rest, ways) == Misses(lists, chunk, ways) + Misses(after, rest, ways)
    ensures Misses(lists, chunk, ways) <= Misses(ColdLists(|lists|), chunk, ways)
         <= Misses(lists, chunk, ways) + Capacity(|lists|, ways)
  {
    hide Misses;
    LeadBoundsMisses(ColdLists(|lists|), lists, chunk, ways);
    LeadAtMostCapacity(ColdLists(|lists|), lists, ways);
    MissesSplit(lists, chunk, rest, ways);
    ListsBounded(lists, chunk, ways);
  }

  lemma {:induction false} WarmChunks(lists: seq<seq<nat>>, chunks: seq<seq<nat>>, ways: nat)
    requires Leads(ColdLists(|lists|), lists, ways)
    ensures Misses(lists, Concat(chunks), ways) <= ChunkedMisses(chunks, |lists|, ways)
    ensures ChunkedMisses(chunks, |lists|, ways) <= Misses(lists, Concat(chunks), ways) + |chunks| * Capacity(|lists|, ways)
    decreases |chunks|
  {
    if chunks != [] {
      hide Misses, Leads, RunLists, Capacity, ColdLists;
      var rest, after := chunks[1..], RunLists(lists, Accesses(chunks[0]), ways);
      WarmChunk(lists, chunks[0], Concat(rest), ways);
      WarmChunks(after, rest, ways);
      Distribute(|chunks|, Capacity(|lists|, ways));
      assert |after| == |lists| && |rest| == |chunks| - 1;
    }
  }

  lemma {:induction false} Distribute(k: nat, c: nat)
    requires k > 0
    ensures k * c == (k - 1) * c + c
  {
  }

  // k fresh caches miss at least as often as one, and at most (k - 1) * numSets * ways times more.
  lemma {:induction false} ChunkedReplayBound(chunks: seq<seq<nat>>, numSets: nat, ways: nat)
    requires numSets > 0 && chunks != []
    ensures Misses(ColdLists(numSets), Concat(chunks), ways) <= ChunkedMisses(chunks, numSets, ways)
    ensures ChunkedMisses(chunks, numSets, ways)
         <= Misses(ColdLists(numSets), Concat(chunks), ways) + (|chunks| - 1) * Capacity(numSets, ways)
  {
    hide Misses, RunLists, Capacity;
    var cold := ColdLists(numSets);
    MissesSplit(cold, chunks[0], Concat(chunks[1..]), ways);
    ListsBounded(cold, chunks[0], ways);
    WarmChunks(RunLists(cold, Accesses(chunks[0]), ways), chunks[1..], ways);
  }
}
