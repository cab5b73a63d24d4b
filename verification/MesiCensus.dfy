// The recorded MESI transitions account for every block's state: in any run, the number of
// ways in a state is its initial number plus the transitions into it minus those out of it.
module MesiCensus {
  import opened MachineIntegers
  import opened Transitions
  import opened CacheModel
  import opened LruTheorems
  import R = ReplacementPolicies
  import Mesi

  // ---------- Ways per state ----------

  function CountIn(blocks: seq<Block>, m: Mesi.State): nat {
    if blocks == [] then 0 else
    var n := |blocks| - 1;
    CountIn(blocks[..n], m) + (if blocks[n].mesi == m then 1 else 0)
  }

  function CountOver(sets: seq<CacheSet>, m: Mesi.State): nat {
    if sets == [] then 0 else
    var n := |sets| - 1;
    CountOver(sets[..n], m) + CountIn(sets[n].blocks, m)
  }

  lemma {:induction false} CountInUpdate(blocks: seq<Block>, w: nat, b: Block, m: Mesi.State)
    requires w < |blocks|
    ensures CountIn(blocks[w := b], m) == CountIn(blocks, m) + Is(b.mesi, m) - Is(blocks[w].mesi, m)
  {
    var n := |blocks| - 1;
    if w == n {
      assert blocks[w := b][..n] == blocks[..n];
    } else {
      assert blocks[w := b][..n] == blocks[..n][w := b];
      CountInUpdate(blocks[..n], w, b, m);
    }
  }

  lemma {:induction false} CountOverUpdate(sets: seq<CacheSet>, s: nat, set_: CacheSet, m: Mesi.State)
    requires s < |sets|
    ensures CountOver(sets[s := set_], m) == CountOver(sets, m) + CountIn(set_.blocks, m) - CountIn(sets[s].blocks, m)
  {
    var n := |sets| - 1;
    if s == n {
      assert sets[s := set_][..n] == sets[..n];
    } else {
      assert sets[s := set_][..n] == sets[..n][s := set_];
      CountOverUpdate(sets[..n], s, set_, m);
    }
  }

  lemma {:induction false} OneWayUpdate(sets: seq<CacheSet>, s: nat, w: nat, b: Block, policy: R.PolicyState, m: Mesi.State)
    requires s < |sets| && w < |sets[s].blocks|
    ensures CountOver(sets[s := CacheSet(sets[s].blocks[w := b], policy)], m)
         == CountOver(sets, m) + Is(b.mesi, m) - Is(sets[s].blocks[w].mesi, m)
  {
    CountOverUpdate(sets, s, CacheSet(sets[s].blocks[w := b], policy), m);
    CountInUpdate(sets[s].blocks, w, b, m);
  }

  // ---------- Recorded flow ----------

  // Transitions into a state minus transitions out of it.
  function Net(t: Table, m: Mesi.State): int
    requires IsTable(t, 4)
  {
    Flow(t, 4, Mesi.Index(m))
  }

  lemma {:induction false} RecordedFlow(t: Table, from: Mesi.State, to: Mesi.State, m: Mesi.State)
    requires IsTable(t, 4)
    ensures Net(Mesi.Recorded(t, from, to), m) == Net(t, m) + Is(to, m) - Is(from, m)
  {
    if from != to {
      BumpedFlow(t, Mesi.Index(from), Mesi.Index(to), 4, Mesi.Index(m));
    }
    hide Flow, Bumped;
  }

  // ---------- Every command balances ----------

  // Ways in a state not explained by recorded transitions; unchanged by every command.
  function Unexplained(k: Cache, m: Mesi.State): int
    requires IsTable(k.transitions, 4)
  {
    CountOver(k.sets, m) - Net(k.transitions, m)
  }

  lemma {:induction false} AccessBalances(c: Config, k: Cache, address: U32, isWrite: bool, m: Mesi.State)
    requires Shape(c, k)
    ensures Unexplained(CacheModel.Access(c, k, address, isWrite).cache, m) == Unexplained(k, m)
  {
    hide Flow, Mesi.Recorded, FindVictim;
    AccessSets(c, k, address, isWrite);
    var s := SetOf(c, address);
    var set_ := k.sets[s];
    var way := FindWayFrom(set_.blocks, TagOf(c, address), 0);
    if way >= 0 {
      var b := HitBlock(set_.blocks[way], isWrite, c.write);
      OneWayUpdate(k.sets, s, way, b, R.Accessed(set_.policy, way, c.ways), m);
      RecordedFlow(k.transitions, set_.blocks[way].mesi, Mesi.Modified, m);
    } else {
      var victim, b := FindVictim(set_), NewBlock(TagOf(c, address), isWrite);
      OneWayUpdate(k.sets, s, victim, b, R.Installed(set_.policy, victim, c.ways), m);
      RecordedFlow(k.transitions, set_.blocks[victim].mesi, b.mesi, m);
    }
  }

  lemma {:induction false} SetStateBalances(c: Config, k: Cache, address: U32, state: Mesi.State, m: Mesi.State)
    requires Shape(c, k)
    ensures Unexplained(SetState(c, k, address, state), m) == Unexplained(k, m)
    ensures Unexplained(CacheModel.Invalidate(c, k, address), m) == Unexplained(k, m)
  {
    hide Flow, Mesi.Recorded;
    var s := SetOf(c, address);
    var set_ := k.sets[s];
    var way := FindWayFrom(set_.blocks, TagOf(c, address), 0);
    if way >= 0 {
      var b := set_.blocks[way];
      OneWayUpdate(k.sets, s, way, b.(mesi := state, valid := state != Mesi.Invalid), set_.policy, m);
      OneWayUpdate(k.sets, s, way, b.(mesi := Mesi.Invalid, valid := false), set_.policy, m);
      RecordedFlow(k.transitions, b.mesi, state, m);
      RecordedFlow(k.transitions, b.mesi, Mesi.Invalid, m);
    }
  }

  // Over any run of accesses, invalidations and state updates, the ways in each state are
  // the initial ways plus recorded transitions in, minus recorded transitions out; and a way
  // is valid exactly when its state is not Invalid.
  lemma {:induction false} Census(c: Config, k: Cache, commands: seq<Command>, m: Mesi.State)
    requires Invariant(c, k)
    ensures var k' := ObeyAll(c, k, commands);
            && CountOver(k'.sets, m) == CountOver(k.sets, m) + Net(k'.transitions, m) - Net(k.transitions, m)
            && Invariant(c, k')
            && (forall s, w :: 0 <= s < c.numSets && 0 <= w < c.ways ==>
                  (k'.sets[s].blocks[w].valid <==> k'.sets[s].blocks[w].mesi != Mesi.Invalid))
  {
    hide CacheModel.Access, SetState, CacheModel.Invalidate, CountOver, Net;
    if commands != [] {
      var n := |commands| - 1;
      var before := ObeyAll(c, k, commands[..n]);
      Census(c, k, commands[..n], m);
      match commands[n] {
        case Issue(q) =>
          AccessKeepsInvariant(c, before, q.address, q.isWrite);
          AccessBalances(c, before, q.address, q.isWrite, m);
        case Invalidated(a) =>
          SetStateKeepsInvariant(c, before, a, Mesi.Invalid);
          SetStateBalances(c, before, a, Mesi.Invalid, m);
        case Updated(a, state) =>
          SetStateKeepsInvariant(c, before, a, state);
          SetStateBalances(c, before, a, state, m);
      }
    }
  }
}
