// The directory and a snooping MESI system run on the same requests: what they agree on, and
// exactly where evictions make them differ.
module DirectoryVsSnooping {
  import opened Snooping
  import opened ProtocolSimulation
  import opened Directory
  import Mesi

  // What an action on a line does to its directory entry. An evicting cache reports the
  // line Invalid.
  function NextEntry(e: Entry, a: Action): Entry
    requires -ID_LIMIT <= e.owner
  {
    match a
    case Read(p) => AfterRequest(e, p, ReadRequest)
    case Write(p, _) => AfterRequest(e, p, WriteRequest)
    case Evict(p) => AfterDrop(e, p)
  }

  function RunEntry(actions: seq<Action>): (e: Entry)
    ensures -ID_LIMIT <= e.owner
  {
    if actions == [] then EMPTY_ENTRY else
    var m := |actions| - 1;
    NextEntry(RunEntry(actions[..m]), actions[m])
  }

  // The holders a write by `p` must invalidate.
  ghost function ValidOthers(copies: seq<Mesi.State>, p: nat): set<nat> {
    set q: nat | q < |copies| && q != p && Mesi.IsValid(copies[q])
  }

  ghost predicate MesiExclusion(copies: seq<Mesi.State>) {
    forall i, j :: 0 <= i < |copies| && 0 <= j < |copies| && i != j && copies[i] in {Mesi.Modified, Mesi.Exclusive}
      ==> copies[j] == Mesi.Invalid
  }

  lemma {:induction false} RunMesiExcludes(n: nat, actions: seq<Action>)
    requires InRange(actions, n)
    ensures MesiExclusion(RunMesi(n, actions))
  {
    forall i, j | 0 <= i < n && 0 <= j < n && i != j
      ensures RunMesi(n, actions)[i] in {Mesi.Modified, Mesi.Exclusive} ==> RunMesi(n, actions)[j] == Mesi.Invalid
    {
      ExclusionShows(n, actions, i, j);
    }
  }

  // ---------- Without evictions ----------

  ghost predicate NoEvictions(actions: seq<Action>) {
    forall i :: 0 <= i < |actions| ==> !actions[i].Evict?
  }

  // Entry and copies describe the same holders, and the entry's fields fit its state.
  ghost predicate Agrees(e: Entry, copies: seq<Mesi.State>) {
    && (forall p: nat :: p < |copies| ==> LineState(e, p) == copies[p])
    && (match e.state
        case Invalid => e.owner == NO_OWNER && e.sharers == {}
        case Shared => e.owner == NO_OWNER && (exists q :: q in e.sharers) && forall q :: q in e.sharers ==> q < |copies|
        case _ => EntryOk(e) && AsId(e.owner) < |copies| && e.sharers == {})
  }

  lemma {:induction false} ReadAgrees(e: Entry, copies: seq<Mesi.State>, p: nat)
    requires Agrees(e, copies) && p < |copies| <= PHANTOM
    ensures Agrees(NextEntry(e, Read(p)), NextMesi(copies, Read(p)))
  {
    match e.state {
      case Invalid => assert !MesiOthersValid(copies, p);
      case Shared =>
        var q :| q in e.sharers;
        assert LineState(e, q) == Mesi.Shared == copies[q];
      case Modified =>
        var q := AsId(e.owner);
        assert LineState(e, q) == copies[q];
        assert q in NextEntry(e, Read(p)).sharers || q == p;
      case Exclusive =>
        var q := AsId(e.owner);
        assert LineState(e, q) == copies[q];
        assert q in NextEntry(e, Read(p)).sharers || q == p;
    }
  }

  lemma {:induction false} WriteAgrees(e: Entry, copies: seq<Mesi.State>, p: nat, v: int)
    requires Agrees(e, copies) && p < |copies| <= PHANTOM
    ensures Agrees(NextEntry(e, Write(p, v)), NextMesi(copies, Write(p, v)))
  {
  }

  lemma {:induction false} InvalidatesHolders(e: Entry, copies: seq<Mesi.State>, p: nat)
    requires Agrees(e, copies) && p < |copies| <= PHANTOM
    ensures Invalidated(e, p, WriteRequest) == ValidOthers(copies, p)
  {
    forall q: nat
      ensures q in Invalidated(e, p, WriteRequest) <==> q in ValidOthers(copies, p)
    {
      if q < |copies| {
        assert LineState(e, q) == copies[q];
      }
    }
  }

  lemma {:induction false} RunAgrees(n: nat, actions: seq<Action>)
    requires InRange(actions, n) && n <= PHANTOM && NoEvictions(actions)
    ensures Agrees(RunEntry(actions), RunMesi(n, actions))
  {
    if actions != [] {
      var m := |actions| - 1;
      RunAgrees(n, actions[..m]);
      match actions[m] {
        case Read(p) => ReadAgrees(RunEntry(actions[..m]), RunMesi(n, actions[..m]), p);
        case Write(p, v) => WriteAgrees(RunEntry(actions[..m]), RunMesi(n, actions[..m]), p, v);
        case Evict(_) => assert false;
      }
    }
  }

  // For every run of reads and writes the directory reports each processor's snooping MESI
  // state, and a further write is told to invalidate exactly the other holders.
  lemma {:induction false} DirectoryIsSnooping(n: nat, actions: seq<Action>, p: nat)
    requires InRange(actions, n) && n <= PHANTOM && NoEvictions(actions) && p < n
    ensures LineState(RunEntry(actions), p) == RunMesi(n, actions)[p]
    ensures Invalidated(RunEntry(actions), p, WriteRequest) == ValidOthers(RunMesi(n, actions), p)
  {
    RunAgrees(n, actions);
    InvalidatesHolders(RunEntry(actions), RunMesi(n, actions), p);
  }

  // ---------- With evictions ----------

  // As `Agrees`, except that a sole holder's Exclusive may be recorded as Shared, the owner
  // may have been dropped, and the dropped owner may sit among the sharers as a phantom.
  ghost predicate NearlyAgrees(e: Entry, copies: seq<Mesi.State>) {
    && (forall p: nat :: p < |copies| ==>
          LineState(e, p) == copies[p] || (LineState(e, p) == Mesi.Shared && copies[p] == Mesi.Exclusive))
    && (match e.state
        case Invalid => e.owner == NO_OWNER && e.sharers == {}
        case Shared => e.owner == NO_OWNER && forall q :: q in e.sharers ==> q < |copies| || q == PHANTOM
        case _ => EntryOk(e) && (AsId(e.owner) < |copies| || e.owner == NO_OWNER) && e.sharers == {})
  }

  lemma {:induction false} ReadNearlyAgrees(e: Entry, copies: seq<Mesi.State>, p: nat)
    requires NearlyAgrees(e, copies) && MesiExclusion(copies) && p < |copies| <= PHANTOM
    ensures NearlyAgrees(NextEntry(e, Read(p)), NextMesi(copies, Read(p)))
  {
    var e', copies' := NextEntry(e, Read(p)), NextMesi(copies, Read(p));
    match e.state {
      case Invalid => assert !MesiOthersValid(copies, p);
      case _ =>
    }
    forall q: nat | q < |copies|
      ensures LineState(e', q) == copies'[q] || (LineState(e', q) == Mesi.Shared && copies'[q] == Mesi.Exclusive)
    {
      assert LineState(e, q) == copies[q] || (LineState(e, q) == Mesi.Shared && copies[q] == Mesi.Exclusive);
      assert LineState(e, p) == copies[p] || (LineState(e, p) == Mesi.Shared && copies[p] == Mesi.Exclusive);
      assert q != p && copies[q] == Mesi.Exclusive ==> copies[p] == Mesi.Invalid;
    }
  }

  lemma {:induction false} WriteNearlyAgrees(e: Entry, copies: seq<Mesi.State>, p: nat, v: int)
    requires NearlyAgrees(e, copies) && p < |copies| <= PHANTOM
    ensures NearlyAgrees(NextEntry(e, Write(p, v)), NextMesi(copies, Write(p, v)))
  {
  }

  lemma {:induction false} EvictNearlyAgrees(e: Entry, copies: seq<Mesi.State>, p: nat)
    requires NearlyAgrees(e, copies) && p < |copies| <= PHANTOM
    ensures NearlyAgrees(NextEntry(e, Evict(p)), NextMesi(copies, Evict(p)))
  {
  }

  lemma {:induction false} RunNearlyAgrees(n: nat, actions: seq<Action>)
    requires InRange(actions, n) && n <= PHANTOM
    ensures NearlyAgrees(RunEntry(actions), RunMesi(n, actions))
  {
    if actions != [] {
      var m := |actions| - 1;
      RunNearlyAgrees(n, actions[..m]);
      RunMesiExcludes(n, actions[..m]);
      match actions[m] {
        case Read(p) => ReadNearlyAgrees(RunEntry(actions[..m]), RunMesi(n, actions[..m]), p);
        case Write(p, v) => WriteNearlyAgrees(RunEntry(actions[..m]), RunMesi(n, actions[..m]), p, v);
        case Evict(p) => EvictNearlyAgrees(RunEntry(actions[..m]), RunMesi(n, actions[..m]), p);
      }
    }
  }

  // With evictions the directory differs from snooping only by S for a sole holder's E, and
  // a write still invalidates every other holder and no processor besides.
  lemma {:induction false} DirectoryNearlySnooping(n: nat, actions: seq<Action>, p: nat)
    requires InRange(actions, n) && n <= PHANTOM && p < n
    ensures var dir, snoop := LineState(RunEntry(actions), p), RunMesi(n, actions)[p];
            dir == snoop ||
            (dir == Mesi.Shared && snoop == Mesi.Exclusive && ValidOthers(RunMesi(n, actions), p) == {})
    ensures Invalidated(RunEntry(actions), p, WriteRequest) - {PHANTOM} == ValidOthers(RunMesi(n, actions), p)
  {
    RunNearlyAgrees(n, actions);
    RunMesiExcludes(n, actions);
    var e, copies := RunEntry(actions), RunMesi(n, actions);
    forall q: nat
      ensures q in Invalidated(e, p, WriteRequest) - {PHANTOM} <==> q in ValidOthers(copies, p)
    {
      if q < n {
        assert LineState(e, q) == copies[q] || (LineState(e, q) == Mesi.Shared && copies[q] == Mesi.Exclusive);
      }
    }
  }

  ghost predicate NoRequests(actions: seq<Action>) {
    forall i :: 0 <= i < |actions| ==> actions[i].Evict?
  }

  // The line's first request was a read by `p`, only `p` has requested it since, and `p` has
  // not evicted it.
  ghost predicate Pristine(actions: seq<Action>, p: nat) {
    if actions == [] then false else
    var m := |actions| - 1;
    match actions[m]
    case Read(q) => q == p && (Pristine(actions[..m], p) || NoRequests(actions[..m]))
    case Write(_, _) => false
    case Evict(q) => q != p && Pristine(actions[..m], p)
  }

  lemma {:induction false} ExclusiveOnlyWhenPristine(n: nat, actions: seq<Action>, p: nat)
    requires InRange(actions, n) && n <= PHANTOM && p < n
    ensures LineState(RunEntry(actions), p) == Mesi.Exclusive <==> Pristine(actions, p)
    ensures RunEntry(actions).state == Mesi.Invalid <==> NoRequests(actions)
  {
    if actions != [] {
      var m := |actions| - 1;
      ExclusiveOnlyWhenPristine(n, actions[..m], p);
      RunNearlyAgrees(n, actions[..m]);
      assert NoRequests(actions) <==> NoRequests(actions[..m]) && actions[m].Evict?;
    }
  }

  // The exact difference: the directory misreports a processor when snooping has it
  // Exclusive but it is not the only one ever to have requested the line, uninterrupted.
  lemma {:induction false} DirectoryDiffersIff(n: nat, actions: seq<Action>, p: nat)
    requires InRange(actions, n) && n <= PHANTOM && p < n
    ensures LineState(RunEntry(actions), p) != RunMesi(n, actions)[p]
       <==> RunMesi(n, actions)[p] == Mesi.Exclusive && !Pristine(actions, p)
  {
    DirectoryNearlySnooping(n, actions, p);
    ExclusiveOnlyWhenPristine(n, actions, p);
  }

  // ---------- The phantom ----------

  // Since the last write, an owner in E or M was dropped.
  ghost predicate OwnerLost(actions: seq<Action>) {
    if actions == [] then false else
    var m := |actions| - 1;
    match actions[m]
    case Read(_) => OwnerLost(actions[..m])
    case Write(_, _) => false
    case Evict(p) =>
      OwnerLost(actions[..m]) || LineState(RunEntry(actions[..m]), p) in {Mesi.Exclusive, Mesi.Modified}
  }

  ghost predicate HasPhantom(e: Entry) {
    ((e.state == Mesi.Exclusive || e.state == Mesi.Modified) && e.owner == NO_OWNER)
    || (e.state == Mesi.Shared && PHANTOM in e.sharers)
  }

  lemma {:induction false} PhantomIsLostOwner(n: nat, actions: seq<Action>)
    requires InRange(actions, n) && n <= PHANTOM
    ensures HasPhantom(RunEntry(actions)) <==> OwnerLost(actions)
  {
    if actions != [] {
      var m := |actions| - 1;
      PhantomIsLostOwner(n, actions[..m]);
      RunNearlyAgrees(n, actions[..m]);
    }
  }

  // A write is told to invalidate processor 2^32 - 1 exactly when an owner was dropped since
  // the last write.
  lemma {:induction false} PhantomInvalidatedIff(n: nat, actions: seq<Action>, p: nat)
    requires InRange(actions, n) && n <= PHANTOM && p < n
    ensures PHANTOM in Invalidated(RunEntry(actions), p, WriteRequest) <==> OwnerLost(actions)
  {
    PhantomIsLostOwner(n, actions);
    RunNearlyAgrees(n, actions);
  }

  // A run where the directory and snooping differ, and the phantom is to be invalidated.
  lemma {:induction false} EvictionLosesExclusive()
    ensures var actions := [Read(0), Evict(0), Read(1)];
            && InRange(actions, 2)
            && LineState(RunEntry(actions), 1) == Mesi.Shared
            && RunMesi(2, actions)[1] == Mesi.Exclusive
            && PHANTOM in Invalidated(RunEntry(actions), 0, WriteRequest)
  {
    var a1, a2, a3 := [Read(0)], [Read(0), Evict(0)], [Read(0), Evict(0), Read(1)];
    assert a1[..0] == [] && a2[..1] == a1 && a3[..2] == a2;
    assert RunEntry(a1) == Entry(Mesi.Exclusive, 0, {}, false);
    assert RunEntry(a2) == Entry(Mesi.Exclusive, NO_OWNER, {}, false);
    assert !MesiOthersValid(RunMesi(2, a2), 1) by {
      assert RunMesi(2, a1)[1] == Mesi.Invalid;
    }
  }

  // ---------- Caches that obey the directory ----------

  // A cache takes the state granted to its own request, becomes Invalid when told to, and
  // shares its line when it was the owner and another processor reads.
  function NextObedient(caches: seq<Mesi.State>, e: Entry, a: Action): (r: seq<Mesi.State>)
    requires a.p < |caches| && -ID_LIMIT <= e.owner
    ensures |r| == |caches|
  {
    seq(|caches|, j requires 0 <= j < |caches| =>
      match a
      case Read(p) =>
        if j == p then Granted(e, p, ReadRequest)
        else if Signed(j) == e.owner then Mesi.RemoteRead(caches[j]) else caches[j]
      case Write(p, _) =>
        if j == p then Granted(e, p, WriteRequest)
        else if j in Invalidated(e, p, WriteRequest) then Mesi.RemoteWrite(caches[j]) else caches[j]
      case Evict(p) => if j == p then Mesi.Evict(caches[j]) else caches[j])
  }

  function RunObedient(n: nat, actions: seq<Action>): (r: seq<Mesi.State>)
    requires InRange(actions, n)
    ensures |r| == n
  {
    if actions == [] then seq(n, _ => Mesi.Invalid) else
    var m := |actions| - 1;
    NextObedient(RunObedient(n, actions[..m]), RunEntry(actions[..m]), actions[m])
  }

  // The directory always reports the state an obedient cache is in, evictions included.
  lemma {:induction false} DirectoryTracksObedientCaches(n: nat, actions: seq<Action>)
    requires InRange(actions, n) && n <= PHANTOM
    ensures forall p: nat :: p < n ==> LineState(RunEntry(actions), p) == RunObedient(n, actions)[p]
  {
    if actions != [] {
      var m := |actions| - 1;
      DirectoryTracksObedientCaches(n, actions[..m]);
      RunNearlyAgrees(n, actions[..m]);
      ObedientStep(RunObedient(n, actions[..m]), RunEntry(actions[..m]), RunMesi(n, actions[..m]), actions[m]);
    }
  }

  lemma {:induction false} ObedientStep(caches: seq<Mesi.State>, e: Entry, copies: seq<Mesi.State>, a: Action)
    requires NearlyAgrees(e, copies) && |caches| == |copies| <= PHANTOM && a.p < |caches|
    requires forall p: nat :: p < |caches| ==> LineState(e, p) == caches[p]
    ensures forall p: nat :: p < |caches| ==> LineState(NextEntry(e, a), p) == NextObedient(caches, e, a)[p]
  {
  }

  // ---------- All lines at once ----------

  datatype LineAction = On(address: nat, action: Action)

  // The directory after a mixed sequence of requests and evictions on many lines.
  function RunDirectory(all: seq<LineAction>): (d: map<nat, Entry>)
    ensures forall a :: a in d ==> -ID_LIMIT <= d[a].owner
  {
    if all == [] then map[] else
    var m := |all| - 1;
    var before := RunDirectory(all[..m]);
    before[all[m].address := NextEntry(Lookup(before, all[m].address), all[m].action)]
  }

  function ActionsAt(all: seq<LineAction>, address: nat): seq<Action> {
    if all == [] then [] else
    var m := |all| - 1;
    ActionsAt(all[..m], address) + (if all[m].address == address then [all[m].action] else [])
  }

  // Lines do not interfere: each entry depends only on the actions on its own address.
  lemma {:induction false} LinesAreIndependent(all: seq<LineAction>, address: nat)
    ensures Lookup(RunDirectory(all), address) == RunEntry(ActionsAt(all, address))
  {
    if all != [] {
      var m := |all| - 1;
      LinesAreIndependent(all[..m], address);
      var before := ActionsAt(all[..m], address);
      if all[m].address == address {
        assert (before + [all[m].action])[..|before|] == before;
      } else {
        assert before + [] == before;
      }
    }
  }
}
