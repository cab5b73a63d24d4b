// What directory requests cost, told by the snooping system alone, and what the requests beside
// reads and writes do: which notices an invalidation sends, and when a line is dirty.
module DirectoryCosts {
  import opened MachineIntegers
  import opened Arithmetic
  import opened Snooping
  import opened ProtocolSimulation
  import opened Directory
  import opened DirectoryVsSnooping
  import Mesi

  // ---------- Hops ----------

  // Some other cache is in Modified or Exclusive.
  ghost predicate HeldAloneElsewhere(copies: seq<Mesi.State>, p: nat) {
    exists q: nat :: q < |copies| && q != p && copies[q] in {Mesi.Modified, Mesi.Exclusive}
  }

  // Each processor is sent one notice.
  lemma {:induction false} OneNoticeEach(e: Entry, p: nat)
    requires EntryOk(e) && (e.state == Mesi.Shared ==> e.owner == NO_OWNER)
    ensures NoticesFor(e, p, WriteRequest) == |Invalidated(e, p, WriteRequest)|
  {
    if e.state == Mesi.Shared {
      assert OtherHolders(e, p) == e.sharers - {p};
    }
  }

  // Without evictions a read takes a further hop if and only if another cache is in Modified or
  // Exclusive under snooping, and a write takes one for each other valid copy.
  lemma {:induction false} HopsOfSnooping(n: nat, actions: seq<Action>, p: nat)
    requires InRange(actions, n) && n <= PHANTOM && NoEvictions(actions) && p < n
    ensures ExtraHops(RunEntry(actions), p, ReadRequest) == Flag(HeldAloneElsewhere(RunMesi(n, actions), p))
    ensures ExtraHops(RunEntry(actions), p, WriteRequest) == |ValidOthers(RunMesi(n, actions), p)|
  {
    var e, copies := RunEntry(actions), RunMesi(n, actions);
    RunAgrees(n, actions);
    DirectoryIsSnooping(n, actions, p);
    OneNoticeEach(e, p);
    if q: nat :| q < n && q != p && copies[q] in {Mesi.Modified, Mesi.Exclusive} {
      assert LineState(e, q) == copies[q];
    }
    if TakesFromOwner(e, p) {
      assert LineState(e, AsId(e.owner)) == copies[AsId(e.owner)];
    }
  }

  // Since the last read or write an owner in E or M was dropped.
  ghost predicate OwnerMissing(actions: seq<Action>) {
    if actions == [] then false else
    var m := |actions| - 1;
    match actions[m]
    case Evict(p) => OwnerMissing(actions[..m]) || LineState(RunEntry(actions[..m]), p) in {Mesi.Exclusive, Mesi.Modified}
    case _ => false
  }

  lemma {:induction false} MissingIffOwnerless(n: nat, actions: seq<Action>)
    requires InRange(actions, n) && n <= PHANTOM
    ensures var e := RunEntry(actions);
            OwnerMissing(actions) <==> e.state in {Mesi.Exclusive, Mesi.Modified} && e.owner == NO_OWNER
  {
    if actions != [] {
      var m := |actions| - 1;
      MissingIffOwnerless(n, actions[..m]);
      RunNearlyAgrees(n, actions[..m]);
    }
  }

  // The directory's sole holder: Modified under snooping, or Exclusive and the only one ever to have
  // requested the line.
  ghost predicate RecordedAlone(n: nat, actions: seq<Action>, q: nat)
    requires InRange(actions, n) && q < n
  {
    RunMesi(n, actions)[q] == Mesi.Modified || (RunMesi(n, actions)[q] == Mesi.Exclusive && Pristine(actions, q))
  }

  // With evictions a read takes the further hop if and only if another cache is so recorded, or the
  // owner is missing; a write takes one for each other valid copy, and one for the phantom if an
  // owner was dropped since the last write.
  lemma {:induction false} HopsWithEvictions(n: nat, actions: seq<Action>, p: nat)
    requires InRange(actions, n) && n <= PHANTOM && p < n
    ensures ExtraHops(RunEntry(actions), p, ReadRequest)
         == Flag(OwnerMissing(actions) || exists q: nat :: q < n && q != p && RecordedAlone(n, actions, q))
    ensures ExtraHops(RunEntry(actions), p, WriteRequest)
         == |ValidOthers(RunMesi(n, actions), p)| + Flag(OwnerLost(actions))
  {
    var e := RunEntry(actions);
    RunNearlyAgrees(n, actions);
    MissingIffOwnerless(n, actions);
    ReadHopsWithEvictions(n, actions, p);
    WriteHopsWithEvictions(n, actions, p);
  }

  lemma {:induction false} RecordedIffShown(n: nat, actions: seq<Action>, q: nat)
    requires InRange(actions, n) && n <= PHANTOM && q < n
    ensures RecordedAlone(n, actions, q) <==> LineState(RunEntry(actions), q) in {Mesi.Modified, Mesi.Exclusive}
  {
    DirectoryNearlySnooping(n, actions, q);
    DirectoryDiffersIff(n, actions, q);
  }

  lemma {:induction false} ReadHopsWithEvictions(n: nat, actions: seq<Action>, p: nat)
    requires InRange(actions, n) && n <= PHANTOM && p < n && NearlyAgrees(RunEntry(actions), RunMesi(n, actions))
    requires var e := RunEntry(actions);
             OwnerMissing(actions) <==> e.state in {Mesi.Exclusive, Mesi.Modified} && e.owner == NO_OWNER
    ensures TakesFromOwner(RunEntry(actions), p)
       <==> OwnerMissing(actions) || exists q: nat :: q < n && q != p && RecordedAlone(n, actions, q)
  {
    hide RunMesi, RunEntry, RecordedAlone, OwnerMissing;
    var e := RunEntry(actions);
    if TakesFromOwner(e, p) && e.owner != NO_OWNER {
      var q := AsId(e.owner);
      RecordedIffShown(n, actions, q);
      assert q < n && q != p && RecordedAlone(n, actions, q);
    }
    if q: nat :| q < n && q != p && RecordedAlone(n, actions, q) {
      RecordedIffShown(n, actions, q);
    }
  }

  lemma {:induction false} WriteHopsWithEvictions(n: nat, actions: seq<Action>, p: nat)
    requires InRange(actions, n) && n <= PHANTOM && p < n && NearlyAgrees(RunEntry(actions), RunMesi(n, actions))
    ensures NoticesFor(RunEntry(actions), p, WriteRequest)
         == |ValidOthers(RunMesi(n, actions), p)| + Flag(OwnerLost(actions))
  {
    var e := RunEntry(actions);
    OneNoticeEach(e, p);
    DirectoryNearlySnooping(n, actions, p);
    PhantomInvalidatedIff(n, actions, p);
    OneMore(Invalidated(e, p, WriteRequest), ValidOthers(RunMesi(n, actions), p), PHANTOM);
    hide *;
  }

  lemma {:induction false} OneMore(told: set<nat>, others: set<nat>, x: nat)
    requires told - {x} == others
    ensures |told| == |others| + if x in told then 1 else 0
  {
    assert told == if x in told then others + {x} else others;
  }

  // ---------- Every kind of request ----------

  // A request of any kind, or a report that a processor has dropped the line.
  datatype Op = Ask(p: nat, kind: RequestType) | Drop(p: nat)

  ghost predicate IdsFit(ops: seq<Op>) {
    forall i :: 0 <= i < |ops| ==> ops[i].p < PHANTOM
  }

  function RunOps(ops: seq<Op>): (e: Entry)
    ensures -ID_LIMIT <= e.owner
  {
    if ops == [] then EMPTY_ENTRY else
    var m := |ops| - 1;
    match ops[m]
    case Ask(p, kind) => AfterRequest(RunOps(ops[..m]), p, kind)
    case Drop(p) => AfterDrop(RunOps(ops[..m]), p)
  }

  // Owners go with E and M, sharers with S.
  ghost predicate Tidy(e: Entry) {
    && EntryOk(e)
    && (e.state in {Mesi.Invalid, Mesi.Shared} ==> e.owner == NO_OWNER)
    && (e.state != Mesi.Shared ==> e.sharers == {})
  }

  lemma {:induction false} RunIsTidy(ops: seq<Op>)
    requires IdsFit(ops)
    ensures Tidy(RunOps(ops))
  {
    if ops != [] {
      RunIsTidy(ops[..|ops| - 1]);
    }
  }

  // Reads, writes and invalidations are always granted, write-backs to the processor the directory
  // shows in Exclusive or Modified, and nothing else.
  lemma {:induction false} GrantedIff(ops: seq<Op>, p: nat, kind: RequestType)
    requires IdsFit(ops) && p < PHANTOM
    ensures var owns := LineState(RunOps(ops), p) in {Mesi.Exclusive, Mesi.Modified};
            var granted := kind in {ReadRequest, WriteRequest, InvalidateRequest} || (kind == WritebackRequest && owns);
            Grants(RunOps(ops), p, kind) <==> granted
  {
    RunIsTidy(ops);
  }

  // A write has been requested, and no write-back granted since.
  ghost predicate WrittenSince(ops: seq<Op>) {
    if ops == [] then false else
    var m := |ops| - 1;
    if ops[m].Ask? && ops[m].kind == WriteRequest then true
    else if ops[m].Ask? && ops[m].kind == WritebackRequest &&
            LineState(RunOps(ops[..m]), ops[m].p) in {Mesi.Exclusive, Mesi.Modified} then false
    else WrittenSince(ops[..m])
  }

  // The directory's dirty flag says exactly that.
  lemma {:induction false} DirtyIffWritten(ops: seq<Op>)
    requires IdsFit(ops)
    ensures RunOps(ops).dirty <==> WrittenSince(ops)
  {
    if ops != [] {
      var m := |ops| - 1;
      DirtyIffWritten(ops[..m]);
      RunIsTidy(ops[..m]);
    }
  }

  // After an invalidation request the directory shows no holder. It is told to all other holders
  // but an owner with an id from 2^31 on, which reads as a negative number, and to the phantom if
  // that is a sharer.
  lemma {:induction false} InvalidationTellsHolders(ops: seq<Op>, p: nat, q: nat)
    requires IdsFit(ops) && p < PHANTOM && q < PHANTOM
    ensures var e := RunOps(ops);
      var tells := q != p && LineState(e, q) != Mesi.Invalid && (LineState(e, q) == Mesi.Shared || q < ID_LIMIT);
      && LineState(AfterRequest(e, p, InvalidateRequest), q) == Mesi.Invalid
      && (q in Invalidated(e, p, InvalidateRequest) <==> tells)
      && NoticesFor(e, p, InvalidateRequest) == |Invalidated(e, p, InvalidateRequest)|
      && ExtraHops(e, p, InvalidateRequest) == 0
  {
    RunIsTidy(ops);
    var e := RunOps(ops);
    if e.state == Mesi.Shared {
      assert OtherHolders(e, p) == e.sharers - {p};
    } else {
      assert e.sharers - {p} == {};
    }
  }

  // Requests to share or flush, and those to write back, change no state the directory shows.
  lemma {:induction false} OtherRequestsShowNothing(e: Entry, p: nat, kind: RequestType, q: nat)
    requires EntryOk(e) && kind in {ShareRequest, FlushRequest, WritebackRequest}
    ensures LineState(AfterRequest(e, p, kind), q) == LineState(e, q)
    ensures Invalidated(e, p, kind) == {} && ExtraHops(e, p, kind) == 0
    ensures kind != WritebackRequest ==> AfterRequest(e, p, kind) == e && !Grants(e, p, kind)
  {
  }
}
