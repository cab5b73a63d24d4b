// A fixed pool of workers on one FIFO task queue, running configuration tasks that enqueue
// chunk tasks on the same pool and wait for them.
module ThreadPool {
  import opened Arithmetic
  import Recency

  // ---------- States ----------

  datatype Task = Config(i: nat) | Chunk(i: nat, j: nat)

  // A running configuration task has enqueued `sent` of its chunks and collected `got` results.
  // A thread that has enqueued a task and released the lock has yet to notify.
  datatype Worker =
    | Sleeping
    | Ready
    | RunConfig(i: nat, sent: nat, got: nat, notifying: bool)
    | RunChunk(i: nat, j: nat)

  // `chunks[i]` is the number of chunks of configuration i; the main thread has enqueued the
  // first `enqueued` configurations; `started` lists the tasks taken off the queue so far.
  datatype Pool = Pool(chunks: seq<nat>, enqueued: nat, notifying: bool, queue: seq<Task>, workers: seq<Worker>,
                       started: seq<Task>, done: set<Task>)

  datatype Action =
    | MainEnqueue
    | MainNotify(woken: int)
    | Pop(w: nat)
    | Sleep(w: nat)
    | SendChunk(w: nat)
    | Notify(w: nat, woken: int)
    | Collect(w: nat)
    | FinishConfig(w: nat)
    | FinishChunk(w: nat)
    | SpuriousWake(w: nat)

  ghost predicate Start(s: Pool) {
    && s.enqueued == 0 && !s.notifying && s.queue == [] && s.started == [] && s.done == {}
    && forall w :: 0 <= w < |s.workers| ==> s.workers[w] == Ready
  }

  // Waking one sleeper, if there is one.
  ghost predicate Wakes(before: seq<Worker>, woken: int, after: seq<Worker>) {
    if exists w :: 0 <= w < |before| && before[w] == Sleeping
    then 0 <= woken < |before| && before[woken] == Sleeping && after == before[woken := Ready]
    else woken == -1 && after == before
  }

  function Starting(t: Task): Worker {
    match t
    case Config(i) => RunConfig(i, 0, 0, false)
    case Chunk(i, j) => RunChunk(i, j)
  }

  // A configuration task that owes no notification.
  predicate Proceeding(s: Pool, w: Worker) {
    w.RunConfig? && w.i < |s.chunks| && !w.notifying
  }

  ghost predicate Next(s: Pool, a: Action, s': Pool) {
    match a
    case MainEnqueue =>
      && s.enqueued < |s.chunks| && !s.notifying
      && s' == s.(enqueued := s.enqueued + 1, queue := s.queue + [Config(s.enqueued)], notifying := true)
    case MainNotify(woken) =>
      && s.notifying
      && s' == s.(notifying := false, workers := s'.workers) && Wakes(s.workers, woken, s'.workers)
    case Pop(w) =>
      && w < |s.workers| && s.workers[w] == Ready && s.queue != []
      && s' == s.(queue := s.queue[1..], started := s.started + [s.queue[0]],
                  workers := s.workers[w := Starting(s.queue[0])])
    case Sleep(w) =>
      && w < |s.workers| && s.workers[w] == Ready && s.queue == []
      && s' == s.(workers := s.workers[w := Sleeping])
    case SendChunk(w) =>
      && w < |s.workers| && Proceeding(s, s.workers[w])
      && s.workers[w].sent < s.chunks[s.workers[w].i]
      && s' == s.(queue := s.queue + [Chunk(s.workers[w].i, s.workers[w].sent)],
                  workers := s.workers[w := s.workers[w].(sent := s.workers[w].sent + 1, notifying := true)])
    case Notify(w, woken) =>
      && w < |s.workers| && s.workers[w].RunConfig? && s.workers[w].notifying
      && s' == s.(workers := s'.workers) && Wakes(s.workers[w := s.workers[w].(notifying := false)], woken, s'.workers)
    case Collect(w) =>
      && w < |s.workers| && Proceeding(s, s.workers[w])
      && s.workers[w].got < s.workers[w].sent == s.chunks[s.workers[w].i]
      && Chunk(s.workers[w].i, s.workers[w].got) in s.done
      && s' == s.(workers := s.workers[w := s.workers[w].(got := s.workers[w].got + 1)])
    case FinishConfig(w) =>
      && w < |s.workers| && Proceeding(s, s.workers[w])
      && s.workers[w].got == s.workers[w].sent == s.chunks[s.workers[w].i]
      && s' == s.(workers := s.workers[w := Ready], done := s.done + {Config(s.workers[w].i)})
    case FinishChunk(w) =>
      && w < |s.workers| && s.workers[w].RunChunk?
      && s' == s.(workers := s.workers[w := Ready], done := s.done + {Chunk(s.workers[w].i, s.workers[w].j)})
    case SpuriousWake(w) =>
      && w < |s.workers| && s.workers[w] == Sleeping
      && s' == s.(workers := s.workers[w := Ready])
  }

  ghost predicate IsRun(states: seq<Pool>, actions: seq<Action>) {
    && |states| == |actions| + 1
    && Start(states[0])
    && forall k :: 0 <= k < |actions| ==> Next(states[k], actions[k], states[k + 1])
  }

  ghost predicate Finished(s: Pool) {
    forall i :: 0 <= i < |s.chunks| ==> Config(i) in s.done
  }

  ghost predicate Enabled(s: Pool) {
    exists a, s' :: Next(s, a, s') && !a.SpuriousWake?
  }

  // ---------- Wake-ups ----------

  function ReadyCount(ws: seq<Worker>): (n: nat)
    ensures n <= |ws|
  {
    if ws == [] then 0 else
    var k := |ws| - 1;
    ReadyCount(ws[..k]) + Flag(ws[k] == Ready)
  }

  ghost predicate SomeSleeping(ws: seq<Worker>) {
    exists w :: 0 <= w < |ws| && ws[w] == Sleeping
  }

  // Threads that have enqueued a task and not yet notified.
  function Owing(ws: seq<Worker>): nat {
    if ws == [] then 0 else
    var k := |ws| - 1;
    Owing(ws[..k]) + Flag(Owes(ws[k]))
  }

  predicate Owes(w: Worker) {
    w.RunConfig? && w.notifying
  }

  // While a worker sleeps, every queued task has a ready worker or a pending notification of its own.
  ghost predicate NoLostWake(s: Pool) {
    SomeSleeping(s.workers) ==> ReadyCount(s.workers) + Owing(s.workers) + Flag(s.notifying) >= |s.queue|
  }

  lemma {:induction false} ReadyUpdate(ws: seq<Worker>, w: nat, x: Worker)
    requires w < |ws|
    ensures ReadyCount(ws[w := x]) == ReadyCount(ws) + Flag(x == Ready) - Flag(ws[w] == Ready)
    ensures Owing(ws[w := x]) == Owing(ws) + Flag(Owes(x)) - Flag(Owes(ws[w]))
  {
    var k := |ws| - 1;
    if w == k {
      assert ws[w := x][..k] == ws[..k];
    } else {
      assert ws[w := x][..k] == ws[..k][w := x];
      ReadyUpdate(ws[..k], w, x);
    }
  }

  lemma {:induction false} WakeKept(before: seq<Worker>, woken: int, after: seq<Worker>)
    requires Wakes(before, woken, after)
    ensures SomeSleeping(after) ==> SomeSleeping(before) && ReadyCount(after) == ReadyCount(before) + 1
    ensures |after| == |before| && Owing(after) == Owing(before)
  {
    if 0 <= woken < |before| {
      ReadyUpdate(before, woken, Ready);
    }
  }

  lemma {:induction false} NoLostWakeKept(s: Pool, a: Action, s': Pool)
    requires NoLostWake(s) && Next(s, a, s')
    ensures NoLostWake(s')
  {
    match a {
      case MainEnqueue =>
      case MainNotify(woken) => WakeKept(s.workers, woken, s'.workers);
      case Notify(w, woken) => NotifyKept(s, w, woken, s');
      case Sleep(w) => ReadyUpdate(s.workers, w, Sleeping);
      case _ => WorkerKept(s, a, s');
    }
    hide ReadyCount, Owing, SomeSleeping, Wakes;
  }

  lemma {:induction false} NotifyKept(s: Pool, w: nat, woken: int, s': Pool)
    requires NoLostWake(s) && Next(s, Notify(w, woken), s')
    ensures NoLostWake(s')
  {
    hide ReadyCount, Owing, SomeSleeping, Wakes;
    var x := s.workers[w].(notifying := false);
    ReadyUpdate(s.workers, w, x);
    WakeKept(s.workers[w := x], woken, s'.workers);
    StillAsleep(s.workers, w, x);
  }

  // A step of one worker that sends nobody to sleep.
  lemma {:induction false} WorkerKept(s: Pool, a: Action, s': Pool)
    requires NoLostWake(s) && Next(s, a, s')
    requires a.Pop? || a.SendChunk? || a.Collect? || a.FinishConfig? || a.FinishChunk? || a.SpuriousWake?
    ensures NoLostWake(s')
  {
    hide ReadyCount, Owing, SomeSleeping;
    ReadyUpdate(s.workers, a.w, s'.workers[a.w]);
    StillAsleep(s.workers, a.w, s'.workers[a.w]);
  }

  lemma {:induction false} StillAsleep(ws: seq<Worker>, w: nat, x: Worker)
    requires w < |ws| && x != Sleeping
    ensures SomeSleeping(ws[w := x]) ==> SomeSleeping(ws)
  {
    var after := ws[w := x];
    if v :| 0 <= v < |after| && after[v] == Sleeping {
      assert ws[v] == Sleeping;
    }
  }

  // ---------- Every task at most once ----------

  // Worker w is running task t.
  predicate Runs(w: Worker, t: Task) {
    match w
    case RunConfig(i, _, _, _) => t == Config(i)
    case RunChunk(i, j) => t == Chunk(i, j)
    case _ => false
  }

  ghost predicate Running(ws: seq<Worker>, t: Task) {
    exists w :: 0 <= w < |ws| && Runs(ws[w], t)
  }

  // Every task created so far: started ones, then queued ones.
  ghost function Known(s: Pool): seq<Task> {
    s.started + s.queue
  }

  ghost predicate CreatedOnce(s: Pool) {
    && s.enqueued <= |s.chunks|
    && Recency.Distinct(Known(s))
    && (forall i: nat :: Config(i) in Known(s) <==> i < s.enqueued)
    && (forall i: nat, j: nat :: Chunk(i, j) in Known(s) ==>
          i < |s.chunks| && j < s.chunks[i] && Config(i) in s.started)
  }

  // Started tasks are running, each at one worker, or done.
  ghost predicate StartedOnce(s: Pool) {
    && (forall t :: t in s.started <==> t in s.done || Running(s.workers, t))
    && (forall w, t :: 0 <= w < |s.workers| && Runs(s.workers[w], t) ==> t !in s.done)
    && (forall v, w, t :: 0 <= v < w < |s.workers| && Runs(s.workers[v], t) ==> !Runs(s.workers[w], t))
  }

  // A running configuration task has created exactly the chunks it counts as sent, and the
  // results it counts as collected exist.
  ghost predicate ConfigOk(s: Pool, w: Worker)
    requires w.RunConfig?
  {
    && w.i < |s.chunks| && w.got <= w.sent <= s.chunks[w.i]
    && (w.got > 0 ==> w.sent == s.chunks[w.i])
    && (forall j: nat :: Chunk(w.i, j) in Known(s) <==> j < w.sent)
    && (forall j: nat :: j < w.got ==> Chunk(w.i, j) in s.done)
  }

  ghost predicate ConfigsOk(s: Pool) {
    && (forall w :: 0 <= w < |s.workers| && s.workers[w].RunConfig? ==> ConfigOk(s, s.workers[w]))
    && (forall i: nat, j: nat :: i < |s.chunks| && j < s.chunks[i] && Config(i) in s.done ==> Chunk(i, j) in s.done)
  }

  ghost predicate Consistent(s: Pool) {
    CreatedOnce(s) && StartedOnce(s) && ConfigsOk(s) && NoLostWake(s)
  }

  // A worker that runs the same task before and after a step.
  ghost predicate SameTasks(before: seq<Worker>, after: seq<Worker>) {
    |before| == |after| && forall w, t :: 0 <= w < |before| ==> (Runs(after[w], t) <==> Runs(before[w], t))
  }

  lemma {:induction false} SameTasksStartedOnce(s: Pool, s': Pool)
    requires StartedOnce(s) && SameTasks(s.workers, s'.workers) && s'.started == s.started && s'.done == s.done
    ensures StartedOnce(s')
  {
    forall t
      ensures Running(s'.workers, t) <==> Running(s.workers, t)
    {
      if w :| 0 <= w < |s.workers| && Runs(s.workers[w], t) {
        assert Runs(s'.workers[w], t);
      }
      if w :| 0 <= w < |s.workers| && Runs(s'.workers[w], t) {
        assert Runs(s.workers[w], t);
      }
    }
  }

  lemma {:induction false} MainKeeps(s: Pool, s': Pool)
    requires Consistent(s) && Next(s, MainEnqueue, s')
    ensures CreatedOnce(s') && StartedOnce(s') && ConfigsOk(s')
  {
    var t := Config(s.enqueued);
    Recency.DistinctSnoc(Known(s), t);
    assert Known(s') == Known(s) + [t];
    SameTasksStartedOnce(s, s');
    forall w | 0 <= w < |s'.workers| && s'.workers[w].RunConfig?
      ensures ConfigOk(s', s'.workers[w])
    {
      assert ConfigOk(s, s.workers[w]);
    }
  }

  lemma {:induction false} PopStartsFresh(s: Pool, w: nat, s': Pool)
    requires Consistent(s) && Next(s, Pop(w), s')
    ensures Known(s') == Known(s) && s.queue[0] !in s.started
  {
    assert s.queue == [s.queue[0]] + s.queue[1..];
    assert Known(s)[|s.started|] == s.queue[0];
    forall k | 0 <= k < |s.started|
      ensures s.started[k] != s.queue[0]
    {
      assert Known(s)[k] == s.started[k];
    }
  }

  lemma {:induction false} PopKeepsStarted(s: Pool, w: nat, s': Pool)
    requires Consistent(s) && Next(s, Pop(w), s')
    ensures CreatedOnce(s') && StartedOnce(s')
  {
    var t := s.queue[0];
    PopStartsFresh(s, w, s');
    assert forall u :: Runs(Starting(t), u) <==> u == t;
    assert Runs(s'.workers[w], t);
    forall u
      ensures Running(s'.workers, u) <==> Running(s.workers, u) || u == t
    {
      if v :| 0 <= v < |s.workers| && Runs(s.workers[v], u) {
        assert Runs(s'.workers[v], u);
      }
      if v :| 0 <= v < |s.workers| && Runs(s'.workers[v], u) {
        assert v == w || Runs(s.workers[v], u);
      }
    }
    assert t !in s.done && !Running(s.workers, t);
    assert forall v :: 0 <= v < |s.workers| ==> !Runs(s.workers[v], t);
  }

  lemma {:induction false} PopKeepsConfigs(s: Pool, w: nat, s': Pool)
    requires Consistent(s) && Next(s, Pop(w), s')
    ensures ConfigsOk(s')
  {
    PopStartsFresh(s, w, s');
    var t := s.queue[0];
    forall v | 0 <= v < |s'.workers| && s'.workers[v].RunConfig?
      ensures ConfigOk(s', s'.workers[v])
    {
      if v == w {
        assert t in Known(s);
      } else {
        assert ConfigOk(s, s.workers[v]);
      }
    }
  }

  // A step that changes only who is awake and who owes a notification.
  lemma {:induction false} WakingKeeps(s: Pool, a: Action, s': Pool)
    requires Consistent(s) && Next(s, a, s') && (a.Sleep? || a.SpuriousWake? || a.MainNotify? || a.Notify?)
    ensures CreatedOnce(s') && StartedOnce(s') && ConfigsOk(s')
  {
    WakingChanges(s, a, s');
    hide Next;
    SameTasksStartedOnce(s, s');
    WakingKeepsConfigs(s, s');
  }

  // What such a step leaves as it is.
  ghost predicate OnlyWaking(s: Pool, s': Pool) {
    && s' == s.(notifying := s'.notifying, workers := s'.workers) && |s'.workers| == |s.workers|
    && forall w :: 0 <= w < |s.workers| ==>
         if s.workers[w].RunConfig? then s'.workers[w] == s.workers[w].(notifying := s'.workers[w].RunConfig? && s'.workers[w].notifying)
         else !s'.workers[w].RunConfig? && (s.workers[w].RunChunk? || s'.workers[w].RunChunk? ==> s'.workers[w] == s.workers[w])
  }

  lemma {:induction false} WakingChanges(s: Pool, a: Action, s': Pool)
    requires Next(s, a, s') && (a.Sleep? || a.SpuriousWake? || a.MainNotify? || a.Notify?)
    ensures OnlyWaking(s, s') && SameTasks(s.workers, s'.workers)
  {
  }

  lemma {:induction false} WakingKeepsConfigs(s: Pool, s': Pool)
    requires ConfigsOk(s) && OnlyWaking(s, s')
    ensures ConfigsOk(s')
  {
    assert Known(s') == Known(s);
    forall v | 0 <= v < |s'.workers| && s'.workers[v].RunConfig?
      ensures ConfigOk(s', s'.workers[v])
    {
      assert ConfigOk(s, s.workers[v]);
    }
  }

  lemma {:induction false} SendKeeps(s: Pool, w: nat, s': Pool)
    requires Consistent(s) && Next(s, SendChunk(w), s')
    ensures CreatedOnce(s') && StartedOnce(s') && ConfigsOk(s')
  {
    var me := s.workers[w];
    var t := Chunk(me.i, me.sent);
    assert ConfigOk(s, me) && Runs(me, Config(me.i));
    assert Running(s.workers, Config(me.i));
    Recency.DistinctSnoc(Known(s), t);
    assert Known(s') == Known(s) + [t];
    SameTasksStartedOnce(s, s');
    forall v | 0 <= v < |s'.workers| && s'.workers[v].RunConfig?
      ensures ConfigOk(s', s'.workers[v])
    {
      assert ConfigOk(s, s.workers[v]);
      if v != w {
        assert Runs(s.workers[v], Config(s.workers[v].i));
        assert s.workers[v].i != me.i;
      }
    }
  }

  lemma {:induction false} CollectKeeps(s: Pool, w: nat, s': Pool)
    requires Consistent(s) && Next(s, Collect(w), s')
    ensures CreatedOnce(s') && StartedOnce(s') && ConfigsOk(s')
  {
    SameTasksStartedOnce(s, s');
    forall v | 0 <= v < |s'.workers| && s'.workers[v].RunConfig?
      ensures ConfigOk(s', s'.workers[v])
    {
      assert ConfigOk(s, s.workers[v]);
    }
  }

  // Finishing a task moves it from a worker to the finished ones.
  lemma {:induction false} FinishKeepsStarted(s: Pool, w: nat, t: Task, s': Pool)
    requires StartedOnce(s) && w < |s.workers| && Runs(s.workers[w], t)
    requires s' == s.(workers := s.workers[w := Ready], done := s.done + {t})
    ensures StartedOnce(s')
  {
    forall u
      ensures u in s'.started <==> u in s'.done || Running(s'.workers, u)
    {
      if v :| 0 <= v < |s.workers| && Runs(s.workers[v], u) {
        assert v == w || Runs(s'.workers[v], u);
      }
      if v :| 0 <= v < |s.workers| && Runs(s'.workers[v], u) {
        assert Runs(s.workers[v], u);
      }
      assert Runs(s.workers[w], t);
    }
  }

  lemma {:induction false} FinishKeeps(s: Pool, w: nat, s': Pool)
    requires Consistent(s) && (Next(s, FinishConfig(w), s') || Next(s, FinishChunk(w), s'))
    ensures CreatedOnce(s') && StartedOnce(s') && ConfigsOk(s')
  {
    var t := if s.workers[w].RunConfig? then Config(s.workers[w].i) else Chunk(s.workers[w].i, s.workers[w].j);
    FinishKeepsStarted(s, w, t, s');
    if s.workers[w].RunConfig? {
      assert ConfigOk(s, s.workers[w]);
    }
    forall v | 0 <= v < |s'.workers| && s'.workers[v].RunConfig?
      ensures ConfigOk(s', s'.workers[v])
    {
      assert ConfigOk(s, s.workers[v]);
    }
  }

  lemma {:induction false} ConsistentKept(s: Pool, a: Action, s': Pool)
    requires Consistent(s) && Next(s, a, s')
    ensures Consistent(s')
  {
    NoLostWakeKept(s, a, s');
    match a {
      case MainEnqueue => MainKeeps(s, s');
      case Pop(w) =>
        PopKeepsStarted(s, w, s');
        PopKeepsConfigs(s, w, s');
      case SendChunk(w) => SendKeeps(s, w, s');
      case Collect(w) => CollectKeeps(s, w, s');
      case FinishConfig(w) => FinishKeeps(s, w, s');
      case FinishChunk(w) => FinishKeeps(s, w, s');
      case _ => WakingKeeps(s, a, s');
    }
  }

  lemma {:induction false} StartConsistent(s: Pool)
    requires Start(s)
    ensures Consistent(s)
  {
    assert forall t :: !Running(s.workers, t);
    assert !SomeSleeping(s.workers);
  }

  lemma {:induction false} RunConsistent(states: seq<Pool>, actions: seq<Action>)
    requires IsRun(states, actions)
    ensures Consistent(states[|actions|])
    ensures states[|actions|].chunks == states[0].chunks && |states[|actions|].workers| == |states[0].workers|
  {
    if actions == [] {
      StartConsistent(states[0]);
    } else {
      var k := |actions| - 1;
      RunConsistent(states[..k + 1], actions[..k]);
      assert Next(states[k], actions[k], states[k + 1]);
      ConsistentKept(states[k], actions[k], states[k + 1]);
    }
  }

  // ---------- No deadlock with more workers than non-empty configurations ----------

  // The configurations with at least one chunk.
  ghost function Busy(chunks: seq<nat>): set<nat> {
    set i: nat | i < |chunks| && chunks[i] > 0
  }

  // The configurations the workers run.
  ghost function ConfigIds(ws: seq<Worker>): (ids: set<nat>)
    ensures forall i :: i in ids ==> exists w :: 0 <= w < |ws| && ws[w].RunConfig? && ws[w].i == i
  {
    if ws == [] then {} else
    var k := |ws| - 1;
    ConfigIds(ws[..k]) + (if ws[k].RunConfig? then {ws[k].i} else {})
  }

  lemma {:induction false} AllConfigsDistinct(ws: seq<Worker>)
    requires forall w :: 0 <= w < |ws| ==> ws[w].RunConfig?
    requires forall v, w :: 0 <= v < w < |ws| ==> ws[v].i != ws[w].i
    ensures |ConfigIds(ws)| == |ws|
  {
    if ws != [] {
      var k := |ws| - 1;
      AllConfigsDistinct(ws[..k]);
      assert ws[k].i !in ConfigIds(ws[..k]);
    }
  }

  // A worker that runs a non-empty configuration.
  predicate RunsBusy(s: Pool, w: Worker) {
    w.RunConfig? && w.i < |s.chunks| && s.chunks[w.i] > 0
  }

  lemma {:induction false} SomeWorkerFree(s: Pool)
    requires Consistent(s) && |Busy(s.chunks)| < |s.workers|
    ensures exists w :: 0 <= w < |s.workers| && !RunsBusy(s, s.workers[w])
  {
    if forall w :: 0 <= w < |s.workers| ==> RunsBusy(s, s.workers[w]) {
      forall v, w | 0 <= v < w < |s.workers|
        ensures s.workers[v].i != s.workers[w].i
      {
        assert Runs(s.workers[v], Config(s.workers[v].i));
        assert Runs(s.workers[w], Config(s.workers[w].i));
      }
      AllConfigsDistinct(s.workers);
      Recency.SubsetCount(ConfigIds(s.workers), Busy(s.chunks));
    }
  }

  lemma {:induction false} EnabledBy(s: Pool, a: Action, s': Pool)
    requires Next(s, a, s') && !a.SpuriousWake?
    ensures Enabled(s)
  {
  }

  lemma {:induction false} WakeExists(ws: seq<Worker>) returns (woken: int, after: seq<Worker>)
    ensures Wakes(ws, woken, after)
  {
    woken, after := -1, ws;
    if w :| 0 <= w < |ws| && ws[w] == Sleeping {
      woken, after := w, ws[w := Ready];
    }
  }

  lemma {:induction false} MainEnabled(s: Pool)
    requires s.enqueued < |s.chunks| || s.notifying
    ensures Enabled(s)
  {
    if s.notifying {
      var woken, after := WakeExists(s.workers);
      EnabledBy(s, MainNotify(woken), s.(notifying := false, workers := after));
    } else {
      EnabledBy(s, MainEnqueue, s.(enqueued := s.enqueued + 1, queue := s.queue + [Config(s.enqueued)], notifying := true));
    }
  }

  // A configuration task that waits for a chunk not yet done.
  predicate Waits(s: Pool, w: Worker) {
    Proceeding(s, w) && w.got < w.sent == s.chunks[w.i] && Chunk(w.i, w.got) !in s.done
  }

  // Every other worker that is awake can move.
  lemma {:induction false} WorkerEnabled(s: Pool, w: nat)
    requires Consistent(s) && w < |s.workers| && !s.workers[w].Sleeping? && !Waits(s, s.workers[w])
    ensures Enabled(s)
  {
    match s.workers[w] {
      case Ready =>
        if s.queue == [] {
          EnabledBy(s, Sleep(w), s.(workers := s.workers[w := Sleeping]));
        } else {
          EnabledBy(s, Pop(w), s.(queue := s.queue[1..], started := s.started + [s.queue[0]],
                                  workers := s.workers[w := Starting(s.queue[0])]));
        }
      case RunChunk(i, j) =>
        EnabledBy(s, FinishChunk(w), s.(workers := s.workers[w := Ready], done := s.done + {Chunk(i, j)}));
      case RunConfig(_, _, _, _) => ConfigEnabled(s, w);
    }
  }

  lemma {:induction false} ConfigEnabled(s: Pool, w: nat)
    requires Consistent(s) && w < |s.workers| && s.workers[w].RunConfig? && !Waits(s, s.workers[w])
    ensures Enabled(s)
  {
    var me := s.workers[w];
    assert ConfigOk(s, me);
    if me.notifying {
      var woken, after := WakeExists(s.workers[w := me.(notifying := false)]);
      EnabledBy(s, Notify(w, woken), s.(workers := after));
    } else if me.sent < s.chunks[me.i] {
      EnabledBy(s, SendChunk(w), s.(queue := s.queue + [Chunk(me.i, me.sent)],
                                    workers := s.workers[w := me.(sent := me.sent + 1, notifying := true)]));
    } else if me.got == me.sent {
      EnabledBy(s, FinishConfig(w), s.(workers := s.workers[w := Ready], done := s.done + {Config(me.i)}));
    } else {
      EnabledBy(s, Collect(w), s.(workers := s.workers[w := me.(got := me.got + 1)]));
    }
  }

  // In a pool where nothing can move every worker waits for a chunk or sleeps, and the main
  // thread has enqueued everything; if the pool is unfinished a task is queued.
  lemma {:induction false} BlockedHasQueue(s: Pool)
    requires Consistent(s) && !Enabled(s)
    ensures !s.notifying && forall w :: 0 <= w < |s.workers| ==> Waits(s, s.workers[w]) || s.workers[w].Sleeping?
    ensures !Finished(s) ==> s.queue != []
  {
    if s.enqueued < |s.chunks| || s.notifying {
      MainEnabled(s);
    }
    forall w | 0 <= w < |s.workers|
      ensures Waits(s, s.workers[w]) || s.workers[w].Sleeping?
    {
      if !Waits(s, s.workers[w]) && !s.workers[w].Sleeping? {
        WorkerEnabled(s, w);
      }
    }
    if !Finished(s) {
      var i: nat :| i < |s.chunks| && Config(i) !in s.done;
      assert Config(i) in Known(s);
      if Config(i) in s.started {
        var w :| 0 <= w < |s.workers| && Runs(s.workers[w], Config(i));
        WaitedChunkQueued(s, w);
      }
    }
  }

  lemma {:induction false} WaitedChunkQueued(s: Pool, w: nat)
    requires Consistent(s) && w < |s.workers| && Waits(s, s.workers[w])
    requires forall v :: 0 <= v < |s.workers| ==> Waits(s, s.workers[v]) || s.workers[v].Sleeping?
    ensures s.queue != []
  {
    var t := Chunk(s.workers[w].i, s.workers[w].got);
    assert ConfigOk(s, s.workers[w]);
    assert t in Known(s);
    assert forall v :: 0 <= v < |s.workers| ==> !Runs(s.workers[v], t);
    assert !Running(s.workers, t);
    assert t !in s.started;
  }

  lemma {:induction false} NoneReady(ws: seq<Worker>)
    requires forall w :: 0 <= w < |ws| ==> !ws[w].Ready? && !Owes(ws[w])
    ensures ReadyCount(ws) == 0 && Owing(ws) == 0
  {
    if ws != [] {
      NoneReady(ws[..|ws| - 1]);
    }
  }

  // With more workers than non-empty configurations, every reachable unfinished state has a step
  // that does not depend on a spurious wake-up.
  lemma {:induction false} NoDeadlock(states: seq<Pool>, actions: seq<Action>)
    requires IsRun(states, actions)
    requires |Busy(states[0].chunks)| < |states[0].workers|
    requires !Finished(states[|actions|])
    ensures Enabled(states[|actions|])
  {
    var s := states[|actions|];
    RunConsistent(states, actions);
    if !Enabled(s) {
      BlockedHasQueue(s);
      SomeWorkerFree(s);
      NoneReady(s.workers);
    }
  }

  // ---------- Every step makes progress ----------

  // Work left in a task, counting the steps it still needs.
  function TaskWork(chunks: seq<nat>, t: Task): nat {
    match t
    case Config(i) => if i < |chunks| then 2 + 6 * chunks[i] else 0
    case Chunk(_, _) => 2
  }

  function WorkerWork(chunks: seq<nat>, w: Worker): int {
    match w
    case Sleeping => 0
    case Ready => 1
    case RunConfig(i, sent, got, notifying) =>
      (if i < |chunks| then 2 + (chunks[i] - got) + 5 * (chunks[i] - sent) else 0) + 2 * Flag(notifying)
    case RunChunk(_, _) => 2
  }

  function MainWork(chunks: seq<nat>, enqueued: nat): nat
    requires enqueued <= |chunks|
    decreases |chunks| - enqueued
  {
    if enqueued == |chunks| then 0 else 3 + TaskWork(chunks, Config(enqueued)) + MainWork(chunks, enqueued + 1)
  }

  function QueueWork(chunks: seq<nat>, queue: seq<Task>): nat {
    if queue == [] then 0 else
    var k := |queue| - 1;
    QueueWork(chunks, queue[..k]) + TaskWork(chunks, queue[k])
  }

  function WorkersWork(chunks: seq<nat>, ws: seq<Worker>): int {
    if ws == [] then 0 else
    var k := |ws| - 1;
    WorkersWork(chunks, ws[..k]) + WorkerWork(chunks, ws[k])
  }

  function WorkLeft(s: Pool): int
    requires s.enqueued <= |s.chunks|
  {
    MainWork(s.chunks, s.enqueued) + 2 * Flag(s.notifying) + QueueWork(s.chunks, s.queue) + WorkersWork(s.chunks, s.workers)
  }

  lemma {:induction false} WorkersUpdate(chunks: seq<nat>, ws: seq<Worker>, w: nat, x: Worker)
    requires w < |ws|
    ensures WorkersWork(chunks, ws[w := x])
         == WorkersWork(chunks, ws) + WorkerWork(chunks, x) - WorkerWork(chunks, ws[w])
  {
    var k := |ws| - 1;
    if w == k {
      assert ws[w := x][..k] == ws[..k];
    } else {
      assert ws[w := x][..k] == ws[..k][w := x];
      WorkersUpdate(chunks, ws[..k], w, x);
    }
  }

  lemma {:induction false} QueuePop(chunks: seq<nat>, queue: seq<Task>)
    requires queue != []
    ensures QueueWork(chunks, queue) == TaskWork(chunks, queue[0]) + QueueWork(chunks, queue[1..])
  {
    var k := |queue| - 1;
    if k > 0 {
      QueuePop(chunks, queue[..k]);
      assert queue[..k][1..] == queue[1..][..k - 1];
    } else {
      assert queue[..0] == [] && queue[1..] == [];
    }
  }

  lemma {:induction false} QueuePush(chunks: seq<nat>, queue: seq<Task>, t: Task)
    ensures QueueWork(chunks, queue + [t]) == QueueWork(chunks, queue) + TaskWork(chunks, t)
  {
    assert (queue + [t])[..|queue|] == queue;
  }

  lemma {:induction false} WakeWork(chunks: seq<nat>, before: seq<Worker>, woken: int, after: seq<Worker>)
    requires Wakes(before, woken, after)
    ensures WorkersWork(chunks, after) <= WorkersWork(chunks, before) + 1
  {
    if 0 <= woken < |before| {
      WorkersUpdate(chunks, before, woken, Ready);
    }
  }

  lemma {:induction false} WorkersWorkNatural(s: Pool, k: nat)
    requires Consistent(s) && k <= |s.workers|
    ensures WorkersWork(s.chunks, s.workers[..k]) >= 0
  {
    if k > 0 {
      WorkersWorkNatural(s, k - 1);
      assert s.workers[..k][..k - 1] == s.workers[..k - 1];
      if s.workers[k - 1].RunConfig? {
        assert ConfigOk(s, s.workers[k - 1]);
      }
    }
  }

  lemma {:induction false} MainReducesWork(s: Pool, a: Action, s': Pool)
    requires Next(s, a, s') && (a.MainEnqueue? || a.MainNotify?) && s.enqueued <= |s.chunks|
    ensures WorkLeft(s') < WorkLeft(s)
  {
    if a.MainEnqueue? {
      QueuePush(s.chunks, s.queue, Config(s.enqueued));
    } else {
      WakeWork(s.chunks, s.workers, a.woken, s'.workers);
    }
  }

  lemma {:induction false} PopReducesWork(s: Pool, w: nat, s': Pool)
    requires CreatedOnce(s) && Next(s, Pop(w), s')
    ensures WorkLeft(s') < WorkLeft(s)
  {
    assert s.queue[0] in Known(s);
    QueuePop(s.chunks, s.queue);
    WorkersUpdate(s.chunks, s.workers, w, Starting(s.queue[0]));
  }

  lemma {:induction false} SendReducesWork(s: Pool, w: nat, s': Pool)
    requires s.enqueued <= |s.chunks| && Next(s, SendChunk(w), s')
    ensures WorkLeft(s') < WorkLeft(s)
  {
    QueuePush(s.chunks, s.queue, Chunk(s.workers[w].i, s.workers[w].sent));
    WorkersUpdate(s.chunks, s.workers, w, s'.workers[w]);
  }

  lemma {:induction false} NotifyReducesWork(s: Pool, w: nat, woken: int, s': Pool)
    requires s.enqueued <= |s.chunks| && Next(s, Notify(w, woken), s')
    ensures WorkLeft(s') < WorkLeft(s)
  {
    var x := s.workers[w].(notifying := false);
    WorkersUpdate(s.chunks, s.workers, w, x);
    WakeWork(s.chunks, s.workers[w := x], woken, s'.workers);
  }

  lemma {:induction false} OtherWork(s: Pool, a: Action, s': Pool)
    requires s.enqueued <= |s.chunks| && Next(s, a, s')
    requires a.Sleep? || a.Collect? || a.FinishConfig? || a.FinishChunk? || a.SpuriousWake?
    ensures if a.SpuriousWake? then WorkLeft(s') == WorkLeft(s) + 1 else WorkLeft(s') < WorkLeft(s)
  {
    WorkersUpdate(s.chunks, s.workers, a.w, s'.workers[a.w]);
  }

  // The work left is never negative and every step but a spurious wake-up reduces it.
  lemma {:induction false} StepReducesWork(s: Pool, a: Action, s': Pool)
    requires Consistent(s) && Next(s, a, s')
    ensures Consistent(s') && 0 <= WorkLeft(s')
    ensures if a.SpuriousWake? then WorkLeft(s') == WorkLeft(s) + 1 else WorkLeft(s') < WorkLeft(s)
  {
    hide WorkersWork, QueueWork, Wakes;
    ConsistentKept(s, a, s');
    assert s'.workers[..|s'.workers|] == s'.workers;
    WorkersWorkNatural(s', |s'.workers|);
    match a {
      case MainEnqueue => MainReducesWork(s, a, s');
      case MainNotify(_) => MainReducesWork(s, a, s');
      case Pop(w) => PopReducesWork(s, w, s');
      case SendChunk(w) => SendReducesWork(s, w, s');
      case Notify(w, woken) => NotifyReducesWork(s, w, woken, s');
      case _ => OtherWork(s, a, s');
    }
  }

  function Spurious(actions: seq<Action>): nat {
    if actions == [] then 0 else
    var k := |actions| - 1;
    Spurious(actions[..k]) + (if actions[k].SpuriousWake? then 1 else 0)
  }

  // Bound on the length of any run.
  lemma {:induction false} RunsAreBounded(states: seq<Pool>, actions: seq<Action>)
    requires IsRun(states, actions)
    ensures Consistent(states[|actions|]) && states[0].enqueued == 0
    ensures 0 <= WorkLeft(states[|actions|])
    ensures |actions| + WorkLeft(states[|actions|])
         <= MainWork(states[0].chunks, 0) + |states[0].workers| + 2 * Spurious(actions)
  {
    if actions == [] {
      StartConsistent(states[0]);
      assert states[0].workers[..|states[0].workers|] == states[0].workers;
      WorkersWorkNatural(states[0], |states[0].workers|);
      ReadyWork(states[0].chunks, states[0].workers);
    } else {
      var k := |actions| - 1;
      RunsAreBounded(states[..k + 1], actions[..k]);
      assert Next(states[k], actions[k], states[k + 1]);
      StepReducesWork(states[k], actions[k], states[k + 1]);
    }
  }

  lemma {:induction false} ReadyWork(chunks: seq<nat>, ws: seq<Worker>)
    requires forall w :: 0 <= w < |ws| ==> ws[w] == Ready
    ensures WorkersWork(chunks, ws) == |ws|
  {
    if ws != [] {
      ReadyWork(chunks, ws[..|ws| - 1]);
    }
  }

  // At any point of any run no task was started twice; once finished, every configuration
  // and every chunk has been started and completed.
  lemma {:induction false} EachTaskRunsOnce(states: seq<Pool>, actions: seq<Action>)
    requires IsRun(states, actions)
    ensures var s := states[|actions|];
            && Recency.Distinct(s.started)
            && (forall i: nat, j: nat :: Chunk(i, j) in s.started ==> i < |s.chunks| && j < s.chunks[i])
            && (Finished(s) ==>
                  (forall i: nat :: i < |s.chunks| ==> Config(i) in s.started) &&
                  (forall i: nat, j: nat :: i < |s.chunks| && j < s.chunks[i] ==>
                     Chunk(i, j) in s.started && Chunk(i, j) in s.done))
  {
    RunConsistent(states, actions);
    var s := states[|actions|];
    forall k, l | 0 <= k < l < |s.started|
      ensures s.started[k] != s.started[l]
    {
      assert Known(s)[k] == s.started[k] && Known(s)[l] == s.started[l];
    }
    assert forall t :: t in s.started ==> t in Known(s);
  }

  // The tasks of a run in the order of their enqueueing.
  ghost function Created(states: seq<Pool>, actions: seq<Action>): seq<Task>
    requires IsRun(states, actions)
  {
    if actions == [] then [] else
    var m := |actions| - 1;
    assert Next(states[m], actions[m], states[m + 1]);
    Created(states[..m + 1], actions[..m]) +
      match actions[m]
      case MainEnqueue => [Config(states[m].enqueued)]
      case SendChunk(w) => [Chunk(states[m].workers[w].i, states[m].workers[w].sent)]
      case _ => []
  }

  // Whichever workers take them, tasks start in the order of their enqueueing.
  lemma {:induction false} StartsInOrder(states: seq<Pool>, actions: seq<Action>)
    requires IsRun(states, actions)
    ensures var s, created := states[|actions|], Created(states, actions);
            |s.started| <= |created| && s.started == created[..|s.started|] && s.queue == created[|s.started|..]
  {
    KnownIsCreated(states, actions);
    hide Created, IsRun;
  }

  lemma {:induction false} KnownIsCreated(states: seq<Pool>, actions: seq<Action>)
    requires IsRun(states, actions)
    ensures Known(states[|actions|]) == Created(states, actions)
  {
    if actions != [] {
      var m := |actions| - 1;
      KnownIsCreated(states[..m + 1], actions[..m]);
      KnownGrows(states[m], actions[m], states[m + 1]);
      hide Next, Known;
    }
  }

  lemma {:induction false} KnownGrows(s: Pool, a: Action, s': Pool)
    requires Next(s, a, s')
    ensures Known(s') == Known(s) + match a
      case MainEnqueue => [Config(s.enqueued)]
      case SendChunk(w) => [Chunk(s.workers[w].i, s.workers[w].sent)]
      case _ => []
  {
    hide Wakes;
    if a.Pop? {
      assert s.queue == [s.queue[0]] + s.queue[1..];
    }
  }

  // ---------- A deadlock with no more workers than non-empty configurations ----------

  function Configs(k: nat): (r: seq<Task>)
    ensures |r| == k && forall i :: 0 <= i < k ==> r[i] == Config(i)
  {
    seq(k, i requires 0 <= i < k => Config(i))
  }

  ghost predicate RunTo(states: seq<Pool>, actions: seq<Action>, chunks: seq<nat>, workers: nat) {
    IsRun(states, actions) && states[0].chunks == chunks && |states[0].workers| == workers
  }

  lemma {:induction false} OneMore(states: seq<Pool>, actions: seq<Action>, chunks: seq<nat>, workers: nat, a: Action, s': Pool)
    returns (longer: seq<Pool>, more: seq<Action>)
    requires RunTo(states, actions, chunks, workers) && Next(states[|actions|], a, s')
    ensures RunTo(longer, more, chunks, workers) && longer[|more|] == s'
  {
    longer, more := states + [s'], actions + [a];
    hide Next;
  }

  // The main thread enqueues k configurations before any worker moves.
  lemma {:induction false} MainPhase(chunks: seq<nat>, workers: nat, k: nat) returns (states: seq<Pool>, actions: seq<Action>)
    requires k <= |chunks|
    ensures RunTo(states, actions, chunks, workers)
    ensures states[|actions|] == Pool(chunks, k, false, Configs(k), seq(workers, _ => Ready), [], {})
  {
    var ready := seq(workers, _ => Ready);
    if k == 0 {
      states, actions := [Pool(chunks, 0, false, Configs(0), ready, [], {})], [];
    } else {
      states, actions := MainPhase(chunks, workers, k - 1);
      var s' := Pool(chunks, k, true, Configs(k), ready, [], {});
      assert Configs(k) == Configs(k - 1) + [Config(k - 1)];
      states, actions := OneMore(states, actions, chunks, workers, MainEnqueue, s');
      states, actions := OneMore(states, actions, chunks, workers, MainNotify(-1), s'.(notifying := false));
    }
  }

  // The non-empty ones among the first p configurations, in order.
  function Held(chunks: seq<nat>, p: nat): (r: seq<nat>)
    requires p <= |chunks|
    ensures forall w :: 0 <= w < |r| ==> r[w] < p && chunks[r[w]] > 0
  {
    if p == 0 then [] else Held(chunks, p - 1) + if chunks[p - 1] > 0 then [p - 1] else []
  }

  // The empty ones.
  function Emptied(chunks: seq<nat>, p: nat): (r: set<Task>)
    requires p <= |chunks|
    ensures forall t :: t in r ==> t.Config? && t.i < p && chunks[t.i] == 0
  {
    if p == 0 then {} else Emptied(chunks, p - 1) + if chunks[p - 1] > 0 then {} else {Config(p - 1)}
  }

  function Taken(workers: nat, held: seq<nat>): (r: seq<Worker>)
    requires |held| <= workers
    ensures |r| == workers
    ensures forall w :: 0 <= w < workers ==> r[w] == if w < |held| then RunConfig(held[w], 0, 0, false) else Ready
  {
    seq(workers, w requires 0 <= w < workers => if w < |held| then RunConfig(held[w], 0, 0, false) else Ready)
  }

  // The first p configurations have been taken: each non-empty one by a worker of its own, which
  // has not begun to send, each empty one by a worker that has finished it.
  function AllTaken(chunks: seq<nat>, workers: nat, p: nat): Pool
    requires p <= |chunks| && |Held(chunks, p)| <= workers
  {
    Pool(chunks, |chunks|, false, Configs(|chunks|)[p..], Taken(workers, Held(chunks, p)), Configs(|chunks|)[..p],
         Emptied(chunks, p))
  }

  // The worker after those that hold configurations.
  function Popped(chunks: seq<nat>, workers: nat, p: nat): Pool
    requires p < |chunks| && |Held(chunks, p)| < workers
  {
    var s, w := AllTaken(chunks, workers, p), |Held(chunks, p)|;
    s.(queue := s.queue[1..], started := s.started + [Config(p)], workers := s.workers[w := RunConfig(p, 0, 0, false)])
  }

  lemma {:induction false} PopNext(chunks: seq<nat>, workers: nat, p: nat)
    requires p < |chunks| && |Held(chunks, p)| < workers
    ensures Next(AllTaken(chunks, workers, p), Pop(|Held(chunks, p)|), Popped(chunks, workers, p))
  {
    hide Held, Emptied;
  }

  lemma {:induction false} PoppedBusy(chunks: seq<nat>, workers: nat, p: nat)
    requires p < |chunks| && |Held(chunks, p)| < workers && chunks[p] > 0
    ensures Popped(chunks, workers, p) == AllTaken(chunks, workers, p + 1)
  {
    assert Held(chunks, p + 1) == Held(chunks, p) + [p];
    assert Popped(chunks, workers, p).workers == Taken(workers, Held(chunks, p + 1));
    hide Held;
  }

  lemma {:induction false} PoppedEmpty(chunks: seq<nat>, workers: nat, p: nat)
    requires p < |chunks| && |Held(chunks, p)| < workers && chunks[p] == 0
    ensures |Held(chunks, p + 1)| <= workers
    ensures Next(Popped(chunks, workers, p), FinishConfig(|Held(chunks, p)|), AllTaken(chunks, workers, p + 1))
  {
    assert Held(chunks, p + 1) == Held(chunks, p);
    var s, w := Popped(chunks, workers, p), |Held(chunks, p)|;
    assert s.workers[w := Ready] == Taken(workers, Held(chunks, p));
    assert s.done + {Config(p)} == Emptied(chunks, p + 1);
    hide Held, Emptied;
  }

  lemma {:induction false} PopPhase(chunks: seq<nat>, workers: nat, p: nat) returns (states: seq<Pool>, actions: seq<Action>)
    requires p <= |chunks| && |Held(chunks, p)| <= workers && (p > 0 ==> |Held(chunks, p - 1)| < workers)
    ensures RunTo(states, actions, chunks, workers)
    ensures states[|actions|] == AllTaken(chunks, workers, p)
  {
    if p == 0 {
      states, actions := MainPhase(chunks, workers, |chunks|);
      assert Taken(workers, []) == seq(workers, _ => Ready);
    } else {
      HeldGrows(chunks, p);
      states, actions := PopPhase(chunks, workers, p - 1);
      hide Next, RunTo, Held, Emptied, AllTaken, Popped;
      var w, popped := |Held(chunks, p - 1)|, Popped(chunks, workers, p - 1);
      PopNext(chunks, workers, p - 1);
      states, actions := OneMore(states, actions, chunks, workers, Pop(w), popped);
      if chunks[p - 1] > 0 {
        PoppedBusy(chunks, workers, p - 1);
      } else {
        PoppedEmpty(chunks, workers, p - 1);
        states, actions := OneMore(states, actions, chunks, workers, FinishConfig(w), AllTaken(chunks, workers, p));
      }
    }
  }

  lemma {:induction false} HeldGrows(chunks: seq<nat>, p: nat)
    requires 0 < p <= |chunks|
    ensures |Held(chunks, p - 1)| <= |Held(chunks, p)|
    ensures p > 1 ==> |Held(chunks, p - 2)| <= |Held(chunks, p - 1)|
  {
  }

  // Every worker holds its configuration; the first k have sent all their chunks, the next j.
  ghost predicate Waiting(s: Pool, chunks: seq<nat>, held: seq<nat>, k: nat, j: nat) {
    && s.chunks == chunks && s.enqueued == |chunks| && !s.notifying && |s.workers| == |held|
    && (forall w :: 0 <= w < |held| ==> held[w] < |chunks| && chunks[held[w]] > 0)
    && (forall t :: t in s.done ==> t.Config? && t.i < |chunks| && chunks[t.i] == 0)
    && (held == [] ==> s.done == {})
    && forall w :: 0 <= w < |held| ==>
         s.workers[w] == RunConfig(held[w], if w < k then chunks[held[w]] else if w == k then j else 0, 0, false)
  }

  lemma {:induction false} SendPhase(chunks: seq<nat>, p: nat, k: nat, j: nat) returns (states: seq<Pool>, actions: seq<Action>)
    requires p <= |chunks| && (p > 0 ==> |Held(chunks, p - 1)| < |Held(chunks, p)|)
    requires k <= |Held(chunks, p)| && j <= (if k < |Held(chunks, p)| then chunks[Held(chunks, p)[k]] else 0)
    ensures RunTo(states, actions, chunks, |Held(chunks, p)|)
    ensures Waiting(states[|actions|], chunks, Held(chunks, p), k, j)
    decreases k, j
  {
    var held := Held(chunks, p);
    if k == 0 && j == 0 {
      states, actions := PopPhase(chunks, |held|, p);
    } else if j == 0 {
      states, actions := SendPhase(chunks, p, k - 1, chunks[held[k - 1]]);
    } else {
      states, actions := SendPhase(chunks, p, k, j - 1);
      hide RunTo, Next, Held, Waiting;
      var sent, notified := SendNext(states[|actions|], chunks, held, k, j);
      states, actions := OneMore(states, actions, chunks, |held|, SendChunk(k), sent);
      states, actions := OneMore(states, actions, chunks, |held|, Notify(k, -1), notified);
    }
  }

  // Worker k enqueues one chunk more, and notifies nobody as nobody sleeps.
  lemma {:induction false} SendNext(s: Pool, chunks: seq<nat>, held: seq<nat>, k: nat, j: nat) returns (sent: Pool, notified: Pool)
    requires k < |held| && held[k] < |chunks| && 0 < j <= chunks[held[k]] && Waiting(s, chunks, held, k, j - 1)
    ensures Next(s, SendChunk(k), sent) && Next(sent, Notify(k, -1), notified)
    ensures Waiting(notified, chunks, held, k, j)
  {
    sent := s.(queue := s.queue + [Chunk(held[k], j - 1)], workers := s.workers[k := RunConfig(held[k], j, 0, true)]);
    notified := sent.(workers := sent.workers[k := RunConfig(held[k], j, 0, false)]);
  }

  lemma {:induction false} HeldCount(chunks: seq<nat>)
    ensures |Held(chunks, |chunks|)| == |Busy(chunks)|
  {
    var held := Held(chunks, |chunks|);
    HeldDistinct(chunks, |chunks|);
    Recency.DistinctCount(held);
    forall i: nat
      ensures i in Recency.Elems(held) <==> i in Busy(chunks)
    {
      if i in Busy(chunks) {
        HeldIfBusy(chunks, |chunks|, i);
      }
    }
    assert Recency.Elems(held) == Busy(chunks);
    hide Held, Recency.Distinct;
  }

  lemma {:induction false} HeldDistinct(chunks: seq<nat>, p: nat)
    requires p <= |chunks|
    ensures Recency.Distinct(Held(chunks, p))
  {
    hide Held;
    if p > 0 {
      HeldDistinct(chunks, p - 1);
      HeldStep(chunks, p);
      Recency.DistinctSnoc(Held(chunks, p - 1), p - 1);
    } else {
      NoneHeld(chunks);
    }
  }

  lemma {:induction false} NoneHeld(chunks: seq<nat>)
    ensures Recency.Distinct(Held(chunks, 0))
  {
  }

  lemma {:induction false} HeldIfBusy(chunks: seq<nat>, p: nat, i: nat)
    requires i < p <= |chunks| && chunks[i] > 0
    ensures i in Held(chunks, p)
  {
    HeldStep(chunks, p);
    if i < p - 1 {
      HeldIfBusy(chunks, p - 1, i);
    }
    hide Held;
  }

  lemma {:induction false} HeldStep(chunks: seq<nat>, p: nat)
    requires 0 < p <= |chunks|
    ensures Held(chunks, p) == Held(chunks, p - 1) + if chunks[p - 1] > 0 then [p - 1] else []
    ensures p - 1 !in Held(chunks, p - 1)
  {
  }

  // Some number of configurations holds exactly n non-empty ones and no earlier number does.
  lemma {:induction false} FirstHolding(chunks: seq<nat>, p: nat, n: nat) returns (q: nat)
    requires p <= |chunks| && n <= |Held(chunks, p)|
    ensures q <= p && |Held(chunks, q)| == n && (q > 0 ==> |Held(chunks, q - 1)| < n)
  {
    if p == 0 || |Held(chunks, p - 1)| < n {
      q := p;
    } else {
      q := FirstHolding(chunks, p - 1, n);
    }
  }

  // Unfinished, and nothing can move.
  ghost predicate Stuck(s: Pool) {
    !Finished(s) && !Enabled(s)
  }

  // With no more workers than non-empty configurations, some run ends with every worker waiting
  // for chunks that no worker is left to run, where not even a spurious wake-up is possible.
  lemma {:induction false} DeadlockExists(chunks: seq<nat>, workers: nat) returns (states: seq<Pool>, actions: seq<Action>)
    requires chunks != [] && workers <= |Busy(chunks)|
    ensures RunTo(states, actions, chunks, workers)
    ensures Stuck(states[|actions|]) && forall a, s' :: !Next(states[|actions|], a, s')
  {
    HeldCount(chunks);
    var p := FirstHolding(chunks, |chunks|, workers);
    var held := Held(chunks, p);
    states, actions := SendPhase(chunks, p, |held|, 0);
    var s := states[|actions|];
    assert Config(if held == [] then 0 else held[0]) !in s.done;
    assert forall w :: 0 <= w < |s.workers| ==> s.workers[w] == RunConfig(held[w], chunks[held[w]], 0, false);
  }

  // A pool can get stuck exactly when there is a configuration and no more workers than
  // non-empty ones.
  lemma {:induction false} DeadlockIff(chunks: seq<nat>, workers: nat)
    ensures (exists states, actions :: RunTo(states, actions, chunks, workers) && Stuck(states[|actions|]))
       <==> chunks != [] && workers <= |Busy(chunks)|
  {
    if chunks != [] && workers <= |Busy(chunks)| {
      var states, actions := DeadlockExists(chunks, workers);
    } else {
      forall states, actions | RunTo(states, actions, chunks, workers)
        ensures !Stuck(states[|actions|])
      {
        RunConsistent(states, actions);
        if !Finished(states[|actions|]) {
          NoDeadlock(states, actions);
        }
      }
    }
  }
}
