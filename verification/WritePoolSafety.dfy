/** What every reachable state of the write pool keeps, for every client and every schedule. */
module WritePoolSafety {
  import opened Bytes
  import opened FileModel
  import opened JobLists
  import opened SparseWriter
  import opened WritePool

  function Owners(s: State, j: nat): nat {
    Count(s.available, j) + Count(s.queue, j) + Count(WorkerJobs(s.worker), j) + Count(LocalJobs(s), j)
  }

  function PlacesTaken(s: State): nat {
    |s.available| + |s.queue| + |WorkerJobs(s.worker)| + |LocalJobs(s)|
  }

  /** Enqueued and not yet written, oldest first. */
  function Pending(s: State): seq<nat> {
    (if s.worker.Took? then [s.worker.job] else []) + s.queue
  }

  function Payloads(jobs: seq<Job>, order: seq<nat>): seq<bytes> {
    if order == [] then []
    else [if order[0] < |jobs| then Payload(jobs[order[0]]) else []] + Payloads(jobs, order[1..])
  }

  lemma {:induction false} PayloadsAppend(jobs: seq<Job>, order: seq<nat>, j: nat)
    requires j < |jobs|
    ensures Payloads(jobs, order + [j]) == Payloads(jobs, order) + [Payload(jobs[j])]
  {
    if order == [] {
      assert (order + [j])[1..] == [];
    } else {
      PayloadsAppend(jobs, order[1..], j);
      assert (order + [j])[1..] == order[1..] + [j];
    }
  }

  lemma {:induction false} PayloadsFrame(jobs: seq<Job>, jobs': seq<Job>, order: seq<nat>)
    requires |jobs| == |jobs'| && forall j <- order :: j < |jobs| ==> jobs'[j] == jobs[j]
    ensures Payloads(jobs', order) == Payloads(jobs, order)
  {
    if order != [] {
      PayloadsFrame(jobs, jobs', order[1..]);
    }
  }

  // ---- The invariant ----

  ghost predicate Conserved(c: Config, s: State) {
    && |s.jobs| == c.jobs && PlacesTaken(s) == c.jobs
    && forall j: nat :: Owners(s, j) == if j < c.jobs then 1 else 0
  }

  /** The file is what writing the executed buffers one after the other gives,
      and the pending jobs hold the other buffers in the order they were enqueued. */
  ghost predicate InOrder(c: Config, s: State) {
    && s.executed <= |s.submitted|
    && Sink(s.file, s.storedSkips) == WriteAll(c.prefs, Sink(s.start, 0), s.submitted[..s.executed])
    && Payloads(s.jobs, Pending(s)) == s.submitted[s.executed..]
  }

  ghost predicate Sized(c: Config, s: State) {
    && (forall job <- s.jobs :: |job.buffer| == c.jobSize)
    && (forall b <- s.submitted :: |b| <= c.jobSize)
    && s.start.pos == |s.start.content|
  }

  ghost predicate Controlled(c: Config, s: State) {
    && !s.phase.Crashed?
    && (c.threaded ==> |s.queue| <= c.queue)
    && (!c.threaded ==> Quiet(s))
    && (s.phase.Resting? || s.phase.Reacquiring? ==> s.local.None?)
    && (s.phase.Holding? || s.phase.Adding? ==> s.local.Some?)
  }

  ghost predicate Inv(c: Config, s: State) {
    c.Valid() && Conserved(c, s) && InOrder(c, s) && Sized(c, s) && Controlled(c, s)
  }

  lemma InitInv(c: Config, s: State)
    requires c.Valid() && Init(c, s)
    ensures Inv(c, s)
  {
    forall j: nat ensures Owners(s, j) == if j < c.jobs then 1 else 0 {
      IdentityOnce(c.jobs, j);
    }
  }

  // ---- Job conservation ----

  lemma OnlyThere(c: Config, s: State, j: nat)
    requires Conserved(c, s) && (j in WorkerJobs(s.worker) || j in LocalJobs(s))
    ensures j < c.jobs && j !in s.available && j !in s.queue
    ensures j in WorkerJobs(s.worker) ==> j !in LocalJobs(s)
    ensures |s.available| < c.jobs
  {
    assert Owners(s, j) <= 1;
    assert Count(WorkerJobs(s.worker), j) + Count(LocalJobs(s), j) >= 1;
  }

  lemma AvailableOnlyThere(c: Config, s: State)
    requires Conserved(c, s) && s.available != []
    ensures var j := s.available[|s.available| - 1]; j < c.jobs && j !in s.queue && j !in WorkerJobs(s.worker)
  {
    var n := |s.available| - 1;
    assert s.available == s.available[..n] + [s.available[n]];
    CountSnoc(s.available[..n], s.available[n], s.available[n]);
    assert Owners(s, s.available[n]) <= 1;
  }

  lemma ConservedFrame(c: Config, s: State, t: State)
    requires Conserved(c, s) && |t.jobs| == |s.jobs| && PlacesTaken(t) == PlacesTaken(s)
    requires forall j: nat :: Owners(t, j) == Owners(s, j)
    ensures Conserved(c, t)
  {
  }

  lemma TakeConserves(c: Config, s: State)
    requires Conserved(c, s) && s.worker.Idle? && s.queue != []
    ensures Conserved(c, s.(worker := Took(s.queue[0]), queue := s.queue[1..]))
  {
    var t := s.(worker := Took(s.queue[0]), queue := s.queue[1..]);
    forall j: nat ensures Owners(t, j) == Owners(s, j) {
      CountCons(s.queue, j);
    }
    ConservedFrame(c, s, t);
  }

  /** A job goes from the client, or from the worker, back to the available ones. */
  lemma GiveBackConserves(c: Config, s: State, t: State, j: nat)
    requires Conserved(c, s) && |t.jobs| == |s.jobs| && t.available == s.available + [j] && t.queue == s.queue
    requires || (LocalJobs(s) == [j] && LocalJobs(t) == [] && t.worker == s.worker)
             || (WorkerJobs(s.worker) == [j] && WorkerJobs(t.worker) == [] && t.local == s.local)
    ensures Conserved(c, t)
  {
    forall i: nat ensures Owners(t, i) == Owners(s, i) {
      CountSnoc(s.available, j, i);
    }
    ConservedFrame(c, s, t);
  }

  lemma QueueConserves(c: Config, s: State, t: State, j: nat)
    requires Conserved(c, s) && |t.jobs| == |s.jobs| && t.available == s.available && t.queue == s.queue + [j]
    requires LocalJobs(s) == [j] && LocalJobs(t) == [] && t.worker == s.worker
    ensures Conserved(c, t)
  {
    forall i: nat ensures Owners(t, i) == Owners(s, i) {
      CountSnoc(s.queue, j, i);
    }
    ConservedFrame(c, s, t);
  }

  lemma AcquireConserves(c: Config, s: State)
    requires Conserved(c, s) && s.available != [] && s.local.None?
    ensures Conserved(c, Acquire(s))
  {
    AvailableOnlyThere(c, s);
    var n := |s.available| - 1;
    var t := Acquire(s);
    assert s.available == s.available[..n] + [s.available[n]] && t.available == s.available[..n];
    assert LocalJobs(t) == [s.available[n]] && t.queue == s.queue && t.worker == s.worker && |t.jobs| == |s.jobs|;
    hide Acquire, Conserved;
    forall i: nat ensures Owners(t, i) == Owners(s, i) {
      CountSnoc(s.available[..n], s.available[n], i);
    }
    ConservedFrame(c, s, t);
  }

  // ---- Worker steps ----

  lemma TakeKeeps(c: Config, s: State)
    requires Inv(c, s) && Enabled(c, s, WorkerTake)
    ensures Inv(c, Step(c, s, WorkerTake))
  {
    hide Conserved, SparseWrite, WriteAll, Payloads, Continue;
    var t := s.(worker := Took(s.queue[0]), queue := s.queue[1..]);
    assert Step(c, s, WorkerTake) == t;
    TakeConserves(c, s);
    hide Step, Enabled;
    assert Pending(t) == Pending(s) by {
      assert s.queue == [s.queue[0]] + s.queue[1..];
    }
    hide Pending;
  }

  /** Writing the oldest pending buffer. */
  lemma WriteOutOrders(c: Config, s: State, j: nat, later: seq<nat>)
    requires j < |s.jobs| && s.executed < |s.submitted|
    requires Sink(s.file, s.storedSkips) == WriteAll(c.prefs, Sink(s.start, 0), s.submitted[..s.executed])
    requires Payloads(s.jobs, [j] + later) == s.submitted[s.executed..]
    ensures var t := WriteOut(c, s, j);
      && Sink(t.file, t.storedSkips) == WriteAll(c.prefs, Sink(t.start, 0), t.submitted[..t.executed])
      && Payloads(t.jobs, later) == t.submitted[t.executed..]
  {
    hide SparseWrite;
    assert ([j] + later)[1..] == later;
    assert s.submitted[s.executed..] == [Payload(s.jobs[j])] + Payloads(s.jobs, later);
    assert s.submitted[s.executed] == s.submitted[s.executed..][0] == Payload(s.jobs[j]);
    assert s.submitted[s.executed..][1..] == s.submitted[s.executed + 1..];
    var done := s.submitted[..s.executed + 1];
    assert done[..|done| - 1] == s.submitted[..s.executed];
  }

  lemma ExecuteKeeps(c: Config, s: State)
    requires Inv(c, s) && Enabled(c, s, WorkerExecute)
    ensures Inv(c, Step(c, s, WorkerExecute))
  {
    ExecuteOrders(c, s);
    hide InOrder, SparseWrite;
    ConservedFrame(c, s, Step(c, s, WorkerExecute));
  }

  lemma ExecuteOrders(c: Config, s: State)
    requires InOrder(c, s) && Enabled(c, s, WorkerExecute)
    ensures InOrder(c, Step(c, s, WorkerExecute))
  {
    hide SparseWrite, WriteAll;
    var j := s.worker.job;
    assert Pending(s) == [j] + s.queue && Pending(Step(c, s, WorkerExecute)) == s.queue;
    assert Payloads(s.jobs, [j] + s.queue) != [];
    WriteOutOrders(c, s, j, s.queue);
  }

  lemma ReleaseKeeps(c: Config, s: State)
    requires Inv(c, s) && Enabled(c, s, WorkerRelease)
    ensures Inv(c, Step(c, s, WorkerRelease))
  {
    hide SparseWrite, WriteAll, Payloads;
    OnlyThere(c, s, s.worker.job);
    var t := Step(c, s, WorkerRelease);
    assert Pending(t) == Pending(s);
    hide Conserved;
    GiveBackConserves(c, s, t, s.worker.job);
  }

  lemma FinishKeeps(c: Config, s: State)
    requires Inv(c, s) && Enabled(c, s, WorkerFinish)
    ensures Inv(c, Step(c, s, WorkerFinish))
  {
    hide SparseWrite, WriteAll, Payloads;
    var t := Step(c, s, WorkerFinish);
    assert Pending(t) == Pending(s);
    ConservedFrame(c, s, t);
  }

  // ---- Client and main-thread steps ----

  lemma AcquireKeeps(c: Config, s: State)
    requires Inv(c, s) && (s.phase.Resting? || s.phase.Reacquiring?)
    ensures s.available != [] && Inv(c, Acquire(s))
  {
    FreeJobExists(c, s);
    AcquireOrders(c, s);
    AcquireConserves(c, s);
    AcquireSized(c, s);
    AcquireControls(c, s);
    hide Conserved, InOrder, Sized, Controlled, Acquire;
  }

  lemma AcquireControls(c: Config, s: State)
    requires Controlled(c, s) && s.available != [] && s.available[|s.available| - 1] < |s.jobs|
    ensures Controlled(c, Acquire(s))
  {
  }

  lemma AcquireSized(c: Config, s: State)
    requires Sized(c, s) && s.available != [] && s.available[|s.available| - 1] < |s.jobs|
    ensures Sized(c, Acquire(s))
  {
    var j := s.available[|s.available| - 1];
    forall job | job in Acquire(s).jobs ensures |job.buffer| == c.jobSize {
      assert job in s.jobs || job == s.jobs[j].(used := 0);
    }
  }

  lemma AcquireOrders(c: Config, s: State)
    requires Conserved(c, s) && InOrder(c, s) && s.available != []
    ensures s.available[|s.available| - 1] < |s.jobs| && InOrder(c, Acquire(s))
  {
    AvailableOnlyThere(c, s);
    hide Conserved, SparseWrite, WriteAll;
    var t := Acquire(s);
    assert Pending(t) == Pending(s);
    PayloadsFrame(s.jobs, t.jobs, Pending(s));
  }

  /** Between enqueuing a job and reacquiring one, a free job always exists. */
  lemma FreeJobExists(c: Config, s: State)
    requires Inv(c, s) && (s.phase.Resting? || s.phase.Reacquiring?)
    ensures s.available != []
  {
  }

  lemma LoadKeeps(c: Config, s: State, data: bytes)
    requires Inv(c, s) && Enabled(c, s, Load(data))
    ensures Inv(c, Step(c, s, Load(data)))
  {
    hide SparseWrite, WriteAll;
    var t := Step(c, s, Load(data));
    OnlyThere(c, s, s.local.value);
    PayloadsFrame(s.jobs, t.jobs, Pending(s));
    assert Pending(t) == Pending(s);
    ConservedFrame(c, s, t);
  }

  lemma GiveBackKeeps(c: Config, s: State)
    requires Inv(c, s) && Enabled(c, s, ReleaseJob)
    ensures Inv(c, Step(c, s, ReleaseJob))
  {
    hide SparseWrite, WriteAll, Payloads;
    OnlyThere(c, s, s.local.value);
    var t := Step(c, s, ReleaseJob);
    assert Pending(t) == Pending(s);
    hide Conserved;
    GiveBackConserves(c, s, t, s.local.value);
  }

  lemma PhaseKeeps(c: Config, s: State, phase: Phase)
    requires Inv(c, s) && (phase.Joining? || (phase.Adding? && s.phase.Holding?))
    ensures Inv(c, s.(phase := phase))
  {
    hide SparseWrite, WriteAll, Payloads;
    var t := s.(phase := phase);
    assert Pending(t) == Pending(s);
    ConservedFrame(c, s, t);
  }

  lemma EndKeeps(c: Config, s: State)
    requires Inv(c, s) && s.phase.Joining? && Quiet(s)
    ensures Inv(c, EndSequence(s))
  {
    var t := EndSequence(s);
    assert Pending(t) == [] && s.submitted[s.executed..] == [];
    assert s.submitted[..s.executed] == s.submitted;
    ConservedFrame(c, s, t);
    EndPosition(c, s);
  }

  lemma EndPosition(c: Config, s: State)
    requires c.Valid() && Sized(c, s)
    requires Sink(s.file, s.storedSkips) == WriteAll(c.prefs, Sink(s.start, 0), s.submitted)
    ensures !c.prefs.testMode ==> SparseEnd(Sink(s.file, s.storedSkips)).content == s.start.content + Flatten(s.submitted)
    ensures c.prefs.testMode ==> SparseEnd(Sink(s.file, s.storedSkips)) == s.start
    ensures var f := SparseEnd(Sink(s.file, s.storedSkips)); f.pos == |f.content|
  {
    if c.prefs.testMode {
      TestModeWritesNothing(c.prefs, s.start, s.submitted);
    } else {
      SparseFileIsExact(c.prefs, s.start, s.submitted);
    }
  }

  lemma EnqueueKeeps(c: Config, s: State)
    requires Inv(c, s) && s.phase.Adding? && QueueHasRoom(c, s)
    ensures s.local.value < |s.jobs| && Inv(c, Enqueue(c, s, s.local.value))
  {
    OnlyThere(c, s, s.local.value);
    hide SparseWrite, WriteAll;
    if c.threaded {
      EnqueueLater(c, s);
    } else {
      EnqueueNow(c, s);
    }
  }

  lemma EnqueueLater(c: Config, s: State)
    requires Inv(c, s) && s.phase.Adding? && QueueHasRoom(c, s) && c.threaded && s.local.value < |s.jobs|
    ensures Inv(c, Enqueue(c, s, s.local.value))
  {
    hide SparseWrite, WriteAll;
    var j := s.local.value;
    var t := Enqueue(c, s, j);
    assert Pending(t) == Pending(s) + [j];
    PayloadsAppend(s.jobs, Pending(s), j);
    SubmitExtends(s.submitted, s.executed, Payload(s.jobs[j]));
    QueueConserves(c, s, t, j);
    hide Conserved;
    assert |Payload(s.jobs[j])| <= c.jobSize;
  }

  lemma SubmitExtends(submitted: seq<bytes>, executed: nat, b: bytes)
    requires executed <= |submitted|
    ensures (submitted + [b])[..executed] == submitted[..executed]
    ensures (submitted + [b])[executed..] == submitted[executed..] + [b]
  {
  }

  lemma EnqueueNow(c: Config, s: State)
    requires Inv(c, s) && s.phase.Adding? && !c.threaded && s.local.value < |s.jobs|
    ensures Inv(c, Enqueue(c, s, s.local.value))
  {
    var j := s.local.value;
    OnlyThere(c, s, j);
    var t := Enqueue(c, s, j);
    GiveBackConserves(c, s, t, j);
    EnqueueNowOrders(c, s);
    hide Conserved, InOrder, SparseWrite;
    assert |Payload(s.jobs[j])| <= c.jobSize;
  }

  lemma EnqueueNowOrders(c: Config, s: State)
    requires InOrder(c, s) && Quiet(s) && !c.threaded && s.local.Some? && s.local.value < |s.jobs|
    requires |s.available| < c.jobs
    ensures InOrder(c, Enqueue(c, s, s.local.value))
  {
    hide SparseWrite, WriteAll;
    var j := s.local.value;
    var b := Payload(s.jobs[j]);
    var s1 := s.(local := None, phase := Reacquiring, submitted := s.submitted + [b]);
    SubmitExtends(s.submitted, s.executed, b);
    assert Pending(s) == [] && s.submitted[s.executed..] == [];
    PayloadsAppend(s.jobs, [], j);
    assert [] + [j] == [j] == [j] + [];
    WriteOutOrders(c, s1, j, []);
    assert Pending(Enqueue(c, s, j)) == [];
  }

  lemma StepKeeps(c: Config, s: State, e: Event)
    requires Inv(c, s) && Enabled(c, s, e)
    ensures Inv(c, Step(c, s, e))
  {
    match e {
      case WorkerTake => TakeKeeps(c, s);
      case WorkerExecute => ExecuteKeeps(c, s);
      case WorkerRelease => ReleaseKeeps(c, s);
      case WorkerFinish => FinishKeeps(c, s);
      case AcquireJob => AcquireKeeps(c, s);
      case Load(data) => LoadKeeps(c, s, data);
      case Submit => PhaseKeeps(c, s, Adding);
      case ReleaseJob => GiveBackKeeps(c, s);
      case EndSparse => PhaseKeeps(c, s, Joining);
      case MainContinue =>
        if s.phase.Adding? {
          EnqueueKeeps(c, s);
        } else if s.phase.Reacquiring? {
          AcquireKeeps(c, s);
        } else {
          EndKeeps(c, s);
        }
    }
  }

  lemma {:induction false} RunKeeps(c: Config, s: State, events: seq<Event>, t: State)
    requires Inv(c, s) && Run(c, s, events, t)
    ensures Inv(c, t)
    decreases |events|
  {
    hide Inv, Enabled, Step;
    if events != [] {
      StepKeeps(c, s, events[0]);
      RunKeeps(c, Step(c, s, events[0]), events[1..], t);
    }
  }

  // ---- What a client may rely on, in every reachable state ----

  /** In every run no assertion of the pool fails, each job is in exactly one place, and whenever
      the client must get a job, after enqueuing one or to begin with, one is available. */
  lemma FreeJobAlways(c: Config, init: State, events: seq<Event>, s: State)
    requires c.Valid() && Init(c, init) && Run(c, init, events, s)
    ensures !s.phase.Crashed?
    ensures forall j: nat :: Owners(s, j) == if j < c.jobs then 1 else 0
    ensures s.phase.Resting? || s.phase.Reacquiring? ==> s.available != []
  {
    InitInv(c, init);
    RunKeeps(c, init, events, s);
  }

  /** In every run the file and the zeros owed to it are what executing the first `executed`
      enqueued buffers at once, one after the other, would have given. */
  lemma WritesHappenInOrder(c: Config, init: State, events: seq<Event>, s: State)
    requires c.Valid() && Init(c, init) && Run(c, init, events, s)
    ensures s.executed <= |s.submitted|
    ensures Sink(s.file, s.storedSkips) == WriteAll(c.prefs, Sink(s.start, 0), s.submitted[..s.executed])
    ensures Quiet(s) ==> s.executed == |s.submitted|
  {
    InitInv(c, init);
    RunKeeps(c, init, events, s);
    if Quiet(s) {
      assert Pending(s) == [];
    }
  }

  /** Ending a sparse sequence: the file is exactly what it was when the sequence began
      followed by every enqueued buffer; in test mode it is untouched. */
  lemma EndedFileIsExact(c: Config, s: State)
    requires Inv(c, s) && s.phase.Joining? && Quiet(s)
    ensures !c.prefs.testMode ==> EndSequence(s).file.content == s.start.content + Flatten(s.submitted)
    ensures c.prefs.testMode ==> EndSequence(s).file == s.start
    ensures EndSequence(s).file.pos == |EndSequence(s).file.content| && EndSequence(s).storedSkips == 0
  {
    assert Pending(s) == [] && s.submitted[s.executed..] == [];
    assert s.submitted[..s.executed] == s.submitted;
    EndPosition(c, s);
  }

  /** Threads change nothing: two pools, whatever their number of jobs, threading and schedules,
      that were handed the same buffers end with the same file, to the position. */
  lemma {:induction false} SchedulesAgree(c: Config, s: State, d: Config, t: State)
    requires Inv(c, s) && s.phase.Joining? && Quiet(s)
    requires Inv(d, t) && t.phase.Joining? && Quiet(t)
    requires c.prefs == d.prefs && s.start == t.start && s.submitted == t.submitted
    ensures EndSequence(s).file == EndSequence(t).file
  {
    assert Pending(s) == Pending(t) == [];
    assert s.submitted[s.executed..] == t.submitted[t.executed..] == [];
    assert s.submitted[..s.executed] == s.submitted == t.submitted[..t.executed];
  }

  /** The owed zeros stay within 1 GB and one buffer, however long the run. */
  lemma OwedZerosFit(c: Config, s: State)
    requires Inv(c, s)
    ensures s.storedSkips <= GB + c.jobSize < U32_LIMIT
  {
    if c.prefs.testMode {
      TestModeWritesNothing(c.prefs, s.start, s.submitted[..s.executed]);
    } else {
      WriteAllAppends(c.prefs, s.start, s.submitted[..s.executed], c.jobSize);
    }
  }

  /** No deadlock: the client may call, or some thread can move. */
  lemma NeverStuck(c: Config, s: State)
    requires Inv(c, s)
    ensures s.phase.Resting? || s.phase.Holding? || MainCanContinue(c, s)
      || Enabled(c, s, WorkerTake) || Enabled(c, s, WorkerExecute)
      || Enabled(c, s, WorkerRelease) || Enabled(c, s, WorkerFinish)
  {
    if s.worker.Took? {
      OnlyThere(c, s, s.worker.job);
    }
    if s.phase.Adding? {
      OnlyThere(c, s, s.local.value);
    }
  }

  /** AIO_IOPool_setFile and AIO_WritePool_setFile: once the queued jobs have finished and the client
      holds none, every job is available; and nothing is owed once a sparse sequence was ended. */
  lemma AllJobsReturn(c: Config, s: State)
    requires Inv(c, s) && Quiet(s) && s.local.None?
    ensures |s.available| == c.jobs
    ensures s.submitted == [] ==> s.storedSkips == 0 && s.file == s.start
  {
    assert s.submitted == [] ==> s.submitted[..s.executed] == [];
  }

  /** AIO_IOPool_setThreaded: once the queued jobs have finished, a pool whose queue is large enough
      may go on with or without its thread, and everything above holds from there. */
  lemma SetThreadedKeeps(c: Config, s: State, threaded: bool)
    requires Inv(c, s) && Quiet(s) && c.(threaded := threaded).Valid()
    ensures Inv(c.(threaded := threaded), s)
  {
  }
}
