/** The functions of the write pool as the client's thread and the worker run them, on fields
    updated in place and a real destination file. The worker is scheduled by an arbitrary oracle,
    as in ReadPoolCode, and a ghost trace keeps every method a run of the step relation of WritePool. */
module WritePoolCode {
  import opened Bytes
  import opened FileModel
  import opened JobLists
  import opened SparseWriter
  import W = WritePool
  import WS = WritePoolSafety

  lemma {:induction false} RunAppend(c: W.Config, s: W.State, events: seq<W.Event>, t: W.State, e: W.Event)
    requires W.Run(c, s, events, t) && W.Enabled(c, t, e)
    ensures W.Run(c, s, events + [e], W.Step(c, t, e))
    decreases |events|
  {
    hide W.Step, W.Enabled;
    if events == [] {
      assert W.Run(c, W.Step(c, t, e), [], W.Step(c, t, e));
      assert (events + [e])[1..] == [];
    } else {
      RunAppend(c, W.Step(c, s, events[0]), events[1..], t, e);
      assert (events + [e])[1..] == events[1..] + [e];
    }
  }

  /** The worker's assertions hold. */
  lemma WorkerMayMove(c: W.Config, s: W.State)
    requires WS.Inv(c, s)
    ensures s.worker.Took? ==> s.worker.job < |s.jobs|
    ensures s.worker.Did? ==> |s.available| < c.jobs
  {
    if s.worker.Took? || s.worker.Did? {
      WS.OnlyThere(c, s, s.worker.job);
    }
  }

  function WorkLeft(queue: seq<nat>, worker: Worker): nat {
    5 * |queue| + (match worker case Idle => 0 case Took(_) => 4 case Did(_) => 3 case Returning => 1)
  }

  /** What the client sees unchanged while the worker moves. */
  ghost predicate MainUndisturbed(s: W.State, t: W.State) {
    && t.jobs == s.jobs && t.local == s.local && t.phase == s.phase
    && t.start == s.start && t.submitted == s.submitted && |s.available| <= |t.available|
  }

  predicate WorkerEvent(e: W.Event) {
    e.WorkerTake? || e.WorkerExecute? || e.WorkerRelease? || e.WorkerFinish?
  }

  lemma WorkerFrame(c: W.Config, s: W.State, e: W.Event)
    requires WorkerEvent(e) && W.Enabled(c, s, e) && !W.Step(c, s, e).phase.Crashed?
    ensures var t := W.Step(c, s, e);
      MainUndisturbed(s, t) && WorkLeft(t.queue, t.worker) < WorkLeft(s.queue, s.worker) && |t.queue| <= |s.queue|
  {
    hide W.Continue, SparseWrite;
  }

  class WritePoolCtx {
    const c: W.Config
    const schedule: nat -> nat
    const file: File

    var storedSkips: nat
    var jobs: seq<W.Job>
    var availableJobs: seq<nat>
    var queue: seq<nat>
    var worker: Worker
    var tick: nat

    ghost var local: Option<nat>
    ghost var phase: W.Phase
    ghost var start: FileState
    ghost var submitted: seq<bytes>
    ghost var executed: nat
    ghost var origin: W.State
    ghost var trace: seq<W.Event>

    ghost function State(): W.State
      reads this, file
    {
      W.State(file.State(), storedSkips, jobs, availableJobs, queue, worker, local, phase, start, submitted, executed)
    }

    ghost predicate Valid()
      reads this, file
    {
      WS.Inv(c, State()) && W.Init(c, origin) && W.Run(c, origin, trace, State())
    }

    /** AIO_WritePool_create and AIO_WritePool_setFile */
    constructor (c: W.Config, schedule: nat -> nat, file: File)
      requires c.Valid() && file.pos == |file.content|
      ensures Valid() && phase.Resting? && submitted == [] && trace == []
      ensures this.c == c && this.schedule == schedule && this.file == file
      ensures file.State() == old(file.State()) == start
    {
      this.c, this.schedule, this.file := c, schedule, file;
      storedSkips := 0;
      jobs := seq(c.jobs, _ => W.Job(Zeros(c.jobSize), 0));
      availableJobs := seq(c.jobs, i => i);
      queue, worker, tick := [], Idle, 0;
      local, phase, start, submitted, executed, trace := None, W.Resting, file.State(), [], 0, [];
      new;
      origin := State();
      WS.InitInv(c, origin);
    }

    ghost method Record(e: W.Event, before: W.State)
      requires WS.Inv(c, before) && W.Init(c, origin) && W.Run(c, origin, trace, before)
      requires W.Enabled(c, before, e) && State() == W.Step(c, before, e)
      modifies this`trace
      ensures Valid() && trace == old(trace) + [e]
    {
      hide WS.Inv, W.Init, W.Step, W.Enabled;
      WS.StepKeeps(c, before, e);
      RunAppend(c, origin, trace, before, e);
      trace := trace + [e];
    }

    // ---- The worker ----

    /** AIO_WritePool_executeWriteJob up to the release of the job. */
    method Execute(j: nat)
      requires j < |jobs|
      modifies this`storedSkips, this`executed, file
      ensures State() == W.WriteOut(c, old(State()), j)
    {
      hide SparseWrite;
      storedSkips := FwriteSparse(file, W.Payload(jobs[j]), c.prefs, storedSkips);
      executed := executed + 1;
    }

    /** AIO_IOPool_releaseIoJob */
    method Release(j: nat)
      requires |availableJobs| < c.jobs
      modifies this`availableJobs
      ensures State() == W.Release(c, old(State()), j)
    {
      availableJobs := availableJobs + [j];
    }

    predicate WorkerCanMove()
      reads this
    {
      !worker.Idle? || queue != []
    }

    ghost function NextWorkerEvent(): (e: W.Event)
      reads this
      ensures WorkerEvent(e)
    {
      match worker
      case Idle => W.WorkerTake
      case Took(_) => W.WorkerExecute
      case Did(_) => W.WorkerRelease
      case Returning => W.WorkerFinish
    }

    method WorkerStep()
      requires Valid() && WorkerCanMove()
      modifies this, file
      ensures Valid() && origin == old(origin) && tick == old(tick)
      ensures W.Enabled(c, old(State()), old(NextWorkerEvent()))
      ensures State() == W.Step(c, old(State()), old(NextWorkerEvent()))
      ensures trace == old(trace) + [old(NextWorkerEvent())]
    {
      hide WS.Inv, W.Step, W.Run, W.Init;
      ghost var before := State();
      WorkerMayMove(c, before);
      if worker.Idle? {
        TakeJob();
        Record(W.WorkerTake, before);
      } else if worker.Took? {
        ExecuteJob();
        Record(W.WorkerExecute, before);
      } else if worker.Did? {
        GiveJobBack();
        Record(W.WorkerRelease, before);
      } else {
        FinishJob();
        Record(W.WorkerFinish, before);
      }
    }

    method TakeJob()
      requires worker.Idle? && queue != []
      modifies this`worker, this`queue
      ensures State() == W.Step(c, old(State()), W.WorkerTake)
    {
      worker := Took(queue[0]);
      queue := queue[1..];
    }

    method ExecuteJob()
      requires worker.Took? && worker.job < |jobs|
      modifies this`worker, this`storedSkips, this`executed, file
      ensures State() == W.Step(c, old(State()), W.WorkerExecute)
    {
      hide SparseWrite;
      Execute(worker.job);
      worker := Did(worker.job);
    }

    method GiveJobBack()
      requires worker.Did? && |availableJobs| < c.jobs
      modifies this`worker, this`availableJobs
      ensures State() == W.Step(c, old(State()), W.WorkerRelease)
    {
      Release(worker.job);
      worker := Returning;
    }

    method FinishJob()
      requires worker.Returning?
      modifies this`worker
      ensures State() == W.Step(c, old(State()), W.WorkerFinish)
    {
      worker := Idle;
    }

    /** One step of the worker, as the client sees it. */
    method LetWorkerMove()
      requires Valid() && WorkerCanMove()
      modifies this, file
      ensures Valid() && origin == old(origin) && old(trace) <= trace && tick == old(tick)
      ensures MainUndisturbed(old(State()), State())
      ensures WorkLeft(queue, worker) < WorkLeft(old(queue), old(worker)) && |queue| <= |old(queue)|
    {
      hide W.Step, W.Run, W.Init, W.Enabled;
      WorkerStep();
      assert !phase.Crashed?;
      hide WS.Inv;
      WorkerFrame(c, old(State()), old(NextWorkerEvent()));
    }

    /** The worker makes as many steps as the schedule says, or as it can. */
    method Interleave()
      requires Valid()
      modifies this, file
      ensures Valid() && origin == old(origin) && old(trace) <= trace && MainUndisturbed(old(State()), State())
    {
      hide WS.Inv, W.Run, W.Init;
      var steps := schedule(tick);
      tick := tick + 1;
      while 0 < steps && WorkerCanMove()
        invariant Valid() && origin == old(origin) && old(trace) <= trace && MainUndisturbed(old(State()), State())
      {
        LetWorkerMove();
        steps := steps - 1;
      }
    }

    // ---- The client's calls ----

    /** AIO_WritePool_acquireJob: a job is always available. */
    method AcquireJob() returns (j: nat)
      requires Valid() && phase.Resting?
      modifies this, file
      ensures Valid() && origin == old(origin) && old(trace) <= trace
      ensures phase.Holding? && local == Some(j) && start == old(start) && submitted == old(submitted)
      ensures j < |jobs| && |jobs[j].buffer| == c.jobSize
    {
      hide WS.Inv, W.Run, W.Init;
      Interleave();
      ghost var before := State();
      AcquireIs(c, before);
      hide W.Step, W.Enabled;
      j := TakeAvailable();
      Record(W.AcquireJob, before);
      HeldJobFits(c, State());
    }

    method TakeAvailable() returns (j: nat)
      requires availableJobs != [] && availableJobs[|availableJobs| - 1] < |jobs|
      modifies this`availableJobs, this`jobs, this`local, this`phase
      ensures State() == W.Acquire(old(State())) && phase.Holding? && local == Some(j)
    {
      j := availableJobs[|availableJobs| - 1];
      availableJobs := availableJobs[..|availableJobs| - 1];
      jobs := jobs[j := jobs[j].(used := 0)];
      local, phase := Some(j), W.Holding;
    }

    /** The client copies its bytes into the job's buffer and sets `usedBufferSize`. */
    method Load(j: nat, data: bytes)
      requires Valid() && phase.Holding? && local == Some(j) && |data| <= c.jobSize
      modifies this
      ensures Valid() && origin == old(origin) && old(trace) <= trace
      ensures phase.Holding? && local == Some(j) && start == old(start) && submitted == old(submitted)
      ensures j < |jobs| && W.Payload(jobs[j]) == data
    {
      hide WS.Inv, W.Run, W.Init;
      ghost var before := State();
      HeldJobFits(c, before);
      jobs := jobs[j := W.Job(data + jobs[j].buffer[|data|..], |data|)];
      Record(W.Load(data), before);
    }

    /** AIO_WritePool_enqueueAndReacquireWriteJob */
    method EnqueueAndReacquire(j: nat) returns (next: nat)
      requires Valid() && phase.Holding? && local == Some(j) && j < |jobs|
      modifies this, file
      ensures Valid() && origin == old(origin) && old(trace) <= trace
      ensures phase.Holding? && local == Some(next) && start == old(start)
      ensures submitted == old(submitted) + [old(W.Payload(jobs[j]))]
      ensures next < |jobs| && |jobs[next].buffer| == c.jobSize
    {
      hide WS.Inv, W.Run, W.Init, W.Payload;
      EnqueueJob(j);
      Interleave();
      ghost var before := State();
      AcquireIs(c, before);
      hide W.Step, W.Enabled;
      next := TakeAvailable();
      Record(W.MainContinue, before);
      HeldJobFits(c, State());
    }

    /** AIO_IOPool_enqueueJob: POOL_add blocks while the queue is full;
        without threads the job is executed here. */
    method EnqueueJob(j: nat)
      requires Valid() && phase.Holding? && local == Some(j) && j < |jobs|
      modifies this, file
      ensures Valid() && origin == old(origin) && old(trace) <= trace
      ensures phase.Reacquiring? && start == old(start)
      ensures submitted == old(submitted) + [old(W.Payload(jobs[j]))]
    {
      hide WS.Inv, W.Run, W.Init, W.Payload;
      ghost var before := State();
      SubmitIs(c, before);
      phase := W.Adding;
      hide W.Step, W.Enabled;
      Record(W.Submit, before);
      WaitForRoom();
      before := State();
      EnqueueIs(c, before);
      hide W.Enqueue;
      PutJob(j);
      Record(W.MainContinue, before);
    }

    method WaitForRoom()
      requires Valid()
      modifies this, file
      ensures Valid() && origin == old(origin) && old(trace) <= trace
      ensures MainUndisturbed(old(State()), State()) && W.QueueHasRoom(c, State())
    {
      hide WS.Inv, W.Run, W.Init;
      Interleave();
      while c.threaded && c.queue <= |queue|
        invariant Valid() && origin == old(origin) && old(trace) <= trace && MainUndisturbed(old(State()), State())
        decreases WorkLeft(queue, worker)
      {
        QueueNotEmpty(c, State());
        LetWorkerMove();
      }
    }

    method PutJob(j: nat)
      requires j < |jobs| && |availableJobs| < c.jobs
      modifies this`local, this`phase, this`submitted, this`queue, this`storedSkips, this`executed
      modifies this`availableJobs, file
      ensures State() == W.Enqueue(c, old(State()), j)
      ensures phase.Reacquiring? && start == old(start) && submitted == old(submitted) + [W.Payload(old(jobs)[j])]
    {
      hide W.Payload, SparseWrite;
      local, phase, submitted := None, W.Reacquiring, submitted + [W.Payload(jobs[j])];
      if c.threaded {
        queue := queue + [j];
      } else {
        hide W.WriteOut;
        Execute(j);
        WriteOutFrame(c, old(State()), j);
        Release(j);
      }
    }

    /** AIO_WritePool_releaseIoJob */
    method ReleaseIoJob(j: nat)
      requires Valid() && phase.Holding? && local == Some(j)
      modifies this, file
      ensures Valid() && origin == old(origin) && old(trace) <= trace
      ensures phase.Resting? && start == old(start) && submitted == old(submitted)
    {
      hide WS.Inv, W.Run, W.Init;
      Interleave();
      ghost var before := State();
      ReleaseIs(c, before);
      hide W.Step, W.Enabled;
      local, phase := None, W.Resting;
      Release(j);
      Record(W.ReleaseJob, before);
    }

    /** AIO_WritePool_sparseWriteEnd: when it returns the file is exactly what it was when the
        sparse sequence began, followed by every buffer enqueued since; in test mode it is untouched. */
    method SparseWriteEnd()
      requires Valid() && phase.Resting?
      modifies this, file
      ensures Valid() && origin == old(origin) && old(trace) <= trace && phase.Resting? && submitted == []
      ensures !c.prefs.testMode ==> file.content == old(start).content + Flatten(old(submitted))
      ensures c.prefs.testMode ==> file.State() == old(start)
      ensures file.pos == |file.content|
      ensures storedSkips == 0 && |availableJobs| == c.jobs && start == file.State()
    {
      hide WS.Inv, W.Run, W.Init;
      ghost var before := State();
      EndIs(c, before);
      hide W.Step, W.Enabled;
      phase := W.Joining;
      Record(W.EndSparse, before);
      JoinJobs();
      before := State();
      EndSequenceIs(c, before);
      CloseSequence();
      Record(W.MainContinue, before);
    }

    /** POOL_joinJobs */
    method JoinJobs()
      requires Valid()
      modifies this, file
      ensures Valid() && origin == old(origin) && old(trace) <= trace
      ensures MainUndisturbed(old(State()), State()) && W.Quiet(State())
    {
      hide WS.Inv, W.Run, W.Init;
      while queue != [] || !worker.Idle?
        invariant Valid() && origin == old(origin) && old(trace) <= trace && MainUndisturbed(old(State()), State())
        decreases WorkLeft(queue, worker)
      {
        LetWorkerMove();
      }
    }

    method CloseSequence()
      requires local.None?
      modifies this`storedSkips, this`phase, this`start, this`submitted, this`executed, file
      ensures State() == W.EndSequence(old(State()))
    {
      hide SparseEnd;
      FwriteSparseEnd(file, storedSkips);
      storedSkips := 0;
      phase, start, submitted, executed := W.Resting, file.State(), [], 0;
    }
  }

  lemma AcquireIs(c: W.Config, s: W.State)
    requires WS.Inv(c, s) && (s.phase.Resting? || s.phase.Reacquiring?)
    ensures s.available != [] && s.available[|s.available| - 1] < |s.jobs|
    ensures var e := if s.phase.Resting? then W.AcquireJob else W.MainContinue;
      W.Enabled(c, s, e) && W.Step(c, s, e) == W.Acquire(s)
  {
    WS.FreeJobExists(c, s);
    WS.AvailableOnlyThere(c, s);
  }

  lemma HeldJobFits(c: W.Config, s: W.State)
    requires WS.Inv(c, s) && s.local.Some?
    ensures s.local.value < |s.jobs| && |s.jobs[s.local.value].buffer| == c.jobSize
  {
    WS.OnlyThere(c, s, s.local.value);
  }

  lemma SubmitIs(c: W.Config, s: W.State)
    requires s.phase.Holding?
    ensures W.Enabled(c, s, W.Submit) && W.Step(c, s, W.Submit) == s.(phase := W.Adding)
  {
  }

  lemma EnqueueIs(c: W.Config, s: W.State)
    requires WS.Inv(c, s) && s.phase.Adding? && W.QueueHasRoom(c, s)
    ensures s.local.Some? && s.local.value < |s.jobs| && |s.available| < c.jobs
    ensures W.Enabled(c, s, W.MainContinue) && W.Step(c, s, W.MainContinue) == W.Enqueue(c, s, s.local.value)
  {
    WS.OnlyThere(c, s, s.local.value);
    hide W.Enqueue;
  }

  lemma QueueNotEmpty(c: W.Config, s: W.State)
    requires WS.Inv(c, s) && c.threaded && c.queue <= |s.queue|
    ensures s.queue != []
  {
  }

  lemma WriteOutFrame(c: W.Config, s: W.State, j: nat)
    requires j < |s.jobs|
    ensures W.WriteOut(c, s, j).available == s.available
  {
  }

  lemma ReleaseIs(c: W.Config, s: W.State)
    requires WS.Inv(c, s) && s.phase.Holding? && s.local.Some?
    ensures |s.available| < c.jobs && W.Enabled(c, s, W.ReleaseJob)
    ensures W.Step(c, s, W.ReleaseJob) == W.Release(c, s.(local := None, phase := W.Resting), s.local.value)
  {
    WS.OnlyThere(c, s, s.local.value);
  }

  lemma EndIs(c: W.Config, s: W.State)
    requires WS.Inv(c, s) && s.phase.Resting?
    ensures s.local.None? && W.Enabled(c, s, W.EndSparse)
    ensures W.Step(c, s, W.EndSparse) == s.(phase := W.Joining)
  {
  }

  lemma EndSequenceIs(c: W.Config, s: W.State)
    requires WS.Inv(c, s) && s.phase.Joining? && s.local.None? && W.Quiet(s)
    ensures W.Enabled(c, s, W.MainContinue) && W.Step(c, s, W.MainContinue) == W.EndSequence(s)
    ensures |s.available| == c.jobs
    ensures var f := W.EndSequence(s).file;
      && (!c.prefs.testMode ==> f.content == s.start.content + Flatten(s.submitted))
      && (c.prefs.testMode ==> f == s.start) && f.pos == |f.content|
  {
    hide SparseEnd;
    WS.EndedFileIsExact(c, s);
  }
}
