/** The functions of the read pool as the main thread and the worker run them, on fields updated
    in place. The worker is scheduled by an arbitrary oracle: before each action of the main
    thread on shared state it makes as many steps as the oracle says. A ghost trace records the
    events, and every method keeps it a run of the step relation of ReadPool. */
module ReadPoolCode {
  import opened Bytes
  import opened FileModel
  import opened JobLists
  import R = ReadPool
  import RS = ReadPoolSafety

  lemma {:induction false} RunAppend(c: R.Config, s: R.State, events: seq<R.Event>, t: R.State, e: R.Event)
    requires R.Run(c, s, events, t) && R.Enabled(c, t, e)
    ensures R.Run(c, s, events + [e], R.Step(c, t, e))
    decreases |events|
  {
    hide R.Step, R.Enabled;
    if events == [] {
      assert R.Run(c, R.Step(c, t, e), [], R.Step(c, t, e));
      assert (events + [e])[1..] == [];
    } else {
      RunAppend(c, R.Step(c, s, events[0]), events[1..], t, e);
      assert (events + [e])[1..] == events[1..] + [e];
    }
  }

  /** The worker's assertions hold. */
  lemma WorkerMayMove(c: R.Config, s: R.State)
    requires RS.Inv(c, s)
    ensures s.worker.Took? ==> s.worker.job < |s.jobs|
    ensures s.worker.Did? ==> |s.completed| < c.jobs
  {
    if s.worker.Took? {
      RS.OnlyThere(c, s, s.worker.job);
    } else if s.worker.Did? {
      RS.CompleteConserves(c, s);
    }
  }

  function WorkLeft(queue: seq<nat>, worker: Worker): nat {
    5 * |queue| + (match worker case Idle => 0 case Took(_) => 4 case Did(_) => 3 case Returning => 1)
  }

  /** What the main thread sees unchanged while the worker moves. */
  ghost predicate MainUndisturbed(s: R.State, t: R.State) {
    && t.file == s.file && t.available == s.available && t.held == s.held
    && t.nextReadOffset == s.nextReadOffset && t.waitingOnOffset == s.waitingOnOffset
    && t.coalesceBuffer == s.coalesceBuffer && t.src == s.src && t.loaded == s.loaded
    && t.consumed == s.consumed && t.base == s.base
    && (s.reachedEof ==> t.reachedEof)
  }

  lemma WorkerFrame(c: R.Config, s: R.State, e: R.Event)
    requires e.WorkerTake? || e.WorkerExecute? || e.WorkerComplete? || e.WorkerFinish?
    requires R.Enabled(c, s, e) && !R.Step(c, s, e).phase.Crashed?
    ensures var t := R.Step(c, s, e);
      && MainUndisturbed(s, t) && WorkLeft(t.queue, t.worker) < WorkLeft(s.queue, s.worker)
      && t.phase == (if e.WorkerComplete? then R.Signal(s.phase) else s.phase)
      && |t.queue| <= |s.queue|
      && |t.completed| == |s.completed| + (if e.WorkerComplete? then 1 else 0)
  {
    hide R.Continue, R.BeginFill;
  }

  class ReadPoolCtx {
    const c: R.Config
    const schedule: nat -> nat

    var srcFile: bytes
    var srcPos: nat
    var jobs: seq<R.Job>
    var availableJobs: seq<nat>
    var queue: seq<nat>
    var worker: Worker
    var completedJobs: seq<nat>
    var currentJobHeld: Option<nat>
    var reachedEof: bool
    var nextReadOffset: nat
    var waitingOnOffset: nat
    var coalesceBuffer: array<byte>
    var srcBuffer: R.Place
    var srcBufferLoaded: nat
    var tick: nat
    var signalled: bool // the condition variable of a waiting main thread

    ghost var phase: R.Phase
    ghost var consumed: bytes
    ghost var ready: seq<nat>
    ghost var base: nat
    ghost var front: nat
    ghost var origin: R.State
    ghost var trace: seq<R.Event>

    ghost function State(): R.State
      reads this, coalesceBuffer
    {
      R.State(srcFile, srcPos, jobs, availableJobs, queue, worker, completedJobs, currentJobHeld,
              reachedEof, nextReadOffset, waitingOnOffset, coalesceBuffer[..], srcBuffer, srcBufferLoaded,
              phase, consumed, ready, base, front)
    }

    ghost predicate Valid()
      reads this, coalesceBuffer
    {
      RS.Inv(c, State()) && R.Init(c, origin) && R.Run(c, origin, trace, State())
    }

    /** AIO_ReadPool_create */
    constructor (c: R.Config, schedule: nat -> nat)
      requires c.Valid()
      ensures Valid() && phase.Closed? && fresh(coalesceBuffer)
      ensures this.c == c && this.schedule == schedule && trace == []
    {
      this.c, this.schedule := c, schedule;
      srcFile, srcPos := [], 0;
      jobs := seq(c.jobs, _ => R.Job(Zeros(c.jobSize), 0, 0));
      availableJobs := seq(c.jobs, i => i);
      queue, worker, completedJobs, currentJobHeld := [], Idle, [], None;
      reachedEof, nextReadOffset, waitingOnOffset := false, 0, 0;
      coalesceBuffer := new byte[2 * c.jobSize];
      srcBuffer, srcBufferLoaded := R.Coalesced(0), 0;
      tick, signalled := 0, false;
      phase, consumed, ready, base, front, trace := R.Closed, [], [], 0, 0, [];
      new;
      origin := State();
      RS.InitInv(c, origin);
    }

    /** The events of one method are one more piece of the run. */
    ghost method Record(e: R.Event, before: R.State)
      requires RS.Inv(c, before) && R.Init(c, origin) && R.Run(c, origin, trace, before)
      requires R.Enabled(c, before, e) && State() == R.Step(c, before, e)
      modifies this`trace
      ensures Valid() && trace == old(trace) + [e]
    {
      hide RS.Inv, R.Init, R.Step, R.Enabled;
      RS.StepKeeps(c, before, e);
      RunAppend(c, origin, trace, before, e);
      trace := trace + [e];
    }

    // ---- The worker ----

    /** AIO_ReadPool_executeReadJob up to the publication. */
    method Execute(j: nat)
      requires j < |jobs|
      modifies this`jobs, this`srcPos, this`reachedEof, this`ready, this`front
      ensures State() == R.ReadInto(c, old(State()), j)
    {
      ready, front := ready + [j], front + c.jobSize;
      if reachedEof {
        jobs := jobs[j := jobs[j].(used := 0)];
        assert [] + jobs[j].buffer[0..] == jobs[j].buffer;
      } else {
        Fread(j);
      }
    }

    /** `fread(job->buffer, 1, job->bufferSize, job->file)` and the test of the count. */
    method Fread(j: nat)
      requires j < |jobs| && !reachedEof
      modifies this`jobs, this`srcPos, this`reachedEof
      ensures var data := Slice(srcFile, old(srcPos), c.jobSize);
        && srcPos == old(srcPos) + |data| && reachedEof == (|data| < c.jobSize)
        && var rest := if |data| <= |old(jobs[j].buffer)| then old(jobs[j].buffer)[|data|..] else [];
           jobs == old(jobs)[j := R.Job(data + rest, |data|, old(jobs[j].offset))]
    {
      var data := Slice(srcFile, srcPos, c.jobSize);
      srcPos := srcPos + |data|;
      var rest := if |data| <= |jobs[j].buffer| then jobs[j].buffer[|data|..] else [];
      jobs := jobs[j := R.Job(data + rest, |data|, jobs[j].offset)];
      if |data| < c.jobSize {
        reachedEof := true;
      }
    }

    predicate WorkerCanMove()
      reads this
    {
      !worker.Idle? || queue != []
    }

    /** The event the worker makes next. */
    ghost function WorkerEvent(): R.Event
      reads this
    {
      match worker
      case Idle => R.WorkerTake
      case Took(_) => R.WorkerExecute
      case Did(_) => R.WorkerComplete
      case Returning => R.WorkerFinish
    }

    method WorkerStep()
      requires Valid() && WorkerCanMove()
      modifies this
      ensures Valid() && coalesceBuffer == old(coalesceBuffer) && origin == old(origin)
      ensures R.Enabled(c, old(State()), old(WorkerEvent()))
      ensures State() == R.Step(c, old(State()), old(WorkerEvent()))
      ensures trace == old(trace) + [old(WorkerEvent())]
      ensures signalled == (old(signalled) || old(worker).Did?) && tick == old(tick)
    {
      hide RS.Inv, R.Step, R.Run, R.Init;
      ghost var before := State();
      WorkerMayMove(c, before);
      if worker.Idle? {
        TakeJob();
        Record(R.WorkerTake, before);
      } else if worker.Took? {
        ExecuteJob();
        Record(R.WorkerExecute, before);
      } else if worker.Did? {
        AddJobToCompleted();
        Record(R.WorkerComplete, before);
      } else {
        FinishJob();
        Record(R.WorkerFinish, before);
      }
    }

    method TakeJob()
      requires worker.Idle? && queue != []
      modifies this`worker, this`queue
      ensures State() == R.Step(c, old(State()), R.WorkerTake)
    {
      worker := Took(queue[0]);
      queue := queue[1..];
    }

    method ExecuteJob()
      requires worker.Took? && worker.job < |jobs|
      modifies this`worker, this`jobs, this`srcPos, this`reachedEof, this`ready, this`front
      ensures State() == R.Step(c, old(State()), R.WorkerExecute)
    {
      Execute(worker.job);
      worker := Did(worker.job);
    }

    method FinishJob()
      requires worker.Returning?
      modifies this`worker
      ensures State() == R.Step(c, old(State()), R.WorkerFinish)
    {
      worker := Idle;
    }

    /** AIO_ReadPool_addJobToCompleted, with the signal to a waiting main thread. */
    method AddJobToCompleted()
      requires worker.Did? && |completedJobs| < c.jobs
      modifies this`worker, this`completedJobs, this`phase, this`signalled
      ensures State() == R.Step(c, old(State()), R.WorkerComplete) && signalled
    {
      signalled := true;
      completedJobs := completedJobs + [worker.job];
      worker := Returning;
      phase := R.Signal(phase);
    }

    /** One step of the worker, as the main thread sees it. */
    method LetWorkerMove()
      requires Valid() && WorkerCanMove()
      modifies this
      ensures Valid() && coalesceBuffer == old(coalesceBuffer) && origin == old(origin) && tick == old(tick)
      ensures MainUndisturbed(old(State()), State()) && old(trace) <= trace
      ensures WorkLeft(queue, worker) < WorkLeft(old(queue), old(worker)) && |queue| <= |old(queue)|
      ensures phase == if old(worker).Did? then R.Signal(old(phase)) else old(phase)
      ensures signalled == (old(signalled) || old(worker).Did?)
      ensures |completedJobs| == |old(completedJobs)| + if old(worker).Did? then 1 else 0
    {
      hide R.Step, R.Run, R.Init, R.Enabled;
      WorkerStep();
      assert !phase.Crashed?;
      hide RS.Inv;
      WorkerFrame(c, old(State()), old(WorkerEvent()));
    }

    /** The worker makes as many steps as the schedule says, or as it can. */
    method Interleave()
      requires Valid() && !phase.Waiting?
      modifies this
      ensures Valid() && coalesceBuffer == old(coalesceBuffer) && origin == old(origin)
      ensures MainUndisturbed(old(State()), State()) && old(trace) <= trace && phase == old(phase)
    {
      hide RS.Inv, R.Run, R.Init;
      var steps := schedule(tick);
      tick := tick + 1;
      while 0 < steps && WorkerCanMove()
        invariant Valid() && coalesceBuffer == old(coalesceBuffer) && origin == old(origin)
        invariant MainUndisturbed(old(State()), State()) && old(trace) <= trace && phase == old(phase)
      {
        LetWorkerMove();
        steps := steps - 1;
      }
    }

    // ---- The main thread: getting and returning jobs ----

    /** AIO_IOPool_releaseIoJob, for the held job. */
    method ReleaseHeldJob(ghost want: nat, ghost append: bool)
      requires Valid() && phase == R.Releasing(want, append)
      modifies this
      ensures Valid() && coalesceBuffer == old(coalesceBuffer) && origin == old(origin) && old(trace) <= trace
      ensures phase == R.Acquiring(want, append)
      ensures srcFile == old(srcFile) && consumed == old(consumed) && srcBufferLoaded == old(srcBufferLoaded)
    {
      hide RS.Inv, R.Run, R.Init;
      Interleave();
      ghost var before := State();
      MainMayContinue(c, before);
      availableJobs := availableJobs + [currentJobHeld.value];
      currentJobHeld := None;
      phase := R.Acquiring(want, append);
      Record(R.MainContinue, before);
    }

    /** AIO_ReadPool_enqueueRead up to the call of AIO_IOPool_enqueueJob. */
    method AcquireForRead() returns (j: nat)
      requires Valid() && (phase.Acquiring? || (phase.Starting? && availableJobs != []))
      modifies this
      ensures Valid() && coalesceBuffer == old(coalesceBuffer) && origin == old(origin) && old(trace) <= trace
      ensures phase == R.WithJob(old(phase), j) && |availableJobs| + 1 == |old(availableJobs)|
      ensures srcFile == old(srcFile) && consumed == old(consumed) && srcBufferLoaded == old(srcBufferLoaded)
    {
      hide RS.Inv, R.Run, R.Init;
      Interleave();
      ghost var before := State();
      MainMayContinue(c, before);
      AcquireIs(c, before);
      hide R.Step, R.Enabled;
      j := TakeAvailable();
      Record(R.MainContinue, before);
    }

    method TakeAvailable() returns (j: nat)
      requires availableJobs != [] && availableJobs[|availableJobs| - 1] < |jobs|
      modifies this`availableJobs, this`jobs, this`nextReadOffset, this`phase
      ensures State() == R.Acquire(c, old(State()))
      ensures phase == R.WithJob(old(phase), j) && |availableJobs| + 1 == |old(availableJobs)|
    {
      j := availableJobs[|availableJobs| - 1];
      availableJobs := availableJobs[..|availableJobs| - 1];
      jobs := jobs[j := jobs[j].(used := 0, offset := nextReadOffset)];
      nextReadOffset := nextReadOffset + c.jobSize;
      phase := R.WithJob(phase, j);
    }

    /** AIO_IOPool_enqueueJob: POOL_add blocks while the queue is full;
        without threads the job is executed here. */
    method EnqueueJob(j: nat)
      requires Valid() && (phase == R.StartAdding(j) || (phase.Adding? && phase.job == j))
      modifies this
      ensures Valid() && coalesceBuffer == old(coalesceBuffer) && origin == old(origin) && old(trace) <= trace
      ensures phase == AfterAdding(old(phase))
      ensures srcFile == old(srcFile) && consumed == old(consumed) && srcBufferLoaded == old(srcBufferLoaded)
      ensures availableJobs == old(availableJobs)
    {
      hide RS.Inv, R.Run, R.Init;
      WaitForRoom();
      ghost var before := State();
      LocalJobBounds(c, before);
      EnqueueIs(c, before);
      hide R.Step, R.Enabled, R.Enqueue, R.QueueHasRoom;
      PutAndGoOn(j);
      Record(R.MainContinue, before);
    }

    method PutAndGoOn(j: nat)
      requires j < |jobs| && |completedJobs| < c.jobs
      modifies this`queue, this`jobs, this`srcPos, this`reachedEof, this`ready, this`front, this`completedJobs, this`phase
      ensures State() == R.Enqueue(c, old(State()).(phase := AfterAdding(old(phase))), j)
      ensures phase == AfterAdding(old(phase))
    {
      hide R.Enqueue;
      phase := AfterAdding(phase);
      PutJob(j);
    }

    method WaitForRoom()
      requires Valid() && !phase.Waiting?
      modifies this
      ensures Valid() && coalesceBuffer == old(coalesceBuffer) && origin == old(origin) && old(trace) <= trace
      ensures MainUndisturbed(old(State()), State()) && phase == old(phase) && R.QueueHasRoom(c, State())
    {
      hide RS.Inv, R.Run, R.Init;
      Interleave();
      while c.threaded && c.queue <= |queue|
        invariant Valid() && coalesceBuffer == old(coalesceBuffer) && origin == old(origin) && old(trace) <= trace
        invariant MainUndisturbed(old(State()), State()) && phase == old(phase)
        decreases WorkLeft(queue, worker)
      {
        QueueNotEmpty(c, State());
        LetWorkerMove();
      }
    }

    method PutJob(j: nat)
      requires j < |jobs| && |completedJobs| < c.jobs
      modifies this`queue, this`jobs, this`srcPos, this`reachedEof, this`ready, this`front, this`completedJobs
      ensures State() == R.Enqueue(c, old(State()), j)
    {
      if c.threaded {
        queue := queue + [j];
      } else {
        Execute(j);
        completedJobs := completedJobs + [j];
      }
    }

    /** AIO_ReadPool_enqueueRead */
    method EnqueueRead()
      requires Valid() && (phase.Acquiring? || (phase.Starting? && availableJobs != []))
      modifies this
      ensures Valid() && coalesceBuffer == old(coalesceBuffer) && origin == old(origin) && old(trace) <= trace
      ensures phase == AfterAdding(R.WithJob(old(phase), 0)) && |availableJobs| + 1 == |old(availableJobs)|
      ensures srcFile == old(srcFile) && consumed == old(consumed) && srcBufferLoaded == old(srcBufferLoaded)
    {
      hide RS.Inv, R.Run, R.Init;
      var j := AcquireForRead();
      EnqueueJob(j);
    }

    /** AIO_ReadPool_startReading */
    method StartReading()
      requires Valid() && phase.Starting?
      modifies this
      ensures Valid() && coalesceBuffer == old(coalesceBuffer) && origin == old(origin) && old(trace) <= trace
      ensures phase.Ready? && srcFile == old(srcFile) && consumed == old(consumed)
    {
      hide RS.Inv, R.Run, R.Init;
      while availableJobs != []
        invariant Valid() && coalesceBuffer == old(coalesceBuffer) && origin == old(origin) && old(trace) <= trace
        invariant phase.Starting? && srcFile == old(srcFile) && consumed == old(consumed)
        decreases |availableJobs|
      {
        EnqueueRead();
      }
      ghost var before := State();
      phase := R.Ready;
      Record(R.MainContinue, before);
    }

    // ---- The main thread: the next completed job ----

    /** AIO_ReadPool_findNextWaitingOffsetCompletedJob_locked, without the removal. */
    method FindNextWaitingOffset() returns (found: Option<nat>)
      ensures found == R.Find(jobs, completedJobs, waitingOnOffset)
    {
      var i := 0;
      assert completedJobs[0..] == completedJobs;
      while i < |completedJobs|
        invariant i <= |completedJobs|
        invariant R.Find(jobs, completedJobs, waitingOnOffset)
               == Later(R.Find(jobs, completedJobs[i..], waitingOnOffset), i)
      {
        if completedJobs[i] < |jobs| && jobs[completedJobs[i]].offset == waitingOnOffset {
          return Some(i);
        }
        assert completedJobs[i..][1..] == completedJobs[i + 1..];
        i := i + 1;
      }
      found := None;
    }

    /** AIO_ReadPool_numReadsInFlight */
    function NumReadsInFlight(): (n: int)
      reads this, coalesceBuffer
      ensures n == R.ReadsInFlight(c, State())
    {
      c.jobs - (|availableJobs| + |completedJobs| + (if currentJobHeld.None? then 0 else 1))
    }

    /** ZSTD_pthread_cond_wait: the worker runs until it signals. */
    method WaitForSignal()
      requires Valid() && phase.Waiting?
      modifies this
      ensures Valid() && coalesceBuffer == old(coalesceBuffer) && origin == old(origin) && old(trace) <= trace
      ensures MainUndisturbed(old(State()), State()) && phase == R.Signal(old(phase))
      ensures |completedJobs| == |old(completedJobs)| + 1
    {
      hide RS.Inv, R.Run, R.Init;
      signalled := false;
      while !signalled
        invariant Valid() && coalesceBuffer == old(coalesceBuffer) && origin == old(origin) && old(trace) <= trace
        invariant MainUndisturbed(old(State()), State())
        invariant phase == if signalled then R.Signal(old(phase)) else old(phase)
        invariant |completedJobs| == |old(completedJobs)| + if signalled then 1 else 0
        decreases WorkLeft(queue, worker)
      {
        WaiterHasWorker(c, State());
        LetWorkerMove();
      }
    }

    /** AIO_ReadPool_getNextCompletedJob, up to the removal: where the next job is, or None
        when nothing is left in flight. The main thread still holds the mutex. */
    method FindOrWait(ghost want: nat, ghost append: bool) returns (found: Option<nat>)
      requires Valid() && phase == R.Scanning(want, append)
      modifies this
      ensures Valid() && coalesceBuffer == old(coalesceBuffer) && origin == old(origin) && old(trace) <= trace
      ensures MainUndisturbed(old(State()), State()) && phase == R.Scanning(want, append)
      ensures found == R.Find(jobs, completedJobs, waitingOnOffset)
      ensures found.None? ==> NumReadsInFlight() <= 0
    {
      hide RS.Inv, R.Run, R.Init, R.Find;
      Interleave();
      found := FindNextWaitingOffset();
      while found.None? && 0 < NumReadsInFlight()
        invariant Valid() && coalesceBuffer == old(coalesceBuffer) && origin == old(origin) && old(trace) <= trace
        invariant MainUndisturbed(old(State()), State()) && phase == R.Scanning(want, append)
        invariant found == R.Find(jobs, completedJobs, waitingOnOffset)
        decreases NumReadsInFlight()
      {
        ghost var before := State();
        GoToSleep(c, before);
        hide R.Step, R.Enabled;
        phase := R.Waiting(want, append);
        Record(R.MainContinue, before);
        WaitForSignal();
        found := FindNextWaitingOffset();
      }
    }

    // ---- The main thread: the client's calls ----

    /** `memcpy(coalesceBuffer, srcBuffer, srcBufferLoaded)` */
    method MoveLeftover()
      requires srcBuffer.at + srcBufferLoaded <= |R.SrcSpace(State())| && 0 < srcBufferLoaded <= coalesceBuffer.Length
      modifies coalesceBuffer
      ensures coalesceBuffer[..] == R.CopyInto(old(coalesceBuffer[..]), 0, old(R.Window(State())))
    {
      hide R.CopyInto;
      if srcBuffer.Coalesced? {
        assert R.Window(State()) == coalesceBuffer[srcBuffer.at..srcBuffer.at + srcBufferLoaded];
        MoveWithin(srcBuffer.at, srcBufferLoaded);
      } else {
        assert R.Window(State()) == jobs[srcBuffer.job].buffer[srcBuffer.at..srcBuffer.at + srcBufferLoaded];
        AppendToCoalesced(0, jobs[srcBuffer.job].buffer[srcBuffer.at..srcBuffer.at + srcBufferLoaded]);
      }
    }

    /** The same copy when its source lies inside its destination: byte by byte from the front. */
    method MoveWithin(at: nat, n: nat)
      requires at + n <= coalesceBuffer.Length
      modifies coalesceBuffer
      ensures coalesceBuffer[..] == R.CopyInto(old(coalesceBuffer[..]), 0, old(coalesceBuffer[at..at + n]))
    {
      var i := 0;
      while i < n
        invariant i <= n
        invariant forall k :: 0 <= k < i ==> coalesceBuffer[k] == old(coalesceBuffer[at + k])
        invariant forall k :: i <= k < coalesceBuffer.Length ==> coalesceBuffer[k] == old(coalesceBuffer[k])
      {
        coalesceBuffer[i] := coalesceBuffer[at + i];
        i := i + 1;
      }
    }

    /** `memcpy(coalesceBuffer + at, job->buffer, job->usedBufferSize)` */
    method AppendToCoalesced(at: nat, data: bytes)
      requires at + |data| <= coalesceBuffer.Length
      modifies coalesceBuffer
      ensures coalesceBuffer[..] == R.CopyInto(old(coalesceBuffer[..]), at, data)
    {
      var i := 0;
      while i < |data|
        invariant i <= |data|
        invariant forall k :: 0 <= k < i ==> coalesceBuffer[at + k] == data[k]
        invariant forall k :: 0 <= k < coalesceBuffer.Length && (k < at || at + i <= k) ==>
          coalesceBuffer[k] == old(coalesceBuffer[k])
      {
        coalesceBuffer[at + i] := data[i];
        i := i + 1;
      }
    }

    /** The beginning of AIO_ReadPool_fillBuffer, when there are not enough bytes. */
    method BeginFill(want: nat) returns (append: bool)
      requires phase.Ready? && srcBufferLoaded < want <= c.jobSize && coalesceBuffer.Length == 2 * c.jobSize
      requires srcBuffer.at + srcBufferLoaded <= |R.SrcSpace(State())|
      modifies this`phase, this`srcBuffer, coalesceBuffer
      ensures State() == R.BeginFill(c, old(State()), want)
      ensures append == (0 < srcBufferLoaded)
      ensures phase == if currentJobHeld.Some? then R.Releasing(want, append) else R.Scanning(want, append)
    {
      append := 0 < srcBufferLoaded;
      if append {
        MoveLeftover();
        srcBuffer := R.Coalesced(0);
      }
      phase := if currentJobHeld.Some? then R.Releasing(want, append) else R.Scanning(want, append);
    }

    /** The removal from the completed jobs and the rest of AIO_ReadPool_fillBuffer. */
    method TakeAndExpose(i: nat, append: bool) returns (used: nat)
      requires i < |completedJobs| && completedJobs[i] < |jobs| && ready != []
      requires jobs[completedJobs[i]].used <= |jobs[completedJobs[i]].buffer|
      requires append ==> srcBufferLoaded + jobs[completedJobs[i]].used <= coalesceBuffer.Length
      modifies this`completedJobs, this`waitingOnOffset, this`currentJobHeld, this`srcBuffer, this`srcBufferLoaded
      modifies this`phase, this`ready, this`base, coalesceBuffer
      ensures State() == Exposed(c, old(State()), i, append)
      ensures used == old(jobs[completedJobs[i]].used)
    {
      hide R.CopyInto, SwapRemove;
      var j := completedJobs[i];
      used := jobs[j].used;
      TakeCompleted(i);
      ExposeHeld(j, append);
    }

    method TakeCompleted(i: nat)
      requires i < |completedJobs| && completedJobs[i] < |jobs| && ready != []
      modifies this`completedJobs, this`waitingOnOffset, this`currentJobHeld, this`phase, this`ready, this`base
      ensures State() == old(State()).(
        completed := SwapRemove(old(completedJobs), i), held := Some(old(completedJobs[i])), phase := R.Ready,
        waitingOnOffset := old(waitingOnOffset) + old(jobs[completedJobs[i]].used),
        ready := old(ready)[1..], base := old(base) + c.jobSize)
    {
      var j := completedJobs[i];
      completedJobs := SwapRemove(completedJobs, i);
      waitingOnOffset := waitingOnOffset + jobs[j].used;
      currentJobHeld := Some(j);
      phase, ready, base := R.Ready, ready[1..], base + c.jobSize;
    }

    method ExposeHeld(j: nat, append: bool)
      requires j < |jobs| && jobs[j].used <= |jobs[j].buffer|
      requires append ==> srcBufferLoaded + jobs[j].used <= coalesceBuffer.Length
      modifies this`srcBuffer, this`srcBufferLoaded, coalesceBuffer
      ensures State() == old(State()).(
        coalesceBuffer := if append then R.CopyInto(old(coalesceBuffer[..]), old(srcBufferLoaded), jobs[j].buffer[..jobs[j].used])
                          else old(coalesceBuffer[..]),
        src := if append then old(srcBuffer) else R.InJob(j, 0),
        loaded := if append then old(srcBufferLoaded) + jobs[j].used else jobs[j].used)
    {
      hide R.CopyInto;
      if append {
        AppendToCoalesced(srcBufferLoaded, jobs[j].buffer[..jobs[j].used]);
        srcBufferLoaded := srcBufferLoaded + jobs[j].used;
      } else {
        srcBuffer := R.InJob(j, 0);
        srcBufferLoaded := jobs[j].used;
      }
    }

    /** AIO_ReadPool_releaseCurrentHeldAndGetNext, and the exposure of the job it returns. */
    method GetNext(ghost want: nat, append: bool) returns (added: nat)
      requires Valid() && (phase == R.Releasing(want, append) || phase == R.Scanning(want, append))
      modifies this, coalesceBuffer
      ensures Valid() && coalesceBuffer == old(coalesceBuffer) && origin == old(origin) && old(trace) <= trace
      ensures phase.Ready? && srcFile == old(srcFile) && consumed == old(consumed)
      ensures RS.FillDone(c, State(), want) && srcBufferLoaded == old(srcBufferLoaded) + added
    {
      hide RS.Inv, R.Run, R.Init, R.Find, RS.FillDone;
      HeldWhenReleasing(c, State());
      if currentJobHeld.Some? {
        ReleaseHeldJob(want, append);
        EnqueueRead();
      }
      var found := FindOrWait(want, append);
      added := FinishFill(found, want, append);
    }

    method FinishFill(found: Option<nat>, ghost want: nat, append: bool) returns (added: nat)
      requires Valid() && phase == R.Scanning(want, append)
      requires found == R.Find(jobs, completedJobs, waitingOnOffset) && (found.None? ==> NumReadsInFlight() <= 0)
      modifies this, coalesceBuffer
      ensures Valid() && coalesceBuffer == old(coalesceBuffer) && origin == old(origin) && old(trace) <= trace
      ensures phase.Ready? && srcFile == old(srcFile) && consumed == old(consumed)
      ensures RS.FillDone(c, State(), want) && srcBufferLoaded == old(srcBufferLoaded) + added
    {
      hide RS.Inv, R.Run, R.Init, R.Find, RS.FillDone, R.Step, R.Enabled, R.Expose, Exposed;
      ghost var before := State();
      if found.Some? {
        MayTake(c, before);
        added := TakeAndExpose(found.value, append);
        Record(R.MainContinue, before);
      } else {
        MayEnd(c, before);
        phase := R.Ready;
        added := 0;
        Record(R.MainContinue, before);
      }
    }

    /** AIO_ReadPool_fillBuffer, under any schedule: on return the window holds the wanted bytes,
        or the file has been delivered to its end; nothing was consumed or lost. */
    method FillBuffer(n: nat) returns (added: nat)
      requires Valid() && phase.Ready?
      modifies this, coalesceBuffer
      ensures Valid() && coalesceBuffer == old(coalesceBuffer) && origin == old(origin) && old(trace) <= trace
      ensures phase.Ready? && srcFile == old(srcFile) && consumed == old(consumed)
      ensures RS.FillDone(c, State(), Min(n, c.jobSize)) && srcBufferLoaded == old(srcBufferLoaded) + added
    {
      hide R.Run, R.Init, RS.Inv, R.Step, R.Enabled, R.BeginFill, R.SrcSpace;
      var want := Min(n, c.jobSize);
      ghost var before := State();
      FillIs(c, before, n);
      if want <= srcBufferLoaded {
        added := 0;
        Record(R.Fill(n), before);
      } else {
        hide RS.FillDone;
        var append := BeginFill(want);
        Record(R.Fill(n), before);
        added := GetNext(want, append);
      }
    }

    /** AIO_ReadPool_consumeAndRefill */
    method ConsumeAndRefill() returns (added: nat)
      requires Valid() && phase.Ready?
      modifies this, coalesceBuffer
      ensures Valid() && coalesceBuffer == old(coalesceBuffer) && origin == old(origin) && old(trace) <= trace
      ensures phase.Ready? && srcFile == old(srcFile) && consumed == old(consumed) + old(Window())
      ensures RS.FillDone(c, State(), c.jobSize) && srcBufferLoaded == added
    {
      hide R.Run, R.Init, RS.Inv, RS.FillDone;
      WindowInside(c, State());
      assert Window()[..srcBufferLoaded] == Window();
      ConsumeBytes(srcBufferLoaded);
      added := FillBuffer(c.jobSize);
    }

    /** AIO_ReadPool_consumeBytes */
    method ConsumeBytes(n: nat)
      requires Valid() && phase.Ready? && n <= srcBufferLoaded
      modifies this
      ensures Valid() && coalesceBuffer == old(coalesceBuffer) && origin == old(origin) && old(trace) <= trace
      ensures phase.Ready? && srcFile == old(srcFile) && srcBufferLoaded == old(srcBufferLoaded) - n
      ensures consumed == old(consumed) + old(Window())[..n] && Window() == old(Window())[n..]
    {
      hide RS.Inv, R.Run, R.Init;
      ghost var before := State();
      ConsumeIs(c, before, n);
      hide R.Step, R.Enabled;
      consumed := consumed + R.Window(before)[..n];
      srcBufferLoaded := srcBufferLoaded - n;
      srcBuffer := if srcBuffer.InJob? then R.InJob(srcBuffer.job, srcBuffer.at + n) else R.Coalesced(srcBuffer.at + n);
      Record(R.Consume(n), before);
    }

    /** The exposed bytes. */
    ghost function Window(): (window: bytes)
      requires Valid()
      reads this, coalesceBuffer
      ensures |window| == srcBufferLoaded
    {
      WindowInside(c, State());
      R.Window(State())
    }

    /** AIO_ReadPool_setFile: every queued read finishes, every job comes back, and reading
        of the next file starts at once. */
    method SetFile(next: Option<bytes>)
      requires Valid() && (phase.Ready? || phase.Closed?)
      modifies this
      ensures Valid() && coalesceBuffer == old(coalesceBuffer) && origin == old(origin) && old(trace) <= trace
      ensures phase == (if next.Some? then R.Ready else R.Closed) && consumed == []
      ensures srcFile == if next.Some? then next.value else []
    {
      hide R.Run, R.Init, RS.Inv;
      ghost var before := State();
      SetFileIs(c, before, next);
      hide R.Step, R.Enabled;
      phase := R.Joining(next);
      Record(R.SetFile(next), before);
      JoinJobs();
      before := State();
      ResetIs(c, before);
      hide R.Reset;
      Restart(next);
      Record(R.MainContinue, before);
      if next.Some? {
        StartReading();
      }
    }

    /** POOL_joinJobs */
    method JoinJobs()
      requires Valid() && phase.Joining?
      modifies this
      ensures Valid() && coalesceBuffer == old(coalesceBuffer) && origin == old(origin) && old(trace) <= trace
      ensures MainUndisturbed(old(State()), State()) && phase == old(phase) && queue == [] && worker.Idle?
    {
      hide R.Run, R.Init, RS.Inv;
      while queue != [] || !worker.Idle?
        invariant Valid() && coalesceBuffer == old(coalesceBuffer) && origin == old(origin) && old(trace) <= trace
        invariant MainUndisturbed(old(State()), State()) && phase == old(phase)
        decreases WorkLeft(queue, worker)
      {
        LetWorkerMove();
      }
    }

    /** The rest of AIO_ReadPool_setFile, up to the first read. */
    method Restart(next: Option<bytes>)
      requires |availableJobs + completedJobs + R.HeldJobs(State())| == c.jobs && phase == R.Joining(next)
      modifies this
      ensures coalesceBuffer == old(coalesceBuffer) && origin == old(origin) && trace == old(trace)
      ensures State() == R.Reset(c, old(State()), next)
    {
      ReleaseAllJobs();
      ghost var between := State();
      Reopen(next);
      ForgetHistory(next);
      ResetFields(c, old(State()), between, State(), next);
    }

    method Reopen(next: Option<bytes>)
      modifies this`srcFile, this`srcPos, this`nextReadOffset, this`waitingOnOffset, this`srcBuffer, this`srcBufferLoaded
      modifies this`reachedEof
      ensures srcFile == (if next.Some? then next.value else []) && srcPos == 0 && !reachedEof
      ensures nextReadOffset == waitingOnOffset == srcBufferLoaded == 0 && srcBuffer == R.Coalesced(0)
    {
      srcFile, srcPos := if next.Some? then next.value else [], 0;
      nextReadOffset, waitingOnOffset := 0, 0;
      srcBuffer, srcBufferLoaded := R.Coalesced(0), 0;
      reachedEof := false;
    }

    ghost method ForgetHistory(next: Option<bytes>)
      modifies this`phase, this`consumed, this`ready, this`base, this`front
      ensures phase == (if next.Some? then R.Starting else R.Closed)
      ensures consumed == [] && ready == [] && base == 0 && front == 0
    {
      phase := if next.Some? then R.Starting else R.Closed;
      consumed, ready, base, front := [], [], 0, 0;
    }

    method ReleaseAllJobs()
      modifies this`availableJobs, this`completedJobs, this`currentJobHeld
      ensures availableJobs == old(availableJobs) + old(completedJobs) + old(R.HeldJobs(State()))
      ensures completedJobs == [] && currentJobHeld.None?
    {
      ReleaseAllCompletedJobs();
      if currentJobHeld.Some? {
        availableJobs := availableJobs + [currentJobHeld.value];
        currentJobHeld := None;
      }
    }

    /** AIO_ReadPool_releaseAllCompletedJobs */
    method ReleaseAllCompletedJobs()
      modifies this`availableJobs, this`completedJobs
      ensures availableJobs == old(availableJobs) + old(completedJobs) && completedJobs == []
    {
      var i := 0;
      while i < |completedJobs|
        invariant i <= |completedJobs| && completedJobs == old(completedJobs)
        invariant availableJobs == old(availableJobs) + completedJobs[..i]
      {
        availableJobs := availableJobs + [completedJobs[i]];
        i := i + 1;
      }
      completedJobs := [];
    }
  }

  function AfterAdding(phase: R.Phase): R.Phase {
    if phase.Adding? then R.Scanning(phase.want, phase.append) else R.Starting
  }

  lemma AcquireIs(c: R.Config, s: R.State)
    requires s.phase.Acquiring? || (s.phase.Starting? && s.available != [])
    ensures R.Enabled(c, s, R.MainContinue) && R.Step(c, s, R.MainContinue) == R.Acquire(c, s)
  {
    hide R.Acquire;
  }

  lemma EnqueueIs(c: R.Config, s: R.State)
    requires (s.phase.StartAdding? || s.phase.Adding?) && s.phase.job < |s.jobs| && R.QueueHasRoom(c, s)
    ensures R.Enabled(c, s, R.MainContinue)
    ensures R.Step(c, s, R.MainContinue) == R.Enqueue(c, s.(phase := AfterAdding(s.phase)), s.phase.job)
  {
    hide R.Enqueue;
  }

  lemma WindowInside(c: R.Config, s: R.State)
    requires RS.Inv(c, s)
    ensures s.src.at + s.loaded <= |R.SrcSpace(s)| && |s.coalesceBuffer| == 2 * c.jobSize
  {
  }

  lemma SetFileIs(c: R.Config, s: R.State, next: Option<bytes>)
    requires s.phase.Ready? || s.phase.Closed?
    ensures R.Enabled(c, s, R.SetFile(next)) && R.Step(c, s, R.SetFile(next)) == s.(phase := R.Joining(next))
  {
  }

  /** Everything but the jobs and the lists they are in starts afresh. */
  ghost predicate Rewound(s: R.State, t: R.State, next: Option<bytes>) {
    && t.file == (if next.Some? then next.value else []) && t.filePos == 0
    && t.jobs == s.jobs && t.available == s.available && t.queue == s.queue && t.worker == s.worker
    && t.completed == s.completed && t.held == s.held && t.coalesceBuffer == s.coalesceBuffer
    && !t.reachedEof && t.nextReadOffset == 0 && t.waitingOnOffset == 0 && t.src == R.Coalesced(0) && t.loaded == 0
    && t.phase == (if next.Some? then R.Starting else R.Closed)
    && t.consumed == [] && t.ready == [] && t.base == 0 && t.front == 0
  }

  lemma ResetFields(c: R.Config, s: R.State, between: R.State, t: R.State, next: Option<bytes>)
    requires |s.available + s.completed + R.HeldJobs(s)| == c.jobs
    requires between == s.(available := s.available + s.completed + R.HeldJobs(s), completed := [], held := None)
    requires Rewound(between, t, next)
    ensures t == R.Reset(c, s, next)
  {
  }

  lemma ResetIs(c: R.Config, s: R.State)
    requires RS.Inv(c, s) && s.phase.Joining? && R.Quiet(s)
    ensures |s.available + s.completed + R.HeldJobs(s)| == c.jobs
    ensures R.Enabled(c, s, R.MainContinue) && R.Step(c, s, R.MainContinue) == R.Reset(c, s, s.phase.next)
    ensures var t := R.Reset(c, s, s.phase.next);
      && t.phase == (if s.phase.next.Some? then R.Starting else R.Closed) && t.consumed == []
      && t.file == if s.phase.next.Some? then s.phase.next.value else []
  {
    RS.ResetConserves(c, s);
  }

  lemma ConsumeIs(c: R.Config, s: R.State, n: nat)
    requires RS.Inv(c, s) && s.phase.Ready? && n <= s.loaded
    ensures s.src.at + s.loaded <= |R.SrcSpace(s)| && R.Enabled(c, s, R.Consume(n))
    ensures R.Step(c, s, R.Consume(n)) == s.(
      src := if s.src.InJob? then R.InJob(s.src.job, s.src.at + n) else R.Coalesced(s.src.at + n),
      loaded := s.loaded - n, consumed := s.consumed + R.Window(s)[..n])
    ensures var t := R.Step(c, s, R.Consume(n));
      t.src.at + t.loaded <= |R.SrcSpace(t)| && R.Window(t) == R.Window(s)[n..]
  {
    RS.ConsumeDelivers(c, s, n);
  }

  lemma HeldWhenReleasing(c: R.Config, s: R.State)
    requires RS.Inv(c, s) && (s.phase.Releasing? || s.phase.Scanning?)
    ensures s.held.Some? <==> s.phase.Releasing?
  {
  }

  lemma FillIs(c: R.Config, s: R.State, n: nat)
    requires RS.Inv(c, s) && s.phase.Ready?
    ensures R.Enabled(c, s, R.Fill(n)) && R.Step(c, s, R.Fill(n)) == R.BeginFill(c, s, Min(n, c.jobSize))
    ensures Min(n, c.jobSize) <= s.loaded ==> R.BeginFill(c, s, Min(n, c.jobSize)) == s
    ensures s.src.at + s.loaded <= |R.SrcSpace(s)| && |s.coalesceBuffer| == 2 * c.jobSize
  {
  }

  /** The pool after taking completed job `i`, when every assertion on the way holds. */
  function Exposed(c: R.Config, s: R.State, i: nat, append: bool): R.State
    requires i < |s.completed| && s.completed[i] < |s.jobs| && s.ready != []
    requires s.jobs[s.completed[i]].used <= |s.jobs[s.completed[i]].buffer|
    requires append ==> s.loaded + s.jobs[s.completed[i]].used <= |s.coalesceBuffer|
  {
    var j := s.completed[i];
    var used := s.jobs[j].used;
    s.(completed := SwapRemove(s.completed, i), held := Some(j), phase := R.Ready,
       waitingOnOffset := s.waitingOnOffset + used, ready := s.ready[1..], base := s.base + c.jobSize,
       coalesceBuffer := if append then R.CopyInto(s.coalesceBuffer, s.loaded, s.jobs[j].buffer[..used])
                         else s.coalesceBuffer,
       src := if append then s.src else R.InJob(j, 0),
       loaded := if append then s.loaded + used else used)
  }

  lemma MayTake(c: R.Config, s: R.State)
    requires RS.Inv(c, s) && s.phase.Scanning? && R.Find(s.jobs, s.completed, s.waitingOnOffset).Some?
    ensures var i := R.Find(s.jobs, s.completed, s.waitingOnOffset).value;
      && s.ready != [] && s.jobs[s.completed[i]].used <= |s.jobs[s.completed[i]].buffer|
      && (s.phase.append ==> s.loaded + s.jobs[s.completed[i]].used <= |s.coalesceBuffer|)
      && var t := Exposed(c, s, i, s.phase.append);
      && R.Enabled(c, s, R.MainContinue) && R.Step(c, s, R.MainContinue) == t
      && RS.FillDone(c, t, s.phase.want) && t.phase.Ready? && t.file == s.file && t.consumed == s.consumed
      && t.loaded == s.loaded + s.jobs[s.completed[i]].used
  {
    var i := R.Find(s.jobs, s.completed, s.waitingOnOffset).value;
    RS.FoundIsNext(c, s);
    assert RS.Filled(c, s.file, s.jobs[s.ready[0]]);
    RS.ScanDelivers(c, s, i);
    RS.ScanKeeps(c, s);
    WindowInside(c, s);
    hide R.Find, RS.FillDone, RS.Inv;
    ExposeIs(c, s, i);
    TakeEnds(c, s, i);
  }

  lemma ExposeIs(c: R.Config, s: R.State, i: nat)
    requires s.phase.Scanning? && R.Find(s.jobs, s.completed, s.waitingOnOffset) == Some(i)
    requires i < |s.completed| && s.completed[i] < |s.jobs| && s.ready != [] && |s.coalesceBuffer| == 2 * c.jobSize
    requires !R.Expose(c, s, i, s.phase.append).phase.Crashed?
    ensures s.jobs[s.completed[i]].used <= |s.jobs[s.completed[i]].buffer|
    ensures s.phase.append ==> s.loaded + s.jobs[s.completed[i]].used <= |s.coalesceBuffer|
    ensures R.Enabled(c, s, R.MainContinue)
    ensures R.Step(c, s, R.MainContinue) == R.Expose(c, s, i, s.phase.append) == Exposed(c, s, i, s.phase.append)
  {
    hide R.Find, R.CopyInto, SwapRemove;
  }

  lemma TakeEnds(c: R.Config, s: R.State, i: nat)
    requires RS.Inv(c, s) && s.phase.Scanning? && R.Find(s.jobs, s.completed, s.waitingOnOffset) == Some(i)
    requires i < |s.completed| && s.completed[i] < |s.jobs|
    requires !R.Expose(c, s, i, s.phase.append).phase.Crashed? && s.ready != []
    ensures var t := R.Expose(c, s, i, s.phase.append);
      RS.FillDone(c, t, s.phase.want) && t.phase.Ready? && t.file == s.file && t.consumed == s.consumed
  {
    hide RS.Inv, RS.FillDone, R.Find;
    RS.ExposeFields(c, s, i, s.phase.append);
    assert R.Scan(c, s) == R.Expose(c, s, i, s.phase.append);
    RS.ScanEndsWell(c, s);
  }

  lemma MayEnd(c: R.Config, s: R.State)
    requires RS.Inv(c, s) && s.phase.Scanning? && R.Find(s.jobs, s.completed, s.waitingOnOffset).None?
    requires R.ReadsInFlight(c, s) <= 0
    ensures R.Enabled(c, s, R.MainContinue) && R.Step(c, s, R.MainContinue) == s.(phase := R.Ready)
    ensures RS.FillDone(c, s.(phase := R.Ready), s.phase.want)
  {
    hide RS.Inv, R.Find, RS.FillDone, R.Expose;
    assert R.Scan(c, s) == s.(phase := R.Ready);
    RS.ScanEndsWell(c, s);
    hide R.Scan;
  }

  function Later(found: Option<nat>, i: nat): Option<nat> {
    if found.Some? then Some(found.value + i) else None
  }

  /** A sleeping main thread is woken by a worker that can move. */
  lemma WaiterHasWorker(c: R.Config, s: R.State)
    requires RS.Inv(c, s) && s.phase.Waiting?
    ensures !s.worker.Idle? || s.queue != []
  {
    RS.WaitIsAnswered(c, s);
  }

  /** Only a threaded pool waits. */
  lemma GoToSleep(c: R.Config, s: R.State)
    requires RS.Inv(c, s) && s.phase.Scanning? && R.Find(s.jobs, s.completed, s.waitingOnOffset).None?
    requires 0 < R.ReadsInFlight(c, s)
    ensures R.Enabled(c, s, R.MainContinue)
    ensures R.Step(c, s, R.MainContinue) == s.(phase := R.Waiting(s.phase.want, s.phase.append))
  {
    if !c.threaded {
      RS.SynchronousNeverWaits(c, s);
    }
    hide RS.Inv, R.Find;
  }

  /** The main thread's assertions hold. */
  lemma MainMayContinue(c: R.Config, s: R.State)
    requires RS.Inv(c, s)
    ensures s.phase.Releasing? ==> s.held.Some? && |s.available| < c.jobs
    ensures s.phase.Acquiring? || s.phase.Starting? ==> s.available != [] ==>
      s.available[|s.available| - 1] < |s.jobs|
    ensures s.phase.Acquiring? ==> s.available != []
  {
    if s.available != [] {
      RS.AvailableOnlyThere(c, s);
    }
  }

  lemma QueueNotEmpty(c: R.Config, s: R.State)
    requires RS.Inv(c, s) && c.threaded && c.queue <= |s.queue|
    ensures s.queue != []
  {
  }

  lemma LocalJobBounds(c: R.Config, s: R.State)
    requires RS.Inv(c, s) && (s.phase.StartAdding? || s.phase.Adding?)
    ensures s.phase.job < |s.jobs| && |s.completed| < c.jobs
  {
    RS.OnlyThere(c, s, s.phase.job);
    RS.EnqueueConserves(c, s, R.Starting);
  }
}
