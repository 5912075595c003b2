/** The asynchronous write pool: the client fills one job at a time and hands it to a queue
    that one worker empties into the destination file through the sparse writer. */
module WritePool {
  import opened Bytes
  import opened FileModel
  import opened JobLists
  import opened SparseWriter

  /** `jobs` I/O jobs of `jobSize` bytes, of which the thread pool queues at most `queue`.
      Without threads, enqueuing a job executes it on the spot. */
  datatype Config = Config(jobSize: nat, jobs: nat, queue: nat, threaded: bool, prefs: Prefs) {
    /** One job stays with the client and one with the worker: the queue has room for the others. */
    predicate Valid() {
      2 <= jobs && (threaded ==> 0 < queue && queue + 2 <= jobs) && jobSize <= GB
    }
  }

  datatype Job = Job(buffer: bytes, used: nat)

  datatype Phase = Resting | Holding | Adding | Reacquiring | Joining | Crashed

  /** `start`, `submitted` and `executed` only record history: the file when the current sparse
      sequence began, the buffers enqueued since, and how many of them were written. */
  datatype State = State(
    file: FileState, storedSkips: nat,
    jobs: seq<Job>, available: seq<nat>, queue: seq<nat>, worker: Worker, local: Option<nat>,
    phase: Phase,
    start: FileState, submitted: seq<bytes>, executed: nat)

  function LocalJobs(s: State): seq<nat> {
    if s.local.Some? then [s.local.value] else []
  }

  /** The bytes a job asks to be written. */
  function Payload(job: Job): bytes {
    if job.used <= |job.buffer| then job.buffer[..job.used] else []
  }

  datatype Event =
    | WorkerTake | WorkerExecute | WorkerRelease | WorkerFinish
    | AcquireJob | Load(data: bytes) | Submit | ReleaseJob | EndSparse // the client's calls
    | MainContinue                                                     // the next action inside a call

  function Crash(s: State): State {
    s.(phase := Crashed)
  }

  /** AIO_WritePool_executeWriteJob, up to the release of the job. */
  function WriteOut(c: Config, s: State, j: nat): State
    requires j < |s.jobs|
  {
    var k := SparseWrite(c.prefs, Sink(s.file, s.storedSkips), Payload(s.jobs[j]));
    s.(file := k.file, storedSkips := k.skips, executed := s.executed + 1)
  }

  function Release(c: Config, s: State, j: nat): State {
    if |s.available| < c.jobs then s.(available := s.available + [j]) else Crash(s)
  }

  function Acquire(s: State): State {
    var n := |s.available|;
    if n == 0 || |s.jobs| <= s.available[n - 1] then Crash(s)
    else
      var j := s.available[n - 1];
      s.(available := s.available[..n - 1], jobs := s.jobs[j := s.jobs[j].(used := 0)],
         local := Some(j), phase := Holding)
  }

  function Enqueue(c: Config, s: State, j: nat): State
    requires j < |s.jobs|
  {
    var s1 := s.(local := None, phase := Reacquiring, submitted := s.submitted + [Payload(s.jobs[j])]);
    if c.threaded then s1.(queue := s1.queue + [j]) else Release(c, WriteOut(c, s1, j), j)
  }

  /** AIO_WritePool_sparseWriteEnd once every queued job has finished. */
  function EndSequence(s: State): State {
    var file := SparseEnd(Sink(s.file, s.storedSkips));
    s.(file := file, storedSkips := 0, phase := if s.local.Some? then Holding else Resting,
       start := file, submitted := [], executed := 0)
  }

  predicate QueueHasRoom(c: Config, s: State) {
    c.threaded ==> |s.queue| < c.queue
  }

  predicate Quiet(s: State) {
    s.queue == [] && s.worker.Idle?
  }

  predicate MainCanContinue(c: Config, s: State) {
    match s.phase
    case Adding => s.local.Some? && s.local.value < |s.jobs| && QueueHasRoom(c, s)
    case Reacquiring => true
    case Joining => Quiet(s)
    case _ => false
  }

  function Continue(c: Config, s: State): State
    requires MainCanContinue(c, s)
  {
    match s.phase
    case Adding => Enqueue(c, s, s.local.value)
    case Reacquiring => Acquire(s)
    case Joining => EndSequence(s)
  }

  predicate Enabled(c: Config, s: State, e: Event) {
    match e
    case WorkerTake => s.worker.Idle? && s.queue != []
    case WorkerExecute => s.worker.Took? && s.worker.job < |s.jobs|
    case WorkerRelease => s.worker.Did?
    case WorkerFinish => s.worker.Returning?
    case AcquireJob => s.phase.Resting?
    case Load(data) =>
      s.phase.Holding? && s.local.Some? && s.local.value < |s.jobs| && |data| <= |s.jobs[s.local.value].buffer|
    case Submit => s.phase.Holding?
    case ReleaseJob => s.phase.Holding? && s.local.Some?
    case EndSparse => s.phase.Resting? || s.phase.Holding?
    case MainContinue => MainCanContinue(c, s)
  }

  function Step(c: Config, s: State, e: Event): State
    requires Enabled(c, s, e)
  {
    match e
    case WorkerTake => s.(worker := Took(s.queue[0]), queue := s.queue[1..])
    case WorkerExecute => WriteOut(c, s, s.worker.job).(worker := Did(s.worker.job))
    case WorkerRelease => Release(c, s.(worker := Returning), s.worker.job)
    case WorkerFinish => s.(worker := Idle)
    case AcquireJob => Acquire(s)
    case Load(data) =>
      var job := s.jobs[s.local.value];
      s.(jobs := s.jobs[s.local.value := Job(data + job.buffer[|data|..], |data|)])
    case Submit => s.(phase := Adding)
    case ReleaseJob => Release(c, s.(local := None, phase := Resting), s.local.value)
    case EndSparse => s.(phase := Joining)
    case MainContinue => Continue(c, s)
  }

  /** A pool with every job available, whose file is positioned at its end. */
  predicate Init(c: Config, s: State) {
    && s.file.pos == |s.file.content| && s.storedSkips == 0
    && |s.jobs| == c.jobs && (forall job <- s.jobs :: |job.buffer| == c.jobSize)
    && s.available == seq(c.jobs, i => i) && s.queue == [] && s.worker.Idle? && s.local.None?
    && s.phase.Resting? && s.start == s.file && s.submitted == [] && s.executed == 0
  }

  predicate Run(c: Config, s: State, events: seq<Event>, t: State)
    decreases |events|
  {
    if events == [] then s == t
    else Enabled(c, s, events[0]) && Run(c, Step(c, s, events[0]), events[1..], t)
  }
}
