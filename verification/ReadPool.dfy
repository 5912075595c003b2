/** The asynchronous read pool: a main thread and one worker share a fixed set of jobs.
    Every atomic action of either thread is an event; a run is any sequence of enabled
    events, so a statement about all runs is a statement about all schedules. */
module ReadPool {
  import opened Bytes
  import opened FileModel
  import opened JobLists

  // ---- State ----

  /** `jobs` I/O jobs of `jobSize` bytes; the thread pool queues at most `queue` of them.
      Without threads, enqueuing a job executes it on the spot. */
  datatype Config = Config(jobSize: nat, jobs: nat, queue: nat, threaded: bool) {
    predicate Valid() {
      0 < jobSize && 2 <= jobs && 0 < queue
    }
  }

  datatype Job = Job(buffer: bytes, used: nat, offset: nat)

  /** What `srcBuffer` points at. */
  datatype Place = Coalesced(at: nat) | InJob(job: nat, at: nat)

  /** Where the main thread is. A filling thread remembers how much it wants
      and whether it is appending to the coalescing buffer. */
  datatype Phase =
    | Closed
    | Joining(next: Option<bytes>)
    | Starting
    | StartAdding(job: nat)
    | Ready
    | Releasing(want: nat, append: bool)
    | Acquiring(want: nat, append: bool)
    | Adding(want: nat, append: bool, job: nat)
    | Scanning(want: nat, append: bool)
    | Waiting(want: nat, append: bool)
    | Crashed

  /** `consumed`, `ready`, `base` and `front` only record history: the bytes handed to the
      client, the executed jobs not yet taken in file order, the offset of the next job to
      take and the offset of the next job to execute. No step's outcome depends on them. */
  datatype State = State(
    file: bytes, filePos: nat,
    jobs: seq<Job>, available: seq<nat>, queue: seq<nat>, worker: Worker, completed: seq<nat>, held: Option<nat>,
    reachedEof: bool, nextReadOffset: nat, waitingOnOffset: nat,
    coalesceBuffer: bytes, src: Place, loaded: nat,
    phase: Phase,
    consumed: bytes, ready: seq<nat>, base: nat, front: nat)

  function HeldJobs(s: State): seq<nat> {
    if s.held.Some? then [s.held.value] else []
  }

  function LocalJobs(p: Phase): seq<nat> {
    if p.StartAdding? || p.Adding? then [p.job] else []
  }

  function SrcSpace(s: State): bytes {
    match s.src
    case Coalesced(_) => s.coalesceBuffer
    case InJob(j, _) => if j < |s.jobs| then s.jobs[j].buffer else []
  }

  /** The exposed bytes: `srcBufferLoaded` bytes from `srcBuffer`. */
  function Window(s: State): bytes
    requires s.src.at + s.loaded <= |SrcSpace(s)|
  {
    SrcSpace(s)[s.src.at..s.src.at + s.loaded]
  }

  /** AIO_ReadPool_numReadsInFlight */
  function ReadsInFlight(c: Config, s: State): int {
    c.jobs - (|s.available| + |s.completed| + |HeldJobs(s)|)
  }

  // ---- Events ----

  datatype Event =
    | WorkerTake | WorkerExecute | WorkerComplete | WorkerFinish
    | ReorderCompleted(order: seq<nat>) // completions may be published in any order
    | SpuriousWake
    | SetFile(next: Option<bytes>) | Fill(n: nat) | Consume(n: nat) // the client's calls
    | MainContinue                                                  // the next action inside a call

  function Crash(s: State): State {
    s.(phase := Crashed)
  }

  /** `fread` into job `j`, unless the end of the file was already met. */
  function ReadInto(c: Config, s: State, j: nat): State
    requires j < |s.jobs|
  {
    var job := s.jobs[j];
    var data := if s.reachedEof then [] else Slice(s.file, s.filePos, c.jobSize);
    var rest := if |data| <= |job.buffer| then job.buffer[|data|..] else [];
    s.(jobs := s.jobs[j := Job(data + rest, |data|, job.offset)],
       filePos := s.filePos + |data|,
       reachedEof := s.reachedEof || |data| < c.jobSize,
       ready := s.ready + [j],
       front := s.front + c.jobSize)
  }

  function Publish(c: Config, s: State, j: nat): State {
    if |s.completed| < c.jobs then s.(completed := s.completed + [j]) else Crash(s)
  }

  function Signal(p: Phase): Phase {
    if p.Waiting? then Scanning(p.want, p.append) else p
  }

  /** POOL_add when the queue has room; without threads, the job is executed here and now. */
  function Enqueue(c: Config, s: State, j: nat): State
    requires j < |s.jobs|
  {
    if c.threaded then s.(queue := s.queue + [j]) else Publish(c, ReadInto(c, s, j), j)
  }

  function WithJob(p: Phase, j: nat): Phase {
    match p
    case Acquiring(want, append) => Adding(want, append, j)
    case _ => StartAdding(j)
  }

  /** AIO_IOPool_acquireJob and the offset that AIO_ReadPool_enqueueRead gives the job. */
  function Acquire(c: Config, s: State): State {
    var n := |s.available|;
    if n == 0 || |s.jobs| <= s.available[n - 1] then Crash(s)
    else
      var j := s.available[n - 1];
      s.(available := s.available[..n - 1],
         jobs := s.jobs[j := s.jobs[j].(used := 0, offset := s.nextReadOffset)],
         nextReadOffset := s.nextReadOffset + c.jobSize,
         phase := WithJob(s.phase, j))
  }

  function Release(c: Config, s: State, j: nat): State {
    if |s.available| < c.jobs then s.(available := s.available + [j]) else Crash(s)
  }

  /** AIO_ReadPool_findNextWaitingOffsetCompletedJob_locked: the first completed job with this offset. */
  function Find(jobs: seq<Job>, completed: seq<nat>, offset: nat): (found: Option<nat>)
    ensures found.Some? ==> found.value < |completed| && completed[found.value] < |jobs|
    ensures found.Some? ==> jobs[completed[found.value]].offset == offset
    ensures found.None? ==> forall j <- completed :: j < |jobs| ==> jobs[j].offset != offset
  {
    if completed == [] then None
    else if completed[0] < |jobs| && jobs[completed[0]].offset == offset then Some(0)
    else
      var f := Find(jobs, completed[1..], offset);
      if f.Some? then Some(f.value + 1) else None
  }

  function CopyInto(space: bytes, at: nat, data: bytes): bytes
    requires at + |data| <= |space|
  {
    space[..at] + data + space[at + |data|..]
  }

  /** The beginning of AIO_ReadPool_fillBuffer: nothing to do, or the leftover moves to
      the front of the coalescing buffer before its job is given up. */
  function BeginFill(c: Config, s: State, n: nat): State
    requires s.src.at + s.loaded <= |SrcSpace(s)|
  {
    var want := Min(n, c.jobSize);
    if want <= s.loaded then s
    else
      var append := 0 < s.loaded;
      var phase := if s.held.Some? then Releasing(want, append) else Scanning(want, append);
      if !append then s.(phase := phase)
      else if |s.coalesceBuffer| < s.loaded then Crash(s)
      else s.(coalesceBuffer := CopyInto(s.coalesceBuffer, 0, Window(s)), src := Coalesced(0), phase := phase)
  }

  /** The taken job becomes the held one and its bytes are exposed. */
  function Expose(c: Config, s: State, i: nat, append: bool): State
    requires i < |s.completed| && s.completed[i] < |s.jobs|
  {
    var j := s.completed[i];
    var used := s.jobs[j].used;
    if s.jobs[j].offset != s.waitingOnOffset || |s.jobs[j].buffer| < used then Crash(s)
    else
      var s1 := s.(completed := SwapRemove(s.completed, i), held := Some(j), phase := Ready,
                   waitingOnOffset := s.waitingOnOffset + used,
                   ready := if s.ready == [] then [] else s.ready[1..], base := s.base + c.jobSize);
      if !append then s1.(src := InJob(j, 0), loaded := used)
      else if 2 * c.jobSize < s.loaded + used || |s.coalesceBuffer| < s.loaded + used then Crash(s)
      else s1.(coalesceBuffer := CopyInto(s.coalesceBuffer, s.loaded, s.jobs[j].buffer[..used]),
               loaded := s.loaded + used)
  }

  function Scan(c: Config, s: State): State
    requires s.phase.Scanning?
  {
    var found := Find(s.jobs, s.completed, s.waitingOnOffset);
    if found.Some? then Expose(c, s, found.value, s.phase.append)
    else if ReadsInFlight(c, s) <= 0 then s.(phase := Ready)
    else if !c.threaded then Crash(s)
    else s.(phase := Waiting(s.phase.want, s.phase.append))
  }

  /** AIO_ReadPool_setFile once every queued job has finished. */
  function Reset(c: Config, s: State, next: Option<bytes>): State {
    var available := s.available + s.completed + HeldJobs(s);
    if |available| != c.jobs then Crash(s)
    else
      s.(file := if next.Some? then next.value else [], filePos := 0,
         available := available, completed := [], held := None,
         reachedEof := false, nextReadOffset := 0, waitingOnOffset := 0,
         src := Coalesced(0), loaded := 0,
         phase := if next.Some? then Starting else Closed,
         consumed := [], ready := [], base := 0, front := 0)
  }

  predicate QueueHasRoom(c: Config, s: State) {
    c.threaded ==> |s.queue| < c.queue
  }

  predicate Quiet(s: State) {
    s.queue == [] && s.worker.Idle?
  }

  /** The main thread is inside a call and is not blocked. */
  predicate MainCanContinue(c: Config, s: State) {
    match s.phase
    case Joining(_) => Quiet(s)
    case Starting => true
    case StartAdding(j) => j < |s.jobs| && QueueHasRoom(c, s)
    case Releasing(_, _) => s.held.Some?
    case Acquiring(_, _) => true
    case Adding(_, _, j) => j < |s.jobs| && QueueHasRoom(c, s)
    case Scanning(_, _) => true
    case _ => false
  }

  function Continue(c: Config, s: State): State
    requires MainCanContinue(c, s)
  {
    match s.phase
    case Joining(next) => Reset(c, s, next)
    case Starting => if s.available == [] then s.(phase := Ready) else Acquire(c, s)
    case StartAdding(j) => Enqueue(c, s.(phase := Starting), j)
    case Releasing(want, append) =>
      Release(c, s.(held := None, phase := Acquiring(want, append)), s.held.value)
    case Acquiring(_, _) => Acquire(c, s)
    case Adding(want, append, j) => Enqueue(c, s.(phase := Scanning(want, append)), j)
    case Scanning(_, _) => Scan(c, s)
  }

  predicate Enabled(c: Config, s: State, e: Event) {
    match e
    case WorkerTake => s.worker.Idle? && s.queue != []
    case WorkerExecute => s.worker.Took? && s.worker.job < |s.jobs|
    case WorkerComplete => s.worker.Did?
    case WorkerFinish => s.worker.Returning?
    case ReorderCompleted(order) => multiset(order) == multiset(s.completed)
    case SpuriousWake => s.phase.Waiting?
    case SetFile(_) => s.phase.Ready? || s.phase.Closed?
    case Fill(_) => s.phase.Ready? && s.src.at + s.loaded <= |SrcSpace(s)|
    case Consume(n) => s.phase.Ready? && n <= s.loaded && s.src.at + s.loaded <= |SrcSpace(s)|
    case MainContinue => MainCanContinue(c, s)
  }

  function Step(c: Config, s: State, e: Event): State
    requires Enabled(c, s, e)
  {
    match e
    case WorkerTake => s.(worker := Took(s.queue[0]), queue := s.queue[1..])
    case WorkerExecute => ReadInto(c, s, s.worker.job).(worker := Did(s.worker.job))
    case WorkerComplete => Publish(c, s.(worker := Returning, phase := Signal(s.phase)), s.worker.job)
    case WorkerFinish => s.(worker := Idle)
    case ReorderCompleted(order) => s.(completed := order)
    case SpuriousWake => s.(phase := Signal(s.phase))
    case SetFile(next) => s.(phase := Joining(next))
    case Fill(n) => BeginFill(c, s, n)
    case Consume(n) =>
      s.(src := if s.src.InJob? then InJob(s.src.job, s.src.at + n) else Coalesced(s.src.at + n),
         loaded := s.loaded - n, consumed := s.consumed + Window(s)[..n])
    case MainContinue => Continue(c, s)
  }

  /** The pool as AIO_ReadPool_create leaves it. */
  predicate Init(c: Config, s: State) {
    && s.phase.Closed? && s.file == [] && s.filePos == 0
    && |s.jobs| == c.jobs && (forall job <- s.jobs :: |job.buffer| == c.jobSize)
    && s.available == seq(c.jobs, i => i)
    && s.queue == [] && s.worker.Idle? && s.completed == [] && s.held.None?
    && !s.reachedEof && s.nextReadOffset == s.waitingOnOffset == 0
    && |s.coalesceBuffer| == 2 * c.jobSize && s.src == Coalesced(0) && s.loaded == 0
    && s.consumed == [] && s.ready == [] && s.base == s.front == 0
  }

  /** The events are enabled one after the other and lead from `s` to `t`. */
  predicate Run(c: Config, s: State, events: seq<Event>, t: State)
    decreases |events|
  {
    if events == [] then s == t
    else Enabled(c, s, events[0]) && Run(c, Step(c, s, events[0]), events[1..], t)
  }
}
