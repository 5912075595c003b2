/** What every reachable state of the read pool keeps, for every client and every schedule. */
module ReadPoolSafety {
  import opened Bytes
  import opened FileModel
  import opened JobLists
  import opened ReadPool

  // ---- Ownership ----

  /** In how many places job `j` is. */
  function Owners(s: State, j: nat): nat {
    Count(s.available, j) + Count(s.queue, j) + Count(WorkerJobs(s.worker), j)
    + Count(s.completed, j) + Count(HeldJobs(s), j) + Count(LocalJobs(s.phase), j)
  }

  function PlacesTaken(s: State): nat {
    |s.available| + |s.queue| + |WorkerJobs(s.worker)| + |s.completed| + |HeldJobs(s)| + |LocalJobs(s.phase)|
  }

  // ---- File order ----

  /** The jobs of `order` have the offsets `from`, `from + step`, ... up to `to`. */
  ghost predicate Spaced(jobs: seq<Job>, order: seq<nat>, from: nat, step: nat, to: nat) {
    if order == [] then from == to
    else order[0] < |jobs| && jobs[order[0]].offset == from && Spaced(jobs, order[1..], from + step, step, to)
  }

  lemma {:induction false} SpacedAppend(jobs: seq<Job>, order: seq<nat>, from: nat, step: nat, to: nat, j: nat)
    requires Spaced(jobs, order, from, step, to) && j < |jobs| && jobs[j].offset == to
    ensures Spaced(jobs, order + [j], from, step, to + step)
  {
    if order == [] {
      assert (order + [j])[1..] == [];
    } else {
      SpacedAppend(jobs, order[1..], from + step, step, to, j);
      assert (order + [j])[1..] == order[1..] + [j];
    }
  }

  /** Only the offsets of the listed jobs matter. */
  lemma {:induction false} SpacedFrame(jobs: seq<Job>, jobs': seq<Job>, order: seq<nat>, from: nat, step: nat, to: nat)
    requires Spaced(jobs, order, from, step, to) && |jobs'| == |jobs|
    requires forall j <- order :: j < |jobs| ==> jobs'[j].offset == jobs[j].offset
    ensures Spaced(jobs', order, from, step, to)
  {
    if order != [] {
      SpacedFrame(jobs, jobs', order[1..], from + step, step, to);
    }
  }

  /** The offsets lie apart: only the first job has the first offset. */
  lemma {:induction false} SpacedBounds(jobs: seq<Job>, order: seq<nat>, from: nat, step: nat, to: nat)
    requires Spaced(jobs, order, from, step, to)
    ensures from <= to
    ensures forall j <- order :: j < |jobs| && from <= jobs[j].offset && jobs[j].offset + step <= to
    ensures 0 < step ==> forall j <- order :: jobs[j].offset == from ==> j == order[0]
    ensures order != [] ==> from + step <= to
  {
    if order != [] {
      SpacedBounds(jobs, order[1..], from + step, step, to);
      forall j | j in order ensures j < |jobs| && from <= jobs[j].offset && jobs[j].offset + step <= to
        && (0 < step && jobs[j].offset == from ==> j == order[0]) {
        assert j == order[0] || j in order[1..];
      }
    }
  }

  /** The executed jobs in flight order are followed by these. */
  function Pending(s: State): seq<nat> {
    (if s.worker.Took? then [s.worker.job] else []) + s.queue + LocalJobs(s.phase)
  }

  function JustDone(w: Worker): multiset<nat> {
    if w.Did? then multiset{w.job} else multiset{}
  }

  /** The job holds what the file has at its offset. */
  ghost predicate Filled(c: Config, file: bytes, job: Job) {
    && job.used <= |job.buffer|
    && job.buffer[..job.used] == Slice(file, job.offset, c.jobSize)
  }

  // ---- The invariant ----

  ghost predicate Conserved(c: Config, s: State) {
    && |s.jobs| == c.jobs && PlacesTaken(s) == c.jobs
    && forall j: nat :: Owners(s, j) == if j < c.jobs then 1 else 0
  }

  ghost predicate Ordered(c: Config, s: State) {
    && multiset(s.ready) == multiset(s.completed) + JustDone(s.worker)
    && Spaced(s.jobs, s.ready, s.base, c.jobSize, s.front)
    && Spaced(s.jobs, Pending(s), s.front, c.jobSize, s.nextReadOffset)
    && s.filePos == Min(s.front, |s.file|)
    && (s.reachedEof <==> |s.file| < s.front)
    && s.waitingOnOffset == Min(s.base, |s.file|)
    && (forall j <- s.ready :: j < |s.jobs| && Filled(c, s.file, s.jobs[j]))
  }

  /** What was consumed and what is exposed make up the file so far. */
  ghost predicate Delivered(c: Config, s: State) {
    && (forall job <- s.jobs :: |job.buffer| == c.jobSize)
    && |s.coalesceBuffer| == 2 * c.jobSize
    && s.src.at + s.loaded <= |SrcSpace(s)|
    && s.waitingOnOffset <= |s.file|
    && s.consumed + Window(s) == s.file[..s.waitingOnOffset]
    && (0 < s.loaded && s.src.InJob? ==> s.held == Some(s.src.job))
  }

  ghost predicate Wanting(c: Config, s: State, want: nat, append: bool) {
    && 0 < want <= c.jobSize
    && if append then s.src == Coalesced(0) && 0 < s.loaded < want else s.loaded == 0
  }

  ghost predicate Controlled(c: Config, s: State) {
    && !s.phase.Crashed?
    && (c.threaded ==> |s.queue| <= c.queue)
    && (!c.threaded ==> Quiet(s) && !s.phase.Waiting?)
    && match s.phase
       case Starting => s.held.None?
       case StartAdding(_) => s.held.None?
       case Ready => s.available == []
       case Releasing(want, append) => s.available == [] && s.held.Some? && Wanting(c, s, want, append)
       case Acquiring(want, append) => |s.available| == 1 && s.held.None? && Wanting(c, s, want, append)
       case Adding(want, append, _) => s.available == [] && s.held.None? && Wanting(c, s, want, append)
       case Scanning(want, append) => s.available == [] && s.held.None? && Wanting(c, s, want, append)
       case Waiting(want, append) =>
         s.available == [] && s.held.None? && Wanting(c, s, want, append) && 0 < ReadsInFlight(c, s)
       case _ => true
  }

  ghost predicate Inv(c: Config, s: State) {
    c.Valid() && Conserved(c, s) && Ordered(c, s) && Delivered(c, s) && Controlled(c, s)
  }

  lemma InitInv(c: Config, s: State)
    requires c.Valid() && Init(c, s)
    ensures Inv(c, s)
  {
    forall j: nat ensures Owners(s, j) == if j < c.jobs then 1 else 0 {
      IdentityOnce(c.jobs, j);
    }
  }

  // ---- Frames: what each part of the invariant depends on ----

  lemma OrderedFrame(c: Config, s: State, t: State)
    requires Ordered(c, s)
    requires t.ready == s.ready && t.jobs == s.jobs && t.base == s.base && t.front == s.front
    requires multiset(t.completed) + JustDone(t.worker) == multiset(s.completed) + JustDone(s.worker)
    requires Pending(t) == Pending(s) && t.nextReadOffset == s.nextReadOffset && t.file == s.file
    requires t.filePos == s.filePos && t.reachedEof == s.reachedEof && t.waitingOnOffset == s.waitingOnOffset
    ensures Ordered(c, t)
  {
  }

  lemma DeliveredFrame(c: Config, s: State, t: State)
    requires Delivered(c, s)
    requires t.jobs == s.jobs && t.file == s.file && t.waitingOnOffset == s.waitingOnOffset
    requires t.coalesceBuffer == s.coalesceBuffer && t.src == s.src && t.loaded == s.loaded && t.consumed == s.consumed
    requires s.held == t.held || s.loaded == 0 || s.src.Coalesced?
    ensures Delivered(c, t)
  {
  }

  lemma ConservedFrame(c: Config, s: State, t: State)
    requires Conserved(c, s) && |t.jobs| == |s.jobs| && PlacesTaken(t) == PlacesTaken(s)
    requires forall j: nat :: Owners(t, j) == Owners(s, j)
    ensures Conserved(c, t)
  {
  }

  // ---- Worker steps ----

  lemma TakeKeeps(c: Config, s: State)
    requires Inv(c, s) && Enabled(c, s, WorkerTake)
    ensures Inv(c, Step(c, s, WorkerTake))
  {
    hide Conserved, Ordered, Delivered, Owners, Continue, BeginFill;
    var s' := Step(c, s, WorkerTake);
    TakeConserves(c, s);
    assert Pending(s') == Pending(s) by {
      assert s.queue == [s.queue[0]] + s.queue[1..];
    }
    OrderedFrame(c, s, s');
    DeliveredFrame(c, s, s');
  }

  lemma TakeConserves(c: Config, s: State)
    requires Conserved(c, s) && Enabled(c, s, WorkerTake)
    ensures Conserved(c, Step(c, s, WorkerTake))
  {
    var t := s.(worker := Took(s.queue[0]), queue := s.queue[1..]);
    assert Step(c, s, WorkerTake) == t;
    hide Step, Enabled, Continue, Count;
    forall j: nat ensures Owners(t, j) == Owners(s, j) {
      CountCons(s.queue, j);
    }
    ConservedFrame(c, s, t);
  }

  /** Reading into the first pending job makes it the last ready one. */
  lemma ReadIntoOrders(c: Config, s: State, j: nat, later: seq<nat>)
    requires c.Valid() && j < |s.jobs| && |s.jobs[j].buffer| == c.jobSize
    requires Spaced(s.jobs, s.ready, s.base, c.jobSize, s.front) && j !in s.ready
    requires Spaced(s.jobs, [j] + later, s.front, c.jobSize, s.nextReadOffset) && j !in later
    requires s.filePos == Min(s.front, |s.file|) && (s.reachedEof <==> |s.file| < s.front)
    requires forall i <- s.ready :: i < |s.jobs| && Filled(c, s.file, s.jobs[i])
    ensures var s' := ReadInto(c, s, j);
      && Spaced(s'.jobs, s'.ready, s'.base, c.jobSize, s'.front)
      && Spaced(s'.jobs, later, s'.front, c.jobSize, s'.nextReadOffset)
      && s'.filePos == Min(s'.front, |s'.file|) && (s'.reachedEof <==> |s'.file| < s'.front)
      && (forall i <- s'.ready :: i < |s'.jobs| && Filled(c, s'.file, s'.jobs[i]))
  {
    var s' := ReadInto(c, s, j);
    assert ([j] + later)[1..] == later;
    assert s'.jobs[j].buffer[..s'.jobs[j].used] == Slice(s.file, s.front, c.jobSize);
    SpacedFrame(s.jobs, s'.jobs, s.ready, s.base, c.jobSize, s.front);
    SpacedAppend(s'.jobs, s.ready, s.base, c.jobSize, s.front, j);
    SpacedFrame(s.jobs, s'.jobs, later, s.front + c.jobSize, c.jobSize, s.nextReadOffset);
  }

  /** The worker writes only into a buffer that is not exposed. */
  lemma ReadIntoDelivers(c: Config, s: State, j: nat)
    requires j < |s.jobs| && Delivered(c, s) && s.held != Some(j)
    ensures Delivered(c, ReadInto(c, s, j))
    ensures 0 < s.loaded ==> Window(ReadInto(c, s, j)) == Window(s)
  {
    var s' := ReadInto(c, s, j);
    var data := if s.reachedEof then [] else Slice(s.file, s.filePos, c.jobSize);
    assert |s'.jobs[j].buffer| == c.jobSize;
    assert Window(s') == Window(s);
  }

  /** A job in one place is in no other. */
  lemma OnlyThere(c: Config, s: State, j: nat)
    requires Conserved(c, s)
    requires j in WorkerJobs(s.worker) || j in LocalJobs(s.phase)
    ensures j < c.jobs && j !in s.available && j !in s.completed && j !in s.queue && HeldJobs(s) != [j]
    ensures j in WorkerJobs(s.worker) ==> j !in LocalJobs(s.phase)
  {
    assert Owners(s, j) <= 1;
    assert Count(WorkerJobs(s.worker), j) + Count(LocalJobs(s.phase), j) >= 1;
  }

  lemma ExecuteKeeps(c: Config, s: State)
    requires Inv(c, s) && Enabled(c, s, WorkerExecute)
    ensures Inv(c, Step(c, s, WorkerExecute))
  {
    hide Conserved, Ordered, Delivered, Continue, BeginFill;
    var r := ReadInto(c, s, s.worker.job);
    OnlyThere(c, s, s.worker.job);
    ExecuteConserves(c, s);
    ExecuteOrders(c, s);
    ReadIntoDelivers(c, s, s.worker.job);
    DeliveredFrame(c, r, Step(c, s, WorkerExecute));
  }

  lemma ExecuteOrders(c: Config, s: State)
    requires c.Valid() && Conserved(c, s) && Ordered(c, s) && Delivered(c, s) && Enabled(c, s, WorkerExecute)
    ensures Ordered(c, Step(c, s, WorkerExecute))
  {
    var j := s.worker.job;
    assert |s.jobs[j].buffer| == c.jobSize;
    OnlyThere(c, s, j);
    assert multiset(s.ready) == multiset(s.completed) + multiset{} == multiset(s.completed);
    hide Conserved, Delivered, Owners, Spaced, Filled, PlacesTaken, Continue, BeginFill, ReadInto;
    NewlyReady(s.ready, s.completed, j);
    var later := s.queue + LocalJobs(s.phase);
    assert Pending(s) == [j] + later;
    ReadIntoOrders(c, s, j, later);
    ReadIntoFields(c, s, j);
    var t := ReadInto(c, s, j).(worker := Did(j));
    assert Step(c, s, WorkerExecute) == t;
    hide Step, Enabled;
    assert Pending(t) == later;
  }

  lemma ReadIntoFields(c: Config, s: State, j: nat)
    requires j < |s.jobs|
    ensures var t := ReadInto(c, s, j);
      && t.ready == s.ready + [j] && t.completed == s.completed && t.queue == s.queue && t.phase == s.phase
      && t.worker == s.worker && t.base == s.base && t.waitingOnOffset == s.waitingOnOffset
      && t.file == s.file && t.nextReadOffset == s.nextReadOffset
  {
  }

  lemma NewlyReady(ready: seq<nat>, completed: seq<nat>, j: nat)
    requires multiset(ready) == multiset(completed) && j !in completed
    ensures j !in ready && multiset(ready + [j]) == multiset(completed) + multiset{j}
  {
    assert multiset(ready)[j] == 0;
  }

  lemma ExecuteConserves(c: Config, s: State)
    requires Conserved(c, s) && Enabled(c, s, WorkerExecute)
    ensures Conserved(c, Step(c, s, WorkerExecute))
  {
    ConservedFrame(c, s, Step(c, s, WorkerExecute));
  }

  lemma CompleteKeeps(c: Config, s: State)
    requires Inv(c, s) && Enabled(c, s, WorkerComplete)
    ensures Inv(c, Step(c, s, WorkerComplete))
  {
    hide Conserved, Ordered, Delivered, Owners, Continue, BeginFill;
    CompleteConserves(c, s);
    var s' := s.(worker := Returning, phase := Signal(s.phase), completed := s.completed + [s.worker.job]);
    assert Step(c, s, WorkerComplete) == s';
    hide Step, Enabled;
    assert Pending(s') == Pending(s);
    CompletedOrders(c, s, s');
    DeliveredFrame(c, s, s');
  }

  lemma CompletedOrders(c: Config, s: State, t: State)
    requires Ordered(c, s) && s.worker.Did? && Pending(t) == Pending(s)
    requires t == s.(worker := Returning, phase := t.phase, completed := s.completed + [s.worker.job])
    ensures Ordered(c, t)
  {
    hide Ordered, Pending;
    assert multiset(t.completed) + JustDone(t.worker) == multiset(s.completed) + JustDone(s.worker);
    OrderedFrame(c, s, t);
  }

  lemma CompleteConserves(c: Config, s: State)
    requires Conserved(c, s) && Enabled(c, s, WorkerComplete)
    ensures |s.completed| < c.jobs
    ensures Conserved(c, Step(c, s, WorkerComplete))
  {
    hide Continue, BeginFill;
    var s' := Step(c, s, WorkerComplete);
    assert |s.completed| < c.jobs;
    assert s'.completed == s.completed + [s.worker.job] && LocalJobs(s'.phase) == LocalJobs(s.phase);
    forall i: nat ensures Owners(s', i) == Owners(s, i) {
      CountSnoc(s.completed, s.worker.job, i);
    }
    ConservedFrame(c, s, s');
  }

  /** Steps that move no job. */
  lemma IdleStepKeeps(c: Config, s: State, e: Event)
    requires Inv(c, s) && Enabled(c, s, e) && (e.WorkerFinish? || e.ReorderCompleted? || e.SpuriousWake?)
    ensures Inv(c, Step(c, s, e))
  {
    hide Conserved, Ordered, Delivered, Owners, Continue, BeginFill;
    var s' := Step(c, s, e);
    IdleStepConserves(c, s, e);
    IdleStepOrders(c, s, e);
    DeliveredFrame(c, s, s');
  }

  lemma IdleStepOrders(c: Config, s: State, e: Event)
    requires Ordered(c, s) && Enabled(c, s, e) && (e.WorkerFinish? || e.ReorderCompleted? || e.SpuriousWake?)
    ensures Ordered(c, Step(c, s, e))
  {
    hide Ordered, Continue, BeginFill;
    assert Pending(Step(c, s, e)) == Pending(s);
    OrderedFrame(c, s, Step(c, s, e));
  }

  lemma IdleStepConserves(c: Config, s: State, e: Event)
    requires Conserved(c, s) && Enabled(c, s, e) && (e.WorkerFinish? || e.ReorderCompleted? || e.SpuriousWake?)
    ensures Conserved(c, Step(c, s, e)) && |Step(c, s, e).completed| == |s.completed|
  {
    hide Continue, BeginFill, Conserved;
    var t := Step(c, s, e);
    assert WorkerJobs(t.worker) == WorkerJobs(s.worker) && LocalJobs(t.phase) == LocalJobs(s.phase);
    hide Step, Enabled, Owners, PlacesTaken;
    PermutedConserves(c, s, t);
  }

  lemma PermutedConserves(c: Config, s: State, t: State)
    requires Conserved(c, s) && t.jobs == s.jobs && t.available == s.available && t.queue == s.queue
    requires WorkerJobs(t.worker) == WorkerJobs(s.worker) && LocalJobs(t.phase) == LocalJobs(s.phase) && t.held == s.held
    requires multiset(t.completed) == multiset(s.completed)
    ensures Conserved(c, t) && |t.completed| == |s.completed|
  {
    hide WorkerJobs, LocalJobs;
    assert |t.completed| == |s.completed| by {
      assert |multiset(t.completed)| == |multiset(s.completed)|;
    }
    ConservedFrame(c, s, t);
  }

  // ---- The client's calls ----

  lemma SetFileKeeps(c: Config, s: State, next: Option<bytes>)
    requires Inv(c, s) && Enabled(c, s, SetFile(next))
    ensures Inv(c, Step(c, s, SetFile(next)))
  {
    hide Continue, BeginFill;
    PhaseOnlyKeeps(c, s, Joining(next));
  }

  /** Only the phase changes, and no job is local before or after. */
  lemma PhaseOnlyKeeps(c: Config, s: State, phase: Phase)
    requires c.Valid() && Conserved(c, s) && Ordered(c, s) && Delivered(c, s)
    requires LocalJobs(phase) == LocalJobs(s.phase) == []
    ensures var t := s.(phase := phase); Conserved(c, t) && Ordered(c, t) && Delivered(c, t)
  {
    hide Conserved, Ordered, Delivered;
    var t := s.(phase := phase);
    assert Pending(t) == Pending(s);
    ConservedFrame(c, s, t);
    OrderedFrame(c, s, t);
    DeliveredFrame(c, s, t);
  }

  lemma FillKeeps(c: Config, s: State, n: nat)
    requires Inv(c, s) && Enabled(c, s, Fill(n))
    ensures Inv(c, Step(c, s, Fill(n)))
  {
    var want := Min(n, c.jobSize);
    hide Conserved, Ordered, Continue;
    if s.loaded < want {
      var append := 0 < s.loaded;
      var phase := if s.held.Some? then Releasing(want, append) else Scanning(want, append);
      PhaseOnlyKeeps(c, s, phase);
      if append {
        MoveLeftoverKeeps(c, s.(phase := phase));
      }
    }
  }

  /** The leftover is copied to the front of the coalescing buffer, possibly from inside it. */
  lemma MoveLeftoverKeeps(c: Config, s: State)
    requires c.Valid() && Conserved(c, s) && Ordered(c, s) && Delivered(c, s) && s.loaded <= c.jobSize
    ensures var t := s.(coalesceBuffer := CopyInto(s.coalesceBuffer, 0, Window(s)), src := Coalesced(0));
            Conserved(c, t) && Ordered(c, t) && Delivered(c, t)
  {
    var t := s.(coalesceBuffer := CopyInto(s.coalesceBuffer, 0, Window(s)), src := Coalesced(0));
    assert Window(t) == Window(s);
    hide Conserved, Ordered;
    assert Pending(t) == Pending(s);
    ConservedFrame(c, s, t);
    OrderedFrame(c, s, t);
  }

  lemma ConsumeKeeps(c: Config, s: State, n: nat)
    requires Inv(c, s) && Enabled(c, s, Consume(n))
    ensures Inv(c, Step(c, s, Consume(n)))
    ensures Window(Step(c, s, Consume(n))) == Window(s)[n..]
  {
    hide Conserved, Ordered, Continue, BeginFill;
    var t := Step(c, s, Consume(n));
    assert Pending(t) == Pending(s);
    ConservedFrame(c, s, t);
    OrderedFrame(c, s, t);
    ConsumeDelivers(c, s, n);
  }

  lemma ConsumeDelivers(c: Config, s: State, n: nat)
    requires Delivered(c, s) && Enabled(c, s, Consume(n))
    ensures Delivered(c, Step(c, s, Consume(n)))
    ensures Window(Step(c, s, Consume(n))) == Window(s)[n..]
  {
    hide Continue, BeginFill;
    var t := Step(c, s, Consume(n));
    assert SrcSpace(t) == SrcSpace(s);
    assert Window(t) == Window(s)[n..];
    assert Window(s) == Window(s)[..n] + Window(s)[n..];
    ConcatAssociates(s.consumed, Window(s)[..n], Window(s)[n..]);
  }

  // ---- The main thread inside a call ----

  lemma ResetKeeps(c: Config, s: State)
    requires Inv(c, s) && s.phase.Joining? && Quiet(s)
    ensures Inv(c, Reset(c, s, s.phase.next))
    ensures |s.available + s.completed + HeldJobs(s)| == c.jobs // the assertion of AIO_IOPool_setFile
  {
    ResetConserves(c, s);
    hide Conserved;
    var t := Reset(c, s, s.phase.next);
    assert Pending(t) == [];
    assert Window(t) == [];
  }

  lemma ResetConserves(c: Config, s: State)
    requires Conserved(c, s) && s.phase.Joining? && Quiet(s)
    ensures |s.available + s.completed + HeldJobs(s)| == c.jobs
    ensures Conserved(c, Reset(c, s, s.phase.next))
  {
    var t := Reset(c, s, s.phase.next);
    forall j: nat ensures Owners(t, j) == Owners(s, j) {
      CountConcat(s.available + s.completed, HeldJobs(s), j);
      CountConcat(s.available, s.completed, j);
    }
    ConservedFrame(c, s, t);
  }

  /** Acquiring a job and giving it the next offset makes it the last pending one. */
  lemma AcquireKeeps(c: Config, s: State)
    requires Inv(c, s) && (s.phase.Starting? || s.phase.Acquiring?) && s.available != []
    ensures Inv(c, Acquire(c, s))
  {
    AvailableOnlyThere(c, s);
    AcquireControls(c, s);
    hide Conserved, Ordered, Delivered, Controlled, Acquire;
    AcquireConserves(c, s);
    AcquireOrders(c, s);
    AcquireDelivers(c, s);
  }

  lemma AcquireControls(c: Config, s: State)
    requires Controlled(c, s) && (s.phase.Starting? || s.phase.Acquiring?) && s.available != []
    requires s.available[|s.available| - 1] < |s.jobs|
    ensures Controlled(c, Acquire(c, s))
  {
  }

  /** The last available job is nowhere else. */
  lemma AvailableOnlyThere(c: Config, s: State)
    requires Conserved(c, s) && s.available != []
    ensures var j := s.available[|s.available| - 1];
      j < c.jobs && j !in s.completed && j !in s.queue && j !in WorkerJobs(s.worker) && HeldJobs(s) != [j]
  {
    var n := |s.available| - 1;
    var j := s.available[n];
    assert s.available == s.available[..n] + [j];
    CountSnoc(s.available[..n], j, j);
    assert Owners(s, j) <= 1;
  }

  lemma AcquireConserves(c: Config, s: State)
    requires Conserved(c, s) && (s.phase.Starting? || s.phase.Acquiring?) && s.available != []
    ensures Conserved(c, Acquire(c, s))
  {
    AvailableOnlyThere(c, s);
    var n := |s.available| - 1;
    var j := s.available[n];
    var t := Acquire(c, s);
    assert s.available == s.available[..n] + [j];
    assert t.available == s.available[..n] && LocalJobs(t.phase) == [j] && LocalJobs(s.phase) == [];
    assert HeldJobs(t) == HeldJobs(s) && t.queue == s.queue && t.completed == s.completed && t.worker == s.worker
        && |t.jobs| == |s.jobs|;
    hide Acquire, LocalJobs, HeldJobs, WorkerJobs, Conserved;
    forall i: nat ensures Owners(t, i) == Owners(s, i) {
      CountSnoc(s.available[..n], j, i);
    }
    ConservedFrame(c, s, t);
  }

  lemma AcquireOrders(c: Config, s: State)
    requires Conserved(c, s) && Ordered(c, s) && (s.phase.Starting? || s.phase.Acquiring?) && s.available != []
    ensures Ordered(c, Acquire(c, s))
  {
    AvailableOnlyThere(c, s);
    var j := s.available[|s.available| - 1];
    var t := Acquire(c, s);
    NotReady(s, j);
    AcquirePending(c, s);
    OffsetsKept(s.jobs, j, s.nextReadOffset, s.ready, Pending(s));
    assert t.jobs == s.jobs[j := s.jobs[j].(used := 0, offset := s.nextReadOffset)];
    assert t.nextReadOffset == s.nextReadOffset + c.jobSize && t.ready == s.ready && t.completed == s.completed;
    hide Conserved, Owners, Filled, Pending, Acquire;
    SpacedFrame(s.jobs, t.jobs, s.ready, s.base, c.jobSize, s.front);
    SpacedFrame(s.jobs, t.jobs, Pending(s), s.front, c.jobSize, s.nextReadOffset);
    SpacedAppend(t.jobs, Pending(s), s.front, c.jobSize, s.nextReadOffset, j);
  }

  lemma AcquirePending(c: Config, s: State)
    requires (s.phase.Starting? || s.phase.Acquiring?) && s.available != []
    requires var j := s.available[|s.available| - 1]; j < |s.jobs| && j !in s.queue && j !in WorkerJobs(s.worker)
    ensures var j := s.available[|s.available| - 1];
      Pending(Acquire(c, s)) == Pending(s) + [j] && j !in Pending(s)
  {
    assert LocalJobs(s.phase) == [] && WorkerJobs(s.worker) == (if s.worker.Took? || s.worker.Did? then [s.worker.job] else []);
  }

  /** Giving job `j` an offset changes no other job. */
  lemma OffsetsKept(jobs: seq<Job>, j: nat, offset: nat, ready: seq<nat>, pending: seq<nat>)
    requires j < |jobs| && j !in ready && j !in pending
    ensures var jobs' := jobs[j := jobs[j].(used := 0, offset := offset)];
      && (forall i <- ready :: i < |jobs| ==> jobs'[i] == jobs[i])
      && (forall i <- pending :: i < |jobs| ==> jobs'[i] == jobs[i])
  {
  }

  lemma NotReady(s: State, j: nat)
    requires multiset(s.ready) == multiset(s.completed) + JustDone(s.worker)
    requires j !in s.completed && j !in WorkerJobs(s.worker)
    ensures j !in s.ready
  {
    assert multiset(s.ready)[j] == 0;
  }

  lemma AcquireDelivers(c: Config, s: State)
    requires Delivered(c, s) && s.available != [] && s.available[|s.available| - 1] < |s.jobs|
    ensures Delivered(c, Acquire(c, s))
  {
    var t := Acquire(c, s);
    assert SrcSpace(t) == SrcSpace(s);
    assert Window(t) == Window(s);
  }

  lemma EnqueueKeeps(c: Config, s: State, phase: Phase)
    requires Inv(c, s) && (s.phase.StartAdding? || s.phase.Adding?) && QueueHasRoom(c, s)
    requires phase == if s.phase.StartAdding? then Starting else Scanning(s.phase.want, s.phase.append)
    ensures s.phase.job < c.jobs
    ensures Inv(c, Enqueue(c, s.(phase := phase), s.phase.job))
  {
    var j := s.phase.job;
    OnlyThere(c, s, j);
    EnqueueConserves(c, s, phase);
    hide Conserved, Ordered, Delivered;
    EnqueueControls(c, s, phase);
    hide Controlled;
    if c.threaded {
      var t := Enqueue(c, s.(phase := phase), j);
      assert Pending(t) == Pending(s);
      OrderedFrame(c, s, t);
      DeliveredFrame(c, s, t);
    } else {
      EnqueueNowOrders(c, s, phase);
      EnqueueNowDelivers(c, s, phase);
    }
  }

  lemma EnqueueControls(c: Config, s: State, phase: Phase)
    requires Controlled(c, s) && (s.phase.StartAdding? || s.phase.Adding?) && QueueHasRoom(c, s)
    requires phase == if s.phase.StartAdding? then Starting else Scanning(s.phase.want, s.phase.append)
    requires s.phase.job < |s.jobs| && |s.completed| < c.jobs
    ensures Controlled(c, Enqueue(c, s.(phase := phase), s.phase.job))
  {
  }

  lemma EnqueueNowDelivers(c: Config, s: State, phase: Phase)
    requires Delivered(c, s) && !c.threaded && (s.phase.StartAdding? || s.phase.Adding?)
    requires s.phase.job < |s.jobs| && HeldJobs(s) != [s.phase.job] && |s.completed| < c.jobs
    ensures Delivered(c, Enqueue(c, s.(phase := phase), s.phase.job))
  {
    hide Delivered;
    var s1 := s.(phase := phase);
    DeliveredFrame(c, s, s1);
    ReadIntoDelivers(c, s1, s.phase.job);
    DeliveredFrame(c, ReadInto(c, s1, s.phase.job), Enqueue(c, s1, s.phase.job));
  }

  lemma EnqueueConserves(c: Config, s: State, phase: Phase)
    requires Conserved(c, s) && (s.phase.StartAdding? || s.phase.Adding?) && LocalJobs(phase) == []
    requires s.phase.job < c.jobs
    ensures |s.completed| < c.jobs
    ensures Conserved(c, Enqueue(c, s.(phase := phase), s.phase.job))
  {
    var j := s.phase.job;
    var t := Enqueue(c, s.(phase := phase), j);
    assert t.queue == (if c.threaded then s.queue + [j] else s.queue);
    assert t.completed == (if c.threaded then s.completed else s.completed + [j]);
    assert LocalJobs(t.phase) == [] && HeldJobs(t) == HeldJobs(s);
    hide Enqueue;
    forall i: nat ensures Owners(t, i) == Owners(s, i) {
      CountSnoc(if c.threaded then s.queue else s.completed, j, i);
    }
    ConservedFrame(c, s, t);
  }

  lemma EnqueueNowOrders(c: Config, s: State, phase: Phase)
    requires c.Valid() && Conserved(c, s) && Ordered(c, s) && Delivered(c, s) && Quiet(s) && !c.threaded
    requires (s.phase.StartAdding? || s.phase.Adding?) && LocalJobs(phase) == []
    requires s.phase.job < c.jobs && |s.completed| < c.jobs
    ensures Ordered(c, Enqueue(c, s.(phase := phase), s.phase.job))
  {
    var j := s.phase.job;
    OnlyThere(c, s, j);
    assert |s.jobs[j].buffer| == c.jobSize;
    assert multiset(s.ready) == multiset(s.completed) + multiset{} == multiset(s.completed);
    NewlyReady(s.ready, s.completed, j);
    assert Pending(s) == [j] == [j] + [];
    hide Conserved, Delivered, Owners, Spaced, Filled;
    ReadIntoOrders(c, s.(phase := phase), j, []);
    EnqueueNowFields(c, s, phase);
    ReadIntoFields(c, s.(phase := phase), j);
    hide Enqueue, Publish, ReadInto;
    assert Pending(Enqueue(c, s.(phase := phase), j)) == [];
  }

  lemma EnqueueNowFields(c: Config, s: State, phase: Phase)
    requires !c.threaded && (s.phase.StartAdding? || s.phase.Adding?)
    requires s.phase.job < |s.jobs| && |s.completed| < c.jobs
    ensures var t := Enqueue(c, s.(phase := phase), s.phase.job);
      var r := ReadInto(c, s.(phase := phase), s.phase.job);
      t == r.(completed := s.completed + [s.phase.job])
  {
  }

  lemma ReleaseKeeps(c: Config, s: State)
    requires Inv(c, s) && s.phase.Releasing?
    ensures Inv(c, Continue(c, s))
  {
    hide Conserved, Ordered, Delivered, Owners;
    var t := Continue(c, s);
    ReleaseConserves(c, s);
    assert Pending(t) == Pending(s);
    OrderedFrame(c, s, t);
    DeliveredFrame(c, s, t);
  }

  lemma ReleaseConserves(c: Config, s: State)
    requires Conserved(c, s) && s.phase.Releasing? && s.held.Some? && s.available == [] && c.Valid()
    ensures Conserved(c, Continue(c, s))
  {
    var t := s.(held := None, available := [s.held.value], phase := Acquiring(s.phase.want, s.phase.append));
    assert Continue(c, s) == t by {
      assert [] + [s.held.value] == [s.held.value];
    }
    hide Continue;
    assert HeldJobs(s) == t.available && HeldJobs(t) == s.available;
    ConservedFrame(c, s, t);
  }

  // ---- Taking the next job ----

  /** The found job is the next one in file order, whatever the order of the completed list. */
  lemma FoundIsNext(c: Config, s: State)
    requires Inv(c, s)
    ensures var found := Find(s.jobs, s.completed, s.waitingOnOffset);
      found.Some? ==> s.ready != [] && s.completed[found.value] == s.ready[0] && s.waitingOnOffset == s.base
  {
    var found := Find(s.jobs, s.completed, s.waitingOnOffset);
    if found.Some? {
      var j := s.completed[found.value];
      assert j in multiset(s.ready);
      SpacedBounds(s.jobs, s.ready, s.base, c.jobSize, s.front);
    }
  }

  lemma ScanConserves(c: Config, s: State, i: nat)
    requires Conserved(c, s) && s.phase.Scanning? && s.held.None? && i < |s.completed|
    requires s.completed[i] < |s.jobs| && s.ready != [] && !Expose(c, s, i, s.phase.append).phase.Crashed?
    ensures Conserved(c, Expose(c, s, i, s.phase.append))
  {
    hide Expose, SwapRemove;
    var t := Expose(c, s, i, s.phase.append);
    ExposeFields(c, s, i, s.phase.append);
    SwapRemoveLength(s.completed, i);
    assert HeldJobs(t) == [s.completed[i]];
    forall k: nat ensures Owners(t, k) == Owners(s, k) {
      CountSwapRemove(s.completed, i, k);
    }
    ConservedFrame(c, s, t);
  }

  /** What taking a job changes. */
  lemma ExposeFields(c: Config, s: State, i: nat, append: bool)
    requires i < |s.completed| && s.completed[i] < |s.jobs| && s.ready != []
    requires !Expose(c, s, i, append).phase.Crashed?
    ensures var t := Expose(c, s, i, append);
      && t.completed == SwapRemove(s.completed, i) && t.held == Some(s.completed[i]) && t.ready == s.ready[1..]
      && t.waitingOnOffset == s.waitingOnOffset + s.jobs[s.completed[i]].used && t.base == s.base + c.jobSize
      && t.jobs == s.jobs && t.available == s.available && t.queue == s.queue && t.worker == s.worker
      && t.file == s.file && t.filePos == s.filePos && t.reachedEof == s.reachedEof && t.front == s.front
      && t.nextReadOffset == s.nextReadOffset && t.phase == Ready
  {
  }

  lemma ScanOrders(c: Config, s: State, i: nat)
    requires Ordered(c, s) && s.phase.Scanning? && i < |s.completed| && s.completed[i] < |s.jobs|
    requires s.ready != [] && s.completed[i] == s.ready[0] && s.waitingOnOffset == s.base
    requires !Expose(c, s, i, s.phase.append).phase.Crashed?
    ensures Ordered(c, Expose(c, s, i, s.phase.append))
  {
    hide Expose, SwapRemove, Ordered;
    var t := Expose(c, s, i, s.phase.append);
    ExposeFields(c, s, i, s.phase.append);
    assert Pending(t) == Pending(s);
    TakenHistory(c, s, i);
    hide Pending, JustDone;
    TakenOrders(c, s, t);
  }

  lemma TakenHistory(c: Config, s: State, i: nat)
    requires Ordered(c, s) && i < |s.completed| && s.completed[i] < |s.jobs|
    requires s.ready != [] && s.completed[i] == s.ready[0] && s.waitingOnOffset == s.base
    ensures s.waitingOnOffset + s.jobs[s.completed[i]].used == Min(s.base + c.jobSize, |s.file|)
    ensures multiset(s.ready[1..]) == multiset(SwapRemove(s.completed, i)) + JustDone(s.worker)
  {
    hide Pending, SwapRemove, JustDone, Slice;
    assert Filled(c, s.file, s.jobs[s.ready[0]]);
    hide Filled;
    FilledUses(c, s.file, s.jobs[s.ready[0]]);
    ReadyTaken(s.ready, s.completed, i, JustDone(s.worker));
  }

  lemma TakenOrders(c: Config, s: State, t: State)
    requires Ordered(c, s) && s.ready != [] && t.ready == s.ready[1..] && t.base == s.base + c.jobSize
    requires t.jobs == s.jobs && t.file == s.file && t.filePos == s.filePos && t.reachedEof == s.reachedEof
    requires t.front == s.front && t.nextReadOffset == s.nextReadOffset && Pending(t) == Pending(s)
    requires multiset(t.ready) == multiset(t.completed) + JustDone(t.worker)
    requires t.waitingOnOffset == Min(t.base, |t.file|)
    ensures Ordered(c, t)
  {
    hide Pending, JustDone, Filled;
    assert forall j <- t.ready :: j in s.ready;
  }

  lemma FilledUses(c: Config, file: bytes, job: Job)
    requires Filled(c, file, job)
    ensures job.used == |Slice(file, job.offset, c.jobSize)|
    ensures job.offset <= |file| ==> job.offset + job.used == Min(job.offset + c.jobSize, |file|)
  {
  }

  lemma ReadyTaken(ready: seq<nat>, completed: seq<nat>, i: nat, done: multiset<nat>)
    requires multiset(ready) == multiset(completed) + done
    requires ready != [] && i < |completed| && completed[i] == ready[0]
    ensures multiset(ready[1..]) == multiset(SwapRemove(completed, i)) + done
  {
    forall j: nat ensures Count(ready[1..], j) == Count(SwapRemove(completed, i), j) + done[j] {
      CountCons(ready, j);
      CountSwapRemove(completed, i, j);
    }
    assert forall j: nat :: multiset(ready[1..])[j] == (multiset(SwapRemove(completed, i)) + done)[j];
  }

  /** What the file has next is appended to what was delivered. */
  lemma FileContinues(file: bytes, at: nat, n: nat)
    requires at <= |file|
    ensures at + |Slice(file, at, n)| <= |file|
    ensures file[..at] + Slice(file, at, n) == file[..at + |Slice(file, at, n)|]
  {
  }

  lemma ScanDelivers(c: Config, s: State, i: nat)
    requires Delivered(c, s) && s.phase.Scanning? && Wanting(c, s, s.phase.want, s.phase.append)
    requires i < |s.completed| && s.completed[i] < |s.jobs| && Filled(c, s.file, s.jobs[s.completed[i]])
    requires s.jobs[s.completed[i]].offset == s.waitingOnOffset
    ensures var t := Expose(c, s, i, s.phase.append);
      && !t.phase.Crashed? && Delivered(c, t)
      && t.loaded == s.loaded + s.jobs[s.completed[i]].used
  {
    var j := s.completed[i];
    var job := s.jobs[j];
    var t := Expose(c, s, i, s.phase.append);
    FileContinues(s.file, s.waitingOnOffset, c.jobSize);
    assert Window(t) == Window(s) + job.buffer[..job.used];
    ConcatAssociates(s.consumed, Window(s), job.buffer[..job.used]);
  }

  lemma ScanKeeps(c: Config, s: State)
    requires Inv(c, s) && s.phase.Scanning?
    ensures Inv(c, Scan(c, s))
  {
    FoundIsNext(c, s);
    hide Inv, Expose;
    var found := Find(s.jobs, s.completed, s.waitingOnOffset);
    if found.Some? {
      TakenKeeps(c, s, found.value);
    } else {
      NotFoundKeeps(c, s);
    }
  }

  lemma NotFoundKeeps(c: Config, s: State)
    requires Inv(c, s) && s.phase.Scanning? && Find(s.jobs, s.completed, s.waitingOnOffset).None?
    ensures Inv(c, Scan(c, s))
  {
    if !c.threaded {
      SynchronousNeverWaits(c, s);
    }
    var phase := if ReadsInFlight(c, s) <= 0 then Ready else Waiting(s.phase.want, s.phase.append);
    assert Scan(c, s) == s.(phase := phase);
    hide Scan, Find;
    NotFoundControls(c, s, phase);
    PhaseOnlyKeeps(c, s, phase);
  }

  lemma NotFoundControls(c: Config, s: State, phase: Phase)
    requires Controlled(c, s) && s.phase.Scanning? && (!c.threaded ==> ReadsInFlight(c, s) <= 0)
    requires phase == if ReadsInFlight(c, s) <= 0 then Ready else Waiting(s.phase.want, s.phase.append)
    ensures Controlled(c, s.(phase := phase))
  {
  }

  lemma TakenKeeps(c: Config, s: State, i: nat)
    requires Inv(c, s) && s.phase.Scanning? && i < |s.completed|
    requires s.ready != [] && s.completed[i] == s.ready[0] && s.waitingOnOffset == s.base
    ensures s.completed[i] < |s.jobs| && Inv(c, Expose(c, s, i, s.phase.append))
  {
    var j := s.ready[0];
    assert j < |s.jobs| && Filled(c, s.file, s.jobs[j]) && s.jobs[j].offset == s.base;
    ScanDelivers(c, s, i);
    TakenControls(c, s, i);
    hide Delivered, Controlled, Expose, Filled, Spaced;
    ScanOrders(c, s, i);
    ScanConserves(c, s, i);
  }

  lemma TakenControls(c: Config, s: State, i: nat)
    requires Controlled(c, s) && s.phase.Scanning? && i < |s.completed| && s.completed[i] < |s.jobs| && s.ready != []
    requires !Expose(c, s, i, s.phase.append).phase.Crashed?
    ensures s.held.None? && Controlled(c, Expose(c, s, i, s.phase.append))
  {
    hide Expose, SwapRemove;
    ExposeFields(c, s, i, s.phase.append);
  }

  /** Without threads no read is ever in flight, so the assertion before the wait holds. */
  lemma SynchronousNeverWaits(c: Config, s: State)
    requires Inv(c, s) && s.phase.Scanning? && !c.threaded
    ensures ReadsInFlight(c, s) == 0
  {
  }

  // ---- All steps, all runs ----

  lemma ContinueKeeps(c: Config, s: State)
    requires Inv(c, s) && MainCanContinue(c, s)
    ensures Inv(c, Continue(c, s))
  {
    match s.phase {
      case Joining(_) => ResetKeeps(c, s);
      case Starting =>
        if s.available == [] {
          PhaseOnlyKeeps(c, s, Ready);
        } else {
          AcquireKeeps(c, s);
        }
      case StartAdding(_) => EnqueueKeeps(c, s, Starting);
      case Releasing(_, _) => ReleaseKeeps(c, s);
      case Acquiring(_, _) => AcquireKeeps(c, s);
      case Adding(want, append, _) => EnqueueKeeps(c, s, Scanning(want, append));
      case Scanning(_, _) => ScanKeeps(c, s);
    }
  }

  lemma StepKeeps(c: Config, s: State, e: Event)
    requires Inv(c, s) && Enabled(c, s, e)
    ensures Inv(c, Step(c, s, e))
  {
    hide Inv, Continue;
    match e {
      case WorkerTake => TakeKeeps(c, s);
      case WorkerExecute => ExecuteKeeps(c, s);
      case WorkerComplete => CompleteKeeps(c, s);
      case WorkerFinish => IdleStepKeeps(c, s, e);
      case ReorderCompleted(_) => IdleStepKeeps(c, s, e);
      case SpuriousWake => IdleStepKeeps(c, s, e);
      case SetFile(next) => SetFileKeeps(c, s, next);
      case Fill(n) => FillKeeps(c, s, n);
      case Consume(n) => ConsumeKeeps(c, s, n);
      case MainContinue => ContinueKeeps(c, s);
    }
  }

  lemma {:induction false} RunKeeps(c: Config, s: State, events: seq<Event>, t: State)
    requires Inv(c, s) && Run(c, s, events, t)
    ensures Inv(c, t)
    decreases |events|
  {
    hide Inv, Enabled, Step;
    if events != [] {
      StepKeeps(c, s, events[0]);
      RunKeeps(c, Step(c, s, events[0]), events[1..], t);
    }
  }

  // ---- What a client may rely on, in every reachable state ----

  /** In every state of every run the consumed bytes and the exposed window are together
      the beginning of the file, and no assertion of the pool has failed. */
  lemma DeliveredIsFilePrefix(c: Config, init: State, events: seq<Event>, s: State)
    requires c.Valid() && Init(c, init) && Run(c, init, events, s)
    ensures !s.phase.Crashed?
    ensures s.waitingOnOffset <= |s.file| && s.src.at + s.loaded <= |SrcSpace(s)|
    ensures s.consumed + Window(s) == s.file[..s.waitingOnOffset]
  {
    InitInv(c, init);
    RunKeeps(c, init, events, s);
  }

  /** In every state of every run each job is in exactly one place, numReadsInFlight counts the
      queued and executing jobs whenever it is called, and the worker never holds the job
      whose buffer is exposed. */
  lemma EveryJobHasOneOwner(c: Config, init: State, events: seq<Event>, s: State)
    requires c.Valid() && Init(c, init) && Run(c, init, events, s)
    ensures forall j: nat :: Owners(s, j) == if j < c.jobs then 1 else 0
    ensures PlacesTaken(s) == c.jobs
    ensures LocalJobs(s.phase) == [] ==> ReadsInFlight(c, s) == |s.queue| + |WorkerJobs(s.worker)|
    ensures 0 < s.loaded && s.src.InJob? ==>
      s.src.job !in s.queue && s.src.job !in WorkerJobs(s.worker) && s.src.job !in s.available
  {
    InitInv(c, init);
    RunKeeps(c, init, events, s);
    if 0 < s.loaded && s.src.InJob? {
      ExposedIsHeld(c, s);
    }
  }

  lemma ExposedIsHeld(c: Config, s: State)
    requires Inv(c, s) && 0 < s.loaded && s.src.InJob?
    ensures s.src.job !in s.queue && s.src.job !in WorkerJobs(s.worker) && s.src.job !in s.available
  {
    assert Owners(s, s.src.job) <= 1;
    assert Count(HeldJobs(s), s.src.job) == 1;
  }

  /** What a finished fillBuffer call promises: enough bytes, or the end of the file. */
  ghost predicate FillDone(c: Config, s: State, want: nat) {
    want <= s.loaded || (s.waitingOnOffset == |s.file| && s.reachedEof)
  }

  /** The scan that ends a call either brought enough bytes or met the end of the file;
      NULL is returned only when the whole file has been delivered. */
  lemma ScanEndsWell(c: Config, s: State)
    requires Inv(c, s) && s.phase.Scanning? && Scan(c, s).phase.Ready?
    ensures FillDone(c, Scan(c, s), s.phase.want)
    ensures Scan(c, s).held.None? ==> Scan(c, s).waitingOnOffset == |s.file|
  {
    var found := Find(s.jobs, s.completed, s.waitingOnOffset);
    FoundIsNext(c, s);
    SpacedBounds(s.jobs, s.ready, s.base, c.jobSize, s.front);
    if found.Some? {
      FilledUses(c, s.file, s.jobs[s.ready[0]]);
      TakenFillsOrEnds(c, s, found.value);
    } else {
      NothingLeft(c, s);
    }
  }

  lemma TakenFillsOrEnds(c: Config, s: State, i: nat)
    requires Inv(c, s) && s.phase.Scanning? && i < |s.completed|
    requires s.ready != [] && s.completed[i] == s.ready[0] && s.waitingOnOffset == s.base
    requires s.base + c.jobSize <= s.front && s.completed[i] < |s.jobs|
    ensures FillDone(c, Expose(c, s, i, s.phase.append), s.phase.want)
    ensures Expose(c, s, i, s.phase.append).held.Some?
  {
    var job := s.jobs[s.ready[0]];
    assert Filled(c, s.file, job) && job.offset == s.base;
    FilledUses(c, s.file, job);
    hide Conserved, Ordered, Filled;
    ScanDelivers(c, s, i);
    ExposeFields(c, s, i, s.phase.append);
    assert |s.file| < s.front <==> s.reachedEof by {
      EofMeaning(c, s);
    }
  }

  lemma EofMeaning(c: Config, s: State)
    requires Ordered(c, s)
    ensures s.reachedEof <==> |s.file| < s.front
    ensures s.waitingOnOffset == Min(s.base, |s.file|)
  {
  }

  /** With nothing in flight and nothing at the waited offset, the file is exhausted. */
  lemma {:induction false} NothingLeft(c: Config, s: State)
    requires Inv(c, s) && s.phase.Scanning? && ReadsInFlight(c, s) <= 0
    requires Find(s.jobs, s.completed, s.waitingOnOffset).None?
    ensures s.waitingOnOffset == |s.file| && s.reachedEof
  {
    assert |s.queue| == 0 && WorkerJobs(s.worker) == [] && |s.completed| == c.jobs;
    AllReady(s);
    assert s.ready[0] in s.completed;
    SpacedBounds(s.jobs, s.ready, s.base, c.jobSize, s.front);
  }

  lemma AllReady(s: State)
    requires multiset(s.ready) == multiset(s.completed) + JustDone(s.worker) && WorkerJobs(s.worker) == []
    ensures |s.ready| == |s.completed| && forall j <- s.ready :: j in s.completed
  {
    assert multiset(s.ready) == multiset(s.completed);
    assert |s.ready| == |multiset(s.ready)| && |s.completed| == |multiset(s.completed)|;
    forall j | j in s.ready ensures j in s.completed {
      assert j in multiset(s.ready);
    }
  }

  /** A waiting main thread always has a read in flight, and the worker can move:
      it is never stuck, and the signal that ends the wait is still to come. */
  lemma WaitIsAnswered(c: Config, s: State)
    requires Inv(c, s) && s.phase.Waiting?
    ensures !s.worker.Did? ==> Enabled(c, s, WorkerTake) || Enabled(c, s, WorkerExecute) || Enabled(c, s, WorkerFinish)
    ensures s.worker.Did? ==> Enabled(c, s, WorkerComplete) && Step(c, s, WorkerComplete).phase.Scanning?
    ensures ReadsInFlight(c, s) == |s.queue| + |WorkerJobs(s.worker)| > 0
  {
    if s.worker.Took? {
      OnlyThere(c, s, s.worker.job);
    }
    if s.worker.Did? {
      CompleteConserves(c, s);
    }
  }

  /** No deadlock: in every reachable state the client may call, or some thread can move. */
  lemma NeverStuck(c: Config, s: State)
    requires Inv(c, s)
    ensures s.phase.Ready? || s.phase.Closed? || MainCanContinue(c, s)
      || Enabled(c, s, WorkerTake) || Enabled(c, s, WorkerExecute)
      || Enabled(c, s, WorkerComplete) || Enabled(c, s, WorkerFinish)
  {
    if s.worker.Took? || LocalJobs(s.phase) != [] {
      OnlyThere(c, s, if s.worker.Took? then s.worker.job else s.phase.job);
    }
    if s.phase.Waiting? {
      WaitIsAnswered(c, s);
    }
  }

  /** AIO_IOPool_setThreaded: once the queued jobs have finished, a pool may go on with or
      without its thread, and everything above holds from there. */
  lemma SetThreadedKeeps(c: Config, s: State, threaded: bool)
    requires Inv(c, s) && Quiet(s) && (s.phase.Ready? || s.phase.Closed?)
    ensures Inv(c.(threaded := threaded), s)
  {
    assert ReadsInFlight(c.(threaded := threaded), s) == ReadsInFlight(c, s);
    forall j | j in s.ready ensures Filled(c.(threaded := threaded), s.file, s.jobs[j]) {
      assert Filled(c, s.file, s.jobs[j]);
    }
  }
}
