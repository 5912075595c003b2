/** FIO_passThrough over both pools: the main thread, the reader's worker and the writer's worker,
    interleaved in every possible way. */
module PassThrough {
  import opened Bytes
  import opened FileModel
  import opened JobLists
  import R = ReadPool
  import RS = ReadPoolSafety
  import W = WritePool
  import WS = WritePoolSafety

  /** `file` is the input, `from` how much of it was consumed before, `origin` the output so far. */
  datatype Config = Config(r: R.Config, w: W.Config, blockSize: nat, file: bytes, from: nat, origin: FileState) {
    predicate Valid() {
      && r.Valid() && w.Valid() && !w.prefs.testMode
      && 0 < blockSize <= r.jobSize && blockSize <= w.jobSize
      && from <= |file|
    }
  }

  /** The main thread's place in the function. */
  datatype Where =
    | AcquiringFirst | BeginningFill | Filling | Copying | Enqueuing | Reacquiring | Consuming
    | Releasing | Ending | Joining | Done | Crashed

  datatype State = State(r: R.State, w: W.State, at: Where, writeSize: nat)

  datatype Event = Main | Reader(re: R.Event) | Writer(we: W.Event)

  predicate ReaderAlone(e: R.Event) {
    e.WorkerTake? || e.WorkerExecute? || e.WorkerComplete? || e.WorkerFinish? || e.ReorderCompleted? || e.SpuriousWake?
  }

  predicate WriterAlone(e: W.Event) {
    e.WorkerTake? || e.WorkerExecute? || e.WorkerRelease? || e.WorkerFinish?
  }

  function DoR(c: Config, p: State, e: R.Event, at: Where): State {
    if R.Enabled(c.r, p.r, e) then p.(r := R.Step(c.r, p.r, e), at := at) else p.(at := Crashed)
  }

  function DoW(c: Config, p: State, e: W.Event, at: Where): State {
    if W.Enabled(c.w, p.w, e) then p.(w := W.Step(c.w, p.w, e), at := at) else p.(at := Crashed)
  }

  predicate MainEnabled(c: Config, p: State) {
    match p.at
    case Filling => p.r.phase.Ready? || R.MainCanContinue(c.r, p.r)
    case Enqueuing => W.MainCanContinue(c.w, p.w)
    case Joining => W.MainCanContinue(c.w, p.w)
    case Done => false
    case Crashed => false
    case _ => true
  }

  function MainStep(c: Config, p: State): State
    requires MainEnabled(c, p)
  {
    match p.at
    case AcquiringFirst => DoW(c, p, W.AcquireJob, BeginningFill)
    case BeginningFill => DoR(c, p, R.Fill(c.blockSize), Filling)
    case Filling =>
      if !p.r.phase.Ready? then DoR(c, p, R.MainContinue, Filling)
      else if p.r.loaded == 0 then
        p.(at := if p.r.reachedEof then Releasing else Crashed)
      else p.(at := Copying, writeSize := Min(c.blockSize, p.r.loaded))
    case Copying =>
      if p.r.src.at + p.r.loaded <= |R.SrcSpace(p.r)| && p.writeSize <= p.r.loaded then
        var p1 := DoW(c, p, W.Load(R.Window(p.r)[..p.writeSize]), Enqueuing);
        if p1.at.Crashed? then p1 else DoW(c, p1, W.Submit, Enqueuing)
      else p.(at := Crashed)
    case Enqueuing => DoW(c, p, W.MainContinue, Reacquiring)
    case Reacquiring => DoW(c, p, W.MainContinue, Consuming)
    case Consuming => DoR(c, p, R.Consume(p.writeSize), BeginningFill)
    case Releasing => DoW(c, p, W.ReleaseJob, Ending)
    case Ending => DoW(c, p, W.EndSparse, Joining)
    case Joining => DoW(c, p, W.MainContinue, Done)
  }

  predicate Enabled(c: Config, p: State, e: Event) {
    match e
    case Main => MainEnabled(c, p)
    case Reader(re) => ReaderAlone(re) && R.Enabled(c.r, p.r, re)
    case Writer(we) => WriterAlone(we) && W.Enabled(c.w, p.w, we)
  }

  function Step(c: Config, p: State, e: Event): State
    requires Enabled(c, p, e)
  {
    match e
    case Main => MainStep(c, p)
    case Reader(re) => p.(r := R.Step(c.r, p.r, re))
    case Writer(we) => p.(w := W.Step(c.w, p.w, we))
  }

  /** Both pools between two calls, the writer at the start of a sparse sequence. */
  ghost predicate Init(c: Config, p: State) {
    && RS.Inv(c.r, p.r) && WS.Inv(c.w, p.w)
    && p.r.phase.Ready? && p.r.file == c.file && |p.r.consumed| == c.from
    && p.w.phase.Resting? && p.w.submitted == [] && p.w.start == c.origin
    && p.at.AcquiringFirst?
  }

  predicate Run(c: Config, p: State, events: seq<Event>, q: State)
    decreases |events|
  {
    if events == [] then p == q
    else Enabled(c, p, events[0]) && Run(c, Step(c, p, events[0]), events[1..], q)
  }

  // ---- The invariant ----

  predicate FillingFor(phase: R.Phase, want: nat) {
    match phase
    case Releasing(n, _) => n == want
    case Acquiring(n, _) => n == want
    case Adding(n, _, _) => n == want
    case Scanning(n, _) => n == want
    case Waiting(n, _) => n == want
    case _ => false
  }

  /** The submitted buffers are the input from `from` to what was consumed, and one step
      further between enqueuing a copy of the window and consuming it. */
  ghost predicate Submitted(c: Config, p: State) {
    var to := |p.r.consumed| + if p.at.Reacquiring? || p.at.Consuming? then p.writeSize else 0;
    c.from <= to <= |c.file| && Flatten(p.w.submitted) == c.file[c.from..to]
  }

  predicate WriterPlace(p: State) {
    match p.at
    case AcquiringFirst => p.w.phase.Resting?
    case Enqueuing => p.w.phase.Adding?
    case Reacquiring => p.w.phase.Reacquiring?
    case Ending => p.w.phase.Resting?
    case Joining => p.w.phase.Joining? && p.w.local.None?
    case Done => p.w.phase.Resting? && W.Quiet(p.w)
    case _ => p.w.phase.Holding?
  }

  ghost predicate ReaderPlace(c: Config, p: State) {
    && (p.r.phase.Ready? || (p.at.Filling? && FillingFor(p.r.phase, c.blockSize)))
    && (p.at.Filling? && p.r.phase.Ready? ==> RS.FillDone(c.r, p.r, c.blockSize))
    && (p.at.Releasing? || p.at.Ending? || p.at.Joining? || p.at.Done? ==> |p.r.consumed| == |c.file|)
  }

  /** Between the loop test and the consumption, `writeSize` bytes of the window are on their way. */
  predicate CopyPlace(c: Config, p: State) {
    && (p.at.Copying? || p.at.Enqueuing? || p.at.Reacquiring? || p.at.Consuming? ==>
      0 < p.writeSize <= p.r.loaded && p.writeSize <= c.blockSize)
    && (p.at.Enqueuing? ==>
      && p.w.local.Some? && p.w.local.value < |p.w.jobs| && p.r.src.at + p.r.loaded <= |R.SrcSpace(p.r)|
      && W.Payload(p.w.jobs[p.w.local.value]) == R.Window(p.r)[..p.writeSize])
  }

  ghost predicate Output(c: Config, p: State) {
    if p.at.Done? then
      c.from <= |c.file| && p.w.submitted == [] && p.w.storedSkips == 0
      && p.w.file.content == c.origin.content + c.file[c.from..]
    else p.w.start == c.origin && Submitted(c, p)
  }

  ghost predicate Inv(c: Config, p: State) {
    && c.Valid() && RS.Inv(c.r, p.r) && WS.Inv(c.w, p.w)
    && p.r.file == c.file && !p.at.Crashed?
    && WriterPlace(p) && ReaderPlace(c, p) && CopyPlace(c, p) && Output(c, p)
  }

  // ---- What the pools' own steps leave alone ----

  lemma ReaderAloneFrame(c: R.Config, s: R.State, e: R.Event)
    requires RS.Inv(c, s) && ReaderAlone(e) && R.Enabled(c, s, e)
    ensures var t := R.Step(c, s, e);
      && RS.Inv(c, t) && t.file == s.file && t.consumed == s.consumed
      && t.loaded == s.loaded && t.waitingOnOffset == s.waitingOnOffset
      && (t.phase == s.phase || (s.phase.Waiting? && t.phase == R.Signal(s.phase)))
      && (s.reachedEof ==> t.reachedEof)
      && (0 < s.loaded ==> R.Window(t) == R.Window(s))
  {
    RS.StepKeeps(c, s, e);
    NoCrash(c, s);
    NoCrash(c, R.Step(c, s, e));
    hide RS.Inv, R.Step, R.Enabled;
    if e.WorkerExecute? {
      ExecuteFrame(c, s);
    } else {
      IdleFrame(c, s, e);
    }
  }

  lemma NoCrash(c: R.Config, s: R.State)
    requires RS.Inv(c, s)
    ensures !s.phase.Crashed? && s.src.at + s.loaded <= |R.SrcSpace(s)|
  {
  }

  /** The steps beside the main thread that touch no buffer. */
  lemma IdleFrame(c: R.Config, s: R.State, e: R.Event)
    requires ReaderAlone(e) && !e.WorkerExecute? && R.Enabled(c, s, e) && !R.Step(c, s, e).phase.Crashed?
    ensures var t := R.Step(c, s, e);
      && t.file == s.file && t.consumed == s.consumed && t.jobs == s.jobs && t.coalesceBuffer == s.coalesceBuffer
      && t.src == s.src && t.loaded == s.loaded && t.waitingOnOffset == s.waitingOnOffset
      && (t.phase == s.phase || (s.phase.Waiting? && t.phase == R.Signal(s.phase)))
      && t.reachedEof == s.reachedEof
  {
  }

  lemma ExecuteFrame(c: R.Config, s: R.State)
    requires RS.Inv(c, s) && R.Enabled(c, s, R.WorkerExecute)
    ensures var t := R.Step(c, s, R.WorkerExecute);
      && t.file == s.file && t.consumed == s.consumed
      && t.loaded == s.loaded && t.waitingOnOffset == s.waitingOnOffset && t.phase == s.phase
      && (s.reachedEof ==> t.reachedEof)
      && t.src.at + t.loaded <= |R.SrcSpace(t)|
      && (0 < s.loaded ==> R.Window(t) == R.Window(s))
  {
    RS.OnlyThere(c, s, s.worker.job);
    RS.ReadIntoDelivers(c, s, s.worker.job);
  }

  lemma FillContinues(c: R.Config, s: R.State, want: nat)
    requires RS.Inv(c, s) && FillingFor(s.phase, want) && R.MainCanContinue(c, s)
    ensures var t := R.Step(c, s, R.MainContinue);
      && RS.Inv(c, t) && t.file == s.file && t.consumed == s.consumed
      && (if t.phase.Ready? then RS.FillDone(c, t, want) else FillingFor(t.phase, want))
  {
    RS.StepKeeps(c, s, R.MainContinue);
    var t := R.Step(c, s, R.MainContinue);
    assert !t.phase.Crashed? && (s.phase.Adding? ==> s.phase.job < |s.jobs|);
    if s.phase.Scanning? && t.phase.Ready? {
      RS.ScanEndsWell(c, s);
    }
    hide RS.Inv, RS.FillDone;
    ContinueFrame(c, s);
  }

  /** Inside a call nothing is consumed, and the call goes on until it is done. */
  lemma ContinueFrame(c: R.Config, s: R.State)
    requires R.MainCanContinue(c, s) && !R.Continue(c, s).phase.Crashed?
    requires s.phase.Releasing? || s.phase.Acquiring? || s.phase.Adding? || s.phase.Scanning?
    ensures var t := R.Continue(c, s);
      && t.file == s.file && t.consumed == s.consumed
      && (t.phase.Ready? ==> s.phase.Scanning?)
      && (!t.phase.Ready? ==> FillingFor(t.phase, s.phase.want))
  {
    match s.phase {
      case Releasing(_, _) =>
      case Acquiring(_, _) =>
      case Adding(_, _, _) =>
      case Scanning(_, _) =>
    }
  }

  lemma FillBegins(c: R.Config, s: R.State, want: nat)
    requires RS.Inv(c, s) && s.phase.Ready? && 0 < want <= c.jobSize
    ensures R.Enabled(c, s, R.Fill(want))
    ensures var t := R.Step(c, s, R.Fill(want));
      && RS.Inv(c, t) && t.file == s.file && t.consumed == s.consumed
      && (if t.phase.Ready? then RS.FillDone(c, t, want) else FillingFor(t.phase, want))
  {
    NoCrash(c, s);
    RS.FillKeeps(c, s, want);
    var t := R.BeginFill(c, s, want);
    assert R.Step(c, s, R.Fill(want)) == t;
    NoCrash(c, t);
    hide RS.Inv, R.BeginFill, R.Step;
    BeginFillFrame(c, s, want);
  }

  lemma BeginFillFrame(c: R.Config, s: R.State, want: nat)
    requires s.phase.Ready? && want <= c.jobSize && s.src.at + s.loaded <= |R.SrcSpace(s)|
    requires !R.BeginFill(c, s, want).phase.Crashed?
    ensures var t := R.BeginFill(c, s, want);
      && t.file == s.file && t.consumed == s.consumed
      && (if t.phase.Ready? then want <= t.loaded else FillingFor(t.phase, want))
  {
    hide R.CopyInto;
  }

  lemma WriterAloneFrame(c: W.Config, s: W.State, e: W.Event)
    requires WS.Inv(c, s) && WriterAlone(e) && W.Enabled(c, s, e)
    ensures var t := W.Step(c, s, e);
      && WS.Inv(c, t) && t.phase == s.phase && t.jobs == s.jobs && t.local == s.local
      && t.start == s.start && t.submitted == s.submitted
    ensures !W.Quiet(s)
  {
    WS.StepKeeps(c, s, e);
    if e.WorkerRelease? {
      WS.OnlyThere(c, s, s.worker.job);
    }
    hide WS.Inv;
  }

  // ---- Steps of the main thread ----

  /** The input so far is what was consumed; the window is what comes next. */
  lemma ConsumedIsInput(c: R.Config, s: R.State)
    requires RS.Inv(c, s)
    ensures s.src.at + s.loaded <= |R.SrcSpace(s)|
    ensures |s.consumed| + s.loaded == s.waitingOnOffset <= |s.file|
    ensures R.Window(s) == s.file[|s.consumed|..|s.consumed| + s.loaded]
  {
    assert |s.consumed + R.Window(s)| == s.waitingOnOffset;
    assert R.Window(s) == (s.consumed + R.Window(s))[|s.consumed|..];
  }

  lemma OutputFrame(c: Config, p: State, q: State)
    requires Output(c, p) && !p.at.Done? && !q.at.Done?
    requires q.w.start == p.w.start && q.w.submitted == p.w.submitted && q.r.consumed == p.r.consumed
    requires q.writeSize == p.writeSize || !(q.at.Reacquiring? || q.at.Consuming?)
    requires (p.at.Reacquiring? || p.at.Consuming?) <==> (q.at.Reacquiring? || q.at.Consuming?)
    ensures Output(c, q)
  {
  }

  lemma AcquireFirstKeeps(c: Config, p: State)
    requires Inv(c, p) && p.at.AcquiringFirst?
    ensures Inv(c, MainStep(c, p))
  {
    hide RS.Inv, WS.Inv, Output;
    WriterAcquires(c.w, p.w);
    var q := p.(w := W.Acquire(p.w), at := BeginningFill);
    assert MainStep(c, p) == q;
    hide W.Acquire, MainStep;
    OutputFrame(c, p, q);
  }

  lemma WriterAcquires(c: W.Config, s: W.State)
    requires WS.Inv(c, s) && (s.phase.Resting? || s.phase.Reacquiring?)
    ensures var t := W.Acquire(s);
      && WS.Inv(c, t) && t.phase.Holding? && t.start == s.start && t.submitted == s.submitted
  {
    WS.AcquireKeeps(c, s);
    assert !W.Acquire(s).phase.Crashed?;
    hide WS.Inv;
  }

  lemma BeginFillKeeps(c: Config, p: State)
    requires Inv(c, p) && p.at.BeginningFill?
    ensures Inv(c, MainStep(c, p))
  {
    hide RS.Inv, WS.Inv, R.Step, R.Enabled, RS.FillDone, Output;
    FillBegins(c.r, p.r, c.blockSize);
    var q := p.(r := R.Step(c.r, p.r, R.Fill(c.blockSize)), at := Filling);
    assert MainStep(c, p) == q;
    hide MainStep;
    OutputFrame(c, p, q);
  }

  lemma FillingKeeps(c: Config, p: State)
    requires Inv(c, p) && p.at.Filling? && MainEnabled(c, p)
    ensures Inv(c, MainStep(c, p))
  {
    hide Inv, MainStep;
    if p.r.phase.Ready? {
      FilledKeeps(c, p);
    } else {
      StillFillingKeeps(c, p);
    }
  }

  lemma StillFillingKeeps(c: Config, p: State)
    requires Inv(c, p) && p.at.Filling? && !p.r.phase.Ready? && R.MainCanContinue(c.r, p.r)
    ensures Inv(c, MainStep(c, p))
  {
    hide RS.Inv, WS.Inv, RS.FillDone, Output, WriterPlace;
    FillContinues(c.r, p.r, c.blockSize);
    var q := p.(r := R.Step(c.r, p.r, R.MainContinue));
    assert MainStep(c, p) == q;
    hide R.Step, MainStep, R.MainCanContinue, R.Enabled;
    assert WriterPlace(q) by {
      WriterPlaceFrame(p, q);
    }
    OutputFrame(c, p, q);
  }

  lemma WriterPlaceFrame(p: State, q: State)
    requires WriterPlace(p) && q.w == p.w && q.at == p.at
    ensures WriterPlace(q)
  {
  }

  /** The loop test: either there are bytes to copy, or the whole input was consumed. */
  lemma FilledKeeps(c: Config, p: State)
    requires Inv(c, p) && p.at.Filling? && p.r.phase.Ready?
    ensures Inv(c, MainStep(c, p))
  {
    if p.r.loaded == 0 {
      InputExhausted(c, p);
    } else {
      hide RS.Inv, WS.Inv, Output, RS.FillDone;
      var q := p.(at := Copying, writeSize := Min(c.blockSize, p.r.loaded));
      assert MainStep(c, p) == q;
      hide MainStep;
      OutputFrame(c, p, q);
    }
  }

  /** An empty window after a finished fill means the end of the file, and the flag says so. */
  lemma InputExhausted(c: Config, p: State)
    requires Inv(c, p) && p.at.Filling? && p.r.phase.Ready? && p.r.loaded == 0
    ensures p.r.reachedEof && Inv(c, MainStep(c, p))
  {
    hide RS.Inv, WS.Inv, Output;
    ConsumedIsInput(c.r, p.r);
    var q := p.(at := Releasing);
    assert MainStep(c, p) == q;
    hide MainStep;
    OutputFrame(c, p, q);
  }

  /** The copy fits the job and is handed over as it was exposed. */
  lemma CopyKeeps(c: Config, p: State)
    requires Inv(c, p) && p.at.Copying?
    ensures Inv(c, MainStep(c, p))
  {
    ConsumedIsInput(c.r, p.r);
    var data := R.Window(p.r)[..p.writeSize];
    WriterLoads(c.w, p.w, data);
    CopyIs(c, p, data);
    hide RS.Inv, WS.Inv, W.Step, W.Enabled, MainStep;
    CopiedKeeps(c, p, p.(w := W.Step(c.w, W.Step(c.w, p.w, W.Load(data)), W.Submit), at := Enqueuing));
  }

  lemma CopiedKeeps(c: Config, p: State, q: State)
    requires Inv(c, p) && p.at.Copying? && q.at.Enqueuing? && q.r == p.r && q.writeSize == p.writeSize
    requires WS.Inv(c.w, q.w) && q.w.phase.Adding? && q.w.start == p.w.start && q.w.submitted == p.w.submitted
    requires q.w.local.Some? && q.w.local.value < |q.w.jobs|
    requires p.r.src.at + p.r.loaded <= |R.SrcSpace(p.r)| && p.writeSize <= p.r.loaded
    requires W.Payload(q.w.jobs[q.w.local.value]) == R.Window(p.r)[..p.writeSize]
    ensures Inv(c, q)
  {
    hide RS.Inv, WS.Inv, Output, RS.FillDone, W.Payload, R.Window, R.SrcSpace;
    OutputFrame(c, p, q);
  }

  lemma CopyIs(c: Config, p: State, data: bytes)
    requires p.at.Copying? && p.r.src.at + p.r.loaded <= |R.SrcSpace(p.r)| && p.writeSize <= p.r.loaded
    requires data == R.Window(p.r)[..p.writeSize] && W.Enabled(c.w, p.w, W.Load(data))
    requires W.Enabled(c.w, W.Step(c.w, p.w, W.Load(data)), W.Submit)
    ensures MainStep(c, p) == p.(w := W.Step(c.w, W.Step(c.w, p.w, W.Load(data)), W.Submit), at := Enqueuing)
  {
    hide W.Step, W.Enabled, R.Window;
  }

  lemma WriterLoads(c: W.Config, s: W.State, data: bytes)
    requires WS.Inv(c, s) && s.phase.Holding? && |data| <= c.jobSize
    ensures s.local.Some? && s.local.value < |s.jobs| && W.Enabled(c, s, W.Load(data))
    ensures var t := W.Step(c, s, W.Load(data));
      && W.Enabled(c, t, W.Submit)
      && var u := W.Step(c, t, W.Submit);
      && WS.Inv(c, u) && u.phase.Adding? && u.start == s.start && u.submitted == s.submitted
      && u.local == s.local && |u.jobs| == |s.jobs| && W.Payload(u.jobs[s.local.value]) == data
  {
    WS.OnlyThere(c, s, s.local.value);
    WS.StepKeeps(c, s, W.Load(data));
    WS.StepKeeps(c, W.Step(c, s, W.Load(data)), W.Submit);
    hide WS.Inv;
  }

  /** Enqueuing moves the copied bytes from the window's side to the submitted ones. */
  lemma EnqueueKeeps(c: Config, p: State)
    requires Inv(c, p) && p.at.Enqueuing? && MainEnabled(c, p)
    ensures Inv(c, MainStep(c, p))
  {
    hide RS.Inv, WS.Inv, Output, W.Continue, W.MainCanContinue, R.Window, R.SrcSpace, ReaderPlace;
    WriterEnqueues(c.w, p.w);
    var q := p.(w := W.Continue(c.w, p.w), at := Reacquiring);
    assert MainStep(c, p) == q;
    hide MainStep, CopyPlace, WriterPlace;
    EnqueuedOutput(c, p, q);
    EnqueuedKeeps(c, p, q);
  }

  lemma EnqueuedKeeps(c: Config, p: State, q: State)
    requires Inv(c, p) && p.at.Enqueuing? && q.at.Reacquiring? && q.r == p.r && q.writeSize == p.writeSize
    requires WS.Inv(c.w, q.w) && q.w.phase.Reacquiring? && Output(c, q)
    ensures Inv(c, q)
  {
    hide RS.Inv, WS.Inv, Output, RS.FillDone, W.Payload, R.Window, R.SrcSpace;
  }

  lemma EnqueuedOutput(c: Config, p: State, q: State)
    requires Inv(c, p) && p.at.Enqueuing? && q.at.Reacquiring? && q.r == p.r && q.writeSize == p.writeSize
    requires q.w.start == p.w.start
    requires q.w.submitted == p.w.submitted + [W.Payload(p.w.jobs[p.w.local.value])]
    ensures Output(c, q)
  {
    hide RS.Inv, WS.Inv, WriterPlace, ReaderPlace;
    ConsumedIsInput(c.r, p.r);
    assert c.from <= |p.r.consumed|;
    hide W.Payload, Output, R.Window, R.SrcSpace;
    WindowGoesOn(c.file, c.from, |p.r.consumed|, R.Window(p.r), p.writeSize);
    SubmitsMore(c, p, q, R.Window(p.r)[..p.writeSize]);
  }

  lemma SubmitsMore(c: Config, p: State, q: State, data: bytes)
    requires Output(c, p) && p.at.Enqueuing? && q.at.Reacquiring?
    requires q.w.start == p.w.start && q.w.submitted == p.w.submitted + [data] && q.r == p.r
    requires q.writeSize == p.writeSize && |p.r.consumed| + p.writeSize <= |c.file|
    requires c.file[c.from..|p.r.consumed|] + data == c.file[c.from..|p.r.consumed| + p.writeSize]
    ensures Output(c, q)
  {
    FlattenAppend(p.w.submitted, data);
  }

  lemma WindowGoesOn(file: bytes, from: nat, at: nat, window: bytes, n: nat)
    requires from <= at && at + |window| <= |file| && n <= |window|
    requires window == file[at..at + |window|]
    ensures file[from..at] + window[..n] == file[from..at + n]
  {
  }

  lemma WriterEnqueues(c: W.Config, s: W.State)
    requires WS.Inv(c, s) && s.phase.Adding? && W.MainCanContinue(c, s)
    ensures s.local.Some? && s.local.value < |s.jobs|
    ensures var t := W.Continue(c, s);
      && WS.Inv(c, t) && t.phase.Reacquiring? && t.start == s.start
      && t.submitted == s.submitted + [W.Payload(s.jobs[s.local.value])]
  {
    WS.EnqueueKeeps(c, s);
    assert !W.Continue(c, s).phase.Crashed?;
    hide WS.Inv;
  }

  lemma ReacquireKeeps(c: Config, p: State)
    requires Inv(c, p) && p.at.Reacquiring?
    ensures Inv(c, MainStep(c, p))
  {
    hide RS.Inv, WS.Inv, Output, RS.FillDone;
    WriterAcquires(c.w, p.w);
    var q := p.(w := W.Acquire(p.w), at := Consuming);
    assert MainStep(c, p) == q;
    hide W.Acquire, MainStep;
    OutputFrame(c, p, q);
  }

  lemma ConsumeKeeps(c: Config, p: State)
    requires Inv(c, p) && p.at.Consuming?
    ensures Inv(c, MainStep(c, p))
    ensures |MainStep(c, p).r.consumed| == |p.r.consumed| + p.writeSize
  {
    hide RS.Inv, WS.Inv, RS.FillDone, R.Step, R.Enabled;
    ReaderConsumes(c.r, p.r, p.writeSize);
    var q := p.(r := R.Step(c.r, p.r, R.Consume(p.writeSize)), at := BeginningFill);
    assert MainStep(c, p) == q;
    hide MainStep;
  }

  lemma ReaderConsumes(c: R.Config, s: R.State, n: nat)
    requires RS.Inv(c, s) && s.phase.Ready? && n <= s.loaded
    ensures R.Enabled(c, s, R.Consume(n))
    ensures var t := R.Step(c, s, R.Consume(n));
      RS.Inv(c, t) && t.phase.Ready? && t.file == s.file && |t.consumed| == |s.consumed| + n
  {
    NoCrash(c, s);
    hide R.Continue, R.BeginFill, R.SrcSpace;
    assert R.Enabled(c, s, R.Consume(n)) by {
      assert s.src.at + s.loaded <= |R.SrcSpace(s)|;
    }
    hide RS.Inv;
    RS.ConsumeKeeps(c, s, n);
  }

  lemma ReleaseKeeps(c: Config, p: State)
    requires Inv(c, p) && p.at.Releasing?
    ensures Inv(c, MainStep(c, p))
  {
    hide RS.Inv, WS.Inv, Output, RS.FillDone;
    WriterReleases(c.w, p.w);
    var q := p.(w := W.Step(c.w, p.w, W.ReleaseJob), at := Ending);
    assert MainStep(c, p) == q;
    hide MainStep, W.Step;
    OutputFrame(c, p, q);
  }

  lemma WriterReleases(c: W.Config, s: W.State)
    requires WS.Inv(c, s) && s.phase.Holding?
    ensures W.Enabled(c, s, W.ReleaseJob)
    ensures var t := W.Step(c, s, W.ReleaseJob);
      WS.Inv(c, t) && t.phase.Resting? && t.start == s.start && t.submitted == s.submitted
  {
    WS.OnlyThere(c, s, s.local.value);
    WS.GiveBackKeeps(c, s);
    hide WS.Inv;
  }

  lemma EndKeeps(c: Config, p: State)
    requires Inv(c, p) && p.at.Ending?
    ensures Inv(c, MainStep(c, p))
  {
    hide RS.Inv, WS.Inv, Output, RS.FillDone, W.Step, W.Enabled;
    WriterEnds(c.w, p.w);
    var q := p.(w := W.Step(c.w, p.w, W.EndSparse), at := Joining);
    assert MainStep(c, p) == q;
    hide MainStep;
    OutputFrame(c, p, q);
  }

  lemma JoinKeeps(c: Config, p: State)
    requires Inv(c, p) && p.at.Joining? && MainEnabled(c, p)
    ensures Inv(c, MainStep(c, p))
  {
    hide RS.Inv, WS.Inv, RS.FillDone;
    assert c.file[c.from..|c.file|] == c.file[c.from..];
    WriterJoins(c.w, p.w);
    hide W.EndSequence;
    var q := p.(w := W.EndSequence(p.w), at := Done);
    assert MainStep(c, p) == q;
    hide MainStep;
  }

  lemma WriterEnds(c: W.Config, s: W.State)
    requires WS.Inv(c, s) && s.phase.Resting?
    ensures W.Enabled(c, s, W.EndSparse)
    ensures var t := W.Step(c, s, W.EndSparse);
      WS.Inv(c, t) && t.phase.Joining? && t.local.None? && t.start == s.start && t.submitted == s.submitted
  {
    WS.PhaseKeeps(c, s, W.Joining);
  }

  lemma WriterJoins(c: W.Config, s: W.State)
    requires WS.Inv(c, s) && s.phase.Joining? && W.Quiet(s) && s.local.None? && !c.prefs.testMode
    ensures var t := W.EndSequence(s);
      && WS.Inv(c, t) && t.phase.Resting? && W.Quiet(t) && t.submitted == [] && t.storedSkips == 0
      && t.file.content == s.start.content + Flatten(s.submitted)
  {
    WS.EndKeeps(c, s);
    WS.EndedFileIsExact(c, s);
  }

  // ---- Steps of the workers ----

  lemma ReaderKeeps(c: Config, p: State, e: R.Event)
    requires Inv(c, p) && ReaderAlone(e) && R.Enabled(c.r, p.r, e)
    ensures Inv(c, p.(r := R.Step(c.r, p.r, e)))
  {
    NoCrash(c.r, p.r);
    hide R.Step, R.Enabled, RS.Inv, R.Window, R.SrcSpace;
    ReaderAloneFrame(c.r, p.r, e);
    NoCrash(c.r, R.Step(c.r, p.r, e));
    hide WS.Inv;
    ReaderMovedKeeps(c, p, p.(r := R.Step(c.r, p.r, e)));
  }

  lemma ReaderMovedKeeps(c: Config, p: State, q: State)
    requires Inv(c, p) && RS.Inv(c.r, q.r) && q == p.(r := q.r)
    requires p.r.src.at + p.r.loaded <= |R.SrcSpace(p.r)| && q.r.src.at + q.r.loaded <= |R.SrcSpace(q.r)|
    requires q.r.file == p.r.file && q.r.consumed == p.r.consumed && q.r.loaded == p.r.loaded
    requires q.r.waitingOnOffset == p.r.waitingOnOffset && (p.r.reachedEof ==> q.r.reachedEof)
    requires q.r.phase == p.r.phase || (p.r.phase.Waiting? && q.r.phase == R.Signal(p.r.phase))
    requires 0 < p.r.loaded ==> R.Window(q.r) == R.Window(p.r)
    ensures Inv(c, q)
  {
    hide RS.Inv, WS.Inv, R.Window, R.SrcSpace, Output, W.Payload;
    ReaderOutput(c, p, q);
  }

  lemma ReaderOutput(c: Config, p: State, q: State)
    requires Output(c, p) && q.w == p.w && q.at == p.at && q.writeSize == p.writeSize && q.r.consumed == p.r.consumed
    ensures Output(c, q)
  {
  }

  lemma WriterKeeps(c: Config, p: State, e: W.Event)
    requires Inv(c, p) && WriterAlone(e) && W.Enabled(c.w, p.w, e)
    ensures Inv(c, p.(w := W.Step(c.w, p.w, e)))
  {
    hide RS.Inv, WS.Inv, W.Step, W.Enabled;
    WriterAloneFrame(c.w, p.w, e);
    WriterMovedKeeps(c, p, p.(w := W.Step(c.w, p.w, e)));
  }

  lemma WriterMovedKeeps(c: Config, p: State, q: State)
    requires Inv(c, p) && WS.Inv(c.w, q.w) && q == p.(w := q.w) && !W.Quiet(p.w)
    requires q.w.phase == p.w.phase && q.w.jobs == p.w.jobs && q.w.local == p.w.local
    requires q.w.start == p.w.start && q.w.submitted == p.w.submitted
    ensures Inv(c, q)
  {
    hide RS.Inv, WS.Inv, W.Payload, R.Window, R.SrcSpace, Output, RS.FillDone;
    WriterOutput(c, p, q);
  }

  lemma WriterOutput(c: Config, p: State, q: State)
    requires Output(c, p) && !p.at.Done? && q.r == p.r && q.at == p.at && q.writeSize == p.writeSize
    requires q.w.start == p.w.start && q.w.submitted == p.w.submitted
    ensures Output(c, q)
  {
  }

  // ---- All runs ----

  lemma MainKeeps(c: Config, p: State)
    requires Inv(c, p) && MainEnabled(c, p)
    ensures Inv(c, MainStep(c, p))
  {
    assert !p.at.Crashed?;
    hide Inv, MainStep;
    match p.at {
      case AcquiringFirst => AcquireFirstKeeps(c, p);
      case BeginningFill => BeginFillKeeps(c, p);
      case Filling => FillingKeeps(c, p);
      case Copying => CopyKeeps(c, p);
      case Enqueuing => EnqueueKeeps(c, p);
      case Reacquiring => ReacquireKeeps(c, p);
      case Consuming => ConsumeKeeps(c, p);
      case Releasing => ReleaseKeeps(c, p);
      case Ending => EndKeeps(c, p);
      case Joining => JoinKeeps(c, p);
    }
  }

  lemma {:induction false} StepKeeps(c: Config, p: State, e: Event)
    requires Inv(c, p) && Enabled(c, p, e)
    ensures Inv(c, Step(c, p, e))
  {
    hide Inv, MainStep, MainEnabled, R.Enabled, W.Enabled;
    match e {
      case Main => MainKeeps(c, p);
      case Reader(re) => ReaderKeeps(c, p, re);
      case Writer(we) => WriterKeeps(c, p, we);
    }
  }

  lemma {:induction false} RunKeeps(c: Config, p: State, events: seq<Event>, q: State)
    requires Inv(c, p) && Run(c, p, events, q)
    ensures Inv(c, q)
    decreases |events|
  {
    hide Inv, Enabled, Step;
    if events != [] {
      StepKeeps(c, p, events[0]);
      RunKeeps(c, Step(c, p, events[0]), events[1..], q);
    }
  }

  lemma InitInv(c: Config, p: State)
    requires c.Valid() && Init(c, p)
    ensures Inv(c, p)
  {
    hide RS.Inv, WS.Inv;
    assert c.file[c.from..c.from] == [];
  }

  /** For every schedule of both workers: when the function returns, the output is its earlier
      content followed by all the remaining input, no assertion has failed on the way,
      and nothing is owed to the file. */
  lemma {:induction false} OutputIsInput(c: Config, init: State, events: seq<Event>, p: State)
    requires c.Valid() && Init(c, init) && Run(c, init, events, p)
    ensures !p.at.Crashed?
    ensures p.at.Done? ==>
      && p.w.file.content == c.origin.content + c.file[c.from..]
      && p.w.storedSkips == 0 && |p.r.consumed| == |c.file|
  {
    InitInv(c, init);
    RunKeeps(c, init, events, p);
    hide RS.Inv, WS.Inv;
  }

  /** Until the function returns, some thread can move, and not only by a spurious wake-up. */
  lemma {:induction false} NeverStuck(c: Config, p: State)
    requires Inv(c, p) && !p.at.Done?
    ensures exists e :: Enabled(c, p, e) && Progresses(e)
  {
    if MainEnabled(c, p) {
      assert Progresses(Main) && Enabled(c, p, Main);
    } else if p.at.Filling? {
      RS.NeverStuck(c.r, p.r);
      assert !p.r.phase.Closed?;
      var e := ReaderMove(c.r, p.r);
      assert Progresses(Reader(e)) && Enabled(c, p, Reader(e));
    } else {
      WS.NeverStuck(c.w, p.w);
      var e := WriterMove(c.w, p.w);
      assert Progresses(Writer(e)) && Enabled(c, p, Writer(e));
    }
  }

  predicate Progresses(e: Event) {
    e.Reader? ==> !e.re.ReorderCompleted? && !e.re.SpuriousWake?
  }

  lemma ReaderMove(c: R.Config, s: R.State) returns (e: R.Event)
    requires R.Enabled(c, s, R.WorkerTake) || R.Enabled(c, s, R.WorkerExecute)
          || R.Enabled(c, s, R.WorkerComplete) || R.Enabled(c, s, R.WorkerFinish)
    ensures R.Enabled(c, s, e) && ReaderAlone(e) && !e.ReorderCompleted? && !e.SpuriousWake?
  {
    if R.Enabled(c, s, R.WorkerTake) {
      e := R.WorkerTake;
    } else if R.Enabled(c, s, R.WorkerExecute) {
      e := R.WorkerExecute;
    } else if R.Enabled(c, s, R.WorkerComplete) {
      e := R.WorkerComplete;
    } else {
      e := R.WorkerFinish;
    }
  }

  lemma WriterMove(c: W.Config, s: W.State) returns (e: W.Event)
    requires W.Enabled(c, s, W.WorkerTake) || W.Enabled(c, s, W.WorkerExecute)
          || W.Enabled(c, s, W.WorkerRelease) || W.Enabled(c, s, W.WorkerFinish)
    ensures W.Enabled(c, s, e) && WriterAlone(e)
  {
    if W.Enabled(c, s, W.WorkerTake) {
      e := W.WorkerTake;
    } else if W.Enabled(c, s, W.WorkerExecute) {
      e := W.WorkerExecute;
    } else if W.Enabled(c, s, W.WorkerRelease) {
      e := W.WorkerRelease;
    } else {
      e := W.WorkerFinish;
    }
  }
}
