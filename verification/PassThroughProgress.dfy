/** FIO_passThrough returns under every schedule: each step that is not a spurious wake-up
    or a mere reordering of completions uses up a part of a bounded amount of work. */
module PassThroughProgress {
  import opened Bytes
  import opened JobLists
  import R = ReadPool
  import RS = ReadPoolSafety
  import W = WritePool
  import WS = WritePoolSafety
  import opened PassThrough

  function WorkerWork(w: Worker): nat {
    match w
    case Idle => 0
    case Took(_) => 4
    case Did(_) => 3
    case Returning => 1
  }

  function PhaseWork(phase: R.Phase): nat {
    match phase
    case Releasing(_, _) => 10
    case Acquiring(_, _) => 9
    case Adding(_, _, _) => 8
    case Scanning(_, _) => 2
    case Waiting(_, _) => 1
    case _ => 0
  }

  function ReaderWork(s: R.State): nat {
    5 * |s.queue| + WorkerWork(s.worker) + PhaseWork(s.phase)
  }

  function WriterWork(s: W.State): nat {
    5 * |s.queue| + WorkerWork(s.worker)
  }

  function PlaceWork(at: Where): nat {
    match at
    case AcquiringFirst => 42
    case BeginningFill => 41
    case Filling => 30
    case Copying => 29
    case Enqueuing => 28
    case Reacquiring => 22
    case Consuming => 21
    case Releasing => 29
    case Ending => 28
    case Joining => 27
    case Done => 0
    case Crashed => 0
  }

  function InputLeft(c: Config, p: State): nat {
    if |p.r.consumed| <= |c.file| then |c.file| - |p.r.consumed| else 0
  }

  function Work(c: Config, p: State): nat {
    30 * InputLeft(c, p) + PlaceWork(p.at) + ReaderWork(p.r) + WriterWork(p.w)
  }

  lemma ReaderAloneWorks(c: R.Config, s: R.State, e: R.Event)
    requires RS.Inv(c, s) && ReaderAlone(e) && R.Enabled(c, s, e)
    ensures var t := R.Step(c, s, e);
      if e.SpuriousWake? then ReaderWork(t) == ReaderWork(s) + 1
      else if e.ReorderCompleted? then ReaderWork(t) == ReaderWork(s)
      else ReaderWork(t) < ReaderWork(s)
  {
    RS.StepKeeps(c, s, e);
    NoCrash(c, R.Step(c, s, e));
    hide RS.Inv;
    AloneWorks(c, s, e);
  }

  lemma AloneWorks(c: R.Config, s: R.State, e: R.Event)
    requires ReaderAlone(e) && R.Enabled(c, s, e) && !R.Step(c, s, e).phase.Crashed?
    ensures var t := R.Step(c, s, e);
      if e.SpuriousWake? then ReaderWork(t) == ReaderWork(s) + 1
      else if e.ReorderCompleted? then ReaderWork(t) == ReaderWork(s)
      else ReaderWork(t) < ReaderWork(s)
  {
    hide R.Continue, R.BeginFill;
  }

  lemma WriterAloneWorks(c: W.Config, s: W.State, e: W.Event)
    requires WriterAlone(e) && W.Enabled(c, s, e)
    ensures WriterWork(W.Step(c, s, e)) < WriterWork(s)
  {
  }

  lemma FillContinueWorks(c: R.Config, s: R.State)
    requires RS.Inv(c, s) && R.MainCanContinue(c, s)
    requires s.phase.Releasing? || s.phase.Acquiring? || s.phase.Adding? || s.phase.Scanning?
    ensures ReaderWork(R.Continue(c, s)) < ReaderWork(s)
  {
    RS.ContinueKeeps(c, s);
    NoCrash(c, R.Continue(c, s));
    hide RS.Inv;
    if s.phase.Scanning? {
      ScanWorks(c, s);
    } else {
      OtherContinueWorks(c, s);
    }
  }

  lemma ScanWorks(c: R.Config, s: R.State)
    requires s.phase.Scanning? && !R.Scan(c, s).phase.Crashed?
    ensures ReaderWork(R.Scan(c, s)) < ReaderWork(s)
  {
  }

  lemma OtherContinueWorks(c: R.Config, s: R.State)
    requires R.MainCanContinue(c, s) && !R.Continue(c, s).phase.Crashed?
    requires s.phase.Releasing? || s.phase.Acquiring? || s.phase.Adding?
    ensures ReaderWork(R.Continue(c, s)) < ReaderWork(s)
  {
  }

  lemma BeginFillWorks(c: R.Config, s: R.State, n: nat)
    requires s.phase.Ready? && s.src.at + s.loaded <= |R.SrcSpace(s)|
    ensures ReaderWork(R.BeginFill(c, s, n)) <= ReaderWork(s) + 10
  {
  }

  lemma EnqueueWorks(c: W.Config, s: W.State)
    requires s.phase.Adding? && W.MainCanContinue(c, s)
    ensures WriterWork(W.Continue(c, s)) <= WriterWork(s) + 5
  {
  }

  lemma AcquireWorks(s: W.State)
    ensures WriterWork(W.Acquire(s)) == WriterWork(s)
  {
  }

  lemma MainWorks(c: Config, p: State)
    requires Inv(c, p) && MainEnabled(c, p)
    ensures Work(c, MainStep(c, p)) < Work(c, p)
  {
    MainKeeps(c, p);
    assert !p.at.Crashed? && !MainStep(c, p).at.Crashed?;
    if p.at.Filling? && !p.r.phase.Ready? {
      FillStepWorks(c, p);
    } else if p.at.BeginningFill? {
      BeginFillStepWorks(c, p);
    } else if p.at.Consuming? {
      ConsumeStepWorks(c, p);
    } else {
      hide Inv;
      WriterSideWorks(c, p);
    }
  }

  lemma WriterSideWorks(c: Config, p: State)
    requires MainEnabled(c, p) && !MainStep(c, p).at.Crashed?
    requires !(p.at.Filling? && !p.r.phase.Ready?) && !p.at.BeginningFill? && !p.at.Consuming?
    requires p.at.Enqueuing? ==> p.w.phase.Adding?
    requires p.at.Reacquiring? ==> p.w.phase.Reacquiring?
    requires p.at.Joining? ==> p.w.phase.Joining?
    ensures Work(c, MainStep(c, p)) < Work(c, p)
  {
    match p.at {
      case AcquiringFirst => AcquireWorks(p.w);
      case Filling =>
      case Copying =>
      case Enqueuing => EnqueueWorks(c.w, p.w);
      case Reacquiring => AcquireWorks(p.w);
      case Releasing =>
      case Ending =>
      case Joining =>
    }
  }

  lemma BeginFillStepWorks(c: Config, p: State)
    requires Inv(c, p) && p.at.BeginningFill?
    ensures Work(c, MainStep(c, p)) < Work(c, p)
  {
    NoCrash(c.r, p.r);
    hide R.BeginFill, RS.FillDone, RS.Inv, WS.Inv, WriterPlace, CopyPlace, Output, R.SrcSpace;
    FillBegins(c.r, p.r, c.blockSize);
    BeginFillWorks(c.r, p.r, c.blockSize);
    BeginFillStepIs(c, p);
    hide MainStep, R.Step, R.Enabled;
  }

  lemma BeginFillStepIs(c: Config, p: State)
    requires p.at.BeginningFill? && R.Enabled(c.r, p.r, R.Fill(c.blockSize))
    ensures MainStep(c, p) == p.(r := R.Step(c.r, p.r, R.Fill(c.blockSize)), at := Filling)
    ensures R.Step(c.r, p.r, R.Fill(c.blockSize)) == R.BeginFill(c.r, p.r, c.blockSize)
  {
    hide R.BeginFill, R.Continue;
  }

  lemma FillStepWorks(c: Config, p: State)
    requires Inv(c, p) && p.at.Filling? && !p.r.phase.Ready? && MainEnabled(c, p)
    ensures Work(c, MainStep(c, p)) < Work(c, p)
  {
    hide RS.Inv, WS.Inv, R.Continue, RS.FillDone, Output;
    FillContinueWorks(c.r, p.r);
    FillContinues(c.r, p.r, c.blockSize);
    assert MainStep(c, p) == p.(r := R.Continue(c.r, p.r));
  }

  lemma ConsumeStepWorks(c: Config, p: State)
    requires Inv(c, p) && p.at.Consuming?
    ensures Work(c, MainStep(c, p)) < Work(c, p)
  {
    ConsumeKeeps(c, p);
    ConsumedIsInput(c.r, p.r);
    hide RS.Inv, WS.Inv, Output, R.Window, R.SrcSpace;
    ConsumeStepIs(c, p);
  }

  lemma ConsumeStepIs(c: Config, p: State)
    requires p.at.Consuming? && !MainStep(c, p).at.Crashed?
    ensures var q := MainStep(c, p);
      q.at.BeginningFill? && q.w == p.w && ReaderWork(q.r) == ReaderWork(p.r)
  {
  }

  /** The steps of a run that use up work, and the others. */
  function Productive(events: seq<Event>): nat {
    if events == [] then 0 else (if Progresses(events[0]) then 1 else 0) + Productive(events[1..])
  }

  function Spurious(events: seq<Event>): nat {
    if events == [] then 0
    else (if events[0].Reader? && events[0].re.SpuriousWake? then 1 else 0) + Spurious(events[1..])
  }

  lemma StepWorks(c: Config, p: State, e: Event)
    requires Inv(c, p) && Enabled(c, p, e)
    ensures Progresses(e) ==> Work(c, Step(c, p, e)) < Work(c, p)
    ensures Work(c, Step(c, p, e)) <= Work(c, p) + if e.Reader? && e.re.SpuriousWake? then 1 else 0
  {
    match e {
      case Main => MainWorks(c, p);
      case Reader(re) => ReaderStepWorks(c, p, re);
      case Writer(we) => WriterAloneWorks(c.w, p.w, we);
    }
  }

  lemma ReaderStepWorks(c: Config, p: State, e: R.Event)
    requires Inv(c, p) && ReaderAlone(e) && R.Enabled(c.r, p.r, e)
    ensures var q := p.(r := R.Step(c.r, p.r, e));
      if e.SpuriousWake? then Work(c, q) == Work(c, p) + 1
      else if e.ReorderCompleted? then Work(c, q) == Work(c, p)
      else Work(c, q) < Work(c, p)
  {
    ReaderAloneWorks(c.r, p.r, e);
    ReaderAloneFrame(c.r, p.r, e);
    hide R.Step, R.Enabled, RS.Inv, WS.Inv;
  }

  /** Every run has a bounded number of productive steps: with finitely many spurious wake-ups,
      and a thread able to make a productive step until the end (NeverStuck), the function returns. */
  lemma {:induction false} RunIsBounded(c: Config, p: State, events: seq<Event>, q: State)
    requires Inv(c, p) && Run(c, p, events, q)
    ensures Productive(events) + Work(c, q) <= Work(c, p) + Spurious(events)
    decreases |events|
  {
    if events != [] {
      hide Inv, Enabled, Step, Work;
      StepKeeps(c, p, events[0]);
      StepWorks(c, p, events[0]);
      RunIsBounded(c, Step(c, p, events[0]), events[1..], q);
    }
  }
}
