/** The parallel file-processing pipeline of lab-2 as a transition system: one worker per
    strategy, one printer behind an unbuffered channel, a buffered result channel, and the
    main goroutine that collects, sorts and closes. */
module Pipeline {
  import opened Wrappers
  import opened FileReading
  import opened Sequences
  import opened Sorting
  import opened Text

  datatype Stat = Stat(id: int, processed: int)

  const ById: Order<Stat> := (x: Stat, y: Stat) => x.id <= y.id

  predicate SortedById(s: seq<Stat>) { Sorted(ById, s) }

  function SortById(s: seq<Stat>): seq<Stat> { Sort(ById, s) }

  lemma {:induction false} SortByIdSorts(s: seq<Stat>)
    ensures SortedById(SortById(s)) && multiset(SortById(s)) == multiset(s)
  {
    SortSorts(ById, s);
  }

  /** ends(n, a) is whether the call of apply on n and a ever returns. */
  datatype Strategy = Strategy(id: int, desc: string, ends: (int, int) -> bool, apply: (int, int) -> string)

  /** Everything a run depends on besides the schedule. The file is the same for every
      worker; opens(i) is whether worker i manages to open it. */
  datatype Job = Job(strategies: seq<Strategy>, a: int, file: File, atoi: Atoi, opens: nat -> bool)
  {
    function N(): nat { |strategies| }
    function G(): nat { Good(file, atoi) }
  }

  datatype ProcessError = EmptyPath | NoStrategies | OpenFailed | ReadFailed(cause: ReadError)

  datatype Line = Line(worker: nat, text: string)
  datatype Message = Message(worker: nat, outcome: Result<Stat, ProcessError>)
  datatype Report = Report(strategies: seq<Stat>, totalNumbers: int, totalOps: int)

  /** Where a worker goroutine stands. Hung is a call of the strategy that never returns, Crashed
      the panic of a send on a closed channel. */
  datatype Worker =
    | Starting
    | Reading(reader: ReaderState, processed: nat)
    | Sending(reader: ReaderState, processed: nat, text: string)
    | Checking(reader: ReaderState, processed: nat)
    | Reporting(outcome: Result<Stat, ProcessError>)
    | Finished
    | Hung
    | Crashed

  datatype Printer = Receiving | Printing(line: Line) | Exited

  datatype Main =
    | Collecting
    | Summarised(report: Report)
    | Awaiting(report: Report)
    | Returned(outcome: Result<Report, ProcessError>)

  /** linesClosed is the state of the unbuffered channel, done the content of the buffered one.
      collected lists the messages main has received so far, printed what was written to out. */
  datatype State = State(
    workers: seq<Worker>, printer: Printer, linesClosed: bool, done: seq<Message>,
    main: Main, collected: seq<Message>, printed: seq<Line>)

  function Init(job: Job): State
  {
    State(seq(job.N(), _ => Starting), Receiving, false, [], Collecting, [], [])
  }

  // ---------- text ----------

  function Format(s: Strategy, n: int, a: int): string
  {
    "[Strategy " + Itoa(s.id) + "] number " + Itoa(n) + " -> " + s.apply(n, a)
  }

  // ---------- steps ----------

  /** One atomic step of one goroutine. Main carries the order an unstable sort picks. */
  datatype Step = Work(i: nat) | Print | Drive(order: seq<Stat>)

  function Stats(ms: seq<Message>): (r: seq<Stat>)
    ensures |r| <= |ms|
    ensures (forall k :: 0 <= k < |ms| ==> ms[k].outcome.Ok?) ==>
              |r| == |ms| && forall k :: 0 <= k < |ms| ==> r[k] == ms[k].outcome.value
  {
    if ms == [] then []
    else
      var front := Stats(ms[..|ms| - 1]);
      var last := ms[|ms| - 1];
      if last.outcome.Ok? then front + [last.outcome.value] else front
  }

  function SumProcessed(stats: seq<Stat>): int
  {
    if stats == [] then 0 else stats[0].processed + SumProcessed(stats[1..])
  }

  predicate Enabled(job: Job, s: State, step: Step)
  {
    match step
    case Work(i) =>
      i < |s.workers| &&
      (match s.workers[i]
       case Starting | Reading(_, _) | Checking(_, _) => true
       case Sending(_, _, _) => s.linesClosed || s.printer == Receiving
       case Reporting(_) => |s.done| < job.N()
       case Finished | Hung | Crashed => false)
    case Print =>
      s.printer.Printing? || (s.printer.Receiving? && s.linesClosed)
    case Drive(order) =>
      match s.main
      case Collecting =>
        if |s.collected| < job.N() then s.done != []
        else SortedById(order) && multiset(order) == multiset(Stats(s.collected))
      case Summarised(_) => true
      case Awaiting(_) => s.printer.Exited?
      case Returned(_) => false
  }

  function WorkerStep(job: Job, s: State, i: nat): State
    requires i < |s.workers| && i < job.N()
  {
    var w := s.workers[i];
    match w
    case Starting =>
      s.(workers := s.workers[i := if job.opens(i) then Reading(FRESH, 0) else Reporting(Err(OpenFailed))])
    case Reading(r, p) =>
      if r.pos > |job.file.words| then s else
      var (r', n) := Advance(job.file, job.atoi, r);
      s.(workers := s.workers[i :=
        match n
        case None => Checking(r', p)
        case Some(v) =>
          if job.strategies[i].ends(v, job.a) then Sending(r', p, Format(job.strategies[i], v, job.a)) else Hung])
    case Sending(r, p, text) =>
      if s.linesClosed then s.(workers := s.workers[i := Crashed])
      else s.(workers := s.workers[i := Reading(r, p + 1)], printer := Printing(Line(i, text)))
    case Checking(r, p) =>
      s.(workers := s.workers[i := Reporting(
        match r.err
        case Some(e) => Err(ReadFailed(e))
        case None => Ok(Stat(job.strategies[i].id, p)))])
    case Reporting(outcome) =>
      s.(workers := s.workers[i := Finished], done := s.done + [Message(i, outcome)])
    case Finished => s
    case Hung => s
    case Crashed => s
  }

  function PrinterStep(s: State): State
  {
    match s.printer
    case Printing(line) => s.(printer := Receiving, printed := s.printed + [line])
    case Receiving => s.(printer := Exited)
    case Exited => s
  }

  function Summary(order: seq<Stat>): Report
  {
    Report(order, if |order| > 0 then order[0].processed else 0, SumProcessed(order))
  }

  function MainStep(job: Job, s: State, order: seq<Stat>): State
  {
    match s.main
    case Collecting =>
      if |s.collected| < job.N() then
        if s.done == [] then s else
        var m := s.done[0];
        s.(done := s.done[1..], collected := s.collected + [m],
           main := match m.outcome case Err(e) => Returned(Err(e)) case Ok(_) => Collecting)
      else s.(main := Summarised(Summary(order)))
    case Summarised(rep) => s.(main := Awaiting(rep), linesClosed := true)
    case Awaiting(rep) => s.(main := Returned(Ok(rep)))
    case Returned(_) => s
  }

  function Next(job: Job, s: State, step: Step): State
    requires |s.workers| == job.N()
  {
    match step
    case Work(i) => if i < job.N() then WorkerStep(job, s, i) else s
    case Print => PrinterStep(s)
    case Drive(order) => MainStep(job, s, order)
  }

  // ---------- runs ----------

  /** steps is a run from s to t: every step was enabled when it was taken. */
  ghost predicate Run(job: Job, s: State, steps: seq<Step>, t: State)
    decreases |steps|
  {
    if steps == [] then s == t
    else
      |s.workers| == job.N() && Enabled(job, s, steps[0]) &&
      Run(job, Next(job, s, steps[0]), steps[1..], t)
  }

  ghost predicate Reachable(job: Job, t: State)
  {
    exists steps :: Run(job, Init(job), steps, t)
  }

  // ---------- what every worker owes ----------

  /** How many numbers, from the k-th on, worker i gets past before a call that never returns. */
  function ReachFrom(job: Job, i: nat, k: nat): (r: nat)
    requires i < job.N() && k <= job.G()
    ensures k <= r <= job.G()
    ensures forall j :: k <= j < r ==> job.strategies[i].ends(Number(job.file, job.atoi, j), job.a)
    ensures r < job.G() ==> !job.strategies[i].ends(Number(job.file, job.atoi, r), job.a)
    decreases job.G() - k
  {
    if k == job.G() || !job.strategies[i].ends(Number(job.file, job.atoi, k), job.a) then k
    else ReachFrom(job, i, k + 1)
  }

  function Reach(job: Job, i: nat): (r: nat)
    requires i < job.N()
    ensures r <= job.G()
    ensures forall j: nat :: j < r ==> job.strategies[i].ends(Number(job.file, job.atoi, j), job.a)
    ensures r < job.G() ==> !job.strategies[i].ends(Number(job.file, job.atoi, r), job.a)
  {
    ReachFrom(job, i, 0)
  }

  /** Worker i ends up in a call that never returns. */
  predicate Hangs(job: Job, i: nat)
    requires i < job.N()
  {
    job.opens(i) && Reach(job, i) < job.G()
  }

  /** The k-th line worker i sends. */
  function LineOf(job: Job, i: nat, k: nat): Line
    requires i < job.N() && k < job.G()
  {
    Line(i, Format(job.strategies[i], Number(job.file, job.atoi, k), job.a))
  }

  /** The first count lines of worker i, in file order. */
  function LinesOf(job: Job, i: nat, count: nat): (r: seq<Line>)
    requires i < job.N() && count <= job.G()
    ensures |r| == count
  {
    if count == 0 then [] else LinesOf(job, i, count - 1) + [LineOf(job, i, count - 1)]
  }

  /** The result worker i reports, whatever the schedule, unless it hangs. */
  function Owed(job: Job, i: nat): Result<Stat, ProcessError>
    requires i < job.N()
  {
    if !job.opens(i) then Err(OpenFailed)
    else
      match Verdict(job.file, job.atoi)
      case Some(e) => Err(ReadFailed(e))
      case None => Ok(Stat(job.strategies[i].id, job.G()))
  }

  /** The number of lines worker i sends in all. */
  function Total(job: Job, i: nat): nat
    requires i < job.N()
  {
    if job.opens(i) then Reach(job, i) else 0
  }

  /** The part of an output that came from worker i. */
  function By(lines: seq<Line>, i: nat): seq<Line>
  {
    if lines == [] then []
    else
      var front := By(lines[..|lines| - 1], i);
      var last := lines[|lines| - 1];
      if last.worker == i then front + [last] else front
  }

  lemma {:induction false} ByAppend(lines: seq<Line>, l: Line, i: nat)
    ensures By(lines + [l], i) == By(lines, i) + if l.worker == i then [l] else []
  {
    assert (lines + [l])[..|lines|] == lines;
  }

  // ---------- the invariant ----------

  /** What was printed, and the line the printer still holds. */
  function Delivered(s: State): seq<Line>
  {
    s.printed + if s.printer.Printing? then [s.printer.line] else []
  }

  /** How many lines worker i has handed over. */
  function Sent(job: Job, i: nat, w: Worker): int
    requires i < job.N()
  {
    match w
    case Starting => 0
    case Reading(_, p) => p
    case Sending(_, p, _) => p
    case Checking(_, p) => p
    case Reporting(_) => Total(job, i)
    case Finished => Total(job, i)
    case Hung => Total(job, i)
    case Crashed => 0
  }

  ghost predicate WorkerOk(job: Job, i: nat, w: Worker)
    requires i < job.N()
  {
    match w
    case Starting => true
    case Reading(r, p) => job.opens(i) && p <= Reach(job, i) && r == After(p)
    case Sending(r, p, text) =>
      job.opens(i) && p < Reach(job, i) && r == After(p + 1) && Line(i, text) == LineOf(job, i, p)
    case Checking(r, p) => job.opens(i) && p == Reach(job, i) == job.G() && r == Stopped(job.file, job.atoi)
    case Reporting(outcome) => !Hangs(job, i) && outcome == Owed(job, i)
    case Finished => !Hangs(job, i)
    case Hung => Hangs(job, i)
    case Crashed => false
  }

  /** The workers whose messages have been sent, in the order they were sent. */
  function Senders(s: State): (r: seq<nat>)
    ensures |r| == |s.collected| + |s.done|
  {
    var all := s.collected + s.done;
    seq(|all|, k requires 0 <= k < |all| => all[k].worker)
  }

  ghost predicate WorkersOk(job: Job, s: State)
  {
    && |s.workers| == job.N()
    && (forall i :: 0 <= i < job.N() ==> WorkerOk(job, i, s.workers[i]))
  }

  ghost predicate OutputOk(job: Job, s: State)
    requires WorkersOk(job, s)
  {
    && (forall i :: 0 <= i < job.N() ==>
          0 <= Sent(job, i, s.workers[i]) <= job.G() &&
          By(Delivered(s), i) == LinesOf(job, i, Sent(job, i, s.workers[i])))
    && (forall k :: 0 <= k < |Delivered(s)| ==> Delivered(s)[k].worker < job.N())
  }

  ghost predicate MessagesOk(job: Job, s: State)
    requires |s.workers| == job.N()
  {
    && Distinct(Senders(s))
    && Below(Senders(s), job.N())
    && (forall i: nat :: i < job.N() ==> (s.workers[i].Finished? <==> i in Senders(s)))
    && (forall k :: 0 <= k < |s.collected| ==>
          s.collected[k].worker < job.N() && s.collected[k].outcome == Owed(job, s.collected[k].worker))
    && (forall k :: 0 <= k < |s.done| ==>
          s.done[k].worker < job.N() && s.done[k].outcome == Owed(job, s.done[k].worker))
  }

  ghost predicate AllOk(ms: seq<Message>)
  {
    forall k :: 0 <= k < |ms| ==> ms[k].outcome.Ok?
  }

  ghost predicate IsSummary(s: State, rep: Report)
  {
    && SortedById(rep.strategies)
    && multiset(rep.strategies) == multiset(Stats(s.collected))
    && rep == Summary(rep.strategies)
  }

  ghost predicate MainOk(job: Job, s: State)
  {
    match s.main
    case Collecting => AllOk(s.collected) && |s.collected| <= job.N() && !s.linesClosed
    case Summarised(rep) => AllOk(s.collected) && |s.collected| == job.N() && IsSummary(s, rep) && !s.linesClosed
    case Awaiting(rep) => AllOk(s.collected) && |s.collected| == job.N() && IsSummary(s, rep) && s.linesClosed
    case Returned(Ok(rep)) =>
      AllOk(s.collected) && |s.collected| == job.N() && IsSummary(s, rep) && s.linesClosed && s.printer.Exited?
    case Returned(Err(e)) =>
      s.collected != [] && s.collected[|s.collected| - 1].outcome == Err(e) && !s.linesClosed
  }

  ghost predicate Inv(job: Job, s: State)
  {
    && WorkersOk(job, s)
    && OutputOk(job, s)
    && MessagesOk(job, s)
    && MainOk(job, s)
    && (s.printer.Exited? ==> s.linesClosed)
  }

  // ---------- preservation ----------

  lemma InitInv(job: Job)
    ensures job.N() > 0 ==> Inv(job, Init(job))
  {
  }

  /** Once the channel is closed every worker is done with it. */
  lemma ClosedMeansFinished(job: Job, s: State)
    requires Inv(job, s) && s.linesClosed
    ensures forall i :: 0 <= i < job.N() ==> s.workers[i].Finished?
    ensures s.done == []
  {
    DistinctFits(Senders(s), job.N());
  }

  /** A worker that still has to report leaves room in the result channel. */
  lemma RoomToReport(job: Job, s: State, i: nat)
    requires Inv(job, s) && i < job.N() && !s.workers[i].Finished?
    ensures |s.collected| + |s.done| < job.N()
  {
    DistinctFits(Senders(s), job.N());
  }

  lemma WorkerKeepsInv(job: Job, s: State, i: nat)
    requires Inv(job, s) && Enabled(job, s, Work(i))
    ensures Inv(job, WorkerStep(job, s, i))
  {
    var t := WorkerStep(job, s, i);
    EnabledMeansOpen(job, s, i);
    WorkerKeepsWorkers(job, s, i);
    WorkerKeepsOutput(job, s, i);
    WorkerKeepsMessages(job, s, i);
    WorkerKeepsMain(job, s, i);
  }

  lemma WorkerKeepsMain(job: Job, s: State, i: nat)
    requires i < |s.workers| && i < job.N() && MainOk(job, s) && !s.linesClosed
    requires s.printer.Exited? ==> s.linesClosed
    requires Enabled(job, s, Work(i))
    ensures MainOk(job, WorkerStep(job, s, i))
    ensures WorkerStep(job, s, i).printer.Exited? ==> WorkerStep(job, s, i).linesClosed
  {
    var t := WorkerStep(job, s, i);
    assert t.collected == s.collected && t.main == s.main && t.linesClosed == s.linesClosed;
  }

  lemma EnabledMeansOpen(job: Job, s: State, i: nat)
    requires Inv(job, s) && Enabled(job, s, Work(i))
    ensures !s.linesClosed
  {
    if s.linesClosed { ClosedMeansFinished(job, s); }
  }

  lemma WorkerKeepsWorkers(job: Job, s: State, i: nat)
    requires Inv(job, s) && Enabled(job, s, Work(i)) && !s.linesClosed
    ensures WorkersOk(job, WorkerStep(job, s, i))
  {
    NewWorkerOk(job, s, i);
  }

  lemma NewWorkerOk(job: Job, s: State, i: nat)
    requires WorkersOk(job, s) && Enabled(job, s, Work(i)) && !s.linesClosed
    ensures var t := WorkerStep(job, s, i);
            |t.workers| == |s.workers| && t.workers == s.workers[i := t.workers[i]]
    ensures WorkerOk(job, i, WorkerStep(job, s, i).workers[i])
  {
    var w := s.workers[i];
    assert WorkerOk(job, i, w);
    if w.Reading? {
      AdvanceDelivers(job.file, job.atoi, w.processed);
    }
  }

  lemma WorkerKeepsOutput(job: Job, s: State, i: nat)
    requires Inv(job, s) && Enabled(job, s, Work(i)) && !s.linesClosed
    requires WorkersOk(job, WorkerStep(job, s, i))
    ensures OutputOk(job, WorkerStep(job, s, i))
  {
    if s.workers[i].Sending? {
      SendKeepsOutput(job, s, i);
    } else {
      SilentKeepsOutput(job, s, i);
    }
  }

  lemma SendKeepsOutput(job: Job, s: State, i: nat)
    requires WorkersOk(job, s) && OutputOk(job, s) && !s.linesClosed
    requires i < job.N() && s.workers[i].Sending? && s.printer.Receiving?
    requires WorkersOk(job, WorkerStep(job, s, i))
    ensures OutputOk(job, WorkerStep(job, s, i))
  {
    var t := WorkerStep(job, s, i);
    var w := s.workers[i];
    assert WorkerOk(job, i, w);
    var l := Line(i, w.text);
    assert Delivered(s) == s.printed && Delivered(t) == s.printed + [l];
    forall j: nat | j < job.N()
      ensures 0 <= Sent(job, j, t.workers[j]) <= job.G()
      ensures By(Delivered(t), j) == LinesOf(job, j, Sent(job, j, t.workers[j]))
    {
      ShareAfterSend(job, s, i, j, l);
    }
    assert forall k :: 0 <= k < |Delivered(t)| ==> Delivered(t)[k].worker < job.N();
  }

  lemma ShareAfterSend(job: Job, s: State, i: nat, j: nat, l: Line)
    requires WorkersOk(job, s) && OutputOk(job, s) && !s.linesClosed && i < job.N() && j < job.N()
    requires s.workers[i].Sending? && s.printer.Receiving? && l == Line(i, s.workers[i].text)
    ensures var sent := Sent(job, j, WorkerStep(job, s, i).workers[j]);
            0 <= sent <= job.G() && By(s.printed + [l], j) == LinesOf(job, j, sent)
  {
    var w := s.workers[i];
    assert WorkerOk(job, i, w);
    assert Delivered(s) == s.printed;
    ShareGrows(s.printed, l, j);
    if j == i { LinesGrow(job, i, w.processed, l); }
  }

  lemma LinesGrow(job: Job, i: nat, k: nat, l: Line)
    requires i < job.N() && k < job.G() && l == LineOf(job, i, k)
    ensures LinesOf(job, i, k + 1) == LinesOf(job, i, k) + [l]
  {
  }

  /** A line extends the share of its own worker and of nobody else. */
  lemma {:induction false} ShareGrows(printed: seq<Line>, l: Line, j: nat)
    ensures l.worker == j ==> By(printed + [l], j) == By(printed, j) + [l]
    ensures l.worker != j ==> By(printed + [l], j) == By(printed, j)
  {
    ByAppend(printed, l, j);
  }

  lemma SilentKeepsOutput(job: Job, s: State, i: nat)
    requires WorkersOk(job, s) && OutputOk(job, s) && !s.linesClosed
    requires Enabled(job, s, Work(i)) && !s.workers[i].Sending?
    requires WorkersOk(job, WorkerStep(job, s, i))
    ensures OutputOk(job, WorkerStep(job, s, i))
  {
    var t := WorkerStep(job, s, i);
    var w := s.workers[i];
    assert WorkerOk(job, i, w);
    if w.Reading? {
      AdvanceDelivers(job.file, job.atoi, w.processed);
    }
    assert Delivered(t) == Delivered(s);
    assert Sent(job, i, t.workers[i]) == Sent(job, i, w);
  }

  lemma WorkerKeepsMessages(job: Job, s: State, i: nat)
    requires Inv(job, s) && Enabled(job, s, Work(i)) && !s.linesClosed
    ensures MessagesOk(job, WorkerStep(job, s, i))
  {
    var t := WorkerStep(job, s, i);
    if s.workers[i].Reporting? {
      ReportKeepsMessages(job, s, i);
    } else {
      assert Senders(t) == Senders(s);
      assert !s.workers[i].Finished? && !t.workers[i].Finished?;
    }
  }

  lemma ReportKeepsMessages(job: Job, s: State, i: nat)
    requires WorkersOk(job, s) && MessagesOk(job, s) && i < job.N() && s.workers[i].Reporting?
    ensures MessagesOk(job, WorkerStep(job, s, i))
  {
    var t := WorkerStep(job, s, i);
    assert WorkerOk(job, i, s.workers[i]);
    assert Senders(t) == Senders(s) + [i];
    assert i !in Senders(s);
  }

  lemma PrinterKeepsInv(job: Job, s: State)
    requires Inv(job, s) && Enabled(job, s, Print)
    ensures Inv(job, PrinterStep(s))
  {
    var t := PrinterStep(s);
    assert Delivered(t) == Delivered(s);
    assert Senders(t) == Senders(s);
  }

  lemma {:induction false} MainKeepsInv(job: Job, s: State, order: seq<Stat>)
    requires Inv(job, s) && Enabled(job, s, Drive(order))
    ensures Inv(job, MainStep(job, s, order))
  {
    var t := MainStep(job, s, order);
    assert Delivered(t) == Delivered(s);
    MainKeepsMessages(job, s, order);
  }

  lemma {:induction false} MainKeepsMessages(job: Job, s: State, order: seq<Stat>)
    requires |s.workers| == job.N() && MessagesOk(job, s) && Enabled(job, s, Drive(order))
    ensures MessagesOk(job, MainStep(job, s, order))
  {
    var t := MainStep(job, s, order);
    assert s.collected + s.done == t.collected + t.done;
    assert Senders(t) == Senders(s);
  }

  /** Every step of every goroutine keeps the invariant. */
  lemma StepKeepsInv(job: Job, s: State, step: Step)
    requires Inv(job, s) && Enabled(job, s, step)
    ensures Inv(job, Next(job, s, step))
  {
    match step
    case Work(i) => WorkerKeepsInv(job, s, i);
    case Print => PrinterKeepsInv(job, s);
    case Drive(order) => MainKeepsInv(job, s, order);
  }

  lemma {:induction false} RunKeepsInv(job: Job, s: State, steps: seq<Step>, t: State)
    requires Inv(job, s) && Run(job, s, steps, t)
    ensures Inv(job, t)
    decreases |steps|
  {
    if steps != [] {
      StepKeepsInv(job, s, steps[0]);
      RunKeepsInv(job, Next(job, s, steps[0]), steps[1..], t);
    }
  }

  lemma ReachableInv(job: Job, t: State)
    requires job.N() > 0 && Reachable(job, t)
    ensures Inv(job, t)
  {
    var steps :| Run(job, Init(job), steps, t);
    InitInv(job);
    RunKeepsInv(job, Init(job), steps, t);
  }
}
