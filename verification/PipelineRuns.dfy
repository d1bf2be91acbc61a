/** What holds over every run of the pipeline: it cannot get stuck, every run is short, no
    send meets a closed channel, and the outcome does not depend on the schedule. */
module PipelineRuns {
  import opened Wrappers
  import opened FileReading
  import opened Sequences
  import opened Sorting
  import opened Pipeline

  // ---------- channel safety ----------

  /** No run reaches a send on a closed channel, a closed channel has no worker left that
      could send, and a worker that wants to report never finds the result channel full. */
  lemma ChannelSafety(job: Job, t: State)
    requires job.N() > 0 && Reachable(job, t)
    ensures |t.workers| == job.N()
    ensures forall i :: 0 <= i < job.N() ==> !t.workers[i].Crashed?
    ensures t.linesClosed ==> forall i :: 0 <= i < job.N() ==> t.workers[i].Finished?
    ensures forall i: nat :: i < job.N() && t.workers[i].Reporting? ==> Enabled(job, t, Work(i))
  {
    ReachableInv(job, t);
    forall i | 0 <= i < job.N() ensures !t.workers[i].Crashed? {
      assert WorkerOk(job, i, t.workers[i]);
    }
    if t.linesClosed {
      ClosedMeansFinished(job, t);
    }
    forall i: nat | i < job.N() && t.workers[i].Reporting? ensures Enabled(job, t, Work(i)) {
      RoomToReport(job, t, i);
    }
  }

  // ---------- progress ----------

  /** A worker that has ended or hangs. */
  predicate Still(w: Worker) { w.Finished? || w.Hung? }

  /** Nothing is left to happen: every worker has ended or hangs, main has returned or waits for a
      result that never comes, and the printer has ended exactly if the channel was closed. */
  predicate AtRest(job: Job, s: State)
  {
    && (s.main.Returned? || (s.main.Collecting? && s.done == [] && |s.collected| < job.N()))
    && (forall i :: 0 <= i < |s.workers| ==> Still(s.workers[i]))
    && s.printer == if s.main.Returned? && s.main.outcome.Ok? then Exited else Receiving
  }

  function FirstActive(ws: seq<Worker>): (i: nat)
    ensures i <= |ws|
    ensures forall k :: 0 <= k < i ==> Still(ws[k])
    ensures i < |ws| ==> !Still(ws[i])
  {
    if ws == [] || !Still(ws[0]) then 0 else 1 + FirstActive(ws[1..])
  }

  /** One step that can be taken, whenever there is one. */
  function Pending(s: State): Step
  {
    var i := FirstActive(s.workers);
    if s.printer.Printing? then Print
    else if i < |s.workers| then Work(i)
    else if s.main.Awaiting? && s.printer.Receiving? then Print
    else Drive(SortById(Stats(s.collected)))
  }

  lemma PendingEnabled(job: Job, s: State)
    requires Inv(job, s) && !AtRest(job, s)
    ensures Enabled(job, s, Pending(s))
  {
    var i := FirstActive(s.workers);
    if s.printer.Printing? {
    } else if i < |s.workers| {
      assert WorkerOk(job, i, s.workers[i]);
      if s.linesClosed { ClosedMeansFinished(job, s); }
      RoomToReport(job, s, i);
    } else {
      SortByIdSorts(Stats(s.collected));
    }
  }

  lemma AllReported(job: Job, s: State)
    requires Inv(job, s) && forall i :: 0 <= i < job.N() ==> s.workers[i].Finished?
    ensures |s.collected| + |s.done| == job.N()
  {
    DistinctFits(Senders(s), job.N());
    assert Covers(Senders(s), job.N());
    CoverNeedsLength(Senders(s), job.N());
  }

  /** Deadlock freedom, exactly: a reachable state has no enabled step iff the run is at rest. In
      particular main never blocks for ever unless a worker hangs, and after an early error
      return the remaining workers still all run to their end while the printer, whose
      channel is never closed, is left receiving for ever. */
  lemma StuckIffAtRest(job: Job, t: State)
    requires job.N() > 0 && Reachable(job, t)
    ensures (forall step :: !Enabled(job, t, step)) <==> AtRest(job, t)
  {
    ReachableInv(job, t);
    if AtRest(job, t) {
      forall step ensures !Enabled(job, t, step) {
      }
    } else {
      PendingEnabled(job, t);
    }
  }

  // ---------- termination ----------

  function WorkerWeight(job: Job, w: Worker): int
  {
    match w
    case Starting => 3 * job.G() + 5
    case Reading(_, p) => 3 * (job.G() - p) + 4
    case Sending(_, p, _) => 3 * (job.G() - p) + 3
    case Checking(_, _) => 3
    case Reporting(_) => 2
    case Finished => 0
    case Hung => 0
    case Crashed => 0
  }

  function WorkersWeight(job: Job, ws: seq<Worker>): int
  {
    if ws == [] then 0 else WorkerWeight(job, ws[0]) + WorkersWeight(job, ws[1..])
  }

  function Weight(job: Job, s: State): int
  {
    WorkersWeight(job, s.workers) + |s.done| +
    (match s.printer case Receiving => 1 case Printing(_) => 2 case Exited => 0) +
    (match s.main case Collecting => 3 case Summarised(_) => 2 case Awaiting(_) => 1 case Returned(_) => 0)
  }

  lemma {:induction false} WeightUpdate(job: Job, ws: seq<Worker>, i: nat, w: Worker)
    requires i < |ws|
    ensures WorkersWeight(job, ws[i := w]) == WorkersWeight(job, ws) - WorkerWeight(job, ws[i]) + WorkerWeight(job, w)
  {
    if i > 0 {
      WeightUpdate(job, ws[1..], i - 1, w);
      assert ws[i := w][1..] == ws[1..][i - 1 := w];
    } else {
      assert ws[i := w][1..] == ws[1..];
    }
  }

  lemma {:induction false} WeightNonNegative(job: Job, ws: seq<Worker>)
    requires forall i :: 0 <= i < |ws| ==> WorkerWeight(job, ws[i]) >= 0
    ensures WorkersWeight(job, ws) >= 0
  {
    if ws != [] { WeightNonNegative(job, ws[1..]); }
  }

  /** Every step of every goroutine uses up weight, and weight cannot run below zero. */
  lemma StepLowersWeight(job: Job, s: State, step: Step)
    requires Inv(job, s) && Enabled(job, s, step)
    ensures 0 <= Weight(job, Next(job, s, step)) < Weight(job, s)
  {
    var t := Next(job, s, step);
    StepKeepsInv(job, s, step);
    forall i | 0 <= i < |t.workers| ensures WorkerWeight(job, t.workers[i]) >= 0 {
      assert WorkerOk(job, i, t.workers[i]);
    }
    WeightNonNegative(job, t.workers);
    if step.Work? {
      WorkLowersWeight(job, s, step.i);
    }
  }

  lemma WorkLowersWeight(job: Job, s: State, i: nat)
    requires Inv(job, s) && Enabled(job, s, Work(i))
    ensures Weight(job, WorkerStep(job, s, i)) < Weight(job, s)
  {
    var w := s.workers[i];
    var t := WorkerStep(job, s, i);
    EnabledMeansOpen(job, s, i);
    NewWorkerOk(job, s, i);
    WeightUpdate(job, s.workers, i, t.workers[i]);
    assert WorkerOk(job, i, w);
    if w.Reading? {
      AdvanceDelivers(job.file, job.atoi, w.processed);
    }
  }

  lemma {:induction false} RunLowersWeight(job: Job, s: State, steps: seq<Step>, t: State)
    requires Inv(job, s) && Run(job, s, steps, t)
    ensures 0 <= Weight(job, t) ==> |steps| <= Weight(job, s) - Weight(job, t)
    ensures |steps| > 0 ==> 0 <= Weight(job, t)
    decreases |steps|
  {
    if steps != [] {
      var u := Next(job, s, steps[0]);
      StepKeepsInv(job, s, steps[0]);
      StepLowersWeight(job, s, steps[0]);
      RunLowersWeight(job, u, steps[1..], t);
      if |steps| == 1 { assert u == t; }
    }
  }

  lemma {:induction false} StartingWeight(job: Job, ws: seq<Worker>)
    requires forall i :: 0 <= i < |ws| ==> ws[i].Starting?
    ensures WorkersWeight(job, ws) == |ws| * (3 * job.G() + 5)
  {
    if ws != [] { StartingWeight(job, ws[1..]); }
  }

  /** Termination under every schedule: no run is longer than this bound, so every run comes
      to rest, and Process returns on the way. */
  lemma {:induction false} RunsAreShort(job: Job, steps: seq<Step>, t: State)
    requires job.N() > 0 && Run(job, Init(job), steps, t)
    ensures |steps| <= job.N() * (3 * job.G() + 5) + 4
  {
    InitInv(job);
    StartingWeight(job, Init(job).workers);
    RunLowersWeight(job, Init(job), steps, t);
  }

  lemma {:induction false} RunExtends(job: Job, s: State, steps: seq<Step>, t: State, step: Step)
    requires Run(job, s, steps, t) && |t.workers| == job.N() && Enabled(job, t, step)
    ensures Run(job, s, steps + [step], Next(job, t, step))
    decreases |steps|
  {
    if steps == [] {
      assert ([step])[1..] == [];
    } else {
      RunExtends(job, Next(job, s, steps[0]), steps[1..], t, step);
      assert (steps + [step])[1..] == steps[1..] + [step];
    }
  }

  lemma ReachableExtends(job: Job, t: State, step: Step)
    requires Reachable(job, t) && |t.workers| == job.N() && Enabled(job, t, step)
    ensures Reachable(job, Next(job, t, step))
  {
    var steps :| Run(job, Init(job), steps, t);
    RunExtends(job, Init(job), steps, t, step);
  }

  lemma {:induction false} RunPrepends(job: Job, s: State, step: Step, more: seq<Step>, u: State)
    requires |s.workers| == job.N() && Enabled(job, s, step) && Run(job, Next(job, s, step), more, u)
    ensures Run(job, s, [step] + more, u)
  {
    assert ([step] + more)[1..] == more;
  }

  /** From every reachable state the pipeline can still come to rest. */
  lemma {:induction false} CanComeToRest(job: Job, t: State)
    requires job.N() > 0 && Reachable(job, t)
    ensures exists u, more :: Run(job, t, more, u) && Reachable(job, u) && AtRest(job, u)
    decreases if Weight(job, t) < 0 then 0 else Weight(job, t)
  {
    ReachableInv(job, t);
    if AtRest(job, t) {
      assert Run(job, t, [], t);
    } else {
      PendingEnabled(job, t);
      var step := Pending(t);
      var v := Next(job, t, step);
      ReachableExtends(job, t, step);
      StepLowersWeight(job, t, step);
      CanComeToRest(job, v);
      var u, more :| Run(job, v, more, u) && Reachable(job, u) && AtRest(job, u);
      RunPrepends(job, t, step, more, u);
    }
  }

  // ---------- output ----------

  /** Worker i's share of an output is the first few of its lines. */
  ghost predicate PrintsPrefix(job: Job, printed: seq<Line>, i: nat)
    requires i < job.N()
  {
    exists c: nat :: c <= job.G() && By(printed, i) == LinesOf(job, i, c)
  }

  /** At any moment, what worker i has printed is a prefix of its lines in file order. */
  lemma PrintedIsPrefix(job: Job, t: State, i: nat)
    requires job.N() > 0 && Reachable(job, t) && i < job.N()
    ensures PrintsPrefix(job, t.printed, i)
  {
    ReachableInv(job, t);
    var c: nat := Sent(job, i, t.workers[i]);
    assert By(Delivered(t), i) == LinesOf(job, i, c);
    if t.printer.Printing? {
      WithoutLast(job, t.printed, t.printer.line, i, c);
    } else {
      assert Delivered(t) == t.printed;
    }
  }

  lemma {:induction false} WithoutLast(job: Job, printed: seq<Line>, last: Line, i: nat, c: nat)
    requires i < job.N() && c <= job.G() && By(printed + [last], i) == LinesOf(job, i, c)
    ensures PrintsPrefix(job, printed, i)
  {
    ByAppend(printed, last, i);
    if last.worker == i {
      assert By(printed, i) == LinesOf(job, i, c)[..c - 1];
      assert By(printed, i) == LinesOf(job, i, c - 1);
    } else {
      assert By(printed, i) == LinesOf(job, i, c);
    }
  }

  /** When Process returns without error, and also whenever everything has come to rest after
      an error, each worker's printed lines are exactly its results for all numbers before the
      first bad word (none if it could not open the file): nothing lost, duplicated, reordered
      or still held, and no line from anyone else. */
  lemma OutputIsExact(job: Job, t: State)
    requires job.N() > 0 && Reachable(job, t)
    requires AtRest(job, t) || (t.main.Returned? && t.main.outcome.Ok?)
    ensures forall i :: 0 <= i < job.N() ==> By(t.printed, i) == LinesOf(job, i, Total(job, i))
    ensures forall k :: 0 <= k < |t.printed| ==> t.printed[k].worker < job.N()
  {
    ReachableInv(job, t);
    if t.linesClosed { ClosedMeansFinished(job, t); }
    assert Delivered(t) == t.printed;
    forall i | 0 <= i < job.N() ensures By(t.printed, i) == LinesOf(job, i, Total(job, i)) {
      assert By(Delivered(t), i) == LinesOf(job, i, Sent(job, i, t.workers[i]));
    }
  }

  function CountBy(lines: seq<Line>, n: nat): nat
  {
    if n == 0 then 0 else CountBy(lines, n - 1) + |By(lines, n - 1)|
  }

  lemma {:induction false} CountByAppend(lines: seq<Line>, l: Line, n: nat)
    ensures CountBy(lines + [l], n) == CountBy(lines, n) + if l.worker < n then 1 else 0
  {
    if n > 0 {
      CountByAppend(lines, l, n - 1);
      ByAppend(lines, l, n - 1);
    }
  }

  lemma {:induction false} CountByEmpty(n: nat)
    ensures CountBy([], n) == 0
  {
    if n > 0 { CountByEmpty(n - 1); }
  }

  /** Splitting an output by worker loses no line. */
  lemma {:induction false} CountByAll(lines: seq<Line>, n: nat)
    requires forall k :: 0 <= k < |lines| ==> lines[k].worker < n
    ensures CountBy(lines, n) == |lines|
  {
    if lines == [] {
      CountByEmpty(n);
    } else {
      var front, last := lines[..|lines| - 1], lines[|lines| - 1];
      CountByAll(front, n);
      CountByAppend(front, last, n);
      assert front + [last] == lines;
    }
  }

  lemma {:induction false} CountByEach(lines: seq<Line>, n: nat, g: nat)
    requires forall i: nat :: i < n ==> |By(lines, i)| == g
    ensures CountBy(lines, n) == n * g
  {
    if n > 0 { CountByEach(lines, n - 1, g); }
  }

  // ---------- outcome ----------

  /** Every word parses, the scan does not fail, every open succeeds, and every call ends. */
  ghost predicate Clean(job: Job)
  {
    && AllParse(job.file, job.atoi) && !job.file.scanFails
    && (forall i: nat :: i < job.N() ==> job.opens(i) && AlwaysEnds(job, i))
  }

  /** Strategy i returns on the number of every word that is one. */
  ghost predicate AlwaysEnds(job: Job, i: nat)
    requires i < job.N()
  {
    forall k :: 0 <= k < |job.file.words| && job.atoi(job.file.words[k]).Some? ==>
      job.strategies[i].ends(job.atoi(job.file.words[k]).value, job.a)
  }

  lemma CleanMeans(job: Job)
    ensures Clean(job) <==>
            Verdict(job.file, job.atoi) == None && forall i: nat :: i < job.N() ==> job.opens(i) && !Hangs(job, i)
    ensures Clean(job) ==> job.G() == |job.file.words|
  {
    VerdictMeaning(job.file, job.atoi);
    if Verdict(job.file, job.atoi) == None {
      forall i: nat | i < job.N() && job.opens(i) ensures !Hangs(job, i) <==> AlwaysEnds(job, i) {
        EndsAll(job, i);
      }
    }
  }

  lemma EndsAll(job: Job, i: nat)
    requires i < job.N() && job.opens(i) && job.G() == |job.file.words|
    ensures !Hangs(job, i) <==> AlwaysEnds(job, i)
  {
    var r := Reach(job, i);
    if r == job.G() {
      forall k | 0 <= k < |job.file.words| ensures job.strategies[i].ends(job.atoi(job.file.words[k]).value, job.a) {
        assert job.strategies[i].ends(Number(job.file, job.atoi, k), job.a);
      }
    } else {
      assert !job.strategies[i].ends(Number(job.file, job.atoi, r), job.a);
    }
  }

  /** Worker i reports an error. */
  ghost predicate Fails(job: Job, i: nat)
  {
    i < job.N() && !Hangs(job, i) && Owed(job, i).Err?
  }

  function AllStats(job: Job): (r: seq<Stat>)
    ensures |r| == job.N()
    ensures forall i :: 0 <= i < |r| ==> r[i] == Stat(job.strategies[i].id, job.G())
  {
    seq(job.N(), i requires 0 <= i < job.N() => Stat(job.strategies[i].id, job.G()))
  }

  /** The one report a clean job can produce. */
  function TheReport(job: Job): Report
  {
    Summary(SortById(AllStats(job)))
  }

  lemma CollectedStats(job: Job, s: State)
    requires |s.workers| == job.N() && MessagesOk(job, s) && Clean(job) && AllOk(s.collected)
    ensures s.done == [] ==> Stats(s.collected) == Pick(Senders(s), AllStats(job))
  {
    if s.done == [] {
      var got, picked := Stats(s.collected), Pick(Senders(s), AllStats(job));
      forall k | 0 <= k < |s.collected| ensures got[k] == picked[k] {
        CollectedStat(job, s, k);
      }
      assert got == picked;
    }
  }

  lemma CollectedStat(job: Job, s: State, k: nat)
    requires |s.workers| == job.N() && MessagesOk(job, s) && Clean(job) && AllOk(s.collected) && k < |s.collected|
    ensures Senders(s)[k] < job.N() && Stats(s.collected)[k] == AllStats(job)[Senders(s)[k]]
  {
    var m := s.collected[k];
    assert (s.collected + s.done)[k] == m;
    assert m.outcome == Owed(job, m.worker);
  }

  lemma ReportIsUnique(job: Job, s: State, rep: Report)
    requires Inv(job, s) && Clean(job) && s.linesClosed && IsSummary(s, rep)
    requires AllOk(s.collected) && |s.collected| == job.N()
    ensures rep == TheReport(job)
  {
    ClosedMeansFinished(job, s);
    CollectedStats(job, s);
    var all := AllStats(job);
    PickPermutes(Senders(s), all);
    SortByIdSorts(all);
    StatsKeyed(job, rep.strategies);
    SortedUnique(ById, rep.strategies, SortById(all));
  }

  /** All entries of the report have the same count, so their IDs tell them apart. */
  lemma {:induction false} StatsKeyed(job: Job, s: seq<Stat>)
    requires multiset(s) == multiset(AllStats(job))
    ensures Keyed(ById, s)
  {
    forall i, j | 0 <= i < |s| && 0 <= j < |s| && s[i].id == s[j].id ensures s[i] == s[j] {
      MembersOfAll(job, s, i);
      MembersOfAll(job, s, j);
    }
  }

  lemma {:induction false} MembersOfAll(job: Job, s: seq<Stat>, i: nat)
    requires multiset(s) == multiset(AllStats(job)) && i < |s|
    ensures s[i].processed == job.G()
  {
    assert s[i] in multiset(s);
    assert s[i] in AllStats(job);
  }

  lemma {:induction false} SumOfEqual(s: seq<Stat>, g: int)
    requires forall i :: 0 <= i < |s| ==> s[i].processed == g
    ensures SumProcessed(s) == |s| * g
  {
    if s != [] { SumOfEqual(s[1..], g); }
  }

  /** The report of a clean job: sorted by ID with one entry per strategy, every count equal to
      the number of words in the file, and the totals that follow from it. */
  lemma ReportMeaning(job: Job)
    requires job.N() > 0 && Clean(job)
    ensures var rep := TheReport(job);
            && SortedById(rep.strategies)
            && multiset(rep.strategies) == multiset(AllStats(job))
            && (forall i :: 0 <= i < |rep.strategies| ==> rep.strategies[i].processed == |job.file.words|)
            && rep.totalNumbers == |job.file.words|
            && rep.totalOps == job.N() * |job.file.words|
  {
    var rep := TheReport(job);
    var all := AllStats(job);
    SortByIdSorts(all);
    SameLength(rep.strategies, all);
    forall i | 0 <= i < |rep.strategies| ensures rep.strategies[i].processed == job.G() {
      MembersOfAll(job, rep.strategies, i);
    }
    SumOfEqual(rep.strategies, job.G());
  }

  /** The outcome of Process, whatever the schedule: success iff the job is clean, then with
      the one possible report; otherwise an error that some worker owes. */
  lemma Outcome(job: Job, t: State)
    requires job.N() > 0 && Reachable(job, t) && t.main.Returned?
    ensures t.main.outcome.Ok? <==> Clean(job)
    ensures t.main.outcome.Ok? ==> t.main.outcome.value == TheReport(job)
    ensures t.main.outcome.Err? ==> exists i: nat :: Fails(job, i) && Owed(job, i) == Err(t.main.outcome.error)
    ensures t.main.outcome.Err? ==> ErrorOfJob(job, t.main.outcome.error)
  {
    ReachableInv(job, t);
    CleanMeans(job);
    if t.main.outcome.Ok? {
      ClosedMeansFinished(job, t);
      DistinctFits(Senders(t), job.N());
      forall i: nat | i < job.N() ensures Owed(job, i).Ok? && job.opens(i) && !Hangs(job, i) {
        assert WorkerOk(job, i, t.workers[i]);
        assert i in Senders(t);
        var k :| 0 <= k < |Senders(t)| && Senders(t)[k] == i;
        assert t.collected[k].outcome == Owed(job, i);
      }
      assert Owed(job, 0).Ok?;
      ReportIsUnique(job, t, t.main.outcome.value);
    } else {
      var m := t.collected[|t.collected| - 1];
      assert m.outcome == Owed(job, m.worker);
      SenderFinished(job, t, |t.collected| - 1);
      assert Fails(job, m.worker);
      OwedError(job, m.worker);
    }
  }

  /** e is an error that the job itself gives rise to: an open that failed, the first word that
      does not parse, or else the failing scan. */
  ghost predicate ErrorOfJob(job: Job, e: ProcessError)
  {
    match e
    case OpenFailed => exists i: nat :: i < job.N() && !job.opens(i)
    case ReadFailed(Unparsable(word)) => exists k: nat :: FirstBad(job.file, job.atoi, k) && job.file.words[k] == word
    case ReadFailed(ScanFailed) => AllParse(job.file, job.atoi) && job.file.scanFails
    case _ => false
  }

  lemma OwedError(job: Job, i: nat)
    requires i < job.N() && Owed(job, i).Err?
    ensures ErrorOfJob(job, Owed(job, i).error)
    ensures job.opens(i) <==> Owed(job, i).error.ReadFailed?
  {
    var g := Good(job.file, job.atoi);
    if job.opens(i) && g < |job.file.words| { assert FirstBad(job.file, job.atoi, g); }
  }

  /** What hanging and failing come to: a worker that opened the file hangs on a number, all words
      up to which parse, and fails if it does not hang and the file does not read well. */
  lemma HangsAndFails(job: Job, i: nat)
    requires i < job.N()
    ensures Hangs(job, i) <==> job.opens(i) && exists k: nat :: StuckAt(job, i, k)
    ensures Fails(job, i) <==>
            !job.opens(i) || (!Hangs(job, i) && (job.file.scanFails || !AllParse(job.file, job.atoi)))
  {
    VerdictMeaning(job.file, job.atoi);
    var r := Reach(job, i);
    if r < job.G() { assert StuckAt(job, i, r); }
    if k: nat :| StuckAt(job, i, k) {
      assert k < job.G();
      assert !job.strategies[i].ends(Number(job.file, job.atoi, k), job.a);
    }
  }

  ghost predicate StuckAt(job: Job, i: nat, k: nat)
    requires i < job.N()
  {
    && k < |job.file.words| && (forall j :: 0 <= j <= k ==> job.atoi(job.file.words[j]).Some?)
    && !job.strategies[i].ends(job.atoi(job.file.words[k]).value, job.a)
  }

  /** A received message comes from a worker that has ended. */
  lemma SenderFinished(job: Job, t: State, k: nat)
    requires Inv(job, t) && k < |t.collected|
    ensures t.collected[k].worker < job.N() && !Hangs(job, t.collected[k].worker)
  {
    var i := t.collected[k].worker;
    assert Senders(t)[k] == i;
    assert WorkerOk(job, i, t.workers[i]);
  }

  /** Process can return iff no worker hangs or some worker reports an error. */
  ghost predicate MustReturn(job: Job)
  {
    (forall i: nat :: i < job.N() ==> !Hangs(job, i)) || exists i: nat :: Fails(job, i)
  }

  /** Whether Process returns does not depend on the schedule: under this condition every run that
      has come to rest has returned, and otherwise no run ever returns. */
  lemma ReturnsIff(job: Job, t: State)
    requires job.N() > 0 && Reachable(job, t)
    ensures t.main.Returned? ==> MustReturn(job)
    ensures AtRest(job, t) ==> (t.main.Returned? <==> MustReturn(job))
  {
    ReachableInv(job, t);
    if t.main.Returned? {
      Outcome(job, t);
    } else if AtRest(job, t) {
      if i: nat :| Fails(job, i) { ReportReceived(job, t, i); }
      if forall i: nat :: i < job.N() ==> !Hangs(job, i) { NobodyMissing(job, t); }
    }
  }

  lemma ReportReceived(job: Job, t: State, i: nat)
    requires Inv(job, t) && Fails(job, i) && t.done == [] && Still(t.workers[i])
    ensures !AllOk(t.collected)
  {
    assert WorkerOk(job, i, t.workers[i]);
    assert i in Senders(t);
    var k :| 0 <= k < |Senders(t)| && Senders(t)[k] == i;
    assert t.collected[k].outcome == Owed(job, i);
  }

  lemma NobodyMissing(job: Job, t: State)
    requires Inv(job, t) && t.done == []
    requires forall i: nat :: i < job.N() ==> !Hangs(job, i) && Still(t.workers[i])
    ensures |t.collected| == job.N()
  {
    forall i | 0 <= i < job.N() ensures t.workers[i].Finished? {
      assert WorkerOk(job, i, t.workers[i]);
    }
    AllReported(job, t);
  }

  /** Some opens fail, some succeed, and those that succeed meet an error too. */
  ghost predicate RivalErrors(job: Job)
  {
    && Verdict(job.file, job.atoi).Some?
    && (exists i: nat :: i < job.N() && job.opens(i) && !Hangs(job, i))
    && (exists i: nat :: i < job.N() && !job.opens(i))
  }

  ghost predicate CanReturn(job: Job, outcome: Result<Report, ProcessError>)
  {
    exists t :: Reachable(job, t) && t.main == Returned(outcome)
  }

  /** Two runs of the same job never disagree on success, agree on the report, and also agree on
      the error unless there are rival ones. */
  lemma RunsAgree(job: Job, t: State, u: State)
    requires job.N() > 0 && Reachable(job, t) && Reachable(job, u)
    requires t.main.Returned? && u.main.Returned?
    ensures t.main.outcome.Ok? == u.main.outcome.Ok?
    ensures t.main.outcome.Ok? || !RivalErrors(job) ==> t.main.outcome == u.main.outcome
  {
    Outcome(job, t);
    Outcome(job, u);
  }

  /** Only worker i and the printer have to move: main waits and no message is under way. */
  ghost predicate Alone(job: Job, s: State, i: nat)
  {
    && Inv(job, s) && Reachable(job, s) && i < job.N() && !s.workers[i].Finished?
    && s.main.Collecting? && s.collected == [] && s.done == []
  }

  /** Worker i can be run to its end and its error returned before anyone else moves. */
  lemma {:induction false} RunAlone(job: Job, s: State, i: nat) returns (t: State)
    requires Alone(job, s, i) && Fails(job, i)
    ensures Reachable(job, t) && t.main == Returned(Err(Owed(job, i).error))
    ensures |t.workers| == |s.workers| && forall j :: 0 <= j < |s.workers| && j != i ==> t.workers[j] == s.workers[j]
    decreases if Weight(job, s) < 0 then 0 else Weight(job, s)
  {
    var step := if s.printer.Printing? then Print else Work(i);
    AloneEnabled(job, s, i);
    StepKeepsInv(job, s, step);
    StepLowersWeight(job, s, step);
    ReachableExtends(job, s, step);
    if s.workers[i].Reporting? && step.Work? {
      t := ReportAlone(job, s, i);
    } else {
      NewWorkerAlone(job, s, i, step);
      t := RunAlone(job, Next(job, s, step), i);
    }
  }

  lemma AloneEnabled(job: Job, s: State, i: nat)
    requires Alone(job, s, i) && !Hangs(job, i)
    ensures Enabled(job, s, if s.printer.Printing? then Print else Work(i))
  {
    assert WorkerOk(job, i, s.workers[i]);
  }

  lemma NewWorkerAlone(job: Job, s: State, i: nat, step: Step)
    requires Alone(job, s, i) && !Hangs(job, i) && step == if s.printer.Printing? then Print else Work(i)
    requires Enabled(job, s, step) && !(s.workers[i].Reporting? && step.Work?)
    ensures var u := Next(job, s, step);
            |u.workers| == job.N() && !u.workers[i].Finished?
            && u.main.Collecting? && u.collected == [] && u.done == []
            && forall j :: 0 <= j < job.N() && j != i ==> u.workers[j] == s.workers[j]
  {
    assert WorkerOk(job, i, s.workers[i]);
  }

  lemma ReportAlone(job: Job, s: State, i: nat) returns (t: State)
    requires Alone(job, s, i) && s.workers[i].Reporting? && Fails(job, i)
    requires Reachable(job, Next(job, s, Work(i)))
    ensures Reachable(job, t) && t.main == Returned(Err(Owed(job, i).error)) && t.printed == s.printed
    ensures t.printer == s.printer
    ensures |t.workers| == |s.workers| && forall j :: 0 <= j < |s.workers| && j != i ==> t.workers[j] == s.workers[j]
  {
    assert WorkerOk(job, i, s.workers[i]);
    var u := Next(job, s, Work(i));
    assert u.done == [Message(i, Owed(job, i))];
    ReachableExtends(job, u, Drive([]));
    t := Next(job, u, Drive([]));
  }

  lemma InitAlone(job: Job, i: nat)
    requires i < job.N()
    ensures Alone(job, Init(job), i)
  {
    InitInv(job);
    assert Run(job, Init(job), [], Init(job));
  }

  /** Every error that some worker reports is what some run returns. */
  lemma EveryErrorCanWin(job: Job, i: nat)
    requires Fails(job, i)
    ensures CanReturn(job, Err(Owed(job, i).error))
  {
    InitAlone(job, i);
    var t := RunAlone(job, Init(job), i);
  }

  /** Schedule independence, exactly: all runs of a job return the same outcome iff there are no
      rival errors. */
  lemma ScheduleIndependence(job: Job)
    requires job.N() > 0
    ensures (forall r, q :: CanReturn(job, r) && CanReturn(job, q) ==> r == q) <==> !RivalErrors(job)
  {
    if RivalErrors(job) {
      var i: nat :| i < job.N() && job.opens(i) && !Hangs(job, i);
      var j: nat :| j < job.N() && !job.opens(j);
      EveryErrorCanWin(job, i);
      EveryErrorCanWin(job, j);
      assert Owed(job, i).error.ReadFailed? && Owed(job, j).error.OpenFailed?;
    } else {
      forall r, q | CanReturn(job, r) && CanReturn(job, q) ensures r == q {
        var t :| Reachable(job, t) && t.main == Returned(r);
        var u :| Reachable(job, u) && u.main == Returned(q);
        RunsAgree(job, t, u);
      }
    }
  }

  // ---------- what an error leaves behind ----------

  /** The printer goroutine is left behind, receiving for ever, iff the job is not clean. */
  lemma PrinterLeaks(job: Job, t: State)
    requires job.N() > 0 && Reachable(job, t) && AtRest(job, t)
    ensures t.printer.Receiving? <==> !Clean(job)
  {
    ReturnsIff(job, t);
    if t.main.Returned? { Outcome(job, t); }
  }

  /** Some run prints a line after Process has returned. */
  ghost predicate LateLine(job: Job)
  {
    exists t, more, u ::
      Reachable(job, t) && t.main.Returned? && Run(job, t, more, u) && |u.printed| > |t.printed|
  }

  /** A run only adds to the output, and main does not change once it has returned. */
  lemma {:induction false} RunOnlyAdds(job: Job, s: State, steps: seq<Step>, t: State)
    requires Run(job, s, steps, t)
    ensures s.printed <= t.printed
    ensures s.main.Returned? ==> t.main == s.main
    decreases |steps|
  {
    if steps != [] { RunOnlyAdds(job, Next(job, s, steps[0]), steps[1..], t); }
  }

  lemma {:induction false} ReachableRuns(job: Job, t: State, more: seq<Step>, u: State)
    requires Reachable(job, t) && Run(job, t, more, u)
    ensures Reachable(job, u)
    decreases |more|
  {
    if more != [] {
      ReachableExtends(job, t, more[0]);
      ReachableRuns(job, Next(job, t, more[0]), more[1..], u);
    }
  }

  /** Where a line was printed, its worker had one to send. */
  lemma PrintedNeedsLine(job: Job, u: State)
    requires Inv(job, u) && u.printed != []
    ensures exists j: nat :: j < job.N() && Total(job, j) >= 1
  {
    var j := u.printed[0].worker;
    assert Delivered(u)[0] == u.printed[0];
    SentAtMostTotal(job, j, u.workers[j]);
    ByNotEmpty(Delivered(u), 0);
    assert By(Delivered(u), j) == LinesOf(job, j, Sent(job, j, u.workers[j]));
  }

  lemma SentAtMostTotal(job: Job, i: nat, w: Worker)
    requires i < job.N() && WorkerOk(job, i, w)
    ensures Sent(job, i, w) <= Total(job, i)
  {
  }

  lemma {:induction false} ByNotEmpty(lines: seq<Line>, k: nat)
    requires k < |lines|
    ensures By(lines, lines[k].worker) != []
  {
    if k < |lines| - 1 { ByNotEmpty(lines[..|lines| - 1], k); }
  }

  lemma LateLineNeeds(job: Job)
    requires job.N() > 0 && LateLine(job)
    ensures (exists i: nat :: Fails(job, i)) && exists j: nat :: j < job.N() && Total(job, j) >= 1
  {
    var t, more, u :| Reachable(job, t) && t.main.Returned? && Run(job, t, more, u) && |u.printed| > |t.printed|;
    RunOnlyAdds(job, t, more, u);
    ReachableRuns(job, t, more, u);
    ReachableInv(job, u);
    PrintedNeedsLine(job, u);
    Outcome(job, t);
    if t.main.outcome.Ok? {
      EveryOperationIsPrinted(job, t);
      EveryOperationIsPrinted(job, u);
    }
  }

  /** Worker i is alone and has not yet sent its last line. */
  ghost predicate BeforeLast(job: Job, s: State, i: nat)
  {
    Alone(job, s, i) && !Hangs(job, i) && job.opens(i) && job.G() >= 1 &&
    match s.workers[i]
    case Starting => true
    case Reading(_, p) => p < job.G()
    case Sending(_, _, _) => true
    case _ => false
  }

  lemma {:induction false} RunToLast(job: Job, s: State, i: nat) returns (u: State)
    requires BeforeLast(job, s, i)
    ensures BeforeLast(job, u, i) && u.printer.Receiving?
    ensures u.workers[i].Sending? && u.workers[i].processed == job.G() - 1
    decreases if Weight(job, s) < 0 then 0 else Weight(job, s)
  {
    AloneEnabled(job, s, i);
    if s.printer.Receiving? && s.workers[i].Sending? && s.workers[i].processed == job.G() - 1 {
      u := s;
    } else {
      var step := if s.printer.Printing? then Print else Work(i);
      StepKeepsInv(job, s, step);
      StepLowersWeight(job, s, step);
      ReachableExtends(job, s, step);
      NewWorkerAlone(job, s, i, step);
      StaysBeforeLast(job, s, i, step);
      u := RunToLast(job, Next(job, s, step), i);
    }
  }

  lemma StaysBeforeLast(job: Job, s: State, i: nat, step: Step)
    requires BeforeLast(job, s, i) && Enabled(job, s, step)
    requires step == if s.printer.Printing? then Print else Work(i)
    requires s.workers[i].Sending? && s.printer.Receiving? ==> s.workers[i].processed != job.G() - 1
    ensures var w := Next(job, s, step).workers[i];
            w.Starting? || (w.Reading? && w.processed < job.G()) || w.Sending?
  {
    assert WorkerOk(job, i, s.workers[i]);
    if s.workers[i].Reading? { AdvanceDelivers(job.file, job.atoi, s.workers[i].processed); }
  }

  lemma AfterStep(job: Job, s: State, step: Step)
    requires Inv(job, s) && Reachable(job, s) && Enabled(job, s, step)
    ensures Inv(job, Next(job, s, step)) && Reachable(job, Next(job, s, step))
  {
    StepKeepsInv(job, s, step);
    ReachableExtends(job, s, step);
  }

  /** A worker that fails after its last line can report while the printer still holds that line:
      it sends it, finds the end of the good words, and reports. */
  lemma LastLineLate(job: Job, i: nat)
    requires Fails(job, i) && Total(job, i) >= 1
    ensures LateLine(job)
  {
    InitAlone(job, i);
    var s := RunToLast(job, Init(job), i);
    var s1, s2, s3 := FromLast(job, s, i);
    AfterStep(job, s, Work(i));
    AfterStep(job, s1, Work(i));
    AfterStep(job, s2, Work(i));
    AfterStep(job, s3, Work(i));
    var t := ReportAlone(job, s3, i);
    PrintLate(job, t);
  }

  lemma FromLast(job: Job, s: State, i: nat) returns (s1: State, s2: State, s3: State)
    requires BeforeLast(job, s, i) && s.printer.Receiving?
    requires s.workers[i].Sending? && s.workers[i].processed == job.G() - 1
    ensures Enabled(job, s, Work(i)) && s1 == Next(job, s, Work(i))
    ensures |s1.workers| == job.N() && Enabled(job, s1, Work(i)) && s2 == Next(job, s1, Work(i))
    ensures |s2.workers| == job.N() && Enabled(job, s2, Work(i)) && s3 == Next(job, s2, Work(i))
    ensures |s3.workers| == job.N() && s3.workers[i].Reporting? && Enabled(job, s3, Work(i))
    ensures s3.printer.Printing? && s3.main.Collecting? && s3.collected == [] && s3.done == []
  {
    var w := s.workers[i];
    assert WorkerOk(job, i, w);
    AdvanceDelivers(job.file, job.atoi, job.G());
    s1, s2, s3 := SendAndStop(job, s, i, w.text);
  }

  lemma {:induction false} SendAndStop(job: Job, s: State, i: nat, text: string) returns (s1: State, s2: State, s3: State)
    requires |s.workers| == job.N() && i < job.N() && job.G() >= 1
    requires s.workers[i] == Sending(After(job.G()), job.G() - 1, text)
    requires s.printer.Receiving? && !s.linesClosed && |s.done| < job.N()
    requires Advance(job.file, job.atoi, After(job.G())) == (Stopped(job.file, job.atoi), None)
    ensures Enabled(job, s, Work(i)) && s1 == Next(job, s, Work(i))
    ensures |s1.workers| == job.N() && Enabled(job, s1, Work(i)) && s2 == Next(job, s1, Work(i))
    ensures |s2.workers| == job.N() && Enabled(job, s2, Work(i)) && s3 == Next(job, s2, Work(i))
    ensures |s3.workers| == job.N() && s3.workers[i].Reporting? && Enabled(job, s3, Work(i))
    ensures s3.printer.Printing? && s3.main == s.main && s3.collected == s.collected && s3.done == s.done
  {
    s1 := Next(job, s, Work(i));
    assert s1.workers[i] == Reading(After(job.G()), job.G());
    s2 := Next(job, s1, Work(i));
    assert s2.workers[i] == Checking(Stopped(job.file, job.atoi), job.G());
    s3 := Next(job, s2, Work(i));
  }

  lemma PrintLate(job: Job, t: State)
    requires Reachable(job, t) && |t.workers| == job.N() && t.main.Returned? && t.printer.Printing?
    ensures LateLine(job)
  {
    var u := Next(job, t, Print);
    assert Run(job, u, [], u);
    RunPrepends(job, t, Print, [], u);
    assert |u.printed| > |t.printed|;
  }

  /** A worker that fails can return its error before another with lines has started. */
  lemma OthersLate(job: Job, i: nat, j: nat)
    requires Fails(job, i) && j < job.N() && j != i && Total(job, j) >= 1
    ensures LateLine(job)
  {
    InitAlone(job, i);
    var t := RunAlone(job, Init(job), i);
    NotStartedNotPrinted(job, t, j);
    CanComeToRest(job, t);
    var u, more :| Run(job, t, more, u) && Reachable(job, u) && AtRest(job, u);
    RestPrintsMore(job, t, more, u, j);
  }

  lemma {:induction false} RestPrintsMore(job: Job, t: State, more: seq<Step>, u: State, j: nat)
    requires job.N() > 0 && Reachable(job, u) && AtRest(job, u) && Run(job, t, more, u)
    requires j < job.N() && Total(job, j) >= 1 && By(t.printed, j) == []
    ensures |u.printed| > |t.printed|
  {
    OutputIsExact(job, u);
    RunOnlyAdds(job, t, more, u);
    assert By(u.printed, j) != By(t.printed, j);
    assert |u.printed| == |t.printed| ==> u.printed == t.printed;
  }

  lemma NotStartedNotPrinted(job: Job, t: State, j: nat)
    requires job.N() > 0 && Reachable(job, t) && j < job.N() && |t.workers| == job.N() && t.workers[j].Starting?
    ensures By(t.printed, j) == []
  {
    ReachableInv(job, t);
    assert By(Delivered(t), j) == LinesOf(job, j, 0);
    if t.printer.Printing? { ByAppend(t.printed, t.printer.line, j); } else { assert Delivered(t) == t.printed; }
  }

  /** Lines may be printed after the return, exactly when some worker fails and some worker has
      a line to send. If no worker hangs, that is when the job is not clean, there is a good word,
      and the file can be opened by someone. */
  lemma LateLineIff(job: Job)
    requires job.N() > 0
    ensures LateLine(job) <==>
              (exists i: nat :: Fails(job, i)) && exists j: nat :: j < job.N() && Total(job, j) >= 1
    ensures (forall i: nat :: i < job.N() ==> !Hangs(job, i)) ==>
              (LateLine(job) <==> !Clean(job) && job.G() >= 1 && exists j: nat :: j < job.N() && job.opens(j))
  {
    if LateLine(job) { LateLineNeeds(job); }
    if i: nat, j: nat :| Fails(job, i) && j < job.N() && Total(job, j) >= 1 {
      if Total(job, i) >= 1 { LastLineLate(job, i); } else { OthersLate(job, i, j); }
    }
    if forall i: nat :: i < job.N() ==> !Hangs(job, i) { WithoutHanging(job); }
  }

  lemma WithoutHanging(job: Job)
    requires job.N() > 0 && forall i: nat :: i < job.N() ==> !Hangs(job, i)
    ensures (exists i: nat :: Fails(job, i)) <==> !Clean(job)
    ensures (exists j: nat :: j < job.N() && Total(job, j) >= 1) <==>
              job.G() >= 1 && exists j: nat :: j < job.N() && job.opens(j)
  {
    CleanMeans(job);
    if !Clean(job) {
      if i: nat :| i < job.N() && !job.opens(i) { assert Fails(job, i); } else { assert Fails(job, 0); }
    }
    forall j: nat | j < job.N() ensures Total(job, j) == if job.opens(j) then job.G() else 0 {
      assert !Hangs(job, j);
    }
    if job.G() >= 1 && exists j: nat :: j < job.N() && job.opens(j) {
      var j: nat :| j < job.N() && job.opens(j);
      assert Total(job, j) >= 1;
    }
  }

  /** An ordinary such job: one strategy, and a file in which a bad word follows a number. */
  lemma LateLineExample() returns (job: Job)
    ensures job.N() == 1 && job.file == File(["7", "x"], false) && LateLine(job)
  {
    var s := Strategy(1, "", (n, a) => true, (n, a) => "");
    job := Job([s], 1, File(["7", "x"], false), w => if w == "7" then Some(7) else None, i => true);
    assert job.atoi(job.file.words[1]) == None;
    assert GoodFrom(job.file, job.atoi, 1) == 1;
    assert job.G() == 1;
    assert !Clean(job) && job.opens(0) && !Hangs(job, 0);
    LateLineIff(job);
  }

  // ---------- conservation ----------

  /** Conservation: a successful run prints exactly as many lines as its report counts
      operations. */
  lemma EveryOperationIsPrinted(job: Job, t: State)
    requires job.N() > 0 && Reachable(job, t) && t.main.Returned? && t.main.outcome.Ok?
    ensures |t.printed| == t.main.outcome.value.totalOps == job.N() * |job.file.words|
  {
    Outcome(job, t);
    ReportMeaning(job);
    OutputIsExact(job, t);
    EachShareCounted(job, t.printed);
  }

  lemma {:induction false} EachShareCounted(job: Job, printed: seq<Line>)
    requires Clean(job) && forall k :: 0 <= k < |printed| ==> printed[k].worker < job.N()
    requires forall i :: 0 <= i < job.N() ==> By(printed, i) == LinesOf(job, i, Total(job, i))
    ensures |printed| == job.N() * job.G()
  {
    CountByAll(printed, job.N());
    CountByEach(printed, job.N(), job.G());
  }

  // ---------- Process ----------

  /** What a caller may rely on: whether Process returns, and then with what; nothing returned
      means that it waits for ever on a worker that hangs. */
  ghost predicate Delivers(job: Job, outcome: Option<Result<Report, ProcessError>>, printed: seq<Line>)
  {
    && (outcome.Some? <==> MustReturn(job))
    && match outcome
       case Some(Ok(report)) =>
         && Clean(job) && report == TheReport(job)
         && |printed| == report.totalOps
         && forall i :: 0 <= i < job.N() ==> By(printed, i) == LinesOf(job, i, job.G())
       case Some(Err(e)) =>
         && !Clean(job) && ErrorOfJob(job, e) && (exists i: nat :: Fails(job, i) && Owed(job, i) == Err(e))
         && forall i: nat :: i < job.N() ==> PrintsPrefix(job, printed, i)
       case None =>
         forall i :: 0 <= i < job.N() ==> By(printed, i) == LinesOf(job, i, Total(job, i))
  }

  function OutcomeOf(s: State): Option<Result<Report, ProcessError>>
  {
    if s.main.Returned? then Some(s.main.outcome) else None
  }

  /** Process is over: it has returned, or never will. */
  predicate Over(job: Job, s: State) { s.main.Returned? || AtRest(job, s) }

  lemma OverDelivers(job: Job, t: State)
    requires job.N() > 0 && Reachable(job, t) && Over(job, t)
    ensures Delivers(job, OutcomeOf(t), t.printed)
  {
    ReturnsIff(job, t);
    if !t.main.Returned? {
      OutputIsExact(job, t);
    } else {
      Outcome(job, t);
      if t.main.outcome.Ok? {
        OutputIsExact(job, t);
        EveryOperationIsPrinted(job, t);
      } else {
        forall i: nat | i < job.N() ensures PrintsPrefix(job, t.printed, i) {
          PrintedIsPrefix(job, t, i);
        }
      }
    }
  }

  lemma {:induction false} TakeStep(job: Job, steps: seq<Step>, s: State, step: Step)
    requires Inv(job, s) && Run(job, Init(job), steps, s) && Enabled(job, s, step)
    ensures Inv(job, Next(job, s, step)) && Run(job, Init(job), steps + [step], Next(job, s, step))
    ensures 0 <= Weight(job, Next(job, s, step)) < Weight(job, s)
  {
    StepKeepsInv(job, s, step);
    StepLowersWeight(job, s, step);
    RunExtends(job, Init(job), steps, s, step);
  }

  /** The step taken when the scheduler names step: that one if it is enabled, else a pending one. */
  function Turn(job: Job, s: State, step: Step): Step
  {
    if Enabled(job, s, step) then step else Pending(s)
  }

  lemma TurnEnabled(job: Job, s: State, step: Step)
    requires Inv(job, s) && !Over(job, s)
    ensures Enabled(job, s, Turn(job, s, step))
  {
    PendingEnabled(job, s);
  }

  type Schedule = nat -> Step

  /** Where the schedule, from its given tick on, takes the pipeline. */
  ghost function Play(job: Job, s: State, schedule: Schedule, tick: nat): State
    requires Inv(job, s)
    decreases if Weight(job, s) < 0 then 0 else Weight(job, s)
  {
    if Over(job, s) then s
    else
      var step := Turn(job, s, schedule(tick));
      TurnEnabled(job, s, schedule(tick));
      StepKeepsInv(job, s, step);
      StepLowersWeight(job, s, step);
      Play(job, Next(job, s, step), schedule, tick + 1)
  }

  /** steps is a run from s that is over in t and not before. */
  ghost predicate RunUntilOver(job: Job, s: State, steps: seq<Step>, t: State)
    decreases |steps|
  {
    if steps == [] then s == t && Over(job, s)
    else
      |s.workers| == job.N() && !Over(job, s) && Enabled(job, s, steps[0]) &&
      RunUntilOver(job, Next(job, s, steps[0]), steps[1..], t)
  }

  /** From the given tick on the schedule names these steps. */
  ghost predicate Names(schedule: Schedule, tick: nat, steps: seq<Step>)
  {
    forall k: nat :: k < |steps| ==> schedule(tick + k) == steps[k]
  }

  lemma {:induction false} NamesRest(schedule: Schedule, tick: nat, steps: seq<Step>)
    requires Names(schedule, tick, steps) && steps != []
    ensures schedule(tick) == steps[0] && Names(schedule, tick + 1, steps[1..])
  {
    assert schedule(tick + 0) == steps[0];
    forall k: nat | k < |steps[1..]| ensures schedule(tick + 1 + k) == steps[1..][k] {
      assert schedule(tick + (k + 1)) == steps[k + 1];
    }
  }

  lemma PlayOne(job: Job, s: State, schedule: Schedule, tick: nat)
    requires Inv(job, s) && !Over(job, s) && Enabled(job, s, schedule(tick))
    ensures Inv(job, Next(job, s, schedule(tick)))
    ensures Play(job, s, schedule, tick) == Play(job, Next(job, s, schedule(tick)), schedule, tick + 1)
  {
    StepKeepsInv(job, s, schedule(tick));
  }

  /** Every run is the work of some schedule, namely of one that names its steps. */
  lemma {:induction false} EveryRunIsPlayed(job: Job, s: State, steps: seq<Step>, t: State, schedule: Schedule, tick: nat)
    requires Inv(job, s) && RunUntilOver(job, s, steps, t) && Names(schedule, tick, steps)
    ensures Play(job, s, schedule, tick) == t
    decreases |steps|
  {
    if steps != [] {
      NamesRest(schedule, tick, steps);
      PlayOne(job, s, schedule, tick);
      EveryRunIsPlayed(job, Next(job, s, steps[0]), steps[1..], t, schedule, tick + 1);
    }
  }

  /** Process under an arbitrary scheduler, which names a step at every tick. */
  method Process(path: string, strategies: seq<Strategy>, a: int, file: File, atoi: Atoi,
                 opens: nat -> bool, schedule: Schedule)
    returns (outcome: Option<Result<Report, ProcessError>>, printed: seq<Line>)
    ensures path == "" ==> outcome == Some(Err(EmptyPath)) && printed == []
    ensures path != "" && strategies == [] ==> outcome == Some(Err(NoStrategies)) && printed == []
    ensures path != "" && strategies != [] ==>
              var job := Job(strategies, a, file, atoi, opens);
              && Delivers(job, outcome, printed)
              && Inv(job, Init(job))
              && var t := Play(job, Init(job), schedule, 0); outcome == OutcomeOf(t) && printed == t.printed
  {
    if path == "" {
      return Some(Err(EmptyPath)), [];
    }
    if |strategies| == 0 {
      return Some(Err(NoStrategies)), [];
    }
    var job := Job(strategies, a, file, atoi, opens);
    var t := Conduct(job, schedule);
    OverDelivers(job, t);
    return OutcomeOf(t), t.printed;
  }

  /** The pipeline from its start to its end. */
  method Conduct(job: Job, schedule: Schedule) returns (s: State)
    requires job.N() > 0
    ensures Inv(job, Init(job)) && s == Play(job, Init(job), schedule, 0)
    ensures Reachable(job, s) && Over(job, s)
  {
    InitInv(job);
    s := Init(job);
    ghost var steps: seq<Step> := [];
    var tick := 0;
    while !Over(job, s)
      invariant Inv(job, s) && Run(job, Init(job), steps, s)
      invariant Play(job, s, schedule, tick) == Play(job, Init(job), schedule, 0)
      decreases Weight(job, s)
    {
      var step := Turn(job, s, schedule(tick));
      TurnEnabled(job, s, schedule(tick));
      TakeStep(job, steps, s, step);
      steps := steps + [step];
      s := Next(job, s, step);
      tick := tick + 1;
    }
  }
}
