/** The life of lib/tcp's server as a transition system: the accept loop, one handler
    goroutine per connection, the mutex-guarded set of connections, and Shutdown, which
    closes the listener and polls until the set is empty or its context ends. Each step is one
    critical section or one blocking call. */
module TcpServer {

  /** Holding is the gap between Accept's return and the insertion into the map; Spawning the
      gap between the insertion and the start of the handler goroutine. */
  datatype Acceptor = NotStarted | Accepting | Holding(c: nat) | Spawning(c: nat) | Exited

  /** The handler goroutine of one accepted connection: not started yet, inside the user's
      handler, past the deferred Close, or past the deferred delete. */
  datatype Handler = Unborn | Running | Closed | Gone

  /** Draining is Shutdown after it saw an empty map, before it returns nil. */
  datatype Shutdown = Idle | Begun | Polling | Waiting | Draining | Done(ok: bool)

  /** Connections are numbered in the order Accept returned them. open holds those the server
      has not closed; conns is the map. */
  datatype State = State(
    acceptor: Acceptor, handlers: seq<Handler>, open: set<nat>, conns: set<nat>,
    listening: bool, shutdown: Shutdown)

  const INIT := State(NotStarted, [], {}, {}, true, Idle)

  datatype Step =
    | Start
    | Accept
    | AcceptFails
    | AcceptClosed
    | Register
    | Spawn
    | EarlyClose(c: nat)
    | CloseConn(c: nat)
    | Delete(c: nat)
    | Begin
    | CloseListener
    | Poll
    | Tick
    | Cancel
    | ReturnNil

  ghost predicate Enabled(s: State, step: Step)
  {
    match step
    case Start => s.acceptor.NotStarted?
    case Accept => s.acceptor.Accepting? && s.listening
    case AcceptFails => s.acceptor.Accepting? && s.listening
    case AcceptClosed => s.acceptor.Accepting? && !s.listening
    case Register => s.acceptor.Holding?
    case Spawn => s.acceptor.Spawning? && s.acceptor.c < |s.handlers|
    case EarlyClose(c) => c < |s.handlers| && s.handlers[c] == Running
    case CloseConn(c) => c < |s.handlers| && s.handlers[c] == Running
    case Delete(c) => c < |s.handlers| && s.handlers[c] == Closed
    case Begin => s.shutdown.Idle?
    case CloseListener => s.shutdown.Begun?
    case Poll => s.shutdown.Polling?
    case Tick => s.shutdown.Waiting?
    case Cancel => s.shutdown.Waiting?
    case ReturnNil => s.shutdown.Draining?
  }

  ghost function Next(s: State, step: Step): State
    requires Enabled(s, step)
  {
    match step
    case Start => s.(acceptor := Accepting)
    case Accept =>
      var c := |s.handlers|;
      s.(acceptor := Holding(c), handlers := s.handlers + [Unborn], open := s.open + {c})
    case AcceptFails => s
    case AcceptClosed => s.(acceptor := Exited)
    case Register => s.(acceptor := Spawning(s.acceptor.c), conns := s.conns + {s.acceptor.c})
    case Spawn => s.(acceptor := Accepting, handlers := s.handlers[s.acceptor.c := Running])
    case EarlyClose(c) => s.(open := s.open - {c})
    case CloseConn(c) => s.(handlers := s.handlers[c := Closed], open := s.open - {c})
    case Delete(c) => s.(handlers := s.handlers[c := Gone], conns := s.conns - {c})
    case Begin => s.(shutdown := Begun)
    case CloseListener => s.(shutdown := Polling, listening := false)
    case Poll => s.(shutdown := if |s.conns| == 0 then Draining else Waiting)
    case Tick => s.(shutdown := Polling)
    case Cancel => s.(shutdown := Done(false))
    case ReturnNil => s.(shutdown := Done(true))
  }

  ghost predicate Run(s: State, steps: seq<Step>, t: State)
    decreases |steps|
  {
    if steps == [] then s == t
    else Enabled(s, steps[0]) && Run(Next(s, steps[0]), steps[1..], t)
  }

  ghost predicate Reachable(t: State)
  {
    exists steps :: Run(INIT, steps, t)
  }

  // ---------- the invariant ----------

  ghost predicate Registered(s: State, c: nat)
  {
    c < |s.handlers| && (s.handlers[c] != Unborn || s.acceptor == Spawning(c))
  }

  ghost predicate Deleted(s: State, c: nat)
  {
    c < |s.handlers| && s.handlers[c] == Gone
  }

  /** The server has closed connection c. */
  ghost predicate IsClosed(s: State, c: nat)
  {
    c < |s.handlers| && c !in s.open
  }

  ghost predicate Inv(s: State)
  {
    && (forall c: nat :: c in s.conns <==> Registered(s, c) && !Deleted(s, c))
    && (forall c: nat :: c in s.open ==> c < |s.handlers|)
    && (forall c: nat :: c < |s.handlers| && (s.handlers[c] == Closed || s.handlers[c] == Gone) ==> c !in s.open)
    && (forall c: nat :: c < |s.handlers| && s.handlers[c] == Unborn ==>
          c in s.open && (s.acceptor == Holding(c) || s.acceptor == Spawning(c)))
    && (s.acceptor.Holding? || s.acceptor.Spawning? ==>
          s.acceptor.c < |s.handlers| && s.handlers[s.acceptor.c] == Unborn)
    && (s.listening <==> s.shutdown.Idle? || s.shutdown.Begun?)
  }

  lemma StepKeepsInv(s: State, step: Step)
    requires Inv(s) && Enabled(s, step)
    ensures Inv(Next(s, step))
  {
    StepKeepsMap(s, step);
  }

  lemma StepKeepsMap(s: State, step: Step)
    requires Inv(s) && Enabled(s, step)
    ensures forall c: nat :: c in Next(s, step).conns <==> Registered(Next(s, step), c) && !Deleted(Next(s, step), c)
  {
    var t := Next(s, step);
    forall c: nat ensures c in t.conns <==> Registered(t, c) && !Deleted(t, c) {
      assert c in s.conns <==> Registered(s, c) && !Deleted(s, c);
    }
  }

  lemma {:induction false} RunKeepsInv(s: State, steps: seq<Step>, t: State)
    requires Inv(s) && Run(s, steps, t)
    ensures Inv(t)
    decreases |steps|
  {
    if steps != [] {
      StepKeepsInv(s, steps[0]);
      RunKeepsInv(Next(s, steps[0]), steps[1..], t);
    }
  }

  /** In every reachable state the map holds exactly the connections that were registered and
      not yet deleted, and a deleted connection is already closed. */
  lemma MapIsExact(t: State)
    requires Reachable(t)
    ensures Inv(t)
    ensures forall c: nat :: c in t.conns <==> Registered(t, c) && !Deleted(t, c)
    ensures forall c: nat :: Deleted(t, c) ==> IsClosed(t, c)
  {
    var steps :| Run(INIT, steps, t);
    RunKeepsInv(INIT, steps, t);
  }

  // ---------- after the listener has closed ----------

  /** From a state whose listener is closed nothing more is accepted, and at most one more
      connection is ever registered: the one the accept loop was already holding. */
  lemma {:induction false} AtMostOneLateRegistration(s: State, steps: seq<Step>, t: State)
    requires Inv(s) && !s.listening && Run(s, steps, t)
    ensures !t.listening && |t.handlers| == |s.handlers|
    ensures forall c: nat :: Registered(t, c) && !Registered(s, c) ==> s.acceptor == Holding(c)
    ensures forall c: nat :: Registered(s, c) ==> Registered(t, c)
    decreases |steps|
  {
    if steps != [] {
      var u := Next(s, steps[0]);
      StepKeepsInv(s, steps[0]);
      AtMostOneLateRegistration(u, steps[1..], t);
      forall c: nat | Registered(t, c) && !Registered(s, c) ensures s.acceptor == Holding(c) {
        if !Registered(u, c) {
          assert u.acceptor == Holding(c);
          assert s.acceptor == Holding(c);
        }
      }
    }
  }

  /** Once drained: every accepted connection has been closed and deleted, and the accept loop
      can only leave. */
  ghost predicate Drained(s: State)
  {
    && !s.listening
    && s.open == {} && s.conns == {}
    && (forall c :: 0 <= c < |s.handlers| ==> s.handlers[c] == Gone)
    && !s.acceptor.Holding? && !s.acceptor.Spawning?
  }

  lemma {:induction false} DrainedForGood(s: State, steps: seq<Step>, t: State)
    requires Drained(s) && Run(s, steps, t)
    ensures Drained(t) && t.handlers == s.handlers
    decreases |steps|
  {
    if steps != [] {
      DrainedForGood(Next(s, steps[0]), steps[1..], t);
    }
  }

  lemma EmptyMapMeansDrained(s: State)
    requires Inv(s) && !s.listening && s.conns == {} && !s.acceptor.Holding?
    ensures Drained(s)
  {
    forall c | 0 <= c < |s.handlers| ensures s.handlers[c] == Gone {
      assert c !in s.conns;
    }
    assert forall c: nat :: c in s.open ==> c < |s.handlers|;
  }

  /** No connection is open now or at any later time. */
  ghost predicate NeverLive(s: State)
  {
    forall steps, t :: Run(s, steps, t) ==> t.open == {}
  }

  /** What Shutdown's nil is worth, exactly. When a poll sees the empty map, no connection is
      live then or at any later time iff the accept loop was not holding an accepted connection
      it had yet to insert. The loop having exited by then is one way to know that. */
  lemma DrainGuarantee(s: State)
    requires Reachable(s) && s.shutdown.Polling? && s.conns == {}
    ensures NeverLive(s) <==> !s.acceptor.Holding?
    ensures !s.acceptor.Holding? ==> forall steps, t :: Run(s, steps, t) ==> Drained(t)
    ensures s.acceptor.Exited? ==> !s.acceptor.Holding?
  {
    MapIsExact(s);
    if s.acceptor.Holding? {
      var none: seq<Step> := [];
      assert Run(s, none, s);
      assert s.acceptor.c in s.open;
      assert !NeverLive(s);
    } else {
      EmptyMapMeansDrained(s);
      forall steps, t | Run(s, steps, t) ensures Drained(t) && t.open == {} {
        DrainedForGood(s, steps, t);
      }
    }
  }

  /** steps, a run from s to t, takes the poll that decides Shutdown's nil: at p, where the map
      is empty, after before and followed by after. */
  ghost predicate DecidedAt(s: State, before: seq<Step>, p: State, after: seq<Step>, t: State)
  {
    && Run(s, before, p) && Enabled(p, Poll) && p.conns == {}
    && Run(Next(p, Poll), after, t)
  }

  /** Shutdown has seen the empty map, and returns or has returned nil. */
  ghost predicate Nil(s: State) { s.shutdown == Draining || s.shutdown == Done(true) }

  /** Whenever Shutdown has returned nil, one of its polls on the way saw the empty map. */
  lemma {:induction false} NilWasDecided(s: State, steps: seq<Step>, t: State)
    returns (before: seq<Step>, p: State, after: seq<Step>)
    requires Run(s, steps, t) && Nil(t) && !Nil(s)
    ensures steps == before + [Poll] + after && DecidedAt(s, before, p, after, t)
    decreases |steps|
  {
    assert steps != [];
    var u := Next(s, steps[0]);
    if u.shutdown == Draining {
      before, p, after := [], s, steps[1..];
      assert Run(s, before, p);
    } else {
      before, p, after := NilWasDecided(u, steps[1..], t);
      before := [steps[0]] + before;
      assert before[1..] == before[1..] + [];
      assert steps == before + [Poll] + after;
    }
  }

  /** Every connection but possibly c has been deleted. */
  ghost predicate GoneBut(s: State, c: nat)
  {
    forall k :: 0 <= k < |s.handlers| && k != c ==> s.handlers[k] == Gone
  }

  lemma {:induction false} StayGone(s: State, c: nat, steps: seq<Step>, t: State)
    requires Inv(s) && !s.listening && GoneBut(s, c) && Run(s, steps, t)
    ensures Inv(t) && !t.listening && GoneBut(t, c)
    ensures t.open <= s.open && |t.handlers| == |s.handlers|
    decreases |steps|
  {
    if steps != [] {
      StepKeepsInv(s, steps[0]);
      StayGone(Next(s, steps[0]), c, steps[1..], t);
    }
  }

  lemma GoneMeansDrained(s: State, c: nat)
    requires Inv(s) && !s.listening && GoneBut(s, c) && c < |s.handlers|
    ensures Drained(s) <==> s.handlers[c] == Gone
    ensures s.open == {} <==> c !in s.open
  {
    forall k: nat | k in s.open ensures k == c {
    }
    if s.handlers[c] == Gone {
      forall k: nat ensures k !in s.conns && k !in s.open {
        assert k in s.conns ==> Registered(s, k) && !Deleted(s, k);
      }
      assert s.conns == {} && s.open == {};
    }
  }

  lemma NeverLiveIff(s: State)
    requires Inv(s) && !s.listening
    ensures NeverLive(s) <==> s.open == {}
  {
    var none: seq<Step> := [];
    assert Run(s, none, s);
    if s.open == {} {
      forall steps, t | Run(s, steps, t) ensures t.open == {} {
        OpenShrinks(s, steps, t);
      }
    }
  }

  lemma {:induction false} OpenShrinks(s: State, steps: seq<Step>, t: State)
    requires !s.listening && Run(s, steps, t)
    ensures t.open <= s.open
    decreases |steps|
  {
    if steps != [] { OpenShrinks(Next(s, steps[0]), steps[1..], t); }
  }

  /** What a returned nil is worth, exactly. On the way some poll saw the empty map, at p. All
      connections are closed and deleted at the return iff at p the accept loop held no accepted
      connection, or the handler of that one connection has finished since; and none is live at
      or after the return iff it held none or that one has been closed since. */
  lemma {:induction false} NilMeansDrained(steps: seq<Step>, t: State)
    returns (before: seq<Step>, p: State, after: seq<Step>)
    requires Run(INIT, steps, t) && t.shutdown == Done(true)
    ensures steps == before + [Poll] + after && DecidedAt(INIT, before, p, after, t)
    ensures p.acceptor.Holding? ==> p.acceptor.c < |t.handlers|
    ensures Drained(t) <==> !p.acceptor.Holding? || t.handlers[p.acceptor.c] == Gone
    ensures NeverLive(t) <==> !p.acceptor.Holding? || p.acceptor.c !in t.open
  {
    before, p, after := NilWasDecided(INIT, steps, t);
    RunKeepsInv(INIT, before, p);
    StepKeepsInv(p, Poll);
    var u := Next(p, Poll);
    EmptyMapMeansGone(p);
    if p.acceptor.Holding? {
      StayGone(u, p.acceptor.c, after, t);
      GoneMeansDrained(t, p.acceptor.c);
      NeverLiveIff(t);
    } else {
      EmptyMapMeansDrained(p);
      DrainedForGood(u, after, t);
      RunKeepsInv(u, after, t);
      NeverLiveIff(t);
    }
  }

  lemma EmptyMapMeansGone(s: State)
    requires Inv(s) && s.conns == {}
    ensures GoneBut(s, if s.acceptor.Holding? then s.acceptor.c else |s.handlers|)
  {
    forall c: nat | c < |s.handlers| && s.handlers[c] != Gone ensures s.acceptor == Holding(c) {
      assert c !in s.conns;
    }
  }

  // ---------- a patient shutdown ends ----------

  function HandlerWork(h: Handler): nat
  {
    match h
    case Unborn => 2
    case Running => 2
    case Closed => 1
    case Gone => 0
  }

  function HandlersWork(hs: seq<Handler>): nat
  {
    if hs == [] then 0 else HandlerWork(hs[0]) + HandlersWork(hs[1..])
  }

  /** The steps left to the accept loop and the handlers once nothing more is accepted. */
  function Work(s: State): nat
  {
    HandlersWork(s.handlers) +
    match s.acceptor
    case NotStarted => 2
    case Accepting => 1
    case Holding(_) => 3
    case Spawning(_) => 2
    case Exited => 0
  }

  predicate IsWork(step: Step)
  {
    step.Start? || step.AcceptClosed? || step.Register? || step.Spawn? || step.CloseConn? || step.Delete?
  }

  lemma {:induction false} HandlersWorkUpdate(hs: seq<Handler>, i: nat, h: Handler)
    requires i < |hs|
    ensures HandlersWork(hs[i := h]) == HandlersWork(hs) - HandlerWork(hs[i]) + HandlerWork(h)
  {
    if i > 0 {
      HandlersWorkUpdate(hs[1..], i - 1, h);
      assert hs[i := h][1..] == hs[1..][i - 1 := h];
    } else {
      assert hs[i := h][1..] == hs[1..];
    }
  }

  /** After the listener has closed, each step of the accept loop or of a handler uses up some
      of a finite amount of work, and no other step adds any. */
  lemma WorkRunsOut(s: State, step: Step)
    requires Inv(s) && !s.listening && Enabled(s, step)
    ensures IsWork(step) ==> Work(Next(s, step)) < Work(s)
    ensures !IsWork(step) ==> Work(Next(s, step)) == Work(s)
  {
    match step
    case Spawn => HandlersWorkUpdate(s.handlers, s.acceptor.c, Running);
    case CloseConn(c) => HandlersWorkUpdate(s.handlers, c, Closed);
    case Delete(c) => HandlersWorkUpdate(s.handlers, c, Gone);
    case _ =>
  }

  /** When the accept loop and the handlers have nothing left to do, the server is drained. So a
      Shutdown whose context does not end returns nil once the handlers have returned. */
  lemma NoWorkMeansDrained(s: State)
    requires Inv(s) && !s.listening && forall step :: IsWork(step) ==> !Enabled(s, step)
    ensures Drained(s) && s.acceptor.Exited?
    ensures s.shutdown.Polling? ==> Next(s, Poll).shutdown == Draining
  {
    assert !Enabled(s, Start) && !Enabled(s, AcceptClosed) && !Enabled(s, Register) && !Enabled(s, Spawn);
    forall c: nat | c < |s.handlers| ensures s.handlers[c] == Gone {
      assert !Enabled(s, CloseConn(c)) && !Enabled(s, Delete(c));
    }
    forall c: nat ensures c !in s.conns && c !in s.open {
      assert c in s.conns ==> Registered(s, c) && !Deleted(s, c);
    }
    assert s.conns == {} && s.open == {};
  }

  function WorkSteps(steps: seq<Step>): nat
  {
    if steps == [] then 0 else (if IsWork(steps[0]) then 1 else 0) + WorkSteps(steps[1..])
  }

  lemma {:induction false} WorkBound(s: State, steps: seq<Step>, t: State)
    requires Inv(s) && !s.listening && Run(s, steps, t)
    ensures WorkSteps(steps) + Work(t) <= Work(s)
    decreases |steps|
  {
    if steps != [] {
      WorkRunsOut(s, steps[0]);
      StepKeepsInv(s, steps[0]);
      WorkBound(Next(s, steps[0]), steps[1..], t);
    }
  }

  lemma {:induction false} RunPrepends(s: State, step: Step, more: seq<Step>, t: State)
    requires Enabled(s, step) && Run(Next(s, step), more, t)
    ensures Run(s, [step] + more, t)
  {
    assert ([step] + more)[1..] == more;
  }

  /** From every state with the listener closed and Shutdown unfinished, the work can be done and
      Shutdown then returns nil with everything drained. */
  lemma {:induction false} CanFinish(s: State) returns (steps: seq<Step>, t: State)
    requires Inv(s) && !s.listening && !s.shutdown.Done?
    ensures Run(s, steps, t) && t.shutdown == Done(true) && Drained(t)
    decreases Work(s), FinishSteps(s)
  {
    var step: Step;
    if work :| IsWork(work) && Enabled(s, work) {
      step := work;
      WorkRunsOut(s, step);
    } else {
      NoWorkMeansDrained(s);
      step := if s.shutdown.Waiting? then Tick else if s.shutdown.Polling? then Poll else ReturnNil;
      WorkRunsOut(s, step);
    }
    StepKeepsInv(s, step);
    var u := Next(s, step);
    var more: seq<Step>;
    if u.shutdown.Done? {
      more, t := [], u;
      DrainedForGood(s, [step], u) by { assert ([step])[1..] == []; }
    } else {
      more, t := CanFinish(u);
    }
    RunPrepends(s, step, more, t);
    steps := [step] + more;
  }

  function FinishSteps(s: State): nat
  {
    match s.shutdown
    case Waiting => 2
    case Polling => 1
    case _ => 0
  }

  /** Some run from s ends with Shutdown returning nil and everything drained. */
  ghost predicate CanEndDrained(s: State)
  {
    exists steps, t :: Run(s, steps, t) && t.shutdown == Done(true) && Drained(t)
  }

  /** A patient shutdown ends. Once the listener is closed, no run contains more than Work(s)
      steps of the accept loop and the handlers; and as long as Shutdown has not returned, the
      run can go on to its returning nil with every connection closed and deleted. */
  lemma PatientShutdown(s: State)
    requires Reachable(s) && !s.listening
    ensures forall steps, t :: Run(s, steps, t) ==> WorkSteps(steps) <= Work(s)
    ensures forall steps, t :: Run(s, steps, t) && !t.shutdown.Done? ==> CanEndDrained(t)
  {
    MapIsExact(s);
    forall steps, t | Run(s, steps, t) ensures WorkSteps(steps) <= Work(s) {
      WorkBound(s, steps, t);
    }
    forall steps, t | Run(s, steps, t) && !t.shutdown.Done? ensures CanEndDrained(t) {
      RunKeepsInv(s, steps, t);
      AtMostOneLateRegistration(s, steps, t);
      var more, u := CanFinish(t);
    }
  }

  // ---------- what a run has done ----------

  function Count(steps: seq<Step>, step: Step): nat
  {
    if steps == [] then 0 else (if steps[0] == step then 1 else 0) + Count(steps[1..], step)
  }

  /** Connections are numbered by their Accept; a of them have been accepted, r registered and h
      given to a handler, in that order. */
  ghost predicate Numbered(s: State, a: nat, r: nat, h: nat)
  {
    && |s.handlers| == a && h <= r <= a
    && (match s.acceptor
        case Holding(c) => c == r == h == a - 1
        case Spawning(c) => c == h == a - 1 && r == a
        case _ => r == h == a)
    && (forall c: nat :: c < a ==> (s.handlers[c] == Unborn <==> c >= h))
    && (forall c: nat :: c in s.conns <==> c < r && s.handlers[c] != Gone)
  }

  lemma StepNumbers(s: State, step: Step, a: nat, r: nat, h: nat)
    requires Numbered(s, a, r, h) && Enabled(s, step)
    ensures Numbered(Next(s, step), if step == Accept then a + 1 else a,
                     if step == Register then r + 1 else r, if step == Spawn then h + 1 else h)
  {
  }

  lemma {:induction false} RunNumbers(s: State, steps: seq<Step>, t: State, a: nat, r: nat, h: nat)
    requires Numbered(s, a, r, h) && Run(s, steps, t)
    ensures Numbered(t, a + Count(steps, Accept), r + Count(steps, Register), h + Count(steps, Spawn))
    decreases |steps|
  {
    if steps != [] {
      var step := steps[0];
      StepNumbers(s, step, a, r, h);
      RunNumbers(Next(s, step), steps[1..], t, if step == Accept then a + 1 else a,
                 if step == Register then r + 1 else r, if step == Spawn then h + 1 else h);
    }
  }

  /** How far the handler of c has come, and whether c is open, after steps from s. */
  ghost predicate HandledBy(s: State, steps: seq<Step>, t: State, c: nat)
    requires c < |t.handlers|
  {
    && (t.handlers[c] == Gone <==> (c < |s.handlers| && s.handlers[c] == Gone) || Delete(c) in steps)
    && (t.handlers[c] == Closed || t.handlers[c] == Gone <==>
          (c < |s.handlers| && (s.handlers[c] == Closed || s.handlers[c] == Gone)) || CloseConn(c) in steps)
    && (c in t.open <==>
          (c < |s.handlers| ==> c in s.open) && EarlyClose(c) !in steps && CloseConn(c) !in steps)
  }

  lemma StepHandles(s: State, step: Step, c: nat)
    requires Inv(s) && Enabled(s, step) && c < |Next(s, step).handlers|
    ensures HandledBy(s, [step], Next(s, step), c) && |s.handlers| <= |Next(s, step).handlers|
  {
  }

  lemma {:induction false} RunHandles(s: State, steps: seq<Step>, t: State, c: nat)
    requires Inv(s) && Run(s, steps, t) && c < |t.handlers|
    ensures HandledBy(s, steps, t, c) && |s.handlers| <= |t.handlers|
    decreases |steps|
  {
    if steps != [] {
      var step, rest := steps[0], steps[1..];
      var u := Next(s, step);
      StepKeepsInv(s, step);
      RunHandles(u, rest, t, c);
      assert forall x :: x in steps <==> x in [step] || x in rest;
      if c < |u.handlers| { StepHandles(s, step, c); } else { NotYet(s, step, c); }
    }
  }

  /** Nothing is done to a connection before it is accepted. */
  lemma NotYet(s: State, step: Step, c: nat)
    requires Enabled(s, step) && c >= |Next(s, step).handlers|
    ensures c >= |s.handlers| && step != Delete(c) && step != CloseConn(c) && step != EarlyClose(c)
  {
  }

  /** How far the accept loop, the listener and Shutdown have come after steps from s. */
  ghost predicate PhasesBy(s: State, steps: seq<Step>, t: State)
  {
    && (t.acceptor.NotStarted? <==> s.acceptor.NotStarted? && Start !in steps)
    && (t.acceptor.Exited? <==> s.acceptor.Exited? || AcceptClosed in steps)
    && (t.listening <==> s.listening && CloseListener !in steps)
    && (t.shutdown.Idle? <==> s.shutdown.Idle? && Begin !in steps)
    && (t.shutdown == Done(false) <==> s.shutdown == Done(false) || Cancel in steps)
    && (t.shutdown == Done(true) <==> s.shutdown == Done(true) || ReturnNil in steps)
  }

  lemma {:induction false} RunPhases(s: State, steps: seq<Step>, t: State)
    requires Run(s, steps, t)
    ensures PhasesBy(s, steps, t)
    decreases |steps|
  {
    if steps != [] {
      RunPhases(Next(s, steps[0]), steps[1..], t);
      assert steps == [steps[0]] + steps[1..];
    }
  }

  /** A state is what its run has done. In particular the accept loop exits only by the closed
      listener, failing accepts notwithstanding; a connection is open until the user's handler or
      the deferred close closes it; and it is in the map from its registration to its deletion. */
  lemma {:induction false} StateIsHistory(steps: seq<Step>, t: State)
    requires Run(INIT, steps, t)
    ensures |t.handlers| == Count(steps, Accept)
    ensures forall c: nat :: c in t.conns <==> c < Count(steps, Register) && Delete(c) !in steps
    ensures forall c: nat :: c in t.open <==> c < |t.handlers| && EarlyClose(c) !in steps && CloseConn(c) !in steps
    ensures forall c: nat :: c < |t.handlers| ==>
              t.handlers[c] == if Delete(c) in steps then Gone else if CloseConn(c) in steps then Closed
                               else if c < Count(steps, Spawn) then Running else Unborn
    ensures PhasesBy(INIT, steps, t)
    ensures AcceptClosed in steps ==> CloseListener in steps
  {
    RunNumbers(INIT, steps, t, 0, 0, 0);
    RunPhases(INIT, steps, t);
    if AcceptClosed in steps { ExitNeedsClosed(INIT, steps, t); }
    forall c: nat
      ensures c in t.conns <==> c < Count(steps, Register) && Delete(c) !in steps
      ensures c in t.open <==> c < |t.handlers| && EarlyClose(c) !in steps && CloseConn(c) !in steps
      ensures c < |t.handlers| ==>
                t.handlers[c] == if Delete(c) in steps then Gone else if CloseConn(c) in steps then Closed
                                 else if c < Count(steps, Spawn) then Running else Unborn
    {
      ConnectionHistory(steps, t, c);
    }
  }

  lemma {:induction false} ConnectionHistory(steps: seq<Step>, t: State, c: nat)
    requires Run(INIT, steps, t)
    ensures c in t.conns <==> c < Count(steps, Register) && Delete(c) !in steps
    ensures c in t.open <==> c < |t.handlers| && EarlyClose(c) !in steps && CloseConn(c) !in steps
    ensures c < |t.handlers| ==>
              t.handlers[c] == if Delete(c) in steps then Gone else if CloseConn(c) in steps then Closed
                               else if c < Count(steps, Spawn) then Running else Unborn
  {
    RunKeepsInv(INIT, steps, t);
    RunNumbers(INIT, steps, t, 0, 0, 0);
    if c < |t.handlers| { RunHandles(INIT, steps, t, c); }
  }

  lemma {:induction false} ExitNeedsClosed(s: State, steps: seq<Step>, t: State)
    requires Run(s, steps, t) && AcceptClosed in steps
    ensures s.listening ==> CloseListener in steps
    decreases |steps|
  {
    if steps[0] != AcceptClosed { ExitNeedsClosed(Next(s, steps[0]), steps[1..], t); }
  }

  // ---------- how Shutdown ends ----------

  ghost predicate IsShutdown(step: Step)
  {
    step.Begin? || step.CloseListener? || step.Poll? || step.Tick? || step.Cancel? || step.ReturnNil?
  }

  /** In every wait the context can end it: Shutdown then has returned the error, and does nothing
      more. */
  lemma CancelEnds(t: State)
    requires Reachable(t) && t.shutdown.Waiting?
    ensures Enabled(t, Cancel) && Next(t, Cancel).shutdown == Done(false)
    ensures forall step :: IsShutdown(step) ==> !Enabled(Next(t, Cancel), step)
  {
  }

  lemma {:induction false} NilStays(s: State, steps: seq<Step>, t: State)
    requires Nil(s) && Run(s, steps, t)
    ensures Nil(t)
    decreases |steps|
  {
    if steps != [] { NilStays(Next(s, steps[0]), steps[1..], t); }
  }

  lemma {:induction false} RunSplits(s: State, before: seq<Step>, after: seq<Step>, t: State) returns (p: State)
    requires Run(s, before + after, t)
    ensures Run(s, before, p) && Run(p, after, t)
    decreases |before|
  {
    if before == [] {
      p := s;
      assert before + after == after;
    } else {
      assert (before + after)[0] == before[0] && (before + after)[1..] == before[1..] + after;
      p := RunSplits(Next(s, before[0]), before[1..], after, t);
    }
  }

  /** Shutdown's result is nil iff a poll has seen the empty map, and the error iff the context
      ended one of its waits, which a poll of a nonempty map began. */
  lemma {:induction false} ShutdownResult(steps: seq<Step>, t: State)
    requires Run(INIT, steps, t)
    ensures Nil(t) <==> exists before, p, after :: steps == before + [Poll] + after && DecidedAt(INIT, before, p, after, t)
    ensures t.shutdown == Done(true) <==> ReturnNil in steps
    ensures t.shutdown == Done(false) <==> Cancel in steps
    ensures forall before, after :: steps == before + [Cancel] + after ==>
              exists p :: Run(INIT, before, p) && p.shutdown.Waiting?
  {
    RunPhases(INIT, steps, t);
    NilIffEmptyPoll(steps, t);
    forall before, after | steps == before + [Cancel] + after
      ensures exists p :: Run(INIT, before, p) && p.shutdown.Waiting?
    {
      var p := CancelledIn(steps, t, before, after);
    }
  }

  lemma {:induction false} NilIffEmptyPoll(steps: seq<Step>, t: State)
    requires Run(INIT, steps, t)
    ensures Nil(t) <==> exists before, p, after :: steps == before + [Poll] + after && DecidedAt(INIT, before, p, after, t)
  {
    if Nil(t) { var before, p, after := NilWasDecided(INIT, steps, t); }
    if before, p, after :| steps == before + [Poll] + after && DecidedAt(INIT, before, p, after, t) {
      NilStays(Next(p, Poll), after, t);
    }
  }

  lemma {:induction false} CancelledIn(steps: seq<Step>, t: State, before: seq<Step>, after: seq<Step>) returns (p: State)
    requires Run(INIT, steps, t) && steps == before + [Cancel] + after
    ensures Run(INIT, before, p) && p.shutdown.Waiting?
  {
    var rest := [Cancel] + after;
    assert steps == before + rest;
    p := RunSplits(INIT, before, rest, t);
    assert rest[0] == Cancel;
  }

  // ---------- the exact condition matters ----------

  /** That the accept loop has exited by the return does not help: here it has, Shutdown returns
      nil, and yet the connection held at the poll is live. */
  lemma ExitedAtReturnIsNotEnough() returns (t: State)
    ensures Reachable(t) && t.shutdown == Done(true) && t.acceptor == Exited
    ensures t.open == {0} && t.conns == {0} && t.handlers == [Running]
  {
    var s1 := Next(INIT, Start);
    var s2 := Next(s1, Accept);
    var s3 := Next(s2, Begin);
    var s4 := Next(s3, CloseListener);
    var s5 := Next(s4, Poll);
    assert s5.shutdown == Draining;
    var s6 := Next(s5, Register);
    var s7 := Next(s6, Spawn);
    var s8 := Next(s7, AcceptClosed);
    t := Next(s8, ReturnNil);
    var none: seq<Step> := [];
    assert Run(INIT, none, INIT);
    ReachableExtends(INIT, Start);
    ReachableExtends(s1, Accept);
    ReachableExtends(s2, Begin);
    ReachableExtends(s3, CloseListener);
    ReachableExtends(s4, Poll);
    ReachableExtends(s5, Register);
    ReachableExtends(s6, Spawn);
    ReachableExtends(s7, AcceptClosed);
    ReachableExtends(s8, ReturnNil);
  }

  lemma ReachableExtends(t: State, step: Step)
    requires Reachable(t) && Enabled(t, step)
    ensures Reachable(Next(t, step))
  {
    var steps :| Run(INIT, steps, t);
    Extend(INIT, steps, t, step);
  }

  lemma {:induction false} Extend(s: State, steps: seq<Step>, t: State, step: Step)
    requires Run(s, steps, t) && Enabled(t, step)
    ensures Run(s, steps + [step], Next(t, step))
    decreases |steps|
  {
    if steps == [] {
      assert ([step])[1..] == [] && [] + [step] == [step];
    } else {
      Extend(Next(s, steps[0]), steps[1..], t, step);
      assert (steps + [step])[1..] == steps[1..] + [step];
    }
  }
}
