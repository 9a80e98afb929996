/** deon/net/EventLoop.cpp as atomic steps of the loop thread and of any number of other threads:
    who may hand over functors, how the loop is woken, and in which order functors run.

    A functor is known by its ticket: its position in the order in which the mutex let the pushes in.
    The eventfd is an edge: every write sets it and a poll that reports it clears it. (`handleRead` and
    the registration of the wakeup channel play no part: line 145 adds the channel a second time, so
    after the first wakeup only the edge is left.) */
module LoopProtocol {

  datatype LoopPc =
    | NotStarted      // loop() has not been called
    | Top             // about to test quit_ (60)
    | Polling         // in poll (63)
    | Handling        // in the event loop (66)
    | Swapping        // in doPendingFunctors, before the swap (154)
    | Running         // in the functor loop (157)
    | Stopped

  datatype State = State(
    pc: LoopPc,
    events: nat,            // active channels not handled yet
    active: bool,           // a callback is running on the loop thread
    budget: nat,            // how many more calls into the loop it will make
    loopOwes: bool,         // the loop thread is between its push and its wakeup (102-106)
    quit: bool,
    calling: bool,          // callingPendingFunctors_
    pending: seq<nat>,      // pendingFunctors_
    batch: seq<nat>,        // the swapped-out functors not run yet
    edge: bool,
    owing: set<nat>,        // other threads between their push, or their quit_ store, and their wakeup
    executed: seq<nat>,     // history
    pushed: nat)            // history: how many functors were pushed

  datatype Step =
    // other threads
    | Push(thread: nat)
    | QuitStore(thread: nat)
    | Wakeup(thread: nat)
    | Idle
    // the loop thread
    | StartLoop
    | TestQuit
    | PollReturn(reported: bool, ready: nat)
    | StartHandler(calls: nat)
    | EnterPending
    | Swap
    | StartFunctor(calls: nat)
    | EndPass
    | LoopPush
    | LoopWakeup
    | LoopQuit
    | Return

  const INITIAL := State(NotStarted, 0, false, 0, false, false, false, [], [], false, {}, [], 0)

  predicate IsLoopStep(step: Step) {
    !(step.Push? || step.QuitStore? || step.Wakeup? || step.Idle?)
  }

  predicate Enabled(s: State, step: Step) {
    match step
    case Push(t) => t !in s.owing
    case QuitStore(t) => t !in s.owing
    case Wakeup(t) => t in s.owing
    case Idle => true
    case StartLoop => s.pc == NotStarted
    case TestQuit => s.pc == Top
    // Other events, a signal and the 10 s timeout end a poll as well, with or without the edge reported.
    case PollReturn(reported, _) => s.pc == Polling && (reported ==> s.edge)
    case StartHandler(_) => s.pc == Handling && !s.active && s.events > 0
    case EnterPending => s.pc == Handling && !s.active && s.events == 0
    case Swap => s.pc == Swapping
    case StartFunctor(_) => s.pc == Running && !s.active && s.batch != []
    case EndPass => s.pc == Running && !s.active && s.batch == []
    case LoopPush => s.active && !s.loopOwes && s.budget > 0
    case LoopQuit => s.active && !s.loopOwes && s.budget > 0
    case LoopWakeup => s.loopOwes
    case Return => s.active && !s.loopOwes
  }

  function Apply(s: State, step: Step): State
    requires Enabled(s, step)
  {
    match step
    case Push(t) => s.(pending := s.pending + [s.pushed], pushed := s.pushed + 1, owing := s.owing + {t})
    case QuitStore(t) => s.(quit := true, owing := s.owing + {t})
    case Wakeup(t) => s.(edge := true, owing := s.owing - {t})
    case Idle => s
    case StartLoop => s.(pc := Top, quit := false)
    case TestQuit => s.(pc := if s.quit then Stopped else Polling)
    case PollReturn(reported, n) => s.(pc := Handling, events := n, edge := s.edge && !reported)
    case StartHandler(calls) => s.(events := s.events - 1, active := true, budget := calls)
    case EnterPending => s.(pc := Swapping, calling := true)
    case Swap => s.(pc := Running, batch := s.pending, pending := [])
    case StartFunctor(calls) =>
      s.(batch := s.batch[1..], executed := s.executed + [s.batch[0]], active := true, budget := calls)
    case EndPass => s.(pc := Top, calling := false)
    case LoopPush =>
      s.(pending := s.pending + [s.pushed], pushed := s.pushed + 1, budget := s.budget - 1, loopOwes := s.calling)
    case LoopQuit => s.(quit := true, budget := s.budget - 1)
    case LoopWakeup => s.(edge := true, loopOwes := false)
    case Return => s.(active := false)
  }

  // ---------- the invariant ----------

  function Upto(n: nat): seq<nat> {
    seq(n, i => i)
  }

  /** Some thread will still set the edge, or it is set. */
  predicate Signalled(s: State) {
    s.edge || s.owing != {} || s.loopOwes
  }

  /** Every pushed functor is run, about to be run or pending, once and in push order. */
  predicate InOrder(s: State) {
    && s.executed + s.batch + s.pending == Upto(s.pushed)
    && (s.pc != Running ==> s.batch == [])
  }

  predicate Inv(s: State) {
    && InOrder(s)
    // the loop cannot block in poll with work and no signal owed
    && (s.pending != [] && s.pc != Handling && s.pc != Swapping ==> Signalled(s))
    // nor with a request to quit
    && (s.pc == Polling && s.quit ==> Signalled(s))
    && (s.calling <==> s.pc == Swapping || s.pc == Running)
    && (s.active ==> s.pc == Handling || s.pc == Running)
    && (s.loopOwes ==> s.active)
  }

  lemma StepKeepsOrder(s: State, step: Step)
    requires InOrder(s) && Enabled(s, step)
    ensures InOrder(Apply(s, step))
  {
    var all := s.executed + s.batch + s.pending;
    match step
    case Push(_) => OneMore(s.executed + s.batch, s.pending, s.pushed);
    case LoopPush => OneMore(s.executed + s.batch, s.pending, s.pushed);
    case Swap => assert s.executed + s.pending + [] == all;
    case StartFunctor(_) => assert s.executed + [s.batch[0]] + s.batch[1..] == s.executed + s.batch;
    case _ =>
  }

  lemma OneMore(before: seq<nat>, pending: seq<nat>, n: nat)
    requires before + pending == Upto(n)
    ensures before + (pending + [n]) == Upto(n + 1)
  {
    assert before + (pending + [n]) == (before + pending) + [n];
    assert Upto(n + 1) == Upto(n) + [n];
  }

  lemma StepKeepsInv(s: State, step: Step)
    requires Inv(s) && Enabled(s, step)
    ensures Inv(Apply(s, step))
  {
    StepKeepsOrder(s, step);
    hide InOrder;
  }

  /** The loop thread is never stuck, except in a poll that nothing ends and after its last pass. */
  predicate LoopReady(s: State) {
    s.pc != Stopped && (s.pc == Polling ==> s.edge)
  }

  lemma ReadyLoopCanStep(s: State) returns (step: Step)
    requires Inv(s) && LoopReady(s)
    ensures IsLoopStep(step) && Enabled(s, step)
  {
    if s.loopOwes { return LoopWakeup; }
    if s.active { return Return; }
    match s.pc
    case NotStarted => step := StartLoop;
    case Top => step := TestQuit;
    case Polling => step := PollReturn(true, 0);
    case Handling => step := if s.events > 0 then StartHandler(0) else EnterPending;
    case Swapping => step := Swap;
    case Running => step := if s.batch != [] then StartFunctor(0) else EndPass;
    case Stopped => assert false;
  }

  // ---------- finite runs: safety ----------

  predicate Feasible(s: State, steps: seq<Step>)
    decreases |steps|
  {
    steps == [] || (Enabled(s, steps[0]) && Feasible(Apply(s, steps[0]), steps[1..]))
  }

  function After(s: State, steps: seq<Step>): State
    requires Feasible(s, steps)
    decreases |steps|
  {
    if steps == [] then s else After(Apply(s, steps[0]), steps[1..])
  }

  lemma {:induction false} RunKeepsInv(s: State, steps: seq<Step>)
    requires Inv(s) && Feasible(s, steps)
    ensures Inv(After(s, steps))
    decreases |steps|
  {
    if steps != [] {
      StepKeepsInv(s, steps[0]);
      RunKeepsInv(Apply(s, steps[0]), steps[1..]);
    }
  }

  /** The run, from the construction of the loop, ends in `s`. */
  predicate Reaches(run: seq<Step>, s: State) {
    Feasible(INITIAL, run) && After(INITIAL, run) == s
  }

  lemma {:induction false} AfterSnoc(s: State, steps: seq<Step>, step: Step)
    requires Feasible(s, steps) && Enabled(After(s, steps), step)
    ensures Feasible(s, steps + [step]) && After(s, steps + [step]) == Apply(After(s, steps), step)
    decreases |steps|
  {
    if steps == [] {
      assert [step][1..] == [] && steps + [step] == [step];
    } else {
      assert (steps + [step])[1..] == steps[1..] + [step];
      AfterSnoc(Apply(s, steps[0]), steps[1..], step);
    }
  }

  /** How often the loop has been round. */
  function Passes(run: seq<Step>): nat {
    if run == [] then 0 else Passes(run[..|run| - 1]) + if run[|run| - 1] == EndPass then 1 else 0
  }

  lemma ReachStep(run: seq<Step>, s: State, step: Step)
    requires Reaches(run, s) && Enabled(s, step)
    ensures Reaches(run + [step], Apply(s, step))
    ensures Passes(run + [step]) == Passes(run) + if step == EndPass then 1 else 0
  {
    assert (run + [step])[..|run|] == run;
    AfterSnoc(INITIAL, run, step);
  }

  lemma ReachedInv(run: seq<Step>, s: State)
    requires Reaches(run, s)
    ensures Inv(s)
  {
    RunKeepsInv(INITIAL, run);
  }

  /** Functors run in push order and at most once, whatever the interleaving and however many functors
      the functors themselves push. */
  lemma FunctorsRunInOrder(run: seq<Step>, s: State)
    requires Reaches(run, s)
    ensures s.executed == Upto(|s.executed|) && |s.executed| <= s.pushed
  {
    ReachedInv(run, s);
    assert s.executed == (s.executed + s.batch + s.pending)[..|s.executed|];
  }

  /** The loop is never blocked in poll with a functor pending, or with a request to quit, unless the
      edge is set or some thread is on its way to set it. */
  lemma NoLostWakeup(run: seq<Step>, s: State)
    requires Reaches(run, s) && s.pc == Polling && (s.pending != [] || s.quit)
    ensures s.edge || s.owing != {}
  {
    ReachedInv(run, s);
  }

  /** A pass runs just what was pushed before its swap. */
  lemma SwapTakesAllPushedBefore(s: State)
    requires Inv(s) && Enabled(s, Swap)
    ensures Apply(s, Swap).executed + Apply(s, Swap).batch == Upto(s.pushed)
  {
    assert s.executed + s.batch + s.pending == s.executed + s.pending;
  }

  /** A push on the loop thread is followed by a wakeup exactly while the pending functors are being run; one
      of another thread always is. */
  lemma WhoOwesWakeup(s: State, step: Step)
    requires Inv(s) && Enabled(s, step)
    ensures step == LoopPush ==> (Apply(s, step).loopOwes <==> s.pc == Running)
    ensures step.Push? || step.QuitStore? ==> step.thread in Apply(s, step).owing
  {
  }

  /** The edge is taken down by the poll that reports it and by nothing else. */
  lemma OnlyReportClearsEdge(s: State, step: Step)
    requires Enabled(s, step)
    ensures s.edge && !Apply(s, step).edge <==> step.PollReturn? && step.reported
  {
  }

  /** `quit` before `loop` is lost: line 59 clears the flag, and the loop goes on to poll although the
      call to `quit` has returned. */
  lemma QuitBeforeLoopIsLost()
    ensures var steps := [QuitStore(1), Wakeup(1), StartLoop, TestQuit];
            && Feasible(INITIAL, steps)
            && After(INITIAL, steps).pc == Polling && !After(INITIAL, steps).quit
  {
    var s1 := Apply(INITIAL, QuitStore(1));
    var s2 := Apply(s1, Wakeup(1));
    var s3 := Apply(s2, StartLoop);
    var steps := [QuitStore(1), Wakeup(1), StartLoop, TestQuit];
    assert steps[1..] == [Wakeup(1), StartLoop, TestQuit];
    assert steps[1..][1..] == [StartLoop, TestQuit];
    assert steps[1..][1..][1..] == [TestQuit];
    assert steps[1..][1..][1..][1..] == [];
    assert Feasible(Apply(s3, TestQuit), []);
    assert Feasible(s3, [TestQuit]);
    assert Feasible(s2, [StartLoop, TestQuit]);
    assert Feasible(s1, steps[1..]);
  }

  /** That is the only way to lose it: the flag, once up, is taken down by nothing but the start. */
  lemma OnlyStartClearsQuit(s: State, step: Step)
    requires Enabled(s, step)
    ensures s.quit && !Apply(s, step).quit <==> s.quit && step == StartLoop
  {
  }

  // ---------- infinite runs: liveness ----------

  type Trace = nat -> State
  type Labels = nat -> Step

  ghost predicate IsTrace(st: Trace, lab: Labels) {
    st(0) == INITIAL &&
    forall i: nat :: Enabled(st(i), lab(i)) && st(i + 1) == Apply(st(i), lab(i))
  }

  ghost predicate MovesLater(st: Trace, lab: Labels, i: nat) {
    exists j: nat :: i <= j && (IsLoopStep(lab(j)) || !LoopReady(st(j)))
  }

  ghost predicate PaysLater(st: Trace, t: nat, i: nat) {
    exists j: nat :: i <= j && t !in st(j).owing
  }

  /** A loop thread that can go on does go on at some time, and a thread that has pushed or asked to
      quit gets to its wakeup. The poll's timeout is not relied on. */
  ghost predicate Fair(st: Trace, lab: Labels) {
    && (forall i: nat :: MovesLater(st, lab, i))
    && (forall i: nat, t: nat :: PaysLater(st, t, i))
  }

  lemma TraceStep(st: Trace, lab: Labels, i: nat)
    requires IsTrace(st, lab)
    ensures Enabled(st(i), lab(i)) && st(i + 1) == Apply(st(i), lab(i))
  {
  }

  /** The part of the state only the loop thread changes. */
  predicate SameLoop(a: State, b: State) {
    && a.pc == b.pc && a.events == b.events && a.active == b.active && a.budget == b.budget
    && a.loopOwes == b.loopOwes && a.batch == b.batch && a.executed == b.executed
    && a.pushed <= b.pushed && (a.edge ==> b.edge) && (a.quit ==> b.quit)
  }

  ghost predicate Quiet(lab: Labels, i: nat, j: nat) {
    forall k :: i <= k < j ==> !IsLoopStep(lab(k))
  }

  lemma {:induction false} TraceInv(st: Trace, lab: Labels, i: nat)
    requires IsTrace(st, lab)
    ensures Inv(st(i))
  {
    if i > 0 {
      TraceInv(st, lab, i - 1);
      StepKeepsInv(st(i - 1), lab(i - 1));
    }
  }

  lemma {:induction false} QuietKeepsLoop(st: Trace, lab: Labels, i: nat, j: nat)
    requires IsTrace(st, lab) && i <= j && Quiet(lab, i, j)
    ensures SameLoop(st(i), st(j))
    decreases j
  {
    if i < j {
      QuietKeepsLoop(st, lab, i, j - 1);
      TraceStep(st, lab, j - 1);
      hide IsTrace, Enabled, Apply, SameLoop;
      OthersKeepLoop(st(j - 1), lab(j - 1));
      SameLoopTrans(st(i), st(j - 1), st(j));
    } else {
      SameLoopSelf(st(i));
    }
  }

  lemma SameLoopSelf(a: State)
    ensures SameLoop(a, a)
  {
  }

  lemma SameLoopTrans(a: State, b: State, c: State)
    requires SameLoop(a, b) && SameLoop(b, c)
    ensures SameLoop(a, c)
  {
  }

  lemma OthersKeepLoop(s: State, step: Step)
    requires Enabled(s, step) && !IsLoopStep(step)
    ensures SameLoop(s, Apply(s, step))
  {
  }

  /** A thread that no longer owes a wakeup has set the edge, if no poll came in between. */
  lemma {:induction false} DebtIsPaidByEdge(st: Trace, lab: Labels, i: nat, j: nat, t: nat)
    requires IsTrace(st, lab) && i <= j && Quiet(lab, i, j)
    requires t in st(i).owing && t !in st(j).owing
    ensures st(j).edge
    decreases j
  {
    assert i < j;
    assert st(j) == Apply(st(j - 1), lab(j - 1));
    if t !in st(j - 1).owing {
      DebtIsPaidByEdge(st, lab, i, j - 1, t);
    }
  }

  /** The first loop step at or after `i` and before `j`, or `j`. */
  lemma FirstLoopStep(lab: Labels, i: nat, j: nat) returns (k: nat)
    requires i <= j
    ensures i <= k <= j && Quiet(lab, i, k) && (k < j ==> IsLoopStep(lab(k)))
  {
    k := i;
    while k < j && !IsLoopStep(lab(k))
      invariant i <= k <= j && Quiet(lab, i, k)
    {
      k := k + 1;
    }
  }

  /** A thread that owes a wakeup pays, unless the loop thread moves first. */
  lemma WakeupOrLoopStep(st: Trace, lab: Labels, i: nat, t: nat) returns (k: nat)
    requires IsTrace(st, lab) && Fair(st, lab) && t in st(i).owing
    ensures i <= k && Quiet(lab, i, k) && (IsLoopStep(lab(k)) || st(k).edge)
  {
    hide IsTrace;
    assert PaysLater(st, t, i);
    var j: nat :| i <= j && t !in st(j).owing;
    k := FirstLoopStep(lab, i, j);
    if k == j {
      DebtIsPaidByEdge(st, lab, i, j, t);
    }
  }

  /** A loop thread that is ready moves. */
  lemma ReadyLoopMoves(st: Trace, lab: Labels, i: nat) returns (k: nat)
    requires IsTrace(st, lab) && Fair(st, lab) && LoopReady(st(i))
    ensures i <= k && Quiet(lab, i, k) && IsLoopStep(lab(k))
  {
    hide IsTrace;
    assert MovesLater(st, lab, i);
    var j: nat :| i <= j && (IsLoopStep(lab(j)) || !LoopReady(st(j)));
    k := FirstLoopStep(lab, i, j);
    QuietKeepsLoop(st, lab, i, k);
  }

  /** Work or a request to quit brings the loop to its next step: by its own readiness, or by the
      wakeup of the thread that owes one. */
  lemma NextLoopStep(st: Trace, lab: Labels, i: nat) returns (k: nat)
    requires IsTrace(st, lab) && Fair(st, lab) && st(i).pc != Stopped
    requires st(i).pc == Polling ==> Signalled(st(i))
    ensures i <= k && IsLoopStep(lab(k)) && SameLoop(st(i), st(k))
    ensures Inv(st(k)) && Enabled(st(k), lab(k)) && st(k + 1) == Apply(st(k), lab(k))
  {
    TraceInv(st, lab, i);
    hide IsTrace, Fair;
    k := i;
    if st(i).pc == Polling && !st(i).edge {
      var t :| t in st(i).owing;
      k := WakeupOrLoopStep(st, lab, i, t);
      QuietKeepsLoop(st, lab, i, k);
    }
    if !IsLoopStep(lab(k)) {
      var m := k;
      k := ReadyLoopMoves(st, lab, m);
      assert Quiet(lab, i, k);
    }
    QuietKeepsLoop(st, lab, i, k);
    TraceInv(st, lab, k);
    TraceStep(st, lab, k);
  }

  // ranks: how far the loop is from a goal, compared lexicographically

  datatype Rank = Rank(stage: nat, count: nat, inner: nat)

  predicate Below(a: Rank, b: Rank) {
    a.stage < b.stage || (a.stage == b.stage && (a.count < b.count || (a.count == b.count && a.inner < b.inner)))
  }

  function Inner(s: State): nat {
    if s.active then 2 * s.budget + (if s.loopOwes then 1 else 0) + 1 else 0
  }

  function RunRank(s: State, ticket: nat): Rank
    requires Inv(s) && |s.executed| <= ticket < s.pushed
  {
    if ticket < |s.executed| + |s.batch| then Rank(0, ticket - |s.executed|, Inner(s))
    else match s.pc
      case Swapping => Rank(1, 0, 0)
      case Handling => Rank(2, s.events, Inner(s))
      case Polling => Rank(3, 0, 0)
      case Top => Rank(4, 0, 0)
      case Running => Rank(5, |s.batch|, Inner(s))
      case NotStarted => Rank(6, 0, 0)
      case Stopped => Rank(7, 0, 0)
  }

  lemma LoopStepLowersRunRank(s: State, step: Step, ticket: nat)
    requires Inv(s) && Enabled(s, step) && IsLoopStep(step) && |s.executed| <= ticket < s.pushed
    ensures Inv(Apply(s, step))
    ensures |Apply(s, step).executed| <= ticket && Apply(s, step).pc != Stopped ==>
              Below(RunRank(Apply(s, step), ticket), RunRank(s, ticket))
  {
    StepKeepsInv(s, step);
    assert |s.executed + s.batch + s.pending| == s.pushed;
  }

  lemma ExecutedPrefix(s: State, ticket: nat)
    requires Inv(s) && ticket < |s.executed|
    ensures ticket in s.executed
  {
    assert (s.executed + s.batch + s.pending)[ticket] == s.executed[ticket];
  }

  /** The rank of a functor in any state; zero once it has run. */
  function RankOf(s: State, ticket: nat): Rank {
    if Inv(s) && |s.executed| <= ticket < s.pushed then RunRank(s, ticket) else Rank(0, 0, 0)
  }

  /** Every functor that was pushed runs, unless the loop is told to quit. */
  lemma {:induction false} PushedFunctorRuns(st: Trace, lab: Labels, i: nat, ticket: nat) returns (j: nat)
    requires IsTrace(st, lab) && Fair(st, lab) && ticket < st(i).pushed
    ensures i <= j && (ticket in st(j).executed || st(j).pc == Stopped)
    decreases RankOf(st(i), ticket).stage, RankOf(st(i), ticket).count, RankOf(st(i), ticket).inner
  {
    TraceInv(st, lab, i);
    hide IsTrace, Fair;
    j := i;
    if ticket < |st(i).executed| {
      ExecutedPrefix(st(i), ticket);
    } else if st(i).pc != Stopped {
      assert |st(i).executed + st(i).batch + st(i).pending| == st(i).pushed;
      var k := NextLoopStep(st, lab, i);
      assert RunRank(st(k), ticket) == RunRank(st(i), ticket);
      LoopStepLowersRunRank(st(k), lab(k), ticket);
      j := k + 1;
      if |st(j).executed| > ticket {
        ExecutedPrefix(st(j), ticket);
      } else if st(j).pc != Stopped {
        assert Below(RankOf(st(j), ticket), RankOf(st(i), ticket));
        j := PushedFunctorRuns(st, lab, j, ticket);
      }
    }
  }

  function QuitRank(s: State): Rank {
    match s.pc
    case Stopped => Rank(0, 0, 0)
    case Top => Rank(1, 0, 0)
    case Running => Rank(2, |s.batch|, Inner(s))
    case Swapping => Rank(3, 0, 0)
    case Handling => Rank(4, s.events, Inner(s))
    case Polling => Rank(5, 0, 0)
    case NotStarted => Rank(6, 0, 0)
  }

  lemma LoopStepLowersQuitRank(s: State, step: Step)
    requires Inv(s) && Enabled(s, step) && IsLoopStep(step) && s.quit && s.pc != NotStarted
    ensures Below(QuitRank(Apply(s, step)), QuitRank(s))
    ensures Apply(s, step).quit && Apply(s, step).pc != NotStarted
  {
  }

  /** A loop that has been told to quit after its start stops. */
  lemma {:induction false} QuitStopsLoop(st: Trace, lab: Labels, i: nat) returns (j: nat)
    requires IsTrace(st, lab) && Fair(st, lab) && st(i).quit && st(i).pc != NotStarted
    ensures i <= j && st(j).pc == Stopped
    decreases QuitRank(st(i)).stage, QuitRank(st(i)).count, QuitRank(st(i)).inner
  {
    TraceInv(st, lab, i);
    hide IsTrace, Fair;
    j := i;
    if st(i).pc != Stopped {
      var k := NextLoopStep(st, lab, i);
      LoopStepLowersQuitRank(st(k), lab(k));
      j := QuitStopsLoop(st, lab, k + 1);
    }
  }

  // ---------- when the loop stops ----------

  predicate AsksToQuit(step: Step) {
    step.QuitStore? || step.LoopQuit?
  }

  /** Nobody has asked to quit since the loop was started, before position `i` of the trace. */
  ghost predicate NotAsked(st: Trace, lab: Labels, i: nat) {
    forall j: nat :: j < i && AsksToQuit(lab(j)) ==> st(j).pc == NotStarted
  }

  /** A loop that nobody asks to quit after its start goes on, whatever was asked before. */
  lemma {:induction false} LoopGoesOn(st: Trace, lab: Labels, i: nat)
    requires IsTrace(st, lab) && NotAsked(st, lab, i)
    ensures st(i).pc != NotStarted ==> !st(i).quit && st(i).pc != Stopped
  {
    if i > 0 {
      LoopGoesOn(st, lab, i - 1);
      TraceStep(st, lab, i - 1);
      TraceInv(st, lab, i - 1);
      hide IsTrace;
      QuitComesFromAsking(st(i - 1), lab(i - 1));
    }
  }

  lemma QuitComesFromAsking(s: State, step: Step)
    requires Inv(s) && Enabled(s, step) && (s.pc != NotStarted ==> !s.quit && s.pc != Stopped)
    requires AsksToQuit(step) ==> s.pc == NotStarted
    ensures var t := Apply(s, step); t.pc != NotStarted ==> !t.quit && t.pc != Stopped
  {
  }

  /** In a fair trace the loop stops if and only if somebody asks it to quit after it was started. A
      `quit` before that, even one that has returned, counts for nothing. */
  lemma StopsExactlyIfAsked(st: Trace, lab: Labels)
    requires IsTrace(st, lab) && Fair(st, lab)
    ensures (exists j: nat :: st(j).pc == Stopped) <==>
            (exists i: nat :: AsksToQuit(lab(i)) && st(i).pc != NotStarted)
  {
    if i: nat :| AsksToQuit(lab(i)) && st(i).pc != NotStarted {
      TraceStep(st, lab, i);
      assert st(i + 1).quit && st(i + 1).pc != NotStarted;
      hide IsTrace, Fair;
      var j := QuitStopsLoop(st, lab, i + 1);
    } else {
      forall j: nat ensures st(j).pc != Stopped {
        LoopGoesOn(st, lab, j);
      }
    }
  }
}
