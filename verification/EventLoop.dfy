/** deon/net/EventLoop.cpp as a class: the loop thread's methods, with the other threads running
    between their steps. What the code does is a run of `LoopProtocol`; the ghost field `s` is the
    state that run has reached. */
module EventLoop {
  import P = LoopProtocol

  /** A functor is a name for a piece of code; running it makes a finite number of calls. */
  type Functor = nat

  datatype Call = Queue(f: Functor) | QuitLoop

  /** What another thread does: the push, the store to quit_ and the wakeup are separate steps. */
  datatype Act = PushAct(thread: nat, f: Functor) | QuitAct(thread: nat) | WakeAct(thread: nat)

  /** What the other threads do in one pass of the loop: before its test, while it polls, before the swap,
      and before and after each call of its callbacks and functors. */
  datatype Interference = Interference(
    beforeTest: seq<Act>,
    duringPoll: seq<Act>,
    duringEvents: nat -> nat -> seq<Act>,
    duringFunctors: nat -> nat -> seq<Act>)

  /** The step of an act, if its thread is in a position to do it, and which threads owe a wakeup then. */
  function ActSteps(owing: set<nat>, act: Act): seq<P.Step> {
    match act
    case PushAct(t, _) => if t in owing then [] else [P.Push(t)]
    case QuitAct(t) => if t in owing then [] else [P.QuitStore(t)]
    case WakeAct(t) => if t in owing then [P.Wakeup(t)] else []
  }

  function OwingAfter(owing: set<nat>, act: Act): set<nat> {
    if act.WakeAct? then owing - {act.thread} else owing + {act.thread}
  }

  function StepsOf(owing: set<nat>, acts: seq<Act>): seq<P.Step>
    decreases |acts|
  {
    if acts == [] then [] else ActSteps(owing, acts[0]) + StepsOf(OwingAfter(owing, acts[0]), acts[1..])
  }

  lemma StepsHead(run: seq<P.Step>, owing: set<nat>, acts: seq<Act>, n: nat)
    requires n < |acts|
    ensures run + ActSteps(owing, acts[n]) + StepsOf(OwingAfter(owing, acts[n]), acts[n + 1..])
         == run + StepsOf(owing, acts[n..])
  {
    assert acts[n..][1..] == acts[n + 1..];
  }

  lemma StepsEnd(run: seq<P.Step>, owing: set<nat>, acts: seq<Act>)
    ensures run + StepsOf(owing, acts[|acts|..]) == run
  {
  }

  // ---------- what is to run ----------

  /** The calls of some callbacks, one callback after the other. */
  function Joined(callbacks: seq<seq<Call>>): seq<Call> {
    if callbacks == [] then [] else Joined(callbacks[..|callbacks| - 1]) + callbacks[|callbacks| - 1]
  }

  /** The calls of some functors, one functor after the other. */
  function CodeOf(fs: seq<Functor>, code: Functor -> seq<Call>): seq<Call> {
    if fs == [] then [] else CodeOf(fs[..|fs| - 1], code) + code(fs[|fs| - 1])
  }

  function Concat(runs: seq<seq<Functor>>): seq<Functor> {
    if runs == [] then [] else Concat(runs[..|runs| - 1]) + runs[|runs| - 1]
  }

  /** The calls of some passes: those of the callbacks of the poll, then those of the functors that ran. */
  function History(polls: nat -> (bool, seq<seq<Call>>), code: Functor -> seq<Call>,
                   rans: seq<seq<Functor>>): seq<Call>
  {
    if rans == [] then []
    else
      var n := |rans| - 1;
      History(polls, code, rans[..n]) + Joined(polls(n).1) + CodeOf(rans[n], code)
  }

  lemma JoinedSnoc(callbacks: seq<seq<Call>>, n: nat)
    requires n < |callbacks|
    ensures Joined(callbacks[..n + 1]) == Joined(callbacks[..n]) + callbacks[n]
  {
    assert callbacks[..n + 1][..n] == callbacks[..n];
  }

  lemma NoCode(fs: seq<Functor>, code: Functor -> seq<Call>)
    ensures CodeOf(fs[..0], code) == [] && fs[..|fs|] == fs
  {
  }

  lemma NoCalls(callbacks: seq<seq<Call>>)
    ensures Joined(callbacks[..0]) == [] && callbacks[..|callbacks|] == callbacks
  {
  }

  lemma CodeSnoc(fs: seq<Functor>, code: Functor -> seq<Call>, n: nat)
    requires n < |fs|
    ensures CodeOf(fs[..n + 1], code) == CodeOf(fs[..n], code) + code(fs[n])
  {
    assert fs[..n + 1][..n] == fs[..n];
  }

  lemma PassSnoc(polls: nat -> (bool, seq<seq<Call>>), code: Functor -> seq<Call>,
                 rans: seq<seq<Functor>>, ran: seq<Functor>)
    ensures History(polls, code, rans + [ran])
         == History(polls, code, rans) + Joined(polls(|rans|).1) + CodeOf(ran, code)
    ensures Concat(rans + [ran]) == Concat(rans) + ran
  {
    assert (rans + [ran])[..|rans|] == rans;
  }

  class EventLoop {
    var quit: bool
    var callingPendingFunctors: bool
    var pendingFunctors: seq<Functor>
    var wakeupEdge: bool
    var betweenPushAndWakeup: set<nat>   // the other threads that are inside queueInLoop or quit
    ghost var s: P.State
    ghost var names: seq<Functor>        // the functor behind each ticket
    ghost var made: seq<Call>            // history: the calls made on the loop thread

    ghost predicate Names(fs: seq<Functor>, tickets: seq<nat>)
      reads this
    {
      Named(names, fs, tickets)
    }

    ghost predicate Valid()
      reads this
    {
      && quit == s.quit && callingPendingFunctors == s.calling && wakeupEdge == s.edge
      && betweenPushAndWakeup == s.owing
      && |names| == s.pushed
      && Names(pendingFunctors, s.pending)
    }

    constructor ()
      ensures Valid() && s == P.INITIAL && made == []
    {
      quit, callingPendingFunctors, pendingFunctors := false, false, [];
      wakeupEdge, betweenPushAndWakeup := false, {};
      s, names, made := P.INITIAL, [], [];
    }

    method Push(f: Functor)
      requires Valid()
      modifies this`pendingFunctors, this`names, this`s
      ensures Valid() && names == old(names) + [f]
      ensures s == old(s).(pending := old(s).pending + [old(s).pushed], pushed := old(s).pushed + 1)
      ensures pendingFunctors == old(pendingFunctors) + [f]
    {
      pendingFunctors := pendingFunctors + [f];
      names := names + [f];
      s := s.(pending := s.pending + [s.pushed], pushed := s.pushed + 1);
    }

    /** One act of another thread; one that the thread is not in a position to do is skipped. */
    method Other(act: Act, ghost run: seq<P.Step>) returns (ghost longer: seq<P.Step>)
      requires Valid() && P.Reaches(run, s)
      modifies this
      ensures Valid() && P.Reaches(longer, s)
      ensures longer == run + ActSteps(old(s.owing), act) && P.Passes(longer) == P.Passes(run)
      ensures s.owing == OwingAfter(old(s.owing), act)
      ensures P.SameLoop(old(s), s) && s.calling == old(s).calling && old(names) <= names && made == old(made)
      ensures pendingFunctors ==
              old(pendingFunctors) + if act.PushAct? && act.thread !in old(s.owing) then [act.f] else []
    {
      hide P.Reaches, P.Passes;
      longer := run;
      match act {
        case PushAct(t, f) =>
          if t !in betweenPushAndWakeup {
            P.ReachStep(longer, s, P.Push(t));
            Push(f);
            betweenPushAndWakeup := betweenPushAndWakeup + {t};
            s, longer := s.(owing := s.owing + {t}), longer + [P.Push(t)];
          }
        case QuitAct(t) =>
          if t !in betweenPushAndWakeup {
            P.ReachStep(longer, s, P.QuitStore(t));
            quit, betweenPushAndWakeup := true, betweenPushAndWakeup + {t};
            s, longer := P.Apply(s, P.QuitStore(t)), longer + [P.QuitStore(t)];
          }
        case WakeAct(t) =>
          if t in betweenPushAndWakeup {
            P.ReachStep(longer, s, P.Wakeup(t));
            wakeupEdge, betweenPushAndWakeup := true, betweenPushAndWakeup - {t};
            s, longer := P.Apply(s, P.Wakeup(t)), longer + [P.Wakeup(t)];
          }
      }
    }

    /** The other threads act. */
    method Others(acts: seq<Act>, ghost run: seq<P.Step>) returns (ghost longer: seq<P.Step>)
      requires Valid() && P.Reaches(run, s)
      modifies this
      ensures Valid() && P.Reaches(longer, s)
      ensures longer == run + StepsOf(old(s.owing), acts) && P.Passes(longer) == P.Passes(run)
      ensures P.SameLoop(old(s), s) && s.calling == old(s).calling && old(names) <= names && made == old(made)
      ensures old(pendingFunctors) <= pendingFunctors
    {
      hide P.Reaches, P.Passes, StepsOf, ActSteps, OwingAfter, Valid;
      longer := run;
      assert acts[0..] == acts;
      for n := 0 to |acts|
        invariant Valid() && P.Reaches(longer, s)
        invariant longer + StepsOf(s.owing, acts[n..]) == run + StepsOf(old(s.owing), acts)
        invariant P.Passes(longer) == P.Passes(run)
        invariant P.SameLoop(old(s), s) && s.calling == old(s).calling && old(names) <= names && made == old(made)
        invariant old(pendingFunctors) <= pendingFunctors
      {
        StepsHead(longer, s.owing, acts, n);
        longer := Other(acts[n], longer);
      }
      StepsEnd(longer, s.owing, acts);
    }

    /** Lines 97-108 on the loop thread, inside a callback: only a push made while pending functors run
        needs a wakeup. */
    method QueueOnLoop(f: Functor, others: seq<Act>, ghost run: seq<P.Step>) returns (ghost longer: seq<P.Step>)
      requires Valid() && P.Reaches(run, s) && s.active && !s.loopOwes && s.budget > 0
      modifies this
      ensures Valid() && P.Reaches(longer, s) && run + [P.LoopPush] <= longer && old(names) + [f] <= names
      ensures P.SameLoop(old(s).(budget := old(s).budget - 1), s) && s.calling == old(s).calling
      ensures P.Passes(longer) == P.Passes(run) && made == old(made)
    {
      hide P.Reaches, P.Passes, StepsOf;
      P.ReachStep(run, s, P.LoopPush);
      Push(f);
      s := s.(budget := s.budget - 1, loopOwes := s.calling);
      longer := Others(others, run + [P.LoopPush]);
      if callingPendingFunctors {
        P.ReachStep(longer, s, P.LoopWakeup);
        wakeupEdge := true;
        s, longer := P.Apply(s, P.LoopWakeup), longer + [P.LoopWakeup];
      }
    }

    /** Lines 76-83 on the loop thread: a quit needs no wakeup. */
    method QuitOnLoop(others: seq<Act>, ghost run: seq<P.Step>) returns (ghost longer: seq<P.Step>)
      requires Valid() && P.Reaches(run, s) && s.active && !s.loopOwes && s.budget > 0
      modifies this
      ensures Valid() && P.Reaches(longer, s) && run + [P.LoopQuit] <= longer && old(names) <= names && quit
      ensures P.SameLoop(old(s).(budget := old(s).budget - 1), s) && s.calling == old(s).calling
      ensures P.Passes(longer) == P.Passes(run) && made == old(made)
    {
      hide P.Reaches, P.Passes, StepsOf;
      P.ReachStep(run, s, P.LoopQuit);
      quit := true;
      s, longer := P.Apply(s, P.LoopQuit), run + [P.LoopQuit];
      longer := Others(others, longer);
    }

    /** A call that a callback makes. */
    method LoopThreadCall(call: Call, others: seq<Act>, ghost run: seq<P.Step>) returns (ghost longer: seq<P.Step>)
      requires Valid() && P.Reaches(run, s) && s.active && !s.loopOwes && s.budget > 0
      modifies this
      ensures Valid() && P.Reaches(longer, s) && run <= longer && old(names) <= names
      ensures s.pc == old(s).pc && s.events == old(s).events && s.active && !s.loopOwes
      ensures s.budget == old(s).budget - 1 && s.batch == old(s).batch && s.executed == old(s).executed
      ensures s.calling == old(s).calling && P.Passes(longer) == P.Passes(run)
      ensures run + [if call.Queue? then P.LoopPush else P.LoopQuit] <= longer
      ensures if call.Queue? then old(names) + [call.f] <= names else quit
      ensures made == old(made) + [call]
    {
      hide P.Reaches, P.Passes, Valid;
      match call {
        case Queue(f) =>
          longer := QueueOnLoop(f, others, run);
        case QuitLoop =>
          longer := QuitOnLoop(others, run);
      }
      Note(call);
    }

    ghost method Note(call: Call)
      requires Valid()
      modifies this`made
      ensures Valid() && made == old(made) + [call]
    {
      made := made + [call];
    }

    /** A callback makes its calls, with the other threads running before the first and after each. */
    method RunCallback(calls: seq<Call>, others: nat -> seq<Act>, ghost run: seq<P.Step>)
      returns (ghost longer: seq<P.Step>)
      requires Valid() && P.Reaches(run, s) && s.active && !s.loopOwes && s.budget == |calls|
      modifies this
      ensures Valid() && P.Reaches(longer, s) && run <= longer && old(names) <= names
      ensures s.pc == old(s).pc && s.events == old(s).events && !s.active && !s.loopOwes
      ensures made == old(made) + calls
      ensures s.budget == 0 && P.Passes(longer) == P.Passes(run)
      ensures s.batch == old(s).batch && s.executed == old(s).executed && s.calling == old(s).calling
    {
      hide P.Reaches, P.Passes, StepsOf;
      longer := Others(others(0), run);
      for n := 0 to |calls|
        invariant Valid() && P.Reaches(longer, s) && run <= longer && old(names) <= names
        invariant s.pc == old(s).pc && s.events == old(s).events && s.active && !s.loopOwes
        invariant s.budget == |calls| - n && s.calling == old(s).calling && P.Passes(longer) == P.Passes(run)
        invariant s.batch == old(s).batch && s.executed == old(s).executed
        invariant made == old(made) + calls[..n]
      {
        longer := LoopThreadCall(calls[n], others(n + 1), longer);
      }
      P.ReachStep(longer, s, P.Return);
      s, longer := P.Apply(s, P.Return), longer + [P.Return];
    }

    /** Line 154, under the mutex. */
    method Swap(ghost run: seq<P.Step>) returns (functors: seq<Functor>, ghost longer: seq<P.Step>)
      requires Valid() && P.Reaches(run, s) && s.pc == P.Swapping
      modifies this`pendingFunctors, this`s
      ensures Valid() && P.Reaches(longer, s) && longer == run + [P.Swap] && P.Passes(longer) == P.Passes(run)
      ensures functors == old(pendingFunctors) && pendingFunctors == []
      ensures s == old(s).(pc := P.Running, batch := old(s).pending, pending := []) && Names(functors, s.batch)
    {
      hide P.Reaches, P.Passes;
      P.ReachStep(run, s, P.Swap);
      functors, pendingFunctors := pendingFunctors, [];
      s, longer := P.Apply(s, P.Swap), run + [P.Swap];
    }

    /** Lines 151-155: everything that is pending changes hands. */
    method SwapOut(others: seq<Act>, ghost run: seq<P.Step>) returns (functors: seq<Functor>, ghost longer: seq<P.Step>)
      requires Valid() && P.Reaches(run, s) && s.pc == P.Handling && !s.active && s.events == 0
      modifies this
      ensures Valid() && P.Reaches(longer, s) && run <= longer && old(names) <= names
      ensures s.pc == P.Running && !s.active && !s.loopOwes && s.executed == old(s).executed && made == old(made)
      ensures P.Passes(longer) == P.Passes(run)
      ensures old(pendingFunctors) <= functors && Names(functors, s.batch) && pendingFunctors == []
    {
      P.ReachedInv(run, s);
      hide P.Reaches, P.Passes, StepsOf;
      P.ReachStep(run, s, P.EnterPending);
      callingPendingFunctors := true;
      s, longer := P.Apply(s, P.EnterPending), run + [P.EnterPending];
      longer := Others(others, longer);
      functors, longer := Swap(longer);
    }

    /** Line 159. */
    method RunOne(calls: seq<Call>, others: nat -> seq<Act>, ghost run: seq<P.Step>) returns (ghost longer: seq<P.Step>)
      requires Valid() && P.Reaches(run, s) && s.pc == P.Running && !s.active && !s.loopOwes && s.batch != []
      modifies this
      ensures Valid() && P.Reaches(longer, s) && run <= longer && old(names) <= names
      ensures s.pc == P.Running && !s.active && !s.loopOwes && s.batch == old(s).batch[1..]
      ensures s.executed == old(s).executed + [old(s).batch[0]]
      ensures made == old(made) + calls && P.Passes(longer) == P.Passes(run)
    {
      hide P.Reaches, P.Passes;
      P.ReachStep(run, s, P.StartFunctor(|calls|));
      s, longer := P.Apply(s, P.StartFunctor(|calls|)), run + [P.StartFunctor(|calls|)];
      longer := RunCallback(calls, others, longer);
    }

    /** Line 161. */
    method EndPass(ghost run: seq<P.Step>) returns (ghost longer: seq<P.Step>)
      requires Valid() && P.Reaches(run, s) && s.pc == P.Running && !s.active && s.batch == []
      modifies this`callingPendingFunctors, this`s
      ensures Valid() && P.Reaches(longer, s) && longer == run + [P.EndPass] && P.Passes(longer) == P.Passes(run) + 1
      ensures s == old(s).(pc := P.Top, calling := false)
    {
      hide P.Reaches, P.Passes;
      P.ReachStep(run, s, P.EndPass);
      callingPendingFunctors := false;
      s, longer := P.Apply(s, P.EndPass), run + [P.EndPass];
    }

    /** Lines 157-161: the functors of the batch run, each once and in order. */
    method RunBatch(functors: seq<Functor>, code: Functor -> seq<Call>, others: nat -> nat -> seq<Act>,
                    ghost run: seq<P.Step>) returns (ghost longer: seq<P.Step>)
      requires Valid() && P.Reaches(run, s) && Names(functors, s.batch)
      requires s.pc == P.Running && !s.active && !s.loopOwes
      modifies this
      ensures Valid() && P.Reaches(longer, s) && run <= longer && old(names) <= names && s.pc == P.Top
      ensures made == old(made) + CodeOf(functors, code) && Names(functors, old(s).batch)
      ensures s.executed == old(s).executed + old(s).batch && P.Passes(longer) == P.Passes(run) + 1
    {
      assert |functors| == |s.batch|;
      FirstAndLast(made, functors, code, s.executed, s.batch);
      hide P.Reaches, P.Passes, StepsOf, CodeOf, Named, Valid, Upto, Done;
      longer := run;
      ghost var tickets := s.batch;
      for n := 0 to |functors|
        invariant Valid() && P.Reaches(longer, s) && run <= longer && old(names) <= names
        invariant s.pc == P.Running && !s.active && !s.loopOwes && s.batch == tickets[n..]
        invariant made == Upto(old(made), functors, code, n)
        invariant s.executed == Done(old(s).executed, tickets, n) && P.Passes(longer) == P.Passes(run)
      {
        OneMore(old(made), functors, code, n);
        OneTicket(old(s).executed, tickets, n);
        longer := RunOne(code(functors[n]), others(n), longer);
      }
      longer := EndPass(longer);
      NamedLater(old(names), names, functors, old(s).batch);
    }

    /** Lines 148-162: what was pending at the swap is run, each functor once and in order; what is
        pushed meanwhile stays for the next pass. `code` says what a functor does. */
    method DoPendingFunctors(code: Functor -> seq<Call>, others: nat -> nat -> seq<Act>, ghost run: seq<P.Step>)
      returns (ran: seq<Functor>, ghost tickets: seq<nat>, ghost longer: seq<P.Step>)
      requires Valid() && P.Reaches(run, s) && s.pc == P.Handling && !s.active && s.events == 0
      modifies this
      ensures Valid() && P.Reaches(longer, s) && run <= longer && s.pc == P.Top
      ensures P.Passes(longer) == P.Passes(run) + 1
      ensures s.executed == old(s).executed + tickets && Names(ran, tickets)
      ensures old(pendingFunctors) <= ran && old(names) <= names
      ensures made == old(made) + CodeOf(ran, code)
    {
      hide P.Reaches, P.Passes, CodeOf;
      ran, longer := SwapOut(others(0)(0), run);
      tickets := s.batch;
      longer := RunBatch(ran, code, (n: nat) => others(n + 1), longer);
    }

    /** Line 63: a poll ends, for this or another reason. */
    method PollEnds(reported: bool, ready: nat, ghost run: seq<P.Step>) returns (ghost longer: seq<P.Step>)
      requires Valid() && P.Reaches(run, s) && s.pc == P.Polling
      modifies this`wakeupEdge, this`s
      ensures Valid() && P.Reaches(longer, s) && P.Passes(longer) == P.Passes(run)
      ensures longer == run + [P.PollReturn(reported && old(wakeupEdge), ready)]
      ensures s == old(s).(pc := P.Handling, events := ready, edge := old(s).edge && !reported)
    {
      hide P.Reaches, P.Passes;
      var seen := reported && wakeupEdge;
      P.ReachStep(run, s, P.PollReturn(seen, ready));
      wakeupEdge := wakeupEdge && !seen;
      s, longer := P.Apply(s, P.PollReturn(seen, ready)), run + [P.PollReturn(seen, ready)];
    }

    /** Line 68: the callbacks of one channel. */
    method HandleOne(calls: seq<Call>, others: nat -> seq<Act>, ghost run: seq<P.Step>)
      returns (ghost longer: seq<P.Step>)
      requires Valid() && P.Reaches(run, s) && s.pc == P.Handling && !s.active && !s.loopOwes && s.events > 0
      modifies this
      ensures Valid() && P.Reaches(longer, s) && run <= longer && old(names) <= names
      ensures s.pc == P.Handling && !s.active && !s.loopOwes && s.events == old(s).events - 1
      ensures made == old(made) + calls && s.executed == old(s).executed && P.Passes(longer) == P.Passes(run)
    {
      hide P.Reaches, P.Passes;
      P.ReachStep(run, s, P.StartHandler(|calls|));
      s, longer := P.Apply(s, P.StartHandler(|calls|)), run + [P.StartHandler(|calls|)];
      longer := RunCallback(calls, others, longer);
    }

    /** Lines 63-69: a poll that ends, with or without the edge reported, and the callbacks of the
        channels it found. Each is given by the calls it makes. */
    method PollAndHandle(reported: bool, callbacks: seq<seq<Call>>, others: nat -> nat -> seq<Act>,
                         ghost run: seq<P.Step>) returns (ghost longer: seq<P.Step>)
      requires Valid() && P.Reaches(run, s) && s.pc == P.Polling && !s.active && !s.loopOwes
      modifies this
      ensures Valid() && P.Reaches(longer, s) && run <= longer && old(names) <= names
      ensures s.pc == P.Handling && !s.active && !s.loopOwes && s.events == 0
      ensures made == old(made) + Joined(callbacks) && s.executed == old(s).executed
      ensures run + [P.PollReturn(reported && old(wakeupEdge), |callbacks|)] <= longer
      ensures P.Passes(longer) == P.Passes(run)
    {
      hide P.Reaches, P.Passes, Valid, Joined;
      NoCalls(callbacks);
      longer := PollEnds(reported, |callbacks|, run);
      ghost var start := longer;
      for n := 0 to |callbacks|
        invariant Valid() && P.Reaches(longer, s) && start <= longer && old(names) <= names
        invariant s.pc == P.Handling && !s.active && !s.loopOwes && s.events == |callbacks| - n
        invariant made == old(made) + Joined(callbacks[..n]) && s.executed == old(s).executed
        invariant P.Passes(longer) == P.Passes(run)
      {
        JoinedSnoc(callbacks, n);
        longer := HandleOne(callbacks[n], others(n), longer);
      }
    }

    /** Line 60. */
    method TestQuit(others: seq<Act>, ghost run: seq<P.Step>) returns (go: bool, ghost longer: seq<P.Step>)
      requires Valid() && P.Reaches(run, s) && s.pc == P.Top
      modifies this
      ensures Valid() && P.Reaches(longer, s) && run <= longer && old(names) <= names
      ensures s.pc == if go then P.Polling else P.Stopped
      ensures !s.active && !s.loopOwes && (old(quit) ==> !go) && (!go ==> quit)
      ensures P.Passes(longer) == P.Passes(run) && made == old(made) && s.executed == old(s).executed
    {
      P.ReachedInv(run, s);
      hide P.Reaches, P.Passes, StepsOf;
      longer := Others(others, run);
      P.ReachStep(longer, s, P.TestQuit);
      go := !quit;
      s, longer := P.Apply(s, P.TestQuit), longer + [P.TestQuit];
    }

    /** Lines 62-71, with what the other threads do meanwhile. */
    method OnePass(code: Functor -> seq<Call>, poll: (bool, seq<seq<Call>>), others: Interference,
                   ghost run: seq<P.Step>)
      returns (ran: seq<Functor>, ghost tickets: seq<nat>, ghost longer: seq<P.Step>)
      requires Valid() && P.Reaches(run, s) && s.pc == P.Polling && !s.active && !s.loopOwes
      modifies this
      ensures Valid() && P.Reaches(longer, s) && run <= longer && old(names) <= names && s.pc == P.Top
      ensures P.Passes(longer) == P.Passes(run) + 1
      ensures made == old(made) + Joined(poll.1) + CodeOf(ran, code)
      ensures s.executed == old(s).executed + tickets && Names(ran, tickets)
    {
      hide P.Reaches, P.Passes, StepsOf, Joined, CodeOf, Valid;
      longer := Others(others.duringPoll, run);
      longer := PollAndHandle(poll.0, poll.1, others.duringEvents, longer);
      ran, tickets, longer := DoPendingFunctors(code, others.duringFunctors, longer);
    }

    /** Lines 58-59. */
    method Begin(ghost run: seq<P.Step>) returns (ghost longer: seq<P.Step>)
      requires Valid() && P.Reaches(run, s) && s.pc == P.NotStarted
      modifies this`quit, this`s
      ensures Valid() && P.Reaches(longer, s) && longer == run + [P.StartLoop] && P.Passes(longer) == P.Passes(run)
      ensures s == old(s).(pc := P.Top, quit := false)
    {
      hide P.Reaches, P.Passes;
      P.ReachStep(run, s, P.StartLoop);
      quit := false;
      s, longer := P.Apply(s, P.StartLoop), run + [P.StartLoop];
    }

    /** Lines 60-72, once. */
    method TestAndPass(code: Functor -> seq<Call>, poll: (bool, seq<seq<Call>>), others: Interference,
                       ghost run: seq<P.Step>)
      returns (go: bool, ran: seq<Functor>, ghost tickets: seq<nat>, ghost longer: seq<P.Step>)
      requires Valid() && P.Reaches(run, s) && s.pc == P.Top
      modifies this
      ensures Valid() && P.Reaches(longer, s) && run <= longer && old(names) <= names
      ensures old(quit) ==> !go
      ensures if go
              then s.pc == P.Top && P.Passes(longer) == P.Passes(run) + 1
                   && made == old(made) + Joined(poll.1) + CodeOf(ran, code)
                   && s.executed == old(s).executed + tickets && Named(names, ran, tickets)
              else s.pc == P.Stopped && quit && P.Passes(longer) == P.Passes(run)
                   && made == old(made) && s.executed == old(s).executed
    {
      hide P.Reaches, P.Passes, StepsOf, Joined, CodeOf, Named, Valid;
      ran, tickets := [], [];
      go, longer := TestQuit(others.beforeTest, run);
      if go {
        ran, tickets, longer := OnePass(code, poll, others, longer);
      }
    }

    /** Lines 54-74, up to a number of passes, under any behaviour of the other threads and any outcome
        of the polls: what the code does is a run of the protocol, with that many passes unless the loop
        is told to quit. */
    method Loop(code: Functor -> seq<Call>, polls: nat -> (bool, seq<seq<Call>>), others: nat -> Interference,
                passes: nat, ghost run: seq<P.Step>)
      returns (ghost rans: seq<seq<Functor>>, ghost tickets: seq<nat>, ghost longer: seq<P.Step>)
      requires Valid() && P.Reaches(run, s) && s.pc == P.NotStarted
      modifies this
      ensures Valid() && P.Reaches(longer, s) && run <= longer
      ensures if s.pc == P.Top then P.Passes(longer) == P.Passes(run) + passes
              else s.pc == P.Stopped && quit && P.Passes(longer) < P.Passes(run) + passes
      ensures P.Passes(longer) == P.Passes(run) + |rans| && made == old(made) + History(polls, code, rans)
      ensures s.executed == old(s).executed + tickets && Names(Concat(rans), tickets)
    {
      hide P.Reaches, P.Passes, StepsOf, History, Concat, Joined, CodeOf, Named, Valid;
      NoPasses(polls, code);
      NamedNone(names);
      rans, tickets := [], [];
      longer := Begin(run);
      for n := 0 to passes
        invariant Valid() && P.Reaches(longer, s) && run <= longer && s.pc == P.Top
        invariant P.Passes(longer) == P.Passes(run) + n && |rans| == n
        invariant made == old(made) + History(polls, code, rans)
        invariant s.executed == old(s).executed + tickets && Named(names, Concat(rans), tickets)
      {
        var go, ran;
        ghost var more: seq<nat>;
        ghost var before := names;
        go, ran, more, longer := TestAndPass(code, polls(n), others(n), longer);
        if !go {
          NamedLater(before, names, Concat(rans), tickets);
          return;
        }
        PassSnoc(polls, code, rans, ran);
        NamedMore(before, names, Concat(rans), tickets, ran, more);
        rans, tickets := rans + [ran], tickets + more;
      }
    }
  }

  /** These are the functors behind these tickets. */
  ghost predicate Named(names: seq<Functor>, fs: seq<Functor>, tickets: seq<nat>) {
    |fs| == |tickets| && forall i :: 0 <= i < |fs| ==> tickets[i] < |names| && names[tickets[i]] == fs[i]
  }

  /** The calls made before, and those of the first functors. */
  function Upto(before: seq<Call>, fs: seq<Functor>, code: Functor -> seq<Call>, n: nat): seq<Call>
    requires n <= |fs|
  {
    before + CodeOf(fs[..n], code)
  }

  function Done(before: seq<nat>, tickets: seq<nat>, n: nat): seq<nat>
    requires n <= |tickets|
  {
    before + tickets[..n]
  }

  lemma FirstAndLast(made: seq<Call>, fs: seq<Functor>, code: Functor -> seq<Call>,
                     executed: seq<nat>, tickets: seq<nat>)
    ensures Upto(made, fs, code, 0) == made && Upto(made, fs, code, |fs|) == made + CodeOf(fs, code)
    ensures Done(executed, tickets, 0) == executed && Done(executed, tickets, |tickets|) == executed + tickets
    ensures tickets[0..] == tickets && tickets[|tickets|..] == []
  {
    NoCode(fs, code);
    assert tickets[..|tickets|] == tickets;
  }

  lemma OneMore(before: seq<Call>, fs: seq<Functor>, code: Functor -> seq<Call>, n: nat)
    requires n < |fs|
    ensures Upto(before, fs, code, n + 1) == Upto(before, fs, code, n) + code(fs[n])
  {
    CodeSnoc(fs, code, n);
  }

  lemma OneTicket(before: seq<nat>, tickets: seq<nat>, n: nat)
    requires n < |tickets|
    ensures tickets[n..] != [] && tickets[n..][0] == tickets[n] && tickets[n..][1..] == tickets[n + 1..]
    ensures Done(before, tickets, n + 1) == Done(before, tickets, n) + [tickets[n]]
  {
    assert tickets[..n + 1] == tickets[..n] + [tickets[n]];
  }

  lemma NamedNone(names: seq<Functor>)
    ensures Named(names, [], [])
  {
  }

  lemma NamedLater(names: seq<Functor>, later: seq<Functor>, fs: seq<Functor>, tickets: seq<nat>)
    requires names <= later && Named(names, fs, tickets)
    ensures Named(later, fs, tickets)
  {
  }

  lemma NamedMore(names: seq<Functor>, later: seq<Functor>, fs: seq<Functor>, tickets: seq<nat>,
                  gs: seq<Functor>, more: seq<nat>)
    requires names <= later && Named(names, fs, tickets) && Named(later, gs, more)
    ensures Named(later, fs + gs, tickets + more)
  {
  }

  lemma NoPasses(polls: nat -> (bool, seq<seq<Call>>), code: Functor -> seq<Call>)
    ensures History(polls, code, []) == [] && Concat([]) == []
  {
  }
}
