/** `CountDownLatch` (deon/base/CountDownLatch.cpp) as steps of its threads. A condition variable is a
    set of sleepers; any of them may be woken at any time, and tests again under the mutex. */
module CountDownLatch {

  datatype State = State(count: int, asleep: set<nat>, awake: set<nat>, through: set<nat>)

  datatype Step =
    | Enter(t: nat)      // take the mutex and test
    | Spurious(t: nat)   // a wakeup for no reason
    | Retest(t: nat)     // back in the loop, with the mutex
    | CountDown

  predicate Enabled(s: State, step: Step) {
    match step
    case Enter(t) => t !in s.asleep + s.awake + s.through
    case Spurious(t) => t in s.asleep
    case Retest(t) => t in s.awake
    case CountDown => true
  }

  /** `while (count_ > 0) condition_.wait();` from its test to the next wait or the end. */
  function Test(s: State, t: nat): State {
    if s.count > 0 then s.(asleep := s.asleep + {t}) else s.(through := s.through + {t})
  }

  /** Only the count-down that reaches zero notifies. */
  function Apply(s: State, step: Step): State {
    match step
    case Enter(t) => Test(s, t)
    case Spurious(t) => s.(asleep := s.asleep - {t}, awake := s.awake + {t})
    case Retest(t) => Test(s.(awake := s.awake - {t}), t)
    case CountDown =>
      var down := s.(count := s.count - 1);
      if down.count == 0 then down.(asleep := {}, awake := s.awake + s.asleep) else down
  }

  predicate Feasible(s: State, steps: seq<Step>)
    decreases |steps|
  {
    steps == [] || (Enabled(s, steps[0]) && Feasible(Apply(s, steps[0]), steps[1..]))
  }

  function After(s: State, steps: seq<Step>): State
    requires Feasible(s, steps)
    decreases |steps|
  {
    if steps == [] then s else After(Apply(s, steps[0]), steps[1..])
  }

  function CountDowns(steps: seq<Step>): nat {
    if steps == [] then 0 else (if steps[0] == CountDown then 1 else 0) + CountDowns(steps[1..])
  }

  predicate Inv(s: State) {
    (s.asleep != {} ==> s.count > 0) && (s.through != {} ==> s.count <= 0)
  }

  lemma {:induction false} RunKeepsInv(s: State, steps: seq<Step>)
    requires Inv(s) && Feasible(s, steps)
    ensures Inv(After(s, steps)) && After(s, steps).count == s.count - CountDowns(steps)
    decreases |steps|
  {
    if steps != [] {
      RunKeepsInv(Apply(s, steps[0]), steps[1..]);
    }
  }

  /** Nobody returns from `wait` before the n count-downs have been made, and nobody is asleep after
      them, whatever the interleaving and however often threads are woken for no reason. */
  lemma WaitIsExact(n: nat, steps: seq<Step>)
    requires Feasible(State(n, {}, {}, {}), steps)
    ensures var s := After(State(n, {}, {}, {}), steps);
      (s.through != {} ==> CountDowns(steps) >= n) && (s.asleep != {} ==> CountDowns(steps) < n)
  {
    RunKeepsInv(State(n, {}, {}, {}), steps);
  }

  /** A thread that tests gets through if and only if the count is down, and sleeps otherwise. */
  lemma TestMeans(s: State, step: Step)
    requires Enabled(s, step) && (step.Enter? || step.Retest?)
    ensures step.t in Apply(s, step).through <==> s.count <= 0 || step.t in s.through
    ensures s.count > 0 ==> step.t in Apply(s, step).asleep
  {
  }

  /** Once the n count-downs have been made, every thread is through or its own next step gets it through, so
      nobody is kept waiting for anybody else. */
  lemma EverybodyGetsThrough(n: nat, steps: seq<Step>, t: nat) returns (step: Step)
    requires Feasible(State(n, {}, {}, {}), steps) && CountDowns(steps) >= n
    ensures var s := After(State(n, {}, {}, {}), steps);
      t in s.through || (Enabled(s, step) && (step == Enter(t) || step == Retest(t)) && t in Apply(s, step).through)
  {
    RunKeepsInv(State(n, {}, {}, {}), steps);
    var s := After(State(n, {}, {}, {}), steps);
    step := if t in s.awake then Retest(t) else Enter(t);
  }
}

/** `startLoop` against `threadFunc` (deon/net/EventLoopThread.cpp 23-46). The loop is an object on the
    stack of the new thread: its address is published under the mutex, taken back when the loop has
    ended, and read once more without the mutex for the return. */
module LoopStart {

  datatype Starter = Locking | Asleep | Awake | Leaving | Returned(loopIsThere: bool)
  datatype Worker = Constructing | Looping | Ended

  datatype State = State(starter: Starter, worker: Worker, published: bool)   // published: loop_ is not null

  datatype Step = Lock | Spurious | Retest | ReadLoop | Publish | TakeBack

  const INITIAL := State(Locking, Constructing, false)

  /** A loop only ends when it is told to, and only the caller of `startLoop` has its address. With
      `early` it may end before that. */
  predicate Enabled(s: State, step: Step, early: bool) {
    match step
    case Lock => s.starter == Locking
    case Spurious => s.starter == Asleep
    case Retest => s.starter == Awake
    case ReadLoop => s.starter == Leaving
    case Publish => s.worker == Constructing
    case TakeBack => s.worker == Looping && (early || s.starter.Returned?)
  }

  function Apply(s: State, step: Step): State {
    match step
    case Lock => s.(starter := if s.published then Leaving else Asleep)
    case Spurious => s.(starter := Awake)
    case Retest => s.(starter := if s.published then Leaving else Asleep)
    case ReadLoop => s.(starter := Returned(s.published))
    case Publish =>
      s.(worker := Looping, published := true, starter := if s.starter == Asleep then Awake else s.starter)
    case TakeBack => s.(worker := Ended, published := false)
  }

  predicate Feasible(s: State, steps: seq<Step>, early: bool)
    decreases |steps|
  {
    steps == [] || (Enabled(s, steps[0], early) && Feasible(Apply(s, steps[0]), steps[1..], early))
  }

  function After(s: State, steps: seq<Step>): State
    decreases |steps|
  {
    if steps == [] then s else After(Apply(s, steps[0]), steps[1..])
  }

  /** The starter is through only after the publication, and not asleep while the address is out. */
  predicate Inv(s: State, early: bool) {
    && (s.published <==> s.worker == Looping)
    && (s.starter == Leaving || s.starter.Returned? ==> s.worker != Constructing)
    && (s.starter == Asleep ==> !s.published)
    && (!early ==> (s.worker == Ended ==> s.starter.Returned?) && s.starter != Returned(false))
  }

  lemma {:induction false} RunKeepsInv(s: State, steps: seq<Step>, early: bool)
    requires Inv(s, early) && Feasible(s, steps, early)
    ensures Inv(After(s, steps), early)
    decreases |steps|
  {
    if steps != [] {
      RunKeepsInv(Apply(s, steps[0]), steps[1..], early);
    }
  }

  /** Whatever the interleaving, `startLoop` leaves its wait only after the publication. As long as no
      loop ends before its address is out, the starter does not sleep once the loop is there and what it
      returns is not null. */
  lemma StartReturnsLoop(steps: seq<Step>, early: bool)
    requires Feasible(INITIAL, steps, early)
    ensures var s := After(INITIAL, steps);
      && (s.starter == Leaving || s.starter.Returned? ==> Publish in steps)
      && (!early && s.starter == Asleep ==> Publish !in steps)
      && (!early && s.starter.Returned? ==> s.starter.loopIsThere)
  {
    RunKeepsInv(INITIAL, steps, early);
    WorkerMoves(INITIAL, steps, early);
  }

  /** Once the loop is there, and as long as it does not end early, the starter's own steps bring it to its return
      with the address. */
  lemma StarterReturns(steps: seq<Step>) returns (more: seq<Step>)
    requires Feasible(INITIAL, steps, false) && Publish in steps
    ensures |more| <= 2 && forall i :: 0 <= i < |more| ==> more[i] in {Lock, Retest, ReadLoop}
    ensures var s := After(INITIAL, steps);
      Feasible(s, more, false) && After(s, more).starter == Returned(true)
  {
    RunKeepsInv(INITIAL, steps, false);
    WorkerMoves(INITIAL, steps, false);
    var s := After(INITIAL, steps);
    match s.starter
    case Locking =>
      more := [Lock, ReadLoop];
      assert more[1..] == [ReadLoop] && more[1..][1..] == [];
    case Awake =>
      more := [Retest, ReadLoop];
      assert more[1..] == [ReadLoop] && more[1..][1..] == [];
    case Leaving =>
      more := [ReadLoop];
      assert more[1..] == [];
    case Returned(_) => more := [];
    case Asleep => more := [];
  }

  lemma {:induction false} WorkerMoves(s: State, steps: seq<Step>, early: bool)
    requires Feasible(s, steps, early)
    ensures s.worker == Constructing ==> (After(s, steps).worker == Constructing <==> Publish !in steps)
    ensures s.worker != Constructing ==> After(s, steps).worker != Constructing
    decreases |steps|
  {
    if steps != [] {
      WorkerMoves(Apply(s, steps[0]), steps[1..], early);
      assert steps == [steps[0]] + steps[1..];
    }
  }

  /** A loop that ended early would leave the starter asleep for good: no wakeup, for whatever reason,
      gets it out of the loop around the wait. */
  lemma {:induction false} EarlyEndHangs(s: State, steps: seq<Step>)
    requires s.worker == Ended && !s.published && (s.starter == Asleep || s.starter == Awake)
    requires Feasible(s, steps, true)
    ensures var t := After(s, steps); t.worker == Ended && (t.starter == Asleep || t.starter == Awake)
    decreases |steps|
  {
    if steps != [] {
      EarlyEndHangs(Apply(s, steps[0]), steps[1..]);
    }
  }

  /** Such states are reached when the loop ends between the publication and the starter's next test, and
      a null pointer is returned when it ends between the test and the return. */
  lemma EarlyEndIsReached()
    ensures var hang := [Lock, Publish, TakeBack];
      Feasible(INITIAL, hang, true) && After(INITIAL, hang) == State(Awake, Ended, false)
    ensures var nul := [Publish, Lock, TakeBack, ReadLoop];
      Feasible(INITIAL, nul, true) && After(INITIAL, nul) == State(Returned(false), Ended, false)
  {
    var hang, nul := [Lock, Publish, TakeBack], [Publish, Lock, TakeBack, ReadLoop];
    assert hang[1..] == [Publish, TakeBack] && hang[1..][1..] == [TakeBack] && hang[1..][1..][1..] == [];
    assert nul[1..] == [Lock, TakeBack, ReadLoop] && nul[1..][1..] == [TakeBack, ReadLoop];
    assert nul[1..][1..][1..] == [ReadLoop] && nul[1..][1..][1..][1..] == [];
  }
}
