/** The buffer-swap protocol of deon/base/AsyncLogging.cpp as atomic steps of its threads: any number
    of producers inside `append`, one writer inside `threadFunc`, and a thread that calls `stop`.

    A buffer is the list of the records in it. A record carries the position at which the mutex let
    it in, so a statement about records says which messages are meant and in which order. */
module LogProtocol {
  import opened LogStream

  const CAPACITY := LARGE_BUFFER
  const BACKLOG_LIMIT := 25

  datatype Option<+T> = None | Some(value: T)

  datatype Record = Record(id: nat, text: string)

  type Buffer = seq<Record>

  /** What the mutex guards, and `running_`. */
  datatype Front = Front(
    running: bool,
    current: Buffer,
    next: Option<Buffer>,
    queue: seq<Buffer>,
    accepted: seq<Record>)        // history: every record let in, in mutex order

  /** Where the writer thread is; the numbers are lines of `threadFunc`. */
  datatype WriterPc =
    | AtLoop          // about to read running_ (64)
    | AtLock          // about to take the mutex (71)
    | Asleep          // inside waitForSeconds (76)
    | Swapped         // mutex released, batch in hand (88)
    | Writing         // inside the write loop (97)
    | Finished        // left the loop (129)

  /** The writer's locals. */
  datatype Writer = Writer(
    pc: WriterPc,
    spare1: Option<Buffer>,
    spare2: Option<Buffer>,
    batch: seq<Buffer>,
    written: nat,                 // how many buffers of the batch are on file
    file: Buffer,                 // the records on file
    lost: set<nat>,               // history: ids of records cut out of a batch
    collected: nat)               // history: how many records had been let in when the last batch was taken

  datatype State = State(f: Front, w: Writer)

  datatype Step =
    | Append(text: string)
    | Stop
    | EnterLoop
    | Sleep
    | Collect
    | Truncate
    | WriteOne
    | Recycle

  // ---------- records ----------

  function Flat(bs: seq<Buffer>): Buffer {
    if bs == [] then [] else bs[0] + Flat(bs[1..])
  }

  function Bytes(b: Buffer): string {
    if b == [] then "" else Bytes(b[..|b| - 1]) + b[|b| - 1].text
  }

  function Ids(b: Buffer): set<nat> {
    set k | 0 <= k < |b| :: b[k].id
  }

  /** The records whose ids are not in `cut`, in order. */
  function Without(b: Buffer, cut: set<nat>): Buffer {
    if b == [] then []
    else Without(b[..|b| - 1], cut) + (if b[|b| - 1].id in cut then [] else [b[|b| - 1]])
  }

  function SizeOf(b: Option<Buffer>): nat {
    if b.None? then 0 else 1
  }

  // ---------- the steps ----------

  const INITIAL_FRONT := Front(true, [], Some([]), [], [])
  const INITIAL_WRITER := Writer(AtLoop, Some([]), Some([]), [], 0, [], {}, 0)
  const INITIAL := State(INITIAL_FRONT, INITIAL_WRITER)

  predicate Enabled(s: State, step: Step) {
    match step
    case Append(_) => true
    case Stop => true
    case EnterLoop => s.w.pc == AtLoop
    case Sleep => s.w.pc == AtLock && s.f.queue == []
    // The wait is not in a loop: a notify, a timeout and a spurious wakeup all end it.
    case Collect => (s.w.pc == AtLock && s.f.queue != []) || s.w.pc == Asleep
    case Truncate => s.w.pc == Swapped
    case WriteOne => s.w.pc == Writing && s.w.written < |s.w.batch|
    case Recycle => s.w.pc == Writing && s.w.written == |s.w.batch|
  }

  /** FixedBuffer::append, which drops a text the buffer has no room for. */
  function Fill(b: Buffer, r: Record): Buffer {
    if CAPACITY - |Bytes(b)| > |r.text| then b + [r] else b
  }

  /** Lines 35-41: the current buffer joins the queue and an empty one takes its place. */
  function Rotate(f: Front): Front {
    f.(queue := f.queue + [f.current],
       current := if f.next.Some? then f.next.value else [],
       next := None)
  }

  function PutRecord(f: Front, text: string): Front {
    var r := Record(|f.accepted|, text);
    f.(current := Fill(f.current, r),
       accepted := if |text| < CAPACITY then f.accepted + [r] else f.accepted)
  }

  /** Lines 26-46. A text that does not fit into an empty buffer is dropped, after it has forced a
      rotation all the same. */
  function DoAppend(f: Front, text: string): Front {
    PutRecord(if CAPACITY - |Bytes(f.current)| > |text| then f else Rotate(f), text)
  }

  /** Lines 78-81 for the front: everything queued and the current buffer go, a spare comes in. */
  function LeaveQueue(f: Front): Front {
    f.(current := [], queue := [])
  }

  /** Lines 78-81. The batch is empty before the swap and the spare is an empty buffer. */
  function TakeQueue(s: State): State {
    State(LeaveQueue(s.f),
          s.w.(pc := Swapped, batch := s.f.queue + [s.f.current], spare1 := None, collected := |s.f.accepted|))
  }

  /** Lines 82-85. */
  function RefillNext(s: State): State {
    if s.f.next.None? then State(s.f.(next := s.w.spare2), s.w.(spare2 := None)) else s
  }

  function DoCollect(s: State): State {
    RefillNext(TakeQueue(s))
  }

  /** Lines 91-94: all but the first two buffers of an overlong batch are thrown away. */
  function DoTruncate(w: Writer): Writer {
    if |w.batch| > BACKLOG_LIMIT
    then w.(pc := Writing, written := 0, batch := w.batch[..2], lost := w.lost + Ids(Flat(w.batch[2..])))
    else w.(pc := Writing, written := 0)
  }

  function DoWriteOne(w: Writer): Writer
    requires w.written < |w.batch|
  {
    w.(file := w.file + w.batch[w.written], written := w.written + 1)
  }

  /** Lines 102-125: the spares that were given away are refilled from the back of what is left of
      the batch, and the rest of it is freed. */
  function DoRecycle(w: Writer): Writer {
    w.(pc := AtLoop, batch := [], written := 0,
       spare1 := if w.spare1.None? then Some([]) else w.spare1,
       spare2 := if w.spare2.None? then Some([]) else w.spare2)
  }

  /** The asserts the writer passes with a step (66-68, 88, and one buffer left for each spare at 111
      and 119), and what the swap at 78-85 relies on. */
  predicate AssertsHold(s: State, step: Step) {
    match step
    case EnterLoop => s.f.running ==> s.w.spare1 == Some([]) && s.w.spare2 == Some([]) && s.w.batch == []
    case Collect => s.w.spare1 == Some([]) && s.w.batch == [] && (s.f.next.None? ==> s.w.spare2 == Some([]))
    case Truncate => s.w.batch != []
    case Recycle => |s.w.batch| >= 2 - SizeOf(s.w.spare1) - SizeOf(s.w.spare2)
    case _ => true
  }

  function Apply(s: State, step: Step): State
    requires Enabled(s, step) && AssertsHold(s, step)
  {
    match step
    case Append(text) => s.(f := DoAppend(s.f, text))
    case Stop => s.(f := s.f.(running := false))
    case EnterLoop => s.(w := s.w.(pc := if s.f.running then AtLock else Finished))
    case Sleep => s.(w := s.w.(pc := Asleep))
    case Collect => DoCollect(s)
    case Truncate => s.(w := DoTruncate(s.w))
    case WriteOne => s.(w := DoWriteOne(s.w))
    case Recycle => s.(w := DoRecycle(s.w))
  }

  // ---------- the invariant ----------

  predicate HoldsBatch(pc: WriterPc) {
    pc == Swapped || pc == Writing
  }

  predicate FrontInPlace(f: Front) {
    && (f.next.None? <==> f.queue != [])
    && (f.next.Some? ==> f.next.value == [])
    && |Bytes(f.current)| < CAPACITY
  }

  predicate WriterInPlace(w: Writer) {
    && (w.spare1.Some? ==> w.spare1.value == [])
    && (w.spare2.Some? ==> w.spare2.value == [])
    && w.written <= |w.batch|
    && (w.pc == Swapped ==> w.written == 0)
    && if HoldsBatch(w.pc)
       then w.spare1.None? && w.batch != [] && (w.spare2.None? ==> |w.batch| >= 2)
       else w.spare1.Some? && w.spare2.Some? && w.batch == [] && w.written == 0
  }

  /** The records of the batches taken so far that are on file or about to be written. */
  function Taken(w: Writer): Buffer
    requires w.written <= |w.batch|
  {
    w.file + Flat(w.batch[w.written..])
  }

  /** The records no batch has taken yet. */
  function Recent(f: Front): Buffer {
    Flat(f.queue) + f.current
  }

  predicate Numbered(accepted: seq<Record>) {
    forall k :: 0 <= k < |accepted| ==> accepted[k].id == k
  }

  /** What was accepted before the last batch was taken is on file, about to be written or lost. */
  predicate EarlyInPlace(w: Writer, early: Buffer) {
    && WriterInPlace(w)
    && |early| == w.collected
    && Numbered(early)
    && (forall n :: n in w.lost ==> n < w.collected)
    && Taken(w) == Without(early, w.lost)
  }

  predicate Inv(s: State) {
    && s.w.collected <= |s.f.accepted|
    && FrontInPlace(s.f)
    && Numbered(s.f.accepted)
    && Recent(s.f) == s.f.accepted[s.w.collected..]
    && EarlyInPlace(s.w, s.f.accepted[..s.w.collected])
  }

  // ---------- lemmas about records ----------

  lemma {:induction false} FlatConcat(a: seq<Buffer>, b: seq<Buffer>)
    ensures Flat(a + b) == Flat(a) + Flat(b)
    decreases |a|
  {
    if a == [] {
      assert a + b == b;
    } else {
      assert (a + b)[1..] == a[1..] + b;
      FlatConcat(a[1..], b);
    }
  }

  lemma FlatSnoc(a: seq<Buffer>, b: Buffer)
    ensures Flat(a + [b]) == Flat(a) + b
  {
    FlatConcat(a, [b]);
    assert Flat([b]) == b + Flat([]) == b;
  }

  lemma BytesSnoc(b: Buffer, r: Record)
    ensures Bytes(b + [r]) == Bytes(b) + r.text
  {
    assert (b + [r])[..|b + [r]| - 1] == b;
  }

  lemma FillBytes(b: Buffer, r: Record)
    ensures Bytes(Fill(b, r)) == Bytes(b) + if CAPACITY - |Bytes(b)| > |r.text| then r.text else ""
  {
    BytesSnoc(b, r);
    assert Bytes(b) + "" == Bytes(b);
  }

  lemma {:induction false} BytesConcat(a: Buffer, b: Buffer)
    ensures Bytes(a + b) == Bytes(a) + Bytes(b)
    decreases |b|
  {
    if b == [] {
      assert a + b == a;
    } else {
      assert (a + b)[..|a + b| - 1] == a + b[..|b| - 1];
      BytesConcat(a, b[..|b| - 1]);
    }
  }

  lemma {:induction false} WithoutConcat(a: Buffer, b: Buffer, cut: set<nat>)
    ensures Without(a + b, cut) == Without(a, cut) + Without(b, cut)
    decreases |b|
  {
    if b == [] {
      assert a + b == a;
    } else {
      assert (a + b)[..|a + b| - 1] == a + b[..|b| - 1];
      WithoutConcat(a, b[..|b| - 1], cut);
    }
  }

  lemma {:induction false} WithoutTwice(b: Buffer, cut: set<nat>, more: set<nat>)
    ensures Without(Without(b, cut), more) == Without(b, cut + more)
    decreases |b|
  {
    if b != [] {
      var init, last := b[..|b| - 1], b[|b| - 1];
      WithoutTwice(init, cut, more);
      WithoutConcat(Without(init, cut), if last.id in cut then [] else [last], more);
      assert Without([last], more) == if last.id in more then [] else [last];
    }
  }

  lemma {:induction false} WithoutNone(b: Buffer, cut: set<nat>)
    requires forall k :: 0 <= k < |b| ==> b[k].id !in cut
    ensures Without(b, cut) == b
    decreases |b|
  {
    if b != [] { WithoutNone(b[..|b| - 1], cut); }
  }

  lemma {:induction false} WithoutAll(b: Buffer, cut: set<nat>)
    requires forall k :: 0 <= k < |b| ==> b[k].id in cut
    ensures Without(b, cut) == []
    decreases |b|
  {
    if b != [] { WithoutAll(b[..|b| - 1], cut); }
  }

  predicate Increasing(b: Buffer) {
    forall i, j :: 0 <= i < j < |b| ==> b[i].id < b[j].id
  }

  lemma {:induction false} WithoutIncreasing(b: Buffer, cut: set<nat>)
    requires Increasing(b)
    ensures Increasing(Without(b, cut))
    ensures forall k :: 0 <= k < |Without(b, cut)| ==> Without(b, cut)[k] in b
    decreases |b|
  {
    if b != [] {
      WithoutIncreasing(b[..|b| - 1], cut);
    }
  }

  /** Cutting the tail off an increasing list removes exactly its records. */
  lemma WithoutTail(x: Buffer, y: Buffer)
    requires Increasing(x + y)
    ensures Without(x + y, Ids(y)) == x
  {
    forall k | 0 <= k < |x| ensures x[k].id !in Ids(y) {
      assert (x + y)[k] == x[k];
      assert forall j :: 0 <= j < |y| ==> (x + y)[|x| + j] == y[j];
    }
    WithoutNone(x, Ids(y));
    WithoutAll(y, Ids(y));
    WithoutConcat(x, y, Ids(y));
  }

  // ---------- every step keeps the invariant ----------

  lemma RotateInPlace(f: Front)
    requires FrontInPlace(f)
    ensures FrontInPlace(Rotate(f)) && Rotate(f).current == [] && Recent(Rotate(f)) == Recent(f)
  {
    FlatSnoc(f.queue, f.current);
    assert Bytes([]) == "";
  }

  /** A record that is let in becomes the newest one; a text that is not leaves no trace. */
  lemma PutRecordAddsNewest(f: Front, text: string)
    requires FrontInPlace(f)
    requires CAPACITY - |Bytes(f.current)| > |text| || f.current == []
    ensures FrontInPlace(PutRecord(f, text))
    ensures Recent(PutRecord(f, text)) == Recent(f) + if |text| < CAPACITY then [Record(|f.accepted|, text)] else []
  {
    BytesSnoc(f.current, Record(|f.accepted|, text));
    assert Bytes([]) == "";
  }

  lemma AppendAddsNewest(f: Front, text: string)
    requires FrontInPlace(f)
    ensures FrontInPlace(DoAppend(f, text))
    ensures Recent(DoAppend(f, text)) == Recent(f) + if |text| < CAPACITY then [Record(|f.accepted|, text)] else []
  {
    if CAPACITY - |Bytes(f.current)| > |text| {
      PutRecordAddsNewest(f, text);
    } else {
      RotateInPlace(f);
      PutRecordAddsNewest(Rotate(f), text);
    }
  }

  /** A text that leaves a character of the current buffer free goes there, and nothing else changes. Any other
      sends exactly the current buffer to the queue, and goes into an empty one if it fits there. */
  lemma AppendRotatesExactly(f: Front, text: string)
    requires FrontInPlace(f)
    ensures var g, r := DoAppend(f, text), Record(|f.accepted|, text);
      if |Bytes(f.current)| + |text| < 4_000_000
      then g.queue == f.queue && g.next == f.next && g.current == f.current + [r] && g.accepted == f.accepted + [r]
      else
        && g.queue == f.queue + [f.current] && g.next == None
        && g.current == (if |text| < 4_000_000 then [r] else [])
        && g.accepted == f.accepted + g.current
  {
    assert Bytes([]) == "";
    hide Bytes;
    assert [] + [Record(|f.accepted|, text)] == [Record(|f.accepted|, text)];
    assert f.accepted + [] == f.accepted;
  }

  lemma AppendKeepsInv(s: State, text: string)
    requires Inv(s)
    ensures Inv(s.(f := DoAppend(s.f, text)))
  {
    var r, n := Record(|s.f.accepted|, text), s.w.collected;
    AppendAddsNewest(s.f, text);
    AppendAccepts(s.f, text);
    SnocSlices(s.f.accepted, r, n);
    hide DoAppend, FrontInPlace, EarlyInPlace, Recent, Without, Flat, Bytes;
    assert s.f.accepted[n..] + [] == s.f.accepted[n..];
  }

  lemma AppendAccepts(f: Front, text: string)
    ensures DoAppend(f, text).accepted == f.accepted + if |text| < CAPACITY then [Record(|f.accepted|, text)] else []
  {
    hide Bytes, Fill;
  }

  lemma SnocSlices(b: Buffer, r: Record, n: nat)
    requires n <= |b|
    ensures (b + [r])[..n] == b[..n] && (b + [r])[n..] == b[n..] + [r]
  {
  }

  lemma WrittenInBatch(s: State)
    requires Inv(s)
    ensures s.w.written <= |s.w.batch|
  {
  }

  /** The accepted stream without the lost messages is what was taken followed by what is recent. */
  lemma StreamSplits(s: State)
    requires Inv(s)
    ensures Without(s.f.accepted, s.w.lost) == Taken(s.w) + Recent(s.f)
  {
    var n := s.w.collected;
    assert s.f.accepted == s.f.accepted[..n] + s.f.accepted[n..];
    WithoutConcat(s.f.accepted[..n], s.f.accepted[n..], s.w.lost);
    WithoutNone(s.f.accepted[n..], s.w.lost);
  }

  /** A batch takes everything that is recent. */
  lemma CollectTakesRecent(s: State)
    requires Inv(s) && Enabled(s, Collect)
    ensures Taken(DoCollect(s).w) == Taken(s.w) + Recent(s.f) && Recent(DoCollect(s).f) == []
  {
    FlatSnoc(s.f.queue, s.f.current);
    var batch := s.f.queue + [s.f.current];
    assert batch[0..] == batch;
    assert s.w.batch[s.w.written..] == [];
  }

  lemma CollectKeepsInv(s: State)
    requires Inv(s) && Enabled(s, Collect)
    ensures Inv(DoCollect(s))
  {
    StreamSplits(s);
    CollectTakesRecent(s);
    assert s.f.accepted[..|s.f.accepted|] == s.f.accepted;
    assert Bytes([]) == "";
  }

  /** Exactly the records of the third and later buffers are given up, whole and once. */
  lemma TruncateCutsTail(w: Writer)
    requires WriterInPlace(w) && w.pc == Swapped
    ensures var t := DoTruncate(w);
            if |w.batch| > 25
            then Taken(w) == Taken(t) + Flat(w.batch[2..]) && t.lost == w.lost + Ids(Flat(w.batch[2..]))
            else Taken(w) == Taken(t) && t.lost == w.lost
  {
    if |w.batch| > BACKLOG_LIMIT {
      FlatConcat(w.batch[..2], w.batch[2..]);
      assert w.batch[0..] == w.batch[..2] + w.batch[2..];
      assert w.batch[..2][0..] == w.batch[..2];
    }
  }

  /** Records of a numbered stream have ids below its length. */
  lemma IdsBelow(early: Buffer, some: Buffer, n: nat)
    requires Numbered(early) && n in Ids(some) && forall k :: 0 <= k < |some| ==> some[k] in early
    ensures n < |early|
  {
    var k :| 0 <= k < |some| && some[k].id == n;
    var j :| 0 <= j < |early| && early[j] == some[k];
    assert early[j].id == j;
  }

  lemma TailIn(x: Buffer, y: Buffer, early: Buffer)
    requires forall k :: 0 <= k < |x + y| ==> (x + y)[k] in early
    ensures forall k :: 0 <= k < |y| ==> y[k] in early
  {
    forall k | 0 <= k < |y| ensures y[k] in early {
      assert (x + y)[|x| + k] == y[k];
    }
  }

  lemma CutIsExact(early: Buffer, lost: set<nat>, x: Buffer, y: Buffer)
    requires Numbered(early) && Without(early, lost) == x + y
    ensures Without(early, lost + Ids(y)) == x
    ensures forall n :: n in Ids(y) ==> n < |early|
  {
    assert Increasing(early);
    WithoutIncreasing(early, lost);
    hide Without, Increasing, Ids, Numbered;
    WithoutTwice(early, lost, Ids(y));
    WithoutTail(x, y);
    TailIn(x, y, early);
    forall n | n in Ids(y) ensures n < |early| {
      IdsBelow(early, y, n);
    }
  }

  lemma TruncateKeepsEarly(w: Writer, early: Buffer)
    requires EarlyInPlace(w, early) && w.pc == Swapped
    ensures EarlyInPlace(DoTruncate(w), early)
  {
    TruncateCutsTail(w);
    if |w.batch| > BACKLOG_LIMIT {
      CutIsExact(early, w.lost, Taken(DoTruncate(w)), Flat(w.batch[2..]));
    }
  }

  lemma WriteKeepsTaken(w: Writer)
    requires w.written < |w.batch|
    ensures Taken(DoWriteOne(w)) == Taken(w)
  {
    var rest := w.batch[w.written..];
    assert rest[1..] == w.batch[w.written + 1..];
    assert Flat(rest) == rest[0] + Flat(rest[1..]);
  }

  lemma StepKeepsInv(s: State, step: Step)
    requires Inv(s) && Enabled(s, step)
    ensures AssertsHold(s, step) && Inv(Apply(s, step))
  {
    match step
    case Append(text) => AppendKeepsInv(s, text);
    case Collect => CollectKeepsInv(s);
    case Truncate => TruncateKeepsEarly(s.w, s.f.accepted[..s.w.collected]);
    case WriteOne => WriteKeepsTaken(s.w);
    case Recycle => assert s.w.batch[s.w.written..] == [];
    case _ =>
  }

  // ---------- runs ----------

  /** `steps` is an interleaving the threads can produce from `s`. */
  predicate Feasible(s: State, steps: seq<Step>)
    requires Inv(s)
    decreases |steps|
  {
    steps == [] ||
    (Enabled(s, steps[0]) && (StepKeepsInv(s, steps[0]); Feasible(Apply(s, steps[0]), steps[1..])))
  }

  function After(s: State, steps: seq<Step>): (t: State)
    requires Inv(s) && Feasible(s, steps)
    ensures Inv(t)
    decreases |steps|
  {
    if steps == [] then s
    else StepKeepsInv(s, steps[0]); After(Apply(s, steps[0]), steps[1..])
  }

  /** One more step at the end of a run. */
  lemma {:induction false} AfterSnoc(s: State, steps: seq<Step>, step: Step)
    requires Inv(s) && Feasible(s, steps) && Enabled(After(s, steps), step)
    ensures AssertsHold(After(s, steps), step)
    ensures Feasible(s, steps + [step]) && After(s, steps + [step]) == Apply(After(s, steps), step)
    decreases |steps|
  {
    if steps == [] {
      StepKeepsInv(s, step);
      assert [step][1..] == [] && steps + [step] == [step];
    } else {
      StepKeepsInv(s, steps[0]);
      assert (steps + [step])[1..] == steps[1..] + [step];
      AfterSnoc(Apply(s, steps[0]), steps[1..], step);
    }
  }

  /** The run, from the start of the logger, ends in `s`. */
  predicate Reaches(run: seq<Step>, s: State) {
    Inv(INITIAL) && Feasible(INITIAL, run) && After(INITIAL, run) == s
  }

  lemma ReachInitial()
    ensures Reaches([], INITIAL)
  {
    assert Bytes([]) == "" && Flat([]) == [] && Without([], {}) == [];
    assert INITIAL.w.batch[0..] == [];
  }

  /** The invariant holds in every state any interleaving leads to. */
  lemma ReachedInv(run: seq<Step>, s: State)
    requires Reaches(run, s)
    ensures Inv(s)
  {
  }

  /** How many times the writer has been round its loop. */
  function Passes(run: seq<Step>): nat {
    if run == [] then 0 else Passes(run[..|run| - 1]) + if run[|run| - 1] == Recycle then 1 else 0
  }

  lemma PassesSnoc(run: seq<Step>, step: Step)
    ensures Passes(run + [step]) == Passes(run) + if step == Recycle then 1 else 0
  {
    assert (run + [step])[..|run|] == run;
  }

  /** Every step a run can take passes its asserts and gives a longer run. */
  lemma ReachStep(run: seq<Step>, s: State, step: Step)
    requires Reaches(run, s) && Enabled(s, step)
    ensures AssertsHold(s, step) && Reaches(run + [step], Apply(s, step))
    ensures Passes(run + [step]) == Passes(run) + if step == Recycle then 1 else 0
  {
    PassesSnoc(run, step);
    AfterSnoc(INITIAL, run, step);
  }

  /** No batch of the run was overlong when the writer looked at it. */
  predicate NeverOverloaded(s: State, steps: seq<Step>)
    requires Inv(s) && Feasible(s, steps)
    decreases |steps|
  {
    steps == [] ||
    (&& (steps[0] == Truncate ==> |s.w.batch| <= 25)
     && (StepKeepsInv(s, steps[0]); NeverOverloaded(Apply(s, steps[0]), steps[1..])))
  }

  lemma {:induction false} NothingLostWithoutOverload(s: State, steps: seq<Step>)
    requires Inv(s) && Feasible(s, steps) && NeverOverloaded(s, steps)
    ensures After(s, steps).w.lost == s.w.lost
    decreases |steps|
  {
    if steps != [] {
      StepKeepsInv(s, steps[0]);
      NothingLostWithoutOverload(Apply(s, steps[0]), steps[1..]);
    }
  }

  lemma BytesOfFour(a: Buffer, b: Buffer, c: Buffer, d: Buffer)
    ensures Bytes((a + b) + (c + d)) == Bytes(a) + Bytes(b) + Bytes(c) + Bytes(d)
  {
    hide Bytes;
    BytesConcat(a + b, c + d);
    BytesConcat(a, b);
    BytesConcat(c, d);
    assert (Bytes(a) + Bytes(b)) + (Bytes(c) + Bytes(d)) == Bytes(a) + Bytes(b) + Bytes(c) + Bytes(d);
  }

  /** Conservation over every interleaving: what is on file, followed by the unwritten rest of the
      batch, the queue and the current buffer, is the accepted stream in mutex order with the lost
      messages left out, each of them whole. */
  lemma StreamConserved(run: seq<Step>, s: State)
    requires Reaches(run, s)
    ensures s.w.written <= |s.w.batch|
    ensures Bytes(s.w.file) + Bytes(Flat(s.w.batch[s.w.written..])) + Bytes(Flat(s.f.queue)) + Bytes(s.f.current)
            == Bytes(Without(s.f.accepted, s.w.lost))
  {
    ReachedInv(run, s);
    WrittenInBatch(s);
    StreamSplits(s);
    hide Reaches, Inv, Flat, Bytes, Without;
    BytesOfFour(s.w.file, Flat(s.w.batch[s.w.written..]), Flat(s.f.queue), s.f.current);
  }

  lemma PrefixOfBytes(a: Buffer, b: Buffer)
    requires a <= b
    ensures Bytes(a) <= Bytes(b)
  {
    assert b == a + b[|a|..];
    BytesConcat(a, b[|a|..]);
  }

  /** As long as the writer never falls more than 25 buffers behind, the file is a prefix of
      everything that was logged: no loss, no duplicate, no reordering, also after `stop`. */
  lemma FileIsPrefixOfLog(run: seq<Step>, s: State)
    requires Reaches(run, s) && NeverOverloaded(INITIAL, run)
    ensures s.w.file <= s.f.accepted && Bytes(s.w.file) <= Bytes(s.f.accepted)
  {
    NothingLostWithoutOverload(INITIAL, run);
    WithoutNone(s.f.accepted[..s.w.collected], {});
    assert s.w.file <= Taken(s.w) <= s.f.accepted;
    PrefixOfBytes(s.w.file, s.f.accepted);
  }

  /** Whenever the writer holds no batch, the file has every message that was let in before the last
      batch was taken, except the lost ones. */
  lemma PassWritesWhatItCollected(run: seq<Step>, s: State)
    requires Reaches(run, s) && !HoldsBatch(s.w.pc)
    ensures s.w.collected <= |s.f.accepted|
    ensures s.w.file == Without(s.f.accepted[..s.w.collected], s.w.lost)
  {
    assert Flat(s.w.batch[s.w.written..]) == [];
  }

  /** What a step adds to the lost messages: nothing, unless it is the truncation of a batch of more
      than 25 buffers, which gives up exactly the records from the third buffer on. */
  lemma OnlyTruncateLoses(run: seq<Step>, s: State, step: Step)
    requires Reaches(run, s) && Enabled(s, step)
    ensures AssertsHold(s, step)
    ensures Apply(s, step).w.lost ==
              s.w.lost + if step == Truncate && |s.w.batch| > 25 then Ids(Flat(s.w.batch[2..])) else {}
  {
    ReachStep(run, s, step);
    hide Reaches, Flat, Ids, DoAppend;
  }

  /** The file and the accepted stream only grow. */
  lemma FileOnlyGrows(run: seq<Step>, s: State, step: Step)
    requires Reaches(run, s) && Enabled(s, step)
    ensures AssertsHold(s, step)
    ensures s.w.file <= Apply(s, step).w.file && s.f.accepted <= Apply(s, step).f.accepted
  {
    ReachStep(run, s, step);
    hide Reaches, Bytes, Flat, Ids;
  }

  // ---------- infinite runs: what is accepted gets out ----------

  type Trace = nat -> State
  type Labels = nat -> Step

  /** A behaviour without end, from the start of the logger. */
  ghost predicate IsTrace(st: Trace, lab: Labels) {
    && st(0) == INITIAL
    && forall i: nat ::
         Enabled(st(i), lab(i)) && (AssertsHold(st(i), lab(i)) ==> st(i + 1) == Apply(st(i), lab(i)))
  }

  predicate IsWriterStep(step: Step) {
    !step.Append? && !step.Stop?
  }

  ghost predicate MovesLater(st: Trace, lab: Labels, i: nat) {
    exists j: nat :: i <= j && (IsWriterStep(lab(j)) || st(j).w.pc == Finished)
  }

  /** The writer goes on at some time, unless it has left its loop. That it does so from its sleep is what
      the time limit of the wait is for. */
  ghost predicate Fair(st: Trace, lab: Labels) {
    forall i: nat :: MovesLater(st, lab, i)
  }

  lemma {:induction false} TraceInv(st: Trace, lab: Labels, i: nat)
    requires IsTrace(st, lab)
    ensures Inv(st(i))
  {
    if i == 0 {
      ReachInitial();
    } else {
      TraceInv(st, lab, i - 1);
      TraceStep(st, lab, i - 1);
    }
  }

  lemma TraceStep(st: Trace, lab: Labels, i: nat)
    requires IsTrace(st, lab) && Inv(st(i))
    ensures Enabled(st(i), lab(i)) && AssertsHold(st(i), lab(i)) && st(i + 1) == Apply(st(i), lab(i))
    ensures Inv(st(i + 1))
  {
    StepKeepsInv(st(i), lab(i));
  }

  ghost predicate Quiet(lab: Labels, i: nat, j: nat) {
    forall k :: i <= k < j ==> !IsWriterStep(lab(k))
  }

  lemma {:induction false} QuietKeepsWriter(st: Trace, lab: Labels, i: nat, j: nat)
    requires IsTrace(st, lab) && i <= j && Quiet(lab, i, j)
    ensures st(j).w == st(i).w && st(i).f.accepted <= st(j).f.accepted
    decreases j
  {
    if i < j {
      QuietKeepsWriter(st, lab, i, j - 1);
      TraceInv(st, lab, j - 1);
      TraceStep(st, lab, j - 1);
      hide IsTrace, Inv, Enabled, AssertsHold, Apply;
      OthersKeepWriter(st(j - 1), lab(j - 1));
    }
  }

  /** The first step of the writer at or after `i` and before `j`, or `j`. */
  lemma FirstWriterStep(lab: Labels, i: nat, j: nat) returns (k: nat)
    requires i <= j
    ensures i <= k <= j && Quiet(lab, i, k) && (k < j ==> IsWriterStep(lab(k)))
  {
    k := i;
    while k < j && !IsWriterStep(lab(k))
      invariant i <= k <= j && Quiet(lab, i, k)
    {
      k := k + 1;
    }
  }

  /** The next step of the writer; up to it, only producers and `stop` act. */
  lemma NextWriterStep(st: Trace, lab: Labels, i: nat) returns (k: nat)
    requires IsTrace(st, lab) && Fair(st, lab) && st(i).w.pc != Finished
    ensures i <= k && IsWriterStep(lab(k)) && st(k).w == st(i).w && st(i).f.accepted <= st(k).f.accepted
  {
    assert MovesLater(st, lab, i);
    hide Fair, IsTrace, IsWriterStep;
    var j: nat :| i <= j && (IsWriterStep(lab(j)) || st(j).w.pc == Finished);
    k := FirstWriterStep(lab, i, j);
    QuietKeepsWriter(st, lab, i, k);
  }

  lemma OthersKeepWriter(s: State, step: Step)
    requires Enabled(s, step) && AssertsHold(s, step) && !IsWriterStep(step)
    ensures Apply(s, step).w == s.w && s.f.accepted <= Apply(s, step).f.accepted
  {
    hide Bytes;
  }

  /** How far the writer is from having written the record, or lost it, as the last two numbers say. */
  datatype Rank = Rank(stage: nat, count: nat)

  function RankOf(w: Writer, n: nat): Rank
    requires w.written <= |w.batch|
  {
    if n >= w.collected then
      match w.pc
      case Swapped => Rank(8, 0)
      case Writing => Rank(7, |w.batch| - w.written)
      case AtLoop => Rank(6, 0)
      case AtLock => Rank(5, 0)
      case Asleep => Rank(4, 0)
      case Finished => Rank(0, 0)
    else
      match w.pc
      case Swapped => Rank(3, 0)
      case Writing => Rank(2, |w.batch| - w.written)
      case _ => Rank(0, 0)
  }

  predicate Below(a: Rank, b: Rank) {
    a.stage < b.stage || (a.stage == b.stage && a.count < b.count)
  }

  lemma WriterStepLowersRank(s: State, step: Step, n: nat)
    requires Inv(s) && Enabled(s, step) && AssertsHold(s, step) && IsWriterStep(step) && n < |s.f.accepted|
    requires n >= s.w.collected || HoldsBatch(s.w.pc)
    ensures var t := Apply(s, step);
      t.w.written <= |t.w.batch| && Below(RankOf(t.w, n), RankOf(s.w, n)) && n < |t.f.accepted|
  {
    hide Bytes, Flat, Without, Ids;
  }

  /** Out of the program: in the file, or given up. */
  predicate IsOut(w: Writer, r: Record) {
    r.id in w.lost || r in w.file
  }

  lemma {:induction false} WithoutHas(b: Buffer, cut: set<nat>, k: nat)
    requires k < |b| && b[k].id !in cut
    ensures b[k] in Without(b, cut)
    decreases |b|
  {
    if k < |b| - 1 { WithoutHas(b[..|b| - 1], cut, k); }
  }

  /** A record that a batch took is out once the writer holds no batch. */
  lemma TakenIsOut(s: State, n: nat)
    requires Inv(s) && !HoldsBatch(s.w.pc) && n < s.w.collected
    ensures n < |s.f.accepted| && IsOut(s.w, s.f.accepted[n])
  {
    assert Flat(s.w.batch[s.w.written..]) == [];
    var early := s.f.accepted[..s.w.collected];
    assert early[n] == s.f.accepted[n];
    if n !in s.w.lost {
      WithoutHas(early, s.w.lost, n);
    }
  }

  /** Every record that was let in is at some time in the file or, by an overload, given up, unless the
      writer leaves its loop. */
  lemma {:induction false} AcceptedGetsOut(st: Trace, lab: Labels, i: nat, n: nat) returns (j: nat)
    requires IsTrace(st, lab) && Fair(st, lab) && n < |st(i).f.accepted|
    ensures i <= j && st(i).f.accepted <= st(j).f.accepted
    ensures IsOut(st(j).w, st(i).f.accepted[n]) || st(j).w.pc == Finished
    decreases var w := st(i).w; if w.written <= |w.batch| then RankOf(w, n).stage else 0,
              var w := st(i).w; if w.written <= |w.batch| then RankOf(w, n).count else 0
  {
    TraceInv(st, lab, i);
    j := i;
    if st(i).w.pc == Finished {
    } else if n < st(i).w.collected && !HoldsBatch(st(i).w.pc) {
      TakenIsOut(st(i), n);
    } else {
      var k := NextWriterStep(st, lab, i);
      TraceInv(st, lab, k);
      hide IsTrace, Fair, Inv;
      TraceStep(st, lab, k);
      WrittenInBatch(st(i));
      WriterStepLowersRank(st(k), lab(k), n);
      WriterKeepsAccepted(st(k), lab(k));
      j := AcceptedGetsOut(st, lab, k + 1, n);
    }
  }

  lemma WriterKeepsAccepted(s: State, step: Step)
    requires Enabled(s, step) && AssertsHold(s, step) && IsWriterStep(step)
    ensures Apply(s, step).f.accepted == s.f.accepted
  {
  }

  /** It leaves its loop only when somebody has stopped the logger. */
  lemma {:induction false} FinishedIfStopped(st: Trace, lab: Labels, i: nat)
    requires IsTrace(st, lab) && forall j: nat :: j < i ==> lab(j) != Stop
    ensures st(i).f.running && st(i).w.pc != Finished
  {
    if i > 0 {
      FinishedIfStopped(st, lab, i - 1);
      TraceInv(st, lab, i - 1);
      TraceStep(st, lab, i - 1);
      hide IsTrace, Inv, Bytes;
    }
  }

  /** `stop` does not drain: a message that was accepted before it may stay where it is, because the writer
      leaves its loop without another look. */
  lemma StopLeavesMessages() returns (run: seq<Step>, s: State)
    ensures Reaches(run, s) && s.w.pc == Finished
    ensures s.f.accepted == [Record(0, "x")] && s.w.file == [] && s.w.lost == {}
  {
    ReachInitial();
    assert Bytes([]) == "";
    hide Reaches, Bytes;
    run, s := [], INITIAL;
    ReachStep(run, s, Append("x"));
    run, s := run + [Append("x")], Apply(s, Append("x"));
    ReachStep(run, s, Stop);
    run, s := run + [Stop], Apply(s, Stop);
    ReachStep(run, s, EnterLoop);
    run, s := run + [EnterLoop], Apply(s, EnterLoop);
  }

  /** Nothing is written after that. */
  lemma FinishedIsForGood(s: State, step: Step)
    requires Enabled(s, step) && AssertsHold(s, step) && s.w.pc == Finished
    ensures Apply(s, step).w == s.w
  {
  }

  // ---------- what an overload takes ----------

  /** How many characters the producers have offered since the last batch was taken. */
  function Offered(run: seq<Step>): nat {
    if run == [] then 0
    else match run[|run| - 1]
      case Append(text) => Offered(run[..|run| - 1]) + |text|
      case Collect => 0
      case _ => Offered(run[..|run| - 1])
  }

  /** The last step of a run. */
  lemma {:induction false} RunSplits(s: State, steps: seq<Step>, last: Step)
    requires Inv(s) && Feasible(s, steps + [last])
    ensures Feasible(s, steps) && Enabled(After(s, steps), last) && AssertsHold(After(s, steps), last)
    ensures After(s, steps + [last]) == Apply(After(s, steps), last)
    decreases |steps|
  {
    var first := (steps + [last])[0];
    StepKeepsInv(s, first);
    hide Inv, Enabled, AssertsHold, Apply;
    if steps == [] {
      assert (steps + [last])[1..] == [];
    } else {
      assert (steps + [last])[1..] == steps[1..] + [last];
      RunSplits(Apply(s, first), steps[1..], last);
    }
  }

  /** Every buffer that is queued took, with the text that sent it there, a buffer's worth of text. */
  predicate QueuePaid(f: Front, offered: nat) {
    2 * offered >= 4_000_000 * |f.queue| + |Bytes(f.current)|
  }

  lemma StepPays(s: State, step: Step, offered: nat)
    requires Inv(s) && Enabled(s, step) && AssertsHold(s, step) && QueuePaid(s.f, offered)
    ensures QueuePaid(Apply(s, step).f,
                      match step case Append(text) => offered + |text| case Collect => 0 case _ => offered)
  {
    match step
    case Append(text) =>
      AppendRotatesExactly(s.f, text);
      BytesSnoc(s.f.current, Record(|s.f.accepted|, text));
      OneRecord(Record(|s.f.accepted|, text));
      assert Bytes([]) == "";
    case Collect => assert Bytes([]) == "";
    case _ =>
  }

  lemma ReachSplits(run: seq<Step>, s: State) returns (init: seq<Step>, last: Step, before: State)
    requires run != [] && Reaches(run, s)
    ensures run == init + [last] && |init| < |run|
    ensures Reaches(init, before) && Inv(before) && Enabled(before, last) && AssertsHold(before, last)
    ensures s == Apply(before, last)
  {
    init, last := run[..|run| - 1], run[|run| - 1];
    assert run == init + [last];
    RunSplits(INITIAL, init, last);
    before := After(INITIAL, init);
  }

  lemma OfferedSnoc(run: seq<Step>, last: Step)
    ensures Offered(run + [last]) ==
      match last case Append(text) => Offered(run) + |text| case Collect => 0 case _ => Offered(run)
  {
    assert (run + [last])[..|run|] == run;
  }

  lemma {:induction false} QueueIsPaid(run: seq<Step>, s: State)
    requires Reaches(run, s)
    ensures QueuePaid(s.f, Offered(run))
    decreases |run|
  {
    if run == [] {
      assert Bytes([]) == "";
    } else {
      hide Reaches, QueuePaid, Inv, Enabled, AssertsHold, Apply, Offered;
      var init, last, before := ReachSplits(run, s);
      QueueIsPaid(init, before);
      OfferedSnoc(init, last);
      StepPays(before, last, Offered(init));
    }
  }

  /** Nothing is lost without the text for it: a batch that is going to be cut has more than 25 buffers, and
      since the batch before it at least fifty million characters have been offered. */
  lemma OverloadNeedsText(run: seq<Step>, s: State)
    requires Reaches(run, s) && Enabled(s, Collect) && |DoCollect(s).w.batch| > 25
    ensures Offered(run) >= 50_000_000
  {
    QueueIsPaid(run, s);
  }

  // ---------- a run that loses messages ----------

  /** A message that fills a buffer, so that the next one needs another. */
  function BigText(): (t: string)
    ensures |t| == CAPACITY - 1
  {
    seq(CAPACITY - 1, _ => 'x')
  }

  /** The writer has entered its loop, and has not got the mutex since. */
  predicate BackedUp(s: State, n: nat) {
    && s.w.pc == AtLock && s.w.lost == {} && |s.f.queue| == n && |s.f.accepted| == n + 1
    && s.f.current == [Record(n, BigText())]
    && forall i :: 0 <= i < n ==> s.f.queue[i] == [Record(i, BigText())]
  }

  lemma OneBig(f: Front, n: nat)
    requires FrontInPlace(f) && |f.accepted| == n
    ensures f.current == [] ==> DoAppend(f, BigText()).current == [Record(n, BigText())]
                                && DoAppend(f, BigText()).queue == f.queue
    ensures Bytes(f.current) == BigText() ==> DoAppend(f, BigText()).current == [Record(n, BigText())]
                                              && DoAppend(f, BigText()).queue == f.queue + [f.current]
    ensures |DoAppend(f, BigText()).accepted| == n + 1
  {
    hide BigText;
    assert Bytes([]) == "";
    assert [] + [Record(n, BigText())] == [Record(n, BigText())];
  }

  lemma OneRecord(r: Record)
    ensures Bytes([r]) == r.text
  {
    BytesSnoc([], r);
    assert [] + [r] == [r] && Bytes([]) == "" && "" + r.text == r.text;
  }

  lemma {:induction false} BackUp(n: nat) returns (run: seq<Step>, s: State)
    ensures Reaches(run, s) && BackedUp(s, n)
  {
    hide Reaches, Bytes, DoAppend, FrontInPlace, EarlyInPlace, Flat, Without;
    if n == 0 {
      ReachInitial();
      ReachStep([], INITIAL, EnterLoop);
      run, s := [EnterLoop], Apply(INITIAL, EnterLoop);
      assert [] + [EnterLoop] == run;
    } else {
      run, s := BackUp(n - 1);
      OneRecord(Record(n - 1, BigText()));
    }
    ReachedInv(run, s);
    OneBig(s.f, n);
    ReachStep(run, s, Append(BigText()));
    run, s := run + [Append(BigText())], Apply(s, Append(BigText()));
  }

  /** The overload happens: the writer may be kept from the mutex while 26 buffers fill, and then the
      third message and those behind it are lost, although every one of them was accepted. */
  lemma OverloadIsReachable() returns (run: seq<Step>, s: State)
    ensures Reaches(run, s) && !NeverOverloaded(INITIAL, run)
    ensures |s.f.accepted| == 26 && forall n: nat :: n in s.w.lost <==> 2 <= n < 26
  {
    run, s := BackUp(BACKLOG_LIMIT);
    hide Reaches, Bytes, Flat, Ids, BigText;
    ghost var batch := s.f.queue + [s.f.current];
    ReachStep(run, s, Collect);
    run, s := run + [Collect], Apply(s, Collect);
    assert s.w.batch == batch && forall i :: 0 <= i < 26 ==> batch[i] == [Record(i, BigText())];
    ReachStep(run, s, Truncate);
    run, s := run + [Truncate], Apply(s, Truncate);
    IdsOfOnes(batch[2..], 2);
    assert 2 in s.w.lost;
    LossMeansOverload(run, s);
  }

  lemma LossMeansOverload(run: seq<Step>, s: State)
    requires Reaches(run, s) && s.w.lost != {}
    ensures !NeverOverloaded(INITIAL, run)
  {
    if NeverOverloaded(INITIAL, run) {
      NothingLostWithoutOverload(INITIAL, run);
    }
  }

  lemma IdsConcat(a: Buffer, b: Buffer)
    ensures Ids(a + b) == Ids(a) + Ids(b)
  {
    forall n | n in Ids(b) ensures n in Ids(a + b) {
      var k :| 0 <= k < |b| && b[k].id == n;
      assert (a + b)[|a| + k].id == n;
    }
    forall n | n in Ids(a) ensures n in Ids(a + b) {
      var k :| 0 <= k < |a| && a[k].id == n;
      assert (a + b)[k].id == n;
    }
  }

  lemma {:induction false} IdsOfOnes(bs: seq<Buffer>, base: nat)
    requires forall i :: 0 <= i < |bs| ==> |bs[i]| == 1 && bs[i][0].id == base + i
    ensures forall n: nat :: n in Ids(Flat(bs)) <==> base <= n < base + |bs|
    decreases |bs|
  {
    if bs != [] {
      IdsOfOnes(bs[1..], base + 1);
      IdsConcat(bs[0], Flat(bs[1..]));
      assert Ids(bs[0]) == {base} by {
        assert bs[0][0].id in Ids(bs[0]);
      }
    }
  }
}
