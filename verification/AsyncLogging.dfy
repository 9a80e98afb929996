/** deon/base/AsyncLogging.cpp on the heap. Buffers are objects that move between the fields of the
    logger, which the mutex guards, and the locals of `threadFunc`, which only the writer touches.
    Each method is one atomic step of `LogProtocol` or, in `ThreadFunc`, the writer's loop
    with the other threads running between its steps. The ghost fields hold the protocol state that
    has been reached; the two footprints never meet, so no buffer is ever on both sides. */
module AsyncLogging {
  import opened LogStream
  import P = LogProtocol

  // ---------- no buffer is in two places ----------

  /** Two different objects with different storage, or an empty place. */
  ghost predicate Apart(a: FixedBuffer?, b: FixedBuffer?) {
    a != null && b != null ==> a != b && a.data != b.data
  }

  ghost predicate ApartFrom(a: FixedBuffer?, bs: seq<FixedBuffer>) {
    forall i :: 0 <= i < |bs| ==> Apart(a, bs[i])
  }

  ghost predicate AllApart(bs: seq<FixedBuffer>) {
    forall i, j :: 0 <= i < j < |bs| ==> Apart(bs[i], bs[j])
  }

  ghost function Parts(b: FixedBuffer?): set<object> {
    if b == null then {} else {b, b.data}
  }

  ghost predicate Has(b: FixedBuffer, records: P.Buffer)
    reads b, b.data
  {
    b.Valid() && b.data.Length == LARGE_BUFFER && b.text == P.Bytes(records)
  }

  /** The buffer lies in the footprint and holds these records. */
  ghost predicate Holds(repr: set<object>, b: FixedBuffer, records: P.Buffer)
    reads repr
  {
    b in repr && b.data in repr && Has(b, records)
  }

  /** FixedBuffer::append on a buffer of records. */
  method AppendTo(b: FixedBuffer, ghost records: P.Buffer, ghost id: nat, text: IntText)
    requires Has(b, records)
    modifies b, b.data
    ensures Has(b, P.Fill(records, P.Record(id, text)))
  {
    P.FillBytes(records, P.Record(id, text));
    GuardIsExact(b.Avail(), |text|);
    b.Append(text);
  }

  ghost predicate HoldsOpt(repr: set<object>, b: FixedBuffer?, records: P.Option<P.Buffer>)
    reads repr
  {
    if b == null then records.None? else records.Some? && Holds(repr, b, records.value)
  }

  ghost predicate HoldsAll(repr: set<object>, bs: seq<FixedBuffer>, records: seq<P.Buffer>)
    reads repr
  {
    |bs| == |records| && forall i :: 0 <= i < |bs| ==> Holds(repr, bs[i], records[i])
  }

  class AsyncLogging {
    var running: bool
    var currentBuffer: FixedBuffer
    var nextBuffer: FixedBuffer?
    var buffers: seq<FixedBuffer>
    ghost var f: P.Front
    ghost var repr: set<object>

    ghost predicate Valid()
      reads this, repr
      ensures Valid() ==> this in repr && running == f.running && |buffers| == |f.queue|
    {
      && this in repr
      && running == f.running
      && Apart(currentBuffer, nextBuffer) && ApartFrom(currentBuffer, buffers)
      && ApartFrom(nextBuffer, buffers) && AllApart(buffers)
      && Holds(repr, currentBuffer, f.current)
      && HoldsOpt(repr, nextBuffer, f.next)
      && HoldsAll(repr, buffers, f.queue)
    }

    /** Lines 7-23. */
    constructor ()
      ensures Valid() && fresh(repr) && f == P.INITIAL_FRONT.(running := false)
    {
      running := false;
      var b0 := new FixedBuffer(LARGE_BUFFER);
      var b1 := new FixedBuffer(LARGE_BUFFER);
      currentBuffer, nextBuffer, buffers := b0, b1, [];
      f, repr := P.INITIAL_FRONT.(running := false), {this, b0, b0.data, b1, b1.data};
      new;
      assert P.Bytes([]) == "";
    }

    /** Line 25 of AsyncLogging.h. */
    method SetRunning()
      requires Valid()
      modifies this`running, this`f
      ensures Valid() && f == old(f).(running := true)
    {
      running := true;
      f := f.(running := true);
    }

    method Stop()
      requires Valid()
      modifies this`running, this`f
      ensures Valid() && f == old(f).(running := false)
    {
      running := false;
      f := f.(running := false);
    }

    /** Lines 35-41. */
    method Rotate()
      requires Valid()
      modifies this`currentBuffer, this`nextBuffer, this`buffers, this`f, this`repr
      ensures Valid() && f == P.Rotate(old(f))
      ensures old(repr) <= repr && fresh(repr - old(repr))
      ensures currentBuffer == old(nextBuffer) || (fresh(currentBuffer) && fresh(currentBuffer.data))
    {
      buffers := buffers + [currentBuffer];
      if nextBuffer != null {
        currentBuffer, nextBuffer := nextBuffer, null;
      } else {
        currentBuffer := new FixedBuffer(LARGE_BUFFER);
        repr := repr + {currentBuffer, currentBuffer.data};
        assert P.Bytes([]) == "";
      }
      f := P.Rotate(f);
    }

    method FillCurrent(logline: IntText)
      requires Valid()
      modifies this`f, currentBuffer, currentBuffer.data
      ensures Valid() && f == P.PutRecord(old(f), logline)
    {
      hide Has, P.Fill;
      AppendTo(currentBuffer, f.current, |f.accepted|, logline);
      f := P.PutRecord(f, logline);
    }

    /** Lines 26-46; `len` is an `int`. */
    method Append(logline: IntText)
      requires Valid()
      modifies repr
      ensures Valid() && f == P.DoAppend(old(f), logline) && running == old(running)
      ensures old(repr) <= repr && fresh(repr - old(repr))
    {
      if currentBuffer.Avail() > |logline| {
        FillCurrent(logline);
      } else {
        Rotate();
        FillCurrent(logline);
      }
    }

    /** Lines 78-81 from the side of the logger: the queue and the current buffer leave, an empty
        buffer from outside comes in. */
    method TakeQueue(spare: FixedBuffer) returns (taken: seq<FixedBuffer>, ghost given: set<object>)
      requires Valid()
      requires spare !in repr && spare.data !in repr && Holds({spare, spare.data}, spare, [])
      modifies this`currentBuffer, this`buffers, this`f, this`repr
      ensures Valid() && f == P.LeaveQueue(old(f)) && nextBuffer == old(nextBuffer)
      ensures given <= old(repr) && given !! repr && repr <= old(repr) + {spare, spare.data}
      ensures HoldsAll(given, taken, old(f.queue + [f.current])) && AllApart(taken)
    {
      hide Has;
      taken := buffers + [currentBuffer];
      assert HoldsAll(repr, taken, f.queue + [f.current]);
      currentBuffer, buffers := spare, [];
      given := repr - ({this} + Parts(nextBuffer));
      repr := {this, spare, spare.data} + Parts(nextBuffer);
      f := P.LeaveQueue(f);
    }

    /** Lines 82-85 from the side of the logger. */
    method RefillNext(spare: FixedBuffer)
      requires Valid() && nextBuffer == null
      requires spare !in repr && spare.data !in repr && Holds({spare, spare.data}, spare, [])
      modifies this`nextBuffer, this`f, this`repr
      ensures Valid() && f == old(f).(next := P.Some([])) && repr == old(repr) + {spare, spare.data}
    {
      hide Has;
      nextBuffer := spare;
      repr := repr + {spare, spare.data};
      f := f.(next := P.Some([]));
    }
  }

  /** What another thread does while the writer is between two steps. */
  datatype Act = Log(text: IntText) | StopCall

  /** The steps these acts are. */
  function StepOf(act: Act): P.Step {
    match act case Log(text) => P.Append(text) case StopCall => P.Stop
  }

  function StepsOf(acts: seq<Act>): seq<P.Step> {
    if acts == [] then [] else StepsOf(acts[..|acts| - 1]) + [StepOf(acts[|acts| - 1])]
  }

  lemma StepsEmpty(acts: seq<Act>, run: seq<P.Step>)
    ensures run + StepsOf(acts[..0]) == run
    ensures acts[..|acts|] == acts
  {
  }

  lemma StepsSnoc(acts: seq<Act>, n: nat, run: seq<P.Step>)
    requires n < |acts|
    ensures run + StepsOf(acts[..n + 1]) == run + StepsOf(acts[..n]) + [StepOf(acts[n])]
    ensures P.Passes(run + StepsOf(acts[..n + 1])) == P.Passes(run + StepsOf(acts[..n]))
  {
    assert acts[..n + 1][..n] == acts[..n];
    P.PassesSnoc(run + StepsOf(acts[..n]), StepOf(acts[n]));
  }

  /** The thread that runs `threadFunc`, with its locals. */
  class Writer {
    const log: AsyncLogging
    var newBuffer1: FixedBuffer?
    var newBuffer2: FixedBuffer?
    var buffersToWrite: seq<FixedBuffer>
    var output: string
    ghost var w: P.Writer
    ghost var repr: set<object>

    ghost predicate Own()
      reads this, repr
      ensures Own() ==> this in repr && |buffersToWrite| == |w.batch|
      ensures Own() ==> (newBuffer1 == null <==> w.spare1.None?) && (newBuffer2 == null <==> w.spare2.None?)
    {
      && this in repr
      && Apart(newBuffer1, newBuffer2) && ApartFrom(newBuffer1, buffersToWrite)
      && ApartFrom(newBuffer2, buffersToWrite) && AllApart(buffersToWrite)
      && HoldsOpt(repr, newBuffer1, w.spare1)
      && HoldsOpt(repr, newBuffer2, w.spare2)
      && HoldsAll(repr, buffersToWrite, w.batch)
      && output == P.Bytes(w.file)
    }

    /** Both sides are in order and have no object in common. */
    ghost predicate Valid()
      reads this, repr, log, log.repr
    {
      Own() && log.Valid() && repr !! log.repr
    }

    ghost function State(): P.State
      reads this, log
    {
      P.State(log.f, w)
    }

    /** Every place a buffer can be in. */
    ghost function Places(): (ps: seq<FixedBuffer?>)
      reads this, log
      ensures |ps| == 4 + |log.buffers| + |buffersToWrite|
    {
      [log.currentBuffer, log.nextBuffer, newBuffer1, newBuffer2] + log.buffers + buffersToWrite
    }

    /** No two places hold the same buffer or share storage, so the unlocked write never meets a buffer
        a producer can change. */
    lemma BuffersAreDistinct(i: nat, j: nat)
      requires Valid() && i < j < |Places()|
      ensures Apart(Places()[i], Places()[j])
    {
      PlaceIn(i);
      PlaceIn(j);
    }

    /** Which side a place is on. */
    lemma PlaceIn(i: nat)
      requires Valid() && i < |Places()|
      ensures Parts(Places()[i]) <= if i < 2 || 4 <= i < 4 + |log.buffers| then log.repr else repr
    {
    }

    /** Lines 53-62. */
    constructor (log: AsyncLogging)
      ensures Own() && fresh(repr) && this.log == log && w == P.INITIAL_WRITER
    {
      this.log := log;
      var b1 := new FixedBuffer(LARGE_BUFFER);
      var b2 := new FixedBuffer(LARGE_BUFFER);
      newBuffer1, newBuffer2, buffersToWrite, output := b1, b2, [], "";
      w, repr := P.INITIAL_WRITER, {this, b1, b1.data, b2, b2.data};
      new;
      assert P.Bytes([]) == "";
    }

    /** A spare leaves the writer. */
    method GiveSpare1() returns (b: FixedBuffer)
      requires Own() && newBuffer1 != null
      modifies this`newBuffer1, this`w, this`repr
      ensures Own() && w == old(w).(spare1 := P.None) && repr == old(repr) - {b, b.data}
      ensures {b, b.data} <= old(repr) && Holds({b, b.data}, b, old(w.spare1).value)
    {
      hide Has;
      b, newBuffer1 := newBuffer1, null;
      w, repr := w.(spare1 := P.None), repr - {b, b.data};
    }

    method GiveSpare2() returns (b: FixedBuffer)
      requires Own() && newBuffer2 != null
      modifies this`newBuffer2, this`w, this`repr
      ensures Own() && w == old(w).(spare2 := P.None) && repr == old(repr) - {b, b.data}
      ensures {b, b.data} <= old(repr) && Holds({b, b.data}, b, old(w.spare2).value)
    {
      hide Has;
      b, newBuffer2 := newBuffer2, null;
      w, repr := w.(spare2 := P.None), repr - {b, b.data};
    }

    /** A batch arrives; the writer had none. */
    method TakeBatch(taken: seq<FixedBuffer>, ghost given: set<object>,
                     ghost records: seq<P.Buffer>, ghost collected: nat)
      requires Own() && w.batch == [] && newBuffer1 == null
      requires HoldsAll(given, taken, records) && AllApart(taken) && given !! repr
      modifies this`buffersToWrite, this`w, this`repr
      ensures Own() && repr == old(repr) + given
      ensures w == old(w).(pc := P.Swapped, batch := records, collected := collected)
    {
      hide Has;
      buffersToWrite := taken;
      w, repr := w.(pc := P.Swapped, batch := records, collected := collected), repr + given;
    }

    /** Lines 64-68. */
    method EnterLoop() returns (go: bool)
      requires Valid() && P.Enabled(State(), P.EnterLoop) && P.AssertsHold(State(), P.EnterLoop)
      modifies this`w
      ensures Own() && State() == P.Apply(old(State()), P.EnterLoop) && go == log.running
    {
      go := log.running;
      if go {
        assert newBuffer1 != null && newBuffer1.text == "";
        assert newBuffer2 != null && newBuffer2.text == "";
        assert buffersToWrite == [];
      }
      w := P.Apply(State(), P.EnterLoop).w;
    }

    /** Line 76. */
    ghost method FallAsleep()
      requires Own()
      modifies this`w
      ensures Own() && w == old(w).(pc := P.Asleep)
    {
      w := w.(pc := P.Asleep);
    }

    /** Lines 78-81. The batch is empty before the swap. */
    method TakeQueue()
      requires Valid() && w.spare1 == P.Some([]) && w.batch == []
      modifies this`newBuffer1, this`buffersToWrite, this`w, this`repr
      modifies log`currentBuffer, log`buffers, log`f, log`repr
      ensures Valid() && State() == P.TakeQueue(old(State()))
      ensures repr <= old(repr + log.repr) && log.repr <= old(repr + log.repr)
    {
      hide P.Bytes, Has;
      ghost var s := State();
      var spare := GiveSpare1();
      var taken, given := log.TakeQueue(spare);
      TakeBatch(taken, given, s.f.queue + [s.f.current], |s.f.accepted|);
    }

    /** Lines 82-85. */
    method RefillNext()
      requires Valid() && (log.f.next.None? ==> w.spare2 == P.Some([]))
      modifies this`newBuffer2, this`w, this`repr, log`nextBuffer, log`f, log`repr
      ensures Valid() && State() == P.RefillNext(old(State()))
      ensures repr <= old(repr) && log.repr <= old(repr + log.repr)
    {
      hide Has;
      if log.nextBuffer == null {
        var spare := GiveSpare2();
        log.RefillNext(spare);
      }
    }

    /** What the writer does under the mutex. */
    method Collect()
      requires Valid() && P.Enabled(State(), P.Collect) && P.AssertsHold(State(), P.Collect)
      modifies this`newBuffer1, this`newBuffer2, this`buffersToWrite, this`w, this`repr
      modifies log`currentBuffer, log`nextBuffer, log`buffers, log`f, log`repr
      ensures Valid() && State() == P.Apply(old(State()), P.Collect)
      ensures repr <= old(repr + log.repr) && log.repr <= old(repr + log.repr)
    {
      TakeQueue();
      RefillNext();
    }

    /** Lines 88-94. */
    method Truncate()
      requires Own() && w.batch != []
      modifies this`buffersToWrite, this`w
      ensures Own() && w == P.DoTruncate(old(w))
    {
      assert buffersToWrite != [];
      if |buffersToWrite| > P.BACKLOG_LIMIT {
        buffersToWrite := buffersToWrite[..2];
      }
      w := P.DoTruncate(w);
    }

    /** Line 99: no lock is held, and none is needed to read a buffer of the batch. */
    method WriteOne(i: nat)
      requires Own() && i == w.written < |w.batch|
      modifies this`output, this`w
      ensures Own() && w == P.DoWriteOne(old(w))
    {
      output := output + buffersToWrite[i].data[..buffersToWrite[i].cur];
      P.BytesConcat(w.file, w.batch[i]);
      w := P.DoWriteOne(w);
    }

    /** Lines 109-115: the last buffer of the batch is emptied and kept. */
    method RefillSpare1()
      requires Own() && w.spare1.None? && w.batch != []
      modifies repr
      ensures Own() && repr == old(repr)
      ensures w == old(w).(spare1 := P.Some([]), batch := old(w).batch[..|old(w).batch| - 1])
    {
      assert buffersToWrite != [];
      newBuffer1 := buffersToWrite[|buffersToWrite| - 1];
      buffersToWrite := buffersToWrite[..|buffersToWrite| - 1];
      newBuffer1.Reset();
      assert P.Bytes([]) == "";
      w := w.(spare1 := P.Some([]), batch := w.batch[..|w.batch| - 1]);
    }

    /** Lines 117-123. */
    method RefillSpare2()
      requires Own() && w.spare2.None? && w.batch != []
      modifies repr
      ensures Own() && repr == old(repr)
      ensures w == old(w).(spare2 := P.Some([]), batch := old(w).batch[..|old(w).batch| - 1])
    {
      assert buffersToWrite != [];
      newBuffer2 := buffersToWrite[|buffersToWrite| - 1];
      buffersToWrite := buffersToWrite[..|buffersToWrite| - 1];
      newBuffer2.Reset();
      assert P.Bytes([]) == "";
      w := w.(spare2 := P.Some([]), batch := w.batch[..|w.batch| - 1]);
    }

    /** Lines 102-106 and 125: only a prefix of the batch is kept. */
    method KeepFirst(n: nat)
      requires Own() && n <= |w.batch|
      modifies this`buffersToWrite, this`w
      ensures Own() && w == old(w).(batch := old(w).batch[..n])
    {
      buffersToWrite, w := buffersToWrite[..n], w.(batch := w.batch[..n]);
    }

    /** Lines 102-125. */
    method Recycle()
      requires Own() && |w.batch| >= 2 - P.SizeOf(w.spare1) - P.SizeOf(w.spare2)
      modifies repr
      ensures Own() && w == P.DoRecycle(old(w)) && repr == old(repr)
    {
      hide Own;
      ghost var before := w;
      if |buffersToWrite| > 2 {
        KeepFirst(2);
      }
      if newBuffer1 == null {
        RefillSpare1();
      }
      if newBuffer2 == null {
        RefillSpare2();
      }
      KeepFirst(0);
      EndPass(before);
    }

    ghost method EndPass(before: P.Writer)
      requires Own() && P.DoRecycle(before) == w.(pc := P.AtLoop, written := 0)
      modifies this`w
      ensures Own() && w == P.DoRecycle(before)
    {
      w := P.DoRecycle(before);
    }

    /** What is in the file, as text: unless a batch was overlong, a prefix of everything logged. */
    lemma FileIsPrefix(run: seq<P.Step>)
      requires Valid() && P.Reaches(run, State()) && P.NeverOverloaded(P.INITIAL, run)
      ensures output <= P.Bytes(log.f.accepted)
    {
      hide AsyncLogging.Valid;
      P.FileIsPrefixOfLog(run, State());
    }

    // ---------- threadFunc, with the other threads running in between ----------

    /** The other threads act while the writer is at a preemption point. Nothing they do reaches a
        buffer of the writer. */
    method Others(acts: seq<Act>, ghost run: seq<P.Step>) returns (ghost longer: seq<P.Step>)
      requires Valid() && P.Reaches(run, State())
      modifies log, log.repr
      ensures Valid() && P.Reaches(longer, State())
      ensures longer == run + StepsOf(acts) && P.Passes(longer) == P.Passes(run)
      ensures log.running ==> old(log.running)
      ensures fresh(log.repr - old(log.repr))
    {
      hide P.Reaches, Own, AsyncLogging.Valid, P.DoAppend, StepsOf, P.Passes;
      longer := run;
      StepsEmpty(acts, run);
      for n := 0 to |acts|
        invariant Valid() && P.Reaches(longer, State())
        invariant longer == run + StepsOf(acts[..n]) && P.Passes(longer) == P.Passes(run)
        invariant log.running ==> old(log.running)
        invariant fresh(log.repr - old(log.repr))
      {
        StepsSnoc(acts, n, run);
        match acts[n] {
          case Log(text) =>
            P.ReachStep(longer, State(), P.Append(text));
            log.Append(text);
            longer := longer + [P.Append(text)];
          case StopCall =>
            P.ReachStep(longer, State(), P.Stop);
            log.Stop();
            longer := longer + [P.Stop];
        }
      }
    }

    /** Lines 64-86: a batch is taken, unless `running_` is down. The others act before it is tested, while
        the writer waits for the mutex, and while it sleeps. */
    method FetchBatch(others: nat -> seq<Act>, ghost run: seq<P.Step>) returns (go: bool, ghost longer: seq<P.Step>)
      requires Valid() && P.Reaches(run, State()) && w.pc == P.AtLoop
      modifies this, repr, log, log.repr
      ensures Valid() && P.Reaches(longer, State()) && run <= longer
      ensures P.Passes(longer) == P.Passes(run)
      ensures w.pc == if go then P.Swapped else P.Finished
      ensures (go ==> old(log.running)) && (!go ==> !log.running)
      ensures fresh(repr + log.repr - old(repr + log.repr))
    {
      hide P.Reaches, P.Passes, Own, AsyncLogging.Valid;
      longer := Others(others(0), run);
      P.ReachStep(longer, State(), P.EnterLoop);
      go := EnterLoop();
      longer := longer + [P.EnterLoop];
      if go {
        longer := Others(others(1), longer);
        longer := CollectBatch(others(2), longer);
      }
    }

    /** Lines 70-86: the critical section, in which the mutex is free while the writer sleeps. */
    method CollectBatch(whileAsleep: seq<Act>, ghost run: seq<P.Step>) returns (ghost longer: seq<P.Step>)
      requires Valid() && P.Reaches(run, State()) && w.pc == P.AtLock
      modifies this, repr, log, log.repr
      ensures Valid() && P.Reaches(longer, State()) && run <= longer
      ensures P.Passes(longer) == P.Passes(run) && w.pc == P.Swapped
      ensures longer == run + if old(log.buffers) == [] then [P.Sleep] + StepsOf(whileAsleep) + [P.Collect]
                              else [P.Collect]
      ensures fresh(repr + log.repr - old(repr + log.repr))
    {
      hide P.Reaches, P.Passes, Own, AsyncLogging.Valid, StepsOf;
      longer := run;
      if log.buffers == [] {
        P.ReachStep(longer, State(), P.Sleep);
        FallAsleep();
        longer := Others(whileAsleep, longer + [P.Sleep]);
      }
      P.ReachStep(longer, State(), P.Collect);
      Collect();
      longer := longer + [P.Collect];
    }

    /** Lines 88-100, with no lock held. */
    method WriteBatch(others: nat -> seq<Act>, ghost run: seq<P.Step>) returns (ghost longer: seq<P.Step>)
      requires Valid() && P.Reaches(run, State()) && w.pc == P.Swapped
      modifies this, log, log.repr
      ensures Valid() && P.Reaches(longer, State()) && run <= longer
      ensures P.Passes(longer) == P.Passes(run)
      ensures w.pc == P.Writing && w.written == |w.batch| && repr == old(repr)
      ensures fresh(log.repr - old(log.repr))
    {
      hide P.Reaches, P.Passes, Own, AsyncLogging.Valid;
      P.ReachStep(run, State(), P.Truncate);
      Truncate();
      longer := run + [P.Truncate];
      var i := 0;
      while i < |buffersToWrite|
        invariant Valid() && P.Reaches(longer, State()) && run <= longer
        invariant P.Passes(longer) == P.Passes(run)
        invariant w.pc == P.Writing && i == w.written <= |w.batch| && repr == old(repr)
        invariant fresh(log.repr - old(log.repr))
        decreases |w.batch| - i
      {
        longer := Others(others(3 + i), longer);
        P.ReachStep(longer, State(), P.WriteOne);
        WriteOne(i);
        longer := longer + [P.WriteOne];
        i := i + 1;
      }
    }

    /** The first `passes` iterations of the writer's loop, under any behaviour of the other threads:
        what the code does is a run of the protocol, with that many passes unless `running_` is down. */
    method ThreadFunc(others: nat -> nat -> seq<Act>, passes: nat, ghost run: seq<P.Step>)
      returns (ghost longer: seq<P.Step>)
      requires Valid() && P.Reaches(run, State()) && w.pc == P.AtLoop
      modifies this, repr, log, log.repr
      ensures Valid() && P.Reaches(longer, State()) && run <= longer
      ensures if w.pc == P.AtLoop then P.Passes(longer) == P.Passes(run) + passes
              else w.pc == P.Finished && P.Passes(longer) < P.Passes(run) + passes && !log.running
    {
      hide P.Reaches, P.Passes, Own, AsyncLogging.Valid;
      longer := run;
      var n := 0;
      while n < passes
        invariant Valid() && P.Reaches(longer, State()) && run <= longer && w.pc == P.AtLoop
        invariant n <= passes && P.Passes(longer) == P.Passes(run) + n
        invariant fresh(repr + log.repr - old(repr + log.repr))
      {
        var go;
        go, longer := FetchBatch(others(n), longer);
        if !go {
          return;
        }
        longer := WriteBatch(others(n), longer);
        P.ReachStep(longer, State(), P.Recycle);
        Recycle();
        longer := longer + [P.Recycle];
        n := n + 1;
      }
    }
  }

  /** The constructor and `start`: the logger and its writer at the beginning of the empty run. */
  method Start() returns (writer: Writer)
    ensures writer.Valid() && P.Reaches([], writer.State()) && writer.w.pc == P.AtLoop
    ensures fresh(writer.repr) && fresh(writer.log.repr)
  {
    P.ReachInitial();
    hide P.Reaches;
    var log := new AsyncLogging();
    log.SetRunning();
    writer := new Writer(log);
  }
}
