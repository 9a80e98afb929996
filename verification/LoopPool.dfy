/** deon/net/EventLoopThreadPool.cpp: which loop the next connection goes to. */
module LoopPool {

  /** How many of the `count` calls after the first `start` went to `loop`, call k going to k mod n. */
  function Assigned(n: nat, loop: nat, start: nat, count: nat): nat
    requires n > 0
  {
    if count == 0 then 0
    else Assigned(n, loop, start, count - 1) + if (start + count - 1) % n == loop then 1 else 0
  }

  /** n calls in a row go once to each loop. */
  lemma {:induction false} RoundGoesOnceToEach(n: nat, loop: nat, start: nat, count: nat)
    requires loop < n && count <= n
    ensures Assigned(n, loop, start, count) == if (loop - start) % n < count then 1 else 0
  {
    if count > 0 {
      RoundGoesOnceToEach(n, loop, start, count - 1);
      SameLoop(n, loop, start, count - 1);
    }
  }

  lemma SameLoop(n: nat, loop: nat, start: nat, k: nat)
    requires loop < n && k < n
    ensures (start + k) % n == loop <==> (loop - start) % n == k
  {
    var q, r := start / n, start % n;
    assert start == q * n + r;
    ModIs(start + k, if r + k < n then q else q + 1, if r + k < n then r + k else r + k - n, n);
    ModIs(loop - start, if loop >= r then -q else -q - 1, if loop >= r then loop - r else loop - r + n, n);
  }

  lemma AtLeastOnce(d: int, n: nat)
    requires d >= 1
    ensures d * n >= n
  {
    assert d * n == n + (d - 1) * n;
  }

  lemma ModIs(x: int, q: int, r: nat, n: nat)
    requires n > 0 && r < n && x == q * n + r
    ensures x % n == r
  {
    var q', r' := x / n, x % n;
    assert x == q' * n + r';
    assert (q - q') * n == r' - r;
    assert (q' - q) * n == r - r';
    if q' < q { AtLeastOnce(q - q', n); } else if q' > q { AtLeastOnce(q' - q, n); }
  }

  /** In any window of calls, the numbers of connections of two loops differ by at most one. */
  lemma {:induction false} Fair(n: nat, a: nat, b: nat, start: nat, count: nat)
    requires a < n && b < n
    ensures -1 <= Assigned(n, a, start, count) - Assigned(n, b, start, count) <= 1
    decreases count
  {
    if count <= n {
      RoundGoesOnceToEach(n, a, start, count);
      RoundGoesOnceToEach(n, b, start, count);
    } else {
      LastRound(n, a, start, count);
      LastRound(n, b, start, count);
      Fair(n, a, b, start, count - n);
    }
  }

  /** The last n calls of a window count one. */
  lemma LastRound(n: nat, loop: nat, start: nat, count: nat)
    requires loop < n && count >= n
    ensures Assigned(n, loop, start, count) == Assigned(n, loop, start, count - n) + 1
  {
    Split(n, loop, start, count - n, n);
    RoundGoesOnceToEach(n, loop, start + count - n, n);
  }

  lemma {:induction false} Split(n: nat, loop: nat, start: nat, one: nat, two: nat)
    requires n > 0
    ensures Assigned(n, loop, start, one + two) == Assigned(n, loop, start, one) + Assigned(n, loop, start + one, two)
  {
    if two > 0 {
      Split(n, loop, start, one, two - 1);
      assert start + (one + two) - 1 == start + one + two - 1;
    }
  }

  class EventLoopThreadPool<Loop> {
    const baseLoop: Loop
    const numThreads: nat
    var loops: seq<Loop>
    var next: nat
    ghost var calls: nat      // how many calls of getNextLoop came after `start`

    ghost predicate Valid()
      reads this
    {
      if loops == [] then next == calls == 0 else |loops| >= numThreads > 0 && next == calls % numThreads
    }

    /** Lines 3-9. */
    constructor (baseLoop: Loop, numThreads: nat)
      ensures Valid() && calls == 0 && loops == [] && this.baseLoop == baseLoop && this.numThreads == numThreads
    {
      this.baseLoop, this.numThreads := baseLoop, numThreads;
      loops, next, calls := [], 0, 0;
    }

    /** Lines 15-24; `startLoop` says which loop the thread number i comes up with. A second start puts as
        many loops behind the first ones. */
    method Start(startLoop: nat -> Loop)
      requires Valid()
      modifies this`loops
      ensures Valid() && |loops| == |old(loops)| + numThreads && old(loops) <= loops
      ensures forall i :: 0 <= i < numThreads ==> loops[|old(loops)| + i] == startLoop(i)
    {
      for i := 0 to numThreads
        invariant |loops| == |old(loops)| + i && old(loops) <= loops
        invariant forall k :: 0 <= k < i ==> loops[|old(loops)| + k] == startLoop(k)
      {
        loops := loops + [startLoop(i)];
      }
    }

    /** Lines 26-37: with n threads the k-th call returns loop k mod n, or the base loop if there are none.
        Loops of a second start are never returned. */
    method GetNextLoop() returns (loop: Loop)
      requires Valid()
      modifies this`next, this`calls
      ensures Valid() && calls == if loops == [] then 0 else old(calls) + 1
      ensures loop == if loops == [] then baseLoop else loops[old(calls) % numThreads]
    {
      loop := baseLoop;
      if loops != [] {
        loop := loops[next];
        NextCall(calls, numThreads);
        next, calls := (next + 1) % numThreads, calls + 1;
      }
    }
  }

  lemma NextCall(k: nat, n: nat)
    requires n > 0
    ensures (k % n + 1) % n == (k + 1) % n
  {
    var q, r := k / n, k % n;
    assert k == q * n + r;
    ModIs(k + 1, if r + 1 < n then q else q + 1, if r + 1 < n then r + 1 else 0, n);
    ModIs(r + 1, if r + 1 < n then 0 else 1, if r + 1 < n then r + 1 else 0, n);
  }
}
