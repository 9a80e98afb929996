/** The clock of deon/net/Timer.cpp: wall time in milliseconds, reduced modulo ten thousand seconds. */
module TimerClock {

  const PERIOD := 10000 * 1000

  /** What `gettimeofday` returns. */
  datatype Time = Time(sec: nat, usec: nat)

  predicate IsTime(t: Time) {
    t.usec < 1000000
  }

  /** Line 22 and line 29. */
  function Reading(t: Time): nat {
    (t.sec % 10000) * 1000 + t.usec / 1000
  }

  function Deadline(setAt: Time, timeout: nat): nat {
    Reading(setAt) + timeout
  }

  /** `isValid` returns false. */
  predicate Expired(now: Time, deadline: nat) {
    Reading(now) >= deadline
  }

  /** Real time in whole milliseconds, which never decreases. */
  function Millis(t: Time): nat {
    t.sec * 1000 + t.usec / 1000
  }

  lemma ReadingIsMillis(t: Time)
    requires IsTime(t)
    ensures Reading(t) == Millis(t) % PERIOD
  {
    var q, r := t.sec / 10000, t.sec % 10000;
    assert t.sec * 1000 == q * PERIOD + r * 1000;
    ModOf(Millis(t), q, Reading(t));
  }

  /** The clock starts anew every ten thousand seconds, and counts milliseconds in between. */
  lemma ClockMeans(t: Time)
    requires IsTime(t)
    ensures Reading(Time(t.sec + 10_000, t.usec)) == Reading(t) < 10_000_000
    ensures t.sec < 10_000 ==> Reading(t) == 1000 * t.sec + t.usec / 1000
    ensures t.sec % 10_000 != 9_999 ==> Reading(Time(t.sec + 1, t.usec)) == Reading(t) + 1000
  {
    assert (t.sec + 10_000) % 10_000 == t.sec % 10_000;
    assert t.sec % 10_000 != 9_999 ==> (t.sec + 1) % 10_000 == t.sec % 10_000 + 1;
  }

  lemma ModOf(m: nat, q: nat, r: nat)
    requires m == q * PERIOD + r && r < PERIOD
    ensures m % PERIOD == r && m / PERIOD == q
  {
  }

  /** A timer never fires before its time, also across the wrap of the clock. */
  lemma NeverEarly(setAt: Time, now: Time, timeout: nat)
    requires IsTime(setAt) && IsTime(now) && Millis(setAt) <= Millis(now)
    requires Expired(now, Deadline(setAt, timeout))
    ensures Millis(now) - Millis(setAt) >= timeout
  {
    ReadingIsMillis(setAt);
    ReadingIsMillis(now);
    QuotientGrows(Millis(setAt), Millis(now));
  }

  lemma QuotientGrows(a: nat, b: nat)
    requires a <= b
    ensures b % PERIOD - a % PERIOD <= b - a
    ensures a / PERIOD == b / PERIOD ==> b % PERIOD - a % PERIOD == b - a
  {
  }

  /** Within the period it was set in, a timer has fired exactly when its time has passed. */
  lemma FiresOnTime(setAt: Time, now: Time, timeout: nat)
    requires IsTime(setAt) && IsTime(now) && Millis(setAt) <= Millis(now)
    requires Millis(setAt) / PERIOD == Millis(now) / PERIOD
    ensures Expired(now, Deadline(setAt, timeout)) <==> Millis(now) - Millis(setAt) >= timeout
  {
    ReadingIsMillis(setAt);
    ReadingIsMillis(now);
    QuotientGrows(Millis(setAt), Millis(now));
  }

  function TimeOf(millis: nat): Time {
    Time(millis / 1000, (millis % 1000) * 1000)
  }

  lemma MillisBack(millis: nat)
    ensures IsTime(TimeOf(millis)) && Millis(TimeOf(millis)) == millis
  {
    assert (millis % 1000) * 1000 / 1000 == millis % 1000;
  }

  lemma ModAdd(a: nat, t: nat)
    requires a % PERIOD + t < PERIOD
    ensures (a + t) % PERIOD == a % PERIOD + t
  {
    assert a == (a / PERIOD) * PERIOD + a % PERIOD;
    ModOf(a + t, a / PERIOD, a % PERIOD + t);
  }

  lemma FiresAtDeadline(setAt: Time, timeout: nat)
    requires IsTime(setAt) && Reading(setAt) + timeout < PERIOD
    ensures var now := TimeOf(Millis(setAt) + timeout);
            IsTime(now) && Millis(now) == Millis(setAt) + timeout && Expired(now, Deadline(setAt, timeout))
  {
    hide Reading, Millis, TimeOf, IsTime;
    var now := TimeOf(Millis(setAt) + timeout);
    ReadingIsMillis(setAt);
    MillisBack(Millis(setAt) + timeout);
    ReadingIsMillis(now);
    ModAdd(Millis(setAt), timeout);
  }

  /** A timer fires at some time if and only if its deadline lies before the wrap; one that is set less
      than its timeout before the wrap never fires at all. */
  lemma FiresEver(setAt: Time, timeout: nat)
    requires IsTime(setAt)
    ensures (exists now :: IsTime(now) && Millis(setAt) <= Millis(now) && Expired(now, Deadline(setAt, timeout)))
            <==> Reading(setAt) + timeout < PERIOD
  {
    if Reading(setAt) + timeout < PERIOD {
      FiresAtDeadline(setAt, timeout);
    }
    forall now | IsTime(now) ensures Reading(now) < PERIOD {
      ReadingIsMillis(now);
    }
  }

  /** For example, two seconds that are set one second before the wrap. */
  lemma NeverFires(now: Time)
    requires IsTime(now)
    ensures !Expired(now, Deadline(Time(9999, 0), 2000))
  {
    ReadingIsMillis(now);
  }
}
