/** Connections, their channels and their timers: deon/net/EpollPoller.cpp, deon/net/Timer.cpp and the
    lifecycle part of deon/net/Http.cpp. A connection object stands for an `Http` with its `Channel`;
    the two shared pointers that keep it alive are the poller's map and its timer. The weak pointer to
    the timer locks as long as the timer has not been destroyed. */
module Poller {
  import opened TimerClock

  class TimerNode {
    const expiredTime: nat
    ghost const setAt: Time
    ghost const timeout: nat
    var deleted: bool
    var http: Conn?
    var destroyed: bool

    /** Timer.cpp 5-10 and 18-23. */
    constructor (http: Conn, timeout: nat, now: Time)
      ensures this.http == http && expiredTime == Deadline(now, timeout) && setAt == now && this.timeout == timeout
      ensures !deleted && !destroyed
    {
      this.http, expiredTime, deleted, destroyed := http, Deadline(now, timeout), false, false;
      setAt, this.timeout := now, timeout;
    }
  }

  class Conn {
    const fd: int
    var timer: TimerNode?
    ghost var closes: nat      // how often handleClose has run

    constructor (fd: int)
      ensures this.fd == fd && timer == null && closes == 0
    {
      this.fd, timer, closes := fd, null, 0;
    }
  }

  /** The timer was set at this time, to go off after so many milliseconds. */
  ghost predicate IsSet(n: TimerNode, timeout: nat, now: Time) {
    n.setAt == now && n.timeout == timeout && n.expiredTime == Deadline(now, timeout)
  }

  lemma {:induction false} EarliestExists(nodes: set<TimerNode>)
    requires nodes != {}
    ensures exists top :: top in nodes && forall n :: n in nodes ==> top.expiredTime <= n.expiredTime
    decreases nodes
  {
    var x :| x in nodes;
    if nodes != {x} {
      EarliestExists(nodes - {x});
      var y :| y in nodes - {x} && forall n :: n in nodes - {x} ==> y.expiredTime <= n.expiredTime;
      assert forall n :: n in nodes ==> n == x || n in nodes - {x};
      if x.expiredTime < y.expiredTime { assert x in nodes; } else { assert y in nodes; }
    }
  }

  class Poller {
    var channels: map<int, Conn?>
    var https: map<int, Conn?>
    var queue: set<TimerNode>
    ghost var conns: set<Conn>           // every connection that was ever registered
    ghost var nodes: set<TimerNode>      // every timer that was ever made

    ghost predicate Open(c: Conn)
      reads this
    {
      c.fd in channels && channels[c.fd] == c
    }

    /** The parts that agree at all times. */
    ghost predicate Maps()
      reads this, conns, nodes
    {
      && queue <= nodes
      && channels.Keys == https.Keys
      && (forall fd :: fd in channels ==> channels[fd] == https[fd])
      && (forall fd :: fd in channels && channels[fd] != null ==> channels[fd] in conns && channels[fd].fd == fd)
      // closed at most once, and closed if and only if no longer open
      && (forall c :: c in conns ==> c.closes == if Open(c) then 0 else 1)
    }

    /** A timer that still holds its connection holds an open one, and is its only timer. */
    ghost predicate TimersHoldOpen()
      reads this, conns, nodes
    {
      && queue <= nodes
      && (forall n :: n in queue ==> !n.destroyed && IsTime(n.setAt) && IsSet(n, n.timeout, n.setAt))
      && (forall n :: n in queue && n.http != null ==> n.http in conns && Open(n.http) && n.http.timer == n)
    }

    /** Every open connection has a timer that holds it. */
    ghost predicate OpenHaveTimers(except: set<Conn>)
      reads this, conns, nodes
    {
      && queue <= nodes
      && forall c :: c in conns && Open(c) && c !in except ==> c.timer != null && c.timer in queue && c.timer.http == c
    }

    ghost predicate Valid()
      reads this, conns, nodes
    {
      Maps() && TimersHoldOpen() && OpenHaveTimers({})
    }

    /** What agreement means for a connection: while it is open, the timer it points to is the one timer
        in the queue that holds it, and it has not been closed; after that no timer holds it, and it has
        been closed once. */
    lemma OneTimerEach(c: Conn)
      requires Valid() && c in conns
      ensures Open(c) ==> c.timer != null && c.timer in queue && c.closes == 0
      ensures Open(c) ==> forall n :: n in queue ==> (n.http == c <==> n == c.timer)
      ensures !Open(c) ==> c.closes == 1 && forall n :: n in queue ==> n.http != c
    {
    }

    /** The descriptors of the open connections, with the deadlines of their timers. */
    ghost function Deadlines(): map<int, nat>
      reads this, conns, nodes
      requires Valid()
    {
      map fd | fd in channels && channels[fd] != null :: TimerOf(fd).expiredTime
    }

    ghost function TimerOf(fd: int): (n: TimerNode)
      reads this, conns, nodes
      requires Valid() && fd in channels && channels[fd] != null
      ensures n == channels[fd].timer
    {
      channels[fd].timer
    }

    constructor ()
      ensures Valid() && conns == {} && nodes == {} && queue == {}
    {
      channels, https, queue, conns, nodes := map[], map[], {}, {}, {};
    }

    /** EpollPoller.cpp 110-117 and Timer.cpp 44-49. */
    method AddTimer(c: Conn, timeout: nat, now: Time)
      requires c in conns && Open(c) && Maps() && TimersHoldOpen() && OpenHaveTimers({c})
      requires IsTime(now) && forall n :: n in queue ==> n.http != c
      modifies this`queue, this`nodes, c`timer
      ensures Valid() && fresh(nodes - old(nodes)) && old(nodes) <= nodes
      ensures c.timer != null && fresh(c.timer) && IsSet(c.timer, timeout, now)
      ensures queue == old(queue) + {c.timer}
    {
      var node := new TimerNode(c, timeout, now);
      queue := queue + {node};
      nodes := nodes + {node};
      c.timer := node;
    }

    /** EpollPoller.cpp 70-78, with its two asserts. */
    method DeleteChannel(c: Conn)
      requires c in conns && Open(c) && Maps()
      modifies this`channels, this`https, c`closes
      ensures Maps() && !Open(c) && channels == old(channels)[c.fd := null]
      ensures forall d :: d in conns && d != c ==> Open(d) == old(Open(d))
    {
      assert c.fd in channels;
      assert channels[c.fd] == c;
      channels := channels[c.fd := null];
      https := https[c.fd := null];
      c.closes := c.closes + 1;
    }

    /** EpollPoller.cpp 51-57, for a connection on a descriptor that is not in use. */
    method Register(c: Conn, timeout: nat, now: Time)
      requires IsTime(now) && Valid() && c !in conns && c.closes == 0 && (c.fd in channels ==> channels[c.fd] == null)
      modifies this, c`timer
      ensures Valid() && Open(c) && c.timer != null && IsSet(c.timer, timeout, now)
      ensures conns == old(conns) + {c} && old(nodes) <= nodes && fresh(nodes - old(nodes))
      ensures channels == old(channels)[c.fd := c]
      ensures forall d :: d in old(conns) ==> Open(d) == old(Open(d))
    {
      channels := channels[c.fd := c];
      https := https[c.fd := c];
      conns := conns + {c};
      AddTimer(c, timeout, now);
    }

    /** EpollPoller.cpp 80-93, when a channel is added or changed: if the kernel refuses, it is erased. */
    method Update(c: Conn, ctlOk: bool)
      requires Valid() && c in conns && Open(c)
      modifies this`channels
      ensures Valid() <==> ctlOk
      ensures channels == if ctlOk then old(channels) else old(channels) - {c.fd}
      ensures Open(c) <==> ctlOk
      ensures forall d :: d in conns && d != c ==> Open(d) == old(Open(d))
    {
      if !ctlOk {
        channels := channels - {c.fd};
      }
    }

    /** EpollPoller.cpp 49-59. If the kernel refuses the channel, the connection is left with a timer although
        it is not open. */
    method AddChannel(c: Conn, timeout: nat, now: Time, ctlOk: bool)
      requires IsTime(now) && Valid() && c !in conns && c.closes == 0 && (c.fd in channels ==> channels[c.fd] == null)
      modifies this, c`timer
      ensures Valid() <==> ctlOk
      ensures Open(c) <==> ctlOk
      ensures c.timer != null && IsSet(c.timer, timeout, now) && c.timer in queue && c.timer.http == c
      ensures conns == old(conns) + {c} && old(nodes) <= nodes && fresh(nodes - old(nodes))
      ensures channels == if ctlOk then old(channels)[c.fd := c] else old(channels) - {c.fd}
      ensures forall d :: d in old(conns) ==> Open(d) == old(Open(d))
    {
      Register(c, timeout, now);
      OneTimerEach(c);
      hide OpenHaveTimers, TimersHoldOpen;
      Update(c, ctlOk);
    }

    /** Http.cpp 267-276: the timer lets go of the connection but stays in the queue. */
    method DeleteTimer(c: Conn)
      requires Valid() && c in conns && Open(c)
      modifies c.timer
      ensures Maps() && TimersHoldOpen() && OpenHaveTimers({c})
      ensures forall n :: n in queue ==> n.http != c && (n != c.timer ==> n.http == old(n.http))
    {
      if c.timer != null && !c.timer.destroyed {
        c.timer.http := null;
        c.timer.deleted := true;
      }
    }

    /** Http.cpp 232-258 with EpollPoller.cpp 61-68 and 80-93: a connection that goes on gets a new timer,
        any other is closed. If the kernel refuses the change of events the channel is erased, and then
        the connection is left with a timer although it is not open. */
    method HandleRegister(c: Conn, goesOn: bool, timeout: nat, now: Time, ctlOk: bool)
      requires IsTime(now) && Valid() && c in conns && Open(c)
      modifies this, c, c.timer
      ensures Valid() <==> ctlOk || !goesOn
      ensures conns == old(conns) && old(nodes) <= nodes && fresh(nodes - old(nodes))
      ensures Open(c) <==> goesOn && ctlOk
      ensures channels == if !goesOn then old(channels)[c.fd := null]
                          else if ctlOk then old(channels) else old(channels) - {c.fd}
      ensures forall d :: d in conns && d != c ==> Open(d) == old(Open(d))
      ensures goesOn ==> c.timer != null && IsSet(c.timer, timeout, now) && c.timer in queue && c.timer.http == c
      ensures c.closes == if goesOn then old(c.closes) else old(c.closes) + 1
    {
      DeleteTimer(c);
      if goesOn {
        AddTimer(c, timeout, now);
        Update(c, ctlOk);
      } else {
        DeleteChannel(c);
      }
    }

    /** Timer.cpp 12-16, with the close it triggers. */
    method Destroy(node: TimerNode)
      requires Maps() && node in nodes && node !in queue && !node.destroyed
      requires node.http != null ==> node.http in conns && Open(node.http)
      modifies this`channels, this`https, node`destroyed
      modifies if node.http == null then {} else {node.http}
      ensures Maps() && node.destroyed
      ensures forall d :: d in conns ==> (Open(d) <==> old(Open(d)) && d != node.http)
      ensures forall d :: d in conns ==> d.timer == old(d.timer)
    {
      if node.http != null {
        DeleteChannel(node.http);
      }
      node.destroyed := true;
    }

    /** One turn of the loop at Timer.cpp 53-60: the earliest timer, if it has expired, is taken out and
        destroyed, and with it the connection it still holds is closed. */
    method ExpireTop(reading: nat) returns (more: bool, ghost top: TimerNode)
      requires Valid() && queue != {}
      modifies this, nodes, conns
      ensures Valid() && conns == old(conns) && nodes == old(nodes)
      ensures top in old(queue) && forall n :: n in old(queue) ==> top.expiredTime <= n.expiredTime
      ensures more <==> top.expiredTime <= reading
      ensures queue == if more then old(queue) - {top} else old(queue)
      ensures forall c :: c in conns ==> (Open(c) <==> old(Open(c)) && (more ==> c != old(top.http)))
      ensures forall n :: n in queue ==> n.http == old(n.http)
      ensures forall c :: c in conns ==> c.timer == old(c.timer)
    {
      EarliestExists(queue);
      var node :| node in queue && forall n :: n in queue ==> node.expiredTime <= n.expiredTime;
      top := node;
      if reading < node.expiredTime {
        return false, top;
      }
      node.deleted := true;
      queue := queue - {node};
      Destroy(node);
      more := true;
    }

    /** Timer.cpp 51-61. The clock is read anew in every turn. When the readings do not decrease, what
        is left is exactly what had not expired at the last reading, and exactly the connections whose
        timers are gone are closed. */
    method HandleExpired(clock: nat -> Time) returns (ghost last: Time)
      requires Valid() && NoWrap(clock)
      modifies this, nodes, conns
      ensures Valid() && conns == old(conns) && nodes == old(nodes)
      ensures Reading(clock(0)) <= Reading(last) && exists k: nat :: last == clock(k)
      ensures forall n :: n in queue <==> n in old(queue) && !Expired(last, n.expiredTime)
      ensures forall c :: c in conns ==> c.timer == old(c.timer)
      ensures forall c :: c in conns ==> (Open(c) <==> old(Open(c)) && !Expired(last, c.timer.expiredTime))
    {
      last := clock(0);
      var turn := 0;
      while queue != {}
        invariant Valid() && conns == old(conns) && nodes == old(nodes) && queue <= old(queue)
        invariant last == clock(if turn > 0 then turn - 1 else 0) && Reading(clock(0)) <= Reading(last)
        invariant turn == 0 ==> queue == old(queue)
        invariant forall n :: n in old(queue) && n !in queue ==> Expired(last, n.expiredTime)
        invariant forall c :: c in conns ==> c.timer == old(c.timer)
        invariant forall c :: c in conns ==> (Open(c) <==> old(Open(c)) && c.timer in queue)
        decreases queue
      {
        ghost var before := last;
        last := clock(turn);
        assert turn > 0 ==> Reading(before) <= Reading(last);
        var more, top := ExpireTop(Reading(clock(turn)));
        turn := turn + 1;
        if !more {
          break;
        }
      }
    }

    /** A sweep closes no connection before the timeout it was last registered with has passed in real
        time, also when the clock has wrapped since then. */
    method SweepIsNeverEarly(clock: nat -> Time) returns (ghost last: Time)
      requires Valid() && NoWrap(clock) && forall k: nat :: IsTime(clock(k))
      requires forall n, k: nat :: n in queue ==> Millis(n.setAt) <= Millis(clock(k))
      modifies this, nodes, conns
      ensures Valid() && conns == old(conns)
      ensures forall c :: c in conns && old(Open(c)) && !Open(c) ==>
                c.timer != null && Millis(last) - Millis(c.timer.setAt) >= c.timer.timeout
    {
      ghost var before := queue;
      last := HandleExpired(clock);
      forall c | c in conns && old(Open(c)) && !Open(c)
        ensures c.timer != null && Millis(last) - Millis(c.timer.setAt) >= c.timer.timeout
      {
        var n := c.timer;
        assert n in before;
        NeverEarly(n.setAt, last, n.timeout);
      }
    }

    /** A connection is accepted. The kernel does not give out a descriptor that is in use. */
    method Accept(fd: int, timeout: nat, now: Time)
      requires Valid() && IsTime(now)
      modifies this
      ensures Valid() && Deadlines() == AfterLife(old(Deadlines()), Life.Accept(fd, timeout, now), now)
      ensures fresh(conns - old(conns)) && fresh(nodes - old(nodes))
    {
      ghost var before := Deadlines();
      if fd !in channels || channels[fd] == null {
        var c := new Conn(fd);
        AddChannel(c, timeout, now, true);
        assert Deadlines() == before[fd := Deadline(now, timeout)];
      }
    }

    /** The events of a connection have been handled. An event on a descriptor that is not open is not
        delivered. */
    method Event(fd: int, goesOn: bool, timeout: nat, now: Time)
      requires Valid() && IsTime(now)
      modifies this, conns, nodes
      ensures Valid() && Deadlines() == AfterLife(old(Deadlines()), Life.Event(fd, goesOn, timeout, now), now)
      ensures conns == old(conns) && fresh(nodes - old(nodes))
    {
      ghost var before := Deadlines();
      if fd in channels && channels[fd] != null {
        HandleRegister(channels[fd], goesOn, timeout, now, true);
        assert Deadlines() == if goesOn then before[fd := Deadline(now, timeout)] else before - {fd};
      }
    }

    method Sweep(clock: nat -> Time) returns (ghost last: Time)
      requires Valid() && NoWrap(clock)
      modifies this, conns, nodes
      ensures Valid() && Deadlines() == AfterLife(old(Deadlines()), Life.Sweep(clock), last)
      ensures conns == old(conns) && nodes == old(nodes)
      ensures exists k: nat :: last == clock(k)
    {
      ghost var before := Deadlines();
      ghost var channels' := channels;
      last := HandleExpired(clock);
      forall fd | fd in Deadlines()
        ensures fd in before && Deadlines()[fd] == before[fd] && !Expired(last, before[fd])
      {
        assert Open(channels[fd]);
      }
      forall fd | fd in before && !Expired(last, before[fd]) ensures fd in Deadlines() {
        assert Open(channels'[fd]);
      }
      assert Deadlines() == map fd | fd in before && !Expired(last, before[fd]) :: before[fd];
    }

    /** Any run of accepts, events and sweeps, with `epoll_ctl` succeeding: the parts agree after every
        step, so the asserts of `deleteChannel` hold whenever it is reached and no connection is closed
        twice; and which connections are open, with which deadlines, is what the history says. */
    method Serve(steps: seq<Life>) returns (ghost lasts: seq<Time>)
      requires Valid() && forall k :: 0 <= k < |steps| ==> IsLife(steps[k])
      modifies this, conns, nodes
      ensures Valid() && |lasts| == |steps|
      ensures Deadlines() == History(old(Deadlines()), steps, lasts)
      ensures forall k :: 0 <= k < |steps| && steps[k].Sweep? ==> exists j: nat :: lasts[k] == steps[k].clock(j)
    {
      lasts := [];
      ghost var before := Deadlines();
      for k := 0 to |steps|
        invariant Valid() && fresh(conns - old(conns)) && fresh(nodes - old(nodes)) && |lasts| == k
        invariant Deadlines() == History(before, steps[..k], lasts)
        invariant forall i :: 0 <= i < k && steps[i].Sweep? ==> exists j: nat :: lasts[i] == steps[i].clock(j)
      {
        ghost var last := Time(0, 0);
        match steps[k] {
          case Accept(fd, timeout, now) =>
            Accept(fd, timeout, now);
          case Event(fd, goesOn, timeout, now) =>
            Event(fd, goesOn, timeout, now);
          case Sweep(clock) =>
            last := Sweep(clock);
        }
        assert steps[..k + 1][..k] == steps[..k] && (lasts + [last])[..k] == lasts;
        lasts := lasts + [last];
      }
      assert steps[..|steps|] == steps;
    }
  }

  /** What one of these does to the open connections and their deadlines; `last` is the last reading of
      the clock that a sweep takes. */
  ghost function AfterLife(open: map<int, nat>, step: Life, last: Time): map<int, nat> {
    match step
    case Accept(fd, timeout, now) => if fd in open then open else open[fd := Deadline(now, timeout)]
    case Event(fd, goesOn, timeout, now) =>
      if fd !in open then open else if goesOn then open[fd := Deadline(now, timeout)] else open - {fd}
    case Sweep(_) => map fd | fd in open && !Expired(last, open[fd]) :: open[fd]
  }

  ghost function History(open: map<int, nat>, steps: seq<Life>, lasts: seq<Time>): map<int, nat>
    requires |lasts| == |steps|
  {
    if steps == [] then open
    else var n := |steps| - 1; AfterLife(History(open, steps[..n], lasts[..n]), steps[n], lasts[n])
  }

  /** Successive readings of the clock do not decrease: it does not wrap while it is being read. */
  ghost predicate NoWrap(clock: nat -> Time) {
    forall i: nat, j: nat :: i <= j ==> Reading(clock(i)) <= Reading(clock(j))
  }

  /** What happens to the connections of a poller. */
  datatype Life =
    | Accept(fd: int, timeout: nat, now: Time)
    | Event(fd: int, goesOn: bool, timeout: nat, now: Time)
    | Sweep(clock: nat -> Time)

  ghost predicate IsLife(step: Life) {
    match step
    case Accept(_, _, now) => IsTime(now)
    case Event(_, _, _, now) => IsTime(now)
    case Sweep(clock) => NoWrap(clock)
  }
}
