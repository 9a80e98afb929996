/** The string versions of `readn` and `writen` in deon/net/Util.cpp, as functions of what the socket will
    do: a script of what `read` and `write` will return next. */
module Sockets {

  datatype ReadResult = Data(bytes: string) | Eof | ReadEintr | ReadEagain | ReadError
  datatype WriteResult = Wrote(n: nat) | WriteEintr | WriteEagain | WriteError

  /** How a run of `read` calls ends. */
  datatype End = Dry | Over | Broken

  datatype Drained = Drained(got: string, end: End, left: seq<ReadResult>)

  /** What reading until something other than data comes gets. */
  function Drain(results: seq<ReadResult>): Drained
    decreases |results|
  {
    if results == [] then Drained("", Dry, [])
    else match results[0]
      case Data(bytes) => var d := Drain(results[1..]); d.(got := bytes + d.got)
      case ReadEintr => Drain(results[1..])
      case ReadEagain => Drained("", Dry, results[1..])
      case Eof => Drained("", Over, results[1..])
      case ReadError => Drained("", Broken, results[1..])
  }

  lemma {:induction false} DrainConsumes(results: seq<ReadResult>)
    ensures Drain(results).got != "" ==> |Drain(results).left| < |results|
    ensures |Drain(results).left| <= |results|
    decreases |results|
  {
    if results != [] { DrainConsumes(results[1..]); }
  }

  /** One more result is looked at. */
  lemma DrainStep(results: seq<ReadResult>)
    ensures results == [] ==> Drain(results) == Drained("", Dry, [])
    ensures results != [] ==> match results[0]
      case Data(bytes) =>
        Drain(results) == Drained(bytes + Drain(results[1..]).got, Drain(results[1..]).end, Drain(results[1..]).left)
      case ReadEintr => Drain(results) == Drain(results[1..])
      case ReadEagain => Drain(results) == Drained("", Dry, results[1..])
      case Eof => Drain(results) == Drained("", Over, results[1..])
      case ReadError => Drain(results) == Drained("", Broken, results[1..])
  {
  }

  datatype Sent = Sent(count: nat, broken: bool, left: seq<WriteResult>)

  /** What offering `n` characters until none is left, or something other than progress comes, sends. */
  function Send(results: seq<WriteResult>, n: nat): (s: Sent)
    ensures s.count <= n
    decreases results, n
  {
    if n == 0 then Sent(0, false, results)
    else if results == [] then Sent(0, false, [])
    else match results[0]
      case Wrote(k) =>
        var now := if k < n then k else n;
        var later := Send(results[1..], n - now);
        later.(count := now + later.count)
      case WriteEintr => Send(results[1..], n)
      case WriteEagain => Sent(0, false, results[1..])
      case WriteError => Sent(0, true, results[1..])
  }

  lemma SendNothing(results: seq<WriteResult>)
    ensures Send(results, 0) == Sent(0, false, results)
  {
  }

  /** The next write takes at least so much. */
  predicate Takes(taking: seq<WriteResult>, n: nat) {
    taking != [] && taking[0].Wrote? && taking[0].n >= n
  }

  /** A socket that takes everything offered leaves nothing to be waited for. */
  lemma SendAll(results: seq<WriteResult>, n: nat)
    requires results != [] && results[0].Wrote? && results[0].n >= n
    ensures Send(results, n).count == n && !Send(results, n).broken
  {
    if n > 0 {
      assert Send(results[1..], 0) == Sent(0, false, results[1..]);
    }
  }

  lemma SendPart(n: nat, all: nat)
    requires n < all
    ensures Send([Wrote(n)], all) == Sent(n, false, [])
  {
    assert [Wrote(n)][1..] == [];
    assert Send([], all - n) == Sent(0, false, []);
  }

  // ---------- several writes ----------

  /** What several events take together. */
  function SendMany(takings: seq<seq<WriteResult>>, n: nat): (s: Sent)
    ensures s.count <= n
  {
    if takings == [] then Sent(0, false, [])
    else
      var now := Send(takings[0], n);
      if now.broken then now
      else
        var later := SendMany(takings[1..], n - now.count);
        later.(count := now.count + later.count)
  }

  function SentBefore(n: nat, s: Sent): Sent {
    s.(count := n + s.count)
  }

  lemma SendManyStep(takings: seq<seq<WriteResult>>, k: nat, n: nat)
    requires k < |takings|
    ensures var now := Send(takings[k], n);
      SendMany(takings[k..], n) ==
      if now.broken then now else SentBefore(now.count, SendMany(takings[k + 1..], n - now.count))
  {
    hide Send;
    assert takings[k..][1..] == takings[k + 1..];
  }

  lemma SendManyEnd(takings: seq<seq<WriteResult>>, n: nat)
    ensures SendMany(takings[|takings|..], n) == Sent(0, false, [])
  {
  }

  lemma SendMost(taking: seq<WriteResult>, n: nat)
    requires Takes(taking, n)
    ensures SendMany([taking], n).count == n && !SendMany([taking], n).broken
  {
    SendAll(taking, n);
    assert [taking][1..] == [];
  }

  // ---------- what the outcomes mean, without following them one by one ----------

  /** The bytes of the results that have some. */
  function Bytes(results: seq<ReadResult>): string {
    if results == [] then ""
    else (if results[0].Data? then results[0].bytes else "") + Bytes(results[1..])
  }

  predicate GoesOnReading(r: ReadResult) {
    r.Data? || r.ReadEintr?
  }

  /** A drain takes the bytes of all results in front of the first that is neither data nor an interrupt; that
      one says how it ends, and what is behind it is left. A script that runs out is a dry socket. */
  lemma {:induction false} DrainMeans(results: seq<ReadResult>, k: nat)
    requires k <= |results| && forall i :: 0 <= i < k ==> GoesOnReading(results[i])
    requires k < |results| ==> !GoesOnReading(results[k])
    ensures var d := Drain(results);
      && d.got == Bytes(results[..k])
      && d.left == (if k < |results| then results[k + 1..] else [])
      && (d.end == Over <==> k < |results| && results[k] == Eof)
      && (d.end == Broken <==> k < |results| && results[k] == ReadError)
  {
    if k == 0 {
      assert results[..0] == [];
    } else {
      DrainMeans(results[1..], k - 1);
      assert results[..k][0] == results[0] && results[..k][1..] == results[1..][..k - 1];
    }
  }

  /** How much the outcomes take together. */
  function Sum(results: seq<WriteResult>): nat {
    if results == [] then 0
    else (if results[0].Wrote? then results[0].n else 0) + Sum(results[1..])
  }

  predicate GoesOnWriting(r: WriteResult) {
    r.Wrote? || r.WriteEintr?
  }

  predicate AllGoOn(results: seq<WriteResult>) {
    forall i :: 0 <= i < |results| ==> GoesOnWriting(results[i])
  }

  lemma TailGoesOn(results: seq<WriteResult>, k: nat)
    requires 0 < k <= |results| && AllGoOn(results[..k])
    ensures GoesOnWriting(results[0]) && AllGoOn(results[1..][..k - 1])
  {
    assert results[..k][0] == results[0];
    assert results[1..][..k - 1] == results[..k][1..];
  }

  lemma SumParts(results: seq<WriteResult>, k: nat)
    requires 0 < k <= |results|
    ensures results[..k][0] == results[0] && results[..k][1..] == results[1..][..k - 1]
    ensures Sum(results[..k]) == (if results[0].Wrote? then results[0].n else 0) + Sum(results[1..][..k - 1])
  {
    assert results[..k][1..] == results[1..][..k - 1];
  }

  /** The outcomes in front of the first refusal take all of it: everything is sent, with as many outcomes as are
      needed. */
  lemma {:induction false} SendEnough(results: seq<WriteResult>, n: nat, k: nat)
    requires k <= |results| && AllGoOn(results[..k]) && Sum(results[..k]) >= n
    requires k > 0 ==> Sum(results[..k - 1]) < n
    ensures Send(results, n) == Sent(n, false, results[k..])
  {
    if k > 0 {
      SumParts(results, k);
      assert results[..k][0] == results[0];
      if k > 1 {
        SumParts(results, k - 1);
      }
      var taken := if results[0].Wrote? then results[0].n else 0;
      if taken >= n {
        assert k == 1;
        assert Send(results[1..], 0) == Sent(0, false, results[1..]);
      } else {
        TailGoesOn(results, k);
        assert k - 1 > 0;
        assert results[..k - 1][1..] == results[1..][..k - 2];
        SendEnough(results[1..], n - taken, k - 1);
        assert results[1..][k - 1..] == results[k..];
      }
    }
  }

  /** The outcomes in front of the first refusal do not take all of it: what they take is sent, and the refusal
      says whether the socket is broken. A script that runs out is a socket that takes no more. */
  lemma {:induction false} SendShort(results: seq<WriteResult>, n: nat, k: nat)
    requires k <= |results| && AllGoOn(results[..k]) && Sum(results[..k]) < n
    requires k < |results| ==> !GoesOnWriting(results[k])
    ensures Send(results, n) ==
      Sent(Sum(results[..k]), k < |results| && results[k] == WriteError, if k < |results| then results[k + 1..] else [])
  {
    if k == 0 {
      assert results[..0] == [];
    } else {
      SumParts(results, k);
      TailGoesOn(results, k);
      var taken := if results[0].Wrote? then results[0].n else 0;
      SendShort(results[1..], n - taken, k - 1);
    }
  }

  /** The first refusal. */
  lemma FirstRefusal(results: seq<WriteResult>) returns (k: nat)
    ensures k <= |results| && AllGoOn(results[..k]) && (k < |results| ==> !GoesOnWriting(results[k]))
  {
    k := 0;
    while k < |results| && GoesOnWriting(results[k])
      invariant k <= |results| && AllGoOn(results[..k])
    {
      k := k + 1;
    }
  }

  /** How few outcomes are enough. */
  lemma FewEnough(results: seq<WriteResult>, n: nat, most: nat) returns (k: nat)
    requires most <= |results| && Sum(results[..most]) >= n
    ensures k <= most && Sum(results[..k]) >= n && (k > 0 ==> Sum(results[..k - 1]) < n)
  {
    k := most;
    while k > 0 && Sum(results[..k - 1]) >= n
      invariant k <= most && Sum(results[..k]) >= n
    {
      k := k - 1;
    }
  }

  /** A socket that takes at least so much at a time. */
  predicate Generous(results: seq<WriteResult>, most: nat) {
    forall k :: 0 <= k < |results| ==> results[k].Wrote? && results[k].n >= most
  }

  lemma GenerousTakes(results: seq<WriteResult>, n: nat, most: nat)
    requires Generous(results, most) && n <= most && results != []
    ensures var s := Send(results, n);
      s.count == n && !s.broken && |s.left| >= |results| - 1 && Generous(s.left, most)
  {
    if n > 0 {
      assert Send(results[1..], 0) == Sent(0, false, results[1..]);
    }
  }

  /** A hard error breaks the connection if and only if it comes before any other refusal and before the counts
      in front of it are enough; the lesser of these counts and what there is to send has been sent. */
  lemma SendMeans(results: seq<WriteResult>, n: nat, k: nat)
    requires k <= |results| && AllGoOn(results[..k]) && (k < |results| ==> !GoesOnWriting(results[k]))
    ensures var s := Send(results, n);
      && (s.broken <==> k < |results| && results[k] == WriteError && Sum(results[..k]) < n)
      && s.count == (if Sum(results[..k]) < n then Sum(results[..k]) else n)
  {
    if Sum(results[..k]) < n {
      SendShort(results, n, k);
    } else {
      var j := FewEnough(results, n, k);
      assert AllGoOn(results[..j]) by {
        forall i | 0 <= i < j ensures GoesOnWriting(results[..j][i]) {
          assert results[..k][i] == results[..j][i];
        }
      }
      SendEnough(results, n, j);
    }
  }
}
