/** Whole conversations with a connection of deon/net/Http.cpp: requests in pieces, in bursts and at the
    end of a stream, and answers the socket takes in pieces. */
module HttpService {
  import opened HttpHeader
  import opened HttpStages
  import opened Sockets
  import opened C = Http
  import L = HttpLine
  import HttpPipeline

  /** The socket becomes readable, without being writable, and this can be read. */
  datatype Arrival = Arrival(revents: set<Flag>, arriving: seq<ReadResult>)

  predicate IsPiece(a: Arrival) {
    var d := Drain(a.arriving);
    HasInput(a.revents) && EPOLLOUT !in a.revents && d.got != "" && d.end == Dry && d.left == []
  }

  /** All that comes with these. */
  function Arrived(pieces: seq<Arrival>): string {
    if pieces == [] then "" else Arrived(pieces[..|pieces| - 1]) + Drain(pieces[|pieces| - 1].arriving).got
  }

  lemma ArrivedSnoc(pieces: seq<Arrival>, k: nat)
    requires k < |pieces|
    ensures Arrived(pieces[..k + 1]) == Arrived(pieces[..k]) + Drain(pieces[k].arriving).got
  {
    assert pieces[..k + 1][..k] == pieces[..k];
  }

  /** What the client's header block says of the connection, in the two spellings that are understood; of several
      lines with this key the last one counts. */
  ghost predicate AsksToKeep(m: HttpPipeline.Message) {
    var ls := [m.first] + m.later;
    LastIs(ls, "Connection", "Keep-Alive") || LastIs(ls, "Connection", "keep-alive")
  }

  lemma AsksToKeepMeans(m: HttpPipeline.Message)
    ensures AsksToKeep(m) <==> WantsKeepAlive(HttpPipeline.Known(m).headers)
  {
    var ls := [m.first] + m.later;
    FoldMeans(ls, map[], "Connection", "Keep-Alive");
    FoldMeans(ls, map[], "Connection", "keep-alive");
  }

  /** A request for a file, in a form the parser is made for. */
  predicate IsAsked(m: HttpPipeline.Message) {
    HttpPipeline.Sendable(m) && m.f.verb != L.M_POST
  }

  /** The request comes in these pieces, cut where the parser can go on. */
  predicate Comes(pieces: seq<Arrival>, m: HttpPipeline.Message) {
    && pieces != [] && Arrived(pieces) == HttpPipeline.MessageText(m)
    && (forall k :: 0 <= k < |pieces| ==> IsPiece(pieces[k]))
    && (forall k :: 0 < k < |pieces| ==> HttpPipeline.Waits(Arrived(pieces[..k])))
  }

  /** A piece of a request comes, and more is needed. */
  method PieceComes(c: Http, a: Arrival, ghost text: string)
    requires c.Reading(text) && IsPiece(a) && HttpPipeline.Waits(text + Drain(a.arriving).got)
    modifies c
    ensures c.Reading(text + Drain(a.arriving).got) && c.served == old(c.served) && c.wire == old(c.wire)
    ensures c.keepAlive == old(c.keepAlive)
  {
    hide Replies, Drain, Send, Phase, Advance, HttpPipeline.Waits, PageLast, SuffixOf;
    ghost var got := Drain(a.arriving).got;
    PhaseGrows(c.Pos(), text, got);
    AdvanceWaits(c.Pos().(input := c.inputBuffer + got), text + got, c.stoi);
    c.toRead, c.toWrite := a.arriving, [];
    SendNothing([]);
    c.HandleEvents(a.revents);
  }

  /** The last piece of a request comes. What is behind the request stays in the buffer. */
  method LastPieceComes(c: Http, a: Arrival, taking: seq<WriteResult>, ghost text: string,
                        ghost m: HttpPipeline.Message, ghost rest: string)
    requires c.Reading(text) && IsPiece(a) && IsAsked(m)
    requires text + Drain(a.arriving).got == HttpPipeline.MessageText(m) + rest
    requires c.reply(|c.served|).Served?
    requires rest == "" || Takes(taking, |c.reply(|c.served|).response|)
    modifies c
    ensures c.AtRest() && c.served == old(c.served) + [HttpPipeline.Known(m)] && c.inputBuffer == rest
    ensures Offered(old(c.Now()).(toWrite := taking), c.Now(), c.reply(|old(c.served)|).response)
    ensures (c.closed <==> c.err) && (!c.closed ==> c.Clean())
    ensures c.keepAlive == (old(c.keepAlive) || AsksToKeep(m))
    ensures !c.closed ==> c.timeout == if c.keepAlive then 300_000 else 2_000
  {
    AsksToKeepMeans(m);
    hide Replies, Drain, Send, Phase, Advance, HttpPipeline.ParseOne, PageLast, SuffixOf;
    hide HttpPipeline.Sendable, HttpPipeline.MessageText, HttpPipeline.Known, AsksToKeep, WantsKeepAlive;
    ghost var got := Drain(a.arriving).got;
    PhaseGrows(c.Pos(), text, got);
    HttpPipeline.MessageIsParsed(m, rest);
    HttpPipeline.MessageNotEmpty(m);
    AdvanceParsed(c.Pos().(input := c.inputBuffer + got), text + got, c.stoi);
    if rest != "" {
      SendAll(taking, |c.reply(|c.served|).response|);
    }
    assert "" + c.reply(|c.served|).response == c.reply(|c.served|).response;
    c.toRead, c.toWrite := a.arriving, taking;
    c.HandleEvents(a.revents);
  }

  /** A request comes in any number of pieces, each cut at a place where the parser can go on, and the
      socket takes the answer: it is served as it was meant, the answer is sent, and the connection is
      ready for the next. */
  method ServeOne(c: Http, pieces: seq<Arrival>, taking: seq<WriteResult>, ghost m: HttpPipeline.Message)
    requires c.Ready() && IsAsked(m) && Comes(pieces, m)
    requires c.reply(|c.served|).Served? && Takes(taking, |c.reply(|c.served|).response|)
    modifies c
    ensures c.Ready() && c.served == old(c.served) + [HttpPipeline.Known(m)]
    ensures c.keepAlive == (old(c.keepAlive) || AsksToKeep(m))
    ensures c.timeout == if c.keepAlive then 300_000 else 2_000
  {
    hide Replies, Drain, Send, Phase, Advance, C.Http.Valid, HttpPipeline.Sendable, HttpPipeline.MessageText;
    hide HttpPipeline.Known, HttpPipeline.Waits, IsPiece, Offered, Takes, AsksToKeep;
    var n := |pieces| - 1;
    CleanPhase(c.Pos());
    for k := 0 to n
      invariant c.Reading(Arrived(pieces[..k])) && c.served == old(c.served) && c.keepAlive == old(c.keepAlive)
    {
      ArrivedSnoc(pieces, k);
      PieceComes(c, pieces[k], Arrived(pieces[..k]));
    }
    ArrivedSnoc(pieces, n);
    assert pieces[..n + 1] == pieces;
    assert HttpPipeline.MessageText(m) + "" == HttpPipeline.MessageText(m);
    ghost var before := c.Now();
    LastPieceComes(c, pieces[n], taking, Arrived(pieces[..n]), m, "");
    TakesAll(before.(toWrite := taking), c.Now(), c.reply(|before.served|).response);
  }

  /** A client that sends any list of requests, each in any number of pieces and each when the answer to
      the one before has been taken: every request is served as it was meant, every answer is sent, and
      the connection stays open for the next. */
  method ServeEach(c: Http, ms: seq<HttpPipeline.Message>, pieces: seq<seq<Arrival>>, taking: seq<seq<WriteResult>>)
    requires c.Ready() && |pieces| == |taking| == |ms|
    requires forall k :: 0 <= k < |ms| ==> IsAsked(ms[k]) && Comes(pieces[k], ms[k])
    requires forall k :: 0 <= k < |ms| ==>
      c.reply(|c.served| + k).Served? && Takes(taking[k], |c.reply(|c.served| + k).response|)
    modifies c
    ensures c.Ready() && c.served == old(c.served) + HttpPipeline.AllKnown(ms) && c.wire == Replies(c.reply, |c.served|)
    ensures c.keepAlive <==> old(c.keepAlive) || exists k :: 0 <= k < |ms| && AsksToKeep(ms[k])
    ensures ms != [] ==> c.timeout == if c.keepAlive then 300_000 else 2_000
  {
    hide Replies, IsAsked, Comes, Takes, HttpPipeline.Known, AsksToKeep;
    for k := 0 to |ms|
      invariant c.Ready() && c.served == old(c.served) + HttpPipeline.AllKnown(ms)[..k]
      invariant c.keepAlive <==> old(c.keepAlive) || exists i :: 0 <= i < k && AsksToKeep(ms[i])
      invariant k > 0 ==> c.timeout == if c.keepAlive then 300_000 else 2_000
    {
      ServeOne(c, pieces[k], taking[k], ms[k]);
    }
    assert c.wire + "" == c.wire;
  }

  /** An event that brings nothing. */
  method NothingHappens(c: Http, revents: set<Flag>)
    requires c.AtRest() && !c.closed && c.outputBuffer == "" && EPOLLOUT !in c.events && EPOLLOUT !in revents
    modifies c
    ensures c.AtRest() && !c.closed && c.outputBuffer == "" && EPOLLOUT !in c.events
    ensures c.served == old(c.served) && c.Pos() == old(c.Pos())
  {
    hide Replies, Drain, Send, Advance, SuffixOf, PageLast, Handled;
    c.toRead, c.toWrite := [], [];
    NothingComes(c.Now(), c.reply, c.stoi);
    c.HandleEvents(revents);
  }

  /** Several requests come at once: the first is served, and none of the others, although they are
      complete and in the buffer, as long as nothing more comes. */
  method ServeBurst(c: Http, ms: seq<HttpPipeline.Message>, a: Arrival, taking: seq<WriteResult>, idle: seq<set<Flag>>)
    requires c.Ready() && ms != [] && forall k :: 0 <= k < |ms| ==> IsAsked(ms[k])
    requires IsPiece(a) && Drain(a.arriving).got == HttpPipeline.AllText(ms)
    requires c.reply(|c.served|).Served? && Takes(taking, |c.reply(|c.served|).response|)
    requires forall k :: 0 <= k < |idle| ==> EPOLLOUT !in idle[k]
    modifies c
    ensures c.AtRest() && !c.closed && c.outputBuffer == "" && EPOLLOUT !in c.events
    ensures c.served == old(c.served) + [HttpPipeline.Known(ms[0])] && c.inputBuffer == HttpPipeline.AllText(ms[1..])
  {
    hide Replies, Drain, Send, Phase, Advance, C.Http.Valid, HttpPipeline.Sendable, HttpPipeline.MessageText;
    hide HttpPipeline.Known, IsPiece, Offered, Takes;
    CleanPhase(c.Pos());
    assert "" + Drain(a.arriving).got == HttpPipeline.MessageText(ms[0]) + HttpPipeline.AllText(ms[1..]);
    ghost var before := c.Now();
    LastPieceComes(c, a, taking, "", ms[0], HttpPipeline.AllText(ms[1..]));
    TakesAll(before.(toWrite := taking), c.Now(), c.reply(|before.served|).response);
    for k := 0 to |idle|
      invariant c.AtRest() && !c.closed && c.outputBuffer == "" && EPOLLOUT !in c.events
      invariant c.served == before.served + [HttpPipeline.Known(ms[0])]
      invariant c.inputBuffer == HttpPipeline.AllText(ms[1..])
    {
      NothingHappens(c, idle[k]);
    }
  }

  /** A client that ends its stream behind its requests gets no answer to any of them. */
  method ServeNoneAtEnd(c: Http, ms: seq<HttpPipeline.Message>, revents: set<Flag>)
    requires c.Ready() && HasInput(revents) && forall k :: 0 <= k < |ms| ==> IsAsked(ms[k])
    modifies c
    ensures c.AtRest() && c.closed && c.served == old(c.served) && c.wire == old(c.wire)
  {
    c.toRead := [Data(HttpPipeline.AllText(ms)), Eof];
    assert Drain([Eof]).end == Over;
    c.HandleEvents(revents);
  }

  /** The socket becomes writable, and takes something of what is buffered. */
  method WriteSome(c: Http, taking: seq<WriteResult>)
    requires c.AtRest() && !c.closed
    modifies c
    ensures c.AtRest() && c.served == old(c.served) && c.inputBuffer == old(c.inputBuffer)
    ensures c.responses == old(c.responses)
    ensures var s := Send(taking, |old(c.outputBuffer)|);
      && c.wire == old(c.wire) + old(c.outputBuffer)[..s.count] && (c.closed <==> s.broken)
      && (!c.closed ==> c.outputBuffer == old(c.outputBuffer)[s.count..])
    ensures !c.closed && EPOLLOUT in old(c.events) ==> c.events == {EPOLLET, EPOLLOUT}
  {
    hide Replies, Send, SuffixOf, PageLast;
    c.toWrite := taking;
    c.HandleEvents({EPOLLOUT});
    assert c.responses == Replies(c.reply, |c.served|) == old(c.responses);
  }

  /** What is buffered is taken in pieces over several events. When the pieces add up to all of it, every
      response is on the wire whole; the connection is closed exactly if a write fails. */
  method WriteOut(c: Http, takings: seq<seq<WriteResult>>)
    requires c.AtRest() && !c.closed
    modifies c
    ensures c.AtRest() && c.served == old(c.served) && c.inputBuffer == old(c.inputBuffer)
    ensures var s := SendMany(takings, |old(c.outputBuffer)|);
      && c.wire == old(c.wire) + old(c.outputBuffer)[..s.count] && (c.closed <==> s.broken)
      && (!c.closed ==> c.outputBuffer == old(c.outputBuffer)[s.count..])
      && (!c.closed && s.count == |old(c.outputBuffer)| ==>
           c.outputBuffer == "" && c.wire == Replies(c.reply, |c.served|))
    ensures !c.closed && takings != [] && EPOLLOUT in old(c.events) ==> c.events == {EPOLLET, EPOLLOUT}
  {
    hide Replies, Send, SendMany, C.Http.AtRest;
    ghost var all: string, sent: nat := c.outputBuffer, 0;
    assert takings[0..] == takings;
    for k := 0 to |takings|
      invariant c.AtRest() && !c.closed && c.served == old(c.served) && c.inputBuffer == old(c.inputBuffer)
      invariant sent <= |all| && c.wire == old(c.wire) + all[..sent] && c.outputBuffer == all[sent..]
      invariant SendMany(takings, |all|) == SentBefore(sent, SendMany(takings[k..], |all| - sent))
      invariant EPOLLOUT in old(c.events) ==> EPOLLOUT in c.events && (k > 0 ==> c.events == {EPOLLET, EPOLLOUT})
    {
      SendManyStep(takings, k, |all| - sent);
      ghost var n := Send(takings[k], |c.outputBuffer|).count;
      assert all[..sent] + all[sent..][..n] == all[..sent + n];
      WriteSome(c, takings[k]);
      if c.closed {
        return;
      }
      sent := sent + n;
    }
    SendManyEnd(takings, |all| - sent);
    c.AllSent();
  }

  /** The request is answered, but the socket takes only a part of the answer at first. When it has taken
      all of it, the connection has nothing to send, and waits for nothing but to send. */
  method ServeWithPartialWrite(c: Http, a: Arrival, n: nat, ghost m: HttpPipeline.Message)
    requires c.Ready() && IsAsked(m) && IsPiece(a) && Drain(a.arriving).got == HttpPipeline.MessageText(m)
    requires c.reply(|c.served|).Served? && n < |c.reply(|c.served|).response|
    modifies c
    ensures c.AtRest() && !c.closed && c.served == old(c.served) + [HttpPipeline.Known(m)]
    ensures c.inputBuffer == c.outputBuffer == "" && c.wire == Replies(c.reply, |c.served|)
    ensures c.events == {EPOLLET, EPOLLOUT}
  {
    hide Replies, Drain, Phase, Advance, SuffixOf, PageLast, HttpPipeline.Sendable, HttpPipeline.MessageText;
    hide HttpPipeline.Known, IsPiece;
    CleanPhase(c.Pos());
    ghost var response := c.reply(|c.served|).response;
    SendPart(n, |response|);
    assert "" + Drain(a.arriving).got == HttpPipeline.MessageText(m) + "" == HttpPipeline.MessageText(m);
    LastPieceComes(c, a, [Wrote(n)], "", m, "");
    SendMost([Wrote(|c.outputBuffer|)], |c.outputBuffer|);
    WriteOut(c, [[Wrote(|c.outputBuffer|)]]);
  }

  /** The peer resets the connection while the answer is being sent: what was taken before is on the wire, the
      connection is closed, and nothing is sent again. */
  method ServeUntilReset(c: Http, a: Arrival, taking: seq<WriteResult>, k: nat, ghost m: HttpPipeline.Message)
    requires c.Ready() && IsAsked(m) && IsPiece(a) && Drain(a.arriving).got == HttpPipeline.MessageText(m)
    requires c.reply(|c.served|).Served?
    requires k < |taking| && AllGoOn(taking[..k]) && taking[k] == WriteError
    requires Sum(taking[..k]) < |c.reply(|c.served|).response|
    modifies c
    ensures c.AtRest() && c.closed && c.served == old(c.served) + [HttpPipeline.Known(m)]
    ensures c.wire == old(c.wire) + c.reply(|old(c.served)|).response[..Sum(taking[..k])]
  {
    hide Replies, Drain, Send, Sum, Phase, Advance, SuffixOf, PageLast, HttpPipeline.Sendable, HttpPipeline.MessageText;
    hide HttpPipeline.Known, IsPiece, AsksToKeep;
    CleanPhase(c.Pos());
    SendMeans(taking, |c.reply(|c.served|).response|, k);
    assert "" + Drain(a.arriving).got == HttpPipeline.MessageText(m) + "" == HttpPipeline.MessageText(m);
    LastPieceComes(c, a, taking, "", m, "");
  }

  // ---------- from the start ----------

  /** A new connection is sent any list of requests at once, and then left alone. */
  method BurstOnNewConnection(reply: nat -> Reply, stoi: string -> int, ms: seq<HttpPipeline.Message>,
                              idle: seq<set<Flag>>) returns (c: Http)
    requires ms != [] && forall k :: 0 <= k < |ms| ==> IsAsked(ms[k])
    requires reply(0).Served?
    requires forall k :: 0 <= k < |idle| ==> EPOLLOUT !in idle[k]
    ensures fresh(c) && c.AtRest() && !c.closed
    ensures c.served == [HttpPipeline.Known(ms[0])] && c.inputBuffer == HttpPipeline.AllText(ms[1..])
    ensures c.wire == reply(0).response
  {
    c := new Http(reply, stoi);
    HttpPipeline.MessageNotEmpty(ms[0]);
    var text, n := HttpPipeline.AllText(ms), |reply(0).response|;
    OneDrain(text);
    hide HttpPipeline.Sendable, HttpPipeline.MessageText, HttpPipeline.Known, Drain, Send, C.Http.AtRest;
    c.Fresh();
    var a := Arrival({EPOLLIN}, [Data(text)]);
    assert text == HttpPipeline.MessageText(ms[0]) + HttpPipeline.AllText(ms[1..]);
    assert EPOLLIN in a.revents * {EPOLLIN, EPOLLPRI, EPOLLRDHUP};
    ServeBurst(c, ms, a, [Wrote(n)], idle);
    c.AllSent();
    FirstReply(reply);
  }

  lemma OneDrain(text: string)
    ensures Drain([Data(text)]) == Drained(text, Dry, [])
  {
    DrainStep([]);
    assert [Data(text)][1..] == [] && text + "" == text;
  }

  lemma FirstReply(reply: nat -> Reply)
    ensures Replies(reply, 1) == match reply(0) case Served(r) => r case Refused(p, _, _) => p
  {
    RepliesNext(reply, 0);
  }

  /** A GET for one file. */
  const GET_A := HttpPipeline.Message(L.Fields(L.M_GET, L.HTTP_11, "a"), Line("Host", "b"), [])

  lemma GetIsAsked()
    ensures IsAsked(GET_A)
  {
    L.FindChar("a", '/', 0);
    NoCrlf();
    assert "Host"[1..] == "ost";
  }

  lemma NoCrlf()
    ensures !L.Contains("a", "\r\n")
  {
  }

  /** Two of them at once: the second is not answered, although it is there, as often as the connection is
      looked at. */
  method TwoAtOnce(stoi: string -> int, idle: seq<set<Flag>>) returns (c: Http)
    requires forall k :: 0 <= k < |idle| ==> EPOLLOUT !in idle[k]
    ensures c.AtRest() && !c.closed && c.wire == "ok"
    ensures c.served == [HttpPipeline.Known(GET_A)] && c.inputBuffer == HttpPipeline.MessageText(GET_A)
  {
    GetIsAsked();
    hide HttpPipeline.MessageText, HttpPipeline.Known, IsAsked, C.Http.AtRest;
    var ms := [GET_A, GET_A];
    c := BurstOnNewConnection((n: nat) => Served("ok"), stoi, ms, idle);
    assert ms[1..] == [GET_A] && ms[1..][1..] == [];
    assert HttpPipeline.MessageText(GET_A) + "" == HttpPipeline.MessageText(GET_A);
  }
}
