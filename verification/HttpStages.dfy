/** The read callback of deon/net/Http.cpp on values: what the stages of lines 82-165 come to, that a
    request may come in pieces, and what one callback does to a connection. */
module HttpStages {
  import opened HttpHeader
  import opened Sockets
  import L = HttpLine
  import HttpPipeline
  import HttpPage
  import HttpResume

  datatype Flag = EPOLLIN | EPOLLPRI | EPOLLOUT | EPOLLERR | EPOLLHUP | EPOLLRDHUP | EPOLLET | EPOLLONESHOT

  /** What `analysisRequest` finds for a request: a response, or a refusal after part of one. */
  datatype Reply = Served(response: string) | Refused(partial: string, code: nat, msg: string)

  datatype ParseState =
    | STATE_PARSE_REQUESTLINE
    | STATE_PARSE_HEADERS
    | STATE_CHECK_CONTENT_LENGTH
    | STATE_ANALYSIS
    | STATE_FINISH

  predicate IsServed(r: HttpPipeline.Request) {
    r.f.verb == L.M_GET || r.f.verb == L.M_HEAD
  }

  // ---------- what the stages of the read callback come to ----------

  /** What the connection knows of the request it is reading. */
  datatype Parser = Parser(state: ParseState, hState: HState, fields: L.Fields, headers: Headers, input: string)

  /** More is needed; the request is bad, for this reason; or it is there. In each case, this is where the
      parser stands then. */
  datatype Outcome = Waiting(p: Parser) | Failing(p: Parser, msg: string) | Asking(p: Parser)

  const BAD_REQUEST := "Bad Request"
  const NO_LENGTH := "Bad Request: Lack of (Content-length)"

  const CLEAN := L.Fields(L.M_INVALID, L.UNKNOWN, "")

  predicate IsClean(p: Parser) {
    p.state == STATE_PARSE_REQUESTLINE && p.hState == H_START && p.headers == map[]
  }

  function Asked(p: Parser): HttpPipeline.Request {
    HttpPipeline.Request(p.fields, p.headers)
  }

  function AdvanceLength(p: Parser, stoi: string -> int): (o: Outcome)
    ensures o.Waiting? ==> o.p == p
    ensures o.Asking? ==> o.p == p.(state := STATE_ANALYSIS)
  {
    if "Content-length" !in p.headers then Failing(p, NO_LENGTH)
    else if |p.input| < stoi(p.headers["Content-length"]) then Waiting(p)
    else Asking(p.(state := STATE_ANALYSIS))
  }

  function AdvanceHeaders(p: Parser, stoi: string -> int): (o: Outcome)
    requires p.state == STATE_PARSE_HEADERS
    ensures o.p.state != STATE_FINISH
  {
    match Call(p.hState, p.headers, p.input)
    case Live(a) => Waiting(p.(hState := a.h, headers := a.headers, input := a.tail))
    case Failed(h, headers) => Failing(p.(hState := h, headers := headers), BAD_REQUEST)
    case Finished(headers, rest) =>
      var q := p.(hState := H_END_CR, headers := headers, input := rest);
      if p.fields.verb == L.M_POST then AdvanceLength(q.(state := STATE_CHECK_CONTENT_LENGTH), stoi)
      else Asking(q.(state := STATE_ANALYSIS))
  }

  /** Lines 82-150: the stages that are still to do, on what is in the buffer. */
  function Advance(p: Parser, stoi: string -> int): (o: Outcome)
    requires p.state != STATE_FINISH
    ensures o.p.state != STATE_FINISH
  {
    match p.state
    case STATE_PARSE_REQUESTLINE =>
      (match L.ParseBuffer(p.input)
       case LineAgain => Waiting(p)
       case LineDone(LineBad, rest) =>
         Failing(p.(fields := L.BadFields(p.fields, L.LineOf(p.input)), input := rest), BAD_REQUEST)
       case LineDone(LineOk(f), rest) =>
         AdvanceHeaders(p.(state := STATE_PARSE_HEADERS, fields := f, input := rest), stoi))
    case STATE_PARSE_HEADERS => AdvanceHeaders(p, stoi)
    case STATE_CHECK_CONTENT_LENGTH => AdvanceLength(p, stoi)
    case STATE_ANALYSIS => Asking(p)
  }

  /** The parser stands where reading all of `text` at once would go on: it will do with the buffer what
      one reading from the beginning would do with `text`. */
  predicate Phase(p: Parser, text: string) {
    match p.state
    case STATE_PARSE_REQUESTLINE => p.hState == H_START && p.headers == map[] && p.input == text
    case STATE_PARSE_HEADERS =>
      var line := L.ParseBuffer(text);
      line.LineDone? && line.result == L.LineOk(p.fields) &&
      Call(p.hState, p.headers, p.input) == Call(H_START, map[], line.rest)
    case _ => false
  }

  lemma CleanPhase(p: Parser)
    ensures IsClean(p) ==> Phase(p, p.input)
  {
  }

  /** It stays so when more bytes arrive. */
  lemma PhaseGrows(p: Parser, text: string, more: string)
    requires Phase(p, text)
    ensures Phase(p.(input := p.input + more), text + more)
  {
    hide L.ParseBuffer, Run;
    if p.state == STATE_PARSE_HEADERS {
      var rest := L.ParseBuffer(text).rest;
      HttpPipeline.MoreBehindLine(text, more);
      RunConcat(Resume(p.hState, p.headers), p.input, more);
      RunConcat(Resume(H_START, map[]), rest, more);
    }
  }

  /** A request that is complete is asked for, however many pieces it came in. */
  lemma AdvanceParsed(p: Parser, text: string, stoi: string -> int)
    requires Phase(p, text) && HttpPipeline.ParseOne(text).Parsed?
    ensures var one := HttpPipeline.ParseOne(text);
            one.requests != [] &&
            (one.requests[0].f.verb != L.M_POST ==>
              var o := Advance(p, stoi); o.Asking? && Asked(o.p) == one.requests[0] && o.p.input == one.rest)
  {
    hide L.ParseBuffer, Run;
  }

  /** A POST that is complete up to its body is bad without a length, waited for while there is less behind it than
      its length says, and asked for otherwise; but it is not served then. */
  lemma PostMeans(p: Parser, text: string, stoi: string -> int)
    requires Phase(p, text) && HttpPipeline.ParseOne(text).Parsed?
    ensures var one := HttpPipeline.ParseOne(text);
      one.requests != [] &&
      var r := one.requests[0];
      r.f.verb == L.M_POST ==>
        var o := Advance(p, stoi);
        !IsServed(r) &&
        if "Content-length" !in r.headers then
          o.Failing? && o.msg == "Bad Request: Lack of (Content-length)" && o.p.input == one.rest
        else if |one.rest| < stoi(r.headers["Content-length"]) then
          o.Waiting? && Asked(o.p) == r && o.p.input == one.rest && o.p.state == STATE_CHECK_CONTENT_LENGTH
        else o.Asking? && Asked(o.p) == r && o.p.input == one.rest
  {
    hide L.ParseBuffer, Run;
  }

  /** One that is not, but may be cut there, is waited for. */
  lemma AdvanceWaits(p: Parser, text: string, stoi: string -> int)
    requires Phase(p, text) && HttpPipeline.Waits(text)
    ensures Advance(p, stoi).Waiting? && Phase(Advance(p, stoi).p, text)
  {
    hide L.ParseBuffer, Run, HttpResume.Resumable;
    var line := L.ParseBuffer(text);
    if line.LineDone? {
      var a := Call(H_START, map[], line.rest).a;
      HttpResume.CallAgain(line.rest, a);
    }
  }

  // ---------- what a callback does to a connection ----------

  /** Line 485. */
  predicate AsksKeepAlive(headers: Headers) {
    "Connection" in headers && (headers["Connection"] == "Keep-Alive" || headers["Connection"] == "keep-alive")
  }

  const DEFAULT_EXPIRED_TIME := 2000
  const DEFAULT_KEEP_ALIVE_TIME := 5 * 60 * 1000

  /** The connection as far as requests and responses are concerned. */
  datatype View = View(
    p: Parser, served: seq<HttpPipeline.Request>, output: string, wire: string,
    toRead: seq<ReadResult>, toWrite: seq<WriteResult>, events: set<Flag>, err: bool, isConnecting: bool,
    keepAlive: bool, timeout: nat)

  /** The output is offered to the socket once, unless the connection is over. */
  function Offer(v: View): View {
    if v.err || !v.isConnecting then v
    else
      var s := Send(v.toWrite, |v.output|);
      var left := v.output[if s.broken then 0 else s.count..];
      v.(err := s.broken, toWrite := s.left, wire := v.wire + v.output[..s.count], output := left,
         events := if left != "" then v.events + {EPOLLOUT} else v.events)
  }

  lemma OfferNothing(v: View)
    ensures v.output == "" && !v.err ==> Offer(v) == v
  {
    SendNothing(v.toWrite);
    hide Send, HttpPage.Page;
    assert v.wire + "" == v.wire;
  }

  lemma OfferFailed(v: View)
    ensures v.err || !v.isConnecting ==> Offer(v) == v
  {
  }

  /** `handleError`: the page goes straight to the socket. */
  function Fail(v: View, code: nat, msg: string): View {
    v.(err := true, wire := v.wire + HttpPage.Page(code, msg))
  }

  /** Lines 152-165: the next reply is the answer. Anything but a GET or a HEAD fails without a page. */
  function Answer(v: View, reply: nat -> Reply): View {
    var w := v.(served := v.served + [Asked(v.p)], keepAlive := v.keepAlive || AsksKeepAlive(v.p.headers));
    if !IsServed(Asked(v.p)) then v.(err := true)
    else match reply(|v.served|)
      case Served(response) => w.(p := v.p.(state := STATE_FINISH), output := v.output + response)
      case Refused(partial, code, msg) => Fail(w.(output := v.output + partial), code, msg)
  }

  /** Lines 82-165. */
  function Stages(v: View, reply: nat -> Reply, stoi: string -> int): View
    requires v.p.state != STATE_FINISH
  {
    match Advance(v.p, stoi)
    case Waiting(p) => v.(p := p)
    case Failing(p, msg) => Fail(v.(p := p), 400, msg)
    case Asking(p) => Answer(v.(p := p), reply)
  }

  /** Lines 59-166, and whether more is needed. */
  function ReadPart(v: View, reply: nat -> Reply, stoi: string -> int): (View, bool)
    requires v.p.state != STATE_FINISH
  {
    var d := Drain(v.toRead);
    var w := v.(toRead := d.left, p := v.p.(input := v.p.input + d.got));
    match d.end
    case Broken => (Fail(w, 400, BAD_REQUEST), false)
    case Over => (w.(isConnecting := false), false)
    case Dry =>
      if d.got == "" then (v.(toRead := d.left), true)
      else
        var x := Stages(w, reply, stoi);
        (x, !x.err && x.p.state != STATE_FINISH)
  }

  /** Lines 168-186, and whether the callback goes round again. */
  function EndPart(v: View, finish: bool): (View, bool) {
    var w := Offer(v);
    if v.err then (v, false)
    else if finish then (w.(events := w.events + {EPOLLIN}), false)
    else if !w.err && w.p.state == STATE_FINISH then
      (w.(p := Parser(STATE_PARSE_REQUESTLINE, H_START, CLEAN, map[], w.p.input)), w.isConnecting && w.p.input != "")
    else (w, false)
  }

  /** One time round. */
  function Round(v: View, reply: nat -> Reply, stoi: string -> int): (View, bool)
    requires v.p.state != STATE_FINISH
  {
    var (w, finish) := ReadPart(v, reply, stoi);
    EndPart(w, finish)
  }

  /** It only goes round again when it has read something. */
  lemma AgainHasRead(v: View, reply: nat -> Reply, stoi: string -> int)
    requires v.p.state != STATE_FINISH
    ensures var (w, again) := Round(v, reply, stoi);
      again ==> |w.toRead| < |v.toRead| && IsClean(w.p) && !w.err && w.isConnecting
  {
    DrainConsumes(v.toRead);
    hide Drain, Advance, Send, HttpPage.Page;
  }

  /** Lines 57-187: the read callback, whatever the socket does. */
  function ReadCallback(v: View, reply: nat -> Reply, stoi: string -> int): View
    requires v.p.state != STATE_FINISH
    decreases |v.toRead|
  {
    var (w, again) := Round(v, reply, stoi);
    if again then AgainHasRead(v, reply, stoi); ReadCallback(w, reply, stoi) else w
  }

  /** What calls the read callback. */
  predicate HasInput(revents: set<Flag>) {
    revents * {EPOLLIN, EPOLLPRI, EPOLLRDHUP} != {}
  }

  lemma HasInputMeans(revents: set<Flag>)
    ensures HasInput(revents) <==> EPOLLIN in revents || EPOLLPRI in revents || EPOLLRDHUP in revents
  {
    var both := revents * {EPOLLIN, EPOLLPRI, EPOLLRDHUP};
    assert EPOLLIN in revents ==> EPOLLIN in both;
    assert EPOLLPRI in revents ==> EPOLLPRI in both;
    assert EPOLLRDHUP in revents ==> EPOLLRDHUP in both;
  }

  /** deon/net/Channel.cpp 33-40: the read callback comes before the write callback. */
  function Called(v: View, revents: set<Flag>, reply: nat -> Reply, stoi: string -> int): View
    requires v.p.state != STATE_FINISH
  {
    var w := if HasInput(revents) then ReadCallback(v, reply, stoi) else v;
    if EPOLLOUT in revents then Offer(w) else w
  }

  /** Lines 232-258: a connection that goes on waits for one thing. */
  function Registered(v: View): View {
    if v.err || !v.isConnecting then v
    else v.(events := {EPOLLET, if EPOLLOUT in v.events then EPOLLOUT else EPOLLIN},
            timeout := if v.keepAlive then DEFAULT_KEEP_ALIVE_TIME else DEFAULT_EXPIRED_TIME)
  }

  // ---------- what follows from it ----------

  /** The drains of a script that bring something, up to the first that does not. */
  function Drains(results: seq<ReadResult>): nat
    decreases |results|
  {
    var d := Drain(results);
    DrainConsumes(results);
    if d.end == Dry && d.got != "" then 1 + Drains(d.left) else 0
  }

  lemma PartServesOne(v: View, reply: nat -> Reply, stoi: string -> int)
    requires v.p.state != STATE_FINISH
    ensures var (w, finish) := ReadPart(v, reply, stoi);
      var d := Drain(v.toRead);
      && v.served <= w.served && |w.served| <= |v.served| + (if d.end == Dry && d.got != "" then 1 else 0)
      && (w.p.state == STATE_FINISH && !w.err ==> d.end == Dry && d.got != "") && w.toRead == d.left
  {
    hide Drain, Advance, HttpPage.Page;
  }

  lemma EndServesNone(v: View, finish: bool)
    ensures var (w, again) := EndPart(v, finish);
      w.served == v.served && w.toRead == v.toRead && (again ==> v.p.state == STATE_FINISH && !v.err)
  {
    hide Send;
  }

  lemma RoundServesOne(v: View, reply: nat -> Reply, stoi: string -> int)
    requires v.p.state != STATE_FINISH
    ensures var (w, again) := Round(v, reply, stoi);
      var d := Drain(v.toRead);
      && v.served <= w.served && |w.served| <= |v.served| + (if d.end == Dry && d.got != "" then 1 else 0)
      && (again ==> d.end == Dry && d.got != "" && w.toRead == d.left)
  {
    PartServesOne(v, reply, stoi);
    var (w, finish) := ReadPart(v, reply, stoi);
    EndServesNone(w, finish);
    hide Drain, ReadPart, EndPart;
  }

  /** However much has come, and however many requests there are in the buffer, a callback answers at most one
      for each time it drains the socket of something. */
  lemma {:induction false} OnePerDrain(v: View, reply: nat -> Reply, stoi: string -> int)
    requires v.p.state != STATE_FINISH
    ensures var w := ReadCallback(v, reply, stoi);
      v.served <= w.served && |w.served| <= |v.served| + Drains(v.toRead)
    decreases |v.toRead|
  {
    RoundServesOne(v, reply, stoi);
    AgainHasRead(v, reply, stoi);
    var (w, again) := Round(v, reply, stoi);
    hide Round, HttpPage.Page;
    if again {
      OnePerDrain(w, reply, stoi);
    }
  }

  /** `out` has been offered to the socket once, and what is left of it is in the buffer. */
  predicate Offered(before: View, after: View, out: string) {
    var s := Send(before.toWrite, |out|);
    && after.isConnecting == before.isConnecting
    && after.err == s.broken && after.toWrite == s.left && after.wire == before.wire + out[..s.count]
    && after.output == out[if s.broken then 0 else s.count..]
    && (after.output == "" ==> (EPOLLOUT in after.events <==> EPOLLOUT in before.events))
  }

  /** A socket that takes what it is offered leaves nothing. */
  lemma TakesAll(before: View, after: View, out: string)
    requires Offered(before, after, out) && Takes(before.toWrite, |out|)
    ensures !after.err && after.output == "" && after.wire == before.wire + out
    ensures EPOLLOUT in after.events <==> EPOLLOUT in before.events
  {
    SendAll(before.toWrite, |out|);
  }

  /** The client asks for the connection to be kept, in one of the two spellings that are understood. */
  predicate WantsKeepAlive(headers: Headers) {
    ("Connection", "Keep-Alive") in headers.Items || ("Connection", "keep-alive") in headers.Items
  }

  lemma AsksMeansWants(headers: Headers)
    ensures AsksKeepAlive(headers) <==> WantsKeepAlive(headers)
  {
  }

  /** A request has been answered. If nothing more can be read, it is the only one, whatever is behind it
      in the buffer. */
  predicate Answered(before: View, after: View, p: Parser, left: seq<ReadResult>, reply: nat -> Reply) {
    if !IsServed(Asked(p)) then
      after.err && after.served == before.served && after.wire == before.wire && after.keepAlive == before.keepAlive
    else
      && before.served + [Asked(p)] <= after.served
      && (before.keepAlive || WantsKeepAlive(p.headers) ==> after.keepAlive)
      && (left == [] || p.input == "" ==>
          && after.keepAlive == (before.keepAlive || WantsKeepAlive(p.headers))
          && after.served == before.served + [Asked(p)] && after.p.input == p.input && after.toRead == left
          && (!after.err ==> IsClean(after.p))
          && match reply(|before.served|)
             case Refused(_, code, msg) => after.err && after.wire == before.wire + HttpPage.Page(code, msg)
             case Served(response) =>
               var out := before.output + response;
               var s := Send(before.toWrite, |out|);
               p.input == "" || s.broken || s.count == |out| ==> Offered(before, after, out))
  }

  /** What the read callback does to a connection that is open. */
  predicate Handled(before: View, after: View, reply: nat -> Reply, stoi: string -> int)
    requires before.p.state != STATE_FINISH
  {
    var d := Drain(before.toRead);
    && (before.keepAlive ==> after.keepAlive)
    && (!(d.end == Dry && d.got != "" && Advance(before.p.(input := before.p.input + d.got), stoi).Asking?) ==>
         after.keepAlive == before.keepAlive)
    && match d.end
    case Broken =>
      after.err && after.served == before.served && after.wire == before.wire + HttpPage.Page(400, BAD_REQUEST)
    case Over => !after.isConnecting && after.served == before.served && after.wire == before.wire
    case Dry =>
      if d.got == "" then
        after.p == before.p && after.served == before.served && after.toRead == d.left
        && Offered(before, after, before.output)
      else
        match Advance(before.p.(input := before.p.input + d.got), stoi)
        case Waiting(p) =>
          after.p == p && after.served == before.served && after.toRead == d.left
          && Offered(before, after, before.output)
        case Failing(p, msg) =>
          after.err && after.served == before.served && after.wire == before.wire + HttpPage.Page(400, msg)
        case Asking(p) => Answered(before, after, p, d.left, reply)
  }

  /** An event that brings nothing does nothing to a connection that has nothing to send. */
  lemma NothingComes(before: View, reply: nat -> Reply, stoi: string -> int)
    requires before.toRead == [] && before.output == "" && before.p.state != STATE_FINISH
    ensures forall after :: Handled(before, after, reply, stoi) ==>
      after.p == before.p && after.served == before.served && after.output == ""
      && !after.err && after.isConnecting == before.isConnecting
      && (EPOLLOUT in after.events <==> EPOLLOUT in before.events)
  {
    DrainStep([]);
    SendNothing(before.toWrite);
    hide Drain, Send, HttpPage.Page;
  }

  /** A round that finds no request. */
  lemma IdleRound(v: View, reply: nat -> Reply, stoi: string -> int)
    requires v.p.state != STATE_FINISH && !v.err && v.isConnecting
    requires var d := Drain(v.toRead);
      d.end != Dry || d.got == "" || !Advance(v.p.(input := v.p.input + d.got), stoi).Asking?
    ensures var (w, again) := Round(v, reply, stoi); !again && Handled(v, w, reply, stoi)
  {
    hide Drain, Advance, Send, Answer, Answered, HttpPage.Page;
  }

  /** A round that finds one: the answer is made, and then offered. */
  lemma AskedPart(v: View, p: Parser, reply: nat -> Reply, stoi: string -> int)
    requires v.p.state != STATE_FINISH
    requires var d := Drain(v.toRead);
      d.end == Dry && d.got != "" && Advance(v.p.(input := v.p.input + d.got), stoi) == Asking(p)
    ensures ReadPart(v, reply, stoi) == (Answer(v.(toRead := Drain(v.toRead).left, p := p), reply), false)
  {
    hide Drain, Advance, HttpPage.Page;
  }

  lemma AnswerOffered(v: View, p: Parser, left: seq<ReadResult>, reply: nat -> Reply)
    requires p.state != STATE_FINISH && !v.err && v.isConnecting
    ensures var (w, again) := EndPart(Answer(v.(toRead := left, p := p), reply), false);
      !again ==> Answered(v, w, p, left, reply)
  {
    AsksMeansWants(p.headers);
    hide Drain, Send, HttpPage.Page, AsksKeepAlive, WantsKeepAlive;
  }

  lemma AnsweredKeeps(v: View, after: View, p: Parser, left: seq<ReadResult>, reply: nat -> Reply)
    requires Answered(v, after, p, left, reply)
    ensures v.keepAlive ==> after.keepAlive
  {
  }

  lemma RoundParts(v: View, reply: nat -> Reply, stoi: string -> int)
    requires v.p.state != STATE_FINISH
    ensures var (w, finish) := ReadPart(v, reply, stoi); Round(v, reply, stoi) == EndPart(w, finish)
  {
    hide ReadPart, EndPart;
  }

  /** A round that is the last one. */
  lemma LastRound(v: View, reply: nat -> Reply, stoi: string -> int)
    requires v.p.state != STATE_FINISH && !v.err && v.isConnecting
    ensures var (w, again) := Round(v, reply, stoi); !again ==> Handled(v, w, reply, stoi)
  {
    hide Drain, Advance, Send, Round, ReadPart, EndPart, Answer, Answered, HttpPage.Page;
    var d := Drain(v.toRead);
    if d.end != Dry || d.got == "" || !Advance(v.p.(input := v.p.input + d.got), stoi).Asking? {
      IdleRound(v, reply, stoi);
    } else {
      var p := Advance(v.p.(input := v.p.input + d.got), stoi).p;
      AskedPart(v, p, reply, stoi);
      AnswerOffered(v, p, d.left, reply);
      var (w, again) := Round(v, reply, stoi);
      RoundParts(v, reply, stoi);
      if !again {
        AnsweredKeeps(v, w, p, d.left, reply);
      }
    }
  }

  /** One request has been answered, and there is more in the buffer. */
  predicate Once(before: View, after: View, p: Parser, left: seq<ReadResult>, reply: nat -> Reply) {
    && IsServed(Asked(p)) && reply(|before.served|).Served? && p.input != "" && !after.err && IsClean(after.p)
    && after.served == before.served + [Asked(p)] && after.p.input == p.input && after.toRead == left
    && after.keepAlive == (before.keepAlive || WantsKeepAlive(p.headers))
    && Offered(before, after, before.output + reply(|before.served|).response)
  }

  lemma AnswerGoesOn(v: View, p: Parser, left: seq<ReadResult>, reply: nat -> Reply)
    requires p.state != STATE_FINISH && !v.err && v.isConnecting
    ensures var (w, again) := EndPart(Answer(v.(toRead := left, p := p), reply), false);
      again ==> Once(v, w, p, left, reply)
  {
    AsksMeansWants(p.headers);
    hide Drain, Send, HttpPage.Page, AsksKeepAlive, WantsKeepAlive;
  }

  lemma OnceThenMore(v: View, w: View, after: View, p: Parser, left: seq<ReadResult>,
                     reply: nat -> Reply, stoi: string -> int)
    requires Once(v, w, p, left, reply) && w.served <= after.served && Handled(w, after, reply, stoi)
    ensures Answered(v, after, p, left, reply)
  {
    SendNothing(w.toWrite);
    if left == [] {
      DrainStep([]);
    }
    hide Drain, Advance, Send, HttpPage.Page, WantsKeepAlive;
  }

  /** A round that answers one request and is followed by others. */
  lemma FirstRound(v: View, after: View, reply: nat -> Reply, stoi: string -> int)
    requires v.p.state != STATE_FINISH && !v.err && v.isConnecting
    requires var (w, again) := Round(v, reply, stoi);
      again && IsClean(w.p) && w.served <= after.served && Handled(w, after, reply, stoi)
    ensures Handled(v, after, reply, stoi)
  {
    var d := Drain(v.toRead);
    var (w, again) := Round(v, reply, stoi);
    RoundParts(v, reply, stoi);
    RoundServesOne(v, reply, stoi);
    var o := Advance(v.p.(input := v.p.input + d.got), stoi);
    if !o.Asking? { IdleRound(v, reply, stoi); }
    AskedPart(v, o.p, reply, stoi);
    AnswerGoesOn(v, o.p, d.left, reply);
    OnceThenMore(v, w, after, o.p, d.left, reply, stoi);
    hide Drain, Advance, Send, Round, ReadPart, EndPart, Answer, Answered, Once, HttpPage.Page, WantsKeepAlive;
    AnsweredKeeps(v, after, o.p, d.left, reply);
  }

  /** What the callback comes to in each case: a failed read and a bad request send a page, the end of the
      stream ends the connection without an answer, nothing read changes nothing, an incomplete request
      waits, and a good one is answered, and is the only one that is if nothing more can be read. */
  lemma {:induction false} CallbackHandles(v: View, reply: nat -> Reply, stoi: string -> int)
    requires v.p.state != STATE_FINISH && !v.err && v.isConnecting
    ensures Handled(v, ReadCallback(v, reply, stoi), reply, stoi)
    decreases |v.toRead|
  {
    var (w, again) := Round(v, reply, stoi);
    AgainHasRead(v, reply, stoi);
    LastRound(v, reply, stoi);
    hide Round, Handled, HttpPage.Page;
    if again {
      CallbackHandles(w, reply, stoi);
      OnePerDrain(w, reply, stoi);
      FirstRound(v, ReadCallback(w, reply, stoi), reply, stoi);
    }
  }

  /** A request that is complete in the buffer, on a clean connection with nothing to send: it is answered, and the
      callback goes round again exactly if there is more in the buffer. */
  lemma RoundAnswers(v: View, m: HttpPipeline.Message, rest: string, most: nat,
                     reply: nat -> Reply, stoi: string -> int)
    requires IsClean(v.p) && !v.err && v.isConnecting && v.output == ""
    requires HttpPipeline.Sendable(m) && m.f.verb != L.M_POST
    requires var d := Drain(v.toRead);
      d.end == Dry && d.got != "" && v.p.input + d.got == HttpPipeline.MessageText(m) + rest
    requires reply(|v.served|).Served? && |reply(|v.served|).response| <= most
    requires v.toWrite != [] && Generous(v.toWrite, most)
    ensures var (w, again) := Round(v, reply, stoi);
      && (again <==> rest != "")
      && IsClean(w.p) && w.p.input == rest && !w.err && w.isConnecting && w.output == ""
      && w.served == v.served + [HttpPipeline.Known(m)] && w.toRead == Drain(v.toRead).left
      && |w.toWrite| >= |v.toWrite| - 1 && Generous(w.toWrite, most)
  {
    hide Drain, Send, Advance, HttpPage.Page, AsksKeepAlive, Generous;
    hide HttpPipeline.Sendable, HttpPipeline.MessageText, HttpPipeline.Known, HttpPipeline.ParseOne;
    var p := v.p.(input := v.p.input + Drain(v.toRead).got);
    HttpPipeline.MessageIsParsed(m, rest);
    HttpPipeline.MessageNotEmpty(m);
    AdvanceParsed(p, p.input, stoi);
    var q := Advance(p, stoi).p;
    AskedPart(v, q, reply, stoi);
    RoundParts(v, reply, stoi);
    var response := reply(|v.served|).response;
    GenerousTakes(v.toWrite, |response|, most);
    assert "" + response == response;
    hide Round, ReadPart;
  }

  /** The next replies are responses, none of them longer than this. */
  predicate WillServe(reply: nat -> Reply, from: nat, n: nat, most: nat) {
    forall j :: from <= j < from + n ==> reply(j).Served? && |reply(j).response| <= most
  }

  predicate AreAsked(ms: seq<HttpPipeline.Message>) {
    forall k :: 0 <= k < |ms| ==> HttpPipeline.Sendable(ms[k]) && ms[k].f.verb != L.M_POST
  }

  lemma TextParts(ms: seq<HttpPipeline.Message>, rest: string)
    requires AreAsked(ms) && ms != []
    ensures HttpPipeline.AllText(ms) + rest == HttpPipeline.MessageText(ms[0]) + (HttpPipeline.AllText(ms[1..]) + rest)
    ensures |ms| > 1 ==> HttpPipeline.AllText(ms[1..]) + rest != ""
    ensures AreAsked(ms[1..]) && HttpPipeline.Sendable(ms[0]) && ms[0].f.verb != L.M_POST
  {
    hide HttpPipeline.MessageText, HttpPipeline.AllText, HttpPipeline.Sendable;
    HttpPipeline.TextCons(ms);
    if |ms| > 1 {
      HttpPipeline.TextCons(ms[1..]);
      HttpPipeline.MessageNotEmpty(ms[1]);
    }
  }

  lemma CallbackStep(v: View, reply: nat -> Reply, stoi: string -> int)
    requires v.p.state != STATE_FINISH
    ensures var (w, again) := Round(v, reply, stoi);
      again ==> w.p.state != STATE_FINISH && ReadCallback(v, reply, stoi) == ReadCallback(w, reply, stoi)
    ensures var (w, again) := Round(v, reply, stoi); !again ==> ReadCallback(v, reply, stoi) == w
  {
    AgainHasRead(v, reply, stoi);
    hide Round;
  }

  lemma DrainsOnce(results: seq<ReadResult>)
    ensures Drains(results) > 0 ==> var d := Drain(results);
      d.end == Dry && d.got != "" && Drains(d.left) == Drains(results) - 1
  {
    hide Drain;
  }

  /** Requests in the buffer, drains to come, and a socket and replies for as many requests. */
  predicate CanServe(v: View, ms: seq<HttpPipeline.Message>, rest: string, most: nat, reply: nat -> Reply) {
    var n := Drains(v.toRead);
    && IsClean(v.p) && !v.err && v.isConnecting && v.output == "" && AreAsked(ms) && n <= |ms|
    && (n > 0 ==> v.p.input + Drain(v.toRead).got == HttpPipeline.AllText(ms) + rest)
    && WillServe(reply, |v.served|, n, most)
    && |v.toWrite| >= n && Generous(v.toWrite, most)
  }

  lemma CanServeParts(v: View, ms: seq<HttpPipeline.Message>, rest: string, most: nat, reply: nat -> Reply)
    requires CanServe(v, ms, rest, most, reply) && Drains(v.toRead) > 0
    ensures var d := Drain(v.toRead);
      && ms != [] && d.end == Dry && d.got != "" && Drains(d.left) == Drains(v.toRead) - 1
      && v.p.input + d.got == HttpPipeline.MessageText(ms[0]) + (HttpPipeline.AllText(ms[1..]) + rest)
      && (Drains(v.toRead) > 1 ==> HttpPipeline.AllText(ms[1..]) + rest != "")
    ensures reply(|v.served|).Served? && |reply(|v.served|).response| <= most
    ensures WillServe(reply, |v.served| + 1, Drains(v.toRead) - 1, most)
    ensures HttpPipeline.Sendable(ms[0]) && ms[0].f.verb != L.M_POST && AreAsked(ms[1..])
    ensures v.toWrite != [] && Generous(v.toWrite, most) && |v.toWrite| >= Drains(v.toRead) && Drains(v.toRead) <= |ms|
    ensures IsClean(v.p) && !v.err && v.isConnecting && v.output == ""
  {
    DrainsOnce(v.toRead);
    TextParts(ms, rest);
    hide Drain, Drains, Generous, AreAsked, IsClean;
    hide HttpPipeline.MessageText, HttpPipeline.AllText, HttpPipeline.Sendable;
  }

  lemma StillCanServe(w: View, ms: seq<HttpPipeline.Message>, rest: string, most: nat, reply: nat -> Reply)
    requires IsClean(w.p) && !w.err && w.isConnecting && w.output == "" && AreAsked(ms)
    requires Drains(w.toRead) <= |ms| && w.p.input == HttpPipeline.AllText(ms) + rest
    requires WillServe(reply, |w.served|, Drains(w.toRead), most)
    requires |w.toWrite| >= Drains(w.toRead) && Generous(w.toWrite, most)
    ensures CanServe(w, ms, rest + Drain(w.toRead).got, most, reply)
  {
    hide Drain, Drains, Generous, AreAsked, IsClean, WillServe, HttpPipeline.AllText;
    assert w.p.input + Drain(w.toRead).got == HttpPipeline.AllText(ms) + (rest + Drain(w.toRead).got);
  }

  /** One of them is served, and it goes on like that. */
  lemma CanServeNext(v: View, ms: seq<HttpPipeline.Message>, rest: string, most: nat,
                     reply: nat -> Reply, stoi: string -> int)
    requires CanServe(v, ms, rest, most, reply) && Drains(v.toRead) > 0
    ensures v.p.state != STATE_FINISH && ms != []
    ensures var (w, again) := Round(v, reply, stoi);
      && w.served == v.served + [HttpPipeline.Known(ms[0])] && Drains(w.toRead) == Drains(v.toRead) - 1
      && CanServe(w, ms[1..], rest + Drain(w.toRead).got, most, reply)
      && (Drains(v.toRead) > 1 ==> again)
  {
    CanServeParts(v, ms, rest, most, reply);
    RoundAnswers(v, ms[0], HttpPipeline.AllText(ms[1..]) + rest, most, reply, stoi);
    var w := Round(v, reply, stoi).0;
    hide CanServe, Drain, Drains, Round, Generous, AreAsked, WillServe, Offer, Advance, Send;
    hide HttpPipeline.MessageText, HttpPipeline.Known, HttpPipeline.AllText, HttpPipeline.Sendable;
    StillCanServe(w, ms[1..], rest, most, reply);
  }

  /** Requests that are in the buffer are answered one for each time the socket is drained of something, however
      little that is: with as many drains as there are, all of them. */
  lemma {:induction false} DrainsServe(v: View, ms: seq<HttpPipeline.Message>, rest: string, most: nat,
                                       reply: nat -> Reply, stoi: string -> int)
    requires CanServe(v, ms, rest, most, reply)
    ensures v.p.state != STATE_FINISH && Drains(v.toRead) <= |ms|
    ensures ReadCallback(v, reply, stoi).served == v.served + HttpPipeline.AllKnown(ms[..Drains(v.toRead)])
    decreases |ms|
  {
    hide Drain, Drains, Round, ReadCallback, CanServe, HttpPipeline.AllKnown, HttpPipeline.Known;
    CanServeBounds(v, ms, rest, most, reply);
    var n := Drains(v.toRead);
    if n > 0 {
      CanServeNext(v, ms, rest, most, reply, stoi);
      CallbackStep(v, reply, stoi);
      HttpPipeline.KnownCons(ms, n);
      var (w, again) := Round(v, reply, stoi);
      var known, later := HttpPipeline.Known(ms[0]), HttpPipeline.AllKnown(ms[1..][..n - 1]);
      if again {
        DrainsServe(w, ms[1..], rest + Drain(w.toRead).got, most, reply, stoi);
        assert v.served + [known] + later == v.served + ([known] + later);
      } else {
        NoneKnown(ms[1..]);
        assert v.served + [known] == v.served + ([known] + []);
      }
    } else {
      OnePerDrain(v, reply, stoi);
      NoneKnown(ms);
    }
  }

  lemma CanServeBounds(v: View, ms: seq<HttpPipeline.Message>, rest: string, most: nat, reply: nat -> Reply)
    requires CanServe(v, ms, rest, most, reply)
    ensures v.p.state != STATE_FINISH && Drains(v.toRead) <= |ms|
  {
    hide Drains, Drain, AreAsked, Generous;
  }

  lemma NoneKnown(ms: seq<HttpPipeline.Message>)
    ensures HttpPipeline.AllKnown(ms[..0]) == []
  {
  }

  /** The events matter only as far as output is waited for. */
  lemma SameButEvents(before: View, after: View, out: string, reply: nat -> Reply, stoi: string -> int)
    requires before.p.state != STATE_FINISH
    ensures Handled(before, after, reply, stoi) ==> Handled(before, Registered(after), reply, stoi)
    ensures Offered(before, after, out) ==> Offered(before, Registered(after), out)
  {
    hide Advance, Send, Drain, HttpPage.Page;
  }

  /** The write callback, when it is called alone. */
  lemma OfferMeans(v: View)
    requires !v.err && v.isConnecting
    ensures Offered(v, Offer(v), v.output)
  {
    hide Send, HttpPage.Page;
  }

  /** What the callbacks of an event come to. */
  lemma CallsMean(v: View, revents: set<Flag>, reply: nat -> Reply, stoi: string -> int)
    requires v.p.state != STATE_FINISH && !v.err && v.isConnecting
    ensures var w := Called(v, revents, reply, stoi);
      && v.served <= w.served && (v.keepAlive ==> w.keepAlive) && (!HasInput(revents) ==> w.keepAlive == v.keepAlive)
      && (HasInput(revents) && EPOLLOUT !in revents ==> Handled(v, w, reply, stoi))
      && (HasInput(revents) && Drain(v.toRead).end != Dry ==> (w.err || !w.isConnecting) && w.served == v.served)
      && (HasInput(revents) && Drain(v.toRead).end == Over ==> w.wire == v.wire)
      && (!HasInput(revents) && EPOLLOUT in revents ==> Offered(v, w, v.output))
      && (HasInput(revents) && EPOLLOUT in revents ==>
           var u := ReadCallback(v, reply, stoi);
           if u.err || !u.isConnecting then w == u
           else Offered(u, w, u.output) && w.served == u.served && w.p == u.p && w.toRead == u.toRead)
      && (!HasInput(revents) ==> w.served == v.served && w.p == v.p && w.toRead == v.toRead)
      && (!HasInput(revents) && EPOLLOUT !in revents ==> w == v)
  {
    hide Drain, Send, ReadCallback, Offered, Advance, HttpPage.Page;
    OfferMeans(v);
    if HasInput(revents) {
      OnePerDrain(v, reply, stoi);
      CallbackHandles(v, reply, stoi);
      var u := ReadCallback(v, reply, stoi);
      if !u.err && u.isConnecting {
        OfferMeans(u);
      } else {
        OfferFailed(u);
      }
    }
  }
}
