/** deon/net/Http.cpp with the string versions of `readn` and `writen` from deon/net/Util.cpp: one
    connection, its parser, its buffers and the events it is registered for. System calls are scripts:
    what `read` and `write` will return next. The content of a response is a parameter. */
module Http {
  import opened HttpHeader
  import opened HttpIndices
  import opened HttpStages
  import opened Sockets
  import L = HttpLine
  import HttpPage
  import HttpPipeline

  datatype LineState = PARSE_LINE_SUCCESS | PARSE_LINE_AGAIN | PARSE_LINE_ERROR
  datatype HeaderState = PARSE_HEADER_SUCCESS | PARSE_HEADER_AGAIN | PARSE_HEADER_ERROR

  lemma SuffixGrows(x: string, text: string, more: string)
    requires SuffixOf(x, text)
    ensures SuffixOf(x + more, text + more)
  {
  }

  /** The responses to the first `n` requests. */
  function Replies(reply: nat -> Reply, n: nat): string {
    if n == 0 then ""
    else Replies(reply, n - 1) + match reply(n - 1) case Served(r) => r case Refused(p, _, _) => p
  }

  lemma RepliesNext(reply: nat -> Reply, n: nat)
    ensures Replies(reply, n + 1) ==
            Replies(reply, n) + match reply(n) case Served(r) => r case Refused(p, _, _) => p
  {
  }

  lemma Glue(wire: string, output: string, more: string)
    ensures wire + (output + more) == (wire + output) + more && wire <= (wire + output) + more
  {
  }

  lemma SliceGrows(wire: string, out: string, k: nat, n: nat)
    requires k + n <= |out|
    ensures (wire + out[..k]) + out[k..k + n] == wire + out[..k + n]
  {
  }

  ghost predicate IsPage(text: string) {
    exists code: nat, msg: string :: text == HttpPage.Page(code, msg)
  }

  /** A page is the last thing on the wire, and in front of it is a prefix of the responses. */
  ghost predicate PageLast(wire: string, responses: string) {
    exists k: nat, page: string :: k <= |responses| && IsPage(page) && wire == responses[..k] + page
  }

  lemma TailInside(h: HState, i: int, x: Indices)
    requires InBounds(h, i, x)
    ensures 0 <= x.readLinePos <= i
  {
  }

  lemma LineLeavesSuffix(buffer: string)
    ensures L.ParseBuffer(buffer).LineDone? ==> SuffixOf(L.ParseBuffer(buffer).rest, buffer)
  {
  }

  class Http {
    // the connection
    var err: bool
    var isConnecting: bool
    var keepAlive: bool
    var inputBuffer: string
    var outputBuffer: string
    var state: ParseState
    var hState: HState
    var fields: L.Fields
    var headers: Headers
    // its channel
    var events: set<Flag>
    var timeout: nat
    var closed: bool
    // the world
    var toRead: seq<ReadResult>
    var toWrite: seq<WriteResult>
    const reply: nat -> Reply
    const stoi: string -> int
    var wire: string                   // what the kernel has taken
    var served: seq<HttpPipeline.Request>
    ghost var received: string
    ghost var responses: string        // all responses, in the order they were made
    ghost var pageSent: bool           // `handleError` has written to the socket

    /** The two streams. Unless the connection has failed, what is on the wire followed by what is
        buffered is everything that was answered; after a failure the wire still is a prefix of it. */
    ghost predicate Valid()
      reads this
    {
      && SuffixOf(inputBuffer, received)
      && responses == Replies(reply, |served|)
      && (!pageSent ==> wire <= responses)
      && (pageSent ==> PageLast(wire, responses))
      && (!err ==> !pageSent && wire + outputBuffer == responses)
    }

    function Pos(): Parser
      reads this
    {
      Parser(state, hState, fields, headers, inputBuffer)
    }

    ghost function Now(): View
      reads this
    {
      View(Pos(), served, outputBuffer, wire, toRead, toWrite, events, err, isConnecting, keepAlive, timeout)
    }

    /** Between two requests: nothing of the next one has been parsed. */
    predicate Clean()
      reads this
    {
      IsClean(Pos())
    }

    /** Output that is waiting is waited for. */
    ghost predicate NoStrandedOutput()
      reads this
    {
      !err && isConnecting && outputBuffer != "" ==> EPOLLOUT in events
    }

    constructor (reply: nat -> Reply, stoi: string -> int)
      ensures this.reply == reply && this.stoi == stoi
      ensures Valid() && NoStrandedOutput() && !err && isConnecting && !closed && served == []
      ensures Clean() && inputBuffer == outputBuffer == "" && toRead == [] && toWrite == []
      ensures events == {EPOLLIN, EPOLLET, EPOLLONESHOT}
    {
      this.reply, this.stoi := reply, stoi;
      err, isConnecting, keepAlive := false, true, false;
      inputBuffer, outputBuffer := "", "";
      state, hState, fields, headers := STATE_PARSE_REQUESTLINE, H_START, CLEAN, map[];
      events, timeout, closed := {EPOLLIN, EPOLLET, EPOLLONESHOT}, DEFAULT_EXPIRED_TIME, false;
      toRead, toWrite, wire, served := [], [], "", [];
      received, responses, pageSent := "", "", false;
    }

    // ---------- Util.cpp ----------

    /** Lines 118-147 of Util.cpp: read until the socket is dry, has ended or fails. */
    method Readn() returns (n: int, zero: bool)
      requires Valid()
      modifies this`toRead, this`inputBuffer, this`received
      ensures Valid()
      ensures var d := Drain(old(toRead));
        && inputBuffer == old(inputBuffer) + d.got && toRead == d.left
        && zero == (d.end == Over) && n == if d.end == Broken then -1 else |d.got|
    {
      hide Drain, SuffixOf, Replies, PageLast;
      var readSum := 0;
      ghost var got, all := "", Drain(toRead);
      zero := false;
      while true
        invariant readSum == |got| && !zero && SuffixOf(inputBuffer, received)
        invariant inputBuffer == old(inputBuffer) + got
        invariant Drain(toRead).end == all.end && Drain(toRead).left == all.left && got + Drain(toRead).got == all.got
        decreases |toRead|
      {
        DrainStep(toRead);
        if toRead == [] {
          return readSum, zero;
        }
        var r := toRead[0];
        toRead := toRead[1..];
        match r {
          case Data(bytes) =>
            SuffixGrows(inputBuffer, received, bytes);
            assert old(inputBuffer) + got + bytes == old(inputBuffer) + (got + bytes);
            readSum := readSum + |bytes|;
            inputBuffer, received, got := inputBuffer + bytes, received + bytes, got + bytes;
          case Eof =>
            zero := true;
            return readSum, zero;
          case ReadEintr =>
          case ReadEagain =>
            return readSum, zero;
          case ReadError =>
            return -1, zero;
        }
      }
    }

    /** Lines 175-207 of Util.cpp. What was written leaves the buffer, except on a hard error: then the
        buffer keeps it although the wire has it. */
    method Writen() returns (n: int)
      modifies this`toWrite, this`outputBuffer, this`wire
      ensures var s := Send(old(toWrite), |old(outputBuffer)|);
        && wire == old(wire) + old(outputBuffer)[..s.count] && toWrite == s.left
        && outputBuffer == old(outputBuffer)[if s.broken then 0 else s.count..]
        && n == if s.broken then -1 else s.count
    {
      var nremain, writeSum := |outputBuffer|, 0;
      ghost var all := Send(toWrite, nremain);
      while nremain > 0
        invariant outputBuffer == old(outputBuffer)
        invariant 0 <= writeSum && 0 <= nremain && writeSum + nremain == |outputBuffer|
        invariant wire == old(wire) + outputBuffer[..writeSum]
        invariant Send(toWrite, nremain).(count := writeSum + Send(toWrite, nremain).count) == all
        decreases |toWrite|, nremain
      {
        var r := if toWrite == [] then WriteEagain else toWrite[0];
        toWrite := if toWrite == [] then [] else toWrite[1..];
        match r {
          case WriteEintr =>
          case WriteEagain => break;
          case WriteError => return -1;
          case Wrote(k) =>
            var nwritten := if k < nremain then k else nremain;
            SliceGrows(old(wire), outputBuffer, writeSum, nwritten);
            wire := wire + outputBuffer[writeSum..writeSum + nwritten];
            writeSum, nremain := writeSum + nwritten, nremain - nwritten;
        }
      }
      if writeSum == |outputBuffer| {
        outputBuffer := "";
      } else {
        outputBuffer := outputBuffer[writeSum..];
      }
      n := writeSum;
    }

    // ---------- the parser ----------

    /** Lines 280-293. */
    method ParseRequestLine() returns (r: LineState)
      modifies this`inputBuffer, this`fields
      ensures match L.ParseBuffer(old(inputBuffer))
        case LineAgain => r == PARSE_LINE_AGAIN && inputBuffer == old(inputBuffer) && fields == old(fields)
        case LineDone(LineBad, rest) =>
          r == PARSE_LINE_ERROR && inputBuffer == rest
          && fields == L.BadFields(old(fields), L.LineOf(old(inputBuffer)))
        case LineDone(LineOk(f), rest) => r == PARSE_LINE_SUCCESS && inputBuffer == rest && fields == f
    {
      hide L.ParseLine, L.BadFields;
      var pos := L.Find(inputBuffer, "\r\n", 0);
      if pos < 0 {
        return PARSE_LINE_AGAIN;
      }
      var line := L.Substr(inputBuffer, 0, pos);
      inputBuffer := if |inputBuffer| > pos + 2 then inputBuffer[pos + 2..] else "";
      r := ParseLine(line);
    }

    /** Lines 295-372. */
    method ParseLine(line: string) returns (r: LineState)
      modifies this`fields
      ensures match L.ParseLine(line)
        case LineBad => r == PARSE_LINE_ERROR && fields == L.BadFields(old(fields), line)
        case LineOk(f) => r == PARSE_LINE_SUCCESS && fields == f
    {
      hide L.Find, L.CutUri, L.Substr, L.At;
      var posGet := L.Find(line, "GET", 0);
      var posPost := L.Find(line, "POST", 0);
      var posHead := L.Find(line, "HEAD", 0);
      var pos;
      if posGet >= 0 {
        fields, pos := fields.(verb := L.M_GET), posGet;
      } else if posPost >= 0 {
        fields, pos := fields.(verb := L.M_POST), posPost;
      } else if posHead >= 0 {
        fields, pos := fields.(verb := L.M_HEAD), posHead;
      } else {
        return PARSE_LINE_ERROR;
      }
      pos := L.Find(line, "/", pos);
      if pos < 0 {
        fields := fields.(version := L.HTTP_11, uri := "index.html");
        return PARSE_LINE_SUCCESS;
      }
      var space := L.Find(line, " ", pos);
      if space < 0 {
        return PARSE_LINE_ERROR;
      }
      fields := fields.(uri := L.CutUri(line, pos, space));
      pos := L.Find(line, "/", pos + 1);
      if pos < 0 {
        return PARSE_LINE_ERROR;
      }
      var version := L.Substr(line, pos + 1, 3);
      if version == "1.0" {
        fields := fields.(version := L.HTTP_10);
      } else if version == "1.1" {
        fields := fields.(version := L.HTTP_11);
      } else {
        return PARSE_LINE_ERROR;
      }
      return PARSE_LINE_SUCCESS;
    }

    /** Lines 375-473, with indices into the buffer. There is no condition on the state the call starts
        in: whatever `hState` is, every key and value that is cut out lies inside the buffer, and what
        the call does is what the automaton does. */
    method ParseRequestHeader() returns (r: HeaderState)
      modifies this`inputBuffer, this`hState, this`headers
      ensures match Call(old(hState), old(headers), old(inputBuffer))
        case Live(a) => r == PARSE_HEADER_AGAIN && hState == a.h && headers == a.headers && inputBuffer == a.tail
        case Failed(h, m) =>
          r == PARSE_HEADER_ERROR && hState == h && headers == m && inputBuffer == old(inputBuffer)
        case Finished(m, rest) =>
          r == PARSE_HEADER_SUCCESS && hState == H_END_CR && headers == m && inputBuffer == rest
    {
      hide Run, Step, Read, InBounds, Call, Resume;
      var finish, failed, x, i := false, false, Indices(0, 0, 0, 0, 0), 0;
      ghost var buffer, all := inputBuffer, Call(hState, headers, inputBuffer);
      ReadFirst(buffer, hState, headers);
      while i < |inputBuffer| && !finish
        invariant inputBuffer == buffer && 0 <= i <= |buffer| && InBounds(hState, i, x)
        invariant all == if finish then Finished(headers, buffer[i..])
                         else Run(Read(buffer, i, hState, headers, x), buffer[i..])
        invariant finish ==> hState == H_END_CR
      {
        RunStep(buffer, i, hState, headers, x);
        failed, finish, x := OneChar(i, x);
        if failed {
          return PARSE_HEADER_ERROR;
        }
        i := i + 1;
      }
      if finish {
        inputBuffer := inputBuffer[i..];
        return PARSE_HEADER_SUCCESS;
      }
      RunEmpty(Read(buffer, i, hState, headers, x));
      TailInside(hState, i, x);
      assert buffer[x.readLinePos..i] == buffer[x.readLinePos..] && buffer[i..] == "";
      inputBuffer := inputBuffer[x.readLinePos..];
      return PARSE_HEADER_AGAIN;
    }

    /** Lines 382-464: the switch, for one character. */
    method OneChar(i: nat, x: Indices) returns (failed: bool, finish: bool, y: Indices)
      requires i < |inputBuffer| && InBounds(hState, i, x)
      modifies this`hState, this`headers
      ensures match Step(Read(inputBuffer, i, old(hState), old(headers), x), inputBuffer[i], inputBuffer[i + 1..])
        case Live(a) =>
          !failed && !finish && InBounds(hState, i + 1, y) && a == Read(inputBuffer, i + 1, hState, headers, y)
        case Failed(h, m) => failed && hState == h && headers == m
        case Finished(m, rest) =>
          !failed && finish && hState == H_END_CR && headers == m && InBounds(hState, i + 1, y)
          && rest == inputBuffer[i + 1..]
    {
      ReadStep(inputBuffer, i, hState, headers, x);
      hide Step, Read;
      var c := inputBuffer[i];
      failed, finish, y := false, false, x;
      match hState {
        case H_START =>
          if c != '\n' && c != '\r' {
            hState, y := H_KEY, x.(keyStart := i, readLinePos := i);
          }
        case H_KEY =>
          if c == ':' {
            y := x.(keyEnd := i);
            if y.keyEnd - y.keyStart <= 0 {
              failed := true;
              return;
            }
            hState := H_SPACES_AFTER_COLON;
          }
        case H_SPACES_AFTER_COLON =>
          if c == ' ' {
            hState, y := H_VALUE, x.(valueStart := i + 1);
          } else {
            failed := true;
          }
        case H_VALUE =>
          if c == '\r' {
            hState, y := H_CR, x.(valueEnd := i);
            if y.valueEnd - y.valueStart <= 0 {
              failed := true;
            }
          }
        case H_CR =>
          if c == '\n' {
            hState := H_LF;
            headers := headers[inputBuffer[x.keyStart..x.keyEnd] := inputBuffer[x.valueStart..x.valueEnd]];
            y := x.(readLinePos := i);
          } else {
            failed := true;
          }
        case H_LF =>
          if c == '\r' {
            hState := H_END_CR;
          } else {
            hState, y := H_KEY, x.(keyStart := i);
          }
        case H_END_CR =>
          if c == '\n' {
            finish, y := true, x.(readLinePos := i);
          }
      }
    }

    // ---------- the connection ----------

    /** Lines 260-265. */
    method InitParse()
      modifies this`state, this`hState, this`fields, this`headers
      ensures Pos() == Parser(STATE_PARSE_REQUESTLINE, H_START, CLEAN, map[], inputBuffer)
    {
      state, hState, fields, headers := STATE_PARSE_REQUESTLINE, H_START, CLEAN, map[];
    }

    /** Lines 205-225: a page goes straight to the socket, past the output buffer. */
    method HandleError(code: nat, msg: string)
      requires wire <= responses
      modifies this`wire, this`pageSent
      ensures wire == old(wire) + HttpPage.Page(code, msg) && pageSent && PageLast(wire, responses)
    {
      assert wire == responses[..|wire|];
      wire := wire + HttpPage.Page(code, msg);
      pageSent := true;
      assert IsPage(HttpPage.Page(code, msg));
    }

    /** The request cannot be read. */
    method Refuse(msg: string)
      requires Valid() && !err
      modifies this`err, this`wire, this`pageSent
      ensures Valid() && err && wire == old(wire) + HttpPage.Page(400, msg)
    {
      hide SuffixOf, PageLast, Replies, HttpPage.Page;
      assert wire <= responses;
      err := true;
      HandleError(400, msg);
    }

    /** Lines 491-546, the file being a parameter: the response, or part of one and a page. */
    method Respond() returns (rc: int)
      requires Valid() && !err
      modifies this`outputBuffer, this`wire, this`served, this`responses, this`pageSent
      ensures rc == 0 || rc == -1
      ensures rc == 0 ==> Valid()
      ensures responses == Replies(reply, |served|) && SuffixOf(inputBuffer, received)
      ensures if pageSent then PageLast(wire, responses) else wire <= responses
      ensures served == old(served) + [HttpPipeline.Request(fields, headers)]
      ensures match reply(|old(served)|)
        case Served(response) => rc == 0 && outputBuffer == old(outputBuffer) + response && wire == old(wire)
        case Refused(partial, code, msg) =>
          rc == -1 && outputBuffer == old(outputBuffer) + partial && wire == old(wire) + HttpPage.Page(code, msg)
    {
      hide SuffixOf, PageLast, Replies, HttpPage.Page;
      RepliesNext(reply, |served|);
      var r := reply(|served|);
      Glue(wire, outputBuffer, match r case Served(response) => response case Refused(partial, _, _) => partial);
      served := served + [HttpPipeline.Request(fields, headers)];
      match r {
        case Served(response) =>
          outputBuffer, responses := outputBuffer + response, responses + response;
          rc := 0;
        case Refused(partial, code, msg) =>
          outputBuffer, responses := outputBuffer + partial, responses + partial;
          HandleError(code, msg);
          rc := -1;
      }
    }

    /** Lines 475-549. */
    method AnalysisRequest() returns (rc: int)
      requires Valid() && !err
      modifies this`keepAlive, this`outputBuffer, this`wire, this`served, this`responses, this`pageSent
      ensures rc == 0 || rc == -1
      ensures rc == 0 ==> Valid()
      ensures responses == Replies(reply, |served|) && SuffixOf(inputBuffer, received)
      ensures if pageSent then PageLast(wire, responses) else wire <= responses
      ensures fields.verb == L.M_GET || fields.verb == L.M_HEAD ==>
        && served == old(served) + [HttpPipeline.Request(fields, headers)]
        && keepAlive == (old(keepAlive) || AsksKeepAlive(headers))
        && match reply(|old(served)|)
           case Served(response) => rc == 0 && outputBuffer == old(outputBuffer) + response && wire == old(wire)
           case Refused(partial, code, msg) =>
             rc == -1 && outputBuffer == old(outputBuffer) + partial && wire == old(wire) + HttpPage.Page(code, msg)
      ensures !(fields.verb == L.M_GET || fields.verb == L.M_HEAD) ==>
        rc == -1 && served == old(served) && outputBuffer == old(outputBuffer) && wire == old(wire)
        && keepAlive == old(keepAlive)
    {
      hide SuffixOf, AsksKeepAlive, PageLast, Replies, HttpPage.Page;
      if fields.verb != L.M_GET && fields.verb != L.M_HEAD {
        return -1;
      }
      if AsksKeepAlive(headers) {
        keepAlive := true;
      }
      rc := Respond();
    }

    /** Lines 189-203. After a failure nothing more is written, so what a failed `Writen` left in the
        buffer is not sent a second time. */
    method HandleWrite()
      requires Valid()
      modifies this`err, this`events, this`toWrite, this`outputBuffer, this`wire
      ensures Valid() && old(events) <= events && old(wire) <= wire && (old(err) ==> err)
      ensures Now() == Offer(old(Now()))
      ensures !err && isConnecting && outputBuffer != "" ==> EPOLLOUT in events
    {
      hide Send, SuffixOf, Replies, PageLast;
      if !err && isConnecting {
        var n := Writen();
        if n < 0 {
          err := true;
        }
        if outputBuffer != "" {
          events := events + {EPOLLOUT};
        }
      }
    }

    /** Lines 82-101. Without `go` the read callback is over: `wait` for more, or failed. */
    method LineStage() returns (go: bool, wait: bool)
      requires Valid() && !err && state == STATE_PARSE_REQUESTLINE
      modifies this`inputBuffer, this`fields, this`state, this`err, this`wire, this`pageSent
      ensures Valid() && old(wire) <= wire
      ensures var line := L.ParseBuffer(old(inputBuffer));
        && (go <==> line.LineDone? && line.result.LineOk?) && (wait <==> line.LineAgain?)
        && (err <==> line.LineDone? && line.result.LineBad?)
        && match line
           case LineAgain =>
             state == STATE_PARSE_REQUESTLINE && fields == old(fields) && inputBuffer == old(inputBuffer)
             && wire == old(wire)
           case LineDone(LineOk(f), rest) =>
             state == STATE_PARSE_HEADERS && fields == f && inputBuffer == rest && wire == old(wire)
           case LineDone(LineBad, rest) =>
             state == STATE_PARSE_REQUESTLINE && inputBuffer == rest
             && fields == L.BadFields(old(fields), L.LineOf(old(inputBuffer)))
             && wire == old(wire) + HttpPage.Page(400, BAD_REQUEST)
    {
      LineLeavesSuffix(inputBuffer);
      hide L.ParseBuffer, L.BadFields, Replies, PageLast, HttpPage.Page;
      var rc := ParseRequestLine();
      if rc == PARSE_LINE_AGAIN {
        return false, true;
      } else if rc == PARSE_LINE_ERROR {
        Refuse(BAD_REQUEST);
        return false, false;
      }
      state := STATE_PARSE_HEADERS;
      return true, false;
    }

    /** Line 105: what is left in the buffer still is the end of what has come. */
    method ReadHeaders() returns (rc: HeaderState)
      requires Valid() && !err
      modifies this`inputBuffer, this`hState, this`headers
      ensures Valid()
      ensures match Call(old(hState), old(headers), old(inputBuffer))
        case Live(a) => rc == PARSE_HEADER_AGAIN && hState == a.h && headers == a.headers && inputBuffer == a.tail
        case Failed(h, m) =>
          rc == PARSE_HEADER_ERROR && hState == h && headers == m && inputBuffer == old(inputBuffer)
        case Finished(m, rest) =>
          rc == PARSE_HEADER_SUCCESS && hState == H_END_CR && headers == m && inputBuffer == rest
    {
      CallSuffix(hState, headers, inputBuffer, received);
      hide Call, Replies, SuffixOf, PageLast;
      rc := ParseRequestHeader();
    }

    /** Lines 103-128. */
    method HeaderStage() returns (go: bool, wait: bool)
      requires Valid() && !err && state == STATE_PARSE_HEADERS
      modifies this`inputBuffer, this`hState, this`headers, this`state, this`err, this`wire, this`pageSent
      ensures Valid() && old(wire) <= wire
      ensures var c := Call(old(hState), old(headers), old(inputBuffer));
        && (go <==> c.Finished?) && (wait <==> c.Live?) && (err <==> c.Failed?)
        && fields == old(fields)
        && match c
           case Live(a) =>
             state == STATE_PARSE_HEADERS && hState == a.h && headers == a.headers && inputBuffer == a.tail
             && wire == old(wire)
           case Failed(h, m) =>
             state == STATE_PARSE_HEADERS && hState == h && headers == m && inputBuffer == old(inputBuffer)
             && wire == old(wire) + HttpPage.Page(400, BAD_REQUEST)
           case Finished(m, rest) =>
             state == (if fields.verb == L.M_POST then STATE_CHECK_CONTENT_LENGTH else STATE_ANALYSIS)
             && hState == H_END_CR && headers == m && inputBuffer == rest && wire == old(wire)
    {
      hide Call, Replies, SuffixOf, PageLast, HttpPage.Page;
      var rc := ReadHeaders();
      if rc == PARSE_HEADER_AGAIN {
        return false, true;
      } else if rc == PARSE_HEADER_ERROR {
        Refuse(BAD_REQUEST);
        return false, false;
      }
      state := if fields.verb == L.M_POST then STATE_CHECK_CONTENT_LENGTH else STATE_ANALYSIS;
      return true, false;
    }

    /** Lines 130-150. */
    method LengthStage() returns (go: bool, wait: bool)
      requires Valid() && !err && state == STATE_CHECK_CONTENT_LENGTH
      modifies this`state, this`err, this`wire, this`pageSent
      ensures Valid() && old(wire) <= wire
      ensures match AdvanceLength(old(Pos()), stoi)
        case Waiting(p) => !go && wait && Now() == old(Now())
        case Failing(p, msg) => !go && !wait && Now() == Fail(old(Now()), 400, msg)
        case Asking(p) => go && !wait && Now() == old(Now()).(p := p)
    {
      hide Replies, SuffixOf, PageLast, HttpPage.Page;
      if "Content-length" !in headers {
        Refuse(NO_LENGTH);
        return false, false;
      }
      if |inputBuffer| < stoi(headers["Content-length"]) {
        return false, true;
      }
      state := STATE_ANALYSIS;
      return true, false;
    }

    /** Lines 152-165. */
    method AnalysisStage()
      requires Valid() && !err && state == STATE_ANALYSIS
      modifies this`keepAlive, this`outputBuffer, this`served, this`responses
      modifies this`state, this`err, this`wire, this`pageSent
      ensures Valid() && old(wire) <= wire
      ensures var r := HttpPipeline.Request(fields, headers);
        if !IsServed(r) then
          err && state == old(state) && served == old(served) && outputBuffer == old(outputBuffer)
          && wire == old(wire) && keepAlive == old(keepAlive)
        else
          && served == old(served) + [r] && keepAlive == (old(keepAlive) || AsksKeepAlive(headers))
          && match reply(|old(served)|)
             case Served(response) =>
               !err && state == STATE_FINISH && outputBuffer == old(outputBuffer) + response && wire == old(wire)
             case Refused(partial, code, msg) =>
               err && state == old(state) && outputBuffer == old(outputBuffer) + partial
               && wire == old(wire) + HttpPage.Page(code, msg)
    {
      hide SuffixOf, AsksKeepAlive, PageLast, Replies, HttpPage.Page;
      var rc := AnalysisRequest();
      if rc == 0 {
        state := STATE_FINISH;
      } else {
        err := true;
      }
    }

    /** The same, as one effect on the connection. */
    method AnswerRequest()
      requires Valid() && !err && state == STATE_ANALYSIS
      modifies this`keepAlive, this`outputBuffer, this`served, this`responses
      modifies this`state, this`err, this`wire, this`pageSent
      ensures Valid() && old(wire) <= wire && (err || state == STATE_FINISH)
      ensures Now() == Answer(old(Now()), reply)
    {
      hide AsksKeepAlive, Replies, SuffixOf, PageLast, HttpPage.Page;
      AnalysisStage();
    }

    /** Lines 130-165. */
    method CheckAndServe() returns (finish: bool)
      requires Valid() && !err && (state == STATE_CHECK_CONTENT_LENGTH || state == STATE_ANALYSIS)
      modifies this`keepAlive, this`outputBuffer, this`served, this`responses
      modifies this`state, this`err, this`wire, this`pageSent
      ensures Valid() && old(wire) <= wire
      ensures Now() == Stages(old(Now()), reply, stoi) && finish == (!err && state != STATE_FINISH)
    {
      hide AdvanceHeaders, Answer, Replies, SuffixOf, PageLast, HttpPage.Page;
      if state == STATE_CHECK_CONTENT_LENGTH {
        var go, wait := LengthStage();
        if !go {
          return wait;
        }
      }
      AnswerRequest();
      finish := false;
    }

    /** Lines 103-165: the stages behind the request line. */
    method ServeRest() returns (finish: bool)
      requires Valid() && !err && state != STATE_FINISH && state != STATE_PARSE_REQUESTLINE
      modifies this`inputBuffer, this`hState, this`headers
      modifies this`keepAlive, this`outputBuffer, this`served, this`responses
      modifies this`state, this`err, this`wire, this`pageSent
      ensures Valid() && old(wire) <= wire
      ensures Now() == Stages(old(Now()), reply, stoi) && finish == (!err && state != STATE_FINISH)
    {
      hide Call, AdvanceLength, Answer, Replies, SuffixOf, PageLast, HttpPage.Page;
      if state == STATE_PARSE_HEADERS {
        var go, wait := HeaderStage();
        if !go {
          assert Now() == Stages(old(Now()), reply, stoi);
          return wait;
        }
      }
      finish := CheckAndServe();
    }

    /** Lines 82-165, when `readn` has brought something: the stages that are still to do, and at most
        one request answered. */
    method ParseAndServe() returns (finish: bool)
      requires Valid() && !err && state != STATE_FINISH
      modifies this`inputBuffer, this`fields, this`hState, this`headers
      modifies this`keepAlive, this`outputBuffer, this`served, this`responses
      modifies this`state, this`err, this`wire, this`pageSent
      ensures Valid() && old(wire) <= wire
      ensures Now() == Stages(old(Now()), reply, stoi) && finish == (!err && state != STATE_FINISH)
    {
      hide L.ParseBuffer, L.BadFields, L.LineOf, AdvanceHeaders, Answer, Replies, SuffixOf, PageLast, HttpPage.Page;
      if state == STATE_PARSE_REQUESTLINE {
        var go, wait := LineStage();
        if !go {
          assert Now() == Stages(old(Now()), reply, stoi);
          return wait;
        }
      }
      finish := ServeRest();
    }

    /** Lines 63-81: the socket is read. With `go` there is something to look at. */
    method ReadSome() returns (go: bool, finish: bool)
      requires Valid() && !err && state != STATE_FINISH
      modifies this`toRead, this`inputBuffer, this`received, this`isConnecting, this`err, this`wire, this`pageSent
      ensures Valid() && old(wire) <= wire
      ensures var d := Drain(old(toRead)); go <==> d.end == Dry && d.got != ""
      ensures go ==> !err && inputBuffer == old(inputBuffer) + Drain(old(toRead)).got
                     && toRead == Drain(old(toRead)).left && isConnecting == old(isConnecting) && wire == old(wire)
      ensures !go ==> (Now(), finish) == ReadPart(old(Now()), reply, stoi)
    {
      hide Replies, Stages, Drain, SuffixOf, PageLast, HttpPage.Page;
      var n, zero := Readn();
      if n < 0 {
        Refuse(BAD_REQUEST);
        return false, false;
      }
      if zero {
        isConnecting := false;
        return false, false;
      } else if n == 0 {
        assert inputBuffer == old(inputBuffer);
        return false, true;
      }
      return true, false;
    }

    /** Lines 59-166. The `do` of the source never goes round twice: every path through its body ends in
        a break, because a connection at rest is not in STATE_FINISH. */
    method ReadAndServe() returns (finish: bool)
      requires Valid() && !err && state != STATE_FINISH
      modifies this`toRead, this`inputBuffer, this`received, this`isConnecting
      modifies this`fields, this`hState, this`headers, this`keepAlive, this`outputBuffer, this`served, this`responses
      modifies this`state, this`err, this`wire, this`pageSent
      ensures Valid() && old(wire) <= wire
      ensures (Now(), finish) == ReadPart(old(Now()), reply, stoi)
      ensures finish ==> !err && state != STATE_FINISH
    {
      hide Replies, Stages, Drain, SuffixOf, PageLast, HttpPage.Page;
      var go;
      go, finish := ReadSome();
      if go {
        finish := ParseAndServe();
      }
    }

    /** Lines 170-173. */
    method WriteOutput()
      requires Valid() && !err
      modifies this`err, this`events, this`toWrite, this`outputBuffer, this`wire
      ensures Valid() && old(events) <= events && old(wire) <= wire && NoStrandedOutput()
      ensures Now() == Offer(old(Now()))
    {
      hide Offer;
      OfferNothing(Now());
      if outputBuffer != "" {
        HandleWrite();
      }
    }

    /** Lines 168-182: the output is offered to the socket, and the parser made ready for the next
        request. With `again` the callback goes round once more. */
    method EndRead(finish: bool) returns (again: bool)
      requires Valid() && (finish ==> !err && state != STATE_FINISH)
      modifies this`err, this`events, this`toWrite, this`outputBuffer, this`wire
      modifies this`state, this`hState, this`fields, this`headers
      ensures Valid() && NoStrandedOutput() && (!err ==> state != STATE_FINISH)
      ensures old(wire) <= wire && old(events) <= events
      ensures (Now(), again) == EndPart(old(Now()), finish)
    {
      hide Replies, SuffixOf, Offer, PageLast;
      again := false;
      if !err {
        WriteOutput();
        if finish {
          events := events + {EPOLLIN};
        } else if !err && state == STATE_FINISH {
          InitParse();
          again := isConnecting && inputBuffer != "";
        }
      } else {
        OfferFailed(Now());
      }
    }

    /** One time round: what the socket has is read, at most one request is served, and the output is
        offered. With `again` there is more in the buffer. */
    method ReadRound() returns (again: bool)
      requires Valid() && !err && state != STATE_FINISH
      modifies this
      ensures Valid() && NoStrandedOutput() && (!err ==> state != STATE_FINISH)
      ensures old(wire) <= wire && old(events) <= events && closed == old(closed)
      ensures (Now(), again) == Round(old(Now()), reply, stoi)
    {
      hide Replies, SuffixOf, PageLast, ReadPart, EndPart;
      var finish := ReadAndServe();
      again := EndRead(finish);
    }

    /** Lines 57-187: the callback, exactly, for everything the socket may do. */
    method HandleRead()
      requires Valid() && !err && state != STATE_FINISH
      modifies this
      ensures Valid() && NoStrandedOutput() && (!err ==> state != STATE_FINISH)
      ensures old(wire) <= wire && old(events) <= events && closed == old(closed)
      ensures old(served) <= served
      ensures old(isConnecting) ==> Handled(old(Now()), Now(), reply, stoi)
      ensures Now() == ReadCallback(old(Now()), reply, stoi)
      decreases |toRead|
    {
      hide Replies, SuffixOf, PageLast, Round, Handled;
      AgainHasRead(Now(), reply, stoi);
      OnePerDrain(Now(), reply, stoi);
      if isConnecting {
        CallbackHandles(Now(), reply, stoi);
      }
      var again := ReadRound();
      if again {
        HandleRead();
      }
    }

    /** Lines 232-258. */
    method HandleRegister()
      requires Valid() && NoStrandedOutput() && !closed
      modifies this`events, this`timeout, this`closed
      ensures Valid() && NoStrandedOutput()
      ensures closed <==> err || !isConnecting
      ensures events == if closed then old(events)
                        else {EPOLLET, if EPOLLOUT in old(events) then EPOLLOUT else EPOLLIN}
      ensures timeout == if closed then old(timeout) else if keepAlive then 300_000 else 2_000
    {
      var before := events;
      if !err && isConnecting {
        events := {};
        timeout := DEFAULT_EXPIRED_TIME;
        if keepAlive {
          timeout := DEFAULT_KEEP_ALIVE_TIME;
        }
        if EPOLLOUT in before {
          events := events + {EPOLLET, EPOLLOUT};
        } else {
          events := events + {EPOLLET, EPOLLIN};
        }
      } else {
        closed := true;
      }
    }

    /** A connection between two event batches. */
    ghost predicate AtRest()
      reads this
    {
      Valid() && NoStrandedOutput() && (closed <==> err || !isConnecting) && (!closed ==> state != STATE_FINISH)
    }

    /** deon/net/Channel.cpp 23-42, for a connection: no error callback is ever set. Whatever the events
        and whatever the socket does, a connection that stays open waits for EPOLLOUT if it has output.
        Once it does, it never again waits for input. */
    method HandleEvents(revents: set<Flag>)
      requires AtRest() && !closed
      modifies this
      ensures AtRest()
      ensures old(wire) <= wire && old(served) <= served
      ensures !closed ==> events == {EPOLLET, if EPOLLOUT in events then EPOLLOUT else EPOLLIN}
      ensures !closed ==> timeout == if keepAlive then 300_000 else 2_000
      ensures old(keepAlive) ==> keepAlive
      ensures !closed && (outputBuffer != "" || EPOLLOUT in old(events)) ==> EPOLLOUT in events
      ensures HasInput(revents) && Drain(old(toRead)).end != Dry ==> closed && served == old(served)
      ensures HasInput(revents) && Drain(old(toRead)).end == Over ==> wire == old(wire)
      ensures Now() == Registered(Called(old(Now()), revents, reply, stoi))
      ensures HasInput(revents) && EPOLLOUT !in revents ==> Handled(old(Now()), Now(), reply, stoi)
      ensures !HasInput(revents) ==> served == old(served) && Pos() == old(Pos()) && toRead == old(toRead)
      ensures !HasInput(revents) && EPOLLOUT in revents ==> Offered(old(Now()), Now(), old(outputBuffer))
      ensures !HasInput(revents) && EPOLLOUT !in revents ==>
        && !closed && toWrite == old(toWrite) && outputBuffer == old(outputBuffer) && wire == old(wire)
        && (EPOLLOUT in events <==> EPOLLOUT in old(events))
    {
      hide Replies, SuffixOf, PageLast, Called, Handled, Offered;
      ghost var before := Now();
      Callbacks(revents);
      CallsMean(before, revents, reply, stoi);
      SameButEvents(before, Now(), before.output, reply, stoi);
      HandleRegister();
    }

    /** Lines 33-40 of Channel.cpp. */
    method Callbacks(revents: set<Flag>)
      requires AtRest() && !closed
      modifies this
      ensures Valid() && NoStrandedOutput() && (!err ==> state != STATE_FINISH) && !closed
      ensures old(wire) <= wire && old(events) <= events
      ensures Now() == Called(old(Now()), revents, reply, stoi)
    {
      hide Replies, SuffixOf, PageLast, ReadCallback, Offer;
      if HasInput(revents) {
        HandleRead();
      }
      if EPOLLOUT in revents {
        HandleWrite();
      }
    }

    /** Any number of event batches, with any behaviour of the peer and the kernel in between: the wire
        carries a prefix of the responses, in the order of the requests, and behind it nothing or, as the
        last thing ever, an error page. */
    method Serve(batches: seq<(set<Flag>, seq<ReadResult>, seq<WriteResult>)>)
      requires AtRest()
      modifies this
      ensures AtRest()
      ensures old(wire) <= wire && old(served) <= served
      ensures !pageSent ==> wire <= Replies(reply, |served|)
      ensures pageSent ==> PageLast(wire, Replies(reply, |served|))
      ensures !closed ==> wire + outputBuffer == Replies(reply, |served|)
      ensures !closed && EPOLLOUT in old(events) ==> EPOLLOUT in events
    {
      hide Replies, Called, Handled, Offered, Drain, SuffixOf, PageLast, HttpPage.Page;
      for n := 0 to |batches|
        invariant AtRest() && old(wire) <= wire && old(served) <= served
        invariant !closed && EPOLLOUT in old(events) ==> EPOLLOUT in events
      {
        if !closed {
          toRead, toWrite := toRead + batches[n].1, toWrite + batches[n].2;
          HandleEvents(batches[n].0);
        }
      }
    }

    /** Open, with nothing under way, and waiting for input. */
    ghost predicate Ready()
      reads this
    {
      AtRest() && !closed && Clean() && inputBuffer == outputBuffer == "" && EPOLLOUT !in events
    }

    /** Open, having read this much of a request and not answered it. */
    ghost predicate Reading(text: string)
      reads this
    {
      AtRest() && !closed && Phase(Pos(), text) && outputBuffer == "" && EPOLLOUT !in events
    }

    /** What the constructor promises is all a conversation needs. */
    lemma Fresh()
      requires Valid() && NoStrandedOutput() && !err && isConnecting && !closed
      requires Clean() && inputBuffer == outputBuffer == "" && EPOLLOUT !in events
      ensures Ready()
    {
    }

    lemma AllSent()
      requires AtRest() && !closed
      ensures outputBuffer == "" ==> wire == Replies(reply, |served|)
    {
      assert wire + "" == wire;
    }
  }
}
