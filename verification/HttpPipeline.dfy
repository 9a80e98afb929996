/** Request line and header block together (deon/net/Http.cpp 82-118 and 260-265): requests that are
    sent one behind the other are read back one behind the other, and a request line may arrive in any
    number of pieces. */
module HttpPipeline {
  import L = HttpLine
  import H = HttpHeader
  import R = HttpResume

  /** A request as a client means it. */
  datatype Message = Message(f: L.Fields, first: H.Line, later: seq<H.Line>)

  function BlockOf(m: Message): H.Block {
    H.Block("", m.first, m.later, "")
  }

  function MessageText(m: Message): string {
    L.LineText(m.f) + "\r\n" + H.BlockText(BlockOf(m))
  }

  predicate Sendable(m: Message) {
    && L.IsRequest(m.f) && L.Survives(m.f) && !L.Contains(m.f.uri, "\r\n")
    && H.IsBlock(BlockOf(m))
  }

  function AllText(ms: seq<Message>): string {
    if ms == [] then "" else MessageText(ms[0]) + AllText(ms[1..])
  }

  datatype Request = Request(f: L.Fields, headers: H.Headers)

  /** What the server knows of a message: repeated keys have collapsed. */
  function Known(m: Message): Request {
    Request(m.f, H.BlockHeaders(BlockOf(m), map[]))
  }

  function AllKnown(ms: seq<Message>): seq<Request> {
    seq(|ms|, k requires 0 <= k < |ms| => Known(ms[k]))
  }

  datatype Parsed = Parsed(requests: seq<Request>, rest: string) | Stuck

  /** One request from a clean state, as `initParse` leaves it. */
  function ParseOne(buffer: string): Parsed {
    var line := L.ParseBuffer(buffer);
    if line.LineAgain? || line.result.LineBad? then Stuck
    else
      var headers := H.Call(H.H_START, map[], line.rest);
      if headers.Finished? then Parsed([Request(line.result.f, headers.headers)], headers.rest) else Stuck
  }

  /** A request as it may come: a line up to its end, a header block, and whatever is behind them. */
  predicate IsOne(line: string, b: H.Block, buffer: string, rest: string) {
    && buffer == line + "\r\n" + (H.BlockText(b) + rest) && L.Find(buffer, "\r\n", 0) == |line|
    && L.ParseLine(line).LineOk? && H.IsBlock(b)
  }

  lemma GlueLine(buffer: string, k: nat)
    requires L.At(buffer, "\r\n", k)
    ensures buffer == L.Substr(buffer, 0, k) + "\r\n" + buffer[k + 2..] && |L.Substr(buffer, 0, k)| == k
  {
  }

  /** What is parsed as one request is one. */
  lemma OneIsLineAndBlock(buffer: string) returns (line: string, b: H.Block)
    requires ParseOne(buffer).Parsed?
    ensures IsOne(line, b, buffer, ParseOne(buffer).rest)
    ensures ParseOne(buffer).requests == [Request(L.ParseLine(line).f, H.BlockHeaders(b, map[]))]
  {
    hide L.Find, L.ParseLine, H.Run, H.BlockText, H.BlockHeaders, H.IsBlock;
    var k := L.Find(buffer, "\r\n", 0);
    line := L.Substr(buffer, 0, k);
    GlueLine(buffer, k);
    var rest;
    b, rest := H.BlockSound(map[], buffer[k + 2..]);
  }

  lemma LineAndBlockAreOne(line: string, b: H.Block, buffer: string, rest: string)
    requires IsOne(line, b, buffer, rest)
    ensures ParseOne(buffer) == Parsed([Request(L.ParseLine(line).f, H.BlockHeaders(b, map[]))], rest)
  {
    hide L.Find, L.ParseLine, H.Run, H.BlockText, H.BlockHeaders, H.IsBlock;
    Glue(line, H.BlockText(b), rest);
    H.BlockIsRead(b, map[], rest);
  }

  /** A buffer is parsed as a request, with a given rest, if and only if it is one with that rest. */
  lemma ParserAcceptsRequests(buffer: string, rest: string)
    ensures ParseOne(buffer).Parsed? && ParseOne(buffer).rest == rest <==>
            exists line: string, b: H.Block :: IsOne(line, b, buffer, rest)
  {
    hide ParseOne, IsOne;
    if ParseOne(buffer).Parsed? && ParseOne(buffer).rest == rest {
      var line, b := OneIsLineAndBlock(buffer);
    }
    forall line: string, b: H.Block | IsOne(line, b, buffer, rest)
      ensures ParseOne(buffer).Parsed? && ParseOne(buffer).rest == rest
    {
      LineAndBlockAreOne(line, b, buffer, rest);
    }
  }

  function ParseMany(n: nat, buffer: string): Parsed {
    if n == 0 then Parsed([], buffer)
    else
      var one := ParseOne(buffer);
      if one.Stuck? then Stuck
      else
        var more := ParseMany(n - 1, one.rest);
        if more.Stuck? then Stuck else Parsed(one.requests + more.requests, more.rest)
  }

  // ---------- the end of the line ----------

  lemma CrlfEndsLine(f: L.Fields, more: string)
    requires L.IsRequest(f) && !L.Contains(f.uri, "\r\n")
    ensures L.Find(L.LineText(f) + "\r\n" + more, "\r\n", 0) == |L.LineText(f)|
  {
    var line := L.LineText(f);
    var s := line + "\r\n" + more;
    forall k | 0 <= k < |line| ensures !L.At(s, "\r\n", k) {
      NoCrlfInLine(f, k);
      var crlf := "\r\n";
      L.AtChars(s, crlf, k);
      assert crlf[0] == '\r' && crlf[1] == '\n' && s[k] == line[k];
    }
    assert s[|line|..|line| + 2] == "\r\n";
    L.FindIs(s, "\r\n", 0, |line|);
  }

  lemma NoCrlfInUri(uri: string, k: nat)
    requires !L.Contains(uri, "\r\n") && k + 1 < |uri| && uri[k] == '\r'
    ensures uri[k + 1] != '\n'
  {
    L.AtChars(uri, "\r\n", k);
    L.FindFirst(uri, "\r\n", 0);
    assert !L.At(uri, "\r\n", k);
  }

  lemma NoCrlfInLine(f: L.Fields, k: nat)
    requires L.IsRequest(f) && !L.Contains(f.uri, "\r\n") && k < |L.LineText(f)|
    ensures L.LineText(f)[k] == '\r' ==> k + 1 < |L.LineText(f)| && L.LineText(f)[k + 1] != '\n'
  {
    hide L.LineText, L.Contains;
    L.LineParts(f);
    var line, n, e := L.LineText(f), |L.MethodName(f.verb)|, |L.MethodName(f.verb)| + 2 + |f.uri|;
    assert line[e + 6..][0] == line[e + 6] && line[e + 6..][1] == line[e + 7] && line[e + 6..][2] == line[e + 8];
    if line[k] == '\r' && k + 1 < e {
      NoCrlfInUri(f.uri, k - n - 2);
    }
  }

  lemma Glue(line: string, block: string, rest: string)
    ensures line + "\r\n" + block + rest == line + "\r\n" + (block + rest)
    ensures L.Substr(line + "\r\n" + (block + rest), 0, |line|) == line
    ensures (line + "\r\n" + (block + rest))[|line| + 2..] == block + rest
  {
  }

  lemma MessageIsParsed(m: Message, rest: string)
    requires Sendable(m)
    ensures ParseOne(MessageText(m) + rest) == Parsed([Known(m)], rest)
  {
    hide L.LineText, L.Find, L.ParseLine, H.BlockText, L.Survives, H.BlockHeaders, ParseOne;
    var line, block := L.LineText(m.f), H.BlockText(BlockOf(m));
    CrlfEndsLine(m.f, block + rest);
    L.LineRoundTrip(m.f);
    Glue(line, block, rest);
    LineAndBlockAreOne(line, BlockOf(m), line + "\r\n" + (block + rest), rest);
  }

  lemma TextCons(ms: seq<Message>)
    requires ms != []
    ensures AllText(ms) == MessageText(ms[0]) + AllText(ms[1..])
  {
  }

  lemma KnownCons(ms: seq<Message>, n: nat)
    requires 0 < n <= |ms|
    ensures AllKnown(ms[..n]) == [Known(ms[0])] + AllKnown(ms[1..][..n - 1])
  {
    hide Known;
    assert ms[1..][..n - 1] == ms[..n][1..];
  }

  lemma MessageNotEmpty(m: Message)
    requires Sendable(m)
    ensures MessageText(m) != "" && (Known(m).f == m.f && m.f.verb != L.M_INVALID)
  {
    hide L.LineText, H.BlockText;
  }

  /** Any number of requests, printed one behind the other, come back as they were meant, and what
      follows them is not touched. */
  lemma {:induction false} PipelineRoundTrip(ms: seq<Message>, rest: string)
    requires forall k :: 0 <= k < |ms| ==> Sendable(ms[k])
    ensures ParseMany(|ms|, AllText(ms) + rest) == Parsed(AllKnown(ms), rest)
    decreases |ms|
  {
    hide MessageText, ParseOne, Known, Sendable;
    if ms == [] {
      assert AllText(ms) + rest == rest;
    } else {
      assert AllText(ms) + rest == MessageText(ms[0]) + (AllText(ms[1..]) + rest);
      MessageIsParsed(ms[0], AllText(ms[1..]) + rest);
      PipelineRoundTrip(ms[1..], rest);
      assert AllKnown(ms) == [Known(ms[0])] + AllKnown(ms[1..]);
    }
  }

  // ---------- a request in pieces ----------

  /** The connection waits for more of the request, and will go on where it left off. */
  predicate Waits(text: string) {
    var line := L.ParseBuffer(text);
    line.LineAgain? ||
    (line.result.LineOk? &&
     var s := H.Call(H.H_START, map[], line.rest);
     s.Live? && R.Resumable(s.a.h, s.a.tail))
  }

  lemma NoLineYet(m: Message, k: nat)
    requires Sendable(m) && k < |L.LineText(m.f)| + 2 <= |MessageText(m)|
    ensures L.ParseBuffer(MessageText(m)[..k]).LineAgain?
  {
    hide L.LineText, H.BlockText;
    var text, cut := MessageText(m), MessageText(m)[..k];
    CrlfEndsLine(m.f, H.BlockText(BlockOf(m)));
    L.FindFirst(text, "\r\n", 0);
    var j := L.Find(cut, "\r\n", 0);
    assert j >= 0 ==> cut[j..j + 2] == text[j..j + 2];
    assert j >= 0 ==> L.At(text, "\r\n", j);
  }

  /** What may begin a key, and may be cut. */
  predicate MayBeginKey(part: string) {
    part != "" ==> part[0] != ':' && part[0] != '\r' && part[0] != '\n' && ':' !in part[1..]
  }

  /** The header parser inside the first key. */
  lemma InFirstKey(key: string)
    requires MayBeginKey(key)
    ensures var s := H.Call(H.H_START, map[], key); s.Live? && R.Resumable(s.a.h, s.a.tail)
  {
    if key != "" {
      var a := H.Auto(H.H_KEY, key[..1], "", key[..1], map[]);
      H.ReadKey(a, key[1..]);
      assert [key[0]] == key[..1] && key[..1] + key[1..] == key;
    }
  }

  lemma PartOfKey(key: string, n: nat)
    requires MayBeginKey(key) && n <= |key|
    ensures MayBeginKey(key[..n])
  {
    if n > 0 {
      assert key[..n][1..] == key[1..][..n - 1];
    }
  }

  lemma LineAndKeyWait(f: L.Fields, key: string)
    requires L.IsRequest(f) && L.Survives(f) && !L.Contains(f.uri, "\r\n")
    requires MayBeginKey(key)
    ensures Waits(L.LineText(f) + "\r\n" + key)
  {
    hide L.LineText, L.ParseLine, L.Find, H.Run, L.Survives;
    CrlfEndsLine(f, key);
    L.LineRoundTrip(f);
    Glue(L.LineText(f), key, "");
    assert key + "" == key;
    InFirstKey(key);
  }

  /** The beginning of a request up to somewhere in its first key. */
  lemma CutParts(m: Message, k: nat)
    requires |L.LineText(m.f)| + 2 <= k <= |L.LineText(m.f)| + 2 + |m.first.key|
    ensures k <= |MessageText(m)|
    ensures MessageText(m)[..k] == L.LineText(m.f) + "\r\n" + m.first.key[..k - |L.LineText(m.f)| - 2]
  {
    hide L.LineText, H.LinesText;
    assert H.BlockText(BlockOf(m)) ==
      m.first.key + (": " + m.first.value + "\r\n" + H.LinesText(m.later) + "\r" + "" + "\n");
  }

  /** A request may be cut anywhere up to the end of its first key, if that does not begin with a colon. */
  lemma CutWaits(m: Message, k: nat)
    requires Sendable(m) && m.first.key[0] != ':' && k <= |L.LineText(m.f)| + 2 + |m.first.key|
    ensures k <= |MessageText(m)| && Waits(MessageText(m)[..k])
  {
    var n, key := |L.LineText(m.f)| + 2, m.first.key;
    CutParts(m, n + |key|);
    hide L.LineText, MessageText, Waits, L.Survives;
    if k < n {
      NoLineYet(m, k);
      NoLineWaits(MessageText(m)[..k]);
    } else {
      CutParts(m, k);
      PartOfKey(key, k - n);
      LineAndKeyWait(m.f, key[..k - n]);
    }
  }

  lemma NoLineWaits(text: string)
    ensures L.ParseBuffer(text).LineAgain? ==> Waits(text)
  {
  }

  // the line alone

  /** The buffer grows by a chunk and the parser is called, until it does not ask for more; with the
      chunks that have not been read. */
  function Feed(buffer: string, chunks: seq<string>): (L.LineScan, seq<string>)
    decreases |chunks|
  {
    if chunks == [] then (L.LineAgain, [])
    else
      var s := L.ParseBuffer(buffer + chunks[0]);
      if s.LineDone? then (s, chunks[1..]) else Feed(buffer + chunks[0], chunks[1..])
  }

  lemma AtFront(a: string, b: string, j: nat)
    requires j + 2 <= |a|
    ensures L.At(a + b, "\r\n", j) == L.At(a, "\r\n", j)
  {
    assert (a + b)[j..j + 2] == a[j..j + 2];
  }

  lemma GlueBehind(a: string, b: string, k: nat)
    requires k + 2 <= |a|
    ensures L.Substr(a + b, 0, k) == L.Substr(a, 0, k) && (a + b)[k + 2..] == a[k + 2..] + b
  {
  }

  lemma MoreBehindLine(a: string, b: string)
    requires L.ParseBuffer(a).LineDone?
    ensures L.ParseBuffer(a + b) == L.ParseBuffer(a).(rest := L.ParseBuffer(a).rest + b)
  {
    var k := L.Find(a, "\r\n", 0);
    L.FindFirst(a, "\r\n", 0);
    forall j | 0 <= j <= k ensures L.At(a + b, "\r\n", j) == L.At(a, "\r\n", j) {
      AtFront(a, b, j);
    }
    hide L.ParseLine, L.At;
    L.FindIs(a + b, "\r\n", 0, k);
    GlueBehind(a, b, k);
  }

  /** However a stream is cut into chunks, feeding them gives the result of one call on all of it, and
      the buffer with the unread chunks is what that one call leaves. */
  lemma {:induction false} LineInPieces(buffer: string, chunks: seq<string>)
    requires chunks != []
    ensures var (s, unread) := Feed(buffer, chunks);
            var all := L.ParseBuffer(buffer + H.Concat(chunks));
            if s.LineAgain? then all == s else all == s.(rest := s.rest + H.Concat(unread))
    decreases |chunks|
  {
    var next := buffer + chunks[0];
    assert buffer + H.Concat(chunks) == next + H.Concat(chunks[1..]);
    hide L.ParseBuffer;
    if L.ParseBuffer(next).LineDone? {
      MoreBehindLine(next, H.Concat(chunks[1..]));
    } else if |chunks| == 1 {
      assert next + H.Concat(chunks[1..]) == next;
    } else {
      LineInPieces(next, chunks[1..]);
    }
  }
}
