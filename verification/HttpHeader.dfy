/** The header automaton of deon/net/Http.cpp (375-473) as a reader of characters. Where the code keeps
    indices into the buffer, the automaton keeps the text between them: the key and the value being
    read, and the tail of the buffer that an unfinished call leaves for the next one. */
module HttpHeader {

  datatype HState = H_START | H_KEY | H_SPACES_AFTER_COLON | H_VALUE | H_CR | H_LF | H_END_CR

  type Headers = map<string, string>

  datatype Auto = Auto(h: HState, key: string, value: string, tail: string, headers: Headers)

  /** What a call has come to: it wants more, it failed, or it is through and this is behind it. */
  datatype Scan = Live(a: Auto) | Failed(h: HState, headers: Headers) | Finished(headers: Headers, rest: string)

  /** Where a call starts: only the automaton state and the headers survive from the call before. */
  function Resume(h: HState, headers: Headers): Auto {
    Auto(h, "", "", "", headers)
  }

  /** One character. */
  function Step(a: Auto, c: char, rest: string): Scan {
    var more := a.(tail := a.tail + [c]);
    match a.h
    case H_START =>
      if c == '\n' || c == '\r' then Live(more) else Live(a.(h := H_KEY, key := [c], tail := [c]))
    case H_KEY =>
      if c != ':' then Live(more.(key := a.key + [c]))
      else if a.key == "" then Failed(H_KEY, a.headers)
      else Live(more.(h := H_SPACES_AFTER_COLON))
    case H_SPACES_AFTER_COLON =>
      if c == ' ' then Live(more.(h := H_VALUE)) else Failed(H_SPACES_AFTER_COLON, a.headers)
    case H_VALUE =>
      if c != '\r' then Live(more.(value := a.value + [c]))
      else if a.value == "" then Failed(H_CR, a.headers)
      else Live(more.(h := H_CR))
    case H_CR =>
      if c == '\n' then Live(Auto(H_LF, "", "", [c], a.headers[a.key := a.value])) else Failed(H_CR, a.headers)
    case H_LF =>
      if c == '\r' then Live(more.(h := H_END_CR)) else Live(more.(h := H_KEY, key := [c]))
    case H_END_CR =>
      // No error branch: anything before the line feed is skipped.
      if c == '\n' then Finished(a.headers, rest) else Live(more)
  }

  function Run(a: Auto, text: string): Scan
    decreases |text|
  {
    if text == "" then Live(a)
    else
      var s := Step(a, text[0], text[1..]);
      if s.Live? then Run(s.a, text[1..]) else s
  }

  lemma RunCons(a: Auto, text: string)
    requires text != ""
    ensures Run(a, text) == var s := Step(a, text[0], text[1..]); if s.Live? then Run(s.a, text[1..]) else s
  {
  }

  lemma RunEmpty(a: Auto)
    ensures Run(a, "") == Live(a)
  {
  }

  /** A call of `parseRequestHeader` on a buffer. */
  function Call(h: HState, headers: Headers, buffer: string): Scan {
    Run(Resume(h, headers), buffer)
  }

  // ---------- runs over concatenations ----------

  function Concat(chunks: seq<string>): string {
    if chunks == [] then "" else chunks[0] + Concat(chunks[1..])
  }

  function Behind(s: Scan, more: string): Scan {
    if s.Finished? then s.(rest := s.rest + more) else s
  }

  /** Reading two texts is reading one after the other. */
  lemma {:induction false} RunConcat(a: Auto, x: string, y: string)
    ensures Run(a, x + y) == var s := Run(a, x); if s.Live? then Run(s.a, y) else Behind(s, y)
    decreases |x|
  {
    if x == "" {
      assert x + y == y;
    } else {
      assert (x + y)[0] == x[0] && (x + y)[1..] == x[1..] + y;
      var s := Step(a, x[0], x[1..]);
      if s.Live? { RunConcat(s.a, x[1..], y); }
    }
  }

  lemma RunOne(a: Auto, c: char)
    ensures Run(a, [c]) == Step(a, c, "")
  {
    assert [c][1..] == "";
  }

  ghost predicate SuffixOf(x: string, text: string) {
    |x| <= |text| && text[|text| - |x|..] == x
  }

  lemma SuffixTrans(x: string, y: string, z: string)
    requires SuffixOf(y, z)
    ensures SuffixOf(x, y) ==> SuffixOf(x, z)
  {
    if SuffixOf(x, y) {
      assert z[|z| - |y|..][|y| - |x|..] == z[|z| - |x|..];
    }
  }

  lemma SuffixOfRest(tail: string, text: string)
    requires text != ""
    ensures SuffixOf(text[1..], tail + text)
    ensures tail + [text[0]] + text[1..] == tail + text
    ensures SuffixOf("" + [text[0]] + text[1..], tail + text)
  {
    assert tail + text == tail + [text[0]] + text[1..];
    assert "" + [text[0]] + text[1..] == text;
  }

  /** The tail grows by the character, or begins anew with it. */
  lemma StepTail(a: Auto, c: char, rest: string)
    ensures var s := Step(a, c, rest);
      (s.Live? ==> s.a.tail == a.tail + [c] || s.a.tail == "" + [c]) && (s.Finished? ==> s.rest == rest)
  {
  }

  /** A call drops characters only at the front of the buffer, from whatever state it starts. */
  lemma {:induction false} CallLeavesSuffix(a: Auto, text: string)
    ensures var s := Run(a, text);
      (s.Live? ==> SuffixOf(s.a.tail, a.tail + text)) && (s.Finished? ==> SuffixOf(s.rest, a.tail + text))
    decreases |text|
  {
    hide Step, SuffixOf;
    if text == "" {
      assert a.tail + text == a.tail;
      SuffixSelf(a.tail);
    } else {
      var s := Step(a, text[0], text[1..]);
      StepTail(a, text[0], text[1..]);
      SuffixOfRest(a.tail, text);
      if s.Live? {
        CallLeavesSuffix(s.a, text[1..]);
        SuffixSelf(a.tail + text);
        var end := Run(s.a, text[1..]);
        SuffixTrans(if end.Live? then end.a.tail else if end.Finished? then end.rest else "",
                    s.a.tail + text[1..], a.tail + text);
      }
    }
  }

  /** What a call leaves of the buffer still is the end of what was received. */
  lemma CallSuffix(h: HState, headers: Headers, buffer: string, received: string)
    requires SuffixOf(buffer, received)
    ensures var s := Call(h, headers, buffer);
      (s.Live? ==> SuffixOf(s.a.tail, received)) && (s.Finished? ==> SuffixOf(s.rest, received))
  {
    var s := Call(h, headers, buffer);
    CallLeavesSuffix(Resume(h, headers), buffer);
    assert "" + buffer == buffer;
    SuffixTrans(if s.Live? then s.a.tail else if s.Finished? then s.rest else "", buffer, received);
  }

  lemma SuffixSelf(x: string)
    ensures SuffixOf(x, x)
  {
  }

  // ---------- the grammar ----------

  datatype Line = Line(key: string, value: string)

  /** A key is not empty and has no colon, except that its first character is not looked at. A value
      is not empty and has no carriage return. */
  predicate IsLine(l: Line) {
    && l.key != "" && ':' !in l.key[1..]
    && l.value != "" && '\r' !in l.value
  }

  predicate IsFirstLine(l: Line) {
    IsLine(l) && l.key[0] != '\r' && l.key[0] != '\n'
  }

  predicate AreLaterLines(ls: seq<Line>) {
    forall k :: 0 <= k < |ls| ==> IsLine(ls[k]) && ls[k].key[0] != '\r'
  }

  function LineText(l: Line): string {
    l.key + ": " + l.value + "\r\n"
  }

  function LinesText(ls: seq<Line>): string {
    if ls == [] then "" else LineText(ls[0]) + LinesText(ls[1..])
  }

  /** Left to right, the last value of a key wins. */
  function Fold(ls: seq<Line>, headers: Headers): Headers
    decreases |ls|
  {
    if ls == [] then headers else Fold(ls[1..], headers[ls[0].key := ls[0].value])
  }

  /** The last line with this key has this value. */
  ghost predicate LastIs(ls: seq<Line>, key: string, value: string) {
    exists i :: 0 <= i < |ls| && ls[i] == Line(key, value) && forall j :: i < j < |ls| ==> ls[j].key != key
  }

  predicate HasKey(ls: seq<Line>, key: string) {
    exists i :: 0 <= i < |ls| && ls[i].key == key
  }

  lemma LastCons(ls: seq<Line>, key: string, value: string)
    requires ls != []
    ensures HasKey(ls, key) <==> ls[0].key == key || HasKey(ls[1..], key)
    ensures LastIs(ls, key, value) <==>
              LastIs(ls[1..], key, value) || (ls[0] == Line(key, value) && !HasKey(ls[1..], key))
  {
    if i :| 0 <= i < |ls| && ls[i].key == key {
      assert i > 0 ==> ls[1..][i - 1] == ls[i];
    }
    if LastIs(ls, key, value) {
      var i :| 0 <= i < |ls| && ls[i] == Line(key, value) && forall j :: i < j < |ls| ==> ls[j].key != key;
      forall j | i <= j < |ls[1..]| ensures ls[1..][j].key != key {
        assert ls[1..][j] == ls[j + 1];
      }
      assert i > 0 ==> ls[1..][i - 1] == ls[i];
    }
    if i :| 0 <= i < |ls[1..]| && ls[1..][i].key == key {
      assert ls[i + 1].key == key;
    }
    if LastIs(ls[1..], key, value) {
      var i :| 0 <= i < |ls[1..]| && ls[1..][i] == Line(key, value)
               && forall j :: i < j < |ls[1..]| ==> ls[1..][j].key != key;
      forall j | i + 1 < j < |ls| ensures ls[j].key != key {
        assert ls[1..][j - 1] == ls[j];
      }
      assert ls[i + 1] == Line(key, value);
    }
    if ls[0] == Line(key, value) && !HasKey(ls[1..], key) {
      forall j | 0 < j < |ls| ensures ls[j].key != key {
        assert ls[1..][j - 1] == ls[j];
      }
    }
  }

  /** What is stored for a key is the value of the last line with that key, and what was stored before if there is
      none. */
  lemma {:induction false} FoldMeans(ls: seq<Line>, headers: Headers, key: string, value: string)
    ensures (key, value) in Fold(ls, headers).Items <==>
              LastIs(ls, key, value) || (!HasKey(ls, key) && (key, value) in headers.Items)
    decreases |ls|
  {
    if ls != [] {
      LastCons(ls, key, value);
      FoldMeans(ls[1..], headers[ls[0].key := ls[0].value], key, value);
      hide LastIs, HasKey;
    }
  }

  /** Leading line breaks, at least one line, and an end of which only the CR at its start and the LF
      that closes it are looked at. */
  datatype Block = Block(lead: string, first: Line, later: seq<Line>, junk: string)

  predicate IsBlock(b: Block) {
    && (forall k :: 0 <= k < |b.lead| ==> b.lead[k] == '\r' || b.lead[k] == '\n')
    && IsFirstLine(b.first) && AreLaterLines(b.later) && '\n' !in b.junk
  }

  function BlockText(b: Block): string {
    b.lead + LineText(b.first) + LinesText(b.later) + "\r" + b.junk + "\n"
  }

  function BlockHeaders(b: Block, headers: Headers): Headers {
    Fold([b.first] + b.later, headers)
  }

  // ---------- completeness: every block is read ----------

  lemma {:induction false} ReadLead(a: Auto, lead: string)
    requires a.h == H_START && forall k :: 0 <= k < |lead| ==> lead[k] == '\r' || lead[k] == '\n'
    ensures Run(a, lead) == Live(a.(tail := a.tail + lead))
    decreases |lead|
  {
    if lead == "" {
      assert a.tail + lead == a.tail;
    } else {
      var b := a.(tail := a.tail + [lead[0]]);
      ReadLead(b, lead[1..]);
      assert b.tail + lead[1..] == a.tail + lead;
    }
  }

  lemma {:induction false} ReadKey(a: Auto, key: string)
    requires a.h == H_KEY && ':' !in key
    ensures Run(a, key) == Live(a.(key := a.key + key, tail := a.tail + key))
    decreases |key|
  {
    if key == "" {
      assert a.key + key == a.key && a.tail + key == a.tail;
    } else {
      var b := a.(key := a.key + [key[0]], tail := a.tail + [key[0]]);
      ReadKey(b, key[1..]);
      assert b.key + key[1..] == a.key + key && b.tail + key[1..] == a.tail + key;
    }
  }

  lemma {:induction false} ReadValue(a: Auto, value: string)
    requires a.h == H_VALUE && '\r' !in value
    ensures Run(a, value) == Live(a.(value := a.value + value, tail := a.tail + value))
    decreases |value|
  {
    if value == "" {
      assert a.value + value == a.value && a.tail + value == a.tail;
    } else {
      var b := a.(value := a.value + [value[0]], tail := a.tail + [value[0]]);
      ReadValue(b, value[1..]);
      assert b.value + value[1..] == a.value + value && b.tail + value[1..] == a.tail + value;
    }
  }

  lemma {:induction false} ReadJunk(a: Auto, junk: string)
    requires a.h == H_END_CR && '\n' !in junk
    ensures Run(a, junk) == Live(a.(tail := a.tail + junk))
    decreases |junk|
  {
    if junk == "" {
      assert a.tail + junk == a.tail;
    } else {
      var b := a.(tail := a.tail + [junk[0]]);
      ReadJunk(b, junk[1..]);
      assert b.tail + junk[1..] == a.tail + junk;
    }
  }

  /** Where the automaton is behind a line. */
  function BehindLine(l: Line, headers: Headers): Auto {
    Auto(H_LF, "", "", "\n", headers[l.key := l.value])
  }

  /** A key of which the first character has been read, up to the end of the line. */
  lemma ReadRestOfLine(a: Auto, l: Line)
    requires a.h == H_KEY && IsLine(l) && a.key == l.key[..1] && a.value == ""
    ensures Run(a, l.key[1..] + ": " + l.value + "\r\n") == Live(BehindLine(l, a.headers))
  {
    var key, value := l.key[1..], l.value;
    var a1 := a.(key := l.key, tail := a.tail + key);
    ReadKey(a, key);
    assert l.key[..1] + key == l.key;
    RunConcat(a, key, ": " + value + "\r\n");
    assert key + (": " + value + "\r\n") == key + ": " + value + "\r\n";
    ReadAfterKey(a1, l);
  }

  lemma ReadAfterKey(a: Auto, l: Line)
    requires a.h == H_KEY && a.key == l.key != "" && a.value == ""
    requires l.value != "" && '\r' !in l.value
    ensures Run(a, ": " + l.value + "\r\n") == Live(BehindLine(l, a.headers))
  {
    var a1 := a.(h := H_SPACES_AFTER_COLON, tail := a.tail + ":");
    var a2 := a1.(h := H_VALUE, tail := a1.tail + " ");
    var a3 := a2.(value := l.value, tail := a2.tail + l.value);
    var a4 := a3.(h := H_CR, tail := a3.tail + "\r");
    RunOne(a, ':');
    RunOne(a1, ' ');
    ReadValue(a2, l.value);
    assert "" + l.value == l.value;
    RunOne(a3, '\r');
    RunOne(a4, '\n');
    RunConcat(a3, "\r", "\n");
    RunConcat(a2, l.value, "\r\n");
    RunConcat(a1, " ", l.value + "\r\n");
    RunConcat(a, ":", " " + (l.value + "\r\n"));
    assert ":" + (" " + (l.value + "\r\n")) == ": " + l.value + "\r\n";
    assert "\r" + "\n" == "\r\n";
  }

  lemma ReadFirstLine(a: Auto, l: Line)
    requires a.h == H_START && IsFirstLine(l) && a.value == ""
    ensures Run(a, LineText(l)) == Live(BehindLine(l, a.headers))
  {
    var a1 := a.(h := H_KEY, key := l.key[..1], tail := l.key[..1]);
    RunOne(a, l.key[0]);
    assert [l.key[0]] == l.key[..1];
    var more := l.key[1..] + ": " + l.value + "\r\n";
    RunConcat(a, l.key[..1], more);
    assert l.key[..1] + more == LineText(l);
    ReadRestOfLine(a1, l);
  }

  lemma ReadLaterLine(a: Auto, l: Line)
    requires a.h == H_LF && IsLine(l) && l.key[0] != '\r' && a.value == ""
    ensures Run(a, LineText(l)) == Live(BehindLine(l, a.headers))
  {
    var a1 := a.(h := H_KEY, key := l.key[..1], tail := a.tail + l.key[..1]);
    RunOne(a, l.key[0]);
    assert [l.key[0]] == l.key[..1];
    var more := l.key[1..] + ": " + l.value + "\r\n";
    RunConcat(a, l.key[..1], more);
    assert l.key[..1] + more == LineText(l);
    ReadRestOfLine(a1, l);
  }

  lemma {:induction false} ReadLaterLines(a: Auto, ls: seq<Line>)
    requires a == Auto(H_LF, "", "", "\n", a.headers) && AreLaterLines(ls)
    ensures Run(a, LinesText(ls)) == Live(a.(headers := Fold(ls, a.headers)))
    decreases |ls|
  {
    if ls != [] {
      ReadLaterLine(a, ls[0]);
      RunConcat(a, LineText(ls[0]), LinesText(ls[1..]));
      ReadLaterLines(BehindLine(ls[0], a.headers), ls[1..]);
    }
  }

  lemma ReadEnd(a: Auto, junk: string, rest: string)
    requires a.h == H_LF && '\n' !in junk
    ensures Run(a, "\r" + junk + "\n" + rest) == Finished(a.headers, rest)
  {
    var a1 := a.(h := H_END_CR, tail := a.tail + "\r");
    var a2 := a1.(tail := a1.tail + junk);
    RunOne(a, '\r');
    ReadJunk(a1, junk);
    assert ("\n" + rest)[0] == '\n' && ("\n" + rest)[1..] == rest;
    RunConcat(a1, junk, "\n" + rest);
    RunConcat(a, "\r", junk + ("\n" + rest));
    assert "\r" + (junk + ("\n" + rest)) == "\r" + junk + "\n" + rest;
  }

  lemma GlueBlock(b: Block, rest: string)
    ensures b.lead + (LineText(b.first) + (LinesText(b.later) + ("\r" + b.junk + "\n" + rest))) == BlockText(b) + rest
  {
    hide LineText, LinesText;
  }

  /** Every block, whatever follows it, is read by one call: the headers are the fold of its lines and
      the buffer is left at the first character behind it. */
  lemma BlockIsRead(b: Block, headers: Headers, rest: string)
    requires IsBlock(b)
    ensures Call(H_START, headers, BlockText(b) + rest) == Finished(BlockHeaders(b, headers), rest)
  {
    hide Run, BlockText, LineText, LinesText;
    var a0 := Resume(H_START, headers);
    var a1 := a0.(tail := a0.tail + b.lead);
    var a2 := BehindLine(b.first, headers);
    var a3 := a2.(headers := Fold(b.later, a2.headers));
    var end := "\r" + b.junk + "\n" + rest;
    ReadLead(a0, b.lead);
    ReadFirstLine(a1, b.first);
    ReadLaterLines(a2, b.later);
    ReadEnd(a3, b.junk, rest);
    RunConcat(a2, LinesText(b.later), end);
    RunConcat(a1, LineText(b.first), LinesText(b.later) + end);
    RunConcat(a0, b.lead, LineText(b.first) + (LinesText(b.later) + end));
    GlueBlock(b, rest);
    assert ([b.first] + b.later)[1..] == b.later;
  }

  // ---------- soundness: only blocks are read ----------

  lemma FirstOf(text: string, c: char) returns (k: nat)
    requires c in text
    ensures k < |text| && text[k] == c && c !in text[..k] && text == text[..k] + [c] + text[k + 1..]
  {
    k := 0;
    while text[k] != c
      invariant k < |text| && c !in text[..k] && c in text[k..]
      decreases |text| - k
    {
      assert text[..k + 1] == text[..k] + [text[k]];
      assert text[k..] == [text[k]] + text[k + 1..];
      k := k + 1;
    }
  }

  lemma ValueSound(a: Auto, text: string) returns (value: string, rest: string)
    requires a.h == H_VALUE && a.value == "" && Run(a, text).Finished?
    ensures text == value + "\r\n" + rest && value != "" && '\r' !in value
    ensures Run(a, text) == Run(BehindLine(Line(a.key, value), a.headers), rest)
  {
    hide Run, Step;
    if '\r' !in text { ReadValue(a, text); }
    var k := FirstOf(text, '\r');
    value := text[..k];
    var a1 := a.(value := value, tail := a.tail + value);
    ReadValue(a, value);
    assert "" + value == value;
    var t := text[k..];
    assert value + t == text;
    RunConcat(a, value, t);
    CrSound(a1, t);
    rest := t[2..];
    GlueValue(value, t, rest);
  }

  lemma GlueValue(value: string, t: string, rest: string)
    ensures t == "\r\n" + rest ==> value + t == value + "\r\n" + rest
  {
  }

  lemma CrSound(a: Auto, t: string)
    requires a.h == H_VALUE && t != "" && t[0] == '\r' && Run(a, t).Finished?
    ensures a.value != "" && |t| >= 2 && t == "\r\n" + t[2..]
    ensures Run(a, t) == Run(BehindLine(Line(a.key, a.value), a.headers), t[2..])
  {
    var a1 := a.(h := H_CR, tail := a.tail + "\r");
    assert Run(a1, t[1..]).Finished?;
    assert t[1..][1..] == t[2..];
  }

  lemma AfterColonSound(a: Auto, text: string) returns (value: string, rest: string)
    requires a.h == H_SPACES_AFTER_COLON && a.value == "" && Run(a, text).Finished?
    ensures text == " " + value + "\r\n" + rest && value != "" && '\r' !in value
    ensures Run(a, text) == Run(BehindLine(Line(a.key, value), a.headers), rest)
  {
    var a1 := a.(h := H_VALUE, tail := a.tail + " ");
    assert Run(a, text) == Run(a1, text[1..]);
    value, rest := ValueSound(a1, text[1..]);
    assert text == " " + text[1..];
  }

  lemma ColonSound(a: Auto, t: string)
    requires a.h == H_KEY && a.key != "" && t != "" && t[0] == ':'
    ensures Run(a, t) == Run(a.(h := H_SPACES_AFTER_COLON, tail := a.tail + ":"), t[1..])
  {
    assert [t[0]] == ":";
  }

  lemma GlueLine(more: string, value: string, rest: string)
    ensures more + (":" + (" " + value + "\r\n" + rest)) == more + ": " + value + "\r\n" + rest
  {
  }

  lemma KeySound(a: Auto, text: string) returns (more: string, value: string, rest: string)
    requires a.h == H_KEY && a.key != "" && a.value == "" && Run(a, text).Finished?
    ensures text == more + ": " + value + "\r\n" + rest
    ensures ':' !in more && value != "" && '\r' !in value
    ensures Run(a, text) == Run(BehindLine(Line(a.key + more, value), a.headers), rest)
  {
    hide Run, Step;
    if ':' !in text { ReadKey(a, text); }
    var k := FirstOf(text, ':');
    more := text[..k];
    var t := ":" + text[k + 1..];
    var a1 := a.(key := a.key + more, tail := a.tail + more);
    ReadKey(a, more);
    assert text == more + t && t[1..] == text[k + 1..];
    RunConcat(a, more, t);
    ColonSound(a1, t);
    value, rest := AfterColonSound(a1.(h := H_SPACES_AFTER_COLON, tail := a1.tail + ":"), t[1..]);
    GlueLine(more, value, rest);
  }

  lemma EndSound(a: Auto, t: string) returns (junk: string, rest: string)
    requires a.h == H_END_CR && Run(a, t).Finished?
    ensures t == junk + "\n" + rest && '\n' !in junk
  {
    if '\n' !in t { ReadJunk(a, t); }
    var k := FirstOf(t, '\n');
    junk, rest := t[..k], t[k + 1..];
  }

  /** One more line after a line: its first character has already been taken for a key. */
  lemma LaterLineSound(a: Auto, text: string) returns (l: Line, behind: string)
    requires a.h == H_LF && a.value == "" && Run(a, text).Finished? && text[0] != '\r'
    ensures text == LineText(l) + behind && IsLine(l) && l.key[0] != '\r'
    ensures Run(a, text) == Run(BehindLine(l, a.headers), behind)
  {
    var a1 := a.(h := H_KEY, key := [text[0]], tail := a.tail + [text[0]]);
    assert Run(a1, text[1..]) == Run(a, text);
    var more, value;
    more, value, behind := KeySound(a1, text[1..]);
    l := Line([text[0]] + more, value);
    assert l.key[1..] == more;
    assert text == [text[0]] + text[1..];
  }

  lemma GlueLines(l: Line, later: seq<Line>, junk: string, rest: string)
    ensures LineText(l) + (LinesText(later) + "\r" + junk + "\n" + rest)
         == LinesText([l] + later) + "\r" + junk + "\n" + rest
  {
    hide LineText;
    assert ([l] + later)[1..] == later;
    assert LinesText([l] + later) == LineText(l) + LinesText(later);
  }

  lemma {:induction false} LaterLinesSound(a: Auto, text: string)
    returns (ls: seq<Line>, junk: string, rest: string)
    requires a == Auto(H_LF, "", "", "\n", a.headers) && Run(a, text).Finished?
    ensures text == LinesText(ls) + "\r" + junk + "\n" + rest && AreLaterLines(ls) && '\n' !in junk
    decreases |text|
  {
    if text[0] == '\r' {
      assert Run(a.(h := H_END_CR, tail := a.tail + "\r"), text[1..]) == Run(a, text);
      junk, rest := EndSound(a.(h := H_END_CR, tail := a.tail + "\r"), text[1..]);
      ls := [];
      assert text == "\r" + text[1..];
    } else {
      var l, behind := LaterLineSound(a, text);
      hide Run, LineText, LinesText;
      var later;
      later, junk, rest := LaterLinesSound(BehindLine(l, a.headers), behind);
      ls := [l] + later;
      GlueLines(l, later, junk, rest);
    }
  }

  lemma {:induction false} LeadSound(a: Auto, text: string) returns (lead: string, c: char, t: string)
    requires a.h == H_START && Run(a, text).Finished?
    ensures text == lead + [c] + t && c != '\r' && c != '\n'
    ensures forall k :: 0 <= k < |lead| ==> lead[k] == '\r' || lead[k] == '\n'
    ensures Run(a, text) == Run(a.(h := H_KEY, key := [c], tail := [c]), t)
    decreases |text|
  {
    if text[0] == '\r' || text[0] == '\n' {
      lead, c, t := LeadSound(a.(tail := a.tail + [text[0]]), text[1..]);
      lead := [text[0]] + lead;
    } else {
      lead, c, t := "", text[0], text[1..];
    }
  }

  lemma GlueFirst(lead: string, c: char, more: string, value: string, behind: string)
    ensures lead + [c] + (more + ": " + value + "\r\n" + behind) == lead + LineText(Line([c] + more, value)) + behind
    ensures ([c] + more)[1..] == more
  {
    assert [c] + (more + ": " + value + "\r\n" + behind) == LineText(Line([c] + more, value)) + behind;
  }

  lemma FirstLineSound(a: Auto, text: string) returns (lead: string, l: Line, behind: string)
    requires a.h == H_START && a.value == "" && Run(a, text).Finished?
    ensures text == lead + LineText(l) + behind && IsFirstLine(l)
    ensures forall k :: 0 <= k < |lead| ==> lead[k] == '\r' || lead[k] == '\n'
    ensures Run(a, text) == Run(BehindLine(l, a.headers), behind)
  {
    var c, t;
    lead, c, t := LeadSound(a, text);
    hide Run, LineText;
    var more, value;
    more, value, behind := KeySound(a.(h := H_KEY, key := [c], tail := [c]), t);
    l := Line([c] + more, value);
    GlueFirst(lead, c, more, value, behind);
  }

  lemma BlockSound(headers: Headers, text: string) returns (b: Block, rest: string)
    requires Call(H_START, headers, text).Finished?
    ensures IsBlock(b) && text == BlockText(b) + rest
    ensures Call(H_START, headers, text) == Finished(BlockHeaders(b, headers), rest)
  {
    hide Run;
    var lead, l, behind := FirstLineSound(Resume(H_START, headers), text);
    var ls, junk;
    ls, junk, rest := LaterLinesSound(BehindLine(l, headers), behind);
    b := Block(lead, l, ls, junk);
    assert text == BlockText(b) + rest;
    BlockIsRead(b, headers, rest);
  }

  /** A call from the start succeeds exactly on the texts that begin with a block. */
  lemma ParserAcceptsGrammar(headers: Headers, text: string)
    ensures Call(H_START, headers, text).Finished? <==>
              exists b: Block, rest: string :: IsBlock(b) && text == BlockText(b) + rest
  {
    if Call(H_START, headers, text).Finished? {
      var b, rest := BlockSound(headers, text);
    }
    forall b: Block, rest: string | IsBlock(b) && text == BlockText(b) + rest
      ensures Call(H_START, headers, text).Finished?
    {
      BlockIsRead(b, headers, rest);
    }
  }
}
