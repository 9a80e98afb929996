/** What the header automaton of deon/net/Http.cpp (375-473) refuses: a call from the start fails exactly on the
    texts that have a bad line behind good ones. */
module HttpRefusal {
  import opened HttpHeader

  // ---------- what is refused ----------

  /** The ways a line can be bad: no space behind the colon, nothing for a value, or a carriage return without a
      line feed behind it. */
  datatype BadLine =
    | NoSpace(key: string, c: char)
    | NoValue(key: string)
    | NoLineFeed(key: string, value: string, c: char)

  predicate IsBadLine(b: BadLine) {
    && b.key != "" && ':' !in b.key[1..]
    && match b
       case NoSpace(_, c) => c != ' '
       case NoValue(_) => true
       case NoLineFeed(_, value, c) => value != "" && '\r' !in value && c != '\n'
  }

  /** A bad line up to the character that gives it away, without its first character. */
  function BadTail(b: BadLine): string
    requires b.key != ""
  {
    match b
    case NoSpace(key, c) => key[1..] + (":" + [c])
    case NoValue(key) => key[1..] + (":" + (" " + "\r"))
    case NoLineFeed(key, value, c) => key[1..] + (":" + (" " + (value + ("\r" + [c]))))
  }

  /** A text with a bad line in it, behind good ones. */
  datatype Refused = Refused(lead: string, good: seq<Line>, bad: BadLine, rest: string)

  predicate IsRefused(r: Refused) {
    && (forall k :: 0 <= k < |r.lead| ==> r.lead[k] == '\r' || r.lead[k] == '\n')
    && IsBadLine(r.bad) && r.bad.key[0] != '\r'
    && if r.good == [] then r.bad.key[0] != '\n' else IsFirstLine(r.good[0]) && AreLaterLines(r.good[1..])
  }

  function RefusedText(r: Refused): string
    requires r.bad.key != ""
  {
    r.lead + (LinesText(r.good) + ([r.bad.key[0]] + (BadTail(r.bad) + r.rest)))
  }

  predicate IsFailed(s: Scan) {
    s.Failed?
  }

  lemma ReadColon(a: Auto, c: char)
    requires a.h == H_KEY && a.key != ""
    ensures Run(a, ":") == Live(a.(h := H_SPACES_AFTER_COLON, tail := a.tail + ":"))
    ensures var a1 := a.(h := H_SPACES_AFTER_COLON, tail := a.tail + ":");
      && Run(a1, " ") == Live(a1.(h := H_VALUE, tail := a1.tail + " ")) && (c != ' ' ==> Run(a1, [c]).Failed?)
  {
    var a1 := a.(h := H_SPACES_AFTER_COLON, tail := a.tail + ":");
    RunOne(a, ':');
    RunOne(a1, ' ');
    RunOne(a1, c);
  }

  lemma ReadBadValue(a: Auto, value: string, c: char)
    requires a.h == H_VALUE && a.value == "" && '\r' !in value && c != '\n'
    ensures value == "" ==> Run(a, "\r").Failed?
    ensures value != "" ==> Run(a, value + ("\r" + [c])).Failed?
  {
    var a1 := a.(value := value, tail := a.tail + value);
    RunOne(a, '\r');
    if value != "" {
      ReadValue(a, value);
      assert "" + value == value;
      RunOne(a1, '\r');
      var a2 := a1.(h := H_CR, tail := a1.tail + "\r");
      RunOne(a2, c);
      RunConcat(a1, "\r", [c]);
      RunConcat(a, value, "\r" + [c]);
    }
  }

  /** A bad line fails, once its first character has been taken for a key. */
  lemma ReadBadLine(a: Auto, b: BadLine)
    requires a.h == H_KEY && IsBadLine(b) && a.key == b.key[..1] && a.value == ""
    ensures Run(a, BadTail(b)).Failed?
  {
    hide Run, Step;
    var key := b.key[1..];
    var a1 := a.(key := b.key, tail := a.tail + key);
    ReadKey(a, key);
    assert b.key[..1] + key == b.key;
    var a2 := a1.(h := H_SPACES_AFTER_COLON, tail := a1.tail + ":");
    var a3 := a2.(h := H_VALUE, tail := a2.tail + " ");
    match b
    case NoSpace(_, c) =>
      ReadColon(a1, c);
      RunConcat(a1, ":", [c]);
      RunConcat(a, key, ":" + [c]);
    case NoValue(_) =>
      ReadColon(a1, ' ');
      ReadBadValue(a3, "", ' ');
      RunConcat(a2, " ", "\r");
      RunConcat(a1, ":", " " + "\r");
      RunConcat(a, key, ":" + (" " + "\r"));
    case NoLineFeed(_, value, c) =>
      ReadColon(a1, ' ');
      ReadBadValue(a3, value, c);
      RunConcat(a2, " ", value + ("\r" + [c]));
      RunConcat(a1, ":", " " + (value + ("\r" + [c])));
      RunConcat(a, key, ":" + (" " + (value + ("\r" + [c]))));
  }

  /** A bad line is refused behind any leading line breaks and good lines, whatever follows it. */
  lemma BadLineIsRefused(r: Refused, headers: Headers)
    requires IsRefused(r)
    ensures IsFailed(Call(H_START, headers, RefusedText(r)))
  {
    hide Run, LineText, LinesText, BadTail;
    var a0 := Resume(H_START, headers);
    var a1 := a0.(tail := a0.tail + r.lead);
    var c, end := r.bad.key[0], BadTail(r.bad) + r.rest;
    ReadLead(a0, r.lead);
    RunConcat(a0, r.lead, LinesText(r.good) + ([c] + end));
    assert r.bad.key[..1] == [c];
    if r.good == [] {
      NoLines();
      assert LinesText(r.good) + ([c] + end) == [c] + end;
      var a2 := a1.(h := H_KEY, key := [c], tail := [c]);
      FirstChar(a1, c);
      RunConcat(a1, [c], end);
      ReadBadLine(a2, r.bad);
      RunConcat(a2, BadTail(r.bad), r.rest);
    } else {
      var b2 := BehindLine(r.good[0], headers);
      var a2 := b2.(headers := Fold(r.good[1..], b2.headers));
      ReadFirstLine(a1, r.good[0]);
      ReadLaterLines(b2, r.good[1..]);
      LinesCons(r.good);
      RunConcat(b2, LinesText(r.good[1..]), [c] + end);
      RunConcat(a1, LineText(r.good[0]), LinesText(r.good[1..]) + ([c] + end));
      assert LinesText(r.good) + ([c] + end) == LineText(r.good[0]) + (LinesText(r.good[1..]) + ([c] + end));
      var a3 := a2.(h := H_KEY, key := [c], tail := a2.tail + [c]);
      FirstChar(a2, c);
      RunConcat(a2, [c], end);
      ReadBadLine(a3, r.bad);
      RunConcat(a3, BadTail(r.bad), r.rest);
    }
  }

  lemma NoLines()
    ensures LinesText([]) == ""
  {
  }

  lemma LinesCons(ls: seq<Line>)
    requires ls != []
    ensures LinesText(ls) == LineText(ls[0]) + LinesText(ls[1..])
  {
  }

  lemma FirstChar(a: Auto, c: char)
    requires (a.h == H_START && c != '\r' && c != '\n') || (a.h == H_LF && c != '\r')
    ensures Run(a, [c]) == Live(a.(h := H_KEY, key := [c], tail := if a.h == H_START then [c] else a.tail + [c]))
  {
    RunOne(a, c);
  }

  // ---------- and nothing else is ----------

  lemma {:induction false} EndNeverFails(a: Auto, text: string)
    requires a.h == H_END_CR
    ensures !IsFailed(Run(a, text))
    decreases |text|
  {
    if text != "" && text[0] != '\n' {
      EndNeverFails(a.(tail := a.tail + [text[0]]), text[1..]);
    }
  }

  /** How a line goes on behind its first character: it is bad, or it is good and something fails behind it. */
  datatype Fate = IsBad(b: BadLine, rest: string) | IsGood(l: Line, rest: string)

  lemma GlueBad(key: string, colon: string, more: string, rest: string)
    ensures key + (colon + (more + rest)) == (key + (colon + more)) + rest
  {
  }

  lemma ValueFate(a: Auto, text: string) returns (value: string, bad: bool, c: char, rest: string)
    requires a.h == H_VALUE && a.value == "" && IsFailed(Run(a, text))
    ensures '\r' !in value
    ensures bad && value == "" ==> text == "\r" + rest
    ensures bad && value != "" ==> c != '\n' && text == value + ("\r" + [c]) + rest
    ensures !bad ==> value != "" && text == value + "\r\n" + rest
                     && Run(a, text) == Run(BehindLine(Line(a.key, value), a.headers), rest)
  {
    hide Run, Step;
    if '\r' !in text { ReadValue(a, text); }
    var k := FirstOf(text, '\r');
    value := text[..k];
    var a1 := a.(value := value, tail := a.tail + value);
    ReadValue(a, value);
    assert "" + value == value;
    var t := text[k..];
    assert value + t == text && t == "\r" + t[1..];
    RunConcat(a, value, t);
    c := ' ';
    if value == "" {
      bad, rest := true, t[1..];
    } else {
      var a2 := a1.(h := H_CR, tail := a1.tail + "\r");
      RunOne(a1, '\r');
      CrStep(a1);
      RunConcat(a1, "\r", t[1..]);
      if t[1..] == "" { RunEmpty(a2); }
      c, rest := t[1], t[2..];
      assert t[1..] == [c] + rest;
      bad := c != '\n';
      if bad {
        assert text == value + ("\r" + [c]) + rest;
      } else {
        RunOne(a2, '\n');
        LfStep(a2);
        RunConcat(a2, "\n", rest);
        assert t == "\r\n" + rest;
        GlueValue(value, t, rest);
      }
    }
  }

  lemma CrStep(a: Auto)
    requires a.h == H_VALUE && a.value != ""
    ensures Step(a, '\r', "") == Live(a.(h := H_CR, tail := a.tail + "\r"))
  {
  }

  lemma LfStep(a: Auto)
    requires a.h == H_CR
    ensures Step(a, '\n', "") == Live(BehindLine(Line(a.key, a.value), a.headers))
  {
  }

  /** How it goes on behind the colon. */
  datatype After =
    | NoSpaceThere(c: char, rest: string)
    | NoValueThere(rest: string)
    | NoFeedThere(value: string, c: char, rest: string)
    | Fine(value: string, rest: string)

  function AfterText(f: After): string {
    match f
    case NoSpaceThere(c, rest) => [c] + rest
    case NoValueThere(rest) => " " + ("\r" + rest)
    case NoFeedThere(value, c, rest) => " " + (value + ("\r" + [c]) + rest)
    case Fine(value, rest) => " " + value + "\r\n" + rest
  }

  predicate IsAfter(f: After) {
    match f
    case NoSpaceThere(c, _) => c != ' '
    case NoValueThere(_) => true
    case NoFeedThere(value, c, _) => value != "" && '\r' !in value && c != '\n'
    case Fine(value, _) => value != "" && '\r' !in value
  }

  lemma AfterFate(a: Auto, text: string) returns (f: After)
    requires a.h == H_SPACES_AFTER_COLON && a.value == "" && IsFailed(Run(a, text))
    ensures IsAfter(f) && text == AfterText(f)
    ensures f.Fine? ==> Run(a, text) == Run(BehindLine(Line(a.key, f.value), a.headers), f.rest)
  {
    hide Run;
    if text == "" { RunEmpty(a); }
    var c, behind := text[0], text[1..];
    assert text == [c] + behind;
    if c != ' ' {
      f := NoSpaceThere(c, behind);
    } else {
      RunOne(a, ' ');
      RunConcat(a, " ", behind);
      var value, bad, d, rest := ValueFate(a.(h := H_VALUE, tail := a.tail + " "), behind);
      assert text == " " + behind;
      f := if !bad then Fine(value, rest) else if value == "" then NoValueThere(rest) else NoFeedThere(value, d, rest);
      assert !bad ==> " " + (value + "\r\n" + rest) == " " + value + "\r\n" + rest;
    }
  }

  lemma GlueFate(key: string, more: string, f: After)
    requires key != "" && key[1..] == more && IsAfter(f)
    ensures f.NoSpaceThere? ==> more + (":" + AfterText(f)) == BadTail(NoSpace(key, f.c)) + f.rest
    ensures f.NoValueThere? ==> more + (":" + AfterText(f)) == BadTail(NoValue(key)) + f.rest
    ensures f.NoFeedThere? ==> more + (":" + AfterText(f)) == BadTail(NoLineFeed(key, f.value, f.c)) + f.rest
    ensures f.Fine? ==> more + (":" + AfterText(f)) == more + ": " + f.value + "\r\n" + f.rest
  {
    match f
    case NoSpaceThere(c, rest) => GlueBad(more, ":", [c], rest);
    case NoValueThere(rest) => GlueTwo(more, "\r", rest);
    case NoFeedThere(value, c, rest) => GlueTwo(more, value + ("\r" + [c]), rest);
    case Fine(value, rest) => GlueLine(more, value, rest);
  }

  lemma GlueTwo(more: string, tail: string, rest: string)
    ensures more + (":" + (" " + (tail + rest))) == (more + (":" + (" " + tail))) + rest
  {
  }

  lemma KeyFate(a: Auto, text: string) returns (f: Fate)
    requires a.h == H_KEY && |a.key| == 1 && a.value == "" && IsFailed(Run(a, text))
    ensures f.IsBad? ==> IsBadLine(f.b) && f.b.key[..1] == a.key && text == BadTail(f.b) + f.rest
    ensures f.IsGood? ==> IsLine(f.l) && f.l.key[..1] == a.key && a.key + text == LineText(f.l) + f.rest
                          && Run(a, text) == Run(BehindLine(f.l, a.headers), f.rest)
  {
    hide Run, Step, AfterText, LineText, BadTail;
    if ':' !in text { ReadKey(a, text); }
    var k := FirstOf(text, ':');
    var more := text[..k];
    var key := a.key + more;
    assert key[1..] == more && key[..1] == a.key;
    var a1 := a.(key := key, tail := a.tail + more);
    ReadKey(a, more);
    var t := text[k..];
    assert more + t == text && t == ":" + t[1..];
    RunConcat(a, more, t);
    ColonSound(a1, t);
    var g := AfterFate(a1.(h := H_SPACES_AFTER_COLON, tail := a1.tail + ":"), t[1..]);
    GlueFate(key, more, g);
    match g
    case NoSpaceThere(c, rest) => f := IsBad(NoSpace(key, c), rest);
    case NoValueThere(rest) => f := IsBad(NoValue(key), rest);
    case NoFeedThere(value, c, rest) => f := IsBad(NoLineFeed(key, value, c), rest);
    case Fine(value, rest) =>
      f := IsGood(Line(key, value), rest);
      GlueKey(a.key, more, value, rest);
  }

  lemma GlueKey(first: string, more: string, value: string, rest: string)
    ensures first + (more + ": " + value + "\r\n" + rest) == LineText(Line(first + more, value)) + rest
  {
  }

  /** The first character behind a line. */
  lemma FirstFate(a: Auto, text: string) returns (f: Fate)
    requires a.h == H_LF && a.value == "" && IsFailed(Run(a, text))
    ensures f.IsBad? ==> IsBadLine(f.b) && f.b.key[0] != '\r' && text == [f.b.key[0]] + (BadTail(f.b) + f.rest)
    ensures f.IsGood? ==> IsLine(f.l) && f.l.key[0] != '\r' && text == LineText(f.l) + f.rest
                          && Run(a, text) == Run(BehindLine(f.l, a.headers), f.rest)
  {
    if text == "" { RunEmpty(a); }
    var c, t := text[0], text[1..];
    assert text == [c] + t;
    RunCons(a, text);
    if c == '\r' {
      EndNeverFails(a.(h := H_END_CR, tail := a.tail + "\r"), t);
    }
    hide Run, BadTail, LineText;
    f := KeyFate(a.(h := H_KEY, key := [c], tail := a.tail + [c]), t);
    assert f.IsBad? ==> f.b.key[0] == f.b.key[..1][0];
    assert f.IsGood? ==> f.l.key[0] == f.l.key[..1][0];
  }

  lemma GlueLater(l: Line, later: seq<Line>, end: string)
    ensures LineText(l) + (LinesText(later) + end) == LinesText([l] + later) + end
  {
    hide LineText;
    LinesCons([l] + later);
    assert ([l] + later)[1..] == later;
  }

  lemma {:induction false} LaterFate(a: Auto, text: string) returns (ls: seq<Line>, b: BadLine, rest: string)
    requires a == Auto(H_LF, "", "", "\n", a.headers) && IsFailed(Run(a, text))
    ensures AreLaterLines(ls) && IsBadLine(b) && b.key[0] != '\r'
    ensures text == LinesText(ls) + ([b.key[0]] + (BadTail(b) + rest))
    decreases |text|
  {
    var f := FirstFate(a, text);
    BadHasKey(f);
    hide Run, BadTail, LineText, LinesText, IsBadLine;
    if f.IsBad? {
      NoLines();
      ls, b, rest := [], f.b, f.rest;
      assert "" + text == text;
    } else {
      LineNotEmpty(f.l);
      var later;
      later, b, rest := LaterFate(BehindLine(f.l, a.headers), f.rest);
      ls := [f.l] + later;
      GlueLater(f.l, later, [b.key[0]] + (BadTail(b) + rest));
    }
  }

  lemma LineNotEmpty(l: Line)
    ensures LineText(l) != "" && |LineText(l)| > 0
  {
  }

  lemma BadHasKey(f: Fate)
    ensures f.IsBad? && IsBadLine(f.b) ==> f.b.key != ""
    ensures f.IsGood? && IsLine(f.l) ==> f.l.key != ""
  {
  }

  lemma {:induction false} LeadFate(a: Auto, text: string) returns (lead: string, c: char, t: string)
    requires a.h == H_START && IsFailed(Run(a, text))
    ensures text == lead + [c] + t && c != '\r' && c != '\n'
    ensures forall k :: 0 <= k < |lead| ==> lead[k] == '\r' || lead[k] == '\n'
    ensures Run(a, text) == Run(a.(h := H_KEY, key := [c], tail := [c]), t)
    decreases |text|
  {
    if text[0] == '\r' || text[0] == '\n' {
      lead, c, t := LeadFate(a.(tail := a.tail + [text[0]]), text[1..]);
      lead := [text[0]] + lead;
    } else {
      lead, c, t := "", text[0], text[1..];
    }
  }

  /** The first line. */
  lemma StartFate(a: Auto, text: string) returns (lead: string, f: Fate)
    requires a.h == H_START && a.value == "" && IsFailed(Run(a, text))
    ensures forall k :: 0 <= k < |lead| ==> lead[k] == '\r' || lead[k] == '\n'
    ensures f.IsBad? ==> IsBadLine(f.b) && f.b.key[0] != '\r' && f.b.key[0] != '\n'
                         && text == lead + ([f.b.key[0]] + (BadTail(f.b) + f.rest))
    ensures f.IsGood? ==> IsFirstLine(f.l) && text == lead + (LineText(f.l) + f.rest)
                          && Run(a, text) == Run(BehindLine(f.l, a.headers), f.rest)
  {
    var c, t;
    lead, c, t := LeadFate(a, text);
    hide Run, BadTail, LineText;
    f := KeyFate(a.(h := H_KEY, key := [c], tail := [c]), t);
    assert f.IsBad? ==> f.b.key[0] == f.b.key[..1][0];
    assert f.IsGood? ==> f.l.key[0] == f.l.key[..1][0];
    assert text == lead + ([c] + t);
  }

  lemma RefusedSound(headers: Headers, text: string) returns (r: Refused)
    requires IsFailed(Call(H_START, headers, text))
    ensures IsRefused(r) && text == RefusedText(r)
  {
    hide Run, BadTail, LineText, LinesText;
    var lead, f := StartFate(Resume(H_START, headers), text);
    if f.IsBad? {
      NoLines();
      r := Refused(lead, [], f.b, f.rest);
      assert "" + ([f.b.key[0]] + (BadTail(f.b) + f.rest)) == [f.b.key[0]] + (BadTail(f.b) + f.rest);
    } else {
      var later, b, rest := LaterFate(BehindLine(f.l, headers), f.rest);
      r := Refused(lead, [f.l] + later, b, rest);
      GlueLater(f.l, later, [b.key[0]] + (BadTail(b) + rest));
      assert ([f.l] + later)[1..] == later;
    }
  }

  /** A call from the start fails exactly on the texts with a bad line behind good ones; on what is neither that nor
      begins with a block, it asks for more. */
  lemma ParserRefusesExactly(headers: Headers, text: string)
    ensures IsFailed(Call(H_START, headers, text)) <==> exists r: Refused :: IsRefused(r) && text == RefusedText(r)
  {
    if IsFailed(Call(H_START, headers, text)) {
      var r := RefusedSound(headers, text);
    }
    forall r: Refused | IsRefused(r) && text == RefusedText(r)
      ensures IsFailed(Call(H_START, headers, text))
    {
      BadLineIsRefused(r, headers);
    }
  }
}
