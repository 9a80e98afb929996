/** Resuming `parseRequestHeader` after it asked for more (deon/net/Http.cpp 377-379 and 471-472). The
    indices into the buffer are locals, while `hState_` survives and the buffer is rewound to the start
    of the line, so a second call reads the line again in the state it was left in. When that agrees
    with one call on the whole text, and when it does not. */
module HttpResume {
  import opened HttpHeader

  /** What a caller sees of two calls is the same: the result, and unless it is an error the automaton
      state, the headers and the buffer. */
  predicate Agree(s: Scan, t: Scan) {
    match s
    case Live(a) => t.Live? && t.a.h == a.h && t.a.headers == a.headers && t.a.tail == a.tail
    case Failed(_, _) => t.Failed?
    case Finished(_, _) => t == s
  }

  /** The next call on what the call before left, with more text behind it. */
  function NextCall(a: Auto, more: string): Scan {
    Call(a.h, a.headers, a.tail + more)
  }

  /** What a caller can check before it feeds more text. */
  predicate Resumable(h: HState, buffer: string) {
    h == H_START || (h == H_KEY && buffer != "" && buffer[0] != ':' && buffer[0] != '\n')
  }

  // ---------- what an unfinished call leaves ----------

  /** The tail begins at the line that is being read: at its key in the first line, and at the line feed
      before it in later ones. */
  predicate Shape(a: Auto, start: string) {
    && (start == "" || start == "\n")
    && "" !in a.headers
    && (a.h == H_KEY || a.h == H_SPACES_AFTER_COLON || a.h == H_VALUE || a.h == H_CR ==>
          a.key != "" && ':' !in a.key[1..] && (start == "" ==> a.key[0] != '\n'))
    && match a.h
       case H_START =>
         a.key == "" && a.value == "" && (forall k :: 0 <= k < |a.tail| ==> a.tail[k] == '\r' || a.tail[k] == '\n')
       case H_KEY => a.tail == start + a.key && a.value == ""
       case H_SPACES_AFTER_COLON => a.tail == start + a.key + ":" && a.value == ""
       case H_VALUE => a.tail == start + a.key + ": " + a.value && '\r' !in a.value
       case H_CR => a.tail == start + a.key + ": " + a.value + "\r" && a.value != ""
       case H_LF => a.tail == "\n" && a.key == "" && a.value == ""
       case H_END_CR => |a.tail| >= 2 && a.tail[0] == '\n'
  }

  lemma KeyGrows(key: string, c: char)
    requires key != "" && ':' !in key[1..] && c != ':'
    ensures ':' !in (key + [c])[1..] && (key + [c])[0] == key[0]
  {
    assert (key + [c])[1..] == key[1..] + [c];
  }

  /** How a line begins, one character later. */
  function NextStart(a: Auto, start: string): string {
    if a.h == H_CR || a.h == H_LF then "\n" else if a.h == H_START then "" else start
  }

  lemma ShapeStepInLine(a: Auto, start: string, c: char, rest: string)
    requires Shape(a, start) && (a.h == H_KEY || a.h == H_SPACES_AFTER_COLON || a.h == H_VALUE)
    ensures Step(a, c, rest).Live? ==> Shape(Step(a, c, rest).a, start)
  {
    if a.h == H_KEY && c != ':' { KeyGrows(a.key, c); }
    assert ": " == ":" + " " && start + a.key + ": " + a.value + [c] == start + a.key + ": " + (a.value + [c]);
    assert start + a.key + [c] == start + (a.key + [c]) && start + a.key + ":" + [c] == start + a.key + (":" + [c]);
    assert start + a.key + ": " + "" == start + a.key + ": ";
  }

  lemma ShapeStepBetween(a: Auto, start: string, c: char, rest: string)
    requires Shape(a, start) && (a.h == H_START || a.h == H_CR || a.h == H_LF || a.h == H_END_CR)
    ensures Step(a, c, rest).Live? ==> Shape(Step(a, c, rest).a, NextStart(a, start))
  {
    assert [c][1..] == "" && "" + [c] == [c];
  }

  lemma ShapeStep(a: Auto, start: string, c: char, rest: string) returns (next: string)
    requires Shape(a, start)
    ensures Step(a, c, rest).Live? ==> Shape(Step(a, c, rest).a, next)
  {
    hide Shape, Step;
    next := NextStart(a, start);
    if a.h == H_KEY || a.h == H_SPACES_AFTER_COLON || a.h == H_VALUE {
      ShapeStepInLine(a, start, c, rest);
    } else {
      ShapeStepBetween(a, start, c, rest);
    }
  }

  lemma {:induction false} ShapeRun(a: Auto, start: string, text: string) returns (next: string)
    requires Shape(a, start) && Run(a, text).Live?
    ensures Shape(Run(a, text).a, next)
    decreases |text|
  {
    next := start;
    if text != "" {
      next := ShapeStep(a, start, text[0], text[1..]);
      next := ShapeRun(Step(a, text[0], text[1..]).a, next, text[1..]);
    }
  }

  // ---------- when resuming agrees ----------

  /** In a resumable state the second call gets back to exactly where the first one was. */
  lemma ResumableReturns(a: Auto, start: string)
    requires Shape(a, start) && Resumable(a.h, a.tail)
    ensures Call(a.h, a.headers, a.tail) == Live(a)
  {
    if a.h == H_START {
      ReadLead(Resume(H_START, a.headers), a.tail);
      assert "" + a.tail == a.tail;
    } else {
      assert start == "" && a.tail == a.key == [a.key[0]] + a.key[1..];
      ReadKey(Resume(H_KEY, a.headers), a.key);
      assert "" + a.key == a.key;
    }
  }

  // ---------- when it does not ----------

  lemma {:induction false} TailBound(x: Auto, t: string)
    requires Run(x, t).Live?
    ensures |Run(x, t).a.tail| <= |x.tail| + |t|
    ensures "" in x.headers ==> "" in Run(x, t).a.headers
    decreases |t|
  {
    if t != "" { TailBound(Step(x, t[0], t[1..]).a, t[1..]); }
  }

  /** A run that keeps the whole tail has recorded no header on its way. */
  lemma {:induction false} FullTail(x: Auto, t: string)
    requires Run(x, t).Live? && |Run(x, t).a.tail| == |x.tail| + |t|
    requires x.h == H_KEY || x.h == H_SPACES_AFTER_COLON || x.h == H_VALUE || (x.h == H_CR && x.tail != "")
    ensures var y := Run(x, t).a;
      match x.h
      case H_KEY => y.h == H_KEY ==> y.key == x.key + t && y.value == x.value
      case H_SPACES_AFTER_COLON => t != "" ==> y.h == H_VALUE || y.h == H_CR
      case H_VALUE => (y.h == H_VALUE && y.key == x.key) || y.h == H_CR
      case _ => t == ""
    decreases |t|
  {
    if t != "" {
      var s := Step(x, t[0], t[1..]);
      TailBound(s.a, t[1..]);
      if x.h != H_CR {
        FullTail(s.a, t[1..]);
        assert [t[0]] + t[1..] == t;
      }
    } else {
      assert x.key + t == x.key;
    }
  }

  function Xs(n: nat): string {
    seq(n, _ => 'x')
  }

  /** A text that no header has for its value. */
  lemma {:induction false} FreshValue(taken: set<string>) returns (n: nat)
    ensures n > 0 && forall m :: m >= n ==> Xs(m) !in taken
    decreases taken
  {
    n := 1;
    if taken != {} {
      var s :| s in taken;
      n := FreshValue(taken - {s});
      n := if n > |s| then n else |s| + 1;
      forall m | m >= n ensures Xs(m) !in taken {
        assert Xs(m) !in taken - {s} && |Xs(m)| != |s|;
      }
    }
  }

  lemma NewValueTells(headers: Headers, k: string, l: string, v: string)
    requires k != l && v !in headers.Values
    ensures headers[k := v] != headers[l := v]
  {
    if l in headers {
      assert headers[l] in headers.Values;
      assert headers[k := v][l] == headers[l];
    }
    assert headers[l := v][l] == v;
  }

  /** A later line is keyed anew, with the line feed before it as part of its key. */
  lemma KeyDiffers(a: Auto, y: Auto) returns (more: string)
    requires a.h == H_KEY && y.h == H_KEY && a.value == y.value == "" && a.headers == y.headers
    requires a.key != "" && y.key != "" && a.key != y.key
    ensures !Agree(Run(a, more), Run(y, more))
  {
    var n := FreshValue(a.headers.Values);
    var v := Xs(n);
    more := ": " + v + "\r\n";
    ReadAfterKey(a, Line(a.key, v));
    ReadAfterKey(y, Line(y.key, v));
    NewValueTells(a.headers, a.key, y.key, v);
  }

  /** A value that is read again has lost its key. */
  lemma ValueDiffers(a: Auto, y: Auto) returns (more: string)
    requires a.h == H_VALUE && y.h == H_VALUE && a.headers == y.headers
    requires a.key != "" && y.key == "" && "" !in a.headers
    ensures !Agree(Run(a, more), Run(y, more))
  {
    more := "x\r\n";
    ValueEnds(a, "x");
    ValueEnds(y, "x");
    assert "x" + "\r\n" == more;
    assert "" in y.headers["" := y.value + "x"] && "" !in a.headers[a.key := a.value + "x"];
  }

  lemma ValueEnds(a: Auto, v: string)
    requires a.h == H_VALUE && '\r' !in v && a.value + v != ""
    ensures Run(a, v + "\r\n") == Live(BehindLine(Line(a.key, a.value + v), a.headers))
  {
    var a1 := a.(value := a.value + v, tail := a.tail + v);
    var a2 := a1.(h := H_CR, tail := a1.tail + "\r");
    ReadValue(a, v);
    RunOne(a1, '\r');
    RunOne(a2, '\n');
    RunConcat(a1, "\r", "\n");
    assert "\r" + "\n" == "\r\n";
    RunConcat(a, v, "\r\n");
  }

  /** In any other state there is a continuation on which the second call goes wrong. */
  lemma NotResumableFails(a: Auto, start: string) returns (more: string)
    requires Shape(a, start) && !Resumable(a.h, a.tail)
    ensures !Agree(Run(a, more), NextCall(a, more))
  {
    more := "";
    assert a.tail + "" == a.tail;
    var x := Resume(a.h, a.headers);
    var r := Run(x, a.tail);
    if Agree(Live(a), r) {
      var y := r.a;
      var first := Step(x, a.tail[0], a.tail[1..]);
      if a.h == H_CR {
        TailBound(first.a, a.tail[1..]);
      } else if a.h == H_LF {
        RunOne(x, '\n');
      } else if a.h == H_KEY {
        FullTail(x, a.tail);
        assert "" + a.tail == a.tail;
        more := KeyDiffers(a, y);
        RunConcat(x, a.tail, more);
      } else if a.h == H_SPACES_AFTER_COLON {
        FullTail(x, a.tail);
      } else if a.h == H_VALUE {
        FullTail(x, a.tail);
        more := ValueDiffers(a, y);
        RunConcat(x, a.tail, more);
      }
    }
  }

  /** After a first call on `text` asked for more: feeding the rest to a second call agrees with one
      call on everything, whatever the rest is, if and only if the first call ended in `H_START` or
      inside the key of the first line and that key does not begin with a colon. */
  lemma ResumeExactly(text: string, a: Auto)
    requires Call(H_START, map[], text) == Live(a)
    ensures Resumable(a.h, a.tail) <==>
              forall more :: Agree(Call(H_START, map[], text + more), NextCall(a, more))
  {
    var start := ShapeRun(Resume(H_START, map[]), "", text);
    forall more ensures Call(H_START, map[], text + more) == Run(a, more) {
      RunConcat(Resume(H_START, map[]), text, more);
    }
    if Resumable(a.h, a.tail) {
      ResumableReturns(a, start);
      forall more ensures NextCall(a, more) == Run(a, more) {
        RunConcat(Resume(a.h, a.headers), a.tail, more);
      }
    } else {
      var more := NotResumableFails(a, start);
      assert !Agree(Call(H_START, map[], text + more), NextCall(a, more));
    }
  }

  /** In terms of a caller: a second call without new text gets nowhere, and that is what it should do. */
  lemma CallAgain(text: string, a: Auto)
    requires Call(H_START, map[], text) == Live(a) && Resumable(a.h, a.tail)
    ensures Call(a.h, a.headers, a.tail) == Live(a)
  {
    var start := ShapeRun(Resume(H_START, map[]), "", text);
    ResumableReturns(a, start);
  }

  // ---------- any number of pieces ----------

  /** The parser is called with each chunk behind what the call before left, until it does not ask for
      more; with the chunks that have not been read. */
  function FeedBlock(a: Auto, chunks: seq<string>): (Scan, seq<string>)
    decreases |chunks|
  {
    if chunks == [] then (Live(a), [])
    else
      var s := NextCall(a, chunks[0]);
      if s.Live? then FeedBlock(s.a, chunks[1..]) else (s, chunks[1..])
  }

  /** Every cut, as one call on the text before it sees it, is in a resumable state. */
  predicate CutsResumable(text: string, chunks: seq<string>)
    decreases |chunks|
  {
    chunks == [] ||
    var s := Call(H_START, map[], text);
    s.Live? ==> Resumable(s.a.h, s.a.tail) && CutsResumable(text + chunks[0], chunks[1..])
  }

  lemma NextCallIsRun(text: string, a: Auto, more: string)
    requires Call(H_START, map[], text) == Live(a) && Resumable(a.h, a.tail)
    ensures NextCall(a, more) == Run(a, more) == Call(H_START, map[], text + more)
  {
    CallAgain(text, a);
    RunConcat(Resume(a.h, a.headers), a.tail, more);
    RunConcat(Resume(H_START, map[]), text, more);
  }

  /** However a header block is cut, if every cut is in a resumable state, feeding the pieces ends in
      exactly the state of one call on all of it, and the buffer with the unread pieces is what that one
      call leaves. */
  lemma {:induction false} BlockInPieces(text: string, a: Auto, chunks: seq<string>)
    requires Call(H_START, map[], text) == Live(a) && CutsResumable(text, chunks)
    ensures var (s, unread) := FeedBlock(a, chunks);
            Call(H_START, map[], text + Concat(chunks)) == Behind(s, Concat(unread))
    decreases |chunks|
  {
    if chunks == [] {
      assert text + Concat(chunks) == text;
    } else {
      hide Run;
      var next, later := text + chunks[0], Concat(chunks[1..]);
      NextCallIsRun(text, a, chunks[0]);
      assert text + Concat(chunks) == next + later;
      var s := NextCall(a, chunks[0]);
      if s.Live? {
        BlockInPieces(next, s.a, chunks[1..]);
      } else {
        RunConcat(Resume(H_START, map[]), next, later);
      }
    }
  }

  lemma CutInValueState()
    ensures Call(H_START, map[], "H: a") == Live(Auto(H_VALUE, "H", "a", "H: a", map[]))
  {
    var a0 := Resume(H_START, map[]);
    var a1 := a0.(h := H_KEY, key := "H", tail := "H");
    var a2 := a1.(h := H_SPACES_AFTER_COLON, tail := "H:");
    var a3 := a2.(h := H_VALUE, tail := "H: ");
    RunOne(a0, 'H');
    RunOne(a1, ':');
    RunOne(a2, ' ');
    RunOne(a3, 'a');
    RunConcat(a2, " ", "a");
    RunConcat(a1, ":", " a");
    RunConcat(a0, "H", ": a");
    assert " " + "a" == " a" && ":" + " a" == ": a" && "H" + ": a" == "H: a";
  }

  /** A cut inside the first value: one call finds the header `H: ab`; two calls find a header with an
      empty name and the whole line for its value. */
  lemma CutInValueLosesTheKey()
    ensures Call(H_START, map[], "H: a" + "b\r\n") == Live(BehindLine(Line("H", "ab"), map[]))
    ensures exists a :: Call(H_START, map[], "H: a") == Live(a)
              && NextCall(a, "b\r\n") == Live(BehindLine(Line("", "H: ab"), map[]))
  {
    hide Run, Step;
    CutInValueState();
    var l := Line("H", "ab");
    assert LineText(l) == "H: a" + "b\r\n";
    ReadFirstLine(Resume(H_START, map[]), l);
    ValueEnds(Resume(H_VALUE, map[]), "H: ab");
    assert "H: ab" + "\r\n" == "H: a" + "b\r\n" && "" + "H: ab" == "H: ab";
  }
}
