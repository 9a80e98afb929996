/** The index loop of `parseRequestHeader` (deon/net/Http.cpp 377-465): what the five indices into the
    buffer mean to the automaton. */
module HttpIndices {
  import opened HttpHeader

  /** The locals of line 378. */
  datatype Indices = Indices(keyStart: int, keyEnd: int, valueStart: int, valueEnd: int, readLinePos: int)

  /** The indices the automaton will use from here on are in order and inside the text read so far. */
  predicate InBounds(h: HState, i: int, x: Indices) {
    && 0 <= x.keyStart <= i && 0 <= x.keyEnd <= i && 0 <= x.valueStart <= i && 0 <= x.valueEnd <= i
    && 0 <= x.readLinePos <= i
    && (h == H_SPACES_AFTER_COLON || h == H_VALUE || h == H_CR ==> x.keyStart <= x.keyEnd)
    && (h == H_CR ==> x.valueStart <= x.valueEnd)
  }

  /** The automaton behind the indices. */
  ghost function Read(buffer: string, i: int, h: HState, headers: Headers, x: Indices): (a: Auto)
    requires i <= |buffer| && InBounds(h, i, x)
    ensures a.h == h && a.headers == headers && a.tail == buffer[x.readLinePos..i]
  {
    Auto(h,
         match h
         case H_KEY => buffer[x.keyStart..i]
         case H_SPACES_AFTER_COLON => buffer[x.keyStart..x.keyEnd]
         case H_VALUE => buffer[x.keyStart..x.keyEnd]
         case H_CR => buffer[x.keyStart..x.keyEnd]
         case _ => "",
         match h
         case H_VALUE => buffer[x.valueStart..i]
         case H_CR => buffer[x.valueStart..x.valueEnd]
         case _ => "",
         buffer[x.readLinePos..i],
         headers)
  }

  lemma ReadMore(buffer: string, i: int, from: int)
    requires 0 <= from <= i < |buffer|
    ensures buffer[from..i + 1] == buffer[from..i] + [buffer[i]]
  {
  }

  /** All indices at zero: nothing has been read of the key, the value or the line. */
  lemma ReadFirst(buffer: string, h: HState, headers: Headers)
    ensures var x := Indices(0, 0, 0, 0, 0);
      InBounds(h, 0, x) && Read(buffer, 0, h, headers, x) == Resume(h, headers) && buffer[0..] == buffer
    ensures Call(h, headers, buffer) == Run(Resume(h, headers), buffer)
  {
  }

  /** One character, with indices: each state moves those it keeps. */
  lemma ReadStep(buffer: string, i: int, h: HState, headers: Headers, x: Indices)
    requires 0 <= i < |buffer| && InBounds(h, i, x)
    ensures var c := buffer[i];
      Step(Read(buffer, i, h, headers, x), c, buffer[i + 1..]) ==
      match h
      case H_START =>
        if c == '\n' || c == '\r' then Live(Read(buffer, i + 1, h, headers, x))
        else Live(Read(buffer, i + 1, H_KEY, headers, x.(keyStart := i, readLinePos := i)))
      case H_KEY =>
        if c != ':' then Live(Read(buffer, i + 1, h, headers, x))
        else if i - x.keyStart <= 0 then Failed(H_KEY, headers)
        else Live(Read(buffer, i + 1, H_SPACES_AFTER_COLON, headers, x.(keyEnd := i)))
      case H_SPACES_AFTER_COLON =>
        if c == ' ' then Live(Read(buffer, i + 1, H_VALUE, headers, x.(valueStart := i + 1))) else Failed(h, headers)
      case H_VALUE =>
        if c != '\r' then Live(Read(buffer, i + 1, h, headers, x))
        else if i - x.valueStart <= 0 then Failed(H_CR, headers)
        else Live(Read(buffer, i + 1, H_CR, headers, x.(valueEnd := i)))
      case H_CR =>
        if c != '\n' then Failed(h, headers)
        else
          var key, value := buffer[x.keyStart..x.keyEnd], buffer[x.valueStart..x.valueEnd];
          Live(Read(buffer, i + 1, H_LF, headers[key := value], x.(readLinePos := i)))
      case H_LF =>
        if c == '\r' then Live(Read(buffer, i + 1, H_END_CR, headers, x))
        else Live(Read(buffer, i + 1, H_KEY, headers, x.(keyStart := i)))
      case H_END_CR =>
        if c == '\n' then Finished(headers, buffer[i + 1..]) else Live(Read(buffer, i + 1, h, headers, x))
  {
    ReadMore(buffer, i, x.readLinePos);
    ReadMore(buffer, i, x.keyStart);
    ReadMore(buffer, i, x.valueStart);
    assert buffer[i..i + 1] == [buffer[i]] && buffer[i + 1..i + 1] == "";
  }

  /** Reading on from the i-th character. */
  lemma RunStep(buffer: string, i: int, h: HState, headers: Headers, x: Indices)
    requires 0 <= i < |buffer| && InBounds(h, i, x)
    ensures Run(Read(buffer, i, h, headers, x), buffer[i..]) ==
      var s := Step(Read(buffer, i, h, headers, x), buffer[i], buffer[i + 1..]);
      if s.Live? then Run(s.a, buffer[i + 1..]) else s
  {
    assert buffer[i..][0] == buffer[i] && buffer[i..][1..] == buffer[i + 1..];
    RunCons(Read(buffer, i, h, headers, x), buffer[i..]);
  }
}
