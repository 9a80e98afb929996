/** The request line of deon/net/Http.cpp (278-373): found with `find` and cut with `substr`. */
module HttpLine {

  datatype Method = M_INVALID | M_POST | M_GET | M_HEAD
  datatype Version = UNKNOWN | HTTP_10 | HTTP_11

  datatype Fields = Fields(verb: Method, version: Version, uri: string)

  // ---------- std::string ----------

  predicate At(s: string, pat: string, k: int) {
    0 <= k && k + |pat| <= |s| && s[k..k + |pat|] == pat
  }

  /** `find`: the first place at or after `from`, or -1. */
  function Find(s: string, pat: string, from: nat): (r: int)
    ensures r == -1 || (from <= r && r + |pat| <= |s| && At(s, pat, r))
    ensures r >= 0 && pat != "" ==> s[r] == pat[0]
    decreases |s| - from
  {
    if from + |pat| > |s| then -1
    else if At(s, pat, from) then from
    else Find(s, pat, from + 1)
  }

  lemma {:induction false} FindFirst(s: string, pat: string, from: nat)
    ensures var r := Find(s, pat, from);
            forall k :: from <= k && (r < 0 || k < r) ==> !At(s, pat, k)
    decreases |s| - from
  {
    if from + |pat| <= |s| && !At(s, pat, from) {
      FindFirst(s, pat, from + 1);
    }
  }

  predicate Contains(s: string, pat: string) {
    Find(s, pat, 0) >= 0
  }

  /** The place is the one `find` returns. */
  lemma FindIs(s: string, pat: string, from: nat, k: nat)
    requires from <= k && At(s, pat, k) && forall j :: from <= j < k ==> !At(s, pat, j)
    ensures Find(s, pat, from) == k
  {
    FindFirst(s, pat, from);
  }

  lemma AtChars(s: string, pat: string, k: nat)
    ensures At(s, pat, k) <==> k + |pat| <= |s| && forall j :: 0 <= j < |pat| ==> s[k + j] == pat[j]
  {
    if k + |pat| <= |s| && forall j :: 0 <= j < |pat| ==> s[k + j] == pat[j] {
      assert s[k..k + |pat|] == pat;
    }
  }

  /** `substr` cuts what reaches over the end. */
  function Substr(s: string, pos: nat, n: nat): string
    requires pos <= |s|
  {
    if pos + n <= |s| then s[pos..pos + n] else s[pos..]
  }

  // ---------- the parser ----------

  /** Lines 295-318: the first of GET, POST, HEAD, in this order, that occurs anywhere in the line. */
  function FindMethod(line: string): (Method, int) {
    if Find(line, "GET", 0) >= 0 then (M_GET, Find(line, "GET", 0))
    else if Find(line, "POST", 0) >= 0 then (M_POST, Find(line, "POST", 0))
    else if Find(line, "HEAD", 0) >= 0 then (M_HEAD, Find(line, "HEAD", 0))
    else (M_INVALID, -1)
  }

  /** Lines 339-349. */
  function CutUri(line: string, slash: nat, space: nat): string
    requires slash < space <= |line|
  {
    var name := Substr(line, slash + 1, space - slash - 1);
    var query := Find(name, "?", 0);
    var path := if query >= 0 then Substr(name, 0, query) else name;
    if path == "" then "index.html" else path
  }

  /** Lines 357-369. */
  function VersionOf(text: string): Version {
    if text == "1.0" then HTTP_10 else if text == "1.1" then HTTP_11 else UNKNOWN
  }

  datatype LineResult = LineOk(f: Fields) | LineBad

  /** A complete line, without its CRLF. */
  function ParseLine(line: string): LineResult {
    var (m, at) := FindMethod(line);
    if m == M_INVALID then LineBad
    else
      var slash := Find(line, "/", at);
      if slash < 0 then LineOk(Fields(m, HTTP_11, "index.html"))
      else
        var space := Find(line, " ", slash);
        if space < 0 then LineBad
        else
          var slash2 := Find(line, "/", slash + 1);
          if slash2 < 0 then LineBad
          else
            var v := VersionOf(Substr(line, slash2 + 1, 3));
            if v == UNKNOWN then LineBad else LineOk(Fields(m, v, CutUri(line, slash, space)))
  }

  /** What a line that is refused has left in the fields by then. */
  function BadFields(f: Fields, line: string): Fields {
    var (m, at) := FindMethod(line);
    if m == M_INVALID then f
    else
      var slash := Find(line, "/", at);
      var space := if slash < 0 then -1 else Find(line, " ", slash);
      if space < 0 then f.(verb := m) else f.(verb := m, uri := CutUri(line, slash, space))
  }

  datatype LineScan = LineAgain | LineDone(result: LineResult, rest: string)

  /** Lines 280-293: the line is cut off the buffer before it is looked at. */
  function ParseBuffer(buffer: string): LineScan {
    var pos := Find(buffer, "\r\n", 0);
    if pos < 0 then LineAgain
    else LineDone(ParseLine(Substr(buffer, 0, pos)), buffer[pos + 2..])
  }

  /** The line `ParseBuffer` looks at. */
  function LineOf(buffer: string): string
    requires ParseBuffer(buffer).LineDone?
  {
    Substr(buffer, 0, Find(buffer, "\r\n", 0))
  }

  // ---------- printing ----------

  function MethodName(m: Method): string {
    match m
    case M_GET => "GET"
    case M_POST => "POST"
    case M_HEAD => "HEAD"
    case M_INVALID => ""
  }

  function VersionText(v: Version): string {
    if v == HTTP_10 then "1.0" else "1.1"
  }

  /** What follows the URI in a request line. */
  function LineEnd(v: Version): string {
    " HTTP/" + VersionText(v)
  }

  /** A request line as section 3.1.1 of RFC 7230 writes it. */
  function LineText(f: Fields): string {
    MethodName(f.verb) + " /" + f.uri + LineEnd(f.version)
  }

  predicate IsRequest(f: Fields) {
    f.verb != M_INVALID && f.version != UNKNOWN
  }

  /** No method that is looked for earlier hides in the URI. */
  predicate MethodKept(f: Fields) {
    match f.verb
    case M_GET => true
    case M_POST => !Contains(f.uri, "GET")
    case M_HEAD => !Contains(f.uri, "GET") && !Contains(f.uri, "POST")
    case M_INVALID => false
  }

  /** The version is read behind the first slash after the URI has begun, wherever that is. */
  predicate VersionKept(f: Fields) {
    var slash := Find(f.uri, "/", 0);
    slash >= 0 ==> Substr(f.uri + LineEnd(f.version), slash + 1, 3) == VersionText(f.version)
  }

  /** What a client can check of its request line. */
  predicate Survives(f: Fields) {
    f.uri != "" && ' ' !in f.uri && '?' !in f.uri && MethodKept(f) && VersionKept(f)
  }

  // ---------- where things are in a printed line ----------

  /** A pattern of one character. */
  lemma FindChar(s: string, c: char, from: nat)
    ensures Find(s, [c], from) >= 0 ==> s[Find(s, [c], from)] == c
    ensures forall k :: from <= k < |s| && s[k] == c ==> 0 <= Find(s, [c], from) <= k
  {
    FindFirst(s, [c], from);
    forall k | 0 <= k < |s| ensures At(s, [c], k) <==> s[k] == c {
      AtChars(s, [c], k);
    }
  }

  lemma LineEndParts(v: Version)
    ensures |LineEnd(v)| == 9 && LineEnd(v)[5] == '/' && LineEnd(v)[6..] == VersionText(v) && |VersionText(v)| == 3
    ensures LineEnd(v)[0] == ' ' && LineEnd(v)[1] == 'H' && LineEnd(v)[2] == 'T'
    ensures LineEnd(v)[3] == 'T' && LineEnd(v)[4] == 'P'
    ensures forall k :: 0 <= k < 5 ==> LineEnd(v)[k] != '/'
  {
  }

  lemma LineTail(f: Fields)
    requires IsRequest(f)
    ensures |LineText(f)| == |MethodName(f.verb)| + 11 + |f.uri|
    ensures LineText(f)[|MethodName(f.verb)| + 2..] == f.uri + LineEnd(f.version)
  {
  }

  lemma LineHead(f: Fields)
    requires IsRequest(f)
    ensures var line, n := LineText(f), |MethodName(f.verb)|;
      && 3 <= n <= 4 && |line| >= n + 2 && line[..n] == MethodName(f.verb) && line[n] == ' ' && line[n + 1] == '/'
      && (forall k :: 0 <= k < n ==> line[k] == MethodName(f.verb)[k] && line[k] != '/')
  {
    hide LineEnd;
    var line, n := LineText(f), |MethodName(f.verb)|;
    assert line == MethodName(f.verb) + (" /" + f.uri + LineEnd(f.version));
  }

  /** The line of a request, character by character. */
  lemma LineParts(f: Fields)
    requires IsRequest(f)
    ensures var line, n, e := LineText(f), |MethodName(f.verb)|, |MethodName(f.verb)| + 2 + |f.uri|;
      && |line| == e + 9 && 3 <= n <= 4
      && line[..n] == MethodName(f.verb) && line[n] == ' ' && line[n + 1] == '/'
      && (forall k :: 0 <= k < n ==> line[k] == MethodName(f.verb)[k] && line[k] != '/')
      && (forall k :: n + 2 <= k < e ==> line[k] == f.uri[k - n - 2])
      && line[e] == ' ' && line[e + 1] == 'H' && line[e + 2] == 'T' && line[e + 3] == 'T' && line[e + 4] == 'P'
      && line[e + 5] == '/' && line[e + 6..] == VersionText(f.version)
  {
    hide LineText, LineEnd, VersionText, MethodName;
    LineHead(f);
    LineTail(f);
    LineEndParts(f.version);
    var line, n, e, end := LineText(f), |MethodName(f.verb)|, |MethodName(f.verb)| + 2 + |f.uri|, LineEnd(f.version);
    TailChars(line, n + 2, f.uri, end);
    assert line[e + 0] == end[0] && line[e + 1] == end[1];
  }

  lemma TailChars(line: string, n: nat, uri: string, end: string)
    requires n <= |line| && line[n..] == uri + end
    ensures |line| == n + |uri| + |end|
    ensures forall k :: n <= k < n + |uri| ==> line[k] == uri[k - n]
    ensures forall k :: 0 <= k < |end| ==> line[n + |uri| + k] == end[k]
    ensures forall k :: 0 <= k <= |end| ==> line[n + |uri| + k..] == end[k..]
  {
    forall k | 0 <= k < |uri + end| ensures line[n + k] == (uri + end)[k] {
      assert line[n..][k] == line[n + k];
    }
    forall k | 0 <= k < |end| ensures line[n + |uri| + k] == end[k] {
      assert (uri + end)[|uri| + k] == end[k];
    }
  }

  predicate IsName(name: string) {
    name == "GET" || name == "POST" || name == "HEAD"
  }

  /** A method name has no space and no slash in it. */
  lemma NameChars(line: string, name: string, k: nat)
    requires IsName(name) && At(line, name, k)
    ensures forall i :: k <= i < k + |name| && i < |line| ==> line[i] != ' ' && line[i] != '/'
  {
    AtChars(line, name, k);
    hide At;
    forall i | k <= i < k + |name| ensures i < |line| && line[i] != ' ' && line[i] != '/' {
      assert line[k + (i - k)] == name[i - k];
    }
  }

  /** No method name lies in what follows the URI. */
  lemma NoNameInEnd(f: Fields, name: string, k: nat)
    requires IsRequest(f) && IsName(name) && At(LineText(f), name, k)
    ensures k <= |MethodName(f.verb)| + 2 + |f.uri|
  {
    hide LineText, At, MethodName;
    LineParts(f);
    var line, e := LineText(f), |MethodName(f.verb)| + 2 + |f.uri|;
    AtChars(line, name, k);
    assert line[k] == name[0] && line[k + 1] == name[1];
    assert line[e + 6..][0] == line[e + 6] && line[e + 6..][1] == line[e + 7] && line[e + 6..][2] == line[e + 8];
  }

  /** A method name in front of the first space is the method. */
  lemma NameIsMethod(f: Fields, name: string, k: nat)
    requires IsRequest(f) && IsName(name) && At(LineText(f), name, k) && k + |name| <= |MethodName(f.verb)|
    ensures k == 0 && name == MethodName(f.verb)
  {
    hide LineText, At;
    LineParts(f);
    AtChars(LineText(f), name, k);
    assert LineText(f)[k] == name[0] && LineText(f)[k + 1] == name[1];
  }

  /** A method name in a printed line is the method itself or lies inside the URI. */
  lemma NameInLine(f: Fields, name: string, k: nat)
    requires IsRequest(f) && IsName(name) && At(LineText(f), name, k)
    ensures (k == 0 && name == MethodName(f.verb)) || At(f.uri, name, k - |MethodName(f.verb)| - 2)
  {
    hide LineText, At, MethodName, VersionText;
    LineParts(f);
    var line, n, e := LineText(f), |MethodName(f.verb)|, |MethodName(f.verb)| + 2 + |f.uri|;
    NameChars(line, name, k);
    assert line[n] == ' ' && line[n + 1] == '/' && line[e] == ' ';
    if k + |name| <= n {
      NameIsMethod(f, name, k);
    } else {
      NoNameInEnd(f, name, k);
      AtChars(line, name, k);
      AtChars(f.uri, name, k - n - 2);
    }
  }

  lemma NameNotThere(f: Fields, name: string)
    requires IsRequest(f) && IsName(name) && name != MethodName(f.verb)
    ensures Contains(LineText(f), name) <==> Contains(f.uri, name)
  {
    var line, n := LineText(f), |MethodName(f.verb)|;
    FindFirst(line, name, 0);
    FindFirst(f.uri, name, 0);
    if Contains(line, name) {
      NameInLine(f, name, Find(line, name, 0));
    }
    if Contains(f.uri, name) {
      var k := Find(f.uri, name, 0);
      NameInUri(f, name, k);
    }
  }

  lemma NameInUri(f: Fields, name: string, k: nat)
    requires IsRequest(f) && At(f.uri, name, k)
    ensures At(LineText(f), name, |MethodName(f.verb)| + 2 + k)
  {
    LineParts(f);
    AtChars(f.uri, name, k);
    AtChars(LineText(f), name, |MethodName(f.verb)| + 2 + k);
  }

  /** The method of a printed line is the one that was printed, unless one that is looked for earlier
      hides in the URI. */
  lemma MethodFound(f: Fields)
    requires IsRequest(f)
    ensures FindMethod(LineText(f)).0 == f.verb <==> MethodKept(f)
    ensures MethodKept(f) ==> FindMethod(LineText(f)).1 == 0
  {
    var line := LineText(f);
    LineParts(f);
    assert At(line, MethodName(f.verb), 0);
    FindIs(line, MethodName(f.verb), 0, 0);
    hide LineText, Find;
    if f.verb != M_GET { NameNotThere(f, "GET"); }
    if f.verb == M_HEAD { NameNotThere(f, "POST"); }
  }

  /** The first space behind a text that is followed by one. */
  lemma SpaceBehind(line: string, from: nat, uri: string)
    requires from + |uri| < |line| && line[from..from + |uri|] == uri && line[from + |uri|] == ' '
    ensures var space := Find(line, " ", from);
      && from <= space <= from + |uri|
      && (space == from + |uri| <==> ' ' !in uri)
      && line[from..space] == uri[..space - from]
  {
    FindChar(line, ' ', from);
    hide Find, At;
    var space := Find(line, " ", from);
    forall k | 0 <= k < |uri| ensures line[from + k] == uri[k] {
      assert line[from..from + |uri|][k] == line[from + k];
    }
    if ' ' in uri {
      var k :| 0 <= k < |uri| && uri[k] == ' ';
      assert line[from + k] == ' ';
    }
    assert space < from + |uri| ==> uri[space - from] == ' ';
  }

  lemma FindSkips(line: string, c: char, from: nat)
    requires from < |line| && line[from] != c
    ensures Find(line, [c], from) == Find(line, [c], from + 1)
  {
    AtChars(line, [c], from);
  }

  /** Where the URI of a printed line is taken to end: at its first space. */
  lemma SpaceFound(f: Fields)
    requires IsRequest(f)
    ensures var line, n := LineText(f), |MethodName(f.verb)|;
      var space := Find(line, " ", n + 1);
      && n + 2 <= space <= n + 2 + |f.uri| <= |line|
      && (space == n + 2 + |f.uri| <==> ' ' !in f.uri)
      && line[n + 2..space] == f.uri[..space - n - 2]
  {
    hide LineText, MethodName, VersionText, Find, At;
    var line, n := LineText(f), |MethodName(f.verb)|;
    LineParts(f);
    FindSkips(line, ' ', n + 1);
    assert line[n + 2..n + 2 + |f.uri|] == f.uri;
    SpaceBehind(line, n + 2, f.uri);
  }

  /** The URI is cut out as it was printed, unless it is empty or has a space or a question mark. */
  lemma CutRoundTrip(name: string, uri: string)
    requires name <= uri && ' ' !in name && (name == uri <==> ' ' !in uri)
    ensures var query := Find(name, "?", 0);
      var path := if query >= 0 then Substr(name, 0, query) else name;
      (if path == "" then "index.html" else path) == uri <==> uri != "" && ' ' !in uri && '?' !in uri
  {
    FindChar(name, '?', 0);
    hide Find;
    assert ' ' !in "index.html" && '?' !in "index.html";
    var query := Find(name, "?", 0);
    if query >= 0 {
      assert uri[query] == '?';
    }
  }

  lemma UriFound(f: Fields)
    requires IsRequest(f)
    ensures var line, n := LineText(f), |MethodName(f.verb)|;
      var space := Find(line, " ", n + 1);
      n + 1 < space <= |line| &&
      (CutUri(line, n + 1, space) == f.uri <==> f.uri != "" && ' ' !in f.uri && '?' !in f.uri)
  {
    var line, n := LineText(f), |MethodName(f.verb)|;
    SpaceFound(f);
    LineParts(f);
    FindChar(line, ' ', n + 1);
    hide LineText, Find;
    var space := Find(line, " ", n + 1);
    var name := Substr(line, n + 2, space - n - 2);
    assert name == f.uri[..space - n - 2];
    forall k | 0 <= k < |name| ensures name[k] != ' ' {
      assert name[k] == line[n + 2 + k];
    }
    CutRoundTrip(name, f.uri);
  }

  lemma FirstSlash(f: Fields)
    requires IsRequest(f)
    ensures Find(LineText(f), "/", 0) == |MethodName(f.verb)| + 1
  {
    LineParts(f);
    hide LineText;
    FindChar(LineText(f), '/', 0);
  }

  /** The first slash of a suffix that begins with the URI. */
  lemma SlashBehind(line: string, n: nat, uri: string, end: string)
    requires n <= |line| && line[n..] == uri + end && |end| >= 6 && end[5] == '/'
    requires forall k :: 0 <= k < 5 ==> end[k] != '/'
    ensures var slash, slash2 := Find(uri, "/", 0), Find(line, "/", n);
      slash2 == if slash >= 0 then n + slash else n + |uri| + 5
  {
    FindChar(line, '/', n);
    FindChar(uri, '/', 0);
    hide Find;
    forall k | 0 <= k < |uri + end| ensures line[n + k] == (uri + end)[k] {
      assert line[n..][k] == line[n + k];
    }
    assert line[n + |uri| + 5] == '/';
    var slash := Find(uri, "/", 0);
    if slash >= 0 {
      assert line[n + slash] == '/';
    }
  }

  lemma SubstrShift(line: string, n: nat, tail: string, pos: nat, len: nat)
    requires n <= |line| && line[n..] == tail && pos <= |tail|
    ensures Substr(line, n + pos, len) == Substr(tail, pos, len)
  {
    assert |line| == n + |tail|;
    if pos + len <= |tail| {
      assert line[n + pos..n + pos + len] == line[n..][pos..pos + len];
    } else {
      assert line[n + pos..] == line[n..][pos..];
    }
  }

  lemma VersionTextBack(text: string, v: Version)
    requires v != UNKNOWN
    ensures VersionOf(text) == v <==> text == VersionText(v)
  {
    assert "1.0"[2] != "1.1"[2];
  }

  /** The three characters behind the slash at the end of the line. */
  lemma VersionChars(uri: string, v: Version)
    ensures Substr(uri + LineEnd(v), |uri| + 6, 3) == VersionText(v)
  {
    LineEndParts(v);
    assert (uri + LineEnd(v))[|uri| + 6..] == LineEnd(v)[6..];
    assert |VersionText(v)| == 3;
  }

  lemma VersionKeptMeans(f: Fields)
    ensures var slash := Find(f.uri, "/", 0);
      VersionKept(f) <==>
        Substr(f.uri + LineEnd(f.version), if slash >= 0 then slash + 1 else |f.uri| + 6, 3) == VersionText(f.version)
  {
    LineEndParts(f.version);
    VersionChars(f.uri, f.version);
    hide Find, Substr, VersionText;
  }

  /** What is read for the version. */
  lemma VersionFound(f: Fields)
    requires IsRequest(f)
    ensures var line := LineText(f);
      var slash2 := Find(line, "/", |MethodName(f.verb)| + 2);
      slash2 >= 0 && slash2 < |line| && (VersionOf(Substr(line, slash2 + 1, 3)) == f.version <==> VersionKept(f))
  {
    hide LineText, Find, VersionOf, VersionText, MethodName, Substr, LineEnd, VersionKept;
    var line, n, end := LineText(f), |MethodName(f.verb)| + 2, LineEnd(f.version);
    LineTail(f);
    LineEndParts(f.version);
    SlashBehind(line, n, f.uri, end);
    VersionKeptMeans(f);
    var slash2 := Find(line, "/", n);
    SubstrShift(line, n, f.uri + end, slash2 + 1 - n, 3);
    VersionTextBack(Substr(line, slash2 + 1, 3), f.version);
  }

  /** The parser, taken apart. */
  lemma ParseSteps(line: string, m: Method, at: int, slash: int, space: int, slash2: int)
    requires FindMethod(line) == (m, at) && m != M_INVALID && at >= 0
    requires slash == Find(line, "/", at) && slash >= 0
    requires space == Find(line, " ", slash) && slash < space
    requires slash2 == Find(line, "/", slash + 1) && slash2 >= 0
    ensures ParseLine(line) == var v := VersionOf(Substr(line, slash2 + 1, 3));
              if v == UNKNOWN then LineBad else LineOk(Fields(m, v, CutUri(line, slash, space)))
  {
    hide Find, FindMethod, CutUri, VersionOf, Substr, At;
  }

  lemma OtherMethod(line: string)
    ensures ParseLine(line).LineOk? ==> ParseLine(line).f.verb == FindMethod(line).0
  {
    hide Find, FindMethod, CutUri, VersionOf, Substr, At;
  }

  lemma RoundTripIfMethodKept(f: Fields)
    requires IsRequest(f) && MethodKept(f)
    ensures ParseLine(LineText(f)) == LineOk(f) <==>
              f.uri != "" && ' ' !in f.uri && '?' !in f.uri && VersionKept(f)
  {
    hide ParseLine, Find, LineText, CutUri, VersionKept, VersionOf, FindMethod, Substr, MethodKept, At, MethodName;
    var line, n := LineText(f), |MethodName(f.verb)|;
    MethodFound(f);
    FirstSlash(f);
    UriFound(f);
    VersionFound(f);
    ParseSteps(line, f.verb, 0, n + 1, Find(line, " ", n + 1), Find(line, "/", n + 2));
  }

  /** A printed request line is read back as it was meant if and only if the URI is not empty, has no
      space and no question mark, hides no method that is looked for earlier, and has no slash in it,
      or one that happens to be followed by the version itself. */
  lemma LineRoundTrip(f: Fields)
    requires IsRequest(f)
    ensures ParseLine(LineText(f)) == LineOk(f) <==> Survives(f)
  {
    hide ParseLine, LineText, VersionKept, FindMethod, MethodKept;
    if MethodKept(f) {
      RoundTripIfMethodKept(f);
    } else {
      MethodFound(f);
      OtherMethod(LineText(f));
    }
  }

  // ---------- what is read where it is not what was printed ----------

  /** The path of a URI: up to its first space or question mark. */
  predicate IsPath(p: string, uri: string) {
    && p <= uri && ' ' !in p && '?' !in p
    && (p == uri || uri[|p|] == ' ' || uri[|p|] == '?')
  }

  lemma PrefixChars(p: string, uri: string)
    requires p <= uri
    ensures forall i :: 0 <= i < |p| ==> uri[i] == p[i]
  {
  }

  /** What is in front of the first space begins with the path. */
  lemma PathInName(name: string, uri: string, p: string)
    requires name <= uri && ' ' !in name && (name == uri || uri[|name|] == ' ') && IsPath(p, uri)
    ensures p <= name && (p == name || name[|p|] == '?')
  {
    PrefixChars(name, uri);
    PrefixChars(p, uri);
    assert forall i :: 0 <= i < |p| ==> p[i] != ' ';
    assert |p| <= |name|;
    assert p == name[..|p|];
  }

  /** What is cut off a text between a slash and a space. */
  lemma CutMeans(line: string, slash: nat, space: nat, uri: string, p: string)
    requires slash < space <= |line| && space - slash - 1 <= |uri|
    requires var name := line[slash + 1..space];
      name <= uri && ' ' !in name && (name == uri || uri[|name|] == ' ') && IsPath(p, uri)
    ensures CutUri(line, slash, space) == if p == "" then "index.html" else p
  {
    var name := line[slash + 1..space];
    assert Substr(line, slash + 1, space - slash - 1) == name;
    PathInName(name, uri, p);
    FindChar(name, '?', 0);
    hide Find;
    PrefixChars(p, name);
    assert forall i :: 0 <= i < |p| ==> p[i] != '?';
    var query := Find(name, "?", 0);
    assert query >= 0 ==> query == |p| && name[..query] == p;
  }

  /** The path of any URI, with or without a query, is what the connection takes for the URI, and an empty path
      is the index page; method and version are as printed. */
  lemma LineMeans(f: Fields, p: string)
    requires IsRequest(f) && MethodKept(f) && VersionKept(f) && IsPath(p, f.uri)
    ensures ParseLine(LineText(f)) == LineOk(Fields(f.verb, f.version, if p == "" then "index.html" else p))
  {
    hide ParseLine, Find, LineText, CutUri, VersionKept, VersionOf, FindMethod, Substr, MethodKept, At, MethodName;
    hide IsPath;
    var line, n := LineText(f), |MethodName(f.verb)|;
    MethodFound(f);
    FirstSlash(f);
    SpaceFound(f);
    VersionFound(f);
    var space := Find(line, " ", n + 1);
    NameHasNoSpace(f, space);
    assert line[n + 2..space] <= f.uri;
    CutMeans(line, n + 1, space, f.uri, p);
    ParseSteps(line, f.verb, 0, n + 1, space, Find(line, "/", n + 2));
  }

  lemma NameHasNoSpace(f: Fields, space: nat)
    requires IsRequest(f) && space == Find(LineText(f), " ", |MethodName(f.verb)| + 1)
    requires |MethodName(f.verb)| + 2 <= space <= |MethodName(f.verb)| + 2 + |f.uri|
    ensures var k := space - |MethodName(f.verb)| - 2;
      ' ' !in f.uri[..k] && (k == |f.uri| || f.uri[k] == ' ')
  {
    hide LineText, MethodName, VersionText, Find, At;
    var line, n := LineText(f), |MethodName(f.verb)|;
    LineParts(f);
    FindChar(line, ' ', n + 1);
    var k := space - n - 2;
    forall i | 0 <= i < k ensures f.uri[..k][i] != ' ' {
      assert line[n + 2 + i] == f.uri[i];
    }
    assert k < |f.uri| ==> line[n + 2 + k] == f.uri[k];
  }

  /** A path and a query: the query is dropped. */
  lemma QueryIsDropped(f: Fields, p: string, q: string)
    requires IsRequest(f) && MethodKept(f) && VersionKept(f)
    requires ' ' !in p && '?' !in p && (f.uri == p || f.uri == p + "?" + q)
    ensures ParseLine(LineText(f)) == LineOk(Fields(f.verb, f.version, if p == "" then "index.html" else p))
  {
    assert IsPath(p, f.uri);
    hide ParseLine, LineText, MethodKept, VersionKept;
    LineMeans(f, p);
  }

  /** Which method a line has: the first of GET, POST and HEAD that is somewhere in it. */
  lemma MethodMeans(line: string)
    ensures var m := FindMethod(line).0;
      && (m == M_GET <==> exists k :: At(line, "GET", k))
      && (m == M_POST <==> !(exists k :: At(line, "GET", k)) && exists k :: At(line, "POST", k))
      && (m == M_HEAD <==> !(exists k :: At(line, "GET", k)) && !(exists k :: At(line, "POST", k))
                           && exists k :: At(line, "HEAD", k))
    ensures var (m, at) := FindMethod(line);
      m != M_INVALID ==> At(line, MethodName(m), at) && forall j :: 0 <= j < at ==> !At(line, MethodName(m), j)
  {
    FindFirst(line, "GET", 0);
    FindFirst(line, "POST", 0);
    FindFirst(line, "HEAD", 0);
    assert Find(line, "GET", 0) >= 0 ==> At(line, "GET", Find(line, "GET", 0));
    assert Find(line, "POST", 0) >= 0 ==> At(line, "POST", Find(line, "POST", 0));
    assert Find(line, "HEAD", 0) >= 0 ==> At(line, "HEAD", Find(line, "HEAD", 0));
    hide Find, At;
  }

  /** A line without a method is refused, and one with a method and no slash asks for the index page. */
  lemma LineWithoutSlash(line: string)
    requires '/' !in line
    ensures ParseLine(line) == var m := FindMethod(line).0;
      if m == M_INVALID then LineBad else LineOk(Fields(m, HTTP_11, "index.html"))
  {
    var (m, at) := FindMethod(line);
    if m != M_INVALID {
      FindChar(line, '/', at);
    }
    hide Find, At;
  }

  lemma LineWithoutMethod(line: string)
    ensures FindMethod(line).0 == M_INVALID ==> ParseLine(line) == LineBad
  {
    hide Find, At;
  }

  /** A line with a slash is refused if no space follows it, or no second slash. */
  lemma LineCutShort(line: string, slash: nat)
    requires var (m, at) := FindMethod(line); m != M_INVALID && 0 <= at <= slash < |line|
    requires line[slash] == '/' && forall k :: FindMethod(line).1 <= k < slash ==> line[k] != '/'
    requires (forall k :: slash < k < |line| ==> line[k] != ' ') || (forall k :: slash < k < |line| ==> line[k] != '/')
    ensures ParseLine(line) == LineBad
  {
    var (m, at) := FindMethod(line);
    FindChar(line, '/', at);
    FindChar(line, ' ', slash);
    FindChar(line, '/', slash + 1);
    hide Find, At, FindMethod;
  }

  /** Only two versions are known. */
  lemma VersionMeans(text: string)
    ensures VersionOf(text) == HTTP_10 <==> text == "1.0"
    ensures VersionOf(text) == HTTP_11 <==> text == "1.1"
  {
    assert "1.0"[2] != "1.1"[2];
  }

  /** A request for a file in a directory is refused: its version is read out of the file name. */
  lemma SubdirectoryIsRefused()
    ensures ParseLine(LineText(Fields(M_GET, HTTP_11, "a/b.html"))) == LineBad
  {
    hide Find, LineText, FindMethod, Substr, VersionOf, CutUri;
    var f := Fields(M_GET, HTTP_11, "a/b.html");
    var line := LineText(f);
    MethodFound(f);
    FirstSlash(f);
    SpaceFound(f);
    LineParts(f);
    FindChar(line, '/', 5);
    assert line[6] == '/' && line[7] == 'b';
    NoVersion(line, 7);
  }

  lemma NoVersion(line: string, pos: nat)
    requires pos < |line| && line[pos] != '1'
    ensures VersionOf(Substr(line, pos, 3)) == UNKNOWN
  {
    assert Substr(line, pos, 3)[0] == line[pos];
  }
}
