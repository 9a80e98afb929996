/** The error page of deon/net/Http.cpp (205-225). */
module HttpPage {
  import opened Decimal

  function Body(code: nat, msg: string): string {
    "<html><title>Server error</title>" + "<body bgcolor=\"ffffff\">" + TextOf(code) + msg
    + "<hr><em> Deon</em>\n</body></html>"
  }

  function StatusLine(code: nat, msg: string): string {
    "HTTP/1.1 " + TextOf(code) + msg
  }

  const FIELDS :=
    "\r\n" + "Server: Answerhua's Web Server\r\n" + "Content-Type: text/html\r\n" + "Connection: Close\r\n"
    + "Content-Length: "

  /** What follows the status line. */
  function Rest(body: string): string {
    FIELDS + TextOf(|body|) + "\r\n\r\n" + body
  }

  function Page(code: nat, msg: string): string {
    StatusLine(code, msg) + Rest(Body(code, msg))
  }

  /** What a client needs to find the end of the page: the number it reads behind the name of the field is how
      many characters there are behind the blank line. */
  lemma LengthIsRight(code: nat, msg: string) returns (number: string, behind: string)
    ensures Page(code, msg) == StatusLine(code, msg) + (FIELDS + number + "\r\n\r\n" + behind)
    ensures ValueOf(number) == |behind|
  {
    hide TextOf, ValueOf, StatusLine, Body, IsCanonical;
    number, behind := TextOf(|Body(code, msg)|), Body(code, msg);
    RoundTrip(|behind|);
  }

  lemma CharBehind(start: string, msg: string, more: string)
    requires more != "" && more[0] != ' '
    ensures var text := start + (msg + more);
      |start| < |text| && text[..|start|] == start && (text[|start|] == ' ' <==> msg != "" && msg[0] == ' ')
  {
    assert (msg + more)[0] == if msg != "" then msg[0] else more[0];
  }

  /** Section 3.1.2 of RFC 7230 wants a space behind the status code. There is one if and only if the message
      brings it along, and no message in the source does. */
  lemma SpaceBehindCode(code: nat, msg: string)
    ensures var n := |"HTTP/1.1 " + TextOf(code)|;
      && n < |Page(code, msg)| && Page(code, msg)[..n] == "HTTP/1.1 " + TextOf(code)
      && (Page(code, msg)[n] == ' ' <==> msg != "" && msg[0] == ' ')
  {
    hide TextOf, Rest, Body;
    var start, more := "HTTP/1.1 " + TextOf(code), Rest(Body(code, msg));
    RestStarts(Body(code, msg));
    assert Page(code, msg) == start + (msg + more);
    CharBehind(start, msg, more);
  }

  lemma RestStarts(body: string)
    ensures Rest(body) != "" && Rest(body)[0] == '\r'
  {
    hide TextOf;
    assert FIELDS[0] == '\r';
  }
}
