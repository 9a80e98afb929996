/** deon/base/LogStream.h and LogStream.cpp: a fixed character buffer with a write cursor, the
    in-place integer formatter that writes through that cursor, and the stream built on both. */
module LogStream {
  import opened Decimal

  const SMALL_BUFFER := 4000
  const LARGE_BUFFER := 4000 * 1000
  const MAX_NUMERIC_SIZE := 32

  /** The reversal of a sequence. */
  function Reversed<T>(s: seq<T>): (r: seq<T>)
    ensures |r| == |s|
  {
    seq(|s|, k requires 0 <= k < |s| => s[|s| - 1 - k])
  }

  // ---------- lengths ----------

  const INT_MAX := 0x7FFF_FFFF

  /** `static_cast<int>` of a length: 32 bits in two's complement. */
  function ToInt(len: nat): (i: int)
    ensures -INT_MAX - 1 <= i <= INT_MAX
  {
    var low := len % 0x1_0000_0000;
    if low > INT_MAX then low - 0x1_0000_0000 else low
  }

  /** What the guard of `append` lets pass has room. */
  predicate GuardHolds(avail: int, len: nat) {
    avail > ToInt(len) ==> avail > len
  }

  /** The guard compares the room with the length cast to `int`. It keeps the copy inside the storage if and
      only if the length is below 2^31 or the cast length is not below the room either. */
  lemma GuardIsExact(avail: nat, len: nat)
    requires avail < 0x8000_0000
    ensures GuardHolds(avail, len) <==> len < 0x8000_0000 || avail <= ToInt(len)
    ensures len < 0x8000_0000 ==> ToInt(len) == len
    ensures exists wraps: nat :: ToInt(len) == len - wraps * 0x1_0000_0000
  {
    if len <= INT_MAX {
      assert ToInt(len) == len;
    }
    var q := len / 0x1_0000_0000;
    assert len == q * 0x1_0000_0000 + len % 0x1_0000_0000;
    assert ToInt(len) == len - q * 0x1_0000_0000 || ToInt(len) == len - (q + 1) * 0x1_0000_0000;
  }

  /** A text of 2^31 characters passes the guard of an empty stream, although it has room for 4000. */
  lemma LongTextPassesGuard()
    ensures SMALL_BUFFER > ToInt(0x8000_0000) && !GuardHolds(SMALL_BUFFER, 0x8000_0000)
  {
  }

  /** A text whose length is an `int`, as the logger is given it. */
  type IntText = s: string | |s| <= INT_MAX

  class FixedBuffer {
    const data: array<char>
    var cur: nat
    ghost var text: string   // what has been written since the last reset

    /** The cursor stays strictly inside the storage, so one character of it is always unused. */
    ghost predicate Valid()
      reads this, data
    {
      cur < data.Length && text == data[..cur]
    }

    constructor (size: nat)
      requires size > 0
      ensures Valid() && fresh(data) && data.Length == size && text == ""
    {
      data := new char[size];
      cur, text := 0, "";
    }

    function Avail(): (r: int)
      reads this
    {
      data.Length - cur
    }

    /** The copy of a text that passes the guard without having room is not defined. */
    method Append(line: string)
      requires Valid() && GuardHolds(Avail(), |line|)
      modifies this, data
      ensures Valid()
      ensures text == if data.Length - |old(text)| > |line| then old(text) + line else old(text)
    {
      if Avail() > ToInt(|line|) {
        var from := cur;
        forall k | 0 <= k < |line| {
          data[from + k] := line[k];
        }
        cur, text := cur + |line|, text + line;
        assert data[..from] == old(text);
      }
    }

    /** `add`: the cursor moves over characters that were written through `current`. */
    method Add(len: nat)
      requires cur + len < data.Length && data[..cur] == text
      modifies this
      ensures Valid() && cur == old(cur) + len && text == data[..cur]
    {
      cur, text := cur + len, data[..cur + len];
    }

    method Reset()
      requires Valid()
      modifies this
      ensures Valid() && text == ""
    {
      cur, text := 0, "";
    }
  }

  // ---------- convert ----------

  /** C++ division and remainder: the quotient is truncated toward zero, the remainder has the sign
      of the dividend. */
  function TruncDiv(a: int, b: int): int
    requires b > 0
  {
    if a < 0 then -((-a) / b) else a / b
  }

  function TruncMod(a: int, b: int): int
    requires b > 0
  {
    a - b * TruncDiv(a, b)
  }

  /** The table that makes a digit out of a remainder of either sign. */
  const DIGITS := "9876543210123456789"
  const ZERO := 9

  function Abs(v: int): nat {
    if v < 0 then -v else v
  }

  lemma OneDigit(i: int)
    ensures -9 <= TruncMod(i, 10) <= 9
    ensures DIGITS[ZERO + TruncMod(i, 10)] == DigitChar(Abs(i) % 10)
    ensures Abs(TruncDiv(i, 10)) == Abs(i) / 10
    ensures TruncDiv(i, 10) == 0 <==> Abs(i) < 10
  {
    assert Abs(TruncMod(i, 10)) == Abs(i) % 10;
  }

  lemma ReversedSnoc<T>(s: seq<T>, x: T)
    ensures Reversed(s + [x]) == [x] + Reversed(s)
  {
  }

  /** One more digit has been written and one less is to be. */
  lemma DigitMoves(i: int, written: string)
    ensures (if Abs(i) < 10 then "" else DigitsOf(Abs(i) / 10)) + Reversed(written + [DigitChar(Abs(i) % 10)])
         == DigitsOf(Abs(i)) + Reversed(written)
  {
    ReversedSnoc(written, DigitChar(Abs(i) % 10));
  }

  /** The digit loop: least significant digit first, through a moving pointer. */
  method WriteDigits(data: array<char>, buf: nat, value: int) returns (p: nat)
    requires buf + |DigitsOf(Abs(value))| < data.Length
    modifies data
    ensures p == buf + |DigitsOf(Abs(value))|
    ensures Reversed(data[buf..p]) == DigitsOf(Abs(value))
    ensures forall k :: 0 <= k < buf || p <= k < data.Length ==> data[k] == old(data[k])
  {
    SomeDigit(Abs(value));
    hide DigitsOf, DigitChar, TruncDiv, TruncMod, Abs;
    var i := value;
    p := buf;
    var more := true;
    while more
      invariant buf <= p <= buf + |DigitsOf(Abs(value))|
      invariant DigitsOf(Abs(value)) == (if more then DigitsOf(Abs(i)) else "") + Reversed(data[buf..p])
      invariant forall k :: 0 <= k < buf || p <= k < data.Length ==> data[k] == old(data[k])
      decreases more, Abs(i)
    {
      OneDigit(i);
      SomeDigit(Abs(i));
      ghost var written := data[buf..p];
      DigitMoves(i, written);
      var lsd := TruncMod(i, 10);
      i := TruncDiv(i, 10);
      data[p] := DIGITS[ZERO + lsd];
      p := p + 1;
      assert data[buf..p] == written + [DIGITS[ZERO + lsd]];
      more := i != 0;
    }
  }

  lemma SomeDigit(n: nat)
    ensures |DigitsOf(n)| >= 1
    ensures n >= 10 ==> n / 10 < n && |DigitsOf(n)| == |DigitsOf(n / 10)| + 1
  {
  }

  /** `std::reverse` on the characters from `from` up to `to`. */
  method ReverseRange(data: array<char>, from: nat, to: nat)
    requires from <= to <= data.Length
    modifies data
    ensures data[from..to] == Reversed(old(data[from..to]))
    ensures forall k :: 0 <= k < from || to <= k < data.Length ==> data[k] == old(data[k])
  {
    forall k | from <= k < to {
      data[k] := data[from + to - 1 - k];
    }
  }

  lemma TextReversed(v: int)
    ensures Reversed(Reversed(DigitsOf(Abs(v))) + if v < 0 then "-" else "") == TextOf(v)
    ensures |TextOf(v)| == |DigitsOf(Abs(v))| + if v < 0 then 1 else 0
  {
    var digits := DigitsOf(Abs(v));
    assert Reversed(Reversed(digits)) == digits;
    if v < 0 {
      ReversedSnoc(Reversed(digits), '-');
    } else {
      assert Reversed(digits) + "" == Reversed(digits);
    }
  }

  /** Writes the text of `value` at `buf` with a NUL behind it and returns its length. The digits come
      out last first, so the range is turned round in place before the return. */
  method Convert(data: array<char>, buf: nat, value: int) returns (len: nat)
    requires INT64_MIN <= value <= UINT64_MAX
    requires buf + |TextOf(value)| < data.Length
    modifies data
    ensures len == |TextOf(value)|
    ensures data[buf..buf + len] == TextOf(value) && data[buf + len] == 0 as char
    ensures forall k :: 0 <= k < buf || buf + len < k < data.Length ==> data[k] == old(data[k])
  {
    TextReversed(value);
    hide DigitsOf, TextOf, Reversed;
    var p := WriteDigits(data, buf, value);
    ghost var digits := data[buf..p];
    assert Reversed(digits) == DigitsOf(Abs(value));
    assert digits == Reversed(DigitsOf(Abs(value))) by {
      ReversedTwice(digits);
    }
    if value < 0 {
      data[p] := '-';
      p := p + 1;
    }
    assert data[buf..p] == digits + if value < 0 then "-" else "";
    data[p] := 0 as char;
    assert data[buf..p] == digits + if value < 0 then "-" else "";
    ReverseRange(data, buf, p);
    len := p - buf;
  }

  lemma ReversedTwice<T>(s: seq<T>)
    ensures Reversed(Reversed(s)) == s
  {
  }

  // ---------- LogStream ----------

  /** What one `<<` offers to the stream. */
  datatype Item = Str(text: string) | Num(value: int) | Real(digits: string)

  /** A floating-point number is given by what `snprintf` makes of it in 32 characters, NUL included. */
  predicate IsItem(x: Item) {
    match x
    case Str(t) => |t| <= INT_MAX
    case Num(v) => INT64_MIN <= v <= UINT64_MAX
    case Real(digits) => |digits| < MAX_NUMERIC_SIZE
  }

  function ItemText(x: Item): string {
    match x case Str(t) => t case Num(v) => TextOf(v) case Real(digits) => digits
  }

  /** A C string, or a null pointer. */
  datatype Chars = Null | At(text: string)

  function CharsText(str: Chars): string {
    if str.Null? then "(null)" else str.text
  }

  /** The stream content after one more `<<`: an item that does not fit is dropped whole. */
  function Put(content: string, x: Item): (r: string) {
    var avail := SMALL_BUFFER - |content|;
    if (if x.Str? then avail > |x.text| else avail >= MAX_NUMERIC_SIZE)
    then content + ItemText(x)
    else content
  }

  function PutAll(content: string, xs: seq<Item>): string
    decreases |xs|
  {
    if xs == [] then content else PutAll(Put(content, xs[0]), xs[1..])
  }

  class Stream {
    const buffer: FixedBuffer

    ghost predicate Valid()
      reads this, buffer, buffer.data
    {
      buffer.Valid() && buffer.data.Length == SMALL_BUFFER
    }

    constructor ()
      ensures Valid() && fresh(buffer) && fresh(buffer.data) && buffer.text == ""
    {
      buffer := new FixedBuffer(SMALL_BUFFER);
    }

    /** The 32-character guard is what keeps `Convert` and the cursor inside the storage. */
    method FormatInteger(v: int)
      requires Valid() && INT64_MIN <= v <= UINT64_MAX
      modifies buffer, buffer.data
      ensures Valid() && buffer.text == Put(old(buffer.text), Num(v))
    {
      if buffer.Avail() >= MAX_NUMERIC_SIZE {
        TextFits(v);
        var len := Convert(buffer.data, buffer.cur, v);
        assert buffer.data[..buffer.cur] == old(buffer.text);
        buffer.Add(len);
        assert buffer.text == old(buffer.text) + buffer.data[old(buffer.cur)..buffer.cur];
      }
    }

    method AppendText(text: string)
      requires Valid() && GuardHolds(buffer.Avail(), |text|)
      modifies buffer, buffer.data
      ensures Valid() && buffer.text == Put(old(buffer.text), Str(text))
    {
      buffer.Append(text);
    }

    /** Lines 85-92 of LogStream.h. */
    method AppendChars(str: Chars)
      requires Valid() && GuardHolds(buffer.Avail(), |CharsText(str)|)
      modifies buffer, buffer.data
      ensures Valid() && buffer.text == Put(old(buffer.text), Str(CharsText(str)))
    {
      if str.At? {
        buffer.Append(str.text);
      } else {
        buffer.Append("(null)");
      }
    }

    /** Lines 92-110 of LogStream.cpp: `snprintf` writes the digits and a NUL through the cursor. */
    method FormatReal(digits: string)
      requires Valid() && |digits| < MAX_NUMERIC_SIZE
      modifies buffer, buffer.data
      ensures Valid() && buffer.text == Put(old(buffer.text), Real(digits))
    {
      if buffer.Avail() >= MAX_NUMERIC_SIZE {
        var from, data := buffer.cur, buffer.data;
        forall k | 0 <= k < |digits| {
          data[from + k] := digits[k];
        }
        data[from + |digits|] := 0 as char;
        assert data[..from] == old(buffer.text);
        buffer.Add(|digits|);
        assert buffer.text == old(buffer.text) + data[from..buffer.cur];
      }
    }

    method AppendBool(v: bool)
      requires Valid()
      modifies buffer, buffer.data
      ensures Valid() && buffer.text == Put(old(buffer.text), Str(if v then "1" else "0"))
    {
      buffer.Append(if v then "1" else "0");
    }

    /** A chain of `<<`. */
    method Write(xs: seq<Item>)
      requires Valid() && forall n :: 0 <= n < |xs| ==> IsItem(xs[n])
      modifies buffer, buffer.data
      ensures Valid() && buffer.text == PutAll(old(buffer.text), xs)
    {
      for n := 0 to |xs|
        invariant Valid() && PutAll(buffer.text, xs[n..]) == PutAll(old(buffer.text), xs)
      {
        match xs[n]
        case Str(t) => AppendText(t);
        case Num(v) => FormatInteger(v);
        case Real(digits) => FormatReal(digits);
        assert xs[n..][1..] == xs[n + 1..];
      }
    }
  }

  /** The texts of the items at the marked positions, in order. */
  function Picked(xs: seq<Item>, taken: seq<bool>): string
    requires |taken| == |xs|
  {
    if xs == [] then ""
    else (if taken[0] then ItemText(xs[0]) else "") + Picked(xs[1..], taken[1..])
  }

  /** An item is taken whole or not at all, and leaves room. */
  lemma PutWhole(content: string, x: Item)
    requires |content| < SMALL_BUFFER && IsItem(x)
    ensures Put(content, x) == content + ItemText(x) || Put(content, x) == content + ""
    ensures |Put(content, x)| < SMALL_BUFFER
  {
    if x.Num? { TextFits(x.value); }
    hide TextOf;
  }

  lemma PickedCons(content: string, xs: seq<Item>, whole: bool, rest: seq<bool>)
    requires |xs| == |rest| + 1
    ensures content + Picked(xs, [whole] + rest)
         == content + (if whole then ItemText(xs[0]) else "") + Picked(xs[1..], rest)
  {
    hide ItemText;
    assert ([whole] + rest)[1..] == rest;
  }

  /** However many items are offered, the content stays below the buffer size and is made of whole
      items in the order they were offered. */
  lemma {:induction false} StreamKeepsWholeItems(content: string, xs: seq<Item>) returns (taken: seq<bool>)
    requires |content| < SMALL_BUFFER
    requires forall n :: 0 <= n < |xs| ==> IsItem(xs[n])
    ensures |taken| == |xs|
    ensures PutAll(content, xs) == content + Picked(xs, taken)
    ensures |PutAll(content, xs)| < SMALL_BUFFER
    decreases |xs|
  {
    if xs == [] {
      taken := [];
    } else {
      PutWhole(content, xs[0]);
      hide Put, ItemText, Picked;
      var rest := StreamKeepsWholeItems(Put(content, xs[0]), xs[1..]);
      var whole := Put(content, xs[0]) == content + ItemText(xs[0]);
      taken := [whole] + rest;
      var part := if whole then ItemText(xs[0]) else "";
      assert Put(content, xs[0]) == content + part;
      PickedCons(content, xs, whole, rest);
    }
  }

  /** The texts of all the items. */
  function Joined(xs: seq<Item>): string {
    if xs == [] then "" else ItemText(xs[0]) + Joined(xs[1..])
  }

  /** When an item is taken: a string, if it leaves one of the 4000 characters free; a number, if 32 are free. */
  lemma PutExactly(content: string, x: Item)
    ensures x.Str? ==> Put(content, x) == if |content| + |x.text| < 4000 then content + x.text else content
    ensures x.Num? ==> Put(content, x) == if |content| + 32 <= 4000 then content + TextOf(x.value) else content
    ensures x.Real? ==> Put(content, x) == if |content| + 32 <= 4000 then content + x.digits else content
  {
    hide TextOf;
  }

  lemma PutFits(content: string, x: Item)
    requires |content| + |ItemText(x)| + MAX_NUMERIC_SIZE <= SMALL_BUFFER
    ensures Put(content, x) == content + ItemText(x)
  {
    hide TextOf;
  }

  /** A chain that fits with the formatter's reserve to spare is kept complete. */
  lemma {:induction false} StreamKeepsWhatFits(content: string, xs: seq<Item>)
    requires |content| + |Joined(xs)| + MAX_NUMERIC_SIZE <= SMALL_BUFFER
    ensures PutAll(content, xs) == content + Joined(xs)
    decreases |xs|
  {
    hide Put, ItemText;
    if xs != [] {
      var next := content + ItemText(xs[0]);
      PutFits(content, xs[0]);
      StreamKeepsWhatFits(next, xs[1..]);
      assert content + (ItemText(xs[0]) + Joined(xs[1..])) == next + Joined(xs[1..]);
    }
  }
}
