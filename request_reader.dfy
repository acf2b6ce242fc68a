/** The reading half of `handleClient`: the request line, the header block up
  * to the first empty line, `Content-Length`, the body and the echoed request
  * message. The connection's input is the string of chars the UTF-8 reader
  * delivers; `ReadLine` is `BufferedReader.readLine` on it. */
module RequestReader {
  import opened Wrappers
  import opened JavaStrings
  import opened JavaIntegers

  /** A string that `readLine` can return: no line feed, no carriage return. */
  predicate IsLine(s: string)
  {
    '\n' !in s && '\r' !in s
  }

  function LineBreakIndex(s: string): (i: nat)
    ensures i <= |s|
    ensures IsLine(s[..i])
    ensures i < |s| ==> s[i] == '\n' || s[i] == '\r'
  {
    if s == [] || s[0] == '\n' || s[0] == '\r' then 0
    else
      var k := LineBreakIndex(s[1..]);
      assert s[..k + 1] == [s[0]] + s[1..][..k];
      k + 1
  }

  /** `readLine`: `None` at the end of the stream, otherwise the chars up to
    * the next `\n`, `\r` or `\r\n` (or to the end) and what follows. */
  function ReadLine(s: string): (r: Option<(string, string)>)
    ensures r.None? <==> s == []
    ensures r.Some? ==> IsLine(r.value.0) && |r.value.1| < |s|
  {
    if s == [] then None
    else
      var i := LineBreakIndex(s);
      if i == |s| then Some((s, ""))
      else if s[i] == '\r' && i + 1 < |s| && s[i + 1] == '\n' then Some((s[..i], s[i + 2..]))
      else Some((s[..i], s[i + 1..]))
  }

  /** A line is taken off the stream together with its terminator: `\n`,
    * `\r\n`, a `\r` not followed by `\n`, or the end of the stream. */
  lemma ReadLineTerminators(s: string)
    requires s != []
    ensures var (line, rest) := ReadLine(s).value;
      || (s == line && rest == [])
      || s == line + "\n" + rest
      || s == line + "\r\n" + rest
      || (s == line + "\r" + rest && (rest == [] || rest[0] != '\n'))
  {
    var i := LineBreakIndex(s);
    if i < |s| {
      if s[i] == '\r' && i + 1 < |s| && s[i + 1] == '\n' {
        assert s == s[..i] + "\r\n" + s[i + 2..];
      } else {
        assert s == s[..i] + [s[i]] + s[i + 1..];
      }
    }
  }

  lemma {:induction false} LineBreakAfter(line: string, rest: string)
    requires IsLine(line) && rest != [] && (rest[0] == '\n' || rest[0] == '\r')
    ensures LineBreakIndex(line + rest) == |line|
  {
    if line != [] {
      assert (line + rest)[1..] == line[1..] + rest;
      LineBreakAfter(line[1..], rest);
    }
  }

  /** A line followed by CRLF is read back as that line. */
  lemma ReadLineCrlf(line: string, rest: string)
    requires IsLine(line)
    ensures ReadLine(line + "\r\n" + rest) == Some((line, rest))
  {
    var s := line + "\r\n" + rest;
    assert s == line + ("\r\n" + rest);
    LineBreakAfter(line, "\r\n" + rest);
    assert s[..|line|] == line;
    assert s[|line| + 2..] == rest;
  }

  /** The header lines: every line after the request line up to the first
    * empty line or the end of the stream, and what is left after them. */
  function ScanHeaders(s: string): (r: (seq<string>, string))
    ensures forall k :: 0 <= k < |r.0| ==> r.0[k] != "" && IsLine(r.0[k])
    ensures |r.1| <= |s|
    decreases |s|
  {
    match ReadLine(s)
    case None => ([], s)
    case Some((line, rest)) =>
      if line == "" then ([], rest)
      else
        var (hs, after) := ScanHeaders(rest);
        ([line] + hs, after)
  }

  /** A line is a Content-Length header when its lower-case form starts with
    * `content-length:`. */
  predicate IsContentLengthLine(line: string)
  {
    StartsWith(ToLower(line), "content-length:")
  }

  /** `Integer.parseInt(line.split(":", 2)[1].trim())`. */
  function ContentLengthValue(line: string): Option<int>
  {
    ParseInt(Trim(SplitAtFirst(line, ':').1))
  }

  /** The `contentLength` variable after the loop has seen the header lines
    * `hs`: the value of the last Content-Length line, 0 when there is none,
    * `None` for the `NumberFormatException` of a malformed one. */
  function ContentLength(hs: seq<string>): Option<int>
  {
    if hs == [] then Some(0)
    else
      match ContentLength(hs[..|hs| - 1])
      case None => None
      case Some(n) =>
        var line := hs[|hs| - 1];
        if IsContentLengthLine(line) then ContentLengthValue(line) else Some(n)
  }

  /** What the read loop leaves behind: the request line, the header block,
    * `contentLength`, and the rest of the stream from which the body is read. */
  datatype Head = Head(requestLine: string, header: string, contentLength: int, rest: string)

  /** The outcome of the read loop, `None` when `Integer.parseInt` throws. */
  function RequestHead(stream: string): Option<Head>
  {
    match ReadLine(stream)
    case None => Some(Head("", "", 0, stream))
    case Some((requestLine, rest)) =>
      var (hs, after) := ScanHeaders(rest);
      match ContentLength(hs)
      case None => None
      case Some(n) => Some(Head(requestLine, Terminated(hs, "\r\n"), n, after))
  }

  /** The read loop of `handleClient`. */
  method ReadHead(stream: string) returns (r: Option<Head>)
    ensures r == RequestHead(stream)
  {
    var requestLine := "";
    var header := "";
    var collectingRequestLine := true;
    var contentLength := 0;
    var rest := stream;
    ghost var lines: seq<string> := [];
    while true
      invariant collectingRequestLine ==> rest == stream && requestLine == "" && lines == []
      invariant !collectingRequestLine ==> ReadLine(stream).Some? && ReadLine(stream).value.0 == requestLine
      invariant !collectingRequestLine ==> ScanHeaders(ReadLine(stream).value.1) == (lines + ScanHeaders(rest).0, ScanHeaders(rest).1)
      invariant header == Terminated(lines, "\r\n")
      invariant ContentLength(lines) == Some(contentLength)
      decreases |rest|
    {
      var next := ReadLine(rest);
      if next.None? {
        assert ScanHeaders(rest) == ([], rest);
        assert lines + [] == lines;
        break;
      }
      var line := next.value.0;
      var after := next.value.1;
      if collectingRequestLine {
        requestLine := line;
        collectingRequestLine := false;
        rest := after;
        assert lines + ScanHeaders(rest).0 == ScanHeaders(rest).0;
        continue;
      }
      if line == "" {
        assert ScanHeaders(rest) == ([], after);
        assert lines + [] == lines;
        rest := after;
        break;
      }
      assert ScanHeaders(rest) == ([line] + ScanHeaders(after).0, ScanHeaders(after).1);
      ghost var more := lines + [line];
      assert lines + ScanHeaders(rest).0 == more + ScanHeaders(after).0;
      assert more[..|more| - 1] == lines;
      TerminatedAppend(lines, line, "\r\n");
      header := header + line + "\r\n";
      lines := more;
      if StartsWith(ToLower(line), "content-length:") {
        var v := ParseInt(Trim(SplitAtFirst(line, ':').1));
        if v.None? {
          ghost var all := lines + ScanHeaders(after).0;
          assert all[..|lines|] == lines;
          ContentLengthNonePersists(all, |lines|);
          return None;
        }
        contentLength := v.value;
      }
      rest := after;
    }
    return Some(Head(requestLine, header, contentLength, rest));
  }

  lemma {:induction false} TerminatedAppend(ls: seq<string>, l: string, t: string)
    ensures Terminated(ls + [l], t) == Terminated(ls, t) + l + t
  {
    if ls != [] {
      assert (ls + [l])[1..] == ls[1..] + [l];
      TerminatedAppend(ls[1..], l, t);
    } else {
      assert ls + [l] == [l];
    }
  }

  /** A malformed Content-Length line aborts whatever follows it. */
  lemma {:induction false} ContentLengthNonePersists(hs: seq<string>, n: nat)
    requires n <= |hs| && ContentLength(hs[..n]).None?
    ensures ContentLength(hs).None?
    decreases |hs|
  {
    if n < |hs| {
      var init := hs[..|hs| - 1];
      assert init[..n] == hs[..n];
      ContentLengthNonePersists(init, n);
    } else {
      assert hs[..n] == hs;
    }
  }

  /** The Content-Length header of a line is the text after its first `:`,
    * which for such a line is everything after `content-length:`. */
  lemma ContentLengthAfterPrefix(line: string)
    requires IsContentLengthLine(line)
    ensures ContentLengthValue(line) == ParseInt(Trim(line[15..]))
  {
    var low := ToLower(line);
    assert low[..15] == "content-length:";
    assert line[14] == ':';
    assert ':' !in line[..14] by {
      forall i | 0 <= i < 14 ensures line[i] != ':' {
        assert low[i] != ':';
      }
    }
    assert line == line[..14] + [':'] + line[15..];
    var (before, after) := SplitAtFirst(line, ':');
    assert |before| == 14;
  }

  /** A `Content-Length` line whose value is a string of decimal digits, in
    * any script, has the value those digits spell. */
  lemma LengthLineOfDigits(digits: string)
    requires digits != [] && AllDigits(digits) && DigitsValue(digits) <= MaxInt
    ensures IsLine("Content-Length: " + digits)
    ensures IsContentLengthLine("Content-Length: " + digits)
    ensures ContentLengthValue("Content-Length: " + digits) == Some(DigitsValue(digits))
  {
    DigitsLine(digits);
    DigitsLengthLine(digits);
    ContentLengthAfterPrefix("Content-Length: " + digits);
    DigitsValueText(digits);
    ParseIntDigits(digits);
  }

  lemma DigitsLine(digits: string)
    requires AllDigits(digits)
    ensures IsLine("Content-Length: " + digits)
  {
    DigitsAboveBlank(digits);
  }

  lemma DigitsLengthLine(digits: string)
    ensures IsContentLengthLine("Content-Length: " + digits)
  {
    LengthNameLower();
    ToLowerAppend("Content-Length: ", digits);
    PrefixOfPrefix("content-length:", "content-length: ", ToLower(digits));
  }

  lemma DigitsValueText(digits: string)
    requires digits != [] && AllDigits(digits)
    ensures Trim(("Content-Length: " + digits)[15..]) == digits
  {
    DigitsAboveBlank(digits);
    LengthLineTail(digits);
    TrimLeading(' ', digits);
  }

  /** Digits are neither blanks nor line breaks. */
  lemma DigitsAboveBlank(digits: string)
    requires AllDigits(digits)
    ensures IsLine(digits) && forall i :: 0 <= i < |digits| ==> !IsTrimmable(digits[i])
  {
    assert forall i :: 0 <= i < |digits| ==> digits[i] >= '0';
  }

  lemma LengthLineTail(digits: string)
    ensures ("Content-Length: " + digits)[15..] == " " + digits
  {
  }

  lemma LengthNameLower()
    ensures ToLower("Content-Length: ") == "content-length: "
    ensures "content-length:" <= "content-length: "
  {
  }

  lemma PrefixOfPrefix(p: string, q: string, rest: string)
    requires p <= q
    ensures p <= q + rest
  {
    assert (q + rest)[..|q|] == q;
  }

  /** Without any Content-Length line, `contentLength` stays 0. */
  lemma {:induction false} ContentLengthAbsent(hs: seq<string>)
    requires forall j :: 0 <= j < |hs| ==> !IsContentLengthLine(hs[j])
    ensures ContentLength(hs) == Some(0)
  {
    if hs != [] {
      var init := hs[..|hs| - 1];
      assert forall j :: 0 <= j < |init| ==> init[j] == hs[j];
      ContentLengthAbsent(init);
    }
  }

  /** A line that is not a Content-Length line, or one whose value
    * `parseInt` accepts. */
  predicate LineParses(line: string)
  {
    IsContentLengthLine(line) ==> ContentLengthValue(line).Some?
  }

  /** Every Content-Length line among `hs` holds a number `parseInt` accepts. */
  predicate LengthsParse(hs: seq<string>)
  {
    forall j :: 0 <= j < |hs| ==> LineParses(hs[j])
  }

  /** Reading succeeds exactly when every Content-Length line is a number. */
  lemma {:induction false} ContentLengthDefined(hs: seq<string>)
    ensures ContentLength(hs).Some? <==> LengthsParse(hs)
  {
    if hs != [] {
      ContentLengthDefined(hs[..|hs| - 1]);
      LengthsParseSnoc(hs);
    }
  }

  lemma LengthsParseSnoc(hs: seq<string>)
    requires hs != []
    ensures LengthsParse(hs) <==> LengthsParse(hs[..|hs| - 1]) && LineParses(hs[|hs| - 1])
  {
    AllSnoc(hs, LineParses);
  }

  /** With several Content-Length lines, the last one wins. */
  lemma {:induction false} ContentLengthLast(hs: seq<string>, i: nat)
    requires ContentLength(hs).Some?
    requires i < |hs| && IsContentLengthLine(hs[i])
    requires forall j :: i < j < |hs| ==> !IsContentLengthLine(hs[j])
    ensures ContentLength(hs) == ContentLengthValue(hs[i])
  {
    var init := hs[..|hs| - 1];
    if i < |hs| - 1 {
      assert forall j :: 0 <= j < |init| ==> init[j] == hs[j];
      ContentLengthLast(init, i);
    }
  }

  /** The char at `i` of the body buffer: a char of the stream, or the NUL a
    * fresh `char[]` holds where the read delivered nothing. */
  function BodyChar(rest: string, i: nat): char
  {
    if i < |rest| then rest[i] else '\0'
  }

  /** `new String(bodyChars)` after `in.read(bodyChars, 0, contentLength)`:
    * exactly `contentLength` chars when it is positive, the empty string
    * otherwise. */
  function BodyOf(contentLength: int, rest: string): (body: string)
    ensures contentLength <= 0 ==> body == ""
    ensures contentLength > 0 ==> |body| == contentLength
    ensures forall i :: 0 <= i < |body| ==> body[i] == BodyChar(rest, i)
  {
    if contentLength <= 0 then "" else seq(contentLength, i requires 0 <= i => BodyChar(rest, i))
  }

  /** The body read: a zero-filled `char[]` into which the read copies the chars
    * the stream still holds, up to `contentLength` of them. */
  method ReadBody(contentLength: int, rest: string) returns (body: string)
    ensures body == BodyOf(contentLength, rest)
  {
    body := "";
    if contentLength > 0 {
      var bodyChars := new char[contentLength](_ => '\0');
      var got := if contentLength < |rest| then contentLength else |rest|;
      for i := 0 to got
        invariant forall j :: 0 <= j < i ==> bodyChars[j] == rest[j]
        invariant forall j :: i <= j < contentLength ==> bodyChars[j] == '\0'
      {
        bodyChars[i] := rest[i];
      }
      body := bodyChars[..];
    }
  }

  /** `requestLine + "\r\n" + header + "\r\n" + body`: the request as the page
    * echoes it. */
  function RequestMessage(requestLine: string, header: string, body: string): string
  {
    requestLine + "\r\n" + header + "\r\n" + body
  }

  lemma {:induction false} ScanTerminated(hs: seq<string>, body: string)
    requires forall k :: 0 <= k < |hs| ==> hs[k] != "" && IsLine(hs[k])
    ensures ScanHeaders(Terminated(hs, "\r\n") + "\r\n" + body) == (hs, body)
  {
    if hs == [] {
      ScanBlankLine(body);
    } else {
      var tail := Terminated(hs[1..], "\r\n") + "\r\n" + body;
      assert Terminated(hs, "\r\n") + "\r\n" + body == hs[0] + "\r\n" + tail;
      ScanHeaderLine(hs[0], tail);
      ScanTerminated(hs[1..], body);
      assert hs == [hs[0]] + hs[1..];
    }
  }

  /** A blank line ends the header block. */
  lemma ScanBlankLine(body: string)
    ensures ScanHeaders("\r\n" + body) == ([], body)
  {
    ReadLineCrlf("", body);
    assert "" + "\r\n" + body == "\r\n" + body;
  }

  /** A non-empty line is a header line, and scanning goes on after it. */
  lemma ScanHeaderLine(line: string, tail: string)
    requires line != "" && IsLine(line)
    ensures ScanHeaders(line + "\r\n" + tail) == ([line] + ScanHeaders(tail).0, ScanHeaders(tail).1)
  {
    ReadLineCrlf(line, tail);
  }

  /** A message with CRLF line ends and a blank line after the header lines
    * is read into its request line, its header block, the Content-Length of
    * its header lines and what follows the blank line. */
  lemma HeadOfMessage(requestLine: string, hs: seq<string>, body: string)
    requires IsLine(requestLine)
    requires forall k :: 0 <= k < |hs| ==> hs[k] != "" && IsLine(hs[k])
    requires ContentLength(hs).Some?
    ensures RequestHead(requestLine + "\r\n" + Terminated(hs, "\r\n") + "\r\n" + body)
      == Some(Head(requestLine, Terminated(hs, "\r\n"), ContentLength(hs).value, body))
  {
    var block := Terminated(hs, "\r\n");
    var stream := requestLine + "\r\n" + block + "\r\n" + body;
    ReadRequestLine(requestLine, block, body);
    ScanTerminated(hs, body);
    RequestHeadOfParts(stream, requestLine, block + "\r\n" + body, hs, body);
  }

  /** A well-formed request (CRLF line ends, an empty line after the headers,
    * a body exactly as long as its Content-Length) is read into its parts, and
    * the echoed request message is the request exactly as it arrived. */
  lemma EchoReproducesRequest(requestLine: string, hs: seq<string>, body: string)
    requires IsLine(requestLine)
    requires forall k :: 0 <= k < |hs| ==> hs[k] != "" && IsLine(hs[k])
    requires ContentLength(hs) == Some(|body|)
    ensures var stream := requestLine + "\r\n" + Terminated(hs, "\r\n") + "\r\n" + body;
      && RequestHead(stream) == Some(Head(requestLine, Terminated(hs, "\r\n"), |body|, body))
      && RequestMessage(requestLine, Terminated(hs, "\r\n"), BodyOf(|body|, body)) == stream
  {
    HeadOfMessage(requestLine, hs, body);
    BodyOfWholeRest(body);
  }

  lemma ReadRequestLine(requestLine: string, block: string, body: string)
    requires IsLine(requestLine)
    ensures ReadLine(requestLine + "\r\n" + block + "\r\n" + body) == Some((requestLine, block + "\r\n" + body))
  {
    var after := block + "\r\n" + body;
    assert requestLine + "\r\n" + block + "\r\n" + body == requestLine + "\r\n" + after;
    ReadLineCrlf(requestLine, after);
  }

  lemma RequestHeadOfParts(stream: string, requestLine: string, after: string, hs: seq<string>, rest: string)
    requires ReadLine(stream) == Some((requestLine, after))
    requires ScanHeaders(after) == (hs, rest)
    requires ContentLength(hs).Some?
    ensures RequestHead(stream) == Some(Head(requestLine, Terminated(hs, "\r\n"), ContentLength(hs).value, rest))
  {
  }

  /** A body as long as its Content-Length is read whole. */
  lemma BodyOfWholeRest(body: string)
    ensures BodyOf(|body|, body) == body
  {
  }
}
