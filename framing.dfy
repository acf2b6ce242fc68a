/** The response as written to the connection: the status line, five header
  * lines in a fixed order, a blank line and the body, with `Content-Length`
  * the number of bytes of the body's UTF-8 encoding. */
module Framing {
  import opened Wrappers
  import opened JavaStrings
  import opened JavaIntegers
  import opened Utf8
  import opened RequestReader

  const StatusLine: string := "HTTP/1.1 200 OK"
  const ServerLine: string := "Server: Custom Server"
  const ConnectionLine: string := "Connection: close"
  const Crlf: string := "\r\n"

  /** The media type named in `Content-Type`. */
  function MediaTypeName(json: bool): string
  {
    if json then "application/json" else "text/html"
  }

  function ContentTypeLine(json: bool): string
  {
    "Content-Type: " + MediaTypeName(json) + "; charset=UTF-8"
  }

  function ContentLengthLine(n: nat): string
  {
    "Content-Length: " + NatToString(n)
  }

  /** The header lines after the status line, without their CRLF, for a body of
    * `n` bytes. */
  function HeaderLines(date: string, json: bool, n: nat): seq<string>
  {
    ["Date: " + date, ServerLine, ContentTypeLine(json), ContentLengthLine(n), ConnectionLine]
  }

  /** The eight `out.write` calls, in order. */
  function Writes(date: string, json: bool, body: string): (w: seq<string>)
    ensures |w| == 8
  {
    [ StatusLine + Crlf,
      "Date: " + date + Crlf,
      ServerLine + Crlf,
      ContentTypeLine(json) + Crlf,
      ContentLengthLine(|Encode(body)|) + Crlf,
      ConnectionLine + Crlf,
      Crlf,
      body ]
  }

  /** What the connection carries: the writes one after another. */
  function Concat(ws: seq<string>): string
  {
    if ws == [] then "" else ws[0] + Concat(ws[1..])
  }

  lemma {:induction false} ConcatLines(ls: seq<string>, ws: seq<string>, tail: seq<string>)
    requires |ws| == |ls| && forall k :: 0 <= k < |ls| ==> ws[k] == ls[k] + Crlf
    ensures Concat(ws + tail) == Terminated(ls, Crlf) + Concat(tail)
  {
    if ls != [] {
      assert (ws + tail)[1..] == ws[1..] + tail;
      ConcatLines(ls[1..], ws[1..], tail);
    } else {
      assert ws + tail == tail;
    }
  }

  /** The response is the status line, the header lines each ended by CRLF,
    * a blank line and the body. */
  lemma WireFormat(date: string, json: bool, body: string)
    ensures Concat(Writes(date, json, body))
      == StatusLine + Crlf + Terminated(HeaderLines(date, json, |Encode(body)|), Crlf) + Crlf + body
  {
    var w := Writes(date, json, body);
    var hs := HeaderLines(date, json, |Encode(body)|);
    assert forall k :: 0 <= k < 5 ==> w[k + 1] == hs[k] + Crlf;
    ConcatOfWrites(w, hs);
  }

  /** Eight writes: a first line, five header lines each ended by CRLF, the
    * blank line and the body. */
  lemma ConcatOfWrites(w: seq<string>, hs: seq<string>)
    requires |w| == 8 && |hs| == 5 && w[6] == Crlf
    requires forall k :: 0 <= k < 5 ==> w[k + 1] == hs[k] + Crlf
    ensures Concat(w) == w[0] + Terminated(hs, Crlf) + Crlf + w[7]
  {
    var tail := w[6..];
    assert Concat(tail) == Crlf + w[7] by {
      assert tail == [Crlf, w[7]];
      assert tail[1..] == [w[7]];
      assert [w[7]][1..] == [];
      assert Concat([w[7]]) == w[7] + "";
    }
    assert w[1..] == w[1..6] + tail;
    ConcatLines(hs, w[1..6], tail);
    assert Concat(w) == w[0] + Concat(w[1..]);
  }

  /** `Content-Type` names JSON exactly on the JSON branch. */
  lemma ContentTypeIsBranch(date: string, json: bool, body: string)
    ensures Writes(date, json, body)[3] == "Content-Type: " + "application/json" + "; charset=UTF-8" + Crlf <==> json
    ensures Writes(date, json, body)[3] == "Content-Type: " + "text/html" + "; charset=UTF-8" + Crlf <==> !json
  {
  }

  /** The value of a `Content-Length` line written for `n` bytes. */
  lemma LengthLineValue(n: nat)
    requires n <= MaxInt
    ensures IsContentLengthLine(ContentLengthLine(n))
    ensures ContentLengthValue(ContentLengthLine(n)) == Some(n)
  {
    var digits := NatToString(n);
    DigitsOfNatToString(n);
    LengthLineOfDigits(digits);
    ParseIntNatToString(n);
  }

  /** A line whose lower-case char at `k` differs from `content-length:` at
    * `k` is not a Content-Length line. */
  lemma NotLengthLine(line: string, k: nat, c: char)
    requires k < 15 && k < |line| && ToLowerChar(line[k]) == c && c != "content-length:"[k]
    ensures !IsContentLengthLine(line)
  {
    assert ToLower(line)[k] == c;
  }

  /** The server's own header reader finds `Content-Length` in a response
    * header block only on the line that carries it. */
  lemma ResponseContentLength(date: string, json: bool, n: nat)
    requires n <= MaxInt
    ensures ContentLength(HeaderLines(date, json, n)) == Some(n)
  {
    var hs := HeaderLines(date, json, n);
    NotLengthLine(hs[0], 0, 'd');
    NotLengthLine(hs[1], 0, 's');
    NotLengthLine(hs[2], 8, 't');
    NotLengthLine(hs[4], 3, 'n');
    LengthLineValue(n);
    AllOfFive(hs, LineParses);
    ContentLengthDefined(hs);
    ContentLengthLast(hs, 3);
  }

  lemma AllOfFive(hs: seq<string>, p: string -> bool)
    requires |hs| == 5 && p(hs[0]) && p(hs[1]) && p(hs[2]) && p(hs[3]) && p(hs[4])
    ensures forall j :: 0 <= j < |hs| ==> p(hs[j])
  {
  }

  /** Every response header line is a non-empty line without CR or LF. */
  lemma HeaderLinesAreLines(date: string, json: bool, n: nat)
    requires IsLine(date)
    ensures var hs := HeaderLines(date, json, n);
      forall k :: 0 <= k < |hs| ==> hs[k] != "" && IsLine(hs[k])
  {
    var hs := HeaderLines(date, json, n);
    FixedLinesAreLines(date, json);
    LengthLineIsLine(n);
    AllOfFive(hs, l => l != "" && IsLine(l));
  }

  lemma FixedLinesAreLines(date: string, json: bool)
    requires IsLine(date)
    ensures IsLine("Date: " + date) && IsLine(ServerLine) && IsLine(ContentTypeLine(json)) && IsLine(ConnectionLine)
  {
    PrefixedLine("Date: ", date);
    ServerLineIsLine();
    ConnectionLineIsLine();
    TypeNameIsLine(json);
    PrefixedLine("Content-Type: ", MediaTypeName(json));
    CharsetIsLine();
    PrefixedLine("Content-Type: " + MediaTypeName(json), "; charset=UTF-8");
  }

  lemma PrefixedLine(a: string, b: string)
    requires IsLine(a) && IsLine(b)
    ensures IsLine(a + b)
  {
  }

  lemma ServerLineIsLine()
    ensures IsLine(ServerLine)
  {
  }

  lemma ConnectionLineIsLine()
    ensures IsLine(ConnectionLine)
  {
  }

  lemma TypeNameIsLine(json: bool)
    ensures IsLine("Date: ") && IsLine("Content-Type: ") && IsLine(MediaTypeName(json))
  {
  }

  lemma CharsetIsLine()
    ensures IsLine("; charset=UTF-8")
  {
  }

  lemma LengthLineIsLine(n: nat)
    ensures IsLine(ContentLengthLine(n))
  {
    var digits := NatToString(n);
    assert forall i :: 0 <= i < |digits| ==> IsAsciiDigit(digits[i]);
  }

  /** Read back with the server's own line reader, a response gives the
    * status line, the five header lines, `Content-Length` equal to the UTF-8
    * byte count of the body, and the body after the blank line. */
  lemma ResponseReadsBack(date: string, json: bool, body: string)
    requires IsLine(date)
    requires |Encode(body)| <= MaxInt
    ensures var n := |Encode(body)|;
      RequestHead(Concat(Writes(date, json, body)))
        == Some(Head(StatusLine, Terminated(HeaderLines(date, json, n), Crlf), n, body))
  {
    var n := |Encode(body)|;
    var hs := HeaderLines(date, json, n);
    WireFormat(date, json, body);
    StatusLineIsLine();
    HeaderLinesAreLines(date, json, n);
    ResponseContentLength(date, json, n);
    HeadOfMessage(StatusLine, hs, body);
  }

  lemma StatusLineIsLine()
    ensures IsLine(StatusLine)
  {
  }
}
