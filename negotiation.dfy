/** Content negotiation in `handleClient`: the first `Accept` header of the
  * header block picks the media type, cut before its first `,` and its first
  * `;`; JSON is produced only for `application/json`. */
module Negotiation {
  import opened Wrappers
  import opened JavaStrings

  const DefaultAccept: string := "text/html"
  const JsonType: string := "application/json"

  /** `line.toLowerCase(Locale.ROOT).startsWith("accept:")`. */
  predicate IsAcceptLine(line: string)
  {
    StartsWith(ToLower(line), "accept:")
  }

  /** `line.substring(7).trim().toLowerCase(Locale.ROOT)`. */
  function AcceptValue(line: string): (v: string)
    requires |line| >= 7
    ensures LowerCase(v)
  {
    ToLower(Trim(line[7..]))
  }

  /** `v.split(",")[0].split(";")[0].trim()`; `None` where an index `[0]` is
    * out of bounds because `split` returned an empty array. */
  function MediaType(v: string): Option<string>
  {
    var types := Split(v, ",");
    if types == [] then None
    else
      var parts := Split(types[0], ";");
      if parts == [] then None else Some(Trim(parts[0]))
  }

  /** The value of `accept` after the loop over the header lines, `None` when
    * the loop throws. */
  function AcceptOf(lines: seq<string>): Option<string>
  {
    if lines == [] then Some(DefaultAccept)
    else if IsAcceptLine(lines[0]) then MediaType(AcceptValue(lines[0]))
    else AcceptOf(lines[1..])
  }

  /** The Accept loop: it stops at the first Accept line. */
  method SelectAccept(header: string) returns (r: Option<string>)
    ensures r == AcceptOf(Split(header, "\r\n"))
  {
    var lines := Split(header, "\r\n");
    var accept := DefaultAccept;
    for i := 0 to |lines|
      invariant AcceptOf(lines) == AcceptOf(lines[i..])
      invariant accept == DefaultAccept
    {
      var line := lines[i];
      assert lines[i..] == [line] + lines[i + 1..];
      if StartsWith(ToLower(line), "accept:") {
        var v := ToLower(Trim(line[7..]));
        var types := Split(v, ",");
        if types == [] {
          return None;
        }
        var parts := Split(types[0], ";");
        if parts == [] {
          return None;
        }
        accept := Trim(parts[0]);
        assert AcceptOf(lines) == Some(accept);
        break;
      }
    }
    return Some(accept);
  }

  /** Only the first Accept line counts. */
  lemma {:induction false} AcceptFirst(lines: seq<string>, i: nat)
    requires i < |lines| && IsAcceptLine(lines[i])
    requires forall j :: 0 <= j < i ==> !IsAcceptLine(lines[j])
    ensures AcceptOf(lines) == MediaType(AcceptValue(lines[i]))
  {
    if i > 0 {
      assert forall j :: 0 <= j < i - 1 ==> lines[1..][j] == lines[j + 1];
      AcceptFirst(lines[1..], i - 1);
    }
  }

  /** Without an Accept line the type stays `text/html`. */
  lemma {:induction false} AcceptAbsent(lines: seq<string>)
    requires forall j :: 0 <= j < |lines| ==> !IsAcceptLine(lines[j])
    ensures AcceptOf(lines) == Some(DefaultAccept)
  {
    if lines != [] {
      assert forall j :: 0 <= j < |lines| - 1 ==> lines[1..][j] == lines[j + 1];
      AcceptAbsent(lines[1..]);
    }
  }

  /** Splitting the header block on CRLF gives back the header lines, so the
    * loop sees exactly the lines that were read. */
  lemma AcceptOfHeaderBlock(hs: seq<string>)
    requires forall k :: 0 <= k < |hs| ==> hs[k] != "" && '\r' !in hs[k]
    ensures AcceptOf(Split(Terminated(hs, "\r\n"), "\r\n")) == AcceptOf(hs)
  {
    SplitTerminated(hs, "\r\n");
    if hs == [] {
      assert !IsAcceptLine("");
      assert [""][1..] == [];
    }
  }

  /** `s` is not empty and holds nothing but `c`. */
  predicate OnlyOf(s: string, c: char)
  {
    s != [] && forall i :: 0 <= i < |s| ==> s[i] == c
  }

  lemma SplitHead(s: string, c: char)
    ensures Split(s, [c]) == [] <==> OnlyOf(s, c)
    ensures !OnlyOf(s, c) ==> Split(s, [c])[0] == Before(s, c)
  {
    if OnlyOf(s, c) {
      SplitOnlyDelimiters(s, c);
    } else {
      SplitFirst(s, c);
    }
  }

  /** The media type is the value cut before its first `,` and then before
    * its first `;`, trimmed; there is none (the handler throws) when the value
    * is only commas or its first entry only semicolons. */
  lemma MediaTypeCut(v: string)
    ensures MediaType(v).None? <==> OnlyOf(v, ',') || OnlyOf(Before(v, ','), ';')
    ensures MediaType(v).Some? ==> MediaType(v).value == Trim(Before(Before(v, ','), ';'))
  {
    SplitHead(v, ',');
    if !OnlyOf(v, ',') {
      SplitHead(Before(v, ','), ';');
    }
  }

  /** No upper-case ASCII letter in `s`. */
  predicate LowerCase(s: string)
  {
    forall i :: 0 <= i < |s| ==> !IsAsciiUpper(s[i])
  }

  lemma LowerCaseBefore(s: string, c: char)
    requires LowerCase(s)
    ensures LowerCase(Before(s, c))
  {
    var b := Before(s, c);
    assert b <= s;
    assert forall i :: 0 <= i < |b| ==> b[i] == s[i];
  }

  lemma LowerCaseTrim(s: string)
    requires LowerCase(s)
    ensures LowerCase(Trim(s))
  {
    var t := Trim(s);
    var k := TrimStartIndex(s);
    assert forall i :: 0 <= i < |t| ==> t[i] == s[k + i];
  }

  /** Cutting and trimming a lower-case value leaves it lower case. */
  lemma MediaTypeLower(v: string)
    requires LowerCase(v)
    ensures MediaType(v).Some? ==> LowerCase(MediaType(v).value)
  {
    MediaTypeCut(v);
    LowerCaseBefore(v, ',');
    LowerCaseBefore(Before(v, ','), ';');
    LowerCaseTrim(Before(Before(v, ','), ';'));
  }

  /** `"application/json".equalsIgnoreCase(accept)`. */
  predicate WantsJson(accept: string)
  {
    EqualsIgnoreCase(JsonType, accept)
  }

  /** The chosen type is lower case, so JSON is chosen exactly when it is
    * `application/json`. */
  lemma {:induction false} WantsJsonExactly(lines: seq<string>)
    requires AcceptOf(lines).Some?
    ensures WantsJson(AcceptOf(lines).value) <==> AcceptOf(lines).value == JsonType
  {
    var a := AcceptOf(lines).value;
    EqualsIgnoreCaseLower(JsonType, a);
    if lines != [] {
      if IsAcceptLine(lines[0]) {
        MediaTypeLower(AcceptValue(lines[0]));
        assert ToLower(a) == a;
      } else {
        WantsJsonExactly(lines[1..]);
      }
    } else {
      assert ToLower(a) == a;
    }
  }
}
