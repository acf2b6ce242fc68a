/** The escape applied to the echoed request and to the payload before they
  * are placed in the page: five `replace` calls, `&` first, then `<`, `>`,
  * `"` and `'`. */
module HtmlEscape {
  import opened JavaStrings

  /** The entity that stands for `c`, or `c` itself. */
  function EscapeChar(c: char): string
  {
    if c == '&' then "&amp;"
    else if c == '<' then "&lt;"
    else if c == '>' then "&gt;"
    else if c == '"' then "&quot;"
    else if c == '\'' then "&#39;"
    else [c]
  }

  /** The replace chain as the server writes it. */
  function Escape(s: string): (r: string)
    ensures '<' !in r && '>' !in r && '"' !in r && '\'' !in r
  {
    var s1 := ReplaceAll(s, '&', "&amp;");
    var s2 := ReplaceAll(s1, '<', "&lt;");
    var s3 := ReplaceAll(s2, '>', "&gt;");
    var s4 := ReplaceAll(s3, '"', "&quot;");
    ReplaceAll(s4, '\'', "&#39;")
  }

  /** The reference escape: every char replaced by its entity in one pass. */
  function EscapeEach(s: string): string
  {
    if s == [] then "" else EscapeChar(s[0]) + EscapeEach(s[1..])
  }

  lemma EscapeAppend(a: string, b: string)
    ensures Escape(a + b) == Escape(a) + Escape(b)
  {
    ReplaceAllAppend(a, b, '&', "&amp;");
    var a1, b1 := ReplaceAll(a, '&', "&amp;"), ReplaceAll(b, '&', "&amp;");
    ReplaceAllAppend(a1, b1, '<', "&lt;");
    var a2, b2 := ReplaceAll(a1, '<', "&lt;"), ReplaceAll(b1, '<', "&lt;");
    ReplaceAllAppend(a2, b2, '>', "&gt;");
    var a3, b3 := ReplaceAll(a2, '>', "&gt;"), ReplaceAll(b2, '>', "&gt;");
    ReplaceAllAppend(a3, b3, '"', "&quot;");
    var a4, b4 := ReplaceAll(a3, '"', "&quot;"), ReplaceAll(b3, '"', "&quot;");
    ReplaceAllAppend(a4, b4, '\'', "&#39;");
  }

  lemma ReplaceAllAbsent(s: string, c: char, rep: string)
    requires c !in s
    ensures ReplaceAll(s, c, rep) == s
  {
  }

  lemma ReplaceAllOne(c: char, d: char, rep: string)
    ensures ReplaceAll([c], d, rep) == if c == d then rep else [c]
  {
    assert [c][1..] == [];
  }

  lemma EscapeOne(c: char)
    ensures Escape([c]) == EscapeChar(c)
  {
    if c == '&' {
      EscapeAmp();
    } else if c == '<' {
      EscapeLt();
    } else if c == '>' {
      EscapeGt();
    } else if c == '"' {
      EscapeQuot();
    } else if c == '\'' {
      EscapeApos();
    } else {
      ReplaceAllOne(c, '&', "&amp;");
      ReplaceAllOne(c, '<', "&lt;");
      ReplaceAllOne(c, '>', "&gt;");
      ReplaceAllOne(c, '"', "&quot;");
      ReplaceAllOne(c, '\'', "&#39;");
    }
  }

  lemma EscapeAmp()
    ensures Escape("&") == EscapeChar('&')
  {
    ReplaceAllOne('&', '&', "&amp;");
    LaterStepsKeep("&amp;");
  }

  /** The four replacements after the first leave a text without `<`, `>`,
    * `"` and `'` unchanged. */
  lemma LaterStepsKeep(e: string)
    requires '<' !in e && '>' !in e && '"' !in e && '\'' !in e
    ensures ReplaceAll(ReplaceAll(ReplaceAll(ReplaceAll(e, '<', "&lt;"), '>', "&gt;"), '"', "&quot;"), '\'', "&#39;") == e
  {
    ReplaceAllAbsent(e, '<', "&lt;");
    ReplaceAllAbsent(e, '>', "&gt;");
    ReplaceAllAbsent(e, '"', "&quot;");
    ReplaceAllAbsent(e, '\'', "&#39;");
  }

  lemma EscapeLt()
    ensures Escape("<") == EscapeChar('<')
  {
    ReplaceAllOne('<', '&', "&amp;");
    ReplaceAllOne('<', '<', "&lt;");
    LtEntityPlain();
    LastStepsKeep("&lt;");
  }

  lemma LtEntityPlain()
    ensures '>' !in "&lt;" && '"' !in "&lt;" && '\'' !in "&lt;"
  {
  }

  /** The last three replacements leave a text without `>`, `"` and `'`
    * unchanged. */
  lemma LastStepsKeep(e: string)
    requires '>' !in e && '"' !in e && '\'' !in e
    ensures ReplaceAll(ReplaceAll(ReplaceAll(e, '>', "&gt;"), '"', "&quot;"), '\'', "&#39;") == e
  {
    ReplaceAllAbsent(e, '>', "&gt;");
    ReplaceAllAbsent(e, '"', "&quot;");
    ReplaceAllAbsent(e, '\'', "&#39;");
  }

  lemma EscapeGt()
    ensures Escape(">") == EscapeChar('>')
  {
    assert ReplaceAll(">", '&', "&amp;") == ">" by { ReplaceAllOne('>', '&', "&amp;"); }
    assert ReplaceAll(">", '<', "&lt;") == ">" by { ReplaceAllOne('>', '<', "&lt;"); }
    assert ReplaceAll(">", '>', "&gt;") == "&gt;" by { ReplaceAllOne('>', '>', "&gt;"); }
    assert ReplaceAll("&gt;", '"', "&quot;") == "&gt;" by { ReplaceAllAbsent("&gt;", '"', "&quot;"); }
    assert ReplaceAll("&gt;", '\'', "&#39;") == "&gt;" by { ReplaceAllAbsent("&gt;", '\'', "&#39;"); }
  }

  lemma EscapeQuot()
    ensures Escape("\"") == EscapeChar('"')
  {
    assert ReplaceAll("\"", '&', "&amp;") == "\"" by { ReplaceAllOne('"', '&', "&amp;"); }
    assert ReplaceAll("\"", '<', "&lt;") == "\"" by { ReplaceAllOne('"', '<', "&lt;"); }
    assert ReplaceAll("\"", '>', "&gt;") == "\"" by { ReplaceAllOne('"', '>', "&gt;"); }
    assert ReplaceAll("\"", '"', "&quot;") == "&quot;" by { ReplaceAllOne('"', '"', "&quot;"); }
    assert ReplaceAll("&quot;", '\'', "&#39;") == "&quot;" by { ReplaceAllAbsent("&quot;", '\'', "&#39;"); }
  }

  lemma EscapeApos()
    ensures Escape("'") == EscapeChar('\'')
  {
    assert ReplaceAll("'", '&', "&amp;") == "'" by { ReplaceAllOne('\'', '&', "&amp;"); }
    assert ReplaceAll("'", '<', "&lt;") == "'" by { ReplaceAllOne('\'', '<', "&lt;"); }
    assert ReplaceAll("'", '>', "&gt;") == "'" by { ReplaceAllOne('\'', '>', "&gt;"); }
    assert ReplaceAll("'", '"', "&quot;") == "'" by { ReplaceAllOne('\'', '"', "&quot;"); }
    assert ReplaceAll("'", '\'', "&#39;") == "&#39;" by { ReplaceAllOne('\'', '\'', "&#39;"); }
  }

  /** The chain of replacements, `&` first, is the one-pass escape. */
  lemma {:induction false} EscapeIsEscapeEach(s: string)
    ensures Escape(s) == EscapeEach(s)
  {
    if s != [] {
      assert s == [s[0]] + s[1..];
      EscapeAppend([s[0]], s[1..]);
      EscapeOne(s[0]);
      EscapeIsEscapeEach(s[1..]);
    }
  }

  /** `t` starts with one of the five entities. */
  predicate BeginsEntity(t: string)
  {
    "&amp;" <= t || "&lt;" <= t || "&gt;" <= t || "&quot;" <= t || "&#39;" <= t
  }

  /** Every `&` of the escaped text begins an entity. */
  lemma {:induction false} EscapeEachAmpersands(s: string)
    ensures forall i :: 0 <= i < |EscapeEach(s)| && EscapeEach(s)[i] == '&' ==> BeginsEntity(EscapeEach(s)[i..])
  {
    if s != [] {
      var e := EscapeChar(s[0]);
      var t := EscapeEach(s[1..]);
      var r := e + t;
      EscapeEachAmpersands(s[1..]);
      forall i | 0 <= i < |r| && r[i] == '&'
        ensures BeginsEntity(r[i..])
      {
        if i < |e| {
          assert e[i] == '&';
          assert i == 0;
          assert e <= r;
        } else {
          assert r[i..] == t[i - |e|..];
        }
      }
    }
  }

  lemma EscapeAmpersands(s: string)
    ensures forall i :: 0 <= i < |Escape(s)| && Escape(s)[i] == '&' ==> BeginsEntity(Escape(s)[i..])
  {
    EscapeIsEscapeEach(s);
    EscapeEachAmpersands(s);
  }

  /** Entity decoding: each of the five entities back to its char. */
  function Unescape(s: string): string
  {
    if s == [] then ""
    else if "&amp;" <= s then "&" + Unescape(s[5..])
    else if "&lt;" <= s then "<" + Unescape(s[4..])
    else if "&gt;" <= s then ">" + Unescape(s[4..])
    else if "&quot;" <= s then "\"" + Unescape(s[6..])
    else if "&#39;" <= s then "'" + Unescape(s[5..])
    else [s[0]] + Unescape(s[1..])
  }

  lemma UnescapeOne(c: char, rest: string)
    ensures Unescape(EscapeChar(c) + rest) == [c] + Unescape(rest)
  {
    if c == '&' {
      UnescapeAmp(rest);
    } else if c == '<' || c == '>' {
      UnescapeAngle(c, rest);
    } else if c == '"' {
      UnescapeQuot(rest);
    } else if c == '\'' {
      UnescapeApos(rest);
    } else {
      UnescapePlain(c, rest);
    }
  }

  lemma UnescapeAmp(rest: string)
    ensures Unescape("&amp;" + rest) == "&" + Unescape(rest)
  {
    var s := "&amp;" + rest;
    assert "&amp;" <= s;
    assert s[5..] == rest;
  }

  /** `&lt;` and `&gt;`, which share their length and differ in their second
    * char. */
  lemma UnescapeAngle(c: char, rest: string)
    requires c == '<' || c == '>'
    ensures Unescape(EscapeChar(c) + rest) == [c] + Unescape(rest)
  {
    var s := EscapeChar(c) + rest;
    assert s[1] == if c == '<' then 'l' else 'g';
    assert EscapeChar(c) <= s;
    assert s[4..] == rest;
  }

  lemma UnescapeQuot(rest: string)
    ensures Unescape("&quot;" + rest) == "\"" + Unescape(rest)
  {
    var s := "&quot;" + rest;
    assert s[1] == 'q';
    assert "&quot;" <= s;
    assert s[6..] == rest;
  }

  lemma UnescapeApos(rest: string)
    ensures Unescape("&#39;" + rest) == "'" + Unescape(rest)
  {
    var s := "&#39;" + rest;
    assert s[1] == '#';
    assert "&#39;" <= s;
    assert s[5..] == rest;
  }

  lemma UnescapePlain(c: char, rest: string)
    requires c != '&'
    ensures Unescape([c] + rest) == [c] + Unescape(rest)
  {
    var s := [c] + rest;
    assert s[0] == c;
    assert s[1..] == rest;
  }

  lemma {:induction false} UnescapeEscapeEach(s: string)
    ensures Unescape(EscapeEach(s)) == s
  {
    if s != [] {
      UnescapeOne(s[0], EscapeEach(s[1..]));
      UnescapeEscapeEach(s[1..]);
      assert s == [s[0]] + s[1..];
    }
  }

  /** Decoding the entities gives back the text that was escaped. */
  lemma UnescapeEscape(s: string)
    ensures Unescape(Escape(s)) == s
  {
    EscapeIsEscapeEach(s);
    UnescapeEscapeEach(s);
  }
}
