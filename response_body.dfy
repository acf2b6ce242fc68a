/** The final response body: on the HTML branch a fixed page with three slots
  * (the escaped request message, the label of the chosen format and the
  * escaped payload), trimmed; on the JSON branch the trimmed payload. */
module ResponseBody {
  import opened JavaStrings
  import opened HtmlEscape

  /** The page template (a text block, so every line ends with `\n`), cut at
    * its placeholders `{0}`, `{1}` and `{2}`. */
  const PageHead: string :=
    "<!doctype html>\n"
    + "<html>\n"
    + "  <head>\n"
    + "    <meta charset=\"UTF-8\">\n"
    + "    <title>TADS DSW</title>\n"
    + "  </head>\n"
    + "  <body>\n"
    + "    <h1>Exemplo Servidor Web Java</h1>\n"
    + "    <p>Teste altera\U{00E7}\U{00E3}o</p>\n"
    + "    <hr>\n"
    + "    <h2>Mensagem Request</h2>\n"
    + "    <pre>"
  const AfterRequest: string := "</pre>\n" + "    <h2>Mensagem no formato escolhido "
  const AfterFormat: string := "</h2>\n" + "    <pre>"
  const PageEnd: string := "</pre>\n" + "    <hr>\n" + "  </body>\n" + "</html>"

  /** The label shown for the chosen format. */
  const Formato: string := "HTML"

  /** `MessageFormat.format` of the template with three string arguments. The
    * template holds no `'` and no other braces, so each placeholder is replaced
    * by its argument verbatim. */
  function Format(a0: string, a1: string, a2: string): string
  {
    PageHead + a0 + AfterRequest + a1 + AfterFormat + a2 + PageEnd + "\n"
  }

  /** The HTML-branch body. */
  function Page(requestMessage: string, payload: string): string
  {
    Trim(Format(Escape(requestMessage), Formato, Escape(payload)))
  }

  /** The JSON-branch body: the payload without leading or trailing blanks. */
  function JsonBody(payload: string): string
  {
    Trim(payload)
  }

  /** Start of the escaped payload in the page. */
  function PayloadAt(requestMessage: string): nat
  {
    |PageHead| + |Escape(requestMessage)| + |AfterRequest| + |Formato| + |AfterFormat|
  }

  /** Trimming the formatted page removes its final line break and nothing
    * else: the page is the filled template without it. */
  lemma PageIsFormatWithoutFinalBreak(requestMessage: string, payload: string)
    ensures Page(requestMessage, payload)
      == PageHead + Escape(requestMessage) + AfterRequest + Formato + AfterFormat + Escape(payload) + PageEnd
  {
    var f := Format(Escape(requestMessage), Formato, Escape(payload));
    var s := PageHead + Escape(requestMessage) + AfterRequest + Formato + AfterFormat + Escape(payload) + PageEnd;
    assert f == s + "\n";
    assert s[0] == PageHead[0] == '<';
    assert s[|s| - 1] == PageEnd[|PageEnd| - 1] == '>';
    TrimTrailing(s, "\n");
  }

  /** The fixed parts of the template stay where they are in the page. */
  lemma PageFixedParts(requestMessage: string, payload: string)
    ensures var page := Page(requestMessage, payload);
      var e2 := Escape(payload);
      var p := PayloadAt(requestMessage);
      && |page| == p + |e2| + |PageEnd|
      && page[..|PageHead|] == PageHead
      && page[p + |e2|..] == PageEnd
  {
    PageIsFormatWithoutFinalBreak(requestMessage, payload);
    Slices(PageHead, Escape(requestMessage), AfterRequest, Formato, AfterFormat, Escape(payload), PageEnd);
  }

  /** The page keeps both escaped texts in their slots: decoding the entities
    * of the first slot gives the request message, of the last one the
    * payload. */
  lemma PageSlots(requestMessage: string, payload: string)
    ensures var page := Page(requestMessage, payload);
      var e0, e2 := Escape(requestMessage), Escape(payload);
      var p := PayloadAt(requestMessage);
      && p + |e2| <= |page|
      && page[|PageHead|..|PageHead| + |e0|] == e0
      && page[p..p + |e2|] == e2
      && Unescape(page[|PageHead|..|PageHead| + |e0|]) == requestMessage
      && Unescape(page[p..p + |e2|]) == payload
  {
    PageIsFormatWithoutFinalBreak(requestMessage, payload);
    Slices(PageHead, Escape(requestMessage), AfterRequest, Formato, AfterFormat, Escape(payload), PageEnd);
    UnescapeEscape(requestMessage);
    UnescapeEscape(payload);
  }

  /** The heading's `ç` sits at index 164 of the page head. */
  lemma PageHeadNotAscii()
    ensures |PageHead| > 164 && PageHead[164] as int >= 0x80
  {
  }

  /** The pieces of `h + a + m1 + f + m2 + b + t`, cut at their offsets. */
  lemma Slices(h: string, a: string, m1: string, f: string, m2: string, b: string, t: string)
    ensures var s := h + a + m1 + f + m2 + b + t;
      var p := |h| + |a| + |m1| + |f| + |m2|;
      && |s| == p + |b| + |t|
      && s[..|h|] == h && s[|h|..|h| + |a|] == a && s[|h| + |a|..p] == m1 + f + m2
      && s[p..p + |b|] == b && s[p + |b|..] == t
  {
    var s := h + a + m1 + f + m2 + b + t;
    var p := |h| + |a| + |m1| + |f| + |m2|;
    assert s == h + a + (m1 + f + m2) + b + t;
  }
}
