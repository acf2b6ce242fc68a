# SimpleWebServer request pipeline in Dafny

A model of how `SimpleWebServer.handleClient` turns one connection's input
into its response, and of the HTML payload `HtmlResponse.gerarResposta`. The
input is the text that arrives on the connection, as a string of Unicode
scalar values. The output is the sequence of strings the handler writes. Each
stage runs in the server's order:

1. The read loop takes the request line, collects the header lines up to the
   first empty line, and reads `Content-Length` case-insensitively (the last
   such line wins).
2. The body is read as a NUL-padded `char[]` of that length.
3. The request message is echoed back.
4. The URL is the second space-separated word of the request line.
5. `parseQuery` fills a map pair by pair, with URL decoding.
6. The first `Accept` header picks the media type.
7. The payload is built: JSON through a renderer given as a parameter, or the
   HTML text of `gerarResposta`.
8. The response body is built: the trimmed JSON, or the trimmed HTML page
   around the escaped request and the escaped payload.
9. The response is framed: a status line, five header lines in a fixed order
   (`Content-Length` counts the UTF-8 bytes of the body), a blank line and the
   body.

Every uncaught exception, and the early return on an empty URL, closes the
connection without writing anything. The model returns each of these as a
value of `Handler.Abort`.

Modules:

- `JavaStrings`: `indexOf`, `split` (trailing empty strings dropped), `trim`,
  `toLowerCase`, `startsWith`, `equalsIgnoreCase` and `replace`, with Java's
  semantics.
- `JavaIntegers`: `Integer.parseInt` and decimal formatting. The digits are
  those of `Character.digit`: every decimal digit of the Basic Multilingual
  Plane, not just ASCII.
- `Utf8`: `getBytes(UTF_8)` and the decoding `URLDecoder` performs.
- `UrlDecoder`: `URLDecoder.decode`.
- `QueryParser`: `parseQuery`.
- `RequestReader`: the read loop, the body and the echo.
- `Negotiation`: the Accept loop.
- `HtmlResponse`: `gerarResposta`.
- `HtmlEscape`: the replace chain.
- `ResponseBody`: the template and the trim.
- `Framing`: the writes.
- `Handler`: the whole handler.

Methods model the loops the source has (`ParseQuery`, `ReadHead`, `ReadBody`,
`SelectAccept`, and `HandleClient` for the handler's sequence of steps). Each
is proved equal to a function, and the properties are lemmas about those
functions.

## Model

| member | source | states |
|---|---|---|
| `QueryParser.Query` | src/main/java/br/senac/tads/dsw/SimpleWebServer.java:219-243 | `parseQuery`: the empty map without a query, otherwise the fill over `split("&")` of the query; `ParseQuery` is proved to return it, and `NoQueryExample`, `FillOk`, `FillKeys` and `FillLastWins` state what the map holds |
| `QueryParser.Fill` | src/main/java/br/senac/tads/dsw/SimpleWebServer.java:226-241 | the loop body over the pairs, skipping empty ones and putting each decoded pair into the map; `FillOk`, `FillErrPersists`, `FillKeys`, `FillLastWins` and `FillEmptyTail` state its outcome |
| `QueryParser.DecodePair` | src/main/java/br/senac/tads/dsw/SimpleWebServer.java:229-239 | a pair split at its first `=`, key and value each URL-decoded, throwing when either decoding throws; `SplitAtFirst` states the split and `UrlDecodeFails` when the decoding throws |
| `QueryParser.QueryString` | src/main/java/br/senac/tads/dsw/SimpleWebServer.java:221-225 | there is no query exactly when the path has no `?` or its first `?` is the last char; otherwise the query is the non-empty text after the first `?` |
| `QueryParser.ParseQuery` | src/main/java/br/senac/tads/dsw/SimpleWebServer.java:219-243 | the loop over the pairs returns `Query(urlPath)`, and the empty map when there is no query |
| `QueryParser.NoQueryExample` | src/main/java/br/senac/tads/dsw/SimpleWebServer.java:221-223 | `/path` and `/path?` give the empty map |
| `QueryParser.FillOk` | src/main/java/br/senac/tads/dsw/SimpleWebServer.java:226-240 | parsing succeeds exactly when every non-empty pair decodes |
| `QueryParser.FillErrPersists` | src/main/java/br/senac/tads/dsw/SimpleWebServer.java:238-239 | once a pair's decoding throws, the whole parse throws that exception |
| `QueryParser.FillKeys` | src/main/java/br/senac/tads/dsw/SimpleWebServer.java:226-240 | the map's keys are exactly the decoded keys of the non-empty pairs |
| `QueryParser.FillLastWins` | src/main/java/br/senac/tads/dsw/SimpleWebServer.java:238-240 | a key holds the decoded value of its last pair in the query |
| `QueryParser.FillEmptyTail` | src/main/java/br/senac/tads/dsw/SimpleWebServer.java:226-228 | empty pairs at the end change nothing, because they are skipped |
| `QueryParser.QueryPieces` | src/main/java/br/senac/tads/dsw/SimpleWebServer.java:225-226 | filling from `split("&")` is the same as filling from every piece between the `&`s, and those pieces joined give back the query |
| `QueryParser.RepeatedKeyExample` | src/main/java/br/senac/tads/dsw/SimpleWebServer.java:210-211 | `/?a=1&a=2` gives `{a: 2}` |
| `QueryParser.SplitPairExample` | src/main/java/br/senac/tads/dsw/SimpleWebServer.java:229-233 | a pair splits at its first `=`, so the value may itself contain `=` |
| `JavaStrings.SplitAtFirst` | src/main/java/br/senac/tads/dsw/SimpleWebServer.java:229-237 | the key has no `=`; with an `=`, key, `=` and value rebuild the pair; without one, the key is the whole pair and the value is `""` |
| `UrlDecoder.OtherDigitEscapes` | src/main/java/br/senac/tads/dsw/SimpleWebServer.java:238-239 | the hex digits of an escape may be decimal digits of any script or fullwidth letters: `%٤١` decodes to `A` and `%４ａ` to `J` |
| `UrlDecoder.UrlDecode` | src/main/java/br/senac/tads/dsw/SimpleWebServer.java:238-239 | decoding never makes a text longer; `UrlDecodeFails` states exactly when it throws |
| `UrlDecoder.UrlDecodeFails` | src/main/java/br/senac/tads/dsw/SimpleWebServer.java:238-239 | decoding throws exactly when some `%` in the text is cut short or is followed by two chars that are not a non-negative radix-16 `parseInt` value |
| `UrlDecoder.MalformedEscapes` | src/main/java/br/senac/tads/dsw/SimpleWebServer.java:238-239 | `%`, `%z1` and `%-7` each make the decoder throw |
| `UrlDecoder.UrlDecodePlain` | src/main/java/br/senac/tads/dsw/SimpleWebServer.java:238-239 | a text without `%` and `+` decodes to itself |
| `UrlDecoder.UrlDecodePlus` | src/main/java/br/senac/tads/dsw/SimpleWebServer.java:238-239 | without `%`, decoding succeeds and turns every `+` into a space and keeps every other char |
| `UrlDecoder.CollectEscapes` | src/main/java/br/senac/tads/dsw/SimpleWebServer.java:238-239 | a run of `%XY` escapes is three chars per byte, and it ends where the next char is not `%` |
| `UrlDecoder.CollectPercentEncoded` | src/main/java/br/senac/tads/dsw/SimpleWebServer.java:238-239 | percent-encoded bytes are collected back as the same bytes |
| `UrlDecoder.PercentRoundTrip` | src/main/java/br/senac/tads/dsw/SimpleWebServer.java:238-239 | decoding the percent-encoded UTF-8 bytes of any text gives back the text |
| `Utf8.DecodeEncode` | src/main/java/br/senac/tads/dsw/SimpleWebServer.java:238-239 | UTF-8 decoding inverts UTF-8 encoding |
| `Utf8.Encode` | src/main/java/br/senac/tads/dsw/SimpleWebServer.java:160 | `getBytes(UTF_8)`: between one and four bytes per char; `Utf8.DecodeEncode` states that decoding inverts it and `Handler.HtmlLengthExceedsChars` that the HTML page takes more bytes than chars |
| `RequestReader.ReadLine` | src/main/java/br/senac/tads/dsw/SimpleWebServer.java:69 | `readLine` is null exactly at end of input; a line holds no CR or LF, and the rest is shorter |
| `RequestReader.ReadLineTerminators` | src/main/java/br/senac/tads/dsw/SimpleWebServer.java:69 | a line ends at the first LF or CR, and a CR followed by LF is consumed as one terminator |
| `RequestReader.ReadLineCrlf` | src/main/java/br/senac/tads/dsw/SimpleWebServer.java:69 | a line followed by CRLF is read as that line, and reading goes on after the CRLF |
| `RequestReader.ScanHeaders` | src/main/java/br/senac/tads/dsw/SimpleWebServer.java:69-81 | the collected header lines are non-empty and hold no CR or LF |
| `RequestReader.RequestHead` | src/main/java/br/senac/tads/dsw/SimpleWebServer.java:63-82 | the state the read loop leaves (request line, header block, `contentLength`, unread rest), or `None` when `parseInt` throws; `ReadHead` is proved to reach it and `HeadOfMessage` states it for a well-formed message |
| `RequestReader.IsContentLengthLine` | src/main/java/br/senac/tads/dsw/SimpleWebServer.java:78 | a header line whose lower-cased text starts with `content-length:`; `LengthLineOfDigits` and `Framing.ResponseContentLength` state which lines it holds for |
| `RequestReader.ContentLengthValue` | src/main/java/br/senac/tads/dsw/SimpleWebServer.java:79 | `parseInt` of the trimmed text after the first `:`; `ContentLengthAfterPrefix` and `LengthLineOfDigits` state its value |
| `RequestReader.ContentLength` | src/main/java/br/senac/tads/dsw/SimpleWebServer.java:67-80 | `contentLength` after the header lines: 0 at first, reset by every Content-Length line, `None` once a value does not parse; `ContentLengthAbsent`, `ContentLengthDefined`, `ContentLengthNonePersists` and `ContentLengthLast` state its value |
| `RequestReader.ReadHead` | src/main/java/br/senac/tads/dsw/SimpleWebServer.java:63-82 | the read loop ends in the state `RequestHead(stream)` describes (request line, header block, `contentLength`, the unread rest), or in the `parseInt` exception |
| `RequestReader.TerminatedAppend` | src/main/java/br/senac/tads/dsw/SimpleWebServer.java:77 | appending a line and CRLF to the header block extends it by exactly that text |
| `RequestReader.ContentLengthAfterPrefix` | src/main/java/br/senac/tads/dsw/SimpleWebServer.java:78-79 | a Content-Length line's value is `parseInt` of the trimmed text after its first `:` |
| `RequestReader.LengthLineOfDigits` | src/main/java/br/senac/tads/dsw/SimpleWebServer.java:78-79 | a `Content-Length` line whose value is a string of decimal digits, in any script, is recognised and has the value those digits spell |
| `JavaIntegers.ParseIntDigits` | src/main/java/br/senac/tads/dsw/SimpleWebServer.java:79 | a non-empty string of decimal digits within the int range parses to the number it spells |
| `JavaIntegers.OtherScriptDigits` | src/main/java/br/senac/tads/dsw/SimpleWebServer.java:79 | `parseInt` reads digits of other scripts: `١` is 1, `４２` is 42, `-१०` is -10 |
| `JavaIntegers.ParseInt` | src/main/java/br/senac/tads/dsw/SimpleWebServer.java:79 | `Integer.parseInt`: an optional sign and a non-empty string of decimal digits within the int range; `ParseIntDigits`, `OtherScriptDigits` and `ParseIntNatToString` state what it reads |
| `JavaIntegers.NatToString` | src/main/java/br/senac/tads/dsw/SimpleWebServer.java:169 | decimal formatting of `bodyBytes.length`: non-empty ASCII digits with no leading zero; `DigitsOfNatToString` and `ParseIntNatToString` state that it spells `n` and parses back |
| `RequestReader.ContentLengthAbsent` | src/main/java/br/senac/tads/dsw/SimpleWebServer.java:67 | with no Content-Length line, `contentLength` stays 0 |
| `RequestReader.ContentLengthDefined` | src/main/java/br/senac/tads/dsw/SimpleWebServer.java:78-79 | the loop finishes exactly when every Content-Length line's value parses |
| `RequestReader.ContentLengthNonePersists` | src/main/java/br/senac/tads/dsw/SimpleWebServer.java:79 | once one Content-Length value fails to parse, the loop throws whatever follows |
| `RequestReader.ContentLengthLast` | src/main/java/br/senac/tads/dsw/SimpleWebServer.java:78-80 | the last Content-Length line decides `contentLength` |
| `RequestReader.BodyOf` | src/main/java/br/senac/tads/dsw/SimpleWebServer.java:84-89 | the body is `""` unless `contentLength` is positive; then it has exactly `contentLength` chars, those of the stream and NUL where the stream has none |
| `RequestReader.ReadBody` | src/main/java/br/senac/tads/dsw/SimpleWebServer.java:84-89 | filling a fresh `char[]` from the stream gives `BodyOf(contentLength, rest)` |
| `RequestReader.ScanTerminated` | src/main/java/br/senac/tads/dsw/SimpleWebServer.java:69-81 | header lines each ended by CRLF, then a blank line, are read back as those lines, and what follows is left unread |
| `RequestReader.HeadOfMessage` | src/main/java/br/senac/tads/dsw/SimpleWebServer.java:63-82 | a message with CRLF line ends is read into its request line, header block, Content-Length and rest |
| `RequestReader.RequestMessage` | src/main/java/br/senac/tads/dsw/SimpleWebServer.java:91 | the echoed request: request line, CRLF, header block, CRLF, body; `EchoReproducesRequest` states that it is the request as it arrived |
| `RequestReader.EchoReproducesRequest` | src/main/java/br/senac/tads/dsw/SimpleWebServer.java:63-91 | for a well-formed request whose body is as long as its Content-Length, the echoed request message is the request exactly as it arrived |
| `Negotiation.IsAcceptLine` | src/main/java/br/senac/tads/dsw/SimpleWebServer.java:107 | a header line whose lower-cased text starts with `accept:`; `AcceptFirst` states that the first such line decides |
| `Negotiation.MediaType` | src/main/java/br/senac/tads/dsw/SimpleWebServer.java:109 | `split(",")[0].split(";")[0].trim()`, `None` where the `[0]` indexing throws; `MediaTypeCut` and `MediaTypeLower` state its value |
| `Negotiation.AcceptOf` | src/main/java/br/senac/tads/dsw/SimpleWebServer.java:105-112 | the Accept loop: `text/html` unless some line is an Accept line, else the media type of the first one; `SelectAccept` is proved to return it, and `AcceptFirst`, `AcceptAbsent` and `AcceptOfHeaderBlock` state its value |
| `Negotiation.SelectAccept` | src/main/java/br/senac/tads/dsw/SimpleWebServer.java:105-112 | the Accept loop over `header.split("\r\n")` returns `AcceptOf` of those lines, or the exception of the `[0]` indexing |
| `Negotiation.AcceptValue` | src/main/java/br/senac/tads/dsw/SimpleWebServer.java:108 | the Accept value holds no ASCII upper-case letter |
| `Negotiation.AcceptFirst` | src/main/java/br/senac/tads/dsw/SimpleWebServer.java:106-111 | only the first Accept line counts |
| `Negotiation.AcceptAbsent` | src/main/java/br/senac/tads/dsw/SimpleWebServer.java:105 | without an Accept line the type is `text/html` |
| `Negotiation.AcceptOfHeaderBlock` | src/main/java/br/senac/tads/dsw/SimpleWebServer.java:106 | splitting the header block on CRLF gives back the header lines, so the loop sees exactly the lines that were read |
| `Negotiation.MediaTypeCut` | src/main/java/br/senac/tads/dsw/SimpleWebServer.java:109 | the type is the value cut before its first `,` and then its first `;`, trimmed; the loop throws exactly when the value is only commas or its first entry is only semicolons |
| `Negotiation.MediaTypeLower` | src/main/java/br/senac/tads/dsw/SimpleWebServer.java:108-109 | cutting and trimming a lower-case value keeps it lower case |
| `Negotiation.WantsJson` | src/main/java/br/senac/tads/dsw/SimpleWebServer.java:116 | `"application/json".equalsIgnoreCase(accept)`; `WantsJsonExactly` states when it holds |
| `Negotiation.WantsJsonExactly` | src/main/java/br/senac/tads/dsw/SimpleWebServer.java:116 | JSON is chosen exactly when the chosen type equals `application/json` |
| `HtmlResponse.GerarResposta` | src/main/java/br/senac/tads/dsw/HtmlResponse.java:5-7 | the payload is 94 fixed chars plus the name and the e-mail address; it holds `Nome: ` + name and `Email: ` + address at fixed offsets; outside the two slots it has no `<`, `>` or `;` |
| `HtmlResponse.NameBeforeEmail` | src/main/java/br/senac/tads/dsw/HtmlResponse.java:6 | `Nome: ` + name begins at index 31, `Email: ` + address follows, and the name segment ends before the address segment begins |
| `HtmlResponse.NoAngleBrackets` | src/main/java/br/senac/tads/dsw/HtmlResponse.java:6 | with no `<` or `>` in the name and the address, the payload has none |
| `HtmlEscape.Escape` | src/main/java/br/senac/tads/dsw/SimpleWebServer.java:152-155 | the escaped text has no `<`, `>`, `"` or `'` |
| `HtmlEscape.EscapeIsEscapeEach` | src/main/java/br/senac/tads/dsw/SimpleWebServer.java:152-155 | the replace chain, `&` first, is the one-pass escape that replaces each char by its entity |
| `HtmlEscape.EscapeAppend` | src/main/java/br/senac/tads/dsw/SimpleWebServer.java:152-155 | escaping distributes over concatenation |
| `HtmlEscape.EscapeAmpersands` | src/main/java/br/senac/tads/dsw/SimpleWebServer.java:152-155 | every `&` of the escaped text begins one of `&amp;`, `&lt;`, `&gt;`, `&quot;` and `&#39;` |
| `HtmlEscape.UnescapeEscape` | src/main/java/br/senac/tads/dsw/SimpleWebServer.java:152-155 | decoding the five entities gives back the text that was escaped |
| `ResponseBody.Format` | src/main/java/br/senac/tads/dsw/SimpleWebServer.java:130-156 | `MessageFormat.format` of the template with its three arguments in the slots; `PageFixedParts` and `PageSlots` state where they land |
| `ResponseBody.Page` | src/main/java/br/senac/tads/dsw/SimpleWebServer.java:152-156 | the trimmed template around the escaped request and the escaped payload; `PageIsFormatWithoutFinalBreak`, `PageSlots` and `PageHeadNotAscii` state its shape |
| `ResponseBody.JsonBody` | src/main/java/br/senac/tads/dsw/SimpleWebServer.java:127 | the trimmed JSON payload; `Handler.ReplyBranches` states that the JSON branch replies with it |
| `ResponseBody.PageIsFormatWithoutFinalBreak` | src/main/java/br/senac/tads/dsw/SimpleWebServer.java:130-156 | the trimmed page is the filled template without its final line break, and nothing else is removed |
| `ResponseBody.PageFixedParts` | src/main/java/br/senac/tads/dsw/SimpleWebServer.java:130-156 | the page starts with the template's head, ends with its tail, and its length is the sum of its parts |
| `ResponseBody.PageSlots` | src/main/java/br/senac/tads/dsw/SimpleWebServer.java:142-156 | the request slot and the payload slot hold the escaped texts, and decoding them gives back the request message and the payload |
| `ResponseBody.PageHeadNotAscii` | src/main/java/br/senac/tads/dsw/SimpleWebServer.java:139 | the heading's `ç` is a non-ASCII char of the template |
| `Framing.Writes` | src/main/java/br/senac/tads/dsw/SimpleWebServer.java:165-174 | the eight writes of the response; `WireFormat` states what the connection carries, and `ResponseReadsBack` that a reader gets it back |
| `Framing.ContentTypeLine` | src/main/java/br/senac/tads/dsw/SimpleWebServer.java:168 | the Content-Type line; `ContentTypeIsBranch` states which type it names on each branch |
| `Framing.ContentLengthLine` | src/main/java/br/senac/tads/dsw/SimpleWebServer.java:169 | the Content-Length line with `n` in decimal; `LengthLineValue` states that it reads back as `n` |
| `Framing.WireFormat` | src/main/java/br/senac/tads/dsw/SimpleWebServer.java:165-174 | the connection carries the status line, the five header lines each ended by CRLF, a blank line and the body |
| `Framing.ContentTypeIsBranch` | src/main/java/br/senac/tads/dsw/SimpleWebServer.java:168 | `Content-Type` is `application/json; charset=UTF-8` exactly on the JSON branch and `text/html; charset=UTF-8` exactly on the HTML branch |
| `Framing.LengthLineValue` | src/main/java/br/senac/tads/dsw/SimpleWebServer.java:169 | the `Content-Length` line written for `n` bytes is read back as `n` by the server's own Content-Length parsing |
| `Framing.ResponseContentLength` | src/main/java/br/senac/tads/dsw/SimpleWebServer.java:166-170 | among the response header lines only Content-Length is a Content-Length line, so the Content-Length value read back from the header block is `n` |
| `Framing.HeaderLinesAreLines` | src/main/java/br/senac/tads/dsw/SimpleWebServer.java:166-170 | every response header line is non-empty and holds no CR or LF |
| `Framing.ResponseReadsBack` | src/main/java/br/senac/tads/dsw/SimpleWebServer.java:160-174 | read back with the server's own reader, the response gives the status line, the header block, a length equal to the body's UTF-8 byte count, and the body |
| `Handler.Url` | src/main/java/br/senac/tads/dsw/SimpleWebServer.java:97-99 | `split(" ")[1]` of the request line, with the two aborts: fewer than two pieces and an empty URL; `UrlOfRequestLine`, `UrlNoSpace` and `UrlDoubleSpace` state the three cases |
| `Handler.Accepted` | src/main/java/br/senac/tads/dsw/SimpleWebServer.java:63-112 | the stages before the payload (head, body, echo, URL, query, Accept), each abort being the exception of its stage; `WellFormedAccepted` and `AcceptOfLinesRead` state what it passes on |
| `Handler.ReplyFor` | src/main/java/br/senac/tads/dsw/SimpleWebServer.java:115-157 | the payload and the response body on the branch `wantsJson` picks; `ReplyForBranches` and `ReplyBranches` state both branches |
| `Handler.Outcome` | src/main/java/br/senac/tads/dsw/SimpleWebServer.java:100-157 | the reply for an accepted request, on the JSON branch exactly when `WantsJson` of its Accept type; `WellFormedRequest` states it for well-formed requests |
| `Handler.Respond` | src/main/java/br/senac/tads/dsw/SimpleWebServer.java:57-175 | the writes of the handler or the abort that stops it; `HandleClient` is proved to follow it, and `ResponseFraming` and `ContentTypeFollowsAccept` state its framing and its Content-Type |
| `Handler.HandleClient` | src/main/java/br/senac/tads/dsw/SimpleWebServer.java:57-175 | the handler makes the writes `Respond` describes, or none for the reason it gives |
| `Handler.UrlOfRequestLine` | src/main/java/br/senac/tads/dsw/SimpleWebServer.java:97 | the URL of a request line `method SP target SP version` is its target |
| `Handler.UrlNoSpace` | src/main/java/br/senac/tads/dsw/SimpleWebServer.java:97 | a request line without a space has no URL: `split(" ")[1]` throws, so nothing is written |
| `Handler.UrlDoubleSpace` | src/main/java/br/senac/tads/dsw/SimpleWebServer.java:97-99 | two spaces after the method give an empty URL, so the handler returns without a response |
| `Handler.EmptyStreamGetsNoResponse` | src/main/java/br/senac/tads/dsw/SimpleWebServer.java:97 | on an empty stream the request line stays `""` (never null), `split(" ")[1]` throws, and nothing is written |
| `Handler.ResponseFraming` | src/main/java/br/senac/tads/dsw/SimpleWebServer.java:160-174 | every response the handler writes is the framed body, and it reads back with its byte count as Content-Length |
| `Handler.ContentTypeFollowsAccept` | src/main/java/br/senac/tads/dsw/SimpleWebServer.java:105-168 | the response names `application/json` exactly when the chosen Accept type is `application/json`, and `text/html` otherwise |
| `Handler.AcceptOfLinesRead` | src/main/java/br/senac/tads/dsw/SimpleWebServer.java:69-112 | for every stream the handler accepts, the Accept type it uses is the one the loop picks from exactly the header lines the read loop collected |
| `Handler.ReplyBranches` | src/main/java/br/senac/tads/dsw/SimpleWebServer.java:115-157 | the JSON body is the trimmed rendering of the two parameters; the HTML body is the page around the escaped request message and the escaped `gerarResposta` payload |
| `Handler.ReplyForBranches` | src/main/java/br/senac/tads/dsw/SimpleWebServer.java:115-157 | the reply keeps the branch, and its body is the trimmed JSON or the page without its final line break |
| `Handler.HtmlLengthExceedsChars` | src/main/java/br/senac/tads/dsw/SimpleWebServer.java:160-169 | any HTML page's `Content-Length` (bytes) is larger than its length in chars |
| `Handler.WellFormedRequest` | src/main/java/br/senac/tads/dsw/SimpleWebServer.java:63-157 | for a well-formed request, the handler aborts on a query error or on an unusable Accept type; otherwise it replies, on the JSON branch exactly when the first Accept header's type is `application/json`, with the request message equal to the request itself |
| `Handler.WellFormedAccepted` | src/main/java/br/senac/tads/dsw/SimpleWebServer.java:63-112 | for a well-formed request the handler uses the target as URL, the first Accept header among the header lines, and the request as echo |

## Left out

- The server plumbing: the `ServerSocket`, the accept loop and the thread
  pool (SimpleWebServer.java:36-55). This is network I/O and concurrency.
- The reader and writer construction, the flushes and the socket closing
  (SimpleWebServer.java:58-61, 172-187). The input is one string and the
  output is the sequence of writes. The `IOException` logging is left out.
- The `Date` header value (SimpleWebServer.java:162-166) reads the clock. It
  is a string parameter.
- `JsonResponse.gerarResposta` is not part of this model. The JSON payload is
  a function parameter of type `(string, string) -> string`.
- `MessageFormat.format` is modelled as inserting its three arguments into
  the template's slots verbatim. This holds because the template has no `'`
  and no other braces.
- A single `in.read` is assumed to deliver every char still in the stream, up
  to `contentLength`. A short read of a slow connection is not modelled.
- Case mapping is ASCII-only. `toLowerCase()` without a locale, as at line 78,
  follows the platform locale, which is not modelled.
- `Negotiation.WantsJsonExactly` holds only under the ASCII-only case mapping.
  In Java, `equalsIgnoreCase` (line 116) also matches `ſ` (U+017F) with `s`
  and `ı` (U+0131) with `i`, and `toLowerCase(Locale.ROOT)` keeps both chars.
  So `Accept: application/jſon` selects JSON although the chosen type is not
  `application/json`.
- The decimal digits that `parseInt` and `URLDecoder` accept are the runs of
  general category Nd in the Basic Multilingual Plane as of Unicode 15, which
  is what Java 21 uses. A JDK built on an older Unicode version knows fewer of
  them.
- Strings are sequences of Unicode scalar values, so UTF-16 surrogates are not
  modelled. Malformed UTF-8 in a `%XY` run decodes to one U+FFFD per byte that
  starts no well-formed sequence. This is simpler than the JDK's replacement
  rules.
- An `OutOfMemoryError` from a huge `Content-Length` is not modelled.
- `ResponseBody.PageFixedParts` does not state the middle part of the page (the
  text around the format label) as a slice, only through
  `ResponseBody.PageIsFormatWithoutFinalBreak`.
- `Framing.ResponseReadsBack`, `Framing.LengthLineValue` and `Handler.ResponseFraming` require the
  body's byte count to be at most 2^31 - 1, because `Integer.parseInt` would
  refuse a larger value when it is read back.
