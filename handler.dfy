/** `handleClient`: one connection from the request stream to the writes of
  * the response. The stages run in the server's order: the read loop, the
  * body, the request echo, the URL, `parseQuery`, the Accept loop, the payload,
  * the response body and the framing. Every uncaught exception, and the early
  * return on an empty URL, closes the connection without a response. */
module Handler {
  import opened Wrappers
  import opened JavaStrings
  import opened JavaIntegers
  import opened Utf8
  import opened UrlDecoder
  import opened QueryParser
  import opened RequestReader
  import opened HtmlResponse
  import opened HtmlEscape
  import opened ResponseBody
  import opened Negotiation
  import opened Framing

  /** Why the connection is closed without a response. */
  datatype Abort =
    | MalformedContentLength            // `Integer.parseInt` on a Content-Length value throws
    | MissingUrl                        // `requestLine.split(" ")[1]` is out of bounds
    | EmptyUrl                          // the early `return` on an empty URL
    | MalformedQuery(error: DecodeError) // `URLDecoder.decode` throws inside `parseQuery`
    | MalformedAccept                   // `split(",")[0]` or `split(";")[0]` is out of bounds

  /** The JSON payload renderer, `JsonResponse.gerarResposta(nome, email)`. */
  type JsonRenderer = (string, string) -> string

  /** What the response is made of: the branch taken and the response body. */
  datatype Reply = Reply(wantsJson: bool, body: string)

  /** `qp.getOrDefault(key, "")`. */
  function Param(qp: map<string, string>, key: string): string
  {
    if key in qp then qp[key] else ""
  }

  /** `requestLine.split(" ")[1]`, with the early return on an empty URL. */
  function Url(requestLine: string): Result<string, Abort>
  {
    var words := Split(requestLine, " ");
    if |words| < 2 then Err(MissingUrl)
    else if words[1] == "" then Err(EmptyUrl)
    else Ok(words[1])
  }

  /** The response body for the branch taken. */
  function ReplyFor(wantsJson: bool, requestMessage: string, nome: string, email: string, json: JsonRenderer): Reply
  {
    if wantsJson then Reply(true, JsonBody(json(nome, email)))
    else Reply(false, Page(requestMessage, GerarResposta(nome, email)))
  }

  /** What the handler has gathered when it picks the branch: the head of the
    * request, the echoed request message, the two parameters and the Accept
    * type. */
  datatype Request = Request(head: Head, requestMessage: string, nome: string, email: string, accept: string)

  /** The request side of `handleClient`, up to and including the Accept loop. */
  function Accepted(stream: string): Result<Request, Abort>
  {
    match RequestHead(stream)
    case None => Err(MalformedContentLength)
    case Some(head) =>
      var requestMessage := RequestMessage(head.requestLine, head.header, BodyOf(head.contentLength, head.rest));
      match Url(head.requestLine)
      case Err(e) => Err(e)
      case Ok(url) =>
        match Query(url)
        case Err(e) => Err(MalformedQuery(e))
        case Ok(qp) =>
          match AcceptOf(Split(head.header, "\r\n"))
          case None => Err(MalformedAccept)
          case Some(accept) => Ok(Request(head, requestMessage, Param(qp, "nome"), Param(qp, "email"), accept))
  }

  /** Everything `handleClient` decides about a request stream. */
  function Outcome(stream: string, json: JsonRenderer): Result<Reply, Abort>
  {
    match Accepted(stream)
    case Err(e) => Err(e)
    case Ok(q) => Ok(ReplyFor(WantsJson(q.accept), q.requestMessage, q.nome, q.email, json))
  }

  /** The writes `handleClient` makes on the connection, or why it makes none. */
  function Respond(stream: string, date: string, json: JsonRenderer): Result<seq<string>, Abort>
  {
    match Outcome(stream, json)
    case Err(e) => Err(e)
    case Ok(reply) => Ok(Writes(date, reply.wantsJson, reply.body))
  }

  /** The handler, stage by stage. */
  method HandleClient(stream: string, date: string, json: JsonRenderer) returns (r: Result<seq<string>, Abort>)
    ensures r == Respond(stream, date, json)
  {
    var head := ReadHead(stream);
    if head.None? {
      return Err(MalformedContentLength);
    }
    var requestLine, header := head.value.requestLine, head.value.header;
    var body := ReadBody(head.value.contentLength, head.value.rest);
    var requestMessage := requestLine + "\r\n" + header + "\r\n" + body;
    var words := Split(requestLine, " ");
    if |words| < 2 {
      return Err(MissingUrl);
    }
    var url := words[1];
    if url == "" {
      return Err(EmptyUrl);
    }
    var qp := ParseQuery(url);
    if qp.Err? {
      return Err(MalformedQuery(qp.error));
    }
    var nome := Param(qp.value, "nome");
    var email := Param(qp.value, "email");
    var accept := SelectAccept(header);
    if accept.None? {
      return Err(MalformedAccept);
    }
    var wantsJson := EqualsIgnoreCase(JsonType, accept.value);
    var payload := if wantsJson then json(nome, email) else GerarResposta(nome, email);
    var responseBody;
    if wantsJson {
      responseBody := Trim(payload);
    } else {
      var safeRequest := Escape(requestMessage);
      var safePayload := Escape(payload);
      responseBody := Trim(Format(safeRequest, Formato, safePayload));
    }
    r := Ok(Writes(date, wantsJson, responseBody));
  }

  /** The URL of an HTTP request line `method SP target SP version` is its
    * target. */
  lemma UrlOfRequestLine(verb: string, target: string, version: string)
    requires ' ' !in verb && ' ' !in target && target != ""
    ensures Url(verb + " " + target + " " + version) == Ok(target)
  {
    var line := verb + " " + target + " " + version;
    assert line == verb + " " + (target + " " + version);
    PiecesCons(verb, " ", target + " " + version);
    PiecesCons(target, " ", version);
    var ps := Pieces(line, " ");
    assert ps == [verb, target] + Pieces(version, " ");
    OccursAtChar(line, ' ', |verb|);
    var r := DropTrailingEmpty(ps);
    assert ps[1] != "";
    assert r[1] == ps[1];
  }

  /** A request line without a space has no second word: `split(" ")[1]` is
    * out of bounds and nothing is written. */
  lemma UrlNoSpace(requestLine: string)
    requires ' ' !in requestLine
    ensures Url(requestLine) == Err(MissingUrl)
  {
    IndexOfChar(requestLine, ' ');
  }

  /** Two spaces after the method make the second word empty, and the handler
    * returns early without a response. */
  lemma UrlDoubleSpace(verb: string, rest: string)
    requires ' ' !in verb && rest != [] && ' ' !in rest
    ensures Url(verb + "  " + rest) == Err(EmptyUrl)
  {
    var line := verb + "  " + rest;
    assert line == verb + " " + ("" + " " + rest);
    PiecesCons(verb, " ", "" + " " + rest);
    assert "" + " " + rest == " " + rest;
    PiecesCons("", " ", rest);
    IndexOfChar(rest, ' ');
    var ps := Pieces(line, " ");
    assert ps == [verb, "", rest];
    OccursAtChar(line, ' ', |verb|);
    var r := DropTrailingEmpty(ps);
    assert r[1] == ps[1];
  }

  /** A stream that ends before any line has been read has no URL: the
    * request line stays `""`, whose split has one element. */
  lemma EmptyStreamGetsNoResponse(date: string, json: JsonRenderer)
    ensures Respond("", date, json) == Err(MissingUrl)
  {
    assert ReadLine("") == None;
    assert IndexOf("", " ") < 0;
  }

  /** The response to a stream the handler answers reads back, with the
    * server's own reader, as the status line, the five header lines, a
    * `Content-Length` equal to the body's UTF-8 byte count, and the body. */
  lemma ResponseFraming(stream: string, date: string, json: JsonRenderer)
    requires IsLine(date)
    requires Outcome(stream, json).Ok? && |Encode(Outcome(stream, json).value.body)| <= MaxInt
    ensures var reply := Outcome(stream, json).value;
      var n := |Encode(reply.body)|;
      && Respond(stream, date, json) == Ok(Writes(date, reply.wantsJson, reply.body))
      && Concat(Respond(stream, date, json).value)
        == StatusLine + Crlf + Terminated(HeaderLines(date, reply.wantsJson, n), Crlf) + Crlf + reply.body
      && RequestHead(Concat(Respond(stream, date, json).value))
        == Some(Head(StatusLine, Terminated(HeaderLines(date, reply.wantsJson, n), Crlf), n, reply.body))
  {
    var reply := Outcome(stream, json).value;
    WireFormat(date, reply.wantsJson, reply.body);
    ResponseReadsBack(date, reply.wantsJson, reply.body);
  }

  /** The media type named in `Content-Type` is `application/json` exactly when
    * the first Accept header's type is `application/json`. */
  lemma ContentTypeFollowsAccept(stream: string, date: string, json: JsonRenderer)
    requires Respond(stream, date, json).Ok?
    ensures Accepted(stream).Ok?
    ensures var accept := Accepted(stream).value.accept;
      && (Respond(stream, date, json).value[3] == ContentTypeLine(true) + Crlf <==> accept == JsonType)
      && (Respond(stream, date, json).value[3] == ContentTypeLine(false) + Crlf <==> accept != JsonType)
  {
    var q, reply := RespondReply(stream, date, json);
    WantsJsonExactly(Split(q.head.header, "\r\n"));
    ContentTypeIsBranch(date, reply.wantsJson, reply.body);
  }

  lemma RespondReply(stream: string, date: string, json: JsonRenderer) returns (q: Request, reply: Reply)
    requires Respond(stream, date, json).Ok?
    ensures Accepted(stream) == Ok(q) && AcceptOf(Split(q.head.header, "\r\n")) == Some(q.accept)
    ensures reply.wantsJson == WantsJson(q.accept)
    ensures Respond(stream, date, json) == Ok(Writes(date, reply.wantsJson, reply.body))
  {
    q := OutcomeReply(stream, json);
    AcceptedType(stream);
    reply := Outcome(stream, json).value;
    ReplyForBranches(WantsJson(q.accept), q.requestMessage, q.nome, q.email, json);
  }

  lemma AcceptedType(stream: string)
    requires Accepted(stream).Ok?
    ensures AcceptOf(Split(Accepted(stream).value.head.header, "\r\n")) == Some(Accepted(stream).value.accept)
  {
  }

  /** The Accept loop sees exactly the header lines the read loop collected:
    * splitting the header block on CRLF gives them back, and the type chosen
    * from them is the one the handler goes on with. */
  lemma AcceptOfLinesRead(stream: string)
    requires Accepted(stream).Ok? && stream != []
    ensures AcceptOf(ScanHeaders(ReadLine(stream).value.1).0) == Some(Accepted(stream).value.accept)
  {
    AcceptOfHeaderBlock(ScanHeaders(ReadLine(stream).value.1).0);
  }

  /** The branches: JSON carries the trimmed rendering of the two parameters,
    * HTML the page around the escaped request and the escaped payload. */
  lemma ReplyBranches(stream: string, json: JsonRenderer)
    requires Outcome(stream, json).Ok?
    ensures Accepted(stream).Ok?
    ensures var q := Accepted(stream).value;
      var reply := Outcome(stream, json).value;
      && (reply.wantsJson ==> reply.body == Trim(json(q.nome, q.email)))
      && (!reply.wantsJson ==>
            reply.body == PageHead + Escape(q.requestMessage) + AfterRequest + Formato + AfterFormat
                          + Escape(GerarResposta(q.nome, q.email)) + PageEnd)
  {
    var q := OutcomeReply(stream, json);
    ReplyForBranches(WantsJson(q.accept), q.requestMessage, q.nome, q.email, json);
  }

  lemma OutcomeReply(stream: string, json: JsonRenderer) returns (q: Request)
    requires Outcome(stream, json).Ok?
    ensures Accepted(stream) == Ok(q)
    ensures Outcome(stream, json) == Ok(ReplyFor(WantsJson(q.accept), q.requestMessage, q.nome, q.email, json))
  {
    q := Accepted(stream).value;
  }

  lemma ReplyForBranches(wantsJson: bool, requestMessage: string, nome: string, email: string, json: JsonRenderer)
    ensures var reply := ReplyFor(wantsJson, requestMessage, nome, email, json);
      && reply.wantsJson == wantsJson
      && (wantsJson ==> reply.body == Trim(json(nome, email)))
      && (!wantsJson ==>
            reply.body == PageHead + Escape(requestMessage) + AfterRequest + Formato + AfterFormat
                          + Escape(GerarResposta(nome, email)) + PageEnd)
  {
    if !wantsJson {
      PageIsFormatWithoutFinalBreak(requestMessage, GerarResposta(nome, email));
    }
  }

  /** Any HTML page holds the non-ASCII `ç` of its heading, so its
    * `Content-Length` (bytes) exceeds its length in chars. */
  lemma HtmlLengthExceedsChars(requestMessage: string, payload: string)
    ensures |Encode(Page(requestMessage, payload))| > |Page(requestMessage, payload)|
  {
    var page := Page(requestMessage, payload);
    PageFixedParts(requestMessage, payload);
    PageHeadNotAscii();
    assert page[164] == PageHead[164];
    EncodeNonAscii(page, 164);
  }

  /** A well-formed request (`method SP target SP version`, CRLF line ends, a
    * blank line, a body as long as its Content-Length): the URL is the target,
    * the Accept header used is the first one among the header lines, and the
    * HTML page echoes the request exactly as it arrived. */
  lemma WellFormedRequest(verb: string, target: string, version: string, hs: seq<string>, body: string, json: JsonRenderer)
    requires ' ' !in verb && ' ' !in target && target != "" && IsLine(verb + " " + target + " " + version)
    requires forall k :: 0 <= k < |hs| ==> hs[k] != "" && IsLine(hs[k])
    requires ContentLength(hs) == Some(|body|)
    ensures var stream := verb + " " + target + " " + version + "\r\n" + Terminated(hs, "\r\n") + "\r\n" + body;
      var o := Outcome(stream, json);
      && (Query(target).Err? ==> o == Err(MalformedQuery(Query(target).error)))
      && (Query(target).Ok? && AcceptOf(hs).None? ==> o == Err(MalformedAccept))
      && (Query(target).Ok? && AcceptOf(hs).Some? ==>
            var qp := Query(target).value;
            o == Ok(ReplyFor(AcceptOf(hs).value == JsonType, stream, Param(qp, "nome"), Param(qp, "email"), json)))
  {
    WellFormedAccepted(verb, target, version, hs, body);
    if AcceptOf(hs).Some? {
      WantsJsonExactly(hs);
    }
  }

  lemma WellFormedAccepted(verb: string, target: string, version: string, hs: seq<string>, body: string)
    requires ' ' !in verb && ' ' !in target && target != "" && IsLine(verb + " " + target + " " + version)
    requires forall k :: 0 <= k < |hs| ==> hs[k] != "" && IsLine(hs[k])
    requires ContentLength(hs) == Some(|body|)
    ensures var requestLine := verb + " " + target + " " + version;
      var stream := requestLine + "\r\n" + Terminated(hs, "\r\n") + "\r\n" + body;
      Accepted(stream) ==
        match Query(target)
        case Err(e) => Err(MalformedQuery(e))
        case Ok(qp) =>
          match AcceptOf(hs)
          case None => Err(MalformedAccept)
          case Some(accept) =>
            Ok(Request(Head(requestLine, Terminated(hs, "\r\n"), |body|, body), stream, Param(qp, "nome"), Param(qp, "email"), accept))
  {
    var requestLine := verb + " " + target + " " + version;
    EchoReproducesRequest(requestLine, hs, body);
    UrlOfRequestLine(verb, target, version);
    AcceptOfHeaderBlock(hs);
  }
}
