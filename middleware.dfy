/** The small WSGI applications of wsgi/middleware.py: a fixed response, a
    200 message, a server of preloaded static files and a router that picks
    an application by path prefix. The WSGI environ is the map of its text
    variables; what an application passes to `start_response` and the body
    it returns are one Response value. */
module Middleware {
  import opened Common
  import Http

  /** Python's `httplib.responses`: the reason text of each status code;
      None where the table has no entry. */
  function Responses(code: int): Option<string>
  {
    match code
      case 100 => Some("Continue")
      case 101 => Some("Switching Protocols")
      case 200 => Some("OK")
      case 201 => Some("Created")
      case 202 => Some("Accepted")
      case 203 => Some("Non-Authoritative Information")
      case 204 => Some("No Content")
      case 205 => Some("Reset Content")
      case 206 => Some("Partial Content")
      case 300 => Some("Multiple Choices")
      case 301 => Some("Moved Permanently")
      case 302 => Some("Found")
      case 303 => Some("See Other")
      case 304 => Some("Not Modified")
      case 305 => Some("Use Proxy")
      case 306 => Some("(Unused)")
      case 307 => Some("Temporary Redirect")
      case 400 => Some("Bad Request")
      case 401 => Some("Unauthorized")
      case 402 => Some("Payment Required")
      case 403 => Some("Forbidden")
      case 404 => Some("Not Found")
      case 405 => Some("Method Not Allowed")
      case 406 => Some("Not Acceptable")
      case 407 => Some("Proxy Authentication Required")
      case 408 => Some("Request Timeout")
      case 409 => Some("Conflict")
      case 410 => Some("Gone")
      case 411 => Some("Length Required")
      case 412 => Some("Precondition Failed")
      case 413 => Some("Request Entity Too Large")
      case 414 => Some("Request-URI Too Long")
      case 415 => Some("Unsupported Media Type")
      case 416 => Some("Requested Range Not Satisfiable")
      case 417 => Some("Expectation Failed")
      case 500 => Some("Internal Server Error")
      case 501 => Some("Not Implemented")
      case 502 => Some("Bad Gateway")
      case 503 => Some("Service Unavailable")
      case 504 => Some("Gateway Timeout")
      case 505 => Some("HTTP Version Not Supported")
      case _ => None
  }

  const OK := 200
  const NOT_FOUND := 404
  const KEY_ERROR := "KeyError"
  const PATH_INFO := "PATH_INFO"

  type Environ = map<string, string>

  /** A header value as Python holds it: text, or a number `%s` formats later. */
  datatype HeaderValue = Text(text: string) | Number(number: int)

  type Header = (string, HeaderValue)

  /** The status and headers given to `start_response`, and the body chunks. */
  datatype Response = Response(status: string, headers: seq<Header>, body: seq<string>)

  /** `WSGISimpleResponse(status_code, response, content_type, headers)`. */
  datatype Simple = Simple(code: int, response: Option<string>, contentType: string, headers: seq<Header>)

  /** `RESPONSE_NOT_FOUND`: a 404 with the defaults of the other arguments. */
  const RESPONSE_NOT_FOUND := Simple(NOT_FOUND, None, "text/html", [])

  /** `WSGISimpleMessage(msg)`: a 200 response carrying `msg`. */
  function Message(msg: string): (app: Simple)
    ensures app.code == OK && app.response == Some(msg) && app.contentType == "text/html" && app.headers == []
  {
    Simple(OK, Some(msg), "text/html", [])
  }

  /** `WSGISimpleResponse.__call__`: status `"<code> <reason>"`, Content-type
      ahead of the extra headers, and the given response or else the reason
      text as the one body chunk; KeyError for a code without a reason. */
  function Call(app: Simple): (r: Result<Response>)
    ensures r.Ok? <==> Responses(app.code).Some?
    ensures r.Ok? ==> (|r.value.headers| == 1 + |app.headers| && r.value.headers[1..] == app.headers &&
                       r.value.headers[0] == ("Content-type", Text(app.contentType)))
    ensures r.Ok? ==> r.value.body == [if app.response.Some? then app.response.value else Responses(app.code).value]
  {
    if Responses(app.code).None? then Err(KEY_ERROR)
    else
      var reason := Responses(app.code).value;
      var status := IntToText(app.code) + " " + reason;
      Ok(Response(status, [("Content-type", Text(app.contentType))] + app.headers,
                  [if app.response.None? then reason else app.response.value]))
  }

  /** Every reason text is a non-empty phrase starting with a non-blank, for
      a three-digit code. */
  lemma ReasonIsPhrase(code: int)
    requires Responses(code).Some?
    ensures 100 <= code < 1000 && Responses(code).value != [] && !IsSpace(Responses(code).value[0])
  {
    if code < 300 {
      SuccessReasons(code);
    } else if code < 400 {
      RedirectReasons(code);
    } else if code < 409 {
      ClientReasons(code);
    } else if code < 500 {
      MoreClientReasons(code);
    } else {
      ServerReasons(code);
    }
  }

  /* ReasonIsPhrase, one range of the table at a time. */

  lemma SuccessReasons(code: int)
    requires Responses(code).Some? && 100 <= code < 300
    ensures 100 <= code < 1000 && Responses(code).value != [] && !IsSpace(Responses(code).value[0])
  {
  }

  lemma RedirectReasons(code: int)
    requires Responses(code).Some? && 300 <= code < 400
    ensures 100 <= code < 1000 && Responses(code).value != [] && !IsSpace(Responses(code).value[0])
  {
  }

  lemma ClientReasons(code: int)
    requires Responses(code).Some? && 400 <= code < 409
    ensures 100 <= code < 1000 && Responses(code).value != [] && !IsSpace(Responses(code).value[0])
  {
  }

  lemma MoreClientReasons(code: int)
    requires Responses(code).Some? && 409 <= code < 500
    ensures 100 <= code < 1000 && Responses(code).value != [] && !IsSpace(Responses(code).value[0])
  {
  }

  lemma ServerReasons(code: int)
    requires Responses(code).Some? && 500 <= code < 1000
    ensures 100 <= code < 1000 && Responses(code).value != [] && !IsSpace(Responses(code).value[0])
  {
  }

  /** The decimal text of a three-digit number. */
  lemma ThreeDigits(n: nat)
    requires 100 <= n < 1000
    ensures IntToText(n) == [DigitChar(n / 100), DigitChar(n / 10 % 10), DigitChar(n % 10)]
  {
    assert NatToText(n, 10) == NatToText(n / 10, 10) + [DigitChar(n % 10)];
    assert NatToText(n / 10, 10) == NatToText(n / 100, 10) + [DigitChar(n / 10 % 10)];
  }

  /** The status line the server writes for a simple response,
      `"%s %s" % (version, status)`, reads back as the code and its reason. */
  lemma StatusReadBack(app: Simple, version: string)
    requires Call(app).Ok? && version != [] && NoBlank(version)
    ensures var line := version + " " + Call(app).value.status;
      Http.StatusCodeOf(line) == Some(app.code) && Http.ReasonPhrase(line) == Some(Responses(app.code).value)
  {
    ReasonIsPhrase(app.code);
    var code: nat := app.code;
    var reason := Responses(code).value;
    var line := version + " " + Call(app).value.status;
    assert line == version + " " + IntToText(code) + " " + reason;
    Http.ReasonPhraseParts(version, code, reason);
    Http.NatTextNoBlank(code);
    Http.StripBlank(IntToText(code) + " " + reason);
    StatusCode(version, code, reason);
  }

  /** The code of `version code reason` when the reason may have several words. */
  lemma StatusCode(version: string, code: nat, reason: string)
    requires version != [] && NoBlank(version) && reason != [] && !IsSpace(reason[0])
    ensures Http.StatusCodeOf(version + " " + IntToText(code) + " " + reason) == Some(code)
  {
    var c := IntToText(code);
    Http.NatTextNoBlank(code);
    Http.Nest(version, c, reason);
    WordsCons(version, c + " " + reason);
    WordsCons(c, reason);
    IntRoundTrip(code);
  }

  /** The not-found response: `404 Not Found`, text/html, and the reason as body. */
  lemma NotFoundResponse()
    ensures Call(RESPONSE_NOT_FOUND) == Ok(Response("404 Not Found", [("Content-type", Text("text/html"))], ["Not Found"]))
  {
    ThreeDigits(404);
    var r := Call(RESPONSE_NOT_FOUND).value;
    assert r.status == "404 Not Found";
    assert r.headers == [("Content-type", Text("text/html"))];
  }

  /** A message is sent as `200 OK` with the message as the only body chunk. */
  lemma MessageResponse(msg: string)
    ensures Call(Message(msg)) == Ok(Response("200 OK", [("Content-type", Text("text/html"))], [msg]))
  {
    ThreeDigits(200);
    var r := Call(Message(msg)).value;
    assert r.status == "200 OK";
    assert r.headers == [("Content-type", Text("text/html"))];
  }

  /** Python's `s[n:]` for `n >= 0`: empty when `n` is past the end. */
  function Drop(s: string, n: nat): (r: string)
    ensures n <= |s| ==> r == s[n..]
    ensures n > |s| ==> r == []
  {
    if n <= |s| then s[n..] else []
  }

  /** A preloaded file: content, content type and length, in the order
      `_load_file` stores them. */
  datatype Entry = Entry(content: string, contentType: string, contentLength: nat)

  /** `WSGISimpleStatic`: the URL prefix and the files loaded below the root. */
  datatype Static = Static(prefix: string, files: map<string, Entry>)

  /** `_load_file(root, path)` once the file is read and its type guessed:
      the file is stored under its path with the root's length cut off. */
  function LoadFile(files: map<string, Entry>, root: string, path: string, content: string, contentType: string): (r: map<string, Entry>)
    ensures r.Keys == files.Keys + {Drop(path, |root|)}
    ensures r[Drop(path, |root|)].content == content && r[Drop(path, |root|)].contentLength == |content|
    ensures r[Drop(path, |root|)].contentType == contentType
    ensures forall k | k in files && k != Drop(path, |root|) :: r[k] == files[k]
  {
    files[Drop(path, |root|) := Entry(content, contentType, |content|)]
  }

  /** `WSGISimpleStatic.__call__` as written: the entry is unpacked as
      (content, length, type), so the stored length goes out as the value of
      Content-Type and the stored type as the value of Content-Length. */
  function StaticCallAsWritten(app: Static, environ: Environ): (r: Result<Response>)
    ensures PATH_INFO !in environ ==> r == Err(KEY_ERROR)
    ensures PATH_INFO in environ && Drop(environ[PATH_INFO], |app.prefix|) !in app.files ==> r == Call(RESPONSE_NOT_FOUND)
  {
    if PATH_INFO !in environ then Err(KEY_ERROR)
    else
      var path := Drop(environ[PATH_INFO], |app.prefix|);
      if path in app.files then
        var e := app.files[path];
        var (content, contentLength, contentType) := (e.content, e.contentType, e.contentLength);
        Ok(Response("200 OK", [("Content-Type", Number(contentType)), ("Content-Length", Text(contentLength))], [content]))
      else Call(RESPONSE_NOT_FOUND)
  }

  /** `WSGISimpleStatic.__call__` as intended: Content-Type carries the type
      and Content-Length the length. */
  function StaticCall(app: Static, environ: Environ): (r: Result<Response>)
    ensures PATH_INFO !in environ ==> r == Err(KEY_ERROR)
    ensures PATH_INFO in environ && Drop(environ[PATH_INFO], |app.prefix|) !in app.files ==> r == Call(RESPONSE_NOT_FOUND)
  {
    if PATH_INFO !in environ then Err(KEY_ERROR)
    else
      var path := Drop(environ[PATH_INFO], |app.prefix|);
      if path in app.files then
        var e := app.files[path];
        Ok(Response("200 OK", [("Content-Type", Text(e.contentType)), ("Content-Length", Number(e.contentLength))], [e.content]))
      else Call(RESPONSE_NOT_FOUND)
  }

  /** As written, a served file's Content-Type header holds its length and its
      Content-Length header holds its type. */
  lemma StaticHeadersSwapped(app: Static, environ: Environ)
    requires PATH_INFO in environ && Drop(environ[PATH_INFO], |app.prefix|) in app.files
    ensures var e := app.files[Drop(environ[PATH_INFO], |app.prefix|)];
      var h := StaticCallAsWritten(app, environ).value.headers;
      h == [("Content-Type", Number(e.contentLength)), ("Content-Length", Text(e.contentType))] &&
      h != StaticCall(app, environ).value.headers
  {
  }

  /** A file loaded from `root + rel` and requested as `prefix + rel` is sent
      with its content, its type and its length. */
  lemma LoadThenServe(files: map<string, Entry>, root: string, rel: string, content: string, contentType: string,
                      prefix: string, environ: Environ)
    requires PATH_INFO in environ && environ[PATH_INFO] == prefix + rel
    ensures var app := Static(prefix, LoadFile(files, root, root + rel, content, contentType));
      StaticCall(app, environ) ==
        Ok(Response("200 OK", [("Content-Type", Text(contentType)), ("Content-Length", Number(|content|))], [content]))
  {
    assert Drop(root + rel, |root|) == rel;
    assert Drop(prefix + rel, |prefix|) == rel;
  }

  /** The application the router sends a request to, or the response it
      gives itself. */
  datatype Target<A> = Forward(app: A) | Respond(response: Response)

  /** The first mapping, in `map` order, whose path is a prefix of `pathInfo`. */
  function Route<A>(mapping: seq<(string, A)>, pathInfo: string): (r: Option<A>)
    ensures r.Some? <==> exists i | 0 <= i < |mapping| :: StartsWith(pathInfo, mapping[i].0)
    ensures r.Some? ==> exists i | 0 <= i < |mapping| ::
      StartsWith(pathInfo, mapping[i].0) && r.value == mapping[i].1 &&
      forall j | 0 <= j < i :: !StartsWith(pathInfo, mapping[j].0)
    decreases |mapping|
  {
    if mapping == [] then None
    else if StartsWith(pathInfo, mapping[0].0) then Some(mapping[0].1)
    else
      var r := Route(mapping[1..], pathInfo);
      ShiftedMatches(mapping, pathInfo, r.Some?);
      r
  }

  /** Matches in the tail of a mapping whose head does not match are the
      matches of the mapping, shifted by one. */
  lemma ShiftedMatches<A>(mapping: seq<(string, A)>, pathInfo: string, found: bool)
    requires mapping != [] && !StartsWith(pathInfo, mapping[0].0)
    requires found <==> exists i | 0 <= i < |mapping[1..]| :: StartsWith(pathInfo, mapping[1..][i].0)
    ensures found <==> exists i | 0 <= i < |mapping| :: StartsWith(pathInfo, mapping[i].0)
  {
    if exists i | 0 <= i < |mapping| :: StartsWith(pathInfo, mapping[i].0) {
      var i :| 0 <= i < |mapping| && StartsWith(pathInfo, mapping[i].0);
      assert mapping[1..][i - 1] == mapping[i];
    }
    if found {
      var i :| 0 <= i < |mapping[1..]| && StartsWith(pathInfo, mapping[1..][i].0);
      assert mapping[i + 1] == mapping[1..][i];
    }
  }

  /** `WSGISimpleRouter.__call__`: the first matching application, else the
      not-found response; KeyError without PATH_INFO. */
  function Dispatch<A>(mapping: seq<(string, A)>, environ: Environ): (r: Result<Target<A>>)
    ensures PATH_INFO !in environ <==> r == Err(KEY_ERROR)
    ensures PATH_INFO in environ ==> match Route(mapping, environ[PATH_INFO])
      case Some(app) => r == Ok(Forward(app))
      case None => r == Ok(Respond(Call(RESPONSE_NOT_FOUND).value))
  {
    if PATH_INFO !in environ then Err(KEY_ERROR)
    else match Route(mapping, environ[PATH_INFO])
      case Some(app) => Ok(Forward(app))
      case None => Ok(Respond(Call(RESPONSE_NOT_FOUND).value))
  }

  /** A later `map` never takes a path away from an earlier mapping; a path no
      earlier mapping matches goes to the new one when its path is a prefix. */
  lemma {:induction false} MapAppends<A>(mapping: seq<(string, A)>, path: string, app: A, pathInfo: string)
    ensures Route(mapping, pathInfo).Some? ==> Route(mapping + [(path, app)], pathInfo) == Route(mapping, pathInfo)
    ensures Route(mapping, pathInfo).None? ==>
      Route(mapping + [(path, app)], pathInfo) == (if StartsWith(pathInfo, path) then Some(app) else None)
    decreases |mapping|
  {
    if mapping != [] {
      assert (mapping + [(path, app)])[1..] == mapping[1..] + [(path, app)];
      MapAppends(mapping[1..], path, app, pathInfo);
    }
  }

  /** `WSGISimpleRouter`. */
  class SimpleRouter<A> {
    var mapping: seq<(string, A)>

    constructor ()
      ensures mapping == []
    {
      mapping := [];
    }

    /** `map(path, application)`: appended after the earlier mappings. */
    method Map(path: string, app: A)
      modifies this
      ensures mapping == old(mapping) + [(path, app)]
    {
      mapping := mapping + [(path, app)];
    }

    /** `__call__` on the current mappings. */
    function Handle(environ: Environ): (r: Result<Target<A>>)
      reads this
      ensures PATH_INFO in environ && Route(mapping, environ[PATH_INFO]).None? ==>
        r == Ok(Respond(Call(RESPONSE_NOT_FOUND).value))
    {
      Dispatch(mapping, environ)
    }
  }
}
