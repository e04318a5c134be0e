/** The server side of the HTTP/1.1 codec in http/server.py: reading a request
    into a WSGI (PEP 333) environ, writing a response with chunked transfer
    coding (section 4.1 of RFC 7230) or a Content-length, the request body
    stream handed to the application, and the keep-alive decision.

    The reader is seen through the lines its `read_lines()` generator yields
    (each without its "\r\n", as `Buffered.BufferedReader.ReadLine` states);
    running out of lines is the EOFError the generator raises. The writer is
    seen through the bytes it is handed, in order. `urlparse` and the RFC 822
    date are parameters. */
module HttpServer {
  import opened Common
  import opened Http

  const STATE_INIT := 0
  const STATE_WAIT_FOR_REQUEST := 1
  const STATE_READING_HEADER := 2
  const STATE_READING_DATA := 3
  const STATE_REQUEST_READ := 4
  const STATE_WRITING_HEADER := 5
  const STATE_WRITING_DATA := 6
  const STATE_FINISHED := 7

  const SERVER_ID := "Concurrence-Http/0.3.1"

  /** The values the model keeps in the environ; the `wsgi.input`,
      `wsgi.errors` and `wsgi.version` objects are not among them. */
  datatype EnvValue = Text(text: string) | Number(number: int) | Flag(flag: bool)

  /** The environ keys the server sets: `Header(K)` is `'HTTP_' + K`, the
      others are the CGI and WSGI names of PEP 333 (REQUEST_METHOD,
      wsgi.url_scheme, ...). */
  datatype Key = Header(name: string) | RequestMethod | ScriptName | PathInfo | QueryString
               | UrlScheme | Multiprocess | Multithread | RunOnce
               | ContentLength | ContentType | ServerName | ServerPort | ServerProtocol

  type Environ = map<Key, EnvValue>

  /** The exceptions reading a request can raise. */
  datatype Failure = EOFError | IndexError | ValueError | TypeError | AssertionError | HTTPError(message: string)

  /** A value, or the exception raised instead. */
  datatype Step<T> = Done(value: T) | Fail(failure: Failure)

  // ---------------------------------------------------------------------
  // Header names

  /** `key.replace('-', '_').upper()`. */
  function NormalKey(key: string): (r: string)
    ensures |r| == |key| && forall i | 0 <= i < |key| :: r[i] == UpperChar(if key[i] == '-' then '_' else key[i])
  {
    Upper(ReplaceChar(key, '-', '_'))
  }

  /** The environ key of a request header, `'HTTP_' + NormalKey(key)`. */
  function HttpKey(key: string): Key
  {
    Header(NormalKey(key))
  }

  /** Header names that differ only in ASCII case and '-' versus '_' reach the
      same environ key. */
  lemma HttpKeyFolds(k1: string, k2: string)
    requires |k1| == |k2|
    requires forall i | 0 <= i < |k1| :: UpperChar(if k1[i] == '-' then '_' else k1[i]) == UpperChar(if k2[i] == '-' then '_' else k2[i])
    ensures HttpKey(k1) == HttpKey(k2)
  {
    assert NormalKey(k1) == NormalKey(k2);
  }

  // ---------------------------------------------------------------------
  // Reading a request

  /** One header line stored in the environ, under `HTTP_` + its normalised
      name, stripped, appended after a ',' to an earlier value of that name. */
  function HeaderStep(env: Environ, line: string): (r: Step<Environ>)
  {
    match HeaderSplit(line)
    case None => Fail(ValueError)
    case Some((k, v)) =>
      var key, value := Header(NormalKey(k)), Strip(v);
      if key !in env then Done(env[key := Text(value)])
      else if env[key].Text? then Done(env[key := Text(env[key].text + "," + value)])
      else Fail(TypeError)
  }

  /** Where the header loop stopped: the failure if any, the environ then, and
      the index of the first line not consumed. */
  datatype Headers = Headers(failure: Option<Failure>, env: Environ, next: nat)

  /** The header loop, from line `i`: up to an empty line (consumed), failing on
      a line that does not split, or at EOF. */
  function ReadHeaders(env: Environ, lines: seq<string>, i: nat): (r: Headers)
    requires i <= |lines|
    ensures i <= r.next <= |lines|
    ensures r.failure == Some(EOFError) ==> r.next == |lines|
    ensures r.failure.None? ==> i < r.next
    decreases |lines| - i
  {
    if i == |lines| then Headers(Some(EOFError), env, i)
    else if lines[i] == [] then Headers(None, env, i + 1)
    else match HeaderStep(env, lines[i])
      case Fail(e) => Headers(Some(e), env, i + 1)
      case Done(env') => ReadHeaders(env', lines, i + 1)
  }

  /** The values of the header lines from `i` up to the first empty line whose
      normalised name is `key`, in arrival order. */
  function ValuesFor(lines: seq<string>, i: nat, key: string): seq<string>
    requires i <= |lines|
    decreases |lines| - i
  {
    if i == |lines| || lines[i] == [] then []
    else match HeaderSplit(lines[i])
      case None => []
      case Some((k, v)) => (if NormalKey(k) == key then [Strip(v)] else []) + ValuesFor(lines, i + 1, key)
  }

  /** What one header line does to the entry of a normalised name `key`: a line
      of that name appends its value after a ',', any other leaves it alone. */
  lemma StepEffect(env: Environ, line: string, key: string)
    requires HeaderStep(env, line).Done?
    ensures HeaderSplit(line).Some?
    ensures var (k, v) := HeaderSplit(line).value; var e := HeaderStep(env, line).value; var hk := Header(key);
      (NormalKey(k) != key ==> (hk in e <==> hk in env) && (hk in env ==> e[hk] == env[hk])) &&
      (NormalKey(k) == key ==> (hk in e && (hk in env ==> env[hk].Text? && e[hk] == Text(env[hk].text + "," + Strip(v))) &&
        (hk !in env ==> e[hk] == Text(Strip(v)))))
  {
  }

  /** The entry of `key` holds the ','-join of `values`, and is absent while
      there are none. */
  predicate JoinedIn(env: Environ, key: string, values: seq<string>)
  {
    (values == [] ==> Header(key) !in env) &&
    (values != [] ==> Header(key) in env && env[Header(key)] == Text(JoinWith(values, ',')))
  }

  /** The value one header line contributes to `key`. */
  function Contribution(line: string, key: string): seq<string>
    requires HeaderSplit(line).Some?
  {
    var (k, v) := HeaderSplit(line).value;
    if NormalKey(k) == key then [Strip(v)] else []
  }

  /** One line keeps the join: the values so far plus this line's. */
  lemma JoinedStep(env: Environ, line: string, key: string, acc: seq<string>)
    requires HeaderStep(env, line).Done? && JoinedIn(env, key, acc)
    ensures HeaderSplit(line).Some? && JoinedIn(HeaderStep(env, line).value, key, acc + Contribution(line, key))
  {
    StepEffect(env, line, key);
    var (k, v) := HeaderSplit(line).value;
    var e, hk, c := HeaderStep(env, line).value, Header(key), Contribution(line, key);
    if NormalKey(k) != key {
      assert c == [] && acc + c == acc;
    } else {
      var sv := Strip(v);
      assert c == [sv] && e[hk] == (if hk in env then Text(env[hk].text + "," + sv) else Text(sv));
      if acc != [] {
        JoinWithSnoc(acc, sv, ',');
        assert e[hk] == Text(JoinWith(acc + c, ','));
      } else {
        assert acc + c == [sv] && JoinWith([sv], ',') == sv;
      }
    }
  }

  /** Repeated request headers are joined with ',' in arrival order: once the
      header block has been read without failure, `HTTP_K` holds the join of
      the earlier values `acc` and all values named K, and is absent when
      there are none. */
  lemma {:induction false} HeadersJoined(env: Environ, lines: seq<string>, i: nat, key: string, acc: seq<string>)
    requires i <= |lines| && ReadHeaders(env, lines, i).failure.None? && JoinedIn(env, key, acc)
    ensures JoinedIn(ReadHeaders(env, lines, i).env, key, acc + ValuesFor(lines, i, key))
    decreases |lines| - i
  {
    if i < |lines| && lines[i] != [] {
      var line := lines[i];
      JoinedStep(env, line, key, acc);
      var mine := Contribution(line, key);
      var later := ValuesFor(lines, i + 1, key);
      assert ValuesFor(lines, i, key) == mine + later;
      HeadersJoined(HeaderStep(env, line).value, lines, i + 1, key, acc + mine);
      SeqAssoc(acc, mine, later);
    } else {
      assert acc + ValuesFor(lines, i, key) == acc;
    }
  }

  lemma SeqAssoc(a: seq<string>, b: seq<string>, c: seq<string>)
    ensures a + b + c == a + (b + c)
  {
  }

  /** The fields of a `WSGIRequest` that reading a request sets: the state,
      the request line's parts, the environ, and the `_n` of the `wsgi.input`
      stream (None until that stream is made). */
  datatype Request = Request(state: int, verb: Option<string>, version: Option<string>, uri: Option<string>,
                             environ: Environ, stream: Option<Option<int>>)

  /** What `_read_request` leaves behind: the failure raised, if any, the
      fields as they are when it stops, and how many lines it consumed. */
  datatype Outcome = Outcome(failure: Option<Failure>, after: Request, consumed: nat)

  /** The `_n` the `WSGIInputStream` starts with: the Content-length, or None
      without one; chunked request bodies are refused (AssertionError) and a
      length that is not a number is a ValueError. */
  function InputLength(env: Environ): (r: Step<Option<int>>)
    ensures Header("TRANSFER_ENCODING") in env && env[Header("TRANSFER_ENCODING")] == Text("chunked") ==> r == Fail(AssertionError)
    ensures r == Done(None) <==> Header("CONTENT_LENGTH") !in env && !(Header("TRANSFER_ENCODING") in env && env[Header("TRANSFER_ENCODING")] == Text("chunked"))
    ensures r.Done? && r.value.Some? ==> (Header("CONTENT_LENGTH") in env && env[Header("CONTENT_LENGTH")].Text? &&
      ParseInt(env[Header("CONTENT_LENGTH")].text) == r.value)
  {
    var te := Header("TRANSFER_ENCODING");
    var cl := Header("CONTENT_LENGTH");
    if te in env && env[te] == Text("chunked") then Fail(AssertionError)
    else if cl !in env then Done(None)
    else if !env[cl].Text? then Fail(TypeError)
    else match ParseInt(env[cl].text)
      case None => Fail(ValueError)
      case Some(n) => Done(Some(n))
  }

  /** The WSGI copies of the content headers; every other entry stays. */
  function ContentCopies(env: Environ): (r: Environ)
    ensures forall k | k in env :: k in r
    ensures forall k | k in r && k != ContentLength && k != ContentType :: k in env && r[k] == env[k]
    ensures Header("CONTENT_LENGTH") in env ==> ContentLength in r && r[ContentLength] == env[Header("CONTENT_LENGTH")]
    ensures Header("CONTENT_TYPE") in env ==> ContentType in r && r[ContentType] == env[Header("CONTENT_TYPE")]
  {
    var e1 := if Header("CONTENT_LENGTH") in env then env[ContentLength := env[Header("CONTENT_LENGTH")]] else env;
    if Header("CONTENT_TYPE") in e1 then e1[ContentType := e1[Header("CONTENT_TYPE")]] else e1
  }

  /** The host and port of the Host rule (section 5.4 of RFC 7230): without a
      Host header only HTTP/1.0 is accepted, as 'localhost'; `host:port` is split
      with the port kept as text; a plain host gets the integer port 80. */
  function ServerAddress(env: Environ, version: string): (r: Step<(string, EnvValue)>)
    ensures Header("HOST") !in env && version != "HTTP/1.0" ==> r.Fail? && r.failure.HTTPError?
    ensures Header("HOST") !in env && version == "HTTP/1.0" ==> r == Done(("localhost", Number(80)))
    ensures Header("HOST") in env && env[Header("HOST")].Text? && ':' !in env[Header("HOST")].text ==>
      r == Done((env[Header("HOST")].text, Number(80)))
    ensures r.Done? && r.value.1.Text? ==> (Header("HOST") in env && env[Header("HOST")] == Text(r.value.0 + ":" + r.value.1.text) &&
      ':' !in r.value.0 && ':' !in r.value.1.text)
  {
    if Header("HOST") !in env then
      // 'localhost' has no ':', so it keeps the integer port
      if version != "HTTP/1.0" then Fail(HTTPError("Host header field is required in HTTP version > 1.0"))
      else Done(("localhost", Number(80)))
    else if !env[Header("HOST")].Text? then Fail(TypeError)
    else
      var host := env[Header("HOST")].text;
      if ':' in host then
        var parts := Split(host, ':');
        if |parts| != 2 then Fail(ValueError)
        else
          SplitJoin(host, ':');
          assert JoinWith(parts, ':') == parts[0] + [':'] + parts[1] by {
            assert parts[1..] == [parts[1]];
          }
          Done((parts[0], Text(parts[1])))
      else Done((host, Number(80)))
  }

  /** A Host header `name:port` gives that name and the port as text. */
  lemma HostPort(env: Environ, version: string, name: string, port: string)
    requires Header("HOST") in env && env[Header("HOST")] == Text(name + ":" + port) && ':' !in name && ':' !in port
    ensures ServerAddress(env, version) == Done((name, Text(port)))
  {
    SplitUnique(name, port);
  }

  lemma SplitUnique(name: string, port: string)
    requires ':' !in name && ':' !in port
    ensures Split(name + ":" + port, ':') == [name, port]
  {
    var host := name + ":" + port;
    assert host[|name|] == ':';
    assert forall j | 0 <= j < |name| :: host[j] == name[j];
    var f := FindChar(host, ':');
    assert f == Some(|name|);
    assert host[..|name|] == name && host[|name| + 1..] == port;
    var g := FindChar(port, ':');
    assert Split(host, ':') == [name] + [port];
  }

  /** The environ entries the request line sets. */
  function LineEntries(env: Environ, verb: string, path: string, query: string): (r: Environ)
    ensures RequestMethod in r && PathInfo in r && QueryString in r
    ensures r[RequestMethod] == Text(verb) && r[PathInfo] == Text(path) && r[QueryString] == Text(query)
    ensures forall k | k in env :: k in r
  {
    env[RequestMethod := Text(verb)][ScriptName := Text("")][PathInfo := Text(path)]
       [QueryString := Text(query)][UrlScheme := Text("http")]
       [Multiprocess := Flag(false)][Multithread := Flag(true)][RunOnce := Flag(false)]
  }

  /** The rest of `_read_request` once the header loop has stopped with `h`,
      from fields `r` that hold the request line. */
  function FinishRequest(h: Headers, r: Request, version: string): (o: Outcome)
    ensures o.failure.None? ==> o.after.state == STATE_REQUEST_READ
    ensures o.failure.Some? ==> o.after.state == r.state
    ensures o.consumed == h.next && o.after.verb == r.verb && o.after.version == r.version && o.after.uri == r.uri
    ensures h.failure.Some? ==> o.failure == h.failure && o.after.environ == h.env && o.after.stream == r.stream
    ensures o.failure.None? ==> (ServerProtocol in o.after.environ && o.after.environ[ServerProtocol] == Text(version) &&
      o.after.stream.Some?)
  {
    if h.failure.Some? then Outcome(h.failure, r.(environ := h.env), h.next)
    else
      var e1 := ContentCopies(h.env);
      match InputLength(e1)
      case Fail(f) => Outcome(Some(f), r.(environ := e1), h.next)
      case Done(n) =>
        match ServerAddress(e1, version)
        case Fail(f) => Outcome(Some(f), r.(environ := e1, stream := Some(n)), h.next)
        case Done((name, port)) =>
          var e2 := e1[ServerName := Text(name)][ServerPort := port][ServerProtocol := Text(version)];
          Outcome(None, r.(state := STATE_REQUEST_READ, environ := e2, stream := Some(n)), h.next)
  }

  /** `_read_request` on the lines the reader yields, from fields `r`. */
  function ReadRequestSpec(r: Request, lines: seq<string>, urlparse: string -> (string, string)): (o: Outcome)
    ensures o.consumed <= |lines|
    ensures o.failure.None? <==> o.after.state == STATE_REQUEST_READ
    ensures o.after.state == STATE_WAIT_FOR_REQUEST <==> lines == []
    ensures o.after.state in {STATE_WAIT_FOR_REQUEST, STATE_READING_HEADER, STATE_REQUEST_READ}
    ensures lines == [] ==> o.failure == Some(EOFError) && o.after == r.(state := STATE_WAIT_FOR_REQUEST)
    ensures o.failure.None? ==> (o.after.verb.Some? && (o.after.verb.value == "GET" || o.after.verb.value == "POST") &&
      o.after.version.Some? && o.after.uri.Some?)
  {
    if lines == [] then Outcome(Some(EOFError), r.(state := STATE_WAIT_FOR_REQUEST), 0)
    else
      var w := Words(lines[0]);
      if |w| < 2 then Outcome(Some(IndexError), r.(state := STATE_READING_HEADER), 1)
      else
        var r1 := r.(state := STATE_READING_HEADER, verb := Some(w[0]));
        if w[0] != "GET" && w[0] != "POST" then Outcome(Some(HTTPError("Unsupported method: " + w[0])), r1, 1)
        else if |w| < 3 then Outcome(Some(IndexError), r1, 1)
        else
          var u := urlparse(w[1]);
          var h := ReadHeaders(LineEntries(r.environ, w[0], u.0, u.1), lines, 1);
          FinishRequest(h, r1.(version := Some(w[2]), uri := Some(w[1])), w[2])
  }

  /** A request read from a fresh environ has, under `HTTP_K`, the ','-join
      of the values of all its header lines named K, in arrival order, and no
      such entry when there are none. */
  lemma RequestHeadersJoined(r: Request, lines: seq<string>, urlparse: string -> (string, string), key: string)
    requires forall k | k in r.environ :: !k.Header?
    ensures var o := ReadRequestSpec(r, lines, urlparse);
      o.failure.None? ==> JoinedIn(o.after.environ, key, ValuesFor(lines, 1, key))
  {
    if lines != [] && |Words(lines[0])| >= 3 {
      var w := Words(lines[0]);
      if w[0] == "GET" || w[0] == "POST" {
        var u := urlparse(w[1]);
        var e0 := LineEntries(r.environ, w[0], u.0, u.1);
        assert JoinedIn(e0, key, []);
        var h := ReadHeaders(e0, lines, 1);
        if h.failure.None? {
          HeadersJoined(e0, lines, 1, key, []);
          assert [] + ValuesFor(lines, 1, key) == ValuesFor(lines, 1, key);
          var r2 := r.(state := STATE_READING_HEADER, verb := Some(w[0]), version := Some(w[2]), uri := Some(w[1]));
          FinishKeepsHeaders(h, r2, w[2], key, ValuesFor(lines, 1, key));
        }
      }
    }
  }

  /** Finishing a request touches no `HTTP_` entry. */
  lemma FinishKeepsHeaders(h: Headers, r: Request, version: string, key: string, values: seq<string>)
    requires h.failure.None? && JoinedIn(h.env, key, values)
    ensures var o := FinishRequest(h, r, version); o.failure.None? ==> JoinedIn(o.after.environ, key, values)
  {
    var e1 := ContentCopies(h.env);
    assert JoinedIn(e1, key, values);
  }

  /** Only GET and POST requests are read. */
  lemma UnsupportedMethod(r: Request, lines: seq<string>, urlparse: string -> (string, string))
    requires lines != [] && |Words(lines[0])| >= 2 && Words(lines[0])[0] != "GET" && Words(lines[0])[0] != "POST"
    ensures ReadRequestSpec(r, lines, urlparse).failure == Some(HTTPError("Unsupported method: " + Words(lines[0])[0]))
  {
  }

  /** The header loop of `_read_request`, from the line after the request line. */
  method ReadHeaderLines(env: Environ, lines: seq<string>) returns (h: Headers)
    requires 1 <= |lines|
    ensures h == ReadHeaders(env, lines, 1)
  {
    var e := env;
    var i := 1;
    while true
      invariant 1 <= i <= |lines| && ReadHeaders(e, lines, i) == ReadHeaders(env, lines, 1)
      decreases |lines| - i
    {
      if i == |lines| {
        return Headers(Some(EOFError), e, i);
      }
      var line := lines[i];
      i := i + 1;
      if line == [] {
        return Headers(None, e, i);
      }
      var step := HeaderStep(e, line);
      if step.Fail? {
        return Headers(Some(step.failure), e, i);
      }
      e := step.value;
    }
  }

  // ---------------------------------------------------------------------
  // Writing a response

  /** The application's headers without Date and Server. */
  function Allowed(headers: seq<(string, string)>): (r: seq<(string, string)>)
    ensures |r| <= |headers|
    ensures forall i | 0 <= i < |r| :: r[i] in headers && r[i].0 != "Date" && r[i].0 != "Server"
  {
    if headers == [] then []
    else (if headers[0].0 == "Date" || headers[0].0 == "Server" then [] else [headers[0]]) + Allowed(headers[1..])
  }

  lemma {:induction false} AllowedSnoc(headers: seq<(string, string)>, h: (string, string))
    ensures Allowed(headers + [h]) == Allowed(headers) + (if h.0 == "Date" || h.0 == "Server" then [] else [h])
    decreases |headers|
  {
    if headers == [] {
      assert headers + [h] == [h];
    } else {
      assert (headers + [h])[1..] == headers[1..] + [h];
      AllowedSnoc(headers[1..], h);
    }
  }

  /** `"%s: %s\r\n"`. */
  function HeaderLine(h: (string, string)): string
  {
    h.0 + ": " + h.1 + "\r\n"
  }

  function HeaderText(headers: seq<(string, string)>): string
  {
    if headers == [] then [] else HeaderLine(headers[0]) + HeaderText(headers[1..])
  }

  lemma {:induction false} HeaderTextAppend(a: seq<(string, string)>, b: seq<(string, string)>)
    ensures HeaderText(a + b) == HeaderText(a) + HeaderText(b)
    decreases |a|
  {
    if a == [] {
      assert a + b == b;
    } else {
      assert (a + b)[1..] == a[1..] + b;
      HeaderTextAppend(a[1..], b);
    }
  }

  /** One chunk of the chunked coding as the server writes it: the size in hex
      followed by ';', the data, CRLF. */
  function EncodeChunk(chunk: string): string
  {
    Hex(|chunk|) + ";\r\n" + chunk + "\r\n"
  }

  function EncodeChunks(chunks: seq<string>): string
  {
    if chunks == [] then [] else EncodeChunk(chunks[0]) + EncodeChunks(chunks[1..])
  }

  lemma {:induction false} EncodeChunksAppend(a: seq<string>, b: seq<string>)
    ensures EncodeChunks(a + b) == EncodeChunks(a) + EncodeChunks(b)
    decreases |a|
  {
    if a == [] {
      assert a + b == b;
    } else {
      assert (a + b)[1..] == a[1..] + b;
      EncodeChunksAppend(a[1..], b);
    }
  }

  /** The chunks with the empty ones dropped. An empty chunk would be written
      as "0;\r\n\r\n", which a reader takes for the end of the body, so the
      corrected writer leaves it out; the body's bytes do not change. */
  function NonEmpty(chunks: seq<string>): (r: seq<string>)
    ensures forall i | 0 <= i < |r| :: r[i] != [] && r[i] in chunks
    ensures Join(r) == Join(chunks)
  {
    if chunks == [] then []
    else if chunks[0] == [] then NonEmpty(chunks[1..])
    else [chunks[0]] + NonEmpty(chunks[1..])
  }

  /** Without empty chunks there is nothing to leave out. */
  lemma {:induction false} NonEmptyKeepsAll(chunks: seq<string>)
    ensures (forall i | 0 <= i < |chunks| :: chunks[i] != []) ==> NonEmpty(chunks) == chunks
    decreases |chunks|
  {
    if chunks != [] && forall i | 0 <= i < |chunks| :: chunks[i] != [] {
      NonEmptyKeepsAll(chunks[1..]);
      assert forall i | 0 <= i < |chunks[1..]| :: chunks[1..][i] == chunks[i + 1];
      assert [chunks[0]] + chunks[1..] == chunks;
    }
  }

  lemma {:induction false} NonEmptySnoc(a: seq<string>, x: string)
    ensures NonEmpty(a + [x]) == NonEmpty(a) + (if x == [] then [] else [x])
    decreases |a|
  {
    if a == [] {
      assert [x][1..] == [];
    } else {
      assert (a + [x])[1..] == a[1..] + [x];
      NonEmptySnoc(a[1..], x);
    }
  }

  /** The header that frames the body. */
  function Framing(chunked: bool, length: nat): (string, string)
  {
    if chunked then ("Transfer-Encoding", "chunked") else ("Content-length", IntToText(length))
  }

  /** The header lines the server emits after the status line: the allowed
      application headers, then one Date, one Server and the framing header. */
  function EmittedHeaders(headers: seq<(string, string)>, date: string, chunked: bool, length: nat): seq<(string, string)>
  {
    Allowed(headers) + [("Date", date), ("Server", SERVER_ID), Framing(chunked, length)]
  }

  function CountName(headers: seq<(string, string)>, name: string): nat
  {
    if headers == [] then 0 else (if headers[0].0 == name then 1 else 0) + CountName(headers[1..], name)
  }

  lemma {:induction false} CountAppend(a: seq<(string, string)>, b: seq<(string, string)>, name: string)
    ensures CountName(a + b, name) == CountName(a, name) + CountName(b, name)
    decreases |a|
  {
    if a != [] {
      assert (a + b)[1..] == a[1..] + b;
      CountAppend(a[1..], b, name);
    } else {
      assert a + b == b;
    }
  }

  /** Application headers named Date or Server never get through. */
  lemma {:induction false} AllowedDrops(headers: seq<(string, string)>)
    ensures CountName(Allowed(headers), "Date") == 0 && CountName(Allowed(headers), "Server") == 0
    decreases |headers|
  {
    if headers != [] {
      var first := if headers[0].0 == "Date" || headers[0].0 == "Server" then [] else [headers[0]];
      AllowedDrops(headers[1..]);
      CountAppend(first, Allowed(headers[1..]), "Date");
      CountAppend(first, Allowed(headers[1..]), "Server");
    }
  }

  /** Every application header other than Date and Server is emitted, in the
      application's order. */
  lemma {:induction false} AllowedKeeps(headers: seq<(string, string)>, i: nat, j: nat)
    requires i < j < |headers|
    requires headers[i].0 != "Date" && headers[i].0 != "Server" && headers[j].0 != "Date" && headers[j].0 != "Server"
    ensures exists a, b | 0 <= a < b < |Allowed(headers)| :: Allowed(headers)[a] == headers[i] && Allowed(headers)[b] == headers[j]
    decreases |headers|
  {
    var tail, al := headers[1..], Allowed(headers);
    var rest := Allowed(tail);
    assert tail[j - 1] == headers[j];
    if i == 0 {
      InAllowed(tail, j - 1);
      assert al == [headers[0]] + rest;
      PairHead(headers[0], rest, headers[j]);
    } else {
      assert tail[i - 1] == headers[i];
      AllowedKeeps(tail, i - 1, j - 1);
      var first := if headers[0].0 == "Date" || headers[0].0 == "Server" then [] else [headers[0]];
      assert al == first + rest;
      PairShift(first, rest, headers[i], headers[j]);
    }
  }

  /** x at the head of s comes before any y in s. */
  lemma PairHead<T>(x: T, s: seq<T>, y: T)
    requires y in s
    ensures exists a, b | 0 <= a < b < |[x] + s| :: ([x] + s)[a] == x && ([x] + s)[b] == y
  {
    var b :| 0 <= b < |s| && s[b] == y;
    assert ([x] + s)[0] == x && ([x] + s)[b + 1] == y;
  }

  /** Putting items in front keeps x before y. */
  lemma PairShift<T>(first: seq<T>, s: seq<T>, x: T, y: T)
    requires exists a, b | 0 <= a < b < |s| :: s[a] == x && s[b] == y
    ensures exists a, b | 0 <= a < b < |first + s| :: (first + s)[a] == x && (first + s)[b] == y
  {
    var a, b :| 0 <= a < b < |s| && s[a] == x && s[b] == y;
    assert (first + s)[a + |first|] == x && (first + s)[b + |first|] == y;
  }

  lemma {:induction false} InAllowed(headers: seq<(string, string)>, j: nat)
    requires j < |headers| && headers[j].0 != "Date" && headers[j].0 != "Server"
    ensures exists b | 0 <= b < |Allowed(headers)| :: Allowed(headers)[b] == headers[j]
    decreases |headers|
  {
    var first := if headers[0].0 == "Date" || headers[0].0 == "Server" then [] else [headers[0]];
    var rest := Allowed(headers[1..]);
    assert Allowed(headers) == first + rest;
    if j == 0 {
      assert Allowed(headers)[0] == headers[0];
    } else {
      InAllowed(headers[1..], j - 1);
      var b :| 0 <= b < |rest| && rest[b] == headers[j];
      assert Allowed(headers)[b + |first|] == headers[j];
    }
  }

  /** Exactly one Date and one Server header go out, whatever the application
      supplied. */
  lemma OneDateOneServer(headers: seq<(string, string)>, date: string, chunked: bool, length: nat)
    ensures CountName(EmittedHeaders(headers, date, chunked, length), "Date") == 1
    ensures CountName(EmittedHeaders(headers, date, chunked, length), "Server") == 1
  {
    var a := Allowed(headers);
    var tail := [("Date", date), ("Server", SERVER_ID), Framing(chunked, length)];
    AllowedDrops(headers);
    CountAppend(a, tail, "Date");
    CountAppend(a, tail, "Server");
    CountTail(tail, Framing(chunked, length).0);
  }

  /** The three headers the server adds count once each. */
  lemma CountTail(tail: seq<(string, string)>, framing: string)
    requires |tail| == 3 && tail[0].0 == "Date" && tail[1].0 == "Server" && tail[2].0 == framing
    requires framing == "Transfer-Encoding" || framing == "Content-length"
    ensures CountName(tail, "Date") == 1 && CountName(tail, "Server") == 1
  {
    var t1 := tail[1..];
    var t2 := t1[1..];
    assert t2[1..] == [];
    assert framing != "Date" && framing != "Server" by {
      assert |framing| != |"Date"| && |framing| != |"Server"|;
    }
    assert "Date" != "Server" by { assert |"Date"| != |"Server"|; }
    assert CountName(t2, "Date") == 0 && CountName(t2, "Server") == 0;
    assert CountName(t1, "Date") == 0 && CountName(t1, "Server") == 1;
  }

  /** `"%s" % version` (None prints as "None"). */
  function VersionText(version: Option<string>): string
  {
    if version.Some? then version.value else "None"
  }

  /** Everything up to the body: status line, headers, blank line. */
  function ResponseHead(version: Option<string>, status: string, headers: seq<(string, string)>,
                        date: string, chunked: bool, length: nat): string
  {
    VersionText(version) + " " + status + "\r\n" + HeaderText(EmittedHeaders(headers, date, chunked, length)) + "\r\n"
  }

  /** The bytes `write_response` hands to the writer: the head, then the
      chunked body with its "0\r\n\r\n" terminator for anything but HTTP/1.0, or
      the joined body after its Content-length. */
  function ResponseText(version: Option<string>, status: string, headers: seq<(string, string)>,
                        response: seq<string>, date: string): (r: string)
    ensures VersionText(version) + " " + status + "\r\n" <= r
    ensures version != Some("HTTP/1.0") ==> |r| >= 5 && r[|r| - 5..] == "0\r\n\r\n"
  {
    var chunked := version != Some("HTTP/1.0");
    var head, body := ResponseHead(version, status, headers, date, chunked, |Join(response)|), ResponseBody(response, chunked);
    assert chunked ==> (head + body)[|head + body| - 5..] == "0\r\n\r\n" by {
      if chunked {
        assert head + body == (head + EncodeChunks(response)) + "0\r\n\r\n";
      }
    }
    head + body
  }

  /** The body as `write_response` writes it: every chunk with its size line,
      an empty one included, then the terminator; or the joined body. */
  function ResponseBody(response: seq<string>, chunked: bool): (r: string)
    ensures (forall i | 0 <= i < |response| :: response[i] != []) ==> r == CorrectedBody(response, chunked)
  {
    NonEmptyKeepsAll(response);
    if chunked then EncodeChunks(response) + "0\r\n\r\n" else Join(response)
  }

  /** The corrected body writer: empty chunks are left out of the chunked
      coding, so none of them is taken for the last chunk. */
  function CorrectedBody(response: seq<string>, chunked: bool): string
  {
    if chunked then EncodeChunks(NonEmpty(response)) + "0\r\n\r\n" else Join(response)
  }

  /** The emitted headers' text, piece by piece. */
  lemma EmittedText(headers: seq<(string, string)>, date: string, chunked: bool, length: nat)
    ensures HeaderText(EmittedHeaders(headers, date, chunked, length)) ==
      HeaderText(Allowed(headers)) + (HeaderLine(("Date", date)) + (HeaderLine(("Server", SERVER_ID)) + HeaderLine(Framing(chunked, length))))
  {
    var tail := [("Date", date), ("Server", SERVER_ID), Framing(chunked, length)];
    HeaderTextAppend(Allowed(headers), tail);
    assert tail[1..][1..][1..] == [];
    assert HeaderText(tail[1..][1..]) == HeaderLine(Framing(chunked, length)) + [];
  }

  /** The application's headers as written, Date and Server skipped. */
  method WriteHeaders(headers: seq<(string, string)>) returns (text: string)
    ensures text == HeaderText(Allowed(headers))
  {
    text := [];
    var i := 0;
    while i < |headers|
      invariant 0 <= i <= |headers|
      invariant text == HeaderText(Allowed(headers[..i]))
    {
      var h := headers[i];
      AllowedSnoc(headers[..i], h);
      assert headers[..i + 1] == headers[..i] + [h];
      if h.0 != "Date" && h.0 != "Server" {
        HeaderTextAppend(Allowed(headers[..i]), [h]);
        text := text + HeaderLine(h);
      } else {
        assert Allowed(headers[..i]) + [] == Allowed(headers[..i]);
      }
      i := i + 1;
    }
    assert headers[..i] == headers;
  }

  /** One more chunk adds its encoding, or nothing when it is empty. */
  lemma ChunkWritten(written: seq<string>, chunk: string)
    ensures EncodeChunks(NonEmpty(written + [chunk])) ==
      EncodeChunks(NonEmpty(written)) + (if chunk == [] then [] else EncodeChunk(chunk))
  {
    NonEmptySnoc(written, chunk);
    if chunk != [] {
      EncodeChunksAppend(NonEmpty(written), [chunk]);
      assert EncodeChunks([chunk]) == EncodeChunk(chunk) + [];
    } else {
      assert NonEmpty(written) + [] == NonEmpty(written);
    }
  }

  /** One chunk as written: its size in hex, `;` and CRLF, the data, CRLF. */
  method WriteChunk(chunk: string) returns (piece: string)
    ensures piece == EncodeChunk(chunk)
  {
    piece := Hex(|chunk|) + ";\r\n";
    piece := piece + chunk;
    piece := piece + "\r\n";
  }

  /** The chunks as `write_response` writes them, each with its size line and
      CRLF, an empty chunk as well. */
  method WriteChunks(response: seq<string>) returns (text: string)
    ensures text == EncodeChunks(response)
  {
    text := [];
    var k := 0;
    while k < |response|
      invariant 0 <= k <= |response|
      invariant text == EncodeChunks(response[..k])
    {
      assert response[..k + 1] == response[..k] + [response[k]];
      EncodeChunksAppend(response[..k], [response[k]]);
      assert EncodeChunks([response[k]]) == EncodeChunk(response[k]) + [];
      var piece := WriteChunk(response[k]);
      text := text + piece;
      k := k + 1;
    }
    assert response[..k] == response;
  }

  /** The corrected chunk loop: only the non-empty chunks are written. */
  method WriteNonEmptyChunks(response: seq<string>) returns (text: string)
    ensures text == EncodeChunks(NonEmpty(response))
  {
    text := [];
    var k := 0;
    while k < |response|
      invariant 0 <= k <= |response|
      invariant text == EncodeChunks(NonEmpty(response[..k]))
    {
      assert response[..k + 1] == response[..k] + [response[k]];
      ChunkWritten(response[..k], response[k]);
      if response[k] != [] {
        var piece := WriteChunk(response[k]);
        text := text + piece;
      }
      k := k + 1;
    }
    assert response[..k] == response;
  }

  /** The status line and the header block, written in order. */
  method WriteHead(version: Option<string>, status: string, headers: seq<(string, string)>,
                   date: string, chunked: bool, length: nat) returns (head: string)
    ensures head == ResponseHead(version, status, headers, date, chunked, length)
  {
    var statusLine := VersionText(version) + " " + status + "\r\n";
    var allowed := WriteHeaders(headers);
    var dateLine := HeaderLine(("Date", date));
    var server := HeaderLine(("Server", SERVER_ID));
    var framing := HeaderLine(Framing(chunked, length));
    EmittedText(headers, date, chunked, length);
    head := statusLine + (allowed + (dateLine + (server + framing))) + "\r\n";
  }

  /** The body: chunked and terminated, or as it is. */
  method WriteBody(response: seq<string>, chunked: bool) returns (body: string)
    ensures body == ResponseBody(response, chunked)
  {
    if chunked {
      var chunks := WriteChunks(response);
      body := chunks + "0\r\n\r\n";
    } else {
      body := Join(response);
    }
  }

  /** The corrected body writer. */
  method WriteCorrectedBody(response: seq<string>, chunked: bool) returns (body: string)
    ensures body == CorrectedBody(response, chunked)
  {
    if chunked {
      var chunks := WriteNonEmptyChunks(response);
      body := chunks + "0\r\n\r\n";
    } else {
      body := Join(response);
    }
  }

  /** `_read_request` up to the point where it stops, on locals. */
  method ParseRequest(r: Request, lines: seq<string>, urlparse: string -> (string, string)) returns (o: Outcome)
    ensures o == ReadRequestSpec(r, lines, urlparse)
  {
    if lines == [] {
      return Outcome(Some(EOFError), r.(state := STATE_WAIT_FOR_REQUEST), 0);
    }
    var line := Words(lines[0]);
    if |line| < 2 {
      return Outcome(Some(IndexError), r.(state := STATE_READING_HEADER), 1);
    }
    var u := urlparse(line[1]);
    var r1 := r.(state := STATE_READING_HEADER, verb := Some(line[0]));
    if line[0] != "GET" && line[0] != "POST" {
      return Outcome(Some(HTTPError("Unsupported method: " + line[0])), r1, 1);
    }
    if |line| < 3 {
      return Outcome(Some(IndexError), r1, 1);
    }
    var h := ReadHeaderLines(LineEntries(r.environ, line[0], u.0, u.1), lines);
    o := FinishRequest(h, r1.(version := Some(line[2]), uri := Some(line[1])), line[2]);
  }

  /** The value of the first pair named exactly `key`, searching from `i`. */
  function FirstValue(headers: seq<(string, string)>, key: string, i: nat): (r: Option<string>)
    requires i <= |headers|
    ensures r.None? <==> forall j | i <= j < |headers| :: headers[j].0 != key
    ensures r.Some? ==> exists j | i <= j < |headers| :: (headers[j] == (key, r.value) &&
      forall m | i <= m < j :: headers[m].0 != key)
    decreases |headers| - i
  {
    if i == |headers| then None
    else if headers[i].0 == key then Some(headers[i].1)
    else FirstValue(headers, key, i + 1)
  }

  /** The keep-alive rule of the handler's control loop: once a response has
      been written the connection is closed for HTTP/1.0, when the first
      application header named exactly `Connection` says "close", or when the
      request's `HTTP_CONNECTION` entry is "close"; otherwise the loop waits
      for the next request on the same connection. */
  function ClosesConnection(version: Option<string>, responseHeaders: seq<(string, string)>, environ: Environ): (r: bool)
    ensures r <==> (version == Some("HTTP/1.0") ||
      (exists i | 0 <= i < |responseHeaders| :: responseHeaders[i] == ("Connection", "close") &&
        forall j | 0 <= j < i :: responseHeaders[j].0 != "Connection") ||
      (Header("CONNECTION") in environ && environ[Header("CONNECTION")] == Text("close")))
  {
    version == Some("HTTP/1.0") || FirstValue(responseHeaders, "Connection", 0) == Some("close") ||
    (Header("CONNECTION") in environ && environ[Header("CONNECTION")] == Text("close"))
  }

  /** `get_request_header('Connection')` looks up `HTTP_CONNECTION`. */
  lemma ConnectionKey()
    ensures HttpKey("Connection") == Header("CONNECTION")
  {
    NoDash();
    UpperConnection();
  }

  lemma NoDash()
    ensures ReplaceChar("Connection", '-', '_') == "Connection"
  {
    var s := "Connection";
    assert forall i | 0 <= i < |s| :: s[i] != '-';
  }

  lemma UpperConnection()
    ensures Upper("Connection") == "CONNECTION"
  {
    var s, t := "Connection", "CONNECTION";
    assert UpperChar('C') == 'C' && UpperChar('o') == 'O' && UpperChar('n') == 'N' && UpperChar('e') == 'E';
    assert UpperChar('c') == 'C' && UpperChar('t') == 'T' && UpperChar('i') == 'I';
    assert s == ['C', 'o', 'n', 'n', 'e', 'c', 't', 'i', 'o', 'n'];
    assert t == ['C', 'O', 'N', 'N', 'E', 'C', 'T', 'I', 'O', 'N'];
  }

  /** A request read with one `Connection: close` line (in any letter case of
      the name) closes the connection after its response, whatever the
      application answered. */
  lemma RequestAsksClose(r: Request, lines: seq<string>, urlparse: string -> (string, string),
                         responseHeaders: seq<(string, string)>)
    requires forall k | k in r.environ :: !k.Header?
    requires 1 <= |lines| && ValuesFor(lines, 1, "CONNECTION") == ["close"]
    ensures var o := ReadRequestSpec(r, lines, urlparse);
      o.failure.None? ==> ClosesConnection(o.after.version, responseHeaders, o.after.environ)
  {
    RequestHeadersJoined(r, lines, urlparse, "CONNECTION");
    assert JoinWith(["close"], ',') == "close";
  }

  /** An HTTP/1.1 request with no `Connection` line, answered without a
      `Connection` header, keeps the connection open for the next request. */
  lemma KeepAlive(r: Request, lines: seq<string>, urlparse: string -> (string, string),
                  responseHeaders: seq<(string, string)>)
    requires forall k | k in r.environ :: !k.Header?
    requires 1 <= |lines| && ValuesFor(lines, 1, "CONNECTION") == []
    requires forall i | 0 <= i < |responseHeaders| :: responseHeaders[i].0 != "Connection"
    ensures var o := ReadRequestSpec(r, lines, urlparse);
      o.failure.None? && o.after.version != Some("HTTP/1.0") ==>
      !ClosesConnection(o.after.version, responseHeaders, o.after.environ)
  {
    RequestHeadersJoined(r, lines, urlparse, "CONNECTION");
  }

  // ---------------------------------------------------------------------
  // The request object

  /** `WSGIRequest`: one request of a connection, from reading to writing. */
  class WSGIRequest {
    var state: int
    var version: Option<string>
    var verb: Option<string>  // `method`
    var uri: Option<string>
    var environ: Environ
    var status: string
    var responseHeaders: seq<(string, string)>
    /** None until `wsgi.input` is made; then the `_n` it starts with. */
    var stream: Option<Option<int>>

    /** The fields reading a request sets. */
    function Fields(): Request
      reads this
    {
      Request(state, verb, version, uri, environ, stream)
    }

    /** A new request: nothing read, status 404 until the application answers. */
    constructor ()
      ensures Fields() == Request(STATE_INIT, None, None, None, map[], None)
      ensures status == "404" && responseHeaders == []
    {
      state, version, verb, uri := STATE_INIT, None, None, None;
      environ, status, responseHeaders, stream := map[], "404", [], None;
    }

    /** `start_response(status, response_headers)`. */
    method StartResponse(status: string, headers: seq<(string, string)>)
      modifies this
      ensures this.status == status && responseHeaders == headers && Fields() == old(Fields())
    {
      this.status, responseHeaders := status, headers;
    }

    /** `get_response_header(key)`: the first application header with exactly
        that name. */
    function GetResponseHeader(key: string): (r: Option<string>)
      reads this
      ensures r.None? <==> forall i | 0 <= i < |responseHeaders| :: responseHeaders[i].0 != key
      ensures r.Some? ==> exists i | 0 <= i < |responseHeaders| :: (responseHeaders[i] == (key, r.value) &&
        forall j | 0 <= j < i :: responseHeaders[j].0 != key)
    {
      FirstValue(responseHeaders, key, 0)
    }

    /** `get_request_header(key)`: looked up under its `HTTP_` environ key. */
    function GetRequestHeader(key: string): (r: Option<EnvValue>)
      reads this
      ensures r.Some? <==> HttpKey(key) in environ
      ensures r.Some? ==> r.value == environ[HttpKey(key)]
    {
      if HttpKey(key) in environ then Some(environ[HttpKey(key)]) else None
    }

    /** `_read_request(reader)` on the lines the reader yields; returns the
        failure, if any, and how many lines were consumed. */
    method ReadRequest(lines: seq<string>, urlparse: string -> (string, string)) returns (failure: Option<Failure>, consumed: nat)
      modifies this
      ensures var o := ReadRequestSpec(old(Fields()), lines, urlparse);
        failure == o.failure && consumed == o.consumed && Fields() == o.after
      ensures status == old(status) && responseHeaders == old(responseHeaders)
    {
      var o := ParseRequest(Fields(), lines, urlparse);
      state, verb, version, uri, environ, stream := o.after.state, o.after.verb, o.after.version, o.after.uri, o.after.environ, o.after.stream;
      return o.failure, o.consumed;
    }

    /** `write_response(response, writer)`: returns the bytes handed to the
        (cleared) writer, in order, and ends FINISHED. */
    method WriteResponse(response: seq<string>, date: string) returns (out: string)
      modifies this
      ensures out == ResponseText(version, status, responseHeaders, response, date)
      ensures Fields() == old(Fields()).(state := STATE_FINISHED)
      ensures status == old(status) && responseHeaders == old(responseHeaders)
    {
      state := STATE_WRITING_HEADER;
      var chunked := version != Some("HTTP/1.0");
      var head := WriteHead(version, status, responseHeaders, date, chunked, |Join(response)|);
      state := STATE_WRITING_DATA;
      var body := WriteBody(response, chunked);
      out := head + body;
      state := STATE_FINISHED;
    }
  }

  // ---------------------------------------------------------------------
  // The request body

  /** `WSGIInputStream`: hands the application at most Content-length bytes of
      the input that follows the header block. */
  class WSGIInputStream {
    /** `_n`: what is left of the Content-length, or None. */
    var left: Option<int>
    /** The reader's unread bytes, as `CompatibleFile.read` sees them. */
    var input: string

    constructor (left: Option<int>, input: string)
      ensures this.left == left && this.input == input
    {
      this.left, this.input := left, input;
    }

    /** `read(n)`: at most `min(_n, n)` bytes while some of the length is left,
        '' once it is used up (or there was none). As `CompatibleFile.read`
        reads everything for -1, a call with n = -1 is not bounded by the length. */
    method Read(n: int) returns (data: string)
      modifies this
      ensures !(old(left).Some? && old(left).value > 0) ==> data == [] && left == old(left) && input == old(input)
      ensures old(left).Some? && old(left).value > 0 ==>
        var m := Min2(old(left).value, n);
        var k := if m == -1 then |old(input)| else Min2(if m < 0 then 0 else m, |old(input)|);
        data == old(input)[..k] && input == old(input)[k..] &&
        left == (if old(left).value - k == 0 then None else Some(old(left).value - k))
      ensures old(left).Some? && n >= 0 ==> |data| <= n && (old(left).value >= 0 ==> |data| <= old(left).value)
    {
      if left.Some? && left.value > 0 {
        var m := Min2(left.value, n);
        var k := if m == -1 then |input| else Min2(if m < 0 then 0 else m, |input|);
        data := input[..k];
        input := input[k..];
        var rest := left.value - |data|;
        left := if rest == 0 then None else Some(rest);
      } else {
        data := [];
      }
    }
  }

  function Min2(a: int, b: int): (r: int)
    ensures r <= a && r <= b && (r == a || r == b)
  {
    if a <= b then a else b
  }
}
