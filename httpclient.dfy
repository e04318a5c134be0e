/** The HTTP/1.1 client `HTTPConnection`: it builds GET and POST requests for
    the host it was connected to, writes them as text through a buffered
    writer, and reads responses back through a buffered reader, line by line
    for the head and in pieces for the body (chunked, or by Content-Length). */
module HttpClient {
  import opened Common
  import opened IOBuffer
  import opened Buffered
  import opened Http
  import HttpServer

  /** `CHUNK_SIZE`: the largest single read of a body framed by Content-Length. */
  const CHUNK_SIZE: nat := 4096

  /** An outcome of reading: a value, EOF (EOFError), or any other exception
      (a header that does not split at one ": ", a bad chunk size, a response
      with neither framing). */
  datatype Recv<T> = Got(value: T) | Eof | Broken

  /** An outcome and the input left after it. */
  datatype Taken<T> = Taken(out: Recv<T>, rest: string)

  /** `acc` in front of a successful outcome; failures pass through. */
  function Lead<T>(acc: seq<T>, t: Taken<seq<T>>): Taken<seq<T>>
  {
    if t.out.Got? then Taken(Got(acc + t.out.value), t.rest) else t
  }

  lemma LeadLead<T>(a: seq<T>, b: seq<T>, t: Taken<seq<T>>)
    ensures Lead(a, Lead(b, t)) == Lead(a + b, t)
  {
    if t.out.Got? {
      assert a + (b + t.out.value) == (a + b) + t.out.value;
    }
  }

  lemma LeadNone<T>(t: Taken<seq<T>>)
    ensures Lead([], t) == t
  {
    if t.out.Got? {
      assert [] + t.out.value == t.out.value;
    }
  }

  // ---------------------------------------------------------------------
  // Python's int(x, 16)

  /** Python's `int(s, 16)`: optional surrounding blanks, an optional sign, an
      optional "0x" or "0X", then hex digits of either case; None stands for
      ValueError. */
  function ParseHexInt(s: string): (r: Option<int>)
    ensures r.Some? ==> Strip(s) != []
  {
    var t := Strip(s);
    var neg := t != [] && t[0] == '-';
    var u := if t != [] && (t[0] == '-' || t[0] == '+') then t[1..] else t;
    var d := if |u| >= 2 && u[0] == '0' && (u[1] == 'x' || u[1] == 'X') then u[2..] else u;
    match DigitsValue(d, 16)
      case None => None
      case Some(v) => Some(if neg then 0 - v as int else v as int)
  }

  /** The size written as "%x" is read back by `int(..., 16)`. */
  lemma HexIntRoundTrip(n: nat)
    ensures ParseHexInt(Hex(n)) == Some(n)
  {
    var d := Hex(n);
    TextIsDigits(n, 16);
    DigitsNoBlank(d);
    NoBlankStrip(d);
    HexRoundTrip(n);
    assert d[0] != '-' && d[0] != '+';
    assert |d| >= 2 ==> d[1] != 'x' && d[1] != 'X';
  }

  /** `int(chunk_line.split(';')[0], 16)`. */
  function ChunkSize(line: string): Option<int>
  {
    ParseHexInt(Split(line, ';')[0])
  }

  /** The size line the server writes, "%x;", gives the size back. */
  lemma ChunkLineSize(n: nat)
    ensures ChunkSize(Hex(n) + ";") == Some(n)
    ensures '\n' !in Hex(n) + ";"
  {
    var d := Hex(n);
    TextIsDigits(n, 16);
    var line := d + ";";
    forall j | 0 <= j < |d| ensures line[j] != ';' && line[j] != '\n' {
      assert line[j] == d[j];
    }
    assert line[|d|] == ';';
    assert FindChar(line, ';') == Some(|d|);
    assert line[..|d|] == d && line[|d| + 1..] == [];
    assert Split(line, ';') == [d] + Split([], ';');
    HexIntRoundTrip(n);
  }

  // ---------------------------------------------------------------------
  // Reading a response: `_receive`

  /** The header lines after the status line, up to the empty line, each split
      at its one ": "; Broken at a line that does not split so, Eof when the
      input gives out first. */
  function HeaderBlock(u: string, capacity: nat): Taken<seq<(string, string)>>
    decreases |u|
  {
    match NextLine(u, capacity)
      case None => Taken(Eof, u)
      case Some((line, after)) =>
        if line == [] then Taken(Got([]), after)
        else match HeaderSplit(line)
          case None => Taken(Broken, after)
          case Some(kv) => Lead([kv], HeaderBlock(after, capacity))
  }

  /** The chunked body: a size line (hex, up to any ';'); a positive size is
      followed by that many bytes and one more line, and reading goes on; any
      other size ends the body after one more line. */
  function Chunks(u: string, capacity: nat): Taken<seq<string>>
    decreases |u|
  {
    match NextLine(u, capacity)
      case None => Taken(Eof, u)
      case Some((line, r1)) =>
        match ChunkSize(line)
          case None => Taken(Broken, r1)
          case Some(n) =>
            if n > 0 then
              if n > |r1| then Taken(Eof, r1)
              else match NextLine(r1[n..], capacity)
                case None => Taken(Eof, r1[n..])
                case Some((_, r2)) => Lead([r1[..n]], Chunks(r2, capacity))
            else match NextLine(r1, capacity)
              case None => Taken(Eof, r1)
              case Some((_, r2)) => Taken(Got([]), r2)
  }

  /** A body of `n` bytes read in pieces of at most CHUNK_SIZE. */
  function LengthBody(u: string, n: int): Taken<seq<string>>
    decreases n
  {
    if n <= 0 then Taken(Got([]), u)
    else
      var k := Min(CHUNK_SIZE, n);
      if k > |u| then Taken(Eof, u) else Lead([u[..k]], LengthBody(u[k..], n - k))
  }

  /** `int(response.get_header('Content-Length'))`, None for any exception
      (no such header, or not a number). */
  function ContentLength(headers: seq<(string, string)>): Option<int>
  {
    match HeaderValue(headers, "Content-Length", None)
      case None => None
      case Some(v) => ParseInt(v)
  }

  /** What a successful `_receive` puts in the response. */
  datatype Received = Received(status: string, headers: seq<(string, string)>, chunks: seq<string>)

  /** The body as the headers frame it: chunked when Transfer-Encoding is
      "chunked", else by Content-Length, else the `assert False`. */
  function BodyOf(chunked: bool, length: Option<int>, u: string, capacity: nat): Taken<seq<string>>
  {
    if chunked then Chunks(u, capacity)
    else match length
      case Some(n) => LengthBody(u, n)
      case None => Taken(Broken, u)
  }

  /** `transfer_encoding == 'chunked'`. */
  predicate IsChunked(headers: seq<(string, string)>)
  {
    HeaderValue(headers, "Transfer-Encoding", None) == Some("chunked")
  }

  /** `_receive` on the unread input: the status line, the header block, the
      body. */
  function ReceiveSpec(u: string, capacity: nat): Taken<Received>
  {
    match NextLine(u, capacity)
      case None => Taken(Eof, u)
      case Some((status, r1)) => AfterStatus(status, HeaderBlock(r1, capacity), capacity)
  }

  function AfterStatus(status: string, hb: Taken<seq<(string, string)>>, capacity: nat): Taken<Received>
  {
    match hb.out
      case Eof => Taken(Eof, hb.rest)
      case Broken => Taken(Broken, hb.rest)
      case Got(hs) =>
        var body := BodyOf(IsChunked(hs), ContentLength(hs), hb.rest, capacity);
        match body.out
          case Eof => Taken(Eof, body.rest)
          case Broken => Taken(Broken, body.rest)
          case Got(cs) => Taken(Got(Received(status, hs, cs)), body.rest)
  }

  // ---------------------------------------------------------------------
  // What the server writes, the client reads back

  /** A header the line reader gets back as it was written. */
  predicate Readable(h: (string, string), capacity: nat)
  {
    var line := h.0 + ": " + h.1;
    '\n' !in line && |line| + 2 <= capacity && HeaderSplit(line) == Some(h)
  }

  /** One header line, then the rest of the block. */
  lemma HeaderBlockLine(line: string, more: string, capacity: nat, kv: (string, string))
    requires '\n' !in line && |line| + 2 <= capacity && line != [] && HeaderSplit(line) == Some(kv)
    ensures HeaderBlock(line + "\r\n" + more, capacity) == Lead([kv], HeaderBlock(more, capacity))
  {
    LineOf(line, more, capacity);
  }

  /** The empty line ends the block. */
  lemma HeaderBlockEnd(rest: string, capacity: nat)
    requires capacity >= 2
    ensures HeaderBlock("\r\n" + rest, capacity) == Taken(Got([]), rest)
  {
    EmptyLineText(rest);
    LineOf([], rest, capacity);
  }

  lemma EmptyLineText(rest: string)
    ensures [] + "\r\n" + rest == "\r\n" + rest
  {
  }

  lemma HeaderTextNil(hs: seq<(string, string)>, rest: string)
    requires hs == []
    ensures HttpServer.HeaderText(hs) + "\r\n" + rest == "\r\n" + rest
  {
  }

  lemma HeaderTextCons(hs: seq<(string, string)>, rest: string)
    requires hs != []
    ensures HttpServer.HeaderText(hs) + "\r\n" + rest ==
      (hs[0].0 + ": " + hs[0].1) + "\r\n" + (HttpServer.HeaderText(hs[1..]) + "\r\n" + rest)
  {
  }

  /** The header block the server writes is read back header for header. */
  lemma {:induction false} HeaderBlockRoundTrip(hs: seq<(string, string)>, rest: string, capacity: nat)
    requires capacity >= 2
    requires forall i | 0 <= i < |hs| :: Readable(hs[i], capacity)
    ensures HeaderBlock(HttpServer.HeaderText(hs) + "\r\n" + rest, capacity) == Taken(Got(hs), rest)
    decreases |hs|
  {
    if hs == [] {
      HeaderTextNil(hs, rest);
      HeaderBlockEnd(rest, capacity);
    } else {
      assert Readable(hs[0], capacity);
      HeaderTextCons(hs, rest);
      HeaderBlockLine(hs[0].0 + ": " + hs[0].1, HttpServer.HeaderText(hs[1..]) + "\r\n" + rest, capacity, hs[0]);
      HeaderBlockRoundTrip(hs[1..], rest, capacity);
      ConsTail(hs);
    }
  }

  /** Sizes that the server's size lines fit in the client's buffer. */
  predicate ChunksFit(chunks: seq<string>, capacity: nat)
  {
    forall ch | ch in chunks :: |Hex(|ch|)| + 3 <= capacity
  }

  /** The bytes and the line after a positive size. */
  lemma ChunkData(sizeLine: string, ch: string, more: string, capacity: nat)
    requires ChunkSize(sizeLine) == Some(|ch|) && ch != []
    requires '\n' !in sizeLine && |sizeLine| + 2 <= capacity
    ensures Chunks(sizeLine + "\r\n" + (ch + "\r\n" + more), capacity) == Lead([ch], Chunks(more, capacity))
  {
    var r1 := ch + "\r\n" + more;
    LineOf(sizeLine, r1, capacity);
    DataText(ch, more);
    LineOf([], more, capacity);
  }

  lemma DataText(ch: string, more: string)
    ensures (ch + "\r\n" + more)[..|ch|] == ch && (ch + "\r\n" + more)[|ch|..] == [] + "\r\n" + more
  {
  }

  lemma ConsTail<T>(s: seq<T>)
    requires s != []
    ensures [s[0]] + s[1..] == s
  {
  }

  /** A size of zero ends the body after one more line. */
  lemma ChunkZero(sizeLine: string, more: string, capacity: nat)
    requires ChunkSize(sizeLine) == Some(0)
    requires '\n' !in sizeLine && |sizeLine| + 2 <= capacity
    ensures Chunks(sizeLine + "\r\n" + ("\r\n" + more), capacity) == Taken(Got([]), more)
  {
    LineOf(sizeLine, "\r\n" + more, capacity);
    EmptyLineText(more);
    LineOf([], more, capacity);
  }

  lemma EncodeChunksNil(chunks: seq<string>, rest: string)
    requires chunks == []
    ensures HttpServer.EncodeChunks(chunks) + "0\r\n\r\n" + rest == "0\r\n\r\n" + rest
  {
  }

  lemma EncodeChunksCons(chunks: seq<string>, rest: string)
    requires chunks != []
    ensures HttpServer.EncodeChunks(chunks) + "0\r\n\r\n" + rest ==
      (Hex(|chunks[0]|) + ";") + "\r\n" + (chunks[0] + "\r\n" + (HttpServer.EncodeChunks(chunks[1..]) + "0\r\n\r\n" + rest))
  {
  }

  /** The terminator "0\r\n\r\n". */
  lemma ChunksEnd(rest: string, capacity: nat)
    requires capacity >= 3
    ensures Chunks("0\r\n\r\n" + rest, capacity) == Taken(Got([]), rest)
  {
    assert Split("0", ';') == ["0"];
    HexIntRoundTrip(0);
    assert Hex(0) == "0";
    TerminatorText(rest);
    ChunkZero("0", rest, capacity);
  }

  lemma TerminatorText(rest: string)
    ensures "0" + "\r\n" + ("\r\n" + rest) == "0\r\n\r\n" + rest
  {
  }

  /** The chunked body the server writes, for non-empty chunks: read back chunk
      for chunk, the terminator consumed. */
  lemma {:induction false} ChunksRoundTrip(chunks: seq<string>, rest: string, capacity: nat)
    requires capacity >= 3 && ChunksFit(chunks, capacity)
    requires forall i | 0 <= i < |chunks| :: chunks[i] != []
    ensures Chunks(HttpServer.EncodeChunks(chunks) + "0\r\n\r\n" + rest, capacity) == Taken(Got(chunks), rest)
    decreases |chunks|
  {
    if chunks == [] {
      EncodeChunksNil(chunks, rest);
      ChunksEnd(rest, capacity);
    } else {
      assert ChunksFit(chunks[1..], capacity) by {
        forall c | c in chunks[1..] ensures |Hex(|c|)| + 3 <= capacity {
          assert c in chunks;
        }
      }
      assert forall i | 0 <= i < |chunks[1..]| :: chunks[1..][i] == chunks[i + 1];
      ChunksRoundTrip(chunks[1..], rest, capacity);
      ChunksStep(chunks, rest, capacity);
    }
  }

  /** One chunk further: a non-empty chunk that fits is read back in front of
      what the chunks after it read back as. */
  lemma ChunksStep(chunks: seq<string>, rest: string, capacity: nat)
    requires chunks != [] && chunks[0] != [] && |Hex(|chunks[0]|)| + 3 <= capacity
    requires Chunks(HttpServer.EncodeChunks(chunks[1..]) + "0\r\n\r\n" + rest, capacity) == Taken(Got(chunks[1..]), rest)
    ensures Chunks(HttpServer.EncodeChunks(chunks) + "0\r\n\r\n" + rest, capacity) == Taken(Got(chunks), rest)
  {
    var ch := chunks[0];
    EncodeChunksCons(chunks, rest);
    ChunkLineSize(|ch|);
    ChunkData(Hex(|ch|) + ";", ch, HttpServer.EncodeChunks(chunks[1..]) + "0\r\n\r\n" + rest, capacity);
    ConsTail(chunks);
  }

  /** An empty chunk in the response, written as `write_response` writes it,
      reads as the end of the body: the chunks after it are lost and left
      unread. */
  lemma EmptyChunkEndsBody(ch: string, rest: string, capacity: nat)
    requires capacity >= 4
    ensures Chunks(HttpServer.ResponseBody(["", ch], true) + rest, capacity) ==
      Taken(Got([]), HttpServer.EncodeChunks([ch]) + "0\r\n\r\n" + rest)
  {
    var more := HttpServer.EncodeChunks([ch]) + "0\r\n\r\n" + rest;
    EmptyChunkText(ch, rest);
    ZeroSizeLine();
    ChunkZero("0;", more, capacity);
  }

  /** The size line an empty chunk is written with. */
  lemma ZeroSizeLine()
    ensures ChunkSize("0;") == Some(0) && '\n' !in "0;"
  {
    ChunkLineSize(0);
    assert Hex(0) == "0";
    assert "0" + ";" == "0;";
  }

  lemma EmptyChunkText(ch: string, rest: string)
    ensures HttpServer.EncodeChunks(["", ch]) + "0\r\n\r\n" + rest ==
      "0;" + "\r\n" + ("\r\n" + (HttpServer.EncodeChunks([ch]) + "0\r\n\r\n" + rest))
  {
    EncodeChunksCons(["", ch], rest);
    assert ["", ch][1..] == [ch];
    assert Hex(0) == "0";
  }

  /** The chunked body `write_response` writes reads back chunk for chunk as
      long as no chunk is empty. */
  lemma WrittenBodyRoundTrip(response: seq<string>, rest: string, capacity: nat)
    requires capacity >= 3 && ChunksFit(response, capacity)
    requires forall i | 0 <= i < |response| :: response[i] != []
    ensures Chunks(HttpServer.ResponseBody(response, true) + rest, capacity) == Taken(Got(response), rest)
  {
    ChunksRoundTrip(response, rest, capacity);
  }

  /** The corrected server's chunked body, empty chunks dropped, is read back
      as its non-empty chunks, which join to the same bytes. */
  lemma ChunkedBodyRoundTrip(response: seq<string>, rest: string, capacity: nat)
    requires capacity >= 3 && ChunksFit(response, capacity)
    ensures var t := Chunks(HttpServer.CorrectedBody(response, true) + rest, capacity);
      t == Taken(Got(HttpServer.NonEmpty(response)), rest) && Join(t.out.value) == Join(response)
  {
    var cs := HttpServer.NonEmpty(response);
    assert ChunksFit(cs, capacity) by {
      forall ch | ch in cs ensures |Hex(|ch|)| + 3 <= capacity {
        var i :| 0 <= i < |cs| && cs[i] == ch;
        assert cs[i] in response;
      }
    }
    ChunksRoundTrip(cs, rest, capacity);
  }

  /** A body framed by its length is read back whole, in pieces of at most
      CHUNK_SIZE bytes, leaving what follows it. */
  lemma {:induction false} LengthRoundTrip(body: string, rest: string)
    ensures var t := LengthBody(body + rest, |body|);
      t.out.Got? && t.rest == rest && Join(t.out.value) == body &&
      forall i | 0 <= i < |t.out.value| :: 0 < |t.out.value[i]| <= CHUNK_SIZE
    decreases |body|
  {
    if body != [] {
      var k := Min(CHUNK_SIZE, |body|);
      var u := body + rest;
      assert u[..k] == body[..k];
      assert u[k..] == body[k..] + rest;
      LengthRoundTrip(body[k..], rest);
      var t := LengthBody(u[k..], |body| - k);
      var ps := [u[..k]] + t.out.value;
      assert ps[1..] == t.out.value;
      assert Join(ps) == body[..k] + body[k..];
      assert body[..k] + body[k..] == body;
    }
  }

  // ---------------------------------------------------------------------
  // The reading loops of `_receive`

  /** One step of HeaderBlock, once the line is known. */
  lemma HeaderBlockAt(u: string, capacity: nat, line: string, after: string)
    requires NextLine(u, capacity) == Some((line, after))
    ensures line == [] ==> HeaderBlock(u, capacity) == Taken(Got([]), after)
    ensures line != [] && HeaderSplit(line).None? ==> HeaderBlock(u, capacity).out == Broken
    ensures line != [] && HeaderSplit(line).Some? ==>
      HeaderBlock(u, capacity) == Lead([HeaderSplit(line).value], HeaderBlock(after, capacity))
  {
  }

  /** The header lines, up to the empty one. */
  method ReadHeaderBlock(reader: BufferedReader) returns (res: Recv<seq<(string, string)>>)
    requires reader.Valid()
    modifies reader.stream, reader.buffer
    ensures reader.Valid()
    ensures var t := HeaderBlock(old(reader.Unread()), reader.buffer.capacity);
      res == t.out && (res.Got? ==> reader.Unread() == t.rest)
  {
    ghost var u0 := reader.Unread();
    var capacity := reader.buffer.capacity;
    var acc: seq<(string, string)> := [];
    LeadNone(HeaderBlock(u0, capacity));
    while true
      invariant reader.Valid()
      invariant Lead(acc, HeaderBlock(reader.Unread(), capacity)) == HeaderBlock(u0, capacity)
      decreases |reader.Unread()|
    {
      ghost var u := reader.Unread();
      var ok, line := ReadLineOf(reader);
      if !ok {
        return Eof;
      }
      HeaderBlockAt(u, capacity, line, reader.Unread());
      if line == [] {
        assert acc + [] == acc;
        return Got(acc);
      }
      var kv := HeaderSplit(line);
      if kv.None? {
        return Broken;
      }
      LeadLead(acc, [kv.value], HeaderBlock(reader.Unread(), capacity));
      acc := acc + [kv.value];
    }
  }

  /** The chunked body, up to the chunk of size zero. */
  method ReadChunks(reader: BufferedReader) returns (res: Recv<seq<string>>)
    requires reader.Valid()
    modifies reader.stream, reader.buffer
    ensures reader.Valid()
    ensures var t := Chunks(old(reader.Unread()), reader.buffer.capacity);
      res == t.out && (res.Got? ==> reader.Unread() == t.rest)
  {
    ghost var u0 := reader.Unread();
    var capacity := reader.buffer.capacity;
    var acc: seq<string> := [];
    LeadNone(Chunks(u0, capacity));
    while true
      invariant reader.Valid()
      invariant Lead(acc, Chunks(reader.Unread(), capacity)) == Chunks(u0, capacity)
      decreases |reader.Unread()|
    {
      var ok, sizeLine := ReadLineOf(reader);
      if !ok {
        return Eof;
      }
      var size := ChunkSize(sizeLine);
      if size.None? {
        return Broken;
      }
      if size.value > 0 {
        var got, data := reader.ReadBytes(size.value);
        if !got {
          return Eof;
        }
        var ended, _ := ReadLineOf(reader);
        if !ended {
          return Eof;
        }
        LeadLead(acc, [data], Chunks(reader.Unread(), capacity));
        acc := acc + [data];
      } else {
        var ended, _ := ReadLineOf(reader);
        if !ended {
          return Eof;
        }
        assert acc + [] == acc;
        return Got(acc);
      }
    }
  }

  /** A body of `length` bytes, CHUNK_SIZE at a time. */
  method ReadLength(reader: BufferedReader, length: int) returns (res: Recv<seq<string>>)
    requires reader.Valid()
    modifies reader.stream, reader.buffer
    ensures reader.Valid()
    ensures var t := LengthBody(old(reader.Unread()), length);
      res == t.out && (res.Got? ==> reader.Unread() == t.rest)
  {
    ghost var u0 := reader.Unread();
    var left := length;
    var acc: seq<string> := [];
    LeadNone(LengthBody(u0, length));
    while left > 0
      invariant reader.Valid()
      invariant Lead(acc, LengthBody(reader.Unread(), left)) == LengthBody(u0, length)
      decreases left
    {
      var n := Min(CHUNK_SIZE, left);
      var ok, data := reader.ReadBytes(n);
      if !ok {
        return Eof;
      }
      LeadLead(acc, [data], LengthBody(reader.Unread(), left - n));
      acc := acc + [data];
      left := left - |data|;
    }
    assert acc + [] == acc;
    return Got(acc);
  }

  /** The body, as the headers frame it. */
  method ReadBody(reader: BufferedReader, chunked: bool, length: Option<int>) returns (res: Recv<seq<string>>)
    requires reader.Valid()
    modifies reader.stream, reader.buffer
    ensures reader.Valid()
    ensures var t := BodyOf(chunked, length, old(reader.Unread()), reader.buffer.capacity);
      res == t.out && (res.Got? ==> reader.Unread() == t.rest)
  {
    if chunked {
      res := ReadChunks(reader);
    } else {
      if length.Some? {
        res := ReadLength(reader, length.value);
      } else {
        res := Broken;
      }
    }
  }

  /** `_receive`: status line, headers, then the body as the headers frame it. */
  method ReceiveParts(reader: BufferedReader) returns (res: Recv<Received>)
    requires reader.Valid()
    modifies reader.stream, reader.buffer
    ensures reader.Valid()
    ensures var t := ReceiveSpec(old(reader.Unread()), reader.buffer.capacity);
      res == t.out && (res.Got? ==> reader.Unread() == t.rest)
  {
    var ok, status := ReadLineOf(reader);
    if !ok {
      return Eof;
    }
    var hb := ReadHeaderBlock(reader);
    if hb.Eof? {
      return Eof;
    }
    if hb.Broken? {
      return Broken;
    }
    var body := ReadBody(reader, IsChunked(hb.value), ContentLength(hb.value));
    match body {
      case Eof => return Eof;
      case Broken => return Broken;
      case Got(cs) => return Got(Received(status, hb.value, cs));
    }
  }

  // ---------------------------------------------------------------------
  // The connection

  /** What `connect` was given: an (address, port) tuple, or anything else. */
  datatype Endpoint = Address(address: string, port: int) | Other

  /** `host or self._host`: a given non-empty host wins. */
  function RequestHost(given: Option<string>, connected: Option<string>): (r: Option<string>)
    ensures r == given || r == connected
  {
    if given.Some? && given.value != [] then given else connected
  }

  /** The request line, the Host line, the request's headers, the blank line,
      the body. */
  function RequestText(verb: string, path: string, host: string, headers: seq<(string, string)>,
                       body: Option<string>): string
  {
    verb + " " + path + " HTTP/1.1\r\n" + ("Host: " + host + "\r\n") + HttpServer.HeaderText(headers) +
    "\r\n" + (if body.Some? then body.value else [])
  }

  /** The pieces `send` hands to `write_bytes`, in order. */
  function RequestPieces(verb: string, path: string, host: string, headers: seq<(string, string)>,
                         body: Option<string>): seq<string>
  {
    [verb + " " + path + " HTTP/1.1\r\n", "Host: " + host + "\r\n"] + HeaderLines(headers) + ["\r\n"] +
    (if body.Some? then [body.value] else [])
  }

  function HeaderLines(headers: seq<(string, string)>): (r: seq<string>)
    ensures |r| == |headers|
  {
    seq(|headers|, i requires 0 <= i < |headers| => HttpServer.HeaderLine(headers[i]))
  }

  lemma {:induction false} HeaderLinesText(headers: seq<(string, string)>)
    ensures Join(HeaderLines(headers)) == HttpServer.HeaderText(headers)
    decreases |headers|
  {
    if headers != [] {
      assert HeaderLines(headers)[1..] == HeaderLines(headers[1..]);
      HeaderLinesText(headers[1..]);
    }
  }

  /** The pieces written one after the other make up the request text. */
  lemma RequestPiecesText(verb: string, path: string, host: string, headers: seq<(string, string)>,
                          body: Option<string>)
    ensures Join(RequestPieces(verb, path, host, headers, body)) == RequestText(verb, path, host, headers, body)
  {
    var a := [verb + " " + path + " HTTP/1.1\r\n", "Host: " + host + "\r\n"];
    var b := HeaderLines(headers);
    var c := ["\r\n"];
    var d := if body.Some? then [body.value] else [];
    JoinAppend(a + b + c, d);
    JoinAppend(a + b, c);
    JoinAppend(a, b);
    HeaderLinesText(headers);
    assert Join(a) == a[0] + (a[1] + []);
    assert Join(c) == "\r\n" + [];
    assert Join(d) == (if body.Some? then body.value else []) by {
      if body.Some? {
        assert Join(d) == body.value + [];
      }
    }
  }

  lemma RequestTextParts(verb: string, path: string, host: string, headers: seq<(string, string)>,
                         body: Option<string>)
    ensures RequestText(verb, path, host, headers, body) ==
      (verb + " " + path + " HTTP/1.1") + "\r\n" +
      (HttpServer.HeaderText([("Host", host)] + headers) + "\r\n" + (if body.Some? then body.value else []))
  {
    var hs := [("Host", host)] + headers;
    assert hs[1..] == headers;
  }

  /** The request `send` writes is a request line and a header block, Host
      first, that the line reader gets back as they were, then the body. */
  lemma RequestRoundTrip(verb: string, path: string, host: string, headers: seq<(string, string)>,
                         body: Option<string>, capacity: nat)
    requires '\n' !in verb + " " + path + " HTTP/1.1" && |verb + " " + path + " HTTP/1.1"| + 2 <= capacity
    requires Readable(("Host", host), capacity)
    requires forall i | 0 <= i < |headers| :: Readable(headers[i], capacity)
    ensures var t := RequestText(verb, path, host, headers, body);
      var b := if body.Some? then body.value else [];
      NextLine(t, capacity).Some? && NextLine(t, capacity).value.0 == verb + " " + path + " HTTP/1.1" &&
      HeaderBlock(NextLine(t, capacity).value.1, capacity) == Taken(Got([("Host", host)] + headers), b)
  {
    var hs := [("Host", host)] + headers;
    var b := if body.Some? then body.value else [];
    RequestTextParts(verb, path, host, headers, body);
    LineOf(verb + " " + path + " HTTP/1.1", HttpServer.HeaderText(hs) + "\r\n" + b, capacity);
    assert forall i | 0 <= i < |hs| :: Readable(hs[i], capacity) by {
      forall i | 0 <= i < |hs| ensures Readable(hs[i], capacity) {
        if i > 0 { assert hs[i] == headers[i - 1]; }
      }
    }
    HeaderBlockRoundTrip(hs, b, capacity);
  }

  /** The errors that `receive` raises as HTTPError. */
  const EOF_MESSAGE := "EOF while reading response"
  const BROKEN_MESSAGE := "Exception while reading response"

  class HTTPConnection {
    /** `_host`: the host of the tuple endpoint. */
    var host: Option<string>
    /** The buffered stream over the connected socket. */
    const reader: BufferedReader
    const writer: BufferedWriter

    ghost predicate Valid()
      reads this, reader, reader.stream, reader.buffer, writer, writer.stream, writer.buffer
    {
      reader.Valid() && writer.Valid() && reader.buffer != writer.buffer
    }

    /** `connect(endpoint)`: remembers the host of an (address, port) endpoint;
        the connected stream's reader and writer are given. */
    constructor (endpoint: Endpoint, reader: BufferedReader, writer: BufferedWriter)
      ensures host == (if endpoint.Address? then Some(endpoint.address) else None)
      ensures this.reader == reader && this.writer == writer
    {
      host := if endpoint.Address? then Some(endpoint.address) else None;
      this.reader := reader;
      this.writer := writer;
    }

    /** `get(path, host)`. */
    method Get(path: string, host: Option<string>) returns (request: HTTPRequest)
      ensures fresh(request)
      ensures request.verb == Some("GET") && request.path == Some(path)
      ensures request.host == RequestHost(host, this.host)
      ensures request.headers == [] && request.body == None
    {
      request := new HTTPRequest(Some(path), Some("GET"), RequestHost(host, this.host));
    }

    /** `post(path, body, host)`: a body, when given, adds its Content_length. */
    method Post(path: string, body: Option<string>, host: Option<string>) returns (request: HTTPRequest)
      ensures fresh(request)
      ensures request.verb == Some("POST") && request.path == Some(path)
      ensures request.host == RequestHost(host, this.host)
      ensures request.body == body
      ensures request.headers == if body.Some? then [("Content_length", IntToText(|body.value|))] else []
    {
      request := new HTTPRequest(Some(path), Some("POST"), RequestHost(host, this.host));
      if body.Some? {
        request.SetBody(body);
      }
    }

    /** `send(request)`: None, or the message of the AssertionError for a
        missing method, path or host, or of the EOFError of a closed stream.
        What has not been flushed before is dropped (`writer.clear()`). */
    method Send(request: HTTPRequest) returns (failure: Option<string>)
      requires writer.Valid()
      modifies writer.stream, writer.buffer
      ensures writer.Valid() && writer.stream.open == old(writer.stream.open)
      ensures request.verb.None? ==> failure == Some("request method must be set")
      ensures request.verb.Some? && request.path.None? ==> failure == Some("request path must be set")
      ensures request.verb.Some? && request.path.Some? && request.host.None? ==> failure == Some("request host must be set")
      ensures request.verb.Some? && request.path.Some? && request.host.Some? && old(writer.stream.open) ==> failure.None?
      ensures failure.None? ==> (request.verb.Some? && request.path.Some? && request.host.Some? &&
        writer.stream.sent == old(writer.stream.sent) +
          RequestText(request.verb.value, request.path.value, request.host.value, request.headers, request.body))
    {
      if request.verb.None? {
        return Some("request method must be set");
      }
      if request.path.None? {
        return Some("request path must be set");
      }
      if request.host.None? {
        return Some("request host must be set");
      }
      writer.Clear();
      var pieces := RequestPieces(request.verb.value, request.path.value, request.host.value, request.headers, request.body);
      RequestPiecesText(request.verb.value, request.path.value, request.host.value, request.headers, request.body);
      var ok := WriteAll(writer, pieces);
      if ok {
        ok := writer.Flush();
      }
      failure := if ok then None else Some("while writing");
    }

    /** `receive()`: the response, and its failures as HTTPError. */
    method Receive() returns (result: Result<HTTPResponse>)
      requires reader.Valid()
      modifies reader.stream, reader.buffer
      ensures reader.Valid()
      ensures var t := ReceiveSpec(old(reader.Unread()), reader.buffer.capacity);
        Delivers(t.out, result) && (result.Ok? ==> fresh(result.value) && reader.Unread() == t.rest)
    {
      var parts := ReceiveParts(reader);
      match parts {
        case Eof => result := Err(EOF_MESSAGE);
        case Broken => result := Err(BROKEN_MESSAGE);
        case Got(r) =>
          var response := NewResponse(r);
          result := Ok(response);
      }
    }

    /** `perform(request)`: `send`, then `receive`. */
    method Perform(request: HTTPRequest) returns (result: Result<HTTPResponse>)
      requires Valid()
      modifies reader.stream, reader.buffer, writer.stream, writer.buffer
      ensures Valid()
      ensures !(request.verb.Some? && request.path.Some? && request.host.Some?) ==> result.Err?
      ensures request.verb.Some? && request.path.Some? && request.host.Some? && old(writer.stream.open) ==>
        writer.stream.sent == old(writer.stream.sent) +
          RequestText(request.verb.value, request.path.value, request.host.value, request.headers, request.body) &&
        Delivers(ReceiveSpec(old(reader.Unread()), reader.buffer.capacity).out, result)
    {
      var failure := Send(request);
      if failure.Some? {
        result := Err(failure.value);
      } else {
        result := Receive();
      }
    }
  }

  /** The response object `receive` builds from what `_receive` read. */
  method NewResponse(r: Received) returns (response: HTTPResponse)
    ensures fresh(response) && Delivers(Got(r), Ok(response))
  {
    response := new HTTPResponse();
    response.status, response.headers, response.iter := r.status, r.headers, Some(r.chunks);
  }

  /** The response `receive` returns for an outcome of `_receive`. */
  predicate Delivers(out: Recv<Received>, result: Result<HTTPResponse>)
    reads if result.Ok? then {result.value} else {}
  {
    match out
      case Eof => result == Err(EOF_MESSAGE)
      case Broken => result == Err(BROKEN_MESSAGE)
      case Got(r) =>
        result.Ok? && result.value.status == r.status && result.value.headers == r.headers &&
        result.value.iter == Some(r.chunks)
  }
}
