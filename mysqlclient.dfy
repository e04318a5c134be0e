/** The low-level MySQL client: address parsing, the login handshake (reading
    the server greeting, negotiating capabilities, scrambling the password),
    command packets and their replies, and the connection and result-set
    state machines. The packets the server sends are parameters; the socket is
    the output stream of a buffered writer. */
module MysqlClient {
  import opened Common
  import opened IOBuffer
  import opened Buffered
  import opened MysqlPacket

  // ---------------------------------------------------------------------
  // Addresses

  datatype Address = UnixPath(path: string) | Inet(host: string, port: int)

  /** `connect`'s address rule: a leading '/' is a unix socket path, "h:p" is
      host h and port int(p), anything else is the host with the given port.
      None is the exception an empty host, a second ':' or a port that is not
      an integer raises. */
  function ParseAddress(host: string, port: int): (r: Option<Address>)
    ensures host != [] && host[0] == '/' ==> r == Some(UnixPath(host))
    ensures host != [] && host[0] != '/' && ':' !in host ==> r == Some(Inet(host, port))
    ensures r.Some? && r.value.Inet? ==> ':' !in r.value.host
  {
    if host == [] then None
    else if host[0] == '/' then Some(UnixPath(host))
    else if ':' in host then
      var parts := Split(host, ':');
      if |parts| != 2 then None
      else match ParseInt(parts[1])
        case None => None
        case Some(p) => Some(Inet(parts[0], p))
    else Some(Inet(host, port))
  }

  /** "host:port" is read back as that host and port. */
  lemma AddressRoundTrip(host: string, port: nat, other: int)
    requires host != [] && host[0] != '/' && ':' !in host
    ensures ParseAddress(host + ":" + IntToText(port), other) == Some(Inet(host, port))
  {
    var t := IntToText(port);
    PortText(port);
    SplitPair(host, t, ':');
    IntRoundTrip(port);
    var s := host + ":" + t;
    assert s == host + [':'] + t;
    assert s[0] == host[0] && s[|host|] == ':';
  }

  /** A port's digits hold no ':'. */
  lemma PortText(port: nat)
    ensures ':' !in IntToText(port)
  {
    TextIsDigits(port, 10);
    var t := IntToText(port);
    forall k | 0 <= k < |t| ensures t[k] != ':' { }
  }

  // ---------------------------------------------------------------------
  // The greeting

  const PROTOCOL_41: bv16 := 512
  const COMPRESS: bv16 := 32
  const CONNECT_WITH_DB: bv16 := 8

  /** `"%02x" % b`. */
  function ByteHex(b: byte): (r: string)
    ensures |r| == 2
  {
    [DigitChar(b / 16), DigitChar(b % 16)]
  }

  /** Whether the capability bits `caps` include `flag`. */
  predicate HasFlag(caps: nat, flag: bv16)
    requires caps < 0x1_0000
  {
    (caps as bv16) & flag != 0
  }

  /** What `_handshake` keeps of the greeting (the thread id is skipped). */
  datatype Welcome = Welcome(version: string, scramble: string, caps: nat, language: byte, status: nat)

  /** The outcome of reading the greeting: the welcome, ClientLoginError (the
      server sent an error packet), an assertion failure, or a read past the
      packet's end. */
  datatype Hello = Greeted(welcome: Welcome) | LoginRefused(message: string) | Unsupported(reason: string) | Unreadable

  function ByteAt(p: string, k: nat): byte
    requires k < |p|
  {
    p[k] as int % 256
  }

  /** The number in the two bytes at `k`; a short is below 2^16. */
  function ShortAt(p: string, k: nat): (r: nat)
    requires k + 2 <= |p|
    ensures r < 0x1_0000
  {
    ByteAt(p, k) + 256 * ByteAt(p, k + 1)
  }

  /** `_handshake`'s reading of the greeting packet up to the server version;
      the rest is read by GreetingRest. */
  function ParseGreeting(p: string): (r: Hello)
    ensures r.Greeted? ==> r.welcome.caps < 0x1_0000 && HasFlag(r.welcome.caps, PROTOCOL_41)
    ensures r.Greeted? ==> p != [] && ByteAt(p, 0) == 0x0A
  {
    if p == [] then Unreadable
    else if ByteAt(p, 0) == 0xFF then (if |p| < 3 then Unreadable else LoginRefused(p[3..]))
    else if ByteAt(p, 0) != 0x0A then Unsupported("Unexpected protocol version " + ByteHex(ByteAt(p, 0)))
    else
      var after := p[1..];
      match FindChar(after, 0 as char)
      case None => Unreadable
      case Some(v) => GreetingRest(after[..v], after[v + 1..])
  }

  /** The greeting after the version's NUL: thread id (4), the scramble's
      first part (8), filler (1), capabilities (2), language (1), status (2),
      filler (13), then the scramble's NUL-terminated second part. */
  function GreetingRest(version: string, r: string): (h: Hello)
    ensures h.Greeted? ==> h.welcome.version == version && h.welcome.caps < 0x1_0000
    ensures h.Greeted? ==> HasFlag(h.welcome.caps, PROTOCOL_41)
  {
    if |r| < 15 then Unreadable
    else
      var caps := ShortAt(r, 13);
      if !HasFlag(caps, PROTOCOL_41) then Unsupported("<4.1 auth not supported")
      else if |r| < 31 then Unreadable
      else if |r| == 31 then Unsupported("<4.1 auth not supported")
      else
        var tail := r[31..];
        match FindChar(tail, 0 as char)
        case None => Unreadable
        case Some(e) => Greeted(Welcome(version, r[4..12] + tail[..e], caps, ByteAt(r, 15), ShortAt(r, 16)))
  }

  lemma ShortOf(p: string, k: nat, x: nat)
    requires k + 2 <= |p| && x < 0x1_0000 && p[k..k + 2] == LittleEndian(x, 2)
    ensures ShortAt(p, k) == x
  {
    LittleEndianRoundTrip(x, 2);
    var s := p[k..k + 2];
    assert s[0] == p[k] && s[1] == p[k + 1] && s[1..][1..] == [];
  }

  /** The protocol byte and the NUL-terminated version read back, and the
      reader goes on with what follows. */
  lemma GreetingFront(version: string, rest: string)
    requires 0 as char !in version
    ensures ParseGreeting([0x0A as char] + (version + [0 as char]) + rest) == GreetingRest(version, rest)
  {
    var p := [0x0A as char] + (version + [0 as char]) + rest;
    var after := p[1..];
    assert after == version + [0 as char] + rest;
    var v := |version|;
    assert after[v] == 0 as char;
    assert forall j | 0 <= j < v :: after[j] == version[j];
    assert FindChar(after, 0 as char) == Some(v);
    assert after[..v] == version && after[v + 1..] == rest;
    assert ParseGreeting(p) == GreetingRest(after[..v], after[v + 1..]);
  }

  /** A middle holding these fields reads back, and the scramble's second
      part is read up to the first NUL after it; with nothing after the
      middle the reader refuses the server. */
  lemma MiddleReads(version: string, m: string, tail: string, first: string, caps: nat, language: byte, status: nat)
    requires |m| == 31 && m[4..12] == first && caps < 0x1_0000 && HasFlag(caps, PROTOCOL_41)
    requires ShortAt(m, 13) == caps && ByteAt(m, 15) == language && ShortAt(m, 16) == status
    ensures GreetingRest(version, m + tail) ==
      if tail == [] then Unsupported("<4.1 auth not supported")
      else match FindChar(tail, 0 as char)
        case None => Unreadable
        case Some(e) => Greeted(Welcome(version, first + tail[..e], caps, language, status))
  {
    var r := m + tail;
    assert r[..31] == m && r[31..] == tail;
    assert r[4..12] == m[4..12];
    assert r[13] == m[13] && r[14] == m[14] && r[15] == m[15] && r[16] == m[16] && r[17] == m[17];
    assert ShortAt(r, 13) == caps && ShortAt(r, 16) == status && ByteAt(r, 15) == language;
  }

  /** The middle `write_greeting` lays out holds the fields the reader expects. */
  lemma GreetingMiddleFields(g: Greeting)
    requires Encodable(g) && |g.scramble| >= 8
    ensures var m := GreetingMiddle(g);
      |m| == 31 && m[4..12] == g.scramble[..8] && ShortAt(m, 13) == g.caps &&
      ByteAt(m, 15) == g.language && ShortAt(m, 16) == g.status
  {
    MiddleFields(g);
    var m := GreetingMiddle(g);
    ShortOf(m, 13, g.caps);
    ShortOf(m, 16, g.status);
  }

  /** As written, the greeting `write_greeting` produces cannot be read by
      `_handshake` when the second part of the scramble holds no NUL (a
      random scramble of non-zero bytes): the reader looks for a NUL after it
      and runs off the packet's end. */
  lemma GreetingUnreadable(g: Greeting)
    requires Encodable(g) && g.protocol == 0x0A && 0 as char !in g.version
    requires |g.scramble| > 8 && 0 as char !in g.scramble[8..]
    requires HasFlag(g.caps, PROTOCOL_41)
    ensures ParseGreeting(GreetingAsWritten(g)) == Unreadable
  {
    var tail := Drop(g.scramble, 8);
    var m := GreetingMiddle(g);
    assert GreetingPieces(g) + [] == GreetingPieces(g) && Join([]) == [] && tail + [] == tail;
    GreetingLaidOut(g, [], tail);
    GreetingMiddleFields(g);
    GreetingFront(g.version, m + tail);
    MiddleReads(g.version, m, tail, g.scramble[..8], g.caps, g.language, g.status);
    assert tail == g.scramble[8..];
    assert FindChar(tail, 0 as char).None?;
  }

  /** The greeting with its scramble NUL-terminated reads back as written. */
  lemma GreetingRoundTrip(g: Greeting)
    requires Encodable(g) && g.protocol == 0x0A && 0 as char !in g.version
    requires |g.scramble| > 8 && 0 as char !in g.scramble[8..]
    requires HasFlag(g.caps, PROTOCOL_41)
    ensures ParseGreeting(GreetingPacket(g)) == Greeted(Welcome(g.version, g.scramble, g.caps, g.language, g.status))
  {
    var rest := Drop(g.scramble, 8);
    var tail := rest + [0 as char];
    var m := GreetingMiddle(g);
    JoinCons([0 as char], []);
    GreetingLaidOut(g, [[0 as char]], tail);
    GreetingMiddleFields(g);
    GreetingFront(g.version, m + tail);
    MiddleReads(g.version, m, tail, g.scramble[..8], g.caps, g.language, g.status);
    assert rest == g.scramble[8..];
    assert tail[|rest|] == 0 as char;
    assert forall j | 0 <= j < |rest| :: tail[j] == rest[j];
    assert FindChar(tail, 0 as char) == Some(|rest|);
    assert tail[..|rest|] == rest;
    assert g.scramble[..8] + g.scramble[8..] == g.scramble;
  }

  /** The packet with pieces `extra` after the greeting, `tail` being the
      scramble's second part followed by them. */
  lemma GreetingLaidOut(g: Greeting, extra: seq<string>, tail: string)
    requires Encodable(g) && g.protocol == 0x0A && tail == Drop(g.scramble, 8) + Join(extra)
    ensures Join(GreetingPieces(g) + extra) == [0x0A as char] + (g.version + [0 as char]) + (GreetingMiddle(g) + tail)
  {
    GreetingJoin(g, extra);
  }

  /** An error packet in place of the greeting is ClientLoginError with the
      packet's message. */
  lemma GreetingError(errno: int, message: string)
    ensures ParseGreeting(ErrorPacket(errno, message)) == LoginRefused(message)
  {
    ErrorFields(errno, message);
  }

  // ---------------------------------------------------------------------
  // Capabilities, the scramble and the answer

  /** The assertion `_handshake` makes before answering: a database was
      given, but the server cannot take one at connect. */
  predicate DatabaseRefused(serverCaps: bv16, database: string)
  {
    database != [] && serverCaps & CONNECT_WITH_DB == 0
  }

  /** `_handshake`'s client capabilities: the server's with COMPRESS cleared,
      and CONNECT_WITH_DB cleared too when no database is given. */
  function ClientCaps(serverCaps: bv16, database: string): (r: bv16)
    ensures r & COMPRESS == 0
    ensures r & CONNECT_WITH_DB != 0 <==> database != [] && serverCaps & CONNECT_WITH_DB != 0
    ensures r & !(COMPRESS | CONNECT_WITH_DB) == serverCaps & !(COMPRESS | CONNECT_WITH_DB)
  {
    var caps := serverCaps & !COMPRESS;
    if database != [] then caps
    else if serverCaps & CONNECT_WITH_DB != 0 then caps & !CONNECT_WITH_DB
    else caps
  }

  /** Unless the server refuses the database, the client asks to connect with
      one exactly when it gives one. */
  lemma DatabaseFlag(serverCaps: bv16, database: string)
    requires !DatabaseRefused(serverCaps, database)
    ensures ClientCaps(serverCaps, database) & CONNECT_WITH_DB != 0 <==> database != []
  {
  }

  /** A 20-byte SHA1 digest. */
  type Digest = s: seq<bv8> | |s| == 20 witness seq(20, _ => 0)

  /** A digest as the byte string Python's `digest()` returns. */
  function DigestText(d: Digest): (r: string)
    ensures |r| == 20 && forall i | 0 <= i < 20 :: r[i] as int == d[i] as int
  {
    seq(20, i requires 0 <= i < 20 => d[i] as int as char)
  }

  /** The bytewise XOR of two digests. */
  function Xor(a: Digest, b: Digest): (r: Digest)
    ensures forall i | 0 <= i < 20 :: r[i] == a[i] ^ b[i]
  {
    seq(20, i requires 0 <= i < 20 => a[i] ^ b[i])
  }

  /** XOR with the same digest twice gives back the first. */
  lemma XorCancel(a: Digest, b: Digest)
    ensures Xor(Xor(a, b), b) == a
  {
    var c := Xor(Xor(a, b), b);
    forall i | 0 <= i < 20 ensures c[i] == a[i] {
      assert (a[i] ^ b[i]) ^ b[i] == a[i];
    }
  }

  lemma XorCommute(a: Digest, b: Digest)
    ensures Xor(a, b) == Xor(b, a)
  {
    var l, r := Xor(a, b), Xor(b, a);
    forall i | 0 <= i < 20 ensures l[i] == r[i] {
      assert a[i] ^ b[i] == b[i] ^ a[i];
    }
  }

  /** `_scramble(password, seed)`: stage1 = H(password), and the answer is
      stage1 XOR H(seed + H(stage1)). */
  function Scramble(password: string, seed: string, H: string -> Digest): Digest
  {
    var stage1 := H(password);
    Xor(H(seed + DigestText(H(DigestText(stage1)))), stage1)
  }

  /** The server, keeping only stage2 = H(H(password)), undoes the scramble
      with the seed it sent and finds a stage1 whose hash is stage2. */
  lemma ScrambleCheck(password: string, seed: string, H: string -> Digest)
    ensures var stage2 := H(DigestText(H(password)));
      var stage1 := Xor(Scramble(password, seed, H), H(seed + DigestText(stage2)));
      stage1 == H(password) && H(DigestText(stage1)) == stage2
  {
    var stage1 := H(password);
    var m := H(seed + DigestText(H(DigestText(stage1))));
    XorCommute(m, stage1);
    XorCancel(stage1, m);
  }

  /** The maximum packet size the client announces (32 MiB). */
  const MAX_PACKET := 0x200_0000

  /** The pieces of the answer to the greeting: capabilities, maximum packet,
      language, 23 zero bytes, the NUL-terminated user, the scramble (20 and
      the scrambled password, or 0 without a password) and the NUL-terminated
      database when one is given. */
  function AnswerPieces(caps: nat, language: byte, user: string, password: string, seed: string,
                        database: string, H: string -> Digest): seq<string>
  {
    [LittleEndian(caps, 4), LittleEndian(MAX_PACKET, 4), [ByteChar(language)], seq(23, _ => 0 as char),
     user + [0 as char],
     if password != [] then [20 as char] + DigestText(Scramble(password, seed, H)) else [0 as char],
     if database != [] then database + [0 as char] else []]
  }

  function AnswerPayload(caps: nat, language: byte, user: string, password: string, seed: string,
                         database: string, H: string -> Digest): string
  {
    Join(AnswerPieces(caps, language, user, password, seed, database, H))
  }

  /** Where the answer keeps each field, so that the server reads it back. */
  lemma AnswerFields(caps: nat, language: byte, user: string, password: string, seed: string,
                     database: string, H: string -> Digest)
    requires caps < 0x1_0000_0000
    ensures var p := AnswerPayload(caps, language, user, password, seed, database, H);
      var u := |user|;
      |p| == 33 + u + (if password != [] then 21 else 1) + (if database != [] then |database| + 1 else 0) &&
      FromLittleEndian(p[..4]) == caps && FromLittleEndian(p[4..8]) == MAX_PACKET &&
      p[8] as int == language && p[32..32 + u] == user && p[32 + u] == 0 as char &&
      (password != [] ==> p[33 + u] as int == 20 && p[34 + u..54 + u] == DigestText(Scramble(password, seed, H))) &&
      (password == [] ==> p[33 + u] == 0 as char) &&
      (database != [] ==> p[|p| - |database| - 1..] == database + [0 as char])
  {
    var a0, a1, a2, a3 := LittleEndian(caps, 4), LittleEndian(MAX_PACKET, 4), [ByteChar(language)], seq(23, _ => 0 as char);
    var a4 := user + [0 as char];
    var a5 := if password != [] then [20 as char] + DigestText(Scramble(password, seed, H)) else [0 as char];
    var a6 := if database != [] then database + [0 as char] else [];
    AnswerJoin(a0, a1, a2, a3, a4, a5, a6);
    var head := a0 + a1 + a2 + a3;
    AnswerHead(caps, language, head);
    AnswerTail(head, a4, a5, a6, user);
  }

  /** The fixed 32 bytes at the front of the answer. */
  lemma AnswerHead(caps: nat, language: byte, head: string)
    requires caps < 0x1_0000_0000
    requires head == LittleEndian(caps, 4) + LittleEndian(MAX_PACKET, 4) + [ByteChar(language)] + seq(23, _ => 0 as char)
    ensures |head| == 32 && FromLittleEndian(head[..4]) == caps && FromLittleEndian(head[4..8]) == MAX_PACKET
    ensures head[8] as int == language
  {
    LittleEndianRoundTrip(caps, 4);
    LittleEndianRoundTrip(MAX_PACKET, 4);
    assert head[..4] == LittleEndian(caps, 4);
    assert head[4..8] == LittleEndian(MAX_PACKET, 4);
  }

  /** The user after the fixed front, then the others. */
  lemma AnswerTail(head: string, a4: string, a5: string, a6: string, user: string)
    requires |head| == 32 && a4 == user + [0 as char] && a5 != []
    ensures var p := head + (a4 + (a5 + a6)); var u := |user|;
      |p| == 33 + u + |a5| + |a6| && p[..4] == head[..4] && p[4..8] == head[4..8] && p[8] == head[8] &&
      p[32..32 + u] == user && p[32 + u] == 0 as char && p[33 + u] == a5[0] &&
      p[34 + u..33 + u + |a5|] == a5[1..] && p[|p| - |a6|..] == a6
  {
    var p := head + (a4 + (a5 + a6));
    var u := |user|;
    assert p[32..] == a4 + (a5 + a6);
    assert p[33 + u..] == a5 + a6;
  }

  lemma AnswerJoin(a0: string, a1: string, a2: string, a3: string, a4: string, a5: string, a6: string)
    ensures Join([a0, a1, a2, a3, a4, a5, a6]) == a0 + a1 + a2 + a3 + (a4 + (a5 + a6))
  {
    JoinCons(a0, [a1, a2, a3, a4, a5, a6]);
    JoinCons(a1, [a2, a3, a4, a5, a6]);
    JoinCons(a2, [a3, a4, a5, a6]);
    JoinCons(a3, [a4, a5, a6]);
    JoinCons(a4, [a5, a6]);
    JoinCons(a5, [a6]);
    JoinCons(a6, []);
  }

  // ---------------------------------------------------------------------
  // Failures and the login

  /** What a client call raises: AssertionError, ClientLoginError,
      ClientCommandError, ClientProgrammingError, TimeoutError, a socket
      failure (EOFError or a refused dial), a packet read past its end, the
      AttributeError of a result set closed twice, the ValueError or
      IndexError of a bad address, and a packet the buffer cannot hold. */
  datatype Fault =
    | AssertionFailed(message: string)
    | LoginError(message: string)
    | CommandError(message: string)
    | ProgrammingError(message: string)
    | TimedOut
    | SocketError
    | PacketError
    | AttributeError
    | AddressError
    | Overflow

  /** The 16 KiB buffer a connection reads and writes through. */
  const BUFFER_SIZE := 0x4000

  /** The next step of the handshake, or the failure that ends it. */
  datatype Step<T> = Next(value: T) | Stop(fault: Fault)

  /** `_handshake` up to its answer: the greeting read, the capabilities
      negotiated and the payload of the answer laid out; it must fit in the
      buffer after the 4-byte header. */
  function Login(greeting: string, user: string, password: string, database: string, H: string -> Digest): (r: Step<string>)
    ensures r.Next? ==> 4 + |r.value| <= BUFFER_SIZE
    ensures r.Stop? && r.fault.LoginError? ==> greeting != [] && ByteAt(greeting, 0) == 0xFF
  {
    match ParseGreeting(greeting)
    case Unreadable => Stop(PacketError)
    case LoginRefused(message) => Stop(LoginError(message))
    case Unsupported(reason) => Stop(AssertionFailed(reason))
    case Greeted(w) =>
      var server := w.caps as bv16;
      if DatabaseRefused(server, database) then Stop(AssertionFailed("initial db given but not supported by server"))
      else
        var payload := AnswerPayload(ClientCaps(server, database) as int, w.language, user, password, w.scramble, database, H);
        if 4 + |payload| > BUFFER_SIZE then Stop(Overflow)
        else Next(payload)
  }

  /** `_handshake`'s reading of the server's final answer: 0xff is
      ClientLoginError with the message after the 8 bytes of error number and
      SQL state, 0xfe an assertion (old password handshake), anything else
      success. */
  function FinalVerdict(p: string): (r: Option<Fault>)
    ensures r.None? <==> p != [] && ByteAt(p, 0) != 0xFF && ByteAt(p, 0) != 0xFE
  {
    if p == [] then Some(PacketError)
    else if ByteAt(p, 0) == 0xFF then (if |p| < 9 then Some(PacketError) else Some(LoginError(p[9..])))
    else if ByteAt(p, 0) == 0xFE then Some(AssertionFailed("old password handshake not implemented"))
    else None
  }

  // ---------------------------------------------------------------------
  // Commands and replies

  /** `_send_command`'s packet: a header with payload length len(text) + 1 and
      sequence number 0, the command byte, the text. */
  function CommandPacket(cmd: byte, text: string): string
    requires |text| + 1 < PAYLOAD_LIMIT
  {
    Header(|text| + 5, 0) + [ByteChar(cmd)] + text
  }

  /** The command packet's fields, as the server reads them. */
  lemma CommandFields(cmd: byte, text: string)
    requires |text| + 1 < PAYLOAD_LIMIT
    ensures var p := CommandPacket(cmd, text);
      |p| == |text| + 5 && FromLittleEndian(p[..3]) == |text| + 1 && p[3] as int == 0 &&
      p[4] as int == cmd && p[5..] == text
  {
    HeaderFields(|text| + 5, 0);
    var p := CommandPacket(cmd, text);
    assert p[..3] == Header(|text| + 5, 0)[..3];
  }

  /** A length-coded binary as the reader reads it: one byte below 251, or
      252, 253 or 254 followed by 2, 3 or 8 little-endian bytes; the rest of
      the input comes back with the value. */
  function ReadLcb(s: string): (r: Option<(nat, string)>)
    ensures r.Some? ==> |r.value.1| < |s| && r.value.1 == s[|s| - |r.value.1|..]
  {
    if s == [] then None
    else
      var f := ByteAt(s, 0);
      if f < 251 then Some((f, s[1..]))
      else if f == 252 && |s| >= 3 then Some((FromLittleEndian(s[1..3]), s[3..]))
      else if f == 253 && |s| >= 4 then Some((FromLittleEndian(s[1..4]), s[4..]))
      else if f == 254 && |s| >= 9 then Some((FromLittleEndian(s[1..9]), s[9..]))
      else None
  }

  /** What `write_lcb` writes reads back. */
  lemma LcbReads(b: nat, rest: string)
    requires b < 128
    ensures ReadLcb(Lcb(b) + rest) == Some((b, rest))
  {
    var s := Lcb(b) + rest;
    assert s[0] as int == b && s[1..] == rest;
  }

  /** The reply to a command: OK with (rowcount, lastrowid), an error packet,
      the field count of a result set, or a packet that does not read. */
  datatype Reply = Affected(rowcount: nat, lastrowid: nat) | Refused(message: string) | ResultHeader(fieldCount: byte) | Malformed

  /** `command`'s reading of the reply by its first byte. */
  function ParseReply(p: string): (r: Reply)
    ensures r.ResultHeader? <==> p != [] && ByteAt(p, 0) != 0 && ByteAt(p, 0) != 0xFF
    ensures r.ResultHeader? ==> r.fieldCount == ByteAt(p, 0)
    ensures r.Refused? ==> |p| >= 9 && r.message == p[9..]
  {
    if p == [] then Malformed
    else if ByteAt(p, 0) == 0 then
      match ReadLcb(p[1..])
      case None => Malformed
      case Some((rowcount, rest)) =>
        match ReadLcb(rest)
        case None => Malformed
        case Some((lastrowid, _)) => Affected(rowcount, lastrowid)
    else if ByteAt(p, 0) == 0xFF then (if |p| < 9 then Malformed else Refused(p[9..]))
    else ResultHeader(ByteAt(p, 0))
  }

  /** The OK packet `write_ok` builds reads as its affected rows and insert id
      when both are below 251. */
  lemma OkReply(affectedRows: byte, insertId: byte, status: nat, warnings: nat, message: string)
    requires affectedRows < 251 && insertId < 251 && status < 0x1_0000 && warnings < 0x1_0000
    ensures ParseReply(OkPacket(0, affectedRows, insertId, status, warnings, message)) == Affected(affectedRows, insertId)
  {
    OkFields(0, affectedRows, insertId, status, warnings, message);
    var p := OkPacket(0, affectedRows, insertId, status, warnings, message);
    var s1, s2 := p[1..], p[2..];
    assert s1[0] == p[1] && s1[1..] == s2 && s2[0] == p[2];
    assert ByteAt(p, 0) == 0 && ByteAt(s1, 0) == affectedRows && ByteAt(s2, 0) == insertId;
    assert ReadLcb(s1) == Some((affectedRows as nat, s2));
    assert ReadLcb(s2) == Some((insertId as nat, s2[1..]));
  }

  /** An error packet carrying '#', a 5-byte SQL state and a message is
      ClientCommandError with that message. */
  lemma ErrorReply(errno: int, state: string, message: string)
    requires |state| == 5
    ensures ParseReply(ErrorPacket(errno, "#" + state + message)) == Refused(message)
  {
    var m := "#" + state + message;
    ErrorFields(errno, m);
    var p := ErrorPacket(errno, m);
    assert p[9..] == m[6..] == message;
  }

  /** A greeting `write_greeting` wrote (with its scramble terminated) lets
      the client answer with its negotiated capabilities, the server's
      language and the whole scramble as the seed. */
  lemma LoginAnswers(g: Greeting, user: string, password: string, database: string, H: string -> Digest)
    requires Encodable(g) && g.protocol == 0x0A && 0 as char !in g.version
    requires |g.scramble| > 8 && 0 as char !in g.scramble[8..]
    requires HasFlag(g.caps, PROTOCOL_41) && !DatabaseRefused(g.caps as bv16, database)
    requires 4 + |AnswerPayload(ClientCaps(g.caps as bv16, database) as int, g.language, user, password, g.scramble, database, H)| <= BUFFER_SIZE
    ensures Login(GreetingPacket(g), user, password, database, H) ==
      Next(AnswerPayload(ClientCaps(g.caps as bv16, database) as int, g.language, user, password, g.scramble, database, H))
  {
    GreetingRoundTrip(g);
  }

  // ---------------------------------------------------------------------
  // Connection and result set

  /** STATE_ERROR (-1), STATE_INIT (0), STATE_CONNECTING (1),
      STATE_CONNECTED (2), STATE_CLOSING (3), STATE_CLOSED (4). */
  datatype ConnState = Errored | Init | Connecting | Connected | Closing | Closed

  /** ResultSet's STATE_INIT, STATE_OPEN, STATE_EOF and STATE_CLOSED. */
  datatype SetState = SetInit | SetOpen | SetEof | SetClosed

  /** How `Socket.connect` ends: connected, TimeoutError, or another failure. */
  datatype Dial = Dialed | DialTimedOut | DialFailed

  /** The state `connect` leaves: CONNECTED on success, INIT again on
      TimeoutError or ClientLoginError, ERROR on anything else. */
  function Settle(fault: Option<Fault>): (s: ConnState)
    ensures s == Connected <==> fault.None?
    ensures s == Init <==> fault == Some(TimedOut) || (fault.Some? && fault.value.LoginError?)
    ensures s == Connected || s == Init || s == Errored
  {
    match fault
    case None => Connected
    case Some(TimedOut) => Init
    case Some(LoginError(_)) => Init
    case Some(_) => Errored
  }

  /** What one `connect` raises, what it sends, and whether the reply to its
      SET AUTOCOMMIT opened a result set, which then stays current. */
  datatype Attempt = Attempt(fault: Option<Fault>, sent: string, opensSet: bool)

  /** COMMAND.QUERY. */
  const COM_QUERY: byte := 0x03

  /** The query `set_autocommit(commit)` sends. */
  function AutocommitText(on: bool): (t: string)
    ensures |t| == 18 && t[..17] == "SET AUTOCOMMIT = " && t[17] == (if on then '1' else '0')
  {
    "SET AUTOCOMMIT = " + (if on then "1" else "0")
  }

  /** Whether `connect` gets through the dial and the sending of the answer. */
  predicate AnswerSent(state: ConnState, address: Option<Address>, dial: Dial, login: Step<string>, open: bool)
  {
    address.Some? && state == Init && dial.Dialed? && login.Next? && open
  }

  /** `connect`, given the parsed address, the dial, the handshake up to its
      answer, the server's final answer and its reply to the SET AUTOCOMMIT
      that an `autocommit` of True or False sends once connected: the
      address is parsed first, so a bad one fails whatever the state; a
      connection that is not in STATE_INIT fails the assertion; then the
      dial, the answer, which goes out only when the socket takes it, the
      final answer, and the query through `command`. */
  function ConnectAttempt(state: ConnState, address: Option<Address>, dial: Dial, login: Step<string>,
                          final: string, open: bool, autocommit: Option<bool>, reply: string): (r: Attempt)
    requires login.Next? ==> 4 + |login.value| <= BUFFER_SIZE
    ensures r.fault.None? <==> (AnswerSent(state, address, dial, login, open) && FinalVerdict(final).None? &&
      (autocommit.Some? ==> !CommandAnswer(Connected, false, false, true, AutocommitText(autocommit.value), reply).Failed?))
    ensures r.sent != [] <==> AnswerSent(state, address, dial, login, open)
    ensures r.sent != [] ==>
      |r.sent| >= 4 + |login.value| && r.sent[..4 + |login.value|] == Header(4 + |login.value|, 1) + login.value
    ensures r.sent != [] && FinalVerdict(final).None? && autocommit.Some? ==>
      r.sent[4 + |login.value|..] == CommandPacket(COM_QUERY, AutocommitText(autocommit.value))
    ensures r.sent != [] && (FinalVerdict(final).Some? || autocommit.None?) ==> |r.sent| == 4 + |login.value|
    ensures r.opensSet ==> r.fault.None? && autocommit.Some?
    ensures address.Some? && state != Init ==>
      r == Attempt(Some(AssertionFailed("make sure connection is not already connected or closed")), [], false)
    ensures login.Stop? ==> r.fault.Some? && (address.Some? && state == Init && dial.Dialed? ==> r.fault == Some(login.fault))
  {
    if address.None? then Attempt(Some(AddressError), [], false)
    else if state != Init then Attempt(Some(AssertionFailed("make sure connection is not already connected or closed")), [], false)
    else if dial == DialTimedOut then Attempt(Some(TimedOut), [], false)
    else if dial == DialFailed then Attempt(Some(SocketError), [], false)
    else if login.Stop? then Attempt(Some(login.fault), [], false)
    else if !open then Attempt(Some(SocketError), [], false)
    else
      var answer := Header(4 + |login.value|, 1) + login.value;
      if FinalVerdict(final).Some? || autocommit.None? then Attempt(FinalVerdict(final), answer, false)
      else
        var text := AutocommitText(autocommit.value);
        var a := CommandAnswer(Connected, false, false, true, text, reply);
        Attempt(if a.Failed? then Some(a.fault) else None, answer + CommandPacket(COM_QUERY, text), a.Opened?)
  }

  /** A `connect` that gets through the handshake goes on with the
      autocommit query; one that does not ends as the handshake does. */
  lemma AttemptConfigured(address: Address, dial: Dial, login: Step<string>, final: string, open: bool,
                          autocommit: Option<bool>, reply: string)
    requires login.Next? ==> 4 + |login.value| <= BUFFER_SIZE
    ensures var h := ConnectAttempt(Init, Some(address), dial, login, final, open, None, []);
      var a := ConnectAttempt(Init, Some(address), dial, login, final, open, autocommit, reply);
      (h.fault.None? ==> open) &&
      (h.fault.Some? || autocommit.None? ==> a == h) &&
      (h.fault.None? && autocommit.Some? ==>
        var c := CommandAnswer(Connected, false, false, true, AutocommitText(autocommit.value), reply);
        a == Attempt(if c.Failed? then Some(c.fault) else None,
                     h.sent + CommandPacket(COM_QUERY, AutocommitText(autocommit.value)), c.Opened?))
  {
  }

  /** What one `command` returns or raises. */
  datatype Answered = Rows(rowcount: nat, lastrowid: nat) | Opened(fieldCount: byte) | Failed(fault: Fault)

  /** `command`: connected, not inside another command and with no result set
      open, it sends the command and reads the reply: 0x00 is (rowcount,
      lastrowid), 0xff ClientCommandError, anything else a result set. */
  function CommandAnswer(state: ConnState, incommand: bool, hasResult: bool, open: bool, text: string, reply: string): (r: Answered)
    ensures r.Opened? ==> state == Connected && !incommand && !hasResult && open
    ensures state != Connected ==> r == Failed(AssertionFailed("make sure connection is connected before query"))
    ensures r.Failed? && r.fault.CommandError? <==> CommandSent(state, incommand, hasResult, open, text) && ParseReply(reply).Refused?
  {
    if state != Connected then Failed(AssertionFailed("make sure connection is connected before query"))
    else if incommand then Failed(AssertionFailed("overlapped commands not supported"))
    else if hasResult then Failed(AssertionFailed("overlapped commands not supported, pls read prev resultset and close it"))
    else if |text| + 1 >= PAYLOAD_LIMIT then Failed(Overflow)
    else if !open then Failed(SocketError)
    else match ParseReply(reply)
      case Malformed => Failed(PacketError)
      case Affected(rowcount, lastrowid) => Rows(rowcount, lastrowid)
      case Refused(message) => Failed(CommandError(message))
      case ResultHeader(n) => Opened(n)
  }

  /** Whether `command` gets as far as sending its packet. */
  predicate CommandSent(state: ConnState, incommand: bool, hasResult: bool, open: bool, text: string)
  {
    state == Connected && !incommand && !hasResult && |text| + 1 < PAYLOAD_LIMIT && open
  }

  /** `close`: connected and not inside a command, it closes the result set
      and then the socket; a socket that fails to close leaves STATE_ERROR. */
  function CloseFault(state: ConnState, incommand: bool, socketFails: bool): (r: Option<Fault>)
    ensures r.None? <==> state == Connected && !incommand && !socketFails
  {
    if state != Connected then Some(AssertionFailed("make sure connection is connected before closing"))
    else if incommand then Some(AssertionFailed("cannot close while still in a command"))
    else if socketFails then Some(SocketError)
    else None
  }

  /** The result set a command opened, read through its connection. */
  class ResultSet {
    var state: SetState
    /** The connection, until `close` deletes the attribute. */
    var connection: Connection?
    const fieldCount: byte

    constructor (connection: Connection, fieldCount: byte)
      ensures state == SetOpen && this.connection == connection && this.fieldCount == fieldCount
    {
      state := SetOpen;
      this.connection := connection;
      this.fieldCount := fieldCount;
    }

    /** Iterating the rows to the end: the set must be open, and ends at EOF. */
    method ReadRows() returns (fault: Option<Fault>)
      modifies this
      ensures connection == old(connection)
      ensures fault.None? <==> old(state) == SetOpen
      ensures fault.Some? ==> fault.value == AssertionFailed("cannot iterate a resultset when it is not open") && state == old(state)
      ensures fault.None? ==> state == SetEof
    {
      if state != SetOpen {
        return Some(AssertionFailed("cannot iterate a resultset when it is not open"));
      }
      state := SetEof;
      return None;
    }

    /** `close(connection_close)`: a set not read to the end may only be
        closed with the connection; the connection attribute goes first, so
        a second close finds none; the connection then drops it as its
        current set, asserting that it is. */
    method Close(connectionClose: bool) returns (fault: Option<Fault>)
      modifies this, connection
      ensures old(state) != SetEof && !connectionClose ==>
        fault == Some(ProgrammingError("you can only close a resultset when it was read entirely!")) &&
        state == old(state) && connection == old(connection) && (connection != null ==> connection.current == old(connection.current))
      ensures (old(state) == SetEof || connectionClose) && old(connection) == null ==>
        fault == Some(AttributeError) && state == old(state) && connection == null
      ensures (old(state) == SetEof || connectionClose) && old(connection) != null ==> connection == null
      ensures (old(state) == SetEof || connectionClose) && old(connection) != null && old(connection.current) == this ==>
        fault.None? && state == SetClosed && old(connection).current == null
      ensures (old(state) == SetEof || connectionClose) && old(connection) != null && old(connection.current) != this ==>
        (fault == Some(AssertionFailed("")) && state == old(state) && old(connection).current == old(connection.current))
    {
      if state != SetEof && !connectionClose {
        return Some(ProgrammingError("you can only close a resultset when it was read entirely!"));
      }
      if connection == null {
        return Some(AttributeError);
      }
      var c := connection;
      connection := null;
      var ok := c.CloseCurrent(this);
      if !ok {
        return Some(AssertionFailed(""));
      }
      state := SetClosed;
      return None;
    }
  }

  /** A connection to a MySQL server: its state, whether a command is under
      way, its current result set, and the buffered packet writer on its
      socket. */
  class Connection {
    var state: ConnState
    var incommand: bool
    var current: ResultSet?
    /** The reader's encoding for string fields; None for its default. */
    var encoding: Option<string>
    const writer: BufferedWriter
    /** The packet methods of the same writer, over the same buffer. */
    const packets: PacketWriter

    ghost predicate Valid()
      reads this, writer, writer.stream, writer.buffer, packets, current
    {
      writer.Valid() && packets.buffer == writer.buffer && writer.buffer.capacity == BUFFER_SIZE &&
      (current != null ==> current.connection == this) &&
      (state == Init || state == Connecting ==> current == null && !incommand)
    }

    constructor (writer: BufferedWriter, packets: PacketWriter)
      requires writer.Valid() && packets.buffer == writer.buffer && writer.buffer.capacity == BUFFER_SIZE
      ensures Valid() && state == Init && !incommand && current == null && encoding.None?
      ensures this.writer == writer && this.packets == packets
    {
      state := Init;
      incommand := false;
      current := null;
      encoding := None;
      this.writer := writer;
      this.packets := packets;
    }

    /** `_close_current_resultset(resultset)`. */
    method CloseCurrent(rs: ResultSet) returns (ok: bool)
      modifies this
      ensures ok <==> old(current) == rs
      ensures current == if ok then null else old(current)
    {
      if current != rs {
        return false;
      }
      current := null;
      return true;
    }

    /** The header patched in front of the payload written after it. */
    static lemma PacketFramed(d: string, payload: string)
      requires 4 + |payload| <= |d| && |payload| < PAYLOAD_LIMIT && d[4..4 + |payload|] == payload
      ensures Put(d, 0, Header(4 + |payload|, 1))[..4 + |payload|] == Header(4 + |payload|, 1) + payload
    {
      var r := Put(d, 0, Header(4 + |payload|, 1));
      assert r[..4 + |payload|] == r[..4] + r[4..4 + |payload|];
    }

    /** The handshake answer through the packet writer: `clear`, `start`, the
        fields, `finish(1)` and `flush`. A payload the buffer cannot hold is
        not sent. */
    method SendAnswer(payload: string) returns (fits: bool, ok: bool)
      requires Valid()
      modifies writer.stream, writer.buffer, packets
      ensures Valid() && writer.stream.open == old(writer.stream.open)
      ensures fits <==> 4 + |payload| <= BUFFER_SIZE
      ensures ok <==> fits && old(writer.stream.open)
      ensures ok ==> writer.Writing() && writer.stream.sent == old(writer.stream.sent) + Header(4 + |payload|, 1) + payload
      ensures !ok ==> writer.stream.sent == old(writer.stream.sent)
    {
      fits := FramePacket(payload);
      if !fits {
        return fits, false;
      }
      ok := writer.Flush();
    }

    /** `clear`, `start`, the fields and `finish(1)`: the pending bytes are
        the packet, header and payload, when the buffer holds it. */
    method FramePacket(payload: string) returns (fits: bool)
      requires Valid()
      modifies writer.buffer, packets
      ensures Valid() && writer.stream.sent == old(writer.stream.sent)
      ensures fits <==> 4 + |payload| <= BUFFER_SIZE
      ensures fits ==> writer.Writing() && writer.Pending() == Header(4 + |payload|, 1) + payload
    {
      writer.Clear();
      var _ := packets.Start();
      assert Join([payload]) == payload by { assert [payload][1..] == []; }
      fits := packets.Emit([payload]);
      if !fits {
        return;
      }
      ghost var d := writer.buffer.data;
      var _ := packets.Finish(1);
      PacketFramed(d, payload);
    }

    /** `connect(host, port, user, passwd, db, autocommit, charset)` with the
        dial, the greeting, the final answer and the reply to SET AUTOCOMMIT
        given; the answer and the query go to the writer's stream. Once
        connected the new reader decodes with `charset`; a reader made by a
        connect that then fails keeps its default. */
    method Connect(host: string, port: int, user: string, password: string, database: string,
                   autocommit: Option<bool>, charset: Option<string>,
                   dial: Dial, greeting: string, final: string, reply: string, H: string -> Digest) returns (fault: Option<Fault>)
      requires Valid()
      modifies this, writer.stream, writer.buffer, packets
      ensures Valid() && incommand == old(incommand)
      ensures var a := ConnectAttempt(old(state), ParseAddress(host, port), dial, Login(greeting, user, password, database, H),
                                      final, old(writer.stream.open), autocommit, reply);
        fault == a.fault && writer.stream.sent == old(writer.stream.sent) + a.sent &&
        (a.opensSet ==> current != null && fresh(current) && current.state == SetOpen) &&
        (!a.opensSet ==> current == old(current))
      ensures state == Settle(fault)
      ensures encoding == if ParseAddress(host, port).Some? && old(state) == Init && dial.Dialed? then
        (if fault.None? then charset else None) else old(encoding)
    {
      var address := ParseAddress(host, port);
      if address.None? {
        state := Errored;
        return Some(AddressError);
      }
      if state != Init {
        state := Errored;
        return Some(AssertionFailed("make sure connection is not already connected or closed"));
      }
      state := Connecting;
      fault := Open(address.value, dial, Login(greeting, user, password, database, H), final, autocommit, charset, reply);
    }

    /** `connect` from STATE_CONNECTING on: the handshake, then, once
        connected, the autocommit query and the charset. */
    method Open(address: Address, dial: Dial, login: Step<string>, final: string,
                autocommit: Option<bool>, charset: Option<string>, reply: string) returns (fault: Option<Fault>)
      requires Valid() && state == Connecting && current == null && !incommand
      requires login.Next? ==> 4 + |login.value| <= BUFFER_SIZE
      modifies this, writer.stream, writer.buffer, packets
      ensures Valid() && incommand == old(incommand)
      ensures var a := ConnectAttempt(Init, Some(address), dial, login, final, old(writer.stream.open), autocommit, reply);
        fault == a.fault && writer.stream.sent == old(writer.stream.sent) + a.sent &&
        (a.opensSet ==> current != null && fresh(current) && current.state == SetOpen) &&
        (!a.opensSet ==> current == old(current))
      ensures state == Settle(fault)
      ensures encoding == if dial.Dialed? then (if fault.None? then charset else None) else old(encoding)
    {
      AttemptConfigured(address, dial, login, final, writer.stream.open, autocommit, reply);
      fault := Handshake(address, dial, login, final);
      if fault.Some? {
        return;
      }
      fault := Configure(autocommit, charset, reply);
    }

    /** What `connect` does once connected: SET AUTOCOMMIT through `command`
        for an `autocommit` of True or False, then the reader's charset; a
        failing query leaves the state `connect` gives its fault. */
    method Configure(autocommit: Option<bool>, charset: Option<string>, reply: string) returns (fault: Option<Fault>)
      requires Valid() && state == Connected && current == null && !incommand && writer.stream.open
      modifies this, writer.stream, writer.buffer
      ensures Valid() && incommand == old(incommand)
      ensures autocommit.None? ==> fault.None? && writer.stream.sent == old(writer.stream.sent) && current == old(current)
      ensures autocommit.Some? ==>
        var a := CommandAnswer(Connected, false, false, true, AutocommitText(autocommit.value), reply);
        fault == (if a.Failed? then Some(a.fault) else None) &&
        writer.stream.sent == old(writer.stream.sent) + CommandPacket(COM_QUERY, AutocommitText(autocommit.value)) &&
        (a.Opened? ==> current != null && fresh(current) && current.state == SetOpen) &&
        (!a.Opened? ==> current == old(current))
      ensures state == Settle(fault)
      ensures encoding == if fault.None? then charset else old(encoding)
    {
      if autocommit.Some? {
        var answer, _ := Command(COM_QUERY, AutocommitText(autocommit.value), reply);
        if answer.Failed? {
          fault := Some(answer.fault);
          state := Settle(fault);
          return;
        }
      }
      fault := None;
      encoding := charset;
    }

    /** The part of `connect` after the checks: the dial, a new reader on
        the socket, the greeting's answer and the final packet. */
    method Handshake(address: Address, dial: Dial, login: Step<string>, final: string) returns (fault: Option<Fault>)
      requires Valid() && state == Connecting && current == null && !incommand
      requires login.Next? ==> 4 + |login.value| <= BUFFER_SIZE
      modifies this, writer.stream, writer.buffer, packets
      ensures Valid() && current == old(current) && incommand == old(incommand)
      ensures writer.stream.open == old(writer.stream.open)
      ensures var a := ConnectAttempt(Init, Some(address), dial, login, final, old(writer.stream.open), None, []);
        fault == a.fault && writer.stream.sent == old(writer.stream.sent) + a.sent
      ensures state == Settle(fault)
      ensures encoding == if dial.Dialed? then None else old(encoding)
    {
      if dial != Dialed {
        fault := if dial == DialTimedOut then Some(TimedOut) else Some(SocketError);
        state := Settle(fault);
        return;
      }
      encoding := None;
      if login.Stop? {
        fault := Some(login.fault);
        state := Settle(fault);
        return;
      }
      var fits, ok := SendAnswer(login.value);
      if !ok {
        state := Errored;
        return Some(SocketError);
      }
      fault := FinalVerdict(final);
      state := Settle(fault);
    }

    /** `_send_command(cmd, cmd_text)`: `clear`, the header, the command byte
        and the text, then `flush`. */
    method SendCommand(cmd: byte, text: string) returns (ok: bool)
      requires Valid() && |text| + 1 < PAYLOAD_LIMIT
      modifies writer.stream, writer.buffer
      ensures Valid() && writer.stream.open == old(writer.stream.open)
      ensures ok <==> old(writer.stream.open)
      ensures ok ==> writer.stream.sent == old(writer.stream.sent) + CommandPacket(cmd, text)
      ensures !ok ==> writer.stream.sent == old(writer.stream.sent)
    {
      ok := WriteCommand(cmd, text);
      if !ok {
        return;
      }
      ok := writer.Flush();
    }

    /** The writes of `_send_command` before its `flush`. */
    method WriteCommand(cmd: byte, text: string) returns (ok: bool)
      requires Valid() && |text| + 1 < PAYLOAD_LIMIT
      modifies writer.stream, writer.buffer
      ensures Valid() && writer.stream.open == old(writer.stream.open)
      ensures ok <==> |text| <= BUFFER_SIZE - 5 || old(writer.stream.open)
      ensures ok ==> writer.Writing() && writer.Output() == old(writer.stream.sent) + CommandPacket(cmd, text)
      ensures ok && !old(writer.stream.open) ==> writer.stream.sent == old(writer.stream.sent)
      ensures !ok ==> writer.stream.sent == old(writer.stream.sent)
    {
      writer.Clear();
      var _ := packets.WriteHeader(|text| + 5, 0);
      assert writer.Pending() == Header(|text| + 5, 0);
      ok := writer.WriteByte(cmd);
      ok := writer.WriteBytes(text);
    }

    /** `command(cmd, cmd_text)` with the server's reply given. */
    method Command(cmd: byte, text: string, reply: string) returns (answer: Answered, rs: ResultSet?)
      requires Valid()
      modifies this, writer.stream, writer.buffer
      ensures Valid() && state == old(state) && incommand == old(incommand) && encoding == old(encoding)
      ensures answer == CommandAnswer(old(state), old(incommand), old(current) != null, old(writer.stream.open), text, reply)
      ensures writer.stream.sent == old(writer.stream.sent) +
        if CommandSent(old(state), old(incommand), old(current) != null, old(writer.stream.open), text) then CommandPacket(cmd, text) else []
      ensures answer.Opened? <==> rs != null
      ensures rs != null ==> fresh(rs) && current == rs && rs.state == SetOpen && rs.fieldCount == answer.fieldCount
      ensures rs == null ==> current == old(current)
    {
      rs := null;
      if state != Connected {
        return Failed(AssertionFailed("make sure connection is connected before query")), null;
      }
      if incommand {
        return Failed(AssertionFailed("overlapped commands not supported")), null;
      }
      if current != null {
        return Failed(AssertionFailed("overlapped commands not supported, pls read prev resultset and close it")), null;
      }
      incommand := true;
      answer, rs := Exchange(cmd, text, reply);
      incommand := false;
    }

    /** The part of `command` inside `incommand`: the command is sent and
        the reply read. */
    method Exchange(cmd: byte, text: string, reply: string) returns (answer: Answered, rs: ResultSet?)
      requires Valid() && state == Connected && current == null
      modifies this, writer.stream, writer.buffer
      ensures Valid() && state == old(state) && incommand == old(incommand) && encoding == old(encoding)
      ensures answer == CommandAnswer(Connected, false, false, old(writer.stream.open), text, reply)
      ensures writer.stream.sent == old(writer.stream.sent) +
        if CommandSent(Connected, false, false, old(writer.stream.open), text) then CommandPacket(cmd, text) else []
      ensures answer.Opened? <==> rs != null
      ensures rs != null ==> fresh(rs) && current == rs && rs.state == SetOpen && rs.fieldCount == answer.fieldCount
      ensures rs == null ==> current == old(current)
    {
      rs := null;
      if |text| + 1 >= PAYLOAD_LIMIT {
        return Failed(Overflow), null;
      }
      var ok := SendCommand(cmd, text);
      if !ok {
        return Failed(SocketError), null;
      }
      match ParseReply(reply) {
        case Malformed =>
          answer := Failed(PacketError);
        case Affected(rowcount, lastrowid) =>
          answer := Rows(rowcount, lastrowid);
        case Refused(message) =>
          answer := Failed(CommandError(message));
        case ResultHeader(n) =>
          rs := new ResultSet(this, n);
          current := rs;
          answer := Opened(n);
      }
    }

    /** `close()`: the checks, then `_close`: STATE_CLOSING, the current
        result set closed as part of the connection, the socket closed. */
    method Close(socketFails: bool) returns (fault: Option<Fault>)
      requires Valid()
      modifies this, current, writer.stream
      ensures Valid()
      ensures fault == CloseFault(old(state), old(incommand), socketFails)
      ensures old(state) != Connected || old(incommand) ==> state == old(state) && current == old(current)
      ensures old(state) == Connected && !old(incommand) ==>
        current == null && (old(current) != null ==> old(current).state == SetClosed && old(current).connection == null) &&
        state == (if socketFails then Errored else Closed) && writer.stream.open == (socketFails && old(writer.stream.open))
    {
      if state != Connected {
        return Some(AssertionFailed("make sure connection is connected before closing"));
      }
      if incommand {
        return Some(AssertionFailed("cannot close while still in a command"));
      }
      state := Closing;
      if current != null {
        var _ := current.Close(true);
      }
      if socketFails {
        state := Errored;
        return Some(SocketError);
      }
      writer.stream.open := false;
      state := Closed;
      return None;
    }
  }
}
