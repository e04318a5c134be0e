/** The MySQL wire-protocol packet writer: the 4-byte packet header (a 3-byte
    little-endian payload length and a 1-byte sequence number), the
    back-patched header of `start`/`finish`, and the byte layouts of the
    error, OK and greeting packets. Bytes are chars below 256, as everywhere
    in this model. */
module MysqlPacket {
  import opened Common
  import opened IOBuffer

  /** Every char of `s` is a byte. */
  predicate Bytes(s: string)
  {
    forall i | 0 <= i < |s| :: s[i] as int < 256
  }

  /** The buffer contents after writing `s` at `p`. */
  function Put(d: string, p: nat, s: string): (r: string)
    requires p + |s| <= |d|
    ensures |r| == |d| && r[..p] == d[..p] && r[p..p + |s|] == s && r[p + |s|..] == d[p + |s|..]
  {
    d[..p] + s + d[p + |s|..]
  }

  /** The pieces up to k joined are the start of all pieces joined, and one
      more piece extends them by that piece. */
  lemma JoinPrefix(pieces: seq<string>, k: nat)
    requires k <= |pieces|
    ensures |Join(pieces[..k])| <= |Join(pieces)| && Join(pieces)[..|Join(pieces[..k])|] == Join(pieces[..k])
    ensures k == |pieces| ==> Join(pieces[..k]) == Join(pieces)
    ensures k < |pieces| ==> (Join(pieces[..k + 1]) == Join(pieces[..k]) + pieces[k] &&
                              |Join(pieces[..k + 1])| <= |Join(pieces)|)
  {
    JoinAppend(pieces[..k], pieces[k..]);
    assert pieces[..k] + pieces[k..] == pieces;
    if k < |pieces| {
      JoinAppend(pieces[..k], [pieces[k]]);
      assert pieces[..k + 1] == pieces[..k] + [pieces[k]];
      assert Join([pieces[k]]) == pieces[k] by { assert [pieces[k]][1..] == []; }
      JoinAppend(pieces[..k + 1], pieces[k + 1..]);
      assert pieces[..k + 1] + pieces[k + 1..] == pieces;
    }
  }

  /** Writing `a` and then `b` right after it is writing `a + b`. */
  lemma PutPut(d: string, p: nat, a: string, b: string)
    requires p + |a| + |b| <= |d|
    ensures Put(Put(d, p, a), p + |a|, b) == Put(d, p, a + b)
  {
    var r := Put(Put(d, p, a), p + |a|, b);
    assert r[..p] == d[..p];
    assert r[p..p + |a|] == a;
    assert r[p..p + |a| + |b|] == a + b;
    assert r == r[..p] + r[p..p + |a| + |b|] + r[p + |a| + |b|..];
  }

  // ---------------------------------------------------------------------
  // Packet layouts

  const PAYLOAD_LIMIT := 0x100_0000

  /** `write_header(length, n)`: the int `(length - 4) | (n << 24)`, where
      `length` counts the 4 header bytes. */
  function Header(length: nat, n: nat): (r: string)
    requires 4 <= length && length - 4 < PAYLOAD_LIMIT && n < 256
    ensures |r| == 4
  {
    LittleEndian(length - 4 + n * PAYLOAD_LIMIT, 4)
  }

  /** The 4-byte little-endian form of the header value is the 3-byte payload
      length followed by the sequence number byte. */
  lemma HeaderFields(length: nat, n: nat)
    requires 4 <= length && length - 4 < PAYLOAD_LIMIT && n < 256
    ensures Header(length, n) == LittleEndian(length - 4, 3) + [ByteChar(n)]
    ensures FromLittleEndian(Header(length, n)[..3]) == length - 4
    ensures Header(length, n)[3] as int == n
  {
    assert Pow256(3) == PAYLOAD_LIMIT by {
      assert Pow256(1) == 256;
      assert Pow256(2) == 65536;
    }
    LittleEndianTop(length - 4, 3, n);
    LittleEndianRoundTrip(length - 4, 3);
    assert Header(length, n)[..3] == LittleEndian(length - 4, 3);
  }

  /** A value below 256^k plus `n` times 256^k is, in k + 1 little-endian
      bytes, the k bytes of the value and then `n`. */
  lemma {:induction false} LittleEndianTop(a: nat, k: nat, n: nat)
    requires a < Pow256(k) && n < 256
    ensures LittleEndian(a + n * Pow256(k), k + 1) == LittleEndian(a, k) + [ByteChar(n)]
    decreases k
  {
    if k == 0 {
      assert a == 0;
      assert LittleEndian(n, 1) == [ByteChar(n % 256)] + LittleEndian(n / 256, 0);
    } else {
      var m := n * Pow256(k - 1);
      var v := a + n * Pow256(k);
      assert v == a + 256 * m;
      DivModShift(a, m);
      assert a / 256 < Pow256(k - 1);
      LittleEndianTop(a / 256, k - 1, n);
      assert v / 256 == a / 256 + n * Pow256(k - 1);
    }
  }

  lemma DivModShift(a: nat, m: nat)
    ensures (a + 256 * m) % 256 == a % 256 && (a + 256 * m) / 256 == a / 256 + m
  {
    var q, r := a / 256, a % 256;
    assert a == 256 * q + r;
    assert a + 256 * m == 256 * (q + m) + r;
  }

  /** `write_error(errno, msg)`: 0xFF, the low and the high byte of the error
      number, then the message. */
  function ErrorPieces(errno: int, message: string): seq<string>
  {
    [[ByteChar(0xFF)], [ByteChar(errno % 256)], [ByteChar((errno / 256) % 256)], message]
  }

  function ErrorPacket(errno: int, message: string): (r: string)
  {
    Join(ErrorPieces(errno, message))
  }

  /** The error packet's marker, its 16-bit error number and its message. */
  lemma ErrorFields(errno: int, message: string)
    ensures var p := ErrorPacket(errno, message);
      |p| == 3 + |message| && p[0] as int == 0xFF &&
      FromLittleEndian(p[1..3]) == errno % 0x1_0000 && p[3..] == message
  {
    var lo, hi := errno % 256, (errno / 256) % 256;
    var a, b, c := [ByteChar(0xFF)], [ByteChar(lo)], [ByteChar(hi)];
    JoinCons(a, [b, c, message]);
    JoinCons(b, [c, message]);
    JoinCons(c, [message]);
    JoinCons(message, []);
    var p := ErrorPacket(errno, message);
    assert p == a + (b + (c + (message + [])));
    assert p[1..3] == [ByteChar(lo), ByteChar(hi)];
    assert p[1..3][1..] == [ByteChar(hi)];
    assert FromLittleEndian([ByteChar(hi)]) == hi by { assert [ByteChar(hi)][1..] == []; }
    assert FromLittleEndian(p[1..3]) == lo + 256 * hi;
    assert lo + 256 * hi == errno % 0x1_0000 by { Mod16(errno); }
  }

  lemma JoinCons(a: string, rest: seq<string>)
    ensures Join([a] + rest) == a + Join(rest)
  {
    assert ([a] + rest)[1..] == rest;
  }

  lemma Mod16(x: int)
    ensures x % 256 + 256 * ((x / 256) % 256) == x % 0x1_0000
  {
    var q := x / 256;
    assert x == 256 * q + x % 256;
    var q2 := q / 256;
    assert q == 256 * q2 + q % 256;
    assert x == 0x1_0000 * q2 + (256 * (q % 256) + x % 256);
  }

  /** `write_ok(field_count, affected_rows, insert_id, server_status,
      warning_count, msg)`: three single bytes, two shorts, then the message
      (nothing when it is empty). */
  function OkPieces(fieldCount: byte, affectedRows: byte, insertId: byte, status: nat, warnings: nat, message: string): seq<string>
    requires status < 0x1_0000 && warnings < 0x1_0000
  {
    [[ByteChar(fieldCount)], [ByteChar(affectedRows)], [ByteChar(insertId)],
     LittleEndian(status, 2), LittleEndian(warnings, 2)] + (if message != [] then [message] else [])
  }

  function OkPacket(fieldCount: byte, affectedRows: byte, insertId: byte, status: nat, warnings: nat, message: string): string
    requires status < 0x1_0000 && warnings < 0x1_0000
  {
    Join(OkPieces(fieldCount, affectedRows, insertId, status, warnings, message))
  }

  /** The OK packet's fields sit at fixed offsets: three bytes, the status at
      3..5, the warning count at 5..7 and the message after. */
  lemma OkFields(fieldCount: byte, affectedRows: byte, insertId: byte, status: nat, warnings: nat, message: string)
    requires status < 0x1_0000 && warnings < 0x1_0000
    ensures var p := OkPacket(fieldCount, affectedRows, insertId, status, warnings, message);
      |p| == 7 + |message| && p[0] as int == fieldCount && p[1] as int == affectedRows && p[2] as int == insertId &&
      FromLittleEndian(p[3..5]) == status && FromLittleEndian(p[5..7]) == warnings && p[7..] == message
  {
    var s2, w2 := LittleEndian(status, 2), LittleEndian(warnings, 2);
    OkText(fieldCount, affectedRows, insertId, status, warnings, message);
    var p := OkPacket(fieldCount, affectedRows, insertId, status, warnings, message);
    assert p[3..5] == s2 && p[5..7] == w2 && p[7..] == message;
    LittleEndianRoundTrip(status, 2);
    LittleEndianRoundTrip(warnings, 2);
  }

  /** The OK packet is its pieces in a row. */
  lemma OkText(fieldCount: byte, affectedRows: byte, insertId: byte, status: nat, warnings: nat, message: string)
    requires status < 0x1_0000 && warnings < 0x1_0000
    ensures OkPacket(fieldCount, affectedRows, insertId, status, warnings, message) ==
      [ByteChar(fieldCount)] + ([ByteChar(affectedRows)] + ([ByteChar(insertId)] +
      (LittleEndian(status, 2) + (LittleEndian(warnings, 2) + message))))
  {
    var s2, w2 := LittleEndian(status, 2), LittleEndian(warnings, 2);
    var a, b, c := [ByteChar(fieldCount)], [ByteChar(affectedRows)], [ByteChar(insertId)];
    var tail := if message != [] then [message] else [];
    assert Join(tail) == message by {
      if message != [] { JoinCons(message, []); }
    }
    assert OkPieces(fieldCount, affectedRows, insertId, status, warnings, message) == [a] + ([b] + ([c] + ([s2] + ([w2] + tail))));
    JoinCons(a, [b] + ([c] + ([s2] + ([w2] + tail))));
    JoinCons(b, [c] + ([s2] + ([w2] + tail)));
    JoinCons(c, [s2] + ([w2] + tail));
    JoinCons(s2, [w2] + tail);
    JoinCons(w2, tail);
  }

  /** The server greeting's fields. */
  datatype Greeting = Greeting(protocol: byte, version: string, threadId: nat, scramble: string,
                               caps: nat, language: byte, status: nat)

  predicate Encodable(g: Greeting)
  {
    g.threadId < 0x1_0000_0000 && g.caps < 0x1_0000 && g.status < 0x1_0000
  }

  /** `write_greeting` as written: the protocol byte, the NUL-terminated
      version, the thread id, the first 8 scramble bytes, a filler byte, the
      capabilities, the language, the status, 13 zero bytes and the rest of
      the scramble, with no NUL after it. */
  function GreetingPieces(g: Greeting): seq<string>
    requires Encodable(g)
  {
    [[ByteChar(g.protocol)], g.version + [0 as char], LittleEndian(g.threadId, 4),
     Take(g.scramble, 8), [0 as char], LittleEndian(g.caps, 2), [ByteChar(g.language)],
     LittleEndian(g.status, 2), seq(13, _ => 0 as char), Drop(g.scramble, 8)]
  }

  /** Python slicing `s[:n]` and `s[n:]`, which clip at the end. */
  function Take(s: string, n: nat): (r: string)
    ensures |r| == if |s| < n then |s| else n
  {
    if |s| < n then s else s[..n]
  }

  function Drop(s: string, n: nat): (r: string)
    ensures Take(s, n) + r == s
  {
    if |s| < n then [] else s[n..]
  }

  /** The greeting laid out field after field; nothing follows the second
      part of the scramble. */
  function GreetingAsWritten(g: Greeting): (r: string)
    requires Encodable(g)
    ensures r == [ByteChar(g.protocol)] + (g.version + [0 as char]) + (GreetingMiddle(g) + Drop(g.scramble, 8))
  {
    GreetingJoin(g, []);
    assert GreetingPieces(g) + [] == GreetingPieces(g);
    assert Drop(g.scramble, 8) + Join([]) == Drop(g.scramble, 8);
    Join(GreetingPieces(g))
  }

  /** The greeting as the reader in the client expects it: the scramble's
      second part is NUL-terminated. */
  function GreetingPacket(g: Greeting): (r: string)
    requires Encodable(g)
    ensures r == GreetingAsWritten(g) + [0 as char]
  {
    GreetingJoin(g, [[0 as char]]);
    JoinCons([0 as char], []);
    Join(GreetingPieces(g) + [[0 as char]])
  }

  /** The 31 bytes between the version's NUL and the scramble's second part. */
  function GreetingMiddle(g: Greeting): string
    requires Encodable(g)
  {
    LittleEndian(g.threadId, 4) + Take(g.scramble, 8) + [0 as char] + LittleEndian(g.caps, 2) +
    [ByteChar(g.language)] + LittleEndian(g.status, 2) + seq(13, _ => 0 as char)
  }

  /** The greeting pieces, and any after them, in a row. */
  lemma GreetingJoin(g: Greeting, extra: seq<string>)
    requires Encodable(g)
    ensures Join(GreetingPieces(g) + extra) ==
      [ByteChar(g.protocol)] + (g.version + [0 as char]) + (GreetingMiddle(g) + (Drop(g.scramble, 8) + Join(extra)))
  {
    var a0, a1, a2, a3 := [ByteChar(g.protocol)], g.version + [0 as char], LittleEndian(g.threadId, 4), Take(g.scramble, 8);
    var a4, a5, a6, a7 := [0 as char], LittleEndian(g.caps, 2), [ByteChar(g.language)], LittleEndian(g.status, 2);
    var a8: string, a9 := seq(13, _ => 0 as char), Drop(g.scramble, 8);
    var t9 := [a9] + extra;
    var t8 := [a8] + t9;
    var t7 := [a7] + t8;
    var t6 := [a6] + t7;
    var t5 := [a5] + t6;
    var t4 := [a4] + t5;
    var t3 := [a3] + t4;
    var t2 := [a2] + t3;
    var t1 := [a1] + t2;
    assert GreetingPieces(g) + extra == [a0] + t1;
    JoinCons(a0, t1);
    JoinCons(a1, t2);
    JoinCons(a2, t3);
    JoinCons(a3, t4);
    JoinCons(a4, t5);
    JoinCons(a5, t6);
    JoinCons(a6, t7);
    JoinCons(a7, t8);
    JoinCons(a8, t9);
    JoinCons(a9, extra);
    var r := a9 + Join(extra);
    calc {
      Join(t2);
      a2 + (a3 + Join(t4));
      (a2 + a3) + (a4 + Join(t5));
      (a2 + a3 + a4) + (a5 + Join(t6));
      (a2 + a3 + a4 + a5) + (a6 + Join(t7));
      (a2 + a3 + a4 + a5 + a6) + (a7 + Join(t8));
      (a2 + a3 + a4 + a5 + a6 + a7) + (a8 + r);
      (a2 + a3 + a4 + a5 + a6 + a7 + a8) + r;
    }
  }

  /** Where the middle of the greeting keeps each field. */
  lemma MiddleFields(g: Greeting)
    requires Encodable(g) && |g.scramble| >= 8
    ensures var m := GreetingMiddle(g);
      |m| == 31 && m[4..12] == g.scramble[..8] && m[13..15] == LittleEndian(g.caps, 2) &&
      m[15] == ByteChar(g.language) && m[16..18] == LittleEndian(g.status, 2)
  {
    var x := LittleEndian(g.threadId, 4) + Take(g.scramble, 8) + [0 as char];
    var y := LittleEndian(g.caps, 2) + [ByteChar(g.language)] + LittleEndian(g.status, 2);
    var m := GreetingMiddle(g);
    assert m == x + y + seq(13, _ => 0 as char);
    assert x[4..12] == g.scramble[..8];
    assert y[..2] == LittleEndian(g.caps, 2) && y[3..5] == LittleEndian(g.status, 2);
  }

  /** `write_lcb(b)` for the values it supports (b < 128): one byte. */
  function Lcb(b: nat): (r: string)
    requires b < 128
    ensures |r| == 1 && r[0] as int == b
  {
    [b as char]
  }

  /** `write_lcs(s)`: its length as a length-coded binary, then `s`. */
  function Lcs(s: string): (r: string)
    requires |s| < 128
    ensures |r| == 1 + |s| && r[0] as int == |s| && r[1..] == s
  {
    Lcb(|s|) + s
  }

  // ---------------------------------------------------------------------
  // The writer

  /** `BufferedPacketWriter`: writes packet bytes straight into the buffer
      (the buffer's overflow error is `ok == false`), remembering where the
      current packet started. */
  class PacketWriter {
    const buffer: Buffer
    var startPosition: nat

    ghost predicate Valid()
      reads this, buffer
    {
      buffer.Valid()
    }

    constructor (buffer: Buffer)
      requires buffer.Valid()
      ensures Valid() && this.buffer == buffer && startPosition == 0
    {
      this.buffer := buffer;
      startPosition := 0;
    }

    /** The writes of one writer method, piece by piece, stopping at the first
        piece that does not fit. Done, the pieces are in place after the
        position; stopped, the pieces before the one that did not fit are. */
    method Emit(pieces: seq<string>) returns (ok: bool)
      requires Valid()
      modifies buffer
      ensures Valid() && buffer.limit == old(buffer.limit)
      ensures ok <==> |Join(pieces)| <= old(buffer.Remaining())
      ensures old(buffer.position) <= buffer.position <= old(buffer.position) + |Join(pieces)|
      ensures ok ==> buffer.position == old(buffer.position) + |Join(pieces)|
      ensures buffer.data == Put(old(buffer.data), old(buffer.position), Join(pieces)[..buffer.position - old(buffer.position)])
    {
      ghost var d0, p0 := buffer.data, buffer.position;
      var k := 0;
      ok := true;
      while k < |pieces|
        invariant 0 <= k <= |pieces| && buffer.Valid() && buffer.limit == old(buffer.limit)
        invariant p0 + |Join(pieces[..k])| == buffer.position
        invariant buffer.data == Put(d0, p0, Join(pieces[..k]))
      {
        JoinPrefix(pieces, k);
        ok := buffer.WriteBytes(pieces[k]);
        if !ok {
          return;
        }
        PutPut(d0, p0, Join(pieces[..k]), pieces[k]);
        k := k + 1;
      }
      JoinPrefix(pieces, k);
    }

    /** `write_header(length, n)`. */
    method WriteHeader(length: nat, n: nat) returns (ok: bool)
      requires Valid() && 4 <= length && length - 4 < PAYLOAD_LIMIT && n < 256
      modifies buffer
      ensures Valid() && buffer.limit == old(buffer.limit)
      ensures ok <==> 4 <= old(buffer.Remaining())
      ensures ok ==> (buffer.position == old(buffer.position) + 4 &&
        buffer.data == Put(old(buffer.data), old(buffer.position), Header(length, n)))
      ensures !ok ==> buffer.data == old(buffer.data) && buffer.position == old(buffer.position)
    {
      assert length - 4 + n * PAYLOAD_LIMIT < 0x1_0000_0000;
      ok := buffer.WriteInt(length - 4 + n * PAYLOAD_LIMIT);
    }

    /** `start()`: remembers the position and reserves the 4 header bytes. */
    method Start() returns (ok: bool)
      requires Valid()
      modifies this, buffer
      ensures Valid() && buffer.limit == old(buffer.limit) && buffer.data == old(buffer.data)
      ensures startPosition == old(buffer.position)
      ensures ok <==> 4 <= old(buffer.Remaining())
      ensures buffer.position == if ok then old(buffer.position) + 4 else old(buffer.position)
    {
      startPosition := buffer.position;
      ok := buffer.Skip(4);
    }

    /** `finish(n)`: patches the header at the remembered start, its length the
        bytes written since then, and puts the position back. */
    method Finish(n: nat) returns (ok: bool)
      requires Valid() && n < 256
      requires startPosition + 4 <= buffer.position && buffer.position - startPosition - 4 < PAYLOAD_LIMIT
      modifies buffer
      ensures Valid() && ok && buffer.limit == old(buffer.limit) && buffer.position == old(buffer.position)
      ensures buffer.data == Put(old(buffer.data), startPosition, Header(old(buffer.position) - startPosition, n))
    {
      var position := buffer.position;
      var length := position - startPosition;
      buffer.SetPosition(startPosition);
      ok := WriteHeader(length, n);
      buffer.SetPosition(position);
    }

    /** `write_error(errno, errmsg)`. */
    method WriteError(errno: int, message: string) returns (ok: bool)
      requires Valid()
      modifies buffer
      ensures Valid() && buffer.limit == old(buffer.limit)
      ensures ok <==> |ErrorPacket(errno, message)| <= old(buffer.Remaining())
      ensures ok ==> (buffer.position == old(buffer.position) + |ErrorPacket(errno, message)| &&
        buffer.data == Put(old(buffer.data), old(buffer.position), ErrorPacket(errno, message)))
    {
      ok := Emit(ErrorPieces(errno, message));
      if ok {
        assert ErrorPacket(errno, message)[..|ErrorPacket(errno, message)|] == ErrorPacket(errno, message);
      }
    }

    /** `write_ok(...)`. */
    method WriteOk(fieldCount: byte, affectedRows: byte, insertId: byte, status: nat, warnings: nat, message: string) returns (ok: bool)
      requires Valid() && status < 0x1_0000 && warnings < 0x1_0000
      modifies buffer
      ensures Valid() && buffer.limit == old(buffer.limit)
      ensures var p := OkPacket(fieldCount, affectedRows, insertId, status, warnings, message);
        (ok <==> |p| <= old(buffer.Remaining())) &&
        (ok ==> (buffer.position == old(buffer.position) + |p| &&
                 buffer.data == Put(old(buffer.data), old(buffer.position), p)))
    {
      ok := Emit(OkPieces(fieldCount, affectedRows, insertId, status, warnings, message));
      ghost var p := OkPacket(fieldCount, affectedRows, insertId, status, warnings, message);
      assert p[..|p|] == p;
    }

    /** `write_greeting(...)`, with the NUL that ends the scramble. */
    method WriteGreeting(g: Greeting) returns (ok: bool)
      requires Valid() && Encodable(g)
      modifies buffer
      ensures Valid() && buffer.limit == old(buffer.limit)
      ensures ok <==> |GreetingPacket(g)| <= old(buffer.Remaining())
      ensures ok ==> (buffer.position == old(buffer.position) + |GreetingPacket(g)| &&
        buffer.data == Put(old(buffer.data), old(buffer.position), GreetingPacket(g)))
    {
      ok := Emit(GreetingPieces(g) + [[0 as char]]);
      assert GreetingPacket(g)[..|GreetingPacket(g)|] == GreetingPacket(g);
    }

    /** `write_int(i)`. */
    method WriteInt(i: nat) returns (ok: bool)
      requires Valid() && i < 0x1_0000_0000
      modifies buffer
      ensures Valid() && buffer.limit == old(buffer.limit)
      ensures ok <==> 4 <= old(buffer.Remaining())
      ensures ok ==> (buffer.position == old(buffer.position) + 4 &&
        buffer.data == Put(old(buffer.data), old(buffer.position), LittleEndian(i, 4)))
      ensures !ok ==> buffer.data == old(buffer.data) && buffer.position == old(buffer.position)
    {
      ok := buffer.WriteInt(i);
    }

    /** `write_lcb(b)`: an assertion failure (nothing written) from 128 on. */
    method WriteLcb(b: nat) returns (ok: bool)
      requires Valid()
      modifies buffer
      ensures Valid() && buffer.limit == old(buffer.limit)
      ensures ok <==> b < 128 && 1 <= old(buffer.Remaining())
      ensures ok ==> (buffer.position == old(buffer.position) + 1 &&
        buffer.data == Put(old(buffer.data), old(buffer.position), Lcb(b)))
      ensures !ok ==> buffer.data == old(buffer.data) && buffer.position == old(buffer.position)
    {
      if b >= 128 {
        return false;
      }
      ok := buffer.WriteByte(b);
    }

    /** `write_lcs(s)`. */
    method WriteLcs(s: string) returns (ok: bool)
      requires Valid()
      modifies buffer
      ensures Valid() && buffer.limit == old(buffer.limit)
      ensures ok <==> |s| < 128 && 1 + |s| <= old(buffer.Remaining())
      ensures ok ==> (buffer.position == old(buffer.position) + 1 + |s| &&
        buffer.data == Put(old(buffer.data), old(buffer.position), Lcs(s)))
    {
      ok := WriteLcb(|s|);
      if ok {
        ok := buffer.WriteBytes(s);
        if ok {
          PutPut(old(buffer.data), old(buffer.position), Lcb(|s|), s);
        }
      }
    }
  }
}
