/** The buffered stream layer of io/buffered.py: a reader that refills a
    `Buffer` from a stream and serves exact-size reads, short reads and lines,
    and a writer that collects bytes in a `Buffer` and flushes them to a
    stream. The underlying streams are modelled by what they deliver: the
    input as a queue of non-empty chunks (one read takes at most the head chunk
    and never more than the buffer's room; 0 means EOF), the output as the
    bytes accepted so far, at most `maxWrite` per write, or none once closed. */
module Buffered {
  import opened Common
  import opened IOBuffer

  function Min(a: int, b: int): (r: int)
    ensures r <= a && r <= b && (r == a || r == b)
  {
    if a <= b then a else b
  }

  /** The part of the unread input a line must end within: a line longer than
      the buffer can never be read ("it cant read line accross buffer"). */
  function LineSpan(u: string, capacity: nat): (r: string)
    ensures |r| == Min(capacity, |u|) && r == u[..|r|]
  {
    u[..Min(capacity, |u|)]
  }

  /** The first '\n' of a prefix of `u` is the first '\n' of `u`; a prefix
      without one says so for those positions of `u`. */
  lemma FindInPrefix(w: string, u: string)
    requires |w| <= |u| && w == u[..|w|]
    ensures FindChar(w, '\n').Some? ==> FindChar(u, '\n') == FindChar(w, '\n')
    ensures FindChar(w, '\n').None? ==> forall j | 0 <= j < |w| :: u[j] != '\n'
  {
    match FindChar(w, '\n')
    case None =>
      forall j | 0 <= j < |w| ensures u[j] != '\n' { assert u[j] == w[j]; }
    case Some(e) =>
      assert u[e] == w[e];
      forall j | 0 <= j < e ensures u[j] != '\n' { assert u[j] == w[j]; }
  }

  /** Handing out the front `x` of the unread input moves it to what was read. */
  lemma MoveFront(u: string, r: string, x: string, w: string, rest: string)
    requires u == r + ((x + w) + rest)
    ensures u == (r + x) + (w + rest)
  {
  }

  /** Whatever follows a string that holds a '\n' does not move its first one. */
  lemma FindAfterPrefix(w: string, t: string)
    requires FindChar(w, '\n').Some?
    ensures FindChar(w + t, '\n') == FindChar(w, '\n')
  {
    var e := FindChar(w, '\n').value;
    assert (w + t)[e] == w[e];
    forall j | 0 <= j < e ensures (w + t)[j] != '\n' { assert (w + t)[j] == w[j]; }
  }

  /** What `CompatibleFile.readline()` hands out from the unread input `u`:
      the first line with its '\n' when it ends within a buffer's worth of
      input, otherwise that buffer's worth (the unterminated rest at EOF). */
  function FileLine(u: string, capacity: nat): (r: string)
    ensures |r| <= |u| && r == u[..|r|]
  {
    match FindChar(LineSpan(u, capacity), '\n')
    case Some(e) => LineSpan(u, capacity)[..e + 1]
    case None => LineSpan(u, capacity)
  }

  /** The line handed out is the first line of the input: no '\n' before its
      end, a '\n' at its end if anywhere, never longer than the buffer, and
      empty only at the end of the input. */
  lemma FileLineShape(u: string, capacity: nat)
    ensures var r := FileLine(u, capacity);
      |r| <= capacity && (capacity > 0 && u != [] ==> r != []) &&
      (forall i | 0 <= i < |r| - 1 :: r[i] != '\n') &&
      ('\n' in r ==> r[|r| - 1] == '\n')
  {
    var r := FileLine(u, capacity);
    var l := LineSpan(u, capacity);
    match FindChar(l, '\n')
    case Some(e) =>
      assert r == l[..e + 1];
      forall i | 0 <= i < |r| - 1 ensures r[i] != '\n' { assert r[i] == l[i]; }
    case None =>
      assert r == l;
  }

  /** What `readlines()` yields up to its first '' from the unread input `u`:
      one `FileLine` after another. */
  ghost function ReadLines(u: string, capacity: nat): seq<string>
    requires capacity > 0
    decreases |u|
  {
    if u == [] then []
    else
      FileLineShape(u, capacity);
      var l := FileLine(u, capacity);
      [l] + ReadLines(u[|l|..], capacity)
  }

  /** The lines `readlines()` yields before its first '' are non-empty and
      together are exactly the input, in order (the shape of each one is
      `FileLineShape`). */
  lemma {:induction false} ReadLinesPartition(u: string, capacity: nat)
    requires capacity > 0
    ensures Join(ReadLines(u, capacity)) == u
    ensures forall i | 0 <= i < |ReadLines(u, capacity)| :: ReadLines(u, capacity)[i] != []
    decreases |u|
  {
    if u != [] {
      FileLineShape(u, capacity);
      var l := FileLine(u, capacity);
      ReadLinesPartition(u[|l|..], capacity);
      var ls := ReadLines(u, capacity);
      assert ls == [l] + ReadLines(u[|l|..], capacity);
      assert ls[1..] == ReadLines(u[|l|..], capacity);
      assert u == l + u[|l|..];
    }
  }

  /** A window no larger than the buffer is the front of the line span. */
  lemma SpanAfterWindow(w: string, rest: string, capacity: nat)
    requires |w| <= capacity
    ensures LineSpan(w + rest, capacity) == w + rest[..Min(capacity, |w| + |rest|) - |w|]
  {
  }

  /** A window of the input that holds a '\n' fixes the line: it ends at that
      window's first '\n'. */
  lemma LineFound(w: string, rest: string, capacity: nat)
    requires |w| <= capacity && FindChar(w, '\n').Some?
    ensures var e := FindChar(w, '\n').value;
      e < |w| && FileLine(w + rest, capacity) == w[..e + 1] && w[e] == '\n'
  {
    var e := FindChar(w, '\n').value;
    var t := rest[..Min(capacity, |w| + |rest|) - |w|];
    SpanAfterWindow(w, rest, capacity);
    FindAfterPrefix(w, t);
    assert (w + t)[..e + 1] == w[..e + 1];
  }

  /** A line whose last byte is '\n' contains one. */
  lemma EndsInNewline(x: string)
    requires |x| > 0 && x[|x| - 1] == '\n'
    ensures '\n' in x
  {
  }

  /** A window without '\n' that is the whole input, or a full buffer, is where
      a line would have to end: there is none, and the window is what
      `readline` hands out. */
  lemma LineMissing(w: string, rest: string, capacity: nat)
    requires |w| <= capacity && FindChar(w, '\n').None? && (rest == [] || |w| == capacity)
    ensures FileLine(w + rest, capacity) == w && '\n' !in w
  {
    assert (w + rest)[..|w|] == w;
    assert LineSpan(w + rest, capacity) == w;
  }

  /** Cutting the window at `k` cuts the whole input there. */
  lemma SplitAt(w: string, rest: string, k: nat)
    requires k <= |w|
    ensures (w + rest)[..k] == w[..k] && (w + rest)[k..] == w[k..] + rest
  {
  }

  /** A source of input bytes (an `IOStream` being read). */
  class InStream {
    var chunks: seq<string>

    ghost predicate Valid()
      reads this
    {
      forall i | 0 <= i < |chunks| :: chunks[i] != []
    }

    /** Everything the stream will still deliver. */
    ghost function Rest(): string
      reads this
    {
      Join(chunks)
    }

    /** `stream.read(buffer)`: writes the next bytes at the buffer's position
        and returns their number; 0 at EOF or when the buffer has no room. */
    method Read(b: Buffer) returns (n: nat)
      requires Valid() && b.Valid()
      modifies this, b
      ensures Valid() && b.Valid() && b.limit == old(b.limit) && |b.data| == |old(b.data)|
      ensures n == 0 <==> old(chunks) == [] || old(b.Remaining()) == 0
      ensures n <= old(b.Remaining()) && n <= |old(Rest())| && b.position == old(b.position) + n
      ensures b.data[..b.position] == old(b.data)[..old(b.position)] + old(Rest())[..n]
      ensures Rest() == old(Rest())[n..]
      ensures n == 0 ==> chunks == old(chunks) && b.data == old(b.data)
    {
      if chunks == [] || b.limit - b.position == 0 {
        n := 0;
        return;
      }
      var c := chunks[0];
      n := Min(|c|, b.limit - b.position);
      ghost var p0, d0 := b.position, b.data;
      var ok := b.WriteBytes(c[..n]);
      assert b.data[..b.position] == d0[..p0] + c[..n];
      assert Join(chunks) == c + Join(chunks[1..]);
      assert (c + Join(chunks[1..]))[..n] == c[..n];
      if n < |c| {
        assert c[n..] + Join(chunks[1..]) == (c + Join(chunks[1..]))[n..];
        assert Join([c[n..]] + chunks[1..]) == c[n..] + Join(chunks[1..]);
        chunks := [c[n..]] + chunks[1..];
      } else {
        assert (c + Join(chunks[1..]))[n..] == Join(chunks[1..]);
        chunks := chunks[1..];
      }
    }
  }

  /** A sink for output bytes (an `IOStream` being written). */
  class OutStream {
    var sent: string
    var open: bool
    const maxWrite: nat

    ghost predicate Valid()
      reads this
    {
      maxWrite > 0
    }

    /** `stream.write(buffer)`: takes up to `maxWrite` of the buffer's unread
        bytes and returns their number; 0 once the stream is closed. */
    method Write(b: Buffer) returns (n: nat)
      requires Valid() && b.Valid()
      modifies this, b
      ensures Valid() && open == old(open) && b.Valid()
      ensures b.data == old(b.data) && b.limit == old(b.limit) && b.position == old(b.position) + n
      ensures n == 0 <==> !open || old(b.Remaining()) == 0
      ensures sent == old(sent) + old(b.Window())[..n]
    {
      if !open {
        n := 0;
        return;
      }
      n := Min(maxWrite, b.limit - b.position);
      var w := b.data[b.position..b.limit];
      sent := sent + w[..n];
      b.position := b.position + n;
    }
  }

  /** `BufferedReader(stream, buffer)`. */
  class BufferedReader {
    const stream: InStream
    const buffer: Buffer

    ghost predicate Valid()
      reads this, stream, buffer
    {
      stream.Valid() && buffer.Valid() && buffer.capacity > 0
    }

    /** The input not yet handed out: the buffer's unread bytes, then the stream. */
    ghost function Unread(): string
      reads this, stream, buffer
      requires Valid()
    {
      buffer.Window() + stream.Rest()
    }

    /** A reader starts with an empty buffer: nothing has been read yet. */
    constructor (s: InStream, b: Buffer)
      requires s.Valid() && b.Valid() && b.capacity > 0
      modifies b
      ensures Valid() && stream == s && buffer == b && b.position == 0 && b.limit == 0
      ensures b.data == old(b.data) && Unread() == s.Rest()
    {
      stream, buffer := s, b;
      b.position, b.limit := 0, 0;
    }

    /** `_read_more()`: keeps the unread bytes at the front and appends what
        the stream delivers; EOFError, with the buffer left compacted and not
        flipped, when the stream delivers nothing. */
    method ReadMore() returns (ok: bool)
      requires Valid()
      modifies stream, buffer
      ensures Valid()
      ensures ok <==> old(stream.chunks) != [] && old(buffer.Remaining()) < buffer.capacity
      ensures ok ==> (Unread() == old(Unread()) && buffer.position == 0 &&
        buffer.Remaining() > old(buffer.Remaining()) && |stream.Rest()| < |old(stream.Rest())|)
      ensures !ok ==> (buffer.position == old(buffer.Remaining()) && buffer.limit == buffer.capacity &&
        buffer.data[..buffer.position] == old(buffer.Window()) && stream.chunks == old(stream.chunks))
    {
      ghost var w, rest := buffer.Window(), stream.Rest();
      buffer.Compact();
      var n := stream.Read(buffer);
      if n == 0 {
        ok := false;
        return;
      }
      ok := true;
      assert buffer.data[..buffer.position] == w + rest[..n];
      buffer.Flip();
      assert buffer.Window() == w + rest[..n];
      assert rest == rest[..n] + rest[n..];
    }

    /** `read_bytes(n)`: exactly the next `n` bytes, refilling as needed;
        EOFError when the input ends first. */
    method ReadBytes(n: nat) returns (ok: bool, r: string)
      requires Valid()
      modifies stream, buffer
      ensures Valid()
      ensures ok <==> n <= |old(Unread())|
      ensures ok ==> r == old(Unread())[..n] && Unread() == old(Unread())[n..]
    {
      ghost var u := Unread();
      var left: int := n;
      r := [];
      while left > 0
        invariant Valid() && u == r + Unread()
        invariant |r| == n - (if left > 0 then left else 0)
        decreases (if left > 0 then left else 0), |stream.Rest()|
      {
        var rem := buffer.limit - buffer.position;
        if rem > 0 {
          ghost var w := buffer.Window();
          var x := buffer.ReadBytes(Min(left, rem));
          assert w == x.value + buffer.Window();
          MoveFront(u, r, x.value, buffer.Window(), stream.Rest());
          r := r + x.value;
          left := left - rem;
        } else {
          ok := ReadMore();
          if !ok {
            return;
          }
        }
      }
      ok := true;
      assert u == r + Unread();
    }

    /** `read_short()`: the next two bytes as a little-endian number, refilling
        as needed; EOFError when the input ends first, or when the buffer cannot
        hold two bytes. */
    method ReadShort() returns (ok: bool, r: nat)
      requires Valid()
      modifies stream, buffer
      ensures Valid()
      ensures ok <==> 2 <= |old(Unread())| && 2 <= buffer.capacity
      ensures ok ==> r == FromLittleEndian(old(Unread())[..2]) && Unread() == old(Unread())[2..]
    {
      ghost var u := Unread();
      r := 0;
      while true
        invariant Valid() && Unread() == u
        decreases |stream.Rest()|
      {
        ghost var w := buffer.Window();
        var x := buffer.ReadShort();
        if x.Some? {
          ok, r := true, x.value;
          assert w[..2] == u[..2];
          MoveFront(u, [], w[..2], buffer.Window(), stream.Rest());
          return;
        }
        ok := ReadMore();
        if !ok {
          assert stream.chunks == [] ==> u == w;
          return;
        }
      }
    }

    /** `read_line()`: the next line without its "\n" or "\r\n", refilling as
        needed; EOFError when no '\n' comes within a buffer's worth of input. */
    method ReadLine() returns (ok: bool, r: string)
      requires Valid()
      modifies stream, buffer
      ensures Valid()
      ensures ok <==> '\n' in FileLine(old(Unread()), buffer.capacity)
      ensures ok ==> (FileLineShape(old(Unread()), buffer.capacity);
        r == LineText(FileLine(old(Unread()), buffer.capacity), false) &&
        Unread() == old(Unread())[|FileLine(old(Unread()), buffer.capacity)|..])
    {
      ghost var u := Unread();
      r := [];
      while true
        invariant Valid() && Unread() == u
        decreases |stream.Rest()|
      {
        ghost var w, rest := buffer.Window(), stream.Rest();
        var x := buffer.ReadLine(false);
        if x.Some? {
          LineFound(w, rest, buffer.capacity);
          ghost var e := FindChar(w, '\n').value;
          EndsInNewline(w[..e + 1]);
          assert buffer.Window() == w[e + 1..];
          SplitAt(w, rest, e + 1);
          ok, r := true, x.value;
          return;
        }
        ok := ReadMore();
        if !ok {
          LineMissing(w, rest, buffer.capacity);
          return;
        }
      }
    }

    /** `CompatibleFile.read(n)`: up to `n` bytes, fewer only at EOF, and for
        n = -1 everything up to EOF. EOF is not an error here. */
    method FileRead(n: int) returns (r: string)
      requires Valid()
      modifies stream, buffer
      ensures Valid()
      ensures n == -1 ==> r == old(Unread()) && Unread() == []
      ensures n != -1 ==> var k := Min(if n < 0 then 0 else n, |old(Unread())|);
        r == old(Unread())[..k] && Unread() == old(Unread())[k..]
    {
      if n == -1 {
        r := ReadToEnd();
      } else {
        r := ReadUpTo(n);
      }
    }

    /** The n = -1 loop of `CompatibleFile.read`: drain the buffer, refill,
        until the stream reports EOF. */
    method ReadToEnd() returns (r: string)
      requires Valid()
      modifies stream, buffer
      ensures Valid() && r == old(Unread()) && Unread() == []
    {
      ghost var u := Unread();
      r := [];
      while true
        invariant Valid() && u == r + Unread()
        decreases |stream.Rest()|
      {
        ghost var w := buffer.Window();
        var x := buffer.ReadBytes(-1);
        assert w == x.value + buffer.Window();
        MoveFront(u, r, x.value, buffer.Window(), stream.Rest());
        r := r + x.value;
        var ok := ReadMore();
        if !ok {
          buffer.Flip();
          assert buffer.Window() == [] && stream.Rest() == [];
          return;
        }
      }
    }

    /** The n >= 0 loop of `CompatibleFile.read`: up to `n` bytes, stopping
        early at EOF. */
    method ReadUpTo(n: int) returns (r: string)
      requires Valid()
      modifies stream, buffer
      ensures Valid()
      ensures var k := Min(if n < 0 then 0 else n, |old(Unread())|);
        r == old(Unread())[..k] && Unread() == old(Unread())[k..]
    {
      ghost var u := Unread();
      r := [];
      var left := n;
      while left > 0
        invariant Valid() && u == r + Unread()
        invariant |r| == (if n < 0 then 0 else n) - (if left > 0 then left else 0)
        decreases (if left > 0 then left else 0), |stream.Rest()|
      {
        var rem := buffer.limit - buffer.position;
        if rem > 0 {
          ghost var w := buffer.Window();
          var x := buffer.ReadBytes(Min(left, rem));
          assert w == x.value + buffer.Window();
          MoveFront(u, r, x.value, buffer.Window(), stream.Rest());
          r := r + x.value;
          left := left - rem;
        } else {
          var ok := ReadMore();
          if !ok {
            buffer.Flip();
            assert buffer.Window() == [] && stream.Rest() == [];
            assert u == r + [];
            return;
          }
        }
      }
      assert u == r + Unread();
    }

    /** `CompatibleFile.readline()`: the next line with its separator; at EOF
        the unterminated rest (and from then on ''); a line longer than the
        buffer comes out in buffer-sized fragments. */
    method FileReadLine() returns (r: string)
      requires Valid()
      modifies stream, buffer
      ensures Valid()
      ensures r == FileLine(old(Unread()), buffer.capacity) && Unread() == old(Unread())[|r|..]
    {
      ghost var u := Unread();
      while true
        invariant Valid() && Unread() == u
        decreases |stream.Rest()|
      {
        ghost var w, rest := buffer.Window(), stream.Rest();
        var x := buffer.ReadLine(true);
        if x.Some? {
          LineFound(w, rest, buffer.capacity);
          ghost var e := FindChar(w, '\n').value;
          assert buffer.Window() == w[e + 1..];
          SplitAt(w, rest, e + 1);
          r := x.value;
          return;
        }
        var ok := ReadMore();
        if !ok {
          LineMissing(w, rest, buffer.capacity);
          buffer.Flip();
          assert buffer.Window() == w;
          var y := buffer.ReadBytes(-1);
          r := y.value;
          assert buffer.Window() == [] && stream.Rest() == rest;
          SplitAt(w, rest, |w|);
          return;
        }
      }
    }
  }

  /** Writing `s` at position `p` makes it the tail of what was written. */
  lemma WrittenPrefix(old_data: string, data: string, p: nat, s: string)
    requires p + |s| <= |old_data| && data == old_data[..p] + s + old_data[p + |s|..]
    ensures data[..p + |s|] == old_data[..p] + s
  {
    assert data[..p + |s|] == (old_data[..p] + s + old_data[p + |s|..])[..p + |s|];
  }

  /** Moving the next part of `rest` to what was written keeps the total. */
  lemma Regroup(before: string, part: string, rest: string, k: nat)
    requires k <= |rest| && part == rest[..k]
    ensures (before + part) + rest[k..] == before + rest
  {
    assert rest == part + rest[k..];
  }

  /** `BufferedWriter(stream, buffer)`: collects bytes in the buffer, which is
      in write mode between calls (the limit stays at the capacity). */
  class BufferedWriter {
    const stream: OutStream
    const buffer: Buffer

    ghost predicate Valid()
      reads this, stream, buffer
    {
      stream.Valid() && buffer.Valid() && buffer.capacity > 0
    }

    /** Write mode: bytes go into [position, capacity). */
    ghost predicate Writing()
      reads this, buffer
    {
      buffer.limit == buffer.capacity
    }

    /** The bytes written but not yet flushed. */
    ghost function Pending(): string
      reads this, buffer
      requires buffer.Valid()
    {
      buffer.data[..buffer.position]
    }

    /** Everything written so far: what the stream accepted, then what waits. */
    ghost function Output(): string
      reads this, stream, buffer
      requires Valid()
    {
      stream.sent + Pending()
    }

    constructor (s: OutStream, b: Buffer)
      requires s.Valid() && b.Valid() && b.capacity > 0
      modifies b
      ensures Valid() && Writing() && stream == s && buffer == b && Pending() == []
      ensures b.data == old(b.data) && Output() == s.sent
    {
      stream, buffer := s, b;
      b.position, b.limit := 0, b.capacity;
    }

    /** `clear()`: drops what has not been flushed. */
    method Clear()
      requires Valid()
      modifies buffer
      ensures Valid() && Writing() && Pending() == [] && buffer.data == old(buffer.data)
    {
      buffer.Clear();
    }

    /** `flush()`: hands every pending byte to the stream, in order, and clears
        the buffer; EOFError when the stream accepts nothing, which leaves the
        buffer flipped with nothing sent. */
    method Flush() returns (ok: bool)
      requires Valid() && Writing()
      modifies stream, buffer
      ensures Valid() && stream.open == old(stream.open) && buffer.data == old(buffer.data)
      ensures ok <==> old(Pending()) == [] || stream.open
      ensures ok ==> Writing() && Pending() == [] && stream.sent == old(Output())
      ensures !ok ==> (stream.sent == old(stream.sent) && buffer.position == 0 &&
        buffer.limit == old(buffer.position))
    {
      ghost var o := Output();
      buffer.Flip();
      assert stream.sent + buffer.Window() == o;
      while buffer.limit - buffer.position > 0
        invariant Valid() && stream.open == old(stream.open)
        invariant buffer.data == old(buffer.data) && buffer.limit == old(buffer.position)
        invariant stream.sent + buffer.Window() == o
        invariant !stream.open ==> buffer.position == 0 && stream.sent == old(stream.sent)
        decreases buffer.limit - buffer.position
      {
        ghost var w := buffer.Window();
        var n := stream.Write(buffer);
        if n == 0 {
          return false;
        }
        assert w == w[..n] + buffer.Window();
      }
      assert stream.sent == o;
      buffer.Clear();
      ok := true;
    }

    /** `write_bytes(s)`: into the buffer when it fits; otherwise in parts of at
        most the room left, flushing after each, so the stream receives `s` in
        order. EOFError when a flush fails, which can only be the first. */
    method WriteBytes(s: string) returns (ok: bool)
      requires Valid() && Writing()
      modifies stream, buffer
      ensures Valid() && stream.open == old(stream.open)
      ensures ok <==> |s| <= old(buffer.Remaining()) || old(stream.open)
      ensures ok ==> Writing() && Output() == old(Output()) + s
      ensures |s| <= old(buffer.Remaining()) ==> stream.sent == old(stream.sent)
      ensures ok && |s| > old(buffer.Remaining()) ==> Pending() == []
      ensures !ok ==> (stream.sent == old(stream.sent) && buffer.position == 0 &&
        buffer.limit == buffer.capacity && buffer.data == old(Pending()) + s[..old(buffer.Remaining())])
    {
      ghost var o := Output();
      ghost var p := buffer.position;
      ok := buffer.WriteBytes(s);
      if ok {
        WrittenPrefix(old(buffer.data), buffer.data, p, s);
        return;
      }
      // The first part fills the buffer, so its flush has bytes to send and
      // fails exactly when the stream is closed.
      var k := buffer.limit - buffer.position;
      var part := s[..k];
      Regroup(o, part, s, k);
      var _ := buffer.WriteBytes(part);
      WrittenPrefix(old(buffer.data), buffer.data, p, part);
      assert Output() == o + part;
      ok := Flush();
      if !ok {
        return;
      }
      WriteParts(s[k..]);
    }

    /** The remaining turns of the loop of `write_bytes` once a flush has
        succeeded: each part fills at most the empty buffer and is flushed. */
    method WriteParts(rest: string)
      requires Valid() && Writing() && stream.open && Pending() == []
      modifies stream, buffer
      ensures Valid() && Writing() && stream.open && Pending() == []
      ensures stream.sent == old(stream.sent) + rest
    {
      ghost var o := stream.sent;
      var left := rest;
      while left != []
        invariant Valid() && Writing() && stream.open && Pending() == []
        invariant stream.sent + left == o + rest
        decreases |left|
      {
        ghost var before := stream.sent;
        var k := Min(buffer.limit - buffer.position, |left|);
        var part := left[..k];
        Regroup(before, part, left, k);
        left := left[k..];
        ghost var d := buffer.data;
        var _ := buffer.WriteBytes(part);
        WrittenPrefix(d, buffer.data, 0, part);
        var _ := Flush();
      }
    }

    /** `write_byte(b)`: flushes once when the buffer is full. */
    method WriteByte(b: byte) returns (ok: bool)
      requires Valid() && Writing()
      modifies stream, buffer
      ensures Valid() && stream.open == old(stream.open)
      ensures ok <==> 1 <= old(buffer.Remaining()) || old(stream.open)
      ensures ok ==> Writing() && Output() == old(Output()) + [ByteChar(b)]
      ensures !ok || 1 <= old(buffer.Remaining()) ==> stream.sent == old(stream.sent)
    {
      ghost var o := Output();
      while true
        invariant Valid() && Writing() && stream.open == old(stream.open) && Output() == o
        invariant !stream.open || 1 <= old(buffer.Remaining()) ==> (stream.sent == old(stream.sent) &&
          buffer.position == old(buffer.position) && buffer.data == old(buffer.data))
        decreases if buffer.limit == buffer.position then 1 else 0
      {
        ghost var d := buffer.data;
        ghost var q := buffer.position;
        ok := buffer.WriteByte(b);
        if ok {
          WrittenPrefix(d, buffer.data, q, [ByteChar(b)]);
          return;
        }
        ok := Flush();
        if !ok {
          return;
        }
      }
    }

    /** `write_short(v)`: two little-endian bytes, flushing once when they do
        not fit. The buffer must hold two bytes: a smaller one makes the source
        flush and retry forever. */
    method WriteShort(v: nat) returns (ok: bool)
      requires Valid() && Writing() && buffer.capacity >= 2 && v < 0x1_0000
      modifies stream, buffer
      ensures Valid() && stream.open == old(stream.open)
      ensures ok <==> 2 <= old(buffer.Remaining()) || old(stream.open)
      ensures ok ==> Writing() && Output() == old(Output()) + LittleEndian(v, 2)
      ensures !ok ==> stream.sent == old(stream.sent)
    {
      ghost var o := Output();
      while true
        invariant Valid() && Writing() && stream.open == old(stream.open) && Output() == o
        invariant !stream.open ==> (stream.sent == old(stream.sent) &&
          buffer.position == old(buffer.position) && buffer.data == old(buffer.data))
        decreases if buffer.limit - buffer.position < 2 then 1 else 0
      {
        ghost var d := buffer.data;
        ghost var q := buffer.position;
        ok := buffer.WriteShort(v);
        if ok {
          WrittenPrefix(d, buffer.data, q, LittleEndian(v, 2));
          return;
        }
        ok := Flush();
        if !ok {
          return;
        }
      }
    }
  }

  // ---------------------------------------------------------------------
  // Line reading and multi-piece writing, as the protocol clients use them

  /** `read_line()` on the unread input `u`: the first line without its line
      break, and what follows the break; None where EOFError is raised (the
      input ends, or the buffer fills, before a '\n'). */
  function NextLine(u: string, capacity: nat): (r: Option<(string, string)>)
    ensures r.Some? ==> |r.value.1| < |u|
  {
    var l := FileLine(u, capacity);
    if '\n' in l then
      FileLineShape(u, capacity);
      Some((LineText(l, false), u[|l|..]))
    else None
  }

  /** The line handed out and what follows it make up the input again, with a
      "\n" or "\r\n" between them. */
  lemma NextLineShape(u: string, capacity: nat)
    requires NextLine(u, capacity).Some?
    ensures var (line, rest) := NextLine(u, capacity).value;
      '\n' !in line && (u == line + "\n" + rest || u == line + "\r\n" + rest)
  {
    var l := FileLine(u, capacity);
    FileLineShape(u, capacity);
    var line := LineText(l, false);
    assert u == l + u[|l|..];
    assert forall i | 0 <= i < |line| :: line[i] == l[i];
  }

  /** A line that ends in CRLF and fits the buffer is read back whole. */
  lemma LineOf(line: string, rest: string, capacity: nat)
    requires '\n' !in line && |line| + 2 <= capacity
    ensures NextLine(line + "\r\n" + rest, capacity) == Some((line, rest))
  {
    var w := line + "\r\n";
    assert w[|line| + 1] == '\n';
    assert forall j | 0 <= j < |line| + 1 :: w[j] != '\n' by {
      forall j | 0 <= j < |line| + 1 ensures w[j] != '\n' {
        if j < |line| { assert w[j] == line[j]; }
      }
    }
    assert FindChar(w, '\n') == Some(|line| + 1);
    LineFound(w, rest, capacity);
    assert w[..|line| + 2] == w;
    assert line + "\r\n" + rest == w + rest;
    assert (w + rest)[|w|..] == rest;
    assert w[..|w| - 2] == line;
  }

  /** `reader.read_line()`, seen through NextLine. */
  method ReadLineOf(reader: BufferedReader) returns (ok: bool, line: string)
    requires reader.Valid()
    modifies reader.stream, reader.buffer
    ensures reader.Valid()
    ensures ok <==> NextLine(old(reader.Unread()), reader.buffer.capacity).Some?
    ensures ok ==> NextLine(old(reader.Unread()), reader.buffer.capacity) == Some((line, reader.Unread()))
  {
    ok, line := reader.ReadLine();
  }

  /** `write_bytes` of each piece in turn; a closed stream can make one fail. */
  method WriteAll(writer: BufferedWriter, pieces: seq<string>) returns (ok: bool)
    requires writer.Valid() && writer.Writing()
    modifies writer.stream, writer.buffer
    ensures writer.Valid() && writer.stream.open == old(writer.stream.open)
    ensures old(writer.stream.open) ==> ok
    ensures !old(writer.stream.open) ==> writer.stream.sent == old(writer.stream.sent)
    ensures ok ==> writer.Writing() && writer.Output() == old(writer.Output()) + Join(pieces)
  {
    ghost var o := writer.Output();
    var i := 0;
    ok := true;
    while i < |pieces|
      invariant 0 <= i <= |pieces|
      invariant writer.Valid() && writer.Writing() && writer.stream.open == old(writer.stream.open)
      invariant writer.Output() == o + Join(pieces[..i])
      invariant !writer.stream.open ==> writer.stream.sent == old(writer.stream.sent)
    {
      ok := writer.WriteBytes(pieces[i]);
      if !ok {
        return;
      }
      JoinAppend(pieces[..i], [pieces[i]]);
      assert pieces[..i + 1] == pieces[..i] + [pieces[i]];
      assert Join([pieces[i]]) == pieces[i] + [];
      i := i + 1;
    }
    assert pieces[..i] == pieces;
  }
}
