/** The byte `Buffer` the I/O layer reads into and writes from (a C extension
    whose behaviour the buffer tests pin down). It is a fixed-capacity byte
    array with a `position` and a `limit`: in write mode the bytes go to
    [position, limit), in read mode the unread bytes are [position, limit).
    Bytes are chars, as everywhere in this model. */
module IOBuffer {
  import opened Common

  /** The text of a line whose raw form `raw` ends with '\n': the raw form when
      the separator is kept, otherwise without its "\n" or "\r\n". */
  function LineText(raw: string, keep: bool): (r: string)
    requires |raw| >= 1 && raw[|raw| - 1] == '\n'
    ensures keep ==> r == raw
    ensures !keep ==> (r + "\n" == raw && (r == [] || r[|r| - 1] != '\r')) || r + "\r\n" == raw
  {
    if keep then raw
    else if |raw| >= 2 && raw[|raw| - 2] == '\r' then raw[..|raw| - 2]
    else raw[..|raw| - 1]
  }

  class Buffer {
    var data: string
    var position: nat
    var limit: nat
    /** The size fixed at construction. */
    const capacity: nat

    ghost predicate Valid()
      reads this
    {
      position <= limit <= |data| == capacity
    }

    /** `remaining`: the room left (write mode) or the bytes left (read mode). */
    function Remaining(): (r: nat)
      reads this
      requires Valid()
      ensures position + r == limit
    {
      limit - position
    }

    /** The bytes between position and limit. */
    function Window(): (r: string)
      reads this
      requires Valid()
      ensures |r| == Remaining()
    {
      data[position..limit]
    }

    /** `Buffer(capacity)`: zero-filled, position 0, limit at the capacity. */
    constructor (capacity: nat)
      ensures Valid() && this.capacity == capacity && position == 0 && limit == capacity
      ensures forall i | 0 <= i < capacity :: data[i] == 0 as char
    {
      this.capacity := capacity;
      data := seq(capacity, i => 0 as char);
      position, limit := 0, capacity;
    }

    /** `clear()`: ready to be written from the start; the bytes stay. */
    method Clear()
      requires Valid()
      modifies this
      ensures Valid() && data == old(data) && position == 0 && limit == |data|
    {
      position, limit := 0, |data|;
    }

    /** `flip()`: what was written becomes readable. */
    method Flip()
      requires Valid()
      modifies this
      ensures Valid() && data == old(data) && position == 0 && limit == old(position)
    {
      position, limit := 0, position;
    }

    /** `compact()`: the unread bytes move to the front and the rest of the
        buffer is room to write after them. */
    method Compact()
      requires Valid()
      modifies this
      ensures Valid() && |data| == |old(data)| && position == old(Remaining()) && limit == |data|
      ensures data[..position] == old(Window()) && data[position..] == old(data)[position..]
    {
      var k := limit - position;
      assert |data[position..limit]| == k;
      data := data[position..limit] + data[k..];
      position, limit := k, |data|;
    }

    /** Assigning `position` directly; it must not pass the limit. */
    method SetPosition(p: nat)
      requires Valid() && p <= limit
      modifies this
      ensures Valid() && data == old(data) && limit == old(limit) && position == p
    {
      position := p;
    }

    /** `skip(n)`: moves past `n` bytes, failing when fewer remain. */
    method Skip(n: nat) returns (ok: bool)
      requires Valid()
      modifies this
      ensures Valid() && data == old(data) && limit == old(limit)
      ensures ok <==> n <= old(Remaining())
      ensures position == if ok then old(position) + n else old(position)
    {
      ok := n <= limit - position;
      if ok {
        position := position + n;
      }
    }

    /** `write_bytes(s)`: all of `s` at the position, or BufferOverflowError with
        nothing written when it does not fit. */
    method WriteBytes(s: string) returns (ok: bool)
      requires Valid()
      modifies this
      ensures Valid() && limit == old(limit) && |data| == |old(data)|
      ensures ok <==> |s| <= old(Remaining())
      ensures ok ==> (position == old(position) + |s| &&
        data == old(data)[..old(position)] + s + old(data)[old(position) + |s|..])
      ensures !ok ==> data == old(data) && position == old(position)
    {
      ok := |s| <= limit - position;
      if ok {
        data := data[..position] + s + data[position + |s|..];
        position := position + |s|;
      }
    }

    /** `write_byte(b)`. */
    method WriteByte(b: byte) returns (ok: bool)
      requires Valid()
      modifies this
      ensures Valid() && limit == old(limit) && |data| == |old(data)|
      ensures ok <==> 1 <= old(Remaining())
      ensures ok ==> position == old(position) + 1 && data == old(data)[old(position) := ByteChar(b)]
      ensures !ok ==> data == old(data) && position == old(position)
    {
      ok := position < limit;
      if ok {
        data := data[position := ByteChar(b)];
        position := position + 1;
      }
    }

    /** `write_short(v)`: two bytes, little-endian. */
    method WriteShort(v: nat) returns (ok: bool)
      requires Valid() && v < 0x1_0000
      modifies this
      ensures Valid() && limit == old(limit) && |data| == |old(data)|
      ensures ok <==> 2 <= old(Remaining())
      ensures ok ==> (position == old(position) + 2 &&
        data == old(data)[..old(position)] + LittleEndian(v, 2) + old(data)[old(position) + 2..])
      ensures !ok ==> data == old(data) && position == old(position)
    {
      ok := WriteBytes(LittleEndian(v, 2));
    }

    /** `write_int(v)`: four bytes, little-endian. */
    method WriteInt(v: nat) returns (ok: bool)
      requires Valid() && v < 0x1_0000_0000
      modifies this
      ensures Valid() && limit == old(limit) && |data| == |old(data)|
      ensures ok <==> 4 <= old(Remaining())
      ensures ok ==> (position == old(position) + 4 &&
        data == old(data)[..old(position)] + LittleEndian(v, 4) + old(data)[old(position) + 4..])
      ensures !ok ==> data == old(data) && position == old(position)
    {
      ok := WriteBytes(LittleEndian(v, 4));
    }

    /** `read_bytes(n)`: the next `n` bytes, or all that remain for n = -1;
        BufferUnderflowError, consuming nothing, when fewer than `n` remain. */
    method ReadBytes(n: int) returns (r: Option<string>)
      requires Valid() && n >= -1
      modifies this
      ensures Valid() && data == old(data) && limit == old(limit)
      ensures r.None? <==> n > old(Remaining())
      ensures n == -1 ==> r == Some(old(Window()))
      ensures r.Some? ==> |r.value| <= old(Remaining()) && r.value == old(Window())[..|r.value|] && position == old(position) + |r.value|
      ensures r.Some? && n >= 0 ==> |r.value| == n
      ensures r.None? ==> position == old(position)
    {
      if n == -1 {
        r := Some(data[position..limit]);
        position := limit;
      } else if n <= limit - position {
        var w := data[position..limit];
        r := Some(w[..n]);
        position := position + n;
      } else {
        r := None;
      }
    }

    /** `read_byte()`. */
    method ReadByte() returns (r: Option<nat>)
      requires Valid()
      modifies this
      ensures Valid() && data == old(data) && limit == old(limit)
      ensures r.None? <==> old(Remaining()) < 1
      ensures r.Some? ==> r.value == FromLittleEndian(old(Window())[..1]) && position == old(position) + 1
      ensures r.None? ==> position == old(position)
    {
      if position < limit {
        var w := data[position..limit];
        r := Some(FromLittleEndian(w[..1]));
        position := position + 1;
      } else {
        r := None;
      }
    }

    /** `read_short()`: two little-endian bytes. */
    method ReadShort() returns (r: Option<nat>)
      requires Valid()
      modifies this
      ensures Valid() && data == old(data) && limit == old(limit)
      ensures r.None? <==> old(Remaining()) < 2
      ensures r.Some? ==> r.value == FromLittleEndian(old(Window())[..2]) && position == old(position) + 2
      ensures r.None? ==> position == old(position)
    {
      if 2 <= limit - position {
        var w := data[position..limit];
        r := Some(FromLittleEndian(w[..2]));
        position := position + 2;
      } else {
        r := None;
      }
    }

    /** `read_line(keep)`: the bytes up to the first '\n' of the window, with or
        without the separator; BufferUnderflowError, consuming nothing, when the
        window holds no '\n'. */
    method ReadLine(keep: bool) returns (r: Option<string>)
      requires Valid()
      modifies this
      ensures Valid() && data == old(data) && limit == old(limit)
      ensures r.None? <==> FindChar(old(Window()), '\n').None?
      ensures r.Some? ==> var e := FindChar(old(Window()), '\n').value;
        r.value == LineText(old(Window())[..e + 1], keep) && position == old(position) + e + 1
      ensures r.None? ==> position == old(position)
    {
      var w := data[position..limit];
      match FindChar(w, '\n') {
        case None =>
          r := None;
        case Some(e) =>
          r := Some(LineText(w[..e + 1], keep));
          position := position + e + 1;
      }
    }

    /** `read_bytes_until(c)`: the bytes before the first `c` of the window; the
        `c` itself is consumed too. BufferUnderflowError when there is none. */
    method ReadBytesUntil(c: char) returns (r: Option<string>)
      requires Valid()
      modifies this
      ensures Valid() && data == old(data) && limit == old(limit)
      ensures r.None? <==> FindChar(old(Window()), c).None?
      ensures r.Some? ==> (|r.value| < old(Remaining()) && old(Window())[..|r.value| + 1] == r.value + [c] &&
        c !in r.value && position == old(position) + |r.value| + 1)
      ensures r.None? ==> position == old(position)
    {
      var w := data[position..limit];
      match FindChar(w, c) {
        case None =>
          r := None;
        case Some(e) =>
          r := Some(w[..e]);
          position := position + e + 1;
      }
    }

    /** `b[i]`: BufferInvalidArgumentError outside [0, capacity). */
    method Get(i: int) returns (r: Option<char>)
      requires Valid()
      ensures r.Some? <==> 0 <= i < |data|
      ensures r.Some? ==> r.value == data[i]
    {
      r := if 0 <= i < |data| then Some(data[i]) else None;
    }

    /** `b[i] = v`: BufferInvalidArgumentError outside [0, capacity) or when `v`
        is not a byte; position and limit do not move. */
    method Set(i: int, v: int) returns (ok: bool)
      requires Valid()
      modifies this
      ensures Valid() && position == old(position) && limit == old(limit)
      ensures ok <==> 0 <= i < |old(data)| && 0 <= v < 256
      ensures ok ==> data == old(data)[i := v as char]
      ensures !ok ==> data == old(data)
    {
      ok := 0 <= i < |data| && 0 <= v < 256;
      if ok {
        data := data[i := v as char];
      }
    }
  }

  /** What the buffer tests pin down about little-endian integers: a short or
      int written and read back is the value. */
  lemma WriteReadInt(v: nat, n: nat)
    requires n == 2 || n == 4
    requires v < Pow256(n)
    ensures |LittleEndian(v, n)| == n && FromLittleEndian(LittleEndian(v, n)) == v
  {
    LittleEndianRoundTrip(v, n);
  }
}
