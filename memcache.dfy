/** The memcached client: a node is one connection to one memcached host.
    Callers queue commands; a writer task sends them in order over the
    buffered stream and queues the pending reply; a reader task reads the
    replies in the same order and hands each to the caller that waits for it.
    Values are serialised by a function the caller supplies (pickle in the
    source); callers and their reply channels are named by waiter numbers. */
module Memcache {
  import opened Common
  import opened Buffered

  type Waiter = nat

  /** The two commands of the protocol the client speaks. */
  datatype Command<T> = Get(keys: seq<string>) | Set(key: string, value: T, flags: int)

  /** The command name kept with a waiter while its reply is outstanding. */
  datatype Op = GetOp | SetOp

  function OpOf<T>(cmd: Command<T>): Op
  {
    if cmd.Get? then GetOp else SetOp
  }

  // ---------------------------------------------------------------------
  // Commands on the wire

  /** " " + key for each key. */
  function Spaced(keys: seq<string>): seq<string>
  {
    if keys == [] then [] else [" " + keys[0]] + Spaced(keys[1..])
  }

  /** The header line of a set: name, key, flags, the 0 expiry time and the
      size of the data block. */
  function SetHeader(key: string, flags: int, size: nat): string
  {
    JoinWith(["set", key, IntToText(flags), "0", IntToText(size)], ' ')
  }

  /** The pieces `_write_command` hands to `write_bytes`, in order. */
  function CommandPieces<T>(cmd: Command<T>, dumps: T -> string): seq<string>
  {
    match cmd
      case Get(keys) => ["get"] + Spaced(keys) + ["\r\n"]
      case Set(key, value, flags) =>
        var data := dumps(value);
        [SetHeader(key, flags, |data|) + "\r\n", data, "\r\n"]
  }

  /** A key the text protocol can carry: no blank and no line break. */
  predicate PlainKey(key: string)
  {
    ' ' !in key && '\n' !in key
  }

  /** Plain words joined by blanks split back into the words and hold no
      line break. */
  lemma PlainWords(words: seq<string>)
    requires words != []
    requires forall i | 0 <= i < |words| :: PlainKey(words[i])
    ensures Split(JoinWith(words, ' '), ' ') == words && '\n' !in JoinWith(words, ' ')
  {
    SplitJoinWith(words, ' ');
    JoinWithFree(words, ' ', '\n');
  }

  lemma IntPlain(i: int)
    ensures PlainKey(IntToText(i))
  {
    IntTextFree(i, ' ');
    IntTextFree(i, '\n');
  }

  lemma {:induction false} SpacedJoin(keys: seq<string>)
    ensures Join(Spaced(keys)) == (if keys == [] then [] else [' '] + JoinWith(keys, ' '))
    decreases |keys|
  {
    if keys != [] {
      var k, tail := keys[0], keys[1..];
      var sp := Spaced(keys);
      assert sp == [" " + k] + Spaced(tail);
      assert sp[0] == " " + k && sp[1..] == Spaced(tail);
      assert Join(sp) == " " + k + Join(Spaced(tail));
      SpacedJoin(tail);
      if tail != [] {
        assert JoinWith(keys, ' ') == k + [' '] + JoinWith(tail, ' ');
        assert " " + k + ([' '] + JoinWith(tail, ' ')) == [' '] + (k + [' '] + JoinWith(tail, ' '));
      } else {
        assert JoinWith(keys, ' ') == k;
      }
    }
  }

  /** The get line is the word "get" and the keys, separated by blanks. */
  lemma GetLine(keys: seq<string>)
    ensures Join(["get"] + Spaced(keys)) == JoinWith(["get"] + keys, ' ')
  {
    SpacedJoin(keys);
    assert (["get"] + Spaced(keys))[1..] == Spaced(keys);
    if keys != [] {
      assert (["get"] + keys)[1..] == keys;
    }
  }

  /** The server reads a get command back as one line whose blank-separated
      words are "get" and the keys, and nothing of what follows is consumed. */
  lemma GetCommandRead<T>(keys: seq<string>, dumps: T -> string, rest: string, capacity: nat)
    requires forall i | 0 <= i < |keys| :: PlainKey(keys[i])
    requires |JoinWith(["get"] + keys, ' ')| + 2 <= capacity
    ensures var line := JoinWith(["get"] + keys, ' ');
      NextLine(Join(CommandPieces(Get(keys), dumps)) + rest, capacity) == Some((line, rest)) &&
      Split(line, ' ') == ["get"] + keys
  {
    var parts := ["get"] + keys;
    var line := JoinWith(parts, ' ');
    JoinAppend(["get"] + Spaced(keys), ["\r\n"]);
    assert Join(["\r\n"]) == "\r\n";
    GetLine(keys);
    assert Join(CommandPieces(Get(keys), dumps)) == line + "\r\n";
    forall i | 0 <= i < |parts| ensures PlainKey(parts[i]) {
      if i > 0 { assert parts[i] == keys[i - 1]; }
    }
    PlainWords(parts);
    LineOf(line, rest, capacity);
  }

  lemma SetText(header: string, data: string, rest: string)
    ensures Join([header + "\r\n", data, "\r\n"]) + rest == header + "\r\n" + (data + "\r\n" + rest)
  {
    assert [header + "\r\n", data, "\r\n"][1..] == [data, "\r\n"];
    assert [data, "\r\n"][1..] == ["\r\n"];
    assert Join(["\r\n"]) == "\r\n";
  }

  /** The server reads a set command back as a header line naming the key, the
      flags and the exact size of the data block that follows it. */
  lemma SetCommandRead<T>(key: string, value: T, flags: int, dumps: T -> string, rest: string, capacity: nat)
    requires PlainKey(key)
    requires |SetHeader(key, flags, |dumps(value)|)| + 2 <= capacity
    ensures var data := dumps(value);
      var header := SetHeader(key, flags, |data|);
      NextLine(Join(CommandPieces(Set(key, value, flags), dumps)) + rest, capacity) ==
        Some((header, data + "\r\n" + rest)) &&
      Split(header, ' ') == ["set", key, IntToText(flags), "0", IntToText(|data|)] &&
      ParseInt(IntToText(|data|)) == Some(|data|)
  {
    var data := dumps(value);
    var header := SetHeader(key, flags, |data|);
    var words := ["set", key, IntToText(flags), "0", IntToText(|data|)];
    SetText(header, data, rest);
    IntPlain(flags);
    IntPlain(|data|);
    assert PlainKey("set") && PlainKey("0");
    assert forall i | 0 <= i < |words| :: PlainKey(words[i]);
    PlainWords(words);
    LineOf(header, data + "\r\n" + rest, capacity);
    IntRoundTrip(|data|);
  }

  // ---------------------------------------------------------------------
  // Replies

  /** What a waiter receives: the values a get found, or True for a set. */
  datatype Reply<T> = Values(values: map<string, T>) | Stored

  /** The rest of a get reply, with the values gathered so far in `acc`:
      "VALUE <key> <flags> <bytes>" lines, each followed by its data block and
      a line break, up to an "END" line. None where the source raises: a line
      the buffer cannot hold, a short VALUE line (IndexError), flags or size
      that are no int (ValueError), a short data block (EOFError), or any other
      line (the protocol-state assertion). A negative size reads no data. */
  function GetReply<T>(u: string, capacity: nat, loads: string -> T, acc: map<string, T>): (r: Option<(map<string, T>, string)>)
    ensures r.Some? ==> |r.value.1| < |u|
    decreases |u|
  {
    match NextLine(u, capacity)
      case None => None
      case Some((line, rest)) =>
        if StartsWith(line, "VALUE") then
          match ValueHeader(line)
            case None => None
            case Some((key, k)) =>
              if |rest| < k then None
              else match NextLine(rest[k..], capacity)
                case None => None
                case Some((_, more)) => GetReply(more, capacity, loads, acc[key := loads(rest[..k])])
        else if line == "END" then Some((acc, rest))
        else None
  }

  /** The reply a waiter gets for its command, and the input after it; None
      where the reader raises, which fails that waiter. */
  function Response<T>(op: Op, u: string, capacity: nat, loads: string -> T): (r: Option<(Reply<T>, string)>)
  {
    match op
      case GetOp =>
        (match GetReply(u, capacity, loads, map[])
          case None => None
          case Some((m, rest)) => Some((Values(m), rest)))
      case SetOp =>
        (match NextLine(u, capacity)
          case Some((line, rest)) => if line == "STORED" then Some((Stored, rest)) else None
          case None => None)
  }

  /** One value as the server sends it in a get reply. */
  datatype Entry = Entry(key: string, flags: int, data: string)

  function ValueLine(e: Entry): string
  {
    JoinWith(["VALUE", e.key, IntToText(e.flags), IntToText(|e.data|)], ' ')
  }

  /** The VALUE blocks of a get reply, before its END line. */
  function ValueBlocks(es: seq<Entry>): string
  {
    if es == [] then [] else ValueLine(es[0]) + "\r\n" + es[0].data + "\r\n" + ValueBlocks(es[1..])
  }

  /** The values the entries leave in a result that starts as `acc`. */
  function Gathered<T>(es: seq<Entry>, loads: string -> T, acc: map<string, T>): map<string, T>
  {
    if es == [] then acc else Gathered(es[1..], loads, acc[es[0].key := loads(es[0].data)])
  }

  /** An entry the client can read: a plain key and a VALUE line that fits the
      reader's buffer. */
  predicate Readable(e: Entry, capacity: nat)
  {
    PlainKey(e.key) && |ValueLine(e)| + 2 <= capacity
  }

  lemma ValueLineWords(e: Entry)
    requires PlainKey(e.key)
    ensures Split(ValueLine(e), ' ') == ["VALUE", e.key, IntToText(e.flags), IntToText(|e.data|)]
    ensures '\n' !in ValueLine(e)
    ensures StartsWith(ValueLine(e), "VALUE")
  {
    var words := ["VALUE", e.key, IntToText(e.flags), IntToText(|e.data|)];
    IntPlain(e.flags);
    IntPlain(|e.data|);
    assert PlainKey("VALUE");
    assert forall i | 0 <= i < |words| :: PlainKey(words[i]);
    PlainWords(words);
    var tail := JoinWith(words[1..], ' ');
    assert ValueLine(e) == "VALUE" + [' '] + tail;
    assert ValueLine(e)[..5] == "VALUE";
  }

  /** The key and the number of data bytes a VALUE line announces; None where
      the source raises (too few fields, flags or size not an int). A negative
      size reads no data. */
  function ValueHeader(line: string): (r: Option<(string, nat)>)
    ensures var f := Split(line, ' ');
      r.Some? <==> |f| >= 4 && ParseInt(f[2]).Some? && ParseInt(f[3]).Some?
  {
    var f := Split(line, ' ');
    if |f| < 4 then None
    else match (ParseInt(f[2]), ParseInt(f[3]))
      case (Some(_), Some(n)) => Some((f[1], if n < 0 then 0 else n))
      case _ => None
  }

  /** One VALUE block is read as its key and data, and reading goes on after it. */
  lemma ValueBlockRead<T>(e: Entry, more: string, capacity: nat, loads: string -> T, acc: map<string, T>)
    requires Readable(e, capacity)
    ensures GetReply(ValueLine(e) + "\r\n" + e.data + "\r\n" + more, capacity, loads, acc) ==
      GetReply(more, capacity, loads, acc[e.key := loads(e.data)])
  {
    var line, rest := ValueLine(e), e.data + "\r\n" + more;
    BlockParts(line, e.data, more);
    ValueHeaderOf(e);
    LineOf(line, rest, capacity);
    DataThenBreak(e.data, more, capacity);
  }

  lemma BlockParts(line: string, data: string, more: string)
    ensures line + "\r\n" + data + "\r\n" + more == line + "\r\n" + (data + "\r\n" + more)
  {
  }

  /** A VALUE line announces its entry's key and size. */
  lemma ValueHeaderOf(e: Entry)
    requires PlainKey(e.key)
    ensures ValueHeader(ValueLine(e)) == Some((e.key, |e.data|))
    ensures '\n' !in ValueLine(e) && StartsWith(ValueLine(e), "VALUE")
  {
    ValueLineWords(e);
    IntRoundTrip(e.flags);
    IntRoundTrip(|e.data|);
  }

  /** A data block is read by its size, and the line break after it as an
      empty line. */
  lemma DataThenBreak(data: string, more: string, capacity: nat)
    requires capacity >= 2
    ensures var rest := data + "\r\n" + more;
      rest[..|data|] == data && NextLine(rest[|data|..], capacity) == Some(([], more))
  {
    var rest := data + "\r\n" + more;
    assert rest[|data|..] == [] + "\r\n" + more;
    LineOf([], more, capacity);
  }

  /** A get reply the server builds from its entries is read back as the map
      of the entries' keys to their loaded data, and the input after the END
      line is left unread. */
  lemma {:induction false} GetReplyRoundTrip<T>(es: seq<Entry>, rest: string, capacity: nat, loads: string -> T, acc: map<string, T>)
    requires forall i | 0 <= i < |es| :: Readable(es[i], capacity)
    requires capacity >= 5
    ensures GetReply(ValueBlocks(es) + "END\r\n" + rest, capacity, loads, acc) == Some((Gathered(es, loads, acc), rest))
    decreases |es|
  {
    if es == [] {
      assert ValueBlocks(es) + "END\r\n" + rest == "END" + "\r\n" + rest;
      LineOf("END", rest, capacity);
      assert !StartsWith("END", "VALUE");
    } else {
      var e, more := es[0], ValueBlocks(es[1..]) + "END\r\n" + rest;
      assert ValueBlocks(es) + "END\r\n" + rest == ValueLine(e) + "\r\n" + e.data + "\r\n" + more;
      ValueBlockRead(e, more, capacity, loads, acc);
      assert Readable(es[0], capacity);
      assert forall i | 0 <= i < |es[1..]| :: Readable(es[1..][i], capacity) by {
        forall i | 0 <= i < |es[1..]| ensures Readable(es[1..][i], capacity) {
          assert es[1..][i] == es[i + 1];
        }
      }
      GetReplyRoundTrip(es[1..], rest, capacity, loads, acc[e.key := loads(e.data)]);
    }
  }

  /** A key is in the gathered result exactly when it was there already or
      some entry carries it; the last entry with the key gives its value. */
  lemma {:induction false} GatheredKeys<T>(es: seq<Entry>, loads: string -> T, acc: map<string, T>, key: string)
    ensures key in Gathered(es, loads, acc) <==> key in acc || exists i | 0 <= i < |es| :: es[i].key == key
    ensures (forall i | 0 <= i < |es| :: es[i].key != key) ==> key in Gathered(es, loads, acc) ==>
      Gathered(es, loads, acc)[key] == acc[key]
    ensures |es| > 0 && es[|es| - 1].key == key ==> Gathered(es, loads, acc)[key] == loads(es[|es| - 1].data)
    decreases |es|
  {
    if es != [] {
      var acc' := acc[es[0].key := loads(es[0].data)];
      GatheredKeys(es[1..], loads, acc', key);
      if key in acc || exists i | 0 <= i < |es| :: es[i].key == key {
        if key !in acc' {
          var i :| 0 <= i < |es| && es[i].key == key;
          assert es[1..][i - 1].key == key;
        }
      }
      if exists i | 0 <= i < |es[1..]| :: es[1..][i].key == key {
        var i :| 0 <= i < |es[1..]| && es[1..][i].key == key;
        assert es[i + 1].key == key;
      }
      if |es| > 1 {
        assert es[1..][|es[1..]| - 1] == es[|es| - 1];
      }
      if forall i | 0 <= i < |es| :: es[i].key != key {
        forall i | 0 <= i < |es[1..]| ensures es[1..][i].key != key {
          assert es[1..][i] == es[i + 1];
        }
      }
    }
  }

  /** `_get_one`: the value stored under the key, or None. */
  function SingleValue<T>(result: map<string, T>, key: string): (r: Option<T>)
  {
    if key in result then Some(result[key]) else None
  }

  /** A single-key get answers the server's value for the key, and None when
      the server's reply holds no VALUE block for it. */
  lemma GetOneRoundTrip<T>(es: seq<Entry>, key: string, rest: string, capacity: nat, loads: string -> T)
    requires forall i | 0 <= i < |es| :: Readable(es[i], capacity)
    requires capacity >= 5
    ensures var r := Response(GetOp, ValueBlocks(es) + "END\r\n" + rest, capacity, loads);
      r.Some? && r.value.0.Values? && r.value.1 == rest &&
      ((forall i | 0 <= i < |es| :: es[i].key != key) <==> SingleValue(r.value.0.values, key).None?) &&
      (|es| > 0 && es[|es| - 1].key == key ==> SingleValue(r.value.0.values, key) == Some(loads(es[|es| - 1].data)))
  {
    GetReplyRoundTrip(es, rest, capacity, loads, map[]);
    GatheredKeys(es, loads, map[], key);
  }

  /** A set succeeds exactly on a STORED line. */
  lemma SetReplyRead<T>(line: string, rest: string, capacity: nat, loads: string -> T)
    requires '\n' !in line && |line| + 2 <= capacity
    ensures Response(SetOp, line + "\r\n" + rest, capacity, loads) ==
      (if line == "STORED" then Some((Stored, rest)) else None)
  {
    LineOf(line, rest, capacity);
  }

  /** Any line that is neither a VALUE line nor END is an unknown protocol
      state for a get. */
  lemma UnknownGetLine<T>(line: string, rest: string, capacity: nat, loads: string -> T, acc: map<string, T>)
    requires '\n' !in line && |line| + 2 <= capacity
    requires !StartsWith(line, "VALUE") && line != "END"
    ensures GetReply(line + "\r\n" + rest, capacity, loads, acc).None?
  {
    LineOf(line, rest, capacity);
  }

  /** The loop of `_read_response` for a get: reads VALUE blocks up to END. */
  method ReadValues<T>(reader: BufferedReader, loads: string -> T) returns (ok: bool, result: map<string, T>)
    requires reader.Valid()
    modifies reader.stream, reader.buffer
    ensures reader.Valid()
    ensures ok <==> GetReply(old(reader.Unread()), reader.buffer.capacity, loads, map[]).Some?
    ensures ok ==> GetReply(old(reader.Unread()), reader.buffer.capacity, loads, map[]) == Some((result, reader.Unread()))
  {
    ghost var goal := GetReply(reader.Unread(), reader.buffer.capacity, loads, map[]);
    result := map[];
    while true
      invariant reader.Valid()
      invariant GetReply(reader.Unread(), reader.buffer.capacity, loads, result) == goal
      decreases |reader.Unread()|
    {
      var more, line := ReadLineOf(reader);
      if !more {
        return false, result;
      }
      if StartsWith(line, "VALUE") {
        var header := ValueHeader(line);
        if header.None? {
          return false, result;
        }
        var (key, k) := header.value;
        var got, data := reader.ReadBytes(k);
        if !got {
          return false, result;
        }
        var ended, _ := ReadLineOf(reader);
        if !ended {
          return false, result;
        }
        result := result[key := loads(data)];
      } else if line == "END" {
        return true, result;
      } else {
        return false, result;
      }
    }
  }

  /** What one turn of the writer task did. */
  datatype Sent = Wrote(waiter: Waiter) | WriteFailed(waiter: Waiter) | NoCommand

  /** What one turn of the reader task did. */
  datatype Delivery<T> = Delivered(waiter: Waiter, reply: Reply<T>) | Failed(waiter: Waiter) | NoResponse

  /** The waiters still queued, commands first, as `close` walks them. */
  function Waiting<T>(commands: seq<(Command<T>, Waiter)>, responses: seq<(Op, Waiter)>): (r: seq<Waiter>)
    ensures |r| == |commands| + |responses|
    ensures forall i | 0 <= i < |commands| :: r[i] == commands[i].1
    ensures forall i | 0 <= i < |responses| :: r[|commands| + i] == responses[i].1
  {
    seq(|commands|, i requires 0 <= i < |commands| => commands[i].1) +
    seq(|responses|, i requires 0 <= i < |responses| => responses[i].1)
  }

  const NOT_DISCONNECTED := "AssertionError: must not be disconneted before connecting"
  const CONNECT_FAILED := "socket error"
  const NO_QUEUE := "AttributeError"
  const UNDEFINED_NAME := "NameError"

  /** `MemcacheNode`: one connection, its command queue (commands not yet
      written, with their waiters) and its response queue (commands written
      whose reply is outstanding). `connected` stands for `_stream` being set,
      `tasks` for the reader and writer tasks being set. */
  class MemcacheNode<T> {
    var connected: bool
    var tasks: bool
    var commands: seq<(Command<T>, Waiter)>
    var responses: seq<(Op, Waiter)>

    /** Without a stream there are no queues and no tasks, so nothing waits. */
    ghost predicate Valid()
      reads this
    {
      !connected ==> commands == [] && responses == [] && !tasks
    }

    constructor ()
      ensures Valid() && !connected && !tasks && commands == [] && responses == []
    {
      connected, tasks, commands, responses := false, false, [], [];
    }

    /** `connect(addr)`: only on a node without a stream; `reachable` says
        whether the socket connects. */
    method Connect(reachable: bool) returns (fault: Option<string>)
      requires Valid()
      modifies this
      ensures Valid()
      ensures fault == (if old(connected) then Some(NOT_DISCONNECTED) else if !reachable then Some(CONNECT_FAILED) else None)
      ensures fault.None? ==> connected && tasks && commands == [] && responses == []
      ensures fault.Some? ==> connected == old(connected) && tasks == old(tasks) && commands == old(commands) && responses == old(responses)
    {
      if connected {
        return Some(NOT_DISCONNECTED);
      }
      if !reachable {
        return Some(CONNECT_FAILED);
      }
      connected, tasks, commands, responses := true, true, [], [];
      fault := None;
    }

    /** `_do_command`: queues the command with its waiter, which then blocks
        until its reply or failure arrives; without queues the source raises. */
    method DoCommand(cmd: Command<T>, waiter: Waiter) returns (ok: bool)
      requires Valid()
      modifies this
      ensures Valid() && ok == old(connected) && connected == old(connected) && tasks == old(tasks) && responses == old(responses)
      ensures commands == (if ok then old(commands) + [(cmd, waiter)] else old(commands))
    {
      ok := connected;
      if ok {
        commands := commands + [(cmd, waiter)];
      }
    }

    /** `set(key, data, flags)`. */
    method Set(key: string, value: T, flags: int, waiter: Waiter) returns (ok: bool)
      requires Valid()
      modifies this
      ensures Valid() && ok == old(connected) && connected == old(connected) && tasks == old(tasks) && responses == old(responses)
      ensures commands == (if ok then old(commands) + [(Command.Set(key, value, flags), waiter)] else old(commands))
    {
      ok := DoCommand(Command.Set(key, value, flags), waiter);
    }

    /** `get(keys)`: a single key is sent as a one-key get (its answer is then
        read through SingleValue), a list as it is. */
    method Get(keys: Keys, waiter: Waiter) returns (ok: bool)
      requires Valid()
      modifies this
      ensures Valid() && ok == old(connected) && connected == old(connected) && tasks == old(tasks) && responses == old(responses)
      ensures commands == (if ok then old(commands) + [(Command.Get(KeysSent(keys)), waiter)] else old(commands))
    {
      ok := DoCommand(Command.Get(KeysSent(keys)), waiter);
    }

    /** One turn of `_command_writer`, that is `_write_command`: takes the
        first command, drops what the writer holds unflushed, writes the
        command's pieces and flushes; on success its reply is awaited, on
        failure (a closed stream) its waiter is failed. */
    method WriteCommand(writer: BufferedWriter, dumps: T -> string) returns (s: Sent)
      requires Valid() && writer.Valid() && writer.Writing()
      modifies this, writer.stream, writer.buffer
      ensures Valid() && writer.Valid() && connected == old(connected) && tasks == old(tasks)
      ensures old(commands) == [] ==> (s == NoCommand && commands == [] && responses == old(responses) &&
        writer.stream.sent == old(writer.stream.sent))
      ensures old(commands) != [] ==> (commands == old(commands)[1..] && !s.NoCommand? &&
        s.waiter == old(commands)[0].1 && (s.Wrote? <==> old(writer.stream.open)))
      ensures s.Wrote? ==> (writer.Writing() && responses == old(responses) + [(OpOf(old(commands)[0].0), s.waiter)] &&
        writer.stream.sent == old(writer.stream.sent) + Join(CommandPieces(old(commands)[0].0, dumps)))
      ensures s.WriteFailed? ==> responses == old(responses) && writer.stream.sent == old(writer.stream.sent)
    {
      if commands == [] {
        return NoCommand;
      }
      var (cmd, waiter) := commands[0];
      commands := commands[1..];
      var ok := Transmit(writer, CommandPieces(cmd, dumps));
      if !ok {
        return WriteFailed(waiter);
      }
      responses := responses + [(OpOf(cmd), waiter)];
      s := Wrote(waiter);
    }

    /** One turn of `_response_reader`, that is `_read_response`: takes the
        first outstanding reply's waiter and hands it the reply read from the
        stream, or fails it where reading raises. */
    method ReadResponse(reader: BufferedReader, loads: string -> T) returns (d: Delivery<T>)
      requires Valid() && reader.Valid()
      modifies this, reader.stream, reader.buffer
      ensures Valid() && reader.Valid() && connected == old(connected) && tasks == old(tasks) && commands == old(commands)
      ensures old(responses) == [] ==> d == NoResponse && responses == [] && reader.Unread() == old(reader.Unread())
      ensures old(responses) != [] ==> (responses == old(responses)[1..] && !d.NoResponse? &&
        d.waiter == old(responses)[0].1)
      ensures old(responses) != [] ==>
        var r := Response(old(responses)[0].0, old(reader.Unread()), reader.buffer.capacity, loads);
        (d.Delivered? <==> r.Some?) && (r.Some? ==> d.reply == r.value.0 && reader.Unread() == r.value.1)
    {
      if responses == [] {
        return NoResponse;
      }
      var (op, waiter) := responses[0];
      responses := responses[1..];
      match op {
        case GetOp =>
          var ok, result := ReadValues(reader, loads);
          d := if ok then Delivered(waiter, Values(result)) else Failed(waiter);
        case SetOp =>
          var ok, line := ReadLineOf(reader);
          d := if ok && line == "STORED" then Delivered(waiter, Stored) else Failed(waiter);
      }
    }

    /** `close()` as it is meant to work: the reader and writer tasks are
        killed and dropped, then every queued waiter, commands first,
        receives the exception, and the queues and the stream are dropped.
        A node without tasks raises AttributeError on the first `kill` and
        changes nothing. */
    method Close() returns (fault: Option<string>, warned: seq<Waiter>)
      requires Valid()
      modifies this
      ensures Valid()
      ensures fault == (if old(tasks) then None else Some(NO_QUEUE))
      ensures old(tasks) ==>
        !connected && !tasks && commands == [] && responses == [] && warned == Waiting(old(commands), old(responses))
      ensures !old(tasks) ==>
        warned == [] && connected == old(connected) && !tasks && commands == old(commands) && responses == old(responses)
    {
      if !tasks {
        return Some(NO_QUEUE), [];
      }
      tasks := false;
      fault, warned := None, Waiting(commands, responses);
      connected, commands, responses := false, [], [];
    }

    /** `close()` as written: the tasks are killed and dropped first; the
        exception it then hands each waiter is named `e`, which is not
        defined in `close`, so with any waiter queued it raises NameError
        before warning anyone, and the queues and stream stay. A node without
        tasks, a second close of that node included, raises AttributeError
        on the first `kill`. */
    method CloseAsWritten() returns (fault: Option<string>, warned: seq<Waiter>)
      requires Valid()
      modifies this
      ensures Valid() && warned == [] && !tasks
      ensures !old(tasks) ==>
        fault == Some(NO_QUEUE) && connected == old(connected) && commands == old(commands) && responses == old(responses)
      ensures old(tasks) && Waiting(old(commands), old(responses)) != [] ==>
        fault == Some(UNDEFINED_NAME) && connected && commands == old(commands) && responses == old(responses)
      ensures old(tasks) && Waiting(old(commands), old(responses)) == [] ==>
        fault == None && !connected && commands == [] && responses == []
    {
      warned := [];
      if !tasks {
        return Some(NO_QUEUE), warned;
      }
      tasks := false;
      if commands != [] || responses != [] {
        return Some(UNDEFINED_NAME), warned;
      }
      fault := None;
      connected := false;
    }
  }

  /** `clear`, the pieces and `flush`, as `_write_command` does: the pieces
      go out exactly when the stream is open. */
  method Transmit(writer: BufferedWriter, pieces: seq<string>) returns (ok: bool)
    requires writer.Valid() && writer.Writing() && pieces != [] && pieces[|pieces| - 1] == "\r\n"
    modifies writer.stream, writer.buffer
    ensures writer.Valid()
    ensures ok <==> old(writer.stream.open)
    ensures ok ==> writer.Writing() && writer.stream.sent == old(writer.stream.sent) + Join(pieces)
    ensures !ok ==> writer.stream.sent == old(writer.stream.sent)
  {
    ghost var sent := writer.stream.sent;
    writer.Clear();
    assert writer.Output() == sent;
    ok := WriteAll(writer, pieces);
    if ok {
      JoinAppend(pieces[..|pieces| - 1], [pieces[|pieces| - 1]]);
      assert pieces == pieces[..|pieces| - 1] + [pieces[|pieces| - 1]];
      assert |Join(pieces)| > 0;
      if !writer.stream.open {
        assert writer.stream.sent + writer.Pending() == sent + Join(pieces);
        assert writer.Pending() == (sent + Join(pieces))[|sent|..];
      }
      ok := writer.Flush();
    }
  }

  /** The `keys` argument of `get`: one key string, or a list of keys. */
  datatype Keys = OneKey(key: string) | KeyList(keys: seq<string>)

  function KeysSent(keys: Keys): (r: seq<string>)
    ensures keys.OneKey? ==> r == [keys.key]
    ensures keys.KeyList? ==> r == keys.keys
  {
    match keys
      case OneKey(k) => [k]
      case KeyList(ks) => ks
  }

  /** A node that has a command queued and is closed as written leaves the
      waiter without an answer and the node still connected, but without
      its tasks: a second close raises AttributeError, not NameError. */
  method LostWaiter() returns (answered: seq<Waiter>, stillQueued: nat, stillConnected: bool, again: Option<string>)
    ensures answered == [] && stillQueued == 1 && stillConnected && again == Some(NO_QUEUE)
  {
    var node := new MemcacheNode<string>();
    var _ := node.Connect(true);
    var _ := node.Get(OneKey("k"), 7);
    var _, warned := node.CloseAsWritten();
    answered, stillQueued, stillConnected := warned, |node.commands|, node.connected;
    var second, _ := node.CloseAsWritten();
    again := second;
  }

  /** The corrected close answers the same waiter and disconnects. */
  method WarnedWaiter() returns (answered: seq<Waiter>, stillQueued: nat, stillConnected: bool)
    ensures answered == [7] && stillQueued == 0 && !stillConnected
  {
    var node := new MemcacheNode<string>();
    var _ := node.Connect(true);
    var _ := node.Get(OneKey("k"), 7);
    var _, warned := node.Close();
    answered, stillQueued, stillConnected := warned, |node.commands|, node.connected;
  }
}
