# Concurrence core, modelled in Dafny

Concurrence is a Python 2 framework for networked servers and clients. They
are built from cooperative tasklets over greenlets, with a libevent loop
underneath. Above the sockets and the event loop sits a large body of
sequential logic. That logic is what this project models and proves things
about:

- **containers**:
  - the deque-dictionary, a circular doubly linked list with a sentinel and a key-to-node map (`dequedict.dfy`);
  - the reorder queue that releases pipelined HTTP responses in request order (`reque.dfy`);
- **timeouts**: the per-task stack of nested deadlines (`timer.dfy`);
- **buffered I/O**:
  - the byte `Buffer`, with its position, limit and capacity (`buffer.dfy`);
  - the buffered reader and writer over chunked streams, and the file-like adapter (`buffered.dfy`);
- **HTTP/1.1**:
  - the request and response containers (`http.dfy`);
  - the WSGI server's request parsing, response writing and keep-alive rule (`httpserver.dfy`);
  - the client's request writing and response reading (`httpclient.dfy`);
- **MySQL**:
  - the DB-API cursor and connection layer (`dbapi.dfy`);
  - the packet writer (`mysqlpacket.dfy`);
  - the client's handshake, commands and state machines (`mysqlclient.dfy`);
  - the connection pools (`pool.dfy`);
- **memcached**: the text protocol client (`memcache.dfy`);
- **small rule-based parts**:
  - statistics counters (`statistic.dfy`);
  - task-local storage (`local.dfy`);
  - the IOC container and its dotted-key context (`application.dfy`);
  - the WSGI middleware applications (`middleware.dfy`);
  - the web framework's decorators and filter chains (`web.dfy`);
  - the XMPP SASL DIGEST-MD5 response (`sasl.dfy`);
  - the greenlet-based stackless scheduler and channels (`stackless.dfy`).

`common.dfy` holds what several modules share: `Option` and `Result` (a value
or the name of the Python exception raised instead), and models of Python
built-ins such as `str.split`, `str.strip`, `deque.remove`, `str(int)` and
`"%x"`.

Each source file is modelled as one module, in the source's own form:

- State the source updates in place becomes a class. Its methods are proved
  against specification functions of the old state.
- Pure computations become functions, and lemmas relate them: round trips,
  invariants, reference definitions.
- A Python 2 `str` is a byte string. It is modelled as a Dafny `string` with
  one char per byte.
- Python exceptions are modelled as error results, mostly `Result.Err` with
  the exception's name, or a `false` or `None` outcome.
- Clocks, sockets and foreign libraries become parameters.
  The description of each module says which.

## Model

| member | source | states |
|---|---|---|
| DequeDicts.DequeDict.constructor | lib/concurrence/containers/dequedict.py:12-19 | a sentinel linked to itself and an empty map, then `extend(i)`: the structure is valid and holds exactly the given items in order |
| DequeDicts.DequeDict.Extend | lib/concurrence/containers/dequedict.py:21-23 | appending the pairs one by one leaves the old items followed by the new ones, and keeps the structure valid |
| DequeDicts.DequeDict.KeysAgree | lib/concurrence/containers/dequedict.py:134-138 | in a valid structure the keys of the map are exactly the keys of the items, one node per key |
| DequeDicts.DequeDict.IndexOf | lib/concurrence/containers/dequedict.py:120-122 | a key in the map names the node at some index, and the item there carries that key |
| DequeDicts.LinkLast | lib/concurrence/containers/dequedict.py:30-34 | the four pointer updates of `append` link a fresh node between the last node and the sentinel, the others staying in order |
| DequeDicts.LinkFirst | lib/concurrence/containers/dequedict.py:43-47 | the four pointer updates of `appendleft` link a fresh node between the sentinel and the first node |
| DequeDicts.LinkDropLast | lib/concurrence/containers/dequedict.py:53-55 | relinking the sentinel and the last node's predecessor leaves the circle without the last node |
| DequeDicts.LinkDropFirst | lib/concurrence/containers/dequedict.py:61-63 | relinking the sentinel and the first node's successor leaves the circle without the first node |
| DequeDicts.Unlink | lib/concurrence/containers/dequedict.py:99-101 | linking a node's neighbours to each other leaves that node out of the circle, the others in order |
| DequeDicts.AddLast | lib/concurrence/containers/dequedict.py:25-36 | after `append`'s updates the store represents the old items plus the new pair at the end |
| DequeDicts.AddFirst | lib/concurrence/containers/dequedict.py:38-49 | after `appendleft`'s updates the store represents the new pair followed by the old items |
| DequeDicts.DropLast | lib/concurrence/containers/dequedict.py:51-57 | after `pop`'s updates the store represents the items without the last one |
| DequeDicts.DropFirst | lib/concurrence/containers/dequedict.py:59-65 | after `popleft`'s updates the store represents the items without the first one |
| DequeDicts.DropAt | lib/concurrence/containers/dequedict.py:124-129 | after `__delitem__`'s updates the store represents the items without the one at the key's index |
| DequeDicts.MoveToFront | lib/concurrence/containers/dequedict.py:96-106 | after `movehead`'s updates the store represents the key's item first and the other items in their order |
| DequeDicts.DequeDict.Append | lib/concurrence/containers/dequedict.py:25-36 | with a fresh key the pair becomes the last item, the earlier items keep their order, and the key joins the map |
| DequeDicts.DequeDict.AppendLeft | lib/concurrence/containers/dequedict.py:38-49 | with a fresh key the pair becomes the first item and the key joins the map |
| DequeDicts.DequeDict.Pop | lib/concurrence/containers/dequedict.py:51-57 | on a non-empty structure the last item is returned and removed and its key leaves the map; on an empty one the sentinel's key is missing from the map (KeyError) and nothing changes |
| DequeDicts.DequeDict.PopLeft | lib/concurrence/containers/dequedict.py:59-65 | on a non-empty structure the first item is returned and removed and its key leaves the map; KeyError when empty |
| DequeDicts.DequeDict.IterItems | lib/concurrence/containers/dequedict.py:74-79 | walking `next` from the sentinel yields exactly the items, first to last |
| DequeDicts.DequeDict.IterItemsRight | lib/concurrence/containers/dequedict.py:67-72 | walking `prev` from the sentinel yields exactly the reverse of the items |
| DequeDicts.DequeDict.MoveHead | lib/concurrence/containers/dequedict.py:96-106 | a present key's item moves to the front, the others keep their order and the map is unchanged; a missing key is a KeyError and nothing changes |
| DequeDicts.DequeDict.Delete | lib/concurrence/containers/dequedict.py:124-129 | exactly the key's item is removed, the others keep their order, and the key leaves the map; a missing key is a KeyError and nothing changes |
| DequeDicts.DequeDict.RemoveAll | lib/concurrence/containers/dequedict.py:117-118 | the key's item is removed when present, and nothing changes otherwise |
| DequeDicts.DequeDict.Get | lib/concurrence/containers/dequedict.py:120-122 | a value is returned iff the key is among the items' keys, and it is the value stored with the key |
| DequeDicts.DequeDict.Contains | lib/concurrence/containers/dequedict.py:134-135 | true iff the key is among the items' keys |
| DequeDicts.DequeDict.Length | lib/concurrence/containers/dequedict.py:137-138 | the size of the map is the number of items |
| DequeDicts.DequeDict.GetState | lib/concurrence/containers/dequedict.py:143-149 | the saved state is the item list, in order, with distinct keys |
| DequeDicts.DequeDict.SetState | lib/concurrence/containers/dequedict.py:151-152 | re-initialising from a state list holds exactly those items |
| DequeDicts.StateRoundTrip | lib/concurrence/containers/dequedict.py:143-152 | restoring from `__getstate__`'s result gives the same items in the same order and the same key set |
| Reque.ReleasePrefix | lib/concurrence/containers/reque.py:22-29 | one round of `finish` releases a prefix of the start queue in start order, leaves the rest queued, and stops at the end of the queue or at a request that has not finished |
| Reque.ReleasePairs | lib/concurrence/containers/reque.py:24-27 | each released request had finished and is paired with its own recorded response |
| Reque.ReleaseLeft | lib/concurrence/containers/reque.py:24-26 | exactly the released requests leave the finished map, so each is released once |
| Reque.ReleaseResponses | lib/concurrence/containers/reque.py:21-27 | both of the above together |
| Reque.ReleaseAll | lib/concurrence/containers/reque.py:22-29 | once every pending request has finished, one round releases all of them, in start order |
| Reque.Drain | lib/concurrence/containers/reque.py:22-29 | the loop pops finished heads and yields their pairs until the head has not finished, giving exactly what `Release` describes |
| Reque.FinishOutcome | lib/concurrence/containers/reque.py:18-29 | the released requests followed by the still-pending ones are the old queue, and nothing is released while the oldest request is unfinished and is not the one being finished |
| Reque.ReorderQueue.constructor | lib/concurrence/containers/reque.py:10-12 | empty queue and empty finished map |
| Reque.ReorderQueue.Start | lib/concurrence/containers/reque.py:14-16 | a request not yet pending joins the end of the pending queue; nothing else changes, and the queue keeps no request twice |
| Reque.ReorderQueue.Finish | lib/concurrence/containers/reque.py:18-29 | the response is recorded and the longest finished prefix is released with its responses, in start order; the invariant "released ++ pending == started" is kept, so over any run the concatenated output is the start order; once every pending request has its response, the queue empties and everything started has been released |
| Reque.Release | lib/concurrence/containers/reque.py:22-29 | a round releases a prefix of the queue and leaves the rest of it pending |
| Reque.SuffixDistinct | lib/concurrence/containers/reque.py:22-26 | popping released requests off a queue without repeats leaves a queue without repeats |
| Timer.Remaining | lib/concurrence/timer.py:14-21 | -1 exactly when the top entry is negative; otherwise the time left, clamped to 0 once the deadline has passed |
| Timer.NextTop | lib/concurrence/timer.py:23-34 | a negative timeout keeps "no deadline" or inherits the current deadline; t >= 0 gives now + t, or the current deadline when that is sooner, never later than either |
| Timer.NestedPairs | lib/concurrence/timer.py:23-34 | once a deadline is in force every entry above it is a deadline no later than it |
| Timer.PushWellFormed | lib/concurrence/timer.py:23-34 | pushing keeps the stack invariant (a bottom entry meaning no deadline, and nested entries never extending a deadline) |
| Timer.PushNeverExtends | lib/concurrence/timer.py:23-34 | a nested push never increases the time left; from no deadline, pushing t reports t at the same instant and a negative timeout still reports -1 |
| Timer.TimeoutStack.constructor | lib/concurrence/timer.py:11-12 | a fresh stack is `[-1]` |
| Timer.TimeoutStack.Current | lib/concurrence/timer.py:14-21 | returns the time left under the top entry, and -1 iff there is no deadline |
| Timer.TimeoutStack.Push | lib/concurrence/timer.py:23-34 | appends the entry `NextTop` gives and keeps the invariant |
| Timer.TimeoutStack.Pop | lib/concurrence/timer.py:36-38 | `pop` succeeds exactly when an entry was pushed above the bottom one and then restores the previous top; an unmatched pop fails its assertion and changes nothing |
| Timer.TaskTimeouts.constructor | lib/concurrence/timer.py:67 | no task has a stack yet |
| Timer.TaskTimeouts.Current | lib/concurrence/timer.py:89-101 | -1 for a task that never pushed, else its stack's current value |
| Timer.TaskTimeouts.Push | lib/concurrence/timer.py:69-78 | creates the task's stack on first use, then pushes on it; no other task's stack changes |
| Timer.TaskTimeouts.Pop | lib/concurrence/timer.py:80-87 | `Timeout.pop` succeeds exactly when the task has an entry of its own to pop, restores that task's previous top and changes no other stack; otherwise it is an assertion failure and nothing changes |
| IOBuffer.LineText | test/testbuffer.py:161-223 | a line read with the separator kept is the raw text; otherwise it is the raw text without its "\n" or "\r\n" |
| IOBuffer.Buffer.Remaining | lib/concurrence/io/buffered.py:48 | `remaining` is the distance from position to limit |
| IOBuffer.Buffer.Window | lib/concurrence/io/buffered.py:48-50 | the readable or writable span holds exactly `remaining` bytes |
| IOBuffer.Buffer.constructor | test/testbuffer.py:113-129 | a new buffer is zero-filled with position 0 and the limit at its capacity |
| IOBuffer.Buffer.Clear | test/testbuffer.py:125-137 | `clear` sets position 0 and the limit to the capacity, leaving the bytes as they were |
| IOBuffer.Buffer.Flip | test/testbuffer.py:113-123 | `flip` makes the limit the old position and the position 0, bytes unchanged |
| IOBuffer.Buffer.Compact | lib/concurrence/io/buffered.py:25-27 | `compact` moves the unread bytes to the front, puts the position right after them and the limit at the capacity |
| IOBuffer.Buffer.SetPosition | lib/concurrence/database/mysql/__init__.py:133-135 | assigning the position changes only the position |
| IOBuffer.Buffer.Skip | lib/concurrence/database/mysql/__init__.py:126 | `skip(n)` advances by n exactly when n bytes remain, and otherwise fails leaving the position |
| IOBuffer.Buffer.WriteBytes | test/testbuffer.py:113-120 | `write_bytes` puts all of s at the position and advances past it when it fits; otherwise it fails and changes nothing |
| IOBuffer.Buffer.WriteByte | lib/concurrence/io/buffered.py:88-95 | `write_byte` stores one byte at the position when there is room; otherwise it fails and changes nothing |
| IOBuffer.Buffer.WriteShort | lib/concurrence/io/buffered.py:97-103 | `write_short` stores the two little-endian bytes of the value when there is room; otherwise it fails and changes nothing |
| IOBuffer.Buffer.WriteInt | test/testbuffer.py:107-111 | `write_int` stores the four little-endian bytes of the value when there is room; otherwise it fails and changes nothing |
| IOBuffer.Buffer.ReadBytes | test/testbuffer.py:125-137 | `read_bytes(n)` returns the next n bytes, or the whole window for -1, and underflows without moving when fewer than n remain |
| IOBuffer.Buffer.ReadByte | lib/concurrence/database/mysql/client.py:115 | `read_byte` returns the next byte and advances by one, or underflows on an empty window |
| IOBuffer.Buffer.ReadShort | lib/concurrence/io/buffered.py:57-62 | `read_short` returns the little-endian value of the next two bytes, or underflows when fewer remain |
| IOBuffer.Buffer.ReadLine | test/testbuffer.py:161-223 | `read_line` returns the text up to the first "\n" (separator kept or dropped) and moves past it; with no "\n" it underflows without moving, even after a lone "\r" |
| IOBuffer.Buffer.ReadBytesUntil | test/testbuffer.py:139-158 | `read_bytes_until(c)` returns the bytes before the first c and consumes the c too; with no c it underflows without moving |
| IOBuffer.Buffer.Get | test/testbuffer.py:31-50 | `b[i]` is the byte at i for 0 <= i < capacity and an invalid-argument error otherwise |
| IOBuffer.Buffer.Set | test/testbuffer.py:53-81 | `b[i] = v` stores v for an index inside the capacity and a value in 0..255, and otherwise fails and changes nothing |
| IOBuffer.WriteReadInt | test/testbuffer.py:107-111 | a short or int written little-endian reads back as the same value |
| Buffered.LineSpan | lib/concurrence/io/buffered.py:32-33 | a line must end within the first buffer's worth of unread input, which is that prefix of the input |
| Buffered.FileLine | lib/concurrence/io/buffered.py:136-150 | what `readline` hands out is a prefix of the unread input |
| Buffered.FileLineShape | lib/concurrence/io/buffered.py:136-150 | that prefix is the first line: no '\n' before its end, a '\n' at its end if it holds one, never longer than the buffer, empty only when the input is |
| Buffered.ReadLinesPartition | lib/concurrence/io/buffered.py:136-147 | the pieces `readlines` yields before its first '' are non-empty and concatenate to exactly the input |
| Buffered.LineFound | lib/concurrence/io/buffered.py:136-147 | a buffered window holding a '\n' fixes the line: it ends at the window's first '\n' |
| Buffered.LineMissing | lib/concurrence/io/buffered.py:142-147 | a window without '\n' that is full or at EOF is handed out whole |
| Buffered.InStream.Read | lib/concurrence/io/buffered.py:28 | the stream writes its next bytes at the buffer's position and returns their number, 0 exactly at EOF or with no room |
| Buffered.OutStream.Write | lib/concurrence/io/buffered.py:108 | the stream takes some of the buffer's unread bytes, appends them to what was sent and advances the position; 0 exactly when it is closed or there is nothing to send |
| Buffered.BufferedReader.constructor | lib/concurrence/io/buffered.py:11-17 | a new reader sets the position and limit to 0, so the unread input is the whole stream |
| Buffered.BufferedReader.ReadMore | lib/concurrence/io/buffered.py:25-30 | `_read_more` keeps the unread input, moves it to the front and adds at least one byte; EOFError exactly when the stream is exhausted or the buffer is full |
| Buffered.BufferedReader.ReadBytes | lib/concurrence/io/buffered.py:43-55 | `read_bytes(n)` returns exactly the next n bytes of the input and consumes them; EOFError exactly when fewer remain |
| Buffered.BufferedReader.ReadShort | lib/concurrence/io/buffered.py:57-62 | `read_short` returns the little-endian value of the next two bytes; EOFError exactly when fewer remain or the buffer cannot hold two |
| Buffered.BufferedReader.ReadLine | lib/concurrence/io/buffered.py:32-41 | `read_line` returns the next line without its "\n" or "\r\n" and consumes it with its break; EOFError exactly when no '\n' comes within a buffer's worth |
| Buffered.BufferedReader.FileRead | lib/concurrence/io/buffered.py:152-176 | `read(n)` returns min(n, what is left) bytes, and `read()` returns everything up to EOF, consuming what it returns |
| Buffered.BufferedReader.ReadToEnd | lib/concurrence/io/buffered.py:156-163 | the n = -1 loop returns the whole rest of the input and leaves nothing unread |
| Buffered.BufferedReader.ReadUpTo | lib/concurrence/io/buffered.py:164-175 | the n >= 0 loop returns the next min(n, what is left) bytes |
| Buffered.BufferedReader.FileReadLine | lib/concurrence/io/buffered.py:136-150 | `readline` returns the first line with its separator (or the unterminated rest at EOF) and consumes exactly it |
| Buffered.BufferedWriter.constructor | lib/concurrence/io/buffered.py:65-68 | a new writer has nothing pending and its output so far is what the stream was sent |
| Buffered.BufferedWriter.Clear | lib/concurrence/io/buffered.py:73-74 | `clear` drops the bytes not yet flushed |
| Buffered.BufferedWriter.Flush | lib/concurrence/io/buffered.py:105-110 | `flush` sends everything in [0, position) in order and ends with a cleared buffer; EOFError exactly when there is something to send and the stream is closed |
| Buffered.BufferedWriter.WriteBytes | lib/concurrence/io/buffered.py:76-86 | `write_bytes(s)` adds exactly s to the output, in parts of at most the room left and flushing after each on overflow; it fails only when a flush does |
| Buffered.BufferedWriter.WriteParts | lib/concurrence/io/buffered.py:82-86 | the overflow loop sends the rest of s in order and leaves nothing pending |
| Buffered.BufferedWriter.WriteByte | lib/concurrence/io/buffered.py:88-95 | `write_byte` adds the byte to the output, flushing first only when the buffer is full |
| Buffered.BufferedWriter.WriteShort | lib/concurrence/io/buffered.py:97-103 | `write_short` adds the two little-endian bytes to the output, flushing first only when they do not fit |
| Buffered.NextLine | lib/concurrence/io/buffered.py:32-41 | a line handed out leaves strictly less input behind |
| Buffered.NextLineShape | lib/concurrence/io/buffered.py:32-41 | the line, its "\n" or "\r\n" and what follows make up the input again, and the line holds no '\n' |
| Buffered.LineOf | lib/concurrence/io/buffered.py:32-41 | a CRLF-terminated line that fits the buffer reads back as itself with the rest left over |
| Buffered.ReadLineOf | lib/concurrence/io/buffered.py:40-41 | `read_line` on a reader agrees with NextLine on its unread input |
| Buffered.WriteAll | lib/concurrence/io/buffered.py:76-86 | writing several pieces in turn adds their concatenation to the output, and cannot fail on an open stream |
| Http.FindHeaderFrom | lib/concurrence/http/__init__.py:55-59 | the search finds the first header from `i` on whose name equals the key ignoring case, and None only when no later header matches |
| Http.HeaderValue | lib/concurrence/http/__init__.py:52-59 | `get_header` returns the value of the first header whose name matches case-insensitively, and the default when none does |
| Http.StatusLineParts | lib/concurrence/http/__init__.py:42-50 | for a status line `version code reason` with a one-word reason, `status_code` reads back the code and `status_reason` the reason |
| Http.StatusReasonCut | lib/concurrence/http/__init__.py:47-50 | as written, `status_reason` of a two-word reason phrase returns only its first word |
| Http.HTTPResponse.StatusCode | lib/concurrence/http/__init__.py:43-45 | `status_code` is the integer the second word of the status line spells; it raises (IndexError, ValueError) without a second word or for one that is not a number |
| Http.HTTPResponse.StatusReason | lib/concurrence/http/__init__.py:48-50 | `status_reason` is the third word of the status line, and raises IndexError exactly when there are fewer than three |
| Http.HTTPResponse.GetHeader | lib/concurrence/http/__init__.py:52-59 | `get_header` gives the value of the first header whose name matches the key ignoring case, and the default when none does |
| Http.AfterWords | lib/concurrence/http/__init__.py:47-50 | the text after the first n words is a suffix no longer than the line |
| Http.ReasonPhrase | lib/concurrence/http/__init__.py:47-50 | the corrected reason part is everything after the code, non-empty and without leading blanks |
| Http.ReasonPhraseParts | lib/concurrence/http/__init__.py:47-50 | the corrected reason part of `version code reason` is the whole reason, several words included |
| Http.FindSep | lib/concurrence/http/server.py:215 | the search finds the first ": " at or after `i`, and None only when there is none |
| Http.HeaderSplit | lib/concurrence/http/server.py:215 | `key, value = line.split(': ')` succeeds only on a line with exactly one ": ", and key, ": " and value make up the line |
| Http.HeaderSplitOne | lib/concurrence/http/client.py:79 | a line with exactly one ": " always splits, the key being the text before it |
| Http.HTTPRequest.constructor | lib/concurrence/http/__init__.py:11-17 | a new request has the given path, method and host, no headers and no body |
| Http.HTTPRequest.AddHeader | lib/concurrence/http/__init__.py:19-21 | `add_header` appends the pair after the earlier headers and changes nothing else |
| Http.HTTPRequest.SetBody | lib/concurrence/http/__init__.py:23-27 | setting a body appends a `Content_length` header with its length; setting None adds no header |
| Http.HTTPResponse.constructor | lib/concurrence/http/__init__.py:37-40 | a new response has no headers, an empty status and no body iterator |
| Http.HTTPResponse.AddHeader | lib/concurrence/http/__init__.py:61-63 | `add_header` appends the pair and changes nothing else |
| Http.HTTPResponse.Body | lib/concurrence/http/__init__.py:65-68 | `body` is the concatenation of the chunks, and fails while there is no iterator |
| Http.AddThenGet | lib/concurrence/http/__init__.py:19-21 | a header added under a name not yet present is found by `get_header` in any letter case, and an earlier header of the same name still shadows it |
| HttpServer.NormalKey | lib/concurrence/http/server.py:216 | a header name is normalised character by character: '-' becomes '_' and letters are upper-cased, the length unchanged |
| HttpServer.HttpKeyFolds | lib/concurrence/http/server.py:117-119 | header names that differ only in letter case and '-' versus '_' reach the same `HTTP_` environ key |
| HttpServer.ReadHeaders | lib/concurrence/http/server.py:213-223 | the header loop stops at or after its starting line, within the lines; EOFError only once every line is used up, and a clean stop consumes at least the empty line |
| HttpServer.StepEffect | lib/concurrence/http/server.py:215-223 | one header line appends its stripped value after a ',' to the entry of its normalised name, or creates the entry, and leaves every other entry alone |
| HttpServer.JoinedStep | lib/concurrence/http/server.py:219-223 | one header line keeps the invariant that an entry is the ','-join of the values seen so far for its name |
| HttpServer.HeadersJoined | lib/concurrence/http/server.py:213-223 | after the header loop, each `HTTP_` entry is the ','-join of the values of all the lines of that name, in order |
| HttpServer.InputLength | lib/concurrence/http/server.py:29-43 | the body stream refuses chunked input, has no length without a Content-length header, and otherwise has the integer value of that header |
| HttpServer.ContentCopies | lib/concurrence/http/server.py:225-230 | CONTENT_LENGTH and CONTENT_TYPE are copies of their `HTTP_` entries, and every other entry stays |
| HttpServer.ServerAddress | lib/concurrence/http/server.py:236-251 | without a Host header only HTTP/1.0 is accepted, as localhost on port 80; a plain host gets port 80; `name:port` is split at its only ':' |
| HttpServer.HostPort | lib/concurrence/http/server.py:245-246 | a Host header `name:port` gives that name and the port as text |
| HttpServer.LineEntries | lib/concurrence/http/server.py:200-210 | the request line sets REQUEST_METHOD, PATH_INFO and QUERY_STRING and keeps every earlier entry |
| HttpServer.FinishRequest | lib/concurrence/http/server.py:225-254 | after the header loop a failure is passed on with the state unchanged, and success ends in REQUEST_READ with SERVER_PROTOCOL and the input stream set |
| HttpServer.ReadRequestSpec | lib/concurrence/http/server.py:178-254 | `_read_request` succeeds exactly when it ends in REQUEST_READ, with a GET or POST request line read; it stops in WAIT_FOR_REQUEST with EOFError exactly when there is no line |
| HttpServer.RequestHeadersJoined | lib/concurrence/http/server.py:212-223 | a request read successfully has each header joined with ',' over all its lines |
| HttpServer.FinishKeepsHeaders | lib/concurrence/http/server.py:225-254 | finishing a request touches no `HTTP_` entry |
| HttpServer.UnsupportedMethod | lib/concurrence/http/server.py:192-194 | a request line whose method is not GET or POST fails with `HTTPError('Unsupported method: ...')` |
| HttpServer.ReadHeaderLines | lib/concurrence/http/server.py:213-223 | the header loop as a loop computes exactly the header reading function |
| HttpServer.ParseRequest | lib/concurrence/http/server.py:178-254 | `_read_request` as statements computes exactly ReadRequestSpec |
| HttpServer.Allowed | lib/concurrence/http/server.py:132-134 | every application header that is written comes from the application and is not named Date or Server |
| HttpServer.AllowedDrops | lib/concurrence/http/server.py:95 | no application header named Date or Server is written |
| HttpServer.AllowedKeeps | lib/concurrence/http/server.py:132-134 | every other pair of application headers is written, in the application's order |
| HttpServer.InAllowed | lib/concurrence/http/server.py:132-134 | every application header not named Date or Server is written |
| HttpServer.NonEmpty | lib/concurrence/http/server.py:148-154 | the corrected chunk list has only non-empty chunks taken from the response, and the same bytes in all |
| HttpServer.OneDateOneServer | lib/concurrence/http/server.py:132-136 | exactly one Date and one Server header go out, whatever the application supplied |
| HttpServer.EmittedText | lib/concurrence/http/server.py:131-144 | the header block is the allowed application headers, then Date, Server and the framing header |
| HttpServer.WriteHeaders | lib/concurrence/http/server.py:132-134 | the header loop writes exactly the text of the allowed headers |
| HttpServer.ChunkWritten | lib/concurrence/http/server.py:149-152 | in the corrected writer one more chunk adds its encoding to the body, or nothing when it is empty |
| HttpServer.WriteChunk | lib/concurrence/http/server.py:150-152 | one chunk goes out as its size in hex, ";", CRLF, the data and CRLF |
| HttpServer.WriteChunks | lib/concurrence/http/server.py:149-152 | the chunk loop as written sends every chunk with its size line, an empty one included, in the response's order |
| HttpServer.WriteNonEmptyChunks | lib/concurrence/http/server.py:149-152 | the corrected chunk loop sends the encoding of the non-empty chunks only, in order |
| HttpServer.NonEmptyKeepsAll | lib/concurrence/http/server.py:149-152 | a response without empty chunks is what the corrected writer sends as it is |
| HttpServer.ResponseBody | lib/concurrence/http/server.py:146-156 | without empty chunks the body as written is the corrected body, so the two writers differ only on empty chunks |
| HttpServer.WriteCorrectedBody | lib/concurrence/http/server.py:146-156 | the corrected body writer sends the non-empty chunks and the terminator, or the joined body |
| HttpServer.ResponseText | lib/concurrence/http/server.py:121-156 | the response starts with the version and status line; anything but HTTP/1.0 ends with the "0\r\n\r\n" last chunk |
| HttpServer.WriteHead | lib/concurrence/http/server.py:124-144 | the status line and header block are written in order |
| HttpServer.WriteBody | lib/concurrence/http/server.py:146-156 | the body goes out as written: every chunk with its size line (an empty one too) and then "0\r\n\r\n", or the joined body after the Content-length |
| HttpServer.FirstValue | lib/concurrence/http/server.py:111-115 | the search returns the value of the first pair named exactly `key`, and None only when there is none |
| HttpServer.WSGIRequest.constructor | lib/concurrence/http/server.py:97-104 | a new request is in INIT with no version and an empty environ, and status 404 |
| HttpServer.WSGIRequest.StartResponse | lib/concurrence/http/server.py:106-109 | `start_response` records the status and headers and changes nothing else |
| HttpServer.WSGIRequest.GetResponseHeader | lib/concurrence/http/server.py:111-115 | the first application header with exactly that name, or None when there is none |
| HttpServer.WSGIRequest.GetRequestHeader | lib/concurrence/http/server.py:117-119 | the environ entry under the `HTTP_` form of the name, or None when it is absent |
| HttpServer.WSGIRequest.ReadRequest | lib/concurrence/http/server.py:174-254 | `read_request` leaves exactly the fields ReadRequestSpec gives and returns its failure |
| HttpServer.WSGIRequest.WriteResponse | lib/concurrence/http/server.py:121-160 | `write_response` hands the writer the status line, the headers and the body as written (empty chunks included) in order, and ends FINISHED |
| HttpServer.ClosesConnection | lib/concurrence/http/server.py:337-343 | after a response the connection closes exactly when the version is HTTP/1.0, the first response header named Connection says close, or the request's Connection header says close |
| HttpServer.ConnectionKey | lib/concurrence/http/server.py:117-119 | `get_request_header('Connection')` looks up the environ key HTTP_CONNECTION |
| HttpServer.RequestAsksClose | lib/concurrence/http/server.py:337-343 | a request read with the one header `Connection: close` closes the connection after its response |
| HttpServer.KeepAlive | lib/concurrence/http/server.py:337-343 | a request of a version other than HTTP/1.0 without a Connection header, answered without one, keeps the connection open |
| HttpServer.WSGIInputStream.constructor | lib/concurrence/http/server.py:30-43 | the body stream starts with the given length left over the given input |
| HttpServer.WSGIInputStream.Read | lib/concurrence/http/server.py:49-60 | `read(n)` returns the next min(left, n) bytes of the input while some of the length is left, and '' once it is used up |
| HttpClient.ParseHexInt | lib/concurrence/http/client.py:96 | `int(s, 16)` succeeds only on text that is not blank |
| HttpClient.HexIntRoundTrip | lib/concurrence/http/client.py:96 | a size written with "%x" is read back by `int(..., 16)` as the same number |
| HttpClient.ChunkLineSize | lib/concurrence/http/client.py:96 | the size line "%x;" the server writes gives the size back and holds no line break |
| HttpClient.HeaderBlockLine | lib/concurrence/http/client.py:77-80 | a header line that splits adds its pair in front of the rest of the header block |
| HttpClient.HeaderBlockEnd | lib/concurrence/http/client.py:77-78 | the empty line ends the header block with no header |
| HttpClient.HeaderBlockRoundTrip | lib/concurrence/http/client.py:74-80 | a header block written as "name: value" lines and an empty line is read back header for header, leaving what follows |
| HttpClient.ChunkData | lib/concurrence/http/client.py:95-100 | a positive size line is followed by exactly that many bytes and one line, and that chunk heads the body |
| HttpClient.ChunkZero | lib/concurrence/http/client.py:101-103 | a size of zero ends the body after one more line |
| HttpClient.ChunksEnd | lib/concurrence/http/client.py:93-103 | the terminator "0\r\n\r\n" is an empty chunked body |
| HttpClient.ChunksRoundTrip | lib/concurrence/http/client.py:93-103 | a chunked body of non-empty chunks is read back chunk for chunk, the terminator consumed |
| HttpClient.EmptyChunkEndsBody | lib/concurrence/http/server.py:148-154 | as written, an empty chunk in the server's response reads as the end of the body, and the chunks after it are lost |
| HttpClient.ChunkedBodyRoundTrip | lib/concurrence/http/server.py:148-154 | the corrected chunked body is read back as its non-empty chunks, which join to the same bytes as the response |
| HttpClient.WrittenBodyRoundTrip | lib/concurrence/http/server.py:148-154 | a response without empty chunks, each within the reader's capacity, written in the server's chunked coding is read back chunk for chunk, the terminator consumed and what follows left over |
| HttpClient.LengthRoundTrip | lib/concurrence/http/client.py:104-109 | a body framed by its length is read back whole, in pieces of 1 to CHUNK_SIZE bytes, leaving what follows |
| HttpClient.HeaderBlockAt | lib/concurrence/http/client.py:77-80 | one step of the header loop: an empty line ends it, a line that does not split breaks it, and a line that splits adds its pair |
| HttpClient.ReadHeaderBlock | lib/concurrence/http/client.py:76-80 | the header loop over a reader returns exactly the header block of the unread input and consumes it |
| HttpClient.ReadChunks | lib/concurrence/http/client.py:93-103 | the chunk loop over a reader returns exactly the chunked body of the unread input and consumes it |
| HttpClient.ReadLength | lib/concurrence/http/client.py:104-109 | the Content-Length loop over a reader returns exactly the length-framed body and consumes it |
| HttpClient.ReadBody | lib/concurrence/http/client.py:82-111 | the body read is chunked for Transfer-Encoding chunked, length-framed for a Content-Length that parses, and an error with neither |
| HttpClient.ReceiveParts | lib/concurrence/http/client.py:65-115 | `_receive` reads the status line, the headers and the body exactly as ReceiveSpec says |
| HttpClient.RequestHost | lib/concurrence/http/client.py:125 | `host or self._host`: the request host is the given one or the connected one |
| HttpClient.HeaderLines | lib/concurrence/http/client.py:160-161 | one written line per request header |
| HttpClient.HeaderLinesText | lib/concurrence/http/client.py:160-161 | the header lines written one after another are the header text |
| HttpClient.RequestPiecesText | lib/concurrence/http/client.py:157-165 | the pieces `send` writes make up the request text |
| HttpClient.RequestRoundTrip | lib/concurrence/http/client.py:157-165 | the request `send` writes reads back, as the server reads lines, as its request line, then its headers with Host first, then the body |
| HttpClient.HTTPConnection.constructor | lib/concurrence/http/client.py:43-51 | `connect` remembers the host of an (address, port) endpoint, and no host for any other endpoint |
| HttpClient.HTTPConnection.Get | lib/concurrence/http/client.py:117-126 | `get` builds a fresh GET request for the path and host, with no headers and no body |
| HttpClient.HTTPConnection.Post | lib/concurrence/http/client.py:128-140 | `post` builds a fresh POST request; a body adds its Content_length header |
| HttpClient.HTTPConnection.Send | lib/concurrence/http/client.py:147-165 | `send` fails on a request without method, path or host, in that order; otherwise it sends exactly the request line, Host, headers, empty line and body |
| HttpClient.HTTPConnection.Receive | lib/concurrence/http/client.py:53-63 | `receive` delivers the response `_receive` reads, turning its failures into HTTPError |
| HttpClient.HTTPConnection.Perform | lib/concurrence/http/client.py:142-145 | `perform` sends the request text, then delivers the response read back |
| HttpClient.NewResponse | lib/concurrence/http/client.py:67-115 | the response built holds the status, headers and chunks that were read |
| DbApi.EscapeString | lib/concurrence/database/mysql/dbapi.py:68-89 | escaping adds exactly one backslash per special character (NUL, \n, \r, \\, ', ", \x1a) and keeps every other character |
| DbApi.EscapeStep | lib/concurrence/database/mysql/dbapi.py:71-88 | one character at a time, the escaped text reads back as the original |
| DbApi.EscapeRoundTrip | lib/concurrence/database/mysql/dbapi.py:68-89 | a string escaped and closed by a quote is read back by a MySQL string-literal reader as itself, with what follows the quote left over |
| DbApi.ArgText | lib/concurrence/database/mysql/dbapi.py:111-125 | an argument has a text for every supported type, a string being quoted and escaped, and none (the `assert False`) for an unknown type |
| DbApi.FindPlaceholder | lib/concurrence/database/mysql/dbapi.py:113 | the search returns a position of "%s" at or after `i` |
| DbApi.FindPlaceholderFirst | lib/concurrence/database/mysql/dbapi.py:113 | the "%s" found is the first one, and None means there is none |
| DbApi.FindPlaceholderAt | lib/concurrence/database/mysql/dbapi.py:113 | a "%s" with none before it is the one found |
| DbApi.SubstStep | lib/concurrence/database/mysql/dbapi.py:111-121 | as written, each argument replaces the first "%s" of the whole query, text already substituted included |
| DbApi.RescanCounterexample | lib/concurrence/database/mysql/dbapi.py:111-121 | as written, `execute("%s,%s", ["%s", 1])` fills the "%s" the first argument brought in and leaves the query's own second "%s" |
| DbApi.RescanFirst | lib/concurrence/database/mysql/dbapi.py:113 | the first step of that input: the string argument replaces the query's first "%s" |
| DbApi.RescanSecond | lib/concurrence/database/mysql/dbapi.py:117 | the second step: the integer replaces the "%s" inside the quoted argument |
| DbApi.SubstRestStep | lib/concurrence/database/mysql/dbapi.py:111-121 | corrected: each argument replaces the first "%s" of the text not yet substituted |
| DbApi.NoRescan | lib/concurrence/database/mysql/dbapi.py:111-121 | corrected, the same input fills both of the query's own placeholders and keeps the argument "%s" as text |
| DbApi.NoRescanFirst | lib/concurrence/database/mysql/dbapi.py:113 | corrected, the first argument settles in place of the query's first "%s" |
| DbApi.NoRescanSecond | lib/concurrence/database/mysql/dbapi.py:117 | corrected, the second argument fills the query's own second "%s" |
| DbApi.FindAfterSegment | lib/concurrence/database/mysql/dbapi.py:113 | the first "%s" after text without one is the one right after that text |
| DbApi.SubstPlaceStep | lib/concurrence/database/mysql/dbapi.py:111-121 | corrected, one placeholder further: the text before it and the argument's text join the settled part |
| DbApi.SubstPlaces | lib/concurrence/database/mysql/dbapi.py:111-125 | corrected, a query of n placeholders and n known arguments is the query with the argument texts put in, in order, whatever the texts contain |
| DbApi.Subst | lib/concurrence/database/mysql/dbapi.py:111-125 | substitution as written fails, with the `assert False` of an unknown type, exactly when some argument is of an unknown type, and leaves a query without "%s" as it is |
| DbApi.SubstRest | lib/concurrence/database/mysql/dbapi.py:111-125 | corrected, substitution fails exactly when some argument is of an unknown type, and leaves text without "%s" as it is |
| DbApi.Substitute | lib/concurrence/database/mysql/dbapi.py:111-125 | the argument loop as written computes exactly the substitution as written |
| DbApi.SubstituteCorrected | lib/concurrence/database/mysql/dbapi.py:111-125 | the corrected argument loop computes exactly the corrected substitution |
| DbApi.EscapeKeepsPercentOut | lib/concurrence/database/mysql/dbapi.py:113 | escaping a string brings in no "%" |
| DbApi.ArgInert | lib/concurrence/database/mysql/dbapi.py:111-123 | the text of a known argument without "%" in its string or timestamp is non-empty, does not start with "s" and holds no "%", so it cannot form or complete a "%s" |
| DbApi.FindShift | lib/concurrence/database/mysql/dbapi.py:113 | with no "%s" starting in the settled text, the first "%s" of the whole text is the first one of the rest, shifted |
| DbApi.SettledStays | lib/concurrence/database/mysql/dbapi.py:113 | putting an inert text in place of the first "%s" of the rest keeps the settled text free of "%s" starts |
| DbApi.SubstAgree | lib/concurrence/database/mysql/dbapi.py:111-125 | for arguments whose texts hold no "%", substituting as written over the whole text is the corrected substitution over the rest |
| DbApi.AsWrittenAgrees | lib/concurrence/database/mysql/dbapi.py:111-125 | for arguments whose strings and timestamps hold no "%", the substitution as written and the corrected one give the same query |
| DbApi.Wrap | lib/concurrence/database/mysql/dbapi.py:91-96 | a wrapped exception carries `msg: detail` and is a TimeoutError exactly for a timeout, an Error otherwise |
| DbApi.Cursor.constructor | lib/concurrence/database/mysql/dbapi.py:43-66 | a new cursor is open with no description, no result, no lastrowid and rowcount -1 |
| DbApi.Cursor.Execute | lib/concurrence/database/mysql/dbapi.py:98-144 | `execute` fails on a closed cursor; otherwise it resets the result, substitutes the arguments as written (each into the first "%s" of the text so far), sends the query and stores a result set or the (rowcount, lastrowid) pair, wrapping a client failure |
| DbApi.Cursor.FetchOne | lib/concurrence/database/mysql/dbapi.py:154-162 | `fetchone` returns the next row and drops it from the result, None past the last row, and an Error with no result set |
| DbApi.Cursor.FetchAll | lib/concurrence/database/mysql/dbapi.py:146-152 | `fetchall` returns the rows not yet fetched, and an Error with no result set |
| DbApi.Cursor.Close | lib/concurrence/database/mysql/dbapi.py:164-174 | `close` resets the result and closes the cursor; a second close is a ProgrammingError |
| DbApi.ClientOptions | lib/concurrence/database/mysql/dbapi.py:178-198 | the client gets autocommit False unless given; with a charset, it keeps the charset only when use_unicode is true and loses use_unicode; without one, it gets every argument as given; the connection remembers the given charset or the default |
| DbApi.Connection.constructor | lib/concurrence/database/mysql/dbapi.py:178-203 | a new connection is open with the client options ClientOptions computes |
| DbApi.Connection.Close | lib/concurrence/database/mysql/dbapi.py:205-219 | `close` closes the connection; a second close is a ProgrammingError |
| DbApi.Connection.NewCursor | lib/concurrence/database/mysql/dbapi.py:221-224 | `cursor` returns a fresh open cursor, or a ProgrammingError once the connection is closed |
| MysqlPacket.Put | lib/concurrence/database/mysql/__init__.py:84-146 | writing s at p replaces exactly the bytes p..p+|s| by s and keeps the others |
| MysqlPacket.PutPut | lib/concurrence/database/mysql/__init__.py:107-118 | writing a and then b right after it is writing a + b |
| MysqlPacket.Header | lib/concurrence/database/mysql/__init__.py:120-121 | the packet header is four bytes |
| MysqlPacket.HeaderFields | lib/concurrence/database/mysql/__init__.py:120-121 | the little-endian int `(length - 4) | (n << 24)` is the 3-byte payload length followed by the sequence number byte |
| MysqlPacket.LittleEndianTop | lib/concurrence/database/mysql/__init__.py:121 | a value below 256^k plus n times 256^k is, in k + 1 little-endian bytes, the k bytes of the value and then n |
| MysqlPacket.ErrorFields | lib/concurrence/database/mysql/__init__.py:90-96 | the error packet is 0xFF, the error number's low 16 bits little-endian, then the message |
| MysqlPacket.OkFields | lib/concurrence/database/mysql/__init__.py:98-105 | the OK packet holds the field count, affected rows and insert id bytes, the status at 3..5, the warning count at 5..7 and the message after |
| MysqlPacket.OkText | lib/concurrence/database/mysql/__init__.py:98-105 | the OK packet is its fields in a row, the message written only when not empty adding nothing when empty |
| MysqlPacket.Take | lib/concurrence/database/mysql/__init__.py:112 | `s[:n]` is n bytes long, or all of s when it is shorter |
| MysqlPacket.Drop | lib/concurrence/database/mysql/__init__.py:118 | `s[:n] + s[n:]` is s |
| MysqlPacket.GreetingJoin | lib/concurrence/database/mysql/__init__.py:107-118 | the greeting is the protocol byte, the NUL-terminated version, a fixed 31-byte middle and the rest of the scramble |
| MysqlPacket.GreetingAsWritten | lib/concurrence/database/mysql/__init__.py:107-118 | as written, the greeting is the protocol byte, the NUL-terminated version, the 31-byte middle and the rest of the scramble, and nothing after it |
| MysqlPacket.GreetingPacket | lib/concurrence/database/mysql/__init__.py:107-118 | corrected, the greeting is the one as written followed by a NUL |
| MysqlPacket.MiddleFields | lib/concurrence/database/mysql/__init__.py:111-117 | the middle holds the first 8 scramble bytes at 4..12, the capabilities at 13..15, the language at 15 and the status at 16..18 |
| MysqlPacket.Lcb | lib/concurrence/database/mysql/__init__.py:140-142 | a length-coded binary below 128 is the one byte of its value |
| MysqlPacket.Lcs | lib/concurrence/database/mysql/__init__.py:144-146 | a length-coded string is its length byte followed by the string |
| MysqlPacket.PacketWriter.constructor | lib/concurrence/database/mysql/__init__.py:86-88 | a new writer works on the given buffer |
| MysqlPacket.PacketWriter.Emit | lib/concurrence/database/mysql/__init__.py:90-118 | writing pieces one after another puts their concatenation at the position when it fits; when one does not, the pieces before it are written and the position stops after them |
| MysqlPacket.PacketWriter.WriteHeader | lib/concurrence/database/mysql/__init__.py:120-121 | `write_header` puts the four header bytes at the position when they fit, and otherwise changes nothing |
| MysqlPacket.PacketWriter.Start | lib/concurrence/database/mysql/__init__.py:123-126 | `start` remembers the position and skips the four header bytes when they fit |
| MysqlPacket.PacketWriter.Finish | lib/concurrence/database/mysql/__init__.py:128-135 | `finish` writes at the remembered start the header whose length is the bytes written since then, and puts the position back |
| MysqlPacket.PacketWriter.WriteError | lib/concurrence/database/mysql/__init__.py:90-96 | `write_error` puts the error packet at the position exactly when it fits |
| MysqlPacket.PacketWriter.WriteOk | lib/concurrence/database/mysql/__init__.py:98-105 | `write_ok` puts the OK packet at the position exactly when it fits |
| MysqlPacket.PacketWriter.WriteGreeting | lib/concurrence/database/mysql/__init__.py:107-118 | corrected: `write_greeting` puts the greeting with a NUL after the scramble at the position exactly when it fits |
| MysqlPacket.PacketWriter.WriteInt | lib/concurrence/database/mysql/__init__.py:137-138 | `write_int` puts the four little-endian bytes at the position exactly when they fit |
| MysqlPacket.PacketWriter.WriteLcb | lib/concurrence/database/mysql/__init__.py:140-142 | `write_lcb` writes one byte for a value below 128 when there is room, and fails for 128 and more |
| MysqlPacket.PacketWriter.WriteLcs | lib/concurrence/database/mysql/__init__.py:144-146 | `write_lcs` writes the length byte and the string when the length is below 128 and they fit |
| MysqlClient.ParseAddress | lib/concurrence/database/mysql/client.py:218-227 | a host starting with '/' is a Unix socket path, a plain host gets the given port, and `host:port` is split at its ':' with an integer port |
| MysqlClient.AddressRoundTrip | lib/concurrence/database/mysql/client.py:222-225 | "host:port" is read back as that host and port |
| MysqlClient.ByteHex | lib/concurrence/database/mysql/client.py:123 | `"%02x" % b` is two hex digits |
| MysqlClient.ShortAt | lib/concurrence/database/mysql/client.py:130 | a short read from the packet is below 2^16 |
| MysqlClient.ParseGreeting | lib/concurrence/database/mysql/client.py:112-125 | a greeting accepted has protocol byte 0x0A and capabilities with PROTOCOL_41 |
| MysqlClient.GreetingRest | lib/concurrence/database/mysql/client.py:125-142 | the greeting after the version carries that version and capabilities with PROTOCOL_41 when accepted |
| MysqlClient.GreetingFront | lib/concurrence/database/mysql/client.py:115-125 | protocol byte 0x0A and the NUL-terminated version are read back, and reading goes on with what follows |
| MysqlClient.MiddleReads | lib/concurrence/database/mysql/client.py:127-142 | the 31-byte middle gives the first 8 scramble bytes, capabilities, language and status; with nothing after it the server is refused, and the scramble's second part is read up to its NUL |
| MysqlClient.GreetingMiddleFields | lib/concurrence/database/mysql/__init__.py:111-117 | the middle `write_greeting` lays out holds the fields where the client reads them |
| MysqlClient.GreetingUnreadable | lib/concurrence/database/mysql/__init__.py:107-118 | as written, a greeting whose scramble's second part has no NUL cannot be read by the client (`read_bytes_until(0)` runs off the packet) |
| MysqlClient.GreetingRoundTrip | lib/concurrence/database/mysql/client.py:112-142 | corrected, the greeting with a NUL after the scramble reads back with the version, whole scramble, capabilities, language and status it was written with |
| MysqlClient.GreetingLaidOut | lib/concurrence/database/mysql/__init__.py:107-118 | the greeting packet is the protocol byte, the NUL-terminated version, the middle and the scramble's second part |
| MysqlClient.GreetingError | lib/concurrence/database/mysql/client.py:117-119 | an error packet in place of the greeting is a ClientLoginError carrying the packet's message |
| MysqlClient.ClientCaps | lib/concurrence/database/mysql/client.py:144-152 | the client's capabilities are the server's with COMPRESS cleared, and CONNECT_WITH_DB kept exactly when a database is given and the server offers it |
| MysqlClient.DatabaseFlag | lib/concurrence/database/mysql/client.py:149-152 | unless the server refuses a database, the client asks to connect with one exactly when it gives one |
| MysqlClient.DigestText | lib/concurrence/database/mysql/client.py:97-98 | a SHA1 digest is a 20-byte string |
| MysqlClient.Xor | lib/concurrence/database/mysql/client.py:103 | the scramble combines two digests byte by byte with XOR |
| MysqlClient.XorCancel | lib/concurrence/database/mysql/client.py:103 | XOR with the same digest twice gives the first back |
| MysqlClient.XorCommute | lib/concurrence/database/mysql/client.py:103 | XOR of digests does not depend on their order |
| MysqlClient.ScrambleCheck | lib/concurrence/database/mysql/client.py:94-103 | a server holding only SHA1(SHA1(password)) undoes the scramble with the seed it sent and finds a stage 1 whose hash is what it holds |
| MysqlClient.AnswerFields | lib/concurrence/database/mysql/client.py:155-172 | the handshake answer holds the capabilities, the 32 MB packet size, the language, 23 zero bytes, the NUL-terminated user, the 20-byte scramble or a 0 and the NUL-terminated database, where the server reads them |
| MysqlClient.AnswerHead | lib/concurrence/database/mysql/client.py:157-160 | the fixed 32 bytes at the front of the answer hold the capabilities, packet size and language |
| MysqlClient.AnswerTail | lib/concurrence/database/mysql/client.py:161-170 | the NUL-terminated user follows the 32 bytes, then the password part and the database |
| MysqlClient.Login | lib/concurrence/database/mysql/client.py:105-172 | the answer built fits the buffer after the header, and a ClientLoginError comes only from a greeting that is an error packet |
| MysqlClient.FinalVerdict | lib/concurrence/database/mysql/client.py:175-182 | the server's final answer means success exactly when it starts with a byte other than 0xFF and 0xFE |
| MysqlClient.CommandFields | lib/concurrence/database/mysql/client.py:188-199 | the command packet is the 3-byte length of command byte and text, sequence number 0, the command byte and the text |
| MysqlClient.ReadLcb | lib/concurrence/database/mysql/client.py:288-289 | a length-coded binary read consumes at least one byte and leaves a suffix of the input |
| MysqlClient.LcbReads | lib/concurrence/database/mysql/__init__.py:140-142 | what `write_lcb` writes reads back as the same value |
| MysqlClient.ParseReply | lib/concurrence/database/mysql/client.py:280-295 | a reply is a result set header exactly when its first byte is neither 0 nor 0xFF, with that byte as the field count; an error carries the message after the SQL state |
| MysqlClient.OkReply | lib/concurrence/database/mysql/client.py:286-290 | the OK packet `write_ok` builds reads as its affected rows and insert id |
| MysqlClient.ErrorReply | lib/concurrence/database/mysql/client.py:291-292 | an error packet with '#' and a 5-byte SQL state is a ClientCommandError with its message |
| MysqlClient.LoginAnswers | lib/concurrence/database/mysql/client.py:105-172 | a greeting written by the corrected `write_greeting` is answered with the client capabilities, the server's language and the whole scramble as the seed |
| MysqlClient.Settle | lib/concurrence/database/mysql/client.py:237-258 | `connect` ends CONNECTED on success, INIT again on TimeoutError or ClientLoginError, ERROR on anything else |
| MysqlClient.ConnectAttempt | lib/concurrence/database/mysql/client.py:213-258 | `connect` succeeds exactly for a parsable address, in INIT, with a dial, greeting and final answer that succeed and, when `autocommit` is True or False, a SET AUTOCOMMIT that `command` does not fail; it sends the answer exactly when it gets that far, followed by the query packet once connected with an `autocommit`; it asserts it is in INIT |
| MysqlClient.AutocommitText | lib/concurrence/database/mysql/client.py:310-312 | `set_autocommit` sends "SET AUTOCOMMIT = " followed by 1 or 0 |
| MysqlClient.CommandAnswer | lib/concurrence/database/mysql/client.py:266-297 | a result set opens only when connected, not in a command and with no current result set; not connected is an assertion failure; an error reply is a ClientCommandError |
| MysqlClient.CloseFault | lib/concurrence/database/mysql/client.py:201-211 | `close` succeeds exactly when connected, not in a command and the socket closes |
| MysqlClient.ResultSet.constructor | lib/concurrence/database/mysql/client.py:46-53 | a new result set is open for its connection and field count |
| MysqlClient.ResultSet.ReadRows | lib/concurrence/database/mysql/client.py:55-61 | iterating the rows requires an open set, and ends at EOF |
| MysqlClient.ResultSet.Close | lib/concurrence/database/mysql/client.py:63-72 | a result set closes only when read to the end or with the connection, detaches from the connection and clears the connection's current set; otherwise ClientProgrammingError |
| MysqlClient.Connection.constructor | lib/concurrence/database/mysql/client.py:83-92 | a new connection is in INIT, not in a command, with no current result set |
| MysqlClient.Connection.CloseCurrent | lib/concurrence/database/mysql/client.py:184-186 | `_close_current_resultset` clears the current set exactly when it is the one given, asserting that it is |
| MysqlClient.Connection.PacketFramed | lib/concurrence/database/mysql/__init__.py:128-135 | the header patched at the front is followed by the payload written after it |
| MysqlClient.Connection.SendAnswer | lib/concurrence/database/mysql/client.py:155-173 | the handshake answer goes out framed as packet 1 exactly when it fits the buffer and the stream is open |
| MysqlClient.Connection.FramePacket | lib/concurrence/database/mysql/client.py:155-172 | `clear`, `start`, the fields and `finish(1)` leave exactly the header and payload pending when they fit |
| MysqlClient.Connection.Connect | lib/concurrence/database/mysql/client.py:213-258 | `connect` returns ConnectAttempt's failure, sends exactly its bytes (the answer, then the SET AUTOCOMMIT query), keeps a result set that query opens as current and ends in the state Settle gives; once connected the reader's encoding is `charset` |
| MysqlClient.Connection.Open | lib/concurrence/database/mysql/client.py:231-247 | from STATE_CONNECTING, the handshake and then the autocommit query and the charset return ConnectAttempt's failure, send its bytes and end in the state Settle gives |
| MysqlClient.AttemptConfigured | lib/concurrence/database/mysql/client.py:237-247 | a `connect` whose handshake succeeds goes on with the autocommit query, whose failure becomes its own, and sends the query after the answer; one whose handshake fails ends as the handshake does |
| MysqlClient.Connection.Configure | lib/concurrence/database/mysql/client.py:239-247 | once connected, an `autocommit` of True or False is sent through `command` and its failure is `connect`'s, ending in ERROR; then the reader's encoding becomes `charset` |
| MysqlClient.Connection.Handshake | lib/concurrence/database/mysql/client.py:231-237 | the dial, the handshake and the final answer return ConnectAttempt's failure and send its bytes; a new reader, with its default encoding, is made once the dial succeeds |
| MysqlClient.Connection.SendCommand | lib/concurrence/database/mysql/client.py:188-199 | `_send_command` sends exactly the command packet when the stream is open |
| MysqlClient.Connection.WriteCommand | lib/concurrence/database/mysql/client.py:195-198 | the writes before the flush add exactly the command packet to the output |
| MysqlClient.Connection.Command | lib/concurrence/database/mysql/client.py:266-297 | `command` returns what CommandAnswer gives, sends the packet only past the checks and makes a new result set current exactly when one opens |
| MysqlClient.Connection.Exchange | lib/concurrence/database/mysql/client.py:273-297 | inside the command, the packet is sent and the reply read as CommandAnswer says |
| MysqlClient.Connection.Close | lib/concurrence/database/mysql/client.py:260-264 | `close` returns CloseFault's failure; it closes the current result set with the connection and then the socket, ending CLOSED, or ERROR when the socket fails |
| DatabasePool.Connection.constructor | lib/concurrence/database/pool.py:47-48 | a connection made by the connector is not yet pooled, open and not marked for closing |
| DatabasePool.Keep | lib/concurrence/database/pool.py:153-159 | exactly the elements not dropped are kept |
| DatabasePool.KeepDistinct | lib/concurrence/database/pool.py:153-159 | keeping part of a sequence without repeats has no repeats |
| DatabasePool.RemoveKept | lib/concurrence/database/pool.py:201-205 | removing one more connection from the idle stack is keeping one fewer |
| DatabasePool.LastReadable | lib/concurrence/database/pool.py:132-135 | the idle disconnect reaper picks the last idle connection whose readable event fired, and none when no connection matches |
| DatabasePool.SafeArgsHidden | lib/concurrence/database/pool.py:77-79 | changing any other argument, the password among them, never changes the pool's name |
| DatabasePool.RetiredStep | lib/concurrence/database/pool.py:153-159 | retiring one more aged connection, while the others keep their recorded state, extends the retired set by it |
| DatabasePool.RetireSets | lib/concurrence/database/pool.py:153-159 | retiring a connection takes it out of the connections exactly when it was idle |
| DatabasePool.BasePool.constructor | lib/concurrence/database/pool.py:18-28 | a new pool has no connections, none being made and no failures or closes counted |
| DatabasePool.BasePool.New | lib/concurrence/database/pool.py:34-52 | `_new` adds a fresh connection linked to the pool and stamped with the time; a connector failure adds nothing and counts one failed connect, except a TaskletExit, which the `except Exception` clause does not catch |
| DatabasePool.BasePool.Close | lib/concurrence/database/pool.py:54-72 | `_close` asserts the connection came from this pool, removes it and unlinks it, and then closes it, raising when that fails; a connection not in the set is a KeyError |
| DatabasePool.Pool.constructor | lib/concurrence/database/pool.py:92-103 | a new pool has no idle connection and keeps its limits |
| DatabasePool.Pool.Connect | lib/concurrence/database/pool.py:172-199 | with no idle connection and room it creates one, raising a TimeoutError and waiting on any other failure; at the limit it waits; otherwise it takes the most recently returned idle connection |
| DatabasePool.Pool.Close | lib/concurrence/database/pool.py:201-207 | the pool's `_close` also takes the connection off the idle stack |
| DatabasePool.Pool.Disconnect | lib/concurrence/database/pool.py:209-226 | `disconnect` closes and removes the connection when asked or when marked by the age reaper, and otherwise returns it to the idle stack |
| DatabasePool.Pool.ReapDisconnected | lib/concurrence/database/pool.py:126-140 | a readable event closes the last idle connection it belongs to, and does nothing when there is none |
| DatabasePool.Pool.AgedConnections | lib/concurrence/database/pool.py:146-151 | the aged list holds exactly the connections older than the maximum age, each once |
| DatabasePool.Pool.Retire | lib/concurrence/database/pool.py:153-159 | an aged idle connection is closed now; a busy one is only marked to be closed on its next disconnect |
| DatabasePool.Pool.RetireAll | lib/concurrence/database/pool.py:153-159 | the loop closes exactly the aged connections that are idle, marks the others, and keeps the idle stack's order |
| DatabasePool.Pool.ReapOld | lib/concurrence/database/pool.py:142-159 | the age reaper closes the idle connections older than the maximum age and marks the busy ones |
| DatabasePool.NullPool.constructor | lib/concurrence/database/pool.py:232-233 | a new null pool has no connections |
| DatabasePool.NullPool.Connect | lib/concurrence/database/pool.py:241-244 | `connect` always makes a new connection and raises every connector failure |
| DatabasePool.NullPool.Disconnect | lib/concurrence/database/pool.py:246-247 | `disconnect` closes the connection whatever `close` says |
| Memcache.PlainWords | lib/concurrence/memcache/client.py:57 | plain words joined by blanks split back into the words and hold no line break |
| Memcache.SpacedJoin | lib/concurrence/memcache/client.py:82-83 | writing " " + key for each key gives a blank and the keys joined by blanks |
| Memcache.GetLine | lib/concurrence/memcache/client.py:80-83 | the get line is "get" and the keys, separated by blanks |
| Memcache.GetCommandRead | lib/concurrence/memcache/client.py:80-91 | a get command reads back as one line whose words are "get" and the keys, and nothing after it is consumed |
| Memcache.SetCommandRead | lib/concurrence/memcache/client.py:84-91 | a set command reads back as a header line naming the key, the flags, 0 and the exact size of the pickled data that follows it |
| Memcache.GetReply | lib/concurrence/memcache/client.py:50-71 | reading a get reply consumes input |
| Memcache.ValueLineWords | lib/concurrence/memcache/client.py:56-60 | a VALUE line splits into "VALUE", the key, the flags and the size |
| Memcache.ValueHeader | lib/concurrence/memcache/client.py:57-60 | a VALUE line is read exactly when it has four fields and both the flags and the size parse as integers |
| Memcache.ValueBlockRead | lib/concurrence/memcache/client.py:56-63 | one VALUE block is read as its key and unpickled data, and reading goes on after it |
| Memcache.ValueHeaderOf | lib/concurrence/memcache/client.py:56-60 | a VALUE line announces its entry's key and size |
| Memcache.DataThenBreak | lib/concurrence/memcache/client.py:61-62 | the data block is read by its size and the line break after it as an empty line |
| Memcache.GetReplyRoundTrip | lib/concurrence/memcache/client.py:50-66 | VALUE blocks up to END are read back as the map of their keys to their values, and what follows END is left unread |
| Memcache.GatheredKeys | lib/concurrence/memcache/client.py:63 | a key is in the gathered result exactly when it was there already or some block carries it, and the last block with the key gives its value |
| Memcache.GetOneRoundTrip | lib/concurrence/memcache/client.py:145-150 | a single-key get answers the server's value for the key, and None exactly when no VALUE block carries it |
| Memcache.SetReplyRead | lib/concurrence/memcache/client.py:67-71 | a set succeeds exactly on a STORED line |
| Memcache.UnknownGetLine | lib/concurrence/memcache/client.py:70-71 | any line that is neither a VALUE line nor END is an unknown protocol state for a get |
| Memcache.ReadValues | lib/concurrence/memcache/client.py:54-66 | the reply loop over a reader returns the map GetReply gives and consumes exactly the reply |
| Memcache.Waiting | lib/concurrence/memcache/client.py:133-136 | the waiters `close` walks are those of the command queue, then those of the response queue, in order |
| Memcache.MemcacheNode.constructor | lib/concurrence/memcache/client.py:36-37 | a new node has no stream, no queues and no tasks |
| Memcache.MemcacheNode.Connect | lib/concurrence/memcache/client.py:39-45 | `connect` asserts there is no stream yet and, when the socket connects, starts with empty queues and the reader and writer tasks |
| Memcache.MemcacheNode.DoCommand | lib/concurrence/memcache/client.py:116-122 | `_do_command` appends the command and its waiter to the command queue |
| Memcache.MemcacheNode.Set | lib/concurrence/memcache/client.py:142-143 | `set` queues a set command for the key, value and flags |
| Memcache.MemcacheNode.Get | lib/concurrence/memcache/client.py:145-156 | `get` queues a one-key get for a single key and a get of the list otherwise |
| Memcache.MemcacheNode.WriteCommand | lib/concurrence/memcache/client.py:76-96 | `_write_command` takes the first queued command, sends exactly its text and queues its reply; on a closed stream the waiter is failed |
| Memcache.Transmit | lib/concurrence/memcache/client.py:79-92 | `clear`, the pieces and `flush`: the pieces go out, in order, exactly when the stream is open, and nothing goes out otherwise |
| Memcache.MemcacheNode.ReadResponse | lib/concurrence/memcache/client.py:47-74 | `_read_response` takes the first queued reply, delivers what the reply parses to and consumes exactly it, or fails the waiter |
| Memcache.MemcacheNode.CloseAsWritten | lib/concurrence/memcache/client.py:124-140 | as written, `close` first kills and drops both tasks; with a waiter queued it then raises NameError on the undefined `e` before warning anyone, and the node stays connected with its queues; a node without tasks raises AttributeError and keeps its stream and queues |
| Memcache.MemcacheNode.Close | lib/concurrence/memcache/client.py:124-140 | corrected, `close` drops both tasks, fails every queued waiter, commands first, and ends with no stream and no queues; a node without tasks raises AttributeError and keeps the rest |
| Memcache.KeysSent | lib/concurrence/memcache/client.py:152-156 | a single key is sent as the list of that key, a list as it is |
| Memcache.LostWaiter | lib/concurrence/memcache/client.py:126-134 | as written, a node with one queued command closes with the waiter unanswered, still queued, and the node still connected; closing it again raises AttributeError |
| Memcache.WarnedWaiter | lib/concurrence/memcache/client.py:133-140 | corrected, the same node answers that waiter and disconnects |
| Statistics.MinOf | lib/concurrence/statistic.py:133-134 | the smallest value is one of the values and no value is below it |
| Statistics.MaxOf | lib/concurrence/statistic.py:131-132 | the largest value is one of the values and no value is above it |
| Statistics.Extremes | lib/concurrence/statistic.py:106-107 | the tracked minimum and maximum are both None exactly before the first value |
| Statistics.WidenExtremes | lib/concurrence/statistic.py:145-149 | widening the extremes of the values seen so far by a new value gives the extremes of all of them, so a tracker always holds the true minimum and maximum |
| Statistics.WidenedBounds | lib/concurrence/statistic.py:129-134 | after widening by a value both extremes are set and the value lies between them |
| Statistics.Statistic.constructor | lib/concurrence/statistic.py:12-17 | a new statistic holds its starting count and no last count |
| Statistics.Statistic.Reset | lib/concurrence/statistic.py:19-21 | `reset` forgets the last count and keeps the count |
| Statistics.Statistic.SetCount | lib/concurrence/statistic.py:27-28 | `set_count` sets the count and nothing else |
| Statistics.Statistic.Add | lib/concurrence/statistic.py:30-32 | `s += o` raises the count by `o` in place and answers the same object |
| Statistics.Statistic.Sub | lib/concurrence/statistic.py:34-36 | `s -= o` lowers the count by `o` in place and answers the same object |
| Statistics.Statistic.Update | lib/concurrence/statistic.py:49-57 | `update` leaves the count and records it as the last count |
| Statistics.StatisticMinMax.constructor | lib/concurrence/statistic.py:140-143 | a new min-max statistic counts 0 and has no extremes |
| Statistics.StatisticMinMax.UpdateMinMax | lib/concurrence/statistic.py:145-149 | `update_min_max` widens the extremes by the count, which then lies between them |
| Statistics.StatisticMinMax.SetCount | lib/concurrence/statistic.py:151-153 | `set_count` sets the count and widens the extremes by it |
| Statistics.StatisticMinMax.Add | lib/concurrence/statistic.py:155-158 | `s += o` raises the count and widens the extremes by the new count |
| Statistics.StatisticMinMax.Sub | lib/concurrence/statistic.py:160-163 | `s -= o` lowers the count and widens the extremes by the new count |
| Statistics.StatisticMinMax.Reset | lib/concurrence/statistic.py:168-170 | `reset` forgets the extremes and keeps the count |
| Statistics.StatisticExtra.constructor | lib/concurrence/statistic.py:103-107 | a new extra statistic counts 0, has no last count and no extremes |
| Statistics.StatisticExtra.Add | lib/concurrence/statistic.py:30-32 | the inherited `s += o` raises the count and leaves the extremes |
| Statistics.StatisticExtra.SetCount | lib/concurrence/statistic.py:27-28 | the inherited `set_count` sets the count and leaves the last count and the extremes |
| Statistics.StatisticExtra.Sub | lib/concurrence/statistic.py:34-36 | the inherited `s -= o` lowers the count by `o` in place, answers the same object and leaves the extremes |
| Statistics.StatisticExtra.Update | lib/concurrence/statistic.py:49-57 | the inherited `update` records the count as the last count and leaves the extremes |
| Statistics.StatisticExtra.UpdateAvg | lib/concurrence/statistic.py:129-134 | `update_avg(d)` widens the extremes by `d`, which then lies between them |
| Statistics.StatisticExtra.Reset | lib/concurrence/statistic.py:109-113 | `reset` forgets the last count and the extremes and keeps the count |
| Statistics.StatisticExtra.Timed | lib/concurrence/statistic.py:89-99 | leaving a timed block counts it once and widens the extremes by its duration |
| Statistics.Find | lib/concurrence/statistic.py:59-73 | a statistic yields itself and a value that is neither a statistic, a dict nor a list yields nothing |
| Statistics.FindAllMember | lib/concurrence/statistic.py:64-71 | a statistic is found among several values exactly when it is found in one of them |
| Statistics.FindReaches | lib/concurrence/statistic.py:59-73 | `find` yields exactly the statistics reachable through dict values and list items |
| Statistics.LeafReach | lib/concurrence/statistic.py:62-73 | a statistic or another value reaches only itself |
| Statistics.FoundReached | lib/concurrence/statistic.py:64-71 | what `find` yields inside a dict or list is reachable from it |
| Statistics.ReachedFound | lib/concurrence/statistic.py:64-71 | whatever is reachable from a dict or list is yielded by `find` |
| Statistics.ResetOne | lib/concurrence/statistic.py:86-87 | resetting one found statistic applies its own class's `reset`: it is left reset with its count kept |
| Statistics.UpdateOne | lib/concurrence/statistic.py:79-80 | updating one found statistic applies its own class's `update`: the count is kept, an extra statistic keeps its extremes, and a min-max one, whose `update` is `pass`, does not change |
| Statistics.ResetAll | lib/concurrence/statistic.py:83-87 | `resetall` resets every statistic `find` yields, each keeping its count |
| Statistics.UpdateAll | lib/concurrence/statistic.py:75-81 | `updateall` answers its argument and, given a positive elapsed time, updates every statistic `find` yields; every one keeps its count, an extra one its extremes, and a min-max one does not change |
| TaskLocals.Lookup | lib/concurrence/local.py:27-41 | an attribute is found exactly when a task of the chain (only the current one unless recursive) holds it, and the value found is that of the first such task |
| TaskLocals.ShiftedHolders | lib/concurrence/local.py:32-37 | when the current task holds nothing, the holders of its parent chain are those of the whole chain |
| TaskLocals.NearestHolder | lib/concurrence/local.py:32-39 | a recursive lookup answers the value of the nearest task in the chain that holds the attribute |
| TaskLocals.SkipsAbsent | lib/concurrence/local.py:33-37 | a task with no record is passed over for the parent when recursive, and a non-recursive lookup then fails |
| TaskLocals.OnlyCurrent | lib/concurrence/local.py:34-35 | a non-recursive lookup never looks past the current task |
| TaskLocals.TaskLocal.constructor | lib/concurrence/local.py:15-25 | a new local holds its recursive flag and no records |
| TaskLocals.TaskLocal.Get | lib/concurrence/local.py:27-41 | `__getattr__` answers the lookup of the key along the task chain, None standing for AttributeError |
| TaskLocals.TaskLocal.Set | lib/concurrence/local.py:43-51 | `__setattr__` stores the value in the current task's record, creating that record on first use, and changes no other task's record |
| TaskLocals.TaskLocal.Delete | lib/concurrence/local.py:53-60 | `__delattr__` succeeds exactly when the current task's record holds the key, removes just that key, and otherwise changes nothing |
| TaskLocals.TaskLocal.SetInstance | lib/concurrence/local.py:77-80 | `TaskInstance.set` makes the instance the current task's record and answers the same object |
| TaskLocals.TaskLocal.Unset | lib/concurrence/local.py:73-75 | `unset` drops the current task's record and raises KeyError exactly when it has none |
| TaskLocals.ReadOwnWrite | lib/concurrence/local.py:43-51 | after a task sets an attribute, its own lookups find that value, recursive or not |
| TaskLocals.OtherTasksUnchanged | lib/concurrence/local.py:47-51 | setting a record for one task leaves every lookup along a chain without that task as it was |
| TaskLocals.DeleteFallsBack | lib/concurrence/local.py:53-60 | after a delete the current task no longer holds the attribute, and a recursive lookup falls back to the parent chain |
| Application.SetAttribute | lib/concurrence/application.py:8-22 | `set_attribute` fails, with AttributeError, only for a dotted key; a success adds or replaces the attribute the key's head names and keeps every other attribute |
| Application.Resolve | lib/concurrence/application.py:11-18 | a key names something only when its head is an attribute, and a Context when it is dotted; an undotted key names something exactly when it is an attribute |
| Application.SetThenResolve | lib/concurrence/application.py:8-22 | after a successful `set_attribute`, the dotted key names the value set |
| Application.SetShape | lib/concurrence/application.py:11-22 | a set changes only the attribute the key's head names |
| Application.OtherHead | lib/concurrence/application.py:13-22 | changing one attribute leaves what keys with another head name |
| Application.SiblingsKept | lib/concurrence/application.py:8-22 | a set leaves every key that parts ways with its key naming what it named, so setting `a.b` then `a.c` keeps `a.b` |
| Application.SameHeadKept | lib/concurrence/application.py:16-18 | keys that part ways below a shared existing head both go through the same attribute, which keeps the other key |
| Application.EmptyResolves | lib/concurrence/application.py:20-24 | a fresh Context names nothing |
| Application.SetFails | lib/concurrence/application.py:16-18 | the set fails exactly when some head on the way is a plain value, which takes no attributes |
| Application.FreshNeverBlocked | lib/concurrence/application.py:19-22 | a set into a fresh Context always succeeds, creating the missing Contexts |
| Application.BelowTransitive | lib/concurrence/application.py:43 | the string order `sorted` uses is transitive |
| Application.BelowTotal | lib/concurrence/application.py:43 | of two different keys, one sorts before the other |
| Application.BelowIrreflexive | lib/concurrence/application.py:43 | no key sorts before itself |
| Application.LeastExists | lib/concurrence/application.py:43 | a non-empty set of keys has a first key in sorted order |
| Application.SortedKeys | lib/concurrence/application.py:43 | `sorted(keys)` lists every key exactly once in strictly increasing order |
| Application.ApplyAllLast | lib/concurrence/application.py:43-45 | when every set succeeds, the last key in sorted order names its resource unless an earlier key shares its path |
| Application.PrefixInjective | lib/concurrence/application.py:38 | different parameter keys under one prefix become different resource names |
| Application.Container.constructor | lib/concurrence/application.py:27-28 | a new container has no resources |
| Application.Container.Add | lib/concurrence/application.py:30-31 | `add` registers the resource under its key, replacing any earlier one |
| Application.Container.Configure | lib/concurrence/application.py:33-38 | `configure` registers each parameter as `prefix.key`, changes nothing for None or no parameters, and keeps every other resource |
| Application.Container.Finalize | lib/concurrence/application.py:40-45 | `finalize` sets `container` on the context, then every resource in strictly increasing key order, each key once; the first failing set ends it with its error, and the context keeps every set made before it |
| Application.ApplyAllStops | lib/concurrence/application.py:43-45 | a failing run of sets stopped at the first set that failed: the context it leaves is what the earlier sets made, and that set fails on it with the error reported |
| Middleware.Message | lib/concurrence/wsgi/middleware.py:29-31 | a simple message is a 200 text/html response carrying the message and no extra headers |
| Middleware.Call | lib/concurrence/wsgi/middleware.py:18-25 | a simple response fails with KeyError exactly for a code without a reason text; otherwise it sends Content-type first, then its own headers, and its body or the reason text as the only chunk |
| Middleware.ReasonIsPhrase | lib/concurrence/wsgi/middleware.py:19-20 | every code with a reason text has three digits and its reason is a non-empty phrase starting with a non-blank |
| Middleware.StatusReadBack | lib/concurrence/wsgi/middleware.py:20-21 | the status line the server writes for a simple response reads back as its code and its reason |
| Middleware.NotFoundResponse | lib/concurrence/wsgi/middleware.py:27 | the not-found response is `404 Not Found`, text/html, with the reason as its body |
| Middleware.MessageResponse | lib/concurrence/wsgi/middleware.py:29-31 | a message is sent as `200 OK` with the message as the only body chunk |
| Middleware.Drop | lib/concurrence/wsgi/middleware.py:61 | Python's `s[n:]` is the suffix from `n`, or empty when `n` is past the end |
| Middleware.LoadFile | lib/concurrence/wsgi/middleware.py:53-63 | a loaded file is stored under its path with the root's length cut off, with its content, its guessed content type and its length, and every other entry is kept as it was |
| Middleware.StaticCallAsWritten | lib/concurrence/wsgi/middleware.py:65-73 | as written, a request without PATH_INFO raises KeyError and an unknown path gets the not-found response |
| Middleware.StaticCall | lib/concurrence/wsgi/middleware.py:65-73 | corrected, the same error and not-found cases, with Content-Type carrying the type and Content-Length the length |
| Middleware.StaticHeadersSwapped | lib/concurrence/wsgi/middleware.py:63-68 | as written, a served file's Content-Type header holds its length and its Content-Length header its type, unlike the corrected response |
| Middleware.LoadThenServe | lib/concurrence/wsgi/middleware.py:53-73 | a file loaded from `root + rel` and requested as `prefix + rel` is sent as 200 with its content, its type and its length |
| Middleware.Route | lib/concurrence/wsgi/middleware.py:86-88 | a route is found exactly when some mapped path is a prefix of the request path, and it is the application of the first such mapping |
| Middleware.ShiftedMatches | lib/concurrence/wsgi/middleware.py:86-87 | when the first mapping does not match, the matches of the rest are those of the whole mapping |
| Middleware.Dispatch | lib/concurrence/wsgi/middleware.py:84-89 | the router raises KeyError exactly without PATH_INFO, forwards to the first matching application, and sends the not-found response otherwise |
| Middleware.MapAppends | lib/concurrence/wsgi/middleware.py:81-82 | a later `map` never takes a path from an earlier mapping, and a path nothing matched goes to the new application when its path is a prefix |
| Middleware.SimpleRouter.constructor | lib/concurrence/wsgi/middleware.py:77-79 | a new router has no mappings |
| Middleware.SimpleRouter.Map | lib/concurrence/wsgi/middleware.py:81-82 | `map` appends the mapping after the earlier ones |
| Middleware.SimpleRouter.Handle | lib/concurrence/wsgi/middleware.py:84-89 | a request that no mapping matches gets the not-found response |
| WebApplication.RoutesIn | lib/concurrence/web/application.py:31-36 | a stack of decorators yields at most one path per decorator |
| WebApplication.FiltersIn | lib/concurrence/web/application.py:39-44 | a stack of decorators yields at most one filter per decorator |
| WebApplication.Reversed | lib/concurrence/web/application.py:34 | the reversed list holds the same items back to front |
| WebApplication.Web.constructor | lib/concurrence/web/application.py:20-22 | a new `web` record has no paths and no filters |
| WebApplication.Web.Route | lib/concurrence/web/application.py:31-36 | `web.route(path)` appends the path and leaves the filters |
| WebApplication.Web.Filter | lib/concurrence/web/application.py:39-44 | `web.filter(f)` puts the filter at the front and leaves the paths |
| WebApplication.Decorate | lib/concurrence/web/application.py:24-44 | decorators applied bottom up leave the filters in written order, top first, and the paths bottom first |
| WebApplication.DecoratorStep | lib/concurrence/web/application.py:34-42 | one decorator adds its filter at the front or its path at the end, after those below it |
| WebApplication.PassOnChain | lib/concurrence/web/application.py:46-48 | a chain of filters that hand the call on gives the action's own result |
| WebApplication.Chain | lib/concurrence/web/application.py:157-167 | link i of the chain calls filter i with link i+1 as `next`; when every filter hands the call on, the chain behaves as the controller action for every argument |
| WebApplication.WrapValue | examples/web.py:19-25 | a wrapper filter puts its tag around the text the chain returns and lets an exception through |
| WebApplication.WrapAll | examples/web.py:55-56 | one wrapper filter per tag |
| WebApplication.WrapChain | lib/concurrence/web/application.py:157-169 | wrapper filters nest in list order, the first filter's tag outermost, as in `<h1><strong>...</strong></h1>` |
| WebApplication.Concat | test/testweb.py:16 | `result += v` on two strings is their concatenation |
| WebApplication.RepeatText | test/testweb.py:14-17 | a text repeated `n` times is `n` times as long |
| WebApplication.RepeatStr | test/testweb.py:14-17 | `n` rounds of `result += next()` append the text `n` times |
| WebApplication.RepeatTextCons | test/testweb.py:15-16 | a text repeated `n > 0` times is the text followed by `n - 1` repeats |
| WebApplication.CallManyChain | test/testweb.py:101-107 | an action returning `s` behind a `CallManyFilter(n)` answers `s * n` |
| WebApplication.Dispatch | lib/concurrence/web/application.py:171-180 | a str, unicode or None result fills the default response's body, a response object replaces it, and any other result raises AssertionError; an exception propagates |
| WebApplication.PathRoutes | lib/concurrence/web/application.py:113-114 | each path of an action becomes one route to the controller and action, in order |
| WebApplication.Extend | lib/concurrence/web/application.py:87-93 | adding filters for a key appends them to its list, starting an empty list on first use, and leaves every other key's filters |
| WebApplication.ExtendOne | lib/concurrence/web/application.py:91-93 | adding one more filter extends the list by that filter |
| WebApplication.ControllerFiltersFirst | lib/concurrence/web/application.py:115-120 | an action's filters become its earlier ones, then the controller-level filters, then its own |
| WebApplication.UnlistedKept | lib/concurrence/web/application.py:109-120 | a key that is not an action of the controller keeps its filters |
| WebApplication.ActionStep | lib/concurrence/web/application.py:109-120 | handling one action moves its routes and filters from the work left into the state |
| WebApplication.ChainsAfter | lib/concurrence/web/application.py:154-167 | a request only adds chains to the cache and keeps every chain cached before |
| WebApplication.Respond | lib/concurrence/web/application.py:132-136 | a request without PATH_INFO raises KeyError, and one the mapper does not match gets the not-found response |
| WebApplication.CachedChainKept | lib/concurrence/web/application.py:154-169 | once a chain is cached, filters registered later change neither the cache nor the reply |
| WebApplication.Application.constructor | lib/concurrence/web/application.py:68-74 | a new application has no controllers, routes, filters or chains |
| WebApplication.Application.AddFilter | lib/concurrence/web/application.py:87-93 | `_add_filter` appends the filter to the (controller, action) list and changes nothing else |
| WebApplication.Application.Connect | lib/concurrence/web/application.py:84-114 | `_add_route` for each path appends one route per path, in order |
| WebApplication.Application.AddFilters | lib/concurrence/web/application.py:116-120 | `_add_filter` for each filter of a list extends the key's list by the whole list |
| WebApplication.Application.AddController | lib/concurrence/web/application.py:95-121 | `add_controller` registers the controller as `module.class`, connects each action's paths and adds the controller's filters then the action's own, leaving the chain cache |
| WebApplication.Application.Call | lib/concurrence/web/application.py:132-182 | `__call__` caches the chain on the first request for an action, runs the cached chain and answers what its result dispatches to |
| WebApplication.LateFilterIgnored | lib/concurrence/web/application.py:154-169 | a filter added after the first request for an action is not applied: both requests answer `blaat` |
| Sasl.Hexlify | lib/concurrence/xmpp/sasl.py:17-18 | the hex text of a byte string has two hex digits per byte |
| Sasl.Unhexlify | lib/concurrence/xmpp/sasl.py:20-21 | unhexlifying gives one byte per two hex digits, and fails on an odd length or a non-hex digit |
| Sasl.HexRoundTrip | lib/concurrence/xmpp/sasl.py:17-21 | `UNHEX(HEX(s)) == s` for every byte string |
| Sasl.ReplaceAbsent | lib/concurrence/xmpp/sasl.py:32 | replacing a char the text does not hold leaves the text as it is |
| Sasl.ReplaceConcat | lib/concurrence/xmpp/sasl.py:32 | replacing a char in a concatenation replaces it in each part |
| Sasl.Unquote | lib/concurrence/xmpp/sasl.py:31 | unquoting never lengthens a value |
| Sasl.PieceOf | lib/concurrence/xmpp/sasl.py:27-32 | a piece without '=' is skipped, and a key that is read has every '-' made '_' |
| Sasl.PieceAt | lib/concurrence/xmpp/sasl.py:27-33 | a piece is cut at its first '=': the stripped key with '-' made '_', and the stripped value, unquoted; an empty value raises IndexError |
| Sasl.Fields | lib/concurrence/xmpp/sasl.py:25-33 | entering pieces can fail only with IndexError |
| Sasl.ParseChallenge | lib/concurrence/xmpp/sasl.py:25-33 | the parsing loop over the decoded challenge gives the dictionary its ','-separated pieces describe |
| Sasl.EnterPiece | lib/concurrence/xmpp/sasl.py:27-33 | one turn of the loop skips a piece without '=', fails on an empty value, or sets the key to the value |
| Sasl.LaterOverrides | lib/concurrence/xmpp/sasl.py:33 | a later piece is entered on top of what the earlier pieces give, overriding the same key |
| Sasl.FieldTexts | lib/concurrence/xmpp/sasl.py:46 | each field of the response is written as its own text, in order |
| Sasl.StripKeeps | lib/concurrence/xmpp/sasl.py:29-30 | stripping a text that starts and ends with a non-blank leaves it as it is |
| Sasl.KeyPart | lib/concurrence/xmpp/sasl.py:27-30 | the first '=' of `key=rest` ends the key when the key has none |
| Sasl.ValuePart | lib/concurrence/xmpp/sasl.py:30-31 | the value text of a readable field strips and unquotes to its value |
| Sasl.FieldReadBack | lib/concurrence/xmpp/sasl.py:27-33 | a readable field is read back as its key with '-' made '_' and its value |
| Sasl.FieldTextFree | lib/concurrence/xmpp/sasl.py:26 | a readable field's text holds no ',' |
| Sasl.FieldsRoundTrip | lib/concurrence/xmpp/sasl.py:25-33 | readable field texts parse back into the dictionary the fields describe |
| Sasl.ChallengeRoundTrip | lib/concurrence/xmpp/sasl.py:25-33 | a challenge made of readable fields joined by ',' parses into the dictionary they describe |
| Sasl.LastFieldWins | lib/concurrence/xmpp/sasl.py:33 | a key's value in the dictionary is that of the last field with the key |
| Sasl.EnteredKeeps | lib/concurrence/xmpp/sasl.py:33 | a key no field carries keeps its entry |
| Sasl.ResponseFields | lib/concurrence/xmpp/sasl.py:46-47 | the response has nine fields in a fixed order: username, realm, nonce, cnonce, nc, qop, digest-uri, response and charset, with the quoted ones quoted |
| Sasl.CNonce | lib/concurrence/xmpp/sasl.py:37 | the client nonce is non-empty lower-case hex text |
| Sasl.DigestOfRawHash | lib/concurrence/xmpp/sasl.py:40-44 | the detour through hex text gives A1 the raw MD5 of `user:realm:password`, as RFC 2831 prescribes |
| Sasl.Digest | lib/concurrence/xmpp/sasl.py:40-44 | the digest is always computed (the hex text of an MD5 digest always unhexlifies) and is lower-case hex text |
| Sasl.NoLineBreaks | lib/concurrence/xmpp/sasl.py:49 | joining the split lines removes every line break and keeps a text without any |
| Sasl.Response | lib/concurrence/xmpp/sasl.py:23-49 | `response` answers what the parsed challenge gives |
| Sasl.ResponseOf | lib/concurrence/xmpp/sasl.py:36-49 | a challenge without a nonce raises KeyError, a parse error propagates, and the answer holds no line break |
| Sasl.ResponseSucceeds | lib/concurrence/xmpp/sasl.py:36-49 | with a nonce in the challenge, `response` never fails, because the hex text of an MD5 digest always unhexlifies |
| Sasl.ResponseReadBack | lib/concurrence/xmpp/sasl.py:46-47 | the response text, parsed as a challenge is, gives nc, qop, digest_uri and the response digest |
| Sasl.ResponseParsed | lib/concurrence/xmpp/sasl.py:46-47 | the response text parses into the dictionary its nine fields describe |
| Sasl.ResponseReadable | lib/concurrence/xmpp/sasl.py:46-47 | every field of the response is one the parser reads back |
| Sasl.DigestUriKey | lib/concurrence/xmpp/sasl.py:32-46 | `digest-uri` is read back as `digest_uri` |
| Stackless.Deliver | lib/concurrence/_stackless.py:194-197 | a receiver raises the exception of a bomb it takes and gets any other data as it is |
| Stackless.Tasklet.constructor | lib/concurrence/_stackless.py:66-71 | a new tasklet has the given function (or none) and liveness, is not blocked and holds no data |
| Stackless.Tasklet.Bind | lib/concurrence/_stackless.py:73-76 | `bind` raises TypeError exactly for something not callable; otherwise the tasklet gets its function, also after a finished run deleted it; nothing else changes |
| Stackless.Channel.constructor | lib/concurrence/_stackless.py:44-46 | a new channel has balance 0 and an empty queue |
| Stackless.RotateLeft | lib/concurrence/_stackless.py:135 | `rotate(-1)` keeps the queue's length and its tasks |
| Stackless.RotateRight | lib/concurrence/_stackless.py:220 | `rotate(1)` keeps the queue's length and its tasks |
| Stackless.RotateInverse | lib/concurrence/_stackless.py:218-220 | the two rotations undo each other |
| Stackless.Rotations | lib/concurrence/_stackless.py:133-137 | turns of `schedule` keep the queue's length |
| Stackless.RoundRobin | lib/concurrence/_stackless.py:133-137 | after `k` turns the queue starts at its `k`-th task, the ones before it moved to the back in their order |
| Stackless.RotatedSlices | lib/concurrence/_stackless.py:135 | cutting the once-rotated queue at `k - 1` is cutting the queue at `k` |
| Stackless.EveryTaskRuns | lib/concurrence/_stackless.py:133-137 | in `n` turns of a queue of `n` tasks every task runs once, and then the queue is as it was |
| Stackless.InsertBehindHead | lib/concurrence/_stackless.py:218-220 | `rotate(-1); appendleft(x); rotate(1)` puts `x` right behind the current task |
| Stackless.RotateDistinct | lib/concurrence/_stackless.py:128-129 | a rotation keeps every task in the queue once |
| Stackless.DistinctCons | lib/concurrence/_stackless.py:152 | putting a task that is not queued in front keeps every task in the queue once |
| Stackless.Scheduler.constructor | lib/concurrence/_stackless.py:126-131 | the scheduler starts with the main task, alive, as the only runnable one |
| Stackless.Scheduler.RunCount | lib/concurrence/_stackless.py:246-248 | `runcount` is the number of runnable tasks |
| Stackless.Scheduler.Current | lib/concurrence/_stackless.py:250-252 | `current` is the head of the run queue, and IndexError once it is empty |
| Stackless.Scheduler.Schedule | lib/concurrence/_stackless.py:133-137 | `schedule` moves the current task to the back and runs the next one, and raises IndexError on an empty queue |
| Stackless.Scheduler.ScheduleBlock | lib/concurrence/_stackless.py:139-143 | `schedule_block` takes the current task out and runs the next one, and raises IndexError when none is left |
| Stackless.Scheduler.Append | lib/concurrence/_stackless.py:242-244 | `append` adds a task at the back exactly when it is not runnable, and AssertionError otherwise, so tasks stay distinct |
| Stackless.Scheduler.Remove | lib/concurrence/_stackless.py:237-240 | `remove` succeeds exactly for a blocked or runnable task and takes it out of the run queue |
| Stackless.Scheduler.Throw | lib/concurrence/_stackless.py:145-157 | `throw` ignores a dead task, raises AssertionError for one neither blocked nor runnable, and otherwise puts the task at the head, out of its old place, and runs it |
| Stackless.Scheduler.Receive | lib/concurrence/_stackless.py:160-197 | as written, `_receive` takes the first queued task as a sender whenever the queue is not empty, and queues the receiver otherwise; it keeps the balance only when the balance was not negative |
| Stackless.Scheduler.ReceiveByBalance | lib/concurrence/_stackless.py:160-197 | corrected, `_receive` takes a sender exactly when the balance is positive and queues the receiver otherwise, always keeping the queue's length equal to the balance's size |
| Stackless.Scheduler.TakeSender | lib/concurrence/_stackless.py:173-178 | with a queued sender the receiver takes its data, unblocks it, appends it to the run queue and goes on without a switch |
| Stackless.Scheduler.QueueReceiver | lib/concurrence/_stackless.py:179-190 | without a sender the receiver blocks on the channel and the next task runs; with no other task the step is undone and IndexError raised |
| Stackless.Scheduler.ReceiveResumed | lib/concurrence/_stackless.py:192-197 | a woken receiver takes the data its sender left and clears it |
| Stackless.Scheduler.ReceiveInterrupted | lib/concurrence/_stackless.py:186-190 | an exception thrown into a blocked receiver takes it out of the queue, restores the balance, unblocks it and propagates |
| Stackless.Scheduler.Send | lib/concurrence/_stackless.py:199-235 | as written, `_send` takes the first queued task as a receiver whenever the queue is not empty, and queues the sender otherwise; it keeps the balance only when the balance was not positive |
| Stackless.Scheduler.SendByBalance | lib/concurrence/_stackless.py:199-235 | corrected, `_send` takes a receiver exactly when the balance is negative and queues the sender otherwise, always keeping the queue's length equal to the balance's size |
| Stackless.Scheduler.TakeReceiver | lib/concurrence/_stackless.py:213-221 | with a queued receiver the sender hands it the data, unblocks it and runs it, the sender going to the back |
| Stackless.Scheduler.WakeReceiver | lib/concurrence/_stackless.py:218-221 | the rotations put the receiver right behind the sender, and `schedule` runs it with the sender at the back |
| Stackless.Scheduler.QueueSender | lib/concurrence/_stackless.py:222-235 | without a receiver the sender blocks on the channel with its data and the next task runs; with no other task the step is undone and IndexError raised |
| Stackless.Scheduler.SendInterrupted | lib/concurrence/_stackless.py:230-235 | an exception thrown into a blocked sender takes it out of the queue, restores the balance, clears its data, unblocks it and propagates |
| Stackless.Scheduler.Start | lib/concurrence/_stackless.py:78-107 | starting a tasklet whose function is None raises TypeError, and one whose function a finished run deleted raises AttributeError; either changes nothing; otherwise it becomes alive and joins the end of the run queue, or AssertionError is raised when it is runnable already |
| Stackless.Scheduler.Finish | lib/concurrence/_stackless.py:93-102 | with an empty run queue `current` raises IndexError; a finishing task that is not the current one raises AssertionError; otherwise it leaves the run queue, is no longer alive, its `func` attribute is deleted and its data cleared, and the new head of the queue, if any, runs next |
| Stackless.DistinctAppend | lib/concurrence/_stackless.py:243-244 | appending a task that is not runnable keeps the tasks distinct |
| Stackless.SenderJoins | lib/concurrence/_stackless.py:175-177 | a sender taken from the channel and appended to the run queue keeps the run queue and the channel's queue apart |
| Stackless.CurrentLeaves | lib/concurrence/_stackless.py:180-185 | a blocking current task leaves the run queue for the channel's, keeping the two apart |
| Stackless.RemoveAppended | lib/concurrence/_stackless.py:181-187 | taking back the task just appended restores the queue |
| Stackless.ReceiverJoins | lib/concurrence/_stackless.py:215-221 | a receiver taken from the channel and run ahead of the sender keeps the two queues apart |
| Stackless.MixedReceivers | lib/concurrence/_stackless.py:173-178 | as written, a second receiver on a channel takes the first for a sender: the first wakes with None, and the channel is left with an empty queue and balance -2 |
| Stackless.MixedReceiversByBalance | lib/concurrence/_stackless.py:160-197 | corrected, both receivers wait in the queue and the balance counts them |
| Stackless.MixedSenders | lib/concurrence/_stackless.py:213-221 | as written, a second sender takes the first for a receiver and overwrites its data, leaving an empty queue and balance 2 |
| Stackless.MixedSendersByBalance | lib/concurrence/_stackless.py:199-235 | corrected, both senders wait in the queue with their own data and the balance counts them |
| Stackless.RestartFinished | lib/concurrence/_stackless.py:78-101 | a task started, scheduled and finished raises AttributeError when started again, and starts once bound again |

## Left out

**Plumbing, replaced by parameters or not modelled**
- lib/concurrence/io/io_base.c is not part of this model. It passes file descriptors with `sendmsg`/`recvmsg`, which is system-call glue.
- Sockets, the libevent loop, tasklet switching and channel timeouts (core.py, io/socket.py) are not modelled. Streams are modelled by what they deliver: a queue of input chunks, and the bytes an output accepted.
- The blocking parts are modelled only up to the point where they would block:
  - the `HTTPHandler.handle` message loop: only its keep-alive rule is modelled;
  - the memcached reader and writer tasklets: one turn of each is `ReadResponse` or `WriteCommand`;
  - the pool waiting for an idle connection: `Blocked` is returned;
  - a greenlet switch: an operation reports the task that runs next.
- Foreign computations are parameters:
  - SHA1 in the MySQL scramble;
  - MD5, base64 and `random.getrandbits` in SASL;
  - pickle in memcached;
  - `urlparse` and the RFC 822 date in the HTTP server;
  - the routes Mapper and the WebOb request and response;
  - the connector of the database pool;
  - `time.time()`, passed in as `now`.
- mimetypes and the filesystem walk of `WSGISimpleStatic._load` are not modelled. `LoadFile` is given the content and the guessed type of each file.
- The packets a MySQL server sends are given as text. The `PacketReader` of the C extension is not part of this model.
- The weak references of TaskLocal are not modelled: a task's record lives until it is unset.
- `Statistic.update`'s rate, `gamma_filter` and the smoothed average of `StatisticExtra` are floating point and not modelled. `__str__` and `__json__` are not modelled either.

**Assumptions and omissions**
- The `Buffer` C extension is not part of this model. Its behaviour is taken from test/testbuffer.py. `write_short` is taken to be little-endian like `write_int`, which the tests do not pin down.
- Unicode text is not modelled. A Python 2 `str` is a string of chars below 256, and no character set encoding is applied: not to `unicode_body` in the web framework, nor to unicode arguments of `Cursor.execute`, which have no argument case in the model.
- `Container._find_members`, `statistics` and `start` in application.py are not modelled. They find methods by reflection and regular expressions.
- Also not modelled:
  - in web/application.py, `configure`, `render`, `serve` and `set_template_lookup`, which are Mapper, template and server glue;
  - in _stackless.py, `channel.send_sequence` and `send_exception`, and `tasklet.kill` and `raise_exception`. The last two are `throw`, and the others are loops of sends or bombs sent.
- Stackless.Scheduler.Finish: `del self.data` is modelled as the data being set to None, and `del self.greenlet` is not modelled. In the source, reading the data of a restarted task before anything writes it raises AttributeError; the model gives None. That read happens only in the `_receive` as written, when a second receiver takes a queued receiver for a sender.
- Memcache.MemcacheNode.Connect: the stream is a parameter, as is whether the socket connects.
- Memcache.MemcacheNode.Close: the model closes as `close()` with its defaults does. The `kill_reader` and `kill_writer` flags, with which a failing task closes the node without killing itself, are not modelled.
- Timers: timeouts and clock readings in timer.py are Python floats. They are modelled as `real`, so float rounding is not modelled.
- WebApplication.WrapValue: an action result that is not a str, a unicode, None or a raised error is mapped to `Other`. The `str()` text Python would put between the tags is not modelled.
- WebApplication: a controller's actions are given as a list. They are not required to come in the name order that `inspect.getmembers` returns (web/application.py:109).
- Application.Container.Finalize: the resources are set in sorted name order, which `inspect.getmembers` also yields. The method lookup that follows (application.py:50) is not modelled.
- Reque.ReorderQueue.Finish: the released pairs are returned as a list. The source returns a generator, which the server iterates to its end, so the model takes it as consumed in full.

**Preconditions narrower than what the source accepts, or contracts stated weaker**
- DequeDicts.DequeDict.Append: requires a fresh key (the same for `AppendLeft`, the constructor, `Extend` and `SetState`). Appending a key already present would leave its old node linked while the map points at the new one (dequedict.py:36), so list and map disagree. The model does not represent that state.
- DatabasePool.Pool.Disconnect: requires that the connection is not already idle and, when linked to the pool, is one of its connections. The source would queue an idle connection twice. The link invariant between connection objects and the pool's set is not stated globally.
- DatabasePool.Pool.RetireAll: the age reaper's closes are taken to succeed.
- Buffered.BufferedWriter.WriteShort: requires a buffer capacity of at least 2. With less, the source would flush and retry forever.
- MysqlPacket.PacketWriter.WriteHeader: requires a payload below 2^24 bytes and a sequence number below 256 (the same for `Header`, `Finish` and `MysqlClient.Connection.SendCommand`). The source does not check; a larger payload would run into the sequence byte.
- MysqlPacket.PacketWriter.WriteOk: requires status and warnings below 65536. How the buffer would truncate a larger short is not known.
- MysqlPacket.PacketWriter.WriteGreeting: requires the greeting's fields to fit their byte widths.
- IOBuffer.Buffer.ReadBytes: requires a length of at least -1, where -1 means all remaining bytes.
- Statistics.StatisticExtra.Timed: the duration is the difference of two integer clock readings.
- Reque.ReorderQueue.Start: requires that the request is not already pending. The server starts every request object once. The source does not check. If a request were started twice, its first `finish` would release one copy and delete its entry from the finished map. The second copy would then stay unfinished at the head and hold back every later response until `finish` was called for that request again.
- MysqlClient.CommandAnswer: a TimeoutError while the reply is read is not one of its answers. So a SET AUTOCOMMIT that times out during `connect`, which the source answers with STATE_INIT, is not modelled.
- Buffered.OutStream: `open` changes only when the model closes the stream. A peer that closes the connection during a flush is not modelled.

## Findings

| source | as written | input that shows it | evidently intended | confidence | as-written member | corrected member |
|---|---|---|---|---|---|---|
| lib/concurrence/http/__init__.py:47-50 | `status_reason` returns only the third blank-separated word of the status line | `HTTP/1.1 404 Not Found` gives `Not` | the whole reason phrase after the code, `Not Found` | not executed | Http.StatusReasonCut | Http.ReasonPhraseParts |
| lib/concurrence/http/server.py:148-154 | each chunk is written as `"%x;\r\n"`, data and `"\r\n"`, with no test for an empty chunk | an application returning `["", "abc"]` sends `0;\r\n\r\n` first, so the client ends the body there and leaves `abc` unread | empty chunks skipped, since PEP 333 allows an application to yield empty strings | not executed | HttpClient.EmptyChunkEndsBody | HttpClient.ChunkedBodyRoundTrip |
| lib/concurrence/database/mysql/dbapi.py:111-121 | each argument replaces the first `%s` of the query text as rewritten so far | `"%s,%s"` with `("%s", 1)` gives `'1',%s` | each argument fills the next placeholder of the original query: `'%s',1` | not executed | DbApi.RescanCounterexample | DbApi.SubstPlaces |
| lib/concurrence/database/mysql/__init__.py:107-118 | `write_greeting` writes the rest of the scramble with no terminating NUL, while `_handshake` reads it up to a NUL | any greeting whose scramble has no NUL after its eighth byte, as a random scramble of non-zero bytes does | a NUL after the scramble, as the MySQL handshake packet has | not executed | MysqlClient.GreetingUnreadable | MysqlClient.GreetingRoundTrip |
| lib/concurrence/memcache/client.py:133-136 | `close` passes the undefined name `e` to every waiter, raising NameError | closing a node with one get queued leaves its caller unanswered and the node connected without its reader and writer tasks | every waiter warned with the exception `close` was given, and the queues and stream dropped | not executed | Memcache.MemcacheNode.CloseAsWritten | Memcache.MemcacheNode.Close |
| lib/concurrence/wsgi/middleware.py:63-70 | entries stored as (content, type, length) are unpacked as (content, length, type) | a file `a.html` of 5 bytes is served with `Content-Type: 5` and `Content-Length: text/html` | Content-Type the type and Content-Length the length | not executed | Middleware.StaticHeadersSwapped | Middleware.LoadThenServe |
| lib/concurrence/_stackless.py:173 | `_receive` takes any queued task for a sender when the queue is not empty, without looking at the balance | two receivers on one channel: the second takes the first for a sender and both go on with None, leaving an empty queue and balance -2 | a sender taken only while the balance is positive, as in Stackless Python | not executed | Stackless.MixedReceivers | Stackless.MixedReceiversByBalance |
| lib/concurrence/_stackless.py:213 | `_send` takes any queued task for a receiver when the queue is not empty | two senders on one channel: the second overwrites the first's data, so the first value is lost, leaving an empty queue and balance 2 | a receiver taken only while the balance is negative | not executed | Stackless.MixedSenders | Stackless.MixedSendersByBalance |
