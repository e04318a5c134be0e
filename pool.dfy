/** The database connection pools of database/pool.py. A `BasePool` owns the
    set of connections it made and counts those being made; `Pool` keeps idle
    connections on a stack and closes old ones, `NullPool` makes a connection
    for every request and closes it on return. The pool writes its own
    attributes onto each connection object: the `_pool` link, the creation
    time and the close-on-return flag set by the age reaper. */
module DatabasePool {
  import opened Common

  /** What the connector's `connect` raises. */
  datatype ConnectError = TimeoutError | TaskletExit | OtherError

  /** The outcome of asking the connector for a new connection. */
  datatype Connector = Connects | Raises(error: ConnectError)

  /** The exceptions a pool operation raises. */
  datatype PoolFault =
    | AssertionFailed(message: string)
    | KeyError          // `set.remove` of a connection not in the set
    | CloseError        // the connection's own `close` raised
    | ConnectFailed(error: ConnectError)

  const NOT_POOLED := "this connection did not come from a pool"
  const OTHER_POOL := "this connection did not come from this pool"

  /** A database connection as the pool sees it. */
  class Connection {
    /** `_pool`; null when the attribute is absent. */
    var pool: BasePool?
    /** `_created_time`. */
    var created: int
    /** `__close__`, set by the age reaper on a busy connection. */
    var closeFlag: bool
    /** Whether the connection is still open (`is_connected`). */
    var open: bool
    /** The identity of the socket's readable event. */
    const readable: nat

    constructor (readable: nat)
      ensures pool == null && created == 0 && !closeFlag && open && this.readable == readable
    {
      pool := null;
      created := 0;
      closeFlag := false;
      open := true;
      this.readable := readable;
    }
  }

  /** The elements of `s` that are not in `drop`, in their order. */
  function Keep<T(==)>(s: seq<T>, drop: set<T>): (r: seq<T>)
    ensures forall x | x in r :: x in s && x !in drop
    ensures forall x | x in s && x !in drop :: x in r
  {
    if s == [] then []
    else (if s[0] in drop then [] else [s[0]]) + Keep(s[1..], drop)
  }


  lemma {:induction false} KeepDistinct<T>(s: seq<T>, drop: set<T>)
    requires Distinct(s)
    ensures Distinct(Keep(s, drop))
    decreases |s|
  {
    if s != [] {
      DistinctTail(s);
      KeepDistinct(s[1..], drop);
      var k := Keep(s[1..], drop);
      if s[0] !in drop {
        forall i, j | 0 <= i < j < |[s[0]] + k| ensures ([s[0]] + k)[i] != ([s[0]] + k)[j] {
          if i == 0 { assert ([s[0]] + k)[j] == k[j - 1] && k[j - 1] in k; }
          else { assert ([s[0]] + k)[i] == k[i - 1] && ([s[0]] + k)[j] == k[j - 1]; }
        }
      }
    }
  }

  /** Dropping elements that are absent changes nothing. */
  lemma {:induction false} KeepAbsent<T>(s: seq<T>, drop: set<T>, x: T)
    requires x !in s
    ensures Keep(s, drop + {x}) == Keep(s, drop)
    decreases |s|
  {
    if s != [] {
      KeepAbsent(s[1..], drop, x);
    }
  }

  /** Removing one more element from a kept sequence keeps one element fewer. */
  lemma {:induction false} RemoveKept<T>(s: seq<T>, drop: set<T>, x: T)
    requires Distinct(s) && x !in drop
    ensures RemoveFirst(Keep(s, drop), x) == Keep(s, drop + {x})
    decreases |s|
  {
    if s != [] {
      DistinctTail(s);
      var k := Keep(s[1..], drop);
      if s[0] in drop {
        RemoveKept(s[1..], drop, x);
        assert Keep(s, drop) == k;
      } else if s[0] == x {
        KeepAbsent(s[1..], drop, x);
        assert Keep(s, drop) == [x] + k;
      } else {
        RemoveKept(s[1..], drop, x);
        assert Keep(s, drop) == [s[0]] + k;
      }
    }
  }

  /** Nothing dropped keeps everything. */
  lemma {:induction false} KeepNone<T>(s: seq<T>)
    ensures Keep(s, {}) == s
    decreases |s|
  {
    if s != [] {
      KeepNone(s[1..]);
      assert s == [s[0]] + s[1..];
    }
  }

  /** The index of the last element of `s` whose readable event is `r`. */
  function LastReadable(s: seq<Connection>, r: nat): (k: Option<nat>)
    ensures k.None? ==> forall j | 0 <= j < |s| :: s[j].readable != r
    ensures k.Some? ==> k.value < |s| && s[k.value].readable == r
    ensures k.Some? ==> forall j | k.value < j < |s| :: s[j].readable != r
    decreases |s|
  {
    if s == [] then None
    else if s[|s| - 1].readable == r then Some(|s| - 1)
    else LastReadable(s[..|s| - 1], r)
  }

  /** The connections older than `age` at time `now`. */
  ghost function Aged(cs: set<Connection>, now: int, age: int): set<Connection>
    reads cs
  {
    set c | c in cs && now - c.created > age
  }

  /** `_safe_dbargs`: host, port, db and user joined by ';', each '' when missing. */
  function SafeArgs(dbargs: map<string, string>): string
  {
    JoinWith(seq(4, i requires 0 <= i < 4 =>
      var k := ["host", "port", "db", "user"][i];
      if k in dbargs then dbargs[k] else ""), ';')
  }

  /** The identifying string leaves out every other argument, the password
      among them: changing one of those never changes it. */
  lemma SafeArgsHidden(dbargs: map<string, string>, k: string, v: string)
    requires k !in ["host", "port", "db", "user"]
    ensures SafeArgs(dbargs[k := v]) == SafeArgs(dbargs)
  {
    var ks := ["host", "port", "db", "user"];
    forall i | 0 <= i < 4 ensures ks[i] != k { assert ks[i] in ks; }
    assert seq(4, i requires 0 <= i < 4 => var q := ks[i]; if q in dbargs[k := v] then dbargs[k := v][q] else "")
      == seq(4, i requires 0 <= i < 4 => var q := ks[i]; if q in dbargs then dbargs[q] else "");
  }

  /** The pool's attributes of one connection. */
  datatype Attrs = Attrs(pool: BasePool?, created: int, closeFlag: bool, open: bool)

  ghost function AttrsOf(c: Connection): Attrs
    reads c
  {
    Attrs(c.pool, c.created, c.closeFlag, c.open)
  }

  /** The elements of a sequence. */
  ghost function Members<T>(s: seq<T>): set<T>
  {
    set x | x in s
  }

  lemma MembersSnoc<T>(s: seq<T>, x: T)
    ensures Members(s + [x]) == Members(s) + {x}
  {
  }

  /** The pool's attributes of each connection in `cs`. */
  ghost function Snapshot(cs: set<Connection>): (m: map<Connection, Attrs>)
    reads cs
    ensures forall c | c in cs :: c in m && m[c] == AttrsOf(c)
  {
    map c | c in cs :: AttrsOf(c)
  }

  /** The connections in `done` are retired (closed when they were idle in
      `first`, flagged otherwise) and every other one still has the
      attributes recorded in `snap`. */
  ghost predicate RetiredAs(cs: set<Connection>, done: set<Connection>, first: seq<Connection>,
                            snap: map<Connection, Attrs>)
    reads cs
  {
    forall c | c in cs :: c in snap &&
      (c in done && c in first ==> c.pool == null && !c.open) &&
      (c in done && c !in first ==>
        c.closeFlag && c.pool == snap[c].pool && c.open == snap[c].open) &&
      (c !in done ==> AttrsOf(c) == snap[c])
  }

  /** Retiring one more connection, while every other one keeps the
      attributes `pre` recorded, extends the retired set by it. */
  lemma RetiredStep(all: set<Connection>, done: set<Connection>, first: seq<Connection>,
                    snap: map<Connection, Attrs>, c: Connection, pre: map<Connection, Attrs>)
    requires forall x | x in all :: (x in pre && x in snap &&
      (x in done && x in first ==> pre[x].pool == null && !pre[x].open) &&
      (x in done && x !in first ==> pre[x].closeFlag && pre[x].pool == snap[x].pool && pre[x].open == snap[x].open) &&
      (x !in done ==> pre[x] == snap[x]))
    requires c in all && c !in done
    requires c in first ==> c.pool == null && !c.open
    requires c !in first ==> c.closeFlag && c.pool == pre[c].pool && c.open == pre[c].open
    requires forall x | x in all && x != c :: AttrsOf(x) == pre[x]
    ensures RetiredAs(all, done + {c}, first, snap)
  {
  }

  /** What `connect` hands out: `(True, c)` for a new connection, `(False, c)`
      for an idle one; `Blocked` when it would wait for an idle connection. */
  datatype Taken =
    | Created(connection: Connection)
    | Reused(connection: Connection)
    | Blocked
    | Raised(error: ConnectError)

  /** `BasePool`: the set of connections made by this pool and the count of
      connections being made. */
  class BasePool {
    var connections: set<Connection>
    var connecting: nat
    /** The `_failed_connect` statistic. */
    var failedConnects: nat
    /** The count of the `_close_connection_timer_statistic`. */
    var closes: nat

    /** Every connection of the pool links back to it. */
    ghost predicate Valid()
      reads this, connections
    {
      forall c | c in connections :: c.pool == this
    }

    /** `connection_count`. */
    function ConnectionCount(): nat
      reads this
    {
      |connections| + connecting
    }

    constructor ()
      ensures Valid() && connections == {} && connecting == 0
      ensures failedConnects == 0 && closes == 0
    {
      connections := {};
      connecting := 0;
      failedConnects := 0;
      closes := 0;
    }

    /** `_new`: the connection counts as being made while the connector runs,
        and that count is restored whether or not the connector raises. A
        failed connect is counted only for an `Exception`: TaskletExit derives
        from SystemExit and passes the `except` clause uncounted. A new
        connection is linked to the pool, stamped with `now` and added. */
    method New(connector: Connector, readable: nat, now: int) returns (c: Connection?)
      requires Valid()
      modifies this
      ensures Valid()
      ensures connecting == old(connecting) && closes == old(closes)
      ensures connector.Connects? ==>
        c != null && fresh(c) && c.pool == this && c.created == now && c.open && !c.closeFlag &&
        connections == old(connections) + {c} && failedConnects == old(failedConnects)
      ensures connector.Raises? ==> c == null && connections == old(connections)
      ensures connector.Raises? ==>
        failedConnects == old(failedConnects) + (if connector.error == TaskletExit then 0 else 1)
    {
      connecting := connecting + 1;
      if connector.Raises? {
        if connector.error != TaskletExit {
          failedConnects := failedConnects + 1;
        }
        connecting := connecting - 1;
        return null;
      }
      var made := new Connection(readable);
      connecting := connecting - 1;
      made.pool := this;
      made.created := now;
      connections := connections + {made};
      c := made;
    }

    /** `_close`: the connection must come from this pool; it is counted,
        removed from the set and unlinked before its own `close` runs, so it
        leaves the pool even when that raises. */
    method Close(c: Connection, closeFails: bool) returns (fault: Option<PoolFault>)
      requires Valid()
      modifies this, c
      ensures Valid()
      ensures connecting == old(connecting) && failedConnects == old(failedConnects)
      ensures old(c.pool) == null ==> fault == Some(AssertionFailed(NOT_POOLED)) && unchanged(this, c)
      ensures old(c.pool) != null && old(c.pool) != this ==>
        fault == Some(AssertionFailed(OTHER_POOL)) && unchanged(this, c)
      ensures old(c.pool) == this && c !in old(connections) ==>
        fault == Some(KeyError) && closes == old(closes) + 1 && connections == old(connections) && unchanged(c)
      ensures old(c.pool) == this && c in old(connections) ==>
        closes == old(closes) + 1 && connections == old(connections) - {c} &&
        fault == (if closeFails then Some(CloseError) else None)
      ensures old(c.pool) == this && c in old(connections) ==>
        c.pool == null && c.open == (closeFails && old(c.open)) &&
        c.created == old(c.created) && c.closeFlag == old(c.closeFlag)
    {
      if c.pool == null {
        return Some(AssertionFailed(NOT_POOLED));
      }
      if c.pool != this {
        return Some(AssertionFailed(OTHER_POOL));
      }
      closes := closes + 1;
      if c !in connections {
        return Some(KeyError);
      }
      connections := connections - {c};
      c.pool := null;
      if closeFails {
        fault := Some(CloseError);
      } else {
        c.open := false;
        fault := None;
      }
    }
  }

  /** `Pool`: at most `maxConnections` connections, the idle ones on a stack. */
  class Pool {
    const base: BasePool
    /** `_pool`, the deque of idle connections. */
    var idle: seq<Connection>
    const maxConnections: int
    /** `_max_connection_age`; the age reaper runs only when it is given. */
    const maxAge: Option<int>

    /** Idle connections are distinct connections of this pool. */
    ghost predicate Valid()
      reads this, base, base.connections
    {
      base.Valid() && Distinct(idle) && forall i | 0 <= i < |idle| :: idle[i] in base.connections
    }

    constructor (maxConnections: int, maxAge: Option<int>)
      ensures Valid() && fresh(base) && idle == [] && base.connections == {} && base.connecting == 0
      ensures this.maxConnections == maxConnections && this.maxAge == maxAge
    {
      base := new BasePool();
      idle := [];
      this.maxConnections := maxConnections;
      this.maxAge := maxAge;
    }

    /** `connect`: a new connection is made only when no connection is idle
        and fewer than `maxConnections` exist or are being made. A connector
        timeout or exit is raised; any other failure falls through to waiting.
        Otherwise the most recently returned idle connection is taken. */
    method Connect(connector: Connector, readable: nat, now: int) returns (taken: Taken)
      requires Valid()
      modifies this, base
      ensures Valid()
      ensures base.connecting == old(base.connecting)
      ensures old(idle) == [] && old(base.ConnectionCount()) < maxConnections && connector.Connects? ==>
        taken.Created? && fresh(taken.connection) && taken.connection.pool == base &&
        base.connections == old(base.connections) + {taken.connection} && idle == []
      ensures old(idle) == [] && old(base.ConnectionCount()) < maxConnections && connector.Raises? ==>
        base.connections == old(base.connections) && idle == [] &&
        taken == (if connector.error == OtherError then Blocked else Raised(connector.error))
      ensures old(idle) == [] && old(base.ConnectionCount()) >= maxConnections ==>
        taken == Blocked && unchanged(this, base)
      ensures old(idle) != [] ==>
        taken == Reused(old(idle)[|old(idle)| - 1]) && idle == old(idle)[..|old(idle)| - 1] &&
        unchanged(base)
    {
      if idle == [] && base.ConnectionCount() < maxConnections {
        var c := base.New(connector, readable, now);
        if c != null {
          return Created(c);
        }
        if connector.error != OtherError {
          return Raised(connector.error);
        }
      }
      if idle == [] {
        return Blocked;
      }
      taken := Reused(idle[|idle| - 1]);
      idle := idle[..|idle| - 1];
    }

    /** The `_close` override: an idle connection also leaves the idle stack. */
    method Close(c: Connection, closeFails: bool) returns (fault: Option<PoolFault>)
      requires Valid()
      modifies this, base, c
      ensures Valid()
      ensures idle == RemoveFirst(old(idle), c)
      ensures base.connecting == old(base.connecting)
      ensures old(c.pool) != base ==>
        fault == Some(AssertionFailed(if old(c.pool) == null then NOT_POOLED else OTHER_POOL)) &&
        unchanged(base, c)
      ensures old(c.pool) == base && c in old(base.connections) ==>
        base.connections == old(base.connections) - {c} &&
        fault == (if closeFails then Some(CloseError) else None)
      ensures old(c.pool) == base && c in old(base.connections) ==>
        c.pool == null && c.open == (closeFails && old(c.open)) &&
        c.created == old(c.created) && c.closeFlag == old(c.closeFlag)
      ensures old(c.pool) == base && c !in old(base.connections) ==>
        fault == Some(KeyError) && base.connections == old(base.connections) && unchanged(c)
    {
      ghost var s := idle;
      RemoveDistinct(idle, c);
      RemoveFirstMembers(idle, c);
      idle := RemoveFirst(idle, c);
      fault := base.Close(c, closeFails);
      forall i | 0 <= i < |idle| ensures idle[i] in base.connections {
        assert idle[i] in s;
      }
    }

    /** `disconnect`: the connection must come from this pool. It is closed and
        `True` returned when asked for or when the age reaper flagged it;
        otherwise it goes back on the idle stack and `False` is returned. */
    method Disconnect(c: Connection, close: bool, closeFails: bool) returns (closed: bool, fault: Option<PoolFault>)
      requires Valid()
      requires c !in idle
      requires c.pool == base ==> c in base.connections
      modifies this, base, c
      ensures Valid()
      ensures old(c.pool) != base ==>
        fault == Some(AssertionFailed(if old(c.pool) == null then NOT_POOLED else OTHER_POOL)) &&
        unchanged(this, base, c)
      ensures old(c.pool) == base && !close && !old(c.closeFlag) ==>
        !closed && fault == None && idle == old(idle) + [c] && unchanged(base, c)
      ensures old(c.pool) == base && (close || old(c.closeFlag)) ==>
        closed && idle == old(idle) && base.connections == old(base.connections) - {c} &&
        fault == (if closeFails then Some(CloseError) else None)
      ensures old(c.pool) == base && (close || old(c.closeFlag)) ==>
        c.pool == null && c.open == (closeFails && old(c.open))
    {
      if c.pool == null {
        return false, Some(AssertionFailed(NOT_POOLED));
      }
      if c.pool != base {
        return false, Some(AssertionFailed(OTHER_POOL));
      }
      if close || c.closeFlag {
        fault := Close(c, closeFails);
        closed := true;
      } else {
        DistinctSnoc(idle, c);
        idle := idle + [c];
        closed, fault := false, None;
      }
    }

    /** `_idle_disconnect_reaper`, one round: the readable event names the
        socket the server closed; the last idle connection with that event is
        closed, and nothing happens when there is none. */
    method ReapDisconnected(readable: nat, closeFails: bool) returns (fault: Option<PoolFault>)
      requires Valid()
      modifies this, base, idle
      ensures Valid()
      ensures LastReadable(old(idle), readable).None? ==> fault == None && unchanged(this, base)
      ensures LastReadable(old(idle), readable).Some? ==>
        var k := LastReadable(old(idle), readable).value;
        var c := old(idle)[k];
        idle == RemoveFirst(old(idle), c) &&
        base.connections == old(base.connections) - {c} &&
        c.pool == null && c.open == (closeFails && old(c.open)) &&
        fault == (if closeFails then Some(CloseError) else None)
    {
      var found: Option<nat> := None;
      var i := 0;
      while i < |idle|
        invariant 0 <= i <= |idle|
        invariant found == LastReadable(idle[..i], readable)
      {
        if idle[i].readable == readable {
          found := Some(i);
        }
        assert idle[..i + 1][..i] == idle[..i];
        i := i + 1;
      }
      assert idle[..i] == idle;
      if found.None? {
        return None;
      }
      fault := Close(idle[found.value], closeFails);
    }

    /** The first loop of `_old_connection_reaper`: the connections older than
        `age`, each once. The list is made before any is closed, so the set
        being walked does not change under the loop. */
    method AgedConnections(now: int, age: int) returns (olds: seq<Connection>)
      ensures Distinct(olds)
      ensures forall c | c in olds :: c in base.connections && now - c.created > age
      ensures forall c | c in base.connections && now - c.created > age :: c in olds
    {
      var todo := base.connections;
      olds := [];
      while todo != {}
        invariant todo <= base.connections
        invariant Distinct(olds)
        invariant forall c | c in olds :: c in base.connections && now - c.created > age && c !in todo
        invariant forall c | c in base.connections && now - c.created > age && c !in todo :: c in olds
        decreases |todo|
      {
        var c :| c in todo;
        if now - c.created > age {
          DistinctSnoc(olds, c);
          olds := olds + [c];
        }
        todo := todo - {c};
      }
    }

    /** One turn of the second loop of `_old_connection_reaper`: an idle
        connection is closed now, a busy one is flagged for its next
        `disconnect`. */
    method Retire(c: Connection)
      requires Valid() && c in base.connections
      modifies this, base, c
      ensures Valid()
      ensures old(c in idle) ==>
        idle == RemoveFirst(old(idle), c) && base.connections == old(base.connections) - {c} &&
        c.pool == null && !c.open
      ensures !old(c in idle) ==>
        unchanged(this, base) && c.closeFlag && c.pool == old(c.pool) && c.open == old(c.open) &&
        c.created == old(c.created)
    {
      if c in idle {
        var _ := Close(c, false);
      } else {
        c.closeFlag := true;
      }
    }

    /** Where the second loop of the age reaper stands once the first `i`
        listed connections are retired; `first` is the idle stack and `snap`
        the attributes of every connection before the loop. */
    ghost predicate RetiredUpTo(olds: seq<Connection>, i: nat, first: seq<Connection>,
                                all: set<Connection>, snap: map<Connection, Attrs>)
      requires i <= |olds|
      reads this, base, base.connections, all
    {
      var done := Members(olds[..i]);
      Valid() && base.connections == all - (done * Members(first)) &&
      idle == Keep(first, done) && RetiredAs(all, done, first, snap)
    }

    /** The loop body of `RetireAll`, carrying its invariant one turn further. */
    method RetireNext(olds: seq<Connection>, i: nat, ghost first: seq<Connection>,
                      ghost all: set<Connection>, ghost snap: map<Connection, Attrs>)
      requires i < |olds| && Distinct(olds) && Distinct(first)
      requires forall x | x in olds :: x in all
      requires RetiredUpTo(olds, i, first, all, snap)
      modifies this, base, olds[i]
      ensures RetiredUpTo(olds, i + 1, first, all, snap)
    {
      var c := olds[i];
      ghost var done := Members(olds[..i]);
      ghost var idled := Members(first);
      assert c !in done by {
        forall j | 0 <= j < i ensures olds[j] != c { }
      }
      ghost var next := done + {c};
      assert olds[..i + 1] == olds[..i] + [c];
      MembersSnoc(olds[..i], c);
      if c in idle {
        RemoveKept(first, done, c);
      } else {
        KeepAbsent(first, done, c);
      }
      RetireSets(all, done, idled, base.connections, c);
      ghost var wasIdle := c in idle;
      assert wasIdle <==> c in first;
      ghost var pre := Snapshot(all);
      Retire(c);
      RetiredStep(all, done, first, snap, c, pre);
    }

    /** The second loop of `_old_connection_reaper`: each listed connection is
        closed when idle and flagged when busy; no other connection changes.
        (The closes are taken to succeed.) */
    method RetireAll(olds: seq<Connection>)
      requires Valid() && Distinct(olds)
      requires forall c | c in olds :: c in base.connections
      modifies this, base, base.connections
      ensures Valid()
      ensures var aged := Members(olds);
        base.connections == old(base.connections) - (aged * Members(old(idle))) &&
        idle == Keep(old(idle), aged)
      ensures RetiredAs(old(base.connections), Members(olds), old(idle), old(Snapshot(base.connections)))
    {
      ghost var all := base.connections;
      ghost var first := idle;
      ghost var snap := Snapshot(all);
      KeepNone(first);
      assert Members(olds[..0]) == {};
      var i := 0;
      while i < |olds|
        invariant 0 <= i <= |olds|
        invariant RetiredUpTo(olds, i, first, all, snap)
      {
        RetireNext(olds, i, first, all, snap);
        i := i + 1;
      }
      assert olds[..i] == olds;
    }

    /** `_old_connection_reaper`: every connection older than the maximum age
        is closed at once when idle and flagged to be closed on its next
        `disconnect` when busy; the others are left alone. */
    method ReapOld(now: int)
      requires Valid() && maxAge.Some?
      modifies this, base, base.connections
      ensures Valid()
      ensures var aged := old(Aged(base.connections, now, maxAge.value));
        base.connections == old(base.connections) - (aged * Members(old(idle))) &&
        idle == Keep(old(idle), aged)
      ensures RetiredAs(old(base.connections), old(Aged(base.connections, now, maxAge.value)),
                        old(idle), old(Snapshot(base.connections)))
    {
      ghost var aged := Aged(base.connections, now, maxAge.value);
      var olds := AgedConnections(now, maxAge.value);
      assert aged == Members(olds);
      RetireAll(olds);
    }
  }

  /** The set bookkeeping of one turn of the age reaper: retiring `c` takes it
      out of the connections exactly when it was idle. */
  lemma RetireSets<T>(all: set<T>, done: set<T>, idled: set<T>, now: set<T>, c: T)
    requires now == all - (done * idled) && c in now
    ensures c in idled ==> all - ((done + {c}) * idled) == now - {c}
    ensures c !in idled ==> all - ((done + {c}) * idled) == now
  {
  }

  /** `NullPool`: every `connect` makes a connection and every `disconnect`
      closes it. */
  class NullPool {
    const base: BasePool

    ghost predicate Valid()
      reads this, base, base.connections
    {
      base.Valid()
    }

    constructor ()
      ensures Valid() && fresh(base) && base.connections == {} && base.connecting == 0
    {
      base := new BasePool();
    }

    /** `connect`: always a new connection; every connector failure is raised. */
    method Connect(connector: Connector, readable: nat, now: int) returns (taken: Taken)
      requires Valid()
      modifies base
      ensures Valid()
      ensures base.connecting == old(base.connecting)
      ensures connector.Connects? ==>
        taken.Created? && fresh(taken.connection) && taken.connection.pool == base &&
        base.connections == old(base.connections) + {taken.connection}
      ensures connector.Raises? ==>
        taken == Raised(connector.error) && base.connections == old(base.connections)
    {
      var c := base.New(connector, readable, now);
      if c == null {
        return Raised(connector.error);
      }
      return Created(c);
    }

    /** `disconnect`: the connection is closed whatever `close` says. */
    method Disconnect(c: Connection, close: bool, closeFails: bool) returns (fault: Option<PoolFault>)
      requires Valid()
      modifies base, c
      ensures Valid()
      ensures old(c.pool) != base ==>
        fault == Some(AssertionFailed(if old(c.pool) == null then NOT_POOLED else OTHER_POOL)) &&
        unchanged(base, c)
      ensures old(c.pool) == base && c in old(base.connections) ==>
        base.connections == old(base.connections) - {c} && c.pool == null &&
        c.open == (closeFails && old(c.open)) &&
        fault == (if closeFails then Some(CloseError) else None)
    {
      fault := base.Close(c, closeFails);
    }
  }
}
