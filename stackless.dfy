/** The stackless API on greenlets (_stackless.py): one scheduler keeps the
    runnable tasklets in a deque whose head is the running task, and channels
    hand data from a sender to a receiver, blocking whichever side comes
    first. A greenlet switch has no counterpart here: each operation is
    modelled up to the switch it ends in and reports the task that runs next;
    what a blocked task does once it is switched back to (take the data a
    sender left, or handle the exception thrown into it) is a method of its
    own. The running task is taken to be the head of the run queue, as the
    scheduler's own comments state. */
module Stackless {
  import opened Common

  const INDEX_ERROR := "IndexError"
  const VALUE_ERROR := "ValueError"
  const ASSERTION_ERROR := "AssertionError"
  const TYPE_ERROR := "TypeError"
  const ATTRIBUTE_ERROR := "AttributeError"

  /** What travels through a channel: a value, or a `bomb` carrying an
      exception (`send_exception`); `Nothing` is Python's None. */
  datatype Data = Nothing | Value(value: int) | Bomb(exception: string)

  /** How an operation ends for the calling task: it goes on with a value, an
      exception is raised in it, or it switches to the task named. */
  datatype Outcome = Done(data: Data) | Raised(exception: string) | Switched(next: Tasklet)

  /** What a receiver gets for the data it takes: a bomb is raised. */
  function Deliver(d: Data): (r: Outcome)
    ensures r.Raised? <==> d.Bomb?
    ensures r.Raised? ==> r.exception == d.exception
    ensures r.Done? ==> r.data == d
    ensures !r.Switched?
  {
    if d.Bomb? then Raised(d.exception) else Done(d)
  }

  /** A tasklet's `func` attribute: None, a callable, or deleted by a
      finished run. */
  datatype FuncAttr = FuncNone | FuncBound | FuncDeleted

  class Tasklet {
    var func: FuncAttr
    var alive: bool
    var blocked: bool
    var data: Data

    /** `tasklet(f, greenlet, alive)`, with or without a function. */
    constructor (hasFunc: bool, alive: bool)
      ensures func == (if hasFunc then FuncBound else FuncNone) && this.alive == alive && !blocked && data == Nothing
    {
      func := if hasFunc then FuncBound else FuncNone;
      this.alive := alive;
      blocked := false;
      data := Nothing;
    }

    /** `bind(func)`: a TypeError for something that is not callable;
        otherwise the function is set, a deleted one included. */
    method Bind(callable: bool) returns (error: Option<string>)
      modifies this
      ensures error.None? <==> callable
      ensures error.Some? ==> error.value == TYPE_ERROR
      ensures func == (if callable then FuncBound else old(func))
      ensures alive == old(alive) && blocked == old(blocked) && data == old(data)
    {
      if !callable {
        return Some(TYPE_ERROR);
      }
      func := FuncBound;
      error := None;
    }
  }

  class Channel {
    var balance: int
    var queue: seq<Tasklet>

    constructor ()
      ensures balance == 0 && queue == []
    {
      balance := 0;
      queue := [];
    }
  }

  // ---------------------------------------------------------------------
  // The run queue as a deque

  /** `deque.rotate(-1)`: the head moves to the back. */
  function RotateLeft<T>(q: seq<T>): (r: seq<T>)
    ensures |r| == |q| && multiset(r) == multiset(q)
  {
    if q == [] then [] else assert q == [q[0]] + q[1..]; q[1..] + [q[0]]
  }

  /** `deque.rotate(1)`: the back moves to the head. */
  function RotateRight<T>(q: seq<T>): (r: seq<T>)
    ensures |r| == |q| && multiset(r) == multiset(q)
  {
    if q == [] then [] else assert q == q[..|q| - 1] + [q[|q| - 1]]; [q[|q| - 1]] + q[..|q| - 1]
  }

  /** The two rotations undo each other. */
  lemma RotateInverse<T>(q: seq<T>)
    ensures RotateRight(RotateLeft(q)) == q && RotateLeft(RotateRight(q)) == q
  {
    if q != [] {
      var l := RotateLeft(q);
      assert l[..|l| - 1] == q[1..];
      assert [q[0]] + q[1..] == q;
      var r := RotateRight(q);
      assert r[1..] == q[..|q| - 1];
      assert q[..|q| - 1] + [q[|q| - 1]] == q;
    }
  }

  /** `k` turns of `schedule`. */
  function Rotations<T>(q: seq<T>, k: nat): (r: seq<T>)
    ensures |r| == |q|
    decreases k
  {
    if k == 0 then q else Rotations(RotateLeft(q), k - 1)
  }

  /** Round robin: after `k` turns the queue starts at its `k`-th task, the
      ones before it having moved to the back in their order. */
  lemma {:induction false} RoundRobin<T>(q: seq<T>, k: nat)
    requires k <= |q|
    decreases k
    ensures Rotations(q, k) == q[k..] + q[..k]
  {
    if k == 0 {
      assert q[0..] + q[..0] == q;
    } else {
      var l := q[1..] + [q[0]];
      assert RotateLeft(q) == l;
      assert Rotations(q, k) == Rotations(l, k - 1);
      RoundRobin(l, k - 1);
      RotatedSlices(q, k);
    }
  }

  /** Cutting the once-rotated queue at `k - 1` is cutting the queue at `k`. */
  lemma RotatedSlices<T>(q: seq<T>, k: nat)
    requires 0 < k <= |q|
    ensures var l := q[1..] + [q[0]]; l[k - 1..] + l[..k - 1] == q[k..] + q[..k]
  {
    var l := q[1..] + [q[0]];
    assert l[k - 1..] == q[k..] + [q[0]];
    assert l[..k - 1] == q[1..k];
    assert q[..k] == [q[0]] + q[1..k];
  }

  /** Every task runs once in `|q|` turns and then the queue is as it was. */
  lemma EveryTaskRuns<T>(q: seq<T>)
    ensures forall k | 0 <= k < |q| :: Rotations(q, k)[0] == q[k]
    ensures Rotations(q, |q|) == q
  {
    forall k | 0 <= k < |q| ensures Rotations(q, k)[0] == q[k] {
      RoundRobin(q, k);
    }
    RoundRobin(q, |q|);
    assert q[|q|..] + q[..|q|] == q;
  }

  /** `rotate(-1); appendleft(x); rotate(1)` puts `x` right behind the head. */
  lemma InsertBehindHead<T>(q: seq<T>, x: T)
    requires q != []
    ensures RotateRight([x] + RotateLeft(q)) == [q[0], x] + q[1..]
  {
    var l := q[1..] + [q[0]];
    assert RotateLeft(q) == l;
    var s := [x] + l;
    assert |s| == |q| + 1;
    assert s[|q|] == q[0];
    assert s[..|q|] == [x] + q[1..];
    assert RotateRight(s) == [s[|q|]] + s[..|q|];
  }

  /** A rotation keeps the tasks distinct. */
  lemma RotateDistinct<T>(q: seq<T>)
    requires Distinct(q)
    ensures Distinct(RotateLeft(q))
  {
    if q != [] {
      DistinctTail(q);
      DistinctSnoc(q[1..], q[0]);
    }
  }

  /** A task in front of a queue that does not hold it keeps it distinct. */
  lemma DistinctCons<T>(x: T, q: seq<T>)
    requires Distinct(q) && x !in q
    ensures Distinct([x] + q)
  {
    forall i, j | 0 <= i < j < |[x] + q| ensures ([x] + q)[i] != ([x] + q)[j] {
      assert ([x] + q)[j] == q[j - 1];
      if i > 0 {
        assert ([x] + q)[i] == q[i - 1];
      }
    }
  }

  /** The scheduler's invariant with one channel: no task twice in the run
      queue or in the channel's queue, and no queued task runnable. */
  ghost predicate Apart(runnable: seq<Tasklet>, queue: seq<Tasklet>)
  {
    Distinct(runnable) && Distinct(queue) && forall t | t in queue :: t !in runnable
  }

  /** As many tasks wait on the channel as its balance counts, whichever their
      side: senders for a positive balance, receivers for a negative one. */
  ghost predicate Balanced(ch: Channel)
    reads ch
  {
    |ch.queue| == if ch.balance >= 0 then ch.balance else -ch.balance
  }

  // ---------------------------------------------------------------------
  // The scheduler

  class Scheduler {
    const main: Tasklet
    var runnable: seq<Tasklet>

    /** The scheduler starts with the main task, alive, as the only one. */
    constructor ()
      ensures fresh(main) && main.alive && !main.blocked && main.data == Nothing && runnable == [main]
    {
      main := new Tasklet(false, true);
      runnable := [main];
    }

    /** `runcount`: the number of runnable tasks. */
    function RunCount(): (n: nat)
      reads this
      ensures n == |runnable|
    {
      |runnable|
    }

    /** `current`: the head of the run queue; IndexError once it is empty. */
    function Current(): (r: Result<Tasklet>)
      reads this
      ensures r.Ok? <==> runnable != []
      ensures r.Ok? ==> r.value == runnable[0]
      ensures r.Err? ==> r.error == INDEX_ERROR
    {
      if runnable == [] then Err(INDEX_ERROR) else Ok(runnable[0])
    }

    /** `schedule`: the current task goes to the back, the next one runs. */
    method Schedule() returns (next: Result<Tasklet>)
      modifies this
      ensures runnable == RotateLeft(old(runnable))
      ensures old(runnable) != [] ==> next == Ok(if |old(runnable)| > 1 then old(runnable[1]) else old(runnable[0]))
      ensures old(runnable) == [] ==> next == Err(INDEX_ERROR)
    {
      runnable := RotateLeft(runnable);
      next := Current();
    }

    /** `schedule_block`: the current task leaves the run queue and the next
        one runs; IndexError when no task is left to run. */
    method ScheduleBlock() returns (next: Result<Tasklet>)
      modifies this
      ensures runnable == if old(runnable) == [] then [] else old(runnable[1..])
      ensures |old(runnable)| > 1 ==> next == Ok(old(runnable[1]))
      ensures |old(runnable)| <= 1 ==> next == Err(INDEX_ERROR)
    {
      if runnable == [] {
        return Err(INDEX_ERROR);
      }
      runnable := runnable[1..];
      next := Current();
    }

    /** `append`: AssertionError for a task already runnable. */
    method Append(t: Tasklet) returns (ok: bool)
      modifies this
      ensures ok <==> t !in old(runnable)
      ensures runnable == if ok then old(runnable) + [t] else old(runnable)
      ensures Distinct(old(runnable)) ==> Distinct(runnable)
    {
      if t in runnable {
        return false;
      }
      DistinctAppend(runnable, t);
      runnable := runnable + [t];
      ok := true;
    }

    /** `remove`: AssertionError for a task neither blocked nor runnable; a
        runnable task is taken out. */
    method Remove(t: Tasklet) returns (ok: bool)
      modifies this
      ensures ok <==> t.blocked || t in old(runnable)
      ensures runnable == if ok then RemoveFirst(old(runnable), t) else old(runnable)
      ensures Distinct(old(runnable)) ==> Distinct(runnable) && t !in runnable
    {
      if !t.blocked && t !in runnable {
        if Distinct(runnable) {
          assert RemoveFirst(runnable, t) == runnable;
        }
        return false;
      }
      ghost var before := runnable;
      runnable := RemoveFirst(runnable, t);
      if Distinct(before) {
        RemoveDistinct(before, t);
      }
      ok := true;
    }

    /** `throw` into a task: nothing for a dead task; AssertionError for one
        neither blocked nor runnable; otherwise the task is put in front of
        the run queue (taken out of it first when runnable) and runs. */
    method Throw(t: Tasklet) returns (r: Outcome)
      modifies this
      ensures !t.alive ==> r == Done(Nothing) && runnable == old(runnable)
      ensures t.alive && !t.blocked && t !in old(runnable) ==> r == Raised(ASSERTION_ERROR) && runnable == old(runnable)
      ensures t.alive && t.blocked && old(runnable) == [] ==> r == Raised(INDEX_ERROR) && runnable == old(runnable)
      ensures t.alive && (t.blocked || t in old(runnable)) && old(runnable) != [] ==>
        r == Switched(t) &&
        runnable == [t] + (if t.blocked then old(runnable) else RemoveFirst(old(runnable), t))
    {
      if !t.alive {
        return Done(Nothing);
      }
      if !t.blocked && t !in runnable {
        return Raised(ASSERTION_ERROR);
      }
      if runnable == [] {
        return Raised(INDEX_ERROR);
      }
      if t.blocked {
        runnable := [t] + runnable;
      } else {
        runnable := [t] + RemoveFirst(runnable, t);
      }
      r := Switched(t);
    }

    /** `_receive` as written: a task queued on the channel is taken to be a
        sender whenever the queue is not empty, whichever side it waits on. */
    method Receive(ch: Channel) returns (r: Outcome)
      requires runnable != []
      modifies this, ch, if ch.queue != [] then ch.queue[0] else runnable[0]
      ensures old(ch.queue) != [] ==> TookSender(ch, old(ch.balance), old(ch.queue), old(runnable), old(ch.queue[0].alive), old(ch.queue[0].data), r)
      ensures old(ch.queue) == [] ==> QueuedReceiver(ch, old(ch.balance), old(ch.queue), old(runnable), old(runnable[0].alive), old(runnable[0].data), r)
      ensures old(Apart(runnable, ch.queue)) ==> Apart(runnable, ch.queue)
      ensures old(Balanced(ch)) && old(ch.balance) >= 0 ==> Balanced(ch)
    {
      if ch.queue != [] {
        r := TakeSender(ch);
      } else {
        r := QueueReceiver(ch);
      }
    }

    /** `_receive` deciding by the balance, as a stackless channel does: a
        positive balance counts queued senders; otherwise the receiver queues. */
    method ReceiveByBalance(ch: Channel) returns (r: Outcome)
      requires runnable != [] && Balanced(ch)
      modifies this, ch, if ch.balance > 0 then ch.queue[0] else runnable[0]
      ensures old(ch.balance) > 0 ==> TookSender(ch, old(ch.balance), old(ch.queue), old(runnable), old(ch.queue[0].alive), old(ch.queue[0].data), r)
      ensures old(ch.balance) <= 0 ==> QueuedReceiver(ch, old(ch.balance), old(ch.queue), old(runnable), old(runnable[0].alive), old(runnable[0].data), r)
      ensures old(Apart(runnable, ch.queue)) ==> Apart(runnable, ch.queue)
      ensures Balanced(ch)
    {
      if ch.balance > 0 {
        r := TakeSender(ch);
      } else {
        r := QueueReceiver(ch);
      }
    }

    /** A receiver meets a queued sender: balance down by one, the sender
        unblocked and appended to the run queue, its data taken and cleared;
        the receiver goes on without a switch. */
    method TakeSender(ch: Channel) returns (r: Outcome)
      requires ch.queue != []
      modifies this, ch, ch.queue[0]
      ensures TookSender(ch, old(ch.balance), old(ch.queue), old(runnable), old(ch.queue[0].alive), old(ch.queue[0].data), r)
      ensures old(Apart(runnable, ch.queue)) ==> Apart(runnable, ch.queue)
      ensures old(Balanced(ch)) && old(ch.balance) > 0 ==> Balanced(ch)
    {
      ghost var q0, run0 := ch.queue, runnable;
      ch.balance := ch.balance - 1;
      var sender := ch.queue[0];
      ch.queue := ch.queue[1..];
      sender.blocked := false;
      runnable := runnable + [sender];
      var data := sender.data;
      sender.data := Nothing;
      r := Deliver(data);
      if Apart(run0, q0) {
        SenderJoins(run0, q0);
      }
    }

    /** A receiver finds no sender: it joins the channel's queue, balance down
        by one, blocks, and the next runnable task runs; when no task is left
        to run, the channel is restored and IndexError raised, the receiver
        being out of the run queue by then. */
    method QueueReceiver(ch: Channel) returns (r: Outcome)
      requires runnable != []
      modifies this, ch, runnable[0]
      ensures QueuedReceiver(ch, old(ch.balance), old(ch.queue), old(runnable), old(runnable[0].alive), old(runnable[0].data), r)
      ensures old(Apart(runnable, ch.queue)) ==> Apart(runnable, ch.queue)
      ensures old(Balanced(ch)) && old(ch.balance) <= 0 ==> Balanced(ch)
    {
      ghost var q0, run0 := ch.queue, runnable;
      var current := runnable[0];
      ch.queue := ch.queue + [current];
      ch.balance := ch.balance - 1;
      current.blocked := true;
      var next := ScheduleBlock();
      if next.Err? {
        ch.queue := RemoveFirst(ch.queue, current);
        ch.balance := ch.balance + 1;
        current.blocked := false;
        if current !in q0 {
          RemoveAppended(q0, current);
        }
        return Raised(next.error);
      }
      r := Switched(next.value);
      if Apart(run0, q0) {
        CurrentLeaves(run0, q0);
      }
    }

    /** The state `_receive` leaves after taking the data of the queued
        sender, given the channel, run queue and sender as they were. */
    ghost predicate TookSender(ch: Channel, balance: int, queue: seq<Tasklet>, run: seq<Tasklet>, alive: bool, data: Data, r: Outcome)
      requires queue != []
      reads this, ch, queue[0]
    {
      var sender := queue[0];
      ch.balance == balance - 1 && ch.queue == queue[1..] && runnable == run + [sender] &&
      !sender.blocked && sender.data == Nothing && sender.alive == alive && r == Deliver(data)
    }

    /** The state `_receive` leaves when the current task blocks as a
        receiver, or, with nothing else to run, fails with IndexError. */
    ghost predicate QueuedReceiver(ch: Channel, balance: int, queue: seq<Tasklet>, run: seq<Tasklet>, alive: bool, data: Data, r: Outcome)
      requires run != []
      reads this, ch, run[0]
    {
      var current := run[0];
      runnable == run[1..] && current.data == data && current.alive == alive &&
      if |run| > 1 then
        ch.queue == queue + [current] && ch.balance == balance - 1 && current.blocked && r == Switched(run[1])
      else
        ch.queue == RemoveFirst(queue + [current], current) && (current !in queue ==> ch.queue == queue) &&
        ch.balance == balance && !current.blocked && r == Raised(INDEX_ERROR)
    }

    /** The rest of `_receive` in a receiver a sender has woken, once it runs
        again: it takes the data the sender left and clears it. */
    method ReceiveResumed() returns (r: Outcome)
      requires runnable != []
      modifies runnable[0]
      ensures var current := runnable[0];
        current.data == Nothing && r == Deliver(old(current.data)) &&
        current.blocked == old(current.blocked) && current.alive == old(current.alive)
    {
      var current := runnable[0];
      var data := current.data;
      current.data := Nothing;
      r := Deliver(data);
    }

    /** The `except` of `_receive`: an exception thrown into the blocked
        receiver takes it out of the channel's queue, gives the balance back,
        unblocks it and is raised again; ValueError when a sender took the
        task out of the queue first. */
    method ReceiveInterrupted(ch: Channel, exception: string) returns (r: Outcome)
      requires runnable != []
      modifies ch, runnable[0]
      ensures var current := runnable[0];
        current.data == old(current.data) && current.alive == old(current.alive) &&
        if current in old(ch.queue) then
          ch.queue == RemoveFirst(old(ch.queue), current) && ch.balance == old(ch.balance) + 1 &&
          !current.blocked && r == Raised(exception)
        else
          ch.queue == old(ch.queue) && ch.balance == old(ch.balance) &&
          current.blocked == old(current.blocked) && r == Raised(VALUE_ERROR)
    {
      var current := runnable[0];
      if current !in ch.queue {
        return Raised(VALUE_ERROR);
      }
      ch.queue := RemoveFirst(ch.queue, current);
      ch.balance := ch.balance + 1;
      current.blocked := false;
      r := Raised(exception);
    }

    /** `_send` as written: a task queued on the channel is taken to be a
        receiver whenever the queue is not empty, whichever side it waits on. */
    method Send(ch: Channel, data: Data) returns (r: Outcome)
      requires runnable != []
      modifies this, ch, if ch.queue != [] then ch.queue[0] else runnable[0]
      ensures old(ch.queue) != [] ==> TookReceiver(ch, old(ch.balance), old(ch.queue), old(runnable), old(ch.queue[0].alive), data, r)
      ensures old(ch.queue) == [] ==> QueuedSender(ch, old(ch.balance), old(ch.queue), old(runnable), old(runnable[0].alive), data, r)
      ensures old(Apart(runnable, ch.queue)) ==> Apart(runnable, ch.queue)
      ensures old(Balanced(ch)) && old(ch.balance) <= 0 ==> Balanced(ch)
    {
      if ch.queue != [] {
        r := TakeReceiver(ch, data);
      } else {
        r := QueueSender(ch, data);
      }
    }

    /** `_send` deciding by the balance, as a stackless channel does: a
        negative balance counts queued receivers; otherwise the sender queues. */
    method SendByBalance(ch: Channel, data: Data) returns (r: Outcome)
      requires runnable != [] && Balanced(ch)
      modifies this, ch, if ch.balance < 0 then ch.queue[0] else runnable[0]
      ensures old(ch.balance) < 0 ==> TookReceiver(ch, old(ch.balance), old(ch.queue), old(runnable), old(ch.queue[0].alive), data, r)
      ensures old(ch.balance) >= 0 ==> QueuedSender(ch, old(ch.balance), old(ch.queue), old(runnable), old(runnable[0].alive), data, r)
      ensures old(Apart(runnable, ch.queue)) ==> Apart(runnable, ch.queue)
      ensures Balanced(ch)
    {
      if ch.balance < 0 {
        r := TakeReceiver(ch, data);
      } else {
        r := QueueSender(ch, data);
      }
    }

    /** A sender meets a queued receiver: balance up by one, the data handed
        over, the receiver unblocked and run right away, the sender waiting
        at the back of the run queue. */
    method TakeReceiver(ch: Channel, data: Data) returns (r: Outcome)
      requires runnable != [] && ch.queue != []
      modifies this, ch, ch.queue[0]
      ensures TookReceiver(ch, old(ch.balance), old(ch.queue), old(runnable), old(ch.queue[0].alive), data, r)
      ensures old(Apart(runnable, ch.queue)) ==> Apart(runnable, ch.queue)
      ensures old(Balanced(ch)) && old(ch.balance) < 0 ==> Balanced(ch)
    {
      ghost var q0, run0 := ch.queue, runnable;
      ch.balance := ch.balance + 1;
      var receiver := ch.queue[0];
      ch.queue := ch.queue[1..];
      receiver.data := data;
      receiver.blocked := false;
      WakeReceiver(receiver);
      r := Switched(receiver);
      if Apart(run0, q0) {
        ReceiverJoins(run0, q0);
      }
    }

    /** The end of `_send` with a receiver: `rotate(-1)`, `appendleft`,
        `rotate(1)` put it right behind the sender, and `schedule` runs it. */
    method WakeReceiver(receiver: Tasklet)
      requires runnable != []
      modifies this
      ensures runnable == [receiver] + old(runnable[1..]) + [old(runnable[0])]
    {
      ghost var run0 := runnable;
      runnable := RotateLeft(runnable);
      runnable := [receiver] + runnable;
      runnable := RotateRight(runnable);
      InsertBehindHead(run0, receiver);
      var _ := Schedule();
      assert runnable == RotateLeft([run0[0], receiver] + run0[1..]);
    }

    /** A sender finds no receiver: it joins the channel's queue with its
        data, balance up by one, blocks, and the next runnable task runs;
        when no task is left to run, the channel and the data are restored
        and IndexError raised, the sender being out of the run queue by then. */
    method QueueSender(ch: Channel, data: Data) returns (r: Outcome)
      requires runnable != []
      modifies this, ch, runnable[0]
      ensures QueuedSender(ch, old(ch.balance), old(ch.queue), old(runnable), old(runnable[0].alive), data, r)
      ensures old(Apart(runnable, ch.queue)) ==> Apart(runnable, ch.queue)
      ensures old(Balanced(ch)) && old(ch.balance) >= 0 ==> Balanced(ch)
    {
      ghost var q0, run0 := ch.queue, runnable;
      var current := runnable[0];
      ch.queue := ch.queue + [current];
      ch.balance := ch.balance + 1;
      current.data := data;
      current.blocked := true;
      var next := ScheduleBlock();
      if next.Err? {
        ch.queue := RemoveFirst(ch.queue, current);
        ch.balance := ch.balance - 1;
        current.data := Nothing;
        current.blocked := false;
        if current !in q0 {
          RemoveAppended(q0, current);
        }
        return Raised(next.error);
      }
      r := Switched(next.value);
      if Apart(run0, q0) {
        CurrentLeaves(run0, q0);
      }
    }

    /** The state `_send` leaves after handing its data to the queued
        receiver, given the channel, run queue and receiver as they were. */
    ghost predicate TookReceiver(ch: Channel, balance: int, queue: seq<Tasklet>, run: seq<Tasklet>, alive: bool, data: Data, r: Outcome)
      requires run != [] && queue != []
      reads this, ch, queue[0]
    {
      var receiver := queue[0];
      ch.balance == balance + 1 && ch.queue == queue[1..] && runnable == [receiver] + run[1..] + [run[0]] &&
      receiver.data == data && !receiver.blocked && receiver.alive == alive && r == Switched(receiver)
    }

    /** The state `_send` leaves when the current task blocks as a sender, or,
        with nothing else to run, fails with IndexError. */
    ghost predicate QueuedSender(ch: Channel, balance: int, queue: seq<Tasklet>, run: seq<Tasklet>, alive: bool, data: Data, r: Outcome)
      requires run != []
      reads this, ch, run[0]
    {
      var current := run[0];
      runnable == run[1..] && current.alive == alive &&
      if |run| > 1 then
        ch.queue == queue + [current] && ch.balance == balance + 1 && current.data == data && current.blocked &&
        r == Switched(run[1])
      else
        ch.queue == RemoveFirst(queue + [current], current) && (current !in queue ==> ch.queue == queue) &&
        ch.balance == balance && current.data == Nothing && !current.blocked && r == Raised(INDEX_ERROR)
    }

    /** The `except` of `_send`: an exception thrown into the blocked sender
        takes it out of the channel's queue, takes the balance back, clears
        its data, unblocks it and is raised again; ValueError when a receiver
        took the task out of the queue first. */
    method SendInterrupted(ch: Channel, exception: string) returns (r: Outcome)
      requires runnable != []
      modifies ch, runnable[0]
      ensures var current := runnable[0];
        current.alive == old(current.alive) &&
        if current in old(ch.queue) then
          ch.queue == RemoveFirst(old(ch.queue), current) && ch.balance == old(ch.balance) - 1 &&
          current.data == Nothing && !current.blocked && r == Raised(exception)
        else
          ch.queue == old(ch.queue) && ch.balance == old(ch.balance) && current.data == old(current.data) &&
          current.blocked == old(current.blocked) && r == Raised(VALUE_ERROR)
    {
      var current := runnable[0];
      if current !in ch.queue {
        return Raised(VALUE_ERROR);
      }
      ch.queue := RemoveFirst(ch.queue, current);
      ch.balance := ch.balance - 1;
      current.data := Nothing;
      current.blocked := false;
      r := Raised(exception);
    }

    /** `tasklet(f)()`: a TypeError and no change for a task whose function
        is None, an AttributeError and no change for one whose function a
        finished run deleted; otherwise the task becomes alive and is
        appended to the run queue, with an AssertionError when it is
        runnable already. */
    method Start(t: Tasklet) returns (error: Option<string>)
      modifies this, t
      ensures old(t.func) == FuncNone ==> error == Some(TYPE_ERROR) && runnable == old(runnable) && unchanged(t)
      ensures old(t.func) == FuncDeleted ==> error == Some(ATTRIBUTE_ERROR) && runnable == old(runnable) && unchanged(t)
      ensures old(t.func) == FuncBound ==>
        t.alive && t.func == FuncBound && t.blocked == old(t.blocked) && t.data == old(t.data)
      ensures old(t.func) == FuncBound ==> (error.None? <==> t !in old(runnable))
      ensures old(t.func) == FuncBound && error.Some? ==> error.value == ASSERTION_ERROR
      ensures runnable == if error.None? then old(runnable) + [t] else old(runnable)
    {
      if t.func == FuncNone {
        return Some(TYPE_ERROR);
      }
      if t.func == FuncDeleted {
        return Some(ATTRIBUTE_ERROR);
      }
      t.alive := true;
      var ok := Append(t);
      error := if ok then None else Some(ASSERTION_ERROR);
    }

    /** The `finally` of a tasklet's function: the finished task, which must be
        the current one, leaves the run queue and dies; its `func` attribute
        is deleted and its data cleared; the next runnable task, if there is
        one, goes on. */
    method Finish(t: Tasklet) returns (error: Option<string>, next: Option<Tasklet>)
      modifies this, t
      ensures old(runnable) == [] ==> error == Some(INDEX_ERROR) && next.None? && runnable == [] && unchanged(t)
      ensures old(runnable) != [] && old(runnable[0]) != t ==>
        error == Some(ASSERTION_ERROR) && next.None? && runnable == old(runnable) && unchanged(t)
      ensures old(runnable) != [] && old(runnable[0]) == t ==>
        error.None? && runnable == old(runnable[1..]) && !t.alive && t.func == FuncDeleted && t.data == Nothing &&
        t.blocked == old(t.blocked) && (next.Some? <==> runnable != []) && (next.Some? ==> next.value == runnable[0])
    {
      var current := Current();
      if current.Err? {
        return Some(current.error), None;
      }
      if current.value != t {
        return Some(ASSERTION_ERROR), None;
      }
      var _ := Remove(t);
      t.alive, t.func, t.data := false, FuncDeleted, Nothing;
      error := None;
      next := if runnable != [] then Some(runnable[0]) else None;
    }
  }

  lemma DistinctAppend(q: seq<Tasklet>, t: Tasklet)
    ensures t !in q && Distinct(q) ==> Distinct(q + [t])
  {
    if t !in q && Distinct(q) {
      DistinctSnoc(q, t);
    }
  }

  /** A sender taken from the channel and appended to the run queue keeps the
      invariant. */
  lemma SenderJoins(runnable: seq<Tasklet>, queue: seq<Tasklet>)
    requires queue != [] && Apart(runnable, queue)
    ensures Apart(runnable + [queue[0]], queue[1..])
  {
    DistinctTail(queue);
    DistinctSnoc(runnable, queue[0]);
  }

  /** A blocking current task leaves the run queue for the channel's. */
  lemma CurrentLeaves(runnable: seq<Tasklet>, queue: seq<Tasklet>)
    requires runnable != [] && Apart(runnable, queue)
    ensures Apart(runnable[1..], queue + [runnable[0]])
  {
    DistinctTail(runnable);
    DistinctSnoc(queue, runnable[0]);
    forall t | t in queue ensures t !in runnable[1..] {
      assert forall u | u in runnable[1..] :: u in runnable;
    }
  }

  /** Taking back the task just appended restores the queue. */
  lemma {:induction false} RemoveAppended<T>(queue: seq<T>, t: T)
    requires t !in queue
    ensures RemoveFirst(queue + [t], t) == queue
    decreases |queue|
  {
    if queue != [] {
      assert (queue + [t])[1..] == queue[1..] + [t];
      RemoveAppended(queue[1..], t);
      assert [queue[0]] + queue[1..] == queue;
    }
  }

  /** A receiver taken from the channel and run ahead of the sender keeps the
      invariant. */
  lemma ReceiverJoins(runnable: seq<Tasklet>, queue: seq<Tasklet>)
    requires runnable != [] && queue != [] && Apart(runnable, queue)
    ensures Apart([queue[0]] + runnable[1..] + [runnable[0]], queue[1..])
  {
    DistinctTail(queue);
    RotateDistinct(runnable);
    var rest := runnable[1..] + [runnable[0]];
    assert forall t | t in rest :: t in runnable;
    DistinctCons(queue[0], rest);
    assert [queue[0]] + runnable[1..] + [runnable[0]] == [queue[0]] + (runnable[1..] + [runnable[0]]);
  }


  /** Two receivers on one channel, as `_receive` is written: the first
      blocks; the second finds the queue not empty, takes the first receiver
      for a sender and goes on with None, though nothing was sent. The
      channel is left with an empty queue and a balance of -2. */
  method MixedReceivers() returns (ch: Channel, first: Tasklet, second: Outcome)
    ensures ch.queue == [] && ch.balance == -2 && !Balanced(ch)
    ensures !first.blocked && second == Done(Nothing)
  {
    var s := new Scheduler();
    var a := new Tasklet(true, false);
    var b := new Tasklet(true, false);
    ch := new Channel();
    var _ := s.Start(a);
    var _ := s.Start(b);
    var _ := s.Schedule();
    var r := s.Receive(ch);
    second := s.Receive(ch);
    first := a;
  }

  /** The same two receivers with `ReceiveByBalance`: both wait in the queue
      and the balance counts them. */
  method MixedReceiversByBalance() returns (ch: Channel, first: Tasklet, last: Tasklet, second: Outcome)
    ensures ch.queue == [first, last] && ch.balance == -2 && Balanced(ch)
    ensures first.blocked && last.blocked && second.Switched?
  {
    var s := new Scheduler();
    var a := new Tasklet(true, false);
    var b := new Tasklet(true, false);
    ch := new Channel();
    var _ := s.Start(a);
    var _ := s.Start(b);
    var _ := s.Schedule();
    var r := s.ReceiveByBalance(ch);
    second := s.ReceiveByBalance(ch);
    first, last := a, b;
  }

  /** Two senders on one channel, as `_send` is written: the first blocks
      with 1; the second takes it for a receiver and overwrites its data with
      2, so 1 is lost and no receiver gets 2. The channel is left with an
      empty queue and a balance of 2. */
  method MixedSenders() returns (ch: Channel, first: Tasklet)
    ensures ch.queue == [] && ch.balance == 2 && !Balanced(ch)
    ensures !first.blocked && first.data == Value(2)
  {
    var s := new Scheduler();
    var a := new Tasklet(true, false);
    var b := new Tasklet(true, false);
    ch := new Channel();
    var _ := s.Start(a);
    var _ := s.Start(b);
    var _ := s.Schedule();
    var r := s.Send(ch, Value(1));
    r := s.Send(ch, Value(2));
    first := a;
  }

  /** The same two senders with `SendByBalance`: both wait in the queue with
      their own data and the balance counts them. */
  method MixedSendersByBalance() returns (ch: Channel, first: Tasklet, last: Tasklet)
    ensures ch.queue == [first, last] && ch.balance == 2 && Balanced(ch)
    ensures first.data == Value(1) && last.data == Value(2)
  {
    var s := new Scheduler();
    var a := new Tasklet(true, false);
    var b := new Tasklet(true, false);
    ch := new Channel();
    var _ := s.Start(a);
    var _ := s.Start(b);
    var _ := s.Schedule();
    var r := s.SendByBalance(ch, Value(1));
    r := s.SendByBalance(ch, Value(2));
    first, last := a, b;
  }

  /** A task whose run has finished has no `func` left: starting it again
      raises AttributeError, not the TypeError of a task never given one;
      once bound again it starts. */
  method RestartFinished() returns (again: Option<string>, rebound: Option<string>)
    ensures again == Some(ATTRIBUTE_ERROR) && rebound.None?
  {
    var s := new Scheduler();
    var a := new Tasklet(true, false);
    var _ := s.Start(a);
    var _ := s.Schedule();
    var _, _ := s.Finish(a);
    again := s.Start(a);
    var _ := a.Bind(true);
    rebound := s.Start(a);
  }
}
