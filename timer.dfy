/** The timeout stack of timer.py. Each task keeps a stack of absolute deadlines
    (seconds on the wall clock); a negative entry means "no deadline". A nested
    push can only keep or shorten the deadline in force. The wall clock
    `time.time()` is an explicit non-negative `now` parameter. */
module Timer {

  /** The value `current` reports for a top entry at time `now`: -1 for no
      deadline, otherwise the time left, clamped to 0 once the deadline passed. */
  function Remaining(top: real, now: real): (r: real)
    ensures top < 0.0 <==> r == -1.0
    ensures top >= 0.0 ==> r >= 0.0 && r >= top - now && (r == 0.0 || r == top - now)
    ensures top >= 0.0 && now <= top ==> r == top - now
  {
    if top < 0.0 then -1.0
    else if top - now < 0.0 then 0.0
    else top - now
  }

  /** The entry `push(timeout)` puts on top of `cur` at time `now`. */
  function NextTop(cur: real, timeout: real, now: real): (r: real)
    requires now >= 0.0
    ensures timeout < 0.0 && cur < 0.0 ==> r == timeout
    ensures timeout < 0.0 && cur >= 0.0 ==> r == cur
    ensures timeout >= 0.0 ==> 0.0 <= r <= now + timeout && (cur >= 0.0 ==> r <= cur)
    ensures timeout >= 0.0 ==> r == now + timeout || (cur >= 0.0 && r == cur)
  {
    if timeout < 0.0 && cur < 0.0 then timeout
    else if timeout < 0.0 then cur
    else if cur < 0.0 || now + timeout <= cur then now + timeout
    else cur
  }

  /** Above the first entry that is a deadline, every entry is a deadline and no
      later than the entry below it (stated for neighbours). */
  ghost predicate Nested(s: seq<real>)
  {
    forall i | 0 <= i < |s| - 1 :: s[i] >= 0.0 ==> 0.0 <= s[i + 1] <= s[i]
  }

  /** A stack as `_Timeout` keeps it: never empty, the bottom entry is the
      initial "no deadline", and the entries are nested. */
  ghost predicate WellFormed(s: seq<real>)
  {
    |s| >= 1 && s[0] < 0.0 && Nested(s)
  }

  /** Nesting for neighbours gives nesting for every pair: once a deadline is in
      force, every entry above it is a deadline no later than it. */
  lemma {:induction false} NestedPairs(s: seq<real>, i: int, j: int)
    requires Nested(s) && 0 <= i <= j < |s| && s[i] >= 0.0
    ensures 0.0 <= s[j] <= s[i]
    decreases j - i
  {
    if i < j {
      assert 0.0 <= s[i + 1] <= s[i];
      NestedPairs(s, i + 1, j);
    }
  }

  /** Pushing preserves the stack invariant. */
  lemma PushWellFormed(s: seq<real>, timeout: real, now: real)
    requires WellFormed(s) && now >= 0.0
    ensures WellFormed(s + [NextTop(s[|s| - 1], timeout, now)])
  {
    var s2 := s + [NextTop(s[|s| - 1], timeout, now)];
    forall i | 0 <= i < |s2| - 1
      ensures s2[i] >= 0.0 ==> 0.0 <= s2[i + 1] <= s2[i]
    {
      if i < |s| - 1 { assert s2[i] == s[i] && s2[i + 1] == s[i + 1]; }
    }
  }

  /** A push never extends the time left: with a deadline in force, the time
      reported after any push (at the same moment) is at most the time before;
      with none in force, pushing t >= 0 before any time passes reports t. */
  lemma PushNeverExtends(cur: real, timeout: real, now: real)
    requires now >= 0.0
    ensures cur >= 0.0 ==> 0.0 <= Remaining(NextTop(cur, timeout, now), now) <= Remaining(cur, now)
    ensures cur < 0.0 && timeout >= 0.0 ==> Remaining(NextTop(cur, timeout, now), now) == timeout
    ensures cur < 0.0 && timeout < 0.0 ==> Remaining(NextTop(cur, timeout, now), now) == -1.0
  {
  }

  /** `_Timeout`: the deadline stack of one task. */
  class TimeoutStack {
    var times: seq<real>

    ghost predicate Valid()
      reads this
    {
      WellFormed(times)
    }

    /** A fresh stack holds only "no deadline". */
    constructor ()
      ensures Valid() && times == [-1.0]
    {
      times := [-1.0];
    }

    /** `current()`: the time left under the top entry. */
    method Current(now: real) returns (r: real)
      requires Valid()
      ensures r == Remaining(times[|times| - 1], now)
      ensures r == -1.0 <==> times[|times| - 1] < 0.0
    {
      var top := times[|times| - 1];
      if top < 0.0 {
        r := -1.0;
      } else {
        r := top - now;
        if r < 0.0 { r := 0.0; }
      }
    }

    /** `push(timeout)` at time `now`. */
    method Push(timeout: real, now: real)
      requires Valid() && now >= 0.0
      modifies this
      ensures Valid() && times == old(times) + [NextTop(old(times)[|old(times)| - 1], timeout, now)]
    {
      PushWellFormed(times, timeout, now);
      var cur := times[|times| - 1];
      var next: real;
      if timeout < 0.0 && cur < 0.0 {
        next := timeout;
      } else if timeout < 0.0 && cur >= 0.0 {
        next := cur;
      } else {
        var deadline := now + timeout;
        if cur < 0.0 {
          next := deadline;
        } else {
          next := if deadline <= cur then deadline else cur;
        }
      }
      times := times + [next];
    }

    /** `pop()`: restores the previous top; an unmatched pop, with only the
        bottom entry left, fails its assertion (false) and changes nothing. */
    method Pop() returns (ok: bool)
      requires Valid()
      modifies this
      ensures ok <==> |old(times)| > 1
      ensures Valid() && times == if ok then old(times)[..|old(times)| - 1] else old(times)
    {
      ok := |times| > 1;
      if ok {
        times := times[..|times| - 1];
      }
    }
  }

  /** The class-level `Timeout`: one stack per task, created on a task's first
      push (the task-local is not recursive, so a task never sees its parent's
      stack). Stacks are kept as values keyed by task. */
  class TaskTimeouts<T(==,!new)> {
    var stacks: map<T, seq<real>>

    ghost predicate Valid()
      reads this
    {
      forall t | t in stacks :: WellFormed(stacks[t])
    }

    constructor ()
      ensures Valid() && stacks == map[]
    {
      stacks := map[];
    }

    /** `Timeout.current()` for `task`: -1 when the task never pushed. */
    method Current(task: T, now: real) returns (r: real)
      requires Valid()
      ensures task !in stacks ==> r == -1.0
      ensures task in stacks ==> r == Remaining(stacks[task][|stacks[task]| - 1], now)
    {
      if task !in stacks {
        r := -1.0;
      } else {
        var s := stacks[task];
        r := Remaining(s[|s| - 1], now);
      }
    }

    /** `Timeout.push(timeout)` for `task`: creates the task's stack if needed,
        then pushes; no other task's stack changes. */
    method Push(task: T, timeout: real, now: real)
      requires Valid() && now >= 0.0
      modifies this
      ensures var s := if task in old(stacks) then old(stacks)[task] else [-1.0];
        stacks == old(stacks)[task := s + [NextTop(s[|s| - 1], timeout, now)]]
      ensures Valid()
    {
      var s := if task in stacks then stacks[task] else [-1.0];
      PushWellFormed(s, timeout, now);
      stacks := stacks[task := s + [NextTop(s[|s| - 1], timeout, now)]];
    }

    /** `Timeout.pop()` for `task`: its previous top is restored; a task that
        never pushed, or has popped everything it pushed, fails an assertion
        (false) and nothing changes. */
    method Pop(task: T) returns (ok: bool)
      requires Valid()
      modifies this
      ensures ok <==> task in old(stacks) && |old(stacks)[task]| > 1
      ensures ok ==> stacks == old(stacks)[task := old(stacks)[task][..|old(stacks)[task]| - 1]]
      ensures !ok ==> stacks == old(stacks)
      ensures Valid()
    {
      ok := task in stacks && |stacks[task]| > 1;
      if ok {
        var s := stacks[task];
        stacks := stacks[task := s[..|s| - 1]];
      }
    }
  }
}
