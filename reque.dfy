/** The reorder queue of containers/reque.py: requests are started in arrival
    order, finish in any order, and their (request, response) pairs are released
    strictly in start order. The HTTP server uses it to answer pipelined
    requests in the order they arrived. */
module Reque {
  import opened Common

  /** What one round of releasing leaves behind: the pairs released in order,
      the still-pending queue and the finished-but-unreleased map. */
  datatype Outcome<R, S> = Outcome(out: seq<(R, S)>, queue: seq<R>, finished: map<R, S>)

  /** The loop of `finish`: while the oldest pending request has finished, pop it,
      take its response out of the map and release the pair. */
  ghost function Release<R, S>(q: seq<R>, f: map<R, S>): (r: Outcome<R, S>)
    ensures |r.out| <= |q| && r.queue == q[|r.out|..]
    decreases |q|
  {
    if q != [] && q[0] in f then
      var rest := Release(q[1..], f - {q[0]});
      Outcome([(q[0], f[q[0]])] + rest.out, rest.queue, rest.finished)
    else
      Outcome([], q, f)
  }

  /** The keys of the released pairs. */
  ghost function Requests<R, S>(out: seq<(R, S)>): (r: seq<R>)
    ensures |r| == |out| && forall i | 0 <= i < |out| :: r[i] == out[i].0
  {
    seq(|out|, i requires 0 <= i < |out| => out[i].0)
  }

  /** Releasing takes a prefix of the queue: the pairs are the first |out| pending
      requests in order, the rest stays queued, and the loop stopped either at
      the end of the queue or at a request that has not finished. */
  lemma {:induction false} ReleasePrefix<R, S>(q: seq<R>, f: map<R, S>)
    ensures var o := Release(q, f);
      |o.out| <= |q| && Requests(o.out) == q[..|o.out|] && o.queue == q[|o.out|..] &&
      (o.queue != [] ==> o.queue[0] !in o.finished)
    decreases |q|
  {
    if q != [] && q[0] in f {
      ReleasePrefix(q[1..], f - {q[0]});
      var rest, o := Release(q[1..], f - {q[0]}), Release(q, f);
      assert Requests(o.out) == [q[0]] + Requests(rest.out);
      assert q[1..][..|rest.out|] == q[1..|rest.out| + 1];
      assert q[1..][|rest.out|..] == q[|rest.out| + 1..];
    }
  }

  /** Each pair carries the response `f` holds for its request. */
  ghost predicate Paired<R, S>(out: seq<(R, S)>, f: map<R, S>)
  {
    forall i | 0 <= i < |out| :: out[i].0 in f && out[i].1 == f[out[i].0]
  }

  /** Each released pair carries the response recorded for its request, and
      every released request had finished. */
  lemma {:induction false} ReleasePairs<R, S>(q: seq<R>, f: map<R, S>)
    ensures Paired(Release(q, f).out, f)
    decreases |q|
  {
    if q != [] && q[0] in f {
      var g := f - {q[0]};
      ReleasePairs(q[1..], g);
      var rest, o := Release(q[1..], g), Release(q, f);
      assert o.out == [(q[0], f[q[0]])] + rest.out;
      forall i | 0 <= i < |o.out| ensures o.out[i].0 in f && o.out[i].1 == f[o.out[i].0] {
        if i > 0 {
          var k := rest.out[i - 1].0;
          assert o.out[i] == rest.out[i - 1];
          assert k in g && rest.out[i - 1].1 == g[k] == f[k];
        } else {
          assert o.out[0] == (q[0], f[q[0]]);
        }
      }
    }
  }

  /** Exactly the released requests leave the map of finished responses. */
  lemma {:induction false} ReleaseLeft<R, S>(q: seq<R>, f: map<R, S>)
    ensures var o := Release(q, f);
      o.finished == map r | r in f && r !in Requests(o.out) :: f[r]
    decreases |q|
  {
    if q != [] && q[0] in f {
      var g := f - {q[0]};
      ReleaseLeft(q[1..], g);
      var rest, o := Release(q[1..], g), Release(q, f);
      assert Requests(o.out) == [q[0]] + Requests(rest.out);
    }
  }

  /** Each released pair carries the response recorded for its request, every
      released request had finished, and exactly the released requests leave
      the map. */
  lemma ReleaseResponses<R, S>(q: seq<R>, f: map<R, S>)
    ensures Paired(Release(q, f).out, f)
    ensures Release(q, f).finished == map r | r in f && r !in Requests(Release(q, f).out) :: f[r]
  {
    ReleasePairs(q, f);
    ReleaseLeft(q, f);
  }

  /** Once every pending request has finished, one round releases them all. */
  lemma {:induction false} ReleaseAll<R, S>(q: seq<R>, f: map<R, S>)
    requires Distinct(q) && forall i | 0 <= i < |q| :: q[i] in f
    ensures Release(q, f).queue == [] && Requests(Release(q, f).out) == q
    decreases |q|
  {
    ReleasePrefix(q, f);
    if q != [] {
      var t := q[1..];
      forall i | 0 <= i < |t| ensures t[i] in f - {q[0]} {
        assert t[i] == q[i + 1] && q[i + 1] != q[0];
      }
      assert Distinct(t) by {
        forall i, j | 0 <= i < j < |t| ensures t[i] != t[j] { assert t[i] == q[i + 1] && t[j] == q[j + 1]; }
      }
      ReleaseAll(t, f - {q[0]});
    }
  }

  /** One turn of the loop of `finish`: popping the finished head moves its pair
      from what is still to be released to what has been released. */
  lemma ReleaseStep<R, S>(goal: Outcome<R, S>, out: seq<(R, S)>, q: seq<R>, f: map<R, S>)
    requires q != [] && q[0] in f
    requires var o := Release(q, f); goal == Outcome(out + o.out, o.queue, o.finished)
    ensures var o := Release(q[1..], f - {q[0]});
      goal == Outcome((out + [(q[0], f[q[0]])]) + o.out, o.queue, o.finished)
    ensures Requests(out + [(q[0], f[q[0]])]) + q[1..] == Requests(out) + q
  {
    var o := Release(q[1..], f - {q[0]});
    assert out + ([(q[0], f[q[0]])] + o.out) == (out + [(q[0], f[q[0]])]) + o.out;
    assert Requests(out + [(q[0], f[q[0]])]) == Requests(out) + [q[0]];
    assert q == [q[0]] + q[1..];
  }

  /** The loop of `finish`: pops finished requests off the head of the queue,
      releasing their pairs, until the head has not finished. */
  method Drain<R, S>(queue: seq<R>, finished: map<R, S>) returns (out: seq<(R, S)>, q: seq<R>, f: map<R, S>)
    ensures Release(queue, finished) == Outcome(out, q, f)
  {
    q, f := queue, finished;
    ghost var goal := Release(q, f);
    out := [];
    while q != [] && q[0] in f
      invariant var o := Release(q, f); goal == Outcome(out + o.out, o.queue, o.finished)
      decreases |q|
    {
      var r := q[0];
      var resp := f[r];
      ReleaseStep(goal, out, q, f);
      q, f, out := q[1..], f - {r}, out + [(r, resp)];
    }
    assert Release(q, f) == Outcome([], q, f);
    assert out + [] == out;
  }

  /** What a round of `finish` leaves: the released requests and the rest of the
      queue make up the old queue, and nothing is released while the head of
      the queue is another request that has not finished. */
  lemma FinishOutcome<R, S>(queue: seq<R>, finished: map<R, S>, request: R, response: S,
                            out: seq<(R, S)>, q: seq<R>, f: map<R, S>)
    requires Release(queue, finished[request := response]) == Outcome(out, q, f)
    ensures queue == Requests(out) + q
    ensures queue != [] && queue[0] != request && queue[0] !in finished ==> out == []
  {
    ReleasePrefix(queue, finished[request := response]);
    assert queue == queue[..|out|] + queue[|out|..];
  }

  /** Splitting the queue behind the released part keeps the whole in order. */
  lemma Regroup<R>(released: seq<R>, queue: seq<R>, front: seq<R>, rest: seq<R>)
    requires queue == front + rest
    ensures released + queue == (released + front) + rest
  {
  }

  /** What is left of a queue without repeats has none either. */
  lemma SuffixDistinct<R>(queue: seq<R>, front: seq<R>, rest: seq<R>)
    requires queue == front + rest && Distinct(queue)
    ensures Distinct(rest)
  {
    forall i, j | 0 <= i < j < |rest| ensures rest[i] != rest[j] {
      assert rest[i] == queue[i + |front|] && rest[j] == queue[j + |front|];
    }
  }

  /** `ReorderQueue`: `_queue` of started requests, `_finished` map of responses
      not yet released. */
  class ReorderQueue<R(==,!new), S(!new)> {
    var queue: seq<R>
    var finished: map<R, S>
    /** Every request started so far, and every request released so far. */
    ghost var started: seq<R>
    ghost var released: seq<R>

    /** The released requests followed by the pending queue are exactly the
        started ones, and no request is pending twice. */
    ghost predicate Valid()
      reads this
    {
      started == released + queue && Distinct(queue)
    }

    constructor ()
      ensures Valid() && queue == [] && finished == map[] && started == []
    {
      queue, finished := [], map[];
      started, released := [], [];
    }

    /** `start(request)`: the request joins the end of the pending queue. The
        server starts every request object once, so it is not pending yet. */
    method Start(request: R)
      requires Valid() && request !in queue
      modifies this
      ensures Valid() && queue == old(queue) + [request] && finished == old(finished)
      ensures started == old(started) + [request] && released == old(released)
    {
      queue := queue + [request];
      started, released := started + [request], released;
    }

    /** `finish(request, response)`, consumed to the end: records the response and
        releases the pending requests at the head of the queue, as `Release` says. */
    method Finish(request: R, response: S) returns (out: seq<(R, S)>)
      requires Valid()
      modifies this
      ensures var o := Release(old(queue), old(finished)[request := response]);
        out == o.out && queue == o.queue && finished == o.finished
      ensures Valid() && started == old(started) && released == old(released) + Requests(out)
      ensures old(queue) != [] && old(queue)[0] != request && old(queue)[0] !in old(finished) ==> out == []
      ensures (forall i | 0 <= i < |old(queue)| :: old(queue)[i] in old(finished)[request := response]) ==>
        queue == [] && released == started
    {
      var q, f;
      out, q, f := Drain(queue, finished[request := response]);
      FinishOutcome(queue, finished, request, response, out, q, f);
      if forall i | 0 <= i < |queue| :: queue[i] in finished[request := response] {
        ReleaseAll(queue, finished[request := response]);
      }
      SuffixDistinct(queue, Requests(out), q);
      Regroup(released, queue, Requests(out), q);
      queue, finished := q, f;
      released := released + Requests(out);
    }
  }
}
