/** Counters for monitoring: a Statistic holds a count and the count seen at
    its last update; StatisticMinMax also tracks the lowest and highest count
    since its last reset, StatisticExtra the shortest and longest timed
    duration. `find` collects the statistics stored in nested dicts and
    lists, so that they can all be updated or reset at once. */
module Statistics {
  import opened Common

  // ---------------------------------------------------------------------
  // Extremes of a run of values

  /** The smallest value. */
  function MinOf(s: seq<int>): (r: int)
    requires s != []
    ensures r in s && forall i | 0 <= i < |s| :: r <= s[i]
  {
    if |s| == 1 then s[0]
    else
      var m := MinOf(s[..|s| - 1]);
      assert forall i | 0 <= i < |s| - 1 :: s[i] == s[..|s| - 1][i];
      if s[|s| - 1] < m then s[|s| - 1] else m
  }

  /** The largest value. */
  function MaxOf(s: seq<int>): (r: int)
    requires s != []
    ensures r in s && forall i | 0 <= i < |s| :: s[i] <= r
  {
    if |s| == 1 then s[0]
    else
      var m := MaxOf(s[..|s| - 1]);
      assert forall i | 0 <= i < |s| - 1 :: s[i] == s[..|s| - 1][i];
      if s[|s| - 1] > m then s[|s| - 1] else m
  }

  /** The (min, max) pair a tracker holds after seeing the values: both None
      before the first one. */
  function Extremes(s: seq<int>): (r: (Option<int>, Option<int>))
    ensures r.0.Some? <==> s != []
    ensures r.1.Some? <==> s != []
  {
    if s == [] then (None, None) else (Some(MinOf(s)), Some(MaxOf(s)))
  }

  /** `update_min_max` and the min/max part of `update_avg`: a new maximum when
      there is none or `x` exceeds it, and likewise for the minimum. */
  function Widen(min: Option<int>, max: Option<int>, x: int): (r: (Option<int>, Option<int>))
  {
    var max' := if max.None? || x > max.value then Some(x) else max;
    var min' := if min.None? || x < min.value then Some(x) else min;
    (min', max')
  }

  /** Widening the extremes of the values seen by a new value gives the
      extremes of all of them. */
  lemma WidenExtremes(s: seq<int>, x: int)
    ensures Widen(Extremes(s).0, Extremes(s).1, x) == Extremes(s + [x])
  {
    var t := s + [x];
    assert t[..|t| - 1] == s;
    if s == [] {
      assert t == [x];
    }
  }

  /** After widening by `x`, `x` lies between the extremes. */
  lemma WidenedBounds(min: Option<int>, max: Option<int>, x: int)
    ensures var (lo, hi) := Widen(min, max, x);
      lo.Some? && hi.Some? && lo.value <= x <= hi.value
  {
  }

  // ---------------------------------------------------------------------
  // The three kinds of statistic

  /** `Statistic(v)`. The rate (`delta`) is a float left out of the model;
      `update` records the count it saw. */
  class Statistic {
    var v: int
    var lastV: Option<int>

    constructor (v0: int)
      ensures v == v0 && lastV == None
    {
      v, lastV := v0, None;
    }

    /** `reset()`: forgets the last update, keeps the count. */
    method Reset()
      modifies this
      ensures v == old(v) && lastV == None
    {
      lastV := None;
    }

    method SetCount(count: int)
      modifies this
      ensures v == count && lastV == old(lastV)
    {
      v := count;
    }

    /** `s += o`: the same object, its count raised by `o`. */
    method Add(o: int) returns (r: Statistic)
      modifies this
      ensures r == this && v == old(v) + o && lastV == old(lastV)
    {
      v := v + o;
      r := this;
    }

    /** `s -= o`. */
    method Sub(o: int) returns (r: Statistic)
      modifies this
      ensures r == this && v == old(v) - o && lastV == old(lastV)
    {
      v := v - o;
      r := this;
    }

    /** `update(elapsed)`: the count becomes the last one seen. */
    method Update(elapsed: real)
      modifies this
      ensures v == old(v) && lastV == Some(v)
    {
      lastV := Some(v);
    }
  }

  /** `StatisticMinMax()`: a count whose every change is tracked by its
      extremes. `reached` holds the counts set since the last reset. */
  class StatisticMinMax {
    var v: int
    var min: Option<int>
    var max: Option<int>
    ghost var reached: seq<int>

    ghost predicate Valid()
      reads this
    {
      (min, max) == Extremes(reached)
    }

    constructor ()
      ensures Valid() && v == 0 && min == None && max == None && reached == []
    {
      v, min, max, reached := 0, None, None, [];
    }

    method UpdateMinMax()
      requires Valid()
      modifies this
      ensures Valid() && v == old(v) && reached == old(reached) + [v]
      ensures min.Some? && max.Some? && min.value <= v <= max.value
    {
      WidenExtremes(reached, v);
      WidenedBounds(min, max, v);
      min, max := Widen(min, max, v).0, Widen(min, max, v).1;
      reached := reached + [v];
    }

    method SetCount(count: int)
      requires Valid()
      modifies this
      ensures Valid() && v == count && reached == old(reached) + [count]
      ensures min.Some? && max.Some? && min.value <= v <= max.value
    {
      v := count;
      UpdateMinMax();
    }

    method Add(o: int) returns (r: StatisticMinMax)
      requires Valid()
      modifies this
      ensures r == this && Valid() && v == old(v) + o && reached == old(reached) + [v]
      ensures min.Some? && max.Some? && min.value <= v <= max.value
    {
      v := v + o;
      UpdateMinMax();
      r := this;
    }

    method Sub(o: int) returns (r: StatisticMinMax)
      requires Valid()
      modifies this
      ensures r == this && Valid() && v == old(v) - o && reached == old(reached) + [v]
      ensures min.Some? && max.Some? && min.value <= v <= max.value
    {
      v := v - o;
      UpdateMinMax();
      r := this;
    }

    /** `update(elapsed)` does nothing for this kind. */
    method Update(elapsed: real)
    {
    }

    /** `reset()`: forgets the extremes only. */
    method Reset()
      modifies this
      ensures Valid() && v == old(v) && min == None && max == None && reached == []
    {
      min, max, reached := None, None, [];
    }
  }

  /** `StatisticExtra()`: a count plus the extremes of the durations passed to
      `update_avg` since the last reset. The durations are floats in the
      source; here they are integral time spans, as only their comparison is
      modelled (the smoothed average is left out). */
  class StatisticExtra {
    var v: int
    var lastV: Option<int>
    var min: Option<int>
    var max: Option<int>
    ghost var durations: seq<int>

    ghost predicate Valid()
      reads this
    {
      (min, max) == Extremes(durations)
    }

    constructor ()
      ensures Valid() && v == 0 && lastV == None && durations == []
    {
      v, lastV, min, max, durations := 0, None, None, None, [];
    }

    method Add(o: int) returns (r: StatisticExtra)
      modifies this
      ensures r == this && v == old(v) + o
      ensures lastV == old(lastV) && min == old(min) && max == old(max) && durations == old(durations)
    {
      v := v + o;
      r := this;
    }

    /** The inherited `set_count`. */
    method SetCount(count: int)
      modifies this
      ensures v == count
      ensures lastV == old(lastV) && min == old(min) && max == old(max) && durations == old(durations)
    {
      v := count;
    }

    /** The inherited `s -= o`. */
    method Sub(o: int) returns (r: StatisticExtra)
      modifies this
      ensures r == this && v == old(v) - o
      ensures lastV == old(lastV) && min == old(min) && max == old(max) && durations == old(durations)
    {
      v := v - o;
      r := this;
    }

    method Update(elapsed: real)
      modifies this
      ensures v == old(v) && lastV == Some(v)
      ensures min == old(min) && max == old(max) && durations == old(durations)
    {
      lastV := Some(v);
    }

    /** `update_avg(d)`: widens the extremes by `d`. */
    method UpdateAvg(d: int)
      requires Valid()
      modifies this
      ensures Valid() && durations == old(durations) + [d] && v == old(v) && lastV == old(lastV)
      ensures min.Some? && max.Some? && min.value <= d <= max.value
    {
      WidenExtremes(durations, d);
      WidenedBounds(min, max, d);
      min, max := Widen(min, max, d).0, Widen(min, max, d).1;
      durations := durations + [d];
    }

    /** `reset()`: the Statistic part and the extremes; the count stays. */
    method Reset()
      modifies this
      ensures Valid() && v == old(v) && lastV == None && min == None && max == None && durations == []
    {
      lastV, min, max, durations := None, None, None, [];
    }

    /** Leaving `with s.time():` — the block that ran from `start` to `end`
        counts once and its duration widens the extremes. */
    method Timed(start: int, end: int)
      requires Valid()
      modifies this
      ensures Valid() && v == old(v) + 1 && durations == old(durations) + [end - start]
    {
      var _ := Add(1);
      UpdateAvg(end - start);
    }
  }

  // ---------------------------------------------------------------------
  // Finding statistics in nested structures

  /** A statistic of one of the three kinds. */
  datatype Stat = Plain(p: Statistic) | MinMax(m: StatisticMinMax) | Extra(x: StatisticExtra)

  /** The values `find` walks: statistics, dicts (by their values, in the
      dict's own order), lists, and anything else. */
  datatype Value = Found(stat: Stat) | Dict(values: seq<Value>) | List(items: seq<Value>) | Other

  function Children(o: Value): seq<Value>
  {
    match o
      case Dict(vs) => vs
      case List(vs) => vs
      case _ => []
  }

  /** `Statistic.find(o)`: the statistics in `o`, depth first. */
  function Find(o: Value): (r: seq<Stat>)
    ensures o.Other? ==> r == []
    ensures o.Found? ==> r == [o.stat]
  {
    match o
      case Found(s) => [s]
      case Dict(vs) => FindAll(vs)
      case List(vs) => FindAll(vs)
      case Other => []
  }

  function FindAll(vs: seq<Value>): seq<Stat>
  {
    if vs == [] then [] else Find(vs[0]) + FindAll(vs[1..])
  }

  /** The value reached by following child indices from `o`; a statistic has
      no children. */
  function At(o: Value, path: seq<nat>): Option<Value>
    decreases |path|
  {
    if path == [] then Some(o)
    else if path[0] < |Children(o)| then At(Children(o)[path[0]], path[1..])
    else None
  }

  lemma {:induction false} FindAllMember(vs: seq<Value>, s: Stat)
    ensures s in FindAll(vs) <==> exists i | 0 <= i < |vs| :: s in Find(vs[i])
    decreases |vs|
  {
    if vs != [] {
      FindAllMember(vs[1..], s);
      if exists i | 0 <= i < |vs[1..]| :: s in Find(vs[1..][i]) {
        var i :| 0 <= i < |vs[1..]| && s in Find(vs[1..][i]);
        assert vs[1..][i] == vs[i + 1];
      }
      if exists i | 0 <= i < |vs| :: s in Find(vs[i]) {
        var i :| 0 <= i < |vs| && s in Find(vs[i]);
        if i > 0 { assert vs[1..][i - 1] == vs[i]; }
      }
    }
  }

  /** `find` yields exactly the statistics reachable from `o` through dict
      values and list items. */
  lemma {:induction false} FindReaches(o: Value, s: Stat)
    ensures s in Find(o) <==> exists path: seq<nat> :: At(o, path) == Some(Found(s))
    decreases o, 1
  {
    if o.Found? || o.Other? {
      LeafReach(o, s);
    } else {
      if exists path: seq<nat> :: At(o, path) == Some(Found(s)) {
        ReachedFound(o, s);
      }
      if s in Find(o) {
        FoundReached(o, s);
      }
    }
  }

  /** A statistic or another value reaches only itself. */
  lemma LeafReach(o: Value, s: Stat)
    requires o.Found? || o.Other?
    ensures s in Find(o) <==> exists path: seq<nat> :: At(o, path) == Some(Found(s))
  {
    forall path: seq<nat> ensures At(o, path) == (if path == [] then Some(o) else None) {
      LeafAt(o, path);
    }
    var here: seq<nat> := [];
    assert At(o, here) == Some(o);
  }

  lemma LeafAt(o: Value, path: seq<nat>)
    requires o.Found? || o.Other?
    ensures At(o, path) == (if path == [] then Some(o) else None)
  {
  }

  /** What `find` yields in a child is reached by the child's index and then
      its own path. */
  lemma FoundReached(o: Value, s: Stat)
    requires o.Dict? || o.List?
    requires s in Find(o)
    ensures exists path: seq<nat> :: At(o, path) == Some(Found(s))
    decreases o, 0
  {
    var vs := Children(o);
    FindAllMember(vs, s);
    assert Find(o) == FindAll(vs);
    var i :| 0 <= i < |vs| && s in Find(vs[i]);
    FindReaches(vs[i], s);
    var p: seq<nat> :| At(vs[i], p) == Some(Found(s));
    var path: seq<nat> := [i] + p;
    assert path[1..] == p;
    assert At(o, path) == Some(Found(s));
  }

  /** A path that reaches a statistic runs through a child that yields it. */
  lemma ReachedFound(o: Value, s: Stat)
    requires o.Dict? || o.List?
    requires exists path: seq<nat> :: At(o, path) == Some(Found(s))
    ensures s in Find(o)
    decreases o, 0
  {
    var vs := Children(o);
    var path: seq<nat> :| At(o, path) == Some(Found(s));
    assert path != [];
    assert path[0] < |vs|;
    var i := path[0];
    var q: seq<nat> := path[1..];
    assert At(vs[i], q) == Some(Found(s));
    FindReaches(vs[i], s);
    assert s in Find(vs[i]);
    FindAllMember(vs, s);
    assert Find(o) == FindAll(vs);
  }

  /** The objects behind a run of statistics. */
  function ObjectOf(s: Stat): object
  {
    match s
      case Plain(p) => p
      case MinMax(m) => m
      case Extra(x) => x
  }

  ghost function Objects(ss: seq<Stat>): set<object>
  {
    set i | 0 <= i < |ss| :: ObjectOf(ss[i])
  }

  ghost predicate StatValid(s: Stat)
    reads ObjectOf(s)
  {
    match s
      case Plain(_) => true
      case MinMax(m) => m.Valid()
      case Extra(x) => x.Valid()
  }

  /** A statistic just after its own `reset`. */
  ghost predicate IsReset(s: Stat)
    reads ObjectOf(s)
  {
    match s
      case Plain(p) => p.lastV == None
      case MinMax(m) => m.min == None && m.max == None && m.Valid()
      case Extra(x) => x.lastV == None && x.min == None && x.max == None && x.Valid()
  }

  /** A statistic just after its own `update`. */
  ghost predicate IsUpdated(s: Stat)
    reads ObjectOf(s)
  {
    match s
      case Plain(p) => p.lastV == Some(p.v)
      case MinMax(m) => true
      case Extra(x) => x.lastV == Some(x.v)
  }

  /** The count of a statistic of any kind. */
  function Count(s: Stat): int
    reads ObjectOf(s)
  {
    match s
      case Plain(p) => p.v
      case MinMax(m) => m.v
      case Extra(x) => x.v
  }

  /** A statistic's own `reset`: it is reset and keeps its count. */
  method ResetOne(s: Stat)
    modifies ObjectOf(s)
    ensures IsReset(s) && Count(s) == old(Count(s))
  {
    match s {
      case Plain(p) => p.Reset();
      case MinMax(m) => m.Reset();
      case Extra(x) => x.Reset();
    }
  }

  /** A statistic's own `update`: it is updated and keeps its count; an
      extra statistic keeps its extremes, and a min-max one does not change. */
  method UpdateOne(s: Stat, elapsed: real)
    modifies ObjectOf(s)
    ensures IsUpdated(s) && Count(s) == old(Count(s))
    ensures s.Extra? ==> s.x.min == old(s.x.min) && s.x.max == old(s.x.max) && s.x.durations == old(s.x.durations)
    ensures s.MinMax? ==> unchanged(s.m)
  {
    match s {
      case Plain(p) => p.Update(elapsed);
      case MinMax(m) => m.Update(elapsed);
      case Extra(x) => x.Update(elapsed);
    }
  }

  /** `Statistic.resetall(o)`: resets every statistic that `find` yields,
      each keeping its count. */
  method ResetAll(o: Value)
    modifies Objects(Find(o))
    ensures old(allocated(Find(o)))
    ensures forall i | 0 <= i < |Find(o)| :: IsReset(Find(o)[i])
    ensures forall i | 0 <= i < |Find(o)| :: Count(Find(o)[i]) == old(Count(Find(o)[i]))
  {
    FoundAllocated(o);
    var ss := Find(o);
    var i := 0;
    while i < |ss|
      invariant 0 <= i <= |ss|
      invariant forall j | 0 <= j < i :: IsReset(ss[j])
      invariant forall j | 0 <= j < |ss| :: Count(ss[j]) == old(Count(ss[j]))
    {
      assert ObjectOf(ss[i]) in Objects(ss);
      ResetOne(ss[i]);
      forall j | 0 <= j < i ensures IsReset(ss[j]) {
        if ObjectOf(ss[j]) == ObjectOf(ss[i]) {
          SameObject(ss[j], ss[i]);
        }
      }
      i := i + 1;
    }
  }

  /** `Statistic.updateall(o, elapsed)`: with a positive elapsed time, updates
      every statistic that `find` yields; otherwise changes nothing. Every
      statistic keeps its count, an extra one its extremes, and a min-max one
      does not change. */
  method UpdateAll(o: Value, elapsed: real) returns (r: Value)
    modifies if elapsed > 0.0 then Objects(Find(o)) else {}
    ensures r == o && old(allocated(Find(o)))
    ensures elapsed > 0.0 ==> forall i | 0 <= i < |Find(o)| :: IsUpdated(Find(o)[i])
    ensures forall i | 0 <= i < |Find(o)| :: Count(Find(o)[i]) == old(Count(Find(o)[i]))
    ensures forall i | 0 <= i < |Find(o)| && Find(o)[i].Extra? ::
      Find(o)[i].x.min == old(Find(o)[i].x.min) && Find(o)[i].x.max == old(Find(o)[i].x.max) &&
      Find(o)[i].x.durations == old(Find(o)[i].x.durations)
    ensures forall i | 0 <= i < |Find(o)| && Find(o)[i].MinMax? :: unchanged(Find(o)[i].m)
  {
    FoundAllocated(o);
    r := o;
    if elapsed > 0.0 {
      var ss := Find(o);
      var i := 0;
      while i < |ss|
        invariant 0 <= i <= |ss|
        invariant forall j | 0 <= j < i :: IsUpdated(ss[j])
        invariant forall j | 0 <= j < |ss| :: Count(ss[j]) == old(Count(ss[j]))
        invariant forall j | 0 <= j < |ss| && ss[j].Extra? ::
          ss[j].x.min == old(ss[j].x.min) && ss[j].x.max == old(ss[j].x.max) && ss[j].x.durations == old(ss[j].x.durations)
        invariant forall j | 0 <= j < |ss| && ss[j].MinMax? :: unchanged(ss[j].m)
      {
        assert ObjectOf(ss[i]) in Objects(ss);
        UpdateOne(ss[i], elapsed);
        forall j | 0 <= j < i ensures IsUpdated(ss[j]) {
          if ObjectOf(ss[j]) == ObjectOf(ss[i]) {
            SameObject(ss[j], ss[i]);
          }
        }
        i := i + 1;
      }
    }
  }

  /** The statistics `find` yields were allocated already. */
  lemma FoundAllocated(o: Value)
    ensures allocated(Find(o))
  {
  }

  /** Two statistics over the same object are the same statistic. */
  lemma SameObject(a: Stat, b: Stat)
    requires ObjectOf(a) == ObjectOf(b)
    ensures a == b
  {
  }
}
