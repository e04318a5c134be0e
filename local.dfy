/** Task-local storage: a TaskLocal keeps one attribute record per task, and
    an attribute read by a task is looked up in that task's record, or, for a
    recursive local, in the records of its parent, grandparent and so on. The
    tasks are numbers, and the chain `Tasklet.current()`, its `parent()`, ...
    that a lookup walks is passed in as a sequence, current task first. A
    record is the map from attribute names to values. */
module TaskLocals {
  import opened Common

  type Task = nat

  /** The lookup of `key` along `chain`: the value in the first record that
      has it, where a non-recursive local looks at the first task only; None
      stands for AttributeError. */
  function Lookup<V>(d: map<Task, map<string, V>>, chain: seq<Task>, key: string, recursive: bool): (r: Option<V>)
    ensures r.Some? <==> exists i | 0 <= i < |chain| && (recursive || i == 0) :: Has(d, chain[i], key)
    ensures r.Some? ==> exists i | 0 <= i < |chain| && (recursive || i == 0) ::
      Has(d, chain[i], key) && r.value == d[chain[i]][key] &&
      forall j | 0 <= j < i :: !Has(d, chain[j], key)
    decreases |chain|
  {
    if chain == [] then None
    else if Has(d, chain[0], key) then Some(d[chain[0]][key])
    else if !recursive then None
    else
      var r := Lookup(d, chain[1..], key, recursive);
      ShiftedHolders(d, chain, key, r.Some?);
      r
  }

  /** The task has a record and the record has the attribute. */
  predicate Has<V>(d: map<Task, map<string, V>>, t: Task, key: string)
  {
    t in d && key in d[t]
  }

  /** Holders in the tail of a chain whose head holds nothing are the holders
      of the chain, shifted by one. */
  lemma ShiftedHolders<V>(d: map<Task, map<string, V>>, chain: seq<Task>, key: string, found: bool)
    requires chain != [] && !Has(d, chain[0], key)
    requires found <==> exists i | 0 <= i < |chain[1..]| :: Has(d, chain[1..][i], key)
    ensures found <==> exists i | 0 <= i < |chain| :: Has(d, chain[i], key)
  {
    if exists i | 0 <= i < |chain| :: Has(d, chain[i], key) {
      var i :| 0 <= i < |chain| && Has(d, chain[i], key);
      assert chain[1..][i - 1] == chain[i];
    }
    if found {
      var i :| 0 <= i < |chain[1..]| && Has(d, chain[1..][i], key);
      assert chain[i + 1] == chain[1..][i];
    }
  }

  /** The value a recursive lookup returns is that of the nearest task in the
      chain holding the attribute. */
  lemma {:induction false} NearestHolder<V>(d: map<Task, map<string, V>>, chain: seq<Task>, key: string, i: nat)
    requires i < |chain| && Has(d, chain[i], key)
    requires forall j | 0 <= j < i :: !Has(d, chain[j], key)
    ensures Lookup(d, chain, key, true) == Some(d[chain[i]][key])
    decreases i
  {
    if i > 0 {
      assert !Has(d, chain[0], key);
      forall j | 0 <= j < i - 1 ensures !Has(d, chain[1..][j], key) {
        assert chain[1..][j] == chain[j + 1];
      }
      NearestHolder(d, chain[1..], key, i - 1);
    }
  }

  /** A task without a record is passed over: the lookup falls back to the
      parent chain. */
  lemma SkipsAbsent<V>(d: map<Task, map<string, V>>, chain: seq<Task>, key: string)
    requires chain != [] && chain[0] !in d
    ensures Lookup(d, chain, key, true) == Lookup(d, chain[1..], key, true)
    ensures Lookup(d, chain, key, false).None?
  {
  }

  /** A non-recursive lookup never looks past the current task. */
  lemma OnlyCurrent<V>(d: map<Task, map<string, V>>, chain: seq<Task>, key: string)
    requires chain != []
    ensures Lookup(d, chain, key, false) == Lookup(d, chain[..1], key, true)
  {
    assert chain[..1][1..] == [];
  }

  /** `TaskLocal(recursive)`, with `TaskInstance`'s `set`/`unset`. */
  class TaskLocal<V> {
    const recursive: bool
    var d: map<Task, map<string, V>>

    constructor (recursive: bool)
      ensures this.recursive == recursive && d == map[]
    {
      this.recursive := recursive;
      d := map[];
    }

    /** `getattr(local, key)`: walks the chain while the task has no record
        holding the key, up the parents only when the local is recursive. */
    method Get(chain: seq<Task>, key: string) returns (r: Option<V>)
      ensures r == Lookup(d, chain, key, recursive)
    {
      var k := 0;
      while k < |chain|
        invariant 0 <= k <= |chain|
        invariant recursive || k == 0
        invariant Lookup(d, chain[k..], key, recursive) == Lookup(d, chain, key, recursive)
        decreases |chain| - k
      {
        var current := chain[k];
        if current !in d || key !in d[current] {
          if !recursive {
            break;
          }
          assert chain[k..][1..] == chain[k + 1..];
          k := k + 1;
        } else {
          return Some(d[current][key]);
        }
      }
      return None;
    }

    /** `setattr(local, key, value)`: into the current task's record, which is
        created on first use. */
    method Set(current: Task, key: string, value: V)
      modifies this
      ensures d == old(d)[current := (if current in old(d) then old(d)[current] else map[])[key := value]]
    {
      var record := if current in d then d[current] else map[];
      d := d[current := record[key := value]];
    }

    /** `delattr(local, key)`: never recursive; AttributeError when the current
        task's record lacks the key. */
    method Delete(current: Task, key: string) returns (ok: bool)
      modifies this
      ensures ok <==> Has(old(d), current, key)
      ensures d == (if ok then old(d)[current := old(d)[current] - {key}] else old(d))
    {
      if current !in d || key !in d[current] {
        return false;
      }
      d := d[current := d[current] - {key}];
      ok := true;
    }

    /** `TaskInstance.set(instance)`: the instance's attributes become the
        current task's record. */
    method SetInstance(current: Task, instance: map<string, V>) returns (r: TaskLocal<V>)
      modifies this
      ensures r == this && d == old(d)[current := instance]
    {
      d := d[current := instance];
      r := this;
    }

    /** `TaskInstance.unset()`: drops the current task's record; KeyError when
        it has none. */
    method Unset(current: Task) returns (ok: bool)
      modifies this
      ensures ok <==> current in old(d)
      ensures d == old(d) - {current}
    {
      ok := current in d;
      d := d - {current};
    }
  }

  /** After a task sets an attribute, its own lookups find the value, whether
      recursive or not. */
  lemma ReadOwnWrite<V>(d: map<Task, map<string, V>>, current: Task, rest: seq<Task>, key: string, value: V, recursive: bool)
    ensures var record := if current in d then d[current] else map[];
      Lookup(d[current := record[key := value]], [current] + rest, key, recursive) == Some(value)
  {
  }

  /** Setting an attribute for one task leaves every lookup of a chain that
      does not contain that task as it was. */
  lemma {:induction false} OtherTasksUnchanged<V>(d: map<Task, map<string, V>>, current: Task, record: map<string, V>,
                                                 chain: seq<Task>, key: string, recursive: bool)
    requires current !in chain
    ensures Lookup(d[current := record], chain, key, recursive) == Lookup(d, chain, key, recursive)
    decreases |chain|
  {
    if chain != [] {
      assert chain[0] != current;
      assert current !in chain[1..];
      OtherTasksUnchanged(d, current, record, chain[1..], key, recursive);
    }
  }

  /** A delete that succeeded leaves the attribute absent for the current task
      but visible again from an ancestor that holds it. */
  lemma DeleteFallsBack<V>(d: map<Task, map<string, V>>, current: Task, rest: seq<Task>, key: string)
    requires Has(d, current, key)
    ensures var d' := d[current := d[current] - {key}];
      Lookup(d', [current] + rest, key, false).None? &&
      Lookup(d', [current] + rest, key, true) == Lookup(d', rest, key, true)
  {
    assert ([current] + rest)[1..] == rest;
  }
}
