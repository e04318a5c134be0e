/** The small inversion-of-control container: resources are registered under
    dotted names, and `finalize` copies each onto the global context object,
    where a dotted name becomes a chain of attributes (`config.db.host` is the
    `host` attribute of the `db` attribute of the `config` attribute). Objects
    are modelled by value: an object is its map from attribute names to
    attributes, and an attribute is a plain value or another object. */
module Application {
  import opened Common

  datatype Object<V> = Obj(attrs: map<string, Attr<V>>)
  datatype Attr<V> = Leaf(v: V) | Node(o: Object<V>)

  /** A fresh `Context()`, without attributes. */
  function Fresh<V>(): Object<V>
  {
    Obj(map[])
  }

  const NO_ATTRIBUTES := "AttributeError"

  /** `Context.set_attribute(obj, key, val)`: an undotted key is set on the
      object; for a dotted key the head attribute is followed, or created as
      a fresh Context when missing, and the rest of the key is set on it. A
      head attribute that is a plain value takes no attributes. */
  function SetAttribute<V>(o: Object<V>, key: string, val: Attr<V>): (r: Result<Object<V>>)
    ensures r.Err? ==> r.error == NO_ATTRIBUTES && FindChar(key, '.').Some?
    ensures r.Ok? ==> Head(key) in r.value.attrs && r.value.attrs.Keys == o.attrs.Keys + {Head(key)}
    ensures r.Ok? ==> forall k | k in o.attrs && k != Head(key) :: r.value.attrs[k] == o.attrs[k]
    decreases |key|
  {
    match FindChar(key, '.')
      case None => Ok(Obj(o.attrs[key := val]))
      case Some(i) =>
        var head, rest := key[..i], key[i + 1..];
        var p: Result<Object<V>> :=
          if head !in o.attrs then Ok(Fresh())
          else if o.attrs[head].Leaf? then Err(NO_ATTRIBUTES)
          else Ok(o.attrs[head].o);
        if p.Err? then Err(p.error)
        else match SetAttribute(p.value, rest, val)
          case Err(e) => Err(e)
          case Ok(p') => Ok(Obj(o.attrs[head := Node(p')]))
  }

  /** What a dotted key names on an object: the attribute reached by following
      its parts. */
  function Resolve<V>(o: Object<V>, key: string): (r: Option<Attr<V>>)
    ensures r.Some? ==> Head(key) in o.attrs
    ensures r.Some? && FindChar(key, '.').Some? ==> o.attrs[Head(key)].Node?
    ensures FindChar(key, '.').None? ==> (r.Some? <==> key in o.attrs)
    decreases |key|
  {
    match FindChar(key, '.')
      case None => if key in o.attrs then Some(o.attrs[key]) else None
      case Some(i) =>
        var head := key[..i];
        if head in o.attrs && o.attrs[head].Node? then Resolve(o.attrs[head].o, key[i + 1..]) else None
  }

  /** Two keys that part ways: their heads differ, or both go on past the same
      head and their rests part ways. */
  predicate Diverge(a: string, b: string)
    decreases |a|
  {
    match (FindChar(a, '.'), FindChar(b, '.'))
      case (None, None) => a != b
      case (Some(i), None) => a[..i] != b
      case (None, Some(j)) => a != b[..j]
      case (Some(i), Some(j)) => a[..i] != b[..j] || Diverge(a[i + 1..], b[j + 1..])
  }

  /** After a successful set, the key names the value set. */
  lemma {:induction false} SetThenResolve<V>(o: Object<V>, key: string, val: Attr<V>)
    requires SetAttribute(o, key, val).Ok?
    ensures Resolve(SetAttribute(o, key, val).value, key) == Some(val)
    decreases |key|
  {
    match FindChar(key, '.') {
      case None =>
      case Some(i) =>
        var head, rest := key[..i], key[i + 1..];
        var p := if head !in o.attrs then Fresh() else o.attrs[head].o;
        SetThenResolve(p, rest, val);
    }
  }

  /** The attribute a key starts with. */
  function Head(key: string): string
  {
    match FindChar(key, '.')
      case None => key
      case Some(i) => key[..i]
  }

  /** A set changes only the attribute its key starts with. */
  lemma SetShape<V>(o: Object<V>, key: string, val: Attr<V>)
    requires SetAttribute(o, key, val).Ok?
    ensures var r := SetAttribute(o, key, val).value;
      Head(key) in r.attrs && r == Obj(o.attrs[Head(key) := r.attrs[Head(key)]])
  {
  }

  /** Changing one attribute leaves what keys with another head name. */
  lemma OtherHead<V>(attrs: map<string, Attr<V>>, h: string, x: Attr<V>, other: string)
    requires Head(other) != h
    ensures Resolve(Obj(attrs[h := x]), other) == Resolve(Obj(attrs), other)
  {
  }

  /** A set leaves every key that parts ways with it naming what it named:
      setting 'a.b' then 'a.c' keeps 'a.b'. */
  lemma {:induction false} SiblingsKept<V>(o: Object<V>, key: string, val: Attr<V>, other: string)
    requires SetAttribute(o, key, val).Ok? && Diverge(key, other)
    ensures Resolve(SetAttribute(o, key, val).value, other) == Resolve(o, other)
    decreases |key|, 1
  {
    if Head(key) != Head(other) {
      SetShape(o, key, val);
      OtherHead(o.attrs, Head(key), SetAttribute(o, key, val).value.attrs[Head(key)], other);
    } else {
      SameHeadKept(o, key, val, other);
    }
  }

  /** Keys that part ways below a shared head: the set and the lookup both go
      through the same attribute. */
  lemma {:induction false} SameHeadKept<V>(o: Object<V>, key: string, val: Attr<V>, other: string)
    requires SetAttribute(o, key, val).Ok? && Diverge(key, other) && Head(key) == Head(other)
    ensures Resolve(SetAttribute(o, key, val).value, other) == Resolve(o, other)
    decreases |key|, 0
  {
    assert FindChar(key, '.').Some? && FindChar(other, '.').Some?;
    var i, j := FindChar(key, '.').value, FindChar(other, '.').value;
    var head, rest := key[..i], key[i + 1..];
    var p := if head !in o.attrs then Fresh() else o.attrs[head].o;
    SiblingsKept(p, rest, val, other[j + 1..]);
    if head !in o.attrs {
      EmptyResolves<V>(other[j + 1..]);
    }
  }

  /** A fresh Context names nothing. */
  lemma EmptyResolves<V>(key: string)
    ensures Resolve(Fresh<V>(), key) == None
  {
  }

  /** The set fails exactly when a head on the way is a plain value. */
  lemma {:induction false} SetFails<V>(o: Object<V>, key: string, val: Attr<V>)
    ensures SetAttribute(o, key, val).Err? <==> BlockedAt(o, key)
    decreases |key|
  {
    match FindChar(key, '.') {
      case None =>
      case Some(i) =>
        var head, rest := key[..i], key[i + 1..];
        if head in o.attrs && o.attrs[head].Node? {
          SetFails(o.attrs[head].o, rest, val);
        } else if head !in o.attrs {
          FreshNeverBlocked<V>(rest);
          SetFails(Fresh<V>(), rest, val);
        }
    }
  }

  /** Some proper dotted prefix of the key names a plain value. */
  predicate BlockedAt<V>(o: Object<V>, key: string)
    decreases |key|
  {
    match FindChar(key, '.')
      case None => false
      case Some(i) =>
        var head := key[..i];
        head in o.attrs && (o.attrs[head].Leaf? || BlockedAt(o.attrs[head].o, key[i + 1..]))
  }

  lemma FreshNeverBlocked<V>(key: string)
    ensures !BlockedAt(Fresh<V>(), key)
  {
  }

  // ---------------------------------------------------------------------
  // Sorted keys

  /** Python's `<` on byte strings: lexicographic by char code. */
  predicate Below(a: string, b: string)
    decreases |a|
  {
    if a == [] then b != []
    else if b == [] then false
    else a[0] < b[0] || (a[0] == b[0] && Below(a[1..], b[1..]))
  }

  lemma {:induction false} BelowTransitive(a: string, b: string, c: string)
    requires Below(a, b) && Below(b, c)
    ensures Below(a, c)
    decreases |a|
  {
    if a != [] && a[0] == b[0] && b[0] == c[0] {
      BelowTransitive(a[1..], b[1..], c[1..]);
    }
  }

  lemma {:induction false} BelowTotal(a: string, b: string)
    requires a != b
    ensures Below(a, b) || Below(b, a)
    decreases |a|
  {
    if a != [] && b != [] && a[0] == b[0] {
      assert a == [a[0]] + a[1..] && b == [b[0]] + b[1..];
      BelowTotal(a[1..], b[1..]);
    }
  }

  lemma {:induction false} BelowIrreflexive(a: string)
    ensures !Below(a, a)
    decreases |a|
  {
    if a != [] {
      BelowIrreflexive(a[1..]);
    }
  }

  predicate Least(m: string, s: set<string>)
  {
    m in s && forall x | x in s :: !Below(x, m)
  }

  /** A non-empty finite set of strings has a least element. */
  lemma LeastExists(s: set<string>)
    requires s != {}
    ensures exists m :: Least(m, s)
    decreases |s|
  {
    var x :| x in s;
    if s - {x} == {} {
      assert s == {x};
      BelowIrreflexive(x);
      assert Least(x, s);
    } else {
      LeastExists(s - {x});
      var m :| Least(m, s - {x});
      if Below(x, m) {
        forall y | y in s ensures !Below(y, x) {
          if y == x {
            BelowIrreflexive(x);
          } else if Below(y, x) {
            BelowTransitive(y, x, m);
          }
        }
        assert Least(x, s);
      } else {
        assert Least(m, s);
      }
    }
  }

  /** Strictly increasing, so without repeats. */
  predicate Increasing(s: seq<string>)
  {
    forall i, j | 0 <= i < j < |s| :: Below(s[i], s[j])
  }

  /** `sorted(keys)`: the keys, each once, in increasing order. */
  method SortedKeys(keys: set<string>) returns (order: seq<string>)
    ensures Increasing(order) && (forall k :: k in keys <==> k in order)
  {
    var left := keys;
    order := [];
    while left != {}
      invariant Increasing(order)
      invariant forall k :: k in keys <==> k in order || k in left
      invariant forall i, k | 0 <= i < |order| && k in left :: Below(order[i], k)
      decreases |left|
    {
      LeastExists(left);
      var m :| Least(m, left);
      forall k | k in left - {m} ensures Below(m, k) {
        BelowTotal(m, k);
      }
      order := order + [m];
      left := left - {m};
    }
  }

  // ---------------------------------------------------------------------
  // The container

  /** The context `finalize` leaves behind, and the error that stopped it. */
  datatype Finalized<V> = Finalized(context: Object<V>, error: Option<string>)

  /** Applies `set_attribute` for each key of `order` in turn, stopping at the
      first failure. The context is changed in place, so a failure keeps what
      the earlier sets did; the failing set itself changes nothing, as it
      only follows existing attributes until it meets a plain value (a
      Context it creates never blocks, FreshNeverBlocked). */
  function ApplyAll<V>(o: Object<V>, order: seq<string>, resources: map<string, Attr<V>>): (r: Finalized<V>)
    requires forall i | 0 <= i < |order| :: order[i] in resources
    decreases |order|
  {
    if order == [] then Finalized(o, None)
    else match SetAttribute(o, order[0], resources[order[0]])
      case Err(e) => Finalized(o, Some(e))
      case Ok(o') => ApplyAll(o', order[1..], resources)
  }

  /** A failure comes from one key of the order: the keys before it were all
      set, and the context is what setting them gave. */
  lemma {:induction false} ApplyAllStops<V>(o: Object<V>, order: seq<string>, resources: map<string, Attr<V>>)
    requires forall i | 0 <= i < |order| :: order[i] in resources
    requires ApplyAll(o, order, resources).error.Some?
    ensures exists n | 0 <= n < |order| ::
      ApplyAll(o, order[..n], resources) == Finalized(ApplyAll(o, order, resources).context, None) &&
      SetAttribute(ApplyAll(o, order, resources).context, order[n], resources[order[n]]) ==
        Err(ApplyAll(o, order, resources).error.value)
    decreases |order|
  {
    var f := ApplyAll(o, order, resources);
    match SetAttribute(o, order[0], resources[order[0]]) {
      case Err(e) =>
        assert order[..0] == [];
        assert ApplyAll(o, order[..0], resources) == Finalized(o, None);
      case Ok(o') =>
        var t := order[1..];
        assert forall i | 0 <= i < |t| :: t[i] == order[i + 1];
        ApplyAllStops(o', t, resources);
        var n :| 0 <= n < |t| && ApplyAll(o', t[..n], resources) == Finalized(f.context, None) &&
          SetAttribute(f.context, t[n], resources[t[n]]) == Err(f.error.value);
        assert order[..n + 1][0] == order[0] && order[..n + 1][1..] == t[..n];
        assert ApplyAll(o, order[..n + 1], resources) == Finalized(f.context, None);
        assert t[n] == order[n + 1];
    }
  }

  /** When every set succeeds, the last key of the order names its resource. */
  lemma {:induction false} ApplyAllLast<V>(o: Object<V>, order: seq<string>, resources: map<string, Attr<V>>)
    requires order != [] && forall i | 0 <= i < |order| :: order[i] in resources
    requires ApplyAll(o, order, resources).error.None?
    requires forall i | 0 <= i < |order| - 1 :: Diverge(order[i], order[|order| - 1]) || order[i] == order[|order| - 1]
    ensures Resolve(ApplyAll(o, order, resources).context, order[|order| - 1]) == Some(resources[order[|order| - 1]])
    decreases |order|
  {
    var o' := SetAttribute(o, order[0], resources[order[0]]).value;
    if |order| == 1 {
      SetThenResolve(o, order[0], resources[order[0]]);
    } else {
      assert order[1..][|order[1..]| - 1] == order[|order| - 1];
      forall i | 0 <= i < |order[1..]| - 1
        ensures Diverge(order[1..][i], order[|order| - 1]) || order[1..][i] == order[|order| - 1]
      {
        assert order[1..][i] == order[i + 1];
      }
      ApplyAllLast(o', order[1..], resources);
    }
  }

  /** Different keys under one prefix are different names. */
  lemma PrefixInjective(prefix: string, a: string, b: string)
    requires a != b
    ensures prefix + "." + a != prefix + "." + b
  {
    assert a == (prefix + "." + a)[|prefix| + 1..];
    assert b == (prefix + "." + b)[|prefix| + 1..];
  }

  /** `Container()`: resources by dotted name. */
  class Container<V> {
    var resources: map<string, Attr<V>>

    constructor ()
      ensures resources == map[]
    {
      resources := map[];
    }

    /** `add(key, resource)`. */
    method Add(key: string, resource: Attr<V>)
      modifies this
      ensures resources == old(resources)[key := resource]
    {
      resources := resources[key := resource];
    }

    /** `configure(parameters, prefix)`: each parameter becomes the resource
        `prefix + '.' + key`; None or no parameters change nothing. */
    method Configure(parameters: Option<map<string, V>>, prefix: string)
      modifies this
      ensures parameters.None? || parameters.value == map[] ==> resources == old(resources)
      ensures parameters.Some? ==> forall k | k in parameters.value ::
        (prefix + "." + k) in resources && resources[prefix + "." + k] == Leaf(parameters.value[k])
      ensures parameters.Some? ==> forall k | k in resources ::
        (k in old(resources) && resources[k] == old(resources)[k]) || exists p | p in parameters.value :: k == prefix + "." + p
      ensures forall k | k in old(resources) :: k in resources
    {
      if parameters.None? || parameters.value == map[] {
        return;
      }
      var params := parameters.value;
      var left := params.Keys;
      while left != {}
        invariant left <= params.Keys
        invariant forall k | k in params.Keys - left ::
          (prefix + "." + k) in resources && resources[prefix + "." + k] == Leaf(params[k])
        invariant forall k | k in resources ::
          (k in old(resources) && resources[k] == old(resources)[k]) || exists p | p in params :: k == prefix + "." + p
        invariant forall k | k in old(resources) :: k in resources
        decreases |left|
      {
        var key :| key in left;
        forall k | k in params.Keys - left ensures prefix + "." + k != prefix + "." + key {
          PrefixInjective(prefix, k, key);
        }
        resources := resources[prefix + "." + key := Leaf(params[key])];
        left := left - {key};
      }
    }

    /** `finalize()`: sets `container` on the context, then every resource in
        sorted key order; the first failed set ends it, and the context keeps
        what the sets before it did. */
    method Finalize(context: Object<V>, me: Attr<V>) returns (f: Finalized<V>, order: seq<string>)
      ensures Increasing(order) && (forall k :: k in resources <==> k in order)
      ensures forall i | 0 <= i < |order| :: order[i] in resources
      ensures SetAttribute(context, "container", me).Err? ==>
        f == Finalized(context, Some(SetAttribute(context, "container", me).error))
      ensures SetAttribute(context, "container", me).Ok? ==>
        f == ApplyAll(SetAttribute(context, "container", me).value, order, resources)
    {
      order := SortedKeys(resources.Keys);
      match SetAttribute(context, "container", me) {
        case Err(e) =>
          f := Finalized(context, Some(e));
        case Ok(c) =>
          var o := c;
          var i := 0;
          while i < |order|
            invariant 0 <= i <= |order|
            invariant ApplyAll(o, order[i..], resources) == ApplyAll(c, order, resources)
          {
            assert order[i..][1..] == order[i + 1..];
            var next := SetAttribute(o, order[i], resources[order[i]]);
            if next.Err? {
              return Finalized(o, Some(next.error)), order;
            }
            o := next.value;
            i := i + 1;
          }
          f := Finalized(o, None);
      }
    }
  }
}
