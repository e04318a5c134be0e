/** The deque-dictionary of containers/dequedict.py: a circular doubly linked
    list threaded through a sentinel node, plus a map from each key to its
    node, giving constant-time append, pop, move-to-head and delete by key. */
module DequeDicts {
  import opened Common


  // ---------------------------------------------------------------------
  // Item lists

  /** Items i and j have different keys. */
  ghost predicate KeysApart<K, V>(s: seq<(K, V)>, i: nat, j: nat)
    requires i < |s| && j < |s|
  {
    s[i].0 != s[j].0
  }

  /** No key occurs twice among the items. */
  ghost predicate UniqueKeys<K, V>(s: seq<(K, V)>)
  {
    forall i, j | 0 <= i < j < |s| :: KeysApart(s, i, j)
  }

  /** The keys of the items. */
  ghost function KeysOf<K, V>(s: seq<(K, V)>): set<K>
  {
    set i | 0 <= i < |s| :: s[i].0
  }

  /** The items with key `k` removed, the others in their order. */
  ghost function Without<K, V>(s: seq<(K, V)>, k: K): seq<(K, V)>
  {
    if s == [] then [] else (if s[0].0 == k then [] else [s[0]]) + Without(s[1..], k)
  }

  /** The sequence without its element at index p. */
  ghost function RemoveAt<T>(s: seq<T>, p: nat): (r: seq<T>)
    requires p < |s|
    ensures |r| == |s| - 1
  {
    seq(|s| - 1, i requires 0 <= i < |s| - 1 => if i < p then s[i] else s[i + 1])
  }

  /** The sequence in reverse order. */
  ghost function Reverse<T>(s: seq<T>): (r: seq<T>)
    ensures |r| == |s|
  {
    seq(|s|, i requires 0 <= i < |s| => s[|s| - 1 - i])
  }

  /** Dropping the first item keeps the keys unique. */
  lemma UniqueTail<K, V>(s: seq<(K, V)>)
    requires s != [] && UniqueKeys(s)
    ensures UniqueKeys(s[1..]) && forall i | 0 <= i < |s| - 1 :: s[1..][i].0 != s[0].0
  {
    var t := s[1..];
    forall i, j | 0 <= i < j < |t| ensures KeysApart(t, i, j) {
      assert KeysApart(s, i + 1, j + 1);
    }
    forall i | 0 <= i < |t| ensures t[i].0 != s[0].0 {
      assert KeysApart(s, 0, i + 1);
    }
  }

  /** With unique keys, removing the key found at index p removes exactly that item. */
  lemma {:induction false} WithoutAt<K, V>(s: seq<(K, V)>, p: nat)
    requires p < |s| && UniqueKeys(s)
    ensures Without(s, s[p].0) == RemoveAt(s, p)
  {
    var t := s[1..];
    UniqueTail(s);
    if p == 0 {
      WithoutAbsent(t, s[0].0);
      assert RemoveAt(s, 0) == t;
    } else {
      assert t[p - 1] == s[p];
      assert s[0].0 != s[p].0 by { assert KeysApart(s, 0, p); }
      WithoutAt(t, p - 1);
      assert RemoveAt(s, p) == [s[0]] + RemoveAt(t, p - 1);
    }
  }

  /** Removing an absent key changes nothing. */
  lemma {:induction false} WithoutAbsent<K, V>(s: seq<(K, V)>, k: K)
    requires forall i | 0 <= i < |s| :: s[i].0 != k
    ensures Without(s, k) == s
  {
    if s != [] {
      var t := s[1..];
      forall i | 0 <= i < |t| ensures t[i].0 != k { assert t[i] == s[i + 1]; }
      WithoutAbsent(t, k);
      assert [s[0]] + t == s;
    }
  }

  lemma UniqueSnoc<K, V>(s: seq<(K, V)>, x: (K, V))
    requires UniqueKeys(s) && forall i | 0 <= i < |s| :: s[i].0 != x.0
    ensures UniqueKeys(s + [x])
  {
    var t := s + [x];
    forall i, j | 0 <= i < j < |t| ensures KeysApart(t, i, j) {
      assert t[i] == s[i];
      if j < |s| { assert t[j] == s[j] && KeysApart(s, i, j); }
    }
  }

  lemma UniqueCons<K, V>(s: seq<(K, V)>, x: (K, V))
    requires UniqueKeys(s) && forall i | 0 <= i < |s| :: s[i].0 != x.0
    ensures UniqueKeys([x] + s)
  {
    var t := [x] + s;
    forall i, j | 0 <= i < j < |t| ensures KeysApart(t, i, j) {
      assert t[j] == s[j - 1];
      if 0 < i { assert t[i] == s[i - 1] && KeysApart(s, i - 1, j - 1); }
    }
  }

  /** Removing one item keeps the keys unique, and the removed key is gone. */
  lemma UniqueRemove<K, V>(s: seq<(K, V)>, p: nat)
    requires p < |s| && UniqueKeys(s)
    ensures UniqueKeys(RemoveAt(s, p))
    ensures forall i | 0 <= i < |s| - 1 :: RemoveAt(s, p)[i].0 != s[p].0
  {
    var t := RemoveAt(s, p);
    forall i, j | 0 <= i < j < |t| ensures KeysApart(t, i, j) {
      var i', j' := (if i < p then i else i + 1), (if j < p then j else j + 1);
      assert t[i] == s[i'] && t[j] == s[j'] && KeysApart(s, i', j');
    }
    forall i | 0 <= i < |t| ensures t[i].0 != s[p].0 {
      var i' := if i < p then i else i + 1;
      assert t[i] == s[i'];
      if i' < p { assert KeysApart(s, i', p); } else { assert KeysApart(s, p, i'); }
    }
  }

  lemma KeysOfPrepend<K, V>(s: seq<(K, V)>, x: (K, V))
    ensures KeysOf([x] + s) == KeysOf(s) + {x.0}
  {
    var t := [x] + s;
    assert t[0].0 == x.0;
    forall k | k in KeysOf(s) ensures k in KeysOf(t) {
      var j :| 0 <= j < |s| && s[j].0 == k;
      assert t[j + 1].0 == k;
    }
    forall k | k in KeysOf(t) ensures k in KeysOf(s) + {x.0} {
      var j :| 0 <= j < |t| && t[j].0 == k;
      if j > 0 { assert s[j - 1].0 == k; }
    }
  }

  /** One more item of `items` after the first n. */
  lemma PrefixSnoc<T>(before: seq<T>, items: seq<T>, n: nat)
    requires n < |items|
    ensures before + items[..n] + [items[n]] == before + items[..n + 1]
  {
    assert items[..n + 1] == items[..n] + [items[n]];
  }

  /** With unique keys overall, the next item's key is not among those before it. */
  lemma NextKeyFresh<K, V>(before: seq<(K, V)>, items: seq<(K, V)>, n: nat)
    requires UniqueKeys(before + items) && n < |items|
    ensures items[n].0 !in KeysOf(before + items[..n])
  {
    var s, t := before + items, before + items[..n];
    assert s[|before| + n] == items[n];
    forall j | 0 <= j < |t| ensures t[j].0 != items[n].0 {
      assert t[j] == s[j] && KeysApart(s, j, |before| + n);
    }
  }

  lemma {:induction false} UniqueKeysCard<K, V>(s: seq<(K, V)>)
    requires UniqueKeys(s)
    ensures |KeysOf(s)| == |s|
  {
    if s != [] {
      var t := s[1..];
      UniqueTail(s);
      UniqueKeysCard(t);
      KeysOfPrepend(t, s[0]);
      assert [s[0]] + t == s;
    }
  }

  lemma {:induction false} SubsetSameCard<T>(a: set<T>, b: set<T>)
    requires a <= b && |a| == |b|
    ensures a == b
  {
    if a != b {
      var x :| x in b && x !in a;
      SubsetCard(a, b - {x});
    }
  }

  lemma {:induction false} SubsetCard<T>(a: set<T>, b: set<T>)
    requires a <= b
    ensures |a| <= |b|
    decreases |a|
  {
    if a != {} {
      var y :| y in a;
      SubsetCard(a - {y}, b - {y});
    }
  }

  // ---------------------------------------------------------------------
  // The node store

  /** The id of the sentinel node `self.l`. */
  const L: nat := 0

  /** Positions i and j hold different nodes. */
  ghost predicate NodesApart(ns: seq<nat>, i: nat, j: nat)
    requires i < |ns| && j < |ns|
  {
    ns[i] != ns[j]
  }

  /** Node i links forward to node i + 1 and that one back to it. */
  ghost predicate Step(next: map<nat, nat>, prev: map<nat, nat>, ns: seq<nat>, i: nat)
    requires i + 1 < |ns|
  {
    ns[i] in next && next[ns[i]] == ns[i + 1] && ns[i + 1] in prev && prev[ns[i + 1]] == ns[i]
  }

  /** The links form one circle: from the sentinel through `ns` in order and back.
      `n.next` is `next[n]` and `n.prev` is `prev[n]`. */
  ghost predicate Linked(next: map<nat, nat>, prev: map<nat, nat>, ns: seq<nat>)
  {
    L in next && L in prev &&
    (forall i | 0 <= i < |ns| :: ns[i] != L && ns[i] in next && ns[i] in prev) &&
    (forall i, j | 0 <= i < j < |ns| :: NodesApart(ns, i, j)) &&
    next[L] == (if |ns| == 0 then L else ns[0]) &&
    prev[L] == (if |ns| == 0 then L else ns[|ns| - 1]) &&
    (|ns| > 0 ==> prev[ns[0]] == L && next[ns[|ns| - 1]] == L) &&
    (forall i | 0 <= i < |ns| - 1 :: Step(next, prev, ns, i))
  }

  /** Node i of `ns` carries item i of `cs`, ids below `nextId` are taken, the
      sentinel's key is None, keys are distinct, and `d` sends each item's key to
      its node and holds nothing else. */
  ghost predicate Carries<K, V>(nodeKey: map<nat, Option<K>>, nodeValue: map<nat, Option<V>>,
                                d: map<K, nat>, nextId: nat, ns: seq<nat>, cs: seq<(K, V)>)
  {
    |cs| == |ns| && L < nextId && L in nodeKey && nodeKey[L] == None &&
    (forall i | 0 <= i < |ns| ::
       L < ns[i] < nextId && ns[i] in nodeKey && ns[i] in nodeValue &&
       nodeKey[ns[i]] == Some(cs[i].0) && nodeValue[ns[i]] == Some(cs[i].1) &&
       cs[i].0 in d && d[cs[i].0] == ns[i]) &&
    UniqueKeys(cs) && |d| == |ns|
  }

  /** The whole store: the circle links the nodes `ns`, which carry the items `cs`. */
  ghost predicate Represents<K, V>(next: map<nat, nat>, prev: map<nat, nat>,
                                   nodeKey: map<nat, Option<K>>, nodeValue: map<nat, Option<V>>,
                                   d: map<K, nat>, nextId: nat, ns: seq<nat>, cs: seq<(K, V)>)
  {
    Linked(next, prev, ns) && Carries(nodeKey, nodeValue, d, nextId, ns, cs)
  }

  /** The links `append` makes close the circle around a new last node. */
  lemma LinkLast(next: map<nat, nat>, prev: map<nat, nat>, ns: seq<nat>, n: nat)
    requires Linked(next, prev, ns) && n != L && forall i | 0 <= i < |ns| :: ns[i] != n
    ensures Linked(next[prev[L] := n][n := L], prev[n := prev[L]][L := n], ns + [n])
  {
    var nx, pv, t, N := next[prev[L] := n][n := L], prev[n := prev[L]][L := n], ns + [n], |ns|;
    forall i | 0 <= i < N
      ensures t[i] == ns[i] && pv[ns[i]] == prev[ns[i]] && (i < N - 1 ==> nx[ns[i]] == next[ns[i]])
    {
      if i < N - 1 { assert NodesApart(ns, i, N - 1); }
    }
    forall i, j | 0 <= i < j < |t| ensures NodesApart(t, i, j) {
      if j < N { assert NodesApart(ns, i, j); }
    }
    forall i | 0 <= i < |t| - 1 ensures Step(nx, pv, t, i) {
      if i + 1 < N { assert Step(next, prev, ns, i); }
    }
  }

  /** The links `appendleft` makes close the circle around a new first node. */
  lemma LinkFirst(next: map<nat, nat>, prev: map<nat, nat>, ns: seq<nat>, n: nat)
    requires Linked(next, prev, ns) && n != L && forall i | 0 <= i < |ns| :: ns[i] != n
    ensures Linked(next[n := next[L]][L := n], prev[next[L] := n][n := L], [n] + ns)
  {
    var nx, pv, t, N := next[n := next[L]][L := n], prev[next[L] := n][n := L], [n] + ns, |ns|;
    forall i | 0 <= i < N
      ensures t[i + 1] == ns[i] && nx[ns[i]] == next[ns[i]] && (0 < i ==> pv[ns[i]] == prev[ns[i]])
    {
      if 0 < i { assert NodesApart(ns, 0, i); }
    }
    forall i, j | 0 <= i < j < |t| ensures NodesApart(t, i, j) {
      if 0 < i { assert NodesApart(ns, i - 1, j - 1); }
    }
    forall i | 0 <= i < |t| - 1 ensures Step(nx, pv, t, i) {
      if 0 < i { assert Step(next, prev, ns, i - 1); }
    }
  }

  /** The links `pop` makes leave the last node out of the circle. */
  lemma LinkDropLast(next: map<nat, nat>, prev: map<nat, nat>, ns: seq<nat>)
    requires Linked(next, prev, ns) && |ns| > 0
    ensures Linked(next[prev[ns[|ns| - 1]] := L], prev[L := prev[ns[|ns| - 1]]], ns[..|ns| - 1])
  {
    var N := |ns|;
    var nx, pv, t := next[prev[ns[N - 1]] := L], prev[L := prev[ns[N - 1]]], ns[..N - 1];
    assert N > 1 ==> prev[ns[N - 1]] == ns[N - 2] by {
      if N > 1 { assert Step(next, prev, ns, N - 2); }
    }
    forall i | 0 <= i < N - 1
      ensures t[i] == ns[i] && pv[ns[i]] == prev[ns[i]] && (i < N - 2 ==> nx[ns[i]] == next[ns[i]])
    {
      assert NodesApart(ns, i, N - 1);
      if i < N - 2 { assert NodesApart(ns, i, N - 2); }
    }
    forall i, j | 0 <= i < j < |t| ensures NodesApart(t, i, j) {
      assert NodesApart(ns, i, j);
    }
    forall i | 0 <= i < |t| - 1 ensures Step(nx, pv, t, i) {
      assert Step(next, prev, ns, i);
    }
  }

  /** The links `popleft` makes leave the first node out of the circle. */
  lemma LinkDropFirst(next: map<nat, nat>, prev: map<nat, nat>, ns: seq<nat>)
    requires Linked(next, prev, ns) && |ns| > 0
    ensures Linked(next[L := next[ns[0]]], prev[next[ns[0]] := L], ns[1..])
  {
    var N := |ns|;
    var nx, pv, t := next[L := next[ns[0]]], prev[next[ns[0]] := L], ns[1..];
    assert N > 1 ==> next[ns[0]] == ns[1] by {
      if N > 1 { assert Step(next, prev, ns, 0); }
    }
    forall i | 1 <= i < N
      ensures t[i - 1] == ns[i] && nx[ns[i]] == next[ns[i]] && (1 < i ==> pv[ns[i]] == prev[ns[i]])
    {
      if 1 < i { assert NodesApart(ns, 1, i); }
    }
    forall i, j | 0 <= i < j < |t| ensures NodesApart(t, i, j) {
      assert NodesApart(ns, i + 1, j + 1);
    }
    forall i | 0 <= i < |t| - 1 ensures Step(nx, pv, t, i) {
      assert Step(next, prev, ns, i + 1);
    }
  }

  /** The neighbours of node p in the circle: the sentinel at either end. */
  lemma Neighbours(next: map<nat, nat>, prev: map<nat, nat>, ns: seq<nat>, p: nat)
    requires Linked(next, prev, ns) && p < |ns|
    ensures prev[ns[p]] == (if p == 0 then L else ns[p - 1]) && prev[ns[p]] != ns[p]
    ensures next[ns[p]] == (if p == |ns| - 1 then L else ns[p + 1]) && next[ns[p]] != ns[p]
  {
    if p > 0 { assert Step(next, prev, ns, p - 1) && NodesApart(ns, p - 1, p); }
    if p < |ns| - 1 { assert Step(next, prev, ns, p) && NodesApart(ns, p, p + 1); }
  }

  /** Leaving out node p keeps the other nodes apart, and p is not among them. */
  lemma RemoveApart(ns: seq<nat>, p: nat)
    requires p < |ns| && forall i, j | 0 <= i < j < |ns| :: NodesApart(ns, i, j)
    ensures forall i | 0 <= i < |ns| - 1 :: RemoveAt(ns, p)[i] != ns[p]
    ensures forall i, j | 0 <= i < j < |ns| - 1 :: NodesApart(RemoveAt(ns, p), i, j)
  {
    var t := RemoveAt(ns, p);
    forall i | 0 <= i < |ns| - 1 ensures t[i] != ns[p] {
      if i < p { assert NodesApart(ns, i, p); } else { assert NodesApart(ns, p, i + 1); }
    }
    forall i, j | 0 <= i < j < |t| ensures NodesApart(t, i, j) {
      var i', j' := (if i < p then i else i + 1), (if j < p then j else j + 1);
      assert NodesApart(ns, i', j');
    }
  }

  /** After unlinking node p, each remaining node steps to the next remaining one. */
  lemma UnlinkSteps(next: map<nat, nat>, prev: map<nat, nat>, ns: seq<nat>, p: nat, nx: map<nat, nat>, pv: map<nat, nat>)
    requires Linked(next, prev, ns) && p < |ns|
    requires nx == next[prev[ns[p]] := next[ns[p]]] && pv == prev[next[ns[p]] := prev[ns[p]]]
    ensures forall i | 0 <= i < |ns| - 2 :: Step(nx, pv, RemoveAt(ns, p), i)
  {
    var N, n := |ns|, ns[p];
    Neighbours(next, prev, ns, p);
    var P, X := prev[n], next[n];
    var t := RemoveAt(ns, p);
    forall i | 0 <= i < |t| - 1 ensures Step(nx, pv, t, i) {
      if i + 1 < p {
        assert t[i] == ns[i] && t[i + 1] == ns[i + 1];
        assert Step(next, prev, ns, i);
        assert NodesApart(ns, i, p - 1) && NodesApart(ns, i + 1, p);
        if p < N - 1 { assert NodesApart(ns, i + 1, p + 1); }
      } else if i >= p {
        assert t[i] == ns[i + 1] && t[i + 1] == ns[i + 2];
        assert Step(next, prev, ns, i + 1);
        if p > 0 { assert NodesApart(ns, p - 1, i + 1); }
        assert NodesApart(ns, p + 1, i + 2) && NodesApart(ns, p, i + 1);
      } else {
        assert t[i] == P && t[i + 1] == X;
      }
    }
  }

  /** The links `__delitem__` and `movehead` make around node p leave it out of
      the circle, the others in order. */
  lemma Unlink(next: map<nat, nat>, prev: map<nat, nat>, ns: seq<nat>, p: nat)
    requires Linked(next, prev, ns) && p < |ns|
    ensures next[ns[p]] != ns[p] && prev[ns[p]] != ns[p]
    ensures forall i | 0 <= i < |ns| - 1 :: RemoveAt(ns, p)[i] != ns[p]
    ensures Linked(next[prev[ns[p]] := next[ns[p]]], prev[next[ns[p]] := prev[ns[p]]], RemoveAt(ns, p))
  {
    var N, n := |ns|, ns[p];
    Neighbours(next, prev, ns, p);
    RemoveApart(ns, p);
    var P, X := prev[n], next[n];
    var nx, pv, t := next[P := X], prev[X := P], RemoveAt(ns, p);
    UnlinkSteps(next, prev, ns, p, nx, pv);
    forall i | 0 <= i < N - 1 ensures t[i] != L && t[i] in nx && t[i] in pv {
      assert t[i] == if i < p then ns[i] else ns[i + 1];
    }
    if 0 < p < N - 1 {
      assert NodesApart(ns, 0, p + 1) && NodesApart(ns, p - 1, N - 1);
    }
    if N > 1 {
      assert t[0] == if p == 0 then ns[1] else ns[0];
      assert t[N - 2] == if p == N - 1 then ns[N - 2] else ns[N - 1];
    }
  }

  /** A fresh node carrying the pair, appended last. */
  lemma CarryLast<K, V>(nodeKey: map<nat, Option<K>>, nodeValue: map<nat, Option<V>>,
                        d: map<K, nat>, nextId: nat, ns: seq<nat>, cs: seq<(K, V)>, key: K, value: V)
    requires Carries(nodeKey, nodeValue, d, nextId, ns, cs) && key !in d
    ensures nextId != L && forall i | 0 <= i < |ns| :: ns[i] != nextId
    ensures Carries(nodeKey[nextId := Some(key)], nodeValue[nextId := Some(value)], d[key := nextId],
                    nextId + 1, ns + [nextId], cs + [(key, value)])
  {
    forall i | 0 <= i < |cs| ensures cs[i].0 != key {
    }
    UniqueSnoc(cs, (key, value));
  }

  /** A fresh node carrying the pair, prepended first. */
  lemma CarryFirst<K, V>(nodeKey: map<nat, Option<K>>, nodeValue: map<nat, Option<V>>,
                         d: map<K, nat>, nextId: nat, ns: seq<nat>, cs: seq<(K, V)>, key: K, value: V)
    requires Carries(nodeKey, nodeValue, d, nextId, ns, cs) && key !in d
    ensures nextId != L && forall i | 0 <= i < |ns| :: ns[i] != nextId
    ensures Carries(nodeKey[nextId := Some(key)], nodeValue[nextId := Some(value)], d[key := nextId],
                    nextId + 1, [nextId] + ns, [(key, value)] + cs)
  {
    forall i | 0 <= i < |cs| ensures cs[i].0 != key {
    }
    UniqueCons(cs, (key, value));
    var ns', cs' := [nextId] + ns, [(key, value)] + cs;
    forall i | 1 <= i < |ns'| ensures ns'[i] == ns[i - 1] && cs'[i] == cs[i - 1] {
    }
  }

  /** Dropping item p and its key. */
  lemma CarryRemove<K, V>(nodeKey: map<nat, Option<K>>, nodeValue: map<nat, Option<V>>,
                          d: map<K, nat>, nextId: nat, ns: seq<nat>, cs: seq<(K, V)>, p: nat)
    requires Carries(nodeKey, nodeValue, d, nextId, ns, cs) && p < |ns|
    ensures Carries(nodeKey, nodeValue, d - {cs[p].0}, nextId, RemoveAt(ns, p), RemoveAt(cs, p))
  {
    UniqueRemove(cs, p);
    var ns', cs' := RemoveAt(ns, p), RemoveAt(cs, p);
    forall i | 0 <= i < |ns'|
      ensures ns'[i] == (if i < p then ns[i] else ns[i + 1]) && cs'[i] == (if i < p then cs[i] else cs[i + 1])
    {
    }
  }

  /** A node already carrying an item, put in front. */
  lemma CarryPrepend<K, V>(nodeKey: map<nat, Option<K>>, nodeValue: map<nat, Option<V>>,
                           d: map<K, nat>, nextId: nat, ns: seq<nat>, cs: seq<(K, V)>, n: nat, c: (K, V))
    requires Carries(nodeKey, nodeValue, d, nextId, ns, cs) && c.0 !in d
    requires L < n < nextId && n in nodeKey && n in nodeValue && nodeKey[n] == Some(c.0) && nodeValue[n] == Some(c.1)
    ensures Carries(nodeKey, nodeValue, d[c.0 := n], nextId, [n] + ns, [c] + cs)
  {
    forall i | 0 <= i < |cs| ensures cs[i].0 != c.0 {
    }
    UniqueCons(cs, c);
    var ns', cs' := [n] + ns, [c] + cs;
    forall i | 1 <= i < |ns'| ensures ns'[i] == ns[i - 1] && cs'[i] == cs[i - 1] {
    }
  }

  /** Moving item p to the front. */
  lemma CarryMoveFirst<K, V>(nodeKey: map<nat, Option<K>>, nodeValue: map<nat, Option<V>>,
                             d: map<K, nat>, nextId: nat, ns: seq<nat>, cs: seq<(K, V)>, p: nat)
    requires Carries(nodeKey, nodeValue, d, nextId, ns, cs) && p < |ns|
    ensures Carries(nodeKey, nodeValue, d, nextId, [ns[p]] + RemoveAt(ns, p), [cs[p]] + RemoveAt(cs, p))
  {
    var k := cs[p].0;
    CarryRemove(nodeKey, nodeValue, d, nextId, ns, cs, p);
    CarryPrepend(nodeKey, nodeValue, d - {k}, nextId, RemoveAt(ns, p), RemoveAt(cs, p), ns[p], cs[p]);
    assert (d - {k})[k := ns[p]] == d;
  }

  // ---------------------------------------------------------------------
  // The store operations, each in the order of the source's assignments

  /** `append`: a new node `n` (the next free id) carrying the pair, linked in last. */
  lemma AddLast<K, V>(next: map<nat, nat>, prev: map<nat, nat>, nodeKey: map<nat, Option<K>>, nodeValue: map<nat, Option<V>>,
                      d: map<K, nat>, nextId: nat, ns: seq<nat>, cs: seq<(K, V)>, key: K, value: V)
    returns (ns2: seq<nat>)
    requires Represents(next, prev, nodeKey, nodeValue, d, nextId, ns, cs) && key !in d
    ensures d[key := nextId].Keys == d.Keys + {key}
    ensures var n := nextId;
      Represents(next[prev[L] := n][n := L], prev[n := prev[L]][L := n],
                 nodeKey[n := Some(key)], nodeValue[n := Some(value)], d[key := n], n + 1, ns2, cs + [(key, value)])
  {
    CarryLast(nodeKey, nodeValue, d, nextId, ns, cs, key, value);
    LinkLast(next, prev, ns, nextId);
    ns2 := ns + [nextId];
  }

  /** `appendleft`: a new node carrying the pair, linked in first. */
  lemma AddFirst<K, V>(next: map<nat, nat>, prev: map<nat, nat>, nodeKey: map<nat, Option<K>>, nodeValue: map<nat, Option<V>>,
                       d: map<K, nat>, nextId: nat, ns: seq<nat>, cs: seq<(K, V)>, key: K, value: V)
    returns (ns2: seq<nat>)
    requires Represents(next, prev, nodeKey, nodeValue, d, nextId, ns, cs) && key !in d
    ensures d[key := nextId].Keys == d.Keys + {key}
    ensures var n := nextId;
      Represents(next[n := next[L]][L := n], prev[next[L] := n][n := L],
                 nodeKey[n := Some(key)], nodeValue[n := Some(value)], d[key := n], n + 1, ns2, [(key, value)] + cs)
  {
    CarryFirst(nodeKey, nodeValue, d, nextId, ns, cs, key, value);
    LinkFirst(next, prev, ns, nextId);
    ns2 := [nextId] + ns;
  }

  /** `pop` on a non-empty list: the last node `n = l.prev` carries the last item;
      unlinking it and dropping its key leaves the other items. */
  lemma DropLast<K, V>(next: map<nat, nat>, prev: map<nat, nat>, nodeKey: map<nat, Option<K>>, nodeValue: map<nat, Option<V>>,
                       d: map<K, nat>, nextId: nat, ns: seq<nat>, cs: seq<(K, V)>)
    returns (ns2: seq<nat>)
    requires Represents(next, prev, nodeKey, nodeValue, d, nextId, ns, cs) && prev[L] != L
    ensures cs != [] && prev[L] in nodeKey && prev[L] in nodeValue && prev[L] in prev
    ensures nodeKey[prev[L]] == Some(cs[|cs| - 1].0) && nodeValue[prev[L]] == Some(cs[|cs| - 1].1)
    ensures var n := prev[L];
      Represents(next[prev[n] := L], prev[L := prev[n]], nodeKey, nodeValue, d - {cs[|cs| - 1].0}, nextId, ns2, cs[..|cs| - 1])
  {
    var last := |ns| - 1;
    LinkDropLast(next, prev, ns);
    CarryRemove(nodeKey, nodeValue, d, nextId, ns, cs, last);
    assert RemoveAt(ns, last) == ns[..last];
    assert RemoveAt(cs, last) == cs[..last];
    ns2 := ns[..last];
  }

  /** `popleft` on a non-empty list: the first node `n = l.next` carries the first item. */
  lemma DropFirst<K, V>(next: map<nat, nat>, prev: map<nat, nat>, nodeKey: map<nat, Option<K>>, nodeValue: map<nat, Option<V>>,
                        d: map<K, nat>, nextId: nat, ns: seq<nat>, cs: seq<(K, V)>)
    returns (ns2: seq<nat>)
    requires Represents(next, prev, nodeKey, nodeValue, d, nextId, ns, cs) && next[L] != L
    ensures cs != [] && next[L] in nodeKey && next[L] in nodeValue && next[L] in next
    ensures nodeKey[next[L]] == Some(cs[0].0) && nodeValue[next[L]] == Some(cs[0].1)
    ensures var n := next[L];
      Represents(next[L := next[n]], prev[next[n] := L], nodeKey, nodeValue, d - {cs[0].0}, nextId, ns2, cs[1..])
  {
    LinkDropFirst(next, prev, ns);
    CarryRemove(nodeKey, nodeValue, d, nextId, ns, cs, 0);
    assert RemoveAt(ns, 0) == ns[1..];
    assert RemoveAt(cs, 0) == cs[1..];
    ns2 := ns[1..];
  }

  /** `__delitem__`: node `n = ns[p]` is unlinked and its key dropped; exactly its item goes. */
  lemma DropAt<K, V>(next: map<nat, nat>, prev: map<nat, nat>, nodeKey: map<nat, Option<K>>, nodeValue: map<nat, Option<V>>,
                     d: map<K, nat>, nextId: nat, ns: seq<nat>, cs: seq<(K, V)>, p: nat)
    returns (ns2: seq<nat>)
    requires Represents(next, prev, nodeKey, nodeValue, d, nextId, ns, cs) && p < |ns|
    ensures ns[p] in next && ns[p] in prev && next[ns[p]] != ns[p]
    ensures var n := ns[p];
      Represents(next[prev[n] := next[n]], prev[next[n] := prev[n]], nodeKey, nodeValue, d - {cs[p].0}, nextId,
                 ns2, Without(cs, cs[p].0))
  {
    WithoutAt(cs, p);
    CarryRemove(nodeKey, nodeValue, d, nextId, ns, cs, p);
    Unlink(next, prev, ns, p);
    ns2 := RemoveAt(ns, p);
  }

  /** `movehead`: node `n = ns[p]` is unlinked and relinked first; its item moves to the front. */
  lemma MoveToFront<K, V>(next: map<nat, nat>, prev: map<nat, nat>, nodeKey: map<nat, Option<K>>, nodeValue: map<nat, Option<V>>,
                          d: map<K, nat>, nextId: nat, ns: seq<nat>, cs: seq<(K, V)>, p: nat)
    returns (ns2: seq<nat>)
    requires Represents(next, prev, nodeKey, nodeValue, d, nextId, ns, cs) && p < |ns|
    ensures ns[p] in next && ns[p] in prev && next[ns[p]] != ns[p]
    ensures var n := ns[p]; var pv := prev[next[n] := prev[n]]; var nx := next[prev[n] := next[n]];
      Represents(nx[n := nx[L]][L := n], pv[nx[L] := n][n := L], nodeKey, nodeValue, d, nextId,
                 ns2, [cs[p]] + Without(cs, cs[p].0))
  {
    WithoutAt(cs, p);
    CarryMoveFirst(nodeKey, nodeValue, d, nextId, ns, cs, p);
    Unlink(next, prev, ns, p);
    var n := ns[p];
    LinkFirst(next[prev[n] := next[n]], prev[next[n] := prev[n]], RemoveAt(ns, p), n);
    ns2 := [n] + RemoveAt(ns, p);
  }

  // ---------------------------------------------------------------------
  // The structure

  /** `DequeDict`: the node store (`next`, `prev`, `nodeKey`, `nodeValue`, with
      `node()` handing out `nextId`) and the key map `d`. */
  class DequeDict<K(==,!new), V(!new)> {
    var next: map<nat, nat>
    var prev: map<nat, nat>
    var nodeKey: map<nat, Option<K>>
    var nodeValue: map<nat, Option<V>>
    /** `self.d`: key to node. */
    var d: map<K, nat>
    var nextId: nat

    /** The list nodes from the head, excluding the sentinel. */
    ghost var nodes: seq<nat>
    /** The items, in the order `iteritems` yields them. */
    ghost var Contents: seq<(K, V)>

    /** The circle through the sentinel links `nodes` in order and they carry
        `Contents`; list nodes and map entries correspond one to one. */
    ghost predicate Valid()
      reads this
    {
      Represents(next, prev, nodeKey, nodeValue, d, nextId, nodes, Contents)
    }

    /** In a valid structure the map's keys are exactly the items' keys. */
    lemma KeysAgree()
      requires Valid()
      ensures d.Keys == KeysOf(Contents)
    {
      assert KeysOf(Contents) <= d.Keys;
      UniqueKeysCard(Contents);
      SubsetSameCard(KeysOf(Contents), d.Keys);
    }

    /** The index of a present key's item. */
    lemma IndexOf(key: K) returns (p: nat)
      requires Valid() && key in d
      ensures p < |nodes| && Contents[p].0 == key && d[key] == nodes[p]
    {
      KeysAgree();
      p :| 0 <= p < |Contents| && Contents[p].0 == key;
    }

    /** `DequeDict(i)`: a sentinel linked to itself, an empty map, then `extend(i)`. */
    constructor (init: seq<(K, V)>)
      requires UniqueKeys(init)
      ensures Valid() && Contents == init
    {
      next, prev := map[L := L], map[L := L];
      nodeKey, nodeValue := map[L := None], map[L := None];
      d := map[];
      nextId := L + 1;
      nodes, Contents := [], [];
      new;
      assert Contents + init == init;
      Extend(init);
    }

    /** `extend(l)`: append each pair in order. */
    method Extend(items: seq<(K, V)>)
      requires Valid() && UniqueKeys(Contents + items)
      modifies this
      ensures Valid() && Contents == old(Contents) + items
    {
      var n := 0;
      while n < |items|
        invariant 0 <= n <= |items|
        invariant Valid() && Contents == old(Contents) + items[..n]
      {
        var k := items[n].0;
        KeysAgree();
        NextKeyFresh(old(Contents), items, n);
        Append(k, items[n].1);
        PrefixSnoc(old(Contents), items, n);
        n := n + 1;
      }
      assert items[..n] == items;
    }

    /** `append(key, value)` with a fresh key: the pair becomes the last item and
        the earlier items keep their order. */
    method Append(key: K, value: V)
      requires Valid() && key !in d
      modifies this
      ensures Valid() && Contents == old(Contents) + [(key, value)]
      ensures d.Keys == old(d.Keys) + {key}
    {
      ghost var ns2 := AddLast(next, prev, nodeKey, nodeValue, d, nextId, nodes, Contents, key, value);
      var n := nextId;
      var nx, pv := next, prev;
      nx := nx[pv[L] := n];
      pv := pv[n := pv[L]];
      nx := nx[n := L];
      pv := pv[L := n];
      next, prev, nextId, nodeKey, nodeValue, d, nodes, Contents :=
        nx, pv, n + 1, nodeKey[n := Some(key)], nodeValue[n := Some(value)], d[key := n], ns2, Contents + [(key, value)];
    }

    /** `appendleft(key, value)` with a fresh key: the pair becomes the first item. */
    method AppendLeft(key: K, value: V)
      requires Valid() && key !in d
      modifies this
      ensures Valid() && Contents == [(key, value)] + old(Contents)
      ensures d.Keys == old(d.Keys) + {key}
    {
      ghost var ns2 := AddFirst(next, prev, nodeKey, nodeValue, d, nextId, nodes, Contents, key, value);
      var n := nextId;
      var nx, pv := next, prev;
      pv := pv[nx[L] := n];
      nx := nx[n := nx[L]];
      pv := pv[n := L];
      nx := nx[L := n];
      next, prev, nextId, nodeKey, nodeValue, d, nodes, Contents :=
        nx, pv, n + 1, nodeKey[n := Some(key)], nodeValue[n := Some(value)], d[key := n], ns2, [(key, value)] + Contents;
    }

    /** `pop()`: removes and returns the last item and drops its key from the map.
        On an empty structure the sentinel's key None is not in the map, so the
        source raises KeyError (modelled as None) and nothing changes. */
    method Pop() returns (r: Option<(K, V)>)
      requires Valid()
      modifies this
      ensures Valid()
      ensures old(Contents) == [] ==> r == None && Contents == old(Contents) && d == old(d)
      ensures old(Contents) != [] ==>
        r == Some(old(Contents)[|old(Contents)| - 1]) &&
        Contents == old(Contents)[..|old(Contents)| - 1] &&
        d.Keys == old(d.Keys) - {r.value.0}
    {
      var n: nat := prev[L];
      ghost var ns2 := nodes;
      if n != L {
        ns2 := DropLast(next, prev, nodeKey, nodeValue, d, nextId, nodes, Contents);
      }
      var nx, pv := next, prev;
      nx := nx[pv[n] := L];
      pv := pv[L := pv[n]];
      next, prev := nx, pv;
      match nodeKey[n] {
        case None =>
          r := None;
        case Some(k) =>
          r := Some((k, nodeValue[n].value));
          d := d - {k};
          nodes, Contents := ns2, Contents[..|Contents| - 1];
      }
    }

    /** `popleft()`: removes and returns the first item; KeyError (None) when empty. */
    method PopLeft() returns (r: Option<(K, V)>)
      requires Valid()
      modifies this
      ensures Valid()
      ensures old(Contents) == [] ==> r == None && Contents == old(Contents) && d == old(d)
      ensures old(Contents) != [] ==>
        r == Some(old(Contents)[0]) &&
        Contents == old(Contents)[1..] &&
        d.Keys == old(d.Keys) - {r.value.0}
    {
      var n: nat := next[L];
      ghost var ns2 := nodes;
      if n != L {
        ns2 := DropFirst(next, prev, nodeKey, nodeValue, d, nextId, nodes, Contents);
      }
      var nx, pv := next, prev;
      pv := pv[nx[n] := L];
      nx := nx[L := nx[n]];
      next, prev := nx, pv;
      match nodeKey[n] {
        case None =>
          r := None;
        case Some(k) =>
          r := Some((k, nodeValue[n].value));
          d := d - {k};
          nodes, Contents := ns2, Contents[1..];
      }
    }

    /** `iteritems()`: walks `next` from the sentinel, yielding every item first to last. */
    method IterItems() returns (items: seq<(K, V)>)
      requires Valid()
      ensures items == Contents
    {
      items := [];
      var n: nat := next[L];
      ghost var i := 0;
      while n != L
        invariant 0 <= i <= |nodes|
        invariant n == if i == |nodes| then L else nodes[i]
        invariant items == Contents[..i]
        decreases |nodes| - i
      {
        assert Contents[..i + 1] == Contents[..i] + [Contents[i]];
        assert i + 1 < |nodes| ==> Step(next, prev, nodes, i);
        items := items + [(nodeKey[n].value, nodeValue[n].value)];
        n := next[n];
        i := i + 1;
      }
    }

    /** `iteritemsright()`: walks `prev` from the sentinel, yielding the items last to first. */
    method IterItemsRight() returns (items: seq<(K, V)>)
      requires Valid()
      ensures items == Reverse(Contents)
    {
      items := [];
      var n: nat := prev[L];
      ghost var i := |nodes|;
      while n != L
        invariant 0 <= i <= |nodes|
        invariant n == if i == 0 then L else nodes[i - 1]
        invariant |items| == |nodes| - i
        invariant forall j | 0 <= j < |items| :: items[j] == Contents[|Contents| - 1 - j]
        decreases i
      {
        assert i > 1 ==> Step(next, prev, nodes, i - 2);
        items := items + [(nodeKey[n].value, nodeValue[n].value)];
        n := prev[n];
        i := i - 1;
      }
    }

    /** `movehead(key)`: the item with that key becomes the first, the others keep
        their order and the map is unchanged; a missing key raises KeyError
        (false) and nothing changes. */
    method MoveHead(key: K) returns (found: bool)
      requires Valid()
      modifies this
      ensures Valid() && d == old(d)
      ensures found == (key in old(d))
      ensures found ==> exists v :: (key, v) in old(Contents) && Contents == [(key, v)] + Without(old(Contents), key)
      ensures !found ==> Contents == old(Contents)
    {
      if key !in d {
        return false;
      }
      var n := d[key];
      ghost var p := IndexOf(key);
      ghost var ns2 := MoveToFront(next, prev, nodeKey, nodeValue, d, nextId, nodes, Contents, p);
      var nx, pv := next, prev;
      // remove n from its place
      pv := pv[nx[n] := pv[n]];
      nx := nx[pv[n] := nx[n]];
      // put n in front
      pv := pv[nx[L] := n];
      nx := nx[n := nx[L]];
      pv := pv[n := L];
      nx := nx[L := n];
      next, prev := nx, pv;
      nodes, Contents := ns2, [Contents[p]] + Without(Contents, key);
      found := true;
    }

    /** `del m[key]`: removes exactly the item with that key, the others keep their
        order; a missing key raises KeyError (false) and nothing changes. */
    method Delete(key: K) returns (found: bool)
      requires Valid()
      modifies this
      ensures Valid()
      ensures found == (key in old(d))
      ensures Contents == Without(old(Contents), key)
      ensures d.Keys == old(d.Keys) - {key}
    {
      if key !in d {
        KeysAgree();
        WithoutAbsent(Contents, key);
        return false;
      }
      var n := d[key];
      ghost var p := IndexOf(key);
      ghost var ns2 := DropAt(next, prev, nodeKey, nodeValue, d, nextId, nodes, Contents, p);
      var nx, pv := next, prev;
      pv := pv[nx[n] := pv[n]];
      nx := nx[pv[n] := nx[n]];
      next, prev, d := nx, pv, d - {key};
      nodes, Contents := ns2, Without(Contents, key);
      found := true;
    }

    /** `removeall(key)`: delete the key if present. */
    method RemoveAll(key: K)
      requires Valid()
      modifies this
      ensures Valid()
      ensures Contents == Without(old(Contents), key)
      ensures d.Keys == old(d.Keys) - {key}
    {
      if key in d {
        var _ := Delete(key);
      } else {
        KeysAgree();
        WithoutAbsent(Contents, key);
      }
    }

    /** `m[key]`: the value stored with the key; KeyError (None) when absent. */
    method Get(key: K) returns (r: Option<V>)
      requires Valid()
      ensures r.Some? <==> key in KeysOf(Contents)
      ensures r.Some? ==> (key, r.value) in Contents
    {
      KeysAgree();
      if key in d {
        ghost var p := IndexOf(key);
        r := Some(nodeValue[d[key]].value);
        assert Contents[p] == (key, r.value);
      } else {
        r := None;
      }
    }

    /** `key in m`. */
    method Contains(key: K) returns (b: bool)
      requires Valid()
      ensures b <==> key in KeysOf(Contents)
    {
      KeysAgree();
      b := key in d;
    }

    /** `len(m)`, the size of the map, is the number of items. */
    method Length() returns (n: nat)
      requires Valid()
      ensures n == |Contents|
    {
      n := |d|;
    }

    /** `__getstate__()`: the state's 'l' entry, the item list. */
    method GetState() returns (state: seq<(K, V)>)
      requires Valid()
      ensures state == Contents && UniqueKeys(state)
    {
      state := IterItems();
    }

    /** `__setstate__(state)`: re-run the initialiser on the item list. */
    method SetState(state: seq<(K, V)>)
      requires UniqueKeys(state)
      modifies this
      ensures Valid() && Contents == state
    {
      next, prev := map[L := L], map[L := L];
      nodeKey, nodeValue := map[L := None], map[L := None];
      d := map[];
      nextId := L + 1;
      nodes, Contents := [], [];
      assert Contents + state == state;
      Extend(state);
    }
  }

  /** Restoring a structure from its saved state gives the same items and keys. */
  method StateRoundTrip<K(==,!new), V(!new)>(m: DequeDict<K, V>) returns (m2: DequeDict<K, V>)
    requires m.Valid()
    ensures fresh(m2) && m2.Valid()
    ensures m2.Contents == m.Contents && m2.d.Keys == m.d.Keys
  {
    var state := m.GetState();
    m2 := new DequeDict<K, V>(state);
    m.KeysAgree();
    m2.KeysAgree();
  }
}
