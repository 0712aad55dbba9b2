/** `preprocess_card`: finding disjoint cliques of binary clauses and putting
    cardinality rows in their place. */
module Card {
  import opened Knf
  import opened Elimination
  import opened IndexedStack
  import opened Relabel
  import opened UnitPropagation
  import opened Cliques
  import opened Triangles

  // The row is the binary clause of that edge.
  ghost predicate KeyIs(rows: seq<Row>, id: int, k: Key) {
    MatchesEdge(rows, id, k.0, k.1) && k.0 < k.1 && k.0 != 0 && k.1 != 0 && Abs(k.0) != Abs(k.1)
  }

  // The edge map and the duplicates of its edges.
  ghost predicate EdgesOk(rows: seq<Row>, active: map<Key, int>, dups: map<Key, seq<int>>) {
    true == (
      && (forall k :: k in active ==> KeyIs(rows, active[k], k))
      && (forall k :: k in dups ==> Unrepeated(dups[k]) && (k in active ==> active[k] !in dups[k]))
      && (forall k, id :: k in dups && id in dups[k] ==> KeyIs(rows, id, k)))
  }

  lemma KeyUnique(rows: seq<Row>, id: int, k: Key, k': Key)
    requires KeyIs(rows, id, k) && KeyIs(rows, id, k')
    ensures k == k'
  {
  }

  // A clause on two variables.
  predicate Eligible(r: Row) {
    r.degree == 1 && |r.lits| == 2 && Abs(r.lits[0]) != Abs(r.lits[1])
  }

  // Every eligible row among the first n stands for its edge or is one of
  // its duplicates.
  ghost predicate EdgesListed(rows: seq<Row>, active: map<Key, int>, dups: map<Key, seq<int>>, n: int) {
    true == (
      forall id {:trigger rows[id]} :: 0 <= id < n && id < |rows| && Eligible(rows[id]) ==>
        var k := EdgeKey(rows[id].lits[0], rows[id].lits[1]);
        k in active && (active[k] == id || (k in dups && id in dups[k])))
  }

  // At most n edges, and so many at a vertex.
  ghost predicate AtMost(active: map<Key, int>, occurrence: seq<seq<int>>, vars: nat, n: int) {
    true == (|active| <= n && |occurrence| == 2 * vars && forall v :: 0 <= v < 2 * vars ==> |occurrence[v]| <= n)
  }

  lemma AtMostMore(active: map<Key, int>, occurrence: seq<seq<int>>, vars: nat, n: int)
    requires AtMost(active, occurrence, vars, n)
    ensures AtMost(active, occurrence, vars, n + 1)
  {
  }

  // The first loops of search_almost_one: one row per edge, the others are
  // duplicates; neighbours by vertex.
  method BuildEdges(rows: seq<Row>, vars: nat) returns (active: map<Key, int>, dups: map<Key, seq<int>>, occurrence: seq<seq<int>>)
    requires forall i :: 0 <= i < |rows| ==> VarsIn(rows[i].lits, vars)
    ensures EdgesOk(rows, active, dups) && EdgesListed(rows, active, dups, |rows|)
    ensures EndsListed(active, occurrence, vars)
    ensures AtMost(active, occurrence, vars, |rows|)
  {
    active, dups, occurrence := map[], map[], seq(2 * vars, v => []);
    for id := 0 to |rows|
      invariant Built(rows, vars, active, dups, occurrence, id)
    {
      if Eligible(rows[id]) {
        active, dups, occurrence := AddEdge(rows, vars, id, active, dups, occurrence);
      } else {
        BuiltSkip(rows, vars, active, dups, occurrence, id);
      }
    }
  }

  // The maps after the first n rows.
  ghost predicate Built(rows: seq<Row>, vars: nat, active: map<Key, int>, dups: map<Key, seq<int>>, occurrence: seq<seq<int>>, n: int) {
    true == (
      && EdgesOk(rows, active, dups) && EdgesBefore(active, dups, n) && EdgesListed(rows, active, dups, n)
      && EndsListed(active, occurrence, vars) && AtMost(active, occurrence, vars, n))
  }

  lemma BuiltSkip(rows: seq<Row>, vars: nat, active: map<Key, int>, dups: map<Key, seq<int>>, occurrence: seq<seq<int>>, n: nat)
    requires Built(rows, vars, active, dups, occurrence, n) && n < |rows| && !Eligible(rows[n])
    ensures Built(rows, vars, active, dups, occurrence, n + 1)
  {
    AtMostMore(active, occurrence, vars, n);
    ListedSkip(rows, active, dups, n);
  }

  lemma ListedSkip(rows: seq<Row>, active: map<Key, int>, dups: map<Key, seq<int>>, n: nat)
    requires EdgesListed(rows, active, dups, n) && n < |rows| && !Eligible(rows[n])
    ensures EdgesListed(rows, active, dups, n + 1)
  {
  }

  method AddEdge(rows: seq<Row>, vars: nat, id: nat, active: map<Key, int>, dups: map<Key, seq<int>>, occurrence: seq<seq<int>>)
      returns (active': map<Key, int>, dups': map<Key, seq<int>>, occurrence': seq<seq<int>>)
    requires id < |rows| && Eligible(rows[id]) && VarsIn(rows[id].lits, vars)
    requires Built(rows, vars, active, dups, occurrence, id)
    ensures Built(rows, vars, active', dups', occurrence', id + 1)
  {
    var r := rows[id];
    var key := EdgeKey(r.lits[0], r.lits[1]);
    assert KeyIs(rows, id, key);
    active', dups', occurrence' := active, dups, occurrence;
    if key in active {
      var before := if key in dups then dups[key] else [];
      NewDuplicate(rows, active, dups, id, key, before);
      dups' := dups[key := before + [id]];
    } else {
      NewActive(rows, active, dups, id, key);
      NewEnds(active, occurrence, vars, r.lits[0], r.lits[1], id);
      active' := active[key := id];
      var x, y := ToLit(r.lits[0]), ToLit(r.lits[1]);
      occurrence' := occurrence[x := occurrence[x] + [r.lits[1]]];
      occurrence' := occurrence'[y := occurrence'[y] + [r.lits[0]]];
    }
  }

  lemma NewEnds(active: map<Key, int>, occurrence: seq<seq<int>>, vars: nat, x: int, y: int, id: int)
    requires EndsListed(active, occurrence, vars) && 1 <= Abs(x) <= vars && 1 <= Abs(y) <= vars && Abs(x) != Abs(y)
    requires EdgeKey(x, y) !in active
    ensures 0 <= ToLit(x) < 2 * vars && 0 <= ToLit(y) < 2 * vars && ToLit(x) != ToLit(y)
    ensures EndsListed(active[EdgeKey(x, y) := id],
                       occurrence[ToLit(x) := occurrence[ToLit(x)] + [y]][ToLit(y) := occurrence[ToLit(y)] + [x]], vars)
  {
    var more, lists := active[EdgeKey(x, y) := id],
      occurrence[ToLit(x) := occurrence[ToLit(x)] + [y]][ToLit(y) := occurrence[ToLit(y)] + [x]];
    forall p, q | 1 <= Abs(p) <= vars && 1 <= Abs(q) <= vars
      ensures EdgeKey(p, q) in more <==> q in lists[ToLit(p)]
    {
      assert EdgeKey(p, q) in active <==> q in occurrence[ToLit(p)];
      ToLitInjective(p, x);
      ToLitInjective(p, y);
    }
  }

  // Only rows before n are in the maps, and only active edges have
  // duplicates.
  ghost predicate EdgesBefore(active: map<Key, int>, dups: map<Key, seq<int>>, n: int) {
    && (forall k :: k in active ==> active[k] < n)
    && (forall k :: k in dups ==> k in active)
    && forall k, id :: k in dups && id in dups[k] ==> id < n
  }

  lemma NewActive(rows: seq<Row>, active: map<Key, int>, dups: map<Key, seq<int>>, id: nat, key: Key)
    requires EdgesOk(rows, active, dups) && EdgesBefore(active, dups, id) && KeyIs(rows, id, key) && key !in active
    requires id < |rows| && Eligible(rows[id]) && key == EdgeKey(rows[id].lits[0], rows[id].lits[1])
    requires EdgesListed(rows, active, dups, id)
    ensures EdgesOk(rows, active[key := id], dups) && EdgesBefore(active[key := id], dups, id + 1)
    ensures EdgesListed(rows, active[key := id], dups, id + 1)
  {
  }

  lemma NewDuplicate(rows: seq<Row>, active: map<Key, int>, dups: map<Key, seq<int>>, id: nat, key: Key, before: seq<int>)
    requires EdgesOk(rows, active, dups) && EdgesBefore(active, dups, id) && KeyIs(rows, id, key) && key in active
    requires before == if key in dups then dups[key] else []
    requires id < |rows| && Eligible(rows[id]) && key == EdgeKey(rows[id].lits[0], rows[id].lits[1])
    requires EdgesListed(rows, active, dups, id)
    ensures EdgesOk(rows, active, dups[key := before + [id]]) && EdgesBefore(active, dups[key := before + [id]], id + 1)
    ensures EdgesListed(rows, active, dups[key := before + [id]], id + 1)
  {
    MoreListed(rows, active, dups, id, key, before);
    MoreDuplicates(rows, active, dups, id, key, before);
    LaterDuplicate(active, dups, id, key, before);
  }

  lemma MoreDuplicates(rows: seq<Row>, active: map<Key, int>, dups: map<Key, seq<int>>, id: nat, key: Key, before: seq<int>)
    requires EdgesOk(rows, active, dups) && EdgesBefore(active, dups, id) && KeyIs(rows, id, key) && key in active
    requires before == if key in dups then dups[key] else []
    ensures EdgesOk(rows, active, dups[key := before + [id]])
  {
    var more := dups[key := before + [id]];
    forall k | k in more
      ensures Unrepeated(more[k]) && (k in active ==> active[k] !in more[k]) && forall d :: d in more[k] ==> KeyIs(rows, d, k)
    {
      if k != key {
        assert more[k] == dups[k];
      } else {
        assert more[k] == before + [id] && id !in before;
        UnrepeatedSnoc(before, id);
      }
    }
  }

  lemma LaterDuplicate(active: map<Key, int>, dups: map<Key, seq<int>>, id: nat, key: Key, before: seq<int>)
    requires EdgesBefore(active, dups, id) && key in active
    requires before == if key in dups then dups[key] else []
    ensures EdgesBefore(active, dups[key := before + [id]], id + 1)
  {
    var more := dups[key := before + [id]];
    forall k, d | k in more && d in more[k]
      ensures d < id + 1
    {
      assert k != key ==> more[k] == dups[k];
      assert k == key && d != id ==> d in before;
    }
  }

  lemma MoreListed(rows: seq<Row>, active: map<Key, int>, dups: map<Key, seq<int>>, id: nat, key: Key, before: seq<int>)
    requires id < |rows| && Eligible(rows[id]) && key == EdgeKey(rows[id].lits[0], rows[id].lits[1]) && key in active
    requires EdgesListed(rows, active, dups, id)
    requires before == if key in dups then dups[key] else []
    ensures EdgesListed(rows, active, dups[key := before + [id]], id + 1)
  {
  }

  // A clique in the making: its vertices, the rows of its edges, their
  // duplicates, and the keys it will use up.
  ghost predicate Growing(rows: seq<Row>, active: map<Key, int>, dups: map<Key, seq<int>>,
                          vs: seq<int>, es: seq<int>, ds: seq<int>, ks: seq<Key>) {
    true == (
      && DistinctVars(vs) && (forall i :: 0 <= i < |vs| ==> vs[i] != 0)
      && |es| == |ks| == Pairs(|vs|)
      && (forall right, left {:trigger EdgeIndex(right, left)} :: 0 <= left < right < |vs| ==>
            EdgeIndex(right, left) < |es| && ks[EdgeIndex(right, left)] == EdgeKey(vs[right], vs[left]))
      && (forall e :: 0 <= e < |es| ==> ks[e] in active && es[e] == active[ks[e]])
      && (forall d :: d in ds ==> FromDuplicates(dups, ks, d)) && Unrepeated(ds))
  }

  ghost predicate FromDuplicates(dups: map<Key, seq<int>>, ks: seq<Key>, d: int) {
    exists k :: k in ks && k in dups && d in dups[k]
  }

  // The edges from a candidate to all members, if they are all active.
  method TryCandidate(active: map<Key, int>, vs: seq<int>, candidate: int, probes: int, limit: int)
      returns (within: bool, complete: bool, ids: seq<int>, keys: seq<Key>, probes': int)
    ensures within && complete ==> |ids| == |keys| == |vs|
    ensures within && !complete ==> exists m :: 0 <= m < |vs| && EdgeKey(candidate, vs[m]) !in active
    ensures within && complete ==> forall m :: 0 <= m < |vs| ==>
      keys[m] == EdgeKey(candidate, vs[m]) && keys[m] in active && ids[m] == active[keys[m]]
    ensures probes <= probes' <= probes + |vs| && (!within ==> probes' > limit)
  {
    within, complete, ids, keys, probes' := true, true, [], [], probes;
    for m := 0 to |vs|
      invariant within && complete && |ids| == |keys| == m && probes' == probes + m
      invariant forall i :: 0 <= i < m ==> keys[i] == EdgeKey(candidate, vs[i]) && keys[i] in active && ids[i] == active[keys[i]]
    {
      probes' := probes' + 1;
      if probes' > limit {
        within := false;
        return;
      }
      var key := EdgeKey(candidate, vs[m]);
      if key !in active {
        complete := false;
        return;
      }
      ids, keys := ids + [active[key]], keys + [key];
    }
  }

  // The duplicates of the given keys.
  method CollectDuplicates(rows: seq<Row>, active: map<Key, int>, dups: map<Key, seq<int>>, keys: seq<Key>,
                           ds: seq<int>, ghost ks: seq<Key>) returns (ds': seq<int>)
    requires EdgesOk(rows, active, dups) && Unrepeated(ds) && forall d :: d in ds ==> FromDuplicates(dups, ks, d)
    requires forall m :: 0 <= m < |keys| ==> keys[m] !in ks
    requires forall m, n :: 0 <= m < n < |keys| ==> keys[m] != keys[n]
    ensures Unrepeated(ds') && forall d :: d in ds' ==> FromDuplicates(dups, ks + keys, d)
  {
    ds' := ds;
    for m := 0 to |keys|
      invariant Unrepeated(ds') && forall d :: d in ds' ==> FromDuplicates(dups, ks + keys[..m], d)
    {
      var key := keys[m];
      ghost var before, after := ks + keys[..m], ks + keys[..m + 1];
      assert after == before + [key];
      forall d | FromDuplicates(dups, before, d)
        ensures FromDuplicates(dups, after, d)
      {
        var k :| k in before && k in dups && d in dups[k];
        assert k in after;
      }
      if key in dups {
        NewDuplicates(rows, active, dups, before, key, ds');
        ds' := ds' + dups[key];
        assert key in after;
      }
    }
    assert keys[..|keys|] == keys;
  }

  lemma NewDuplicates(rows: seq<Row>, active: map<Key, int>, dups: map<Key, seq<int>>, ks: seq<Key>, key: Key, ds: seq<int>)
    requires EdgesOk(rows, active, dups) && key in dups && key !in ks
    requires Unrepeated(ds) && forall d :: d in ds ==> FromDuplicates(dups, ks, d)
    ensures Unrepeated(ds + dups[key])
  {
    forall d | d in ds
      ensures d !in dups[key]
    {
      var k :| k in ks && k in dups && d in dups[k];
      if d in dups[key] {
        KeyUnique(rows, d, k, key);
      }
    }
    UnrepeatedConcat(ds, dups[key]);
  }

  lemma {:induction false} UnrepeatedConcat(x: seq<int>, y: seq<int>)
    requires Unrepeated(x) && Unrepeated(y) && forall d :: d in x ==> d !in y
    ensures Unrepeated(x + y)
  {
    if y == [] {
      assert x + y == x;
    } else {
      var n := |y| - 1;
      assert y == y[..n] + [y[n]];
      UnrepeatedConcat(x, y[..n]);
      assert (x + y)[..|x| + n] == x + y[..n] && (x + y)[|x| + n] == y[n];
      assert y[n] !in x by {
        var d := y[n];
        assert d in y;
      }
      UnrepeatedSnoc(x + y[..n], y[n]);
      assert x + y == (x + y[..n]) + [y[n]];
    }
  }

  // A complete candidate joins.
  lemma GrowStep(rows: seq<Row>, active: map<Key, int>, dups: map<Key, seq<int>>, vs: seq<int>, es: seq<int>, ds: seq<int>, ks: seq<Key>,
                 candidate: int, ids: seq<int>, keys: seq<Key>, ds': seq<int>)
    requires Growing(rows, active, dups, vs, es, ds, ks) && candidate != 0
    requires forall i :: 0 <= i < |vs| ==> Abs(vs[i]) != Abs(candidate)
    requires |ids| == |keys| == |vs|
    requires forall m :: 0 <= m < |vs| ==> keys[m] == EdgeKey(candidate, vs[m]) && keys[m] in active && ids[m] == active[keys[m]]
    requires Unrepeated(ds') && forall d :: d in ds' ==> FromDuplicates(dups, ks + keys, d)
    ensures Growing(rows, active, dups, vs + [candidate], es + ids, ds', ks + keys)
  {
    var vs', es', ks' := vs + [candidate], es + ids, ks + keys;
    var n := |vs|;
    assert Pairs(|vs'|) == Pairs(n) + n;
    forall right: nat, left: nat | left < right < |vs'|
      ensures EdgeIndex(right, left) < |es'| && ks'[EdgeIndex(right, left)] == EdgeKey(vs'[right], vs'[left])
    {
      if right < n {
        assert EdgeIndex(right, left) < |es|;
      }
    }
    forall e | 0 <= e < |es'|
      ensures ks'[e] in active && es'[e] == active[ks'[e]]
    {
      if e >= |es| {
        assert ks'[e] == keys[e - |es|];
      }
    }
  }

  // The keys to a new vertex are new and different.
  lemma NewKeys(rows: seq<Row>, active: map<Key, int>, dups: map<Key, seq<int>>, vs: seq<int>, es: seq<int>, ds: seq<int>, ks: seq<Key>,
                candidate: int, keys: seq<Key>)
    requires Growing(rows, active, dups, vs, es, ds, ks)
    requires forall i :: 0 <= i < |vs| ==> Abs(vs[i]) != Abs(candidate)
    requires |keys| == |vs| && forall m :: 0 <= m < |vs| ==> keys[m] == EdgeKey(candidate, vs[m])
    ensures forall m :: 0 <= m < |keys| ==> keys[m] !in ks
    ensures forall m, n :: 0 <= m < n < |keys| ==> keys[m] != keys[n]
  {
    forall m | 0 <= m < |keys|
      ensures keys[m] !in ks
    {
      forall e | 0 <= e < |ks|
        ensures ks[e] != keys[m]
      {
        var right, left := EdgePair(|vs|, e);
        assert ks[EdgeIndex(right, left)] == EdgeKey(vs[right], vs[left]);
      }
    }
    forall m, n | 0 <= m < n < |keys|
      ensures keys[m] != keys[n]
    {
      assert Abs(vs[m]) != Abs(vs[n]);
    }
  }

  // n rounds of c probes.
  function Cost(n: nat, c: nat): nat {
    if n == 0 then 0 else Cost(n - 1, c) + c
  }

  lemma CostMore(n: nat, c: nat)
    ensures Cost(n + 1, c) == Cost(n, c) + c
  {
  }

  lemma {:induction false} CostGrows(n: nat, m: nat, c: nat)
    requires n <= m
    ensures Cost(n, c) <= Cost(m, c)
  {
    if n < m {
      CostGrows(n, m - 1, c);
    }
  }

  lemma {:induction false} CostlyGrows(n: nat, c: nat, d: nat)
    requires c <= d
    ensures Cost(n, c) <= Cost(n, d)
  {
    if n > 0 {
      CostlyGrows(n - 1, c, d);
    }
  }

  lemma {:induction false} CostIsProduct(n: nat, c: nat)
    ensures Cost(n, c) == n * c
  {
    if n > 0 {
      CostIsProduct(n - 1, c);
      assert n * c == (n - 1) * c + c;
    }
  }

  // The probes made and those that the edges left are worth are within the
  // total; or the limit is below it.
  ghost predicate Affords(ok: bool, probes: int, size: nat, c: nat, total: int, limit: int) {
    true == (if ok then probes + Cost(size, c) <= total else limit < total)
  }

  // One growth has been paid for: it takes an edge away, it is the last one,
  // or the limit has been reached.
  lemma AffordsGrowth(probes: int, probes': int, size: nat, less: nat, c: nat, total: int, limit: int)
    requires Affords(true, probes + c, size, c, total, limit) && probes' <= probes + c
    ensures less < size ==> Affords(true, probes' + c, less, c, total, limit)
    ensures Affords(true, probes', size, c, total, limit)
    ensures probes' > limit ==> Affords(false, probes', size, c, total, limit)
  {
    if less < size {
      CostMore(less, c);
      CostGrows(less + 1, size, c);
    }
  }

  lemma AffordsMore(ok: bool, probes: int, size: nat, c: nat, total: int, limit: int)
    requires Affords(ok, probes, size, c, total, limit)
    ensures Affords(ok, if ok then probes + c else probes, size, c, total + c, limit)
    ensures Affords(ok, probes, size, c, total + c, limit)
  {
  }

  // The active edges, what is planned, and the edges that takes up.
  ghost predicate Planning(rows: seq<Row>, active: map<Key, int>, dups: map<Key, seq<int>>, planned: seq<Clique>, used: set<Key>) {
    true == (EdgesOk(rows, active, dups) && PlannedOk(rows, planned) && UsedUp(rows, planned, used) && forall k :: k in used ==> k !in active)
  }

  // The same, with n growths as the total.
  ghost predicate AffordsAt(ok: bool, probes: int, size: nat, c: nat, n: nat, limit: int) {
    true == Affords(ok, probes, size, c, Cost(n, c), limit)
  }

  lemma AffordsNext(ok: bool, probes: int, size: nat, c: nat, n: nat, limit: int)
    requires AffordsAt(ok, probes, size, c, n, limit)
    ensures AffordsAt(ok, probes, size, c, n + 1, limit)
    ensures ok ==> Affords(true, probes + c, size, c, Cost(n + 1, c), limit)
  {
    CostMore(n, c);
    AffordsMore(ok, probes, size, c, Cost(n, c), limit);
  }

  lemma AffordsStart(size: nat, c: nat, limit: int)
    ensures AffordsAt(true, 0, size, c, size, limit)
  {
  }

  // What one growth costs at most, with n neighbours.
  function GrowthCost(n: nat): nat {
    Cost(n, n + 1)
  }

  // It is at most c, for up to m neighbours.
  ghost predicate CostFits(m: nat, c: nat) {
    true == (forall n: nat :: n <= m ==> GrowthCost(n) <= c)
  }

  lemma GrowthFits(m: nat)
    ensures CostFits(m, GrowthCost(m))
  {
    forall n: nat | n <= m
      ensures GrowthCost(n) <= GrowthCost(m)
    {
      CostGrows(n, m, n + 1);
      CostlyGrows(m, n + 1, m + 1);
    }
  }

  // The inner loop of search_almost_one: grow a clique from the start vertex.
  method GrowClique(rows: seq<Row>, active: map<Key, int>, dups: map<Key, seq<int>>, start: int, neighbors: seq<int>,
                    probes: int, limit: int)
      returns (within: bool, vs: seq<int>, es: seq<int>, ds: seq<int>, ks: seq<Key>, probes': int)
    requires EdgesOk(rows, active, dups) && start != 0
    requires forall i :: 0 <= i < |neighbors| ==> neighbors[i] != 0
    ensures |vs| >= 1 && vs[0] == start && Growing(rows, active, dups, vs, es, ds, ks)
    ensures within ==> forall i :: 0 <= i < |neighbors| ==> Rejected(active, vs, neighbors[i])
    ensures probes <= probes' <= probes + GrowthCost(|neighbors|) && (!within ==> probes' > limit)
  {
    within, vs, es, ds, ks, probes' := true, [start], [], [], [], probes;
    assert Pairs(1) == Pairs(0) + 0 && Pairs(0) == 0;
    for i := 0 to |neighbors|
      invariant within && |vs| >= 1 && vs[0] == start && Growing(rows, active, dups, vs, es, ds, ks)
      invariant forall j :: 0 <= j < i ==> Rejected(active, vs, neighbors[j])
      invariant |vs| <= i + 1 && probes <= probes' <= probes + Cost(i, |neighbors| + 1)
    {
      CostMore(i, |neighbors| + 1);
      CostGrows(i + 1, |neighbors|, |neighbors| + 1);
      var candidate := neighbors[i];
      var repeated := RepeatedVariable(vs, candidate);
      if !repeated {
        var complete, ids, keys;
        within, complete, ids, keys, probes' := TryCandidate(active, vs, candidate, probes', limit);
        if !within {
          return;
        }
        if complete {
          NewKeys(rows, active, dups, vs, es, ds, ks, candidate, keys);
          DuplicatesSoFar(rows, active, dups, vs, es, ds, ks);
          var ds' := CollectDuplicates(rows, active, dups, keys, ds, ks);
          GrowStep(rows, active, dups, vs, es, ds, ks, candidate, ids, keys, ds');
          StillRejected(active, vs, candidate);
          vs, es, ds, ks := vs + [candidate], es + ids, ds', ks + keys;
        }
      }
    }
  }

  lemma DuplicatesSoFar(rows: seq<Row>, active: map<Key, int>, dups: map<Key, seq<int>>, vs: seq<int>, es: seq<int>, ds: seq<int>, ks: seq<Key>)
    requires Growing(rows, active, dups, vs, es, ds, ks)
    ensures Unrepeated(ds) && forall d :: d in ds ==> FromDuplicates(dups, ks, d)
  {
  }

  method RepeatedVariable(vs: seq<int>, candidate: int) returns (repeated: bool)
    ensures repeated <==> exists i :: 0 <= i < |vs| && Abs(vs[i]) == Abs(candidate)
  {
    repeated := false;
    for m := 0 to |vs|
      invariant !repeated && forall i :: 0 <= i < m ==> Abs(vs[i]) != Abs(candidate)
    {
      if Abs(vs[m]) == Abs(candidate) {
        return true;
      }
    }
  }

  // Cliques found so far: each one holds up, no row is used twice, and all
  // their keys are gone from the edge map.
  ghost predicate PlannedOk(rows: seq<Row>, planned: seq<Clique>) {
    true == (
      && (forall i :: 0 <= i < |planned| ==> CliqueOk(rows, planned[i]) && Unrepeated(planned[i].edges + planned[i].duplicates))
      && forall i, j, id :: 0 <= i < j < |planned| && Uses(planned[i], id) ==> !Uses(planned[j], id))
  }

  ghost predicate UsedUp(rows: seq<Row>, planned: seq<Clique>, used: set<Key>) {
    forall i, id :: 0 <= i < |planned| && Uses(planned[i], id) ==> exists k :: k in used && KeyIs(rows, id, k)
  }

  // What has been grown is a clique.
  lemma GrownClique(rows: seq<Row>, active: map<Key, int>, dups: map<Key, seq<int>>, vs: seq<int>, es: seq<int>, ds: seq<int>, ks: seq<Key>)
    requires EdgesOk(rows, active, dups) && Growing(rows, active, dups, vs, es, ds, ks) && |vs| >= 3
    ensures CliqueOk(rows, Clique(vs, es, ds)) && Unrepeated(es + ds)
    ensures forall id :: Uses(Clique(vs, es, ds), id) ==> exists k :: k in ks && k in active && KeyIs(rows, id, k)
  {
    forall right: nat, left: nat | left < right < |vs|
      ensures EdgeIndex(right, left) < |es| && MatchesEdge(rows, es[EdgeIndex(right, left)], vs[right], vs[left])
    {
      var e := EdgeIndex(right, left);
      assert ks[e] == EdgeKey(vs[right], vs[left]);
      assert KeyIs(rows, active[ks[e]], ks[e]);
    }
    forall d | d in ds
      ensures DuplicateOk(rows, vs, d) && d !in es
      ensures exists k :: k in ks && k in active && KeyIs(rows, d, k)
    {
      GrownDuplicate(rows, active, dups, vs, es, ds, ks, d);
    }
    assert forall i :: 0 <= i < |ds| ==> ds[i] in ds;
    forall id | id in es
      ensures exists k :: k in ks && k in active && KeyIs(rows, id, k)
    {
      var e :| 0 <= e < |es| && es[e] == id;
      assert ks[e] in ks && KeyIs(rows, id, ks[e]);
    }
    EdgesDiffer(rows, active, dups, vs, es, ds, ks);
    UnrepeatedConcat(es, ds);
  }

  lemma GrownDuplicate(rows: seq<Row>, active: map<Key, int>, dups: map<Key, seq<int>>, vs: seq<int>, es: seq<int>, ds: seq<int>, ks: seq<Key>, d: int)
    requires EdgesOk(rows, active, dups) && Growing(rows, active, dups, vs, es, ds, ks) && d in ds
    ensures DuplicateOk(rows, vs, d) && d !in es
    ensures exists k :: k in ks && k in active && KeyIs(rows, d, k)
  {
    var k :| k in ks && k in dups && d in dups[k];
    var e :| 0 <= e < |ks| && ks[e] == k;
    var right, left := EdgePair(|vs|, e);
    assert ks[EdgeIndex(right, left)] == EdgeKey(vs[right], vs[left]);
    assert KeyIs(rows, d, k) && vs[right] in vs && vs[left] in vs;
    if d in es {
      var e' :| 0 <= e' < |es| && es[e'] == d;
      KeyUnique(rows, d, k, ks[e']);
    }
  }

  lemma EdgesDiffer(rows: seq<Row>, active: map<Key, int>, dups: map<Key, seq<int>>, vs: seq<int>, es: seq<int>, ds: seq<int>, ks: seq<Key>)
    requires EdgesOk(rows, active, dups) && Growing(rows, active, dups, vs, es, ds, ks)
    ensures Unrepeated(es)
  {
    forall e: nat, e': nat | e < e' < |es|
      ensures es[e] != es[e']
    {
      var right, left := EdgePair(|vs|, e);
      var right', left' := EdgePair(|vs|, e');
      assert ks[EdgeIndex(right, left)] == EdgeKey(vs[right], vs[left]);
      assert ks[EdgeIndex(right', left')] == EdgeKey(vs[right'], vs[left']);
      if es[e] == es[e'] {
        KeyUnique(rows, es[e], ks[e], ks[e']);
        PairUnique(vs, right, left, right', left');
      }
    }
    DifferentUnrepeated(es);
  }

  lemma PairUnique(vs: seq<int>, right: nat, left: nat, right': nat, left': nat)
    requires DistinctVars(vs) && left < right < |vs| && left' < right' < |vs|
    requires EdgeKey(vs[right], vs[left]) == EdgeKey(vs[right'], vs[left'])
    ensures right == right' && left == left'
  {
    forall i, j | 0 <= i < j < |vs|
      ensures vs[i] != vs[j]
    {
      assert Abs(vs[i]) != Abs(vs[j]);
    }
  }

  lemma {:induction false} DifferentUnrepeated(s: seq<int>)
    requires forall i, j :: 0 <= i < j < |s| ==> s[i] != s[j]
    ensures Unrepeated(s)
  {
    if s != [] {
      DifferentUnrepeated(s[..|s| - 1]);
    }
  }

  lemma PlanMore(rows: seq<Row>, planned: seq<Clique>, used: set<Key>, active: map<Key, int>, c: Clique, ks: seq<Key>)
    requires PlannedOk(rows, planned) && UsedUp(rows, planned, used) && forall k :: k in used ==> k !in active
    requires CliqueOk(rows, c) && Unrepeated(c.edges + c.duplicates)
    requires forall id :: Uses(c, id) ==> exists k :: k in ks && k in active && KeyIs(rows, id, k)
    ensures PlannedOk(rows, planned + [c])
    ensures UsedUp(rows, planned + [c], used + set k | k in ks)
  {
    var planned' := planned + [c];
    forall i, id | 0 <= i < |planned| && Uses(planned[i], id)
      ensures !Uses(c, id)
    {
      var k :| k in used && KeyIs(rows, id, k);
      if Uses(c, id) {
        var k' :| k' in ks && k' in active && KeyIs(rows, id, k');
        KeyUnique(rows, id, k, k');
      }
    }
    forall i, id | 0 <= i < |planned'| && Uses(planned'[i], id)
      ensures exists k :: k in (used + set k | k in ks) && KeyIs(rows, id, k)
    {
      if i < |planned| {
        var k :| k in used && KeyIs(rows, id, k);
      } else {
        var k :| k in ks && KeyIs(rows, id, k);
      }
    }
  }

  // verify_clique
  method VerifyClique(rows: seq<Row>, c: Clique) returns (ok: bool)
    ensures ok <==> CliqueOk(rows, c)
  {
    var size := |c.literals|;
    PairsFormula(size);
    if size < 3 || |c.edges| != size * (size - 1) / 2 {
      return false;
    }
    ok := VerifyVariables(c.literals);
    if ok {
      ok := VerifyEdges(rows, c.literals, c.edges);
    }
    if ok {
      ok := VerifyDuplicates(rows, c.literals, c.duplicates);
    }
  }

  // No variable occurs twice.
  method VerifyVariables(literals: seq<int>) returns (ok: bool)
    ensures ok <==> DistinctVars(literals)
  {
    ok := true;
    for right := 0 to |literals|
      invariant ok && forall i, j :: 0 <= i < j < right ==> Abs(literals[i]) != Abs(literals[j])
    {
      var repeated := RepeatedVariable(literals[..right], literals[right]);
      assert forall i :: 0 <= i < right ==> literals[..right][i] == literals[i];
      if repeated {
        return false;
      }
    }
  }

  method VerifyEdges(rows: seq<Row>, literals: seq<int>, edges: seq<int>) returns (ok: bool)
    requires |edges| == Pairs(|literals|)
    ensures ok <==> EdgesMatch(rows, literals, edges)
  {
    ok := true;
    var index := 0;
    for right := 0 to |literals|
      invariant ok && index == Pairs(right)
      invariant forall r, l {:trigger EdgeIndex(r, l)} :: 0 <= l < r < right ==>
        EdgeIndex(r, l) < |edges| && MatchesEdge(rows, edges[EdgeIndex(r, l)], literals[r], literals[l])
    {
      PairsGrow(right + 1, |literals|);
      for left := 0 to right
        invariant ok && index == EdgeIndex(right, left)
        invariant forall l {:trigger EdgeIndex(right, l)} :: 0 <= l < left ==>
          EdgeIndex(right, l) < |edges| && MatchesEdge(rows, edges[EdgeIndex(right, l)], literals[right], literals[l])
      {
        assert EdgeIndex(right, left) < |edges|;
        if !MatchesEdge(rows, edges[index], literals[right], literals[left]) {
          return false;
        }
        index := index + 1;
      }
    }
  }

  method VerifyDuplicates(rows: seq<Row>, literals: seq<int>, duplicates: seq<int>) returns (ok: bool)
    ensures ok <==> forall i :: 0 <= i < |duplicates| ==> DuplicateOk(rows, literals, duplicates[i])
  {
    ok := true;
    for i := 0 to |duplicates|
      invariant ok && forall k :: 0 <= k < i ==> DuplicateOk(rows, literals, duplicates[k])
    {
      var id := duplicates[i];
      if id < 0 || id >= |rows| || rows[id].degree != 1 || |rows[id].lits| != 2 {
        return false;
      }
      var first, second := rows[id].lits[0], rows[id].lits[1];
      if first == second || first !in literals || second !in literals {
        return false;
      }
    }
  }

  // is_pure_triangle
  method IsPureTriangle(rows: seq<Row>, c: Clique) returns (pure: bool)
    ensures pure <==> PureTriangle(rows, c)
  {
    PairsFormula(3);
    if |c.literals| != 3 || |c.edges| != 3 || c.duplicates != [] {
      return false;
    }
    if c.edges[0] == c.edges[1] || c.edges[0] == c.edges[2] || c.edges[1] == c.edges[2] {
      return false;
    }
    pure := VerifyClique(rows, c);
  }

  // Sorting the neighbours and dropping repeats, one by one.
  function InsertCode(s: seq<int>, l: int): (r: seq<int>)
    ensures |r| <= |s| + 1 && forall x :: x in r <==> x in s || x == l
  {
    if s == [] then [l]
    else
      var n := |s| - 1;
      assert s == s[..n] + [s[n]];
      if s[n] == l then s
      else if ToLit(s[n]) < ToLit(l) then s + [l]
      else InsertCode(s[..n], l) + [s[n]]
  }

  function SortUnique(s: seq<int>): (r: seq<int>)
    ensures |r| <= |s| && forall x :: x in r <==> x in s
  {
    if s == [] then []
    else
      assert s == s[..|s| - 1] + [s[|s| - 1]];
      InsertCode(SortUnique(s[..|s| - 1]), s[|s| - 1])
  }

  // toeidx
  function VertexLiteral(code: int): (l: int)
    requires code >= 0
    ensures l != 0 && ToLit(l) == code
  {
    if code % 2 == 0 then code / 2 + 1 else -(code / 2 + 1)
  }

  // Neighbours of the start vertex that may still belong to a clique.
  method OpenNeighbors(occurrence: seq<seq<int>>, start: nat, seen: seq<bool>) returns (neighbors: seq<int>)
    requires start < |occurrence| == |seen|
    requires forall i :: 0 <= i < |occurrence[start]| ==>
      occurrence[start][i] != 0 && ToLit(occurrence[start][i]) < |occurrence|
    ensures forall w :: w in neighbors <==>
      w in occurrence[start] && 0 <= ToLit(w) < |occurrence| && !seen[ToLit(w)] && |occurrence[ToLit(w)]| >= 2
    ensures |neighbors| <= |occurrence[start]| && forall i :: 0 <= i < |neighbors| ==> neighbors[i] != 0
  {
    neighbors := [];
    var list := occurrence[start];
    for i := 0 to |list|
      invariant forall w :: w in neighbors <==>
        w in list[..i] && 0 <= ToLit(w) < |occurrence| && !seen[ToLit(w)] && |occurrence[ToLit(w)]| >= 2
      invariant |neighbors| <= i && forall k :: 0 <= k < |neighbors| ==> neighbors[k] != 0
    {
      assert list[..i + 1] == list[..i] + [list[i]];
      if !seen[ToLit(list[i])] && |occurrence[ToLit(list[i])]| >= 2 {
        neighbors := neighbors + [list[i]];
      }
    }
    assert list[..|list|] == list;
  }

  // Each used edge belongs to a planned clique.
  ghost predicate UsedBy(rows: seq<Row>, planned: seq<Clique>, used: set<Key>) {
    true == (forall k :: k in used ==> PlansKey(rows, planned, k))
  }

  ghost predicate PlansKey(rows: seq<Row>, planned: seq<Clique>, k: Key) {
    exists i, id :: 0 <= i < |planned| && id in planned[i].edges && KeyIs(rows, id, k)
  }

  // What the search has done so far, while it is at vertex `start`.
  ghost predicate Searching(rows: seq<Row>, edges: map<Key, int>, active: map<Key, int>, planned: seq<Clique>, used: set<Key>,
                            vars: int, seen: seq<bool>, start: int) {
    true == (Accounted(edges, active, used) && NoneAt(active, vars, seen, start) && UsedBy(rows, planned, used))
  }

  // The endless loop of search_almost_one: every turn but the last removes
  // edges, so it ends; afterwards no triangle is left at the start vertex.
  method SearchFrom(rows: seq<Row>, active: map<Key, int>, dups: map<Key, seq<int>>, start: int, neighbors: seq<int>,
                    planned: seq<Clique>, probes: int, limit: int, ghost used: set<Key>,
                    ghost edges: map<Key, int>, ghost vars: int, ghost seen: seq<bool>, ghost c: nat, ghost total: int)
      returns (ok: bool, active': map<Key, int>, planned': seq<Clique>, probes': int, ghost used': set<Key>)
    requires EdgesOk(rows, active, dups) && start != 0 && forall i :: 0 <= i < |neighbors| ==> neighbors[i] != 0
    requires Planning(rows, active, dups, planned, used)
    requires Searching(rows, edges, active, planned, used, vars, seen, start)
    requires Near(active, seen, start, neighbors) && Explored(seen, start) && GrowthCost(|neighbors|) <= c
    requires Affords(true, probes + c, |active|, c, total, limit)
    ensures Affords(ok, probes', |active'|, c, total, limit)
    ensures Planning(rows, active', dups, planned', used')
    ensures ok ==> Searching(rows, edges, active', planned', used', vars, seen, 0)
  {
    ok, active', planned', probes', used' := true, active, planned, probes, used;
    var more := true;
    while ok && more
      invariant Planning(rows, active', dups, planned', used')
      invariant ok ==> Searching(rows, edges, active', planned', used', vars, seen, if more then start else 0)
      invariant ok && more ==> Near(active', seen, start, neighbors)
      invariant Affords(ok, if ok && more then probes' + c else probes', |active'|, c, total, limit)
      decreases ok, |active'|, more
    {
      var within, vs, es, ds, ks;
      ghost var known, size := probes', |active'|;
      within, vs, es, ds, ks, probes' := GrowClique(rows, active', dups, start, neighbors, probes', limit);
      AffordsGrowth(known, probes', size, 0, c, total, limit);
      if !within {
        ok := false;
      } else if |vs| == 1 {
        more := false;
        SearchedHere(rows, edges, active', planned', used', vars, seen, start, neighbors, vs);
      } else {
        EraseShrinks(rows, active', dups, vs, es, ds, ks);
        ghost var before := active';
        active' := Erase(active', ks);
        AffordsGrowth(known, probes', size, |active'|, c, total, limit);
        if |vs| > 2 {
          GrownClique(rows, before, dups, vs, es, ds, ks);
          PlanMore(rows, planned', used', before, Clique(vs, es, ds), ks);
          SearchedClique(rows, edges, before, dups, planned', used', vars, seen, start, neighbors, vs, es, ds, ks);
          ok := VerifyClique(rows, Clique(vs, es, ds));
          planned' := planned' + [Clique(vs, es, ds)];
          used' := used' + set k | k in ks;
        } else {
          SearchedEdge(rows, edges, before, dups, planned', used', vars, seen, start, neighbors, vs, es, ds, ks);
        }
      }
    }
  }

  lemma SearchedHere(rows: seq<Row>, edges: map<Key, int>, active: map<Key, int>, planned: seq<Clique>, used: set<Key>,
                     vars: int, seen: seq<bool>, start: int, neighbors: seq<int>, vs: seq<int>)
    requires Searching(rows, edges, active, planned, used, vars, seen, start) && Near(active, seen, start, neighbors)
    requires vs == [start] && forall i :: 0 <= i < |neighbors| ==> Rejected(active, vs, neighbors[i])
    ensures Searching(rows, edges, active, planned, used, vars, seen, 0)
  {
    NoneLeft(active, vars, seen, start, neighbors);
  }

  lemma SearchedClique(rows: seq<Row>, edges: map<Key, int>, active: map<Key, int>, dups: map<Key, seq<int>>, planned: seq<Clique>, used: set<Key>,
                       vars: int, seen: seq<bool>, start: int, neighbors: seq<int>, vs: seq<int>, es: seq<int>, ds: seq<int>, ks: seq<Key>)
    requires Searching(rows, edges, active, planned, used, vars, seen, start) && Near(active, seen, start, neighbors)
    requires EdgesOk(rows, active, dups) && Growing(rows, active, dups, vs, es, ds, ks)
    ensures Searching(rows, edges, Erase(active, ks), planned + [Clique(vs, es, ds)], used + (set k | k in ks), vars, seen, start)
    ensures Near(Erase(active, ks), seen, start, neighbors)
  {
    UsedEdges(edges, active, used, ks);
    FewerTriangles(active, ks, vars, seen, start, neighbors);
    PlansMore(rows, active, dups, planned, used, vs, es, ds, ks);
  }

  lemma PlansMore(rows: seq<Row>, active: map<Key, int>, dups: map<Key, seq<int>>, planned: seq<Clique>, used: set<Key>,
                  vs: seq<int>, es: seq<int>, ds: seq<int>, ks: seq<Key>)
    requires UsedBy(rows, planned, used) && EdgesOk(rows, active, dups) && Growing(rows, active, dups, vs, es, ds, ks)
    ensures UsedBy(rows, planned + [Clique(vs, es, ds)], used + set k | k in ks)
  {
    var c, more := Clique(vs, es, ds), planned + [Clique(vs, es, ds)];
    assert more[|planned|] == c;
    forall k | k in used || k in ks
      ensures PlansKey(rows, more, k)
    {
      if k in ks {
        var e :| 0 <= e < |ks| && ks[e] == k;
        assert es[e] in c.edges && KeyIs(rows, es[e], k);
      } else {
        var i, id :| 0 <= i < |planned| && id in planned[i].edges && KeyIs(rows, id, k);
        assert more[i] == planned[i];
      }
    }
  }

  lemma SearchedEdge(rows: seq<Row>, edges: map<Key, int>, active: map<Key, int>, dups: map<Key, seq<int>>, planned: seq<Clique>, used: set<Key>,
                     vars: int, seen: seq<bool>, start: int, neighbors: seq<int>, vs: seq<int>, es: seq<int>, ds: seq<int>, ks: seq<Key>)
    requires Searching(rows, edges, active, planned, used, vars, seen, start) && Near(active, seen, start, neighbors) && Explored(seen, start)
    requires Growing(rows, active, dups, vs, es, ds, ks) && |vs| == 2 && vs[0] == start
    requires forall i :: 0 <= i < |neighbors| ==> Rejected(active, vs, neighbors[i])
    ensures Searching(rows, edges, Erase(active, ks), planned, used, vars, seen, start)
    ensures Near(Erase(active, ks), seen, start, neighbors)
  {
    var c := vs[1];
    assert vs == [start, c] && Pairs(2) == Pairs(1) + 1 && Pairs(1) == Pairs(0) + 0;
    assert EdgeIndex(1, 0) == 0 && ks == [EdgeKey(c, start)];
    LoneEdge(edges, active, used, vars, seen, start, neighbors, c);
    FewerTriangles(active, ks, vars, seen, start, neighbors);
  }

  lemma EraseShrinks(rows: seq<Row>, active: map<Key, int>, dups: map<Key, seq<int>>, vs: seq<int>, es: seq<int>, ds: seq<int>, ks: seq<Key>)
    requires EdgesOk(rows, active, dups) && Growing(rows, active, dups, vs, es, ds, ks) && |vs| >= 2
    ensures EdgesOk(rows, Erase(active, ks), dups) && |Erase(active, ks)| < |active|
  {
    var less := Erase(active, ks);
    PairsGrow(2, |vs|);
    assert Pairs(2) == 1 by {
      assert Pairs(1) == 0;
    }
    assert ks[0] in active && ks[0] in ks;
    FewerKeys(active, less, ks[0]);
  }

  lemma FewerKeys(active: map<Key, int>, less: map<Key, int>, k: Key)
    requires k in active && k !in less && forall x :: x in less ==> x in active
    ensures |less| < |active|
  {
    SubsetSize(less.Keys, active.Keys - {k});
    assert |active.Keys - {k}| == |active.Keys| - 1;
    assert |less| == |less.Keys| && |active| == |active.Keys|;
  }

  // Three clauses on the pairs of three literals.
  ghost predicate ClauseTriangle(rows: seq<Row>, x: int, y: int, z: int) {
    HasEdge(rows, x, y) && HasEdge(rows, x, z) && HasEdge(rows, y, z)
  }

  ghost predicate HasEdge(rows: seq<Row>, x: int, y: int) {
    exists id :: 0 <= id < |rows| && Eligible(rows[id]) && MatchesEdge(rows, id, x, y)
  }

  // Every triangle of clauses has an edge in a planned clique.
  ghost predicate Maximal(rows: seq<Row>, planned: seq<Clique>) {
    forall x, y, z {:trigger ClauseTriangle(rows, x, y, z)} :: ClauseTriangle(rows, x, y, z) ==>
      PlansKey(rows, planned, EdgeKey(x, y)) || PlansKey(rows, planned, EdgeKey(x, z)) || PlansKey(rows, planned, EdgeKey(y, z))
  }

  // search_almost_one: all cliques it plans are cliques, and no row is used
  // twice; unless the probes run out, no triangle is overlooked; and there is
  // a number of probes that is enough.
  method SearchAlmostOne(rows: seq<Row>, vars: nat, limit: int) returns (ok: bool, planned: seq<Clique>)
    requires forall i :: 0 <= i < |rows| ==> VarsIn(rows[i].lits, vars)
    ensures PlannedOk(rows, planned)
    ensures ok ==> Maximal(rows, planned)
    ensures !ok ==> limit < MostProbes(rows, vars)
  {
    planned := [];
    var binaryRows := 0;
    for id := 0 to |rows|
      invariant binaryRows == Binaries(rows[..id])
    {
      assert rows[..id + 1][..id] == rows[..id];
      if rows[id].degree == 1 && |rows[id].lits| == 2 {
        binaryRows := binaryRows + 1;
      }
    }
    assert rows[..|rows|] == rows;
    if binaryRows < 3 {
      FewRows(rows);
      return true, [];
    }
    ok, planned := SearchAll(rows, vars, limit);
  }

  // Each growth ends a start vertex or takes an edge away, and tries each
  // neighbour with each vertex of the clique at most.
  function MostProbes(rows: seq<Row>, vars: nat): nat {
    Cost(|rows| + 2 * vars, GrowthCost(|rows|))
  }

  lemma MostProbesIs(rows: seq<Row>, vars: nat)
    ensures MostProbes(rows, vars) == (|rows| + 2 * vars) * (|rows| * (|rows| + 1))
  {
    CostIsProduct(|rows| + 2 * vars, GrowthCost(|rows|));
    CostIsProduct(|rows|, |rows| + 1);
  }

  lemma ProbesEnough(rows: seq<Row>, vars: nat, ok: bool, probes: int, size: nat, n: nat, limit: int)
    requires n <= |rows| + 2 * vars && AffordsAt(ok, probes, size, GrowthCost(|rows|), n, limit)
    ensures !ok ==> limit < MostProbes(rows, vars)
  {
    CostGrows(n, |rows| + 2 * vars, GrowthCost(|rows|));
  }

  method SearchAll(rows: seq<Row>, vars: nat, limit: int) returns (ok: bool, planned: seq<Clique>)
    requires forall i :: 0 <= i < |rows| ==> VarsIn(rows[i].lits, vars)
    ensures PlannedOk(rows, planned)
    ensures ok ==> Maximal(rows, planned)
    ensures !ok ==> limit < MostProbes(rows, vars)
  {
    var active, dups, listed := BuildEdges(rows, vars);
    var occurrence := SortNeighbors(active, listed, vars);
    EdgesProper(rows, active, dups, vars);
    ghost var left, growths;
    var probes;
    GrowthFits(|rows|);
    ok, planned, probes, left, growths := SearchVertices(rows, vars, active, dups, occurrence, limit, GrowthCost(|rows|));
    ProbesEnough(rows, vars, ok, probes, left, growths, limit);
  }

  // All start vertices.
  method SearchVertices(rows: seq<Row>, vars: nat, edges: map<Key, int>, dups: map<Key, seq<int>>, occurrence: seq<seq<int>>, limit: int,
                        ghost c: nat)
      returns (ok: bool, planned: seq<Clique>, probes: int, ghost left: nat, ghost growths: nat)
    requires CostFits(|rows|, c)
    requires EdgesOk(rows, edges, dups) && EdgesListed(rows, edges, dups, |rows|)
    requires EndsListed(edges, occurrence, vars) && ProperEdges(edges, vars) && AtMost(edges, occurrence, vars, |rows|)
    ensures PlannedOk(rows, planned)
    ensures ok ==> Maximal(rows, planned)
    ensures FewGrowths(growths, edges, occurrence) && AffordsAt(ok, probes, left, c, growths, limit)
  {
    var active := edges;
    var seen := NoneDeleted(2 * vars);
    probes := 0;
    ghost var used: set<Key> := {};
    planned, ok := [], true;
    RoundStart(rows, vars, edges, dups, occurrence, seen);
    growths := |edges|;
    AffordsStart(|edges|, c, limit);
    var start := 0;
    FewAtFirst(edges, occurrence);
    while ok && start < |occurrence|
      invariant 0 <= start <= |occurrence|
      invariant InRound(rows, vars, edges, active, dups, planned, used, occurrence, seen, start, ok)
      invariant FewGrowths(growths, edges, occurrence[..start]) && AffordsAt(ok, probes, |active|, c, growths, limit)
    {
      ok, active, planned, probes, seen, used :=
        StartFrom(rows, vars, active, dups, occurrence, start, seen, planned, probes, limit, used, edges, c, growths);
      FewMore(growths, edges, occurrence, start);
      start, growths := start + 1, growths + 1;
    }
    FewAtEnd(growths, edges, occurrence, start);
    RoundFound(rows, vars, edges, active, dups, planned, used, occurrence, seen, start, ok);
    left := |active|;
  }

  // At most one growth for each edge and each of the vertices.
  ghost predicate FewGrowths(growths: nat, edges: map<Key, int>, occurrence: seq<seq<int>>) {
    true == (growths <= |edges| + |occurrence|)
  }

  lemma FewAtFirst(edges: map<Key, int>, occurrence: seq<seq<int>>)
    ensures FewGrowths(|edges|, edges, occurrence[..0])
  {
  }

  lemma FewMore(growths: nat, edges: map<Key, int>, occurrence: seq<seq<int>>, start: nat)
    requires start < |occurrence| && FewGrowths(growths, edges, occurrence[..start])
    ensures FewGrowths(growths + 1, edges, occurrence[..start + 1])
  {
  }

  lemma FewAtEnd(growths: nat, edges: map<Key, int>, occurrence: seq<seq<int>>, start: nat)
    requires start <= |occurrence| && FewGrowths(growths, edges, occurrence[..start])
    ensures FewGrowths(growths, edges, occurrence)
  {
  }

  // All start vertices below `start` are done.
  ghost predicate InRound(rows: seq<Row>, vars: nat, edges: map<Key, int>, active: map<Key, int>, dups: map<Key, seq<int>>,
                          planned: seq<Clique>, used: set<Key>, occurrence: seq<seq<int>>, seen: seq<bool>, start: nat, ok: bool) {
    true == (
      && Visited(seen, occurrence, start, vars) && Planning(rows, active, dups, planned, used)
      && (ok ==> Searching(rows, edges, active, planned, used, vars, seen, 0)))
  }

  lemma RoundStart(rows: seq<Row>, vars: nat, edges: map<Key, int>, dups: map<Key, seq<int>>, occurrence: seq<seq<int>>, seen: seq<bool>)
    requires EdgesOk(rows, edges, dups) && ProperEdges(edges, vars) && seen == NoneDeleted(2 * vars) && |occurrence| == 2 * vars
    ensures InRound(rows, vars, edges, edges, dups, [], {}, occurrence, seen, 0, true)
  {
    SearchStart(rows, edges, vars, seen);
  }

  lemma RoundFound(rows: seq<Row>, vars: nat, edges: map<Key, int>, active: map<Key, int>, dups: map<Key, seq<int>>,
                   planned: seq<Clique>, used: set<Key>, occurrence: seq<seq<int>>, seen: seq<bool>, start: nat,
                   ok: bool)
    requires InRound(rows, vars, edges, active, dups, planned, used, occurrence, seen, start, ok)
    requires ok ==> start == 2 * vars
    requires EdgesOk(rows, edges, dups) && EdgesListed(rows, edges, dups, |rows|)
    requires EndsListed(edges, occurrence, vars) && ProperEdges(edges, vars)
    ensures PlannedOk(rows, planned) && (ok ==> Maximal(rows, planned))
  {
    if ok {
      AllVisited(seen, occurrence, vars);
      SearchEnd(rows, edges, active, dups, planned, used, vars, occurrence, seen);
    }
  }

  lemma RoundSkip(rows: seq<Row>, vars: nat, edges: map<Key, int>, active: map<Key, int>, dups: map<Key, seq<int>>,
                  planned: seq<Clique>, used: set<Key>, occurrence: seq<seq<int>>, seen: seq<bool>, start: nat)
    requires InRound(rows, vars, edges, active, dups, planned, used, occurrence, seen, start, true)
    requires start < 2 * vars == |seen| == |occurrence| && (seen[start] || occurrence[start] == [])
    ensures InRound(rows, vars, edges, active, dups, planned, used, occurrence, seen, start + 1, true)
  {
    VisitedMore(seen, occurrence, start, vars);
  }

  // One start vertex, if it has edges and has not been seen.
  method StartFrom(rows: seq<Row>, vars: nat, active: map<Key, int>, dups: map<Key, seq<int>>, occurrence: seq<seq<int>>, start: nat,
                   seen: seq<bool>, planned: seq<Clique>, probes: int, limit: int, ghost used: set<Key>, ghost edges: map<Key, int>,
                   ghost c: nat, ghost n: nat)
      returns (ok: bool, active': map<Key, int>, planned': seq<Clique>, probes': int, seen': seq<bool>, ghost used': set<Key>)
    requires InRound(rows, vars, edges, active, dups, planned, used, occurrence, seen, start, true)
    requires AffordsAt(true, probes, |active|, c, n, limit)
    requires start < 2 * vars && CostFits(|rows|, c)
    requires EndsListed(edges, occurrence, vars) && ProperEdges(edges, vars) && AtMost(edges, occurrence, vars, |rows|)
    ensures InRound(rows, vars, edges, active', dups, planned', used', occurrence, seen', start + 1, ok)
    ensures AffordsAt(ok, probes', |active'|, c, n + 1, limit)
  {
    assert |seen| == |occurrence| == 2 * vars;
    if seen[start] || |occurrence[start]| == 0 {
      RoundSkip(rows, vars, edges, active, dups, planned, used, occurrence, seen, start);
      AffordsNext(true, probes, |active|, c, n, limit);
      ok, active', planned', probes', seen', used' := true, active, planned, probes, seen, used;
    } else {
      VisitedMore(seen, occurrence, start, vars);
      ok, active', planned', probes', seen', used' :=
        SearchVertex(rows, vars, active, dups, occurrence, start, seen, planned, probes, limit, used, edges, c, n);
    }
  }

  // The vertices up to here have been started from, or have no edges.
  ghost predicate Visited(seen: seq<bool>, occurrence: seq<seq<int>>, start: int, vars: nat) {
    true == (
      && |seen| == |occurrence| == 2 * vars
      && forall v :: 0 <= v < 2 * vars ==> if v < start then seen[v] || occurrence[v] == [] else !seen[v])
  }

  lemma AllVisited(seen: seq<bool>, occurrence: seq<seq<int>>, vars: nat)
    requires Visited(seen, occurrence, 2 * vars, vars)
    ensures forall v :: 0 <= v < |seen| == |occurrence| ==> seen[v] || occurrence[v] == []
  {
  }

  lemma VisitedMore(seen: seq<bool>, occurrence: seq<seq<int>>, start: nat, vars: nat)
    requires Visited(seen, occurrence, start, vars) && start < 2 * vars
    ensures |seen| == |occurrence| == 2 * vars && !seen[start] && Visited(seen[start := true], occurrence, start + 1, vars)
    ensures occurrence[start] == [] ==> Visited(seen, occurrence, start + 1, vars)
  {
  }

  // One start vertex.
  method SearchVertex(rows: seq<Row>, vars: nat, active: map<Key, int>, dups: map<Key, seq<int>>, occurrence: seq<seq<int>>, start: nat,
                      seen: seq<bool>, planned: seq<Clique>, probes: int, limit: int, ghost used: set<Key>, ghost edges: map<Key, int>,
                      ghost c: nat, ghost n: nat)
      returns (ok: bool, active': map<Key, int>, planned': seq<Clique>, probes': int, seen': seq<bool>, ghost used': set<Key>)
    requires Planning(rows, active, dups, planned, used)
    requires Searching(rows, edges, active, planned, used, vars, seen, 0) && EndsListed(edges, occurrence, vars) && ProperEdges(edges, vars)
    requires start < 2 * vars == |seen| == |occurrence| && !seen[start]
    requires AtMost(edges, occurrence, vars, |rows|) && CostFits(|rows|, c)
    requires AffordsAt(true, probes, |active|, c, n, limit)
    ensures AffordsAt(ok, probes', |active'|, c, n + 1, limit)
    ensures Planning(rows, active', dups, planned', used')
    ensures seen' == seen[start := true] && (ok ==> Searching(rows, edges, active', planned', used', vars, seen', 0))
  {
    ok, active', planned', probes', used' := true, active, planned, probes, used;
    seen' := seen[start := true];
    AffordsNext(true, probes, |active|, c, n, limit);
    var l := VertexLiteral(start);
    var neighbors := OpenNeighbors(occurrence, start, seen');
    SearchAt(rows, edges, active, planned, used, vars, occurrence, seen, l, neighbors);
    if |occurrence[start]| >= 2 && |neighbors| >= 2 {
      ok, active', planned', probes', used' :=
        SearchFrom(rows, active, dups, l, neighbors, planned, probes, limit, used, edges, vars, seen', c, Cost(n + 1, c));
    }
  }

  lemma SearchAt(rows: seq<Row>, edges: map<Key, int>, active: map<Key, int>, planned: seq<Clique>, used: set<Key>, vars: int,
                 occurrence: seq<seq<int>>, seen: seq<bool>, start: int, neighbors: seq<int>)
    requires Searching(rows, edges, active, planned, used, vars, seen, 0) && EndsListed(edges, occurrence, vars) && ProperEdges(edges, vars)
    requires 1 <= Abs(start) <= vars && |seen| == |occurrence| == 2 * vars
    requires 0 <= ToLit(start) < 2 * vars && !seen[ToLit(start)]
    requires forall w ::
      (w in occurrence[ToLit(start)] && 0 <= ToLit(w) < 2 * vars && !seen[ToLit(start) := true][ToLit(w)] && |occurrence[ToLit(w)]| >= 2)
      ==> w in neighbors
    ensures var seen' := seen[ToLit(start) := true];
      && Searching(rows, edges, active, planned, used, vars, seen', start) && Near(active, seen', start, neighbors) && Explored(seen', start)
      && (|occurrence[ToLit(start)]| < 2 || |neighbors| < 2 ==> Searching(rows, edges, active, planned, used, vars, seen', 0))
  {
    var seen' := seen[ToLit(start) := true];
    SeeMore(active, vars, seen, start);
    PaidKeys(edges, active, used);
    NearListed(edges, active, vars, occurrence, seen', start, neighbors);
    if |neighbors| < 2 {
      NoneHere(active, vars, seen', start, neighbors);
    } else if |occurrence[ToLit(start)]| < 2 {
      NoneAtAll(active, vars, seen', start);
    }
  }

  // The binary clauses, as counted.
  function Binaries(rows: seq<Row>): nat {
    if rows == [] then 0
    else
      var r := rows[|rows| - 1];
      Binaries(rows[..|rows| - 1]) + if r.degree == 1 && |r.lits| == 2 then 1 else 0
  }

  lemma {:induction false} BinariesBelow(rows: seq<Row>, id: nat, n: nat)
    requires id < n <= |rows| && rows[id].degree == 1 && |rows[id].lits| == 2
    ensures Binaries(rows[..n]) >= Binaries(rows[..id]) + 1
    decreases n
  {
    assert rows[..n][..n - 1] == rows[..n - 1];
    if id < n - 1 {
      BinariesBelow(rows, id, n - 1);
    }
  }

  // Three different clauses are needed for a triangle.
  lemma FewRows(rows: seq<Row>)
    requires Binaries(rows) < 3
    ensures Maximal(rows, []) && PlannedOk(rows, [])
  {
    forall x, y, z
      ensures !ClauseTriangle(rows, x, y, z)
    {
      if ClauseTriangle(rows, x, y, z) {
        ThreeRows(rows, x, y, z);
      }
    }
  }

  lemma ThreeRows(rows: seq<Row>, x: int, y: int, z: int)
    requires ClauseTriangle(rows, x, y, z)
    ensures Binaries(rows) >= 3
  {
    var a :| 0 <= a < |rows| && Eligible(rows[a]) && MatchesEdge(rows, a, x, y);
    var b :| 0 <= b < |rows| && Eligible(rows[b]) && MatchesEdge(rows, b, x, z);
    var c :| 0 <= c < |rows| && Eligible(rows[c]) && MatchesEdge(rows, c, y, z);
    assert a != b && b != c && a != c;
    var lo, hi := if a < b then a else b, if a < b then b else a;
    var first, second, third :=
      if c < lo then c else lo, if c < lo then lo else if c < hi then c else hi, if c < hi then hi else c;
    assert rows[..|rows|] == rows;
    BinariesBelow(rows, first, second);
    BinariesBelow(rows, second, third);
    BinariesBelow(rows, third, |rows|);
  }

  lemma EdgesProper(rows: seq<Row>, edges: map<Key, int>, dups: map<Key, seq<int>>, vars: int)
    requires EdgesOk(rows, edges, dups) && forall i :: 0 <= i < |rows| ==> VarsIn(rows[i].lits, vars)
    ensures ProperEdges(edges, vars)
  {
    forall x, y | EdgeKey(x, y) in edges
      ensures 1 <= Abs(x) <= vars && 1 <= Abs(y) <= vars && Abs(x) != Abs(y)
    {
      var k := EdgeKey(x, y);
      assert KeyIs(rows, edges[k], k);
      assert VarsIn(rows[edges[k]].lits, vars);
    }
  }

  lemma SearchStart(rows: seq<Row>, edges: map<Key, int>, vars: nat, seen: seq<bool>)
    requires ProperEdges(edges, vars) && seen == NoneDeleted(2 * vars)
    ensures Searching(rows, edges, edges, [], {}, vars, seen, 0) && PlannedOk(rows, []) && UsedUp(rows, [], {})
  {
  }

  // Edges of clauses are edges of the map, and used ones are planned.
  lemma SearchEnd(rows: seq<Row>, edges: map<Key, int>, active: map<Key, int>, dups: map<Key, seq<int>>, planned: seq<Clique>, used: set<Key>,
                  vars: int, occurrence: seq<seq<int>>, seen: seq<bool>)
    requires Searching(rows, edges, active, planned, used, vars, seen, 0) && EdgesOk(rows, edges, dups)
    requires EdgesListed(rows, edges, dups, |rows|) && EndsListed(edges, occurrence, vars) && ProperEdges(edges, vars)
    requires forall v :: 0 <= v < |seen| == |occurrence| ==> seen[v] || occurrence[v] == []
    ensures Maximal(rows, planned)
  {
    AllPaid(edges, active, used, vars, occurrence, seen);
    forall x, y, z | ClauseTriangle(rows, x, y, z)
      ensures Triangle(edges, x, y, z)
    {
      EdgeListed(rows, edges, dups, x, y);
      EdgeListed(rows, edges, dups, x, z);
      EdgeListed(rows, edges, dups, y, z);
    }
    forall k | k in used
      ensures PlansKey(rows, planned, k)
    {
    }
  }

  lemma EdgeListed(rows: seq<Row>, edges: map<Key, int>, dups: map<Key, seq<int>>, x: int, y: int)
    requires EdgesListed(rows, edges, dups, |rows|) && HasEdge(rows, x, y)
    ensures EdgeKey(x, y) in edges
  {
    var id :| 0 <= id < |rows| && Eligible(rows[id]) && MatchesEdge(rows, id, x, y);
  }

  method SortNeighbors(ghost edges: map<Key, int>, occurrence: seq<seq<int>>, vars: nat) returns (sorted: seq<seq<int>>)
    requires EndsListed(edges, occurrence, vars)
    ensures EndsListed(edges, sorted, vars)
    ensures forall n :: AtMost(edges, occurrence, vars, n) ==> AtMost(edges, sorted, vars, n)
  {
    sorted := [];
    for v := 0 to |occurrence|
      invariant |sorted| == v && forall u :: 0 <= u < v ==> |sorted[u]| <= |occurrence[u]|
      invariant forall u, x :: 0 <= u < v ==> (x in sorted[u] <==> x in occurrence[u])
    {
      sorted := sorted + [SortUnique(occurrence[v])];
    }
    SameEnds(edges, occurrence, sorted, vars);
  }

  lemma SameEnds(edges: map<Key, int>, occurrence: seq<seq<int>>, sorted: seq<seq<int>>, vars: nat)
    requires EndsListed(edges, occurrence, vars) && |sorted| == |occurrence|
    requires forall u, x :: 0 <= u < |sorted| ==> (x in sorted[u] <==> x in occurrence[u])
    ensures EndsListed(edges, sorted, vars)
  {
    forall v, i | 0 <= v < |sorted| && 0 <= i < |sorted[v]|
      ensures 1 <= Abs(sorted[v][i]) <= vars
    {
      var x := sorted[v][i];
      assert x in sorted[v];
      var k :| 0 <= k < |occurrence[v]| && occurrence[v][k] == x;
    }
  }

  // Marking an unmarked row takes it out of the live ones.
  lemma {:induction false} LiveRowsDrop(rows: seq<Row>, deleted: seq<bool>, id: nat)
    requires |rows| == |deleted| && id < |rows| && !deleted[id]
    ensures |LiveRows(rows, deleted[id := true])| == |LiveRows(rows, deleted)| - 1
  {
    var n := |rows| - 1;
    if id < n {
      LiveRowsDrop(rows[..n], deleted[..n], id);
      assert deleted[id := true][..n] == deleted[..n][id := true];
    } else {
      assert deleted[id := true][..n] == deleted[..n];
    }
  }

  lemma {:induction false} LiveRowsFewer(rows: seq<Row>, deleted: seq<bool>)
    requires |rows| == |deleted|
    ensures |LiveRows(rows, deleted)| <= |rows|
  {
    if rows != [] {
      LiveRowsFewer(rows[..|rows| - 1], deleted[..|rows| - 1]);
    }
  }

  // commit_rows: the kept rows move to the front, the new rows follow, and
  // all fits in the old space.
  method CommitRows(rows: seq<Row>, deleteRow: seq<bool>, prepared: seq<Row>) returns (rows': seq<Row>)
    requires |rows| == |deleteRow| && |LiveRows(rows, deleteRow)| + |prepared| <= |rows|
    ensures rows' == LiveRows(rows, deleteRow) + prepared
  {
    rows' := rows;
    var output := 0;
    for id := 0 to |rows|
      invariant 0 <= output <= id && |rows'| == |rows|
      invariant rows'[..output] == LiveRows(rows[..id], deleteRow[..id])
      invariant forall k :: id <= k < |rows| ==> rows'[k] == rows[k]
    {
      assert rows[..id + 1][..id] == rows[..id] && deleteRow[..id + 1][..id] == deleteRow[..id];
      if !deleteRow[id] {
        rows' := rows'[output := rows'[id]];
        output := output + 1;
      }
    }
    assert rows[..|rows|] == rows && deleteRow[..|rows|] == deleteRow;
    for index := 0 to |prepared|
      invariant |rows'| == |rows| && output == |LiveRows(rows, deleteRow)| + index
      invariant rows'[..output] == LiveRows(rows, deleteRow) + prepared[..index]
    {
      rows' := rows'[output := prepared[index]];
      output := output + 1;
      assert prepared[..index + 1] == prepared[..index] + [prepared[index]];
    }
    assert prepared[..|prepared|] == prepared;
    rows' := rows'[..output];
  }

  // Mark the rows of one clique; none may be marked already.
  method MarkRows(rows: seq<Row>, deleteRow: seq<bool>, ids: seq<int>) returns (ok: bool, deleteRow': seq<bool>)
    requires |rows| == |deleteRow| && forall i :: 0 <= i < |ids| ==> 0 <= ids[i] < |rows|
    ensures |deleteRow'| == |rows|
    ensures ok ==> forall id :: 0 <= id < |rows| ==> (deleteRow'[id] <==> deleteRow[id] || id in ids)
    ensures ok ==> |LiveRows(rows, deleteRow')| == |LiveRows(rows, deleteRow)| - |ids|
    ensures Unrepeated(ids) && (forall i :: 0 <= i < |ids| ==> !deleteRow[ids[i]]) ==> ok
  {
    ok, deleteRow' := true, deleteRow;
    for i := 0 to |ids|
      invariant ok && |deleteRow'| == |rows|
      invariant forall id :: 0 <= id < |rows| ==> (deleteRow'[id] <==> deleteRow[id] || id in ids[..i])
      invariant |LiveRows(rows, deleteRow')| == |LiveRows(rows, deleteRow)| - i
    {
      if deleteRow'[ids[i]] {
        if Unrepeated(ids) {
          UnrepeatedAt(ids, i);
        }
        return false, deleteRow';
      }
      LiveRowsDrop(rows, deleteRow', ids[i]);
      deleteRow' := deleteRow'[ids[i] := true];
      assert ids[..i + 1] == ids[..i] + [ids[i]];
    }
    assert ids[..|ids|] == ids;
  }

  // The rows of the first n cliques are marked, and their cardinality rows
  // are prepared.
  ghost predicate Replacing(rows: seq<Row>, planned: seq<Clique>, n: int, deleteRow: seq<bool>, prepared: seq<Row>) {
    && |deleteRow| == |rows| && 0 <= n <= |planned| && Prepared(rows, planned, n, prepared)
    && MarksOk(planned, n, deleteRow) && |LiveRows(rows, deleteRow)| + n <= |rows|
  }

  ghost predicate Prepared(rows: seq<Row>, planned: seq<Clique>, n: int, prepared: seq<Row>) {
    true == (
      && 0 <= n == |prepared| <= |planned|
      && forall k :: 0 <= k < n ==> prepared[k] == CliqueRow(planned[k]) && CliqueOk(rows, planned[k]))
  }

  ghost predicate MarksOk(planned: seq<Clique>, n: int, deleteRow: seq<bool>) {
    true == (
      && 0 <= n <= |planned|
      && (forall k :: 0 <= k < n ==> AllMarked(planned[k], deleteRow))
      && (forall id :: 0 <= id < |deleteRow| && deleteRow[id] ==> MarkedBy(planned, n, id)))
  }

  ghost predicate AllMarked(c: Clique, deleteRow: seq<bool>) {
    forall id :: Uses(c, id) ==> 0 <= id < |deleteRow| && deleteRow[id]
  }

  ghost predicate MarkedBy(planned: seq<Clique>, n: int, id: int) {
    exists k :: 0 <= k < n && k < |planned| && Uses(planned[k], id)
  }

  lemma CliqueIds(rows: seq<Row>, c: Clique)
    requires CliqueOk(rows, c)
    ensures |c.edges| >= 1
    ensures forall i :: 0 <= i < |c.edges| ==> 0 <= c.edges[i] < |rows|
    ensures forall i :: 0 <= i < |c.duplicates| ==> 0 <= c.duplicates[i] < |rows|
  {
    PairsGrow(2, |c.literals|);
    assert Pairs(2) == 1 by {
      assert Pairs(1) == 0;
    }
    forall e | 0 <= e < |c.edges|
      ensures 0 <= c.edges[e] < |rows|
    {
      var right, left := EdgePair(|c.literals|, e);
      assert MatchesEdge(rows, c.edges[EdgeIndex(right, left)], c.literals[right], c.literals[left]);
    }
  }

  lemma UsesInRange(rows: seq<Row>, c: Clique, id: int)
    requires CliqueOk(rows, c) && Uses(c, id)
    ensures 0 <= id < |rows|
  {
    CliqueIds(rows, c);
  }

  lemma ReplaceStep(rows: seq<Row>, planned: seq<Clique>, n: nat, deleteRow: seq<bool>, prepared: seq<Row>, mid: seq<bool>, deleteRow': seq<bool>)
    requires Replacing(rows, planned, n, deleteRow, prepared) && n < |planned| && CliqueOk(rows, planned[n])
    requires |mid| == |deleteRow'| == |rows|
    requires forall id :: 0 <= id < |rows| ==> (mid[id] <==> deleteRow[id] || id in planned[n].edges)
    requires forall id :: 0 <= id < |rows| ==> (deleteRow'[id] <==> mid[id] || id in planned[n].duplicates)
    requires |LiveRows(rows, deleteRow')| < |LiveRows(rows, deleteRow)|
    ensures Replacing(rows, planned, n + 1, deleteRow', prepared + [CliqueRow(planned[n])])
  {
    forall id | Uses(planned[n], id)
      ensures 0 <= id < |rows|
    {
      UsesInRange(rows, planned[n], id);
    }
    MarksStep(planned, n, deleteRow, mid, deleteRow');
    PreparedStep(rows, planned, n, prepared);
  }

  lemma PreparedStep(rows: seq<Row>, planned: seq<Clique>, n: nat, prepared: seq<Row>)
    requires Prepared(rows, planned, n, prepared) && n < |planned| && CliqueOk(rows, planned[n])
    ensures Prepared(rows, planned, n + 1, prepared + [CliqueRow(planned[n])])
  {
  }

  lemma MarksStep(planned: seq<Clique>, n: nat, deleteRow: seq<bool>, mid: seq<bool>, deleteRow': seq<bool>)
    requires n < |planned| && |mid| == |deleteRow'| == |deleteRow| && MarksOk(planned, n, deleteRow)
    requires forall id :: 0 <= id < |deleteRow| ==> (mid[id] <==> deleteRow[id] || id in planned[n].edges)
    requires forall id :: 0 <= id < |deleteRow| ==> (deleteRow'[id] <==> mid[id] || id in planned[n].duplicates)
    requires forall id :: Uses(planned[n], id) ==> 0 <= id < |deleteRow|
    ensures MarksOk(planned, n + 1, deleteRow')
  {
    forall k | 0 <= k < n + 1
      ensures AllMarked(planned[k], deleteRow')
    {
      if k < n {
        assert AllMarked(planned[k], deleteRow);
      }
    }
    forall id | 0 <= id < |deleteRow| && deleteRow'[id]
      ensures MarkedBy(planned, n + 1, id)
    {
      if deleteRow[id] {
        assert MarkedBy(planned, n, id);
      } else {
        assert Uses(planned[n], id);
      }
    }
  }

  // The replaced rows have the same models.
  lemma ReplacedModels(rows: seq<Row>, planned: seq<Clique>, deleteRow: seq<bool>, prepared: seq<Row>, a: Assignment)
    requires Replacing(rows, planned, |planned|, deleteRow, prepared)
    ensures RowsSat(LiveRows(rows, deleteRow) + prepared, a) <==> RowsSat(rows, a)
  {
    RowsConcat(LiveRows(rows, deleteRow), prepared, a);
    LiveRowsSat(rows, deleteRow, a);
    forall k | 0 <= k < |planned|
      ensures RowSat(prepared[k], a) <==> CliqueSat(rows, planned[k], a)
    {
      CliqueMeaning(rows, planned[k], a);
    }
    if RowsSat(rows, a) {
      forall k | 0 <= k < |planned|
        ensures CliqueSat(rows, planned[k], a)
      {
        assert AllMarked(planned[k], deleteRow);
      }
    }
    if LiveSat(rows, deleteRow, a) && RowsSat(prepared, a) {
      forall id | 0 <= id < |rows|
        ensures RowSat(rows[id], a)
      {
        if deleteRow[id] {
          assert MarkedBy(planned, |planned|, id);
          var k :| 0 <= k < |planned| && Uses(planned[k], id);
          assert RowSat(prepared[k], a) && CliqueSat(rows, planned[k], a);
        }
      }
    }
  }

  const MAXIMUM_VARIABLES := 100000
  const MAXIMUM_CLAUSES := 1000000
  const MAXIMUM_PAIR_PROBES := 50000000

  // The cardinality rows of the cliques.
  function CliqueRows(planned: seq<Clique>): seq<Row> {
    seq(|planned|, i requires 0 <= i < |planned| => CliqueRow(planned[i]))
  }

  // The rows of all cliques are replaced by their cardinality rows.
  ghost predicate CommittedRows(rows: seq<Row>, planned: seq<Clique>, deleteRow: seq<bool>, rows': seq<Row>) {
    && |deleteRow| == |rows| && rows' == LiveRows(rows, deleteRow) + CliqueRows(planned)
    && forall id :: 0 <= id < |rows| ==> (deleteRow[id] <==> MarkedBy(planned, |planned|, id))
  }

  ghost predicate PureTriangle(rows: seq<Row>, c: Clique) {
    |c.literals| == 3 && c.duplicates == [] && CliqueOk(rows, c) && forall i, j :: 0 <= i < j < |c.edges| ==> c.edges[i] != c.edges[j]
  }

  // preprocess_card: the models stay the same. If the search came to its end
  // and found triangles only, all of them are replaced, and no triangle of
  // clauses is disjoint from them.
  method PreprocessCard(rows: seq<Row>, vars: nat)
      returns (rows': seq<Row>, ghost replaced: bool, ghost planned: seq<Clique>, ghost deleteRow: seq<bool>)
    requires forall i :: 0 <= i < |rows| ==> VarsIn(rows[i].lits, vars)
    ensures forall a :: RowsSat(rows', a) <==> RowsSat(rows, a)
    ensures if replaced then
        CommittedRows(rows, planned, deleteRow, rows') && PlannedOk(rows, planned) && Maximal(rows, planned) && planned != []
        && forall i :: 0 <= i < |planned| ==> PureTriangle(rows, planned[i])
      else rows' == rows
    ensures !replaced ==>
      || vars > MAXIMUM_VARIABLES || |rows| > MAXIMUM_CLAUSES || MAXIMUM_PAIR_PROBES < MostProbes(rows, vars)
      || (PlannedOk(rows, planned) && Maximal(rows, planned)
          && (planned == [] || exists i :: 0 <= i < |planned| && !PureTriangle(rows, planned[i])))
  {
    rows', replaced, planned, deleteRow := rows, false, [], [];
    if vars > MAXIMUM_VARIABLES || |rows| > MAXIMUM_CLAUSES {
      return;
    }
    var ok, found := SearchAlmostOne(rows, vars, MAXIMUM_PAIR_PROBES);
    planned := found;
    if !ok || found == [] {
      return;
    }
    var all := AllTriangles(rows, found);
    if !all {
      return;
    }
    var done;
    done, rows', deleteRow := ReplaceCliques(rows, found);
    replaced := true;
  }

  method AllTriangles(rows: seq<Row>, planned: seq<Clique>) returns (all: bool)
    ensures all <==> forall i :: 0 <= i < |planned| ==> PureTriangle(rows, planned[i])
  {
    all := true;
    for i := 0 to |planned|
      invariant all && forall k :: 0 <= k < i ==> PureTriangle(rows, planned[k])
    {
      var pure := IsPureTriangle(rows, planned[i]);
      if !pure {
        return false;
      }
    }
  }

  // The transaction: all cliques are replaced, or nothing is; and nothing
  // stops it for cliques as the search plans them.
  method ReplaceCliques(rows: seq<Row>, planned: seq<Clique>) returns (done: bool, rows': seq<Row>, ghost deleteRow: seq<bool>)
    ensures forall a :: RowsSat(rows', a) <==> RowsSat(rows, a)
    ensures if done then CommittedRows(rows, planned, deleteRow, rows') else rows' == rows
    ensures PlannedOk(rows, planned) ==> done
  {
    var marks, prepared := NoneDeleted(|rows|), [];
    LiveRowsFewer(rows, marks);
    for i := 0 to |planned|
      invariant Replacing(rows, planned, i, marks, prepared)
    {
      var ok;
      ok, marks := MarkClique(rows, planned, i, marks, prepared);
      if !ok {
        return false, rows, [];
      }
      prepared := prepared + [CliqueRow(planned[i])];
    }
    done, deleteRow := true, marks;
    rows' := CommitRows(rows, marks, prepared);
    AllReplaced(rows, planned, marks, prepared);
    forall a: Assignment
      ensures RowsSat(rows', a) <==> RowsSat(rows, a)
    {
      ReplacedModels(rows, planned, marks, prepared, a);
    }
  }

  // The rows of one clique.
  method MarkClique(rows: seq<Row>, planned: seq<Clique>, i: nat, marks: seq<bool>, ghost prepared: seq<Row>)
      returns (ok: bool, marks': seq<bool>)
    requires Replacing(rows, planned, i, marks, prepared) && i < |planned|
    ensures ok ==> Replacing(rows, planned, i + 1, marks', prepared + [CliqueRow(planned[i])])
    ensures PlannedOk(rows, planned) ==> ok
  {
    var c := planned[i];
    marks' := marks;
    ok := VerifyClique(rows, c);
    if !ok {
      return;
    }
    CliqueIds(rows, c);
    if PlannedOk(rows, planned) {
      Unmarked(rows, planned, i, marks, prepared);
    }
    var mid;
    ok, mid := MarkRows(rows, marks, c.edges);
    if !ok {
      return;
    }
    ok, marks' := MarkRows(rows, mid, c.duplicates);
    if ok {
      ReplaceStep(rows, planned, i, marks, prepared, mid, marks');
    }
  }

  // Nothing of the next clique is marked, or twice in it.
  lemma Unmarked(rows: seq<Row>, planned: seq<Clique>, i: nat, marks: seq<bool>, prepared: seq<Row>)
    requires Replacing(rows, planned, i, marks, prepared) && i < |planned| && PlannedOk(rows, planned)
    ensures var c := planned[i];
      && Unrepeated(c.edges) && Unrepeated(c.duplicates) && (forall id :: id in c.duplicates ==> id !in c.edges)
      && forall id :: 0 <= id < |marks| && Uses(c, id) ==> !marks[id]
  {
    var c := planned[i];
    UnrepeatedParts(c.edges, c.duplicates);
    forall id | 0 <= id < |marks| && marks[id]
      ensures !Uses(c, id)
    {
      assert MarkedBy(planned, i, id);
    }
  }

  lemma {:induction false} UnrepeatedParts(x: seq<int>, y: seq<int>)
    requires Unrepeated(x + y)
    ensures Unrepeated(x) && Unrepeated(y) && forall d :: d in y ==> d !in x
  {
    if y == [] {
      assert x + y == x;
    } else {
      var n := |y| - 1;
      assert (x + y)[..|x| + n] == x + y[..n] && (x + y)[|x| + n] == y[n];
      assert y == y[..n] + [y[n]];
      UnrepeatedParts(x, y[..n]);
    }
  }

  lemma AllReplaced(rows: seq<Row>, planned: seq<Clique>, deleteRow: seq<bool>, prepared: seq<Row>)
    requires Replacing(rows, planned, |planned|, deleteRow, prepared)
    ensures CommittedRows(rows, planned, deleteRow, LiveRows(rows, deleteRow) + prepared)
  {
    assert prepared == CliqueRows(planned);
    forall id | 0 <= id < |rows| && MarkedBy(planned, |planned|, id)
      ensures deleteRow[id]
    {
      var k :| 0 <= k < |planned| && Uses(planned[k], id);
      assert AllMarked(planned[k], deleteRow);
    }
  }
}
