/** The edge map of the clique search, and why the search overlooks no
    triangle. */
module Triangles {
  import opened Knf
  import opened UnitPropagation

  type Key = (int, int)

  // edge_key
  function EdgeKey(x: int, y: int): Key {
    if x < y then (x, y) else (y, x)
  }

  // Keys used up leave the map.
  function Erase(active: map<Key, int>, ks: seq<Key>): map<Key, int> {
    map k | k in active && k !in ks :: active[k]
  }

  // The vertex has a member's variable, or an edge to some member is missing.
  ghost predicate Rejected(active: map<Key, int>, vs: seq<int>, c: int) {
    exists m :: 0 <= m < |vs| && (Abs(vs[m]) == Abs(c) || EdgeKey(c, vs[m]) !in active)
  }

  lemma StillRejected(active: map<Key, int>, vs: seq<int>, candidate: int)
    ensures forall c {:trigger Rejected(active, vs, c)} :: Rejected(active, vs, c) ==> Rejected(active, vs + [candidate], c)
    ensures Rejected(active, vs + [candidate], candidate)
  {
    var more := vs + [candidate];
    assert more[|vs|] == candidate;
    forall c | Rejected(active, vs, c)
      ensures Rejected(active, more, c)
    {
      var m :| 0 <= m < |vs| && (Abs(vs[m]) == Abs(c) || EdgeKey(c, vs[m]) !in active);
      assert more[m] == vs[m];
    }
  }

  // The lists of the literals hold exactly the other ends of the edges.
  ghost predicate EndsListed(edges: map<Key, int>, occurrence: seq<seq<int>>, vars: int) {
    true == (
      && |occurrence| == 2 * vars
      && (forall x, y {:trigger EdgeKey(x, y)} :: 1 <= Abs(x) <= vars && 1 <= Abs(y) <= vars ==>
            (EdgeKey(x, y) in edges <==> y in occurrence[ToLit(x)]))
      && (forall v, i :: 0 <= v < |occurrence| && 0 <= i < |occurrence[v]| ==> 1 <= Abs(occurrence[v][i]) <= vars))
  }

  // Edges join different variables.
  ghost predicate ProperEdges(edges: map<Key, int>, vars: int) {
    forall x, y {:trigger EdgeKey(x, y)} :: EdgeKey(x, y) in edges ==> 1 <= Abs(x) <= vars && 1 <= Abs(y) <= vars && Abs(x) != Abs(y)
  }

  // Three vertices with all edges between them.
  ghost predicate Triangle(edges: map<Key, int>, x: int, y: int, z: int) {
    EdgeKey(x, y) in edges && EdgeKey(x, z) in edges && EdgeKey(y, z) in edges
  }

  lemma Rotate(edges: map<Key, int>, x: int, y: int, z: int)
    ensures Triangle(edges, x, y, z) == Triangle(edges, x, z, y) == Triangle(edges, y, x, z)
    ensures Triangle(edges, x, y, z) == Triangle(edges, y, z, x) == Triangle(edges, z, x, y) == Triangle(edges, z, y, x)
  {
  }

  // Every triangle there was is still there, or one of its edges was used.
  ghost predicate Accounted(edges: map<Key, int>, active: map<Key, int>, used: set<Key>) {
    true == (
      && (forall k :: k in active ==> k in edges)
      && forall x, y, z {:trigger Triangle(edges, x, y, z)} :: Triangle(edges, x, y, z) ==>
           Triangle(active, x, y, z) || EdgeKey(x, y) in used || EdgeKey(x, z) in used || EdgeKey(y, z) in used)
  }

  ghost predicate Explored(seen: seq<bool>, l: int) {
    0 <= ToLit(l) < |seen| && seen[ToLit(l)]
  }

  // No triangle is left at a seen vertex, apart from `start`.
  ghost predicate NoneAt(active: map<Key, int>, vars: int, seen: seq<bool>, start: int) {
    true == (
      && |seen| == 2 * vars && ProperEdges(active, vars)
      && forall x, y, z {:trigger Triangle(active, x, y, z)} :: Triangle(active, x, y, z) && Explored(seen, x) ==> x == start)
  }

  // The unseen vertices of triangles at `start` are among its neighbours.
  ghost predicate Near(active: map<Key, int>, seen: seq<bool>, start: int, neighbors: seq<int>) {
    true == (
      forall y, z {:trigger Triangle(active, start, y, z)} :: Triangle(active, start, y, z) && !Explored(seen, y) ==> y in neighbors)
  }

  // With every neighbour rejected no triangle has both ends of this edge.
  lemma NoThird(active: map<Key, int>, vars: int, seen: seq<bool>, start: int, neighbors: seq<int>, c: int, w: int)
    requires NoneAt(active, vars, seen, start) && Near(active, seen, start, neighbors) && Explored(seen, start)
    requires forall i :: 0 <= i < |neighbors| ==> Rejected(active, [start, c], neighbors[i])
    ensures !Triangle(active, start, c, w)
  {
    Rotate(active, start, c, w);
    assert EdgeKey(w, start) == EdgeKey(start, w) && EdgeKey(w, c) == EdgeKey(c, w);
    if w in neighbors {
      var i :| 0 <= i < |neighbors| && neighbors[i] == w;
      assert Rejected(active, [start, c], w);
    }
  }

  // Such an edge may go.
  lemma LoneEdge(edges: map<Key, int>, active: map<Key, int>, used: set<Key>, vars: int, seen: seq<bool>, start: int,
                 neighbors: seq<int>, c: int)
    requires Accounted(edges, active, used)
    requires NoneAt(active, vars, seen, start) && Near(active, seen, start, neighbors) && Explored(seen, start)
    requires forall i :: 0 <= i < |neighbors| ==> Rejected(active, [start, c], neighbors[i])
    ensures Accounted(edges, Erase(active, [EdgeKey(c, start)]), used)
  {
    var less := Erase(active, [EdgeKey(c, start)]);
    forall x, y, z | Triangle(active, x, y, z)
      ensures Triangle(less, x, y, z)
    {
      Rotate(active, x, y, z);
      NotThatEdge(active, vars, seen, start, neighbors, c, x, y, z);
      NotThatEdge(active, vars, seen, start, neighbors, c, x, z, y);
      NotThatEdge(active, vars, seen, start, neighbors, c, y, z, x);
    }
  }

  lemma NotThatEdge(active: map<Key, int>, vars: int, seen: seq<bool>, start: int, neighbors: seq<int>, c: int, x: int, y: int, z: int)
    requires NoneAt(active, vars, seen, start) && Near(active, seen, start, neighbors) && Explored(seen, start)
    requires forall i :: 0 <= i < |neighbors| ==> Rejected(active, [start, c], neighbors[i])
    requires Triangle(active, x, y, z)
    ensures EdgeKey(x, y) != EdgeKey(c, start)
  {
    Rotate(active, x, y, z);
    NoThird(active, vars, seen, start, neighbors, c, z);
  }

  // Used edges may go.
  lemma UsedEdges(edges: map<Key, int>, active: map<Key, int>, used: set<Key>, ks: seq<Key>)
    requires Accounted(edges, active, used)
    ensures Accounted(edges, Erase(active, ks), used + set k | k in ks)
  {
    var less := Erase(active, ks);
    forall x, y, z | Triangle(edges, x, y, z) && Triangle(active, x, y, z)
      ensures Triangle(less, x, y, z) || EdgeKey(x, y) in ks || EdgeKey(x, z) in ks || EdgeKey(y, z) in ks
    {
    }
  }

  lemma FewerTriangles(active: map<Key, int>, ks: seq<Key>, vars: int, seen: seq<bool>, start: int, neighbors: seq<int>)
    requires NoneAt(active, vars, seen, start) && Near(active, seen, start, neighbors)
    ensures NoneAt(Erase(active, ks), vars, seen, start) && Near(Erase(active, ks), seen, start, neighbors)
  {
    var less := Erase(active, ks);
    forall x, y, z | Triangle(less, x, y, z)
      ensures Triangle(active, x, y, z)
    {
    }
  }

  // When the start vertex has no edge to a neighbour left, no triangle is
  // left at it either.
  lemma NoneLeft(active: map<Key, int>, vars: int, seen: seq<bool>, start: int, neighbors: seq<int>)
    requires NoneAt(active, vars, seen, start) && Near(active, seen, start, neighbors)
    requires forall i :: 0 <= i < |neighbors| ==> Rejected(active, [start], neighbors[i])
    ensures NoneAt(active, vars, seen, 0)
  {
    forall x, y, z | Triangle(active, x, y, z)
      ensures !Explored(seen, x)
    {
      Rotate(active, x, y, z);
      assert EdgeKey(y, x) == EdgeKey(x, y) && EdgeKey(x, y) in active;
      if y in neighbors {
        var i :| 0 <= i < |neighbors| && neighbors[i] == y;
        assert Rejected(active, [start], y);
      }
    }
  }

  // At a vertex that is skipped, or has no two open neighbours, there was
  // none.
  lemma NearListed(edges: map<Key, int>, active: map<Key, int>, vars: int, occurrence: seq<seq<int>>, seen: seq<bool>,
                   start: int, neighbors: seq<int>)
    requires EndsListed(edges, occurrence, vars) && ProperEdges(edges, vars) && (forall k :: k in active ==> k in edges) && |seen| == 2 * vars
    requires 1 <= Abs(start) <= vars
    requires forall w :: w in occurrence[ToLit(start)] && 0 <= ToLit(w) < 2 * vars && !seen[ToLit(w)] && |occurrence[ToLit(w)]| >= 2 ==>
      w in neighbors
    ensures Near(active, seen, start, neighbors)
    ensures |occurrence[ToLit(start)]| < 2 ==> forall y, z :: !Triangle(active, start, y, z)
  {
    forall y, z | Triangle(active, start, y, z)
      ensures !Explored(seen, y) ==> y in neighbors
      ensures |occurrence[ToLit(start)]| >= 2
    {
      assert Triangle(edges, start, y, z);
      Rotate(edges, start, y, z);
      TwoEnds(edges, vars, occurrence, start, y, z);
      TwoEnds(edges, vars, occurrence, y, start, z);
    }
  }

  lemma TwoEnds(edges: map<Key, int>, vars: int, occurrence: seq<seq<int>>, x: int, y: int, z: int)
    requires EndsListed(edges, occurrence, vars) && ProperEdges(edges, vars) && Triangle(edges, x, y, z)
    ensures 1 <= Abs(x) <= vars && y in occurrence[ToLit(x)] && z in occurrence[ToLit(x)] && |occurrence[ToLit(x)]| >= 2
    ensures 1 <= Abs(y) <= vars && 1 <= Abs(z) <= vars && y != z
  {
    var list := occurrence[ToLit(x)];
    assert EdgeKey(x, y) in edges && EdgeKey(x, z) in edges && EdgeKey(y, z) in edges;
    var i :| 0 <= i < |list| && list[i] == y;
    var j :| 0 <= j < |list| && list[j] == z;
    assert i != j;
  }

  // A vertex without two open neighbours is done when it is seen.
  lemma NoneHere(active: map<Key, int>, vars: int, seen: seq<bool>, start: int, neighbors: seq<int>)
    requires NoneAt(active, vars, seen, start) && Near(active, seen, start, neighbors) && |neighbors| < 2
    ensures NoneAt(active, vars, seen, 0)
  {
    forall x, y, z | Triangle(active, x, y, z)
      ensures !Explored(seen, x)
    {
      Rotate(active, x, y, z);
      assert EdgeKey(y, z) in active && EdgeKey(x, y) in active;
      TwoMembers(neighbors, y, z);
    }
  }

  lemma NoneAtAll(active: map<Key, int>, vars: int, seen: seq<bool>, start: int)
    requires NoneAt(active, vars, seen, start) && forall y, z :: !Triangle(active, start, y, z)
    ensures NoneAt(active, vars, seen, 0)
  {
  }

  lemma PaidKeys(edges: map<Key, int>, active: map<Key, int>, used: set<Key>)
    requires Accounted(edges, active, used)
    ensures forall k :: k in active ==> k in edges
  {
  }

  lemma TwoMembers(s: seq<int>, y: int, z: int)
    ensures y in s && z in s && y != z ==> |s| >= 2
  {
  }

  lemma SeeMore(active: map<Key, int>, vars: int, seen: seq<bool>, start: int)
    requires NoneAt(active, vars, seen, 0) && 1 <= Abs(start) <= vars
    ensures 0 <= ToLit(start) < |seen| && NoneAt(active, vars, seen[ToLit(start) := true], start)
  {
    var more := seen[ToLit(start) := true];
    forall x, y, z | Triangle(active, x, y, z) && Explored(more, x)
      ensures x == start
    {
      assert EdgeKey(x, y) in active;
      ToLitInjective(x, start);
    }
  }

  // At the end every triangle has paid with an edge.
  lemma AllPaid(edges: map<Key, int>, active: map<Key, int>, used: set<Key>, vars: int, occurrence: seq<seq<int>>, seen: seq<bool>)
    requires Accounted(edges, active, used) && NoneAt(active, vars, seen, 0)
    requires EndsListed(edges, occurrence, vars) && ProperEdges(edges, vars)
    requires forall v :: 0 <= v < |seen| ==> seen[v] || occurrence[v] == []
    ensures forall x, y, z {:trigger Triangle(edges, x, y, z)} :: Triangle(edges, x, y, z) ==>
      EdgeKey(x, y) in used || EdgeKey(x, z) in used || EdgeKey(y, z) in used
  {
    forall x, y, z | Triangle(edges, x, y, z)
      ensures !Triangle(active, x, y, z)
    {
      TwoEnds(edges, vars, occurrence, x, y, z);
      assert Explored(seen, x);
    }
  }
}
