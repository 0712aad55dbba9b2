/** Building the instance of local search: occurrence lists, and the lists of
    variables that share a row. */
module Neighbors {
  import opened Knf
  import opened RecoveryLog
  import opened Scores
  import opened Tally
  import opened SearchState

  // Occurrences of x in the first n rows.
  ghost predicate OccurrencesUpTo(rows: seq<Row>, x: int, occs: seq<Occurrence>, n: int) {
    && (forall i :: 0 <= i < |occs| ==> OccurrenceOk(rows, x, occs[i]) && occs[i].clause < n)
    && (forall i, j :: 0 <= i < j < |occs| ==> occs[i].clause < occs[j].clause)
    && forall c :: 0 <= c < n && c < |rows| && LitOf(rows[c].lits, x) != 0 ==> Seen(occs, |occs|, c)
  }

  lemma OccurrenceAdded(rows: seq<Row>, x: int, occs: seq<Occurrence>, n: int, o: Occurrence)
    requires 0 <= n < |rows| && OccurrencesUpTo(rows, x, occs, n)
    requires o.clause == n && OccurrenceOk(rows, x, o)
    ensures OccurrencesUpTo(rows, x, occs + [o], n + 1)
  {
    var occs' := occs + [o];
    forall c | 0 <= c < n + 1 && LitOf(rows[c].lits, x) != 0
      ensures Seen(occs', |occs'|, c)
    {
      if c == n {
        assert occs'[|occs|].clause == c;
      } else {
        var i :| 0 <= i < |occs| && occs[i].clause == c;
        assert occs'[i].clause == c;
      }
    }
  }

  lemma OccurrenceSkipped(rows: seq<Row>, x: int, occs: seq<Occurrence>, n: int)
    requires 0 <= n < |rows| && OccurrencesUpTo(rows, x, occs, n) && LitOf(rows[n].lits, x) == 0
    ensures OccurrencesUpTo(rows, x, occs, n + 1)
  {
  }

  // Variables of the first j literals of row c have it as an occurrence.
  ghost predicate RowListed(rows: seq<Row>, occ: seq<seq<Occurrence>>, c: int, j: int) {
    && 0 <= c < |rows| && 0 <= j <= |rows[c].lits|
    && forall x :: 1 <= x < |occ| ==>
         OccurrencesUpTo(rows, x, occ[x], if LitOf(rows[c].lits[..j], x) != 0 then c + 1 else c)
  }

  lemma RowListedStep(rows: seq<Row>, occ: seq<seq<Occurrence>>, c: int, j: int)
    requires RowListed(rows, occ, c, j) && j < |rows[c].lits|
    requires DistinctVars(rows[c].lits) && VarsIn(rows[c].lits, |occ| - 1)
    ensures var l := rows[c].lits[j];
      RowListed(rows, occ[Abs(l) := occ[Abs(l)] + [Occurrence(c, l > 0)]], c, j + 1)
  {
    var lits := rows[c].lits;
    var l := lits[j];
    var occ' := occ[Abs(l) := occ[Abs(l)] + [Occurrence(c, l > 0)]];
    assert lits[..j + 1][..j] == lits[..j];
    LitOfAt(lits, j);
    forall x | 1 <= x < |occ|
      ensures OccurrencesUpTo(rows, x, occ'[x], if LitOf(lits[..j + 1], x) != 0 then c + 1 else c)
    {
      assert LitOf(lits[..j + 1], x) == if Abs(l) == x then l else LitOf(lits[..j], x);
      if x == Abs(l) {
        OccurrenceAdded(rows, x, occ[x], c, Occurrence(c, l > 0));
      }
    }
  }

  lemma RowListedEnd(rows: seq<Row>, occ: seq<seq<Occurrence>>, c: int)
    requires 0 <= c < |rows| && RowListed(rows, occ, c, |rows[c].lits|)
    ensures forall x :: 1 <= x < |occ| ==> OccurrencesUpTo(rows, x, occ[x], c + 1)
  {
    var lits := rows[c].lits;
    assert lits[..|lits|] == lits;
    forall x | 1 <= x < |occ|
      ensures OccurrencesUpTo(rows, x, occ[x], c + 1)
    {
      if LitOf(lits, x) == 0 {
        OccurrenceSkipped(rows, x, occ[x], c);
      }
    }
  }

  // The scan of parse_from_preprocess that fills var_lit.
  method ParseInstance(rows: seq<Row>, vars: nat) returns (inst: Instance)
    requires Plain(rows, vars)
    ensures InstanceOk(inst) && inst.rows == rows && inst.vars == vars
  {
    var occ: seq<seq<Occurrence>> := seq(vars + 1, x => []);
    for c := 0 to |rows|
      invariant |occ| == vars + 1 && forall x :: 1 <= x <= vars ==> OccurrencesUpTo(rows, x, occ[x], c)
    {
      for j := 0 to |rows[c].lits|
        invariant |occ| == vars + 1 && RowListed(rows, occ, c, j)
      {
        var l := rows[c].lits[j];
        RowListedStep(rows, occ, c, j);
        occ := occ[Abs(l) := occ[Abs(l)] + [Occurrence(c, l > 0)]];
      }
      RowListedEnd(rows, occ, c);
    }
    inst := Instance(vars, rows, occ);
    forall x | 1 <= x <= vars
      ensures OccurrencesOf(rows, x, occ[x])
    {
    }
  }

  // v and the variables found so far are flagged.
  ghost predicate Collecting(vars: int, v: int, flags: seq<int>, found: seq<int>) {
    && |flags| == vars + 1 && 1 <= v <= vars
    && (forall i :: 0 <= i < |found| ==> 1 <= found[i] <= vars && found[i] != v)
    && (forall i, j :: 0 <= i < j < |found| ==> found[i] != found[j])
    && forall x :: 0 <= x <= vars ==> flags[x] == if x == v || x in found then 1 else 0
  }

  // How many entries the lists of the first n variables have.
  function Entries(neighbors: seq<seq<int>>, n: nat): nat
    requires n <= |neighbors|
  {
    if n == 0 then 0 else Entries(neighbors, n - 1) + |neighbors[n - 1]|
  }

  // One variable's neighbors, collected over its rows.
  method CollectNeighbors(inst: Instance, v: int, flags: seq<int>) returns (flags': seq<int>, found: seq<int>)
    requires InstanceOk(inst) && 1 <= v <= inst.vars && flags == Repeat(0, inst.vars + 1)
    ensures Collecting(inst.vars, v, flags', found) && NeighborsOf(inst, v, found)
  {
    flags', found := flags[v := 1], [];
    var occs := inst.occ[v];
    OccurrencesInRange(inst.rows, v, occs);
    for i := 0 to |occs|
      invariant Collecting(inst.vars, v, flags', found)
      invariant forall y :: y in found <==> y != v && exists k :: 0 <= k < i && Mentions(inst.rows[occs[k].clause].lits, y)
    {
      ghost var before := found;
      var lits := inst.rows[occs[i].clause].lits;
      for j := 0 to |lits|
        invariant Collecting(inst.vars, v, flags', found)
        invariant forall y :: y in found <==> y in before || (y != v && Mentions(lits[..j], y))
      {
        MentionsMore(lits, j);
        var n: int := Abs(lits[j]);
        if flags'[n] != 1 {
          flags' := flags'[n := 1];
          found := found + [n];
        }
      }
      assert lits[..|lits|] == lits;
    }
    NeighborsFound(inst, v, found);
  }

  lemma MentionsMore(lits: seq<int>, j: nat)
    requires j < |lits|
    ensures forall y :: Mentions(lits[..j + 1], y) <==> Mentions(lits[..j], y) || y == Abs(lits[j])
  {
    forall y
      ensures Mentions(lits[..j + 1], y) <==> Mentions(lits[..j], y) || y == Abs(lits[j])
    {
      assert lits[..j + 1][j] == lits[j];
      assert forall k :: 0 <= k < j ==> lits[..j + 1][k] == lits[..j][k];
    }
  }

  lemma NeighborsFound(inst: Instance, v: int, found: seq<int>)
    requires InstanceOk(inst) && 1 <= v <= inst.vars && InRange(inst.rows, inst.occ[v])
    requires forall i :: 0 <= i < |found| ==> 1 <= found[i] <= inst.vars && found[i] != v
    requires forall i, j :: 0 <= i < j < |found| ==> found[i] != found[j]
    requires forall y :: y in found <==> y != v && exists k :: 0 <= k < |inst.occ[v]| && Mentions(inst.rows[inst.occ[v][k].clause].lits, y)
    ensures NeighborsOf(inst, v, found)
  {
    var occs := inst.occ[v];
    forall y | 1 <= y <= inst.vars
      ensures y in found <==> y != v && Share2(inst.rows, v, y)
    {
      if y in found {
        var k :| 0 <= k < |occs| && Mentions(inst.rows[occs[k].clause].lits, y);
        assert OccurrenceOk(inst.rows, v, occs[k]);
        LitOfMentions(inst.rows[occs[k].clause].lits, y);
      }
      if y != v && Share2(inst.rows, v, y) {
        var c :| 0 <= c < |inst.rows| && LitOf(inst.rows[c].lits, v) != 0 && LitOf(inst.rows[c].lits, y) != 0;
        assert Seen(occs, |occs|, c);
        var k :| 0 <= k < |occs| && occs[k].clause == c;
        LitOfMentions(inst.rows[c].lits, y);
      }
    }
  }

  method ClearFlags(vars: nat, v: int, flags: seq<int>, found: seq<int>) returns (flags': seq<int>)
    requires Collecting(vars, v, flags, found)
    ensures flags' == Repeat(0, vars + 1)
  {
    flags' := flags[v := 0];
    for i := 0 to |found|
      invariant |flags'| == vars + 1
      invariant forall x :: 0 <= x <= vars ==> flags'[x] == if x in found[i..] then 1 else 0
    {
      assert found[i..] == [found[i]] + found[i + 1..];
      flags' := flags'[found[i] := 0];
    }
  }

  // build_neighbor_relation: true iff all lists fit into the budget, and then
  // they are exact; the flags are zero again either way.
  method BuildNeighborRelation(inst: Instance, flags: seq<int>, budget: nat)
      returns (ok: bool, flags': seq<int>, neighbors: seq<seq<int>>)
    requires InstanceOk(inst) && flags == Repeat(0, inst.vars + 1)
    ensures flags' == flags
    ensures ok ==> NeighborsOk(inst, neighbors) && Entries(neighbors, inst.vars + 1) <= budget
    ensures !ok ==> neighbors == EmptyLists(inst.vars + 1)
    ensures !ok ==> forall full :: NeighborsOk(inst, full) ==> Entries(full, inst.vars + 1) > budget
  {
    flags', neighbors := flags, EmptyLists(inst.vars + 1);
    var total := 0;
    EntriesEmpty(inst.vars + 1, 1);
    var v := 1;
    while v <= inst.vars
      invariant 1 <= v <= inst.vars + 1 && flags' == flags && |neighbors| == inst.vars + 1
      invariant forall u :: 1 <= u < v ==> NeighborsOf(inst, u, neighbors[u])
      invariant neighbors[0] == [] && forall u :: v <= u <= inst.vars ==> neighbors[u] == []
      invariant total == Entries(neighbors, v) <= budget
    {
      var found;
      flags', found := CollectNeighbors(inst, v, flags');
      flags' := ClearFlags(inst.vars, v, flags', found);
      if |found| > budget - total {
        OverBudget(inst, v, neighbors, found, budget);
        ok := false;
        neighbors := EmptyLists(inst.vars + 1);
        return;
      }
      ghost var before := neighbors;
      neighbors := neighbors[v := found];
      EntriesAgree(before, neighbors, v);
      total := total + |found|;
      v := v + 1;
    }
    ok := true;
  }

  function EmptyLists(n: nat): seq<seq<int>> {
    seq(n, x => [])
  }

  lemma {:induction false} EntriesEmpty(n: nat, k: nat)
    requires k <= n
    ensures Entries(EmptyLists(n), k) == 0
  {
    if k > 0 {
      EntriesEmpty(n, k - 1);
    }
  }

  lemma {:induction false} EntriesAgree(a: seq<seq<int>>, b: seq<seq<int>>, n: nat)
    requires n <= |a| == |b| && forall i :: 0 <= i < n ==> |a[i]| == |b[i]|
    ensures Entries(a, n) == Entries(b, n)
  {
    if n > 0 {
      EntriesAgree(a, b, n - 1);
    }
  }

  lemma {:induction false} EntriesGrow(a: seq<seq<int>>, m: nat, n: nat)
    requires m <= n <= |a|
    ensures Entries(a, m) <= Entries(a, n)
  {
    if m < n {
      EntriesGrow(a, m, n - 1);
    }
  }

  // Two exact lists of the same variable have the same length.
  lemma SameLength(inst: Instance, v: int, a: seq<int>, b: seq<int>)
    requires 1 <= v <= inst.vars && NeighborsOf(inst, v, a) && NeighborsOf(inst, v, b)
    ensures |a| == |b|
  {
    UnrepeatedSize(a, set x | x in a);
    UnrepeatedSize(b, set x | x in b);
    assert (set x | x in a) == (set x | x in b) by {
      forall x
        ensures x in a <==> x in b
      {
        if 1 <= x <= inst.vars {
          assert x in a <==> x in b;
        }
      }
    }
  }

  lemma {:induction false} UnrepeatedSize<T>(a: seq<T>, s: set<T>)
    requires forall i, j :: 0 <= i < j < |a| ==> a[i] != a[j]
    requires forall x :: x in s <==> x in a
    ensures |s| == |a|
  {
    if a == [] {
      assert s == {};
    } else {
      var n := |a| - 1;
      assert a == a[..n] + [a[n]];
      UnrepeatedSize(a[..n], s - {a[n]});
    }
  }

  lemma OverBudget(inst: Instance, v: int, neighbors: seq<seq<int>>, found: seq<int>, budget: nat)
    requires 1 <= v <= inst.vars && |neighbors| == inst.vars + 1 && neighbors[0] == []
    requires forall u :: 1 <= u < v ==> NeighborsOf(inst, u, neighbors[u])
    requires NeighborsOf(inst, v, found) && Entries(neighbors, v) + |found| > budget
    ensures forall full :: NeighborsOk(inst, full) ==> Entries(full, inst.vars + 1) > budget
  {
    forall full | NeighborsOk(inst, full)
      ensures Entries(full, inst.vars + 1) > budget
    {
      var cut := full[0 := []];
      forall u | 0 <= u < v
        ensures |cut[u]| == |neighbors[u]|
      {
        if u > 0 {
          SameLength(inst, u, full[u], neighbors[u]);
        }
      }
      EntriesAgree(cut, neighbors, v);
      SameLength(inst, v, full[v], found);
      EntriesGrow(cut, v + 1, inst.vars + 1);
      EntriesCut(full, cut, inst.vars + 1);
    }
  }

  lemma {:induction false} EntriesCut(a: seq<seq<int>>, b: seq<seq<int>>, n: nat)
    requires n <= |a| == |b| && forall i :: 0 <= i < n ==> |a[i]| >= |b[i]|
    ensures Entries(a, n) >= Entries(b, n)
  {
    if n > 0 {
      EntriesCut(a, b, n - 1);
    }
  }
}
