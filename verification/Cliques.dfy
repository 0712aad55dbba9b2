/** Cliques of binary clauses: what makes one, and why it can be replaced by
    the row "at least n - 1 of these literals". */
module Cliques {
  import opened Knf

  datatype Clique = Clique(literals: seq<int>, edges: seq<int>, duplicates: seq<int>)

  // n * (n - 1) / 2
  function Pairs(n: nat): nat {
    if n == 0 then 0 else Pairs(n - 1) + (n - 1)
  }

  lemma {:induction false} PairsFormula(n: nat)
    ensures Pairs(n) == n * (n - 1) / 2 && n * (n - 1) % 2 == 0
  {
    if n > 0 {
      PairsFormula(n - 1);
      assert n * (n - 1) == (n - 1) * (n - 2) + 2 * (n - 1);
    }
  }

  lemma {:induction false} PairsGrow(m: nat, n: nat)
    requires m <= n
    ensures Pairs(m) <= Pairs(n)
  {
    if m < n {
      PairsGrow(m, n - 1);
    }
  }

  // Where the edge between two members is kept.
  function EdgeIndex(right: nat, left: nat): nat {
    Pairs(right) + left
  }

  // row_matches_edge
  predicate MatchesEdge(rows: seq<Row>, id: int, x: int, y: int) {
    && 0 <= id < |rows| && rows[id].degree == 1 && |rows[id].lits| == 2
    && ((rows[id].lits[0] == x && rows[id].lits[1] == y) || (rows[id].lits[0] == y && rows[id].lits[1] == x))
  }

  ghost predicate EdgesMatch(rows: seq<Row>, literals: seq<int>, edges: seq<int>) {
    && |edges| == Pairs(|literals|)
    && forall right, left {:trigger EdgeIndex(right, left)} :: 0 <= left < right < |literals| ==>
         EdgeIndex(right, left) < |edges| && MatchesEdge(rows, edges[EdgeIndex(right, left)], literals[right], literals[left])
  }

  // A duplicate joins two different members.
  ghost predicate DuplicateOk(rows: seq<Row>, literals: seq<int>, id: int) {
    && 0 <= id < |rows| && rows[id].degree == 1 && |rows[id].lits| == 2
    && rows[id].lits[0] != rows[id].lits[1] && rows[id].lits[0] in literals && rows[id].lits[1] in literals
  }

  ghost predicate CliqueOk(rows: seq<Row>, c: Clique) {
    true == (
      && |c.literals| >= 3 && DistinctVars(c.literals) && EdgesMatch(rows, c.literals, c.edges)
      && forall i :: 0 <= i < |c.duplicates| ==> DuplicateOk(rows, c.literals, c.duplicates[i]))
  }

  // Any two of the literals are not both false.
  ghost predicate PairwiseHold(literals: seq<int>, a: Assignment) {
    forall i, j :: 0 <= i < j < |literals| ==> Holds(literals[i], a) || Holds(literals[j], a)
  }

  // The pairwise clauses on n literals say that at least n - 1 of them hold.
  lemma {:induction false} PairwiseIsCount(literals: seq<int>, a: Assignment)
    ensures PairwiseHold(literals, a) <==> Count(literals, a) >= |literals| - 1
    ensures Count(literals, a) == |literals| <==> forall i :: 0 <= i < |literals| ==> Holds(literals[i], a)
  {
    if literals != [] {
      var n := |literals| - 1;
      var rest := literals[..n];
      PairwiseIsCount(rest, a);
      CountBound(rest, a);
      assert literals == rest + [literals[n]];
      if PairwiseHold(literals, a) {
        assert forall i, j :: 0 <= i < j < n ==> rest[i] == literals[i] && rest[j] == literals[j];
        if !Holds(literals[n], a) {
          assert forall i :: 0 <= i < n ==> rest[i] == literals[i];
        }
      }
      if Count(literals, a) >= n {
        forall i, j | 0 <= i < j < |literals|
          ensures Holds(literals[i], a) || Holds(literals[j], a)
        {
          if j < n {
            assert rest[i] == literals[i] && rest[j] == literals[j];
            assert PairwiseHold(rest, a);
          } else if !Holds(literals[n], a) {
            assert rest[i] == literals[i];
          }
        }
      }
    }
  }

  lemma BinaryRow(r: Row, a: Assignment)
    requires r.degree == 1 && |r.lits| == 2
    ensures RowSat(r, a) <==> Holds(r.lits[0], a) || Holds(r.lits[1], a)
  {
    assert r.lits[..1] == [r.lits[0]] && r.lits[..1][..0] == [];
    assert Count(r.lits[..1], a) == Count([], a) + ToInt(Holds(r.lits[0], a));
  }

  ghost predicate Uses(c: Clique, id: int) {
    id in c.edges || id in c.duplicates
  }

  ghost predicate CliqueSat(rows: seq<Row>, c: Clique, a: Assignment) {
    forall id :: Uses(c, id) ==> 0 <= id < |rows| && RowSat(rows[id], a)
  }

  function CliqueRow(c: Clique): Row {
    Row(c.literals, |c.literals| - 1)
  }

  // The rows of a clique say exactly what its cardinality row says.
  lemma CliqueMeaning(rows: seq<Row>, c: Clique, a: Assignment)
    requires CliqueOk(rows, c)
    ensures RowSat(CliqueRow(c), a) <==> CliqueSat(rows, c, a)
  {
    PairwiseIsCount(c.literals, a);
    if RowSat(CliqueRow(c), a) {
      forall id | Uses(c, id)
        ensures 0 <= id < |rows| && RowSat(rows[id], a)
      {
        if id in c.edges {
          var e :| 0 <= e < |c.edges| && c.edges[e] == id;
          EdgeHolds(rows, c.literals, c.edges, e, a);
        } else {
          var e :| 0 <= e < |c.duplicates| && c.duplicates[e] == id;
          DuplicateHolds(rows, c.literals, id, a);
        }
      }
    }
    if CliqueSat(rows, c, a) {
      forall i, j | 0 <= i < j < |c.literals|
        ensures Holds(c.literals[i], a) || Holds(c.literals[j], a)
      {
        var id := c.edges[EdgeIndex(j, i)];
        assert id in c.edges && MatchesEdge(rows, id, c.literals[j], c.literals[i]);
        assert Uses(c, id);
        BinaryRow(rows[id], a);
      }
    }
  }

  // Every place of the edge list belongs to a pair.
  lemma {:induction false} EdgePair(n: nat, e: nat) returns (right: nat, left: nat)
    requires e < Pairs(n)
    ensures left < right < n && e == EdgeIndex(right, left)
  {
    if e >= Pairs(n - 1) {
      right, left := n - 1, e - Pairs(n - 1);
    } else {
      right, left := EdgePair(n - 1, e);
    }
  }

  lemma EdgeHolds(rows: seq<Row>, literals: seq<int>, edges: seq<int>, e: nat, a: Assignment)
    requires EdgesMatch(rows, literals, edges) && e < |edges| && PairwiseHold(literals, a)
    ensures 0 <= edges[e] < |rows| && RowSat(rows[edges[e]], a)
  {
    var right, left := EdgePair(|literals|, e);
    assert MatchesEdge(rows, edges[e], literals[right], literals[left]);
    BinaryRow(rows[edges[e]], a);
  }

  lemma DuplicateHolds(rows: seq<Row>, literals: seq<int>, id: int, a: Assignment)
    requires DuplicateOk(rows, literals, id) && PairwiseHold(literals, a)
    ensures RowSat(rows[id], a)
  {
    var i :| 0 <= i < |literals| && literals[i] == rows[id].lits[0];
    var j :| 0 <= j < |literals| && literals[j] == rows[id].lits[1];
    BinaryRow(rows[id], a);
    assert if i < j then Holds(literals[i], a) || Holds(literals[j], a) else Holds(literals[j], a) || Holds(literals[i], a);
  }
}
