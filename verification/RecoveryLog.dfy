/** The flat vectors in which eliminated rows are stored, under the names of the
    original variables, and the groups they stand for. */
module RecoveryLog {
  import opened Knf
  import opened Elimination

  function Name(names: seq<int>, l: int): int {
    if Abs(l) < |names| then Sign(l) * names[Abs(l)] else 0
  }

  function Rename(lits: seq<int>, names: seq<int>): seq<int> {
    seq(|lits|, j requires 0 <= j < |lits| => Name(names, lits[j]))
  }

  function RenameRow(r: Row, names: seq<int>): Row {
    Row(Rename(r.lits, names), r.degree)
  }

  function RenameRows(rows: seq<Row>, names: seq<int>): seq<Row> {
    seq(|rows|, i requires 0 <= i < |rows| => RenameRow(rows[i], names))
  }

  // res_clause and res_degree, res_owner, and resolution.
  function FlatRows(log: seq<Group>, names: seq<int>): seq<Row> {
    if log == [] then []
    else FlatRows(log[..|log| - 1], names) + RenameRows(log[|log| - 1].rows, names)
  }

  function FlatOwners(log: seq<Group>, names: seq<int>): seq<int> {
    if log == [] then []
    else
      var g := log[|log| - 1];
      FlatOwners(log[..|log| - 1], names) + Repeat(Name(names, g.pivot), |g.rows|)
  }

  function Repeat(x: int, n: nat): seq<int> {
    seq(n, i => x)
  }

  function Pivots(log: seq<Group>): seq<int> {
    seq(|log|, k requires 0 <= k < |log| => log[k].pivot)
  }

  lemma FlatSnoc(log: seq<Group>, g: Group, names: seq<int>)
    ensures FlatRows(log + [g], names) == FlatRows(log, names) + RenameRows(g.rows, names)
    ensures FlatOwners(log + [g], names) == FlatOwners(log, names) + Repeat(Name(names, g.pivot), |g.rows|)
    ensures Pivots(log + [g]) == Pivots(log) + [g.pivot]
  {
    assert (log + [g])[..|log|] == log;
  }

  // Stored rows mention only variables of the formula that are not pivots of
  // earlier groups, every group has a row, and pivots do not repeat.
  ghost predicate LogOk(log: seq<Group>, vars: nat) {
    && (forall k :: 0 <= k < |log| ==> GroupOk(log[k], vars))
    && (forall k, m :: 0 <= m < k < |log| ==> log[m].pivot != log[k].pivot)
    && (forall k, m :: 0 <= m < k < |log| ==> Avoids(log[k].rows, log[m].pivot))
  }

  ghost predicate GroupOk(g: Group, vars: nat) {
    && 1 <= g.pivot <= vars && |g.rows| >= 1
    && forall i :: 0 <= i < |g.rows| ==> VarsIn(g.rows[i].lits, vars)
  }

  ghost predicate Avoids(rows: seq<Row>, v: int) {
    forall i :: 0 <= i < |rows| ==> !Mentions(rows[i].lits, v)
  }
}
