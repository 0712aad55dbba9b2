/** Replaying the log on the values of the original variables, as
    `get_complete_model` does, and what it has to do with assignments. */
module Recovery {
  import opened Knf
  import opened Elimination
  import opened RecoveryLog
  import opened Relabel

  // How many literals a vector of values -1, 0, 1 makes true.
  function ValueCount(lits: seq<int>, m: seq<int>): nat {
    if lits == [] then 0
    else
      var l := lits[|lits| - 1];
      ValueCount(lits[..|lits| - 1], m) + ToInt(Abs(l) < |m| && m[Abs(l)] == Sign(l))
  }

  // satisfied_with and clauses_with_pivot_satisfied
  predicate RowsSatisfiedWith(rows: seq<Row>, m: seq<int>) {
    forall i :: 0 <= i < |rows| ==> ValueCount(rows[i].lits, m) >= rows[i].degree
  }

  // Replay on named values: each pivot tries 1, then -1.
  ghost function NamedReplay(log: seq<Group>, names: seq<int>, m: seq<int>): Option<seq<int>> {
    if log == [] then Some(m)
    else
      var n := |log| - 1;
      var v, rows := Name(names, log[n].pivot), RenameRows(log[n].rows, names);
      if !(0 <= v < |m|) then None
      else if RowsSatisfiedWith(rows, m[v := 1]) then NamedReplay(log[..n], names, m[v := 1])
      else if RowsSatisfiedWith(rows, m[v := -1]) then NamedReplay(log[..n], names, m[v := -1])
      else None
  }

  // Distinct names inside the vector of values.
  ghost predicate NamesOk(names: seq<int>, size: int) {
    && (forall x :: 1 <= x < |names| ==> 1 <= names[x] < size)
    && (forall x, y :: 1 <= x < y < |names| ==> names[x] != names[y])
  }

  ghost predicate IsPivot(log: seq<Group>, x: int) {
    exists k :: 0 <= k < |log| && log[k].pivot == x
  }

  // m holds a's values under the given names, except for pivots of the log.
  ghost predicate Matches(log: seq<Group>, names: seq<int>, m: seq<int>, a: Assignment) {
    NamesOk(names, |m|) &&
    forall x :: 1 <= x < |names| && !IsPivot(log, x) ==> m[names[x]] == if a(x) then 1 else -1
  }

  lemma {:induction false} ValueCountAgrees(lits: seq<int>, names: seq<int>, m: seq<int>, a: Assignment)
    requires VarsIn(lits, |names| - 1) && NamesOk(names, |m|)
    requires forall j :: 0 <= j < |lits| ==> m[names[Abs(lits[j])]] == if a(Abs(lits[j])) then 1 else -1
    ensures ValueCount(Rename(lits, names), m) == Count(lits, a)
  {
    if lits != [] {
      var n := |lits| - 1;
      ValueCountAgrees(lits[..n], names, m, a);
      assert Rename(lits, names)[..n] == Rename(lits[..n], names);
      assert 1 <= names[Abs(lits[n])] < |m|;
      assert Name(names, lits[n]) == Sign(lits[n]) * names[Abs(lits[n])];
      assert m[names[Abs(lits[n])]] == if a(Abs(lits[n])) then 1 else -1;
    }
  }

  // The stored rows of the last group judge m as they judge a.
  lemma GroupAgrees(log: seq<Group>, names: seq<int>, m: seq<int>, a: Assignment, b: bool)
    requires |log| >= 1 && |names| >= 1 && LogOk(log, |names| - 1) && Matches(log, names, m, a)
    ensures var g := log[|log| - 1];
      var v := names[g.pivot];
      var m' := m[v := if b then 1 else -1];
      && 1 <= v < |m| && Name(names, g.pivot) == v
      && (RowsSatisfiedWith(RenameRows(g.rows, names), m') <==> RowsSat(g.rows, Set(a, g.pivot, b)))
      && Matches(log[..|log| - 1], names, m', Set(a, g.pivot, b))
  {
    var n := |log| - 1;
    var g := log[n];
    var v := names[g.pivot];
    var m', a' := m[v := if b then 1 else -1], Set(a, g.pivot, b);
    assert GroupOk(g, |names| - 1);
    forall x | 1 <= x < |names| && !IsPivot(log[..n], x)
      ensures m'[names[x]] == if a'(x) then 1 else -1
    {
      assert x != g.pivot ==> (IsPivot(log, x) <==> IsPivot(log[..n], x)) by {
        assert log == log[..n] + [g];
      }
    }
    forall i | 0 <= i < |g.rows|
      ensures ValueCount(RenameRows(g.rows, names)[i].lits, m') == Count(g.rows[i].lits, a')
    {
      RowAgrees(log, names, m', a', i);
    }
  }

  lemma RowAgrees(log: seq<Group>, names: seq<int>, m: seq<int>, a: Assignment, i: nat)
    requires |log| >= 1 && |names| >= 1 && LogOk(log, |names| - 1)
    requires Matches(log[..|log| - 1], names, m, a)
    requires i < |log[|log| - 1].rows|
    ensures ValueCount(Rename(log[|log| - 1].rows[i].lits, names), m) == Count(log[|log| - 1].rows[i].lits, a)
  {
    var n := |log| - 1;
    var lits := log[n].rows[i].lits;
    assert GroupOk(log[n], |names| - 1);
    forall j | 0 <= j < |lits|
      ensures m[names[Abs(lits[j])]] == if a(Abs(lits[j])) then 1 else -1
    {
      if IsPivot(log[..n], Abs(lits[j])) {
        var k :| 0 <= k < n && log[..n][k].pivot == Abs(lits[j]);
        assert Avoids(log[n].rows, log[k].pivot);
        assert Mentions(lits, log[k].pivot);
      }
    }
    ValueCountAgrees(lits, names, m, a);
  }

  lemma LogPrefix(log: seq<Group>, vars: nat)
    requires |log| >= 1 && LogOk(log, vars)
    ensures LogOk(log[..|log| - 1], vars)
  {
    var p := log[..|log| - 1];
    assert forall k :: 0 <= k < |p| ==> p[k] == log[k];
  }

  // Replay on named values succeeds exactly when replay on assignments does,
  // and ends with the values of its result.
  lemma {:induction false} NamedReplayAgrees(log: seq<Group>, names: seq<int>, m: seq<int>, a: Assignment)
    requires |names| >= 1 && LogOk(log, |names| - 1) && Matches(log, names, m, a)
    ensures NamedReplay(log, names, m).Some? <==> Replay(log, a).Some?
    ensures Replay(log, a).Some? ==>
      var m' := NamedReplay(log, names, m).value;
      && Matches([], names, m', Replay(log, a).value) && |m'| == |m|
      && forall i :: 0 <= i < |m| && (forall x :: 1 <= x < |names| ==> names[x] != i) ==> m'[i] == m[i]
    decreases |log|
  {
    if log != [] {
      var n := |log| - 1;
      var g := log[n];
      GroupAgrees(log, names, m, a, true);
      GroupAgrees(log, names, m, a, false);
      LogPrefix(log, |names| - 1);
      var v := names[g.pivot];
      NamedReplayAgrees(log[..n], names, m[v := 1], Set(a, g.pivot, true));
      NamedReplayAgrees(log[..n], names, m[v := -1], Set(a, g.pivot, false));
    } else {
      assert forall x :: !IsPivot([], x);
    }
  }

  // The flat vectors end with the rows of the last group.
  lemma FlatLast(log: seq<Group>, names: seq<int>)
    requires |log| >= 1
    ensures var n := |log| - 1;
      var start := |FlatRows(log[..n], names)|;
      && |FlatOwners(log, names)| == |FlatRows(log, names)| == start + |log[n].rows|
      && |FlatOwners(log[..n], names)| == start
      && FlatRows(log, names)[..start] == FlatRows(log[..n], names)
      && FlatRows(log, names)[start..] == RenameRows(log[n].rows, names)
      && FlatOwners(log, names)[..start] == FlatOwners(log[..n], names)
      && forall i :: start <= i < start + |log[n].rows| ==> FlatOwners(log, names)[i] == Name(names, log[n].pivot)
  {
    var n := |log| - 1;
    FlatLengths(log[..n], names);
  }

  lemma {:induction false} FlatLengths(log: seq<Group>, names: seq<int>)
    ensures |FlatOwners(log, names)| == |FlatRows(log, names)|
  {
    if log != [] {
      FlatLengths(log[..|log| - 1], names);
    }
  }

  // The owner just before the last group is another variable.
  lemma OwnerBefore(log: seq<Group>, names: seq<int>, size: int)
    requires |log| >= 2 && |names| >= 1 && LogOk(log, |names| - 1) && NamesOk(names, size)
    ensures var n := |log| - 1;
      var before := FlatOwners(log[..n], names);
      |before| > 0 && before[|before| - 1] != Name(names, log[n].pivot)
  {
    var n := |log| - 1;
    assert log[..n][n - 1] == log[n - 1];
    FlatLast(log[..n], names);
    assert GroupOk(log[n - 1], |names| - 1) && GroupOk(log[n], |names| - 1);
  }
}
