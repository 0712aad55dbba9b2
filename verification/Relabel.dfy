/** Renaming variables: `update_var_clause_label` numbers the variables of the
    live rows 1, 2, ... and compacts the rows. */
module Relabel {
  import opened Knf
  import opened Elimination
  import opened RecoveryLog

  // The assignment to old names that a renaming makes of one to new names.
  function Through(names: seq<int>, a: Assignment): Assignment {
    x => 0 <= x < |names| && Holds(names[x], a)
  }

  ghost predicate Named(lits: seq<int>, names: seq<int>) {
    forall j :: 0 <= j < |lits| ==> 1 <= Abs(lits[j]) < |names| && names[Abs(lits[j])] != 0
  }

  lemma HoldsThrough(l: int, names: seq<int>, a: Assignment)
    requires 1 <= Abs(l) < |names| && names[Abs(l)] != 0
    ensures Holds(Name(names, l), a) <==> Holds(l, Through(names, a))
  {
  }

  lemma {:induction false} CountThrough(lits: seq<int>, names: seq<int>, a: Assignment)
    requires Named(lits, names)
    ensures Count(Rename(lits, names), a) == Count(lits, Through(names, a))
  {
    if lits != [] {
      var n := |lits| - 1;
      CountThrough(lits[..n], names, a);
      assert Rename(lits, names)[..n] == Rename(lits[..n], names);
      HoldsThrough(lits[n], names, a);
    }
  }

  ghost predicate RowsNamed(rows: seq<Row>, names: seq<int>) {
    forall i :: 0 <= i < |rows| ==> Named(rows[i].lits, names)
  }

  // A model of the renamed rows is a model of the rows, read through names.
  lemma RenamedRowsSat(rows: seq<Row>, names: seq<int>, a: Assignment)
    requires RowsNamed(rows, names)
    ensures RowsSat(RenameRows(rows, names), a) <==> RowsSat(rows, Through(names, a))
  {
    forall i | 0 <= i < |rows|
      ensures RowSat(RenameRows(rows, names)[i], a) <==> RowSat(rows[i], Through(names, a))
    {
      CountThrough(rows[i].lits, names, a);
    }
  }

  // `from` undoes `color` on the variables that kept a number.
  ghost predicate Inverse(color: seq<int>, from: seq<int>) {
    && (forall x :: 1 <= x < |color| && color[x] != 0 ==> 1 <= color[x] < |from| && from[color[x]] == x)
    && (forall c :: 1 <= c < |from| ==> 1 <= from[c] < |color| && color[from[c]] == c)
  }

  // Conversely a model of the rows, read through the inverse, satisfies the
  // renamed rows.
  lemma RenamedRowsKeepModels(rows: seq<Row>, color: seq<int>, from: seq<int>, a: Assignment)
    requires RowsNamed(rows, color) && Inverse(color, from)
    requires RowsSat(rows, a)
    ensures RowsSat(RenameRows(rows, color), Through(from, a))
  {
    RenamedRowsSat(rows, color, Through(from, a));
    forall i | 0 <= i < |rows|
      ensures RowSat(rows[i], Through(color, Through(from, a)))
    {
      CountAgree(rows[i].lits, Through(color, Through(from, a)), a);
    }
  }

  function LiveRows(rows: seq<Row>, deleted: seq<bool>): seq<Row>
    requires |rows| == |deleted|
  {
    if rows == [] then []
    else
      var n := |rows| - 1;
      LiveRows(rows[..n], deleted[..n]) + (if deleted[n] then [] else [rows[n]])
  }

  lemma {:induction false} LiveRowsSat(rows: seq<Row>, deleted: seq<bool>, a: Assignment)
    requires |rows| == |deleted|
    ensures RowsSat(LiveRows(rows, deleted), a) <==> LiveSat(rows, deleted, a)
  {
    if rows != [] {
      var n := |rows| - 1;
      LiveRowsSat(rows[..n], deleted[..n], a);
      RowsConcat(LiveRows(rows[..n], deleted[..n]), if deleted[n] then [] else [rows[n]], a);
      assert forall i :: 0 <= i < n ==> rows[..n][i] == rows[i] && deleted[..n][i] == deleted[i];
      assert LiveSat(rows, deleted, a) <==> LiveSat(rows[..n], deleted[..n], a) && (deleted[n] || RowSat(rows[n], a));
      if !deleted[n] {
        assert [rows[n]][0] == rows[n];
      }
    }
  }

  lemma {:induction false} LiveRowsFrom(rows: seq<Row>, deleted: seq<bool>)
    requires |rows| == |deleted|
    ensures forall r :: r in LiveRows(rows, deleted) <==> exists i :: 0 <= i < |rows| && !deleted[i] && rows[i] == r
  {
    if rows != [] {
      var n := |rows| - 1;
      LiveRowsFrom(rows[..n], deleted[..n]);
      forall r
        ensures r in LiveRows(rows, deleted) <==> exists i :: 0 <= i < |rows| && !deleted[i] && rows[i] == r
      {
        if r in LiveRows(rows[..n], deleted[..n]) {
          var i :| 0 <= i < n && !deleted[..n][i] && rows[..n][i] == r;
          assert !deleted[i] && rows[i] == r;
        }
        if i :| 0 <= i < |rows| && !deleted[i] && rows[i] == r {
          if i < n {
            assert !deleted[..n][i] && rows[..n][i] == r;
          }
        }
      }
    }
  }

  ghost predicate LiveMention(rows: seq<Row>, deleted: seq<bool>, v: int)
    requires |rows| == |deleted|
  {
    exists i :: 0 <= i < |rows| && !deleted[i] && Mentions(rows[i].lits, v)
  }

  ghost predicate LiveVarsIn(rows: seq<Row>, deleted: seq<bool>, vars: int)
    requires |rows| == |deleted|
  {
    forall i :: 0 <= i < |rows| && !deleted[i] ==> VarsIn(rows[i].lits, vars)
  }

  // The first loops: color[v] is 1 exactly for the variables of live rows.
  method MarkVariables(rows: seq<Row>, deleted: seq<bool>, vars: nat) returns (color: seq<int>)
    requires |rows| == |deleted| && LiveVarsIn(rows, deleted, vars)
    ensures |color| == vars + 1
    ensures forall v :: 1 <= v <= vars ==> color[v] == ToInt(LiveMention(rows, deleted, v))
  {
    color := Repeat(0, vars + 1);
    for i := 0 to |rows|
      invariant |color| == vars + 1
      invariant forall v :: 1 <= v <= vars ==> color[v] == ToInt(LiveMention(rows[..i], deleted[..i], v))
    {
      MentionStep(rows, deleted, i);
      if !deleted[i] {
        ghost var before := color;
        var lits := rows[i].lits;
        for j := 0 to |lits|
          invariant |color| == vars + 1
          invariant forall v :: 1 <= v <= vars ==>
            color[v] == if Mentions(lits[..j], v) then 1 else before[v]
        {
          assert lits[..j + 1] == lits[..j] + [lits[j]];
          assert forall v :: Mentions(lits[..j + 1], v) <==> Mentions(lits[..j], v) || Abs(lits[j]) == v by {
            MentionsSnoc(lits[..j], lits[j]);
          }
          color := color[Abs(lits[j]) := 1];
        }
        assert lits[..|lits|] == lits;
      }
    }
    assert rows[..|rows|] == rows && deleted[..|rows|] == deleted;
  }

  lemma MentionsSnoc(lits: seq<int>, l: int)
    ensures forall v :: Mentions(lits + [l], v) <==> Mentions(lits, v) || Abs(l) == v
  {
    forall v
      ensures Mentions(lits + [l], v) <==> Mentions(lits, v) || Abs(l) == v
    {
      assert (lits + [l])[|lits|] == l;
      if Mentions(lits, v) {
        var j :| 0 <= j < |lits| && Abs(lits[j]) == v;
        assert (lits + [l])[j] == lits[j];
      }
    }
  }

  lemma MentionStep(rows: seq<Row>, deleted: seq<bool>, i: nat)
    requires |rows| == |deleted| && i < |rows|
    ensures forall v :: LiveMention(rows[..i + 1], deleted[..i + 1], v) <==>
      LiveMention(rows[..i], deleted[..i], v) || (!deleted[i] && Mentions(rows[i].lits, v))
  {
    var r, d, r', d' := rows[..i], deleted[..i], rows[..i + 1], deleted[..i + 1];
    assert r'[i] == rows[i] && d'[i] == deleted[i];
    assert forall k :: 0 <= k < i ==> r'[k] == r[k] && d'[k] == d[k];
  }

  // The next loop replaces each mark by the next free number.
  method NumberVariables(marks: seq<int>, vars: nat) returns (color: seq<int>, remain: nat, ghost from: seq<int>)
    requires |marks| == vars + 1
    ensures |color| == vars + 1 && |from| == remain + 1 && Inverse(color, from)
    ensures forall v :: 1 <= v <= vars ==> (color[v] != 0 <==> marks[v] == 1)
    ensures forall v, w :: 1 <= v < w <= vars && color[v] != 0 && color[w] != 0 ==> color[v] < color[w]
  {
    color, remain, from := Repeat(0, vars + 1), 0, [0];
    for i := 1 to vars + 1
      invariant |color| == vars + 1 && |from| == remain + 1 && Inverse(color, from)
      invariant forall v :: 1 <= v <= vars ==> (color[v] != 0 <==> v < i && marks[v] == 1)
      invariant forall v, w :: 1 <= v < w <= vars && color[v] != 0 && color[w] != 0 ==> color[v] < color[w]
    {
      if marks[i] == 1 {
        remain := remain + 1;
        color := color[i := remain];
        from := from + [i];
      }
    }
  }

  // The last loop drops the deleted rows and renames the others in place.
  method CompactRows(rows: seq<Row>, deleted: seq<bool>, color: seq<int>) returns (rows': seq<Row>)
    requires |rows| == |deleted|
    ensures rows' == RenameRows(LiveRows(rows, deleted), color)
  {
    rows' := rows;
    var id := 0;
    for i := 0 to |rows|
      invariant 0 <= id <= i && |rows'| == |rows|
      invariant rows'[..id] == RenameRows(LiveRows(rows[..i], deleted[..i]), color)
      invariant forall k :: i <= k < |rows| ==> rows'[k] == rows[k]
    {
      assert rows[..i + 1][..i] == rows[..i] && deleted[..i + 1][..i] == deleted[..i];
      if !deleted[i] {
        rows' := rows'[id := RenameRow(rows'[i], color)];
        id := id + 1;
      }
    }
    assert rows[..|rows|] == rows && deleted[..|rows|] == deleted;
    rows' := rows'[..id];
  }

  // update_var_clause_label
  method UpdateVarClauseLabel(rows: seq<Row>, deleted: seq<bool>, vars: nat)
      returns (rows': seq<Row>, color: seq<int>, vars': nat, ghost from: seq<int>)
    requires |rows| == |deleted| && LiveVarsIn(rows, deleted, vars)
    ensures |color| == vars + 1 && |from| == vars' + 1 && Inverse(color, from)
    ensures forall v :: 1 <= v <= vars ==> (color[v] != 0 <==> LiveMention(rows, deleted, v))
    ensures RowsNamed(LiveRows(rows, deleted), color)
    ensures rows' == RenameRows(LiveRows(rows, deleted), color)
  {
    color := MarkVariables(rows, deleted, vars);
    color, vars', from := NumberVariables(color, vars);
    rows' := CompactRows(rows, deleted, color);
    LiveRowsFrom(rows, deleted);
    ghost var live := LiveRows(rows, deleted);
    forall k, j | 0 <= k < |live| && 0 <= j < |live[k].lits|
      ensures 1 <= Abs(live[k].lits[j]) < |color| && color[Abs(live[k].lits[j])] != 0
    {
      assert live[k] in live;
      var i :| 0 <= i < |rows| && !deleted[i] && rows[i] == live[k];
      assert Mentions(rows[i].lits, Abs(live[k].lits[j]));
    }
  }

  // Relabelling changes names only: models correspond in both directions.
  lemma RelabelledModels(rows: seq<Row>, deleted: seq<bool>, color: seq<int>, from: seq<int>)
    requires |rows| == |deleted| && Inverse(color, from) && RowsNamed(LiveRows(rows, deleted), color)
    ensures forall a :: RowsSat(RenameRows(LiveRows(rows, deleted), color), a) <==>
      LiveSat(rows, deleted, Through(color, a))
    ensures forall a :: LiveSat(rows, deleted, a) ==>
      RowsSat(RenameRows(LiveRows(rows, deleted), color), Through(from, a))
  {
    var live := LiveRows(rows, deleted);
    forall a: Assignment
      ensures RowsSat(RenameRows(live, color), a) <==> LiveSat(rows, deleted, Through(color, a))
      ensures LiveSat(rows, deleted, a) ==> RowsSat(RenameRows(live, color), Through(from, a))
    {
      RenamedRowsSat(live, color, a);
      LiveRowsSat(rows, deleted, Through(color, a));
      LiveRowsSat(rows, deleted, a);
      if RowsSat(live, a) {
        RenamedRowsKeepModels(live, color, from, a);
      }
    }
  }
}
