/** One elimination step on a table of rows, and the log of eliminations that
    rebuilds a model. */
module Elimination {
  import opened Knf
  import opened Projection

  datatype Option<+T> = None | Some(value: T)

  // The parents stored for one eliminated variable.
  datatype Group = Group(pivot: int, rows: seq<Row>)

  ghost predicate Ids(ids: seq<int>, n: nat) {
    forall j :: 0 <= j < |ids| ==> 0 <= ids[j] < n
  }

  function Pick(rows: seq<Row>, ids: seq<int>): seq<Row>
    requires Ids(ids, |rows|)
  {
    seq(|ids|, j requires 0 <= j < |ids| => rows[ids[j]])
  }

  // `ids` are exactly the live rows that contain the literal l.
  ghost predicate ExactlyLive(rows: seq<Row>, deleted: seq<bool>, l: int, ids: seq<int>)
    requires |rows| == |deleted|
  {
    && Ids(ids, |rows|)
    && (forall j :: 0 <= j < |ids| ==> !deleted[ids[j]] && l in rows[ids[j]].lits)
    && (forall i :: 0 <= i < |rows| && !deleted[i] && l in rows[i].lits ==> i in ids)
  }

  ghost predicate Removed(deleted: seq<bool>, deleted': seq<bool>, pos: seq<int>, neg: seq<int>) {
    && |deleted'| == |deleted|
    && forall i :: 0 <= i < |deleted| ==> deleted'[i] == (deleted[i] || i in pos || i in neg)
  }

  function NoneDeleted(n: nat): seq<bool> {
    seq(n, i => false)
  }

  lemma LiveAppend(rows: seq<Row>, deleted: seq<bool>, more: seq<Row>, a: Assignment)
    requires |rows| == |deleted|
    ensures LiveSat(rows + more, deleted + NoneDeleted(|more|), a)
       <==> LiveSat(rows, deleted, a) && RowsSat(more, a)
  {
    var all, del := rows + more, deleted + NoneDeleted(|more|);
    assert forall i :: 0 <= i < |rows| ==> all[i] == rows[i] && del[i] == deleted[i];
    assert forall i :: 0 <= i < |more| ==> all[|rows| + i] == more[i] && !del[|rows| + i];
    if LiveSat(all, del, a) {
      forall i | 0 <= i < |more|
        ensures RowSat(more[i], a)
      {
        assert RowSat(all[|rows| + i], a);
      }
    }
  }

  // Rows that are not parents do not see the pivot.
  lemma LiveWithPivot(rows: seq<Row>, deleted: seq<bool>, deleted': seq<bool>,
                      v: int, pos: seq<int>, neg: seq<int>, a: Assignment, b: bool)
    requires |rows| == |deleted| && v > 0
    requires ExactlyLive(rows, deleted, v, pos) && ExactlyLive(rows, deleted, -v, neg)
    requires Removed(deleted, deleted', pos, neg)
    ensures LiveSat(rows, deleted, Set(a, v, b))
       <==> LiveSat(rows, deleted', a) && ParentsSat(Pick(rows, pos), Pick(rows, neg), Set(a, v, b))
  {
    RemovedAreParents(rows, deleted, deleted', pos, neg, Set(a, v, b));
    forall i | 0 <= i < |rows| && !deleted'[i]
      ensures RowSat(rows[i], a) <==> RowSat(rows[i], Set(a, v, b))
    {
      CountSetOther(rows[i].lits, a, v, b);
    }
  }

  // The removed rows hold if and only if the parents do.
  lemma RemovedAreParents(rows: seq<Row>, deleted: seq<bool>, deleted': seq<bool>, pos: seq<int>, neg: seq<int>, a: Assignment)
    requires |rows| == |deleted| && Ids(pos, |rows|) && Ids(neg, |rows|) && Removed(deleted, deleted', pos, neg)
    requires forall j :: 0 <= j < |pos| ==> !deleted[pos[j]]
    requires forall j :: 0 <= j < |neg| ==> !deleted[neg[j]]
    ensures ParentsSat(Pick(rows, pos), Pick(rows, neg), a)
       <==> forall i :: 0 <= i < |rows| && !deleted[i] && deleted'[i] ==> RowSat(rows[i], a)
  {
    PickedHold(rows, pos, a);
    PickedHold(rows, neg, a);
    assert forall j :: 0 <= j < |pos| ==> pos[j] in pos;
    assert forall j :: 0 <= j < |neg| ==> neg[j] in neg;
  }

  lemma PickedHold(rows: seq<Row>, ids: seq<int>, a: Assignment)
    requires Ids(ids, |rows|)
    ensures RowsSat(Pick(rows, ids), a) <==> forall i :: i in ids ==> 0 <= i < |rows| && RowSat(rows[i], a)
  {
    forall j | 0 <= j < |ids|
      ensures Pick(rows, ids)[j] == rows[ids[j]] && ids[j] in ids
    {
    }
  }

  // Variable elimination on the whole table is exact projection.
  lemma EliminationProjects(rows: seq<Row>, deleted: seq<bool>, deleted': seq<bool>, v: int,
                            pos: seq<int>, neg: seq<int>, generated: seq<Row>, a: Assignment)
    requires |rows| == |deleted| && v > 0
    requires ExactlyLive(rows, deleted, v, pos) && ExactlyLive(rows, deleted, -v, neg)
    requires Removed(deleted, deleted', pos, neg)
    requires Parents(Pick(rows, pos), v) && Parents(Pick(rows, neg), -v)
    requires AllClauses(Pick(rows, pos)) || HasTightTail(Pick(rows, neg))
    requires AllClauses(Pick(rows, neg)) || HasTightTail(Pick(rows, pos))
    requires RowsSat(generated, a) <==> AllResolventsHold(Pick(rows, pos), Pick(rows, neg), v, a)
    ensures LiveSat(rows + generated, deleted' + NoneDeleted(|generated|), a)
       <==> LiveSat(rows, deleted, Set(a, v, true)) || LiveSat(rows, deleted, Set(a, v, false))
  {
    LiveAppend(rows, deleted', generated, a);
    LiveWithPivot(rows, deleted, deleted', v, pos, neg, a, true);
    LiveWithPivot(rows, deleted, deleted', v, pos, neg, a, false);
    ParentsProject(Pick(rows, pos), Pick(rows, neg), v, a);
  }

  // Replaying the log from its last group to its first: each pivot is set
  // true if that satisfies its stored rows, else false, else replay fails.
  ghost function Replay(log: seq<Group>, a: Assignment): Option<Assignment> {
    if log == [] then Some(a)
    else
      var g := log[|log| - 1];
      if RowsSat(g.rows, Set(a, g.pivot, true)) then
        Replay(log[..|log| - 1], Set(a, g.pivot, true))
      else if RowsSat(g.rows, Set(a, g.pivot, false)) then
        Replay(log[..|log| - 1], Set(a, g.pivot, false))
      else None
  }

  // Every model of the live rows replays to a model of `original`, and no
  // model of `original` is lost.
  ghost predicate Recovers(original: seq<Row>, log: seq<Group>, rows: seq<Row>, deleted: seq<bool>)
    requires |rows| == |deleted|
  {
    && (forall a :: LiveSat(rows, deleted, a) ==>
         Replay(log, a).Some? && RowsSat(original, Replay(log, a).value))
    && (forall a {:trigger LiveSat(rows, deleted, a)} :: RowsSat(original, a) ==> LiveSat(rows, deleted, a))
  }

  lemma SetSame(rows: seq<Row>, deleted: seq<bool>, a: Assignment, v: int)
    requires |rows| == |deleted|
    ensures LiveSat(rows, deleted, Set(a, v, a(v))) <==> LiveSat(rows, deleted, a)
  {
    forall i | 0 <= i < |rows|
      ensures RowSat(rows[i], Set(a, v, a(v))) <==> RowSat(rows[i], a)
    {
      CountAgree(rows[i].lits, Set(a, v, a(v)), a);
    }
  }

  lemma RecoversElimination(original: seq<Row>, log: seq<Group>, rows: seq<Row>, deleted: seq<bool>,
                            deleted': seq<bool>, v: int, pos: seq<int>, neg: seq<int>, generated: seq<Row>)
    requires |rows| == |deleted| && v > 0
    requires Recovers(original, log, rows, deleted)
    requires ExactlyLive(rows, deleted, v, pos) && ExactlyLive(rows, deleted, -v, neg)
    requires Removed(deleted, deleted', pos, neg)
    requires Parents(Pick(rows, pos), v) && Parents(Pick(rows, neg), -v)
    requires AllClauses(Pick(rows, pos)) || HasTightTail(Pick(rows, neg))
    requires AllClauses(Pick(rows, neg)) || HasTightTail(Pick(rows, pos))
    requires forall a :: RowsSat(generated, a) <==> AllResolventsHold(Pick(rows, pos), Pick(rows, neg), v, a)
    ensures Recovers(original, log + [Group(v, Pick(rows, pos) + Pick(rows, neg))],
                     rows + generated, deleted' + NoneDeleted(|generated|))
  {
    var ps, ns := Pick(rows, pos), Pick(rows, neg);
    var log' := log + [Group(v, ps + ns)];
    var rows', del' := rows + generated, deleted' + NoneDeleted(|generated|);
    assert log'[..|log'| - 1] == log;
    forall a | LiveSat(rows', del', a)
      ensures Replay(log', a).Some? && RowsSat(original, Replay(log', a).value)
    {
      EliminationProjects(rows, deleted, deleted', v, pos, neg, generated, a);
      LiveAppend(rows, deleted', generated, a);
      LiveWithPivot(rows, deleted, deleted', v, pos, neg, a, true);
      LiveWithPivot(rows, deleted, deleted', v, pos, neg, a, false);
      RowsConcat(ps, ns, Set(a, v, true));
      RowsConcat(ps, ns, Set(a, v, false));
    }
    forall a | RowsSat(original, a)
      ensures LiveSat(rows', del', a)
    {
      EliminationProjects(rows, deleted, deleted', v, pos, neg, generated, a);
      SetSame(rows, deleted, a, v);
    }
  }

  lemma RowsConcat(x: seq<Row>, y: seq<Row>, a: Assignment)
    ensures RowsSat(x + y, a) <==> RowsSat(x, a) && RowsSat(y, a)
  {
    assert forall i :: 0 <= i < |x| ==> (x + y)[i] == x[i];
    assert forall i :: 0 <= i < |y| ==> (x + y)[|x| + i] == y[i];
    if RowsSat(x + y, a) {
      forall i | 0 <= i < |y|
        ensures RowSat(y[i], a)
      {
        assert RowSat((x + y)[|x| + i], a);
      }
    }
  }
}
