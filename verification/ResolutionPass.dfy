/** `preprocess_resolution`: bounded variable elimination over cardinality rows
    followed by pure literals, with its counters, occurrence lists and log. */
module ResolutionPass {
  import opened Knf
  import opened Projection
  import opened Elimination
  import opened RowTable
  import opened RecoveryLog

  // A pure variable and the value it was given.
  datatype Pure = Pure(v: int, value: int) {
    function Lit(): int {
      if value > 0 then v else -v
    }
  }

  datatype Outcome = Infeasible | Shared | Resolved | Tautology

  ghost predicate LiveRowsOk(rows: seq<Row>, deleted: seq<bool>, clean: seq<bool>) {
    && |rows| == |deleted|
    && forall i :: 0 <= i < |rows| && !deleted[i] ==> RowOk(rows[i], clean)
  }

  ghost predicate RowOk(r: Row, clean: seq<bool>) {
    && DistinctVars(r.lits) && VarsIn(r.lits, |clean| - 1)
    && 1 <= r.degree <= |r.lits|
    && forall j :: 0 <= j < |r.lits| ==> !clean[Abs(r.lits[j])]
  }

  ghost predicate OccurOk(rows: seq<Row>, deleted: seq<bool>, clean: seq<bool>,
                          occurp: seq<seq<int>>, occurn: seq<seq<int>>)
    requires |rows| == |deleted|
  {
    && |occurp| == |occurn| == |clean|
    && forall l {:trigger At(occurp, occurn, l)} :: 1 <= Abs(l) < |clean| ==>
         && Increasing(At(occurp, occurn, l)) && Ids(At(occurp, occurn, l), |rows|)
         && (!clean[Abs(l)] ==> OccursExactly(rows, deleted, l, At(occurp, occurn, l)))
  }

  ghost predicate OccursExactly(rows: seq<Row>, deleted: seq<bool>, l: int, o: seq<int>)
    requires |rows| == |deleted|
  {
    && (forall j :: 0 <= j < |o| && 0 <= o[j] < |rows| && !deleted[o[j]] ==> l in rows[o[j]].lits)
    && (forall i :: 0 <= i < |rows| && !deleted[i] && l in rows[i].lits ==> i in o)
  }

  ghost predicate CountsOk(rows: seq<Row>, deleted: seq<bool>, posCount: seq<int>, negCount: seq<int>)
    requires |rows| == |deleted|
  {
    && |posCount| == |negCount|
    && forall l {:trigger At(posCount, negCount, l)} :: 1 <= Abs(l) < |posCount| ==> At(posCount, negCount, l) == LiveCount(rows, deleted, l)
  }

  // The waiting part of the queue has no repeats and is mirrored by the flags.
  ghost predicate PureQueueOk(waiting: seq<int>, flags: seq<bool>) {
    && (forall i, j :: 0 <= i < j < |waiting| ==> waiting[i] != waiting[j])
    && (forall i :: 0 <= i < |waiting| ==> 1 <= waiting[i] < |flags| && flags[waiting[i]])
    && (forall v :: 1 <= v < |flags| && flags[v] ==> v in waiting)
  }

  ghost predicate MarksAre(marks: seq<int>, out: seq<int>) {
    forall x :: 1 <= x < |marks| ==> marks[x] == Mark(out, x)
  }

  function Mark(out: seq<int>, x: int): int {
    if x in out then 1 else if -x in out then -1 else 0
  }

  class Resolver {
    const vars: nat
    const mapfrom: seq<int>
    ghost const original: seq<Row>
    ghost const mapval0: seq<int>
    ghost const mapto0: seq<int>
    var rows: seq<Row>
    var deleted: seq<bool>
    var occurp: seq<seq<int>>
    var occurn: seq<seq<int>>
    var posCount: seq<int>
    var negCount: seq<int>
    var pureQueue: seq<int>
    var pureHead: nat
    var inPureQueue: seq<bool>
    var clean: seq<bool>
    var resseen: seq<int>
    var resRows: seq<Row>
    var resOwner: seq<int>
    var q: seq<int>
    var mapval: seq<int>
    var mapto: seq<int>
    ghost var log: seq<Group>
    ghost var pures: seq<Pure>

    ghost predicate Shapes()
      reads this
    {
      && |clean| == |inPureQueue| == |posCount| == |negCount| == |resseen| == |occurp| == |occurn| == vars + 1
      && |rows| == |deleted|
      && pureHead <= |pureQueue|
      && PureQueueOk(pureQueue[pureHead..], inPureQueue)
      && MarksAre(resseen, [])
    }

    ghost predicate Valid()
      reads this
    {
      && Shapes()
      && LiveRowsOk(rows, deleted, clean)
      && OccurOk(rows, deleted, clean, occurp, occurn)
      && CountsOk(rows, deleted, posCount, negCount)
    }

    // The log so far, stored flat, and what it is good for.
    ghost predicate Logged()
      reads this
    {
      && |rows| == |deleted| && |mapfrom| == vars + 1
      && LogStored(log, mapfrom, clean, resRows, resOwner, q)
      && Recovers(original, log, rows, deleted)
    }

    // Every unretired variable with a missing polarity is waiting.
    ghost predicate Complete()
      reads this
      requires Shapes()
    {
      forall x :: 1 <= x <= vars && !clean[x] && (posCount[x] == 0 || negCount[x] == 0) ==> x in pureQueue[pureHead..]
    }

    // Nothing indexed, nothing eliminated.
    ghost predicate Initial()
      reads this
    {
      && |mapfrom| == vars + 1 && PuresStored([], mapfrom, mapval0, mapto0, mapval, mapto)
      && rows == original && deleted == NoneDeleted(|rows|)
      && clean == inPureQueue == NoneDeleted(vars + 1) && RowsOk(rows, clean)
      && posCount == negCount == resseen == Repeat(0, vars + 1)
      && occurp == occurn == seq(vars + 1, i => [])
      && pureQueue == [] && pureHead == 0
      && resRows == [] && resOwner == [] && q == [] && log == [] && pures == []
    }

    constructor (vars: nat, rows: seq<Row>, mapfrom: seq<int>, mapval: seq<int>, mapto: seq<int>)
      requires |mapfrom| == vars + 1 && NamesIn(mapfrom, |mapval|) && |mapval| == |mapto|
      requires RowsOk(rows, NoneDeleted(vars + 1))
      ensures Initial()
      ensures this.vars == vars && this.mapfrom == mapfrom && original == rows && mapval0 == mapval && mapto0 == mapto
    {
      this.vars := vars;
      this.mapfrom := mapfrom;
      original, mapval0, mapto0 := rows, mapval, mapto;
      this.rows, deleted := rows, NoneDeleted(|rows|);
      occurp, occurn := seq(vars + 1, i => []), seq(vars + 1, i => []);
      posCount, negCount := Repeat(0, vars + 1), Repeat(0, vars + 1);
      pureQueue, pureHead, inPureQueue := [], 0, NoneDeleted(vars + 1);
      clean, resseen := NoneDeleted(vars + 1), Repeat(0, vars + 1);
      resRows, resOwner, q := [], [], [];
      this.mapval, this.mapto := mapval, mapto;
      log, pures := [], [];
    }

    method IndexAll()
      requires Initial()
      modifies this`occurp, this`occurn, this`posCount, this`negCount
      ensures Valid() && Logged()
    {
      NothingLost(rows);
      var id := 0;
      while id < |rows|
        invariant 0 <= id <= |rows| && Shapes()
        invariant OccurOk(rows[..id], deleted[..id], clean, occurp, occurn)
        invariant CountsOk(rows[..id], deleted[..id], posCount, negCount)
      {
        IndexRow(id);
        id := id + 1;
      }
      assert rows[..id] == rows && deleted[..id] == deleted;
    }

    ghost function Now(): Eliminating
      reads this
    {
      Eliminating(rows, deleted, clean)
    }

    method EnqueuePureCandidate(v: int)
      requires Shapes() && 1 <= v <= vars
      modifies this`pureQueue, this`inPureQueue
      ensures Shapes()
      ensures clean[v] || v in pureQueue[pureHead..]
      ensures forall x :: x in old(pureQueue[pureHead..]) ==> x in pureQueue[pureHead..]
    {
      if clean[v] || inPureQueue[v] {
        return;
      }
      ghost var waiting := pureQueue[pureHead..];
      pureQueue := pureQueue + [v];
      inPureQueue := inPureQueue[v := true];
      assert pureQueue[pureHead..] == waiting + [v];
    }

    method IncCount(l: int)
      requires Shapes() && 1 <= Abs(l) <= vars
      modifies this`posCount, this`negCount
      ensures Shapes()
      ensures Counted(old(posCount), old(negCount), posCount, negCount, [l], 1)
    {
      if l > 0 {
        posCount := posCount[l := posCount[l] + 1];
      } else {
        negCount := negCount[-l := negCount[-l] + 1];
      }
    }

    method DecCount(l: int)
      requires Shapes() && 1 <= Abs(l) <= vars
      modifies this`posCount, this`negCount, this`pureQueue, this`inPureQueue
      ensures Shapes()
      ensures Counted(old(posCount), old(negCount), posCount, negCount, [l], -1)
      ensures old(Complete()) ==> Complete()
    {
      if l > 0 {
        posCount := posCount[l := posCount[l] - 1];
      } else {
        negCount := negCount[-l := negCount[-l] - 1];
      }
      EnqueuePureCandidate(Abs(l));
    }

    // clear_marks
    method ClearMarks(lits: seq<int>)
      requires |resseen| == vars + 1 && VarsIn(lits, vars) && MarksAre(resseen, lits)
      modifies this`resseen
      ensures |resseen| == vars + 1 && MarksAre(resseen, [])
    {
      for i := 0 to |lits|
        invariant |resseen| == vars + 1
        invariant forall x :: 1 <= x <= vars ==>
          resseen[x] == 0 || (resseen[x] == old(resseen)[x] && forall k :: 0 <= k < i ==> Abs(lits[k]) != x)
      {
        resseen := resseen[Abs(lits[i]) := 0];
      }
      forall x | 1 <= x <= vars
        ensures resseen[x] == 0
      {
        if old(resseen)[x] != 0 {
          assert x in lits || -x in lits;
          var k :| 0 <= k < |lits| && Abs(lits[k]) == x;
        }
      }
    }

    // The body of the two loops of `build_resolvent`. Clauses merge repeated
    // literals; cardinality rows may not share a variable at all.
    method MergeLiteral(l: int, pivot: int, clauses: bool, out: seq<int>)
        returns (outcome: Outcome, out': seq<int>)
      requires |resseen| == vars + 1 && MarksAre(resseen, out) && PartialOk(out, pivot, vars)
      requires 1 <= Abs(l) <= vars
      modifies this`resseen
      ensures |resseen| == vars + 1 && outcome != Infeasible
      ensures outcome == Resolved ==> MarksAre(resseen, out') && PartialOk(out', pivot, vars)
      ensures outcome == Resolved ==>
        out' == if Abs(l) == pivot || (clauses && l in out) then out else out + [l]
      ensures outcome != Resolved ==> MarksAre(resseen, []) && Abs(l) != pivot
      ensures outcome == Tautology ==> clauses && -l in out
      ensures outcome == Shared ==> !clauses && (l in out || -l in out)
    {
      outcome, out' := Resolved, out;
      MarkOf(resseen, out, l);
      NotBoth(out, l);
      if Abs(l) != pivot && !(clauses && resseen[Abs(l)] == Sign(l)) {
        if clauses && resseen[Abs(l)] == -Sign(l) {
          ClearMarks(out);
          outcome := Tautology;
        } else if !clauses && resseen[Abs(l)] != 0 {
          ClearMarks(out);
          outcome := Shared;
        } else {
          MarksPush(resseen, out, l);
          resseen := resseen[Abs(l) := Sign(l)];
          out' := out + [l];
        }
      }
    }

    method MergeParent(lits: seq<int>, pivot: int, clauses: bool, out: seq<int>)
        returns (outcome: Outcome, out': seq<int>)
      requires |resseen| == vars + 1 && MarksAre(resseen, out) && PartialOk(out, pivot, vars)
      requires VarsIn(lits, vars) && DistinctVars(lits)
      modifies this`resseen
      ensures |resseen| == vars + 1
      ensures MergeState(outcome, resseen, out, lits, |lits|, pivot, clauses, out')
    {
      outcome, out' := Resolved, out;
      var j := 0;
      while j < |lits| && outcome == Resolved
        invariant 0 <= j <= |lits| && |resseen| == vars + 1
        invariant MergeState(outcome, resseen, out, lits, j, pivot, clauses, out')
        decreases |lits| - j
      {
        ghost var before := out';
        outcome, out' := MergeLiteral(lits[j], pivot, clauses, out');
        MergeNext(outcome, resseen, out, lits, j, pivot, clauses, before, out');
        j := j + 1;
      }
    }

    // build_resolvent
    method BuildResolvent(pivot: int, p: Row, n: Row) returns (outcome: Outcome, out: Row)
      requires 1 <= pivot <= vars && |resseen| == vars + 1 && MarksAre(resseen, [])
      requires Parent(p, pivot) && Parent(n, -pivot)
      requires VarsIn(p.lits, vars) && VarsIn(n.lits, vars)
      modifies this`resseen
      ensures |resseen| == vars + 1 && MarksAre(resseen, [])
      ensures outcome == Shared <==> (p.degree > 1 || n.degree > 1) && Overlap(p, n, pivot)
      ensures outcome == Tautology <==> p.degree == 1 && n.degree == 1 && Opposed(p, n, pivot)
      ensures outcome == Tautology ==> forall a :: ResolventHolds(p, n, pivot, a)
      ensures outcome == Infeasible ==> forall a :: !ResolventHolds(p, n, pivot, a)
      ensures outcome == Resolved ==> ResolventOf(out, p, n, pivot, vars)
    {
      var clauses := p.degree == 1 && n.degree == 1;
      out := Row([], 0);
      var lits: seq<int>;
      outcome, lits := MergeParent(p.lits, pivot, clauses, []);
      if outcome == Resolved {
        assert p.lits[..|p.lits|] == p.lits && n.lits[..|n.lits|] == n.lits;
        ghost var first := lits;
        ClashMeans(first, p, n, pivot, clauses, vars);
        outcome, lits := MergeParent(n.lits, pivot, clauses, lits);
        if outcome == Tautology {
          ClashHolds(first, p, n, pivot, n.lits);
        }
        if outcome == Resolved {
          NoClash(first, n.lits, pivot, clauses, lits);
          ClearMarks(lits);
          out := Row(lits, p.degree + n.degree - 1);
          ResolventRow(first, lits, p, n, pivot);
          if out.degree > |lits| {
            outcome := Infeasible;
          }
        }
      }
    }

    method PushOccurrence(l: int, id: nat)
      requires Shapes() && 1 <= Abs(l) <= vars
      modifies this`occurp, this`occurn
      ensures Shapes()
      ensures Listed(old(occurp), old(occurn), occurp, occurn, [l], id)
    {
      if l > 0 {
        occurp := occurp[l := occurp[l] + [id]];
      } else {
        occurn := occurn[-l := occurn[-l] + [id]];
      }
    }

    // Add row `id` to the occurrence lists and counters.
    method IndexRow(id: nat)
      requires Shapes() && id < |rows| && RowOk(rows[id], clean) && !deleted[id]
      requires OccurOk(rows[..id], deleted[..id], clean, occurp, occurn)
      requires CountsOk(rows[..id], deleted[..id], posCount, negCount)
      modifies this`occurp, this`occurn, this`posCount, this`negCount
      ensures Shapes()
      ensures OccurOk(rows[..id + 1], deleted[..id + 1], clean, occurp, occurn)
      ensures CountsOk(rows[..id + 1], deleted[..id + 1], posCount, negCount)
    {
      var lits := rows[id].lits;
      var j := 0;
      while j < |lits|
        invariant 0 <= j <= |lits| && Shapes()
        invariant Listed(old(occurp), old(occurn), occurp, occurn, lits[..j], id)
        invariant Counted(old(posCount), old(negCount), posCount, negCount, lits[..j], 1)
      {
        ghost var p, n, c, d := occurp, occurn, posCount, negCount;
        PushOccurrence(lits[j], id);
        IncCount(lits[j]);
        ListedStep(old(occurp), old(occurn), p, n, occurp, occurn, lits, j, id);
        assert lits[..j + 1] == lits[..j] + [lits[j]];
        CountedStep(old(posCount), old(negCount), c, d, posCount, negCount, lits[..j], lits[j], 1);
        j := j + 1;
      }
      assert lits[..j] == lits;
      assert rows[..id + 1] == rows[..id] + [rows[id]];
      assert deleted[..id + 1] == deleted[..id] + [false];
      OccurExtend(rows[..id], deleted[..id], clean, old(occurp), old(occurn), rows[id], occurp, occurn);
      CountsExtend(rows[..id], deleted[..id], old(posCount), old(negCount), rows[id], posCount, negCount);
    }

    method AppendClause(r: Row)
      requires Valid() && RowOk(r, clean)
      modifies this`rows, this`deleted, this`occurp, this`occurn, this`posCount, this`negCount
      ensures Valid()
      ensures rows == old(rows) + [r] && deleted == old(deleted) + [false]
    {
      rows := rows + [r];
      deleted := deleted + [false];
      assert rows[..|rows| - 1] == old(rows) && deleted[..|rows| - 1] == old(deleted);
      IndexRow(|rows| - 1);
      assert rows[..|rows|] == rows && deleted[..|rows|] == deleted;
    }

    method DeleteActiveClause(id: nat)
      requires Valid() && id < |rows|
      modifies this`deleted, this`posCount, this`negCount, this`pureQueue, this`inPureQueue
      ensures Valid()
      ensures deleted == old(deleted)[id := true]
    {
      if deleted[id] {
        return;
      }
      var lits := rows[id].lits;
      var j := 0;
      while j < |lits|
        invariant 0 <= j <= |lits| && Shapes() && deleted == old(deleted)
        invariant Counted(old(posCount), old(negCount), posCount, negCount, lits[..j], -1)
      {
        ghost var c, d := posCount, negCount;
        DecCount(lits[j]);
        assert lits[..j + 1] == lits[..j] + [lits[j]];
        CountedStep(old(posCount), old(negCount), c, d, posCount, negCount, lits[..j], lits[j], -1);
        j := j + 1;
      }
      assert lits[..j] == lits;
      deleted := deleted[id := true];
      CountsRemove(rows, old(deleted), id, old(posCount), old(negCount), posCount, negCount);
    }

    // The live rows that contain the literal l, read off its occurrence list.
    method CollectLive(l: int) returns (ids: seq<int>)
      requires Valid() && 1 <= Abs(l) <= vars && !clean[Abs(l)]
      ensures ExactlyLive(rows, deleted, l, ids) && Increasing(ids)
      ensures |ids| == At(posCount, negCount, l)
    {
      var occ := if l > 0 then occurp[l] else occurn[-l];
      assert occ == At(occurp, occurn, l);
      ids := [];
      var j := 0;
      while j < |occ|
        invariant 0 <= j <= |occ|
        invariant FilterOf(ids, occ[..j], deleted) && Increasing(ids)
      {
        FilterStep(ids, occ, j, deleted);
        if !deleted[occ[j]] {
          ids := ids + [occ[j]];
        }
        j := j + 1;
      }
      assert occ[..j] == occ;
      FilterExact(rows, deleted, l, occ, ids);
      ExactlyLiveLength(rows, deleted, l, ids);
    }

    // The flags of the guard: all parents are clauses, some parent is tight.
    method ParentFlags(ids: seq<int>) returns (allClauses: bool, tight: bool)
      requires Ids(ids, |rows|)
      ensures allClauses == AllClauses(Pick(rows, ids))
      ensures tight == HasTightTail(Pick(rows, ids))
    {
      allClauses, tight := true, false;
      ghost var ps := Pick(rows, ids);
      for i := 0 to |ids|
        invariant allClauses == AllClauses(ps[..i])
        invariant tight == HasTightTail(ps[..i])
      {
        var r := rows[ids[i]];
        assert ps[..i + 1] == ps[..i] + [r];
        FlagsStep(ps[..i], r);
        allClauses := allClauses && r.degree == 1;
        tight := tight || r.degree >= |r.lits| - 1;
      }
      assert ps[..|ids|] == ps;
    }

    // One pair of parents.
    method ResolvePair(v: int, ghost ps: seq<Row>, ghost ns: seq<Row>, i: nat, j: nat, p: Row, n: Row, done: seq<Row>)
        returns (outcome: Outcome, generated: seq<Row>)
      requires Shapes() && 1 <= v <= vars && i < |ps| && j < |ns| && ps[i] == p && ns[j] == n
      requires Parents(ps, v) && Parents(ns, -v) && RowsOk(ps, clean) && RowsOk(ns, clean)
      requires Generating(Resolved, done, ps, ns, v, clean, i, j)
      modifies this`resseen
      ensures Shapes() && Generating(outcome, generated, ps, ns, v, clean, i, j + 1)
    {
      var r;
      outcome, r := BuildResolvent(v, p, n);
      PairStep(outcome, r, done, ps, ns, v, clean, i, j);
      generated := if outcome == Resolved then done + [r] else done;
      outcome := if outcome == Tautology then Resolved else outcome;
    }

    // The inner loop over the negative parents.
    method ResolveWithAll(v: int, ghost ps: seq<Row>, ghost ns: seq<Row>, i: nat, p: int, neg: seq<int>,
                          done: seq<Row>) returns (outcome: Outcome, generated: seq<Row>)
      requires Shapes() && 1 <= v <= vars && i < |ps| && 0 <= p < |rows| && ps[i] == rows[p]
      requires Ids(neg, |rows|) && ns == Pick(rows, neg)
      requires Parents(ps, v) && Parents(ns, -v) && RowsOk(ps, clean) && RowsOk(ns, clean)
      requires Generating(Resolved, done, ps, ns, v, clean, i, 0)
      modifies this`resseen
      ensures Shapes() && Generating(outcome, generated, ps, ns, v, clean, i + 1, 0)
    {
      outcome, generated := Resolved, done;
      var j := 0;
      while j < |neg| && outcome == Resolved
        invariant 0 <= j <= |neg| && Shapes() && Generating(outcome, generated, ps, ns, v, clean, i, j)
        decreases |neg| - j
      {
        assert ns[j] == rows[neg[j]];
        outcome, generated := ResolvePair(v, ps, ns, i, j, rows[p], rows[neg[j]], generated);
        j := j + 1;
      }
      GeneratedNext(outcome, generated, ps, ns, v, clean, i, j);
    }

    method GenerateResolvents(v: int, pos: seq<int>, neg: seq<int>) returns (outcome: Outcome, generated: seq<Row>)
      requires Shapes() && 1 <= v <= vars && Ids(pos, |rows|) && Ids(neg, |rows|)
      requires Parents(Pick(rows, pos), v) && Parents(Pick(rows, neg), -v)
      requires RowsOk(Pick(rows, pos), clean) && RowsOk(Pick(rows, neg), clean)
      modifies this`resseen
      ensures Shapes() && outcome != Tautology
      ensures outcome == Resolved <==> AllResolvable(Pick(rows, pos), Pick(rows, neg), v)
      ensures outcome == Resolved ==>
        GeneratedOk(generated, Pick(rows, pos), Pick(rows, neg), v, clean, |pos|, 0)
      ensures outcome == Infeasible ==>
        forall a :: !AllResolventsHold(Pick(rows, pos), Pick(rows, neg), v, a)
    {
      ghost var ps, ns := Pick(rows, pos), Pick(rows, neg);
      outcome, generated := Resolved, [];
      GeneratedStart(ps, ns, v, clean);
      var i := 0;
      while i < |pos| && outcome == Resolved
        invariant 0 <= i <= |pos| && Shapes() && Generating(outcome, generated, ps, ns, v, clean, i, 0)
        decreases |pos| - i
      {
        outcome, generated := ResolveWithAll(v, ps, ns, i, pos[i], neg, generated);
        i := i + 1;
      }
      GeneratedEnd(outcome, generated, ps, ns, v, clean, i);
    }

    method StoreRecoveryClause(id: nat, owner: int)
      requires id < |rows|
      modifies this`resRows, this`resOwner
      ensures resRows == old(resRows) + [RenameRow(rows[id], mapfrom)]
      ensures resOwner == old(resOwner) + [owner]
    {
      resRows := resRows + [RenameRow(rows[id], mapfrom)];
      resOwner := resOwner + [owner];
    }

    // Store and delete the parents on one side of the pivot.
    method RemoveParents(ids: seq<int>, owner: int)
      requires Valid() && Ids(ids, |rows|) && Increasing(ids)
      requires forall i :: 0 <= i < |ids| ==> !deleted[ids[i]]
      modifies this`deleted, this`posCount, this`negCount, this`pureQueue, this`inPureQueue, this`resRows, this`resOwner
      ensures Valid() && Removed(old(deleted), deleted, ids, [])
      ensures NumFalse(deleted) + |ids| == NumFalse(old(deleted))
      ensures resRows == old(resRows) + RenameRows(Pick(rows, ids), mapfrom)
      ensures resOwner == old(resOwner) + Repeat(owner, |ids|)
    {
      var i := 0;
      while i < |ids|
        invariant 0 <= i <= |ids| && Valid() && Removed(old(deleted), deleted, ids[..i], [])
        invariant NumFalse(deleted) + i == NumFalse(old(deleted))
        invariant resRows == old(resRows) + RenameRows(Pick(rows, ids[..i]), mapfrom)
        invariant resOwner == old(resOwner) + Repeat(owner, i)
      {
        StoredStep(rows, mapfrom, ids, i, owner);
        assert !deleted[ids[i]] by { assert ids[i] !in ids[..i]; }
        ghost var before := deleted;
        NumFalseUpdate(deleted, ids[i], true);
        StoreRecoveryClause(ids[i], owner);
        DeleteActiveClause(ids[i]);
        RemovedStep(old(deleted), before, ids, i);
        i := i + 1;
      }
      assert ids[..i] == ids;
    }

    method AppendAll(generated: seq<Row>)
      requires Valid() && RowsOk(generated, clean)
      modifies this`rows, this`deleted, this`occurp, this`occurn, this`posCount, this`negCount
      ensures Valid()
      ensures rows == old(rows) + generated && deleted == old(deleted) + NoneDeleted(|generated|)
      ensures NumFalse(deleted) == NumFalse(old(deleted)) + |generated|
    {
      var i := 0;
      while i < |generated|
        invariant 0 <= i <= |generated| && Valid()
        invariant rows == old(rows) + generated[..i] && deleted == old(deleted) + NoneDeleted(i)
        invariant NumFalse(deleted) == NumFalse(old(deleted)) + i
        decreases |generated| - i
      {
        AppendStep(old(rows), old(deleted), generated, i);
        AppendClause(generated[i]);
        i := i + 1;
      }
      assert generated[..i] == generated;
    }

    // Store and delete the parents, then append their resolvents.
    method ReplaceParents(v: int, pos: seq<int>, neg: seq<int>, generated: seq<Row>) returns (ghost removed: seq<bool>)
      requires Valid() && |mapfrom| == vars + 1 && Eliminable(rows, deleted, clean, v, pos, neg)
      requires forall k :: 0 <= k < |generated| ==> ResolventOk(generated[k], v, clean)
      modifies this`rows, this`deleted, this`occurp, this`occurn, this`posCount, this`negCount,
               this`pureQueue, this`inPureQueue, this`resRows, this`resOwner
      ensures Valid() && Removed(old(deleted), removed, pos, neg)
      ensures rows == old(rows) + generated && deleted == removed + NoneDeleted(|generated|)
      ensures NumFalse(deleted) + |pos| + |neg| == NumFalse(old(deleted)) + |generated|
      ensures resRows == old(resRows) + RenameRows(Pick(old(rows), pos) + Pick(old(rows), neg), mapfrom)
      ensures resOwner == old(resOwner) + Repeat(mapfrom[v], |pos| + |neg|)
    {
      RemoveBoth(v, pos, neg);
      removed := deleted;
      AppendAll(generated);
    }

    method RemoveBoth(v: int, pos: seq<int>, neg: seq<int>)
      requires Valid() && |mapfrom| == vars + 1 && Eliminable(rows, deleted, clean, v, pos, neg)
      modifies this`deleted, this`posCount, this`negCount, this`pureQueue, this`inPureQueue, this`resRows, this`resOwner
      ensures Valid() && Removed(old(deleted), deleted, pos, neg)
      ensures NumFalse(deleted) + |pos| + |neg| == NumFalse(old(deleted))
      ensures resRows == old(resRows) + RenameRows(Pick(rows, pos) + Pick(rows, neg), mapfrom)
      ensures resOwner == old(resOwner) + Repeat(mapfrom[v], |pos| + |neg|)
    {
      RemoveParents(pos, mapfrom[v]);
      SidesDisjoint(rows, old(deleted), deleted, clean, v, pos, neg);
      RemoveParents(neg, mapfrom[v]);
      RenameConcat(Pick(rows, pos), Pick(rows, neg), mapfrom);
      assert Repeat(mapfrom[v], |pos| + |neg|) == Repeat(mapfrom[v], |pos|) + Repeat(mapfrom[v], |neg|);
    }

    // Log the parents, replace them by their resolvents, retire the pivot.
    method CommitElimination(v: int, pos: seq<int>, neg: seq<int>, generated: seq<Row>)
      requires Valid() && Logged() && Eliminable(rows, deleted, clean, v, pos, neg)
      requires GeneratedOk(generated, Pick(rows, pos), Pick(rows, neg), v, clean, |pos|, 0)
      modifies this`rows, this`deleted, this`occurp, this`occurn, this`posCount, this`negCount, this`pureQueue,
               this`inPureQueue, this`clean, this`resseen, this`resRows, this`resOwner, this`q, this`log
      ensures Valid() && Logged()
      ensures clean == old(clean)[v := true] && q == old(q) + [v]
      ensures ParentsReplaced(old(rows), old(deleted), pos, neg, generated, rows, deleted)
      ensures NumFalse(deleted) + |pos| + |neg| == NumFalse(old(deleted)) + |generated|
    {
      ghost var removed := ReplaceParents(v, pos, neg, generated);
      ReplacedDone(old(rows), old(deleted), removed, pos, neg, generated, rows, deleted);
      q := q + [v];
      clean := clean[v := true];
      ghost var g := Group(v, Pick(old(rows), pos) + Pick(old(rows), neg));
      log := log + [g];
      RetirePivot(old(rows), old(deleted), removed, old(clean), v, pos, neg, generated);
      LogStoredStep(old(log), mapfrom, old(clean), old(resRows), old(resOwner), old(q),
                    old(rows), old(deleted), v, pos, neg);
      RecoverStep(original, old(log), old(rows), old(deleted), old(clean), removed, v, pos, neg, generated);
    }

    // The guard of the elimination loop.
    method CheckGuard(v: int) returns (go: bool, pos: seq<int>, neg: seq<int>)
      requires Valid() && 1 <= v <= vars && !clean[v]
      ensures ExactlyLive(rows, deleted, v, pos) && ExactlyLive(rows, deleted, -v, neg)
      ensures Increasing(pos) && Increasing(neg)
      ensures go <==> Guard(Pick(rows, pos), Pick(rows, neg))
    {
      pos := CollectLive(v);
      neg := CollectLive(-v);
      go := posCount[v] != 0 && negCount[v] != 0 && posCount[v] * negCount[v] <= posCount[v] + negCount[v];
      if go {
        var allPos, tightPos := ParentFlags(pos);
        var allNeg, tightNeg := ParentFlags(neg);
        go := (allPos || tightNeg) && (allNeg || tightPos);
      }
    }

    // One iteration of the elimination loop: the pivot goes if and only if the
    // guard holds and all its resolvents can be built without contradiction.
    // False means no model exists.
    method TryEliminate(v: int) returns (ok: bool, ghost pos: seq<int>, ghost neg: seq<int>, ghost generated: seq<Row>)
      requires Valid() && Logged() && 1 <= v <= vars && !clean[v]
      modifies this`rows, this`deleted, this`occurp, this`occurn, this`posCount, this`negCount, this`pureQueue,
               this`inPureQueue, this`clean, this`resseen, this`resRows, this`resOwner, this`q, this`log
      ensures Valid() && Logged()
      ensures old(ExactlyLive(rows, deleted, v, pos) && ExactlyLive(rows, deleted, -v, neg))
      ensures Increasing(pos) && Increasing(neg)
      ensures Guard(Pick(old(rows), pos), Pick(old(rows), neg)) && AllResolvable(Pick(old(rows), pos), Pick(old(rows), neg), v) ==>
        ok && clean == old(clean)[v := true] && q == old(q) + [v]
      ensures !(Guard(Pick(old(rows), pos), Pick(old(rows), neg)) && AllResolvable(Pick(old(rows), pos), Pick(old(rows), neg), v)) ==>
        q == old(q) && rows == old(rows) && deleted == old(deleted) && clean == old(clean)
      ensures NumFalse(deleted) <= NumFalse(old(deleted))
      ensures TriedAt(v, old(Now()), pos, neg, generated, Now())
      ensures !ok ==> forall a :: !RowsSat(original, a)
    {
      ok, generated := true, [];
      var go, ps, ns := CheckGuard(v);
      pos, neg := ps, ns;
      if go {
        ParentsOk(rows, deleted, clean, v, ps);
        ParentsOk(rows, deleted, clean, -v, ns);
        var outcome, resolvents := GenerateResolvents(v, ps, ns);
        generated := resolvents;
        if outcome == Infeasible {
          InfeasibleUnsat(original, log, rows, deleted, v, ps, ns);
          ok := false;
        } else if outcome == Resolved {
          CommitElimination(v, ps, ns, resolvents);
        }
      }
    }

    // The elimination loop: every variable is tried once, in order.
    method EliminateVariables() returns (ok: bool, ghost trace: seq<Eliminating>)
      requires Valid() && Logged()
      requires forall x :: 1 <= x <= vars ==> !clean[x]
      modifies this`rows, this`deleted, this`occurp, this`occurn, this`posCount, this`negCount, this`pureQueue,
               this`inPureQueue, this`clean, this`resseen, this`resRows, this`resOwner, this`q, this`log
      ensures Valid() && Logged()
      ensures NumFalse(deleted) <= NumFalse(old(deleted))
      ensures |q| > |old(q)| || (q == old(q) && rows == old(rows) && deleted == old(deleted))
      ensures TriedInOrder(trace, old(Now()), Now(), old(q), q) && (ok ==> |trace| == vars + 1)
      ensures !ok ==> forall a :: !RowsSat(original, a)
    {
      ok, trace := true, [Now()];
      NoneTried(Now(), q);
      var v := 1;
      while v <= vars && ok
        invariant 1 <= v <= vars + 1 && Valid() && Logged()
        invariant forall x :: v <= x <= vars ==> !clean[x]
        invariant TriedInOrder(trace, old(Now()), Now(), old(q), q) && |trace| == v
        invariant NumFalse(deleted) <= NumFalse(old(deleted))
        invariant |q| > |old(q)| || (q == old(q) && rows == old(rows) && deleted == old(deleted))
        invariant !ok ==> forall a :: !RowsSat(original, a)
        decreases vars + 1 - v
      {
        ghost var before, waiting := Now(), q;
        ghost var pos, neg, generated;
        ok, pos, neg, generated := TryEliminate(v);
        TriedMore(trace, old(Now()), before, old(q), waiting, pos, neg, generated, Now(), q);
        trace := trace + [Now()];
        v := v + 1;
      }
    }

    // The invariants while the occurrences of the pure variable v go away.
    ghost predicate PureValid(v: int)
      reads this
    {
      && Shapes() && 1 <= v <= vars && clean[v]
      && LiveRowsOk(rows, deleted, clean[v := false])
      && OccurOk(rows, deleted, clean, occurp, occurn)
      && CountsOk(rows, deleted, posCount, negCount)
      && Complete()
    }

    method DecAll(lits: seq<int>, ghost before: seq<int>, ghost p: seq<int>, ghost n: seq<int>)
      requires Shapes() && VarsIn(lits, vars) && DistinctVars(lits) && Complete()
      requires Counted(p, n, posCount, negCount, before, -1)
      requires forall l :: l in lits ==> l !in before
      modifies this`posCount, this`negCount, this`pureQueue, this`inPureQueue
      ensures Shapes() && Complete()
      ensures Counted(p, n, posCount, negCount, before + lits, -1)
    {
      assert before + lits[..0] == before;
      var j := 0;
      while j < |lits|
        invariant 0 <= j <= |lits| && Shapes() && Complete()
        invariant Counted(p, n, posCount, negCount, before + lits[..j], -1)
      {
        ghost var c, d := posCount, negCount;
        DecCount(lits[j]);
        assert before + lits[..j + 1] == before + lits[..j] + [lits[j]];
        CountedStep(p, n, c, d, posCount, negCount, before + lits[..j], lits[j], -1);
        j := j + 1;
      }
      assert lits[..j] == lits;
    }

    // One literal of the compaction loop of `simplify_pure_clause`; `pure` is
    // the literal val * v.
    method StripLiteral(l: int, pure: int, ghost seen: seq<int>, ghost p: seq<int>, ghost n: seq<int>,
                        kept: seq<int>, degree: int) returns (kept': seq<int>, degree': int)
      requires Shapes() && Complete() && 1 <= Abs(l) <= vars && l !in seen && (Abs(l) == Abs(pure) ==> l == pure)
      requires Stripped(seen, pure, kept, p, n, posCount, negCount)
      modifies this`posCount, this`negCount, this`pureQueue, this`inPureQueue
      ensures Shapes() && Complete()
      ensures Stripped(seen + [l], pure, kept', p, n, posCount, negCount)
      ensures degree' == if l == pure then degree - 1 else degree
    {
      kept', degree' := kept, degree;
      KeepSnoc(seen, l, {Abs(pure)});
      if Abs(l) != Abs(pure) {
        kept' := kept + [l];
      } else {
        ghost var c, d := posCount, negCount;
        DecCount(l);
        KeepMembers(seen, {Abs(pure)});
        CountedStep(p, n, c, d, posCount, negCount, Only(seen, {Abs(pure)}), l, -1);
        if Sign(pure) == Sign(l) {
          degree' := degree' - 1;
        }
      }
    }

    method StripVariable(lits: seq<int>, pure: int, degree: int) returns (kept: seq<int>, degree': int)
      requires Shapes() && Complete() && VarsIn(lits, vars) && DistinctVars(lits) && pure in lits
      modifies this`posCount, this`negCount, this`pureQueue, this`inPureQueue
      ensures Shapes() && Complete()
      ensures kept == Keep(lits, {Abs(pure)}) && degree' == degree - 1
      ensures Counted(old(posCount), old(negCount), posCount, negCount, [pure], -1)
    {
      kept, degree' := [], degree;
      var j := 0;
      while j < |lits|
        invariant 0 <= j <= |lits| && Shapes() && Complete()
        invariant Stripped(lits[..j], pure, kept, old(posCount), old(negCount), posCount, negCount)
        invariant degree' == degree - ToInt(pure in lits[..j])
      {
        PrefixStep(lits, j, pure);
        kept, degree' := StripLiteral(lits[j], pure, lits[..j], old(posCount), old(negCount), kept, degree');
        j := j + 1;
      }
      assert lits[..j] == lits;
      OnlyPivot(lits, pure);
    }

    // The counters of a row that loses the pure literal, or all of its
    // literals when that satisfies it.
    method StripRow(id: nat, pure: int) returns (kept: seq<int>, degree: int)
      requires PureValid(Abs(pure)) && id < |rows| && !deleted[id] && pure in rows[id].lits
      modifies this`posCount, this`negCount, this`pureQueue, this`inPureQueue
      ensures Shapes() && Complete()
      ensures kept == Keep(rows[id].lits, {Abs(pure)}) && degree == rows[id].degree - 1 <= |kept|
      ensures Counted(old(posCount), old(negCount), posCount, negCount,
                      if degree == 0 then [pure] + kept else [pure], -1)
    {
      var r := rows[id];
      assert RowOk(r, clean[Abs(pure) := false]);
      kept, degree := StripVariable(r.lits, pure, r.degree);
      PureRowOk(r, clean, pure);
      if degree == 0 {
        DecAll(kept, [pure], old(posCount), old(negCount));
      }
    }

    // Never reports failure: degree and size shrink together.
    method SimplifyLive(id: nat, pure: int) returns (ok: bool)
      requires PureValid(Abs(pure)) && id < |rows| && !deleted[id] && pure in rows[id].lits
      modifies this`rows, this`deleted, this`posCount, this`negCount, this`pureQueue, this`inPureQueue
      ensures ok && PureValid(Abs(pure))
      ensures rows == old(rows)[id := StrippedRow(old(rows)[id], Abs(pure))]
      ensures deleted == old(deleted)[id := old(rows)[id].degree == 1]
    {
      var kept, degree := StripRow(id, pure);
      rows := rows[id := Row(if degree == 0 then [] else kept, degree)];
      deleted := deleted[id := degree == 0];
      PureTables(old(rows), old(deleted), clean, id, pure, rows, deleted, occurp, occurn,
                 old(posCount), old(negCount), posCount, negCount);
      ok := degree <= |kept|;
    }

    // simplify_pure_clause
    method SimplifyPureClause(id: nat, pure: int) returns (ok: bool)
      requires PureValid(Abs(pure)) && id < |rows|
      requires !deleted[id] ==> pure in rows[id].lits
      modifies this`rows, this`deleted, this`posCount, this`negCount, this`pureQueue, this`inPureQueue
      ensures ok && PureValid(Abs(pure))
      ensures old(deleted)[id] ==> rows == old(rows) && deleted == old(deleted)
      ensures !old(deleted)[id] ==>
        && rows == old(rows)[id := StrippedRow(old(rows)[id], Abs(pure))]
        && deleted == old(deleted)[id := old(rows)[id].degree == 1]
    {
      if deleted[id] {
        return true;
      }
      ok := SimplifyLive(id, pure);
    }

    // The loop over the occurrences of a pure literal.
    method SatisfyPure(pure: int) returns (ok: bool)
      requires PureValid(Abs(pure)) && At(posCount, negCount, -pure) == 0
      requires OccursExactly(rows, deleted, pure, At(occurp, occurn, pure))
      modifies this`rows, this`deleted, this`posCount, this`negCount, this`pureQueue, this`inPureQueue
      ensures ok && PureValid(Abs(pure))
      ensures |old(rows)| == |old(deleted)| && PureMeaning(old(rows), old(deleted), pure, rows, deleted)
      ensures forall i :: 0 <= i < |rows| && !deleted[i] ==> !Mentions(rows[i].lits, Abs(pure))
    {
      var occ := At(occurp, occurn, pure);
      LiveCountZero(rows, deleted, -pure);
      ok := true;
      var j := 0;
      while j < |occ|
        invariant 0 <= j <= |occ| && PureValid(Abs(pure)) && ok
        invariant occurp == old(occurp) && occurn == old(occurn)
        invariant PureMeaning(old(rows), old(deleted), pure, rows, deleted)
        invariant PureLeft(rows, deleted, pure, occ[j..])
      {
        assert occ[j..][0] == occ[j];
        ghost var r, d := rows, deleted;
        PureMeaningStep(old(rows), old(deleted), pure, r, d, occ[j]);
        PureLeftStep(r, d, pure, occ, j);
        ok := SimplifyPureClause(occ[j], pure);
        j := j + 1;
      }
      forall i | 0 <= i < |rows| && !deleted[i]
        ensures !Mentions(rows[i].lits, Abs(pure))
      {
        NotMentioned(rows[i].lits, pure);
      }
    }

    // Complete, except that v has just been taken from the queue.
    ghost predicate CompleteBut(v: int)
      reads this
      requires Shapes()
    {
      forall x :: 1 <= x <= vars && x != v && !clean[x] && (posCount[x] == 0 || negCount[x] == 0) ==>
        x in pureQueue[pureHead..]
    }

    // What the pure phase keeps.
    ghost predicate PureLogged()
      reads this
    {
      && |rows| == |deleted| && |mapfrom| == vars + 1
      && LogStored(log, mapfrom, clean, resRows, resOwner, q)
      && PuresOk(pures, log, clean) && PuresStored(pures, mapfrom, mapval0, mapto0, mapval, mapto)
      && RecoversAll(original, log, pures, rows, deleted)
    }

    method PopPure() returns (v: int)
      requires Shapes() && Complete() && pureHead < |pureQueue|
      modifies this`pureHead, this`inPureQueue
      ensures Shapes() && 1 <= v <= vars && CompleteBut(v)
      ensures pureHead == old(pureHead) + 1
    {
      ghost var waiting := pureQueue[pureHead..];
      v := pureQueue[pureHead];
      assert v == waiting[0];
      pureHead := pureHead + 1;
      inPureQueue := inPureQueue[v := false];
      assert pureQueue[pureHead..] == waiting[1..];
      assert waiting == [v] + waiting[1..];
      QueuePop(waiting, old(inPureQueue), v);
    }

    // Retire a pure variable from the rows.
    method RetireFromRows(v: int, pure: int) returns (ok: bool)
      requires Valid() && 1 <= v <= vars && !clean[v] && CompleteBut(v)
      requires Abs(pure) == v && At(posCount, negCount, -pure) == 0
      modifies this`clean, this`rows, this`deleted, this`posCount, this`negCount, this`pureQueue, this`inPureQueue
      ensures ok && Valid() && Complete()
      ensures clean == old(clean)[v := true]
      ensures PureMeaning(old(rows), old(deleted), pure, rows, deleted)
      ensures forall i :: 0 <= i < |rows| && !deleted[i] ==> !Mentions(rows[i].lits, v)
    {
      assert OccursExactly(rows, deleted, pure, At(occurp, occurn, pure));
      assert clean == clean[v := true][v := false];
      clean := clean[v := true];
      ok := SatisfyPure(pure);
      NoneMentioned(rows, deleted, clean, v);
    }

    method RetireAndRecover(p: Pure) returns (ok: bool)
      requires Valid() && 1 <= p.v <= vars && !clean[p.v] && CompleteBut(p.v)
      requires At(posCount, negCount, -p.Lit()) == 0
      requires RecoversAll(original, log, pures, rows, deleted)
      modifies this`pures, this`clean, this`rows, this`deleted, this`posCount, this`negCount,
               this`pureQueue, this`inPureQueue
      ensures ok && Valid() && Complete()
      ensures clean == old(clean)[p.v := true] && pures == old(pures) + [p]
      ensures RecoversAll(original, log, pures, rows, deleted)
    {
      ok := RetireFromRows(p.v, p.Lit());
      PuresStep(original, log, pures, p, old(rows), old(deleted), rows, deleted);
      pures := pures + [p];
    }

    method StorePure(p: Pure)
      requires PuresStored(pures, mapfrom, mapval0, mapto0, mapval, mapto) && 1 <= p.v < |mapfrom|
      modifies this`mapval, this`mapto
      ensures PuresStored(pures + [p], mapfrom, mapval0, mapto0, mapval, mapto)
    {
      StoreStep(mapval0, pures, p, mapfrom);
      StoreStep(mapto0, pures, p, mapfrom);
      mapval := mapval[mapfrom[p.v] := p.value];
      mapto := mapto[mapfrom[p.v] := 0];
    }

    // Fix a pure variable and satisfy its rows.
    method RetirePure(p: Pure) returns (ok: bool)
      requires Valid() && PureLogged() && 1 <= p.v <= vars && !clean[p.v] && CompleteBut(p.v)
      requires p.value == 1 || p.value == -1
      requires At(posCount, negCount, -p.Lit()) == 0
      modifies this`mapval, this`mapto, this`clean, this`pures, this`rows, this`deleted,
               this`posCount, this`negCount, this`pureQueue, this`inPureQueue
      ensures ok && Valid() && PureLogged() && Complete()
      ensures clean == old(clean)[p.v := true]
    {
      StorePure(p);
      LogStoredRetire(log, mapfrom, clean, resRows, resOwner, q, p.v);
      PuresOkStep(pures, log, clean, p);
      ok := RetireAndRecover(p);
    }

    method EnqueueAllPure()
      requires Shapes()
      modifies this`pureQueue, this`inPureQueue
      ensures Shapes() && Complete()
    {
      var x := 1;
      while x <= vars
        invariant 1 <= x <= vars + 1 && Shapes()
        invariant forall y :: 1 <= y < x && !clean[y] && (posCount[y] == 0 || negCount[y] == 0) ==>
          y in pureQueue[pureHead..]
      {
        if !clean[x] && (posCount[x] == 0 || negCount[x] == 0) {
          EnqueuePureCandidate(x);
        }
        x := x + 1;
      }
    }

    // One variable taken from the queue.
    method PureIteration(v: int) returns (ok: bool, changed: bool)
      requires Valid() && PureLogged() && 1 <= v <= vars && CompleteBut(v)
      modifies this`mapval, this`mapto, this`clean, this`pures, this`rows, this`deleted,
               this`posCount, this`negCount, this`pureQueue, this`inPureQueue
      ensures ok && Valid() && PureLogged() && Complete()
      ensures NumFalse(clean) < NumFalse(old(clean)) || (clean == old(clean) && pureQueue == old(pureQueue))
      ensures !changed ==> rows == old(rows) && deleted == old(deleted) && pures == old(pures)
    {
      ok, changed := true, false;
      CountsNonNegative(rows, deleted, posCount, negCount, v);
      if !clean[v] && (posCount[v] == 0 || negCount[v] == 0) {
        NumFalseUpdate(clean, v, true);
        if posCount[v] == 0 && negCount[v] == 0 {
          RetireUnused(rows, deleted, clean, posCount, negCount, v);
          PuresRetire(pures, log, clean, v);
          clean := clean[v := true];
        } else {
          changed := true;
          ok := RetirePure(Pure(v, if posCount[v] != 0 then 1 else -1));
        }
      }
    }

    // The pure-literal fixpoint. It never fails, and every variable that is
    // left occurs in both polarities.
    method PropagatePure() returns (ok: bool, changed: bool)
      requires Valid() && PureLogged()
      modifies this`mapval, this`mapto, this`clean, this`pures, this`rows, this`deleted,
               this`posCount, this`negCount, this`pureQueue, this`inPureQueue, this`pureHead
      ensures ok && Valid() && PureLogged()
      ensures forall v :: 1 <= v <= vars && !clean[v] ==> posCount[v] > 0 && negCount[v] > 0
      ensures !changed ==> rows == old(rows) && deleted == old(deleted) && pures == old(pures)
    {
      EnqueueAllPure();
      ok, changed := DrainPure();
      CountsAllNonNegative(rows, deleted, posCount, negCount);
    }

    method DrainPure() returns (ok: bool, changed: bool)
      requires Valid() && PureLogged() && Complete()
      modifies this`mapval, this`mapto, this`clean, this`pures, this`rows, this`deleted,
               this`posCount, this`negCount, this`pureQueue, this`inPureQueue, this`pureHead
      ensures ok && Valid() && PureLogged() && Complete() && pureHead == |pureQueue|
      ensures !changed ==> rows == old(rows) && deleted == old(deleted) && pures == old(pures)
    {
      ok, changed := true, false;
      while pureHead < |pureQueue| && ok
        invariant Valid() && PureLogged() && Complete() && ok
        invariant !changed ==> rows == old(rows) && deleted == old(deleted) && pures == old(pures)
        decreases NumFalse(clean), |pureQueue| - pureHead
      {
        var v := PopPure();
        var c;
        ok, c := PureIteration(v);
        changed := changed || c;
      }
    }

    // Index the rows and eliminate.
    method EliminationPhase() returns (ok: bool, ghost trace: seq<Eliminating>)
      requires Initial()
      modifies this`rows, this`deleted, this`occurp, this`occurn, this`posCount, this`negCount, this`pureQueue,
               this`inPureQueue, this`clean, this`resseen, this`resRows, this`resOwner, this`q, this`log
      ensures Valid() && PureLogged()
      ensures !ok ==> forall a :: !RowsSat(original, a)
      ensures q == [] ==> rows == old(rows) && deleted == old(deleted)
      ensures trace != [] && TriedInOrder(trace, old(Now()), Now(), [], q) && (ok ==> |trace| == vars + 1)
    {
      IndexAll();
      ok, trace := EliminateVariables();
      PuresEmpty(original, log, clean, rows, deleted);
    }

    // preprocess_resolution up to the relabelling. False means no model
    // exists; otherwise every model of the live rows recovers one of the
    // original rows, and every variable left occurs in both polarities. Every
    // variable has been tried for elimination once, in order.
    method Run() returns (ok: bool, changed: bool, ghost trace: seq<Eliminating>)
      requires Initial()
      modifies this
      ensures !ok ==> forall a :: !RowsSat(original, a)
      ensures ok ==> Valid() && PureLogged()
      ensures ok ==> forall v :: 1 <= v <= vars && !clean[v] ==> posCount[v] > 0 && negCount[v] > 0
      ensures ok && !changed ==> rows == old(rows) && deleted == old(deleted) && pures == [] && q == []
      ensures ok ==> |trace| == vars + 1 && TriedInOrder(trace, old(Now()), trace[vars], [], q)
    {
      changed := false;
      ok, trace := EliminationPhase();
      if ok {
        ok, changed := PropagatePure();
        changed := changed || |q| > 0;
      }
    }
  }

  lemma PuresEmpty(original: seq<Row>, log: seq<Group>, clean: seq<bool>, rows: seq<Row>, deleted: seq<bool>)
    requires |rows| == |deleted|
    ensures PuresOk([], log, clean)
    ensures Recovers(original, log, rows, deleted) ==> RecoversAll(original, log, [], rows, deleted)
  {
  }

  lemma NothingLost(rows: seq<Row>)
    ensures Recovers(rows, [], rows, NoneDeleted(|rows|))
  {
  }

  ghost predicate NamesIn(names: seq<int>, n: int) {
    forall v :: 1 <= v < |names| ==> 1 <= names[v] < n
  }

  // mapval and mapto after the pure assignments, in order.
  function StoreValues(m: seq<int>, pures: seq<Pure>, names: seq<int>): (r: seq<int>)
    ensures |r| == |m|
  {
    if pures == [] then m
    else
      var p := pures[|pures| - 1];
      var rest := StoreValues(m, pures[..|pures| - 1], names);
      var x := Name(names, p.v);
      if 0 <= x < |rest| then rest[x := p.value] else rest
  }

  function StoreZeros(m: seq<int>, pures: seq<Pure>, names: seq<int>): (r: seq<int>)
    ensures |r| == |m|
  {
    if pures == [] then m
    else
      var rest := StoreZeros(m, pures[..|pures| - 1], names);
      var x := Name(names, pures[|pures| - 1].v);
      if 0 <= x < |rest| then rest[x := 0] else rest
  }

  ghost function ApplyPures(pures: seq<Pure>, a: Assignment): Assignment {
    if pures == [] then a
    else
      var p := pures[|pures| - 1];
      ApplyPures(pures[..|pures| - 1], Set(a, p.v, p.value > 0))
  }

  ghost function Rebuild(log: seq<Group>, pures: seq<Pure>, a: Assignment): Option<Assignment> {
    Replay(log, ApplyPures(pures, a))
  }

  ghost predicate PuresStored(pures: seq<Pure>, names: seq<int>,
                              mapval0: seq<int>, mapto0: seq<int>, mapval: seq<int>, mapto: seq<int>) {
    && NamesIn(names, |mapval0|) && |mapval0| == |mapto0|
    && mapval == StoreValues(mapval0, pures, names) && mapto == StoreZeros(mapto0, pures, names)
  }

  lemma {:induction false} PuresClean(pures: seq<Pure>, log: seq<Group>, clean: seq<bool>)
    requires PuresOk(pures, log, clean)
    ensures forall k :: 0 <= k < |pures| ==> PureOk(pures[k], clean)
  {
    if pures != [] {
      PuresClean(pures[..|pures| - 1], log, clean);
    }
  }

  lemma {:induction false} PuresRetire(pures: seq<Pure>, log: seq<Group>, clean: seq<bool>, v: int)
    requires PuresOk(pures, log, clean) && 1 <= v < |clean|
    ensures PuresOk(pures, log, clean[v := true])
  {
    if pures != [] {
      PuresRetire(pures[..|pures| - 1], log, clean, v);
    }
  }

  lemma PuresOkStep(pures: seq<Pure>, log: seq<Group>, clean: seq<bool>, p: Pure)
    requires PuresOk(pures, log, clean) && 1 <= p.v < |clean| && !clean[p.v] && (p.value == 1 || p.value == -1)
    requires LogOk(log, |clean| - 1)
    requires forall m :: 0 <= m < |log| ==> clean[log[m].pivot]
    ensures PuresOk(pures + [p], log, clean[p.v := true])
  {
    PuresClean(pures, log, clean);
    PuresRetire(pures, log, clean, p.v);
    forall k | 0 <= k < |pures|
      ensures pures[k].v != p.v
    {
      assert PureOk(pures[k], clean);
    }
    PuresSnoc(pures, log, clean[p.v := true], p);
  }

  lemma PuresSnoc(pures: seq<Pure>, log: seq<Group>, clean: seq<bool>, p: Pure)
    requires PuresOk(pures, log, clean) && PureOk(p, clean) && NewPure(p.v, pures, log)
    ensures PuresOk(pures + [p], log, clean)
  {
    assert (pures + [p])[..|pures|] == pures;
  }

  lemma LogStoredRetire(log: seq<Group>, names: seq<int>, clean: seq<bool>, resRows: seq<Row>, resOwner: seq<int>,
                        q: seq<int>, v: int)
    requires LogStored(log, names, clean, resRows, resOwner, q) && 1 <= v < |clean|
    ensures LogStored(log, names, clean[v := true], resRows, resOwner, q)
  {
  }

  lemma StoreStep(m: seq<int>, pures: seq<Pure>, p: Pure, names: seq<int>)
    requires 1 <= p.v < |names| && 0 <= names[p.v] < |m|
    ensures StoreValues(m, pures + [p], names) == StoreValues(m, pures, names)[names[p.v] := p.value]
    ensures StoreZeros(m, pures + [p], names) == StoreZeros(m, pures, names)[names[p.v] := 0]
  {
    var all := pures + [p];
    assert all[..|all| - 1] == pures && all[|all| - 1] == p && Name(names, p.v) == names[p.v];
  }

  // Each pure variable is retired, has a value, and is neither an earlier one
  // nor a pivot.
  ghost predicate PuresOk(pures: seq<Pure>, log: seq<Group>, clean: seq<bool>) {
    pures == [] ||
    var rest, p := pures[..|pures| - 1], pures[|pures| - 1];
    PuresOk(rest, log, clean) && PureOk(p, clean) && NewPure(p.v, rest, log)
  }

  ghost predicate PureOk(p: Pure, clean: seq<bool>) {
    1 <= p.v < |clean| && clean[p.v] && (p.value == 1 || p.value == -1)
  }

  ghost predicate NewPure(v: int, pures: seq<Pure>, log: seq<Group>) {
    (forall k :: 0 <= k < |pures| ==> pures[k].v != v) && (forall m :: 0 <= m < |log| ==> log[m].pivot != v)
  }

  // Models of the live rows become models of `original` by setting the pure
  // variables and replaying the log; models of `original` stay models.
  ghost predicate RecoversAll(original: seq<Row>, log: seq<Group>, pures: seq<Pure>, rows: seq<Row>, deleted: seq<bool>)
    requires |rows| == |deleted|
  {
    && (forall a :: LiveSat(rows, deleted, a) ==>
         Rebuild(log, pures, a).Some? && RowsSat(original, Rebuild(log, pures, a).value))
    && (forall a {:trigger LiveSat(rows, deleted, a)} :: RowsSat(original, a) ==> LiveSat(rows, deleted, a))
  }

  lemma QueuePop(waiting: seq<int>, flags: seq<bool>, v: int)
    requires PureQueueOk(waiting, flags) && |waiting| > 0 && waiting[0] == v
    ensures 1 <= v < |flags| && PureQueueOk(waiting[1..], flags[v := false])
    ensures v !in waiting[1..]
  {
  }

  lemma LiveSetOther(rows: seq<Row>, deleted: seq<bool>, a: Assignment, v: int, b: bool)
    requires |rows| == |deleted|
    requires forall i :: 0 <= i < |rows| && !deleted[i] ==> !Mentions(rows[i].lits, v)
    ensures LiveSat(rows, deleted, Set(a, v, b)) <==> LiveSat(rows, deleted, a)
  {
    forall i | 0 <= i < |rows| && !deleted[i]
      ensures RowSat(rows[i], Set(a, v, b)) <==> RowSat(rows[i], a)
    {
      CountSetOther(rows[i].lits, a, v, b);
    }
  }

  lemma PuresStep(original: seq<Row>, log: seq<Group>, pures: seq<Pure>, p: Pure,
                  rows: seq<Row>, deleted: seq<bool>, rows': seq<Row>, deleted': seq<bool>)
    requires |rows| == |deleted| && RecoversAll(original, log, pures, rows, deleted)
    requires p.v > 0 && PureMeaning(rows, deleted, p.Lit(), rows', deleted')
    requires forall i :: 0 <= i < |rows'| && !deleted'[i] ==> !Mentions(rows'[i].lits, p.v)
    ensures RecoversAll(original, log, pures + [p], rows', deleted')
  {
    assert (pures + [p])[..|pures|] == pures;
    forall a | LiveSat(rows', deleted', a)
      ensures LiveSat(rows, deleted, Set(a, p.v, p.value > 0))
      ensures Rebuild(log, pures + [p], a) == Rebuild(log, pures, Set(a, p.v, p.value > 0))
    {
      LiveSetOther(rows', deleted', a, p.v, p.value > 0);
      assert Holds(p.Lit(), Set(a, p.v, p.value > 0));
    }
  }

  lemma NoneMentioned(rows: seq<Row>, deleted: seq<bool>, clean: seq<bool>, v: int)
    requires 1 <= v < |clean| && LiveRowsOk(rows, deleted, clean[v := false])
    requires forall i :: 0 <= i < |rows| && !deleted[i] ==> !Mentions(rows[i].lits, v)
    ensures LiveRowsOk(rows, deleted, clean)
  {
    forall i | 0 <= i < |rows| && !deleted[i]
      ensures RowOk(rows[i], clean)
    {
      assert RowOk(rows[i], clean[v := false]);
    }
  }

  lemma CountsNonNegative(rows: seq<Row>, deleted: seq<bool>, p: seq<int>, n: seq<int>, v: int)
    requires |rows| == |deleted| && CountsOk(rows, deleted, p, n) && 1 <= v < |p|
    ensures p[v] == LiveCount(rows, deleted, v) && n[v] == LiveCount(rows, deleted, -v)
  {
    assert At(p, n, v) == LiveCount(rows, deleted, v);
    assert At(p, n, -v) == LiveCount(rows, deleted, -v);
  }

  lemma CountsAllNonNegative(rows: seq<Row>, deleted: seq<bool>, p: seq<int>, n: seq<int>)
    requires |rows| == |deleted| && CountsOk(rows, deleted, p, n)
    ensures forall v :: 1 <= v < |p| ==> p[v] >= 0 && n[v] >= 0
  {
    forall v | 1 <= v < |p|
      ensures p[v] >= 0 && n[v] >= 0
    {
      CountsNonNegative(rows, deleted, p, n, v);
    }
  }

  lemma RetireUnused(rows: seq<Row>, deleted: seq<bool>, clean: seq<bool>, p: seq<int>, n: seq<int>, v: int)
    requires LiveRowsOk(rows, deleted, clean) && CountsOk(rows, deleted, p, n)
    requires 1 <= v < |p| == |clean| && p[v] == n[v] == 0
    ensures LiveRowsOk(rows, deleted, clean[v := true])
  {
    CountsNonNegative(rows, deleted, p, n, v);
    LiveCountZero(rows, deleted, v);
    LiveCountZero(rows, deleted, -v);
    forall i | 0 <= i < |rows| && !deleted[i]
      ensures RowOk(rows[i], clean[v := true])
    {
      assert RowOk(rows[i], clean);
      NotMentioned(rows[i].lits, v);
    }
  }

  lemma NotMentioned(lits: seq<int>, l: int)
    requires l !in lits && -l !in lits
    ensures !Mentions(lits, Abs(l))
  {
    forall j | 0 <= j < |lits|
      ensures Abs(lits[j]) != Abs(l)
    {
      assert lits[j] in lits;
    }
  }

  // The rows before and after satisfying the pure literal, as formulas.
  ghost predicate PureMeaning(rows: seq<Row>, deleted: seq<bool>, pure: int, rows': seq<Row>, deleted': seq<bool>)
    requires |rows| == |deleted|
  {
    && |rows'| == |deleted'|
    && (forall a :: LiveSat(rows, deleted, a) ==> LiveSat(rows', deleted', a))
    && (forall a :: Holds(pure, a) && LiveSat(rows', deleted', a) ==> LiveSat(rows, deleted, a))
  }

  // The literal is only left in the rows of `todo`, its complement nowhere.
  ghost predicate PureLeft(rows: seq<Row>, deleted: seq<bool>, pure: int, todo: seq<int>)
    requires |rows| == |deleted|
  {
    && Ids(todo, |rows|)
    && (forall k :: 0 <= k < |todo| && !deleted[todo[k]] ==> pure in rows[todo[k]].lits)
    && (forall i :: 0 <= i < |rows| && !deleted[i] && pure in rows[i].lits ==> i in todo)
    && (forall i :: 0 <= i < |rows| && !deleted[i] ==> -pure !in rows[i].lits)
  }

  lemma StrippedRowSat(r: Row, pure: int, a: Assignment)
    requires Parent(r, pure)
    ensures RowSat(r, a) ==> RowSat(StrippedRow(r, Abs(pure)), a)
    ensures Holds(pure, a) && RowSat(StrippedRow(r, Abs(pure)), a) ==> RowSat(r, a)
  {
    CountPivot(r.lits, pure, a);
  }

  lemma PureMeaningStep(rows: seq<Row>, deleted: seq<bool>, pure: int, r: seq<Row>, d: seq<bool>, id: nat)
    requires |rows| == |deleted| && PureMeaning(rows, deleted, pure, r, d)
    requires id < |r| && (!d[id] ==> Parent(r[id], pure))
    ensures !d[id] ==>
      PureMeaning(rows, deleted, pure, r[id := StrippedRow(r[id], Abs(pure))], d[id := r[id].degree == 1])
  {
    if !d[id] {
      var r', d' := r[id := StrippedRow(r[id], Abs(pure))], d[id := r[id].degree == 1];
      forall a: Assignment
        ensures LiveSat(r, d, a) ==> LiveSat(r', d', a)
        ensures Holds(pure, a) && LiveSat(r', d', a) ==> LiveSat(r, d, a)
      {
        StrippedRowSat(r[id], pure, a);
        assert r[id].degree == 1 ==> RowSat(StrippedRow(r[id], Abs(pure)), a);
        assert forall i :: 0 <= i < |r| && i != id ==> r'[i] == r[i] && d'[i] == d[i];
        assert r'[id] == StrippedRow(r[id], Abs(pure));
      }
    }
  }

  lemma PureLeftStep(r: seq<Row>, d: seq<bool>, pure: int, occ: seq<int>, j: nat)
    requires |r| == |d| && pure != 0 && j < |occ| && Increasing(occ) && PureLeft(r, d, pure, occ[j..])
    ensures Ids(occ[j..], |r|) && 0 <= occ[j] < |r|
    ensures d[occ[j]] ==> PureLeft(r, d, pure, occ[j + 1..])
    ensures !d[occ[j]] ==>
      PureLeft(r[occ[j] := StrippedRow(r[occ[j]], Abs(pure))], d[occ[j] := r[occ[j]].degree == 1], pure, occ[j + 1..])
  {
    var id := occ[j..][0];
    KeepMembers(r[id].lits, {Abs(pure)});
    assert occ[j..] == [id] + occ[j + 1..];
    var rest := occ[j + 1..];
    forall k | 0 <= k < |rest|
      ensures 0 <= rest[k] < |r| && rest[k] != id
      ensures !d[rest[k]] ==> pure in r[rest[k]].lits
    {
      assert rest[k] == occ[j..][k + 1];
    }
  }

  // `kept` is `seen` without the pure variable, whose counters are reduced.
  ghost predicate Stripped(seen: seq<int>, pure: int, kept: seq<int>, p: seq<int>, n: seq<int>, p': seq<int>, n': seq<int>) {
    && kept == Keep(seen, {Abs(pure)})
    && Counted(p, n, p', n', Only(seen, {Abs(pure)}), -1)
  }

  lemma PrefixStep(lits: seq<int>, j: nat, x: int)
    requires j < |lits| && DistinctVars(lits) && x in lits
    ensures lits[..j + 1] == lits[..j] + [lits[j]]
    ensures lits[j] !in lits[..j]
    ensures Abs(lits[j]) == Abs(x) ==> lits[j] == x
    ensures x in lits[..j + 1] <==> x in lits[..j] || x == lits[j]
  {
  }

  // A row that has lost the pure variable v; it is gone if that satisfies it.
  function StrippedRow(r: Row, v: int): Row {
    Row(if r.degree == 1 then [] else Keep(r.lits, {v}), r.degree - 1)
  }

  lemma PureRowOk(r: Row, clean: seq<bool>, pure: int)
    requires 1 <= Abs(pure) < |clean| && clean[Abs(pure)]
    requires RowOk(r, clean[Abs(pure) := false]) && pure in r.lits
    ensures var kept := Keep(r.lits, {Abs(pure)});
      && |kept| == |r.lits| - 1 && VarsIn(kept, |clean| - 1) && DistinctVars(kept)
      && (forall l :: l in kept ==> l !in [pure])
      && (r.degree > 1 ==> RowOk(Row(kept, r.degree - 1), clean[Abs(pure) := false]))
  {
    KeepMembers(r.lits, {Abs(pure)});
    KeepDistinct(r.lits, {Abs(pure)});
    OnlyPivot(r.lits, pure);
    var kept := Keep(r.lits, {Abs(pure)});
    forall k | 0 <= k < |kept|
      ensures kept[k] in r.lits
    {
      assert kept[k] in kept;
    }
  }

  lemma PureTables(rows: seq<Row>, deleted: seq<bool>, clean: seq<bool>, id: nat, pure: int,
                   rows': seq<Row>, deleted': seq<bool>, occurp: seq<seq<int>>, occurn: seq<seq<int>>,
                   p: seq<int>, n: seq<int>, p': seq<int>, n': seq<int>)
    requires id < |rows| && 1 <= Abs(pure) < |clean| && clean[Abs(pure)]
    requires LiveRowsOk(rows, deleted, clean[Abs(pure) := false]) && !deleted[id] && pure in rows[id].lits
    requires rows' == rows[id := StrippedRow(rows[id], Abs(pure))] && deleted' == deleted[id := rows[id].degree == 1]
    requires OccurOk(rows, deleted, clean, occurp, occurn) && CountsOk(rows, deleted, p, n)
    requires Counted(p, n, p', n', if deleted'[id] then [pure] + Keep(rows[id].lits, {Abs(pure)}) else [pure], -1)
    ensures LiveRowsOk(rows', deleted', clean[Abs(pure) := false])
    ensures OccurOk(rows', deleted', clean, occurp, occurn) && CountsOk(rows', deleted', p', n')
  {
    assert RowOk(rows[id], clean[Abs(pure) := false]);
    PureRowOk(rows[id], clean, pure);
    PureOccurs(rows, deleted, clean, id, pure, rows', deleted', occurp, occurn);
    PureCounts(rows, deleted, id, pure, rows', deleted', p, n, p', n');
  }

  lemma PureOccurs(rows: seq<Row>, deleted: seq<bool>, clean: seq<bool>, id: nat, pure: int,
                   rows': seq<Row>, deleted': seq<bool>, occurp: seq<seq<int>>, occurn: seq<seq<int>>)
    requires |rows| == |deleted| && id < |rows| && !deleted[id] && 1 <= Abs(pure) < |clean| && clean[Abs(pure)]
    requires rows' == rows[id := StrippedRow(rows[id], Abs(pure))] && deleted' == deleted[id := rows[id].degree == 1]
    requires OccurOk(rows, deleted, clean, occurp, occurn)
    ensures OccurOk(rows', deleted', clean, occurp, occurn)
  {
    forall l | 1 <= Abs(l) < |clean| && !clean[Abs(l)]
      ensures OccursExactly(rows', deleted', l, At(occurp, occurn, l))
    {
      assert OccursExactly(rows, deleted, l, At(occurp, occurn, l));
      KeepMembers(rows[id].lits, {Abs(pure)});
    }
  }

  lemma PureCounts(rows: seq<Row>, deleted: seq<bool>, id: nat, pure: int, rows': seq<Row>, deleted': seq<bool>,
                   p: seq<int>, n: seq<int>, p': seq<int>, n': seq<int>)
    requires |rows| == |deleted| && id < |rows| && !deleted[id]
    requires DistinctVars(rows[id].lits) && pure in rows[id].lits
    requires rows' == rows[id := StrippedRow(rows[id], Abs(pure))] && deleted' == deleted[id := rows[id].degree == 1]
    requires CountsOk(rows, deleted, p, n)
    requires Counted(p, n, p', n', if deleted'[id] then [pure] + Keep(rows[id].lits, {Abs(pure)}) else [pure], -1)
    ensures CountsOk(rows', deleted', p', n')
  {
    forall l | 1 <= Abs(l) < |p|
      ensures At(p', n', l) == LiveCount(rows', deleted', l)
    {
      LiveCountUpdate(rows, deleted, id, rows'[id], deleted'[id], l);
      PureMember(rows[id].lits, pure, l);
    }
  }

  lemma PureMember(lits: seq<int>, pure: int, l: int)
    requires pure in lits && DistinctVars(lits)
    ensures l in lits <==> l == pure || l in Keep(lits, {Abs(pure)})
    ensures l == pure ==> l !in Keep(lits, {Abs(pure)})
  {
    KeepMembers(lits, {Abs(pure)});
  }

  lemma InfeasibleUnsat(original: seq<Row>, log: seq<Group>, rows: seq<Row>, deleted: seq<bool>, v: int,
                        pos: seq<int>, neg: seq<int>)
    requires |rows| == |deleted| && v > 0 && Recovers(original, log, rows, deleted)
    requires ExactlyLive(rows, deleted, v, pos) && ExactlyLive(rows, deleted, -v, neg)
    requires Parents(Pick(rows, pos), v) && Parents(Pick(rows, neg), -v)
    requires forall a :: !AllResolventsHold(Pick(rows, pos), Pick(rows, neg), v, a)
    ensures forall a :: !RowsSat(original, a)
  {
    var ps, ns := Pick(rows, pos), Pick(rows, neg);
    forall a | RowsSat(original, a)
      ensures AllResolventsHold(ps, ns, v, a)
    {
      assert LiveSat(rows, deleted, a);
      forall i, j | 0 <= i < |ps| && 0 <= j < |ns|
        ensures ResolventHolds(ps[i], ns[j], v, a)
      {
        assert ps[i] == rows[pos[i]] && ns[j] == rows[neg[j]];
        ResolventImplied(ps[i], ns[j], v, a);
      }
    }
  }

  // A live row contains the pivot in one sign only.
  lemma SidesDisjoint(rows: seq<Row>, deleted: seq<bool>, removed: seq<bool>, clean: seq<bool>, v: int,
                      pos: seq<int>, neg: seq<int>)
    requires Eliminable(rows, deleted, clean, v, pos, neg) && Removed(deleted, removed, pos, [])
    ensures forall i :: 0 <= i < |neg| ==> !removed[neg[i]]
  {
    forall i | 0 <= i < |neg|
      ensures neg[i] !in pos
    {
      NotBoth(rows[neg[i]].lits, v);
    }
  }

  lemma RecoverStep(original: seq<Row>, log: seq<Group>, rows: seq<Row>, deleted: seq<bool>, clean: seq<bool>,
                    removed: seq<bool>, v: int, pos: seq<int>, neg: seq<int>, generated: seq<Row>)
    requires Eliminable(rows, deleted, clean, v, pos, neg) && Removed(deleted, removed, pos, neg)
    requires GeneratedOk(generated, Pick(rows, pos), Pick(rows, neg), v, clean, |pos|, 0)
    requires Recovers(original, log, rows, deleted)
    ensures Recovers(original, log + [Group(v, Pick(rows, pos) + Pick(rows, neg))],
                     rows + generated, removed + NoneDeleted(|generated|))
  {
    ParentsOk(rows, deleted, clean, v, pos);
    ParentsOk(rows, deleted, clean, -v, neg);
    forall a: Assignment
      ensures RowsSat(generated, a) <==> AllResolventsHold(Pick(rows, pos), Pick(rows, neg), v, a)
    {
      assert RowsSat(generated, a) <==> ResolventsUpTo(Pick(rows, pos), Pick(rows, neg), v, |pos|, 0, a);
    }
    RecoversElimination(original, log, rows, deleted, removed, v, pos, neg, generated);
  }

  lemma AppendStep(rows: seq<Row>, deleted: seq<bool>, generated: seq<Row>, i: nat)
    requires i < |generated|
    ensures rows + generated[..i] + [generated[i]] == rows + generated[..i + 1]
    ensures deleted + NoneDeleted(i) + [false] == deleted + NoneDeleted(i + 1)
    ensures NumFalse(deleted + NoneDeleted(i + 1)) == NumFalse(deleted + NoneDeleted(i)) + 1
  {
    NumFalseSnoc(deleted + NoneDeleted(i), false);
  }

  lemma StoredStep(rows: seq<Row>, names: seq<int>, ids: seq<int>, i: nat, owner: int)
    requires i < |ids| && Ids(ids, |rows|)
    ensures RenameRows(Pick(rows, ids[..i + 1]), names)
         == RenameRows(Pick(rows, ids[..i]), names) + [RenameRow(rows[ids[i]], names)]
    ensures Repeat(owner, i + 1) == Repeat(owner, i) + [owner]
  {
  }

  lemma RemovedStep(deleted: seq<bool>, removed: seq<bool>, ids: seq<int>, i: nat)
    requires i < |ids| && Ids(ids, |deleted|) && Removed(deleted, removed, ids[..i], [])
    ensures Removed(deleted, removed[ids[i] := true], ids[..i + 1], [])
  {
    assert ids[..i + 1] == ids[..i] + [ids[i]];
  }

  // The parents of pivot v have been collected and pass the guard.
  // Both polarities occur, the table does not grow, and the parents may go.
  predicate Guard(ps: seq<Row>, ns: seq<Row>) {
    && |ps| >= 1 && |ns| >= 1 && |ps| * |ns| <= |ps| + |ns|
    && (AllClauses(ps) || HasTightTail(ns))
    && (AllClauses(ns) || HasTightTail(ps))
  }

  // The table between two tries, and which variables are retired.
  datatype Eliminating = Eliminating(rows: seq<Row>, deleted: seq<bool>, clean: seq<bool>)

  // The parents are gone, and new rows follow the old ones.
  ghost predicate ParentsReplaced(rows: seq<Row>, deleted: seq<bool>, pos: seq<int>, neg: seq<int>, generated: seq<Row>,
                           rows': seq<Row>, deleted': seq<bool>) {
    true == (
      && rows' == rows + generated && |deleted'| == |deleted| + |generated|
      && Removed(deleted, deleted'[..|deleted|], pos, neg) && deleted'[|deleted|..] == NoneDeleted(|generated|))
  }

  lemma ReplacedDone(rows: seq<Row>, deleted: seq<bool>, removed: seq<bool>, pos: seq<int>, neg: seq<int>, generated: seq<Row>,
                     rows': seq<Row>, deleted': seq<bool>)
    requires Removed(deleted, removed, pos, neg) && rows' == rows + generated && deleted' == removed + NoneDeleted(|generated|)
    ensures ParentsReplaced(rows, deleted, pos, neg, generated, rows', deleted')
  {
    assert deleted'[..|deleted|] == removed;
  }

  // What a try of variable v makes of the table.
  ghost predicate TriedAt(v: int, s: Eliminating, pos: seq<int>, neg: seq<int>, generated: seq<Row>, t: Eliminating) {
    true == (
      && 1 <= v < |s.clean| && |s.rows| == |s.deleted| && Ids(pos, |s.rows|) && Ids(neg, |s.rows|)
      && ExactlyLive(s.rows, s.deleted, v, pos) && ExactlyLive(s.rows, s.deleted, -v, neg) && Increasing(pos) && Increasing(neg)
      && if Guard(Pick(s.rows, pos), Pick(s.rows, neg)) && AllResolvable(Pick(s.rows, pos), Pick(s.rows, neg), v) then
           && t.clean == s.clean[v := true]
           && GeneratedOk(generated, Pick(s.rows, pos), Pick(s.rows, neg), v, s.clean, |pos|, 0)
           && ParentsReplaced(s.rows, s.deleted, pos, neg, generated, t.rows, t.deleted)
         else t == s)
  }

  ghost predicate TriedStep(v: int, s: Eliminating, t: Eliminating) {
    exists pos, neg, generated :: TriedAt(v, s, pos, neg, generated, t)
  }

  // All variables so far have been tried, each once and in order, and those
  // that have been retired are in the queue.
  ghost predicate TriedInOrder(trace: seq<Eliminating>, first: Eliminating, last: Eliminating, q0: seq<int>, q: seq<int>) {
    true == (
      && |trace| >= 1 && trace[0] == first && trace[|trace| - 1] == last
      && (forall v :: 1 <= v < |trace| ==> TriedStep(v, trace[v - 1], trace[v]))
      && RetiredIn(q0, trace, q))
  }

  ghost predicate RetiredIn(q0: seq<int>, trace: seq<Eliminating>, q: seq<int>) {
    forall v {:trigger v in q} :: v in q <==> v in q0 || (1 <= v < |trace| && v < |trace[v].clean| && trace[v].clean[v])
  }

  lemma NoneTried(first: Eliminating, q: seq<int>)
    ensures TriedInOrder([first], first, first, q, q)
  {
  }

  lemma TriedMore(trace: seq<Eliminating>, first: Eliminating, last: Eliminating, q0: seq<int>, q: seq<int>,
                  pos: seq<int>, neg: seq<int>, generated: seq<Row>, t: Eliminating, q': seq<int>)
    requires TriedInOrder(trace, first, last, q0, q) && TriedAt(|trace|, last, pos, neg, generated, t) && |trace| < |t.clean|
    requires if t.clean[|trace|] then q' == q + [|trace|] else q' == q
    ensures TriedInOrder(trace + [t], first, t, q0, q')
  {
    var more := trace + [t];
    assert TriedStep(|trace|, last, t);
    forall v | 1 <= v < |more|
      ensures TriedStep(v, more[v - 1], more[v])
    {
      if v < |trace| {
        assert TriedStep(v, trace[v - 1], trace[v]);
      }
    }
    RetiredMore(q0, trace, q, t, q');
  }

  lemma RetiredMore(q0: seq<int>, trace: seq<Eliminating>, q: seq<int>, t: Eliminating, q': seq<int>)
    requires RetiredIn(q0, trace, q) && 1 <= |trace| < |t.clean|
    requires if t.clean[|trace|] then q' == q + [|trace|] else q' == q
    ensures RetiredIn(q0, trace + [t], q')
  {
    var more := trace + [t];
    forall v
      ensures v in q' <==> v in q0 || (1 <= v < |more| && v < |more[v].clean| && more[v].clean[v])
    {
      assert v in q' <==> v in q || (t.clean[|trace|] && v == |trace|);
      assert 1 <= v < |trace| ==> more[v] == trace[v];
      assert more[|trace|] == t;
    }
  }

  ghost predicate Eliminable(rows: seq<Row>, deleted: seq<bool>, clean: seq<bool>, v: int, pos: seq<int>, neg: seq<int>) {
    && LiveRowsOk(rows, deleted, clean)
    && 1 <= v < |clean| && !clean[v] && |pos| >= 1
    && ExactlyLive(rows, deleted, v, pos) && ExactlyLive(rows, deleted, -v, neg)
    && Increasing(pos) && Increasing(neg)
    && (AllClauses(Pick(rows, pos)) || HasTightTail(Pick(rows, neg)))
    && (AllClauses(Pick(rows, neg)) || HasTightTail(Pick(rows, pos)))
  }

  lemma ParentsOk(rows: seq<Row>, deleted: seq<bool>, clean: seq<bool>, l: int, ids: seq<int>)
    requires LiveRowsOk(rows, deleted, clean) && ExactlyLive(rows, deleted, l, ids)
    ensures Parents(Pick(rows, ids), l) && RowsOk(Pick(rows, ids), clean)
  {
    forall i | 0 <= i < |ids|
      ensures RowOk(Pick(rows, ids)[i], clean) && l in Pick(rows, ids)[i].lits
    {
      assert Pick(rows, ids)[i] == rows[ids[i]];
      assert !deleted[ids[i]];
    }
  }

  // After the step no live row mentions the pivot.
  lemma RetirePivot(rows: seq<Row>, deleted: seq<bool>, removed: seq<bool>, clean: seq<bool>, v: int,
                    pos: seq<int>, neg: seq<int>, generated: seq<Row>)
    requires Eliminable(rows, deleted, clean, v, pos, neg) && Removed(deleted, removed, pos, neg)
    requires LiveRowsOk(rows + generated, removed + NoneDeleted(|generated|), clean)
    requires forall k :: 0 <= k < |generated| ==> ResolventOk(generated[k], v, clean)
    ensures LiveRowsOk(rows + generated, removed + NoneDeleted(|generated|), clean[v := true])
  {
    var all, del := rows + generated, removed + NoneDeleted(|generated|);
    forall i | 0 <= i < |all| && !del[i]
      ensures RowOk(all[i], clean[v := true])
    {
      assert RowOk(all[i], clean);
      forall j | 0 <= j < |all[i].lits|
        ensures Abs(all[i].lits[j]) != v
      {
        var l := all[i].lits[j];
        assert l in all[i].lits;
        if i < |rows| {
          assert l == v || l == -v || Abs(l) != v;
        } else {
          assert all[i] == generated[i - |rows|];
        }
      }
    }
  }

  // The flat vectors hold exactly the log, whose pivots are retired.
  ghost predicate LogStored(log: seq<Group>, names: seq<int>, clean: seq<bool>,
                            resRows: seq<Row>, resOwner: seq<int>, q: seq<int>) {
    && |clean| >= 1 && LogOk(log, |clean| - 1)
    && (forall k :: 0 <= k < |log| ==> clean[log[k].pivot])
    && resRows == FlatRows(log, names) && resOwner == FlatOwners(log, names) && q == Pivots(log)
  }

  lemma LogStoredStep(log: seq<Group>, names: seq<int>, clean: seq<bool>, resRows: seq<Row>, resOwner: seq<int>,
                      q: seq<int>, rows: seq<Row>, deleted: seq<bool>, v: int, pos: seq<int>, neg: seq<int>)
    requires LogStored(log, names, clean, resRows, resOwner, q) && |names| == |clean|
    requires Eliminable(rows, deleted, clean, v, pos, neg)
    ensures var g := Group(v, Pick(rows, pos) + Pick(rows, neg));
      LogStored(log + [g], names, clean[v := true], resRows + RenameRows(g.rows, names),
                resOwner + Repeat(names[v], |pos| + |neg|), q + [v])
  {
    ParentsOk(rows, deleted, clean, v, pos);
    ParentsOk(rows, deleted, clean, -v, neg);
    var ps, ns := Pick(rows, pos), Pick(rows, neg);
    var g := Group(v, ps + ns);
    forall i | 0 <= i < |g.rows|
      ensures RowOk(g.rows[i], clean)
    {
      assert g.rows[i] == if i < |ps| then ps[i] else ns[i - |ps|];
    }
    assert GroupOk(g, |clean| - 1);
    forall m | 0 <= m < |log|
      ensures Avoids(g.rows, log[m].pivot)
    {
      assert clean[log[m].pivot];
    }
    FlatSnoc(log, g, names);
  }

  lemma RenameConcat(x: seq<Row>, y: seq<Row>, names: seq<int>)
    ensures RenameRows(x + y, names) == RenameRows(x, names) + RenameRows(y, names)
  {
  }

  lemma FlagsStep(rows: seq<Row>, r: Row)
    ensures AllClauses(rows + [r]) <==> AllClauses(rows) && r.degree == 1
    ensures HasTightTail(rows + [r]) <==> HasTightTail(rows) || r.degree >= |r.lits| - 1
  {
    assert forall k :: 0 <= k < |rows| ==> (rows + [r])[k] == rows[k];
    assert (rows + [r])[|rows|] == r;
  }

  ghost predicate RowsOk(rows: seq<Row>, clean: seq<bool>) {
    forall i :: 0 <= i < |rows| ==> RowOk(rows[i], clean)
  }

  ghost predicate FilterOf(ids: seq<int>, occ: seq<int>, deleted: seq<bool>) {
    forall i :: i in ids <==> i in occ && 0 <= i < |deleted| && !deleted[i]
  }

  lemma FilterStep(ids: seq<int>, occ: seq<int>, j: nat, deleted: seq<bool>)
    requires j < |occ| && Increasing(occ) && Ids(occ, |deleted|)
    requires FilterOf(ids, occ[..j], deleted) && Increasing(ids)
    ensures var ids' := if deleted[occ[j]] then ids else ids + [occ[j]];
      FilterOf(ids', occ[..j + 1], deleted) && Increasing(ids')
  {
    assert occ[..j + 1] == occ[..j] + [occ[j]];
    forall k | 0 <= k < |ids|
      ensures ids[k] < occ[j]
    {
      assert ids[k] in ids;
    }
  }

  lemma RowsOne(r: Row, a: Assignment)
    ensures RowsSat([r], a) <==> RowSat(r, a)
  {
    assert [r][0] == r;
  }

  lemma FilterExact(rows: seq<Row>, deleted: seq<bool>, l: int, occ: seq<int>, ids: seq<int>)
    requires |rows| == |deleted| && OccursExactly(rows, deleted, l, occ)
    requires FilterOf(ids, occ, deleted)
    ensures ExactlyLive(rows, deleted, l, ids)
  {
    forall j | 0 <= j < |ids|
      ensures 0 <= ids[j] < |rows| && !deleted[ids[j]] && l in rows[ids[j]].lits
    {
      assert ids[j] in ids;
    }
  }

  // Resolvents of the pairs before (i, j), in the order of the nested loops.
  ghost predicate ResolventsUpTo(ps: seq<Row>, ns: seq<Row>, v: int, i: int, j: int, a: Assignment) {
    forall x, y :: 0 <= x < |ps| && 0 <= y < |ns| && (x < i || (x == i && y < j)) ==>
      ResolventHolds(ps[x], ns[y], v, a)
  }

  // The resolvent of the two rows can be built and is not contradictory.
  ghost predicate Resolvable(p: Row, n: Row, v: int) {
    && !((p.degree > 1 || n.degree > 1) && Overlap(p, n, v))
    && exists a :: ResolventHolds(p, n, v, a)
  }

  ghost predicate AllResolvable(ps: seq<Row>, ns: seq<Row>, v: int) {
    forall i, j :: 0 <= i < |ps| && 0 <= j < |ns| ==> Resolvable(ps[i], ns[j], v)
  }

  // The pairs that come before (i, j).
  ghost predicate ResolvableUpTo(ps: seq<Row>, ns: seq<Row>, v: int, i: int, j: int) {
    forall k, m :: 0 <= k < |ps| && 0 <= m < |ns| && (k < i || (k == i && m < j)) ==> Resolvable(ps[k], ns[m], v)
  }

  lemma {:induction false} AllTrue(lits: seq<int>, a: Assignment)
    requires forall i :: 0 <= i < |lits| ==> Holds(lits[i], a)
    ensures Count(lits, a) == |lits|
  {
    if lits != [] {
      AllTrue(lits[..|lits| - 1], a);
    }
  }

  // What was built is not contradictory.
  lemma BuiltResolvable(outcome: Outcome, r: Row, p: Row, n: Row, v: int, vars: int)
    requires outcome == Shared <==> (p.degree > 1 || n.degree > 1) && Overlap(p, n, v)
    requires outcome == Tautology ==> forall a :: ResolventHolds(p, n, v, a)
    requires outcome == Infeasible ==> forall a :: !ResolventHolds(p, n, v, a)
    requires outcome == Resolved ==> ResolventOf(r, p, n, v, vars)
    ensures outcome == Resolved || outcome == Tautology <==> Resolvable(p, n, v)
  {
    var a: Assignment := x => x in r.lits;
    if outcome == Resolved {
      forall i | 0 <= i < |r.lits|
        ensures Holds(r.lits[i], a)
      {
        NotBoth(r.lits, r.lits[i]);
      }
      AllTrue(r.lits, a);
      assert RowSat(r, a);
      assert ResolventHolds(p, n, v, a);
    } else if outcome == Tautology {
      assert ResolventHolds(p, n, v, a);
    }
  }

  ghost predicate ResolventOk(r: Row, v: int, clean: seq<bool>) {
    RowOk(r, clean) && forall l :: l in r.lits ==> Abs(l) != v
  }

  ghost predicate GeneratedOk(generated: seq<Row>, ps: seq<Row>, ns: seq<Row>, v: int, clean: seq<bool>, i: int, j: int) {
    && (forall a :: RowsSat(generated, a) <==> ResolventsUpTo(ps, ns, v, i, j, a))
    && (forall k :: 0 <= k < |generated| ==> ResolventOk(generated[k], v, clean))
    && |generated| <= i * |ns| + j
  }

  lemma GeneratedStep(generated: seq<Row>, ps: seq<Row>, ns: seq<Row>, v: int, clean: seq<bool>, i: nat, j: nat,
                      kept: bool, r: Row)
    requires i < |ps| && j < |ns| && GeneratedOk(generated, ps, ns, v, clean, i, j)
    requires RowOk(ps[i], clean) && RowOk(ns[j], clean)
    requires kept ==> ResolventOf(r, ps[i], ns[j], v, |clean| - 1)
    requires !kept ==> forall a :: ResolventHolds(ps[i], ns[j], v, a)
    ensures GeneratedOk(if kept then generated + [r] else generated, ps, ns, v, clean, i, j + 1)
  {
    var g := if kept then generated + [r] else generated;
    forall a: Assignment
      ensures RowsSat(g, a) <==> ResolventsUpTo(ps, ns, v, i, j + 1, a)
    {
      UpToNext(ps, ns, v, i, j, a);
      if kept {
        RowsConcat(generated, [r], a);
        RowsOne(r, a);
      }
    }
    if kept {
      ResolventOfOk(r, ps[i], ns[j], v, clean);
    }
  }

  lemma UpToNext(ps: seq<Row>, ns: seq<Row>, v: int, i: nat, j: nat, a: Assignment)
    requires i < |ps| && j < |ns|
    ensures ResolventsUpTo(ps, ns, v, i, j + 1, a) <==>
      ResolventsUpTo(ps, ns, v, i, j, a) && ResolventHolds(ps[i], ns[j], v, a)
  {
  }

  lemma ResolventOfOk(r: Row, p: Row, n: Row, v: int, clean: seq<bool>)
    requires RowOk(p, clean) && RowOk(n, clean) && ResolventOf(r, p, n, v, |clean| - 1)
    ensures ResolventOk(r, v, clean)
  {
    forall j | 0 <= j < |r.lits|
      ensures !clean[Abs(r.lits[j])]
    {
      assert r.lits[j] in r.lits;
    }
  }

  // All pairs before (i, j) are resolved, or some pair cannot be.
  ghost predicate Generating(outcome: Outcome, generated: seq<Row>, ps: seq<Row>, ns: seq<Row>, v: int, clean: seq<bool>,
                             i: int, j: int) {
    true == (
      match outcome
      case Resolved => GeneratedOk(generated, ps, ns, v, clean, i, j) && ResolvableUpTo(ps, ns, v, i, j)
      case Infeasible => !AllResolvable(ps, ns, v) && forall a :: !AllResolventsHold(ps, ns, v, a)
      case Shared => !AllResolvable(ps, ns, v)
      case Tautology => false)
  }

  lemma GeneratedStart(ps: seq<Row>, ns: seq<Row>, v: int, clean: seq<bool>)
    ensures Generating(Resolved, [], ps, ns, v, clean, 0, 0)
  {
  }

  lemma GeneratedEnd(outcome: Outcome, generated: seq<Row>, ps: seq<Row>, ns: seq<Row>, v: int, clean: seq<bool>, i: nat)
    requires Generating(outcome, generated, ps, ns, v, clean, i, 0) && (outcome == Resolved ==> i == |ps|)
    ensures outcome != Tautology && (outcome == Resolved <==> AllResolvable(ps, ns, v))
    ensures outcome == Resolved ==> GeneratedOk(generated, ps, ns, v, clean, |ps|, 0)
    ensures outcome == Infeasible ==> forall a :: !AllResolventsHold(ps, ns, v, a)
  {
  }

  lemma PairStep(outcome: Outcome, r: Row, generated: seq<Row>, ps: seq<Row>, ns: seq<Row>, v: int, clean: seq<bool>,
                 i: nat, j: nat)
    requires i < |ps| && j < |ns| && RowOk(ps[i], clean) && RowOk(ns[j], clean)
    requires Generating(Resolved, generated, ps, ns, v, clean, i, j)
    requires outcome == Shared <==> (ps[i].degree > 1 || ns[j].degree > 1) && Overlap(ps[i], ns[j], v)
    requires outcome == Tautology ==> forall a :: ResolventHolds(ps[i], ns[j], v, a)
    requires outcome == Infeasible ==> forall a :: !ResolventHolds(ps[i], ns[j], v, a)
    requires outcome == Resolved ==> ResolventOf(r, ps[i], ns[j], v, |clean| - 1)
    ensures Generating(if outcome == Tautology then Resolved else outcome,
                       if outcome == Resolved then generated + [r] else generated, ps, ns, v, clean, i, j + 1)
  {
    BuiltResolvable(outcome, r, ps[i], ns[j], v, |clean| - 1);
    if outcome == Resolved || outcome == Tautology {
      GeneratedStep(generated, ps, ns, v, clean, i, j, outcome == Resolved, r);
    }
  }

  lemma GeneratedNext(outcome: Outcome, generated: seq<Row>, ps: seq<Row>, ns: seq<Row>, v: int, clean: seq<bool>, i: nat, j: nat)
    requires Generating(outcome, generated, ps, ns, v, clean, i, j) && (outcome == Resolved ==> j == |ns|)
    ensures Generating(outcome, generated, ps, ns, v, clean, i + 1, 0)
  {
    if outcome == Resolved {
      forall a: Assignment
        ensures ResolventsUpTo(ps, ns, v, i, |ns|, a) <==> ResolventsUpTo(ps, ns, v, i + 1, 0, a)
      {
      }
      assert (i + 1) * |ns| == i * |ns| + |ns|;
    }
  }

  // The counters of the literals in `lits` have changed by `delta`.
  ghost predicate Counted(p: seq<int>, n: seq<int>, p': seq<int>, n': seq<int>, lits: seq<int>, delta: int) {
    && |p| == |n| == |p'| == |n'|
    && forall x {:trigger At(p', n', x)} {:trigger At(p, n, x)} :: 1 <= Abs(x) < |p| ==> At(p', n', x) == At(p, n, x) + (if x in lits then delta else 0)
  }

  lemma CountedStep(p: seq<int>, n: seq<int>, p': seq<int>, n': seq<int>, p'': seq<int>, n'': seq<int>,
                    lits: seq<int>, l: int, delta: int)
    requires l !in lits
    requires Counted(p, n, p', n', lits, delta) && Counted(p', n', p'', n'', [l], delta)
    ensures Counted(p, n, p'', n'', lits + [l], delta)
  {
  }

  lemma OccurExtend(rows: seq<Row>, deleted: seq<bool>, clean: seq<bool>, p: seq<seq<int>>, n: seq<seq<int>>,
                    r: Row, p': seq<seq<int>>, n': seq<seq<int>>)
    requires |rows| == |deleted| && OccurOk(rows, deleted, clean, p, n)
    requires Listed(p, n, p', n', r.lits, |rows|)
    ensures OccurOk(rows + [r], deleted + [false], clean, p', n')
  {
    forall l | 1 <= Abs(l) < |clean|
      ensures var o := At(p', n', l);
        Increasing(o) && Ids(o, |rows| + 1) &&
        (!clean[Abs(l)] ==> OccursExactly(rows + [r], deleted + [false], l, o))
    {
      var o, o' := At(p, n, l), At(p', n', l);
      assert forall j :: 0 <= j < |o| ==> o'[j] == o[j];
      if !clean[Abs(l)] {
        assert OccursExactly(rows, deleted, l, o);
        forall i | 0 <= i <= |rows| && !(deleted + [false])[i] && l in (rows + [r])[i].lits
          ensures i in o'
        {
          if i < |rows| {
            assert i in o;
          }
        }
      }
    }
  }

  lemma CountsExtend(rows: seq<Row>, deleted: seq<bool>, p: seq<int>, n: seq<int>, r: Row, p': seq<int>, n': seq<int>)
    requires |rows| == |deleted| && CountsOk(rows, deleted, p, n)
    requires Counted(p, n, p', n', r.lits, 1)
    ensures CountsOk(rows + [r], deleted + [false], p', n')
  {
    forall l | 1 <= Abs(l) < |p|
      ensures At(p', n', l) == LiveCount(rows + [r], deleted + [false], l)
    {
      LiveCountSnoc(rows, deleted, r, false, l);
    }
  }

  lemma CountsRemove(rows: seq<Row>, deleted: seq<bool>, id: nat, p: seq<int>, n: seq<int>, p': seq<int>, n': seq<int>)
    requires |rows| == |deleted| && id < |rows| && !deleted[id] && CountsOk(rows, deleted, p, n)
    requires Counted(p, n, p', n', rows[id].lits, -1)
    ensures CountsOk(rows, deleted[id := true], p', n')
  {
    forall l | 1 <= Abs(l) < |p|
      ensures At(p', n', l) == LiveCount(rows, deleted[id := true], l)
    {
      LiveCountUpdate(rows, deleted, id, rows[id], true, l);
      assert rows[id := rows[id]] == rows;
    }
  }

  // What the resolvent under construction keeps.
  ghost predicate PartialOk(out: seq<int>, pivot: int, vars: int) {
    VarsIn(out, vars) && DistinctVars(out) && forall l :: l in out ==> Abs(l) != pivot
  }

  // `out'` is `out` followed by `lits` without its pivot, up to repeats.
  ghost predicate Merged(out: seq<int>, lits: seq<int>, pivot: int, clauses: bool, out': seq<int>) {
    if clauses then forall l :: l in out' <==> l in out || (l in lits && Abs(l) != pivot)
    else out' == out + Keep(lits, {pivot})
  }

  // A literal of `lits` other than the pivot meets its complement, or for
  // cardinality rows its variable.
  ghost predicate Clash(out: seq<int>, lits: seq<int>, pivot: int, clauses: bool) {
    exists l :: l in lits && Abs(l) != pivot && l != 0 && (-l in out || (!clauses && l in out))
  }

  // Two clauses clash in a second variable.
  ghost predicate Opposed(p: Row, n: Row, v: int) {
    exists l :: l in p.lits && Abs(l) != v && -l in n.lits
  }

  // Two rows share a second variable.
  ghost predicate Overlap(p: Row, n: Row, v: int) {
    exists l :: l in p.lits && Abs(l) != v && (l in n.lits || -l in n.lits)
  }

  lemma MergedMembers(first: seq<int>, lits: seq<int>, v: int, clauses: bool)
    requires Merged([], lits, v, clauses, first)
    ensures forall l :: l in first <==> l in lits && Abs(l) != v
  {
    KeepMembers(lits, {v});
    if !clauses {
      assert first == Keep(lits, {v});
    }
  }

  lemma ClashGives(first: seq<int>, p: Row, n: Row, v: int, clauses: bool)
    requires Clash(first, n.lits, v, clauses)
    requires forall l :: l in first <==> l in p.lits && Abs(l) != v
    ensures if clauses then Opposed(p, n, v) else Overlap(p, n, v)
  {
    var l :| l in n.lits && Abs(l) != v && l != 0 && (-l in first || (!clauses && l in first));
    var k := if -l in first then -l else l;
    assert k in p.lits && Abs(k) != v && (k == l || -k == l);
  }

  lemma GivesClash(first: seq<int>, p: Row, n: Row, v: int, clauses: bool, vars: int)
    requires if clauses then Opposed(p, n, v) else Overlap(p, n, v)
    requires forall l :: l in first <==> l in p.lits && Abs(l) != v
    requires VarsIn(n.lits, vars)
    ensures Clash(first, n.lits, v, clauses)
  {
    if clauses {
      var l :| l in p.lits && Abs(l) != v && -l in n.lits;
      assert -l in n.lits && Abs(-l) != v && -l != 0 && -(-l) in first;
    } else {
      var l :| l in p.lits && Abs(l) != v && (l in n.lits || -l in n.lits);
      if l in n.lits {
        assert l in n.lits && Abs(l) != v && l != 0 && l in first;
      } else {
        assert -l in n.lits && Abs(-l) != v && -l != 0 && -(-l) in first;
      }
    }
  }

  // Meeting while merging means that the parents clash or overlap.
  lemma ClashMeans(first: seq<int>, p: Row, n: Row, v: int, clauses: bool, vars: int)
    requires Merged([], p.lits, v, clauses, first) && VarsIn(n.lits, vars)
    ensures Clash(first, n.lits, v, clauses) <==> if clauses then Opposed(p, n, v) else Overlap(p, n, v)
  {
    MergedMembers(first, p.lits, v, clauses);
    if Clash(first, n.lits, v, clauses) {
      ClashGives(first, p, n, v, clauses);
    } else if if clauses then Opposed(p, n, v) else Overlap(p, n, v) {
      GivesClash(first, p, n, v, clauses, vars);
    }
  }

  lemma DistinctParts(first: seq<int>, second: seq<int>, l: int)
    requires DistinctVars(first + second) && l in second
    ensures l !in first && -l !in first
  {
    var both := first + second;
    var j :| 0 <= j < |second| && second[j] == l;
    forall i | 0 <= i < |first|
      ensures Abs(first[i]) != Abs(l)
    {
      assert both[i] == first[i] && both[|first| + j] == l;
    }
  }

  lemma NoClash(out: seq<int>, lits: seq<int>, pivot: int, clauses: bool, out': seq<int>)
    requires Merged(out, lits, pivot, clauses, out') && DistinctVars(out')
    ensures !Clash(out, lits, pivot, clauses)
  {
    KeepMembers(lits, {pivot});
    forall l | l in lits && Abs(l) != pivot && l != 0
      ensures -l !in out && (clauses || l !in out)
    {
      if clauses {
        NotBoth(out', l);
      } else {
        DistinctParts(out, Keep(lits, {pivot}), l);
      }
    }
  }

  ghost predicate ResolventOf(out: Row, p: Row, n: Row, pivot: int, vars: int) {
    && (forall a :: RowSat(out, a) <==> ResolventHolds(p, n, pivot, a))
    && 1 <= out.degree <= |out.lits| && PartialOk(out.lits, pivot, vars)
    && forall l :: l in out.lits ==> l in p.lits || l in n.lits
  }

  // The state after merging the first j literals, or after an early exit.
  ghost predicate MergeState(outcome: Outcome, marks: seq<int>, out: seq<int>, lits: seq<int>, j: int,
                             pivot: int, clauses: bool, out': seq<int>) {
    true == (
      match outcome
      case Resolved =>
        && MarksAre(marks, out') && PartialOk(out', pivot, |marks| - 1)
        && 0 <= j <= |lits| && Merged(out, lits[..j], pivot, clauses, out')
      case Tautology => MarksAre(marks, []) && clauses && Clash(out, lits, pivot, true)
      case Shared => MarksAre(marks, []) && !clauses && Clash(out, lits, pivot, false)
      case Infeasible => false)
  }

  lemma MergeStep(out: seq<int>, lits: seq<int>, j: nat, pivot: int, clauses: bool, out': seq<int>)
    requires j < |lits| && Merged(out, lits[..j], pivot, clauses, out')
    ensures var l := lits[j];
      Merged(out, lits[..j + 1], pivot, clauses,
             if Abs(l) == pivot || (clauses && l in out') then out' else out' + [l])
  {
    var l := lits[j];
    assert lits[..j + 1] == lits[..j] + [l];
    if !clauses {
      KeepSnoc(lits[..j], l, {pivot});
    }
  }

  // What has been merged is old or an earlier literal.
  lemma MergedFrom(out: seq<int>, lits: seq<int>, pivot: int, clauses: bool, out': seq<int>, l: int)
    requires Merged(out, lits, pivot, clauses, out') && l in out'
    ensures l in out || l in lits
  {
    if !clauses {
      KeepMembers(lits, {pivot});
    }
  }

  lemma MergeClash(out: seq<int>, lits: seq<int>, j: nat, pivot: int, clauses: bool, out': seq<int>)
    requires j < |lits| && Merged(out, lits[..j], pivot, clauses, out') && DistinctVars(lits)
    requires Abs(lits[j]) != pivot && lits[j] != 0
    ensures -lits[j] in out' || (!clauses && lits[j] in out') ==> Clash(out, lits, pivot, clauses)
  {
    var l := lits[j];
    assert l in lits && l !in lits[..j] && -l !in lits[..j];
    if -l in out' {
      MergedFrom(out, lits[..j], pivot, clauses, out', -l);
    }
    if l in out' {
      MergedFrom(out, lits[..j], pivot, clauses, out', l);
    }
  }

  // One literal merged, as the loop over a parent sees it.
  lemma MergeNext(outcome: Outcome, marks: seq<int>, out: seq<int>, lits: seq<int>, j: nat, pivot: int, clauses: bool,
                  before: seq<int>, out': seq<int>)
    requires j < |lits| && lits[j] != 0 && DistinctVars(lits) && Merged(out, lits[..j], pivot, clauses, before)
    requires outcome != Infeasible
    requires outcome == Resolved ==> MarksAre(marks, out') && PartialOk(out', pivot, |marks| - 1)
    requires outcome == Resolved ==>
      out' == if Abs(lits[j]) == pivot || (clauses && lits[j] in before) then before else before + [lits[j]]
    requires outcome != Resolved ==> MarksAre(marks, []) && Abs(lits[j]) != pivot
    requires outcome == Tautology ==> clauses && -lits[j] in before
    requires outcome == Shared ==> !clauses && (lits[j] in before || -lits[j] in before)
    ensures MergeState(outcome, marks, out, lits, j + 1, pivot, clauses, out')
  {
    MergeStep(out, lits, j, pivot, clauses, before);
    if outcome != Resolved {
      MergeClash(out, lits, j, pivot, clauses, before);
    }
  }

  lemma MarkOf(marks: seq<int>, out: seq<int>, l: int)
    requires MarksAre(marks, out) && 1 <= Abs(l) < |marks|
    ensures -1 <= marks[Abs(l)] <= 1
    ensures marks[Abs(l)] == 0 <==> l !in out && -l !in out
    ensures marks[Abs(l)] == Sign(l) ==> l in out
    ensures marks[Abs(l)] == -Sign(l) ==> -l in out
    ensures l in out && -l !in out ==> marks[Abs(l)] == Sign(l)
  {
    var x: int := Abs(l);
    assert marks[x] == Mark(out, x);
    if l > 0 {
      assert l == x;
    } else {
      assert l == -x;
    }
  }

  lemma MarksPush(marks: seq<int>, out: seq<int>, l: int)
    requires MarksAre(marks, out) && 1 <= Abs(l) < |marks| && marks[Abs(l)] == 0
    ensures l !in out && -l !in out
    ensures MarksAre(marks[Abs(l) := Sign(l)], out + [l])
  {
    MarkOf(marks, out, l);
    var out', marks' := out + [l], marks[Abs(l) := Sign(l)];
    forall x | 1 <= x < |marks|
      ensures marks'[x] == Mark(out', x)
    {
      assert x in out' <==> x in out || x == l;
      assert -x in out' <==> -x in out || -x == l;
    }
  }

  lemma {:induction false} TrueLiteral(lits: seq<int>, a: Assignment) returns (l: int)
    requires Count(lits, a) >= 1
    ensures l in lits && Holds(l, a)
  {
    var n := |lits| - 1;
    if Holds(lits[n], a) {
      l := lits[n];
    } else {
      l := TrueLiteral(lits[..n], a);
    }
  }

  lemma ResidualMember(r: Row, v: int, l: int)
    ensures l in Residual(r, v) <==> l in r.lits && Abs(l) != v
  {
    KeepMembers(r.lits, {v});
  }

  lemma MergedClause(lits: seq<int>, p: Row, n: Row, v: int, a: Assignment)
    requires p.degree == 1 && n.degree == 1
    requires forall l :: l in lits <==> (l in p.lits || l in n.lits) && Abs(l) != v
    ensures Count(lits, a) >= 1 <==> ResolventHolds(p, n, v, a)
  {
    if Count(lits, a) >= 1 {
      var l := TrueLiteral(lits, a);
      ResidualMember(p, v, l);
      ResidualMember(n, v, l);
      if l in p.lits {
        HeldCounts(Residual(p, v), l, a);
      } else {
        HeldCounts(Residual(n, v), l, a);
      }
    } else if ResolventHolds(p, n, v, a) {
      var r := if Count(Residual(p, v), a) >= 1 then p else n;
      var l := TrueLiteral(Residual(r, v), a);
      ResidualMember(r, v, l);
      HeldCounts(lits, l, a);
    }
  }

  lemma ResolventRow(first: seq<int>, lits: seq<int>, p: Row, n: Row, v: int)
    requires p.degree >= 1 && n.degree >= 1
    requires var clauses := p.degree == 1 && n.degree == 1;
      Merged([], p.lits, v, clauses, first) && Merged(first, n.lits, v, clauses, lits)
    ensures forall a :: RowSat(Row(lits, p.degree + n.degree - 1), a) <==> ResolventHolds(p, n, v, a)
    ensures forall l :: l in lits ==> l in p.lits || l in n.lits
    ensures p.degree + n.degree - 1 > |lits| ==> forall a :: !ResolventHolds(p, n, v, a)
  {
    if !(p.degree == 1 && n.degree == 1) {
      assert [] + Residual(p, v) == Residual(p, v);
    }
    forall a: Assignment
      ensures RowSat(Row(lits, p.degree + n.degree - 1), a) <==> ResolventHolds(p, n, v, a)
    {
      if p.degree == 1 && n.degree == 1 {
        MergedClause(lits, p, n, v, a);
      } else {
        CountConcat(Residual(p, v), Residual(n, v), a);
      }
    }
    forall a: Assignment
      ensures Count(lits, a) <= |lits|
    {
      CountBound(lits, a);
    }
    KeepMembers(p.lits, {v});
    KeepMembers(n.lits, {v});
  }

  // Two complementary literals in the residuals satisfy a clause resolvent.
  lemma ClashHolds(out: seq<int>, p: Row, n: Row, v: int, lits: seq<int>)
    requires p.degree == 1 && n.degree == 1
    requires lits == p.lits || lits == n.lits
    requires Clash(out, lits, v, true) && forall l :: l in out ==> l in p.lits
    ensures forall a :: ResolventHolds(p, n, v, a)
  {
    var l :| l in lits && Abs(l) != v && l != 0 && -l in out;
    forall a: Assignment
      ensures ResolventHolds(p, n, v, a)
    {
      var k := if Holds(l, a) then l else -l;
      ResidualMember(p, v, k);
      ResidualMember(n, v, k);
      if k in p.lits {
        HeldCounts(Residual(p, v), k, a);
      } else {
        HeldCounts(Residual(n, v), k, a);
      }
    }
  }
}
