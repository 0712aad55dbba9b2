/** The preprocessing pipeline and the recovery of a full model. */
module Preprocess {
  import opened Knf
  import opened Elimination
  import opened RecoveryLog
  import opened Relabel
  import opened Recovery
  import opened UnitRows
  import opened UnitPropagation
  import opened ResolutionPass
  import opened SignedUnionFind
  import opened BinaryPass
  import opened Stages

  // read_file: a missing degree means a plain clause.
  function WithDegrees(rows: seq<Row>): seq<Row> {
    seq(|rows|, i requires 0 <= i < |rows| =>
      if rows[i].degree == 0 then Row(rows[i].lits, 1) else rows[i])
  }

  // What the input file asks for: of each row as many different literals as
  // its degree says, and one if it says nothing.
  ghost predicate Meets(rows: seq<Row>, a: Assignment) {
    forall i :: 0 <= i < |rows| ==> |TrueLits(rows[i].lits, a)| >= if rows[i].degree == 0 then 1 else rows[i].degree
  }

  lemma InputMeans(rows: seq<Row>, a: Assignment)
    ensures InputSat(WithDegrees(rows), a) <==> forall i :: 0 <= i < |rows| ==>
      Count(Dedup(rows[i].lits), a) >= if rows[i].degree == 0 then 1 else rows[i].degree
    ensures InputSat(WithDegrees(rows), a) <==> Meets(rows, a)
  {
    var input := WithDegrees(rows);
    forall i | 0 <= i < |rows|
      ensures RowSat(DedupRows(input)[i], a) <==> Count(Dedup(rows[i].lits), a) >= if rows[i].degree == 0 then 1 else rows[i].degree
      ensures Count(Dedup(rows[i].lits), a) == |TrueLits(rows[i].lits, a)|
    {
      DedupCounts(rows[i].lits, a);
    }
    assert |DedupRows(input)| == |rows|;
  }

  ghost predicate RowsFine(rows: seq<Row>, vars: int) {
    forall i :: 0 <= i < |rows| ==> RowFine(rows[i], vars)
  }

  lemma RenamedFine(rows: seq<Row>, color: seq<int>, from: seq<int>)
    requires Inverse(color, from) && |color| >= 1 && RowsFine(rows, |color| - 1) && RowsNamed(rows, color)
    ensures RowsFine(RenameRows(rows, color), |from| - 1)
  {
    forall i | 0 <= i < |rows|
      ensures RowFine(RenameRows(rows, color)[i], |from| - 1)
    {
      var lits, lits' := rows[i].lits, Rename(rows[i].lits, color);
      assert RowFine(rows[i], |color| - 1) && Named(lits, color);
      forall j | 0 <= j < |lits|
        ensures Abs(lits'[j]) == color[Abs(lits[j])] && 1 <= Abs(lits'[j]) < |from| && from[Abs(lits'[j])] == Abs(lits[j])
      {
        assert lits'[j] == Name(color, lits[j]);
      }
    }
  }

  lemma LiveRowsFine(rows: seq<Row>, deleted: seq<bool>, vars: int)
    requires LiveFine(rows, deleted, vars)
    ensures RowsFine(LiveRows(rows, deleted), vars)
  {
    LiveRowsFrom(rows, deleted);
    var live := LiveRows(rows, deleted);
    forall k | 0 <= k < |live|
      ensures RowFine(live[k], vars)
    {
      assert live[k] in live;
    }
  }

  // The log in the flat vectors, on names of original variables that the
  // maps mark as eliminated.
  ghost predicate LogKept(log: seq<Group>, names: seq<int>, size: int, resRows: seq<Row>, resOwner: seq<int>, resolution: seq<int>) {
    && |names| >= 1 && LogOk(log, |names| - 1) && NamesOk(names, size)
    && resRows == FlatRows(log, names) && resOwner == FlatOwners(log, names)
    && resolution == PivotNames(log, names)
  }

  function PivotNames(log: seq<Group>, names: seq<int>): seq<int> {
    seq(|log|, k requires 0 <= k < |log| => Name(names, log[k].pivot))
  }

  ghost predicate PivotsCleared(log: seq<Group>, names: seq<int>, mapto: seq<int>, mapval: seq<int>) {
    forall k :: 0 <= k < |log| && 0 <= Name(names, log[k].pivot) < |mapto| == |mapval| ==>
      mapto[Name(names, log[k].pivot)] == 0 && mapval[Name(names, log[k].pivot)] == -10
  }

  class Preprocessor {
    const orivars: nat
    ghost const input: seq<Row>
    var vars: nat
    var rows: seq<Row>
    var mapto: seq<int>
    var mapval: seq<int>
    var mapfrom: seq<int>
    var resRows: seq<Row>
    var resOwner: seq<int>
    var resolution: seq<int>
    ghost var log: seq<Group>

    ghost predicate Loaded()
      reads this
    {
      && vars == orivars && rows == input
      && (forall i :: 0 <= i < |input| ==> VarsIn(input[i].lits, vars) && input[i].degree >= 1)
      && |mapto| == |mapval| == orivars + 1
      && (forall i :: 0 <= i <= orivars ==> mapto[i] == i && mapval[i] == 0)
      && resRows == [] && resOwner == [] && resolution == [] && log == []
    }

    // read_file and preprocess_init
    constructor (rows: seq<Row>, vars: nat)
      requires forall i :: 0 <= i < |rows| ==> VarsIn(rows[i].lits, vars) && rows[i].degree >= 0
      ensures Loaded() && input == WithDegrees(rows) && orivars == vars
    {
      orivars := vars;
      input := WithDegrees(rows);
      this.vars, this.rows := vars, WithDegrees(rows);
      mapto, mapval := seq(vars + 1, i => i), Repeat(0, vars + 1);
      mapfrom, resRows, resOwner, resolution, log := [], [], [], [], [];
    }

    // do_preprocess: 20 if the input has no model, else 0.
    method DoPreprocess() returns (code: int)
      requires Loaded()
      modifies this
      ensures code == 0 || code == 20
      ensures code == 0 ==> Staged()
      ensures code == 20 ==> forall m :: !InputSat(input, m)
    {
      var ok := PreprocessUp();
      if !ok {
        return 20;
      }
      ghost var settled := rows;
      ghost var names := mapfrom;
      ok := PreprocessResolution();
      if !ok {
        assert forall m :: InputSat(input, m) ==> RowsSat(settled, Through(names, m));
        return 20;
      }
      ok := PreprocessBinary();
      code := if ok then 0 else 20;
    }

    // satisfied_with
    method SatisfiedWith(r: Row, pivot: int, value: int) returns (b: bool)
      requires VarsIn(r.lits, |mapval| - 1) && 0 <= pivot < |mapval|
      ensures b <==> ValueCount(r.lits, mapval[pivot := value]) >= r.degree
    {
      var trueLits := 0;
      for j := 0 to |r.lits|
        invariant trueLits == ValueCount(r.lits[..j], mapval[pivot := value])
      {
        assert r.lits[..j + 1][..j] == r.lits[..j];
        var lit := r.lits[j];
        var v: int := Abs(lit);
        var cur := if v == pivot then value else mapval[v];
        if cur == Sign(lit) {
          trueLits := trueLits + 1;
        }
      }
      assert r.lits[..|r.lits|] == r.lits;
      b := trueLits >= r.degree;
    }

    // clauses_with_pivot_satisfied
    method ClausesWithPivotSatisfied(pivot: int, value: int, first: nat, last: nat) returns (b: bool)
      requires first <= last <= |resRows| && 0 <= pivot < |mapval|
      requires StoredIn(resRows, |mapval|)
      ensures b <==> RowsSatisfiedWith(resRows[first..last], mapval[pivot := value])
    {
      b := true;
      var cid := first;
      while b && cid < last
        invariant first <= cid <= last
        invariant b ==> forall i :: first <= i < cid ==> ValueCount(resRows[i].lits, mapval[pivot := value]) >= resRows[i].degree
        invariant !b ==> exists i :: first <= i < last && ValueCount(resRows[i].lits, mapval[pivot := value]) < resRows[i].degree
      {
        b := SatisfiedWith(resRows[cid], pivot, value);
        cid := cid + 1;
      }
      if !b {
        var i :| first <= i < last && ValueCount(resRows[i].lits, mapval[pivot := value]) < resRows[i].degree;
        assert resRows[first..last][i - first] == resRows[i];
      }
    }

    // The first loop: forget the marks of eliminated variables.
    method ForgetEliminated() returns (r: nat)
      requires |mapto| == |mapval| == orivars + 1
      requires forall i :: 0 <= i <= orivars && (i == 0 || mapto[i] != 0) ==> -1 <= mapval[i] <= 1
      modifies this`mapval
      ensures mapval == Cleared(old(mapval))
      ensures r == 0 ==> mapval == old(mapval)
    {
      r := 0;
      var i := 1;
      while i <= orivars
        invariant 1 <= i <= orivars + 1 && |mapval| == orivars + 1
        invariant forall k :: 0 <= k <= orivars ==> mapval[k] == if k < i then Cleared(old(mapval))[k] else old(mapval)[k]
        invariant r == 0 ==> mapval == old(mapval)
      {
        if mapto[i] == 0 && mapval[i] != 0 && Abs(mapval[i]) != 1 {
          mapval, r := mapval[i := 0], r + 1;
        }
        i := i + 1;
      }
    }

    // The rows owned by v at the end of what is left.
    method GroupStart(v: int, last: nat) returns (first: nat)
      requires last <= |resOwner|
      ensures first <= last && forall i :: first <= i < last ==> resOwner[i] == v
      ensures first > 0 ==> resOwner[first - 1] != v
    {
      first := last;
      while first >= 1 && resOwner[first - 1] == v
        invariant first <= last && forall i :: first <= i < last ==> resOwner[i] == v
      {
        first := first - 1;
      }
    }

    // One turn of the replay: the value of the pivot that its rows allow.
    method ReplayPivot(v: int, first: nat, last: nat) returns (ok: bool)
      requires first <= last <= |resRows| && 0 <= v < |mapval| && StoredIn(resRows, |mapval|)
      modifies this`mapval
      ensures |mapval| == |old(mapval)|
      ensures var group := resRows[first..last];
        if RowsSatisfiedWith(group, old(mapval)[v := 1]) then ok && mapval == old(mapval)[v := 1]
        else if RowsSatisfiedWith(group, old(mapval)[v := -1]) then ok && mapval == old(mapval)[v := -1]
        else !ok
    {
      ok := ClausesWithPivotSatisfied(v, 1, first, last);
      if ok {
        mapval := mapval[v := 1];
      } else {
        ok := ClausesWithPivotSatisfied(v, -1, first, last);
        if ok {
          mapval := mapval[v := -1];
        }
      }
    }

    // The turn for the last group of the log that is left: its rows are those
    // owned by the pivot, and its value is the one that replay chooses.
    method ReplayGroup(v: int, last: nat, ghost left: seq<Group>) returns (ok: bool, first: nat)
      requires Unplayed(left, mapfrom, |mapval|, resRows, resOwner, last) && |left| >= 1
      requires v == Name(mapfrom, left[|left| - 1].pivot)
      modifies this`mapval
      ensures |mapval| == |old(mapval)|
      ensures ok ==> first <= last && Unplayed(left[..|left| - 1], mapfrom, |mapval|, resRows, resOwner, first)
      ensures NamedReplay(left, mapfrom, old(mapval)) ==
        if ok then NamedReplay(left[..|left| - 1], mapfrom, mapval) else None
    {
      first := GroupStart(v, last);
      ScanFound(left, mapfrom, |mapval|, resRows, resOwner, v, first, last);
      ReplayUnfold(left, mapfrom, mapval);
      ok := first < last;
      if ok {
        ok := ReplayPivot(v, first, last);
      }
    }

    // The backward loop over the log.
    method ReplayLog() returns (ok: bool)
      requires |mapval| == orivars + 1 && LogKept(log, mapfrom, |mapval|, resRows, resOwner, resolution)
      modifies this`mapval
      ensures ok <==> NamedReplay(log, mapfrom, old(mapval)).Some?
      ensures ok ==> mapval == NamedReplay(log, mapfrom, old(mapval)).value
    {
      AllUnplayed(log, mapfrom, |mapval|);
      var last, ii := |resRows|, |resolution|;
      ghost var left := log;
      ok := true;
      while ii >= 1
        invariant ok && 0 <= ii == |left| <= |resolution| && resolution[..ii] == PivotNames(left, mapfrom)
        invariant 0 <= last && Unplayed(left, mapfrom, |mapval|, resRows, resOwner, last)
        invariant NamedReplay(log, mapfrom, old(mapval)) == NamedReplay(left, mapfrom, mapval)
      {
        PivotLast(left, mapfrom, resolution, ii);
        ok, last := ReplayGroup(resolution[ii - 1], last, left);
        if !ok {
          return;
        }
        ii, left := ii - 1, left[..ii - 1];
      }
      ok := last == 0;
    }

    // get_complete_model
    method GetCompleteModel() returns (ok: bool)
      requires |mapto| == |mapval| == orivars + 1
      requires forall i :: 0 <= i <= orivars && (i == 0 || mapto[i] != 0) ==> -1 <= mapval[i] <= 1
      requires LogKept(log, mapfrom, orivars + 1, resRows, resOwner, resolution)
      requires PivotsCleared(log, mapfrom, mapto, mapval)
      modifies this`mapval
      ensures ok <==> NamedReplay(log, mapfrom, Cleared(old(mapval))).Some?
      ensures ok ==> mapval == NamedReplay(log, mapfrom, Cleared(old(mapval))).value
    {
      ok := true;
      var r := ForgetEliminated();
      if r > 0 {
        ok := ReplayLog();
      } else if log != [] {
        PivotMarked(log, mapfrom, mapto, mapval);
      }
    }

    // The loop of build_model that reads the solution of the current rows.
    method FillMapped(soln: seq<int>)
      requires |soln| == vars + 1 && |mapto| == orivars + 1 && MapsOk(mapto, mapval, vars)
      modifies this`mapval
      ensures mapval == Filled(mapto, old(mapval), SolutionOf(soln))
    {
      var i := 1;
      while i <= orivars
        invariant 1 <= i <= orivars + 1 && |mapval| == orivars + 1
        invariant forall k :: 0 <= k <= orivars ==>
          mapval[k] == if k < i then Filled(mapto, old(mapval), SolutionOf(soln))[k] else old(mapval)[k]
      {
        if mapto[i] != 0 {
          mapval := mapval[i := (if soln[Abs(mapto[i])] > 0 then 1 else -1) * Sign(mapto[i])];
        }
        i := i + 1;
      }
    }

    // build_model: never fails on a solution of the preprocessed rows, and
    // ends with a full model of the input.
    method BuildModel(soln: seq<int>) returns (ok: bool, model: seq<int>)
      requires Staged() && |soln| == vars + 1
      modifies this`mapval
      ensures RowsSat(rows, SolutionOf(soln)) ==> ok && |model| == orivars + 1 && FullModel(input, model)
      ensures ok ==> |model| == orivars + 1 && forall i :: 1 <= i <= orivars ==> model[i] == 1 || model[i] == -1
    {
      FillMapped(soln);
      ok := CompleteFilled(old(mapval), SolutionOf(soln));
      model := [];
      if ok {
        ok, model := CopyModel();
        assert ok ==> model == mapval;
      }
    }

    method CompleteFilled(ghost before: seq<int>, ghost a: Assignment) returns (ok: bool)
      requires Stage(input, rows, vars, mapto, before, log, mapfrom) && |before| == orivars + 1 && before[0] == 0
      requires LogKept(log, mapfrom, orivars + 1, resRows, resOwner, resolution)
      requires PivotsCleared(log, mapfrom, mapto, before)
      requires mapval == Filled(mapto, before, a)
      modifies this`mapval
      ensures ok ==> |mapval| == orivars + 1 && mapval[0] == 0
      ensures RowsSat(rows, a) ==> ok && FullModel(input, mapval)
    {
      FilledSigns(mapto, mapval, a);
      ok := GetCompleteModel();
      if ok {
        ReplayKeepsZero(log, mapfrom, Cleared(old(mapval)));
      }
    }

    method CopyModel() returns (ok: bool, model: seq<int>)
      requires |mapval| == orivars + 1
      ensures ok <==> forall i :: 1 <= i <= orivars ==> mapval[i] == 1 || mapval[i] == -1
      ensures ok ==> |model| == orivars + 1 && model[0] == 0 && model[1..] == mapval[1..]
    {
      model, ok := Repeat(0, orivars + 1), true;
      var i := 1;
      while i <= orivars && ok
        invariant 1 <= i <= orivars + 1 && |model| == orivars + 1 && model[0] == 0
        invariant ok ==> forall k :: 1 <= k < i ==> model[k] == mapval[k] && (mapval[k] == 1 || mapval[k] == -1)
        invariant !ok ==> exists k :: 1 <= k <= orivars && !(mapval[k] == 1 || mapval[k] == -1)
      {
        if Abs(mapval[i]) != 1 {
          ok := false;
        } else {
          model := model[i := mapval[i]];
        }
        i := i + 1;
      }
    }

    method PreprocessUp() returns (ok: bool)
      requires Loaded()
      modifies this`vars, this`rows, this`mapto, this`mapval, this`mapfrom
      ensures ok ==> UpStage(input, rows, mapto, mapval, mapfrom)
      ensures ok ==> |mapfrom| == vars + 1 && |mapto| == orivars + 1 && RowsFine(rows, vars)
      ensures !ok ==> forall a :: !InputSat(input, a)
    {
      var up := new Propagator(vars, rows);
      ok := up.Run();
      if ok {
        SettledFine(up.rows, up.deleted, up.varval);
        var rows', color, vars';
        ghost var from;
        rows', color, vars', from := UpdateVarClauseLabel(up.rows, up.deleted, vars);
        LiveRowsFine(up.rows, up.deleted, vars);
        RenamedFine(LiveRows(up.rows, up.deleted), color, from);
        StoreUnits(up.q, up.varval);
        NameOriginals(color, vars', from);
        UpMapsHold(mapto, mapval, mapfrom, color, up.varval);
        UpRecovers(input, up.rows, up.deleted, up.varval, color, mapfrom, mapto, mapval);
        rows, vars := rows', vars';
      }
    }

    // What holds between passes once elimination has run.
    ghost predicate Staged()
      reads this
    {
      && Stage(input, rows, vars, mapto, mapval, log, mapfrom) && RowsFine(rows, vars)
      && |mapto| == orivars + 1 && mapval[0] == 0
      && LogKept(log, mapfrom, orivars + 1, resRows, resOwner, resolution)
      && PivotsCleared(log, mapfrom, mapto, mapval)
    }

    method RunResolver() returns (ok: bool, changed: bool, pass: Resolver)
      requires UpMaps(mapto, mapval, mapfrom) && |mapfrom| == vars + 1 && RowsFine(rows, vars)
      ensures ok ==> Retired(pass.log, pass.pures, pass.clean, pass.rows, pass.deleted)
      ensures ok ==> RecoversAll(rows, pass.log, pass.pures, pass.rows, pass.deleted)
      ensures ok ==> PuresStored(pass.pures, mapfrom, mapval, mapto, pass.mapval, pass.mapto)
      ensures ok ==> |pass.clean| == vars + 1 && LogStored(pass.log, mapfrom, pass.clean, pass.resRows, pass.resOwner, pass.q)
      ensures !ok ==> forall a :: !RowsSat(rows, a)
    {
      FineRowsOk(rows, vars);
      pass := new Resolver(vars, rows, mapfrom, mapval, mapto);
      ghost var trace;
      ok, changed, trace := pass.Run();
    }

    method PreprocessResolution() returns (ok: bool)
      requires UpStage(input, rows, mapto, mapval, mapfrom)
      requires |mapfrom| == vars + 1 && |mapto| == orivars + 1 && RowsFine(rows, vars)
      requires resRows == [] && resOwner == [] && resolution == [] && log == []
      modifies this`vars, this`rows, this`mapto, this`mapval, this`resRows, this`resOwner, this`resolution, this`log
      ensures ok ==> Staged()
      ensures !ok ==> forall a :: !RowsSat(old(rows), a)
    {
      var changed, pass;
      ok, changed, pass := RunResolver();
      if ok && !changed {
        NamesDistinct(mapto, mapfrom);
        UpIsStage(input, rows, mapto, mapval, mapfrom);
      } else if ok {
        mapto, mapval := pass.mapto, pass.mapval;
        resRows, resOwner, log := pass.resRows, pass.resOwner, pass.log;
        FinishResolution(pass.rows, pass.deleted, pass.q, old(mapto), old(mapval), pass.pures, pass.clean);
      }
    }

    // The end of the pass, when it changed something.
    method FinishResolution(live: seq<Row>, deleted: seq<bool>, q: seq<int>, ghost mapto0: seq<int>, ghost mapval0: seq<int>,
                            ghost pures: seq<Pure>, ghost clean: seq<bool>)
      requires UpStage(input, rows, mapto0, mapval0, mapfrom) && |clean| == |mapfrom| == vars + 1 && |mapto0| == orivars + 1
      requires Retired(log, pures, clean, live, deleted) && RecoversAll(rows, log, pures, live, deleted)
      requires PuresStored(pures, mapfrom, mapval0, mapto0, mapval, mapto)
      requires LogStored(log, mapfrom, clean, resRows, resOwner, q) && resolution == []
      modifies this`vars, this`rows, this`mapto, this`mapval, this`resolution
      ensures Staged()
    {
      NamesDistinct(mapto0, mapfrom);
      RetirePivots(q);
      MidMapsHold(mapto0, mapval0, mapfrom, log, pures, clean, mapto, mapval);
      RelabelResolved(live, deleted, mapto0, mapval0, pures, clean);
    }

    method RelabelResolved(live: seq<Row>, deleted: seq<bool>, ghost mapto0: seq<int>, ghost mapval0: seq<int>,
                           ghost pures: seq<Pure>, ghost clean: seq<bool>)
      requires UpStage(input, rows, mapto0, mapval0, mapfrom) && |clean| == |mapfrom| == vars + 1 && |mapto0| == orivars + 1
      requires Retired(log, pures, clean, live, deleted) && RecoversAll(rows, log, pures, live, deleted)
      requires MidMaps(mapto0, mapval0, mapfrom, log, pures, mapto, mapval)
      requires LogKept(log, mapfrom, orivars + 1, resRows, resOwner, resolution)
      modifies this`vars, this`rows, this`mapto, this`mapval
      ensures Staged()
    {
      LiveOkFine(live, deleted, clean);
      var rows', color, vars';
      ghost var from;
      rows', color, vars', from := UpdateVarClauseLabel(live, deleted, vars);
      RecolorOriginals(color);
      LiveRowsFine(live, deleted, vars);
      RenamedFine(LiveRows(live, deleted), color, from);
      ResolvedEntries(mapto0, mapval0, mapfrom, log, pures, color, old(mapto), old(mapval), mapto, mapval);
      ResolutionRecovers(input, rows, mapto0, mapval0, mapfrom, log, pures, clean, live, deleted, color, from, mapto, mapval);
      PivotEntries(mapto0, mapval0, mapfrom, log, pures, color, mapto, mapval);
      rows, vars := rows', vars';
    }

    // Eliminated variables get the mark that replay looks for.
    method RetirePivots(q: seq<int>)
      requires |mapto| == |mapval| == orivars + 1 && resolution == [] && |mapfrom| >= 1
      requires LogOk(log, |mapfrom| - 1) && NamesOk(mapfrom, orivars + 1) && q == Pivots(log)
      modifies this`mapto, this`mapval, this`resolution
      ensures resolution == PivotNames(log, mapfrom)
      ensures RetiredFrom(log, mapfrom, old(mapto), old(mapval), mapto, mapval)
    {
      var i := 0;
      while i < |q|
        invariant 0 <= i <= |q|
        invariant resolution == PivotNames(log[..i], mapfrom)
        invariant RetiredFrom(log[..i], mapfrom, old(mapto), old(mapval), mapto, mapval)
      {
        assert GroupOk(log[i], |mapfrom| - 1);
        var v := mapfrom[q[i]];
        RetireStep(log, mapfrom, old(mapto), old(mapval), mapto, mapval, i);
        resolution := resolution + [v];
        mapto, mapval := mapto[v := 0], mapval[v := -10];
        i := i + 1;
      }
      assert log[..|log|] == log;
    }

    // The last loop: new names, and a value for variables left without one.
    method RecolorOriginals(color: seq<int>)
      requires |mapto| == |mapval| == orivars + 1
      requires forall i :: 1 <= i <= orivars ==> 0 <= mapto[i] < |color|
      modifies this`mapto, this`mapval
      ensures Recolored(color, old(mapto), old(mapval), mapto, mapval)
    {
      var i := 1;
      while i <= orivars
        invariant 1 <= i <= orivars + 1 && |mapto| == |mapval| == orivars + 1
        invariant mapto[0] == old(mapto)[0] && mapval[0] == old(mapval)[0]
        invariant Recolored(color, old(mapto)[..i], old(mapval)[..i], mapto[..i], mapval[..i])
        invariant forall k :: i <= k <= orivars ==> mapto[k] == old(mapto)[k] && mapval[k] == old(mapval)[k]
      {
        if mapto[i] != 0 {
          mapto := mapto[i := color[mapto[i]]];
        }
        if mapto[i] == 0 && mapval[i] == 0 {
          mapval := mapval[i := 1];
        }
        i := i + 1;
      }
    }

    method PreprocessBinary() returns (ok: bool)
      requires Staged()
      modifies this`vars, this`rows, this`mapto, this`mapval
      ensures ok ==> Staged()
      ensures !ok ==> forall a :: !RowsSat(old(rows), a)
    {
      var pass := new Binary(rows, vars);
      var changed;
      ghost var trace;
      ok, changed, trace := pass.Run();
      if ok && changed {
        RelabelMerged(pass);
      }
    }

    method RelabelMerged(pass: Binary)
      requires Staged() && pass.Valid() && LiveRooted(pass.rows, pass.deleted, pass.uf.rep, pass.uf.varval)
      requires pass.original == rows && pass.vars == vars
      modifies this`vars, this`rows, this`mapto, this`mapval, pass.uf.f, pass.uf.val
      ensures Staged()
    {
      LiveFineIn(pass.rows, pass.deleted, vars);
      var rows', color, vars';
      ghost var from;
      rows', color, vars', from := UpdateVarClauseLabel(pass.rows, pass.deleted, vars);
      ghost var rep, par, fixed := pass.uf.rep, pass.uf.par, pass.uf.varval;
      ghost var live, deleted := pass.rows, pass.deleted;
      MergeOriginals(pass.uf, color);
      LiveRowsFine(live, deleted, vars);
      RenamedFine(LiveRows(live, deleted), color, from);
      BinaryRecovers(input, rows, old(mapto), old(mapval), log, mapfrom, live, deleted, rep, par, fixed, color, from, mapto, mapval);
      rows, vars := rows', vars';
    }

    method MergedEntry(uf: UnionFind, color: seq<int>, before: int) returns (to: int, value: int)
      requires uf.Valid() && |color| == uf.vars + 1 && 1 <= Abs(before) <= uf.vars
      modifies uf.f, uf.val
      ensures uf.Valid() && BinaryEntry(before, uf.rep, uf.par, uf.varval, color, to, value)
    {
      var root := uf.Find(Abs(before));
      var orientation := Sign(before) * uf.val[Abs(before)];
      if uf.varval[root] != 0 {
        to, value := 0, orientation * uf.varval[root];
      } else if color[root] != 0 {
        to, value := orientation * color[root], 0;
      } else {
        to, value := 0, orientation;
      }
    }

    // The last loop of the pass: through the root to its new name or value.
    method MergeOriginals(uf: UnionFind, color: seq<int>)
      requires uf.Valid() && |color| == uf.vars + 1 && MapsOk(mapto, mapval, uf.vars) && |mapto| == orivars + 1
      modifies this`mapto, this`mapval, uf.f, uf.val
      ensures BinaryMaps(old(mapto), old(mapval), uf.rep, uf.par, uf.varval, color, mapto, mapval)
    {
      var original := 1;
      while original <= orivars
        invariant 1 <= original <= orivars + 1 && |mapto| == |mapval| == orivars + 1 && uf.Valid()
        invariant BinaryMaps(old(mapto)[..original], old(mapval)[..original], uf.rep, uf.par, uf.varval, color,
                             mapto[..original], mapval[..original])
        invariant forall k :: original <= k <= orivars ==> mapto[k] == old(mapto)[k] && mapval[k] == old(mapval)[k]
      {
        if mapto[original] != 0 {
          var to, value := MergedEntry(uf, color, mapto[original]);
          mapto, mapval := mapto[original := to], mapval[original := value];
        }
        original := original + 1;
      }
      assert mapto[..original] == mapto && mapval[..original] == mapval;
      assert old(mapto)[..original] == old(mapto) && old(mapval)[..original] == old(mapval);
    }

    // mapval of the queued variables
    method StoreUnits(q: seq<int>, varval: seq<int>)
      requires |mapval| == orivars + 1 == |varval| && UnitPropagation.QueueOk(q, varval)
      requires forall i :: 0 <= i <= orivars ==> mapval[i] == 0
      modifies this`mapval
      ensures mapval == varval
    {
      var i := 0;
      while i < |q|
        invariant 0 <= i <= |q| && |mapval| == orivars + 1
        invariant forall v :: 0 <= v <= orivars ==> mapval[v] == if v in q[..i] then varval[v] else 0
      {
        assert q[..i + 1] == q[..i] + [q[i]];
        assert q[i] in q;
        mapval := mapval[q[i] := varval[q[i]]];
        i := i + 1;
      }
      assert q[..i] == q;
    }

    // mapto and mapfrom of the variables that are left, a value for the rest
    method NameOriginals(color: seq<int>, vars': nat, ghost from: seq<int>)
      requires |mapval| == |mapto| == orivars + 1 == |color|
      requires |from| == vars' + 1 && Inverse(color, from)
      modifies this`mapto, this`mapval, this`mapfrom
      ensures |mapval| == |mapto| == orivars + 1 && mapto[0] == old(mapto)[0] && mapval[0] == old(mapval)[0]
      ensures |mapfrom| == vars' + 1 && Inverse(color, mapfrom)
      ensures forall i :: 1 <= i <= orivars ==>
        && mapto[i] == color[i]
        && mapval[i] == if color[i] == 0 && old(mapval)[i] == 0 then 1 else old(mapval)[i]
    {
      mapfrom := Repeat(0, vars' + 1);
      var i := 1;
      while i <= orivars
        invariant 1 <= i <= orivars + 1 && |mapval| == |mapto| == orivars + 1
        invariant mapto[0] == old(mapto)[0] && mapval[0] == old(mapval)[0]
        invariant |mapfrom| == vars' + 1
        invariant forall c :: 1 <= c <= vars' && from[c] < i ==> mapfrom[c] == from[c]
        invariant forall k :: 1 <= k < i ==>
          && mapto[k] == color[k]
          && mapval[k] == if color[k] == 0 && old(mapval)[k] == 0 then 1 else old(mapval)[k]
        invariant forall k :: i <= k <= orivars ==> mapval[k] == old(mapval)[k]
      {
        if color[i] != 0 {
          mapto := mapto[i := color[i]];
          mapfrom := mapfrom[color[i] := i];
        } else if mapval[i] == 0 {
          mapto, mapval := mapto[i := 0], mapval[i := 1];
        } else {
          mapto := mapto[i := 0];
        }
        i := i + 1;
      }
    }
  }

  lemma SettledFine(rows: seq<Row>, deleted: seq<bool>, varval: seq<int>)
    requires |rows| == |deleted| && forall i :: 0 <= i < |rows| && !deleted[i] ==> Settled(rows[i], varval)
    ensures LiveFine(rows, deleted, |varval| - 1) && LiveVarsIn(rows, deleted, |varval| - 1)
  {
    forall i | 0 <= i < |rows| && !deleted[i]
      ensures RowFine(rows[i], |varval| - 1)
    {
      assert Settled(rows[i], varval);
    }
  }

  lemma UpMapsHold(mapto: seq<int>, mapval: seq<int>, names: seq<int>, color: seq<int>, varval: seq<int>)
    requires |mapto| == |mapval| == |color| == |varval| >= 1 && |names| >= 1 && ValuesOk(varval)
    requires Inverse(color, names) && mapto[0] == 0 && mapval[0] == 0
    requires forall i :: 1 <= i < |mapto| ==>
      mapto[i] == color[i] && mapval[i] == if color[i] == 0 && varval[i] == 0 then 1 else varval[i]
    requires forall i :: 1 <= i < |mapto| && color[i] != 0 ==> varval[i] == 0
    ensures UpMaps(mapto, mapval, names)
  {
  }

  // cur_soln of local search, or the values of the CDCL solver.
  function SolutionOf(soln: seq<int>): Assignment {
    x => 0 <= x < |soln| && soln[x] > 0
  }

  ghost predicate StoredIn(rows: seq<Row>, size: int) {
    forall i :: 0 <= i < |rows| ==> VarsIn(rows[i].lits, size - 1)
  }

  lemma {:induction false} StoredInRange(log: seq<Group>, names: seq<int>, size: int)
    requires |names| >= 1 && LogOk(log, |names| - 1) && NamesOk(names, size)
    ensures StoredIn(FlatRows(log, names), size)
  {
    if log != [] {
      var n := |log| - 1;
      LogPrefix(log, |names| - 1);
      StoredInRange(log[..n], names, size);
      assert GroupOk(log[n], |names| - 1);
      forall i, j | 0 <= i < |log[n].rows| && 0 <= j < |log[n].rows[i].lits|
        ensures 1 <= Abs(RenameRows(log[n].rows, names)[i].lits[j]) < size
      {
        var l := log[n].rows[i].lits[j];
        assert 1 <= Abs(l) < |names| && RenameRows(log[n].rows, names)[i].lits[j] == Name(names, l);
      }
    }
  }

  // The first `last` stored rows belong to the groups that are left.
  ghost predicate Unplayed(left: seq<Group>, names: seq<int>, size: int, rows: seq<Row>, owners: seq<int>, last: int) {
    && |names| >= 1 && LogOk(left, |names| - 1) && NamesOk(names, size) && StoredIn(rows, size)
    && 0 <= last <= |rows| == |owners|
    && rows[..last] == FlatRows(left, names) && owners[..last] == FlatOwners(left, names)
  }

  lemma AllUnplayed(log: seq<Group>, names: seq<int>, size: int)
    requires |names| >= 1 && LogOk(log, |names| - 1) && NamesOk(names, size)
    ensures var rows := FlatRows(log, names);
      Unplayed(log, names, size, rows, FlatOwners(log, names), |rows|)
  {
    StoredInRange(log, names, size);
    FlatLengths(log, names);
    assert FlatRows(log, names)[..|FlatRows(log, names)|] == FlatRows(log, names);
    assert FlatOwners(log, names)[..|FlatRows(log, names)|] == FlatOwners(log, names);
  }

  lemma PivotLast(log: seq<Group>, names: seq<int>, resolution: seq<int>, ii: nat)
    requires 1 <= ii == |log| <= |resolution| && resolution[..ii] == PivotNames(log, names)
    ensures resolution[ii - 1] == Name(names, log[ii - 1].pivot)
    ensures resolution[..ii - 1] == PivotNames(log[..ii - 1], names)
  {
    assert resolution[ii - 1] == resolution[..ii][ii - 1];
    assert resolution[..ii - 1] == resolution[..ii][..ii - 1];
  }

  lemma ReplayUnfold(log: seq<Group>, names: seq<int>, m: seq<int>)
    requires |log| >= 1
    ensures var n := |log| - 1;
      var v, rows := Name(names, log[n].pivot), RenameRows(log[n].rows, names);
      0 <= v < |m| ==>
        NamedReplay(log, names, m) ==
          if RowsSatisfiedWith(rows, m[v := 1]) then NamedReplay(log[..n], names, m[v := 1])
          else if RowsSatisfiedWith(rows, m[v := -1]) then NamedReplay(log[..n], names, m[v := -1])
          else None
  {
  }

  // Scanning back over one owner ends at the start of the last group.
  lemma ScanFound(log: seq<Group>, names: seq<int>, size: int, rows: seq<Row>, owners: seq<int>, v: int, first: nat, last: nat)
    requires Unplayed(log, names, size, rows, owners, last) && |log| >= 1
    requires first <= last && v == Name(names, log[|log| - 1].pivot)
    requires forall i :: first <= i < last ==> owners[i] == v
    requires first > 0 ==> owners[first - 1] != v
    ensures first < last && 1 <= v < size
    ensures rows[first..last] == RenameRows(log[|log| - 1].rows, names)
    ensures Unplayed(log[..|log| - 1], names, size, rows, owners, first)
  {
    var n := |log| - 1;
    var start := |FlatRows(log[..n], names)|;
    LastOwned(log, names, size);
    FlatPrefix(owners, last, FlatOwners(log, names), start);
    FlatPrefix(rows, last, FlatRows(log, names), start);
    ScanUnique(owners, v, start, first, last);
    LogPrefix(log, |names| - 1);
  }

  lemma LastOwned(log: seq<Group>, names: seq<int>, size: int)
    requires |names| >= 1 && LogOk(log, |names| - 1) && NamesOk(names, size) && |log| >= 1
    ensures var n := |log| - 1;
      var start, owners, v := |FlatRows(log[..n], names)|, FlatOwners(log, names), Name(names, log[n].pivot);
      && 1 <= v < size && start < |owners| == |FlatRows(log, names)|
      && (forall i :: start <= i < |owners| ==> owners[i] == v)
      && (start > 0 ==> owners[start - 1] != v)
      && FlatRows(log, names)[..start] == FlatRows(log[..n], names)
      && FlatRows(log, names)[start..] == RenameRows(log[n].rows, names)
      && owners[..start] == FlatOwners(log[..n], names)
  {
    var n := |log| - 1;
    FlatLast(log, names);
    assert GroupOk(log[n], |names| - 1);
    if n >= 1 {
      OwnerBefore(log, names, size);
    }
  }

  lemma FlatPrefix<T>(s: seq<T>, last: nat, flat: seq<T>, start: nat)
    requires last <= |s| && s[..last] == flat && start <= last
    ensures s[..start] == flat[..start] && s[start..last] == flat[start..]
    ensures forall i :: 0 <= i < last ==> s[i] == flat[i]
  {
    assert forall i :: 0 <= i < last ==> s[i] == s[..last][i];
  }

  lemma ScanUnique(owners: seq<int>, v: int, start: nat, first: nat, last: nat)
    requires first <= last <= |owners| && start <= last
    requires forall i :: first <= i < last ==> owners[i] == v
    requires forall i :: start <= i < last ==> owners[i] == v
    requires first > 0 ==> owners[first - 1] != v
    requires start > 0 ==> owners[start - 1] != v
    ensures first == start
  {
  }

  // A variable on the log has a mark, so the log is not skipped.
  lemma PivotMarked(log: seq<Group>, names: seq<int>, mapto: seq<int>, mapval: seq<int>)
    requires log != [] && |names| >= 1 && LogOk(log, |names| - 1) && NamesOk(names, |mapto|) && |mapval| == |mapto|
    requires PivotsCleared(log, names, mapto, mapval)
    ensures mapval != Cleared(mapval)
  {
    assert GroupOk(log[0], |names| - 1);
    var v := names[log[0].pivot];
    assert Name(names, log[0].pivot) == v && mapval[v] == -10;
    assert Cleared(mapval)[v] == 0;
  }

  lemma FilledSigns(mapto: seq<int>, mapval: seq<int>, a: Assignment)
    requires |mapto| == |mapval|
    ensures forall i :: 0 <= i < |mapto| && mapto[i] != 0 ==> Filled(mapto, mapval, a)[i] == 1 || Filled(mapto, mapval, a)[i] == -1
    ensures forall i :: 0 <= i < |mapto| && mapto[i] == 0 ==> Filled(mapto, mapval, a)[i] == mapval[i]
  {
  }

  lemma {:induction false} ReplayKeepsZero(log: seq<Group>, names: seq<int>, m: seq<int>)
    requires |names| >= 1 && LogOk(log, |names| - 1) && NamesOk(names, |m|) && |m| >= 1
    requires NamedReplay(log, names, m).Some?
    ensures |NamedReplay(log, names, m).value| == |m| && NamedReplay(log, names, m).value[0] == m[0]
    decreases |log|
  {
    if log != [] {
      var n := |log| - 1;
      LogPrefix(log, |names| - 1);
      assert GroupOk(log[n], |names| - 1);
      var v := Name(names, log[n].pivot);
      if RowsSatisfiedWith(RenameRows(log[n].rows, names), m[v := 1]) {
        ReplayKeepsZero(log[..n], names, m[v := 1]);
      } else {
        ReplayKeepsZero(log[..n], names, m[v := -1]);
      }
    }
  }

  // Between passes: the current rows are satisfiable iff the input is.
  lemma SameSatisfiability(input: seq<Row>, rows: seq<Row>, vars: int, mapto: seq<int>, mapval: seq<int>,
                           log: seq<Group>, names: seq<int>)
    requires Stage(input, rows, vars, mapto, mapval, log, names)
    ensures (exists m :: InputSat(input, m)) <==> (exists a :: RowsSat(rows, a))
  {
    if a :| RowsSat(rows, a) {
      assert RecoversModel(input, log, names, Cleared(Filled(mapto, mapval, a)));
      assert InputSat(input, Values(NamedReplay(log, names, Cleared(Filled(mapto, mapval, a))).value));
    }
  }

  lemma LiveFineIn(rows: seq<Row>, deleted: seq<bool>, vars: int)
    requires LiveFine(rows, deleted, vars)
    ensures LiveVarsIn(rows, deleted, vars)
  {
    forall i | 0 <= i < |rows| && !deleted[i]
      ensures VarsIn(rows[i].lits, vars)
    {
      assert RowFine(rows[i], vars);
    }
  }

  lemma FineRowsOk(rows: seq<Row>, vars: nat)
    requires RowsFine(rows, vars)
    ensures RowsOk(rows, NoneDeleted(vars + 1))
  {
    forall i | 0 <= i < |rows|
      ensures RowOk(rows[i], NoneDeleted(vars + 1))
    {
      assert RowFine(rows[i], vars);
    }
  }

  lemma LiveOkFine(rows: seq<Row>, deleted: seq<bool>, clean: seq<bool>)
    requires LiveRowsOk(rows, deleted, clean)
    ensures LiveFine(rows, deleted, |clean| - 1) && LiveVarsIn(rows, deleted, |clean| - 1)
  {
    forall i | 0 <= i < |rows| && !deleted[i]
      ensures RowFine(rows[i], |clean| - 1)
    {
      assert RowOk(rows[i], clean);
    }
  }

  ghost predicate RetiredFrom(log: seq<Group>, names: seq<int>, mapto: seq<int>, mapval: seq<int>,
                              mapto': seq<int>, mapval': seq<int>) {
    && |mapto'| == |mapto| && |mapval'| == |mapval| == |mapto|
    && (forall k :: 0 <= k < |log| && 0 <= Name(names, log[k].pivot) < |mapto| ==>
          mapto'[Name(names, log[k].pivot)] == 0 && mapval'[Name(names, log[k].pivot)] == -10)
    && forall i :: 0 <= i < |mapto| && i !in PivotNames(log, names) ==> mapto'[i] == mapto[i] && mapval'[i] == mapval[i]
  }

  lemma RetireStep(log: seq<Group>, names: seq<int>, mapto0: seq<int>, mapval0: seq<int>,
                   mapto: seq<int>, mapval: seq<int>, i: nat)
    requires i < |log| && |names| >= 1 && LogOk(log, |names| - 1) && NamesOk(names, |mapto0|)
    requires RetiredFrom(log[..i], names, mapto0, mapval0, mapto, mapval)
    ensures var v := names[log[i].pivot];
      && 1 <= v < |mapto| && v == Name(names, log[i].pivot)
      && RetiredFrom(log[..i + 1], names, mapto0, mapval0, mapto[v := 0], mapval[v := -10])
      && PivotNames(log[..i + 1], names) == PivotNames(log[..i], names) + [v]
  {
    assert GroupOk(log[i], |names| - 1);
    var v := names[log[i].pivot];
    assert PivotNames(log[..i + 1], names) == PivotNames(log[..i], names) + [v];
    assert log[..i + 1] == log[..i] + [log[i]];
  }

  ghost predicate Recolored(color: seq<int>, mapto: seq<int>, mapval: seq<int>, mapto': seq<int>, mapval': seq<int>) {
    && |mapto| == |mapval| == |mapto'| == |mapval'| >= 1
    && mapto'[0] == mapto[0] && mapval'[0] == mapval[0]
    && forall i :: 1 <= i < |mapto| ==>
         && mapto'[i] == (if 1 <= mapto[i] < |color| then color[mapto[i]] else mapto[i])
         && mapval'[i] == if mapto'[i] == 0 && mapval[i] == 0 then 1 else mapval[i]
  }

  // Storing the pure values, in whatever order, leaves each at its own name.
  lemma {:induction false} StoredAt(mapto: seq<int>, mapval: seq<int>, names: seq<int>, pures: seq<Pure>, log: seq<Group>,
                                    clean: seq<bool>, x: int)
    requires NamesOk(names, |mapto|) && |mapval| == |mapto| && PuresOk(pures, log, clean) && |clean| == |names|
    requires 1 <= x < |names|
    ensures var to, value := StoreZeros(mapto, pures, names)[names[x]], StoreValues(mapval, pures, names)[names[x]];
      if IsPure(pures, x) then to == 0 && PureValue(pures, x, value)
      else to == mapto[names[x]] && value == mapval[names[x]]
  {
    if pures != [] {
      var n := |pures| - 1;
      StoredAt(mapto, mapval, names, pures[..n], log, clean, x);
      assert forall k :: 0 <= k < n ==> pures[..n][k] == pures[k];
      var p := pures[n];
      assert names[p.v] == names[x] <==> p.v == x;
    }
  }

  lemma {:induction false} StoredElsewhere(mapto: seq<int>, mapval: seq<int>, names: seq<int>, pures: seq<Pure>, log: seq<Group>,
                                           clean: seq<bool>, i: int)
    requires |mapval| == |mapto| && PuresOk(pures, log, clean) && |clean| == |names| && 0 <= i < |mapto|
    requires forall x :: 1 <= x < |names| ==> names[x] != i
    ensures StoreZeros(mapto, pures, names)[i] == mapto[i] && StoreValues(mapval, pures, names)[i] == mapval[i]
  {
    if pures != [] {
      StoredElsewhere(mapto, mapval, names, pures[..|pures| - 1], log, clean, i);
    }
  }

  lemma PivotNamed(log: seq<Group>, names: seq<int>, size: int, x: int)
    requires |names| >= 1 && LogOk(log, |names| - 1) && NamesOk(names, size) && 1 <= x < |names|
    ensures names[x] in PivotNames(log, names) <==> IsPivot(log, x)
  {
    if names[x] in PivotNames(log, names) {
      var k :| 0 <= k < |log| && PivotNames(log, names)[k] == names[x];
      assert GroupOk(log[k], |names| - 1);
    }
    if k :| 0 <= k < |log| && log[k].pivot == x {
      assert PivotNames(log, names)[k] == names[x];
    }
  }

  // The maps before the last loop, entry by entry.
  ghost predicate MidMaps(mapto: seq<int>, mapval: seq<int>, names: seq<int>, log: seq<Group>, pures: seq<Pure>,
                          mid: seq<int>, midval: seq<int>) {
    && |mid| == |midval| == |mapto| == |mapval| >= 1
    && (forall i :: 0 <= i < |mapto| && mapto[i] == 0 ==> mid[i] == 0 && midval[i] == mapval[i])
    && forall i :: 1 <= i < |mapto| && mapto[i] != 0 ==> MidEntry(mapto[i], mapval[i], log, pures, mid[i], midval[i])
  }

  ghost predicate MidEntry(x: int, before: int, log: seq<Group>, pures: seq<Pure>, to: int, value: int) {
    if IsPivot(log, x) then to == 0 && value == -10
    else if IsPure(pures, x) then to == 0 && PureValue(pures, x, value) && value != 0
    else to == x && value == before
  }

  lemma MidEntryHolds(mapto: seq<int>, mapval: seq<int>, names: seq<int>, log: seq<Group>, pures: seq<Pure>, clean: seq<bool>,
                      mid: seq<int>, midval: seq<int>, i: int)
    requires UpMaps(mapto, mapval, names) && |clean| == |names|
    requires LogOk(log, |names| - 1) && PuresOk(pures, log, clean)
    requires RetiredFrom(log, names, StoreZeros(mapto, pures, names), StoreValues(mapval, pures, names), mid, midval)
    requires 1 <= i < |mapto| && mapto[i] != 0
    ensures MidEntry(mapto[i], mapval[i], log, pures, mid[i], midval[i])
  {
    var x := mapto[i];
    NamesDistinct(mapto, names);
    StoredAt(mapto, mapval, names, pures, log, clean, x);
    PivotNamed(log, names, |mapto|, x);
    if IsPivot(log, x) {
      var k :| 0 <= k < |log| && log[k].pivot == x;
      assert Name(names, log[k].pivot) == i;
    } else if IsPure(pures, x) {
      var k :| 0 <= k < |pures| && pures[k] == Pure(x, midval[i]);
      PuresNotPivots(pures, log, clean, k);
    }
  }

  lemma MidMapsHold(mapto: seq<int>, mapval: seq<int>, names: seq<int>, log: seq<Group>, pures: seq<Pure>, clean: seq<bool>,
                    mid: seq<int>, midval: seq<int>)
    requires UpMaps(mapto, mapval, names) && |clean| == |names|
    requires LogOk(log, |names| - 1) && PuresOk(pures, log, clean)
    requires RetiredFrom(log, names, StoreZeros(mapto, pures, names), StoreValues(mapval, pures, names), mid, midval)
    ensures MidMaps(mapto, mapval, names, log, pures, mid, midval)
  {
    forall i | 0 <= i < |mapto| && mapto[i] == 0
      ensures mid[i] == 0 && midval[i] == mapval[i]
    {
      forall x | 1 <= x < |names|
        ensures names[x] != i
      {
        assert mapto[names[x]] == x;
      }
      StoredElsewhere(mapto, mapval, names, pures, log, clean, i);
      assert i !in PivotNames(log, names) by {
        assert forall k :: 0 <= k < |log| ==> GroupOk(log[k], |names| - 1);
      }
    }
    forall i | 1 <= i < |mapto| && mapto[i] != 0
      ensures MidEntry(mapto[i], mapval[i], log, pures, mid[i], midval[i])
    {
      MidEntryHolds(mapto, mapval, names, log, pures, clean, mid, midval, i);
    }
  }

  lemma ResolvedEntries(mapto: seq<int>, mapval: seq<int>, names: seq<int>, log: seq<Group>, pures: seq<Pure>,
                        color: seq<int>, mid: seq<int>, midval: seq<int>, mapto': seq<int>, mapval': seq<int>)
    requires UpMaps(mapto, mapval, names) && |names| == |color|
    requires MidMaps(mapto, mapval, names, log, pures, mid, midval)
    requires Recolored(color, mid, midval, mapto', mapval')
    ensures ResolvedMaps(mapto, mapval, names, log, pures, color, mapto', mapval')
  {
    forall i | 1 <= i < |mapto| && 1 <= mapto[i] < |names|
      ensures NewEntry(mapto[i], log, pures, color, mapto'[i], mapval'[i])
    {
      assert MidEntry(mapto[i], mapval[i], log, pures, mid[i], midval[i]);
    }
  }

  lemma PivotEntries(mapto: seq<int>, mapval: seq<int>, names: seq<int>, log: seq<Group>, pures: seq<Pure>,
                     color: seq<int>, mapto': seq<int>, mapval': seq<int>)
    requires UpMaps(mapto, mapval, names) && LogOk(log, |names| - 1)
    requires ResolvedMaps(mapto, mapval, names, log, pures, color, mapto', mapval')
    ensures PivotsCleared(log, names, mapto', mapval')
  {
    forall k | 0 <= k < |log|
      ensures mapto'[Name(names, log[k].pivot)] == 0 && mapval'[Name(names, log[k].pivot)] == -10
    {
      assert GroupOk(log[k], |names| - 1);
      var x := log[k].pivot;
      assert mapto[names[x]] == x && IsPivot(log, x);
      assert NewEntry(x, log, pures, color, mapto'[names[x]], mapval'[names[x]]);
    }
  }
}
