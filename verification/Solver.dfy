/** The run of the solver in local-search mode: preprocess, search, and rebuild
    a model of the input. */
module Solver {
  import opened Knf
  import opened UnitRows
  import opened BinaryPass
  import opened Scores
  import opened SearchState
  import opened Turns
  import opened LocalSearch
  import opened Stages
  import opened Preprocess

  // The limits that the options set.
  datatype Options = Options(preprocessing: bool, attemptNeighbors: bool, budget: nat, maxTries: nat, limits: Limits, initMode: int, backbone: int)

  lemma FineIsPlain(rows: seq<Row>, vars: int)
    requires RowsFine(rows, vars)
    ensures Plain(rows, vars)
  {
    forall c | 0 <= c < |rows|
      ensures DistinctVars(rows[c].lits) && VarsIn(rows[c].lits, vars) && rows[c].degree >= 1 && |rows[c].lits| >= 1
    {
      assert RowFine(rows[c], vars);
    }
  }

  // cur_soln, as 0 and 1.
  function AsNumbers(soln: seq<bool>): seq<int> {
    seq(|soln|, i requires 0 <= i < |soln| => if soln[i] then 1 else 0)
  }

  lemma SameModel(rows: seq<Row>, soln: seq<bool>)
    requires RowsSat(rows, Current(soln))
    ensures RowsSat(rows, SolutionOf(AsNumbers(soln)))
  {
    forall c | 0 <= c < |rows|
      ensures RowSat(rows[c], SolutionOf(AsNumbers(soln)))
    {
      CountAgree(rows[c].lits, Current(soln), SolutionOf(AsNumbers(soln)));
    }
  }

  // Without preprocessing the assignment is the model.
  function AsModel(soln: seq<bool>): seq<int> {
    seq(|soln|, i requires 0 <= i < |soln| => if i == 0 then 0 else if soln[i] then 1 else -1)
  }

  lemma PlainModel(rows: seq<Row>, vars: int, soln: seq<bool>)
    requires Plain(rows, vars) && |soln| == vars + 1 && RowsSat(rows, Current(soln))
    ensures FullModel(rows, AsModel(soln))
  {
    forall c | 0 <= c < |rows|
      ensures RowSat(DedupRows(rows)[c], Values(AsModel(soln)))
    {
      var lits := rows[c].lits;
      forall i, j | 0 <= i < j < |lits|
        ensures lits[i] != lits[j]
      {
        assert Abs(lits[i]) != Abs(lits[j]);
      }
      DedupDistinct(lits);
      CountAgree(lits, Current(soln), Values(AsModel(soln)));
    }
  }

  // Solver::run: 20 means that the input has no model, 10 comes with one.
  // Without preprocessing the rows are searched as they are.
  method Run(rows: seq<Row>, vars: nat, options: Options) returns (code: int, model: seq<int>)
    requires forall i :: 0 <= i < |rows| ==> VarsIn(rows[i].lits, vars) && rows[i].degree >= 0
    requires !options.preprocessing ==> forall i :: 0 <= i < |rows| ==> DistinctVars(rows[i].lits) && rows[i].lits != []
    ensures code == 0 || code == 10 || code == 20
    ensures code == 20 ==> options.preprocessing && forall a :: !Meets(rows, a)
    ensures code == 10 ==> |model| == vars + 1 && (forall v :: 1 <= v <= vars ==> model[v] == 1 || model[v] == -1)
    ensures code == 10 ==> Meets(rows, v => 0 <= v < |model| && model[v] == 1)
  {
    if options.preprocessing {
      code, model := RunPreprocessed(rows, vars, options);
    } else {
      assert Plain(WithDegrees(rows), vars);
      code, model := RunPlain(WithDegrees(rows), vars, options);
    }
    Answered(rows, code, model);
  }

  // In terms of the rows as they were read.
  lemma Answered(rows: seq<Row>, code: int, model: seq<int>)
    requires code == 20 ==> forall m :: !InputSat(WithDegrees(rows), m)
    requires code == 10 ==> FullModel(WithDegrees(rows), model)
    ensures code == 20 ==> forall a :: !Meets(rows, a)
    ensures code == 10 ==> Meets(rows, v => 0 <= v < |model| && model[v] == 1)
  {
    forall a
      ensures InputSat(WithDegrees(rows), a) <==> Meets(rows, a)
    {
      InputMeans(rows, a);
    }
    SameValues(rows, model);
  }

  lemma SameValues(rows: seq<Row>, model: seq<int>)
    ensures Meets(rows, Values(model)) ==> Meets(rows, v => 0 <= v < |model| && model[v] == 1)
  {
    var a: Assignment := v => 0 <= v < |model| && model[v] == 1;
    forall i | 0 <= i < |rows|
      ensures TrueLits(rows[i].lits, a) == TrueLits(rows[i].lits, Values(model))
    {
    }
  }

  method RunPlain(rows: seq<Row>, vars: nat, options: Options) returns (code: int, model: seq<int>)
    requires Plain(rows, vars)
    ensures code == 0 || code == 10
    ensures code == 10 ==> |model| == vars + 1 && FullModel(rows, model)
  {
    model := [];
    var search := new CardSATLS(rows, vars, options.attemptNeighbors, options.budget);
    ghost var attempts;
    code, attempts := search.Solve(options.maxTries, options.limits, options.initMode, options.backbone);
    if code == 10 {
      PlainModel(rows, vars, search.soln);
      model := AsModel(search.soln);
    }
  }

  method RunPreprocessed(rows: seq<Row>, vars: nat, options: Options) returns (code: int, model: seq<int>)
    requires forall i :: 0 <= i < |rows| ==> VarsIn(rows[i].lits, vars) && rows[i].degree >= 0
    ensures code == 0 || code == 10 || code == 20
    ensures code == 20 ==> forall m :: !InputSat(WithDegrees(rows), m)
    ensures code == 10 ==> |model| == vars + 1 && FullModel(WithDegrees(rows), model)
  {
    model := [];
    var pre := new Preprocessor(rows, vars);
    code := pre.DoPreprocess();
    if code == 0 {
      FineIsPlain(pre.rows, pre.vars);
      var search := new CardSATLS(pre.rows, pre.vars, options.attemptNeighbors, options.budget);
      ghost var attempts;
      code, attempts := search.Solve(options.maxTries, options.limits, options.initMode, options.backbone);
      if code == 10 {
        SameModel(pre.rows, search.soln);
        var ok;
        ok, model := pre.BuildModel(AsNumbers(search.soln));
        if !ok {
          code := 0;
        }
      }
    }
  }
}
