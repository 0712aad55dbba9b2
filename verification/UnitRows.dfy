/** What a row means once repeats, complementary pairs and assigned variables
    have been taken out of it. */
module UnitRows {
  import opened Knf
  import opened Elimination

  // Each literal once, in order of first occurrence.
  function Dedup(lits: seq<int>): seq<int> {
    if lits == [] then []
    else
      var rest := Dedup(lits[..|lits| - 1]);
      var l := lits[|lits| - 1];
      if l in rest then rest else rest + [l]
  }

  function DedupRows(rows: seq<Row>): seq<Row> {
    seq(|rows|, i requires 0 <= i < |rows| => Row(Dedup(rows[i].lits), rows[i].degree))
  }

  // An input row counts each of its literals once.
  ghost predicate InputSat(rows: seq<Row>, a: Assignment) {
    RowsSat(DedupRows(rows), a)
  }

  lemma DedupSnoc(lits: seq<int>, l: int)
    ensures Dedup(lits + [l]) == if l in Dedup(lits) then Dedup(lits) else Dedup(lits) + [l]
  {
    assert (lits + [l])[..|lits|] == lits;
  }

  lemma {:induction false} DedupMembers(lits: seq<int>)
    ensures forall l :: l in Dedup(lits) <==> l in lits
  {
    if lits != [] {
      var n := |lits| - 1;
      DedupMembers(lits[..n]);
      assert lits == lits[..n] + [lits[n]];
    }
  }

  // Without repeated literals the input row is the plain row.
  lemma {:induction false} DedupDistinct(lits: seq<int>)
    requires forall i, j :: 0 <= i < j < |lits| ==> lits[i] != lits[j]
    ensures Dedup(lits) == lits
  {
    if lits != [] {
      var n := |lits| - 1;
      DedupDistinct(lits[..n]);
      assert lits == lits[..n] + [lits[n]];
    }
  }

  // The literals that are true, each once.
  function TrueLits(lits: seq<int>, a: Assignment): set<int> {
    set l | l in lits && Holds(l, a)
  }

  // Counting without repeats is counting the set.
  lemma {:induction false} DedupCounts(lits: seq<int>, a: Assignment)
    ensures Count(Dedup(lits), a) == |TrueLits(lits, a)|
  {
    if lits == [] {
      assert TrueLits(lits, a) == {};
    } else {
      var n := |lits| - 1;
      var front, l := lits[..n], lits[n];
      DedupCounts(front, a);
      DedupMembers(front);
      assert lits == front + [l];
      assert forall x :: x in lits <==> x in front || x == l;
      if l in front || !Holds(l, a) {
        assert TrueLits(lits, a) == TrueLits(front, a);
      } else {
        assert TrueLits(lits, a) == TrueLits(front, a) + {l};
      }
      if l !in front {
        CountSnoc(Dedup(front), l, a);
      }
    }
  }

  // The variables that occur in both signs.
  function Paired(lits: seq<int>): set<int> {
    set l | l in lits && -l in lits :: Abs(l) as int
  }

  lemma PairedSnoc(lits: seq<int>, l: int)
    requires l != 0
    ensures Paired(lits + [l]) == if -l in lits then Paired(lits) + {Abs(l) as int} else Paired(lits)
  {
    var p, p' := Paired(lits), Paired(lits + [l]);
    forall v
      ensures v in p' <==> v in p || (-l in lits && v == Abs(l))
    {
      if v in p' {
        var x :| x in lits + [l] && -x in lits + [l] && v == Abs(x);
        assert x in lits || x == l;
      }
      if -l in lits {
        assert l in lits + [l] && -l in lits + [l];
      }
      if v in p {
        var x :| x in lits && -x in lits && v == Abs(x);
        assert x in lits + [l] && -x in lits + [l];
      }
    }
  }

  lemma PairedHas(lits: seq<int>, l: int)
    ensures Abs(l) in Paired(lits) <==> l in lits && -l in lits
  {
    if Abs(l) in Paired(lits) {
      var x :| x in lits && -x in lits && Abs(l) == Abs(x);
      assert x == l || x == -l;
    }
  }

  lemma {:induction false} KeepKeep(lits: seq<int>, s: set<int>, v: int)
    ensures Keep(Keep(lits, s), {v}) == Keep(lits, s + {v})
  {
    if lits != [] {
      var n := |lits| - 1;
      KeepKeep(lits[..n], s, v);
      KeepSnoc(Keep(lits[..n], s), lits[n], {v});
    }
  }

  // A complementary pair contributes exactly one: taking the pairs out lowers
  // the count by their number and leaves distinct variables.
  lemma {:induction false} PairsCountOne(lits: seq<int>, a: Assignment)
    requires forall j :: 0 <= j < |lits| ==> lits[j] != 0
    ensures Count(Dedup(lits), a) == Count(Keep(Dedup(lits), Paired(Dedup(lits))), a) + |Paired(Dedup(lits))|
    ensures DistinctVars(Keep(Dedup(lits), Paired(Dedup(lits))))
  {
    if lits != [] {
      var n := |lits| - 1;
      PairsCountOne(lits[..n], a);
      var d, l := Dedup(lits[..n]), lits[n];
      if l !in d {
        PairsStep(d, l, a);
      }
    }
  }

  lemma PairsStep(d: seq<int>, l: int, a: Assignment)
    requires l != 0 && l !in d
    requires Count(d, a) == Count(Keep(d, Paired(d)), a) + |Paired(d)|
    requires DistinctVars(Keep(d, Paired(d)))
    ensures Count(d + [l], a) == Count(Keep(d + [l], Paired(d + [l])), a) + |Paired(d + [l])|
    ensures DistinctVars(Keep(d + [l], Paired(d + [l])))
  {
    CountSnoc(d, l, a);
    PairedSnoc(d, l);
    PairedHas(d, l);
    if -l in d {
      PairFound(d, l, Paired(d), a);
      assert |Paired(d) + {Abs(l) as int}| == |Paired(d)| + 1;
    } else {
      PairNotFound(d, l, Paired(d), a);
    }
  }

  lemma PairFound(d: seq<int>, l: int, p: set<int>, a: Assignment)
    requires l != 0 && l !in d && -l in d && Abs(l) !in p && DistinctVars(Keep(d, p))
    ensures var k := Keep(d + [l], p + {Abs(l) as int});
      Count(Keep(d, p), a) + ToInt(Holds(l, a)) == Count(k, a) + 1 && DistinctVars(k)
  {
    KeepSnoc(d, l, p + {Abs(l) as int});
    KeepKeep(d, p, Abs(l));
    KeepMembers(d, p);
    CountPivot(Keep(d, p), -l, a);
    KeepDistinct(Keep(d, p), {Abs(l) as int});
  }

  lemma PairNotFound(d: seq<int>, l: int, p: set<int>, a: Assignment)
    requires l !in d && -l !in d && Abs(l) !in p && DistinctVars(Keep(d, p))
    ensures Count(Keep(d + [l], p), a) == Count(Keep(d, p), a) + ToInt(Holds(l, a))
    ensures DistinctVars(Keep(d + [l], p))
  {
    KeepSnoc(d, l, p);
    KeepMember(d, p, l);
    KeepMember(d, p, -l);
    CountSnoc(Keep(d, p), l, a);
    DistinctSnoc(Keep(d, p), l);
  }

  // varval: 0 unassigned, 1 true, -1 false.
  ghost predicate Agrees(varval: seq<int>, a: Assignment) {
    forall v :: 1 <= v < |varval| && varval[v] != 0 ==> a(v) == (varval[v] == 1)
  }

  ghost predicate ValuesOk(varval: seq<int>) {
    |varval| >= 1 && varval[0] == 0 && forall v :: 1 <= v < |varval| ==> -1 <= varval[v] <= 1
  }

  function Assigned(varval: seq<int>): set<int> {
    set v | 1 <= v < |varval| && varval[v] != 0
  }

  // The number of literals that varval makes true.
  function Trues(lits: seq<int>, varval: seq<int>): nat
    requires VarsIn(lits, |varval| - 1)
  {
    if lits == [] then 0
    else
      var l := lits[|lits| - 1];
      Trues(lits[..|lits| - 1], varval) + ToInt(varval[Abs(l)] == Sign(l))
  }

  lemma {:induction false} CountAssigned(lits: seq<int>, varval: seq<int>, a: Assignment)
    requires ValuesOk(varval) && VarsIn(lits, |varval| - 1) && Agrees(varval, a)
    ensures Count(lits, a) == Count(Keep(lits, Assigned(varval)), a) + Trues(lits, varval)
  {
    if lits != [] {
      var n := |lits| - 1;
      CountAssigned(lits[..n], varval, a);
      var l := lits[n];
      KeepSnoc(lits[..n], l, Assigned(varval));
      assert lits[..n] + [l] == lits;
      CountSnoc(Keep(lits[..n], Assigned(varval)), l, a);
      assert 1 <= Abs(l) < |varval|;
    }
  }

  lemma TruesSnoc(lits: seq<int>, l: int, varval: seq<int>)
    requires VarsIn(lits, |varval| - 1) && 1 <= Abs(l) < |varval|
    ensures VarsIn(lits + [l], |varval| - 1)
    ensures Trues(lits + [l], varval) == Trues(lits, varval) + ToInt(varval[Abs(l)] == Sign(l))
  {
    assert (lits + [l])[..|lits|] == lits;
  }

  lemma {:induction false} TruesPrefix(lits: seq<int>, j: nat, varval: seq<int>)
    requires j <= |lits| && VarsIn(lits, |varval| - 1)
    ensures Trues(lits[..j], varval) <= Trues(lits, varval)
  {
    if j < |lits| {
      var n := |lits| - 1;
      TruesPrefix(lits[..n], j, varval);
      assert lits[..n][..j] == lits[..j];
    } else {
      assert lits[..j] == lits;
    }
  }

  // Full count: every literal is true.
  lemma {:induction false} CountFull(lits: seq<int>, a: Assignment)
    ensures Count(lits, a) == |lits| <==> forall j :: 0 <= j < |lits| ==> Holds(lits[j], a)
  {
    if lits != [] {
      var n := |lits| - 1;
      CountFull(lits[..n], a);
      CountBound(lits[..n], a);
      if Count(lits, a) == |lits| {
        forall j | 0 <= j < |lits|
          ensures Holds(lits[j], a)
        {
          if j < n {
            assert lits[..n][j] == lits[j];
          }
        }
      }
    }
  }
}
