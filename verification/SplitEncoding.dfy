/** The split encoding of "at most one literal is false". */
module SplitEncoding {
  import opened Knf
  import opened Clauses

  // At most one of the literals is false.
  ghost predicate AtMostOneFalse(lits: seq<int>, a: Assignment) {
    Count(lits, a) >= |lits| - 1
  }

  // The clauses on the first three literals, and on the first four.
  function Pairs3(x: int, y: int, z: int): seq<seq<int>> {
    [[x, y], [x, z], [y, z]]
  }

  function Pairs4(x: int, y: int, z: int, w: int): seq<seq<int>> {
    Pairs3(x, y, z) + [[x, w], [y, w], [z, w]]
  }

  function Linked(x: int, y: int, z: int, freshVar: int): seq<seq<int>> {
    Pairs3(x, y, z) + [[freshVar, x], [freshVar, y], [freshVar, z]]
  }

  // The proof also gets what the link variable is defined by.
  function LinkDefinition(x: int, y: int, z: int, freshVar: int): seq<seq<int>> {
    [[-freshVar, -x, -y, -z]]
  }

  lemma DefinitionSat(x: int, y: int, z: int, freshVar: int, a: Assignment)
    requires x != 0 && y != 0 && z != 0 && freshVar > 0
    ensures ClausesSat(LinkDefinition(x, y, z, freshVar), a) <==> !(Holds(freshVar, a) && Holds(x, a) && Holds(y, a) && Holds(z, a))
  {
    var c := [-freshVar, -x, -y, -z];
    assert LinkDefinition(x, y, z, freshVar)[0] == c;
    assert c[0] == -freshVar && c[1] == -x && c[2] == -y && c[3] == -z;
  }

  lemma Pairs3Sat(x: int, y: int, z: int, a: Assignment)
    ensures ClausesSat(Pairs3(x, y, z), a) <==>
      (Holds(x, a) || Holds(y, a)) && (Holds(x, a) || Holds(z, a)) && (Holds(y, a) || Holds(z, a))
  {
    TwoLiterals(x, y);
    TwoLiterals(x, z);
    TwoLiterals(y, z);
    var cs := Pairs3(x, y, z);
    assert cs[0] == [x, y] && cs[1] == [x, z] && cs[2] == [y, z];
  }

  lemma ThreeMoreSat(x: int, y: int, z: int, w: int, a: Assignment)
    ensures ClausesSat([[x, w], [y, w], [z, w]], a) <==> Holds(w, a) || (Holds(x, a) && Holds(y, a) && Holds(z, a))
  {
    TwoLiterals(x, w);
    TwoLiterals(y, w);
    TwoLiterals(z, w);
    var cs := [[x, w], [y, w], [z, w]];
    assert cs[0] == [x, w] && cs[1] == [y, w] && cs[2] == [z, w];
  }

  lemma LinkedSat(x: int, y: int, z: int, freshVar: int, a: Assignment)
    ensures ClausesSat(Linked(x, y, z, freshVar), a) <==>
      ClausesSat(Pairs3(x, y, z), a) && (Holds(freshVar, a) || (Holds(x, a) && Holds(y, a) && Holds(z, a)))
  {
    ClausesConcat(Pairs3(x, y, z), [[freshVar, x], [freshVar, y], [freshVar, z]], a);
    TwoLiterals(freshVar, x);
    TwoLiterals(freshVar, y);
    TwoLiterals(freshVar, z);
    var cs := [[freshVar, x], [freshVar, y], [freshVar, z]];
    assert cs[0] == [freshVar, x] && cs[1] == [freshVar, y] && cs[2] == [freshVar, z];
  }

  lemma CountFirst(lits: seq<int>, a: Assignment)
    requires |lits| >= 1
    ensures Count(lits, a) == ToInt(Holds(lits[0], a)) + Count(lits[1..], a)
  {
    assert lits == [lits[0]] + lits[1..];
    CountConcat([lits[0]], lits[1..], a);
    CountSnoc([], lits[0], a);
    assert [] + [lits[0]] == [lits[0]];
  }

  lemma CountThree(lits: seq<int>, a: Assignment)
    requires |lits| >= 3
    ensures Count(lits, a) == ToInt(Holds(lits[0], a)) + ToInt(Holds(lits[1], a)) + ToInt(Holds(lits[2], a)) + Count(lits[3..], a)
  {
    CountFirst(lits, a);
    CountFirst(lits[1..], a);
    CountFirst(lits[2..], a);
    assert lits[1..][1..] == lits[2..] && lits[2..][1..] == lits[3..];
  }

  lemma BaseCases(lits: seq<int>, a: Assignment)
    ensures |lits| == 3 ==> (ClausesSat(Pairs3(lits[0], lits[1], lits[2]), a) <==> AtMostOneFalse(lits, a))
    ensures |lits| == 4 ==> (ClausesSat(Pairs4(lits[0], lits[1], lits[2], lits[3]), a) <==> AtMostOneFalse(lits, a))
  {
    if |lits| == 3 {
      CountThree(lits, a);
      Pairs3Sat(lits[0], lits[1], lits[2], a);
    } else if |lits| == 4 {
      CountThree(lits, a);
      CountFirst(lits[3..], a);
      Pairs3Sat(lits[0], lits[1], lits[2], a);
      ThreeMoreSat(lits[0], lits[1], lits[2], lits[3], a);
      ClausesConcat(Pairs3(lits[0], lits[1], lits[2]), [[lits[0], lits[3]], [lits[1], lits[3]], [lits[2], lits[3]]], a);
    }
  }

  // The clauses say of the literals, over the variables from n on, that at
  // most one of them is false.
  ghost predicate Encodes(cs: seq<seq<int>>, lits: seq<int>, n: int) {
    forall a :: Extends(cs, a, n) <==> AtMostOneFalse(lits, a)
  }

  lemma NothingFresh(cs: seq<seq<int>>, lits: seq<int>, n: int)
    requires Below(lits, n) && forall a :: ClausesSat(cs, a) <==> AtMostOneFalse(lits, a)
    ensures Encodes(cs, lits, n)
  {
    forall a: Assignment
      ensures Extends(cs, a, n) <==> AtMostOneFalse(lits, a)
    {
      if Extends(cs, a, n) {
        var b :| AgreeBelow(a, b, n) && ClausesSat(cs, b);
        CountBelow(lits, a, b, n);
      } else if AtMostOneFalse(lits, a) {
        assert AgreeBelow(a, a, n) && ClausesSat(cs, a);
      }
    }
  }

  lemma HoldsBelow(lits: seq<int>, i: nat, a: Assignment, b: Assignment, n: int)
    requires Below(lits, n) && AgreeBelow(a, b, n) && i < |lits|
    ensures Holds(lits[i], a) == Holds(lits[i], b)
  {
    assert 1 <= Abs(lits[i]) < n;
  }

  // The link: the fresh variable is true when one of the three is false, and
  // its negation takes their place among the rest.
  lemma LinkNeeded(lits: seq<int>, tail: seq<int>, rest: seq<seq<int>>, n: int, a: Assignment, b: Assignment)
    requires |lits| >= 5 && Below(lits, n) && n >= 1 && tail == [-n] + lits[3..] && Encodes(rest, tail, n + 1)
    requires AgreeBelow(a, b, n) && ClausesSat(Linked(lits[0], lits[1], lits[2], n) + rest, b)
    ensures AtMostOneFalse(lits, a)
  {
    var x, y, z := lits[0], lits[1], lits[2];
    CountThree(lits, b);
    CountBelow(lits, a, b, n);
    CountBound(lits[3..], b);
    ClausesConcat(Linked(x, y, z, n), rest, b);
    LinkedSat(x, y, z, n, b);
    Pairs3Sat(x, y, z, b);
    assert AgreeBelow(b, b, n + 1);
    assert Extends(rest, b, n + 1);
    CountFirst(tail, b);
    assert tail[1..] == lits[3..];
  }

  lemma LinkEnough(lits: seq<int>, tail: seq<int>, rest: seq<seq<int>>, n: int, a: Assignment)
    requires |lits| >= 5 && Below(lits, n) && n >= 1 && tail == [-n] + lits[3..] && Encodes(rest, tail, n + 1)
    requires AtMostOneFalse(lits, a)
    ensures Extends(Linked(lits[0], lits[1], lits[2], n) + rest, a, n)
    ensures Extends(Linked(lits[0], lits[1], lits[2], n) + LinkDefinition(lits[0], lits[1], lits[2], n) + rest, a, n)
  {
    var x, y, z := lits[0], lits[1], lits[2];
    var c := Set(a, n, !(Holds(x, a) && Holds(y, a) && Holds(z, a)));
    assert AgreeBelow(a, c, n);
    CountThree(lits, a);
    CountBound(lits[3..], a);
    CountBelow(lits[3..], a, c, n);
    CountFirst(tail, c);
    assert tail[1..] == lits[3..];
    assert AtMostOneFalse(tail, c);
    var b :| AgreeBelow(c, b, n + 1) && ClausesSat(rest, b);
    assert AgreeBelow(a, b, n);
    HoldsBelow(lits, 0, a, b, n);
    HoldsBelow(lits, 1, a, b, n);
    HoldsBelow(lits, 2, a, b, n);
    Pairs3Sat(x, y, z, b);
    LinkedSat(x, y, z, n, b);
    ClausesConcat(Linked(x, y, z, n), rest, b);
    DefinitionSat(x, y, z, n, b);
    ClausesConcat(Linked(x, y, z, n), LinkDefinition(x, y, z, n), b);
    ClausesConcat(Linked(x, y, z, n) + LinkDefinition(x, y, z, n), rest, b);
  }

  // The same with the definition of the link variable.
  lemma LinkDefined(lits: seq<int>, tail: seq<int>, rest: seq<seq<int>>, n: int)
    requires |lits| >= 5 && Below(lits, n) && n >= 1 && tail == [-n] + lits[3..] && Encodes(rest, tail, n + 1)
    ensures Encodes(Linked(lits[0], lits[1], lits[2], n) + LinkDefinition(lits[0], lits[1], lits[2], n) + rest, lits, n)
  {
    var front := Linked(lits[0], lits[1], lits[2], n);
    var def := LinkDefinition(lits[0], lits[1], lits[2], n);
    forall a: Assignment
      ensures Extends(front + def + rest, a, n) <==> AtMostOneFalse(lits, a)
    {
      if Extends(front + def + rest, a, n) {
        var b :| AgreeBelow(a, b, n) && ClausesSat(front + def + rest, b);
        ClausesConcat(front + def, rest, b);
        ClausesConcat(front, def, b);
        ClausesConcat(front, rest, b);
        LinkNeeded(lits, tail, rest, n, a, b);
      }
      if AtMostOneFalse(lits, a) {
        LinkEnough(lits, tail, rest, n, a);
      }
    }
  }

  lemma LinkEncodes(lits: seq<int>, tail: seq<int>, rest: seq<seq<int>>, n: int)
    requires |lits| >= 5 && Below(lits, n) && n >= 1 && tail == [-n] + lits[3..] && Encodes(rest, tail, n + 1)
    ensures Encodes(Linked(lits[0], lits[1], lits[2], n) + rest, lits, n)
  {
    var cs := Linked(lits[0], lits[1], lits[2], n) + rest;
    forall a: Assignment
      ensures Extends(cs, a, n) <==> AtMostOneFalse(lits, a)
    {
      if Extends(cs, a, n) {
        var b :| AgreeBelow(a, b, n) && ClausesSat(cs, b);
        LinkNeeded(lits, tail, rest, n, a, b);
      }
      if AtMostOneFalse(lits, a) {
        LinkEnough(lits, tail, rest, n, a);
      }
    }
  }
}
