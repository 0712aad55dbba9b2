/** The extension stack: removed clauses with their witnesses in one flat
    vector, and the backward walk that repairs a model. */
module Extension {
  import opened Knf
  import opened Clauses

  // A removed clause and the literals that may be made true to satisfy it.
  datatype Entry = Entry(autarky: seq<int>, clause: seq<int>)

  // The flat vector: 0, witness, 0, clause, for each entry.
  function Flatten(entries: seq<Entry>): seq<int> {
    if entries == [] then []
    else
      var e := entries[|entries| - 1];
      Flatten(entries[..|entries| - 1]) + [0] + e.autarky + [0] + e.clause
  }

  ghost predicate NonZero(lits: seq<int>) {
    forall i :: 0 <= i < |lits| ==> lits[i] != 0
  }

  ghost predicate EntriesOk(entries: seq<Entry>) {
    true == (forall i :: 0 <= i < |entries| ==> NonZero(entries[i].autarky) && NonZero(entries[i].clause))
  }

  function Make(l: int, a: Assignment): Assignment {
    Set(a, Abs(l), l > 0)
  }

  // Falsified witness literals are made true, from the last to the first.
  ghost function Repair(autarky: seq<int>, a: Assignment): Assignment {
    if autarky == [] then a
    else
      var l := autarky[|autarky| - 1];
      Repair(autarky[..|autarky| - 1], if Holds(l, a) then a else Make(l, a))
  }

  // The entries folded from the last to the first.
  ghost function Unwind(entries: seq<Entry>, a: Assignment): Assignment {
    if entries == [] then a
    else
      var e := entries[|entries| - 1];
      Unwind(entries[..|entries| - 1], if ClauseSat(e.clause, a) then a else Repair(e.autarky, a))
  }

  function ValuesOf(vals: seq<bool>): Assignment {
    x => 0 <= x < |vals| && vals[x]
  }

  ghost predicate Same(a: Assignment, b: Assignment) {
    forall x :: a(x) == b(x)
  }

  lemma SameClause(c: seq<int>, a: Assignment, b: Assignment)
    requires Same(a, b)
    ensures ClauseSat(c, a) <==> ClauseSat(c, b)
  {
    forall i | 0 <= i < |c|
      ensures Holds(c[i], a) <==> Holds(c[i], b)
    {
    }
  }

  lemma {:induction false} SameRepair(autarky: seq<int>, a: Assignment, b: Assignment)
    requires Same(a, b)
    ensures Same(Repair(autarky, a), Repair(autarky, b))
  {
    if autarky != [] {
      var l := autarky[|autarky| - 1];
      assert Holds(l, a) <==> Holds(l, b);
      SameRepair(autarky[..|autarky| - 1], if Holds(l, a) then a else Make(l, a), if Holds(l, b) then b else Make(l, b));
    }
  }

  lemma {:induction false} SameUnwind(entries: seq<Entry>, a: Assignment, b: Assignment)
    requires Same(a, b)
    ensures Same(Unwind(entries, a), Unwind(entries, b))
  {
    if entries != [] {
      var e := entries[|entries| - 1];
      SameClause(e.clause, a, b);
      SameRepair(e.autarky, a, b);
      SameUnwind(entries[..|entries| - 1], if ClauseSat(e.clause, a) then a else Repair(e.autarky, a),
                 if ClauseSat(e.clause, b) then b else Repair(e.autarky, b));
    }
  }

  lemma FlattenSnoc(entries: seq<Entry>, e: Entry)
    ensures Flatten(entries + [e]) == Flatten(entries) + [0] + e.autarky + [0] + e.clause
  {
    assert (entries + [e])[..|entries|] == entries;
  }

  // Where the parts of the last entry lie in the flat vector.
  lemma LastEntry(entries: seq<Entry>)
    requires |entries| >= 1
    ensures var n := |entries| - 1;
      var start, w, c := |Flatten(entries[..n])|, entries[n].autarky, entries[n].clause;
      var flat := Flatten(entries);
      && |flat| == start + 2 + |w| + |c|
      && flat[..start] == Flatten(entries[..n])
      && flat[start] == 0 && flat[start + 1..start + 1 + |w|] == w
      && flat[start + 1 + |w|] == 0 && flat[start + 2 + |w|..] == c
  {
  }

  class External {
    var extension: seq<int>
    var vals: seq<bool>
    ghost var entries: seq<Entry>

    ghost predicate Valid()
      reads this
    {
      extension == Flatten(entries) && EntriesOk(entries)
    }

    // push_clause_on_extension_stack with a single witness
    method PushClause(c: seq<int>, pivot: int)
      requires Valid() && pivot != 0 && NonZero(c)
      modifies this`extension, this`entries
      ensures Valid() && entries == old(entries) + [Entry([pivot], c)]
    {
      PushClauseAndWitness(c, [pivot]);
    }

    // push_external_clause_and_witness_on_extension_stack
    method PushClauseAndWitness(c: seq<int>, w: seq<int>)
      requires Valid() && NonZero(w) && NonZero(c)
      modifies this`extension, this`entries
      ensures Valid() && entries == old(entries) + [Entry(w, c)]
    {
      extension := extension + [0] + w + [0] + c;
      FlattenSnoc(entries, Entry(w, c));
      entries := entries + [Entry(w, c)];
    }

    // ival
    function IVal(l: int): (r: int)
      reads this
      ensures r == if Holds(l, ValuesOf(vals)) then 1 else -1
    {
      var b := Abs(l) < |vals| && vals[Abs(l)];
      if b == (l > 0) then 1 else -1
    }

    // The assignment of one flipped literal.
    method FlipLiteral(l: int)
      requires l != 0 && !Holds(l, ValuesOf(vals))
      modifies this`vals
      ensures Same(ValuesOf(vals), Make(l, ValuesOf(old(vals))))
    {
      var idx: int := Abs(l);
      if idx >= |vals| {
        vals := vals + seq(idx + 1 - |vals|, i => false);
      }
      vals := vals[idx := !vals[idx]];
    }

    // Back over a clause to the 0 before it.
    method ScanClause(i: int, ghost e: Entry, ghost start: int) returns (i': int, satisfied: bool)
      requires 0 <= start && i == start + 2 + |e.autarky| + |e.clause| <= |extension|
      requires extension[start + 1 + |e.autarky|] == 0 && extension[start + 2 + |e.autarky|..i] == e.clause && NonZero(e.clause)
      ensures i' == start + 1 + |e.autarky| && (satisfied <==> ClauseSat(e.clause, ValuesOf(vals)))
    {
      satisfied, i' := false, i - 1;
      ghost var low := start + 2 + |e.autarky|;
      assert forall k :: low <= k < i ==> extension[k] == e.clause[k - low];
      while extension[i'] != 0
        invariant low - 1 <= i' < i
        invariant satisfied <==> exists k :: i' < k < i && Holds(extension[k], ValuesOf(vals))
        decreases i'
      {
        if !satisfied && IVal(extension[i']) > 0 {
          satisfied := true;
        }
        i' := i' - 1;
      }
      if satisfied {
        var k :| i' < k < i && Holds(extension[k], ValuesOf(vals));
        assert Holds(e.clause[k - low], ValuesOf(vals));
      }
      if ClauseSat(e.clause, ValuesOf(vals)) {
        var k :| 0 <= k < |e.clause| && Holds(e.clause[k], ValuesOf(vals));
        assert Holds(extension[low + k], ValuesOf(vals));
      }
    }

    // Back over a witness, making its literals true or not touching them.
    method ScanWitness(i: int, satisfied: bool, ghost e: Entry, ghost start: int) returns (i': int)
      requires 0 <= start && i == start + 1 + |e.autarky| < |extension|
      requires extension[start] == 0 && extension[start + 1..i] == e.autarky && NonZero(e.autarky)
      modifies this`vals
      ensures i' == start
      ensures Same(ValuesOf(vals), if satisfied then ValuesOf(old(vals)) else Repair(e.autarky, ValuesOf(old(vals))))
    {
      i' := i - 1;
      ghost var a := ValuesOf(vals);
      assert forall k :: start + 1 <= k < i ==> extension[k] == e.autarky[k - start - 1];
      assert e.autarky[..|e.autarky|] == e.autarky;
      while extension[i'] != 0
        invariant start <= i' < i
        invariant satisfied ==> vals == old(vals)
        invariant !satisfied ==> Same(Repair(e.autarky, a), Repair(e.autarky[..i' - start], ValuesOf(vals)))
        decreases i'
      {
        var l := extension[i'];
        ghost var w, before := e.autarky[..i' - start], ValuesOf(vals);
        assert w[|w| - 1] == l && w[..|w| - 1] == e.autarky[..i' - start - 1];
        if !satisfied && IVal(l) < 0 {
          FlipLiteral(l);
          SameRepair(w[..|w| - 1], ValuesOf(vals), Make(l, before));
        }
        i' := i' - 1;
      }
      assert e.autarky[..0] == [];
    }

    // extend: the backward walk is the fold over the entries.
    method Extend()
      requires Valid()
      modifies this`vals
      ensures Same(ValuesOf(vals), Unwind(entries, ValuesOf(old(vals))))
    {
      var i := |extension|;
      ghost var left := entries;
      ghost var a := ValuesOf(vals);
      while i != 0
        invariant 0 <= i <= |extension| && extension[..i] == Flatten(left) && EntriesOk(left)
        invariant Same(Unwind(entries, a), Unwind(left, ValuesOf(vals)))
        decreases i
      {
        ghost var n := |left| - 1;
        LastEntry(left);
        ghost var e, start := left[n], |Flatten(left[..n])|;
        PrefixParts(extension, i, Flatten(left), start, e);
        ghost var before := ValuesOf(vals);
        var satisfied;
        i, satisfied := ScanClause(i, e, start);
        i := ScanWitness(i, satisfied, e, start);
        SameUnwind(left[..n], ValuesOf(vals), if satisfied then before else Repair(e.autarky, before));
        left := left[..n];
      }
    }
  }

  lemma PrefixParts(extension: seq<int>, i: int, flat: seq<int>, start: nat, e: Entry)
    requires 0 <= i <= |extension| && extension[..i] == flat && |flat| == start + 2 + |e.autarky| + |e.clause|
    requires flat[start] == 0 && flat[start + 1..start + 1 + |e.autarky|] == e.autarky
    requires flat[start + 1 + |e.autarky|] == 0 && flat[start + 2 + |e.autarky|..] == e.clause
    ensures extension[..start] == flat[..start]
    ensures extension[start] == 0 && extension[start + 1..start + 1 + |e.autarky|] == e.autarky
    ensures extension[start + 1 + |e.autarky|] == 0 && extension[start + 2 + |e.autarky|..i] == e.clause
  {
    assert forall k :: 0 <= k < i ==> extension[k] == flat[k];
    assert extension[start + 2 + |e.autarky|..i] == flat[start + 2 + |e.autarky|..];
    assert extension[start + 1..start + 1 + |e.autarky|] == flat[start + 1..start + 1 + |e.autarky|];
  }
}
