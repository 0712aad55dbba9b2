/** Satisfied-literal counts and the two stacks of rows that follow them. */
module Tally {
  import opened Knf
  import opened IndexedStack
  import opened Scores

  // An occurrence of a variable: the row, and whether the literal is positive.
  datatype Occurrence = Occurrence(clause: int, sense: bool)

  // Counts per row, the stack of violated rows, and the stack of satisfied
  // rows with degree above one.
  datatype Tally = Tally(counts: seq<int>, hard: Stack, card: Stack, hardUnsatNb: int)

  // Occurrences of x in rows, in the order of the rows.
  ghost predicate OccurrencesOf(rows: seq<Row>, x: int, occs: seq<Occurrence>) {
    && (forall i :: 0 <= i < |occs| ==> OccurrenceOk(rows, x, occs[i]))
    && (forall i, j :: 0 <= i < j < |occs| ==> occs[i].clause < occs[j].clause)
    && forall c :: 0 <= c < |rows| && LitOf(rows[c].lits, x) != 0 ==> Seen(occs, |occs|, c)
  }

  ghost predicate OccurrenceOk(rows: seq<Row>, x: int, o: Occurrence) {
    0 <= o.clause < |rows| && LitOf(rows[o.clause].lits, x) == if o.sense then x else -x
  }

  // Row c is among the first n occurrences.
  ghost predicate Seen(occs: seq<Occurrence>, n: int, c: int) {
    exists i {:trigger occs[i]} :: 0 <= i < n && i < |occs| && occs[i].clause == c
  }

  // The stacks hold exactly the rows that the counts put there.
  ghost predicate StacksMatch(rows: seq<Row>, t: Tally) {
    true == (
      && |t.counts| == |t.hard.index| == |t.card.index| == |rows|
      && Backed(t.hard) && Exact(t.card) && t.hardUnsatNb == |t.hard.items|
      && forall c {:trigger Has(t.hard, c)} {:trigger Has(t.card, c)} :: 0 <= c < |rows| ==>
           && (Has(t.hard, c) <==> t.counts[c] < rows[c].degree)
           && (Has(t.card, c) <==> rows[c].degree > 1 && t.counts[c] >= rows[c].degree))
  }

  // sat: the row leaves the violated ones.
  function SatRow(rows: seq<Row>, t: Tally, c: int): Tally
    requires 0 <= c < |rows| && StacksMatch(rows, t) && Has(t.hard, c)
  {
    Tally(t.counts, Drop(t.hard, c), if rows[c].degree > 1 then Push(t.card, c) else t.card, t.hardUnsatNb - 1)
  }

  // unsat: the row joins them.
  function UnsatRow(rows: seq<Row>, t: Tally, c: int): Tally
    requires 0 <= c < |rows| && StacksMatch(rows, t)
  {
    Tally(t.counts, Push(t.hard, c),
          if rows[c].degree > 1 && t.card.index[c] != -1 then Remove(t.card, c) else t.card, t.hardUnsatNb + 1)
  }

  function CountAfter(counts: seq<int>, o: Occurrence, b: bool): int
    requires 0 <= o.clause < |counts|
  {
    counts[o.clause] + (if b == o.sense then 1 else -1)
  }

  // update_count_for_occurrence, after the variable became b.
  function CountStep(rows: seq<Row>, t: Tally, o: Occurrence, b: bool): (t': Tally)
    requires 0 <= o.clause < |rows| && StacksMatch(rows, t)
    ensures StacksMatch(rows, t') && t'.counts == t.counts[o.clause := CountAfter(t.counts, o, b)]
  {
    var c := o.clause;
    var before, after := t.counts[c], CountAfter(t.counts, o, b);
    var moved :=
      if before < rows[c].degree && after >= rows[c].degree then SatRow(rows, t, c)
      else if before >= rows[c].degree && after < rows[c].degree then UnsatRow(rows, t, c)
      else t;
    MovedMatches(rows, t, c, after);
    moved.(counts := t.counts[c := after])
  }

  lemma MovedMatches(rows: seq<Row>, t: Tally, c: int, after: int)
    requires 0 <= c < |rows| && StacksMatch(rows, t)
    ensures var moved :=
        if t.counts[c] < rows[c].degree && after >= rows[c].degree then SatRow(rows, t, c)
        else if t.counts[c] >= rows[c].degree && after < rows[c].degree then UnsatRow(rows, t, c)
        else t;
      StacksMatch(rows, moved.(counts := t.counts[c := after]))
  {
    if t.counts[c] < rows[c].degree && after >= rows[c].degree {
      DropBacked(t.hard, c);
      PushBacked(t.card, c);
    } else if t.counts[c] >= rows[c].degree && after < rows[c].degree {
      PushBacked(t.hard, c);
      if rows[c].degree > 1 {
        RemoveExact(t.card, c);
      }
    }
  }

  // The counts and stacks after the first n occurrences.
  function TallyUpTo(rows: seq<Row>, t: Tally, occs: seq<Occurrence>, b: bool, n: nat): (t': Tally)
    requires n <= |occs| && StacksMatch(rows, t)
    requires forall i :: 0 <= i < |occs| ==> 0 <= occs[i].clause < |rows|
    ensures StacksMatch(rows, t')
  {
    if n == 0 then t else CountStep(rows, TallyUpTo(rows, t, occs, b, n - 1), occs[n - 1], b)
  }

  // Exactly the rows seen so far are counted after the flip.
  lemma {:induction false} TallyCounts(rows: seq<Row>, t: Tally, x: int, occs: seq<Occurrence>, b: bool, n: nat)
    requires n <= |occs| && StacksMatch(rows, t) && x >= 1 && OccurrencesOf(rows, x, occs)
    ensures forall c :: 0 <= c < |rows| ==>
      TallyUpTo(rows, t, occs, b, n).counts[c] == t.counts[c] + if Seen(occs, n, c) then Toggle(LitOf(rows[c].lits, x), !b) else 0
  {
    if n > 0 {
      TallyCounts(rows, t, x, occs, b, n - 1);
      var o := occs[n - 1];
      assert OccurrenceOk(rows, x, o);
      forall c | 0 <= c < |rows|
        ensures Seen(occs, n, c) <==> Seen(occs, n - 1, c) || c == o.clause
        ensures c == o.clause ==> !Seen(occs, n - 1, c)
      {
      }
    }
  }

  lemma TallyToggles(rows: seq<Row>, t: Tally, x: int, occs: seq<Occurrence>, b: bool)
    requires StacksMatch(rows, t) && x >= 1 && OccurrencesOf(rows, x, occs)
    ensures Toggled(rows, t.counts, TallyUpTo(rows, t, occs, b, |occs|).counts, x, !b)
  {
    TallyCounts(rows, t, x, occs, b, |occs|);
  }
}
