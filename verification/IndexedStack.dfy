/** The index-backed stacks of local search: a stack of small numbers, and for
    each number its position, so that any member can be removed by moving the
    top into its place. */
module IndexedStack {

  datatype Stack = Stack(items: seq<int>, index: seq<int>)

  predicate Has(s: Stack, x: int) {
    0 <= x < |s.index| && 0 <= s.index[x] < |s.items| && s.items[s.index[x]] == x
  }

  // Every item knows its position, so no item is there twice.
  ghost predicate Backed(s: Stack) {
    forall i {:trigger s.items[i]} :: 0 <= i < |s.items| ==> 0 <= s.items[i] < |s.index| && s.index[s.items[i]] == i
  }

  // Moreover -1 is the index of exactly the numbers that are not there.
  ghost predicate Exact(s: Stack) {
    && Backed(s)
    && forall x {:trigger s.index[x]} :: 0 <= x < |s.index| && s.index[x] != -1 ==> Has(s, x)
  }

  function Push(s: Stack, x: int): Stack
    requires 0 <= x < |s.index|
  {
    Stack(s.items + [x], s.index[x := |s.items|])
  }

  // The top goes to the place of x; the index of x is left as it is.
  function Drop(s: Stack, x: int): Stack
    requires Has(s, x) && Backed(s)
  {
    var top, at := s.items[|s.items| - 1], s.index[x];
    Stack(s.items[at := top][..|s.items| - 1], s.index[top := at])
  }

  function Remove(s: Stack, x: int): Stack
    requires Has(s, x) && Backed(s)
  {
    var top, at := s.items[|s.items| - 1], s.index[x];
    Stack(s.items[at := top][..|s.items| - 1], s.index[top := at][x := -1])
  }

  lemma PushBacked(s: Stack, x: int)
    requires Backed(s) && 0 <= x < |s.index| && !Has(s, x)
    ensures Backed(Push(s, x))
    ensures forall y :: Has(Push(s, x), y) <==> Has(s, y) || y == x
    ensures Exact(s) ==> Exact(Push(s, x))
  {
    var t := Push(s, x);
    forall i | 0 <= i < |s.items|
      ensures 0 <= t.items[i] < |t.index| && t.index[t.items[i]] == i
    {
      assert t.items[i] == s.items[i];
    }
  }

  lemma DropBacked(s: Stack, x: int)
    requires Backed(s) && Has(s, x)
    ensures Backed(Drop(s, x)) && |Drop(s, x).items| == |s.items| - 1
    ensures forall y :: Has(Drop(s, x), y) <==> Has(s, y) && y != x
  {
    var t := Drop(s, x);
    var n, top := |s.items| - 1, s.items[|s.items| - 1];
    forall i | 0 <= i < n
      ensures 0 <= t.items[i] < |t.index| && t.index[t.items[i]] == i
    {
      assert t.items[i] == if i == s.index[x] then top else s.items[i];
    }
    forall y
      ensures Has(t, y) <==> Has(s, y) && y != x
    {
      if Has(s, y) && y != x {
        assert t.items[t.index[y]] == y;
      }
    }
  }

  lemma RemoveExact(s: Stack, x: int)
    requires Exact(s) && Has(s, x)
    ensures Exact(Remove(s, x)) && |Remove(s, x).items| == |s.items| - 1
    ensures forall y :: Has(Remove(s, x), y) <==> Has(s, y) && y != x
  {
    var t := Remove(s, x);
    DropBacked(s, x);
    var d := Drop(s, x);
    assert t.items == d.items && t.index == d.index[x := -1];
    assert !Has(d, x);
    forall i | 0 <= i < |t.items|
      ensures 0 <= t.items[i] < |t.index| && t.index[t.items[i]] == i
    {
      assert Has(d, d.items[i]);
    }
    forall y
      ensures Has(t, y) <==> Has(d, y)
    {
    }
  }

  ghost predicate Unrepeated(s: seq<int>) {
    s == [] || (s[|s| - 1] !in s[..|s| - 1] && Unrepeated(s[..|s| - 1]))
  }

  lemma UnrepeatedSnoc(s: seq<int>, x: int)
    requires Unrepeated(s) && x !in s
    ensures Unrepeated(s + [x])
  {
    assert (s + [x])[..|s|] == s;
  }

  lemma {:induction false} UnrepeatedAt(s: seq<int>, i: nat)
    requires Unrepeated(s) && i < |s|
    ensures s[i] !in s[..i]
  {
    if i < |s| - 1 {
      UnrepeatedAt(s[..|s| - 1], i);
      assert s[..|s| - 1][..i] == s[..i];
    }
  }
}
