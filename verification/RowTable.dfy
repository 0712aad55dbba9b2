/** Tables of rows with a deletion mark per row: how many live rows contain a
    literal, and which. */
module RowTable {
  import opened Knf
  import opened Elimination

  function Contains(r: Row, deleted: bool, l: int): nat {
    ToInt(!deleted && l in r.lits)
  }

  // The number of live rows that contain the literal l.
  function LiveCount(rows: seq<Row>, deleted: seq<bool>, l: int): nat
    requires |rows| == |deleted|
  {
    if rows == [] then 0
    else
      var n := |rows| - 1;
      LiveCount(rows[..n], deleted[..n], l) + Contains(rows[n], deleted[n], l)
  }

  function NumFalse(deleted: seq<bool>): nat {
    if deleted == [] then 0 else NumFalse(deleted[..|deleted| - 1]) + ToInt(!deleted[|deleted| - 1])
  }

  // An index split by sign: entry l of `p` or entry -l of `n`.
  function At<T>(p: seq<T>, n: seq<T>, l: int): T
    requires |p| == |n| && 1 <= Abs(l) < |p|
  {
    if l > 0 then p[l] else n[-l]
  }

  ghost predicate Increasing(s: seq<int>) {
    forall i, j :: 0 <= i < j < |s| ==> s[i] < s[j]
  }

  lemma LiveCountSnoc(rows: seq<Row>, deleted: seq<bool>, r: Row, d: bool, l: int)
    requires |rows| == |deleted|
    ensures LiveCount(rows + [r], deleted + [d], l) == LiveCount(rows, deleted, l) + Contains(r, d, l)
  {
    assert (rows + [r])[..|rows|] == rows;
    assert (deleted + [d])[..|rows|] == deleted;
  }

  lemma {:induction false} LiveCountUpdate(rows: seq<Row>, deleted: seq<bool>, k: nat, r: Row, d: bool, l: int)
    requires |rows| == |deleted| && k < |rows|
    ensures LiveCount(rows[k := r], deleted[k := d], l) + Contains(rows[k], deleted[k], l)
         == LiveCount(rows, deleted, l) + Contains(r, d, l)
  {
    var n := |rows| - 1;
    if k == n {
      assert rows[k := r][..n] == rows[..n];
      assert deleted[k := d][..n] == deleted[..n];
    } else {
      assert rows[k := r][..n] == rows[..n][k := r];
      assert deleted[k := d][..n] == deleted[..n][k := d];
      LiveCountUpdate(rows[..n], deleted[..n], k, r, d, l);
    }
  }

  lemma {:induction false} NumFalseUpdate(deleted: seq<bool>, k: nat, d: bool)
    requires k < |deleted|
    ensures NumFalse(deleted[k := d]) + ToInt(!deleted[k]) == NumFalse(deleted) + ToInt(!d)
  {
    var n := |deleted| - 1;
    if k == n {
      assert deleted[k := d][..n] == deleted[..n];
    } else {
      assert deleted[k := d][..n] == deleted[..n][k := d];
      NumFalseUpdate(deleted[..n], k, d);
    }
  }

  lemma NumFalseSnoc(deleted: seq<bool>, d: bool)
    ensures NumFalse(deleted + [d]) == NumFalse(deleted) + ToInt(!d)
  {
    assert (deleted + [d])[..|deleted|] == deleted;
  }

  // An increasing list of exactly the live rows with l has LiveCount entries.
  lemma {:induction false} ExactlyLiveLength(rows: seq<Row>, deleted: seq<bool>, l: int, ids: seq<int>)
    requires |rows| == |deleted|
    requires ExactlyLive(rows, deleted, l, ids) && Increasing(ids)
    ensures |ids| == LiveCount(rows, deleted, l)
  {
    if rows == [] {
      assert |ids| == 0;
    } else {
      var n := |rows| - 1;
      var m := |ids| - 1;
      if n in ids {
        assert ids[m] == n;
        forall j | 0 <= j < m
          ensures 0 <= ids[..m][j] < n
        {
          assert ids[j] < ids[m];
        }
        forall i | 0 <= i < n && !deleted[i] && l in rows[i].lits
          ensures i in ids[..m]
        {
          var j :| 0 <= j < |ids| && ids[j] == i;
          assert ids[..m][j] == i;
        }
        ExactlyLiveLength(rows[..n], deleted[..n], l, ids[..m]);
      } else {
        forall j | 0 <= j < |ids|
          ensures ids[j] < n
        {
          assert ids[j] in ids;
        }
        ExactlyLiveLength(rows[..n], deleted[..n], l, ids);
      }
    }
  }

  lemma {:induction false} LiveCountZero(rows: seq<Row>, deleted: seq<bool>, l: int)
    requires |rows| == |deleted|
    ensures LiveCount(rows, deleted, l) == 0
       <==> forall i :: 0 <= i < |rows| && !deleted[i] ==> l !in rows[i].lits
  {
    if rows != [] {
      var n := |rows| - 1;
      LiveCountZero(rows[..n], deleted[..n], l);
      assert forall i :: 0 <= i < n ==> rows[..n][i] == rows[i] && deleted[..n][i] == deleted[i];
    }
  }

  // `id` has been pushed on the lists of the literals in `lits`.
  ghost predicate Listed(p: seq<seq<int>>, n: seq<seq<int>>, p': seq<seq<int>>, n': seq<seq<int>>,
                         lits: seq<int>, id: nat) {
    && |p| == |n| == |p'| == |n'|
    && forall x {:trigger At(p', n', x)} {:trigger At(p, n, x)} :: 1 <= Abs(x) < |p| ==> At(p', n', x) == At(p, n, x) + (if x in lits then [id] else [])
  }

  lemma ListedStep(p: seq<seq<int>>, n: seq<seq<int>>, p': seq<seq<int>>, n': seq<seq<int>>,
                   p'': seq<seq<int>>, n'': seq<seq<int>>, lits: seq<int>, j: nat, id: nat)
    requires j < |lits| && DistinctVars(lits)
    requires Listed(p, n, p', n', lits[..j], id) && Listed(p', n', p'', n'', [lits[j]], id)
    ensures Listed(p, n, p'', n'', lits[..j + 1], id)
  {
    assert lits[..j + 1] == lits[..j] + [lits[j]];
    assert lits[j] !in lits[..j];
  }
}
