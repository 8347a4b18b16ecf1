/**
 * `SparseMatrix` of include/interface.hpp: a hash map from a row index to a
 * row vector of `(pos, val)` items kept strictly ascending by `pos`.
 */
module Sparse {
  import opened Ops
  import opened Exceptions

  /** `RowVecItem`: the column position and the accumulated value. */
  datatype RowItem = RowItem(pos: int, val: int)

  /** The positions of a row, the keys its items are searched and ordered by. */
  function Keys(row: seq<RowItem>): (ks: seq<int>)
    ensures |ks| == |row|
    ensures forall k :: 0 <= k < |row| ==> ks[k] == row[k].pos
  {
    seq(|row|, k requires 0 <= k < |row| => row[k].pos)
  }

  /** A row is strictly ascending by position, so each position occurs once. */
  predicate RowOrdered(row: seq<RowItem>)
  {
    Ascending(Keys(row), 0, |row|, true)
  }

  /** A position occurs at most once in an ordered row. */
  lemma OrderedRowUnique(row: seq<RowItem>, k1: int, k2: int)
    requires RowOrdered(row)
    requires 0 <= k1 < |row| && 0 <= k2 < |row| && row[k1].pos == row[k2].pos
    ensures k1 == k2
  {
    if k1 < k2 {
      AscendingPairwise(Keys(row), 0, |row|, true, k1, k2);
    } else if k2 < k1 {
      AscendingPairwise(Keys(row), 0, |row|, true, k2, k1);
    }
  }

  /** The positions of a row with an item inserted at `k`. */
  lemma KeysInsert(row: seq<RowItem>, k: int, it: RowItem)
    requires 0 <= k <= |row|
    ensures Keys(row[..k] + [it] + row[k..]) == Keys(row)[..k] + [it.pos] + Keys(row)[k..]
  {
    var nrow := row[..k] + [it] + row[k..];
    var ks := Keys(row);
    var a, b := Keys(nrow), ks[..k] + [it.pos] + ks[k..];
    assert |a| == |b|;
    forall x | 0 <= x < |a|
      ensures a[x] == b[x]
    {
      if x < k {
        assert a[x] == row[x].pos && b[x] == ks[x];
      } else if x == k {
        assert a[x] == it.pos && b[x] == it.pos;
      } else {
        assert a[x] == row[x - 1].pos && b[x] == ks[x - 1];
      }
    }
  }

  /**
   * At the lower bound `k` of `j` in an ordered row: the row holds `j`
   * exactly when the item at `k` has position `j`, and otherwise inserting
   * an item for `j` at `k` keeps the row ordered.
   */
  lemma RowLowerBound(row: seq<RowItem>, j: int, k: int)
    requires RowOrdered(row) && IsLowerBound(Keys(row), 0, |row|, j, k)
    ensures (k < |row| && row[k].pos == j) <==> j in Keys(row)
    ensures !(k < |row| && row[k].pos == j) ==>
      var nrow := row[..k] + [RowItem(j, 0)] + row[k..];
      RowOrdered(nrow) && nrow[k].pos == j
  {
    var keys := Keys(row);
    StrictIsAscending(keys, 0, |keys|);
    LowerBoundFindsMember(keys, 0, |keys|, j, k);
    if !(k < |row| && row[k].pos == j) {
      var nrow := row[..k] + [RowItem(j, 0)] + row[k..];
      KeysInsert(row, k, RowItem(j, 0));
      InsertAtLowerBoundKeepsOrder(keys, j, k, true);
    }
  }

  class SparseMatrix {
    /** The rows present in the hash map. */
    var rows: map<int, seq<RowItem>>

    ghost predicate Valid()
      reads this
    {
      forall i :: i in rows ==> RowOrdered(rows[i])
    }

    /** The row `i` as `operator[]` sees it: an absent row is an empty one. */
    function Row(i: int): seq<RowItem>
      reads this
    {
      if i in rows then rows[i] else []
    }

    /** `SparseMatrix(rows)`: an empty matrix; the row count only reserves capacity. */
    constructor (capacity: nat)
      ensures Valid() && rows == map[]
    {
      rows := map[];
    }

    /**
     * `operator()(i, j)`: the entry `(i, j)`, created with a zero value when it
     * is absent.  Row `i` is created when absent, a new item is inserted at its
     * ordered place, an existing item is reused; nothing else changes.  The
     * returned `idx` is the position in row `i` of the referenced value, the
     * only item at position `j` (`OrderedRowUnique`).
     */
    method Access(i: int, j: int) returns (idx: int, val: int)
      requires Valid()
      modifies this
      ensures Valid()
      ensures i in rows && 0 <= idx < |rows[i]|
      ensures rows[i][idx].pos == j && val == rows[i][idx].val
      ensures j in Keys(old(Row(i))) ==> rows[i] == old(Row(i))
      ensures j !in Keys(old(Row(i))) ==>
        idx <= |old(Row(i))|
        && rows[i] == old(Row(i))[..idx] + [RowItem(j, 0)] + old(Row(i))[idx..]
      ensures forall r :: r != i ==> (r in rows <==> r in old(rows))
      ensures forall r :: r != i && r in rows ==> rows[r] == old(rows[r])
    {
      var row := Row(i);
      var keys := Keys(row);
      var ir := FastIFind(keys, 0, |keys|, j);
      RowLowerBound(row, j, ir);
      if ir == |row| || row[ir].pos != j {
        row := row[..ir] + [RowItem(j, 0)] + row[ir..];
      }
      rows := rows[i := row];
      idx := ir;
      val := row[ir].val;
    }

    /**
     * `at(i, j)`: the value of the entry `(i, j)`; `out_of_range` when row `i`
     * is absent or has no item at position `j`.
     */
    method At(i: int, j: int) returns (r: Result<int>)
      requires Valid()
      ensures r.Err? ==> r.error == OutOfRange
      ensures r.Err? <==> i !in rows || j !in Keys(rows[i])
      ensures r.Ok? ==> exists k :: 0 <= k < |rows[i]| && rows[i][k] == RowItem(j, r.value)
    {
      if i !in rows {
        return Err(OutOfRange);
      }
      var row := rows[i];
      var keys := Keys(row);
      var ie := FastIFind(keys, 0, |keys|, j);
      LowerBoundFindsMember(keys, 0, |keys|, j, ie);
      if ie == |row| || row[ie].pos != j {
        return Err(OutOfRange);
      }
      r := Ok(row[ie].val);
      assert row[ie] == RowItem(j, r.value);
    }
  }
}
