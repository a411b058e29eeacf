/**
 * Sliding one row to the left, as move_row_left does it: compact the tiles
 * to the left (tighten), merge equal neighbours in one left-to-right pass
 * (merge), then compact again. The score a slide earns travels with the row.
 */
module Slide {
  import opened Grids

  /** The outcome of a slide or merge pass: the new row and the score it earns. */
  datatype Slid = Slid(row: Row, gain: nat)

  /** The nonzero cells of row, in their original order. */
  function NonZeros(row: Row): (r: Row)
    ensures |r| <= |row|
    ensures NoZero(r)
    decreases |row|
  {
    if |row| == 0 then []
    else if row[0] != 0 then [row[0]] + NonZeros(row[1..])
    else NonZeros(row[1..])
  }

  /** A row of n empty cells. */
  function Zeros(n: nat): (r: Row)
    ensures |r| == n
    ensures forall k | 0 <= k < n :: r[k] == 0
  {
    seq(n, _ => 0)
  }

  predicate NoZero(row: Row) {
    forall k | 0 <= k < |row| :: row[k] != 0
  }

  /** An empty cell is only ever followed by empty cells: the tiles sit packed on the left. */
  predicate Packed(row: Row) {
    forall i, j | 0 <= i < j < |row| :: row[i] == 0 ==> row[j] == 0
  }

  /** tighten: the nonzero cells moved to the front in order, the rest padded with zeros. */
  function Tighten(row: Row): (r: Row)
    ensures |r| == |row|
    ensures Packed(r)
    ensures NonZeros(r) == NonZeros(row)
  {
    var nz := NonZeros(row);
    NonZerosConcat(nz, Zeros(|row| - |nz|));
    NonZerosOfNoZero(nz);
    NonZerosOfZeros(|row| - |nz|);
    nz + Zeros(|row| - |nz|)
  }

  /**
   * merge: one pass from left to right. A cell equal to its right neighbour
   * becomes 0 and the neighbour becomes twice its value, which is added to
   * the gain; the neighbour is then consumed and not compared again. The
   * length never changes (the source asserts this).
   */
  function Merge(row: Row): (r: Slid)
    ensures |r.row| == |row|
    decreases |row|
  {
    if |row| >= 2 && row[0] == row[1] then
      var rest := Merge(row[2..]);
      Slid([0, 2 * row[1]] + rest.row, 2 * row[1] + rest.gain)
    else if |row| == 0 then Slid([], 0)
    else
      var rest := Merge(row[1..]);
      Slid([row[0]] + rest.row, rest.gain)
  }

  /** The merge pass keeps the row's total, and scores at most that total. */
  lemma {:induction false} MergeKeepsSum(row: Row)
    ensures Sum(Merge(row).row) == Sum(row)
    ensures Merge(row).gain <= Sum(row)
    decreases |row|
  {
    if |row| >= 2 && row[0] == row[1] {
      MergeKeepsSum(row[2..]);
      assert Sum(row) == row[0] + row[1] + Sum(row[2..]) by {
        assert row[1..][1..] == row[2..];
      }
      SumConcat([0, 2 * row[1]], Merge(row[2..]).row);
      assert Sum([0, 2 * row[1]]) == 2 * row[1] by {
        assert [0, 2 * row[1]][1..] == [2 * row[1]];
      }
    } else if |row| > 0 {
      MergeKeepsSum(row[1..]);
      SumConcat([row[0]], Merge(row[1..]).row);
    }
  }

  lemma MergeAtPair(row: Row, i: nat)
    requires i + 1 < |row| && row[i] == row[i + 1]
    ensures Merge(row[i..]) ==
      Slid([0, 2 * row[i + 1]] + Merge(row[i + 2..]).row, 2 * row[i + 1] + Merge(row[i + 2..]).gain)
  {
    assert row[i..][2..] == row[i + 2..];
  }

  /** Merge at position i when the cell there does not match its right neighbour. */
  lemma MergeAtSingle(row: Row, i: nat)
    requires i < |row| && !(i + 1 < |row| && row[i] == row[i + 1])
    ensures Merge(row[i..]) == Slid([row[i]] + Merge(row[i + 1..]).row, Merge(row[i + 1..]).gain)
  {
    assert row[i..][1..] == row[i + 1..];
  }

  /**
   * The merge pass exactly as the source writes it: an index loop with a
   * `pair` flag that is set when a cell matches its right neighbour, so that
   * the next iteration emits the doubled value.
   */
  method MergeScan(row: Row) returns (newRow: Row, gain: nat)
    ensures Slid(newRow, gain) == Merge(row)
  {
    var pair := false;
    newRow := [];
    gain := 0;
    var i := 0;
    while i < |row|
      invariant 0 <= i <= |row|
      invariant !pair ==> Pending(row, i, newRow, gain)
      invariant pair ==> Paired(row, i, newRow, gain)
    {
      if pair {
        ClosePair(row, i, newRow, gain);
        newRow := newRow + [2 * row[i]];
        gain := gain + 2 * row[i];
        pair := false;
      } else if i + 1 < |row| && row[i] == row[i + 1] {
        OpenPair(row, i, newRow, gain);
        pair := true;
        newRow := newRow + [0];
      } else {
        KeepSingle(row, i, newRow, gain);
        newRow := newRow + [row[i]];
      }
      i := i + 1;
    }
    assert row[i..] == [];
    assert newRow + [] == newRow;
  }

  /** The scan so far has emitted newRow and gain, and merging row[i..] supplies the rest. */
  ghost predicate Pending(row: Row, i: nat, newRow: Row, gain: nat) {
    i <= |row| && Merge(row) == Slid(newRow + Merge(row[i..]).row, gain + Merge(row[i..]).gain)
  }

  /** The scan has just emitted the 0 of a pair; the doubled cell at i comes next. */
  ghost predicate Paired(row: Row, i: nat, newRow: Row, gain: nat) {
    && 0 < i < |row| && row[i - 1] == row[i]
    && Merge(row) == Slid(newRow + [2 * row[i]] + Merge(row[i + 1..]).row,
                          gain + 2 * row[i] + Merge(row[i + 1..]).gain)
  }

  /** Cell i matches its right neighbour: emit 0 and hold the pair open. */
  lemma OpenPair(row: Row, i: nat, newRow: Row, gain: nat)
    requires Pending(row, i, newRow, gain) && i + 1 < |row| && row[i] == row[i + 1]
    ensures Paired(row, i + 1, newRow + [0], gain)
  {
    MergeAtPair(row, i);
    var rest := Merge(row[i + 2..]).row;
    assert newRow + [0] + [2 * row[i + 1]] + rest == newRow + ([0, 2 * row[i + 1]] + rest);
  }

  /** The open pair closes: emit the doubled cell and score it. */
  lemma ClosePair(row: Row, i: nat, newRow: Row, gain: nat)
    requires Paired(row, i, newRow, gain)
    ensures Pending(row, i + 1, newRow + [2 * row[i]], gain + 2 * row[i])
  {
  }

  /** Cell i has no matching neighbour: emit it unchanged. */
  lemma KeepSingle(row: Row, i: nat, newRow: Row, gain: nat)
    requires Pending(row, i, newRow, gain) && i < |row| && !(i + 1 < |row| && row[i] == row[i + 1])
    ensures Pending(row, i + 1, newRow + [row[i]], gain)
  {
    MergeAtSingle(row, i);
    var rest := Merge(row[i + 1..]).row;
    assert newRow + [row[i]] + rest == newRow + ([row[i]] + rest);
  }

  /** move_row_left: tighten, merge, tighten. */
  function MoveRowLeft(row: Row): (r: Slid)
    ensures |r.row| == |row|
    ensures Packed(r.row)
  {
    var merged := Merge(Tighten(row));
    Slid(Tighten(merged.row), merged.gain)
  }

  /**
   * The reference reading of a slide on a list of tiles: equal neighbours
   * pair up greedily from the left, each pair becoming one tile of twice the
   * value and scoring that value, and no tile joins two pairs.
   */
  function Combine(xs: Row): (r: Slid)
    ensures |r.row| <= |xs|
    decreases |xs|
  {
    if |xs| >= 2 && xs[0] == xs[1] then
      var rest := Combine(xs[2..]);
      Slid([2 * xs[0]] + rest.row, 2 * xs[0] + rest.gain)
    else if |xs| == 0 then Slid([], 0)
    else
      var rest := Combine(xs[1..]);
      Slid([xs[0]] + rest.row, rest.gain)
  }

  /** Some two neighbouring entries of xs are equal. */
  predicate AdjacentEqual(xs: Row) {
    exists i | 0 <= i < |xs| - 1 :: xs[i] == xs[i + 1]
  }

  /** The check row_is_left_movable: some neighbours are (empty, tile) or (tile, same tile). */
  predicate RowIsLeftMovable(row: Row)
    ensures RowIsLeftMovable(row) ==> exists k | 0 <= k < |row| :: row[k] != 0
    ensures !RowIsLeftMovable(row) ==> Packed(row)
  {
    PackedIffNoGap(row);
    exists i | 0 <= i < |row| - 1 ::
      (row[i] == 0 && row[i + 1] != 0) || (row[i] != 0 && row[i + 1] == row[i])
  }

  /** Some empty cell is directly followed by a tile. */
  predicate HasGap(row: Row) {
    exists i | 0 <= i < |row| - 1 :: row[i] == 0 && row[i + 1] != 0
  }

  // ---------------------------------------------------------------------
  // Facts about filtering and padding

  lemma {:induction false} NonZerosConcat(a: Row, b: Row)
    ensures NonZeros(a + b) == NonZeros(a) + NonZeros(b)
    decreases |a|
  {
    if |a| > 0 {
      assert (a + b)[1..] == a[1..] + b;
      NonZerosConcat(a[1..], b);
    } else {
      assert a + b == b;
    }
  }

  /** The filter keeps exactly the row's tiles: every nonzero value of the row, and nothing else. */
  lemma {:induction false} NonZerosMembers(row: Row)
    ensures forall x :: x in NonZeros(row) <==> x in row && x != 0
    decreases |row|
  {
    if |row| > 0 {
      NonZerosMembers(row[1..]);
      assert row == [row[0]] + row[1..];
    }
  }

  lemma {:induction false} NonZerosOfZeros(n: nat)
    ensures NonZeros(Zeros(n)) == []
    decreases n
  {
    if n > 0 {
      assert Zeros(n)[1..] == Zeros(n - 1);
      NonZerosOfZeros(n - 1);
    }
  }

  lemma {:induction false} NonZerosOfNoZero(xs: Row)
    requires NoZero(xs)
    ensures NonZeros(xs) == xs
    decreases |xs|
  {
    if |xs| > 0 {
      NonZerosOfNoZero(xs[1..]);
    }
  }

  lemma {:induction false} SumNonZeros(row: Row)
    ensures Sum(NonZeros(row)) == Sum(row)
    decreases |row|
  {
    if |row| > 0 {
      SumNonZeros(row[1..]);
      if row[0] != 0 {
        SumConcat([row[0]], NonZeros(row[1..]));
      }
    }
  }

  lemma {:induction false} SumZeros(n: nat)
    ensures Sum(Zeros(n)) == 0
    decreases n
  {
    if n > 0 {
      assert Zeros(n)[1..] == Zeros(n - 1);
      SumZeros(n - 1);
    }
  }

  /** A packed row is its tiles followed by empty cells. */
  lemma {:induction false} PackedIsTilesThenZeros(row: Row)
    requires Packed(row)
    ensures row == NonZeros(row) + Zeros(|row| - |NonZeros(row)|)
    decreases |row|
  {
    if |row| > 0 {
      if row[0] == 0 {
        assert row == Zeros(|row|);
        NonZerosOfZeros(|row|);
      } else {
        PackedIsTilesThenZeros(row[1..]);
        assert row == [row[0]] + row[1..];
      }
    }
  }

  lemma {:induction false} GapBetween(row: Row, i: nat, j: nat)
    requires i < j < |row| && row[i] == 0 && row[j] != 0
    ensures HasGap(row)
    decreases j - i
  {
    if row[i + 1] == 0 {
      GapBetween(row, i + 1, j);
    }
  }

  /** Packed, stated globally, is the same as having no empty cell directly before a tile. */
  lemma PackedIffNoGap(row: Row)
    ensures Packed(row) <==> !HasGap(row)
  {
    if !Packed(row) {
      var i, j :| 0 <= i < j < |row| && row[i] == 0 && row[j] != 0;
      GapBetween(row, i, j);
    }
  }

  // ---------------------------------------------------------------------
  // The merge pass against the reference pairing

  lemma {:induction false} MergeOfZeros(n: nat)
    ensures Merge(Zeros(n)) == Slid(Zeros(n), 0)
    decreases n
  {
    if n >= 2 {
      assert Zeros(n)[2..] == Zeros(n - 2);
      MergeOfZeros(n - 2);
      assert [0, 0] + Zeros(n - 2) == Zeros(n);
    } else if n == 1 {
      assert Zeros(1)[1..] == [];
    }
  }

  /** Empty cells padded after the tiles pass through the merge pass untouched. */
  lemma {:induction false} MergePadded(xs: Row, n: nat)
    requires NoZero(xs)
    ensures Merge(xs + Zeros(n)) == Slid(Merge(xs).row + Zeros(n), Merge(xs).gain)
    decreases |xs|
  {
    var padded := xs + Zeros(n);
    if |xs| == 0 {
      assert padded == Zeros(n);
      MergeOfZeros(n);
    } else if |xs| >= 2 && xs[0] == xs[1] {
      var tail := xs[2..];
      assert padded[2..] == tail + Zeros(n);
      MergePadded(tail, n);
      var m := Merge(tail);
      assert Merge(padded) == Slid([0, 2 * xs[1]] + (m.row + Zeros(n)), 2 * xs[1] + m.gain);
      assert [0, 2 * xs[1]] + (m.row + Zeros(n)) == ([0, 2 * xs[1]] + m.row) + Zeros(n);
    } else {
      var tail := xs[1..];
      assert padded[1..] == tail + Zeros(n);
      assert |padded| >= 2 ==> padded[0] != padded[1];
      MergePadded(tail, n);
      var m := Merge(tail);
      assert Merge(padded) == Slid([xs[0]] + (m.row + Zeros(n)), m.gain);
      assert [xs[0]] + (m.row + Zeros(n)) == ([xs[0]] + m.row) + Zeros(n);
    }
  }

  /** On tiles, the merge pass leaves exactly the reference pairing once its zeros are dropped. */
  lemma {:induction false} MergeAgreesWithCombine(xs: Row)
    requires NoZero(xs)
    ensures NonZeros(Merge(xs).row) == Combine(xs).row
    ensures Merge(xs).gain == Combine(xs).gain
    decreases |xs|
  {
    if |xs| >= 2 && xs[0] == xs[1] {
      var rest := Merge(xs[2..]).row;
      MergeAgreesWithCombine(xs[2..]);
      NonZerosConcat([0, 2 * xs[1]], rest);
      assert [0, 2 * xs[1]][1..] == [2 * xs[1]];
    } else if |xs| > 0 {
      MergeAgreesWithCombine(xs[1..]);
      NonZerosConcat([xs[0]], Merge(xs[1..]).row);
    }
  }

  lemma {:induction false} CombineNoZero(xs: Row)
    requires NoZero(xs)
    ensures NoZero(Combine(xs).row)
    decreases |xs|
  {
    if |xs| >= 2 && xs[0] == xs[1] {
      CombineNoZero(xs[2..]);
    } else if |xs| > 0 {
      CombineNoZero(xs[1..]);
    }
  }

  /** Pairing keeps the sum of the tiles. */
  lemma {:induction false} CombineKeepsSum(xs: Row)
    ensures Sum(Combine(xs).row) == Sum(xs)
    decreases |xs|
  {
    if |xs| >= 2 && xs[0] == xs[1] {
      CombineKeepsSum(xs[2..]);
      SumConcat([2 * xs[0]], Combine(xs[2..]).row);
    } else if |xs| > 0 {
      CombineKeepsSum(xs[1..]);
      SumConcat([xs[0]], Combine(xs[1..]).row);
    }
  }

  /** Pairing keeps every tile a power of two. */
  lemma {:induction false} CombineKeepsTiles(xs: Row)
    requires RowTiles(xs)
    ensures RowTiles(Combine(xs).row)
    decreases |xs|
  {
    if |xs| >= 2 && xs[0] == xs[1] {
      CombineKeepsTiles(xs[2..]);
      assert IsTile(2 * xs[0]) by {
        if xs[0] != 0 {
          assert (2 * xs[0]) / 2 == xs[0];
        }
      }
    } else if |xs| > 0 {
      CombineKeepsTiles(xs[1..]);
    }
  }

  /**
   * Pairing never lengthens the tiles, and leaves them exactly as they were
   * precisely when no two neighbours are equal.
   */
  lemma {:induction false} CombineLength(xs: Row)
    ensures |Combine(xs).row| <= |xs|
    ensures |Combine(xs).row| == |xs| <==> !AdjacentEqual(xs)
    ensures !AdjacentEqual(xs) ==> Combine(xs).row == xs && Combine(xs).gain == 0
    decreases |xs|
  {
    if |xs| >= 2 && xs[0] == xs[1] {
      CombineLength(xs[2..]);
      assert AdjacentEqual(xs) by {
        assert xs[0] == xs[1];
      }
    } else if |xs| > 0 {
      var tail := xs[1..];
      CombineLength(tail);
      if AdjacentEqual(xs) {
        var i :| 0 <= i < |xs| - 1 && xs[i] == xs[i + 1];
        assert i > 0;
        assert tail[i - 1] == tail[i];
      }
      if AdjacentEqual(tail) {
        var i :| 0 <= i < |tail| - 1 && tail[i] == tail[i + 1];
        assert xs[i + 1] == xs[i + 2];
      }
      assert AdjacentEqual(xs) <==> AdjacentEqual(tail);
    }
  }

  // ---------------------------------------------------------------------
  // What a slide does

  /**
   * A slide to the left leaves the reference pairing of the row's tiles,
   * packed to the left and padded with empty cells, and earns the pairing's
   * score.
   */
  lemma {:induction false} MoveRowLeftIsPackedCombine(row: Row)
    ensures var c := Combine(NonZeros(row));
      MoveRowLeft(row) == Slid(c.row + Zeros(|row| - |c.row|), c.gain)
  {
    var nz := NonZeros(row);
    var k := |row| - |nz|;
    var c := Combine(nz);
    MergePadded(nz, k);
    var m := Merge(nz);
    MergeAgreesWithCombine(nz);
    NonZerosConcat(m.row, Zeros(k));
    NonZerosOfZeros(k);
    assert NonZeros(m.row + Zeros(k)) == c.row;
  }

  /** A slide keeps the length and the sum of the row, and every tile a power of two. */
  lemma SlideKeepsSumAndTiles(row: Row)
    ensures |MoveRowLeft(row).row| == |row|
    ensures Sum(MoveRowLeft(row).row) == Sum(row)
    ensures RowTiles(row) ==> RowTiles(MoveRowLeft(row).row)
  {
    var nz := NonZeros(row);
    var c := Combine(nz);
    MoveRowLeftIsPackedCombine(row);
    CombineLength(nz);
    SumConcat(c.row, Zeros(|row| - |c.row|));
    SumZeros(|row| - |c.row|);
    CombineKeepsSum(nz);
    SumNonZeros(row);
    if RowTiles(row) {
      assert RowTiles(nz) by {
        NonZerosKeepTiles(row);
      }
      CombineKeepsTiles(nz);
    }
  }

  lemma {:induction false} NonZerosKeepTiles(row: Row)
    requires RowTiles(row)
    ensures RowTiles(NonZeros(row))
    decreases |row|
  {
    if |row| > 0 {
      NonZerosKeepTiles(row[1..]);
    }
  }

  /** [2, 2, 2, 2] slides to [4, 4, 0, 0] scoring 8: the new 4s do not merge again. */
  lemma NoDoubleMerge()
    ensures MoveRowLeft([2, 2, 2, 2]) == Slid([4, 4, 0, 0], 8)
  {
    MoveRowLeftIsPackedCombine([2, 2, 2, 2]);
    NonZerosOfNoZero([2, 2, 2, 2]);
    assert [2, 2, 2, 2][2..] == [2, 2];
    assert [2, 2][2..] == [];
  }

  /**
   * The feasibility check agrees with the slide: a row is left-movable
   * exactly when sliding it left changes it.
   */
  lemma LeftMovableIffSlideChanges(row: Row)
    ensures RowIsLeftMovable(row) <==> MoveRowLeft(row).row != row
  {
    PackedIffNoGap(row);
    if !RowIsLeftMovable(row) {
      StuckRowStays(row);
    } else if !HasGap(row) {
      PackedMergeChanges(row);
    } else {
      GappedRowChanges(row);
    }
  }

  /** A stuck row is its tiles, no two neighbours equal, followed by empty cells. */
  lemma StuckRowShape(row: Row)
    requires !RowIsLeftMovable(row)
    ensures row == NonZeros(row) + Zeros(|row| - |NonZeros(row)|)
    ensures !AdjacentEqual(NonZeros(row))
  {
    var nz := NonZeros(row);
    PackedIffNoGap(row);
    PackedIsTilesThenZeros(row);
    forall i | 0 <= i < |nz| - 1
      ensures nz[i] != nz[i + 1]
    {
      assert row[i] == nz[i] && row[i + 1] == nz[i + 1];
    }
  }

  /** A row with no gap and no equal neighbours is already its own slide, and scores nothing. */
  lemma StuckRowStays(row: Row)
    requires !RowIsLeftMovable(row)
    ensures MoveRowLeft(row).row == row
    ensures MoveRowLeft(row).gain == 0
  {
    StuckRowShape(row);
    MoveRowLeftIsPackedCombine(row);
    CombineLength(NonZeros(row));
  }

  /** A packed row with two equal neighbours loses a tile in the slide. */
  lemma PackedMergeChanges(row: Row)
    requires RowIsLeftMovable(row) && !HasGap(row)
    ensures MoveRowLeft(row).row != row
  {
    var nz := NonZeros(row);
    var c := Combine(nz);
    var r := MoveRowLeft(row).row;
    MoveRowLeftIsPackedCombine(row);
    CombineLength(nz);
    PackedIffNoGap(row);
    PackedIsTilesThenZeros(row);
    var i :| 0 <= i < |row| - 1 &&
      ((row[i] == 0 && row[i + 1] != 0) || (row[i] != 0 && row[i + 1] == row[i]));
    assert i + 1 < |nz|;
    assert nz[i] == nz[i + 1];
    CombineNoZero(nz);
    NonZerosOfNoZero(c.row);
    NonZerosConcat(c.row, Zeros(|row| - |c.row|));
    NonZerosOfZeros(|row| - |c.row|);
    assert NonZeros(r) == c.row;
  }

  /** A row with a gap is not packed, while every slide result is. */
  lemma GappedRowChanges(row: Row)
    requires HasGap(row)
    ensures MoveRowLeft(row).row != row
  {
    PackedIffNoGap(row);
  }

  lemma {:induction false} EmptyCellDropped(row: Row, k: nat)
    requires k < |row| && row[k] == 0
    ensures |NonZeros(row)| < |row|
    decreases |row|
  {
    if k > 0 {
      EmptyCellDropped(row[1..], k - 1);
    }
  }

  /** A row that can slide left ends, after the slide, in an empty cell. */
  lemma MovableLeavesEmptyCell(row: Row)
    requires RowIsLeftMovable(row)
    ensures MoveRowLeft(row).row[|row| - 1] == 0
  {
    var nz := NonZeros(row);
    var c := Combine(nz);
    MoveRowLeftIsPackedCombine(row);
    CombineLength(nz);
    var i :| 0 <= i < |row| - 1 &&
      ((row[i] == 0 && row[i + 1] != 0) || (row[i] != 0 && row[i + 1] == row[i]));
    if row[i] == 0 {
      EmptyCellDropped(row, i);
    } else if |nz| == |row| {
      if exists k :: 0 <= k < |row| && row[k] == 0 {
        var k :| 0 <= k < |row| && row[k] == 0;
        EmptyCellDropped(row, k);
      }
      NonZerosOfNoZero(row);
      assert nz[i] == nz[i + 1];
    }
    assert |c.row| < |row|;
  }
}
