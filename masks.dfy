/**
 * The byte masks of src/photo/utils.c and the three operations on them:
 * merging one mask into another where they overlap (shMasksMerge), merging
 * with an explicit offset (shMasksMergeWithOffset), and testing whether two
 * masks overlap (shMasksOverlap).
 *
 * A MASK is a grid of unsigned chars whose pixel (0, 0) sits at (row0, col0)
 * of the parent frame; rows[r, c] is the pixel at (row0 + r, col0 + c).
 */
module Masks {

  class Mask {
    const row0: int
    const col0: int
    const rows: array2<bv8>

    constructor (row0: int, col0: int, nrow: nat, ncol: nat)
      ensures this.row0 == row0 && this.col0 == col0
      ensures rows.Length0 == nrow && rows.Length1 == ncol
      ensures fresh(rows)
    {
      this.row0 := row0;
      this.col0 := col0;
      rows := new bv8[nrow, ncol];
    }

    function NRow(): nat { rows.Length0 }
    function NCol(): nat { rows.Length1 }
  }

  datatype RetCode = Success | GenericError

  /** `|=` of an int into an unsigned char keeps the low byte of val. */
  function LowByte(val: int): bv8
  {
    (val % 256) as bv8
  }

  /**
   * The pixel that (y, x) of mask2 receives from a merge in which pixel
   * (i, j) of mask1 lands on (i + top, j + left) of mask2, counting mask2's
   * pixels from 0: ORed with val under a nonzero pixel of mask1, kept
   * otherwise.
   */
  ghost function Merged(mask1: Mask, top: int, left: int, val: int, y: int, x: int, before: bv8): bv8
    reads mask1.rows
  {
    if top <= y < top + mask1.NRow() && left <= x < left + mask1.NCol() && mask1.rows[y - top, x - left] != 0
    then before | LowByte(val) else before
  }

  /** The placement shMasksMergeWithOffset accepts: mask1 lies wholly inside mask2. */
  predicate PlacementFits(mask1: Mask, mask2: Mask, dcol: int, drow: int)
  {
    0 <= mask1.row0 + drow < mask2.NRow() && 0 <= mask1.col0 + dcol < mask2.NCol() &&
    mask1.row0 + drow + mask1.NRow() <= mask2.NRow() &&
    mask1.col0 + dcol + mask1.NCol() <= mask2.NCol()
  }

  /**
   * shMasksMergeWithOffset: the (0, 0) pixel of mask1 is merged into pixel
   * (mask1.row0 + drow, mask1.col0 + dcol) of mask2. A NULL mask, or a
   * placement whose start or end falls outside mask2, is an error and
   * changes nothing.
   */
  method ShMasksMergeWithOffset(mask1: Mask?, mask2: Mask?, val: int, dcol: int, drow: int) returns (r: RetCode)
    requires mask1 != null && mask2 != null ==> mask1.rows != mask2.rows
    modifies if mask2 != null then {mask2.rows} else {}
    ensures mask1 == null || mask2 == null ==> r == GenericError
    ensures mask1 != null && mask2 != null ==> (r == Success <==> PlacementFits(mask1, mask2, dcol, drow))
    ensures r == GenericError && mask2 != null ==> unchanged(mask2.rows)
    ensures r == Success ==>
      forall y, x :: 0 <= y < mask2.NRow() && 0 <= x < mask2.NCol() ==>
        mask2.rows[y, x] == Merged(mask1, mask1.row0 + drow, mask1.col0 + dcol, val, y, x, old(mask2.rows[y, x]))
  {
    if mask1 == null {
      return GenericError;
    }
    if mask2 == null {
      return GenericError;
    }
    if mask1.row0 + drow < 0 || mask1.row0 + drow >= mask2.NRow() ||
       mask1.col0 + dcol < 0 || mask1.col0 + dcol >= mask2.NCol() {
      return GenericError;
    }
    if mask1.row0 + drow + mask1.NRow() > mask2.NRow() ||
       mask1.col0 + dcol + mask1.NCol() > mask2.NCol() {
      return GenericError;
    }
    var top, left := mask1.row0 + drow, mask1.col0 + dcol;
    var r1 := 0;
    while r1 < mask1.NRow()
      invariant 0 <= r1 <= mask1.NRow()
      invariant forall y, x :: 0 <= y < mask2.NRow() && 0 <= x < mask2.NCol() ==>
        mask2.rows[y, x] == if y < top + r1 then Merged(mask1, top, left, val, y, x, old(mask2.rows[y, x])) else old(mask2.rows[y, x])
    {
      MergeRow(mask1, mask2, val, top, left, r1, 0, mask1.NCol());
      r1 := r1 + 1;
    }
    return Success;
  }

  /**
   * The inner `for (c ...)` loop: row r1 of mask1 (its columns c0 up to cn)
   * ORed into row top + r1 of mask2 at column offset left.
   */
  method MergeRow(mask1: Mask, mask2: Mask, val: int, top: int, left: int, r1: int, c0: int, cn: int)
    requires mask1.rows != mask2.rows
    requires 0 <= r1 < mask1.NRow() && 0 <= top + r1 < mask2.NRow()
    requires 0 <= c0 <= cn <= mask1.NCol() && 0 <= left + c0 && left + cn <= mask2.NCol()
    modifies mask2.rows
    ensures forall y, x :: 0 <= y < mask2.NRow() && 0 <= x < mask2.NCol() ==>
      mask2.rows[y, x] == if y == top + r1 && left + c0 <= x < left + cn && mask1.rows[r1, x - left] != 0
        then old(mask2.rows[y, x]) | LowByte(val) else old(mask2.rows[y, x])
  {
    var c := c0;
    while c < cn
      invariant c0 <= c <= cn
      invariant forall y, x :: 0 <= y < mask2.NRow() && 0 <= x < mask2.NCol() ==>
        mask2.rows[y, x] == if y == top + r1 && left + c0 <= x < left + c && mask1.rows[r1, x - left] != 0
          then old(mask2.rows[y, x]) | LowByte(val) else old(mask2.rows[y, x])
    {
      if mask1.rows[r1, c] != 0 {
        mask2.rows[top + r1, left + c] := mask2.rows[top + r1, left + c] | LowByte(val);
      }
      c := c + 1;
    }
  }

  /**
   * The region shMasksMerge scans: rows row0 .. rown and columns col0 .. coln
   * of the parent frame, with rown and coln the LAST row and column common to
   * both masks (inclusive bounds).
   */
  datatype Bounds = Bounds(row0: int, rown: int, col0: int, coln: int)

  /** The overlap of mask1 and mask2: the later first row and column, the earlier last ones. */
  function Overlap(mask1: Mask, mask2: Mask): (b: Bounds)
    ensures b.row0 == (if mask1.row0 > mask2.row0 then mask1.row0 else mask2.row0)
    ensures b.col0 == (if mask1.col0 > mask2.col0 then mask1.col0 else mask2.col0)
    ensures b.rown < mask1.row0 + mask1.NRow() && b.rown < mask2.row0 + mask2.NRow()
    ensures b.rown == mask1.row0 + mask1.NRow() - 1 || b.rown == mask2.row0 + mask2.NRow() - 1
    ensures b.coln < mask1.col0 + mask1.NCol() && b.coln < mask2.col0 + mask2.NCol()
    ensures b.coln == mask1.col0 + mask1.NCol() - 1 || b.coln == mask2.col0 + mask2.NCol() - 1
  {
    var col0 := if mask1.col0 > mask2.col0 then mask1.col0 else mask2.col0;
    var coln := if mask1.col0 + mask1.NCol() < mask2.col0 + mask2.NCol()
      then mask1.col0 + mask1.NCol() - 1 else mask2.col0 + mask2.NCol() - 1;
    var row0 := if mask1.row0 > mask2.row0 then mask1.row0 else mask2.row0;
    var rown := if mask1.row0 + mask1.NRow() < mask2.row0 + mask2.NRow()
      then mask1.row0 + mask1.NRow() - 1 else mask2.row0 + mask2.NRow() - 1;
    Bounds(row0, rown, col0, coln)
  }

  /**
   * The pixel (y, x) of mask2 (its own indexes) after a merge of mask1 that
   * covers the parent-frame rows [rowLo, rowHi) and columns [colLo, colHi).
   */
  ghost function MergedOver(mask1: Mask, mask2: Mask, val: int, rowLo: int, rowHi: int, colLo: int, colHi: int, y: int, x: int, before: bv8): bv8
    reads mask1.rows
  {
    var pr, pc := mask2.row0 + y, mask2.col0 + x;
    if rowLo <= pr < rowHi && colLo <= pc < colHi &&
       0 <= pr - mask1.row0 < mask1.NRow() && 0 <= pc - mask1.col0 < mask1.NCol() &&
       mask1.rows[pr - mask1.row0, pc - mask1.col0] != 0
    then before | LowByte(val) else before
  }

  /**
   * shMasksMerge as written: its loops run `r < rown` and `c < coln` although
   * rown and coln are inclusive, so the last common row and column are never
   * merged.
   */
  method ShMasksMergeAsWritten(mask1: Mask?, mask2: Mask?, val: int) returns (r: RetCode)
    requires mask1 != null && mask2 != null ==> mask1.rows != mask2.rows
    modifies if mask2 != null then {mask2.rows} else {}
    ensures mask1 == null || mask2 == null ==> r == GenericError
    ensures mask1 != null && mask2 != null ==>
      (r == Success <==> Overlap(mask1, mask2).row0 <= Overlap(mask1, mask2).rown && Overlap(mask1, mask2).col0 <= Overlap(mask1, mask2).coln)
    ensures r == GenericError && mask2 != null ==> unchanged(mask2.rows)
    ensures r == Success ==>
      var b := Overlap(mask1, mask2);
      forall y, x :: 0 <= y < mask2.NRow() && 0 <= x < mask2.NCol() ==>
        mask2.rows[y, x] == MergedOver(mask1, mask2, val, b.row0, b.rown, b.col0, b.coln, y, x, old(mask2.rows[y, x]))
  {
    if mask1 == null || mask2 == null {
      return GenericError;
    }
    var b := Overlap(mask1, mask2);
    var row0, rown, col0, coln := b.row0, b.rown, b.col0, b.coln;
    if col0 > coln || row0 > rown {
      return GenericError;
    }
    MergeRange(mask1, mask2, val, row0, rown, col0, coln);
    return Success;
  }

  /**
   * shMasksMerge with inclusive loops `r <= rown` and `c <= coln`: every
   * pixel common to both masks is merged.
   */
  method ShMasksMerge(mask1: Mask?, mask2: Mask?, val: int) returns (r: RetCode)
    requires mask1 != null && mask2 != null ==> mask1.rows != mask2.rows
    modifies if mask2 != null then {mask2.rows} else {}
    ensures mask1 == null || mask2 == null ==> r == GenericError
    ensures mask1 != null && mask2 != null ==>
      (r == Success <==> Overlap(mask1, mask2).row0 <= Overlap(mask1, mask2).rown && Overlap(mask1, mask2).col0 <= Overlap(mask1, mask2).coln)
    ensures r == GenericError && mask2 != null ==> unchanged(mask2.rows)
    ensures r == Success ==>
      forall y, x :: 0 <= y < mask2.NRow() && 0 <= x < mask2.NCol() ==>
        mask2.rows[y, x] == MergedOver(mask1, mask2, val, mask2.row0, mask2.row0 + mask2.NRow(), mask2.col0, mask2.col0 + mask2.NCol(), y, x, old(mask2.rows[y, x]))
  {
    if mask1 == null || mask2 == null {
      return GenericError;
    }
    var b := Overlap(mask1, mask2);
    var row0, rown, col0, coln := b.row0, b.rown, b.col0, b.coln;
    if col0 > coln || row0 > rown {
      return GenericError;
    }
    MergeRange(mask1, mask2, val, row0, rown + 1, col0, coln + 1);
    forall y, x | 0 <= y < mask2.NRow() && 0 <= x < mask2.NCol()
      ensures MergedOver(mask1, mask2, val, row0, rown + 1, col0, coln + 1, y, x, old(mask2.rows[y, x]))
        == MergedOver(mask1, mask2, val, mask2.row0, mask2.row0 + mask2.NRow(), mask2.col0, mask2.col0 + mask2.NCol(), y, x, old(mask2.rows[y, x]))
    {
    }
    return Success;
  }

  /** The two loops of shMasksMerge over the parent-frame rows [rowLo, rowHi) and columns [colLo, colHi). */
  method MergeRange(mask1: Mask, mask2: Mask, val: int, rowLo: int, rowHi: int, colLo: int, colHi: int)
    requires mask1.rows != mask2.rows
    requires rowLo <= rowHi && colLo <= colHi
    requires mask1.row0 <= rowLo && rowHi <= mask1.row0 + mask1.NRow()
    requires mask2.row0 <= rowLo && rowHi <= mask2.row0 + mask2.NRow()
    requires mask1.col0 <= colLo && colHi <= mask1.col0 + mask1.NCol()
    requires mask2.col0 <= colLo && colHi <= mask2.col0 + mask2.NCol()
    modifies mask2.rows
    ensures forall y, x :: 0 <= y < mask2.NRow() && 0 <= x < mask2.NCol() ==>
      mask2.rows[y, x] == MergedOver(mask1, mask2, val, rowLo, rowHi, colLo, colHi, y, x, old(mask2.rows[y, x]))
  {
    var r := rowLo;
    while r < rowHi
      invariant rowLo <= r <= rowHi
      invariant forall y, x :: 0 <= y < mask2.NRow() && 0 <= x < mask2.NCol() ==>
        mask2.rows[y, x] == MergedOver(mask1, mask2, val, rowLo, r, colLo, colHi, y, x, old(mask2.rows[y, x]))
    {
      MergeRow(mask1, mask2, val, mask1.row0 - mask2.row0, mask1.col0 - mask2.col0, r - mask1.row0, colLo - mask1.col0, colHi - mask1.col0);
      r := r + 1;
    }
  }

  /** Two 1 by 1 masks on the same pixel, the pixel of mask1 set. */
  lemma MergeMissesLastRowAndColumn(mask1: Mask, mask2: Mask)
    requires mask1.row0 == mask2.row0 && mask1.col0 == mask2.col0
    requires mask1.NRow() == 1 && mask1.NCol() == 1 && mask2.NRow() == 1 && mask2.NCol() == 1
    requires mask1.rows[0, 0] != 0
    ensures Overlap(mask1, mask2) == Bounds(mask1.row0, mask1.row0, mask1.col0, mask1.col0)
    ensures MergedOver(mask1, mask2, 1, mask1.row0, mask1.row0, mask1.col0, mask1.col0, 0, 0, 0) == 0
    ensures MergedOver(mask1, mask2, 1, mask2.row0, mask2.row0 + 1, mask2.col0, mask2.col0 + 1, 0, 0, 0) == 1
  {
  }

  /**
   * Parent-frame pixel (y, x) is covered by mask1 and by mask2 moved by
   * (drow, dcol), and is nonzero in both.
   */
  ghost predicate BothSet(mask1: Mask, mask2: Mask, dcol: int, drow: int, y: int, x: int)
    reads mask1.rows, mask2.rows
  {
    0 <= y - mask1.row0 < mask1.NRow() && 0 <= x - mask1.col0 < mask1.NCol() &&
    0 <= y - (mask2.row0 + drow) < mask2.NRow() && 0 <= x - (mask2.col0 + dcol) < mask2.NCol() &&
    mask1.rows[y - mask1.row0, x - mask1.col0] != 0 &&
    mask2.rows[y - (mask2.row0 + drow), x - (mask2.col0 + dcol)] != 0
  }

  /** The two masks overlap: some pixel is set in both. */
  ghost predicate Overlaps(mask1: Mask, mask2: Mask, dcol: int, drow: int)
    reads mask1.rows, mask2.rows
  {
    exists y, x :: BothSet(mask1, mask2, dcol, drow, y, x)
  }

  /**
   * shMasksOverlap: 1 if some pixel of the intersection (mask2 moved by
   * (drow, dcol)) is nonzero in both masks, 0 otherwise.
   */
  method ShMasksOverlap(mask1: Mask, mask2: Mask, dcol: int, drow: int) returns (r: int)
    ensures r == 0 || r == 1
    ensures r == 1 <==> Overlaps(mask1, mask2, dcol, drow)
  {
    var col20 := mask2.col0 + dcol;
    var row20 := mask2.row0 + drow;
    var col0 := if mask1.col0 > col20 then mask1.col0 else col20;
    var coln := if mask1.col0 + mask1.NCol() < col20 + mask2.NCol() then mask1.col0 + mask1.NCol() else col20 + mask2.NCol();
    var row0 := if mask1.row0 > row20 then mask1.row0 else row20;
    var rown := if mask1.row0 + mask1.NRow() < row20 + mask2.NRow() then mask1.row0 + mask1.NRow() else row20 + mask2.NRow();
    var y := row0;
    while y < rown
      invariant row0 <= y
      invariant forall y', x' :: row0 <= y' < y && col0 <= x' < coln ==> !BothSet(mask1, mask2, dcol, drow, y', x')
    {
      var x := col0;
      while x < coln
        invariant col0 <= x
        invariant forall y', x' :: row0 <= y' < y && col0 <= x' < coln ==> !BothSet(mask1, mask2, dcol, drow, y', x')
        invariant forall x' :: col0 <= x' < x ==> !BothSet(mask1, mask2, dcol, drow, y, x')
      {
        if mask1.rows[y - mask1.row0, x - mask1.col0] != 0 && mask2.rows[y - row20, x - col20] != 0 {
          assert BothSet(mask1, mask2, dcol, drow, y, x);
          return 1;
        }
        x := x + 1;
      }
      y := y + 1;
    }
    return 0;
  }

  /** Whether two masks overlap does not depend on which one is moved. */
  lemma OverlapsSymmetric(mask1: Mask, mask2: Mask, dcol: int, drow: int)
    ensures Overlaps(mask1, mask2, dcol, drow) <==> Overlaps(mask2, mask1, -dcol, -drow)
  {
    if Overlaps(mask1, mask2, dcol, drow) {
      var y, x :| BothSet(mask1, mask2, dcol, drow, y, x);
      assert BothSet(mask2, mask1, -dcol, -drow, y - drow, x - dcol);
    }
    if Overlaps(mask2, mask1, -dcol, -drow) {
      var y, x :| BothSet(mask2, mask1, -dcol, -drow, y, x);
      assert BothSet(mask1, mask2, dcol, drow, y + drow, x + dcol);
    }
  }
}
