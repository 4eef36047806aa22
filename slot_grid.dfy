/**
 * The geometry of a GUI: slots are numbered from 0 and grouped into rows of 9.
 * These pure definitions say which slots each bulk fill of the GUI means to write,
 * independently of the loops that write them.
 */
module SlotGrid {
  import opened GuiTypes

  /** The width of a row. */
  const Width := 9

  /** The size a GUI falls back to when its size is not a whole number of rows. */
  const DefaultSize := 54

  /**
   * The number of whole rows of a GUI with `size` slots, computed as Java's `size / 9`,
   * which truncates toward zero (Dafny's `/` rounds down instead).
   */
  function Rows(size: int): (n: int)
    ensures 0 <= size ==> 0 <= n && Width * n <= size < Width * n + Width
    ensures size < 0 ==> n <= 0 && Width * n - Width < size <= Width * n
  {
    if size >= 0 then size / Width else -((-size) / Width)
  }

  /** Slot `k` lies in row `line`. */
  predicate InRow(line: int, k: int) {
    0 <= k && k / Width == line
  }

  /** Slot `k` lies in column `column`. */
  predicate InColumn(column: int, k: int) {
    0 <= k && k % Width == column
  }

  /**
   * A row is the run of 9 consecutive slots starting at `9 * line`, and columns `from..to`
   * of it are the slots `9 * line + from .. 9 * line + to`: the ranges the row fills walk.
   */
  lemma RowSpan(line: int, from: int, to: int, k: int)
    requires 0 <= line && 0 <= from && to < Width
    ensures (Width * line + from <= k <= Width * line + to) <==> (InRow(line, k) && from <= k % Width <= to)
  {
  }

  /** The slot in row `r` and column `c` is `9 * r + c`, and it lies in both. */
  lemma SlotAt(r: int, c: int)
    requires 0 <= r && 0 <= c < Width
    ensures InRow(r, Width * r + c) && InColumn(c, Width * r + c)
  {
  }

  /**
   * The rows lying wholly inside a grid of `size` slots are exactly rows `0 .. size / 9 - 1`:
   * row `line` fits iff `line < size / 9`.
   */
  lemma {:induction false} RowFitsIff(size: int, line: int)
    requires 0 <= size && 0 <= line
    ensures (forall k :: InRow(line, k) ==> k < size) <==> line < Rows(size)
  {
    SlotAt(line, Width - 1);
    if line < Rows(size) {
      forall k | InRow(line, k) ensures k < size {
        RowSpan(line, 0, Width - 1, k);
      }
    }
  }

  /**
   * The row guard of the line fills only compares `line` against `size`: any line it admits
   * at or beyond `size / 9` has its last slot outside the grid.
   */
  lemma LineGuardAdmitsRowPastEnd(size: int, line: int)
    requires 0 <= size && 0 <= line < size
    requires Rows(size) <= line
    ensures InRow(line, Width * line + Width - 1) && size <= Width * line + Width - 1
  {
  }

  /** Every slot a column fill writes lies inside the grid. */
  lemma ColumnSlotInGrid(size: int, column: int, k: int)
    requires 0 <= size && InColumn(column, k) && k / Width < Rows(size)
    ensures k < size
  {
  }

  /** On a 54-slot GUI the second row is the slot range 9..17. */
  lemma SecondRowOfFiftyFour(k: int)
    ensures InRow(1, k) <==> 9 <= k <= 17
  {
  }

  /** On a 54-slot GUI column 4 is the slots 4, 13, 22, 31, 40 and 49. */
  lemma FifthColumnOfFiftyFour(k: int)
    ensures (InColumn(4, k) && k / Width < Rows(DefaultSize)) <==> k in {4, 13, 22, 31, 40, 49}
  {
  }

  /** The size `build` gives a GUI: its own if it is a whole number of rows, else 54. */
  function BuildSize(size: int): (s: int)
    ensures s % Width == 0
    ensures size % Width == 0 ==> s == size
    ensures size % Width != 0 ==> s == DefaultSize
  {
    if size % Width != 0 then DefaultSize else size
  }

  /**
   * Java's `Arrays.copyOfRange(a, from, to)`: the elements `a[from..to]`, padded with nulls where
   * `to` runs past the end. It throws unless `0 <= from <= |a|` and `from <= to`.
   */
  function CopyOfRange(a: seq<Slot>, from: int, to: int): (r: seq<Slot>)
    requires 0 <= from <= |a| && from <= to
    ensures |r| == to - from
    ensures forall i :: 0 <= i < |r| ==> r[i] == if from + i < |a| then a[from + i] else None
  {
    if to <= |a| then a[from..to] else a[from..] + seq(to - |a|, _ => None)
  }

  /**
   * The contents left by the size setter as written: shrinking to `s` keeps a copy of the
   * first `s - 1` slots, growing keeps the contents as they are.
   */
  function ResizedAsWritten(c: seq<Slot>, oldSize: int, s: int): (r: seq<Slot>)
    requires s < oldSize ==> 1 <= s
    ensures s < oldSize ==> |r| == s - 1
    ensures s >= oldSize ==> r == c
    ensures forall i :: 0 <= i < |r| && i < |c| ==> r[i] == c[i]
  {
    if s < oldSize then CopyOfRange(c, 0, s - 1) else c
  }

  /**
   * The size setter is off by one when shrinking: a consistent GUI of `n` slots shrunk to `s`
   * slots keeps only `s - 1` of them, so its last slot `s - 1` no longer exists and the
   * contents no longer match the size.
   */
  lemma ShrinkLosesLastSlot(c: seq<Slot>, s: int)
    requires 1 <= s < |c|
    ensures |ResizedAsWritten(c, |c|, s)| == s - 1 < s
  {
  }

  /**
   * Building a GUI whose size exceeds 54 and is not a whole number of rows leaves it with size 54
   * and only 53 content slots.
   */
  lemma BuildOfOversizedGuiIsShort(c: seq<Slot>)
    requires |c| > DefaultSize && |c| % Width != 0
    ensures BuildSize(|c|) == DefaultSize
    ensures |ResizedAsWritten(c, |c|, BuildSize(|c|))| == DefaultSize - 1
  {
  }
}
