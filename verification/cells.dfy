/** Cell values and the board grid shared by the board logic of src/tetris.rs. */
module Cells {

  /** An unsigned 8-bit cell value: 0 is empty, any other value is occupied. */
  newtype u8 = x: int | 0 <= x < 0x100

  /** An unsigned 32-bit counter (level, score, lines). */
  newtype u32 = x: int | 0 <= x < 0x1_0000_0000

  type Row = seq<u8>
  type Grid = seq<Row>

  /** The board is 16 rows of 10 columns. */
  const Height: nat := 16
  const Width: nat := 10

  /** The row of ten zero cells that the board uses for fresh rows. */
  function EmptyRow(): (r: Row)
    ensures |r| == Width
    ensures forall j :: 0 <= j < |r| ==> r[j] == 0
  {
    [0, 0, 0, 0, 0, 0, 0, 0, 0, 0]
  }

  /** `n` fresh rows. */
  function EmptyRows(n: nat): (rs: Grid)
    ensures |rs| == n
    ensures forall i :: 0 <= i < n ==> rs[i] == EmptyRow()
  {
    seq(n, _ => EmptyRow())
  }

  /** A row is complete when none of its cells is 0; a row with no cells is complete. */
  predicate IsFull(row: Row) {
    forall j :: 0 <= j < |row| ==> row[j] != 0
  }

  /** The board shape: exactly 16 rows, each exactly 10 cells wide. */
  predicate WellShaped(g: Grid) {
    |g| == Height && forall i :: 0 <= i < |g| ==> |g[i]| == Width
  }

  /** No row of the grid is complete. */
  predicate NoFullRow(g: Grid) {
    forall i :: 0 <= i < |g| ==> !IsFull(g[i])
  }

  lemma EmptyRowNotFull()
    ensures !IsFull(EmptyRow())
  {
    assert EmptyRow()[0] == 0;
  }
}
