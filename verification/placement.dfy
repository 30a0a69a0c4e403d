/** Writing the active piece into the board: the nested loops of `Tetris::make_permanent`
    in src/tetris.rs. The piece type itself lives in `crate::tetrimino`, which is not part
    of this model; only the fields the board reads are kept. */
module Placement {
  import opened Cells

  /** The active piece: its rotation-state grids, which one is current, and its anchor.
      `x` is signed (it may be negative near the left wall), `y` counts rows from the top. */
  datatype Tetrimino = Tetrimino(states: seq<Grid>, currentState: nat, x: int, y: nat)

  /** Whether piece cell (dy, dx) is one the loops of `make_permanent` reach: inside the current state,
      in a board row, and left of that row's end. Negative columns are reached too. */
  predicate Reached(g: Grid, st: Grid, px: int, py: nat, dy: int, dx: int) {
    && 0 <= dy < |st| && py + dy < |g|
    && 0 <= dx < |st[dy]| && px + dx < |g[py + dy]|
  }

  /** What `make_permanent` needs of the piece to run without a panic: the current state index
      is in range, and no reached non-zero cell lies left of column 0 (there is no
      left-edge clipping, so `x as usize` would index out of range). */
  predicate Placeable(g: Grid, p: Tetrimino) {
    && p.currentState < |p.states|
    && var st := p.states[p.currentState];
       forall dy, dx ::
         (0 <= dy < |st| && 0 <= dx < |st[dy]| && Reached(g, st, p.x, p.y, dy, dx) && st[dy][dx] != 0)
         ==> 0 <= p.x + dx
  }

  /** Whether board cell (i, j) lies under a non-zero cell of state `st` anchored at (px, py). */
  predicate Covered(st: Grid, px: int, py: nat, i: int, j: int) {
    && py <= i < py + |st|
    && 0 <= j - px < |st[i - py]|
    && st[i - py][j - px] != 0
  }

  /** The value of board cell (i, j) once state `st` anchored at (px, py) is written. */
  function CellAfter(g: Grid, st: Grid, px: int, py: nat, i: nat, j: nat): u8
    requires i < |g| && j < |g[i]|
  {
    if Covered(st, px, py, i, j) then st[i - py][j - px] else g[i][j]
  }

  /** The grid after writing the piece, defined cell by cell from the board's side.
      Seen from the piece, it stores every reached non-zero cell and nothing else. */
  function Written(g: Grid, p: Tetrimino): (r: Grid)
    requires p.currentState < |p.states|
    ensures |r| == |g|
    ensures forall i :: 0 <= i < |g| ==> |r[i]| == |g[i]|
    ensures var st := p.states[p.currentState];
            forall dy, dx ::
              (Reached(g, st, p.x, p.y, dy, dx) && st[dy][dx] != 0 && 0 <= p.x + dx)
              ==> r[p.y + dy][p.x + dx] == st[dy][dx]
    ensures forall i, j ::
              (0 <= i < |g| && 0 <= j < |g[i]| && !Covered(p.states[p.currentState], p.x, p.y, i, j))
              ==> r[i][j] == g[i][j]
  {
    var st := p.states[p.currentState];
    seq(|g|, i requires 0 <= i < |g| =>
      seq(|g[i]|, j requires 0 <= j < |g[i]| =>
        CellAfter(g, st, p.x, p.y, i, j)))
  }

  /** The write as `make_permanent` performs it: for each reached piece cell that is non-zero,
      store it at (y + dy, x + dx). */
  method WritePiece(g: Grid, p: Tetrimino) returns (r: Grid)
    requires Placeable(g, p)
    ensures |r| == |g|
    ensures forall i :: 0 <= i < |g| ==> |r[i]| == |g[i]|
    ensures var st := p.states[p.currentState];
            forall dy, dx :: Reached(g, st, p.x, p.y, dy, dx) && st[dy][dx] != 0 ==>
              r[p.y + dy][p.x + dx] == st[dy][dx]
    ensures forall i, j ::
              (0 <= i < |g| && 0 <= j < |g[i]| && !Covered(p.states[p.currentState], p.x, p.y, i, j))
              ==> r[i][j] == g[i][j]
    ensures r == Written(g, p)
  {
    var st := p.states[p.currentState];
    r := g;
    var shiftY := 0;
    while shiftY < |st| && p.y + shiftY < |r|
      invariant |r| == |g|
      invariant forall i :: 0 <= i < |g| ==> |r[i]| == |g[i]|
      invariant forall i, j :: 0 <= i < |g| && 0 <= j < |g[i]| ==>
                  r[i][j] == if i < p.y + shiftY then CellAfter(g, st, p.x, p.y, i, j) else g[i][j]
    {
      var row := p.y + shiftY;
      var shiftX := 0;
      while shiftX < |st[shiftY]| && p.x + shiftX < |r[row]|
        invariant 0 <= shiftX
        invariant |r| == |g|
        invariant forall i :: 0 <= i < |g| ==> |r[i]| == |g[i]|
        invariant forall i, j :: 0 <= i < |g| && 0 <= j < |g[i]| && i != row ==>
                    r[i][j] == if i < row then CellAfter(g, st, p.x, p.y, i, j) else g[i][j]
        invariant forall j :: 0 <= j < |g[row]| ==>
                    r[row][j] == if j < p.x + shiftX then CellAfter(g, st, p.x, p.y, row, j) else g[row][j]
      {
        if st[shiftY][shiftX] != 0 {
          assert Reached(g, st, p.x, p.y, shiftY, shiftX);
          var x := p.x + shiftX;
          r := r[row := r[row][x := st[shiftY][shiftX]]];
        }
        shiftX := shiftX + 1;
      }
      shiftY := shiftY + 1;
    }
    var w := Written(g, p);
    forall i | 0 <= i < |g|
      ensures r[i] == w[i]
    {
      forall j | 0 <= j < |g[i]|
        ensures r[i][j] == w[i][j]
      {
        if i >= p.y + shiftY {
          assert !Covered(st, p.x, p.y, i, j);
        }
      }
    }
  }
}
