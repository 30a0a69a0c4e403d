/** The game session record and its operations: `Tetris::new`, `check_lines` and
    `make_permanent` in src/tetris.rs. */
module Game {
  import opened Cells
  import opened Lines
  import opened Placement

  datatype Option<T> = None | Some(value: T)

  /** The session: the board, the level/score/line counters and the active piece. */
  datatype Tetris = Tetris(
    gameMap: Grid,
    currentLevel: u32,
    score: u32,
    numberOfLines: u32,
    currentTetrimino: Option<Tetrimino>)

  /** A fresh session: an empty 16 by 10 board at level 1, with nothing scored and no piece. */
  function New(): (t: Tetris)
    ensures WellShaped(t.gameMap)
    ensures forall i, j :: 0 <= i < |t.gameMap| && 0 <= j < |t.gameMap[i]| ==> t.gameMap[i][j] == 0
    ensures t.currentLevel == 1 && t.score == 0 && t.numberOfLines == 0
    ensures t.currentTetrimino == None
  {
    Tetris(EmptyRows(Height), 1, 0, 0, None)
  }

  /** Clear complete rows. Only the board changes: the code updates no counter here. */
  function CheckLines(t: Tetris): (r: Tetris)
    ensures NoFullRow(r.gameMap)
    ensures WellShaped(t.gameMap) ==> WellShaped(r.gameMap)
    ensures forall row :: row in r.gameMap ==> row == EmptyRow() || (row in t.gameMap && !IsFull(row))
    ensures forall row :: row in t.gameMap && !IsFull(row) ==> row in r.gameMap
    ensures r.score == t.score && r.numberOfLines == t.numberOfLines
    ensures r.currentLevel == t.currentLevel && r.currentTetrimino == t.currentTetrimino
  {
    t.(gameMap := CheckLinesGrid(t.gameMap))
  }

  /** What `make_permanent` needs of the session: an active piece, if any, is placeable. */
  predicate CanLock(t: Tetris) {
    t.currentTetrimino.Some? ==> Placeable(t.gameMap, t.currentTetrimino.value)
  }

  /** Lock the active piece: write it into the board, clear complete rows, drop the piece.
      Without an active piece nothing happens. No counter changes. */
  function MakePermanent(t: Tetris): (r: Tetris)
    requires CanLock(t)
    ensures t.currentTetrimino == None ==> r == t
    ensures r.currentTetrimino == None
    ensures r.score == t.score && r.numberOfLines == t.numberOfLines && r.currentLevel == t.currentLevel
    ensures t.currentTetrimino.Some? ==>
              r.gameMap == CheckLinesGrid(Written(t.gameMap, t.currentTetrimino.value))
    ensures t.currentTetrimino.Some? ==> NoFullRow(r.gameMap)
    ensures WellShaped(t.gameMap) ==> WellShaped(r.gameMap)
  {
    match t.currentTetrimino
    case None => t
    case Some(p) =>
      var w := Written(t.gameMap, p);
      assert |w| == |t.gameMap| && forall i :: 0 <= i < |w| ==> |w[i]| == |t.gameMap[i]|;
      var locked := CheckLines(t.(gameMap := w));
      locked.(currentTetrimino := None)
  }

  /** `make_permanent` step by step as src/tetris.rs runs it: the write loops, then the scan. */
  method MakePermanentSteps(t: Tetris) returns (r: Tetris)
    requires CanLock(t)
    ensures r == MakePermanent(t)
    ensures t.currentTetrimino.Some? ==> NoFullRow(r.gameMap) && r.currentTetrimino == None
  {
    if t.currentTetrimino.None? {
      return t;
    }
    var p := t.currentTetrimino.value;
    var written := WritePiece(t.gameMap, p);
    var cleared := CheckLinesScan(written);
    r := t.(gameMap := cleared, currentTetrimino := None);
  }

  /** Clearing a session already cleared changes nothing. */
  lemma CheckLinesIdempotentSession(t: Tetris)
    ensures CheckLines(CheckLines(t)) == CheckLines(t)
  {
    CheckLinesIdempotent(t.gameMap);
  }

  /** The fresh session has nothing to clear and nothing to lock. */
  lemma NewIsSettled()
    ensures CheckLines(New()) == New()
    ensures MakePermanent(New()) == New()
  {
    var g := New().gameMap;
    EmptyRowNotFull();
    SurvivorsOfClean(g);
  }

  /** Writing a one-cell piece of value `v` at (col, Height - 1) fills that cell of the
      bottom row and leaves every other row as it was. */
  lemma WriteOneCellAtBottom(g: Grid, col: nat, v: u8)
    requires WellShaped(g)
    requires col < Width && v != 0
    ensures Written(g, Tetrimino([[[v]]], 0, col, Height - 1))
            == g[..Height - 1] + [g[Height - 1][col := v]]
  {
    var p := Tetrimino([[[v]]], 0, col, Height - 1);
    var w := Written(g, p);
    assert Reached(g, [[v]], col, Height - 1, 0, 0);
    assert w[Height - 1] == g[Height - 1][col := v];
    assert w[..Height - 1] == g[..Height - 1] by {
      forall i | 0 <= i < Height - 1
        ensures w[i] == g[i]
      {
        forall j | 0 <= j < |g[i]|
          ensures w[i][j] == g[i][j]
        {
          assert !Covered([[v]], col, Height - 1, i, j);
        }
      }
    }
    assert w == w[..Height - 1] + [w[Height - 1]];
  }

  /** A one-cell piece at a non-negative column never needs left-edge clipping. */
  lemma OneCellPlaceable(g: Grid, col: nat, v: u8)
    ensures Placeable(g, Tetrimino([[[v]]], 0, col, Height - 1))
  {
  }

  /** A complete row under incomplete ones is removed and the rows above move down. */
  lemma ClearCompleteBottomRow(above: Grid, bottom: Row)
    requires NoFullRow(above) && IsFull(bottom)
    requires |above| < Height
    ensures CheckLinesGrid(above + [bottom]) == EmptyRows(Height - |above|) + above
  {
    SurvivorsAppend(above, [bottom]);
    assert [bottom][1..] == [];
    SurvivorsOfClean(above);
    assert Survivors(above + [bottom]) == above;
  }

  /** Filling the one gap of the bottom row removes that row: the rows above move down by
      one and a fresh row appears on top. The piece is a single cell of value `v`. */
  lemma LockFillsGapClearsBottom(t: Tetris, col: nat, v: u8)
    requires WellShaped(t.gameMap)
    requires col < Width && v != 0
    requires NoFullRow(t.gameMap[..Height - 1])
    requires IsFull(t.gameMap[Height - 1][col := v])
    requires t.currentTetrimino == Some(Tetrimino([[[v]]], 0, col, Height - 1))
    ensures CanLock(t)
    ensures MakePermanent(t).gameMap == [EmptyRow()] + t.gameMap[..Height - 1]
  {
    var g := t.gameMap;
    var p := t.currentTetrimino.value;
    var above := g[..Height - 1];
    var bottom := g[Height - 1][col := v];
    assert Placeable(g, p) by {
      OneCellPlaceable(g, col, v);
    }
    assert Written(g, p) == above + [bottom] by {
      WriteOneCellAtBottom(g, col, v);
    }
    assert CheckLinesGrid(above + [bottom]) == [EmptyRow()] + above by {
      ClearCompleteBottomRow(above, bottom);
      assert EmptyRows(1) == [EmptyRow()];
    }
    assert MakePermanent(t).gameMap == CheckLinesGrid(Written(g, p));
  }
}
