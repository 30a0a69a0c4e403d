/** Line clearing: `Tetris::check_lines` in src/tetris.rs. */
module Lines {
  import opened Cells

  /** The rows that survive clearing: the incomplete rows, in their original order. */
  function Survivors(g: Grid): (s: Grid)
    ensures |s| <= |g|
    ensures NoFullRow(s)
    decreases |g|
  {
    if |g| == 0 then []
    else if IsFull(g[0]) then Survivors(g[1..])
    else [g[0]] + Survivors(g[1..])
  }

  /** The surviving rows are exactly the incomplete rows of `g`. */
  lemma {:induction false} SurvivorsMembers(g: Grid)
    ensures forall row :: row in Survivors(g) <==> row in g && !IsFull(row)
    decreases |g|
  {
    if |g| > 0 {
      SurvivorsMembers(g[1..]);
      assert g == [g[0]] + g[1..];
    }
  }

  /** Refill the top with fresh rows until there are 16 rows again. */
  function Pad(s: Grid): (r: Grid)
    ensures |r| == if |s| < Height then Height else |s|
    ensures r[|r| - |s|..] == s
    ensures forall i :: 0 <= i < |r| - |s| ==> r[i] == EmptyRow()
  {
    if |s| < Height then EmptyRows(Height - |s|) + s else s
  }

  /** The grid after clearing every complete row. */
  function CheckLinesGrid(g: Grid): (r: Grid)
    ensures NoFullRow(r)
    ensures |r| >= Height
    ensures forall row :: row in r ==> row == EmptyRow() || (row in g && !IsFull(row))
    ensures forall row :: row in g && !IsFull(row) ==> row in r
    ensures (|g| <= Height && forall i :: 0 <= i < |g| ==> |g[i]| == Width) ==> WellShaped(r)
  {
    var s := Survivors(g);
    SurvivorsMembers(g);
    EmptyRowNotFull();
    var r := Pad(s);
    assert forall i :: 0 <= i < |r| ==> r[i] == EmptyRow() || r[i] in s by {
      forall i | 0 <= i < |r|
        ensures r[i] == EmptyRow() || r[i] in s
      {
        if i >= |r| - |s| {
          assert r[i] == r[|r| - |s|..][i - (|r| - |s|)];
        }
      }
    }
    r
  }

  /** Clearing distributes over concatenation: rows above keep their place before rows below. */
  lemma {:induction false} SurvivorsAppend(a: Grid, b: Grid)
    ensures Survivors(a + b) == Survivors(a) + Survivors(b)
    decreases |a|
  {
    if |a| == 0 {
      assert a + b == b;
    } else {
      assert (a + b)[0] == a[0];
      assert (a + b)[1..] == a[1..] + b;
      SurvivorsAppend(a[1..], b);
    }
  }

  /** A grid with no complete row survives clearing unchanged. */
  lemma {:induction false} SurvivorsOfClean(g: Grid)
    requires NoFullRow(g)
    ensures Survivors(g) == g
    decreases |g|
  {
    if |g| > 0 {
      assert !IsFull(g[0]);
      SurvivorsOfClean(g[1..]);
      assert [g[0]] + g[1..] == g;
    }
  }

  /** Clearing twice is the same as clearing once. */
  lemma CheckLinesIdempotent(g: Grid)
    ensures CheckLinesGrid(CheckLinesGrid(g)) == CheckLinesGrid(g)
  {
    var r := CheckLinesGrid(g);
    SurvivorsOfClean(r);
  }

  /** The cleared grid is some fresh rows followed by the incomplete rows of `g`, in order. */
  lemma CheckLinesShape(g: Grid)
    ensures var r := CheckLinesGrid(g);
            var k := |r| - |Survivors(g)|;
            && (forall i :: 0 <= i < k ==> r[i] == EmptyRow())
            && r[k..] == Survivors(g)
            && (|Survivors(g)| < Height ==> k == Height - |Survivors(g)|)
  {
  }

  /** Whether every cell of `row` is non-zero, scanning as the inner loop of `check_lines` does. */
  method RowComplete(row: Row) returns (complete: bool)
    ensures complete <==> IsFull(row)
  {
    complete := true;
    var j := 0;
    while j < |row|
      invariant 0 <= j <= |row|
      invariant complete <==> forall k :: 0 <= k < j ==> row[k] != 0
      invariant !complete ==> !IsFull(row)
      decreases |row| - j
    {
      if row[j] == 0 {
        complete := false;
        break;
      }
      j := j + 1;
    }
  }

  /** The remove-and-step-back scan of `check_lines` (its first loop).
      `y` is an int: the value -1 after removing row 0 stands for the wrapped
      `usize` that the following increment brings back to 0. */
  method RemoveFullRows(g: Grid) returns (r: Grid)
    ensures r == Survivors(g)
  {
    r := g;
    var y: int := 0;
    ghost var i := 0;
    while y < |r|
      invariant 0 <= i <= |g|
      invariant 0 <= y <= |r|
      invariant y == |Survivors(g[..i])|
      invariant r == Survivors(g[..i]) + g[i..]
      decreases |r| - y
    {
      ScanStep(g, i, r, y);
      var complete := RowComplete(r[y]);
      if complete {
        r := r[..y] + r[y + 1..];
        y := y - 1;
      }
      y := y + 1;
      i := i + 1;
    }
    assert g[..i] == g;
  }

  /** One scan step: row `i` of `g` sits at index `y` of the partly scanned grid; removing
      it when complete, or stepping past it otherwise, scans it into the prefix. */
  lemma ScanStep(g: Grid, i: nat, r: Grid, y: nat)
    requires i < |g|
    requires y == |Survivors(g[..i])|
    requires r == Survivors(g[..i]) + g[i..]
    ensures y < |r| && r[y] == g[i]
    ensures IsFull(g[i]) ==> r[..y] + r[y + 1..] == Survivors(g[..i + 1]) + g[i + 1..]
    ensures IsFull(g[i]) ==> y == |Survivors(g[..i + 1])|
    ensures !IsFull(g[i]) ==> r == Survivors(g[..i + 1]) + g[i + 1..]
    ensures !IsFull(g[i]) ==> y + 1 == |Survivors(g[..i + 1])|
  {
    var done := Survivors(g[..i]);
    assert g[..i + 1] == g[..i] + [g[i]];
    SurvivorsAppend(g[..i], [g[i]]);
    assert [g[i]][1..] == [];
    assert g[i..] == [g[i]] + g[i + 1..];
    assert r[..y] == done && r[y + 1..] == g[i + 1..];
    if !IsFull(g[i]) {
      assert r == (done + [g[i]]) + g[i + 1..];
    }
  }

  /** The second loop of `check_lines`: insert fresh rows at the top until there are 16. */
  method Refill(s: Grid) returns (r: Grid)
    ensures r == Pad(s)
  {
    r := s;
    while |r| < Height
      invariant |s| <= |r|
      invariant |s| < Height ==> |r| <= Height
      invariant |s| >= Height ==> r == s
      invariant r[|r| - |s|..] == s
      invariant forall k :: 0 <= k < |r| - |s| ==> r[k] == EmptyRow()
      decreases Height - |r|
    {
      r := [EmptyRow()] + r;
    }
    ghost var p := Pad(s);
    assert |r| == |p|;
    forall k | 0 <= k < |r|
      ensures r[k] == p[k]
    {
      if k >= |r| - |s| {
        assert r[k] == r[|r| - |s|..][k - (|r| - |s|)];
        assert p[k] == p[|p| - |s|..][k - (|p| - |s|)];
      }
    }
  }

  /** `check_lines` as written in src/tetris.rs: scan out complete rows, then refill. */
  method CheckLinesScan(g: Grid) returns (r: Grid)
    ensures r == CheckLinesGrid(g)
  {
    var s := RemoveFullRows(g);
    r := Refill(s);
  }
}
