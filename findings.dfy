/// Two places where tetrad.js does not do what it evidently means to do.
/// Each is shown on the model of the code as written, next to a corrected
/// definition with the property the code was meant to have.
///
///  1. delete_rows applies the indices of one scan to a board that its own
///     earlier deletions have already shifted: after closing a row in the
///     upper half, every later index names the row below the intended one.
///  2. slam_control lands the tile but leaves it active until the next tick,
///     so the landed blocks and the active tile share cells; when the
///     landing cleared a row, the next tick lands the same tile again.
module Findings {
  import opened Shapes
  import opened Board
  import opened Scoring
  import opened Directions
  import opened Rules
  import opened Engine

  // ---------------------------------------------------------------------
  // Counting full rows

  /** The number of full rows of `b`. */
  function FullCount(b: Grid): nat
  {
    if b == [] then 0 else FullCount(b[..|b| - 1]) + (if Full(b[|b| - 1]) then 1 else 0)
  }

  /** The scan of the first `n` rows finds as many rows as are full there. */
  lemma {:induction false} FullRowsBelowCount(b: Grid, n: nat)
    requires n <= |b|
    ensures |FullRowsBelow(b, n)| == FullCount(b[..n])
  {
    if n > 0 {
      FullRowsBelowCount(b, n - 1);
      assert b[..n][..n - 1] == b[..n - 1];
    }
  }

  /** Full rows add up over a split of the rows. */
  lemma {:induction false} FullCountConcat(a: Grid, c: Grid)
    ensures FullCount(a + c) == FullCount(a) + FullCount(c)
  {
    if c == [] {
      assert a + c == a;
    } else {
      var c' := c[..|c| - 1];
      FullCountConcat(a, c');
      assert (a + c)[..|a + c| - 1] == a + c';
    }
  }

  /** A one-row board has one full row exactly when that row is full. */
  lemma FullCountSingle(row: Row)
    ensures FullCount([row]) == if Full(row) then 1 else 0
  {
    assert [row][..0] == [];
  }

  /** The row the deletion loops write is never full. */
  lemma EmptyRowNotFull()
    ensures !Full(EmptyRow())
  {
    assert EmptyRow()[0] == 0;
  }

  /** Deleting row `r` takes away one full row if `r` was full, none otherwise. */
  lemma FullRowsDeleted(b: Grid, r: int)
    requires WellFormed(b) && 0 <= r < HEIGHT
    ensures |FullRows(RowDeleted(b, r))| == |FullRows(b)| - (if Full(b[r]) then 1 else 0)
  {
    var tail := b[r..];
    assert b[..r] + tail == b;
    FullCountConcat(b[..r], tail);
    assert [b[r]] + b[r + 1..] == tail;
    FullCountConcat([b[r]], b[r + 1..]);
    FullCountSingle(b[r]);
    EmptyRowNotFull();
    FullCountSingle(EmptyRow());
    FullCountConcat(b[..r] + b[r + 1..], [EmptyRow()]);
    FullCountConcat([EmptyRow()], b[..r] + b[r + 1..]);
    FullCountConcat(b[..r], b[r + 1..]);
    var after := RowDeleted(b, r);
    FullRowsBelowCount(b, |b|);
    FullRowsBelowCount(after, |after|);
    assert b[..|b|] == b;
    assert after[..|after|] == after;
  }

  /** Rows that are not full add nothing to the scan. */
  lemma {:induction false} FullRowsBelowSkip(b: Grid, m: nat, n: nat)
    requires m <= n <= |b|
    requires forall k :: m <= k < n ==> !Full(b[k])
    ensures FullRowsBelow(b, n) == FullRowsBelow(b, m)
    decreases n
  {
    if n > m {
      FullRowsBelowSkip(b, m, n - 1);
    }
  }

  /** The first row a top-down search finds full is the first index of the scan. */
  lemma FirstFullRow(b: Grid, i: int)
    requires WellFormed(b) && 0 <= i <= HEIGHT
    requires forall k :: 0 <= k < i ==> !Full(b[k])
    requires i < HEIGHT ==> Full(b[i])
    ensures i == HEIGHT <==> FullRows(b) == []
    ensures i < HEIGHT ==> FullRows(b)[0] == i
  {
    FullRowsBelowExact(b, |b|);
    FullRowsAreFull(b);
    if i < HEIGHT {
      var rows := FullRows(b);
      assert i in rows;
      var m :| 0 <= m < |rows| && rows[m] == i;
      assert Full(b[rows[0]]);
    }
  }

  // ---------------------------------------------------------------------
  // 1. Stale row indices in delete_rows

  /** The mechanism, as written: with rows r and r + 1 full in the upper half,
      deleting r moves row r + 1 up into r, so the second index deletes what
      was row r + 2. One full row survives the pass and a row that was not
      full is gone. */
  lemma StaleIndexSkipsFullRow(b: Grid, r: int)
    requires WellFormed(b) && 0 <= r && 2 * (r + 1) < HEIGHT
    ensures var after := RowsDeleted(b, [r, r + 1]);
      && (forall k :: 0 <= k <= r ==> after[k] == b[k + (if k == r then 1 else 0)])
      && (forall k :: r < k < HEIGHT - 2 ==> after[k] == b[k + 2])
      && after[HEIGHT - 2] == EmptyRow() && after[HEIGHT - 1] == EmptyRow()
  {
    assert [r, r + 1][..1] == [r];
    assert [r][..0] == [];
    var mid := RowDeleted(b, r);
    assert RowsDeleted(b, [r]) == mid;
  }

  /** The board of the concrete case: rows 0 and 1 full, row 2 not full,
      the rest empty. */
  predicate TwoFullOnTop(b: Grid)
  {
    && WellFormed(b) && Full(b[0]) && Full(b[1]) && !Full(b[2])
    && forall k :: 3 <= k < HEIGHT ==> b[k] == EmptyRow()
  }

  /** On that board the scan finds rows 0 and 1, and the first pass as
      written leaves the old row 1 full at the top of an otherwise empty
      board: row 2's blocks are gone. */
  lemma TwoFullOnTopFirstPass(b: Grid)
    requires TwoFullOnTop(b)
    ensures FullRows(b) == [0, 1]
    ensures var after := RowsDeleted(b, [0, 1]);
      && after[0] == b[1] && (forall k :: 1 <= k < HEIGHT ==> after[k] == EmptyRow())
      && FullRows(after) == [0] && RowsDeleted(after, [0]) == EmptyBoard()
  {
    EmptyRowNotFull();
    assert FullRows(b) == [0, 1] by {
      FullRowsBelowSkip(b, 2, HEIGHT);
      assert FullRowsBelow(b, 1) == [0];
    }
    var after := RowsDeleted(b, [0, 1]);
    assert after[0] == b[1] && forall k :: 1 <= k < HEIGHT ==> after[k] == EmptyRow() by {
      StaleIndexSkipsFullRow(b, 0);
    }
    assert FullRows(after) == [0] by {
      FullRowsBelowSkip(after, 1, HEIGHT);
      assert FullRowsBelow(after, 1) == [0];
    }
    assert RowsDeleted(after, [0]) == EmptyBoard() by {
      assert [0][..0] == [];
      assert RowsDeleted(after, [0][..0]) == after;
      assert RowsDeleted(after, [0]) == RowDeleted(after, 0);
    }
  }

  /** The starting board has no full row. */
  lemma EmptyBoardNoFullRows()
    ensures FullRows(EmptyBoard()) == []
  {
    EmptyRowNotFull();
    FullRowsBelowSkip(EmptyBoard(), 0, HEIGHT);
  }

  /** A concrete board that shows it: rows 0 and 1 full, row 2 not full, the
      rest empty. The first pass deletes row 0 and then what was row 2; the
      second pass deletes the surviving full row. Three rows are paid for
      where two were full, and row 2's blocks vanish. */
  lemma StaleIndexPaysThrice(b: Grid, p: Progress)
    requires TwoFullOnTop(b)
    ensures |FullRows(b)| == 2
    ensures var out := ClearFullRows(b, p);
      && out.deleted == 3 && out.board == EmptyBoard()
      && out.progress.score == p.score + 3 * SCORE_PER_ROW
  {
    TwoFullOnTopFirstPass(b);
    var after := RowsDeleted(b, [0, 1]);
    EmptyBoardNoFullRows();
    var p1 := AfterIncrease(p, 2);
    var p2 := AfterIncrease(p1, 1);
    assert ClearFullRows(EmptyBoard(), p2).deleted == 0;
    assert ClearFullRows(after, p1) == Cleared(EmptyBoard(), ClearFullRows(EmptyBoard(), p2).progress, 1);
  }

  /** On the same board the corrected clearing deletes row 0, then row 1
      (moved to 0), and stops: two rows paid, row 2 kept at the top. */
  lemma OneAtATimeKeepsRow(b: Grid, p: Progress)
    requires TwoFullOnTop(b)
    ensures var fixed := ClearOneAtATime(b, p);
      && fixed.deleted == 2 && fixed.board[0] == b[2]
      && fixed.progress.score == p.score + 2 * SCORE_PER_ROW
  {
    EmptyRowNotFull();
    TwoFullOnTopFirstPass(b);
    var m1 := RowDeleted(b, 0);
    assert m1[0] == b[1] && m1[1] == b[2];
    FullRowsBelowSkip(m1, 1, HEIGHT);
    assert FullRowsBelow(m1, 1) == [0];
    var m2 := RowDeleted(m1, 0);
    assert m2[0] == b[2];
    FullRowsBelowSkip(m2, 0, HEIGHT);
    var q1 := AfterIncrease(p, 1);
    var q2 := AfterIncrease(q1, 1);
    assert ClearOneAtATime(m2, q2) == Cleared(m2, q2, 0);
    assert ClearOneAtATime(m1, q1) == Cleared(m2, q2, 1);
  }

  /** check_for_full_rows as evidently intended: delete the first full row,
      pay for it, scan again, until no row is full. Exactly the full rows
      go: every deletion takes WIDTH blocks and pays one row. */
  function ClearOneAtATime(b: Grid, p: Progress): (out: Cleared)
    requires WellFormed(b)
    ensures WellFormed(out.board) && FullRows(out.board) == []
    ensures out.deleted == |FullRows(b)|
    ensures Occupied(b) == Occupied(out.board) + out.deleted * WIDTH
    ensures out.progress.score == p.score + out.deleted * SCORE_PER_ROW
    ensures Sane(p) ==> Sane(out.progress) && out.progress.nextLevel >= p.nextLevel
    decreases |FullRows(b)|
  {
    FullRowsAreFull(b);
    if FullRows(b) == [] then
      Cleared(b, p, 0)
    else
      var r := FullRows(b)[0];
      RowDeletedOccupied(b, r);
      FullRowsDeleted(b, r);
      var rest := ClearOneAtATime(RowDeleted(b, r), AfterIncrease(p, 1));
      Cleared(rest.board, rest.progress, 1 + rest.deleted)
  }

  /** The corrected clearing on the game's own board, with the game's own
      row-closing loops and increase_score. */
  method ClearRowsOneAtATime(g: Game)
    requires WellFormed(g.board[..])
    modifies g.board, g`score, g`nextLevel, g`levelUps
    ensures var out := ClearOneAtATime(old(g.board[..]), old(g.Prog()));
      g.board[..] == out.board && g.Prog() == out.progress
    decreases |FullRows(g.board[..])|
  {
    ghost var b := g.board[..];
    var i := 0;
    while i < HEIGHT && 0 in g.board[i]
      invariant 0 <= i <= HEIGHT
      invariant forall k :: 0 <= k < i ==> !Full(b[k])
    {
      i := i + 1;
    }
    FirstFullRow(b, i);
    if i == HEIGHT {
      return;
    }
    if 2 * i < HEIGHT {
      g.CloseGapUpward(i);
    } else {
      g.CloseGapDownward(i);
    }
    g.IncreaseScore(1);
    FullRowsDeleted(b, i);
    ClearRowsOneAtATime(g);
  }

  // ---------------------------------------------------------------------
  // 2. The slammed tile stays active

  /** As written: after a slam that clears no row, the tile that stays
      active covers cells the landing just filled, so it collides where it
      stands. */
  lemma SlammedTileOverlapsBoard(b: Grid, regions: Layout, pos: Point, p: Progress)
    requires WellFormed(b) && Shaped(regions) && InBounds(regions, pos) && Sane(p)
    requires FullRows(Landed(b, regions, pos)) == []
    ensures Collides(ClearFullRows(Landed(b, regions, pos), p).board, regions, pos)
  {
    ClearNothing(Landed(b, regions, pos), p);
    var i, j :| 0 <= i < |regions| && 0 <= j < |regions| && regions[i][j] != 0;
    assert BlockOnBoard(regions, pos, i, j);
    LandedCells(b, regions, pos, pos.y + i, pos.x + j);
  }

  /** A block that would sit off the board makes the piece collide. */
  lemma OffBoardCollides(b: Grid, l: Layout, pos: Point, i: int, j: int)
    requires WellFormed(b) && IsBlock(l, i, j)
    requires !(0 <= pos.y + i < HEIGHT && 0 <= pos.x + j < WIDTH)
    ensures Collides(b, l, pos)
  {
    assert BlockBlocked(b, l, pos, i, j);
  }

  /** The Tetril's second layout: the I piece lying flat in its second row. */
  const FlatTetril: Layout := [[0, 0, 0, 0], [1, 1, 1, 1], [0, 0, 0, 0], [0, 0, 0, 0]]

  /** FlatTetril is the layout a Tetril shows after one quarter turn. */
  lemma FlatTetrilInTable()
    ensures Rotations(Tetril)[1] == FlatTetril
  {
  }

  /** The board of the concrete case: empty but for the bottom row, which is
      full except for its first four cells. */
  predicate GapAtBottomLeft(b: Grid)
  {
    && WellFormed(b)
    && (forall k :: 0 <= k < HEIGHT - 1 ==> b[k] == EmptyRow())
    && b[HEIGHT - 1] == seq(WIDTH, c => if c < 4 then 0 else 1)
  }

  /** A flat Tetril landed in the gap fills the bottom row, and deleting
      that row empties the board. */
  lemma FlatTetrilFillsGap(b: Grid)
    requires GapAtBottomLeft(b)
    ensures var lb := Landed(b, FlatTetril, Point(0, HEIGHT - 2));
      FullRows(lb) == [HEIGHT - 1] && RowDeleted(lb, HEIGHT - 1) == EmptyBoard()
  {
    var pos := Point(0, HEIGHT - 2);
    var lb := Landed(b, FlatTetril, pos);
    EmptyRowNotFull();
    assert forall k :: 0 <= k < HEIGHT - 1 ==> lb[k] == EmptyRow() by {
      forall k | 0 <= k < HEIGHT - 1
        ensures lb[k] == EmptyRow()
      {
        assert forall c :: 0 <= c < WIDTH ==> !Covers(FlatTetril, pos, k, c);
      }
    }
    assert Full(lb[HEIGHT - 1]) by {
      var bottom := lb[HEIGHT - 1];
      assert forall c :: 0 <= c < WIDTH ==> bottom[c] != 0;
    }
    assert FullRows(lb) == [HEIGHT - 1] by {
      FullRowsBelowSkip(lb, 0, HEIGHT - 1);
    }
  }

  /** On the empty board, a flat Tetril anchored one row above the bottom
      cannot step south, and landing it fills the bottom-left cell. */
  lemma FlatTetrilOnEmptyBottom()
    ensures Collides(EmptyBoard(), FlatTetril, Point(0, HEIGHT - 1))
    ensures Landed(EmptyBoard(), FlatTetril, Point(0, HEIGHT - 2))[HEIGHT - 1][0] == 1
  {
    assert IsBlock(FlatTetril, 1, 0);
    OffBoardCollides(EmptyBoard(), FlatTetril, Point(0, HEIGHT - 1), 1, 0);
    assert Covers(FlatTetril, Point(0, HEIGHT - 2), HEIGHT - 1, 0);
  }

  /** As written, on a concrete board: the bottom row is full except for its
      first four cells, the rest is empty, and a flat Tetril is slammed south
      into those four cells. The landing clears the bottom row and empties
      the board, but the tile stays where it landed; its step south is
      blocked, so the next tick lands it again and its four blocks reappear
      on the bottom row. */
  lemma SlammedTileLandsTwice(b: Grid, p: Progress)
    requires GapAtBottomLeft(b)
    ensures var pos := Point(0, HEIGHT - 2);
      var first := ClearFullRows(Landed(b, FlatTetril, pos), p);
      && first.deleted == 1 && first.board == EmptyBoard()
      && Collides(first.board, FlatTetril, Step(pos, South))
      && Landed(first.board, FlatTetril, pos)[HEIGHT - 1][0] == 1
  {
    var pos := Point(0, HEIGHT - 2);
    var lb := Landed(b, FlatTetril, pos);
    FlatTetrilFillsGap(b);
    assert RowsDeleted(lb, [HEIGHT - 1]) == EmptyBoard() by {
      assert [HEIGHT - 1][..0] == [];
      assert RowsDeleted(lb, [HEIGHT - 1][..0]) == lb;
    }
    EmptyBoardNoFullRows();
    var p1 := AfterIncrease(p, 1);
    assert ClearFullRows(EmptyBoard(), p1).deleted == 0;
    assert ClearFullRows(lb, p) == Cleared(EmptyBoard(), ClearFullRows(EmptyBoard(), p1).progress, 1);
    FlatTetrilOnEmptyBottom();
  }

  /** slam_control as evidently intended: slam and land the tile, then bring
      in the next one at once, as next_moment does after a landing. Unless
      the game ends, the new active tile is free of the board. */
  method SlamThenNextTile(g: Game, which: nat, dice: int)
    requires g.Valid() && !g.over && which < |Tiles|
    modifies g, g.board, g.active
    ensures g.Valid() && fresh(g.active)
    ensures g.active.kind == Tiles[which] && g.active.rotations == Rotations(g.active.kind)
    ensures g.active.pos == TILE_START && g.active.curRotation == 0
    ensures !g.over ==> g.ActiveFree()
    ensures var end := StepN(old(g.active.pos), old(g.curDirection),
        SlamSteps(old(g.board[..]), old(g.active.regions), old(g.active.pos), old(g.curDirection)));
      var out := ClearFullRows(Landed(old(g.board[..]), old(g.active.regions), end), old(g.Prog()));
      g.board[..] == out.board && g.Prog() == out.progress
  {
    g.SlamTile(g.active);
    var ok := g.GetNextTile(which);
    if ok {
      g.SetDirection(dice);
    }
  }
}
