/// QuadrisBoard as a value: its fixed dimensions, the collision test that
/// treats walls and landed cells alike, committing a piece, and the scan and
/// deletion of full rows that the game performs on it in place.
module Board {
  import opened Shapes

  /** HEIGHT_BLOCKS: number of rows. Row 0 is the top of the screen. */
  const HEIGHT: nat := 20
  /** WIDTH_BLOCKS: number of cells in a row. */
  const WIDTH: nat := 25

  /** A row of cells: 0 is empty, any other value is a landed block. */
  type Row = seq<int>
  /** The board: HEIGHT rows, indexed [row][column]. */
  type Grid = seq<Row>

  /** A board position: x is the column, y the row (the source's `Point`). */
  datatype Point = Point(x: int, y: int)

  /** The board keeps its dimensions for the whole game. */
  predicate WellFormed(b: Grid)
  {
    |b| == HEIGHT && forall r :: 0 <= r < |b| ==> |b[r]| == WIDTH
  }

  /** A row of WIDTH zeros: what the deletion loops write into the vacated edge row. */
  function EmptyRow(): (z: Row)
    ensures |z| == WIDTH && forall c :: 0 <= c < WIDTH ==> z[c] == 0
  {
    seq(WIDTH, _ => 0)
  }

  /** The starting board: HEIGHT rows of zeros. */
  function EmptyBoard(): (b: Grid)
    ensures WellFormed(b) && forall r :: 0 <= r < HEIGHT ==> b[r] == EmptyRow()
  {
    seq(HEIGHT, _ => EmptyRow())
  }

  /** A board cell that a block cannot occupy: off the board (rows checked
      against the board's length, columns against its first row's) or landed. */
  predicate Blocked(b: Grid, row: int, col: int)
    requires WellFormed(b)
  {
    row < 0 || row >= |b| || col < 0 || col >= |b[0]| || b[row][col] != 0
  }

  /** Sub-cell (i, j) of `regions` holds a block. */
  predicate IsBlock(regions: Layout, i: int, j: int)
  {
    0 <= i < |regions| && 0 <= j < |regions[i]| && regions[i][j] != 0
  }

  /** Sub-cell (i, j) of `regions`, anchored at `pos`, is a block on a blocked cell. */
  predicate BlockBlocked(b: Grid, regions: Layout, pos: Point, i: int, j: int)
    requires WellFormed(b)
  {
    IsBlock(regions, i, j) && Blocked(b, pos.y + i, pos.x + j)
  }

  /** Some block of `regions`, anchored at `pos`, lies on a blocked cell. */
  predicate Collides(b: Grid, regions: Layout, pos: Point)
    requires WellFormed(b)
  {
    exists i, j :: 0 <= i < |regions| && 0 <= j < |regions[i]| && BlockBlocked(b, regions, pos, i, j)
  }

  /** Sub-cell (i, j) of `regions`, anchored at `pos`, is no block or lies on the board. */
  predicate BlockOnBoard(regions: Layout, pos: Point, i: int, j: int)
  {
    IsBlock(regions, i, j) ==> 0 <= pos.y + i < HEIGHT && 0 <= pos.x + j < WIDTH
  }

  /** Every block of `regions`, anchored at `pos`, lies on the board. */
  predicate InBounds(regions: Layout, pos: Point)
  {
    forall i, j :: 0 <= i < |regions| && 0 <= j < |regions[i]| ==> BlockOnBoard(regions, pos, i, j)
  }

  /** Board cell (row, col) lies under a block of `regions` anchored at `pos`. */
  predicate Covers(regions: Layout, pos: Point, row: int, col: int)
  {
    && 0 <= row - pos.y < |regions|
    && 0 <= col - pos.x < |regions[row - pos.y]|
    && regions[row - pos.y][col - pos.x] != 0
  }

  /** The board after a piece is committed: 1 in every cell under a block,
      every other cell as before. */
  function Landed(b: Grid, regions: Layout, pos: Point): (b': Grid)
    requires WellFormed(b)
    ensures WellFormed(b')
  {
    seq(HEIGHT, r requires 0 <= r < HEIGHT =>
      seq(WIDTH, c requires 0 <= c < WIDTH => if Covers(regions, pos, r, c) then 1 else b[r][c]))
  }

  /** A piece that is free is on the board. */
  lemma FreeIsInBounds(b: Grid, regions: Layout, pos: Point)
    requires WellFormed(b) && !Collides(b, regions, pos)
    ensures InBounds(regions, pos)
  {
    forall i, j
      ensures BlockOnBoard(regions, pos, i, j)
    {
      assert !BlockBlocked(b, regions, pos, i, j);
    }
  }

  /** Committing a piece sets exactly the cells under its blocks, and the
      committed piece then collides where it stands. */
  lemma LandedCells(b: Grid, regions: Layout, pos: Point, row: int, col: int)
    requires WellFormed(b) && 0 <= row < HEIGHT && 0 <= col < WIDTH
    ensures Landed(b, regions, pos)[row][col] == if Covers(regions, pos, row, col) then 1 else b[row][col]
    ensures Covers(regions, pos, row, col) ==> Collides(Landed(b, regions, pos), regions, pos)
  {
    if Covers(regions, pos, row, col) {
      var i, j := row - pos.y, col - pos.x;
      assert BlockBlocked(Landed(b, regions, pos), regions, pos, i, j);
    }
  }

  // ---------------------------------------------------------------------
  // Full rows

  /** A row is full when it holds no 0 (`row.indexOf(0) < 0`). */
  predicate Full(row: Row)
  {
    0 !in row
  }

  /** The indices of the full rows among rows 0..n-1, in ascending order:
      what the scan of check_for_full_rows pushes after `n` iterations. */
  function FullRowsBelow(b: Grid, n: nat): (rows: seq<int>)
    requires n <= |b|
    ensures forall k :: 0 <= k < |rows| ==> 0 <= rows[k] < n
  {
    if n == 0 then [] else FullRowsBelow(b, n - 1) + (if Full(b[n - 1]) then [n - 1] else [])
  }

  /** The indices of all full rows of `b`, ascending. */
  function FullRows(b: Grid): seq<int>
  {
    FullRowsBelow(b, |b|)
  }

  /** The scan finds exactly the full rows, each once, in ascending order. */
  lemma {:induction false} FullRowsBelowExact(b: Grid, n: nat)
    requires n <= |b|
    ensures forall r :: r in FullRowsBelow(b, n) <==> 0 <= r < n && Full(b[r])
    ensures forall k, m :: 0 <= k < m < |FullRowsBelow(b, n)| ==> FullRowsBelow(b, n)[k] < FullRowsBelow(b, n)[m]
  {
    if n > 0 {
      FullRowsBelowExact(b, n - 1);
    }
  }

  /** Every index of the scan names a row that is full. */
  lemma FullRowsAreFull(b: Grid)
    ensures forall k :: 0 <= k < |FullRows(b)| ==> 0 <= FullRows(b)[k] < |b| && Full(b[FullRows(b)[k]])
    ensures FullRows(b) == [] <==> forall r :: 0 <= r < |b| ==> !Full(b[r])
  {
    FullRowsBelowExact(b, |b|);
    if FullRows(b) != [] {
      assert FullRows(b)[0] in FullRows(b);
    }
  }

  // ---------------------------------------------------------------------
  // Occupancy

  /** Number of landed blocks among the first `n` cells of a row. */
  function RowCount(row: Row, n: nat): nat
    requires n <= |row|
  {
    if n == 0 then 0 else RowCount(row, n - 1) + (if row[n - 1] != 0 then 1 else 0)
  }

  /** Number of landed blocks in a row. */
  function Count(row: Row): nat
  {
    RowCount(row, |row|)
  }

  /** Number of landed blocks on the board. */
  function Occupied(b: Grid): nat
  {
    if b == [] then 0 else Occupied(b[..|b| - 1]) + Count(b[|b| - 1])
  }

  /** A row holds at most one block per cell, and exactly one per cell
      precisely when it is full. */
  lemma {:induction false} RowCountBound(row: Row, n: nat)
    requires n <= |row|
    ensures RowCount(row, n) <= n
    ensures RowCount(row, n) == n <==> 0 !in row[..n]
  {
    if n > 0 {
      RowCountBound(row, n - 1);
      assert row[..n] == row[..n - 1] + [row[n - 1]];
    }
  }

  /** A full row of the board holds WIDTH blocks; any row at most WIDTH. */
  lemma CountFull(row: Row)
    requires |row| == WIDTH
    ensures Count(row) <= WIDTH
    ensures Full(row) <==> Count(row) == WIDTH
  {
    RowCountBound(row, |row|);
    assert row[..|row|] == row;
  }

  /** A row of zeros holds no block. */
  lemma {:induction false} RowCountZero(row: Row, n: nat)
    requires n <= |row| && forall c :: 0 <= c < |row| ==> row[c] == 0
    ensures RowCount(row, n) == 0
  {
    if n > 0 {
      RowCountZero(row, n - 1);
    }
  }

  /** Occupancy adds up over a split of the rows. */
  lemma {:induction false} OccupiedConcat(a: Grid, c: Grid)
    ensures Occupied(a + c) == Occupied(a) + Occupied(c)
  {
    if c == [] {
      assert a + c == a;
    } else {
      var c' := c[..|c| - 1];
      OccupiedConcat(a, c');
      assert (a + c)[..|a + c| - 1] == a + c';
    }
  }

  /** A one-row board holds that row's blocks. */
  lemma OccupiedSingle(row: Row)
    ensures Occupied([row]) == Count(row)
  {
    assert [row][..0] == [];
  }

  /** Occupancy adds up over a split of the board at any row. */
  lemma OccupiedSplit(b: Grid, k: nat)
    requires k <= |b|
    ensures Occupied(b) == Occupied(b[..k]) + Occupied(b[k..])
  {
    OccupiedConcat(b[..k], b[k..]);
    assert b[..k] + b[k..] == b;
  }

  /** Removing row `r` removes exactly its blocks. */
  lemma OccupiedWithout(b: Grid, r: nat)
    requires r < |b|
    ensures Occupied(b[..r] + b[r + 1..]) == Occupied(b) - Count(b[r])
  {
    var tail := b[r..];
    OccupiedSplit(b, r);
    OccupiedSplit(tail, 1);
    assert tail[..1] == [b[r]];
    assert tail[1..] == b[r + 1..];
    OccupiedSingle(b[r]);
    OccupiedConcat(b[..r], b[r + 1..]);
  }

  /** Removing row `r` and adding an empty row at either edge removes exactly
      row r's blocks. */
  lemma RemoveRowOccupied(b: Grid, r: nat)
    requires r < |b|
    ensures Occupied(b[..r] + b[r + 1..] + [EmptyRow()]) == Occupied(b) - Count(b[r])
    ensures Occupied([EmptyRow()] + (b[..r] + b[r + 1..])) == Occupied(b) - Count(b[r])
  {
    OccupiedWithout(b, r);
    RowCountZero(EmptyRow(), WIDTH);
    OccupiedSingle(EmptyRow());
    OccupiedConcat(b[..r] + b[r + 1..], [EmptyRow()]);
    OccupiedConcat([EmptyRow()], b[..r] + b[r + 1..]);
  }

  // ---------------------------------------------------------------------
  // Deleting rows

  /** One iteration of delete_rows on row `r`. A row above the middle
      (`r < HEIGHT/2`) is closed by moving the rows below it up one and
      emptying the last row; any other row by moving the rows above it down
      one and emptying row 0. */
  function RowDeleted(b: Grid, r: int): (b': Grid)
    requires WellFormed(b) && 0 <= r < HEIGHT
    ensures WellFormed(b')
    ensures 2 * r < HEIGHT ==>
      && (forall k :: 0 <= k < r ==> b'[k] == b[k])
      && (forall k :: r <= k < HEIGHT - 1 ==> b'[k] == b[k + 1])
      && b'[HEIGHT - 1] == EmptyRow()
    ensures 2 * r >= HEIGHT ==>
      && b'[0] == EmptyRow()
      && (forall k :: 0 < k <= r ==> b'[k] == b[k - 1])
      && (forall k :: r < k < HEIGHT ==> b'[k] == b[k])
  {
    if 2 * r < HEIGHT then b[..r] + b[r + 1..] + [EmptyRow()] else [EmptyRow()] + (b[..r] + b[r + 1..])
  }

  /** Deleting a row removes exactly its blocks; a full row takes WIDTH blocks with it. */
  lemma RowDeletedOccupied(b: Grid, r: int)
    requires WellFormed(b) && 0 <= r < HEIGHT
    ensures Occupied(RowDeleted(b, r)) == Occupied(b) - Count(b[r])
    ensures Full(b[r]) ==> Occupied(RowDeleted(b, r)) == Occupied(b) - WIDTH
  {
    RemoveRowOccupied(b, r);
    CountFull(b[r]);
  }

  /** Every index names a row of the board. */
  predicate RowIndices(rows: seq<int>)
  {
    forall k :: 0 <= k < |rows| ==> 0 <= rows[k] < HEIGHT
  }

  /** delete_rows as written: row indices are applied one after the other to
      the board as the previous deletions left it. */
  function RowsDeleted(b: Grid, rows: seq<int>): (b': Grid)
    requires WellFormed(b) && RowIndices(rows)
    ensures WellFormed(b')
    decreases |rows|
  {
    if rows == [] then b else RowDeleted(RowsDeleted(b, rows[..|rows| - 1]), rows[|rows| - 1])
  }

  /** Deleting rows never adds a block, and when the first index names a full
      row at least WIDTH blocks go. */
  lemma {:induction false} RowsDeletedShrinks(b: Grid, rows: seq<int>)
    requires WellFormed(b) && RowIndices(rows)
    ensures Occupied(RowsDeleted(b, rows)) <= Occupied(b)
    ensures rows != [] && Full(b[rows[0]]) ==> Occupied(RowsDeleted(b, rows)) <= Occupied(b) - WIDTH
  {
    if rows != [] {
      var front := rows[..|rows| - 1];
      RowsDeletedShrinks(b, front);
      RowDeletedOccupied(RowsDeleted(b, front), rows[|rows| - 1]);
      if front == [] {
        RowDeletedOccupied(b, rows[0]);
      } else {
        assert front[0] == rows[0];
      }
    }
  }
}
