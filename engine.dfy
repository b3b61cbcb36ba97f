/// The running game: the active tile as an object whose position and
/// rotation the controls update in place, and the game state (QuadrisBoard,
/// active_tile, curDirection, score, nextLevel) that the controls and each
/// moment of the game loop update. Every method is proved to compute what
/// the functions of Board, Scoring and Rules specify.
module Engine {
  import opened Shapes
  import opened Board
  import opened Scoring
  import opened Directions
  import opened Rules

  /** Where every new tile is anchored: (parseInt(WIDTH/2), parseInt(HEIGHT/2)) = (12, 10). */
  const TILE_START: Point := Point(WIDTH / 2, HEIGHT / 2)

  /** Every layout of a usable table lies on the board when anchored at the start. */
  lemma StartInBounds(rs: seq<Layout>, rotation: nat)
    requires Usable(rs)
    ensures InBounds(Pick(rs, rotation), TILE_START)
  {
    PickUsable(rs, rotation);
  }

  /** On an empty board a new tile of any kind is free at the start. */
  lemma StartFreeOnEmptyBoard(rs: seq<Layout>)
    requires Usable(rs)
    ensures !Collides(EmptyBoard(), Pick(rs, 0), TILE_START)
  {
    var b := EmptyBoard();
    var l := Pick(rs, 0);
    StartInBounds(rs, 0);
    forall i, j | IsBlock(l, i, j)
      ensures !BlockBlocked(b, l, TILE_START, i, j)
    {
      assert BlockOnBoard(l, TILE_START, i, j);
      assert b[TILE_START.y + i] == EmptyRow();
    }
  }

  /** Board cell (row, col) is under a block in one of the first `i` layout
      rows, or in layout row `i` before column `j`: the cells land_tile's
      loops have written so far. */
  ghost predicate WrittenSoFar(regions: Layout, pos: Point, row: int, col: int, i: int, j: int)
  {
    Covers(regions, pos, row, col) && (row - pos.y < i || (row - pos.y == i && col - pos.x < j))
  }

  /** A quadromino in play: one of the seven constructors' objects. */
  class Tile {
    /** The constructor that made this tile. */
    const kind: Kind
    /** The constructor's `rotations` list. */
    const rotations: seq<Layout>
    /** The anchor of the layout's top-left sub-cell on the board. */
    var pos: Point
    /** The number of quarter turns taken so far. */
    var curRotation: int
    /** The layout currently shown. */
    var regions: Layout

    /** `regions` is always the layout of the table that `curRotation` selects. */
    ghost predicate Valid()
      reads this`curRotation, this`regions
    {
      && Usable(rotations)
      && curRotation >= 0
      && regions == Pick(rotations, curRotation)
      && Shaped(regions)
    }

    /** `new tiles[which](start)`: the kind's table, first layout, anchored at `start`. */
    constructor (k: Kind, start: Point)
      ensures Valid() && kind == k && rotations == Rotations(k)
      ensures pos == start && curRotation == 0
    {
      kind := k;
      rotations := Rotations(k);
      pos := start;
      curRotation := 0;
      regions := Rotations(k)[0];
      new;
      TablesUsable(k);
      PickUsable(rotations, 0);
    }

    /** Quadromino.Rotate: one more quarter turn, and the layout it selects. */
    method Rotate()
      requires Valid()
      modifies this`curRotation, this`regions
      ensures Valid() && curRotation == old(curRotation) + 1
      ensures regions == rotations[curRotation % |rotations|]
    {
      curRotation := curRotation + 1;
      regions := rotations[curRotation % |rotations|];
      PickUsable(rotations, curRotation);
    }

    /** Quadromino.RotateBack: one quarter turn fewer. Only ever called right
        after Rotate, so the count stays non-negative. */
    method RotateBack()
      requires Valid() && curRotation >= 1
      modifies this`curRotation, this`regions
      ensures Valid() && curRotation == old(curRotation) - 1
      ensures regions == rotations[curRotation % |rotations|]
    {
      curRotation := curRotation - 1;
      regions := rotations[curRotation % |rotations|];
      PickUsable(rotations, curRotation);
    }
  }

  /** `new tiles[which](new Point(TILE_START_X, TILE_START_Y))`: a fresh
      tile of the chosen kind, first layout, at the start position, which
      lies on the board. */
  method SpawnTile(which: nat) returns (tile: Tile)
    requires which < |Tiles|
    ensures fresh(tile) && tile.Valid() && tile.kind == Tiles[which]
    ensures tile.rotations == Rotations(tile.kind)
    ensures tile.pos == TILE_START && tile.curRotation == 0
    ensures InBounds(tile.regions, tile.pos)
  {
    tile := new Tile(Tiles[which], TILE_START);
    StartInBounds(tile.rotations, 0);
  }

  /** The state of one game. */
  class Game {
    /** QuadrisBoard. Rows are replaced by copies and never shared, so each
        row is a value. */
    const board: array<Row>
    /** active_tile */
    var active: Tile
    /** curDirection: where gravity pulls the active tile. */
    var curDirection: Direction
    var score: int
    var nextLevel: int
    /** How many times increase_score shortened the tick interval by a quarter. */
    var levelUps: nat
    /** end_game has run: the tick interval is cleared and the keys do nothing. */
    var over: bool

    /** The score and level progression as a value. */
    ghost function Prog(): Progress
      reads this`score, this`nextLevel, this`levelUps
    {
      Progress(score, nextLevel, levelUps)
    }

    /** What every operation keeps: board dimensions, a consistent tile lying
        on the board, and a score below the next threshold. */
    ghost predicate Valid()
      reads this`active, this`score, this`nextLevel, this`levelUps, board, active
    {
      && WellFormed(board[..])
      && active.Valid()
      && active.rotations == Rotations(active.kind)
      && InBounds(active.regions, active.pos)
      && Sane(Prog())
    }

    /** The active tile overlaps no landed cell and no wall. */
    ghost predicate ActiveFree()
      reads this`active, board, active
      requires WellFormed(board[..])
    {
      !Collides(board[..], active.regions, active.pos)
    }

    /** The start of a game: an empty board, a Tetril at the start position,
        gravity south, score 0 and the first threshold 10. */
    constructor ()
      ensures Valid() && ActiveFree() && !over
      ensures board[..] == EmptyBoard()
      ensures active.kind == Tetril && active.rotations == Rotations(Tetril)
      ensures active.pos == TILE_START && active.curRotation == 0
      ensures curDirection == South && Prog() == Initial
    {
      var rows := new Row[HEIGHT];
      var i := 0;
      while i < HEIGHT
        invariant 0 <= i <= HEIGHT
        invariant forall r :: 0 <= r < i ==> rows[r] == EmptyRow()
      {
        var row: Row := [];
        var j := 0;
        while j < WIDTH
          invariant 0 <= j <= WIDTH && |row| == j
          invariant forall c :: 0 <= c < j ==> row[c] == 0
        {
          row := row + [0];
          j := j + 1;
        }
        assert row == EmptyRow();
        rows[i] := row;
        i := i + 1;
      }
      assert rows[..] == EmptyBoard();
      board := rows;
      active := new Tile(Tiles[0], TILE_START);
      curDirection := South;
      score := 0;
      nextLevel := FIRST_THRESHOLD;
      levelUps := 0;
      over := false;
      new;
      StartFreeOnEmptyBoard(active.rotations);
      StartInBounds(active.rotations, 0);
    }

    /** Quadromino.Colliding: scan the tile's layout and report whether any
        block is off the board or on a landed cell. */
    method Colliding(tile: Tile) returns (colliding: bool)
      requires WellFormed(board[..])
      ensures colliding == Collides(board[..], tile.regions, tile.pos)
    {
      var regions := tile.regions;
      var pos := tile.pos;
      var i := 0;
      while i < |regions|
        invariant 0 <= i <= |regions|
        invariant forall i', j' :: 0 <= i' < i ==> !BlockBlocked(board[..], regions, pos, i', j')
      {
        var j := 0;
        while j < |regions[i]|
          invariant 0 <= j <= |regions[i]|
          invariant forall i', j' :: 0 <= i' < i ==> !BlockBlocked(board[..], regions, pos, i', j')
          invariant forall j' :: 0 <= j' < j ==> !BlockBlocked(board[..], regions, pos, i, j')
        {
          if regions[i][j] != 0 {
            if pos.y + i < 0 || pos.y + i >= board.Length || pos.x + j < 0 || pos.x + j >= |board[0]|
              || board[pos.y + i][pos.x + j] != 0
            {
              assert BlockBlocked(board[..], regions, pos, i, j);
              return true;
            }
          }
          j := j + 1;
        }
        i := i + 1;
      }
      return false;
    }

    /** move_tile_up: `n` rows up, undone when the tile would collide there. */
    method MoveTileUp(tile: Tile, n: int) returns (moved: bool)
      requires WellFormed(board[..])
      modifies tile`pos
      ensures var target := Point(old(tile.pos).x, old(tile.pos).y - n);
        && moved == !Collides(board[..], tile.regions, target)
        && tile.pos == if moved then target else old(tile.pos)
    {
      tile.pos := Point(tile.pos.x, tile.pos.y - n);
      var c := Colliding(tile);
      if c {
        tile.pos := Point(tile.pos.x, tile.pos.y + n);
        return false;
      }
      return true;
    }

    /** move_tile_down: `n` rows down, undone when the tile would collide there. */
    method MoveTileDown(tile: Tile, n: int) returns (moved: bool)
      requires WellFormed(board[..])
      modifies tile`pos
      ensures var target := Point(old(tile.pos).x, old(tile.pos).y + n);
        && moved == !Collides(board[..], tile.regions, target)
        && tile.pos == if moved then target else old(tile.pos)
    {
      tile.pos := Point(tile.pos.x, tile.pos.y + n);
      var c := Colliding(tile);
      if c {
        tile.pos := Point(tile.pos.x, tile.pos.y - n);
        return false;
      }
      return true;
    }

    /** move_tile_left: one column left whatever `n` is, undone when the tile
        would collide there. */
    method MoveTileLeft(tile: Tile, n: int) returns (moved: bool)
      requires WellFormed(board[..])
      modifies tile`pos
      ensures var target := Point(old(tile.pos).x - 1, old(tile.pos).y);
        && moved == !Collides(board[..], tile.regions, target)
        && tile.pos == if moved then target else old(tile.pos)
    {
      tile.pos := Point(tile.pos.x - 1, tile.pos.y);
      var c := Colliding(tile);
      if c {
        tile.pos := Point(tile.pos.x + 1, tile.pos.y);
        return false;
      }
      return true;
    }

    /** move_tile_right: one column right whatever `n` is, undone when the
        tile would collide there. */
    method MoveTileRight(tile: Tile, n: int) returns (moved: bool)
      requires WellFormed(board[..])
      modifies tile`pos
      ensures var target := Point(old(tile.pos).x + 1, old(tile.pos).y);
        && moved == !Collides(board[..], tile.regions, target)
        && tile.pos == if moved then target else old(tile.pos)
    {
      tile.pos := Point(tile.pos.x + 1, tile.pos.y);
      var c := Colliding(tile);
      if c {
        tile.pos := Point(tile.pos.x - 1, tile.pos.y);
        return false;
      }
      return true;
    }

    /** The one-cell move in direction `d`, as the controls, try_land_tile
        and the slam helpers pick it by direction. */
    method MoveToward(tile: Tile, d: Direction) returns (moved: bool)
      requires WellFormed(board[..])
      modifies tile`pos
      ensures moved == !Collides(board[..], tile.regions, Step(old(tile.pos), d))
      ensures tile.pos == if moved then Step(old(tile.pos), d) else old(tile.pos)
    {
      match d
      case North => moved := MoveTileUp(tile, 1);
      case South => moved := MoveTileDown(tile, 1);
      case West => moved := MoveTileLeft(tile, 1);
      case East => moved := MoveTileRight(tile, 1);
    }

    /** increase_score: pay for the rows and level up on reaching the threshold. */
    method IncreaseScore(numRows: nat)
      modifies this`score, this`nextLevel, this`levelUps
      ensures Prog() == AfterIncrease(old(Prog()), numRows)
    {
      score := score + numRows * SCORE_PER_ROW;
      if score != 0 && score >= nextLevel {
        levelUps := levelUps + 1;
        nextLevel := nextLevel + score + SCORE_PER_ROW;
      }
    }

    /** The top-half branch of delete_rows: copy each row below `r` one up,
        then zero the last row cell by cell. */
    method CloseGapUpward(r: int)
      requires WellFormed(board[..]) && 0 <= r && 2 * r < HEIGHT
      modifies board
      ensures board[..] == RowDeleted(old(board[..]), r)
    {
      var j := r;
      while j < HEIGHT - 1
        invariant r <= j <= HEIGHT - 1
        invariant forall k :: 0 <= k < r ==> board[k] == old(board[k])
        invariant forall k :: r <= k < j ==> board[k] == old(board[k + 1])
        invariant forall k :: j <= k < HEIGHT ==> board[k] == old(board[k])
      {
        board[j] := board[j + 1];
        j := j + 1;
      }
      ghost var shifted := board[..];
      var last := HEIGHT - 1;
      j := 0;
      while j < WIDTH
        invariant 0 <= j <= WIDTH
        invariant forall k :: 0 <= k < last ==> board[k] == shifted[k]
        invariant |board[last]| == WIDTH
        invariant forall c :: 0 <= c < j ==> board[last][c] == 0
      {
        board[last] := board[last][j := 0];
        j := j + 1;
      }
      assert board[last] == EmptyRow();
    }

    /** The bottom-half branch of delete_rows: copy each row above `r` one
        down (the copy is repeated WIDTH times, to the same effect), then
        zero row 0 cell by cell. */
    method CloseGapDownward(r: int)
      requires WellFormed(board[..]) && 2 * r >= HEIGHT && r < HEIGHT
      modifies board
      ensures board[..] == RowDeleted(old(board[..]), r)
    {
      var j := r;
      while j > 0
        invariant 0 <= j <= r
        invariant forall k :: 0 <= k <= j ==> board[k] == old(board[k])
        invariant forall k :: j < k <= r ==> board[k] == old(board[k - 1])
        invariant forall k :: r < k < HEIGHT ==> board[k] == old(board[k])
      {
        ghost var before := board[..];
        var k := 0;
        while k < WIDTH
          invariant 0 <= k <= WIDTH
          invariant forall m :: 0 <= m < HEIGHT && m != j ==> board[m] == before[m]
          invariant board[j] == if k == 0 then before[j] else before[j - 1]
        {
          board[j] := board[j - 1];
          k := k + 1;
        }
        j := j - 1;
      }
      ghost var shifted := board[..];
      j := 0;
      while j < WIDTH
        invariant 0 <= j <= WIDTH
        invariant forall k :: 0 < k < HEIGHT ==> board[k] == shifted[k]
        invariant |board[0]| == WIDTH
        invariant forall c :: 0 <= c < j ==> board[0][c] == 0
      {
        board[0] := board[0][j := 0];
        j := j + 1;
      }
      assert board[0] == EmptyRow();
    }

    /** delete_rows: delete the listed rows one after the other, each index
        taken on the board as the earlier deletions left it, then pay for
        all of them (also when there are none). */
    method DeleteRows(rows: seq<int>)
      requires WellFormed(board[..]) && RowIndices(rows)
      modifies board, this`score, this`nextLevel, this`levelUps
      ensures board[..] == RowsDeleted(old(board[..]), rows)
      ensures Prog() == AfterIncrease(old(Prog()), |rows|)
    {
      var i := 0;
      while i < |rows|
        invariant 0 <= i <= |rows|
        invariant WellFormed(board[..])
        invariant board[..] == RowsDeleted(old(board[..]), rows[..i])
        invariant Prog() == old(Prog())
      {
        assert rows[..i + 1][..i] == rows[..i];
        if rows[i] < HEIGHT / 2 {
          CloseGapUpward(rows[i]);
        } else {
          CloseGapDownward(rows[i]);
        }
        i := i + 1;
      }
      assert rows[..|rows|] == rows;
      IncreaseScore(|rows|);
    }

    /** check_for_full_rows: collect the full rows top to bottom, delete
        them, and start over as long as any were found. */
    method CheckForFullRows()
      requires WellFormed(board[..])
      modifies board, this`score, this`nextLevel, this`levelUps
      ensures var out := ClearFullRows(old(board[..]), old(Prog()));
        board[..] == out.board && Prog() == out.progress
      decreases Occupied(board[..])
    {
      var fullRows: seq<int> := [];
      var i := 0;
      while i < HEIGHT
        invariant 0 <= i <= HEIGHT
        invariant fullRows == FullRowsBelow(board[..], i)
      {
        if 0 !in board[i] {
          fullRows := fullRows + [i];
        }
        i := i + 1;
      }
      ghost var before := board[..];
      FullRowsAreFull(before);
      DeleteRows(fullRows);
      if |fullRows| > 0 {
        RowsDeletedShrinks(before, fullRows);
        CheckForFullRows();
      }
    }

    /** land_tile: write 1 under every block of the tile, then clear full rows. */
    method LandTile(tile: Tile)
      requires WellFormed(board[..]) && InBounds(tile.regions, tile.pos)
      modifies board, this`score, this`nextLevel, this`levelUps
      ensures var out := ClearFullRows(Landed(old(board[..]), tile.regions, tile.pos), old(Prog()));
        board[..] == out.board && Prog() == out.progress
    {
      var regions := tile.regions;
      var pos := tile.pos;
      var i := 0;
      while i < |regions|
        invariant 0 <= i <= |regions|
        invariant WellFormed(board[..])
        invariant forall r, c :: 0 <= r < HEIGHT && 0 <= c < WIDTH ==>
          board[r][c] == if WrittenSoFar(regions, pos, r, c, i, 0) then 1 else old(board[r][c])
        invariant Prog() == old(Prog())
      {
        var j := 0;
        while j < |regions[i]|
          invariant 0 <= j <= |regions[i]|
          invariant WellFormed(board[..])
          invariant forall r, c :: 0 <= r < HEIGHT && 0 <= c < WIDTH ==>
            board[r][c] == if WrittenSoFar(regions, pos, r, c, i, j) then 1 else old(board[r][c])
          invariant Prog() == old(Prog())
        {
          if regions[i][j] != 0 {
            assert BlockOnBoard(regions, pos, i, j);
            board[pos.y + i] := board[pos.y + i][pos.x + j := 1];
          }
          j := j + 1;
        }
        i := i + 1;
      }
      forall r | 0 <= r < HEIGHT
        ensures board[r] == Landed(old(board[..]), regions, pos)[r]
      {
        assert forall c :: 0 <= c < WIDTH ==> board[r][c] == Landed(old(board[..]), regions, pos)[r][c];
      }
      assert board[..] == Landed(old(board[..]), regions, pos);
      CheckForFullRows();
    }

    /** try_land_tile: one step in the gravity direction; when that step is
        blocked, land the tile where it stands. */
    method TryLandTile(tile: Tile) returns (landed: bool)
      requires WellFormed(board[..]) && InBounds(tile.regions, tile.pos)
      modifies tile`pos, board, this`score, this`nextLevel, this`levelUps
      ensures landed == Collides(old(board[..]), tile.regions, Step(old(tile.pos), curDirection))
      ensures !landed ==>
        && tile.pos == Step(old(tile.pos), curDirection)
        && board[..] == old(board[..]) && Prog() == old(Prog())
      ensures landed ==>
        && tile.pos == old(tile.pos)
        && var out := ClearFullRows(Landed(old(board[..]), tile.regions, tile.pos), old(Prog()));
           board[..] == out.board && Prog() == out.progress
    {
      var moved := true;
      if curDirection == North {
        moved := MoveTileUp(tile, 1);
      } else if curDirection == South {
        moved := MoveTileDown(tile, 1);
      } else if curDirection == West {
        moved := MoveTileLeft(tile, 1);
      } else if curDirection == East {
        moved := MoveTileRight(tile, 1);
      }
      if !moved {
        LandTile(tile);
        return true;
      }
      return false;
    }

    /** slam_tile and the _slam helpers: step in the gravity direction while
        the tile can, then land it through try_land_tile. */
    method SlamTile(tile: Tile)
      requires WellFormed(board[..]) && Shaped(tile.regions) && InBounds(tile.regions, tile.pos)
      modifies tile`pos, board, this`score, this`nextLevel, this`levelUps
      ensures tile.pos == StepN(old(tile.pos), curDirection,
        SlamSteps(old(board[..]), tile.regions, old(tile.pos), curDirection))
      ensures InBounds(tile.regions, tile.pos)
      ensures var out := ClearFullRows(Landed(old(board[..]), tile.regions, tile.pos), old(Prog()));
        board[..] == out.board && Prog() == out.progress
    {
      ghost var start := tile.pos;
      ghost var steps := SlamSteps(board[..], tile.regions, start, curDirection);
      SlamStepsFree(board[..], tile.regions, start, curDirection);
      ghost var m: nat := 0;
      StepFacts(start, curDirection, 0);
      RoomPositive(tile.regions, tile.pos, curDirection);
      var moving := true;
      while moving
        invariant InBounds(tile.regions, tile.pos)
        invariant m <= steps && tile.pos == StepN(start, curDirection, m)
        invariant !moving ==> m == steps
        invariant Room(tile.pos, curDirection, |tile.regions|) > 0
        invariant board[..] == old(board[..]) && Prog() == old(Prog())
        decreases Room(tile.pos, curDirection, |tile.regions|) + (if moving then 1 else 0)
      {
        StepFacts(start, curDirection, m);
        RoomPositive(tile.regions, tile.pos, curDirection);
        moving := MoveToward(tile, curDirection);
        if moving {
          m := m + 1;
          FreeIsInBounds(board[..], tile.regions, tile.pos);
          RoomPositive(tile.regions, tile.pos, curDirection);
        }
      }
      StepFacts(start, curDirection, steps);
      var landed := TryLandTile(tile);
      assert landed;
    }

    /** end_game: stop the tick and the keys. */
    method EndGame()
      modifies this`over
      ensures over
    {
      over := true;
    }

    /** get_next_tile with the random choice passed in as `which`: a new
        tile of kind tiles[which] at the start; the game ends when it
        collides there. */
    method GetNextTile(which: nat) returns (ok: bool)
      requires Valid() && which < |Tiles|
      modifies this`active, this`over
      ensures Valid() && fresh(active)
      ensures active.kind == Tiles[which] && active.rotations == Rotations(active.kind)
      ensures active.pos == TILE_START && active.curRotation == 0
      ensures ok == ActiveFree()
      ensures over == (old(over) || !ok)
    {
      active := SpawnTile(which);
      assert Valid();
      var c := Colliding(active);
      if c {
        EndGame();
        return false;
      }
      return true;
    }

    /** set_direction: the gravity direction selected by the dice value. */
    method SetDirection(dice: int)
      modifies this`curDirection
      ensures curDirection == DiceDirection(dice)
    {
      if dice == 0 {
        curDirection := East;
      } else if dice == 1 {
        curDirection := South;
      } else if dice == 2 {
        curDirection := West;
      } else {
        curDirection := North;
      }
    }

    /** The chain of moves in rotate_control after a turn that collides:
        right, else left, else up, else down, each by one cell and each
        from where the tile stands. */
    method TryKicks(tile: Tile) returns (moved: bool)
      requires WellFormed(board[..])
      modifies tile`pos
      ensures var p, regions := old(tile.pos), tile.regions;
        tile.pos ==
          if !Collides(board[..], regions, Step(p, East)) then Step(p, East)
          else if !Collides(board[..], regions, Step(p, West)) then Step(p, West)
          else if !Collides(board[..], regions, Step(p, North)) then Step(p, North)
          else if !Collides(board[..], regions, Step(p, South)) then Step(p, South)
          else p
      ensures moved == !(
        && Collides(board[..], tile.regions, Step(old(tile.pos), East))
        && Collides(board[..], tile.regions, Step(old(tile.pos), West))
        && Collides(board[..], tile.regions, Step(old(tile.pos), North))
        && Collides(board[..], tile.regions, Step(old(tile.pos), South)))
    {
      moved := MoveTileRight(tile, 1);
      if !moved {
        moved := MoveTileLeft(tile, 1);
      }
      if !moved {
        moved := MoveTileUp(tile, 1);
      }
      if !moved {
        moved := MoveTileDown(tile, 1);
      }
    }

    /** The turn of rotate_control on `tile`: Rotate; if it then collides,
        try it one cell right, left, up and down in that order, and
        RotateBack when none is free. */
    method TurnTile(tile: Tile)
      requires WellFormed(board[..]) && tile.Valid()
      modifies tile
      ensures tile.Valid()
      ensures var out := RotateOutcome(board[..], tile.rotations, old(tile.curRotation), old(tile.pos));
        tile.curRotation == out.rotation && tile.pos == out.pos
    {
      ghost var b := board[..];
      ghost var rotation: nat := tile.curRotation;
      ghost var pos := tile.pos;
      ghost var out := RotateOutcome(b, tile.rotations, rotation, pos);
      ghost var turned := Pick(tile.rotations, rotation + 1);
      tile.Rotate();
      assert tile.regions == turned;
      var c := Colliding(tile);
      if c {
        RotateAfterCollision(b, tile.rotations, rotation, pos, turned);
        var moved := TryKicks(tile);
        if !moved {
          tile.RotateBack();
          assert out == Placement(rotation, pos);
        } else {
          assert out == Placement(rotation + 1, tile.pos);
        }
      } else {
        assert out == Placement(rotation + 1, pos);
      }
    }

    /** rotate_control on the active tile: its rotation and position become
        the rotation outcome, and it stays on the board and, if it was, free. */
    method RotateControl()
      requires Valid()
      modifies active
      ensures Valid()
      ensures var out := RotateOutcome(board[..], active.rotations, old(active.curRotation), old(active.pos));
        active.curRotation == out.rotation && active.pos == out.pos
      ensures old(ActiveFree()) ==> ActiveFree()
    {
      RotateKeepsFree(board[..], active.rotations, active.curRotation, active.pos);
      TurnTile(active);
    }

    /** A key press, through the bindings of the current direction: a
        one-cell move, slam_control or rotate_control. Nothing happens once
        the game is over. */
    method PressKey(key: Key)
      requires Valid()
      modifies board, active, this`score, this`nextLevel, this`levelUps
      ensures Valid()
      ensures old(over) || Binding(curDirection, key) != Slam ==>
        board[..] == old(board[..]) && Prog() == old(Prog())
      ensures old(over) ==> active.pos == old(active.pos)
      ensures old(over) || Binding(curDirection, key) != Rotate ==>
        active.curRotation == old(active.curRotation) && active.regions == old(active.regions)
      ensures !old(over) && Binding(curDirection, key).Move? ==>
        var target := Step(old(active.pos), Binding(curDirection, key).dir);
        && active.pos == if Collides(board[..], active.regions, target) then old(active.pos) else target
      ensures !old(over) && Binding(curDirection, key) == Rotate ==>
        var out := RotateOutcome(board[..], active.rotations, old(active.curRotation), old(active.pos));
        active.curRotation == out.rotation && active.pos == out.pos
      ensures !old(over) && Binding(curDirection, key) != Slam && old(ActiveFree()) ==> ActiveFree()
      ensures !old(over) && Binding(curDirection, key) == Slam ==>
        && active.pos == StepN(old(active.pos), curDirection,
             SlamSteps(old(board[..]), old(active.regions), old(active.pos), curDirection))
        && var out := ClearFullRows(Landed(old(board[..]), active.regions, active.pos), old(Prog()));
           board[..] == out.board && Prog() == out.progress
    {
      if over {
        return;
      }
      match Binding(curDirection, key)
      case Move(d) =>
        var moved := MoveToward(active, d);
        if moved {
          FreeIsInBounds(board[..], active.regions, active.pos);
        }
      case Rotate =>
        RotateControl();
      case Slam =>
        SlamTile(active);
    }

    /** next_moment with the random choices passed in: try to land the tile;
        after a landing bring in tiles[which] and, if the game goes on,
        take the gravity direction the dice selects. */
    method NextMoment(which: nat, dice: int)
      requires Valid() && !over && which < |Tiles|
      modifies this, board, active
      ensures Valid()
      ensures !over ==> ActiveFree()
      ensures var blocked := Collides(old(board[..]), old(active.regions), Step(old(active.pos), old(curDirection)));
        && (!blocked ==>
             && active == old(active) && active.pos == Step(old(active.pos), curDirection)
             && active.curRotation == old(active.curRotation) && active.regions == old(active.regions)
             && board[..] == old(board[..]) && Prog() == old(Prog())
             && !over && curDirection == old(curDirection))
        && (blocked ==>
             && var out := ClearFullRows(Landed(old(board[..]), old(active.regions), old(active.pos)), old(Prog()));
             && board[..] == out.board && Prog() == out.progress
             && fresh(active) && active.kind == Tiles[which] && active.rotations == Rotations(active.kind)
             && active.pos == TILE_START && active.curRotation == 0
             && over == Collides(board[..], active.regions, active.pos)
             && curDirection == if over then old(curDirection) else DiceDirection(dice))
    {
      ghost var before, tile, dir := board[..], active, curDirection;
      var landed := TryLandTile(active);
      if landed {
        ghost var after, paid := board[..], Prog();
        var ok := GetNextTile(which);
        if ok {
          SetDirection(dice);
          assert board[..] == after && Prog() == paid && !over;
        } else {
          assert board[..] == after && Prog() == paid && over;
          return;
        }
      } else {
        assert active == tile && curDirection == dir && !over;
        assert !Collides(before, tile.regions, tile.pos);
        FreeIsInBounds(before, tile.regions, tile.pos);
      }
    }
  }
}
