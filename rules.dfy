/// Value-level specifications of the game's composite operations: the full
/// row clearing of check_for_full_rows, how far a slam travels, and the kick
/// search of rotate_control. The imperative methods of Engine are proved to
/// compute exactly these.
module Rules {
  import opened Shapes
  import opened Board
  import opened Scoring
  import opened Directions

  // ---------------------------------------------------------------------
  // Clearing full rows

  /** The board and progression after clearing, and the number of rows that
      delete_rows was asked to delete (the number the score was paid for). */
  datatype Cleared = Cleared(board: Grid, progress: Progress, deleted: nat)

  /** Blocks lost by deleting `rows` one after the other: at most WIDTH each. */
  lemma {:induction false} RowsDeletedAtMost(b: Grid, rows: seq<int>)
    requires WellFormed(b) && RowIndices(rows)
    ensures Occupied(RowsDeleted(b, rows)) + |rows| * WIDTH >= Occupied(b)
  {
    if rows != [] {
      var front := rows[..|rows| - 1];
      RowsDeletedAtMost(b, front);
      var mid := RowsDeleted(b, front);
      RowDeletedOccupied(mid, rows[|rows| - 1]);
      CountFull(mid[rows[|rows| - 1]]);
    }
  }

  /** check_for_full_rows as written: scan for the full rows, hand all of
      them to delete_rows (which pays for them through increase_score, even
      when there are none), and scan again as long as the last scan found any. */
  function ClearFullRows(b: Grid, p: Progress): (out: Cleared)
    requires WellFormed(b)
    ensures WellFormed(out.board)
    ensures FullRows(out.board) == []
    ensures out.deleted == 0 <==> FullRows(b) == []
    ensures out.deleted > 0 ==> Occupied(out.board) + WIDTH <= Occupied(b)
    ensures Occupied(out.board) <= Occupied(b) <= Occupied(out.board) + out.deleted * WIDTH
    ensures out.progress.score == p.score + out.deleted * SCORE_PER_ROW
    ensures Sane(p) ==> Sane(out.progress) && out.progress.nextLevel >= p.nextLevel
    decreases Occupied(b)
  {
    var rows := FullRows(b);
    FullRowsAreFull(b);
    var after := RowsDeleted(b, rows);
    var paid := AfterIncrease(p, |rows|);
    RowsDeletedShrinks(b, rows);
    RowsDeletedAtMost(b, rows);
    if rows == [] then
      Cleared(after, paid, 0)
    else
      var rest := ClearFullRows(after, paid);
      Cleared(rest.board, rest.progress, |rows| + rest.deleted)
  }

  /** A board without full rows is left as it is, and nothing is paid. */
  lemma ClearNothing(b: Grid, p: Progress)
    requires WellFormed(b) && Sane(p) && FullRows(b) == []
    ensures ClearFullRows(b, p) == Cleared(b, p, 0)
  {
    LevelUpExactly(p, 0);
  }

  /** Clearing is idempotent: once cleared, clearing again changes nothing. */
  lemma ClearIdempotent(b: Grid, p: Progress)
    requires WellFormed(b) && Sane(p)
    ensures var once := ClearFullRows(b, p);
      ClearFullRows(once.board, once.progress) == Cleared(once.board, once.progress, 0)
  {
    var once := ClearFullRows(b, p);
    ClearNothing(once.board, once.progress);
  }

  // ---------------------------------------------------------------------
  // Slam

  /** Room left before the piece's anchor passes the far edge in direction
      `d`, given a layout `size` cells wide. Positive while the piece is on
      the board; one step in `d` takes one away. */
  function Room(pos: Point, d: Direction, size: nat): int
  {
    match d
    case North => pos.y + size
    case South => HEIGHT - pos.y
    case West => pos.x + size
    case East => WIDTH - pos.x
  }

  /** A piece on the board has room, and a step uses up exactly one unit. */
  lemma RoomPositive(regions: Layout, pos: Point, d: Direction)
    requires Shaped(regions) && InBounds(regions, pos)
    ensures Room(pos, d, |regions|) > 0
    ensures Room(Step(pos, d), d, |regions|) == Room(pos, d, |regions|) - 1
  {
    var i, j :| 0 <= i < |regions| && 0 <= j < |regions| && regions[i][j] != 0;
    assert BlockOnBoard(regions, pos, i, j);
  }

  /** The number of cells a slam in direction `d` moves the piece: it keeps
      stepping while the next position is free. */
  function SlamSteps(b: Grid, regions: Layout, pos: Point, d: Direction): nat
    requires WellFormed(b) && Shaped(regions) && InBounds(regions, pos)
    decreases Room(pos, d, |regions|)
  {
    var next := Step(pos, d);
    if Collides(b, regions, next) then
      0
    else
      FreeIsInBounds(b, regions, next);
      RoomPositive(regions, pos, d);
      RoomPositive(regions, next, d);
      1 + SlamSteps(b, regions, next, d)
  }

  /** Every position a slam passes through is free, and the one after the
      last collides. */
  lemma {:induction false} SlamStepsFree(b: Grid, regions: Layout, pos: Point, d: Direction)
    requires WellFormed(b) && Shaped(regions) && InBounds(regions, pos)
    ensures var k := SlamSteps(b, regions, pos, d);
      && (forall m :: 1 <= m <= k ==> !Collides(b, regions, StepN(pos, d, m)))
      && Collides(b, regions, StepN(pos, d, k + 1))
    decreases Room(pos, d, |regions|)
  {
    var next := Step(pos, d);
    StepFacts(pos, d, 0);
    if !Collides(b, regions, next) {
      FreeIsInBounds(b, regions, next);
      RoomPositive(regions, pos, d);
      RoomPositive(regions, next, d);
      SlamStepsFree(b, regions, next, d);
      var rest := SlamSteps(b, regions, next, d);
      assert SlamSteps(b, regions, pos, d) == 1 + rest;
      forall m | 2 <= m <= 1 + rest
        ensures !Collides(b, regions, StepN(pos, d, m))
      {
        StepShift(pos, d, m - 1);
      }
      StepShift(pos, d, rest + 1);
    }
  }

  /** A slam ends on the board, at a position from which the next step in
      its direction is blocked. */
  lemma SlamEndsBlocked(b: Grid, regions: Layout, pos: Point, d: Direction)
    requires WellFormed(b) && Shaped(regions) && InBounds(regions, pos)
    ensures var end := StepN(pos, d, SlamSteps(b, regions, pos, d));
      InBounds(regions, end) && Collides(b, regions, Step(end, d))
  {
    var k := SlamSteps(b, regions, pos, d);
    SlamStepsFree(b, regions, pos, d);
    StepFacts(pos, d, k);
    if k > 0 {
      FreeIsInBounds(b, regions, StepN(pos, d, k));
    } else {
      StepFacts(pos, d, 0);
    }
  }

  // ---------------------------------------------------------------------
  // Rotation with kicks

  /** The placements rotate_control tries for the turned piece, in order:
      where it stands, then one cell right, left, up and down. */
  function Kicks(pos: Point): seq<Point>
  {
    [pos, Step(pos, East), Step(pos, West), Step(pos, North), Step(pos, South)]
  }

  /** Index of the first candidate at which the piece does not collide, or -1. */
  function FirstFree(b: Grid, regions: Layout, candidates: seq<Point>): (k: int)
    requires WellFormed(b)
    ensures -1 <= k < |candidates|
    ensures k >= 0 ==> !Collides(b, regions, candidates[k])
    ensures forall m :: 0 <= m < |candidates| && (k < 0 || m < k) ==> Collides(b, regions, candidates[m])
  {
    if candidates == [] then -1
    else if !Collides(b, regions, candidates[0]) then 0
    else
      var k := FirstFree(b, regions, candidates[1..]);
      if k < 0 then -1 else k + 1
  }

  /** Past the first candidate, the kicks are tried right, left, up, down. */
  lemma KickOrder(b: Grid, regions: Layout, pos: Point)
    requires WellFormed(b)
    ensures FirstFree(b, regions, Kicks(pos)[1..]) ==
      if !Collides(b, regions, Step(pos, East)) then 0
      else if !Collides(b, regions, Step(pos, West)) then 1
      else if !Collides(b, regions, Step(pos, North)) then 2
      else if !Collides(b, regions, Step(pos, South)) then 3
      else -1
  {
    var rest := Kicks(pos)[1..];
    assert |rest| == 4;
    assert rest[0] == Step(pos, East) && rest[1] == Step(pos, West);
    assert rest[2] == Step(pos, North) && rest[3] == Step(pos, South);
  }

  /** A rotation index together with an anchor. */
  datatype Placement = Placement(rotation: nat, pos: Point)

  /** Where rotate_control leaves a tile with rotation table `rs`: turned once where it
      stands if it fits there, else turned and moved one cell right, left,
      up or down (the first that fits, in that order), else back at its old
      rotation and position. */
  function RotateOutcome(b: Grid, rs: seq<Layout>, rotation: nat, pos: Point): (out: Placement)
    requires WellFormed(b) && |rs| > 0
    ensures out.rotation == rotation || out.rotation == rotation + 1
    ensures out.rotation == rotation ==> out.pos == pos
    ensures out.rotation == rotation + 1 ==> !Collides(b, Pick(rs, out.rotation), out.pos)
  {
    var turned := Pick(rs, rotation + 1);
    if !Collides(b, turned, pos) then Placement(rotation + 1, pos)
    else if !Collides(b, turned, Step(pos, East)) then Placement(rotation + 1, Step(pos, East))
    else if !Collides(b, turned, Step(pos, West)) then Placement(rotation + 1, Step(pos, West))
    else if !Collides(b, turned, Step(pos, North)) then Placement(rotation + 1, Step(pos, North))
    else if !Collides(b, turned, Step(pos, South)) then Placement(rotation + 1, Step(pos, South))
    else Placement(rotation, pos)
  }

  /** When the turned piece collides where it stands, the outcome is decided
      by the four one-cell kicks alone. */
  lemma RotateAfterCollision(b: Grid, rs: seq<Layout>, rotation: nat, pos: Point, turned: Layout)
    requires WellFormed(b) && |rs| > 0 && turned == Pick(rs, rotation + 1) && Collides(b, turned, pos)
    ensures RotateOutcome(b, rs, rotation, pos) ==
      if !Collides(b, turned, Step(pos, East)) then Placement(rotation + 1, Step(pos, East))
      else if !Collides(b, turned, Step(pos, West)) then Placement(rotation + 1, Step(pos, West))
      else if !Collides(b, turned, Step(pos, North)) then Placement(rotation + 1, Step(pos, North))
      else if !Collides(b, turned, Step(pos, South)) then Placement(rotation + 1, Step(pos, South))
      else Placement(rotation, pos)
  {
  }

  /** rotate_control takes the first free candidate of Kicks: the turn
      succeeds exactly when some candidate is free, and then lands on the
      first one. */
  lemma RotateTakesFirstFreeKick(b: Grid, rs: seq<Layout>, rotation: nat, pos: Point)
    requires WellFormed(b) && |rs| > 0
    ensures var out := RotateOutcome(b, rs, rotation, pos);
      var m := FirstFree(b, Pick(rs, rotation + 1), Kicks(pos));
      && (out.rotation == rotation + 1 <==> m >= 0)
      && (m >= 0 ==> out.pos == Kicks(pos)[m])
  {
    var kicks := Kicks(pos);
    KickOrder(b, Pick(rs, rotation + 1), pos);
    assert kicks[0] == pos;
  }

  /** rotate_control keeps a free piece free and an on-board piece on the board. */
  lemma RotateKeepsFree(b: Grid, rs: seq<Layout>, rotation: nat, pos: Point)
    requires WellFormed(b) && |rs| > 0
    ensures var out := RotateOutcome(b, rs, rotation, pos);
      && (!Collides(b, Pick(rs, rotation), pos) ==> !Collides(b, Pick(rs, out.rotation), out.pos))
      && (InBounds(Pick(rs, rotation), pos) ==> InBounds(Pick(rs, out.rotation), out.pos))
  {
    var out := RotateOutcome(b, rs, rotation, pos);
    if out.rotation == rotation + 1 {
      FreeIsInBounds(b, Pick(rs, out.rotation), out.pos);
    }
  }
}
