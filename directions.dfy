/// The four gravity directions, the one-cell step each stands for, the dice
/// table of set_direction and the key bindings that each set_direction_*
/// installs (as a table from key to abstract action, without the listener).
module Directions {
  import opened Board

  /** `Direction`: north 0, east 1, south 2, west 3. */
  datatype Direction = North | East | South | West

  /** The direction pointing the other way. */
  function Opposite(d: Direction): Direction
  {
    match d
    case North => South
    case South => North
    case East => West
    case West => East
  }

  /** The one-cell move of move_tile_up/down/left/right: north decreases the
      row, south increases it, west decreases the column, east increases it. */
  function Step(p: Point, d: Direction): Point
  {
    match d
    case North => Point(p.x, p.y - 1)
    case South => Point(p.x, p.y + 1)
    case West => Point(p.x - 1, p.y)
    case East => Point(p.x + 1, p.y)
  }

  /** `k` steps in direction `d`. */
  function StepN(p: Point, d: Direction, k: nat): Point
  {
    match d
    case North => Point(p.x, p.y - k)
    case South => Point(p.x, p.y + k)
    case West => Point(p.x - k, p.y)
    case East => Point(p.x + k, p.y)
  }

  /** `k + 1` steps are `k` steps and one more; a step and a step back cancel. */
  lemma StepFacts(p: Point, d: Direction, k: nat)
    ensures StepN(p, d, 0) == p && StepN(p, d, k + 1) == Step(StepN(p, d, k), d)
    ensures Opposite(d) != d && Step(Step(p, d), Opposite(d)) == p
  {
  }

  /** `k` steps after a first step are `k + 1` steps. */
  lemma StepShift(p: Point, d: Direction, k: nat)
    ensures StepN(Step(p, d), d, k) == StepN(p, d, k + 1)
  {
  }

  /** set_direction(dice): 0 east, 1 south, 2 west, 3 and anything else north. */
  function DiceDirection(dice: int): Direction
  {
    if dice == 0 then East
    else if dice == 1 then South
    else if dice == 2 then West
    else North
  }

  /** A dice value in 0..3 that selects `d`: every direction can follow a landing. */
  function DiceFor(d: Direction): (dice: int)
    ensures 0 <= dice < 4 && DiceDirection(dice) == d
  {
    match d
    case East => 0
    case South => 1
    case West => 2
    case North => 3
  }

  /** The dice values 0..3 select four different directions, and any other
      value falls back to north. */
  lemma DiceTable(dice: int, other: int)
    requires 0 <= dice < 4 && 0 <= other < 4 && dice != other
    ensures DiceDirection(dice) != DiceDirection(other)
    ensures DiceFor(DiceDirection(dice)) == dice
  {
  }

  /** The keys the game listens to. */
  datatype Key = W | A | S | D | Space

  /** What a key press does: a one-cell move (up_control, down_control,
      left_control, right_control), slam_control, or rotate_control. */
  datatype Action = Move(dir: Direction) | Slam | Rotate

  /** The bindings that set_direction_north, _east, _south and _west install. */
  function Binding(d: Direction, k: Key): Action
  {
    match d
    case North =>
      (match k case W => Move(North) case A => Move(West) case S => Slam case D => Move(East) case Space => Rotate)
    case South =>
      (match k case W => Slam case A => Move(West) case S => Move(South) case D => Move(East) case Space => Rotate)
    case West =>
      (match k case W => Move(North) case A => Move(West) case S => Move(South) case D => Slam case Space => Rotate)
    case East =>
      (match k case W => Move(North) case A => Slam case S => Move(South) case D => Move(East) case Space => Rotate)
  }

  /** The customary meaning of each key: w up, a left, s down, d right, space rotate. */
  function Usual(k: Key): Action
  {
    match k
    case W => Move(North)
    case A => Move(West)
    case S => Move(South)
    case D => Move(East)
    case Space => Rotate
  }

  /** Under every gravity direction, exactly one key slams: the one that would
      otherwise move the piece against gravity. Every other key keeps its
      usual meaning, so space always rotates and the key toward gravity still
      moves one cell. */
  lemma BindingReplacesAgainstGravity(d: Direction, k: Key)
    ensures Binding(d, k) == Slam <==> Usual(k) == Move(Opposite(d))
    ensures Binding(d, k) != Slam ==> Binding(d, k) == Usual(k)
  {
  }
}
