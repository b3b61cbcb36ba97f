/// The score and level progression of increase_score: `score`, the
/// `nextLevel` threshold, and how many times the game has sped up.
module Scoring {

  /** SCORE_PER_ROW: points for each deleted row. */
  const SCORE_PER_ROW: nat := 10
  /** The initial `nextLevel` threshold. */
  const FIRST_THRESHOLD: int := 10

  /** `score`, `nextLevel`, and the number of level-ups so far (each one
      shortens the tick interval by a quarter; the interval itself is not
      modelled). */
  datatype Progress = Progress(score: int, nextLevel: int, levelUps: nat)

  /** The progression at the start of a game. */
  const Initial: Progress := Progress(0, FIRST_THRESHOLD, 0)

  /** The score is non-negative and still below the next threshold. */
  predicate Sane(p: Progress)
  {
    0 <= p.score < p.nextLevel
  }

  /** increase_score(numRows): add the row points; if the score is now
      non-zero and has reached the threshold, level up and raise the
      threshold by the new score plus one row's worth. */
  function AfterIncrease(p: Progress, numRows: nat): (q: Progress)
    ensures q.score == p.score + numRows * SCORE_PER_ROW
    ensures q.levelUps == p.levelUps || q.levelUps == p.levelUps + 1
    ensures q.levelUps == p.levelUps + 1 <==> q.score != 0 && q.score >= p.nextLevel
    ensures Sane(p) ==> Sane(q) && q.nextLevel >= p.nextLevel
  {
    var score := p.score + numRows * SCORE_PER_ROW;
    if score != 0 && score >= p.nextLevel then
      Progress(score, p.nextLevel + score + SCORE_PER_ROW, p.levelUps + 1)
    else
      Progress(score, p.nextLevel, p.levelUps)
  }

  /** From a sane state, a level-up happens exactly when at least one row was
      deleted and the new score reaches the threshold; deleting nothing
      changes nothing. */
  lemma LevelUpExactly(p: Progress, numRows: nat)
    requires Sane(p)
    ensures AfterIncrease(p, numRows).levelUps > p.levelUps <==>
      numRows > 0 && p.score + numRows * SCORE_PER_ROW >= p.nextLevel
    ensures numRows == 0 ==> AfterIncrease(p, numRows) == p
  {
  }
}
