/** The level tracker of the snake game: the points collected towards the next
    level, and the level itself. */
module Levels {

  /** Points a level holds; the point after these moves the player up a level. */
  const PointsPerLevel: int := 10

  /** Points scored since the start of a session, as a (level, points) pair
      encodes them: every completed level took PointsPerLevel + 1 points. */
  function Progress(lv: int, pts: int): (score: int) {
    (lv - 1) * (PointsPerLevel + 1) + pts
  }

  /** The (level, points) pair that one `add_point` turns (lv, pts) into. */
  function Bump(lv: int, pts: int): (r: (int, int))
    ensures 0 <= pts <= PointsPerLevel ==>
              0 <= r.1 <= PointsPerLevel && Progress(r.0, r.1) == Progress(lv, pts) + 1
    ensures r.0 == lv || r.0 == lv + 1
  {
    if pts + 1 > PointsPerLevel then (lv + 1, 0) else (lv, pts + 1)
  }

  /** The (level, points) pair after n calls of `add_point` on a fresh tracker. */
  function Replay(n: nat): (r: (int, int)) {
    if n == 0 then (1, 0) else Bump(Replay(n - 1).0, Replay(n - 1).1)
  }

  /** A valid pair is determined by the points it encodes. */
  lemma ProgressDetermines(lv: int, pts: int)
    requires lv >= 1 && 0 <= pts <= PointsPerLevel
    ensures Progress(lv, pts) >= 0
    ensures lv == 1 + Progress(lv, pts) / (PointsPerLevel + 1)
    ensures pts == Progress(lv, pts) % (PointsPerLevel + 1)
  {
  }

  /** n points from a fresh tracker give a valid pair that encodes n points. */
  lemma {:induction false} ReplayScores(n: nat)
    ensures Replay(n).0 >= 1 && 0 <= Replay(n).1 <= PointsPerLevel
    ensures Progress(Replay(n).0, Replay(n).1) == n
  {
    if n > 0 {
      ReplayScores(n - 1);
    }
  }

  /** After n points from a fresh tracker the level is 1 + n / 11 and the
      points are n % 11. */
  lemma ReplayClosedForm(n: nat)
    ensures Replay(n) == (1 + n / (PointsPerLevel + 1), n % (PointsPerLevel + 1))
  {
    ReplayScores(n);
    ProgressDetermines(Replay(n).0, Replay(n).1);
  }

  /** Eleven points take a fresh tracker to level 2 with no points left over. */
  lemma ElevenPointsReachLevelTwo()
    ensures Replay(PointsPerLevel + 1) == (2, 0)
  {
    ReplayClosedForm(PointsPerLevel + 1);
  }

  /** Up to a full level, every point stays on level 1. */
  lemma FirstLevelAccumulates(n: nat)
    requires n <= PointsPerLevel
    ensures Replay(n) == (1, n)
  {
    ReplayClosedForm(n);
  }

  /** Scoring never lowers the level. */
  lemma {:induction false} LevelNeverDecreases(m: nat, n: nat)
    requires m <= n
    ensures Replay(m).0 <= Replay(n).0
  {
    if m < n {
      LevelNeverDecreases(m, n - 1);
    }
  }

  class Level {
    var level: int
    var points: int

    ghost predicate Valid()
      reads this
    {
      level >= 1 && 0 <= points <= PointsPerLevel
    }

    constructor ()
      ensures Valid()
      ensures level == 1 && points == 0
    {
      level := 1;
      points := 0;
    }

    /** Scores one point; the point after a full level resets the points and
        moves up a level. */
    method AddPoint()
      modifies this
      ensures old(points) + 1 > PointsPerLevel ==> points == 0 && level == old(level) + 1
      ensures old(points) + 1 <= PointsPerLevel ==> points == old(points) + 1 && level == old(level)
      ensures (level, points) == Bump(old(level), old(points))
      ensures old(Valid()) ==> Valid()
    {
      points := points + 1;
      if points > PointsPerLevel {
        points := 0;
        Next();
      }
    }

    method Next()
      modifies this
      ensures level == old(level) + 1 && points == old(points)
    {
      level := level + 1;
    }
  }
}
