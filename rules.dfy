/**
 The per-tick hit/score rules of the main game loop, as pure functions.

 One tick of the loop reads the positions of Naruto (the player) and Shika
 (the enemy) and then, in this order:
   1. if Naruto hits Shika and the game is not over yet, the game ends and
      scoring is disabled for good;
   2. otherwise, if Naruto is within crossing distance of Shika, the cross
      cooldown is off and scoring is enabled, the score rises by one and the
      cooldown starts;
   3. finally, if the two sprites overlap while the cooldown is still off,
      the game ends (without disabling scoring).
 */
module Rules {

  // Thresholds of the hit test and of the crossing test, in pixels.
  const HitMinX: int := 20
  const HitMaxX: int := 90
  const HitMaxY: int := 50
  const CrossMaxX: int := 145

  /** What one tick reads from the page: left/top of both sprites and their widths. */
  datatype Frame = Frame(nx: int, ny: int, sx: int, sy: int, narutoWidth: int, shikaWidth: int)

  /** The four module-level variables the loop updates. */
  datatype State = State(score: nat, cross: bool, gameOver: bool, updateScore: bool)

  /** The values the variables start with when the page loads. */
  const Initial: State := State(0, true, false, true)

  /** Scoring is only ever disabled together with ending the game. */
  predicate Consistent(s: State)
  {
    !s.updateScore ==> s.gameOver
  }

  function Abs(x: int): (r: nat)
    ensures r == x || r == -x
  {
    if x < 0 then -x else x
  }

  function OffsetX(f: Frame): nat { Abs(f.nx - f.sx) }
  function OffsetY(f: Frame): nat { Abs(f.ny - f.sy) }

  /** Naruto runs into Shika: close horizontally but not too close, and level vertically. */
  predicate Hit(f: Frame, gameOver: bool)
  {
    OffsetX(f) < HitMaxX && OffsetY(f) < HitMaxY && OffsetX(f) > HitMinX && !gameOver
  }

  /** Naruto passes Shika and may earn a point. */
  predicate Crossing(f: Frame, s: State)
  {
    OffsetX(f) < CrossMaxX && s.cross && s.updateScore
  }

  /** The two sprites' horizontal extents intersect. */
  predicate Overlap(f: Frame)
  {
    f.nx + f.narutoWidth > f.sx && f.nx < f.sx + f.shikaWidth
  }

  /** Steps 1 and 2 of a tick: the hit test, else the crossing test. */
  function Collide(s: State, f: Frame): (t: State)
    ensures Hit(f, s.gameOver) ==> t.gameOver && !t.updateScore && t.score == s.score && t.cross == s.cross
    ensures !Hit(f, s.gameOver) && Crossing(f, s) ==>
              t.score == s.score + 1 && !t.cross && t.gameOver == s.gameOver && t.updateScore
    ensures !Hit(f, s.gameOver) && !Crossing(f, s) ==> t == s
  {
    if Hit(f, s.gameOver) then s.(gameOver := true, updateScore := false)
    else if Crossing(f, s) then s.(score := s.score + 1, cross := false)
    else s
  }

  /** Step 3 of a tick: the overlap test, which looks at the cooldown as step 2 left it. */
  function OverlapCheck(s: State, f: Frame): (t: State)
    ensures t.gameOver <==> s.gameOver || (Overlap(f) && s.cross)
    ensures t.score == s.score && t.cross == s.cross && t.updateScore == s.updateScore
  {
    if Overlap(f) && s.cross then s.(gameOver := true) else s
  }

  /** The state after one whole tick. */
  function AfterTick(s: State, f: Frame): (t: State)
    // a hit ends the game, disables scoring and scores nothing
    ensures Hit(f, s.gameOver) ==> t.gameOver && !t.updateScore && t.score == s.score
    // a crossing that is not a hit scores exactly one point and starts the cooldown
    ensures !Hit(f, s.gameOver) && Crossing(f, s) ==> t.score == s.score + 1 && !t.cross
    // the score never falls and rises by at most one per tick
    ensures s.score <= t.score <= s.score + 1
    // a point is scored only out of a crossing, and such a tick cannot end the game
    ensures t.score != s.score ==> Crossing(f, s) && t.gameOver == s.gameOver && t.updateScore
    // during the cooldown nothing scores, and no tick ends the cooldown
    ensures !s.cross ==> t.score == s.score && !t.cross
    ensures t.cross ==> s.cross
    // scoring, once disabled, stays disabled and the score stays put
    ensures !s.updateScore ==> t.score == s.score && !t.updateScore
    ensures t.updateScore ==> s.updateScore
    // without a hit scoring stays as it was, and without a crossing too the cooldown
    ensures !Hit(f, s.gameOver) ==> t.updateScore == s.updateScore
    ensures !Hit(f, s.gameOver) && !Crossing(f, s) ==> t.cross == s.cross
    // game over latches
    ensures s.gameOver ==> t.gameOver
    // the overlap rule, judged on the cooldown as the crossing test left it
    ensures Overlap(f) && Collide(s, f).cross ==> t.gameOver
    ensures t.gameOver <==> s.gameOver || Hit(f, s.gameOver) || (Overlap(f) && Collide(s, f).cross)
    ensures Consistent(s) ==> Consistent(t)
  {
    OverlapCheck(Collide(s, f), f)
  }

  /** The deferred timer callback that ends the cooldown. */
  function AfterReset(s: State): (t: State)
    ensures t.cross
    ensures t.score == s.score && t.gameOver == s.gameOver && t.updateScore == s.updateScore
    ensures Consistent(s) ==> Consistent(t)
  {
    s.(cross := true)
  }

  /**
   With sprites no wider than the crossing distance, the overlap rule never
   ends a run on its own: in every reachable state the game ends on a tick
   exactly when the hit test fires (or it was already over).
   */
  lemma OverlapNeverFiresAlone(s: State, f: Frame)
    requires Consistent(s)
    requires f.narutoWidth <= CrossMaxX && f.shikaWidth <= CrossMaxX
    ensures AfterTick(s, f).gameOver <==> s.gameOver || Hit(f, s.gameOver)
  {
    if Overlap(f) && !Hit(f, s.gameOver) && s.cross && s.updateScore {
      assert OffsetX(f) < CrossMaxX;
      assert !Collide(s, f).cross;
    }
  }

  /**
   The overlap rule ends the game but leaves scoring enabled, so any later
   crossing still scores.
   */
  lemma ScoringOutlivesOverlapGameOver(s: State, f: Frame, g: Frame)
    requires !s.gameOver && !Hit(f, s.gameOver) && AfterTick(s, f).gameOver
    ensures AfterTick(s, f).updateScore == s.updateScore
    ensures Crossing(g, AfterTick(s, f)) ==> AfterTick(AfterTick(s, f), g).score == s.score + 1
  {
  }

  /**
   The case above is reachable from the start: a wide overlap ends the game
   on the first tick and the second tick raises the score to 1.
   */
  lemma OverlapGameOverExample()
    ensures var s1 := AfterTick(Initial, Frame(0, 0, 150, 0, 200, 200));
            s1.gameOver && s1.updateScore && s1.score == 0 &&
            AfterTick(s1, Frame(0, 0, 100, 0, 200, 200)).score == 1
  {
  }
}
