/**
 The main loop's state as the page keeps it: four module-level variables
 that the interval callback and the cooldown timer update in place.
 */
module Loop {
  import opened Rules

  class Game {
    var score: nat
    var cross: bool
    var gameOverFlag: bool
    var updateScoreFlag: bool

    /** The variables as a value, for the rules in module Rules. */
    function Snapshot(): State
      reads this
    {
      State(score, cross, gameOverFlag, updateScoreFlag)
    }

    constructor ()
      ensures Snapshot() == Initial
    {
      score := 0;
      cross := true;
      gameOverFlag := false;
      updateScoreFlag := true;
    }

    /** One run of the interval callback, given what it reads from the page. */
    method Tick(nx: int, ny: int, sx: int, sy: int, narutoWidth: int, shikaWidth: int)
      modifies this
      ensures Snapshot() == AfterTick(old(Snapshot()), Frame(nx, ny, sx, sy, narutoWidth, shikaWidth))
      ensures old(score) <= score <= old(score) + 1
      ensures old(gameOverFlag) ==> gameOverFlag
      ensures !old(updateScoreFlag) ==> !updateScoreFlag && score == old(score)
    {
      var offsetX := Abs(nx - sx);
      var offsetY := Abs(ny - sy);
      if offsetX < HitMaxX && offsetY < HitMaxY && offsetX > HitMinX && !gameOverFlag {
        gameOverFlag := true;
        updateScoreFlag := false;
      } else if offsetX < CrossMaxX && cross && updateScoreFlag {
        score := score + 1;
        cross := false;
      }
      if nx + narutoWidth > sx && nx < sx + shikaWidth && cross {
        gameOverFlag := true;
      }
    }

    /** The deferred callback that ends the scoring cooldown. */
    method ResetCross()
      modifies this
      ensures Snapshot() == AfterReset(old(Snapshot()))
      ensures cross
    {
      cross := true;
    }
  }
}
