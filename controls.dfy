/**
 The keyboard handler's horizontal movement: the right arrow moves Naruto
 120 pixels right, the left arrow 120 pixels left, every other key leaves
 the position alone.
 */
module Controls {
  const KeyLeft: int := 37
  const KeyRight: int := 39
  const MoveStep: int := 120

  /** Naruto's left edge after a key press. */
  function KeyMove(left: int, keyCode: int): (r: int)
    ensures keyCode == KeyRight ==> r == left + MoveStep
    ensures keyCode == KeyLeft ==> r == left - MoveStep
    ensures keyCode != KeyLeft && keyCode != KeyRight ==> r == left
  {
    if keyCode == KeyRight then left + MoveStep
    else if keyCode == KeyLeft then left - MoveStep
    else left
  }

  /** A right press undoes a left press and the other way round. */
  lemma MovesCancel(left: int)
    ensures KeyMove(KeyMove(left, KeyLeft), KeyRight) == left
    ensures KeyMove(KeyMove(left, KeyRight), KeyLeft) == left
  {
  }

  class Naruto {
    /** The sprite's left edge, in pixels. */
    var left: int

    constructor (left0: int)
      ensures left == left0
    {
      left := left0;
    }

    method MoveRight()
      modifies this
      ensures left == old(left) + MoveStep
    {
      left := left + MoveStep;
    }

    method MoveLeft()
      modifies this
      ensures left == old(left) - MoveStep
    {
      left := left - MoveStep;
    }

    /** The horizontal part of the key handler. */
    method KeyDown(keyCode: int)
      modifies this
      ensures left == KeyMove(old(left), keyCode)
    {
      if keyCode == KeyRight {
        MoveRight();
      }
      if keyCode == KeyLeft {
        MoveLeft();
      }
    }
  }
}
