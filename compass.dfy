/**
 * The four compass directions shared by the gesture classifier and the game.
 * The source spells them as the strings 'UP', 'DOWN', 'LEFT' and 'RIGHT'.
 */
module Compass {

  datatype Direction = Up | Down | Left | Right

  predicate IsHorizontal(d: Direction) {
    d == Left || d == Right
  }

  /** The 180-degree reversal of `d`: the other direction on the same axis. */
  function Opposite(d: Direction): (r: Direction)
    ensures r != d && IsHorizontal(r) == IsHorizontal(d)
  {
    match d
    case Up => Down
    case Down => Up
    case Left => Right
    case Right => Left
  }
}
