/** Shared constants and records of the game. */
module Types {

  /** Canvas width in pixels; the clamp in `update` is its only use
      in this model. */
  const CanvasWidth: real := 800.0

  /** The y coordinate of the grass line the characters stand on. */
  const GroundY: real := 320.0

  /** Horizontal distance the player walks per frame. */
  const PlayerSpeed: real := 3.0

  /** The three screens, visited in this order. */
  datatype GameState = Title | Playing | Win

  /** A dog treat lying on the ground. */
  datatype Treat = Treat(x: real, y: real, collected: bool)
}
