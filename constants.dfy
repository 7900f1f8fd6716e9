/** The tuning constants of the game loop (game.py, module level). */
module Constants {
  const SCREEN_WIDTH: int := 800
  const SCREEN_HEIGHT: int := 600
  const PIPE_WIDTH: int := 50
  const PIPE_GAP: int := 200
  const PIPE_SPEED: int := 5
  const GRAVITY: real := 0.5
  const FLAP_STRENGTH: real := 10.0

  /** A new pipe is spawned on every frame whose (incremented) count is a multiple of this. */
  const SPAWN_INTERVAL: nat := 100

  /** Margin kept between the gap and the top and bottom of the screen. */
  const GAP_MARGIN: int := 100
  const MIN_GAP_Y: int := GAP_MARGIN
  const MAX_GAP_Y: int := SCREEN_HEIGHT - PIPE_GAP - GAP_MARGIN

  /** Where the bird of a new session starts. */
  const BIRD_START_X: int := 100
  const BIRD_START_Y: int := SCREEN_HEIGHT / 2
}
