/** Tuning constants of the game (the static fields of `Config`). */
module Config {
  /** Side of the square playing grid, in cells. */
  const GRID: int := 24

  /** Snake ticks per second: start, ceiling, floor and gain per point of score. */
  const BASE_CPS: real := 6.0
  const MAX_CPS: real := 16.0
  const MIN_CPS: real := 3.0
  const CPS_INC: real := 0.5

  /** Most hit points the snake can hold. */
  const MAX_HP: int := 3

  /** Banana slow-down: amount in ticks per second, and duration in milliseconds. */
  const BANANA_SLOW: int := 2
  const BANANA_BASE_MS: int := 3000
  const BANANA_PER_HS_MS: int := 150
  const BANANA_MAX_MS: int := 10000

  /** Mouse ticks per second: start, floor and ceiling. */
  const BASE_MOUSE_CPS: int := 4
  const MIN_MOUSE_CPS: int := 2
  const MAX_MOUSE_CPS: int := 14

  /** Chebyshev distance to the snake's head at or below which the mouse panics. */
  const MOUSE_ALERT_DIST: int := 3
}

module Wrappers {
  datatype Option<+T> = None | Some(value: T)
}
