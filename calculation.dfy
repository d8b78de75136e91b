/** The constants shared by every part of the scorer (the `Calculation`
    interface of the Java code). The `score` operation itself is modelled by
    the two calculators and dispatched in `GameService`. */
module Calculation {

  /** Pins of a ball are at most this. */
  const MAXIMUM_BALL_VALUE: int := 10
  /** Number of regular (non-bonus) frames of a game. */
  const COUNT_FRAMES: int := 10
  /** Index of the tenth frame, the one that may earn a bonus frame. */
  const LAST_NOTBONUS_FRAME_INDEX: int := COUNT_FRAMES - 1
  /** Pins of a ball are at least this. */
  const MINIMUM_BALL_VALUE: int := 0
  /** The largest total a regular frame may have. */
  const FRAME_BALLS_MAX_SUM: int := MAXIMUM_BALL_VALUE
  /** A regular frame has at most this many balls. */
  const MAX_BALLS_COUNT: int := 2
}
