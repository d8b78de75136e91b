/** The sample games in the notation: copies of one frame token joined with
    '|', then the delimiter "||" and the bonus token. */
module Notation {
  import opened JavaSplit

  /** `n` copies of `x`. */
  function Repeat<T>(x: T, n: nat): (r: seq<T>)
    ensures |r| == n
    ensures forall i :: 0 <= i < n ==> r[i] == x
  {
    if n == 0 then [] else [x] + Repeat(x, n - 1)
  }

  /** `n` frame tokens `t` followed by the bonus token `bonus`. */
  function Written(t: string, n: nat, bonus: string): string {
    Join(Repeat(t, n), "|") + "||" + bonus
  }

  /** "X|X|X|X|X|X|X|X|X|X||11" */
  const STRIKES_THEN_ONES: string := Written("X", 10, "11")
  /** "X|X|X|X|X|X|X|X|X|X||--" */
  const STRIKES_THEN_MISSES: string := Written("X", 10, "--")
  /** "X|X|X|X|X|X|X|X|X|X||XX" */
  const PERFECT_GAME: string := Written("X", 10, "XX")
  /** "11|11|11|11|11|11|11|11|11|11||" */
  const ALL_ONES: string := Written("11", 10, "")
  /** "9-|9-|9-|9-|9-|9-|9-|9-|9-|9-||" */
  const NINES_AND_MISSES: string := Written("9-", 10, "")
  /** "11|11|11|11|11|11|11|11|11||" */
  const NINE_FRAMES: string := Written("11", 9, "")
}
