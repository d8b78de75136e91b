/** Shapes of frame lists: what the parser can build, what a legal game
    looks like, and the standard bowling score of a legal game. The two
    calculators and the full validator are proved against these. */
module Shape {
  import opened Calculation
  import opened Model

  // What the parser builds, token by token.

  /** A ball parsed outside the bonus frame, after the balls `before` of the
      same token: a strike of ten pins, a spare of the pins left by
      `before`, or a plain ball of 0 to 9 pins. */
  predicate MainBall(b: Ball, before: seq<Ball>) {
    && !b.isBonus
    && ((b.isStrike && !b.isSpare && b.pins == MAXIMUM_BALL_VALUE)
        || (b.isSpare && !b.isStrike && b.pins == FRAME_BALLS_MAX_SUM - SumPins(before))
        || (!b.isSpare && !b.isStrike && MINIMUM_BALL_VALUE <= b.pins < MAXIMUM_BALL_VALUE))
  }

  /** A ball parsed in the bonus frame: never a spare, and an 'X' there is
      ten pins without the strike flag. */
  predicate BonusBall(b: Ball) {
    b.isBonus && !b.isSpare && !b.isStrike && MINIMUM_BALL_VALUE <= b.pins <= MAXIMUM_BALL_VALUE
  }

  predicate MainTokenFrame(f: Frame) {
    forall i :: 0 <= i < |f.balls| ==> MainBall(f.balls[i], f.balls[..i])
  }

  predicate BonusTokenFrame(f: Frame) {
    forall i :: 0 <= i < |f.balls| ==> BonusBall(f.balls[i])
  }

  /** A frame list as the parser hands it to the validator: frames of
      regular tokens, the last one possibly parsed from the bonus token. */
  predicate Parsed(frames: seq<Frame>) {
    && (forall i :: 0 <= i < |frames| - 1 ==> MainTokenFrame(frames[i]))
    && (|frames| > 0 ==> MainTokenFrame(frames[|frames| - 1]) || BonusTokenFrame(frames[|frames| - 1]))
  }

  // What a legal game looks like.

  function Plain(pins: int): Ball {
    Ball(pins, false, false, false)
  }

  /** One ball of ten pins, flagged as a strike. */
  predicate StrikeFrame(f: Frame) {
    f.balls == [Ball(MAXIMUM_BALL_VALUE, false, false, true)]
  }

  /** A plain ball of fewer than ten pins, then a spare ball with the rest. */
  predicate SpareFrame(f: Frame) {
    && |f.balls| == 2
    && MINIMUM_BALL_VALUE <= f.balls[0].pins < MAXIMUM_BALL_VALUE
    && f.balls[0] == Plain(f.balls[0].pins)
    && f.balls[1] == Ball(FRAME_BALLS_MAX_SUM - f.balls[0].pins, false, true, false)
  }

  /** Two plain balls that leave pins standing. */
  predicate OpenFrame(f: Frame) {
    && |f.balls| == 2
    && f.balls[0] == Plain(f.balls[0].pins)
    && f.balls[1] == Plain(f.balls[1].pins)
    && MINIMUM_BALL_VALUE <= f.balls[0].pins
    && MINIMUM_BALL_VALUE <= f.balls[1].pins
    && f.balls[0].pins + f.balls[1].pins < FRAME_BALLS_MAX_SUM
  }

  predicate RegularFrame(f: Frame) {
    StrikeFrame(f) || SpareFrame(f) || OpenFrame(f)
  }

  predicate BonusFrame(f: Frame, n: nat) {
    |f.balls| == n && forall i :: 0 <= i < n ==> BonusBall(f.balls[i])
  }

  /** Ten regular frames, then two bonus balls after a tenth-frame strike,
      one after a tenth-frame spare, and nothing after an open tenth frame. */
  predicate WellFormed(frames: seq<Frame>) {
    && |frames| >= COUNT_FRAMES
    && (forall j :: 0 <= j < COUNT_FRAMES ==> RegularFrame(frames[j]))
    && (if StrikeFrame(frames[LAST_NOTBONUS_FRAME_INDEX]) then
          |frames| == COUNT_FRAMES + 1 && BonusFrame(frames[COUNT_FRAMES], MAX_BALLS_COUNT)
        else if SpareFrame(frames[LAST_NOTBONUS_FRAME_INDEX]) then
          |frames| == COUNT_FRAMES + 1 && BonusFrame(frames[COUNT_FRAMES], MAX_BALLS_COUNT - 1)
        else
          |frames| == COUNT_FRAMES)
  }

  // The standard score: each of the ten frames earns its pins, a strike
  // also the next two rolls, a spare the next roll.

  /** The sum of the first `k` rolls of `next` (all of them if fewer). */
  function Bonus(next: seq<int>, k: nat): int {
    if k == 0 || next == [] then 0 else next[0] + Bonus(next[1..], k - 1)
  }

  function FrameScore(f: Frame, next: seq<int>): int {
    if StrikeFrame(f) then MAXIMUM_BALL_VALUE + Bonus(next, 2)
    else if SpareFrame(f) then MAXIMUM_BALL_VALUE + Bonus(next, 1)
    else f.Total()
  }

  /** Score of the first `n` frames of `frames`, each looking ahead into
      the rolls of the frames after it. */
  function ScoreFrom(frames: seq<Frame>, n: nat): int {
    if n == 0 || frames == [] then 0
    else FrameScore(frames[0], PinsOf(Flatten(frames[1..]))) + ScoreFrom(frames[1..], n - 1)
  }

  function Reference(frames: seq<Frame>): int {
    ScoreFrom(frames, COUNT_FRAMES)
  }

  lemma FlattenCons(frames: seq<Frame>, j: nat)
    requires j < |frames|
    ensures Flatten(frames[j..]) == frames[j].balls + Flatten(frames[j + 1..])
  {
    assert frames[j..][1..] == frames[j + 1..];
  }

  /** Frames `j` onwards score frame `j`, looking ahead into the frames after
      it, plus the frames after it. */
  lemma ScoreFromCons(frames: seq<Frame>, j: nat, n: nat)
    requires j < |frames| && n > 0
    ensures ScoreFrom(frames[j..], n)
         == FrameScore(frames[j], PinsOf(Flatten(frames[j + 1..]))) + ScoreFrom(frames[j + 1..], n - 1)
  {
    assert frames[j..][1..] == frames[j + 1..];
  }

  /** In a legal game the rolls after a strike among the ten frames hold at
      least two balls, and those after a spare at least one. */
  lemma Lookahead(frames: seq<Frame>, j: nat)
    requires WellFormed(frames)
    requires j < COUNT_FRAMES
    ensures StrikeFrame(frames[j]) ==> |Flatten(frames[j + 1..])| >= 2
    ensures SpareFrame(frames[j]) ==> |Flatten(frames[j + 1..])| >= 1
  {
    if j == 9 {
      if StrikeFrame(frames[j]) || SpareFrame(frames[j]) {
        FlattenCons(frames, j + 1);
      }
    } else {
      FlattenCons(frames, j + 1);
      if StrikeFrame(frames[j + 1]) {
        FlattenCons(frames, j + 2);
      }
    }
  }

  /** The bonus of one roll is the next roll, of two the next two. */
  lemma BonusPrefix(next: seq<int>)
    requires |next| >= 1
    ensures Bonus(next, 1) == next[0]
    ensures |next| >= 2 ==> Bonus(next, 2) == next[0] + next[1]
  {
    assert Bonus(next[1..], 0) == 0;
    if |next| >= 2 {
      assert Bonus(next[1..], 1) == next[1] + Bonus(next[2..], 0);
    }
  }

  lemma {:induction false} BonusBounds(next: seq<int>, k: nat)
    requires forall i :: 0 <= i < |next| ==> 0 <= next[i] <= MAXIMUM_BALL_VALUE
    ensures 0 <= Bonus(next, k) <= MAXIMUM_BALL_VALUE * k
  {
    if k != 0 && next != [] {
      BonusBounds(next[1..], k - 1);
    }
  }

  lemma RollRange(frames: seq<Frame>, j: nat)
    requires WellFormed(frames)
    requires j <= |frames|
    ensures forall i :: 0 <= i < |PinsOf(Flatten(frames[j..]))| ==>
      0 <= PinsOf(Flatten(frames[j..]))[i] <= MAXIMUM_BALL_VALUE
    decreases |frames| - j
  {
    if j < |frames| {
      FlattenCons(frames, j);
      RollRange(frames, j + 1);
      PinsOfAppend(frames[j].balls, Flatten(frames[j + 1..]));
      FrameBallsInRange(frames, j);
    }
  }

  lemma FrameBallsInRange(frames: seq<Frame>, j: nat)
    requires WellFormed(frames)
    requires j < |frames|
    ensures forall i :: 0 <= i < |frames[j].balls| ==>
      MINIMUM_BALL_VALUE <= frames[j].balls[i].pins <= MAXIMUM_BALL_VALUE
  {
    if j < COUNT_FRAMES {
      assert RegularFrame(frames[j]);
    }
  }

  lemma FrameScoreBounds(f: Frame, next: seq<int>)
    requires RegularFrame(f)
    requires forall i :: 0 <= i < |next| ==> 0 <= next[i] <= MAXIMUM_BALL_VALUE
    ensures 0 <= FrameScore(f, next) <= 30
  {
    BonusBounds(next, 2);
    BonusBounds(next, 1);
    if OpenFrame(f) {
      SumPinsPair(f.balls);
    }
  }

  /** No legal game scores more than 300 (ten frames of at most 30). */
  lemma {:induction false} ScoreFromBounds(frames: seq<Frame>, j: nat)
    requires WellFormed(frames)
    requires j <= COUNT_FRAMES
    ensures 0 <= ScoreFrom(frames[j..], COUNT_FRAMES - j) <= 30 * (COUNT_FRAMES - j)
    decreases COUNT_FRAMES - j
  {
    if j < COUNT_FRAMES {
      ScoreFromBounds(frames, j + 1);
      assert frames[j..][1..] == frames[j + 1..];
      RollRange(frames, j + 1);
      FrameScoreBounds(frames[j], PinsOf(Flatten(frames[j + 1..])));
    }
  }

  lemma ReferenceBounds(frames: seq<Frame>)
    requires WellFormed(frames)
    ensures 0 <= Reference(frames) <= 300
  {
    ScoreFromBounds(frames, 0);
    assert frames[0..] == frames;
  }
}
