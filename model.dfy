/** The value model of a game: balls, frames and the game itself
    (the immutable `Ball`, `Frame` and `Game` records of the Java code). */
module Model {
  import opened Wrappers
  import opened Calculation

  /** One roll. `isBonus` marks the balls of the trailing bonus frame;
      equality is structural, as for the Java value class. */
  datatype Ball = Ball(pins: int, isBonus: bool, isSpare: bool, isStrike: bool)
  {
    predicate IsCorrect() {
      MINIMUM_BALL_VALUE <= pins <= MAXIMUM_BALL_VALUE
    }

    static function Miss(isBonus: bool): Ball {
      Ball(MINIMUM_BALL_VALUE, isBonus, false, false)
    }

    /** A spare ball; asking for one in the bonus frame is a parse error. */
    static function Spare(pins: int, isBonus: bool): Result<Ball> {
      if isBonus then Err(ParseError(SpareInBonus))
      else Ok(Ball(pins, false, true, false))
    }

    /** All ten pins; only a ball outside the bonus frame counts as a strike. */
    static function Strike(isBonus: bool): Ball {
      Ball(MAXIMUM_BALL_VALUE, isBonus, false, !isBonus)
    }

    static function Usual(pins: int, isBonus: bool): Ball {
      Ball(pins, isBonus, false, false)
    }
  }

  /** The flag combinations the factories can produce: never a spare and a
      strike at once, never a spare or a strike in the bonus frame, and a
      strike always has all ten pins. */
  predicate Consistent(b: Ball) {
    && !(b.isSpare && b.isStrike)
    && !(b.isBonus && (b.isSpare || b.isStrike))
    && (b.isStrike ==> b.pins == MAXIMUM_BALL_VALUE)
  }

  lemma FactoriesConsistent(pins: int, isBonus: bool)
    ensures Consistent(Ball.Miss(isBonus)) && Ball.Miss(isBonus).pins == 0
    ensures Consistent(Ball.Strike(isBonus)) && Ball.Strike(isBonus).pins == 10
    ensures Ball.Strike(isBonus).isStrike <==> !isBonus
    ensures Consistent(Ball.Usual(pins, isBonus)) && Ball.Usual(pins, isBonus).pins == pins
    ensures isBonus <==> Ball.Spare(pins, isBonus) == Err(ParseError(SpareInBonus))
    ensures !isBonus ==> Ball.Spare(pins, isBonus).Ok? && Consistent(Ball.Spare(pins, isBonus).value)
    ensures !isBonus ==> Ball.Spare(pins, isBonus).value.pins == pins
  {
  }

  /** Sum of the pins of a list of balls. */
  function SumPins(balls: seq<Ball>): int {
    if balls == [] then 0 else balls[0].pins + SumPins(balls[1..])
  }

  lemma {:induction false} SumPinsAppend(a: seq<Ball>, b: seq<Ball>)
    ensures SumPins(a + b) == SumPins(a) + SumPins(b)
  {
    if a == [] {
      assert a + b == b;
    } else {
      assert (a + b)[1..] == a[1..] + b;
      SumPinsAppend(a[1..], b);
    }
  }

  lemma SumPinsPair(balls: seq<Ball>)
    requires |balls| == 2
    ensures SumPins(balls) == balls[0].pins + balls[1].pins
  {
    assert balls[1..][1..] == [];
    assert SumPins(balls[1..]) == balls[1].pins + SumPins(balls[1..][1..]);
  }

  /** A frame: the balls one token of the input produced, in order. */
  datatype Frame = Frame(balls: seq<Ball>)
  {
    predicate IsMaxEarned() {
      IsSpare() || IsStrike()
    }

    predicate IsSpecial() {
      IsMaxEarned() || IsBonus()
    }

    predicate IsBonus() {
      exists i :: 0 <= i < |balls| && balls[i].isBonus
    }

    predicate IsSpare() {
      exists i :: 0 <= i < |balls| && balls[i].isSpare
    }

    predicate IsStrike() {
      exists i :: 0 <= i < |balls| && balls[i].isStrike
    }

    function Total(): int {
      SumPins(balls)
    }

    predicate HaveCorrectSum() {
      MINIMUM_BALL_VALUE <= Total() <= FRAME_BALLS_MAX_SUM
    }
  }

  /** The three `having` queries are `anyMatch` over the balls, so each
      holds of a frame made of two runs of balls exactly when it holds of
      one of the runs; `isMaxEarned` and `isSpecial` follow, and the totals
      add up. */
  lemma FrameOfBalls(a: seq<Ball>, b: seq<Ball>)
    ensures Frame(a + b).IsBonus() <==> Frame(a).IsBonus() || Frame(b).IsBonus()
    ensures Frame(a + b).IsSpare() <==> Frame(a).IsSpare() || Frame(b).IsSpare()
    ensures Frame(a + b).IsStrike() <==> Frame(a).IsStrike() || Frame(b).IsStrike()
    ensures Frame(a + b).IsMaxEarned() <==> Frame(a).IsMaxEarned() || Frame(b).IsMaxEarned()
    ensures Frame(a + b).IsSpecial() <==> Frame(a).IsSpecial() || Frame(b).IsSpecial()
    ensures Frame(a + b).Total() == Frame(a).Total() + Frame(b).Total()
  {
    var ab := a + b;
    forall i | 0 <= i < |a|
      ensures ab[i] == a[i]
    {
    }
    forall i | |a| <= i < |ab|
      ensures ab[i] == b[i - |a|]
    {
    }
    forall j | 0 <= j < |b|
      ensures ab[|a| + j] == b[j]
    {
    }
    SumPinsAppend(a, b);
  }

  /** A frame of one ball answers each query as the ball does, totals its
      pins, and has a correct sum exactly when the ball is correct. */
  lemma SingleBallFrame(b: Ball)
    ensures Frame([b]).IsBonus() == b.isBonus
    ensures Frame([b]).IsSpare() == b.isSpare
    ensures Frame([b]).IsStrike() == b.isStrike
    ensures Frame([b]).Total() == b.pins
    ensures Frame([b]).HaveCorrectSum() <==> b.IsCorrect()
  {
    assert [b][0] == b && [b][1..] == [];
    assert SumPins([b]) == [b][0].pins + SumPins([b][1..]);
  }

  /** The balls the factories build outside the parser's range checks:
      a miss and a strike are always correct, a usual ball exactly when
      its pins are within 0 to 10. */
  lemma FactoryBallsCorrect(pins: int, isBonus: bool)
    ensures Ball.Miss(isBonus).IsCorrect()
    ensures Ball.Strike(isBonus).IsCorrect()
    ensures Ball.Usual(pins, isBonus).IsCorrect() <==> 0 <= pins <= 10
    ensures !isBonus ==> (Ball.Spare(pins, isBonus).value.IsCorrect() <==> 0 <= pins <= 10)
  {
  }

  /** A frame of two balls is spare, strike or bonus when one of its balls
      is, and has a correct sum exactly when the two pin counts add up to
      0 to 10. */
  lemma TwoBallFrame(b: Ball, c: Ball)
    ensures Frame([b, c]).IsBonus() <==> b.isBonus || c.isBonus
    ensures Frame([b, c]).IsSpare() <==> b.isSpare || c.isSpare
    ensures Frame([b, c]).IsStrike() <==> b.isStrike || c.isStrike
    ensures Frame([b, c]).HaveCorrectSum() <==> 0 <= b.pins + c.pins <= 10
  {
    assert [b, c] == [b] + [c];
    FrameOfBalls([b], [c]);
    SingleBallFrame(b);
    SingleBallFrame(c);
  }

  /** The balls of all frames, frame after frame. */
  function Flatten(frames: seq<Frame>): seq<Ball> {
    if frames == [] then [] else frames[0].balls + Flatten(frames[1..])
  }

  /** The pins of each ball, in the same order. */
  function PinsOf(balls: seq<Ball>): (rolls: seq<int>)
    ensures |rolls| == |balls|
    ensures forall i :: 0 <= i < |balls| ==> rolls[i] == balls[i].pins
  {
    seq(|balls|, i requires 0 <= i < |balls| => balls[i].pins)
  }

  /** A parsed game: the regular frames followed by the bonus frame, if any. */
  datatype Game = Game(frames: seq<Frame>)
  {
    function Balls(): seq<Ball> {
      Flatten(frames)
    }

    function Rolls(): seq<int> {
      PinsOf(Balls())
    }
  }

  function Sum(xs: seq<int>): int {
    if xs == [] then 0 else xs[0] + Sum(xs[1..])
  }

  function BallCount(frames: seq<Frame>): nat {
    if frames == [] then 0 else |frames[0].balls| + BallCount(frames[1..])
  }

  function TotalOf(frames: seq<Frame>): int {
    if frames == [] then 0 else frames[0].Total() + TotalOf(frames[1..])
  }

  lemma {:induction false} FlattenAppend(a: seq<Frame>, b: seq<Frame>)
    ensures Flatten(a + b) == Flatten(a) + Flatten(b)
  {
    if a == [] {
      assert a + b == b;
    } else {
      assert (a + b)[1..] == a[1..] + b;
      FlattenAppend(a[1..], b);
    }
  }

  lemma PinsOfAppend(a: seq<Ball>, b: seq<Ball>)
    ensures PinsOf(a + b) == PinsOf(a) + PinsOf(b)
  {
  }

  lemma {:induction false} SumOfPins(balls: seq<Ball>)
    ensures Sum(PinsOf(balls)) == SumPins(balls)
  {
    if balls != [] {
      assert PinsOf(balls)[1..] == PinsOf(balls[1..]);
      SumOfPins(balls[1..]);
    }
  }

  /** `getBalls` keeps every ball of every frame, so it has as many balls as
      the frames together, and `getRolls` has the same length with
      `rolls[i]` the pins of `balls[i]`. */
  lemma {:induction false} BallsOfGame(g: Game)
    ensures |g.Balls()| == BallCount(g.frames)
    ensures |g.Rolls()| == |g.Balls()|
    ensures forall i :: 0 <= i < |g.Rolls()| ==> g.Rolls()[i] == g.Balls()[i].pins
    decreases |g.frames|
  {
    if g.frames != [] {
      BallsOfGame(Game(g.frames[1..]));
    }
  }

  /** The rolls add up to the totals of the frames. */
  lemma {:induction false} RollsSum(g: Game)
    ensures Sum(g.Rolls()) == TotalOf(g.frames)
    decreases |g.frames|
  {
    if g.frames != [] {
      var rest := Game(g.frames[1..]);
      RollsSum(rest);
      PinsOfAppend(g.frames[0].balls, rest.Balls());
      SumOfPins(g.frames[0].balls);
      SumConcat(PinsOf(g.frames[0].balls), rest.Rolls());
    }
  }

  lemma {:induction false} SumConcat(a: seq<int>, b: seq<int>)
    ensures Sum(a + b) == Sum(a) + Sum(b)
  {
    if a == [] {
      assert a + b == b;
    } else {
      assert (a + b)[1..] == a[1..] + b;
      SumConcat(a[1..], b);
    }
  }
}
