/** The rule-based calculator (`FPCalculation`): every ball, in order, is
    taken off the working list `state` of balls not visited yet, and three
    rules add up its contribution, looking ahead into `state`. */
module FPCalculation {
  import opened Wrappers
  import opened Calculation
  import opened Model
  import opened Shape

  /** A rule maps the balls still to visit and the current ball to points;
      reading past the end of `state` is an index error. */
  type BallRule = (seq<Ball>, Ball) -> Result<int>

  /** A strike earns the pins of the next two balls. */
  function StrikeBonusRule(state: seq<Ball>, ball: Ball): Result<int> {
    if !ball.isStrike then Ok(0)
    else if |state| < 2 then Err(IndexOutOfBounds)
    else Ok(state[0].pins + state[1].pins)
  }

  /** A spare earns the pins of the next ball. */
  function SpareBonusRule(state: seq<Ball>, ball: Ball): Result<int> {
    if !ball.isSpare then Ok(0)
    else if |state| < 1 then Err(IndexOutOfBounds)
    else Ok(state[0].pins)
  }

  /** Every ball outside the bonus frame earns its own pins. */
  function RegularBallRule(state: seq<Ball>, ball: Ball): Result<int> {
    Ok(if ball.isBonus then 0 else ball.pins)
  }

  const RULES: seq<BallRule> := [StrikeBonusRule, SpareBonusRule, RegularBallRule]

  /** The sum of the rules, applied in order; the first error stops it. */
  function ApplyRules(rules: seq<BallRule>, state: seq<Ball>, ball: Ball): Result<int> {
    if rules == [] then Ok(0)
    else
      var x :- rules[0](state, ball);
      AddTo(x, ApplyRules(rules[1..], state, ball))
  }

  /** What a ball earns: its pins unless it is a bonus ball, the next two
      balls after a strike, the next one after a spare, an index error when
      those are missing. */
  lemma Contribution(state: seq<Ball>, ball: Ball)
    ensures ApplyRules(RULES, state, ball).Ok?
        <==> (ball.isStrike ==> |state| >= 2) && (ball.isSpare ==> |state| >= 1)
    ensures ApplyRules(RULES, state, ball).Ok? ==>
      ApplyRules(RULES, state, ball).value
        == (if ball.isStrike then state[0].pins + state[1].pins else 0)
         + (if ball.isSpare then state[0].pins else 0)
         + (if ball.isBonus then 0 else ball.pins)
    ensures ApplyRules(RULES, state, ball).Err? ==> ApplyRules(RULES, state, ball) == Err(IndexOutOfBounds)
  {
    var tail1 := RULES[1..];
    var tail2 := tail1[1..];
    assert tail1 == [SpareBonusRule, RegularBallRule];
    assert tail2 == [RegularBallRule];
    assert tail2[1..] == [];
    assert ApplyRules(tail2, state, ball) == RegularBallRule(state, ball);
    var spare := SpareBonusRule(state, ball);
    assert ApplyRules(tail1, state, ball)
        == if spare.Err? then spare else AddTo(spare.value, RegularBallRule(state, ball));
  }

  /** `List.remove(Object)`: drops the first element equal to `x`, if any. */
  function RemoveFirst(xs: seq<Ball>, x: Ball): (r: seq<Ball>)
    ensures x !in xs ==> r == xs
    ensures x in xs ==> |r| == |xs| - 1
  {
    if xs == [] then []
    else if xs[0] == x then xs[1..]
    else [xs[0]] + RemoveFirst(xs[1..], x)
  }

  /** When `x` is present, `RemoveFirst` cuts out exactly its first
      occurrence. */
  lemma {:induction false} RemoveFirstAt(xs: seq<Ball>, x: Ball)
    requires x in xs
    ensures exists i :: 0 <= i < |xs| && xs[i] == x && x !in xs[..i]
                        && RemoveFirst(xs, x) == xs[..i] + xs[i + 1..]
  {
    if xs[0] == x {
      assert xs[..0] + xs[1..] == xs[1..];
      assert x !in xs[..0];
    } else {
      RemoveFirstAt(xs[1..], x);
      var rest := RemoveFirst(xs[1..], x);
      var i :| 0 <= i < |xs[1..]| && xs[1..][i] == x && x !in xs[1..][..i] && rest == xs[1..][..i] + xs[1..][i + 1..];
      RemovedAfterHead(xs, x, rest, i);
      assert RemoveFirst(xs, x) == xs[..i + 1] + xs[i + 1 + 1..];
    }
  }

  /** Removing `x` from the tail, at position `i` there, removes it at
      position `i + 1` of the whole list. */
  lemma RemovedAfterHead(xs: seq<Ball>, x: Ball, rest: seq<Ball>, i: nat)
    requires 0 < |xs| && xs[0] != x && i < |xs| - 1
    requires xs[1..][i] == x && x !in xs[1..][..i] && rest == xs[1..][..i] + xs[1..][i + 1..]
    ensures xs[i + 1] == x && x !in xs[..i + 1] && [xs[0]] + rest == xs[..i + 1] + xs[i + 2..]
  {
    assert xs[..i + 1] == [xs[0]] + xs[1..][..i];
    assert xs[i + 2..] == xs[1..][i + 1..];
  }

  /** With value equality the first ball equal to the head is the head. */
  lemma RemoveHead(xs: seq<Ball>)
    requires xs != []
    ensures RemoveFirst(xs, xs[0]) == xs[1..]
  {
  }

  /** Visits `balls` in order against the working list `state`: each ball
      is removed from `state`, then scored against what is left. */
  function Run(balls: seq<Ball>, state: seq<Ball>): Result<int>
    decreases |balls|
  {
    if balls == [] then Ok(0)
    else
      var rest := RemoveFirst(state, balls[0]);
      var x :- ApplyRules(RULES, rest, balls[0]);
      AddTo(x, Run(balls[1..], rest))
  }

  /** The score of a list of balls, `state` starting as a copy of it. */
  function Fold(balls: seq<Ball>): Result<int> {
    Run(balls, balls)
  }

  /** Since `state` starts as the balls themselves, it is always the balls not
      visited yet: each ball sees exactly the balls after it. */
  lemma FoldCons(balls: seq<Ball>)
    requires balls != []
    ensures ApplyRules(RULES, balls[1..], balls[0]).Err? ==>
      Fold(balls) == ApplyRules(RULES, balls[1..], balls[0])
    ensures ApplyRules(RULES, balls[1..], balls[0]).Ok? ==>
      Fold(balls) == AddTo(ApplyRules(RULES, balls[1..], balls[0]).value, Fold(balls[1..]))
  {
    RemoveHead(balls);
  }

  /** One step of `score`: visiting ball `k` removes it from the state, which
      then holds exactly the balls after it; `x` is what the ball earns. */
  lemma ScoreStep(balls: seq<Ball>, k: nat, total: int, x: Result<int>)
    requires k < |balls|
    requires Fold(balls) == AddTo(total, Fold(balls[k..]))
    requires x == ApplyRules(RULES, balls[k + 1..], balls[k])
    ensures RemoveFirst(balls[k..], balls[k]) == balls[k + 1..]
    ensures x.Err? ==> Fold(balls) == x
    ensures x.Ok? ==> Fold(balls) == AddTo(total + x.value, Fold(balls[k + 1..]))
  {
    var state := balls[k..];
    assert state[1..] == balls[k + 1..];
    FoldCons(state);
    RemoveHead(state);
    if x.Ok? {
      AddToTwice(total, x.value, Fold(balls[k + 1..]));
    }
  }

  /** `score`, on the balls of the game. */
  method Score(game: Game) returns (r: Result<int>)
    ensures r == Fold(game.Balls())
  {
    r := ScoreBalls(game.Balls());
  }

  /** The loop of `score`: `state` starts as a copy of `balls` and loses its
      head at every ball. */
  method ScoreBalls(balls: seq<Ball>) returns (r: Result<int>)
    ensures r == Fold(balls)
  {
    var state := balls;
    var total := 0;
    var k := 0;
    while k < |balls|
      invariant 0 <= k <= |balls|
      invariant state == balls[k..]
      invariant Fold(balls) == AddTo(total, Fold(state))
    {
      var current := balls[k];
      state := RemoveFirst(state, current);
      var x := ApplyRules(RULES, state, current);
      ScoreStep(balls, k, total, x);
      if x.Err? {
        return x;
      }
      total := total + x.value;
      k := k + 1;
    }
    return Ok(total);
  }

  /** Balls of the bonus frame earn nothing of their own, an 'X' there
      included, since it is not flagged as a strike. */
  lemma {:induction false} BonusBallsEarnNothing(balls: seq<Ball>)
    requires forall i :: 0 <= i < |balls| ==> BonusBall(balls[i])
    ensures Fold(balls) == Ok(0)
  {
    if balls != [] {
      FoldCons(balls);
      Contribution(balls[1..], balls[0]);
      BonusBallsEarnNothing(balls[1..]);
    }
  }

  /** The first ball adds what it earns to what the balls after it score. */
  lemma FoldStep(balls: seq<Ball>, c: int, rest: int)
    requires balls != []
    requires ApplyRules(RULES, balls[1..], balls[0]) == Ok(c)
    requires Fold(balls[1..]) == Ok(rest)
    ensures Fold(balls) == Ok(c + rest)
  {
    FoldCons(balls);
  }

  /** A strike frame earns ten plus the next two balls. */
  lemma FoldStrikeFrame(f: Frame, next: seq<Ball>, rest: int)
    requires StrikeFrame(f) && |next| >= 2 && Fold(next) == Ok(rest)
    ensures Fold(f.balls + next) == Ok(MAXIMUM_BALL_VALUE + next[0].pins + next[1].pins + rest)
  {
    var all := f.balls + next;
    assert all[1..] == next;
    Contribution(next, f.balls[0]);
    FoldStep(all, MAXIMUM_BALL_VALUE + next[0].pins + next[1].pins, rest);
  }

  /** A two-ball frame earns its pins, plus the next ball after a spare. */
  lemma FoldPairFrame(f: Frame, next: seq<Ball>, rest: int)
    requires SpareFrame(f) || OpenFrame(f)
    requires SpareFrame(f) ==> |next| >= 1
    requires Fold(next) == Ok(rest)
    ensures Fold(f.balls + next)
         == Ok(f.balls[0].pins + f.balls[1].pins + (if SpareFrame(f) then next[0].pins else 0) + rest)
  {
    var all := f.balls + next;
    var after := all[1..];
    assert after[1..] == next;
    var c := f.balls[1].pins + (if SpareFrame(f) then next[0].pins else 0);
    Contribution(next, f.balls[1]);
    FoldStep(after, c, rest);
    Contribution(after, f.balls[0]);
    FoldStep(all, f.balls[0].pins, c + rest);
  }

  /** A regular frame followed by the balls `next`, which score `rest`: the
      frame's balls earn what the reference frame score says. */
  lemma FoldFrame(f: Frame, next: seq<Ball>, rest: int)
    requires RegularFrame(f)
    requires StrikeFrame(f) ==> |next| >= 2
    requires SpareFrame(f) ==> |next| >= 1
    requires Fold(next) == Ok(rest)
    ensures Fold(f.balls + next) == Ok(FrameScore(f, PinsOf(next)) + rest)
  {
    if StrikeFrame(f) {
      FoldStrikeFrame(f, next, rest);
      BonusPrefix(PinsOf(next));
    } else {
      FoldPairFrame(f, next, rest);
      SumPinsPair(f.balls);
      if SpareFrame(f) {
        BonusPrefix(PinsOf(next));
      }
    }
  }

  /** The balls of frames `j` onwards of a legal game score what the
      reference gives for those frames, and no rule reads past the end. */
  lemma {:induction false} FoldFrom(frames: seq<Frame>, j: nat)
    requires WellFormed(frames)
    requires j <= COUNT_FRAMES
    ensures Fold(Flatten(frames[j..])) == Ok(ScoreFrom(frames[j..], COUNT_FRAMES - j))
    decreases COUNT_FRAMES - j
  {
    if j < COUNT_FRAMES {
      FoldFrom(frames, j + 1);
      Lookahead(frames, j);
      FlattenCons(frames, j);
      ScoreFromCons(frames, j, COUNT_FRAMES - j);
      FoldFrame(frames[j], Flatten(frames[j + 1..]), ScoreFrom(frames[j + 1..], COUNT_FRAMES - j - 1));
    } else {
      BonusFramesEarnNothing(frames);
    }
  }

  /** After the ten frames of a legal game only bonus balls are left. */
  lemma BonusFramesEarnNothing(frames: seq<Frame>)
    requires WellFormed(frames)
    ensures Fold(Flatten(frames[COUNT_FRAMES..])) == Ok(0)
  {
    var tail := frames[COUNT_FRAMES..];
    if |frames| == COUNT_FRAMES + 1 {
      assert tail[1..] == [];
      var bonus := frames[COUNT_FRAMES];
      assert tail == [bonus];
      assert Flatten(tail) == bonus.balls + Flatten([]);
      assert Flatten(tail) == bonus.balls;
      if StrikeFrame(frames[LAST_NOTBONUS_FRAME_INDEX]) {
        assert BonusFrame(bonus, MAX_BALLS_COUNT);
      } else {
        assert BonusFrame(bonus, MAX_BALLS_COUNT - 1);
      }
      assert forall i :: 0 <= i < |bonus.balls| ==> BonusBall(bonus.balls[i]);
      BonusBallsEarnNothing(frames[COUNT_FRAMES].balls);
    } else {
      assert tail == [];
    }
  }

  /** Open frames alone need no lookahead: however few they are, they
      score the sum of their pins. */
  lemma {:induction false} OpenFramesScoreTheirPins(frames: seq<Frame>)
    requires forall i :: 0 <= i < |frames| ==> OpenFrame(frames[i])
    ensures Fold(Flatten(frames)) == Ok(TotalOf(frames))
  {
    if frames != [] {
      OpenFramesScoreTheirPins(frames[1..]);
      FoldPairFrame(frames[0], Flatten(frames[1..]), TotalOf(frames[1..]));
      SumPinsPair(frames[0].balls);
    }
  }

  /** On a legal game every rule finds the balls it reads, and the score is
      the standard one. */
  lemma ScoresLegalGames(game: Game)
    requires WellFormed(game.frames)
    ensures Fold(game.Balls()) == Ok(Reference(game.frames))
  {
    FoldFrom(game.frames, 0);
    assert game.frames[0..] == game.frames;
  }
}
