/** The sample games of the benchmark, scored by the four services. */
module Samples {
  import opened Wrappers
  import opened Calculation
  import opened Model
  import opened Shape
  import opened Validator
  import opened JavaSplit
  import opened Parser
  import ClassicCalculation
  import FPCalculation
  import opened GameService
  import opened Notation

  /** `n` copies of token `t` joined with '|', then "||" and `bonus`, parse
      (without validation) into `n` copies of the frame of `t` followed by
      the bonus frame of `bonus`, if there is one. */
  lemma RepeatedTokens(t: string, f: Frame, n: nat, bonus: string, b: Option<Frame>)
    requires n > 0 && Token(t) && (bonus == [] || Token(bonus))
    requires ParseToken(t, false) == Ok(f)
    requires ParseBonus(if bonus == [] then None else Some(bonus)) == Ok(b)
    ensures Parse(Written(t, n, bonus), NoOp)
         == Ok(Game(Combine(Repeat(f, n), b)))
  {
    var tokens := Repeat(t, n);
    SplitTokens(tokens, bonus);
    assert ParseFrames(tokens).value == Repeat(f, n);
  }

  const STRIKE_BALL := Ball(MAXIMUM_BALL_VALUE, false, false, true)
  const STRIKE_FRAME := Frame([STRIKE_BALL])

  /** "X" outside the bonus token: one strike. */
  lemma StrikeToken()
    ensures ParseToken("X", false) == Ok(STRIKE_FRAME)
  {
    var e: seq<Ball> := [];
    assert "X"[..0] == [];
    assert ParseBalls("X"[..0], false) == Ok(e);
    assert ParseBall('X', e, false) == Ok(STRIKE_BALL);
    assert e + [STRIKE_BALL] == STRIKE_FRAME.balls;
  }

  /** A two-character token: the ball of the second character reads the
      one of the first. */
  lemma PairToken(c: char, d: char, isBonus: bool)
    requires ValidSymbol(c, isBonus) && ValidSymbol(d, isBonus)
    ensures ParseToken([c, d], isBonus)
         == (var x := ParseBall(c, [], isBonus).value;
             Ok(Frame([x, ParseBall(d, [x], isBonus).value])))
  {
    var e: seq<Ball> := [];
    var x := ParseBall(c, e, isBonus).value;
    var y := ParseBall(d, [x], isBonus).value;
    assert [c, d][..1] == [c] && [c][..0] == [];
    assert ParseBalls([c][..0], isBonus) == Ok(e);
    assert e + [x] == [x];
    assert ParseBalls([c], isBonus) == Ok([x]);
    assert [x] + [y] == [x, y];
  }

  /** The balls of `k` strike frames and a last frame. */
  lemma {:induction false} FlattenStrikes(k: nat, last: Frame)
    ensures Flatten(Repeat(STRIKE_FRAME, k) + [last]) == Repeat(STRIKE_BALL, k) + last.balls
  {
    var frames := Repeat(STRIKE_FRAME, k) + [last];
    if k == 0 {
      assert frames == [last] && frames[1..] == [];
    } else {
      FlattenStrikes(k - 1, last);
      assert frames[1..] == Repeat(STRIKE_FRAME, k - 1) + [last];
      assert Repeat(STRIKE_BALL, k) == [STRIKE_BALL] + Repeat(STRIKE_BALL, k - 1);
    }
  }

  /** Ten strikes and a bonus frame of two balls: a legal game. */
  lemma StrikeGame(bonus: Frame)
    requires BonusFrame(bonus, MAX_BALLS_COUNT)
    ensures WellFormed(Repeat(STRIKE_FRAME, COUNT_FRAMES) + [bonus])
  {
  }

  /** `k` strikes then two bonus balls `a` and `b`: the last strike earns
      10 + a + b, the one before it 20 + a, every other one 30. */
  lemma {:induction false} StrikesScoreFrom(k: nat, bonus: Frame)
    requires 1 <= k && |bonus.balls| == 2
    ensures ScoreFrom(Repeat(STRIKE_FRAME, k) + [bonus], k)
         == if k == 1 then MAXIMUM_BALL_VALUE + bonus.balls[0].pins + bonus.balls[1].pins
            else 30 * (k - 1) + 2 * bonus.balls[0].pins + bonus.balls[1].pins
  {
    var frames := Repeat(STRIKE_FRAME, k) + [bonus];
    var rest := frames[1..];
    assert rest == Repeat(STRIKE_FRAME, k - 1) + [bonus];
    FlattenStrikes(k - 1, bonus);
    var balls := Flatten(rest);
    assert balls == Repeat(STRIKE_BALL, k - 1) + bonus.balls;
    assert balls[0].pins == if k >= 2 then 10 else bonus.balls[0].pins;
    assert balls[1].pins == if k >= 3 then 10 else if k == 2 then bonus.balls[0].pins else bonus.balls[1].pins;
    BonusPrefix(PinsOf(balls));
    assert StrikeFrame(frames[0]);
    if k > 1 {
      StrikesScoreFrom(k - 1, bonus);
    }
  }

  /** The pins a valid bonus character stands for. */
  function SymbolPins(c: char): int {
    if c == STRIKE then MAXIMUM_BALL_VALUE
    else if c == MISS then MINIMUM_BALL_VALUE
    else c as int - '0' as int
  }

  /** Ten strikes, "||" and a bonus token of two balls parse (without
      validation) into ten strike frames and the bonus frame. */
  lemma TenStrikesThen(bonus: string, bf: Frame)
    requires Token(bonus) && ParseToken(bonus, true) == Ok(bf)
    ensures Parse(Written("X", COUNT_FRAMES, bonus), NoOp) == Ok(Game(Repeat(STRIKE_FRAME, COUNT_FRAMES) + [bf]))
  {
    StrikeToken();
    RepeatedTokens("X", STRIKE_FRAME, COUNT_FRAMES, bonus, Some(bf));
  }

  /** Input that parses to ten strikes and a bonus frame of `a` and `b`
      scores 270 + 2a + b in every service. */
  lemma StrikeGameOutcomes(input: string, bonus: Frame, score: int)
    requires BonusFrame(bonus, MAX_BALLS_COUNT)
    requires Parse(input, NoOp) == Ok(Game(Repeat(STRIKE_FRAME, COUNT_FRAMES) + [bonus]))
    requires score == 270 + 2 * bonus.balls[0].pins + bonus.balls[1].pins
    ensures classic.Outcome(input) == Ok(score)
    ensures classicNoValidator.Outcome(input) == Ok(score)
    ensures fpNoValidator.Outcome(input) == Ok(score)
    ensures fp.Outcome(input) == Ok(score)
  {
    StrikeGame(bonus);
    StrikesScoreFrom(COUNT_FRAMES, bonus);
    var frames := Repeat(STRIKE_FRAME, COUNT_FRAMES) + [bonus];
    assert Parse(input, NoOp).value.frames == frames;
    assert WellFormed(frames) && Reference(frames) == score;
    LegalInputScoresAlike(classic, input);
    LegalInputScoresAlike(classicNoValidator, input);
    LegalInputScoresAlike(fpNoValidator, input);
    LegalInputScoresAlike(fp, input);
  }

  /** The bonus token `cd` is the frame of the two balls `c` and `d` stand
      for. */
  lemma BonusPair(c: char, d: char)
    requires ValidSymbol(c, true) && ValidSymbol(d, true)
    ensures ParseToken([c, d], true)
         == Ok(Frame([Ball(SymbolPins(c), true, false, false), Ball(SymbolPins(d), true, false, false)]))
  {
    PairToken(c, d, true);
  }

  /** Ten strikes and a bonus token `cd` score 270 + 2c + d in every
      service. */
  lemma TenStrikesThenPair(c: char, d: char, score: int)
    requires ValidSymbol(c, true) && ValidSymbol(d, true)
    requires score == 270 + 2 * SymbolPins(c) + SymbolPins(d)
    ensures classic.Outcome(Written("X", COUNT_FRAMES, [c, d])) == Ok(score)
    ensures classicNoValidator.Outcome(Written("X", COUNT_FRAMES, [c, d])) == Ok(score)
    ensures fpNoValidator.Outcome(Written("X", COUNT_FRAMES, [c, d])) == Ok(score)
    ensures fp.Outcome(Written("X", COUNT_FRAMES, [c, d])) == Ok(score)
  {
    var bonus := Frame([Ball(SymbolPins(c), true, false, false), Ball(SymbolPins(d), true, false, false)]);
    BonusPair(c, d);
    TenStrikesThen([c, d], bonus);
    StrikeGameOutcomes(Written("X", COUNT_FRAMES, [c, d]), bonus, score);
  }

  /** "X|X|X|X|X|X|X|X|X|X||11" scores 273. */
  lemma StrikesThenOnes()
    ensures classic.Outcome(STRIKES_THEN_ONES) == Ok(273)
    ensures classicNoValidator.Outcome(STRIKES_THEN_ONES) == Ok(273)
    ensures fpNoValidator.Outcome(STRIKES_THEN_ONES) == Ok(273)
    ensures fp.Outcome(STRIKES_THEN_ONES) == Ok(273)
  {
    TenStrikesThenPair('1', '1', 273);
  }

  /** "X|X|X|X|X|X|X|X|X|X||--" scores 270. */
  lemma StrikesThenMisses()
    ensures classic.Outcome(STRIKES_THEN_MISSES) == Ok(270)
    ensures classicNoValidator.Outcome(STRIKES_THEN_MISSES) == Ok(270)
    ensures fpNoValidator.Outcome(STRIKES_THEN_MISSES) == Ok(270)
    ensures fp.Outcome(STRIKES_THEN_MISSES) == Ok(270)
  {
    TenStrikesThenPair('-', '-', 270);
  }

  /** "X|X|X|X|X|X|X|X|X|X||XX", the perfect game, scores 300: the bonus
      'X's count ten pins each but are not strikes. */
  lemma PerfectGame()
    ensures classic.Outcome(PERFECT_GAME) == Ok(300)
    ensures classicNoValidator.Outcome(PERFECT_GAME) == Ok(300)
    ensures fpNoValidator.Outcome(PERFECT_GAME) == Ok(300)
    ensures fp.Outcome(PERFECT_GAME) == Ok(300)
  {
    TenStrikesThenPair('X', 'X', 300);
  }

  lemma {:induction false} TotalOfRepeated(f: Frame, k: nat)
    ensures TotalOf(Repeat(f, k)) == k * f.Total()
  {
    if k > 0 {
      assert Repeat(f, k)[1..] == Repeat(f, k - 1);
      TotalOfRepeated(f, k - 1);
    }
  }

  /** Ten copies of one open frame: a legal game worth ten times the
      frame's pins. */
  lemma OpenGameScore(input: string, f: Frame, score: int)
    requires OpenFrame(f)
    requires Parse(input, NoOp) == Ok(Game(Repeat(f, COUNT_FRAMES)))
    requires score == COUNT_FRAMES * f.Total()
    ensures classic.Outcome(input) == Ok(score)
    ensures classicNoValidator.Outcome(input) == Ok(score)
    ensures fpNoValidator.Outcome(input) == Ok(score)
    ensures fp.Outcome(input) == Ok(score)
  {
    var frames := Repeat(f, COUNT_FRAMES);
    assert !StrikeFrame(f) && !SpareFrame(f);
    assert WellFormed(frames);
    FPCalculation.ScoresLegalGames(Game(frames));
    FPCalculation.OpenFramesScoreTheirPins(frames);
    TotalOfRepeated(f, COUNT_FRAMES);
    LegalInputScoresAlike(classic, input);
    LegalInputScoresAlike(classicNoValidator, input);
    LegalInputScoresAlike(fpNoValidator, input);
    LegalInputScoresAlike(fp, input);
  }

  /** "11|11|11|11|11|11|11|11|11|11||" scores 20. */
  lemma AllOnes()
    ensures classic.Outcome(ALL_ONES) == Ok(20)
    ensures classicNoValidator.Outcome(ALL_ONES) == Ok(20)
    ensures fpNoValidator.Outcome(ALL_ONES) == Ok(20)
    ensures fp.Outcome(ALL_ONES) == Ok(20)
  {
    var f := Frame([Plain(1), Plain(1)]);
    ParseAllOnes(f);
    SumPinsPair(f.balls);
    OpenGameScore(ALL_ONES, f, 20);
  }

  lemma ParseAllOnes(f: Frame)
    requires f == Frame([Plain(1), Plain(1)])
    ensures Parse(ALL_ONES, NoOp) == Ok(Game(Repeat(f, COUNT_FRAMES)))
  {
    PairToken('1', '1', false);
    assert ParseToken("11", false) == Ok(f);
    RepeatedTokens("11", f, COUNT_FRAMES, "", None);
  }

  /** "9-|9-|9-|9-|9-|9-|9-|9-|9-|9-||" scores 90. */
  lemma NinesAndMisses()
    ensures classic.Outcome(NINES_AND_MISSES) == Ok(90)
    ensures classicNoValidator.Outcome(NINES_AND_MISSES) == Ok(90)
    ensures fpNoValidator.Outcome(NINES_AND_MISSES) == Ok(90)
    ensures fp.Outcome(NINES_AND_MISSES) == Ok(90)
  {
    var f := Frame([Plain(9), Plain(0)]);
    ParseNinesAndMisses(f);
    SumPinsPair(f.balls);
    OpenGameScore(NINES_AND_MISSES, f, 90);
  }

  lemma ParseNinesAndMisses(f: Frame)
    requires f == Frame([Plain(9), Plain(0)])
    ensures Parse(NINES_AND_MISSES, NoOp) == Ok(Game(Repeat(f, COUNT_FRAMES)))
  {
    PairToken('9', '-', false);
    assert ParseToken("9-", false) == Ok(f);
    RepeatedTokens("9-", f, COUNT_FRAMES, "", None);
  }

  /** Fewer than ten copies of one open frame: the validated services
      report the frame count, the classic calculator without validation
      reads past the rolls, and the rule-based one without validation
      scores the pins. */
  lemma ShortOpenGame(input: string, f: Frame, k: nat, score: int)
    requires OpenFrame(f) && k < COUNT_FRAMES
    requires Parse(input, NoOp) == Ok(Game(Repeat(f, k)))
    requires score == k * f.Total()
    ensures classic.Outcome(input) == Err(ParseError(Rejected(CountFrameError)))
    ensures fp.Outcome(input) == Err(ParseError(Rejected(CountFrameError)))
    ensures classicNoValidator.Outcome(input) == Err(IndexOutOfBounds)
    ensures fpNoValidator.Outcome(input) == Ok(score)
  {
    TotalOfRepeated(f, k);
    ShortGameOutcomes(input);
  }

  /** Nine "11" frames: the validated services report the frame count, the
      classic calculator without validation reads past the rolls, and the
      rule-based one without validation scores the 18 pins. */
  lemma NineFrames()
    ensures classic.Outcome(NINE_FRAMES) == Err(ParseError(Rejected(CountFrameError)))
    ensures fp.Outcome(NINE_FRAMES) == Err(ParseError(Rejected(CountFrameError)))
    ensures classicNoValidator.Outcome(NINE_FRAMES) == Err(IndexOutOfBounds)
    ensures fpNoValidator.Outcome(NINE_FRAMES) == Ok(18)
  {
    var f := Frame([Plain(1), Plain(1)]);
    ParseNineFrames(f);
    SumPinsPair(f.balls);
    ShortOpenGame(NINE_FRAMES, f, 9, 18);
  }

  lemma ParseNineFrames(f: Frame)
    requires f == Frame([Plain(1), Plain(1)])
    ensures Parse(NINE_FRAMES, NoOp) == Ok(Game(Repeat(f, 9)))
  {
    PairToken('1', '1', false);
    assert ParseToken("11", false) == Ok(f);
    RepeatedTokens("11", f, 9, "", None);
  }
}
