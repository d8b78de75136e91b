/** The entry point (`GameService`): a parser built with a validator, then a
    calculator, in the four fixed combinations. */
module GameService {
  import opened Wrappers
  import opened Calculation
  import opened Model
  import opened Shape
  import opened Validator
  import opened JavaSplit
  import opened Parser
  import FullValidator
  import ClassicCalculation
  import FPCalculation

  /** The two score calculations. */
  datatype CalculationKind = Classic | FP
  {
    /** What `score` returns for `game`. */
    function Score(game: Game): Result<int> {
      match this
      case Classic => ClassicCalculation.Walk(game.Rolls(), COUNT_FRAMES)
      case FP => FPCalculation.Fold(game.Balls())
    }
  }

  /** A service: the validator its parser is built with and its calculator. */
  datatype GameService = GameService(validator: ValidatorKind, calculation: CalculationKind)
  {
    /** Parse, then score; a parse error is the result and nothing is scored. */
    function Outcome(input: string): Result<int> {
      var game :- Parse(input, validator);
      calculation.Score(game)
    }

    /** `calculateScore`. */
    method CalculateScore(input: string) returns (r: Result<int>)
      ensures r == Outcome(input)
    {
      var parsed := Parse(input, validator);
      if parsed.Err? {
        return Err(parsed.failure);
      }
      match calculation
      case Classic =>
        r := ClassicCalculation.Score(parsed.value);
      case FP =>
        r := FPCalculation.Score(parsed.value);
    }
  }

  const classic := GameService(Full, Classic)
  const classicNoValidator := GameService(NoOp, Classic)
  const fpNoValidator := GameService(NoOp, FP)
  const fp := GameService(Full, FP)

  /** Either calculator on a legal game reads only what exists and gives the
      standard score. */
  lemma ScoresLegalGame(c: CalculationKind, game: Game)
    requires WellFormed(game.frames)
    ensures c.Score(game) == Ok(Reference(game.frames))
    ensures 0 <= Reference(game.frames) <= 300
  {
    ClassicCalculation.ScoresLegalGames(game);
    FPCalculation.ScoresLegalGames(game);
  }

  /** With the full validator a service fails exactly where the parse does,
      with the parse's error (so never with an index error of a calculator),
      and otherwise returns the standard score, between 0 and 300. */
  lemma ValidatedOutcome(s: GameService, input: string)
    requires s.validator == Full
    ensures s.Outcome(input).Err? <==> Parse(input, Full).Err?
    ensures Parse(input, Full).Err? ==> s.Outcome(input).failure == Parse(input, Full).failure
    ensures Parse(input, Full).Ok? ==>
      s.Outcome(input) == Ok(Reference(Parse(input, Full).value.frames))
      && 0 <= s.Outcome(input).value <= 300
  {
    if Parse(input, Full).Ok? {
      FullParseWellFormed(input);
      ScoresLegalGame(s.calculation, Parse(input, Full).value);
    }
  }

  /** `classic` and `fp` agree on every input, errors included. */
  lemma ValidatedServicesAgree(input: string)
    ensures classic.Outcome(input) == fp.Outcome(input)
  {
    ValidatedOutcome(classic, input);
    ValidatedOutcome(fp, input);
  }

  /** Input that the validator-free parser turns into a legal game scores
      the same, the standard score, in all four combinations. */
  lemma LegalInputScoresAlike(s: GameService, input: string)
    requires Parse(input, NoOp).Ok?
    requires WellFormed(Parse(input, NoOp).value.frames)
    ensures s.Outcome(input) == Ok(Reference(Parse(input, NoOp).value.frames))
  {
    var parsed := Parse(input, NoOp);
    FullAcceptsLegalGames(input);
    assert Parse(input, s.validator) == parsed;
    ScoresLegalGame(s.calculation, parsed.value);
  }

  /** Empty input, or input without "||", fails with the wrong-format error
      in every combination. */
  lemma WrongFormatEverywhere(s: GameService, input: string)
    requires input == [] || !Contains(input, BONUS_DELIMITER)
    ensures s.Outcome(input) == Err(ParseError(WrongFormat))
  {
    WrongFormatFirst(input, s.validator);
  }

  /** Fewer than ten open frames (nine "11" frames, say): the validated
      services reject the count, the classic calculator without validation
      runs out of rolls, and the rule-based one without validation returns
      the sum of the pins. */
  lemma ShortGameOutcomes(input: string)
    requires Parse(input, NoOp).Ok?
    requires |Parse(input, NoOp).value.frames| < COUNT_FRAMES
    requires forall i :: 0 <= i < |Parse(input, NoOp).value.frames| ==>
               OpenFrame(Parse(input, NoOp).value.frames[i])
    ensures classic.Outcome(input) == Err(ParseError(Rejected(CountFrameError)))
    ensures fp.Outcome(input) == Err(ParseError(Rejected(CountFrameError)))
    ensures classicNoValidator.Outcome(input) == Err(IndexOutOfBounds)
    ensures fpNoValidator.Outcome(input) == Ok(TotalOf(Parse(input, NoOp).value.frames))
  {
    var frames := Parse(input, NoOp).value.frames;
    ValidatorOnlyRejects(input);
    FullValidator.ShortListsFailCount(frames);
    ClassicCalculation.ShortGamesFail(frames, COUNT_FRAMES);
    FPCalculation.OpenFramesScoreTheirPins(frames);
  }
}
