# Bowling score calculator, modelled in Dafny

The system scores a ten-pin bowling game written in a compact notation:
ten frames separated by `|`, then `||` and an optional bonus frame, for
example `X|5/|22|--|33|X|X|--|4/|X||23`.
- `X` is a strike, and `/` is a spare.
- `-` is a miss, and `1`–`9` knock down that many pins.

A `GameService` combines two parts. Its parser is built with a validator:
either the rule-based `FullValidator` or the `NoOpValidator`, which accepts
everything. Its calculator is either the imperative `ClassicCalculation` or
the rule-based `FPCalculation`. The four fixed services are `classic`,
`classicNoValidator`, `fpNoValidator` and `fp`.

The model follows the Java code module by module.
- **Wrappers:** Java exceptions become a `Result`. A failure is either a
  `ParseError` with its reason or an `IndexOutOfBounds`, which is what
  `List.get` and array indexing throw.
- **Model:** `Ball`, `Frame` and `Game` as values.
- **Calculation:** the shared constants.
- **JavaSplit:** the part of `String.split` the parser needs, for a literal
  delimiter. The leftmost match is taken, trailing empty strings are
  dropped, and a string with no match splits into itself.
- **Parser:** the parser. Its character loop `parseFrame` is a method
  proved against the recursive `ParseToken`.
- **Validator:** the eight messages.
- **FullValidator:** the eight rules, evaluated fail-fast in the order the
  constructor adds them.
- **NoOpValidator:** the validator that accepts every list.
- **ClassicCalculation:** the cursor loop over the rolls. It is a method
  proved against the recursive `Walk`.
- **FPCalculation:** the loop that removes each ball from a working list
  and sums the three rules. It is a method proved against `Fold`.
- **GameService:** the four services.
- **Shape:** the independent reference. It defines what a legal game looks
  like (`WellFormed`) and its standard score (`Reference`), for the lemmas
  to compare against.
- **Notation** and **Samples:** the benchmark's sample games and their
  scores.

The main results:
- The full validator accepts a parsed frame list exactly when it is a legal
  game.
- On a legal game, both calculators read only rolls that exist, and both
  give the standard score, which lies between 0 and 300. So `classic` and
  `fp` agree on every input, errors included.
- Without the validator, the two calculators differ on short games of open
  frames. The classic one runs out of rolls. The rule-based one sums the
  pins.
- The five benchmark samples score 20, 270, 273, 90 and 300 in all four
  services.

Ten strikes followed by the bonus `11` score 273 in the code. Frames one to
eight earn 30 each, the ninth 10 + 10 + 1 and the tenth 10 + 1 + 1, and
bonus balls earn nothing of their own.

## Model

| member | source | states |
|---|---|---|
| Model.FactoriesConsistent | src/main/java/com/amarkhel/java/model/Ball.java:21-40 | `miss` has 0 pins and `strike` 10. `strike` is flagged a strike exactly outside the bonus frame. `usual` keeps its pins. `spare` fails with the "bonus ball can't be spare" error exactly in the bonus frame. Every ball they build is never both spare and strike, and never spare or strike in the bonus frame. |
| Model.FactoryBallsCorrect | src/main/java/com/amarkhel/java/model/Ball.java:17-40 | `isCorrect` holds of every `miss` and `strike`, and of a `usual` or `spare` ball exactly when its pins are within 0 to 10. |
| Model.FrameOfBalls | src/main/java/com/amarkhel/java/model/Frame.java:16-46 | `isBonus`, `isSpare` and `isStrike`, and so `isMaxEarned` and `isSpecial`, hold of a frame made of two runs of balls exactly when they hold of one run. `getTotal` of the frame is the sum of the runs' totals. |
| Model.SingleBallFrame | src/main/java/com/amarkhel/java/model/Frame.java:24-42 | A frame of one ball is bonus, spare or strike exactly when the ball is, totals the ball's pins, and `haveCorrectSum` holds exactly when the ball `isCorrect`. |
| Model.TwoBallFrame | src/main/java/com/amarkhel/java/model/Frame.java:24-42 | A frame of two balls is bonus, spare or strike exactly when one of its balls is, and `haveCorrectSum` holds exactly when the two pin counts add up to 0 to 10. |
| Model.PinsOf | src/main/java/com/amarkhel/java/model/Game.java:18-20 | The rolls have one entry per ball, in order: `rolls[i]` is the pins of `balls[i]`. |
| Model.BallsOfGame | src/main/java/com/amarkhel/java/model/Game.java:14-20 | `getBalls` keeps every ball of every frame, as many as the frames hold together. `getRolls` has the same length, and each roll is its ball's pins. |
| Model.FlattenAppend | src/main/java/com/amarkhel/java/model/Game.java:14-16 | The balls of two frame lists put together are the balls of the first, then those of the second. |
| Model.RollsSum | src/main/java/com/amarkhel/java/model/Game.java:18-20 | The rolls add up to the sum of the frames' totals (`getTotal`). |
| Shape.Lookahead | src/main/java/com/amarkhel/java/FPCalculation.java:45-51 | In a legal game at least two balls follow a strike among the ten frames, and at least one follows a spare. These are the balls the bonus rules read. |
| Shape.ReferenceBounds | src/main/java/com/amarkhel/java/ClassicCalculation.java:25-38 | The standard score of a legal game lies between 0 and 300. |
| JavaSplit.PiecesNoDelimiter | src/main/java/com/amarkhel/java/Parser.java:83-85 | A string without the delimiter is a single piece. |
| JavaSplit.PiecesLeftmost | src/main/java/com/amarkhel/java/Parser.java:83 | The first piece is the text before the leftmost occurrence of the delimiter. Splitting continues right after that occurrence. |
| JavaSplit.SplitRoundTrip | src/main/java/com/amarkhel/java/Parser.java:83-85 | For text that does not end with the delimiter, joining the pieces back gives the text. No piece contains the delimiter. |
| JavaSplit.SplitJoin | src/main/java/com/amarkhel/java/Parser.java:85 | Pieces without the one-character delimiter, the last one not empty, joined with it and split again give the same pieces. |
| Parser.ParseBall | src/main/java/com/amarkhel/java/Parser.java:101-117 | It succeeds exactly on `-`, `X`, `1`–`9`, and `/` outside the bonus token. `-` gives a miss, `X` a strike ball and a digit its value. `/` gives a spare with the pins the earlier balls of the token left. Any other character is the wrong-format error, and `/` in the bonus token is the spare-in-bonus error. |
| Parser.ParseBalls | src/main/java/com/amarkhel/java/Parser.java:94-97 | On success there is one ball per character. Success means every character is valid, and otherwise the error is the one of the first invalid character. |
| Parser.ParseBallsEach | src/main/java/com/amarkhel/java/Parser.java:94-97 | On success, ball i is what character i gives after balls 0..i-1. |
| Parser.ParseBallsFromEach | src/main/java/com/amarkhel/java/Parser.java:94-97 | Conversely, a ball list of the token's length whose ball i is what character i gives after balls 0..i-1 is the token's parse. |
| Parser.PrefixFailure | src/main/java/com/amarkhel/java/Parser.java:95-96 | Once a prefix of a token fails to parse, the whole token fails the same way: the loop stops at the first bad character. |
| Parser.ParseFrame | src/main/java/com/amarkhel/java/Parser.java:89-99 | The loop that appends a ball per character, each reading the balls parsed so far, returns exactly `ParseToken` of the input, errors included. |
| Parser.ParseFrames | src/main/java/com/amarkhel/java/Parser.java:70-72 | It succeeds exactly when every main token parses, giving one frame per token in order. Otherwise it fails with the error of the first token that fails, all tokens before it parsing. |
| Parser.ParseBonus | src/main/java/com/amarkhel/java/Parser.java:74-76 | No bonus token gives no frame. A bonus token gives the frame `ParseToken` gives it in bonus mode, or its error. |
| Parser.Combine | src/main/java/com/amarkhel/java/Parser.java:65-68 | The bonus frame, when there is one, goes after the main frames, and nothing else changes. |
| Parser.SplitPartsAt | src/main/java/com/amarkhel/java/Parser.java:78-87 | The main tokens are the `\|`-pieces of the text before the first `\|\|`. The bonus token is read from the text after it. |
| Parser.NoBonusToken | src/main/java/com/amarkhel/java/Parser.java:84 | Nothing after `\|\|` means no bonus token. |
| Parser.BonusTokenUpTo | src/main/java/com/amarkhel/java/Parser.java:83-84 | The bonus token stops at the next `\|\|`. Whatever follows is dropped. |
| Parser.BonusTokenToEnd | src/main/java/com/amarkhel/java/Parser.java:83-84 | The bonus token is all the text after `\|\|` when no other `\|\|` follows. |
| Parser.SplitTokens | src/main/java/com/amarkhel/java/Parser.java:83-85 | Tokens joined with `\|`, then `\|\|` and a bonus token or nothing, split back into exactly those tokens and that bonus token. |
| Parser.DelimiterOnly | src/main/java/com/amarkhel/java/Parser.java:83-85 | The input `\|\|` leaves no piece, so reading the first piece is an index error. |
| Parser.SpareAfterNineNine | src/main/java/com/amarkhel/java/Parser.java:119-121 | `/` counts the pins left by every earlier ball of the token, which can be fewer than none: `99/` parses to a spare ball of -8 pins. |
| Parser.TokenShape | src/main/java/com/amarkhel/java/Parser.java:89-99 | Every ball of a main token is a main ball: not a bonus ball, and either a strike of 10 pins, or a spare whose pins are what the earlier balls of the token left of 10, or a plain ball of 0 to 9 pins. Every ball of the bonus token is a bonus ball of 0 to 10 pins, never spare or strike. |
| Parser.ParsedFramesShape | src/main/java/com/amarkhel/java/Parser.java:52-63 | A parsed game holds the frames of the main tokens, then possibly the frame of the bonus token. |
| Parser.WrongFormatFirst | src/main/java/com/amarkhel/java/Parser.java:79-80 | Empty input, or input without `\|\|`, is the wrong-format error, whatever the validator. |
| Parser.FullParseWellFormed | src/main/java/com/amarkhel/java/Parser.java:57-62 | With the full validator, every game the parser returns is a legal game. |
| Parser.FullAcceptsLegalGames | src/main/java/com/amarkhel/java/Parser.java:57-59 | Input that the validator-free parser turns into a legal game parses to the same game under the full validator. |
| Parser.ValidatorOnlyRejects | src/main/java/com/amarkhel/java/Parser.java:56-62 | The validator runs last. The full parse fails wherever the validator-free parse fails, with the same error. Otherwise it keeps the game or rejects it with the validator's message. |
| Parser.NoOpParseErrors | src/main/java/com/amarkhel/java/Parser.java:52-63 | Without validation, parsing fails only with the wrong-format error, the spare-in-bonus error or an index error. |
| FullValidator.Rule.Run | src/main/java/com/amarkhel/java/validator/FullValidator.java:93-95 | A rule reports nothing exactly when its check holds, and otherwise its own message. |
| FullValidator.CompositeRule | src/main/java/com/amarkhel/java/validator/FullValidator.java:98-100 | The rule's check holds for a list exactly when the frame check holds for every frame of it. |
| FullValidator.NonBonusCountIndices | src/main/java/com/amarkhel/java/validator/FullValidator.java:39-41 | The count the rule compares with 10 is the number of positions holding a frame without a bonus ball. |
| FullValidator.FirstFailure | src/main/java/com/amarkhel/java/validator/FullValidator.java:34-37 | Nothing is reported exactly when every rule holds. Otherwise the message is that of the first failing rule. |
| FullValidator.RulesUnfold | src/main/java/com/amarkhel/java/validator/FullValidator.java:22-32 | The list holds eight rules, checking in order: the count, bonus-frame existence, bonus-frame contents, pins, sum, strike, spare and open frames. |
| FullValidator.RuleMessagesDistinct | src/main/java/com/amarkhel/java/validator/Validator.java:14-21 | No two rules report the same message, and no two of their texts are equal. |
| Validator.TextInjective | src/main/java/com/amarkhel/java/validator/Validator.java:14-21 | Two different messages have different texts. |
| FullValidator.FirstFailureOfEight | src/main/java/com/amarkhel/java/validator/FullValidator.java:36 | Fail-fast evaluation of eight rules, written out as a chain of cases. |
| FullValidator.ValidateReports | src/main/java/com/amarkhel/java/validator/FullValidator.java:22-37 | `validate` reports the message of the first rule that fails, in the constructor's order. It reports nothing when all eight hold. |
| FullValidator.ShortListsFailCount | src/main/java/com/amarkhel/java/validator/FullValidator.java:39-45 | Fewer than ten frames, the empty list included, stop at the count rule, before any rule reads the tenth frame. |
| FullValidator.MessageNamesRule | src/main/java/com/amarkhel/java/validator/FullValidator.java:34-37 | The text of the reported message identifies the first failing rule. |
| FullValidator.ValidateAccepts | src/main/java/com/amarkhel/java/validator/FullValidator.java:34-37 | The validator accepts exactly the lists on which all eight rules hold. |
| FullValidator.RegularFramePasses | src/main/java/com/amarkhel/java/validator/FullValidator.java:56-74 | A strike, spare or open frame is flagged as what it is, has no bonus ball, and passes every per-frame rule. |
| FullValidator.BonusFramePasses | src/main/java/com/amarkhel/java/validator/FullValidator.java:76-82 | A bonus frame of one or two correct balls passes every per-frame rule, and the bonus check that fits its size. |
| FullValidator.MainFrameFromRules | src/main/java/com/amarkhel/java/validator/FullValidator.java:64-74 | A frame of a main token that passes the pin, strike, spare and open rules is a strike, spare or open frame. |
| FullValidator.WellFormedPassesRules | src/main/java/com/amarkhel/java/validator/FullValidator.java:22-32 | A legal game passes all eight rules. |
| FullValidator.RulesGiveWellFormed | src/main/java/com/amarkhel/java/validator/FullValidator.java:22-32 | A parsed list that passes all eight rules is a legal game. |
| FullValidator.AcceptsExactlyWellFormed | src/main/java/com/amarkhel/java/validator/FullValidator.java:34-37 | On parsed lists, the validator accepts exactly the legal games. |
| FullValidator.AcceptsWellFormed | src/main/java/com/amarkhel/java/validator/FullValidator.java:34-37 | Every legal game is accepted, however it was built. |
| NoOpValidator.Validate | src/main/java/com/amarkhel/java/validator/NoOpValidator.java:12-14 | Every list is accepted. |
| NoOpValidator.AcceptsWhatFullAccepts | src/main/java/com/amarkhel/java/validator/NoOpValidator.java:12-14 | Whatever the full validator accepts, this one accepts too. |
| NoOpValidator.AcceptsShortLists | src/main/java/com/amarkhel/java/validator/NoOpValidator.java:12-14 | The converse fails: a short list is accepted here and rejected by the full validator with the count message. |
| ClassicCalculation.Score | src/main/java/com/amarkhel/java/ClassicCalculation.java:21-40 | `score` returns the ten-frame walk over the game's rolls, or its index error. |
| ClassicCalculation.ScoreFrames | src/main/java/com/amarkhel/java/ClassicCalculation.java:22-39 | The loop with `score` and the cursor `index` returns exactly `Walk` of the rolls. Every `rolls.get` out of range is an index error. |
| ClassicCalculation.WalkShort | src/main/java/com/amarkhel/java/ClassicCalculation.java:26-31 | A roll missing that the frame at the cursor needs is an index error. |
| ClassicCalculation.WalkStrike | src/main/java/com/amarkhel/java/ClassicCalculation.java:26-29 | A ten at the cursor scores ten plus the next two rolls, and the cursor moves by one. |
| ClassicCalculation.WalkSpare | src/main/java/com/amarkhel/java/ClassicCalculation.java:30-33 | Two rolls making ten score ten plus the next roll, and the cursor moves by two. |
| ClassicCalculation.WalkOpen | src/main/java/com/amarkhel/java/ClassicCalculation.java:34-37 | Otherwise the frame scores the two rolls, and the cursor moves by two. |
| ClassicCalculation.PinClassification | src/main/java/com/amarkhel/java/ClassicCalculation.java:54-60 | In a regular frame the first roll is ten exactly for a strike. In the other frames the two rolls make ten exactly for a spare. |
| ClassicCalculation.WalkFrame | src/main/java/com/amarkhel/java/ClassicCalculation.java:25-38 | On a regular frame followed by enough rolls, the walk scores the frame as the reference does and moves past its balls. |
| ClassicCalculation.WalkFrom | src/main/java/com/amarkhel/java/ClassicCalculation.java:25-38 | In a legal game, from frame `j` on, the walk scores the remaining frames as the reference does, reading no roll out of range. |
| ClassicCalculation.ScoresLegalGames | src/main/java/com/amarkhel/java/ClassicCalculation.java:21-40 | On a legal game `score` returns the standard score, which is at most 300. |
| ClassicCalculation.ShortGamesFail | src/main/java/com/amarkhel/java/ClassicCalculation.java:25-26 | Fewer regular frames than loop iterations: the loop runs out of rolls and fails with an index error. |
| ClassicCalculation.CursorAtFrame | src/main/java/com/amarkhel/java/ClassicCalculation.java:24-37 | The cursor at frame `j` is the number of balls before frame `j`. The rolls from there on are those of frames `j` onwards. |
| FPCalculation.Contribution | src/main/java/com/amarkhel/java/FPCalculation.java:40-55 | A ball earns its pins unless it is a bonus ball. A strike adds the next two balls and a spare the next one. It fails, with an index error, exactly when those balls are missing. |
| FPCalculation.RemoveFirst | src/main/java/com/amarkhel/java/FPCalculation.java:41 | `List.remove(Object)` leaves the list unchanged when the ball is absent and shortens it by one when it is present. |
| FPCalculation.RemoveFirstAt | src/main/java/com/amarkhel/java/FPCalculation.java:41 | When the ball is present, `List.remove(Object)` cuts out its first occurrence: the result is the list before that position followed by the list after it. |
| FPCalculation.RemoveHead | src/main/java/com/amarkhel/java/FPCalculation.java:41 | With value equality, the ball removed is the head of the list. |
| FPCalculation.FoldCons | src/main/java/com/amarkhel/java/FPCalculation.java:36-43 | Since the state starts as the balls themselves, each ball is scored against exactly the balls after it. |
| FPCalculation.ScoreStep | src/main/java/com/amarkhel/java/FPCalculation.java:40-43 | Visiting ball `k` leaves the state as the balls after it, and adds what the rules give it to the running total. |
| FPCalculation.ScoreBalls | src/main/java/com/amarkhel/java/FPCalculation.java:36-37 | The loop over the balls with the working list `state` returns exactly `Fold` of the balls. |
| FPCalculation.Score | src/main/java/com/amarkhel/java/FPCalculation.java:31-38 | `score` returns `Fold` of the game's balls, or the first index error a rule raises. |
| FPCalculation.BonusBallsEarnNothing | src/main/java/com/amarkhel/java/FPCalculation.java:53-55 | Bonus balls earn nothing of their own, an `X` among them included. |
| FPCalculation.FoldStrikeFrame | src/main/java/com/amarkhel/java/FPCalculation.java:45-47 | A strike frame earns ten plus the next two balls. |
| FPCalculation.FoldPairFrame | src/main/java/com/amarkhel/java/FPCalculation.java:49-55 | A two-ball frame earns its pins, plus the next ball after a spare. |
| FPCalculation.FoldFrame | src/main/java/com/amarkhel/java/FPCalculation.java:40-55 | A regular frame's balls earn what the reference frame score says. |
| FPCalculation.FoldFrom | src/main/java/com/amarkhel/java/FPCalculation.java:36-37 | In a legal game, the balls from frame `j` on score what the reference gives for those frames. |
| FPCalculation.BonusFramesEarnNothing | src/main/java/com/amarkhel/java/FPCalculation.java:53-55 | After the ten frames of a legal game, the bonus frame adds nothing. |
| FPCalculation.OpenFramesScoreTheirPins | src/main/java/com/amarkhel/java/FPCalculation.java:36-37 | Open frames alone, however few, score the sum of their pins. |
| FPCalculation.ScoresLegalGames | src/main/java/com/amarkhel/java/FPCalculation.java:30-38 | On a legal game every rule finds the balls it reads, and the score is the standard one. |
| GameService.GameService.CalculateScore | src/main/java/com/amarkhel/java/GameService.java:32-34 | `calculateScore` parses with the service's validator and then scores with its calculator. A parse error is the result, and nothing is scored. |
| GameService.ScoresLegalGame | src/main/java/com/amarkhel/java/GameService.java:32-34 | Either calculator gives the standard score on a legal game, between 0 and 300. |
| GameService.ValidatedOutcome | src/main/java/com/amarkhel/java/GameService.java:19-22 | With the full validator, a service fails exactly when the parse fails, with the parse's error, never with an index error from a calculator. Otherwise it returns the standard score. |
| GameService.ValidatedServicesAgree | src/main/java/com/amarkhel/java/GameService.java:19-22 | `classic` and `fp` return the same on every input, errors included. |
| GameService.LegalInputScoresAlike | src/main/java/com/amarkhel/java/GameService.java:19-22 | Input that parses to a legal game scores the standard score in all four services. |
| GameService.WrongFormatEverywhere | src/main/java/com/amarkhel/java/GameService.java:32-34 | Empty input, or input without `\|\|`, is the wrong-format error in all four services. |
| GameService.ShortGameOutcomes | src/main/java/com/amarkhel/java/GameService.java:19-22 | Fewer than ten open frames: `classic` and `fp` report the count message, `classicNoValidator` fails with an index error, and `fpNoValidator` returns the sum of the pins. |
| Samples.RepeatedTokens | src/main/java/com/amarkhel/java/Parser.java:52-63 | `n` copies of a token, then `\|\|` and a bonus token, parse to `n` copies of the token's frame followed by the bonus frame. |
| Samples.StrikeGameOutcomes | src/main/java/com/amarkhel/java/GameService.java:19-22 | Ten strikes and a bonus frame of `a` and `b` score 270 + 2a + b in all four services. |
| Samples.TenStrikesThenPair | src/main/java/com/amarkhel/java/GameService.java:32-34 | Ten strikes then the bonus token `cd` score 270 + 2c + d in all four services. |
| Samples.StrikesThenOnes | src/main/java/com/amarkhel/benchmark/BowlingBenchmark.java:27 | `X\|X\|X\|X\|X\|X\|X\|X\|X\|X\|\|11` scores 273 in all four services. |
| Samples.StrikesThenMisses | src/main/java/com/amarkhel/benchmark/BowlingBenchmark.java:27 | `X\|X\|X\|X\|X\|X\|X\|X\|X\|X\|\|--` scores 270 in all four services. |
| Samples.PerfectGame | src/main/java/com/amarkhel/benchmark/BowlingBenchmark.java:27 | `X\|X\|X\|X\|X\|X\|X\|X\|X\|X\|\|XX` scores 300 in all four services. |
| Samples.OpenGameScore | src/main/java/com/amarkhel/java/GameService.java:19-22 | Ten copies of an open frame score ten times its pins in all four services. |
| Samples.AllOnes | src/main/java/com/amarkhel/benchmark/BowlingBenchmark.java:27 | `11\|11\|11\|11\|11\|11\|11\|11\|11\|11\|\|` scores 20 in all four services. |
| Samples.NinesAndMisses | src/main/java/com/amarkhel/benchmark/BowlingBenchmark.java:27 | `9-\|9-\|9-\|9-\|9-\|9-\|9-\|9-\|9-\|9-\|\|` scores 90 in all four services. |
| Samples.ShortOpenGame | src/main/java/com/amarkhel/java/GameService.java:19-22 | Fewer than ten copies of an open frame: the validated services report the count, `classicNoValidator` fails with an index error, and `fpNoValidator` sums the pins. |
| Samples.NineFrames | src/main/java/com/amarkhel/java/GameService.java:19-22 | Nine `11` frames: `classic` and `fp` report the count, `classicNoValidator` fails with an index error, and `fpNoValidator` returns 18. |

## Left out

- Java's 32-bit `int` arithmetic: pins, totals and scores are unbounded integers. Every legal game scores at most 300. On tokens of hundreds of millions of characters, though, the `int` sums wrap around: `remainingPins` (Parser.java:119-121), `Frame.getTotal` (Frame.java:36-38), the classic `score` and `FPCalculation`'s sum. This happens with the full validator as well, and the validated services can then report another rule's message than the model does. For example, a first token of 477,218,588 `9`s and a `4` totals 2^32, which wraps to 0 in Java. Its frame then fails only the last rule (FRAME_INCORRECT), while in the model it fails the pin-sum rule (PIN_SUM_FRAME_ERROR).
- `String.split` is modelled only for the two literal delimiters the parser uses (the patterns for `|` and `||`), not for general regular expressions.
- Messages are kept as tags. `Text` gives each the exact string `String.format` builds.
- The `null` input check of `splitParts`: a model string cannot be null.
- The Lombok-generated accessors, `equals` and `hashCode`, and the commons-math `Pair`: value equality of datatypes and a tuple stand in for them.
- `combine` adds the bonus frame to the frame list in place. The model returns the longer list.
- The `FullValidator` constructor's eight `add` calls: the finished rule list is a constant, since the list never changes after construction.
- The validator's rules two and three read the tenth frame directly. Their length guard never decides anything, because the count rule runs first (`ShortListsFailCount`).
- The JMH benchmark harness itself. Its five sample strings are the sample constants, built as repeated tokens rather than written out.
