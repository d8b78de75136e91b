/** The parser (`Parser`): splits the notation into frame tokens and an
    optional bonus token, turns every character into a ball, and hands the
    frame list to the validator it was built with. */
module Parser {
  import opened Wrappers
  import opened Calculation
  import opened Model
  import opened Validator
  import opened JavaSplit
  import opened Shape
  import FullValidator
  import NoOpValidator

  const MISS: char := '-'
  const STRIKE: char := 'X'
  const SPARE: char := '/'
  const BONUS_DELIMITER: string := "||"
  const FRAME_DELIMITER: string := "|"

  /** The validation strategy a parser is built with. */
  datatype ValidatorKind = Full | NoOp

  function Validate(v: ValidatorKind, frames: seq<Frame>): Option<Message> {
    match v
    case Full => FullValidator.Validate(frames)
    case NoOp => NoOpValidator.Validate(frames)
  }

  /** The pins the balls already parsed in this token leave standing. */
  function RemainingPins(balls: seq<Ball>): int {
    FRAME_BALLS_MAX_SUM - SumPins(balls)
  }

  predicate IsDigit(c: char) {
    '1' <= c <= '9'
  }

  /** A character the parser turns into a ball: '-', 'X', '1' to '9', and
      '/' outside the bonus token. */
  predicate ValidSymbol(c: char, isBonus: bool) {
    c == MISS || c == STRIKE || IsDigit(c) || (c == SPARE && !isBonus)
  }

  /** The error an invalid character raises. */
  function SymbolError(c: char): Failure {
    if c == SPARE then ParseError(SpareInBonus) else ParseError(WrongFormat)
  }

  /** One character, given the balls parsed before it in the same token. */
  function ParseBall(c: char, balls: seq<Ball>, isBonus: bool): (r: Result<Ball>)
    ensures r.Ok? <==> ValidSymbol(c, isBonus)
    ensures r.Err? ==> r.failure == SymbolError(c)
    ensures c == MISS ==> r == Ok(Ball(MINIMUM_BALL_VALUE, isBonus, false, false))
    ensures c == STRIKE ==> r == Ok(Ball(MAXIMUM_BALL_VALUE, isBonus, false, !isBonus))
    ensures IsDigit(c) ==> r == Ok(Ball(c as int - '0' as int, isBonus, false, false))
    ensures c == SPARE && !isBonus ==> r == Ok(Ball(FRAME_BALLS_MAX_SUM - SumPins(balls), false, true, false))
  {
    if c == MISS then Ok(Ball.Miss(isBonus))
    else if c == STRIKE then Ok(Ball.Strike(isBonus))
    else if c == SPARE then Ball.Spare(RemainingPins(balls), isBonus)
    else if IsDigit(c) then Ok(Ball.Usual(c as int - '0' as int, isBonus))
    else Err(ParseError(WrongFormat))
  }

  /** `k` is the first invalid character of `token`. */
  predicate FirstInvalid(token: string, isBonus: bool, k: int) {
    && 0 <= k < |token|
    && !ValidSymbol(token[k], isBonus)
    && forall j :: 0 <= j < k ==> ValidSymbol(token[j], isBonus)
  }

  /** The balls of a token, left to right, each parsed after the ones before
      it: one ball per character, or the error of the first bad character. */
  function ParseBalls(token: string, isBonus: bool): (r: Result<seq<Ball>>)
    ensures r.Ok? <==> forall i :: 0 <= i < |token| ==> ValidSymbol(token[i], isBonus)
    ensures r.Ok? ==> |r.value| == |token|
    ensures r.Err? ==> exists k :: FirstInvalid(token, isBonus, k) && r.failure == SymbolError(token[k])
    decreases |token|
  {
    if token == [] then Ok([])
    else
      var init := token[..|token| - 1];
      assert forall i :: 0 <= i < |init| ==> init[i] == token[i];
      var before :- ParseBalls(init, isBonus);
      var b :- ParseBall(token[|token| - 1], before, isBonus);
      Ok(before + [b])
  }

  /** On success, ball `i` is what character `i` gives after balls `0` to
      `i - 1`, as `parseFrame` appends them. */
  lemma {:induction false} ParseBallsEach(token: string, isBonus: bool)
    requires ParseBalls(token, isBonus).Ok?
    ensures forall i :: 0 <= i < |token| ==>
      ParseBall(token[i], ParseBalls(token, isBonus).value[..i], isBonus) == Ok(ParseBalls(token, isBonus).value[i])
    decreases |token|
  {
    if token != [] {
      var n := |token| - 1;
      var init := token[..n];
      var before := ParseBalls(init, isBonus).value;
      var balls := ParseBalls(token, isBonus).value;
      ParseBallsEach(init, isBonus);
      assert balls == before + [balls[n]];
      forall i | 0 <= i < |token|
        ensures ParseBall(token[i], balls[..i], isBonus) == Ok(balls[i])
      {
        if i < n {
          assert token[i] == init[i] && balls[i] == before[i] && balls[..i] == before[..i];
        } else {
          assert balls[..i] == before;
        }
      }
    }
  }

  /** Conversely, balls that each come from their character after the
      balls before them are the parse of the token. */
  lemma {:induction false} ParseBallsFromEach(token: string, isBonus: bool, balls: seq<Ball>)
    requires |balls| == |token|
    requires forall i :: 0 <= i < |token| ==> ParseBall(token[i], balls[..i], isBonus) == Ok(balls[i])
    ensures ParseBalls(token, isBonus) == Ok(balls)
    decreases |token|
  {
    if token != [] {
      var n := |token| - 1;
      var init, before := token[..n], balls[..n];
      forall i | 0 <= i < n
        ensures ParseBall(init[i], before[..i], isBonus) == Ok(before[i])
      {
        assert init[i] == token[i] && before[..i] == balls[..i] && before[i] == balls[i];
      }
      ParseBallsFromEach(init, isBonus, before);
      assert balls == before + [balls[n]];
    }
  }

  /** The frame of a token. */
  function ParseToken(token: string, isBonus: bool): Result<Frame> {
    var balls :- ParseBalls(token, isBonus);
    Ok(Frame(balls))
  }

  /** Once a prefix of the token fails, the whole token fails the same way. */
  lemma {:induction false} PrefixFailure(token: string, n: nat, isBonus: bool)
    requires n <= |token|
    requires ParseBalls(token[..n], isBonus).Err?
    ensures ParseBalls(token, isBonus) == ParseBalls(token[..n], isBonus)
    decreases |token|
  {
    if n < |token| {
      var init := token[..|token| - 1];
      assert init[..n] == token[..n];
      PrefixFailure(init, n, isBonus);
    } else {
      assert token[..n] == token;
    }
  }

  /** `parseFrame`: appends one ball per character to the `parsed` list,
      each ball reading the balls parsed so far. */
  method ParseFrame(input: string, isBonus: bool) returns (r: Result<Frame>)
    ensures r == ParseToken(input, isBonus)
  {
    var parsed: seq<Ball> := [];
    for i := 0 to |input|
      invariant ParseBalls(input[..i], isBonus) == Ok(parsed)
    {
      assert input[..i + 1][..i] == input[..i];
      var ball := ParseBall(input[i], parsed, isBonus);
      if ball.Err? {
        PrefixFailure(input, i + 1, isBonus);
        return Err(ball.failure);
      }
      parsed := parsed + [ball.value];
    }
    assert input[..|input|] == input;
    return Ok(Frame(parsed));
  }

  /** The main tokens in order, stopping at the first one that fails. */
  function ParseFrames(tokens: seq<string>): (r: Result<seq<Frame>>)
    ensures r.Ok? <==> forall i :: 0 <= i < |tokens| ==> ParseToken(tokens[i], false).Ok?
    ensures r.Ok? ==> |r.value| == |tokens|
    ensures r.Ok? ==> forall i :: 0 <= i < |tokens| ==> r.value[i] == ParseToken(tokens[i], false).value
    ensures r.Err? ==> exists i :: && 0 <= i < |tokens|
                                  && (forall j :: 0 <= j < i ==> ParseToken(tokens[j], false).Ok?)
                                  && ParseToken(tokens[i], false) == Err(r.failure)
  {
    if tokens == [] then Ok([])
    else
      var f :- ParseToken(tokens[0], false);
      var rest :- ParseFrames(tokens[1..]);
      Ok([f] + rest)
  }

  function ParseBonus(input: Option<string>): (r: Result<Option<Frame>>)
    ensures input == None ==> r == Ok(None)
    ensures input.Some? ==> (r.Ok? <==> ParseToken(input.value, true).Ok?)
    ensures input.Some? && r.Ok? ==> r.value == Some(ParseToken(input.value, true).value)
  {
    match input
    case None => Ok(None)
    case Some(s) =>
      var f :- ParseToken(s, true);
      Ok(Some(f))
  }

  /** The bonus frame, if any, goes after the main frames. */
  function Combine(frames: seq<Frame>, bonus: Option<Frame>): (r: seq<Frame>)
    ensures bonus == None ==> r == frames
    ensures bonus.Some? ==> r == frames + [bonus.value]
  {
    match bonus
    case None => frames
    case Some(b) => frames + [b]
  }

  /** Cuts the input at the bonus delimiter: the main tokens and the bonus
      token, if there is one. Input that is only delimiters leaves no
      piece to read, and reading the first one is an index error. */
  function SplitParts(input: string): Result<(seq<string>, Option<string>)> {
    if input == [] || !Contains(input, BONUS_DELIMITER) then Err(ParseError(WrongFormat))
    else
      var splitted := Split(input, BONUS_DELIMITER);
      if |splitted| == 0 then Err(IndexOutOfBounds)
      else
        var bonus := if |splitted| > 1 then Some(splitted[1]) else None;
        Ok((Split(splitted[0], FRAME_DELIMITER), bonus))
  }

  /** `parse`: format check, main tokens, bonus token, then the validator;
      the first of them that fails decides the error. */
  function Parse(input: string, v: ValidatorKind): Result<Game> {
    var all :- Unvalidated(input);
    match Validate(v, all)
    case None => Ok(Game(all))
    case Some(m) => Err(ParseError(Rejected(m)))
  }

  /** The frames `parse` hands to its validator. */
  function Unvalidated(input: string): Result<seq<Frame>> {
    var parts :- SplitParts(input);
    var frames :- ParseFrames(parts.0);
    var bonus :- ParseBonus(parts.1);
    Ok(Combine(frames, bonus))
  }

  // Splitting at the delimiters.

  /** In `a + "||" + b`, where `a` neither contains the delimiter nor ends
      with '|', the first delimiter starts right after `a`. */
  lemma LeftmostDelimiter(a: string, b: string)
    requires !Contains(a + FRAME_DELIMITER, BONUS_DELIMITER)
    ensures OccursAt(a + BONUS_DELIMITER + b, BONUS_DELIMITER, |a|)
    ensures forall q :: 0 <= q < |a| ==> !OccursAt(a + BONUS_DELIMITER + b, BONUS_DELIMITER, q)
  {
    var s := a + BONUS_DELIMITER + b;
    assert s[|a|..|a| + 2] == BONUS_DELIMITER;
    forall q | 0 <= q < |a|
      ensures !OccursAt(s, BONUS_DELIMITER, q)
    {
      assert s[q..q + 2] == (a + FRAME_DELIMITER)[q..q + 2];
      assert !OccursAt(a + FRAME_DELIMITER, BONUS_DELIMITER, q);
    }
  }

  /** Dropping trailing empty pieces never reaches a non-empty first piece. */
  lemma {:induction false} DropTrailingCons(x: string, xs: seq<string>)
    requires x != []
    ensures DropTrailingEmpty([x] + xs) == [x] + DropTrailingEmpty(xs)
    decreases |xs|
  {
    if xs != [] && xs[|xs| - 1] == [] {
      assert ([x] + xs)[..|xs|] == [x] + xs[..|xs| - 1];
      DropTrailingCons(x, xs[..|xs| - 1]);
    }
  }

  /** The bonus token of the text after the first delimiter: its first piece
      once trailing empty pieces are dropped, if any is left. */
  function BonusToken(rest: string): Option<string> {
    var pieces := DropTrailingEmpty(RawSplit(rest, BONUS_DELIMITER));
    if pieces == [] then None else Some(pieces[0])
  }

  /** The main tokens are the '|'-pieces of the text before the first "||";
      the bonus token is read from the text after it. */
  lemma SplitPartsAt(main: string, rest: string)
    requires main != []
    requires !Contains(main + FRAME_DELIMITER, BONUS_DELIMITER)
    ensures SplitParts(main + BONUS_DELIMITER + rest) == Ok((Split(main, FRAME_DELIMITER), BonusToken(rest)))
  {
    var input := main + BONUS_DELIMITER + rest;
    LeftmostDelimiter(main, rest);
    assert Contains(input, BONUS_DELIMITER);
    PiecesLeftmost(input, BONUS_DELIMITER, [], |main|);
    assert input[..|main|] == main;
    assert input[|main| + 2..] == rest;
    assert [] + main == main;
    DropTrailingCons(main, RawSplit(rest, BONUS_DELIMITER));
  }

  /** Nothing after the delimiter: no bonus frame. */
  lemma NoBonusToken(main: string)
    requires main != []
    requires !Contains(main + FRAME_DELIMITER, BONUS_DELIMITER)
    ensures SplitParts(main + BONUS_DELIMITER) == Ok((Split(main, FRAME_DELIMITER), None))
  {
    SplitPartsAt(main, []);
    assert main + BONUS_DELIMITER + [] == main + BONUS_DELIMITER;
    assert RawSplit([], BONUS_DELIMITER) == [[]];
    assert DropTrailingEmpty([[]]) == [];
  }

  /** The bonus token runs to the next delimiter. */
  lemma BonusTokenUpTo(main: string, bonus: string, more: string)
    requires main != [] && bonus != []
    requires !Contains(main + FRAME_DELIMITER, BONUS_DELIMITER)
    requires !Contains(bonus + FRAME_DELIMITER, BONUS_DELIMITER)
    ensures SplitParts(main + BONUS_DELIMITER + bonus + BONUS_DELIMITER + more)
         == Ok((Split(main, FRAME_DELIMITER), Some(bonus)))
  {
    var rest := bonus + BONUS_DELIMITER + more;
    assert main + BONUS_DELIMITER + bonus + BONUS_DELIMITER + more == main + BONUS_DELIMITER + rest;
    SplitPartsAt(main, rest);
    LeftmostDelimiter(bonus, more);
    PiecesLeftmost(rest, BONUS_DELIMITER, [], |bonus|);
    assert rest[..|bonus|] == bonus;
    assert rest[|bonus| + 2..] == more;
    assert [] + bonus == bonus;
    DropTrailingCons(bonus, RawSplit(more, BONUS_DELIMITER));
  }

  /** The bonus token is everything after the delimiter when no other
      delimiter follows. */
  lemma BonusTokenToEnd(main: string, bonus: string)
    requires main != [] && bonus != []
    requires !Contains(main + FRAME_DELIMITER, BONUS_DELIMITER)
    requires !Contains(bonus, BONUS_DELIMITER)
    ensures SplitParts(main + BONUS_DELIMITER + bonus) == Ok((Split(main, FRAME_DELIMITER), Some(bonus)))
  {
    SplitPartsAt(main, bonus);
    PiecesNoDelimiter(bonus, BONUS_DELIMITER, []);
    assert [] + bonus == bonus;
  }

  /** A token as written in the notation: not empty, no '|' in it. */
  predicate Token(t: string) {
    t != [] && forall j :: 0 <= j < |t| ==> t[j] != FRAME_DELIMITER[0]
  }

  lemma TokenHasNoDelimiter(t: string)
    requires Token(t)
    ensures !Contains(t, FRAME_DELIMITER) && !Contains(t, BONUS_DELIMITER)
  {
    forall p | 0 <= p < |t|
      ensures !OccursAt(t, FRAME_DELIMITER, p) && !OccursAt(t, BONUS_DELIMITER, p)
    {
      assert t[p..p + 1][0] == t[p];
      if p + 2 <= |t| {
        assert t[p..p + 2][0] == t[p];
      }
    }
  }

  /** Tokens joined with '|' never show two '|' in a row, not even with one
      more '|' after them. */
  lemma {:induction false} JoinedTokens(xs: seq<string>)
    requires xs != [] && forall i :: 0 <= i < |xs| ==> Token(xs[i])
    ensures !Contains(Join(xs, FRAME_DELIMITER) + FRAME_DELIMITER, BONUS_DELIMITER)
  {
    var x := xs[0];
    var s := Join(xs, FRAME_DELIMITER) + FRAME_DELIMITER;
    if |xs| == 1 {
      assert s == x + FRAME_DELIMITER;
      forall p | 0 <= p <= |s| - 2
        ensures !OccursAt(s, BONUS_DELIMITER, p)
      {
        assert s[p..p + 2][0] == s[p] == x[p];
      }
    } else {
      var s' := Join(xs[1..], FRAME_DELIMITER) + FRAME_DELIMITER;
      JoinedTokens(xs[1..]);
      assert s == x + FRAME_DELIMITER + s';
      assert s'[0] == xs[1][0];
      forall p | 0 <= p <= |s| - 2
        ensures !OccursAt(s, BONUS_DELIMITER, p)
      {
        if p < |x| {
          assert s[p..p + 2][0] == s[p] == x[p];
        } else if p == |x| {
          assert s[p..p + 2][1] == s[p + 1] == s'[0];
        } else {
          assert s[p..p + 2] == s'[p - |x| - 1..p - |x| + 1];
          assert !OccursAt(s', BONUS_DELIMITER, p - |x| - 1);
        }
      }
    }
  }

  /** Notation written as tokens joined with '|', "||", and a bonus token
      or nothing: it splits back into exactly those tokens. */
  lemma SplitTokens(tokens: seq<string>, bonus: string)
    requires tokens != [] && forall i :: 0 <= i < |tokens| ==> Token(tokens[i])
    requires bonus == [] || Token(bonus)
    ensures SplitParts(Join(tokens, FRAME_DELIMITER) + BONUS_DELIMITER + bonus)
         == Ok((tokens, if bonus == [] then None else Some(bonus)))
  {
    var main := Join(tokens, FRAME_DELIMITER);
    assert main[..|tokens[0]|] == tokens[0];
    JoinedTokens(tokens);
    forall i | 0 <= i < |tokens|
      ensures !Contains(tokens[i], FRAME_DELIMITER)
    {
      TokenHasNoDelimiter(tokens[i]);
    }
    SplitJoin(tokens, FRAME_DELIMITER);
    if bonus == [] {
      NoBonusToken(main);
      assert main + BONUS_DELIMITER + bonus == main + BONUS_DELIMITER;
    } else {
      TokenHasNoDelimiter(bonus);
      BonusTokenToEnd(main, bonus);
    }
  }

  /** Input made of the delimiter alone leaves no piece to read. */
  lemma DelimiterOnly()
    ensures SplitParts(BONUS_DELIMITER) == Err(IndexOutOfBounds)
  {
    assert OccursAt(BONUS_DELIMITER, BONUS_DELIMITER, 0);
    var raw := RawSplit(BONUS_DELIMITER, BONUS_DELIMITER);
    assert BONUS_DELIMITER[..2] == BONUS_DELIMITER;
    assert BONUS_DELIMITER[2..] == [];
    var e: string := [];
    assert e + e == e;
    assert Pieces(e, BONUS_DELIMITER, e) == [e];
    assert raw == [e, e];
    assert DropTrailingEmpty(raw) == DropTrailingEmpty([[]]);
  }

  // What parsing produces.

  /** `'/'` counts the pins left by the balls before it, which can be fewer
      than none: "99/" makes a spare ball of -8 pins. */
  lemma SpareAfterNineNine()
    ensures ParseToken("99/", false) == Ok(Frame([Plain(9), Plain(9), Ball(-8, false, true, false)]))
  {
    assert "99/"[..2] == "99";
    assert "99"[..1] == "9";
    assert "9"[..0] == [];
    var e: seq<Ball> := [];
    assert ParseBalls("9"[..0], false) == Ok(e);
    assert ParseBall('9', e, false) == Ok(Plain(9));
    assert e + [Plain(9)] == [Plain(9)];
    assert ParseBalls("9", false) == Ok([Plain(9)]);
    assert ParseBalls("99"[..1], false) == Ok([Plain(9)]);
    assert ParseBall("99"[1], [Plain(9)], false) == Ok(Plain(9));
    assert [Plain(9)] + [Plain(9)] == [Plain(9), Plain(9)];
    assert ParseBalls("99", false) == Ok([Plain(9), Plain(9)]);
    assert ParseBalls("99/"[..2], false) == Ok([Plain(9), Plain(9)]);
    SumPinsPair([Plain(9), Plain(9)]);
    assert ParseBall("99/"[2], [Plain(9), Plain(9)], false) == Ok(Ball(-8, false, true, false));
    assert [Plain(9), Plain(9)] + [Ball(-8, false, true, false)] == [Plain(9), Plain(9), Ball(-8, false, true, false)];
    assert ParseBalls("99/", false) == Ok([Plain(9), Plain(9), Ball(-8, false, true, false)]);
  }

  /** Every ball of a regular token is a main ball, every ball of the bonus
      token a bonus ball. */
  lemma {:induction false} TokenShape(token: string, isBonus: bool)
    requires ParseToken(token, isBonus).Ok?
    ensures !isBonus ==> MainTokenFrame(ParseToken(token, isBonus).value)
    ensures isBonus ==> BonusTokenFrame(ParseToken(token, isBonus).value)
    decreases |token|
  {
    if token != [] {
      var init := token[..|token| - 1];
      var before := ParseBalls(init, isBonus).value;
      var b := ParseBall(token[|token| - 1], before, isBonus).value;
      var balls := before + [b];
      assert ParseToken(token, isBonus).value.balls == balls;
      TokenShape(init, isBonus);
      forall i | 0 <= i < |balls|
        ensures !isBonus ==> MainBall(balls[i], balls[..i])
        ensures isBonus ==> BonusBall(balls[i])
      {
        if i < |before| {
          assert balls[..i] == before[..i];
        } else {
          assert balls[..i] == before;
        }
      }
    }
  }

  /** What the parser hands to the validator, and what a Game holds: frames
      of regular tokens, then possibly the frame of the bonus token. */
  lemma ParsedFramesShape(input: string, v: ValidatorKind)
    requires Parse(input, v).Ok?
    ensures Parsed(Parse(input, v).value.frames)
  {
    var parts := SplitParts(input).value;
    var frames := ParseFrames(parts.0).value;
    var bonus := ParseBonus(parts.1).value;
    forall i | 0 <= i < |frames|
      ensures MainTokenFrame(frames[i])
    {
      TokenShape(parts.0[i], false);
    }
    if bonus.Some? {
      TokenShape(parts.1.value, true);
    }
    assert Parse(input, v).value.frames == Combine(frames, bonus);
  }

  /** Empty input, or input without the bonus delimiter, is rejected before
      any token is read, whatever the validator. */
  lemma WrongFormatFirst(input: string, v: ValidatorKind)
    requires input == [] || !Contains(input, BONUS_DELIMITER)
    ensures Parse(input, v) == Err(ParseError(WrongFormat))
  {
  }

  /** Under the full validator every parsed game is a legal game. */
  lemma FullParseWellFormed(input: string)
    requires Parse(input, Full).Ok?
    ensures WellFormed(Parse(input, Full).value.frames)
  {
    var parts := SplitParts(input).value;
    var all := Combine(ParseFrames(parts.0).value, ParseBonus(parts.1).value);
    assert Validate(Full, all) == None && Parse(input, Full).value.frames == all;
    ParsedFramesShape(input, Full);
    FullValidator.AcceptsExactlyWellFormed(all);
  }

  /** And conversely: input the validator-free parser turns into a legal
      game parses to the same game under the full validator. */
  lemma FullAcceptsLegalGames(input: string)
    requires Parse(input, NoOp).Ok?
    requires WellFormed(Parse(input, NoOp).value.frames)
    ensures Parse(input, Full) == Parse(input, NoOp)
  {
    FullValidator.AcceptsWellFormed(Parse(input, NoOp).value.frames);
  }

  /** The validator is the last step: the full validator fails wherever the
      validator-free parse does, in the same way, and otherwise either keeps
      its game or rejects it with the message of its first failing rule. */
  lemma ValidatorOnlyRejects(input: string)
    ensures Parse(input, NoOp).Err? ==> Parse(input, Full) == Parse(input, NoOp)
    ensures Parse(input, NoOp).Ok? ==>
      Parse(input, Full)
        == match FullValidator.Validate(Parse(input, NoOp).value.frames)
           case None => Parse(input, NoOp)
           case Some(m) => Err(ParseError(Rejected(m)))
  {
  }

  /** Without validation, parsing fails only on the format, on a spare in the
      bonus token, or on input that is nothing but delimiters. */
  lemma NoOpParseErrors(input: string)
    requires Parse(input, NoOp).Err?
    ensures Parse(input, NoOp).failure in {ParseError(WrongFormat), ParseError(SpareInBonus), IndexOutOfBounds}
  {
  }
}
