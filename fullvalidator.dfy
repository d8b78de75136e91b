/** The rule-based validator: an ordered list of eight rules, evaluated one
    after the other until the first one that fails (`FullValidator`). */
module FullValidator {
  import opened Wrappers
  import opened Calculation
  import opened Model
  import opened Validator
  import opened Shape

  /** A check over the whole frame list and the message reported when it fails. */
  datatype Rule = Rule(op: seq<Frame> -> bool, message: Message)
  {
    function Run(frames: seq<Frame>): (r: Option<Message>)
      ensures r == None <==> op(frames)
      ensures r != None ==> r == Some(message)
    {
      if op(frames) then None else Some(message)
    }
  }

  /** Lifts a check on one frame to a rule that every frame must pass. */
  function CompositeRule(op: Frame -> bool, message: Message): (r: Rule)
    ensures r.message == message
    ensures forall frames :: r.op(frames) <==> forall i :: 0 <= i < |frames| ==> op(frames[i])
  {
    Rule(frames => forall i :: 0 <= i < |frames| ==> op(frames[i]), message)
  }

  /** Number of frames without a bonus ball. */
  function NonBonusCount(frames: seq<Frame>): (n: nat)
    ensures n <= |frames|
  {
    if frames == [] then 0
    else (if frames[0].IsBonus() then 0 else 1) + NonBonusCount(frames[1..])
  }

  /** Number of balls with pins in range. */
  function CorrectCount(balls: seq<Ball>): (n: nat)
    ensures n <= |balls|
  {
    if balls == [] then 0
    else (if balls[0].IsCorrect() then 1 else 0) + CorrectCount(balls[1..])
  }

  predicate CountFramesCorrect(frames: seq<Frame>) {
    NonBonusCount(frames) == COUNT_FRAMES
  }

  predicate BonusFrameShouldExist(frames: seq<Frame>)
    requires |frames| > LAST_NOTBONUS_FRAME_INDEX
  {
    frames[LAST_NOTBONUS_FRAME_INDEX].IsMaxEarned() ==> |frames| == COUNT_FRAMES + 1
  }

  predicate BonusFrameCorrect(frames: seq<Frame>)
    requires |frames| > LAST_NOTBONUS_FRAME_INDEX
  {
    var beforeBonus := frames[LAST_NOTBONUS_FRAME_INDEX];
    var bonus := frames[|frames| - 1];
    bonus.IsBonus() ==>
      (beforeBonus.IsSpare() && BonusSpareFrameCorrect(bonus))
      || (beforeBonus.IsStrike() && BonusStrikeFrameCorrect(bonus))
  }

  predicate BallsHaveCorrectPins(frame: Frame) {
    forall i :: 0 <= i < |frame.balls| ==> frame.balls[i].IsCorrect()
  }

  predicate BallsHaveCorrectSum(frame: Frame) {
    frame.IsBonus() || frame.HaveCorrectSum()
  }

  predicate StrikeFrameCorrect(frame: Frame) {
    !frame.IsStrike()
    || (|frame.balls| == MAX_BALLS_COUNT - 1 && frame.balls[0].pins == MAXIMUM_BALL_VALUE)
  }

  predicate SpareFrameCorrect(frame: Frame) {
    !frame.IsSpare()
    || (&& |frame.balls| == MAX_BALLS_COUNT
        && frame.Total() == FRAME_BALLS_MAX_SUM
        && frame.balls[0].pins < MAXIMUM_BALL_VALUE)
  }

  predicate UsualFrameCorrect(frame: Frame) {
    frame.IsSpecial() || (|frame.balls| == MAX_BALLS_COUNT && frame.Total() < FRAME_BALLS_MAX_SUM)
  }

  predicate BonusStrikeFrameCorrect(frame: Frame) {
    |frame.balls| == MAX_BALLS_COUNT && CorrectCount(frame.balls) == MAX_BALLS_COUNT
  }

  predicate BonusSpareFrameCorrect(frame: Frame) {
    |frame.balls| == MAX_BALLS_COUNT - 1 && frame.balls[0].IsCorrect()
  }

  /** The rules in the order the constructor adds them. Rules two and three
      read the tenth frame; they only run once the first rule has found ten
      non-bonus frames (see `ShortListsFailCount`), so their length guard
      never decides anything. */
  const RULES: seq<Rule> := [
    Rule(CountFramesCorrect, CountFrameError),
    Rule(frames => |frames| > LAST_NOTBONUS_FRAME_INDEX && BonusFrameShouldExist(frames),
         BonusFrameShouldExistError),
    Rule(frames => |frames| > LAST_NOTBONUS_FRAME_INDEX && BonusFrameCorrect(frames),
         BonusFrameIncorrect),
    CompositeRule(BallsHaveCorrectPins, BallCountPinsError),
    CompositeRule(BallsHaveCorrectSum, PinSumFrameError),
    CompositeRule(StrikeFrameCorrect, StrikeFrameIncorrect),
    CompositeRule(SpareFrameCorrect, SpareFrameIncorrect),
    CompositeRule(UsualFrameCorrect, FrameIncorrect)
  ]

  /** Rule `k` is the first of `rules` that `frames` fails. */
  predicate FirstFailing(rules: seq<Rule>, frames: seq<Frame>, k: int) {
    && 0 <= k < |rules|
    && !rules[k].op(frames)
    && forall j :: 0 <= j < k ==> rules[j].op(frames)
  }

  /** The message of the first rule that fails, later rules not evaluated. */
  function FirstFailure(rules: seq<Rule>, frames: seq<Frame>): (r: Option<Message>)
    ensures r == None <==> forall k :: 0 <= k < |rules| ==> rules[k].op(frames)
    ensures r != None ==>
      exists k :: FirstFailing(rules, frames, k) && r == Some(rules[k].message)
  {
    if rules == [] then None
    else if rules[0].Run(frames).Some? then rules[0].Run(frames)
    else
      var r := FirstFailure(rules[1..], frames);
      assert r != None ==> exists k :: FirstFailing(rules[1..], frames, k) && r == Some(rules[1..][k].message);
      assert forall k :: FirstFailing(rules[1..], frames, k) ==> FirstFailing(rules, frames, k + 1);
      r
  }

  function Validate(frames: seq<Frame>): Option<Message> {
    FirstFailure(RULES, frames)
  }

  // One lemma per rule keeps each unfolding of the rule list small.
  lemma Rule0Unfold(frames: seq<Frame>)
    ensures RULES[0].op(frames) == CountFramesCorrect(frames)
  {
  }

  lemma Rule1Unfold(frames: seq<Frame>)
    ensures RULES[1].op(frames) == (|frames| > LAST_NOTBONUS_FRAME_INDEX && BonusFrameShouldExist(frames))
  {
  }

  lemma Rule2Unfold(frames: seq<Frame>)
    ensures RULES[2].op(frames) == (|frames| > LAST_NOTBONUS_FRAME_INDEX && BonusFrameCorrect(frames))
  {
  }

  lemma Rule3Unfold(frames: seq<Frame>)
    ensures RULES[3].op(frames) == (forall i :: 0 <= i < |frames| ==> BallsHaveCorrectPins(frames[i]))
  {
  }

  lemma Rule4Unfold(frames: seq<Frame>)
    ensures RULES[4].op(frames) == (forall i :: 0 <= i < |frames| ==> BallsHaveCorrectSum(frames[i]))
  {
  }

  lemma Rule5Unfold(frames: seq<Frame>)
    ensures RULES[5].op(frames) == (forall i :: 0 <= i < |frames| ==> StrikeFrameCorrect(frames[i]))
  {
  }

  lemma Rule6Unfold(frames: seq<Frame>)
    ensures RULES[6].op(frames) == (forall i :: 0 <= i < |frames| ==> SpareFrameCorrect(frames[i]))
  {
  }

  lemma Rule7Unfold(frames: seq<Frame>)
    ensures RULES[7].op(frames) == (forall i :: 0 <= i < |frames| ==> UsualFrameCorrect(frames[i]))
  {
  }

  /** What each rule of the list checks. */
  lemma RulesUnfold(frames: seq<Frame>)
    ensures |RULES| == 8
    ensures RULES[0].op(frames) == CountFramesCorrect(frames)
    ensures RULES[1].op(frames) == (|frames| > LAST_NOTBONUS_FRAME_INDEX && BonusFrameShouldExist(frames))
    ensures RULES[2].op(frames) == (|frames| > LAST_NOTBONUS_FRAME_INDEX && BonusFrameCorrect(frames))
    ensures RULES[3].op(frames) == (forall i :: 0 <= i < |frames| ==> BallsHaveCorrectPins(frames[i]))
    ensures RULES[4].op(frames) == (forall i :: 0 <= i < |frames| ==> BallsHaveCorrectSum(frames[i]))
    ensures RULES[5].op(frames) == (forall i :: 0 <= i < |frames| ==> StrikeFrameCorrect(frames[i]))
    ensures RULES[6].op(frames) == (forall i :: 0 <= i < |frames| ==> SpareFrameCorrect(frames[i]))
    ensures RULES[7].op(frames) == (forall i :: 0 <= i < |frames| ==> UsualFrameCorrect(frames[i]))
  {
    Rule0Unfold(frames);
    Rule1Unfold(frames);
    Rule2Unfold(frames);
    Rule3Unfold(frames);
    Rule4Unfold(frames);
    Rule5Unfold(frames);
    Rule6Unfold(frames);
    Rule7Unfold(frames);
  }

  /** Each rule reports its own message, with its own text. */
  lemma RuleMessagesDistinct()
    ensures forall i, j :: 0 <= i < j < |RULES| ==> RULES[i].message != RULES[j].message
    ensures forall i, j :: 0 <= i < j < |RULES| ==> RULES[i].message.Text() != RULES[j].message.Text()
  {
    forall i, j | 0 <= i < j < |RULES|
      ensures RULES[i].message.Text() != RULES[j].message.Text()
    {
      TextInjective(RULES[i].message, RULES[j].message);
    }
  }

  lemma FirstFailureAt(rules: seq<Rule>, frames: seq<Frame>, k: nat)
    requires k < |rules|
    ensures FirstFailure(rules[k..], frames)
         == if !rules[k].op(frames) then Some(rules[k].message) else FirstFailure(rules[k + 1..], frames)
  {
    assert rules[k..][0] == rules[k];
    assert rules[k..][1..] == rules[k + 1..];
  }

  /** Fail-fast evaluation of eight rules, written out. */
  lemma FirstFailureOfEight(rules: seq<Rule>, frames: seq<Frame>)
    requires |rules| == 8
    ensures FirstFailure(rules, frames) ==
      if !rules[0].op(frames) then Some(rules[0].message)
      else if !rules[1].op(frames) then Some(rules[1].message)
      else if !rules[2].op(frames) then Some(rules[2].message)
      else if !rules[3].op(frames) then Some(rules[3].message)
      else if !rules[4].op(frames) then Some(rules[4].message)
      else if !rules[5].op(frames) then Some(rules[5].message)
      else if !rules[6].op(frames) then Some(rules[6].message)
      else if !rules[7].op(frames) then Some(rules[7].message)
      else None
  {
    assert rules[0..] == rules;
    FirstFailureAt(rules, frames, 7);
    assert rules[8..] == [];
    FirstFailureAt(rules, frames, 6);
    FirstFailureAt(rules, frames, 5);
    FirstFailureAt(rules, frames, 4);
    FirstFailureAt(rules, frames, 3);
    FirstFailureAt(rules, frames, 2);
    FirstFailureAt(rules, frames, 1);
    FirstFailureAt(rules, frames, 0);
  }

  /** Fail-fast: the message of the first failing rule, in the order
      count, bonus exists, bonus correct, pins, sum, strike, spare, open. */
  lemma ValidateReports(frames: seq<Frame>)
    ensures Validate(frames) ==
      if !CountFramesCorrect(frames) then Some(CountFrameError)
      else if !BonusFrameShouldExist(frames) then Some(BonusFrameShouldExistError)
      else if !BonusFrameCorrect(frames) then Some(BonusFrameIncorrect)
      else if !(forall i :: 0 <= i < |frames| ==> BallsHaveCorrectPins(frames[i])) then Some(BallCountPinsError)
      else if !(forall i :: 0 <= i < |frames| ==> BallsHaveCorrectSum(frames[i])) then Some(PinSumFrameError)
      else if !(forall i :: 0 <= i < |frames| ==> StrikeFrameCorrect(frames[i])) then Some(StrikeFrameIncorrect)
      else if !(forall i :: 0 <= i < |frames| ==> SpareFrameCorrect(frames[i])) then Some(SpareFrameIncorrect)
      else if !(forall i :: 0 <= i < |frames| ==> UsualFrameCorrect(frames[i])) then Some(FrameIncorrect)
      else None
  {
    RulesUnfold(frames);
    FirstFailureOfEight(RULES, frames);
    if CountFramesCorrect(frames) {
      assert |frames| > LAST_NOTBONUS_FRAME_INDEX;
    }
  }

  /** A list of fewer than ten frames, or an empty one, stops at the first
      rule, before anything reads the tenth frame. */
  lemma ShortListsFailCount(frames: seq<Frame>)
    requires |frames| <= LAST_NOTBONUS_FRAME_INDEX
    ensures Validate(frames) == Some(CountFrameError)
  {
    ValidateReports(frames);
  }

  /** The text of the reported message tells which rule failed first. */
  lemma MessageNamesRule(frames: seq<Frame>, k: nat)
    requires k < |RULES|
    requires Validate(frames).Some? && Validate(frames).value.Text() == RULES[k].message.Text()
    ensures FirstFailing(RULES, frames, k)
  {
    RuleMessagesDistinct();
    var j :| FirstFailing(RULES, frames, j) && Validate(frames) == Some(RULES[j].message);
    assert RULES[j].message.Text() == RULES[k].message.Text();
  }

  // What the rules mean for the frames the parser builds.

  /** The eight rules hold. */
  predicate AllRulesHold(frames: seq<Frame>) {
    && CountFramesCorrect(frames)
    && |frames| > LAST_NOTBONUS_FRAME_INDEX
    && BonusFrameShouldExist(frames)
    && BonusFrameCorrect(frames)
    && (forall i :: 0 <= i < |frames| ==> BallsHaveCorrectPins(frames[i]))
    && (forall i :: 0 <= i < |frames| ==> BallsHaveCorrectSum(frames[i]))
    && (forall i :: 0 <= i < |frames| ==> StrikeFrameCorrect(frames[i]))
    && (forall i :: 0 <= i < |frames| ==> SpareFrameCorrect(frames[i]))
    && (forall i :: 0 <= i < |frames| ==> UsualFrameCorrect(frames[i]))
  }

  /** The validator accepts exactly the lists on which every rule holds. */
  lemma ValidateAccepts(frames: seq<Frame>)
    ensures Validate(frames) == None <==> AllRulesHold(frames)
  {
    ValidateReports(frames);
  }

  lemma {:induction false} NonBonusCountAppend(a: seq<Frame>, b: seq<Frame>)
    ensures NonBonusCount(a + b) == NonBonusCount(a) + NonBonusCount(b)
  {
    if a == [] {
      assert a + b == b;
    } else {
      assert (a + b)[1..] == a[1..] + b;
      NonBonusCountAppend(a[1..], b);
    }
  }

  /** `NonBonusCount` is the number of positions holding a frame without a
      bonus ball, as the stream filter counts them. */
  lemma {:induction false} NonBonusCountIndices(frames: seq<Frame>)
    ensures NonBonusCount(frames) == |set i | 0 <= i < |frames| && !frames[i].IsBonus()|
  {
    if frames != [] {
      var n := |frames| - 1;
      var init, last := frames[..n], frames[n];
      assert frames == init + [last];
      NonBonusCountAppend(init, [last]);
      NonBonusCountIndices(init);
      var before := set i | 0 <= i < n && !init[i].IsBonus();
      var all := set i | 0 <= i < |frames| && !frames[i].IsBonus();
      if last.IsBonus() {
        assert all == before;
      } else {
        assert all == before + {n};
      }
    }
  }

  lemma {:induction false} NonBonusCountAll(frames: seq<Frame>)
    requires forall i :: 0 <= i < |frames| ==> !frames[i].IsBonus()
    ensures NonBonusCount(frames) == |frames|
  {
    if frames != [] {
      assert !frames[0].IsBonus();
      NonBonusCountAll(frames[1..]);
    }
  }

  lemma StrikeFrameFlags(f: Frame)
    requires StrikeFrame(f)
    ensures f.IsStrike() && !f.IsSpare() && !f.IsBonus()
    ensures f.Total() == MAXIMUM_BALL_VALUE
  {
    assert f.balls[0].isStrike;
    assert f.balls[1..] == [];
    assert SumPins(f.balls[1..]) == 0;
  }

  lemma SpareFrameFlags(f: Frame)
    requires SpareFrame(f)
    ensures f.IsSpare() && !f.IsStrike() && !f.IsBonus()
    ensures f.Total() == FRAME_BALLS_MAX_SUM
  {
    assert f.balls[1].isSpare;
    SumPinsPair(f.balls);
  }

  lemma OpenFrameFlags(f: Frame)
    requires OpenFrame(f)
    ensures !f.IsSpare() && !f.IsStrike() && !f.IsBonus()
    ensures MINIMUM_BALL_VALUE <= f.Total() < FRAME_BALLS_MAX_SUM
  {
    SumPinsPair(f.balls);
  }

  /** A regular frame is flagged as what it is and passes every per-frame rule. */
  lemma RegularFramePasses(f: Frame)
    requires RegularFrame(f)
    ensures !f.IsBonus()
    ensures f.IsStrike() <==> StrikeFrame(f)
    ensures f.IsSpare() <==> SpareFrame(f)
    ensures BallsHaveCorrectPins(f) && BallsHaveCorrectSum(f)
    ensures StrikeFrameCorrect(f) && SpareFrameCorrect(f) && UsualFrameCorrect(f)
  {
    if StrikeFrame(f) {
      StrikeFrameFlags(f);
    } else if SpareFrame(f) {
      SpareFrameFlags(f);
    } else {
      OpenFrameFlags(f);
    }
  }

  /** A bonus frame of one or two balls is flagged as bonus only and passes
      every per-frame rule, and the bonus check that fits its size. */
  lemma BonusFramePasses(f: Frame, n: nat)
    requires BonusFrame(f, n) && 1 <= n <= MAX_BALLS_COUNT
    ensures f.IsBonus() && !f.IsStrike() && !f.IsSpare()
    ensures BallsHaveCorrectPins(f) && BallsHaveCorrectSum(f)
    ensures StrikeFrameCorrect(f) && SpareFrameCorrect(f) && UsualFrameCorrect(f)
    ensures n == MAX_BALLS_COUNT ==> BonusStrikeFrameCorrect(f)
    ensures n == MAX_BALLS_COUNT - 1 ==> BonusSpareFrameCorrect(f)
  {
    assert f.balls[0].isBonus;
    if n == 2 {
      assert f.balls[1..][1..] == [];
      assert CorrectCount(f.balls[1..]) == 1 + CorrectCount(f.balls[1..][1..]);
    }
  }

  lemma MainTokenNotBonus(f: Frame)
    requires MainTokenFrame(f)
    ensures !f.IsBonus()
  {
    assert forall i :: 0 <= i < |f.balls| ==> MainBall(f.balls[i], f.balls[..i]);
  }

  /** A bonus token without a bonus ball is an empty one. */
  lemma EmptyBonusToken(f: Frame)
    requires BonusTokenFrame(f) && !f.IsBonus()
    ensures f.balls == []
  {
    assert |f.balls| > 0 ==> BonusBall(f.balls[0]);
  }

  /** A frame of a regular token that passes the strike, spare, open and pin
      rules is a regular frame. */
  lemma MainFrameFromRules(f: Frame)
    requires MainTokenFrame(f)
    requires BallsHaveCorrectPins(f) && StrikeFrameCorrect(f)
    requires SpareFrameCorrect(f) && UsualFrameCorrect(f)
    ensures RegularFrame(f)
  {
    MainTokenNotBonus(f);
    if f.IsStrike() {
      var i :| 0 <= i < |f.balls| && f.balls[i].isStrike;
      assert i == 0;
      assert MainBall(f.balls[0], f.balls[..0]);
      assert f.balls == [f.balls[0]];
    } else if f.IsSpare() {
      assert MainBall(f.balls[0], f.balls[..0]);
      assert f.balls[..0] == [];
      assert !f.balls[0].isStrike;
      assert !f.balls[0].isSpare;
      assert MainBall(f.balls[1], f.balls[..1]);
      assert !f.balls[1].isStrike;
      var i :| 0 <= i < |f.balls| && f.balls[i].isSpare;
      assert i == 1;
      assert f.balls[..1][1..] == [];
      assert SumPins(f.balls[..1]) == f.balls[0].pins;
    } else {
      assert MainBall(f.balls[0], f.balls[..0]);
      assert MainBall(f.balls[1], f.balls[..1]);
      assert !f.balls[0].isStrike && !f.balls[0].isSpare;
      assert !f.balls[1].isStrike && !f.balls[1].isSpare;
      SumPinsPair(f.balls);
    }
  }

  /** A legal game passes every rule. */
  lemma WellFormedPassesRules(frames: seq<Frame>)
    requires WellFormed(frames)
    ensures AllRulesHold(frames)
  {
    var n := |frames|;
    var tenth := frames[LAST_NOTBONUS_FRAME_INDEX];
    RegularFramePasses(tenth);
    var k := if StrikeFrame(tenth) then MAX_BALLS_COUNT else MAX_BALLS_COUNT - 1;
    forall j | 0 <= j < COUNT_FRAMES
      ensures !frames[..COUNT_FRAMES][j].IsBonus()
    {
      RegularFramePasses(frames[j]);
    }
    NonBonusCountAll(frames[..COUNT_FRAMES]);
    if n == COUNT_FRAMES + 1 {
      BonusFramePasses(frames[COUNT_FRAMES], k);
      assert frames == frames[..COUNT_FRAMES] + [frames[COUNT_FRAMES]];
      NonBonusCountAppend(frames[..COUNT_FRAMES], [frames[COUNT_FRAMES]]);
      assert [frames[COUNT_FRAMES]][1..] == [];
    } else {
      assert frames == frames[..COUNT_FRAMES];
    }
    forall i | 0 <= i < n
      ensures BallsHaveCorrectPins(frames[i]) && BallsHaveCorrectSum(frames[i])
      ensures StrikeFrameCorrect(frames[i]) && SpareFrameCorrect(frames[i])
      ensures UsualFrameCorrect(frames[i])
    {
      if i < COUNT_FRAMES {
        RegularFramePasses(frames[i]);
      } else {
        BonusFramePasses(frames[i], k);
      }
    }
  }

  /** How the last parsed frame is classified: a frame with a bonus ball
      came from the bonus token, one without reads as a regular token. */
  lemma LastFrameKinds(last: Frame)
    requires MainTokenFrame(last) || BonusTokenFrame(last)
    ensures last.IsBonus() ==> BonusTokenFrame(last)
    ensures !last.IsBonus() ==> MainTokenFrame(last)
  {
    if MainTokenFrame(last) {
      MainTokenNotBonus(last);
    } else if !last.IsBonus() {
      EmptyBonusToken(last);
    }
  }

  /** A parsed list that passes every rule is a legal game. */
  lemma RulesGiveWellFormed(frames: seq<Frame>)
    requires Parsed(frames)
    requires AllRulesHold(frames)
    ensures WellFormed(frames)
  {
    var n := |frames|;
    var last := frames[n - 1];
    var init := frames[..n - 1];
    forall i | 0 <= i < |init|
      ensures !init[i].IsBonus()
    {
      MainTokenNotBonus(frames[i]);
    }
    NonBonusCountAll(init);
    assert frames == init + [last];
    NonBonusCountAppend(init, [last]);
    assert [last][1..] == [];
    LastFrameKinds(last);
    forall j | 0 <= j < COUNT_FRAMES
      ensures RegularFrame(frames[j])
    {
      MainFrameFromRules(frames[j]);
    }
    RegularFramePasses(frames[LAST_NOTBONUS_FRAME_INDEX]);
  }

  /** The full validator accepts a parsed frame list exactly when it is a
      legal game: ten regular frames and the bonus balls the tenth earns. */
  lemma AcceptsExactlyWellFormed(frames: seq<Frame>)
    requires Parsed(frames)
    ensures Validate(frames) == None <==> WellFormed(frames)
  {
    ValidateAccepts(frames);
    if WellFormed(frames) {
      WellFormedPassesRules(frames);
    }
    if AllRulesHold(frames) {
      RulesGiveWellFormed(frames);
    }
  }

  /** Every legal game is accepted, however it was built. */
  lemma AcceptsWellFormed(frames: seq<Frame>)
    requires WellFormed(frames)
    ensures Validate(frames) == None
  {
    ValidateAccepts(frames);
    WellFormedPassesRules(frames);
  }
}
