/** What every validation strategy shares (the `Validator` interface): a
    strategy maps the parsed frame list to `None` when it accepts it and to
    `Some(message)` otherwise, the message being one of the eight below.
    A message is kept as a tag; `Text` gives the Java format string with the
    constants of `Calculation` filled in. */
module Validator {

  datatype Message =
    | BonusFrameShouldExistError
    | CountFrameError
    | BonusFrameIncorrect
    | BallCountPinsError
    | PinSumFrameError
    | StrikeFrameIncorrect
    | SpareFrameIncorrect
    | FrameIncorrect
  {
    /** The text of the message as the user sees it, written in short
        pieces, each constant of `Calculation` that the format string fills
        in being a piece of its own. */
    function Text(): string {
      match this
      case BonusFrameShouldExistError =>
        "If " + "10" + "th frame is strike or spare, " + "then bonus frame should present"
      case CountFrameError =>
        "Count of non-bonus frames " + "should be equal to " + "10"
      case BonusFrameIncorrect =>
        "If previous frame was Spare, " + "then bonus frame should contain " + "1" + " ball. "
        + "If previous frame was Strike, " + "then bonus frame should contain " + "exactly " + "2" + " balls"
      case BallCountPinsError =>
        "Pins of each ball " + "shouldn't be less then " + "0" + " and greater then " + "10"
      case PinSumFrameError =>
        "Sum of pins for each frame " + "shouldn't be great then " + "10"
      case StrikeFrameIncorrect =>
        "Strike frame should contain " + "only one ball " + "and it pins should be " + "10"
      case SpareFrameIncorrect =>
        "Spare frame should contain " + "2" + " balls " + "and sum of its pins " + "should be equal to " + "10"
      case FrameIncorrect =>
        "Non-spare and non-strike frames " + "should contain exactly " + "2" + " balls " + "and its sum should be less then " + "10"
    }

    /** The length of `Text()`. */
    function Length(): nat {
      match this
      case BonusFrameShouldExistError => 65
      case CountFrameError => 47
      case BonusFrameIncorrect => 146
      case BallCountPinsError => 62
      case PinSumFrameError => 53
      case StrikeFrameIncorrect => 66
      case SpareFrameIncorrect => 76
      case FrameIncorrect => 97
    }
  }

  lemma TextLength(m: Message)
    ensures |m.Text()| == m.Length()
  {
  }

  /** Different messages read differently, so the text shown to the user
      tells which one was reported. */
  lemma TextInjective(a: Message, b: Message)
    requires a != b
    ensures a.Text() != b.Text()
  {
    // The eight texts differ in length.
    TextLength(a);
    TextLength(b);
  }
}
