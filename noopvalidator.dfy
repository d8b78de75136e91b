/** The validator that checks nothing (`NoOpValidator`). */
module NoOpValidator {
  import opened Wrappers
  import opened Model
  import opened Validator
  import FullValidator

  /** Accepts every frame list, the empty one and malformed ones included. */
  function Validate(frames: seq<Frame>): (r: Option<Message>)
    ensures r == None
  {
    None
  }

  /** Whatever the full validator accepts, this one accepts too. */
  lemma AcceptsWhatFullAccepts(frames: seq<Frame>)
    requires FullValidator.Validate(frames) == None
    ensures Validate(frames) == None
  {
  }

  /** The converse fails: a list of fewer than ten frames is rejected by the
      full validator with the count message, and accepted here. */
  lemma AcceptsShortLists(frames: seq<Frame>)
    requires |frames| < 10
    ensures Validate(frames) == None
    ensures FullValidator.Validate(frames) == Some(CountFrameError)
  {
    FullValidator.ShortListsFailCount(frames);
  }
}
