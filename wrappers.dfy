/** Option and Result, the two failure-compatible wrappers the model uses
    for Java's `Optional` and for thrown exceptions. */
module Wrappers {
  import Validator

  datatype Option<+T> = None | Some(value: T)

  /** Why a `ParseException` was thrown: the input does not have the
      expected shape (`Parser.WRONG_FORMAT_ERROR`), a bonus ball was written
      as a spare (`Ball.SPARE_FRAME_BONUS_ERROR`), or the validator rejected
      the frames with one of its messages. */
  datatype Reason = WrongFormat | SpareInBonus | Rejected(message: Validator.Message)
  {
    /** The exception message as the user sees it. */
    function Text(): string {
      match this
      case WrongFormat =>
        "Input format is wrong. \n"
        + "It should have 10 frames separated by '|' and bonus frame(optionally, at the end of the input, separated by 2 preceeding '|'.\n"
        + "Each frame should contains up to 2 symbols, representing balls. Allowed symbols are: digits, 'X', '/', '-'.\n"
        + "Correct example is 'X|5/|22|--|33|X|X|--|4/|X||23'"
      case SpareInBonus => "Bonus ball can't be spare"
      case Rejected(m) => m.Text()
    }
  }

  /** What a Java call can end with instead of a value: a `ParseException`
      and its reason, or an index error thrown by `List.get` or by array
      indexing. */
  datatype Failure = ParseError(reason: Reason) | IndexOutOfBounds

  datatype Result<+T> = Ok(value: T) | Err(failure: Failure) {

    predicate IsFailure() {
      Err?
    }

    function PropagateFailure<U>(): Result<U>
      requires Err?
    {
      Err(failure)
    }

    function Extract(): T
      requires Ok?
    {
      value
    }
  }

  /** `x` plus the value of `r`; an error stays an error. */
  function AddTo(x: int, r: Result<int>): (s: Result<int>)
    ensures s.Ok? <==> r.Ok?
    ensures s.Ok? ==> s.value == x + r.value
  {
    if r.Err? then r else Ok(x + r.value)
  }

  lemma AddToTwice(x: int, y: int, r: Result<int>)
    ensures AddTo(x, AddTo(y, r)) == AddTo(x + y, r)
  {
  }
}
