/** The imperative calculator (`ClassicCalculation`): a cursor over the
    rolls, ten frames, a strike advancing the cursor by one ball and every
    other frame by two. `List.get` out of range is an index error. */
module ClassicCalculation {
  import opened Wrappers
  import opened Calculation
  import opened Model
  import opened Shape

  /** The score of the next `frames` frames read from `rolls`, the roll at
      the cursor first: the reference the loop is proved against. */
  function Walk(rolls: seq<int>, frames: nat): Result<int>
    decreases frames
  {
    if frames == 0 then Ok(0)
    else if |rolls| < 1 then Err(IndexOutOfBounds)
    else if rolls[0] == MAXIMUM_BALL_VALUE then
      if |rolls| < 3 then Err(IndexOutOfBounds)
      else AddTo(MAXIMUM_BALL_VALUE + rolls[1] + rolls[2], Walk(rolls[1..], frames - 1))
    else if |rolls| < 2 then Err(IndexOutOfBounds)
    else if rolls[0] + rolls[1] == MAXIMUM_BALL_VALUE then
      if |rolls| < 3 then Err(IndexOutOfBounds)
      else AddTo(MAXIMUM_BALL_VALUE + rolls[2], Walk(rolls[2..], frames - 1))
    else AddTo(rolls[0] + rolls[1], Walk(rolls[2..], frames - 1))
  }

  // One iteration of the loop, read off the rolls from the cursor `index`
  // on: a roll the frame needs that is not there is an index error.

  lemma WalkShort(rolls: seq<int>, index: nat, n: nat)
    requires index <= |rolls| && n > 0
    requires || index == |rolls|
             || (rolls[index] == MAXIMUM_BALL_VALUE && index + 2 >= |rolls|)
             || (rolls[index] != MAXIMUM_BALL_VALUE && index + 1 >= |rolls|)
             || (rolls[index] != MAXIMUM_BALL_VALUE && index + 1 < |rolls|
                 && rolls[index] + rolls[index + 1] == MAXIMUM_BALL_VALUE && index + 2 >= |rolls|)
    ensures Walk(rolls[index..], n) == Err(IndexOutOfBounds)
  {
  }

  /** A ten at the cursor: a strike, worth ten and the next two rolls; the
      cursor moves by one. */
  lemma WalkStrike(rolls: seq<int>, index: nat, n: nat)
    requires index + 2 < |rolls| && rolls[index] == MAXIMUM_BALL_VALUE && n > 0
    ensures Walk(rolls[index..], n)
         == AddTo(MAXIMUM_BALL_VALUE + (rolls[index + 1] + rolls[index + 2]), Walk(rolls[index + 1..], n - 1))
  {
    assert rolls[index..][1..] == rolls[index + 1..];
  }

  /** Two rolls making ten: a spare, worth ten and the next roll. */
  lemma WalkSpare(rolls: seq<int>, index: nat, n: nat)
    requires index + 2 < |rolls| && rolls[index] != MAXIMUM_BALL_VALUE && n > 0
    requires rolls[index] + rolls[index + 1] == MAXIMUM_BALL_VALUE
    ensures Walk(rolls[index..], n) == AddTo(MAXIMUM_BALL_VALUE + rolls[index + 2], Walk(rolls[index + 2..], n - 1))
  {
    assert rolls[index..][2..] == rolls[index + 2..];
  }

  /** Two rolls making less or more than ten: their sum. */
  lemma WalkOpen(rolls: seq<int>, index: nat, n: nat)
    requires index + 1 < |rolls| && rolls[index] != MAXIMUM_BALL_VALUE && n > 0
    requires rolls[index] + rolls[index + 1] != MAXIMUM_BALL_VALUE
    ensures Walk(rolls[index..], n) == AddTo(rolls[index] + rolls[index + 1], Walk(rolls[index + 2..], n - 1))
  {
    assert rolls[index..][2..] == rolls[index + 2..];
  }

  /** `score`: ten iterations of `ScoreFrames` over the rolls of the game. */
  method Score(game: Game) returns (r: Result<int>)
    ensures r == Walk(game.Rolls(), COUNT_FRAMES)
  {
    r := ScoreFrames(game.Rolls(), COUNT_FRAMES);
  }

  /** The loop of `score`, for `frameCount` iterations, updating `score` and
      the cursor `index`. */
  method ScoreFrames(rolls: seq<int>, frameCount: nat) returns (r: Result<int>)
    ensures r == Walk(rolls, frameCount)
  {
    var score := 0;
    var index := 0;
    assert rolls[0..] == rolls;
    for i := 0 to frameCount
      invariant 0 <= index <= |rolls|
      invariant Walk(rolls, frameCount) == AddTo(score, Walk(rolls[index..], frameCount - i))
    {
      var n := frameCount - i;
      if index >= |rolls| {
        WalkShort(rolls, index, n);
        return Err(IndexOutOfBounds);
      }
      var frameScore, consumed;
      if rolls[index] == MAXIMUM_BALL_VALUE {
        if index + 2 >= |rolls| {
          WalkShort(rolls, index, n);
          return Err(IndexOutOfBounds);
        }
        frameScore, consumed := MAXIMUM_BALL_VALUE + (rolls[index + 1] + rolls[index + 2]), 1;
        WalkStrike(rolls, index, n);
      } else {
        if index + 1 >= |rolls| {
          WalkShort(rolls, index, n);
          return Err(IndexOutOfBounds);
        }
        if rolls[index] + rolls[index + 1] == MAXIMUM_BALL_VALUE {
          if index + 2 >= |rolls| {
            WalkShort(rolls, index, n);
            return Err(IndexOutOfBounds);
          }
          frameScore, consumed := MAXIMUM_BALL_VALUE + rolls[index + 2], 2;
          WalkSpare(rolls, index, n);
        } else {
          frameScore, consumed := rolls[index] + rolls[index + 1], 2;
          WalkOpen(rolls, index, n);
        }
      }
      AddToTwice(score, frameScore, Walk(rolls[index + consumed..], n - 1));
      score := score + frameScore;
      index := index + consumed;
    }
    return Ok(score);
  }

  /** In a regular frame the first roll is ten only for a strike, and among
      the other frames the two rolls add up to ten only for a spare. */
  lemma PinClassification(f: Frame)
    requires RegularFrame(f)
    ensures f.balls[0].pins == MAXIMUM_BALL_VALUE <==> StrikeFrame(f)
    ensures !StrikeFrame(f) ==> |f.balls| == 2
    ensures !StrikeFrame(f) ==> (f.balls[0].pins + f.balls[1].pins == MAXIMUM_BALL_VALUE <==> SpareFrame(f))
  {
  }

  /** One regular frame followed by the rolls `next`: the walk scores the
      frame as the reference does and moves on to `next`. */
  lemma WalkFrame(f: Frame, next: seq<int>, n: nat)
    requires RegularFrame(f) && n > 0
    requires StrikeFrame(f) ==> |next| >= 2
    requires SpareFrame(f) ==> |next| >= 1
    ensures Walk(PinsOf(f.balls) + next, n) == AddTo(FrameScore(f, next), Walk(next, n - 1))
  {
    var rolls := PinsOf(f.balls) + next;
    PinClassification(f);
    if StrikeFrame(f) {
      assert rolls[1..] == next;
      BonusPrefix(next);
    } else if SpareFrame(f) {
      assert rolls[2..] == next;
      BonusPrefix(next);
    } else {
      assert rolls[2..] == next;
      SumPinsPair(f.balls);
    }
  }

  /** The walk over a list of frames starting with a regular one, given
      the walk over the frames after it. */
  lemma WalkCons(frames: seq<Frame>, n: nat)
    requires |frames| >= 1 && n > 0 && RegularFrame(frames[0])
    requires StrikeFrame(frames[0]) ==> |Flatten(frames[1..])| >= 2
    requires SpareFrame(frames[0]) ==> |Flatten(frames[1..])| >= 1
    requires Walk(PinsOf(Flatten(frames[1..])), n - 1) == Ok(ScoreFrom(frames[1..], n - 1))
    ensures Walk(PinsOf(Flatten(frames)), n) == Ok(ScoreFrom(frames, n))
  {
    PinsOfAppend(frames[0].balls, Flatten(frames[1..]));
    WalkFrame(frames[0], PinsOf(Flatten(frames[1..])), n);
  }

  /** At frame `j` of a legal game the cursor stands at the first roll of
      frame `j`, and the walk from there scores the remaining frames as the
      reference does, reading no roll out of range. */
  lemma {:induction false} WalkFrom(frames: seq<Frame>, j: nat)
    requires WellFormed(frames)
    requires j <= COUNT_FRAMES
    ensures Walk(PinsOf(Flatten(frames[j..])), COUNT_FRAMES - j) == Ok(ScoreFrom(frames[j..], COUNT_FRAMES - j))
    decreases COUNT_FRAMES - j
  {
    if j < COUNT_FRAMES {
      WalkFrom(frames, j + 1);
      assert frames[j..][1..] == frames[j + 1..];
      Lookahead(frames, j);
      WalkCons(frames[j..], COUNT_FRAMES - j);
    }
  }

  /** On a legal game the loop reads only rolls that exist and returns the
      standard score, which is at most 300. */
  lemma ScoresLegalGames(game: Game)
    requires WellFormed(game.frames)
    ensures Walk(game.Rolls(), COUNT_FRAMES) == Ok(Reference(game.frames))
    ensures 0 <= Reference(game.frames) <= 300
  {
    WalkFrom(game.frames, 0);
    assert game.frames[0..] == game.frames;
    ReferenceBounds(game.frames);
  }

  /** A regular frame whose successors leave the walk short of rolls
      leaves it short as well. */
  lemma WalkPastEnd(f: Frame, next: seq<int>, n: nat)
    requires RegularFrame(f) && n > 0
    requires Walk(next, n - 1) == Err(IndexOutOfBounds)
    ensures Walk(PinsOf(f.balls) + next, n) == Err(IndexOutOfBounds)
  {
    var rolls := PinsOf(f.balls) + next;
    PinClassification(f);
    if StrikeFrame(f) {
      assert rolls[1..] == next;
    } else {
      assert rolls[2..] == next;
    }
  }

  /** Fewer regular frames than the loop has iterations: the loop runs out
      of rolls and fails with an index error, whatever the frames hold. */
  lemma {:induction false} ShortGamesFail(frames: seq<Frame>, n: nat)
    requires forall i :: 0 <= i < |frames| ==> RegularFrame(frames[i])
    requires |frames| < n
    ensures Walk(PinsOf(Flatten(frames)), n) == Err(IndexOutOfBounds)
  {
    if frames == [] {
      assert PinsOf(Flatten(frames)) == [];
    } else {
      ShortGamesFail(frames[1..], n - 1);
      PinsOfAppend(frames[0].balls, Flatten(frames[1..]));
      WalkPastEnd(frames[0], PinsOf(Flatten(frames[1..])), n);
    }
  }

  /** The cursor at frame `j` is the number of balls in the frames before
      `j`: the rolls from there on are the rolls of frames `j` onwards. */
  lemma CursorAtFrame(frames: seq<Frame>, j: nat)
    requires j <= |frames|
    ensures |Flatten(frames[..j])| <= |Game(frames).Rolls()|
    ensures Game(frames).Rolls()[|Flatten(frames[..j])|..] == PinsOf(Flatten(frames[j..]))
  {
    assert frames == frames[..j] + frames[j..];
    FlattenAppend(frames[..j], frames[j..]);
    PinsOfAppend(Flatten(frames[..j]), Flatten(frames[j..]));
  }
}
