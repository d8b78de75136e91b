/** The part of Java's `String.split(regex)` the parser relies on, for a
    literal delimiter: the input is cut at the leftmost non-overlapping
    occurrences of the delimiter, a leading empty piece is kept, trailing
    empty pieces are dropped, and an input without the delimiter comes back
    as the only piece. */
module JavaSplit {

  /** `d` occurs in `s` starting at index `p`. */
  predicate OccursAt(s: string, d: string, p: int) {
    0 <= p && p + |d| <= |s| && s[p..p + |d|] == d
  }

  /** `String.contains`. */
  predicate Contains(s: string, d: string) {
    exists p | 0 <= p <= |s| - |d| :: OccursAt(s, d, p)
  }

  predicate EndsWith(s: string, d: string) {
    |d| <= |s| && s[|s| - |d|..] == d
  }

  /** The pieces of `cur + s` when `cur` is the piece being built and `s`
      the text not scanned yet. */
  function Pieces(s: string, d: string, cur: string): (r: seq<string>)
    requires |d| > 0
    ensures |r| >= 1
    decreases |s|
  {
    if |s| < |d| then [cur + s]
    else if s[..|d|] == d then [cur] + Pieces(s[|d|..], d, [])
    else Pieces(s[1..], d, cur + [s[0]])
  }

  /** Every piece, the empty ones included. */
  function RawSplit(s: string, d: string): seq<string>
    requires |d| > 0
  {
    Pieces(s, d, [])
  }

  /** Drops the empty pieces at the end of the list. */
  function DropTrailingEmpty(xs: seq<string>): (r: seq<string>)
    ensures |r| <= |xs| && r == xs[..|r|]
    ensures forall i :: |r| <= i < |xs| ==> xs[i] == []
    ensures r == [] || r[|r| - 1] != []
  {
    if xs != [] && xs[|xs| - 1] == [] then DropTrailingEmpty(xs[..|xs| - 1]) else xs
  }

  /** `s.split(d)` with a literal delimiter `d`. */
  function Split(s: string, d: string): seq<string>
    requires |d| > 0
  {
    if !Contains(s, d) then [s] else DropTrailingEmpty(RawSplit(s, d))
  }

  /** The inverse of splitting: the pieces with `d` between them. */
  function Join(xs: seq<string>, d: string): string {
    if xs == [] then []
    else if |xs| == 1 then xs[0]
    else xs[0] + d + Join(xs[1..], d)
  }

  lemma {:induction false} JoinSnoc(xs: seq<string>, x: string, d: string)
    requires xs != []
    ensures Join(xs + [x], d) == Join(xs, d) + d + x
  {
    if |xs| == 1 {
      assert (xs + [x])[1..] == [x];
    } else {
      assert (xs + [x])[1..] == xs[1..] + [x];
      JoinSnoc(xs[1..], x, d);
    }
  }

  lemma JoinEndsWith(xs: seq<string>, d: string)
    requires |xs| >= 2
    ensures xs[|xs| - 1] == [] ==> EndsWith(Join(xs, d), d)
  {
    var init := xs[..|xs| - 1];
    assert xs == init + [xs[|xs| - 1]];
    JoinSnoc(init, xs[|xs| - 1], d);
  }

  /** Joining the pieces back with the delimiter gives the text again. */
  lemma {:induction false} JoinPieces(s: string, d: string, cur: string)
    requires |d| > 0
    ensures Join(Pieces(s, d, cur), d) == cur + s
    decreases |s|
  {
    if |s| < |d| {
    } else if s[..|d|] == d {
      var rest := Pieces(s[|d|..], d, []);
      JoinPieces(s[|d|..], d, []);
      assert ([cur] + rest)[1..] == rest;
      assert s == d + s[|d|..];
    } else {
      JoinPieces(s[1..], d, cur + [s[0]]);
      assert cur + [s[0]] + s[1..] == cur + s;
    }
  }

  lemma JoinRawSplit(s: string, d: string)
    requires |d| > 0
    ensures Join(RawSplit(s, d), d) == s
  {
    JoinPieces(s, d, []);
  }

  lemma OccursInPrefix(a: string, b: string, d: string, p: int)
    requires OccursAt(a, d, p)
    ensures OccursAt(a + b, d, p)
  {
    assert (a + b)[p..p + |d|] == a[p..p + |d|];
  }

  /** No piece contains the delimiter, provided none of its occurrences in
      the text starts inside the piece being built. */
  lemma {:induction false} PiecesAvoid(s: string, d: string, cur: string)
    requires |d| > 0
    requires forall q :: 0 <= q < |cur| ==> !OccursAt(cur + s, d, q)
    ensures forall i :: 0 <= i < |Pieces(s, d, cur)| ==> !Contains(Pieces(s, d, cur)[i], d)
    decreases |s|
  {
    if |s| < |d| {
      assert forall p :: 0 <= p <= |cur + s| - |d| ==> !OccursAt(cur + s, d, p);
    } else if s[..|d|] == d {
      if Contains(cur, d) {
        var p :| 0 <= p <= |cur| - |d| && OccursAt(cur, d, p);
        OccursInPrefix(cur, s, d, p);
        assert false;
      }
      PiecesAvoid(s[|d|..], d, []);
      var rest := Pieces(s[|d|..], d, []);
      assert forall i :: 1 <= i < |[cur] + rest| ==> ([cur] + rest)[i] == rest[i - 1];
    } else {
      var cur' := cur + [s[0]];
      assert cur' + s[1..] == cur + s;
      assert !OccursAt(cur + s, d, |cur|) by {
        assert (cur + s)[|cur|..|cur| + |d|] == s[..|d|];
      }
      PiecesAvoid(s[1..], d, cur');
    }
  }

  lemma RawSplitAvoids(s: string, d: string)
    requires |d| > 0
    ensures forall i :: 0 <= i < |RawSplit(s, d)| ==> !Contains(RawSplit(s, d)[i], d)
  {
    PiecesAvoid(s, d, []);
  }

  /** Text without the delimiter is a single piece. */
  lemma {:induction false} PiecesNoDelimiter(s: string, d: string, cur: string)
    requires |d| > 0
    requires !Contains(s, d)
    ensures Pieces(s, d, cur) == [cur + s]
    decreases |s|
  {
    if |s| < |d| {
    } else {
      assert OccursAt(s, d, 0) <==> s[..|d|] == d;
      if !Contains(s[1..], d) {
        PiecesNoDelimiter(s[1..], d, cur + [s[0]]);
        assert cur + [s[0]] + s[1..] == cur + s;
      } else {
        var p :| 0 <= p <= |s[1..]| - |d| && OccursAt(s[1..], d, p);
        assert s[1..][p..p + |d|] == s[p + 1..p + 1 + |d|];
        assert OccursAt(s, d, p + 1);
        assert false;
      }
    }
  }

  /** Dropping the first character shifts every occurrence by one. */
  lemma OccursShift(s: string, d: string, q: nat)
    requires |s| >= 1
    ensures OccursAt(s[1..], d, q) <==> OccursAt(s, d, q + 1)
  {
    if q + |d| <= |s| - 1 {
      assert s[1..][q..q + |d|] == s[q + 1..q + 1 + |d|];
    }
  }

  /** The first piece is the text before the leftmost occurrence, and the
      scan goes on right after that occurrence. */
  lemma {:induction false} PiecesLeftmost(s: string, d: string, cur: string, p: nat)
    requires |d| > 0
    requires OccursAt(s, d, p)
    requires forall q :: 0 <= q < p ==> !OccursAt(s, d, q)
    ensures Pieces(s, d, cur) == [cur + s[..p]] + Pieces(s[p + |d|..], d, [])
    decreases p
  {
    if p == 0 {
      assert s[..|d|] == d;
      assert cur + s[..p] == cur;
    } else {
      assert !OccursAt(s, d, 0);
      var t := s[1..];
      var cur' := cur + [s[0]];
      assert Pieces(s, d, cur) == Pieces(t, d, cur');
      forall q | 0 <= q < p - 1
        ensures !OccursAt(t, d, q)
      {
        OccursShift(s, d, q);
      }
      OccursShift(s, d, p - 1);
      PiecesLeftmost(t, d, cur', p - 1);
      assert cur' + t[..p - 1] == cur + s[..p];
      assert t[p - 1 + |d|..] == s[p + |d|..];
    }
  }

  /** Text that does not end with the delimiter splits into pieces that
      join back to it, none of which contains the delimiter. */
  lemma SplitRoundTrip(s: string, d: string)
    requires |d| > 0
    requires !EndsWith(s, d)
    ensures Join(Split(s, d), d) == s
    ensures forall i :: 0 <= i < |Split(s, d)| ==> !Contains(Split(s, d)[i], d)
  {
    if Contains(s, d) {
      var raw := RawSplit(s, d);
      JoinRawSplit(s, d);
      RawSplitAvoids(s, d);
      assert |raw| >= 2;
      JoinEndsWith(raw, d);
      assert DropTrailingEmpty(raw) == raw;
    }
  }

  /** Joining pieces without the delimiter: scanning the text cuts it back
      into the same pieces. */
  lemma {:induction false} PiecesOfJoin(xs: seq<string>, d: string, cur: string)
    requires |d| == 1 && xs != []
    requires forall i :: 0 <= i < |xs| ==> !Contains(xs[i], d)
    ensures Pieces(Join(xs, d), d, cur) == [cur + xs[0]] + xs[1..]
  {
    if |xs| == 1 {
      PiecesNoDelimiter(xs[0], d, cur);
    } else {
      var s := Join(xs, d);
      var x := xs[0];
      assert s == x + d + Join(xs[1..], d);
      assert s[|x|..|x| + 1] == d;
      forall q | 0 <= q < |x|
        ensures !OccursAt(s, d, q)
      {
        assert s[q..q + 1] == x[q..q + 1];
        assert !OccursAt(x, d, q);
      }
      PiecesLeftmost(s, d, cur, |x|);
      assert s[..|x|] == x;
      assert s[|x| + 1..] == Join(xs[1..], d);
      var e: string := [];
      PiecesOfJoin(xs[1..], d, e);
      assert e + xs[1..][0] == xs[1];
      assert [xs[1]] + xs[1..][1..] == xs[1..];
    }
  }

  /** The other round trip, for a one-character delimiter: pieces without
      the delimiter, the last one not empty, come back from splitting
      their join. */
  lemma SplitJoin(xs: seq<string>, d: string)
    requires |d| == 1 && xs != []
    requires forall i :: 0 <= i < |xs| ==> !Contains(xs[i], d)
    requires xs[|xs| - 1] != []
    ensures Split(Join(xs, d), d) == xs
  {
    var s := Join(xs, d);
    var e: string := [];
    PiecesOfJoin(xs, d, e);
    assert e + xs[0] == xs[0];
    assert [xs[0]] + xs[1..] == xs;
    assert RawSplit(s, d) == xs;
    assert DropTrailingEmpty(xs) == xs;
    if |xs| > 1 {
      assert s == xs[0] + d + Join(xs[1..], d);
      assert s[|xs[0]|..|xs[0]| + 1] == d;
      assert OccursAt(s, d, |xs[0]|);
    }
  }
}
