/** String and random-number helpers of the SSiPP utilities
  (`splitString`, `trim_string`, `rand0toN_l`, `randInIntervalInclusive_l`).

  The pseudo-random draw of `lrand48` is passed in as a parameter.
*/
module Utils {
  import opened Wrappers

  // ---------------------------------------------------------------------
  // splitString
  // ---------------------------------------------------------------------

  /** The pieces of a non-empty `s` between occurrences of `d`: as many as
      there are delimiters, plus one. */
  function Pieces(s: string, d: char): seq<string>
    decreases |s|
  {
    if d !in s then [s]
    else
      var i := FirstAt(s, d, 0);
      [s[..i]] + Pieces(s[i + 1..], d)
  }

  /** `s.find(d, from)`: the first position at or after `from` holding `d`,
      and `|s|` (npos) when there is none. */
  function FirstAt(s: string, d: char, from: nat): (i: nat)
    requires from <= |s|
    ensures from <= i <= |s|
    ensures forall k :: from <= k < i ==> s[k] != d
    ensures i < |s| ==> s[i] == d
    decreases |s| - from
  {
    if from == |s| then from else if s[from] == d then from else FirstAt(s, d, from + 1)
  }

  /** The result of `splitString(s, delims)`: the process stops unless the
      delimiter is a single character; an empty string has no pieces. */
  function Split(s: string, delims: string): Result<seq<string>> {
    if |delims| != 1 then Err(Die)
    else if |s| == 0 then Ok([])
    else Ok(Pieces(s, delims[0]))
  }

  /** The pieces joined back with the delimiter between them. */
  function Join(pieces: seq<string>, d: char): string
    decreases |pieces|
  {
    if |pieces| == 0 then ""
    else if |pieces| == 1 then pieces[0]
    else pieces[0] + [d] + Join(pieces[1..], d)
  }

  /** How many times `d` occurs in `s`. */
  function Occurrences(s: string, d: char): nat
    decreases |s|
  {
    if |s| == 0 then 0 else (if s[0] == d then 1 else 0) + Occurrences(s[1..], d)
  }

  lemma FirstAtIsFirst(s: string, d: char)
    requires d in s
    ensures FirstAt(s, d, 0) < |s|
  {
    var j :| 0 <= j < |s| && s[j] == d;
    assert FirstAt(s, d, 0) <= j;
  }

  /** The occurrences of `d` in a prefix free of it and the delimiter
      right after it. */
  lemma {:induction false} OccurrencesSplit(s: string, d: char, i: nat)
    requires i < |s| && s[i] == d
    requires forall k :: 0 <= k < i ==> s[k] != d
    ensures Occurrences(s, d) == 1 + Occurrences(s[i + 1..], d)
    decreases i
  {
    if i > 0 {
      OccurrencesSplit(s[1..], d, i - 1);
      assert s[1..][i..] == s[i + 1..];
    }
  }

  lemma {:induction false} NoOccurrences(s: string, d: char)
    requires d !in s
    ensures Occurrences(s, d) == 0
    decreases |s|
  {
    if |s| > 0 {
      NoOccurrences(s[1..], d);
    }
  }

  /** The pieces of a non-empty string: one more than the delimiters, none
      holding the delimiter, and joining them gives the string back. */
  lemma {:induction false} PiecesProperties(s: string, d: char)
    ensures |Pieces(s, d)| == Occurrences(s, d) + 1
    ensures forall k :: 0 <= k < |Pieces(s, d)| ==> d !in Pieces(s, d)[k]
    ensures Join(Pieces(s, d), d) == s
    decreases |s|
  {
    if d !in s {
      NoOccurrences(s, d);
    } else {
      FirstAtIsFirst(s, d);
      var i := FirstAt(s, d, 0);
      var rest := s[i + 1..];
      PiecesProperties(rest, d);
      OccurrencesSplit(s, d, i);
      assert d !in s[..i];
      assert Pieces(s, d) == [s[..i]] + Pieces(rest, d);
      assert s == s[..i] + [d] + rest;
    }
  }

  /** Splitting a join of delimiter-free pieces gives the pieces back. */
  lemma {:induction false} JoinPieces(ps: seq<string>, d: char)
    requires |ps| > 0
    requires forall k :: 0 <= k < |ps| ==> d !in ps[k]
    ensures Pieces(Join(ps, d), d) == ps
    decreases |ps|
  {
    if |ps| > 1 {
      var rest := Join(ps[1..], d);
      var s := ps[0] + [d] + rest;
      assert Join(ps, d) == s;
      AroundDelimiter(ps[0], d, rest);
      FirstAtIs(s, d, |ps[0]|);
      PiecesUnfold(s, d, |ps[0]|);
      JoinPieces(ps[1..], d);
      assert ps == [ps[0]] + ps[1..];
    }
  }

  /** The parts of `p + [d] + rest` when `p` is free of `d`. */
  lemma AroundDelimiter(p: string, d: char, rest: string)
    requires d !in p
    ensures var s := p + [d] + rest;
      s[..|p|] == p && s[|p|] == d && s[|p| + 1..] == rest &&
      forall k :: 0 <= k < |p| ==> s[k] != d
  {
    var s := p + [d] + rest;
    assert forall k :: 0 <= k < |p| ==> s[k] == p[k];
  }

  /** FirstAt is the first delimiter. */
  lemma FirstAtIs(s: string, d: char, i: nat)
    requires i < |s| && s[i] == d
    requires forall k :: 0 <= k < i ==> s[k] != d
    ensures FirstAt(s, d, 0) == i
  {
  }

  /** Joining one more piece appends the delimiter and the piece. */
  lemma {:induction false} JoinSnoc(ps: seq<string>, p: string, d: char)
    requires |ps| > 0
    ensures Join(ps + [p], d) == Join(ps, d) + [d] + p
    decreases |ps|
  {
    if |ps| > 1 {
      JoinSnoc(ps[1..], p, d);
      assert (ps + [p])[1..] == ps[1..] + [p];
    }
  }

  /** `splitString` as the source computes it: the loop pushes the piece
      before each delimiter found by `find`, then the tail. */
  method SplitString(s: string, delims: string) returns (r: Result<seq<string>>)
    ensures r == Split(s, delims)
  {
    if |delims| != 1 {
      return Err(Die);
    }
    if |s| == 0 {
      return Ok([]);
    }
    var d := delims[0];
    var pieces: seq<string> := [];
    var begin := 0;
    var pos := FirstAt(s, d, 0);
    while pos < |s|
      invariant begin <= pos <= |s|
      invariant pos == FirstAt(s, d, begin)
      invariant PiecesBefore(s, d, begin, pieces)
      decreases |s| - begin
    {
      PiecesStep(s, d, begin, pos, pieces);
      pieces := pieces + [s[begin..pos]];
      begin := pos + 1;
      pos := FirstAt(s, d, pos + 1);
    }
    PiecesLast(s, d, begin);
    pieces := pieces + [s[begin..]];
    return Ok(pieces);
  }

  /** The loop's invariant: the pieces pushed so far, followed by the
      pieces of the rest from `begin`, are the pieces of `s`. */
  ghost predicate PiecesBefore(s: string, d: char, begin: nat, pieces: seq<string>)
    requires begin <= |s|
  {
    pieces + Pieces(s[begin..], d) == Pieces(s, d)
  }

  /** One round of the loop: the piece up to the next delimiter. */
  lemma PiecesStep(s: string, d: char, begin: nat, pos: nat, pieces: seq<string>)
    requires begin <= |s| && pos == FirstAt(s, d, begin) && pos < |s|
    requires PiecesBefore(s, d, begin, pieces)
    ensures PiecesBefore(s, d, pos + 1, pieces + [s[begin..pos]])
  {
    var t, i := s[begin..], pos - begin;
    assert i == FirstAt(t, d, 0) by {
      FirstAtShift(s, d, begin);
    }
    assert t[i] == d && t[..i] == s[begin..pos] && t[i + 1..] == s[pos + 1..] by {
      SliceOfSuffix(s, begin, pos);
    }
    PiecesUnfold(t, d, i);
    assert (pieces + [s[begin..pos]]) + Pieces(s[pos + 1..], d) == pieces + Pieces(t, d);
  }

  /** The slices of a suffix are slices of the string. */
  lemma SliceOfSuffix(s: string, begin: nat, pos: nat)
    requires begin <= pos < |s|
    ensures s[begin..][..pos - begin] == s[begin..pos]
    ensures s[begin..][pos - begin + 1..] == s[pos + 1..]
    ensures s[begin..][pos - begin] == s[pos]
  {
  }

  /** The first piece of a string whose first delimiter is at `i`. */
  lemma PiecesUnfold(t: string, d: char, i: nat)
    requires i < |t| && i == FirstAt(t, d, 0) && t[i] == d
    ensures Pieces(t, d) == [t[..i]] + Pieces(t[i + 1..], d)
  {
  }

  /** The loop ends on the tail when no delimiter is left. */
  lemma PiecesLast(s: string, d: char, begin: nat)
    requires begin <= |s| && FirstAt(s, d, begin) == |s|
    ensures Pieces(s[begin..], d) == [s[begin..]]
  {
    assert forall k :: 0 <= k < |s| - begin ==> s[begin..][k] == s[begin + k];
    assert d !in s[begin..];
  }

  /** Searching from `begin` is searching the suffix from 0. */
  lemma FirstAtShift(s: string, d: char, begin: nat)
    requires begin <= |s|
    ensures FirstAt(s[begin..], d, 0) == FirstAt(s, d, begin) - begin
  {
    var t := s[begin..];
    var i := FirstAt(s, d, begin);
    var j := FirstAt(t, d, 0);
    assert forall k :: 0 <= k < |t| ==> t[k] == s[begin + k];
  }

  // ---------------------------------------------------------------------
  // trim_string
  // ---------------------------------------------------------------------

  /** The characters `trim_string` removes. */
  predicate IsBlank(c: char) {
    c == ' ' || c == '\t' || c == '\n'
  }

  predicate AllBlank(s: string) {
    forall i :: 0 <= i < |s| ==> IsBlank(s[i])
  }

  /** `trim_string`: when the string holds a non-blank character, the
      blanks on both ends are cut; otherwise it is left as it is. */
  function Trimmed(s: string): string {
    if AllBlank(s) then s
    else
      var e := LastNonBlank(s);
      var b := FirstNonBlank(s[..e + 1]);
      s[..e + 1][b..]
  }

  function LastNonBlank(s: string): (e: nat)
    requires !AllBlank(s)
    ensures e < |s| && !IsBlank(s[e])
    ensures forall k :: e < k < |s| ==> IsBlank(s[k])
  {
    if !IsBlank(s[|s| - 1]) then |s| - 1
    else
      assert !AllBlank(s[..|s| - 1]) by {
        var k :| 0 <= k < |s| && !IsBlank(s[k]);
        assert s[..|s| - 1][k] == s[k];
      }
      LastNonBlank(s[..|s| - 1])
  }

  function FirstNonBlank(s: string): (b: nat)
    requires !AllBlank(s)
    ensures b < |s| && !IsBlank(s[b])
    ensures forall k :: 0 <= k < b ==> IsBlank(s[k])
  {
    if !IsBlank(s[0]) then 0
    else
      assert !AllBlank(s[1..]) by {
        var k :| 0 <= k < |s| && !IsBlank(s[k]);
        assert s[1..][k - 1] == s[k];
      }
      1 + FirstNonBlank(s[1..])
  }

  /** A trimmed string with something left starts and ends with a
      non-blank character and lies inside the original. */
  lemma TrimmedEnds(s: string)
    requires !AllBlank(s)
    ensures |Trimmed(s)| > 0
    ensures !IsBlank(Trimmed(s)[0]) && !IsBlank(Trimmed(s)[|Trimmed(s)| - 1])
    ensures |Trimmed(s)| <= |s|
  {
  }

  /** Trimming twice is trimming once. */
  lemma TrimIdempotent(s: string)
    ensures Trimmed(Trimmed(s)) == Trimmed(s)
  {
    if !AllBlank(s) {
      TrimmedEnds(s);
      var t := Trimmed(s);
      assert !AllBlank(t);
      var e := LastNonBlank(t);
      assert e == |t| - 1;
      assert t[..e + 1] == t;
      assert FirstNonBlank(t) == 0;
    }
  }

  /** `trim_string` as the source computes it: `find_last_not_of` and
      `find_first_not_of` as scans, each cut applied only when a non-blank
      character was found. */
  method TrimString(str: string) returns (r: string)
    ensures r == Trimmed(str)
  {
    r := str;
    var endpos := |r|;
    while endpos > 0 && IsBlank(r[endpos - 1])
      invariant 0 <= endpos <= |r|
      invariant forall k :: endpos <= k < |r| ==> IsBlank(r[k])
    {
      endpos := endpos - 1;
    }
    if endpos > 0 {
      assert !AllBlank(r);
      assert LastNonBlank(r) == endpos - 1;
      r := r[..endpos];
    } else {
      assert AllBlank(r);
      return r;
    }
    var startpos := 0;
    while startpos < |r| && IsBlank(r[startpos])
      invariant 0 <= startpos <= |r|
      invariant forall k :: 0 <= k < startpos ==> IsBlank(r[k])
    {
      startpos := startpos + 1;
    }
    assert startpos < |r| by {
      assert !IsBlank(r[|r| - 1]);
    }
    assert FirstNonBlank(r) == startpos;
    r := r[startpos..];
  }

  // ---------------------------------------------------------------------
  // Random helpers (the draw of `lrand48` is a parameter)
  // ---------------------------------------------------------------------

  /** `size_t` arithmetic wraps modulo 2^64. */
  const SizeMod: int := 0x1_0000_0000_0000_0000

  predicate InSizeT(x: int) { 0 <= x < SizeMod }

  /** `rand0toN_l(n)`: the draw reduced modulo `n`. */
  function Rand0ToN(n: int, draw: int): (r: int)
    requires InSizeT(n) && n > 0 && draw >= 0
    ensures 0 <= r < n
  {
    draw % n
  }

  /** `randInIntervalInclusive_l(min, max)`: the draw reduced modulo the
      width `max - min + 1` and shifted by `min`, all in `size_t`
      arithmetic.  A width that wraps to 0 is a division by zero. */
  function RandInInterval(min: int, max: int, draw: int): Result<int>
    requires InSizeT(min) && InSizeT(max) && draw >= 0
  {
    var width := (max - min + 1) % SizeMod;
    if width == 0 then Err(DomainError)
    else Ok((draw % width + min) % SizeMod)
  }

  /** For `min <= max` the draw lands inside the interval, unless the
      interval is the whole of `size_t`, whose width wraps to 0. */
  lemma RandInIntervalBounds(min: int, max: int, draw: int)
    requires InSizeT(min) && InSizeT(max) && draw >= 0 && min <= max
    ensures RandInInterval(min, max, draw).Err? <==> min == 0 && max == SizeMod - 1
    ensures RandInInterval(min, max, draw).Ok? ==>
      min <= RandInInterval(min, max, draw).value <= max
  {
  }

  /** Every point of the interval is drawn by some draw. */
  lemma RandInIntervalReaches(min: int, max: int, x: int)
    requires InSizeT(min) && InSizeT(max) && min <= x <= max && max - min + 1 < SizeMod
    ensures RandInInterval(min, max, x - min) == Ok(x)
  {
    var width := max - min + 1;
    assert width % SizeMod == width;
    assert (x - min) % width == x - min;
    assert x % SizeMod == x;
  }
}
