/** Splitting a string at every occurrence of one separator character, as
    Rust's `str::split` does when given a `char`, and its inverse, joining
    pieces with that separator. */
module Tokens {

  /** The number of occurrences of `c` in `s`. */
  function Count(s: string, c: char): nat
  {
    if s == [] then 0 else (if s[0] == c then 1 else 0) + Count(s[1..], c)
  }

  /** The pieces of `s` between occurrences of `sep`. Like `str::split`, it
      yields one piece more than there are separators, so an empty string
      gives one empty piece and adjacent separators give empty pieces. */
  function Split(s: string, sep: char): (pieces: seq<string>)
    ensures |pieces| == Count(s, sep) + 1
    ensures forall i :: 0 <= i < |pieces| ==> sep !in pieces[i]
  {
    if s == [] then [""]
    else
      var rest := Split(s[1..], sep);
      if s[0] == sep then [""] + rest
      else [[s[0]] + rest[0]] + rest[1..]
  }

  /** The pieces written out with `sep` between neighbours. */
  function Join(pieces: seq<string>, sep: char): string
    requires |pieces| >= 1
  {
    if |pieces| == 1 then pieces[0] else pieces[0] + ([sep] + Join(pieces[1..], sep))
  }

  /** Joining the pieces gives back the split string. */
  lemma {:induction false} JoinSplit(s: string, sep: char)
    ensures Join(Split(s, sep), sep) == s
  {
    if s != [] {
      var rest := Split(s[1..], sep);
      JoinSplit(s[1..], sep);
      if s[0] != sep {
        JoinCons(s[0], rest, sep);
      }
    }
  }

  /** Putting a character in front of the first piece puts it in front of the joined text. */
  lemma {:induction false} JoinCons(c: char, pieces: seq<string>, sep: char)
    requires |pieces| >= 1
    ensures Join([[c] + pieces[0]] + pieces[1..], sep) == [c] + Join(pieces, sep)
  {
    var moved := [[c] + pieces[0]] + pieces[1..];
    if |pieces| > 1 {
      assert moved[1..] == pieces[1..];
    }
  }

  /** A separator splits the text into the pieces before it and the pieces after it. */
  lemma {:induction false} SplitConcat(a: string, b: string, sep: char)
    ensures Split(a + ([sep] + b), sep) == Split(a, sep) + Split(b, sep)
  {
    if a == [] {
      assert a + ([sep] + b) == [sep] + b;
      assert ([sep] + b)[1..] == b;
    } else {
      var s := a + ([sep] + b);
      assert s[0] == a[0];
      assert s[1..] == a[1..] + ([sep] + b);
      SplitConcat(a[1..], b, sep);
    }
  }

  /** A text without the separator is a single piece. */
  lemma {:induction false} SplitWithoutSeparator(s: string, sep: char)
    requires sep !in s
    ensures Split(s, sep) == [s]
  {
    if s != [] {
      assert sep !in s[1..];
      SplitWithoutSeparator(s[1..], sep);
      assert [s[0]] + s[1..] == s;
    }
  }

  /** A leading piece without the separator, then the separator, splits off as one piece. */
  lemma SplitCons(piece: string, rest: string, sep: char)
    requires sep !in piece
    ensures Split(piece + ([sep] + rest), sep) == [piece] + Split(rest, sep)
  {
    SplitConcat(piece, rest, sep);
    SplitWithoutSeparator(piece, sep);
  }

  /** Splitting undoes joining, as long as no piece contains the separator. */
  lemma {:induction false} SplitJoin(pieces: seq<string>, sep: char)
    requires |pieces| >= 1
    requires forall i :: 0 <= i < |pieces| ==> sep !in pieces[i]
    ensures Split(Join(pieces, sep), sep) == pieces
  {
    if |pieces| == 1 {
      SplitWithoutSeparator(pieces[0], sep);
    } else {
      SplitJoin(pieces[1..], sep);
      SplitConcat(pieces[0], Join(pieces[1..], sep), sep);
      SplitWithoutSeparator(pieces[0], sep);
    }
  }

  /** Where piece `i` starts in the joined text. */
  function PieceOffset(pieces: seq<string>, i: nat): nat
    requires i < |pieces|
  {
    if i == 0 then 0 else |pieces[0]| + 1 + PieceOffset(pieces[1..], i - 1)
  }

  /** Every piece is a contiguous slice of the joined text, found at its offset. */
  lemma {:induction false} PieceIsSlice(pieces: seq<string>, i: nat, sep: char)
    requires i < |pieces|
    ensures PieceOffset(pieces, i) + |pieces[i]| <= |Join(pieces, sep)|
    ensures Join(pieces, sep)[PieceOffset(pieces, i)..PieceOffset(pieces, i) + |pieces[i]|] == pieces[i]
  {
    if i > 0 {
      PieceIsSlice(pieces[1..], i - 1, sep);
      var head := pieces[0] + [sep];
      var tail := Join(pieces[1..], sep);
      var k := PieceOffset(pieces[1..], i - 1);
      assert Join(pieces, sep) == head + tail;
      assert (head + tail)[|head| + k..|head| + k + |pieces[i]|] == tail[k..k + |pieces[i]|];
    }
  }

  /** Each piece of a split string is a contiguous slice of that string,
      starting at the piece's offset. */
  lemma SplitPieceIsSlice(s: string, sep: char, i: nat)
    requires i < |Split(s, sep)|
    ensures var k := PieceOffset(Split(s, sep), i);
      k + |Split(s, sep)[i]| <= |s| && s[k..k + |Split(s, sep)[i]|] == Split(s, sep)[i]
  {
    JoinSplit(s, sep);
    PieceIsSlice(Split(s, sep), i, sep);
  }
}
