/**
 * How `fgets` cuts a text into the pieces minIni.c works on.  With a 512-byte buffer a piece has at
 * most 511 characters; it ends after a newline, when the buffer is full, or at the end of the file.
 */
module Chunks {
  const INI_BUFFERSIZE: nat := 512
  const MAX_PIECE: nat := INI_BUFFERSIZE - 1

  /** How many characters `fgets` takes from `s` when it may take at most `limit`. */
  function LineLen(s: string, limit: nat): (n: nat)
    ensures n <= limit && n <= |s|
    ensures s != [] && limit > 0 ==> n > 0
    ensures forall i :: 0 <= i < n - 1 ==> s[i] != '\n'
    ensures n < limit && n < |s| ==> n > 0 && s[n - 1] == '\n'
  {
    if s == [] || limit == 0 then 0
    else if s[0] == '\n' then 1
    else 1 + LineLen(s[1..], limit - 1)
  }

  function Flat(cs: seq<string>): string { if cs == [] then [] else cs[0] + Flat(cs[1..]) }

  /** The pieces successive `fgets` calls return. */
  function Pieces(s: string): (cs: seq<string>)
    ensures Flat(cs) == s
  {
    if s == [] then [] else
      var n := LineLen(s, MAX_PIECE);
      assert s == s[..n] + s[n..];
      [s[..n]] + Pieces(s[n..])
  }

  predicate Piece(c: string) { 0 < |c| <= MAX_PIECE && forall i :: 0 <= i < |c| - 1 ==> c[i] != '\n' }

  predicate EndsLine(c: string) { c != [] && c[|c| - 1] == '\n' }

  /** A piece after which `fgets` stops whatever follows it. */
  predicate Complete(c: string) { Piece(c) && (EndsLine(c) || |c| == MAX_PIECE) }

  predicate WellCut(cs: seq<string>) {
    forall i :: 0 <= i < |cs| ==> Piece(cs[i]) && (i < |cs| - 1 ==> Complete(cs[i]))
  }

  lemma {:induction false} FlatAppend(a: seq<string>, b: seq<string>)
    ensures Flat(a + b) == Flat(a) + Flat(b)
  {
    if a == [] {
      assert a + b == b;
    } else {
      FlatAppend(a[1..], b);
      assert (a + b)[1..] == a[1..] + b;
      assert (a + b)[0] == a[0];
    }
  }

  lemma {:induction false} PiecesAreWellCut(s: string)
    ensures WellCut(Pieces(s))
  {
    if s == [] {
    } else {
      var n := LineLen(s, MAX_PIECE);
      PiecesAreWellCut(s[n..]);
      var c, rest := s[..n], Pieces(s[n..]);
      assert Piece(c) && (rest != [] ==> Complete(c));
      forall i | 0 <= i < |Pieces(s)|
        ensures Piece(Pieces(s)[i]) && (i < |Pieces(s)| - 1 ==> Complete(Pieces(s)[i]))
      {
        if i > 0 { assert Pieces(s)[i] == rest[i - 1]; }
      }
    }
  }

  lemma LineLenIs(s: string, limit: nat, n: nat)
    requires 0 < n <= limit && n <= |s|
    requires forall i :: 0 <= i < n - 1 ==> s[i] != '\n'
    requires n == limit || n == |s| || s[n - 1] == '\n'
    ensures LineLen(s, limit) == n
  {
    var m := LineLen(s, limit);
    assert m > 0;
    var endings := (s[m - 1], s[n - 1]);
    if m != n { assert false; }
  }

  /** Reading a text back gives exactly the pieces it was put together from. */
  lemma {:induction false} PiecesOfFlat(cs: seq<string>)
    requires WellCut(cs)
    ensures Pieces(Flat(cs)) == cs
  {
    if cs == [] {
    } else {
      var c, rest := cs[0], cs[1..];
      forall i | 0 <= i < |rest| ensures Piece(rest[i]) && (i < |rest| - 1 ==> Complete(rest[i])) {
        assert rest[i] == cs[i + 1];
      }
      PiecesOfFlat(rest);
      var s := c + Flat(rest);
      assert rest == [] ==> |s| == |c|;
      assert forall i :: 0 <= i < |c| ==> s[i] == c[i];
      LineLenIs(s, MAX_PIECE, |c|);
      assert s[|c|..] == Flat(rest);
    }
  }

  lemma FlatOne(c: string)
    ensures Flat([c]) == c
  {
    assert [c][1..] == [] && c + Flat([]) == c;
  }

  /** Where piece `i` starts. */
  function Off(cs: seq<string>, i: nat): nat
    requires i <= |cs|
  {
    |Flat(cs[..i])|
  }

  lemma OffStep(cs: seq<string>, i: nat)
    requires i < |cs|
    ensures Off(cs, i + 1) == Off(cs, i) + |cs[i]|
    ensures Flat(cs[..i + 1]) == Flat(cs[..i]) + cs[i]
  {
    assert cs[..i + 1] == cs[..i] + [cs[i]];
    FlatAppend(cs[..i], [cs[i]]);
    assert Flat([cs[i]]) == cs[i] + Flat([]);
  }

  lemma OffEnd(cs: seq<string>)
    ensures Off(cs, |cs|) == |Flat(cs)| && Off(cs, 0) == 0
  {
    assert cs[..|cs|] == cs;
  }

  lemma SplitAt(cs: seq<string>, i: nat)
    requires i <= |cs|
    ensures Off(cs, i) <= |Flat(cs)|
    ensures Flat(cs)[..Off(cs, i)] == Flat(cs[..i])
    ensures Flat(cs)[Off(cs, i)..] == Flat(cs[i..])
  {
    assert cs == cs[..i] + cs[i..];
    FlatAppend(cs[..i], cs[i..]);
  }

  lemma {:induction false} OffMonotone(cs: seq<string>, i: nat, j: nat)
    requires i <= j <= |cs| && (forall m :: i <= m < j ==> cs[m] != [])
    ensures Off(cs, i) <= Off(cs, j) && (i < j ==> Off(cs, i) < Off(cs, j))
    ensures Off(cs, j) <= |Flat(cs)|
  {
    SplitAt(cs, j);
    if i < j {
      OffMonotone(cs, i, j - 1);
      OffStep(cs, j - 1);
    }
  }

  lemma PieceAt(text: string, i: nat)
    requires i < |Pieces(text)|
    ensures Off(Pieces(text), i) < Off(Pieces(text), i + 1) <= |text|
    ensures Off(Pieces(text), i + 1) == Off(Pieces(text), i) + |Pieces(text)[i]|
    ensures text[Off(Pieces(text), i)..Off(Pieces(text), i + 1)] == Pieces(text)[i]
  {
    var cs := Pieces(text);
    PiecesAreWellCut(text);
    OffStep(cs, i);
    SplitAt(cs, i);
    SplitAt(cs, i + 1);
    assert text[Off(cs, i)..Off(cs, i + 1)] == text[..Off(cs, i + 1)][Off(cs, i)..];
  }

  /**
   * What one read does at the start of piece `i`: it returns that piece, for every limit the piece
   * still fits in, not only for the limit the text was first cut with.
   */
  lemma ReadPiece(text: string, i: nat, limit: nat)
    requires i < |Pieces(text)| && |Pieces(text)[i]| <= limit <= MAX_PIECE
    requires Off(Pieces(text), i) <= |text|
    ensures LineLen(text[Off(Pieces(text), i)..], limit) == |Pieces(text)[i]|
  {
    hide Pieces, Flat, Off;
    var cs := Pieces(text);
    PieceAt(text, i);
    PiecesAreWellCut(text);
    if i == |cs| - 1 { OffEnd(cs); }
    PieceInFront(text[Off(cs, i)..], cs[i], limit);
  }

  /** A text that begins with a piece, which ends it if the piece is not complete. */
  lemma PieceInFront(s: string, c: string, limit: nat)
    requires |c| <= |s| && s[..|c|] == c && Piece(c) && |c| <= limit <= MAX_PIECE
    requires Complete(c) || |c| == |s|
    ensures LineLen(s, limit) == |c|
  {
    assert forall m :: 0 <= m < |c| ==> s[m] == s[..|c|][m];
    LineLenIs(s, limit, |c|);
  }
}
