/**
 * One cell of a Reversi board: its row, its column and the colour of the piece on it.
 * Coordinates are read from and written as algebraic notation ("c4": column letter,
 * then row digit).
 */
module Positions {
  import opened JavaInt

  /** What occupies a cell. */
  datatype Color = Black | White | Empty

  /** Column letters and row digits, in index order. */
  const Letters: string := "abcdefgh"
  const Digits: string := "12345678"

  /** The sentinel pair returned for notation that names no cell. */
  const Invalid: (int32, int32) := (-1, -1)

  /** Lower-casing of one character, on ASCII letters only. */
  function LowerChar(c: char): char {
    if 'A' <= c <= 'Z' then (c as int - 'A' as int + 'a' as int) as char else c
  }

  /** `String.toLowerCase`, on ASCII letters only. */
  function LowerCase(s: string): (r: string)
    ensures |r| == |s|
    ensures forall i :: 0 <= i < |r| ==> !('A' <= r[i] <= 'Z')
    ensures forall i :: 0 <= i < |s| && !('A' <= s[i] <= 'Z') ==> r[i] == s[i]
    ensures forall i :: 0 <= i < |s| && 'A' <= s[i] <= 'Z' ==> r[i] as int == s[i] as int + 32
  {
    seq(|s|, i requires 0 <= i < |s| => LowerChar(s[i]))
  }

  /** Lower-casing a lower-cased string changes nothing. */
  lemma LowerCaseIdempotent(s: string)
    ensures LowerCase(LowerCase(s)) == LowerCase(s)
  {
  }

  /** The column a letter names ('a' or 'A' is column 0), or -1. */
  function ColumnOfLetter(c: char): int32 {
    var l := LowerChar(c);
    if 'a' <= l <= 'h' then (l as int - 'a' as int) as int32 else -1
  }

  /** The row a digit names ('1' is row 0), or -1. */
  function RowOfDigit(c: char): int32 {
    var d := LowerChar(c);
    if '1' <= d <= '8' then (d as int - '1' as int) as int32 else -1
  }

  /**
   * Reference meaning of algebraic notation: the (row, col) pair the first two
   * characters name, or the sentinel (-1, -1) when either is not recognised.
   */
  function Coordinates(pos: string): (r: (int32, int32))
    requires |pos| >= 2
    ensures r == Invalid || (0 <= r.0 < 8 && 0 <= r.1 < 8)
  {
    var row, col := RowOfDigit(pos[1]), ColumnOfLetter(pos[0]);
    if row == -1 || col == -1 then Invalid else (row, col)
  }

  /** The k-th letter and the k-th digit, as character codes. */
  lemma LettersAndDigitsAt(k: int)
    requires 0 <= k < 8
    ensures Letters[k] == ('a' as int + k) as char
    ensures Digits[k] == ('1' as int + k) as char
  {
  }

  /**
   * Parses algebraic notation by comparing the lower-cased first character with
   * every letter and the second with every digit; a half-recognised pair is reset
   * to the sentinel.
   */
  method GetRowAndColFromStringPosition(pos: string) returns (place: array<int32>)
    requires |pos| >= 2
    ensures place.Length == 2
    ensures (place[0], place[1]) == Coordinates(pos)
  {
    var lower := LowerCase(pos);
    place := new int32[2];
    place[0] := -1;
    place[1] := -1;

    for i := 0 to |Letters|
      invariant place[0] == -1
      invariant place[1] == -1 ==> forall k :: 0 <= k < i ==> Letters[k] != lower[0]
      invariant place[1] != -1 ==> 0 <= place[1] < i as int32 && Letters[place[1]] == lower[0]
    {
      if lower[0..1] == Letters[i..i + 1] {
        assert lower[0] == lower[0..1][0];
        place[1] := i as int32;
      }
    }
    for j := 0 to |Digits|
      invariant place[0] == -1 ==> forall k :: 0 <= k < j ==> Digits[k] != lower[1]
      invariant place[0] != -1 ==> 0 <= place[0] < j as int32 && Digits[place[0]] == lower[1]
      invariant place[1] == -1 ==> forall k :: 0 <= k < 8 ==> Letters[k] != lower[0]
      invariant place[1] != -1 ==> 0 <= place[1] < 8 && Letters[place[1]] == lower[0]
    {
      if lower[1..2] == Digits[j..j + 1] {
        assert lower[1] == lower[1..2][0];
        place[0] := j as int32;
      }
    }

    ColumnMatches(pos[0], lower[0], if place[1] == -1 then -1 else place[1] as int);
    RowMatches(pos[1], lower[1], if place[0] == -1 then -1 else place[0] as int);
    if place[0] == -1 || place[1] == -1 {
      place[0] := -1;
      place[1] := -1;
    }
  }

  /** What the letter loop finds agrees with ColumnOfLetter. */
  lemma ColumnMatches(c: char, l: char, found: int)
    requires l == LowerChar(c)
    requires -1 <= found < 8
    requires found == -1 ==> forall k :: 0 <= k < 8 ==> Letters[k] != l
    requires found != -1 ==> Letters[found] == l
    ensures ColumnOfLetter(c) as int == found
  {
    if found == -1 {
      if 'a' <= l <= 'h' {
        LettersAndDigitsAt(l as int - 'a' as int);
        assert false;
      }
    } else {
      LettersAndDigitsAt(found);
    }
  }

  /** What the digit loop finds agrees with RowOfDigit. */
  lemma RowMatches(c: char, d: char, found: int)
    requires d == LowerChar(c)
    requires -1 <= found < 8
    requires found == -1 ==> forall k :: 0 <= k < 8 ==> Digits[k] != d
    requires found != -1 ==> Digits[found] == d
    ensures RowOfDigit(c) as int == found
  {
    if found == -1 {
      if '1' <= d <= '8' {
        LettersAndDigitsAt(d as int - '1' as int);
        assert false;
      }
    } else {
      LettersAndDigitsAt(found);
    }
  }

  /** Parser success: the k-th letter and the j-th digit name row j, column k. */
  lemma ParseSuccess(pos: string, j: int, k: int)
    requires |pos| >= 2 && 0 <= j < 8 && 0 <= k < 8
    requires LowerChar(pos[0]) == Letters[k] && LowerChar(pos[1]) == Digits[j]
    ensures Coordinates(pos) == (j as int32, k as int32)
  {
  }

  /**
   * Parser failure: the result is the sentinel exactly when the lower-cased first
   * character is not a letter or the second is not a digit.
   */
  lemma ParseFailure(pos: string)
    requires |pos| >= 2
    ensures Coordinates(pos) == Invalid <==> LowerChar(pos[0]) !in Letters || LowerChar(pos[1]) !in Digits
  {
  }

  /** Only the first two characters, lower-cased, decide the result. */
  lemma ParseReadsLoweredPrefix(u: string, v: string)
    requires |u| >= 2 && |v| >= 2
    requires LowerCase(u[..2]) == LowerCase(v[..2])
    ensures Coordinates(u) == Coordinates(v)
  {
  }

  /** Upper-case notation parses as its lower-case form, and trailing characters are ignored. */
  lemma ParseCaseInsensitive(pos: string)
    requires |pos| >= 2
    ensures Coordinates(pos) == Coordinates(LowerCase(pos)) == Coordinates(pos[..2])
  {
  }

  /** The colour suffix of the short form. */
  function Suffix(c: Color): string {
    match c
    case Black => "B"
    case White => "W"
    case Empty => ""
  }

  /**
   * Reference shape of the short form: column letter, row digit, colour suffix.
   */
  function Render(row: int32, col: int32, piece: Color): (s: string)
    requires 0 <= row < 8 && 0 <= col < 8
    ensures |s| == if piece == Empty then 2 else 3
    ensures s[0] == Letters[col] && s[1] == Digits[row] && s[2..] == Suffix(piece)
  {
    LettersAndDigitsAt(col as int);
    LettersAndDigitsAt(row as int);
    [('a' as int + col as int) as char, ('1' as int + row as int) as char] + Suffix(piece)
  }

  /** Parsing the first two characters of the short form gives back the coordinates. */
  lemma ParseRender(row: int32, col: int32, piece: Color)
    requires 0 <= row < 8 && 0 <= col < 8
    ensures Coordinates(Render(row, col, piece)[..2]) == (row, col)
  {
  }

  /** Rendering parsed notation gives back its lower-case form followed by the colour suffix. */
  lemma RenderParse(s: string, c: Color)
    requires |s| == 2 && Coordinates(s) != Invalid
    ensures Render(Coordinates(s).0, Coordinates(s).1, c) == LowerCase(s) + Suffix(c)
  {
  }

  /** Lexicographic order on (row, col) pairs. */
  predicate LexLess(r1: int, c1: int, r2: int, c2: int) {
    r1 < r2 || (r1 == r2 && c1 < c2)
  }

  /** A board cell: coordinates and the colour occupying it. */
  class Position {
    var row: int32
    var col: int32
    var piece: Color

    /** Builds a position from algebraic notation; unrecognised notation gives row and col -1. */
    constructor FromString(pos: string, c: Color)
      requires |pos| >= 2
      ensures (row, col) == Coordinates(pos) && piece == c
    {
      var indices := GetRowAndColFromStringPosition(pos);
      row := indices[0];
      col := indices[1];
      piece := c;
    }

    /** Builds a position from explicit coordinates, stored unchanged. */
    constructor (row: int32, col: int32, c: Color)
      ensures this.row == row && this.col == col && piece == c
    {
      this.row := row;
      this.col := col;
      piece := c;
    }

    function GetRow(): (r: int32)
      reads this
      ensures r == row
    {
      row
    }

    function GetColumn(): (c: int32)
      reads this
      ensures c == col
    {
      col
    }

    function GetPiece(): (c: Color)
      reads this
      ensures c == piece
    {
      piece
    }

    method SetRow(row: int32)
      modifies this`row
      ensures this.row == row && col == old(col) && piece == old(piece)
    {
      this.row := row;
    }

    method SetCol(col: int32)
      modifies this`col
      ensures this.col == col && row == old(row) && piece == old(piece)
    {
      this.col := col;
    }

    method SetPiece(piece: Color)
      modifies this`piece
      ensures this.piece == piece && row == old(row) && col == old(col)
    {
      this.piece := piece;
    }

    /** The short form, built piece by piece. */
    method ToString() returns (rep: string)
      requires 0 <= row < 8 && 0 <= col < 8
      ensures rep == Render(row, col, piece)
    {
      rep := "";
      rep := rep + Letters[col..col + 1];
      rep := rep + Digits[row..row + 1];
      if piece == Black {
        rep := rep + "B";
      }
      if piece == White {
        rep := rep + "W";
      }
      var expected := Render(row, col, piece);
      assert |rep| == |expected|;
      assert rep[2..] == expected[2..];
      assert rep == rep[..2] + rep[2..];
      assert expected == expected[..2] + expected[2..];
    }

    /** Structural equality over row, column and colour. */
    predicate Equals(o: Position)
      reads this, o
      ensures Equals(o) <==> (row, col, piece) == (o.row, o.col, o.piece)
      ensures Equals(o) ==> CompareTo(o) == 0 && o.CompareTo(this) == 0
    {
      o.row == row && o.col == col && o.piece == piece
    }

    /** Row and column lie in [-2^30, 2^30), so Java subtracts any two of them without wrapping. */
    predicate HalfRange()
      reads this
    {
      -0x4000_0000 <= row < 0x4000_0000 && -0x4000_0000 <= col < 0x4000_0000
    }

    /** Row-major comparison, by Java `int` subtraction of rows, then of columns. */
    function CompareTo(o: Position): (r: int32)
      reads this, o
      ensures r == 0 <==> row == o.row && col == o.col
      ensures HalfRange() && o.HalfRange() ==>
        && (r < 0 <==> LexLess(row as int, col as int, o.row as int, o.col as int))
        && (r > 0 <==> LexLess(o.row as int, o.col as int, row as int, col as int))
    {
      if row != o.row then Sub32(row, o.row) else Sub32(col, o.col)
    }
  }

  /** The sign of Java's compareTo result. */
  function Sign(x: int32): int {
    if x < 0 then -1 else if x == 0 then 0 else 1
  }

  /** compareTo is antisymmetric in sign and ignores colour. */
  lemma CompareToAntisymmetric(p: Position, q: Position)
    requires p.HalfRange() && q.HalfRange()
    ensures Sign(p.CompareTo(q)) == -Sign(q.CompareTo(p))
    ensures p.CompareTo(q) == 0 <==> p.row == q.row && p.col == q.col
  {
  }

  /** compareTo is transitive, for "at most" and for "less than". */
  lemma CompareToTransitive(p: Position, q: Position, r: Position)
    requires p.HalfRange() && q.HalfRange() && r.HalfRange()
    ensures p.CompareTo(q) <= 0 && q.CompareTo(r) <= 0 ==> p.CompareTo(r) <= 0
    ensures p.CompareTo(q) < 0 && q.CompareTo(r) < 0 ==> p.CompareTo(r) < 0
  {
  }

  /** Outside the half range the subtraction wraps and the order law breaks. */
  lemma CompareToWraps(p: Position, q: Position)
    requires p.row == -0x8000_0000 && q.row == 1
    ensures p.CompareTo(q) > 0 && p.row < q.row
  {
  }

  /** Equality is reflexive, symmetric and transitive. */
  lemma EqualsIsEquivalence(p: Position, q: Position, r: Position)
    ensures p.Equals(p)
    ensures p.Equals(q) <==> q.Equals(p)
    ensures p.Equals(q) && q.Equals(r) ==> p.Equals(r)
    ensures p.Equals(q) <==> (p.row, p.col, p.piece) == (q.row, q.col, q.piece)
  {
  }

  /** Equal positions compare as 0: equality refines the order. */
  lemma EqualsImpliesCompareZero(p: Position, q: Position)
    requires p.Equals(q)
    ensures p.CompareTo(q) == 0
  {
  }

  /** Recolouring one of two equal, distinct positions makes them unequal and leaves the other alone. */
  method RecolorBreaksEquality(p: Position, q: Position, c: Color)
    requires p != q && p.Equals(q) && c != q.piece
    modifies q
    ensures !p.Equals(q)
    ensures p.row == old(p.row) && p.col == old(p.col) && p.piece == old(p.piece)
    ensures q.row == old(q.row) && q.col == old(q.col) && q.piece == c
  {
    q.SetPiece(c);
  }

  /** Building a position from notation and rendering it gives the notation back, lower-cased, with its suffix. */
  method FromStringThenToString(s: string, c: Color) returns (rep: string)
    requires |s| == 2 && Coordinates(s) != Invalid
    ensures rep == LowerCase(s) + Suffix(c)
  {
    var p := new Position.FromString(s, c);
    rep := p.ToString();
    RenderParse(s, c);
  }
}
