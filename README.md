# Reversi board cell (Position)

A model of the `Position` class of a Reversi game: one cell of the 8x8 board, holding a
row, a column and the colour on it (`Black`, `White` or `Empty`). The model covers

- the parser from algebraic notation (`"c4"`: column letter `a`-`h`, row digit `1`-`8`,
  case-insensitive) to a `(row, col)` pair, with the sentinel `(-1, -1)` for notation it
  does not recognise; it is a method over a two-element `array<int32>` with the source's
  two loops and final fix-up, proved equal to the reference function `Coordinates`;
- the short-form renderer `ToString` (`"c4B"`, `"c4W"`, `"c4"`), a method building the
  string step by step, proved equal to the reference function `Render`;
- the row-major `CompareTo`, computed with Java's wrapping 32-bit subtraction;
- structural `Equals` over row, column and colour;
- both constructors, the getters (`GetRow`, `GetColumn`, `GetPiece`, plain field reads)
  and the three setters, each of which changes only its own field.

Module `JavaInt` (java_int.dfy) gives Java's `int` as the newtype `int32` and its
two's-complement subtraction; module `Positions` (position.dfy) holds the rest.

## Model

| member | source | states |
|---|---|---|
| `JavaInt.Sub32` | Position.java:67-69 | Java `int` subtraction is congruent to the exact difference modulo 2^32, and equals it whenever it fits in 32 bits |
| `Positions.LowerCase` | Position.java:80 | lower-casing keeps the length, leaves no upper-case ASCII letter, moves each upper-case letter to its lower-case partner and leaves every other character unchanged |
| `Positions.LowerCaseIdempotent` | Position.java:80 | lower-casing twice is the same as lower-casing once |
| `Positions.Coordinates` | Position.java:79-105 | the parse result is either the sentinel (-1, -1) or a pair with both entries in [0, 8) |
| `Positions.LettersAndDigitsAt` | Position.java:85-86 | the k-th letter of "abcdefgh" is 'a'+k and the k-th digit of "12345678" is '1'+k |
| `Positions.GetRowAndColFromStringPosition` | Position.java:79-105 | the two loops and the fix-up fill a two-element array with exactly the reference coordinates |
| `Positions.ColumnMatches` | Position.java:88-92 | the index the letter loop finds, or -1 when nothing matched, is the column the letter names |
| `Positions.RowMatches` | Position.java:93-97 | the index the digit loop finds, or -1 when nothing matched, is the row the digit names |
| `Positions.ParseSuccess` | Position.java:85-97 | when the lower-cased first character is the k-th letter and the second the j-th digit, the result is (j, k): row from the digit, column from the letter |
| `Positions.ParseFailure` | Position.java:99-102 | the result is the sentinel if and only if the first character is not a letter or the second is not a digit, so no half-valid pair is returned |
| `Positions.ParseReadsLoweredPrefix` | Position.java:80-94 | two inputs whose first two characters agree after lower-casing parse identically |
| `Positions.ParseCaseInsensitive` | Position.java:80-94 | parsing a string, its lower-case form and its first two characters gives the same result |
| `Positions.Render` | Position.java:25-37 | the short form is the col-th letter, the row-th digit and "B", "W" or "" by colour; it has length 2 for Empty and 3 otherwise |
| `Positions.ParseRender` | Position.java:79-105 | parsing the first two characters of the short form gives back (row, col) |
| `Positions.RenderParse` | Position.java:25-37 | rendering the coordinates of valid notation gives that notation lower-cased, followed by the colour suffix |
| `Positions.Position.FromString` | Position.java:113-118 | the string constructor stores exactly the parser's row and column and the given colour |
| `Positions.Position.constructor` | Position.java:126-130 | the int constructor stores its three arguments unchanged |
| `Positions.Position.GetRow` | Position.java:138-140 | returns the stored row |
| `Positions.Position.GetColumn` | Position.java:158-160 | returns the stored column |
| `Positions.Position.GetPiece` | Position.java:178-180 | returns the stored colour |
| `Positions.Position.SetRow` | Position.java:148-150 | sets the row; column and colour are unchanged |
| `Positions.Position.SetCol` | Position.java:168-170 | sets the column; row and colour are unchanged |
| `Positions.Position.SetPiece` | Position.java:188-190 | sets the colour; row and column are unchanged |
| `Positions.Position.ToString` | Position.java:25-37 | the string built by successive appends is the reference short form |
| `Positions.Position.Equals` | Position.java:47-56 | holds exactly when row, column and colour all match; equal positions compare as 0 in both directions |
| `Positions.Position.CompareTo` | Position.java:65-70 | zero exactly when rows and columns match, colour ignored, for all int values; negative or positive exactly as (row, col) is lexicographically less than or greater than the other's |
| `Positions.CompareToAntisymmetric` | Position.java:65-70 | swapping the operands negates the sign; the result is 0 iff rows and columns match |
| `Positions.CompareToTransitive` | Position.java:65-70 | "compares at most" and "compares less" are transitive |
| `Positions.CompareToWraps` | Position.java:67 | with a row of -2^31 against row 1 the subtraction wraps and compareTo is positive although the row is smaller |
| `Positions.EqualsIsEquivalence` | Position.java:55 | equality is reflexive, symmetric, transitive, and holds iff row, column and colour all match |
| `Positions.EqualsImpliesCompareZero` | Position.java:65-70 | equal positions compare as 0 |
| `Positions.RecolorBreaksEquality` | Position.java:188-190 | recolouring one of two equal, distinct positions makes them unequal and leaves the other untouched |
| `Positions.FromStringThenToString` | Position.java:113-118 | constructing from valid notation and rendering gives the lower-cased notation followed by the colour suffix ("d5" with Black renders "d5B") |

## Left out

- The reference-identity shortcut, the `null` check and the `instanceof` test of `equals` (Position.java:48-53): `Equals` compares two positions only.
- The `Comparable` interface: `CompareTo` is a plain function returning an `int32`.
- `String.toLowerCase` is modelled on ASCII letters only; its locale and full Unicode behaviour (which may change a string's length) are not. Java's `length()` and `substring` count UTF-16 code units while a Dafny `string` counts Unicode scalar values, so a single supplementary character, which Java sees as length 2 and parses to the sentinel, is excluded by the parser's length precondition.
- The exceptions `substring` throws for a column or row outside [0, 8) in `toString`, and for notation shorter than two characters in the parser, are preconditions rather than error paths.
- Positions.Position.CompareTo: its sign clauses (less than, greater than) are stated only for rows and columns in [-2^30, 2^30), because the source subtracts Java `int`s and the subtraction wraps outside that range (`CompareToWraps` shows one such input); board coordinates and the -1 sentinel lie inside it.
- Positions.GetRowAndColFromStringPosition: its contract does not say that the returned array is newly allocated; the method has no modifies clause, so its callers already know that no array they hold is changed, and the constructor that calls it only reads the two entries.
- A copy constructor `Position(Position)` is called by the board code but is not declared in Position.java, so there is nothing of it to model.
- The `Board` class (move validation, capture rays, flipping, turn order, winner, board rendering) is not part of this model.
