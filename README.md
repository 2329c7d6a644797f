# base_unicode in Dafny

A model of `base_unicode.py`, which writes non-negative integers in a
positional numeral system whose digits are the characters of the Unicode
Character Database. The script works in two stages:

* **Alphabet builder** (`SymbolTable`). `Db` is the `symbols` table. It is an
  append-only list of `(n, codepoint)` rows numbered by a counter `n`. Row 0
  is the sentinel `00000000`. `Generate` walks the catalog's `char` records
  in document order. It inserts the code point of every record that has a
  name or a `kTotalStrokes` attribute, has a `cp`, and whose `cp` value is
  below 917504 (0xE0000). Each code point is left-padded with `0` to eight
  digits.
* **Numeral converter** (`Conversion`). `Converter` takes `base = n - 1`.
  `ToBaseUnicode` writes a number in that base, most significant digit
  first. `ToCodepoints` looks each digit up in the table. `GetUtf8` and
  `ToUtf8` turn each eight-digit code point into its character, as a
  `\UXXXXXXXX` escape does.

Supporting modules: `Hex` handles the hexadecimal value of a code point
string and the eight-digit padding. `Numerals` holds the digit sequence of a
number (`Digits`) and its inverse fold (`FromDigits`). `Wrappers` holds
`Option` and `Result`.

The rendered text is a sequence of code points (`CodePoint`, 0..0x10FFFF),
which is what a Python string is. Exceptions the source raises become
`Result` errors or a `false` status.

Points where the code behaves in ways that are easy to misread:

* The sentinel is inserted as `"0000"` and stored padded, as `"00000000"`.
* The name/stroke-count test comes first. A present `cp` that is not
  hexadecimal raises an uncaught `ValueError` and aborts the build. It is
  not skipped (`ClassifyRaises`, `FilterStopsAtFirstInvalid`). Only a
  missing `cp` is skipped, through the caught `TypeError`.
* Digit 0 is an ordinary digit. It looks up the sentinel row and renders
  U+0000 (`LookupNeverMisses`, `TwoSymbolExample`, `SentinelRenders`). The last symbol
  accepted, at row `base`, is never used as a digit.
* The bound is the literal 917504 (0xE0000), not the end of plane 2 that
  the comment beside it names.

## Model

| member | source | states |
|---|---|---|
| `Hex.IsHexMeansHexAlphabet` | base_unicode.py:83-86 | a code point parses (`IsHex`, the case where `int(cp, 16)` raises no `ValueError`) iff it is a non-empty string of plain ASCII hex digits `0-9a-fA-F` |
| `Hex.HexValue` | base_unicode.py:84 | the value of the digits read most significant first (`acc * 16 + digit`), the number both `int(cp, 16)` and the `\U` escape decode; it is below 16 to the power of the number of digits |
| `Hex.Pad8` | base_unicode.py:45 | the padded code point has length max(8, \|cp\|), ends with `cp`, and every character before it is `'0'` |
| `Hex.PadPreservesHexValue` | base_unicode.py:45 | padding keeps a hex code point hex and keeps its numeric value |
| `Hex.LeadingZerosValue` | base_unicode.py:45 | any run of leading `'0'` leaves a hex string's value unchanged |
| `SymbolTable.Db.constructor` | base_unicode.py:26-27 | a new store holds no rows and the counter is 0 |
| `SymbolTable.Db.Count` | base_unicode.py:29-31 | loading an existing table sets `n` to its number of rows and changes no row |
| `SymbolTable.Db.Create` | base_unicode.py:37-42 | after `create` the table is exactly `[(0, "00000000")]`, `n == 1`, and the row-numbering invariant holds |
| `SymbolTable.Db.Insert` | base_unicode.py:44-50 | appends exactly one row `(old n, Pad8(cp))`, increments `n`, leaves earlier rows unchanged, and preserves the invariants "row i has index i and n == number of rows" and "row 0 is the sentinel" |
| `SymbolTable.Lookup` | base_unicode.py:58-60 | returns the code point of the first row whose index is `x`, or nothing exactly when no row has that index |
| `SymbolTable.Db.Get` | base_unicode.py:58-60 | on a well-numbered table a row is found iff `0 <= x < n`, and it is row `x`'s code point |
| `SymbolTable.Classify` | base_unicode.py:74-93 | a record is inserted iff it has (`na` or `kTotalStrokes`), has `cp`, `cp` is hex, and its value is below 917504; it raises iff it has a name or stroke count and a present non-hex `cp`; in every other case it is skipped |
| `SymbolTable.ClassifyNamedAndUnnamed` | base_unicode.py:75-93 | LATIN CAPITAL LETTER A (0041) is kept; a record with neither name nor stroke count, or with no `cp`, is skipped |
| `SymbolTable.ClassifyBoundary` | base_unicode.py:88-90 | 0xE0000 is skipped and 0xDFFFF (unnamed, with a stroke count) is kept |
| `SymbolTable.ClassifyRaises` | base_unicode.py:83-86 | an empty or non-hex `cp` on a named record raises instead of being skipped |
| `SymbolTable.Filter` | base_unicode.py:73-93 | the loop stops with an exception iff some record has a present non-hex `cp` after passing the name test; every kept code point is hex and below 917504 |
| `SymbolTable.FilterKeepsAcceptedInOrder` | base_unicode.py:73-93 | without an exception, the number kept equals the number of accepted records; the i-th record, when accepted, is kept at position "accepted records before it", so document order is preserved |
| `SymbolTable.FilterStopsAtFirstInvalid` | base_unicode.py:83-86 | the uncaught `ValueError` ends the loop: the kept code points are exactly those kept before the first raising record |
| `SymbolTable.Table` | base_unicode.py:67-93 | the table holds the sentinel at row 0 and, at row i >= 1, `(i, Pad8(kept[i-1]))` |
| `SymbolTable.Generate` | base_unicode.py:62-96 | fails iff a record raises; the rows are exactly `Table(kept)`, so `n` is 1 + the number of accepted records, the rows are well numbered and row 0 is the sentinel |
| `Numerals.Digits` | base_unicode.py:105-114 | zero has no digits; every digit is in `[0, base)`; the first digit is nonzero |
| `Numerals.FromDigitsOfDigits` | base_unicode.py:105-114 | folding the digits most significant first (`acc * base + r`) gives back the number |
| `Numerals.DigitsOfFromDigits` | base_unicode.py:105-114 | conversely, any digit sequence with digits below the base and no leading zero is the conversion of the number it denotes, so the representation is unique |
| `Numerals.DigitsLengthMonotone` | base_unicode.py:105-114 | for 1 <= n1 <= n2, n1 has no more digits than n2 |
| `Conversion.Converter.constructor` | base_unicode.py:101-103 | `base == n - 1`; the `base == -1` guard of the command line fires exactly when the table has no rows |
| `Conversion.Converter.ToBaseUnicode` | base_unicode.py:105-114 | the loop terminates for `number >= 0` when the base is at least 2 or the number is 0, and returns `Digits(number, base)`: digits in `[0, base)`, no leading zero, empty iff the number is 0, reading back to `number` |
| `Conversion.Converter.ToCodepoints` | base_unicode.py:116-118 | one table entry per digit, in order; it fails iff some digit has no row, naming such a digit; on a well-numbered table with digits below `n`, entry i is row `digit i`'s code point |
| `Conversion.Converter.GetUtf8` | base_unicode.py:120-122 | succeeds iff the code point is eight hex digits with value at most 0x10FFFF, giving the character of that value; otherwise the escape is truncated or the character illegal |
| `Conversion.Converter.ToUtf8` | base_unicode.py:124-126 | succeeds iff every code point renders; the text then has one character per code point, character i being entry i's character; on failure, the error is that of some entry |
| `Conversion.LookupNeverMisses` | base_unicode.py:102-118 | every digit of a conversion has a row, since digits are below `base = n - 1 < n`; the last accepted symbol (row `base`) is never a digit; digit 0 yields the sentinel |
| `Conversion.RenderPadded` | base_unicode.py:120-122 | a stored, padded code point of an accepted record renders as the character of the record's own value |
| `Conversion.KeptLengthBound` | base_unicode.py:75-93 | if every catalog `cp` has at most eight digits, so does every kept one |
| `Conversion.GeneratedTableRenderable` | base_unicode.py:62-93 | if every catalog `cp` has at most eight digits, every row of the generated table renders: eight hex digits, value at most 0x10FFFF |
| `Conversion.ConvertRenders` | base_unicode.py:157-160 | end to end on a renderable table: a number renders as one character per digit, character i having the value of row `digit i`; 0 renders as the empty string |
| `Conversion.SentinelRenders` | base_unicode.py:120-122 | the sentinel `00000000` that digit 0 looks up renders as the character U+0000 |
| `Conversion.BuildConverter` | base_unicode.py:131-146 | building the table on a fresh store and a converter on it: the build fails iff a record raises, the table is `Table(kept)` with the sentinel at row 0, and after a successful build the base equals the number of accepted records |
| `Conversion.TwoSymbolExample` | base_unicode.py:105-118 | with two symbols (base 2), 3 is written [1, 1] and 2 is written [1, 0], and digit 0 looks up the sentinel |

## Left out

- The sqlite3 connection, cursor, SQL text, `commit` and `close` (base_unicode.py:33-35, 52-56) are not modelled. The table is an in-memory sequence.
- Because there is no commit, a build that raises keeps in memory what it inserted before the exception. sqlite would discard those rows when the uncommitted transaction is dropped.
- `Db.__init__` stores only the database path. The model starts with no rows and `n = 0`. In the source `n` is unset until `create` or `count` runs.
- `create` on a store that already has a `symbols` table raises in SQL. The model always starts from an empty table, as `main` does when it creates a new file.
- The XML parsing with ElementTree and the UCD namespace (base_unicode.py:6, 18, 70, 73) are not modelled. The `char` records arrive as a sequence of `CharRecord`.
- Python's lenient `int(cp, 16)` is not modelled. It accepts surrounding whitespace, a sign, a `0x` prefix and underscores. The model accepts only plain hex digits and treats any other string as the `ValueError` case.
- The `unicode_escape` codec is modelled only for `\U` followed by exactly eight hex digits.
- `Conversion.Converter.GetUtf8`: requires at most eight characters. A longer code point would decode its first eight digits and pass the rest through the codec, and that is not modelled. Stored code points are exactly eight characters whenever the catalog's have at most eight (`GeneratedTableRenderable`).
- `Conversion.Converter.ToUtf8`: requires at most eight characters per code point, for the same reason as `GetUtf8`.
- `Conversion.Converter.ToBaseUnicode`: requires `number >= 0`, and `base >= 2` unless the number is 0. The source never returns outside these cases:
  - a negative number loops forever;
  - base 1 loops forever on any nonzero number;
  - base 0 raises `ZeroDivisionError` on any nonzero number.
- `main`, argparse, the file deletion and existence checks, printing, `sys.exit` and `textwrap.wrap` (base_unicode.py:10-13, 129-196) are I/O glue. Only the `base == -1` guard is stated, in the `Converter` constructor.
- Build determinism needs no lemma. `Generate`'s result is a function (`Table(Filter(records).kept)`) of the records alone.
