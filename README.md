# WordGridSolutions in Dafny

A model of the solver behind a daily word-grid puzzle. Each row and each column
of the grid carries a clue such as "Starts with mi", "Contains e, l" or
"5 letters or fewer". The solver does three things:

- it turns every clue into a word matcher;
- it looks up, for every pair of a column clue and a row clue, the dictionary
  words that satisfy both;
- it can lay a word list out in columns.

The model has six modules:

- `Wrappers`: `Option` and `Result`.
- `GoStrings`: the parts of Go's `strings` and `strconv` packages the
  solver relies on, over ASCII text (one `char` per byte). These are
  `HasPrefix`, `HasSuffix`, `TrimPrefix`, `TrimSuffix`, `Contains`, `Count`,
  `TrimSpace`, `ToLower`, `Split`, `ReplaceAll("\r\n", "\n")` and `Atoi`.
- `Predicates`: the eleven matchers. They form one datatype `Pred`, one
  constructor per Go constructor function, and `Eval` is the body of the
  closure each one returns. The three matchers the source writes as loops
  with early returns are also methods, proved equal to `Eval`.
- `ClueParser`: `parsePredicate`. It lower-cases the clue and then tries the
  forms in the source's order. The source's panics become `ParseError`
  values. It includes `fmt.Sscanf` for the template
  "between %d and %d letters" and the in-place trim loop over the operands.
- `Solver`: the `Predicate` and `Result` records, the dictionary split and
  the three nested loops of `getSolutions`. The method is proved against a
  functional specification `Solutions`.
- `Layout`: `prettyPrint`, a method with the source's loops, proved against
  `Render`. Lemmas give the row count, the column-major placement of every
  word exactly once, the padding and the line count.

The dictionary text is a parameter of `GetSolutions`; the source reads it
from "words.txt".

Three behaviours of the code a reader might not expect:

- `strings.Split` keeps empty entries, so an empty line of the dictionary
  is a word of length 0 (`Solver.EmptyEntryKept`).
- `strings.Count` counts occurrences that do not overlap, left to right.
  So "aa" occurs once in "aaa", although it starts at two positions, and
  "more than one" means two disjoint occurrences (`Predicates.MoreThanOneMeaning`).
- A clue in no known form is an error. The table test that expects
  "infinity" to accept every word disagrees with `parsePredicate`, which
  panics on it (`ClueParser.ParseInfinity`).

## Model

| member | source | states |
|---|---|---|
| GoStrings.PrefixMeaning | predicates.go:17 | `strings.HasPrefix(s, p)` holds exactly when `s` is `p` followed by something |
| GoStrings.SuffixMeaning | predicates.go:24 | `strings.HasSuffix(s, x)` holds exactly when `s` is something followed by `x` |
| GoStrings.HasPrefix | predicates.go:17 | `strings.HasPrefix`: the first characters of the text are the prefix; its meaning is stated by `GoStrings.PrefixMeaning` |
| GoStrings.HasSuffix | predicates.go:24 | `strings.HasSuffix`: the last characters of the text are the suffix; its meaning is stated by `GoStrings.SuffixMeaning` |
| GoStrings.TrimPrefix | predicates.go:113 | the prefix is removed when present, so that prefix + result is the input; otherwise the input is returned unchanged |
| GoStrings.TrimSuffix | predicates.go:146 | the suffix is removed when present, so that result + suffix is the input; otherwise the input is returned unchanged |
| GoStrings.ContainsMeaning | predicates.go:39 | `strings.Contains(s, sub)` holds exactly when `s` splits as `a + sub + b` |
| GoStrings.Contains | predicates.go:39 | `strings.Contains`: the needle occurs at some position; its meaning is stated by `GoStrings.ContainsMeaning` |
| GoStrings.CountPositive | predicates.go:102 | for a non-empty needle, `strings.Count` is at least one exactly when the needle occurs |
| GoStrings.CountMoreThanOne | predicates.go:102 | for a non-empty needle, `strings.Count` exceeds one exactly when the needle occurs twice without overlap |
| GoStrings.Count | predicates.go:102 | `strings.Count`: the occurrences counted left to right without overlap; its meaning is stated by `GoStrings.CountPositive` and `GoStrings.CountMoreThanOne` |
| GoStrings.TrimSpace | predicates.go:119 | the result is a contiguous part of the input with only white space cut at both ends, and it neither starts nor ends with white space |
| GoStrings.ToLower | predicates.go:108 | the result has the input's length; every ASCII capital becomes its lower-case letter and every other character is kept |
| GoStrings.ToLowerIdempotent | predicates.go:108 | lower-casing twice is lower-casing once, and the result holds no capital |
| GoStrings.ToLowerAppend | predicates.go:108 | lower-casing distributes over concatenation |
| GoStrings.Split | main.go:59 | `strings.Split` yields at least one piece, and no piece holds the separator |
| GoStrings.SplitCount | main.go:59 | splitting gives one more piece than there are separators |
| GoStrings.JoinSplit | main.go:59 | joining the pieces with the separator gives back the input |
| GoStrings.SplitJoin | main.go:59 | pieces without the separator, joined and split again, come back unchanged |
| GoStrings.NormalizeKeepsNewlines | main.go:59 | replacing "\r\n" by "\n" keeps the number of line feeds |
| GoStrings.NormalizeCRLFJoin | main.go:59 | lines joined with "\r\n" normalise to the same lines joined with "\n" |
| GoStrings.NormalizeNewlines | main.go:59 | `strings.ReplaceAll(s, "\r\n", "\n")`; its meaning is stated by `GoStrings.NormalizeKeepsNewlines` and `GoStrings.NormalizeCRLFJoin` |
| GoStrings.NatToDecimalValue | predicates.go:162 | a decimal rendering is a non-empty run of digits whose value is the number |
| GoStrings.AtoiIntToDecimal | predicates.go:162 | `strconv.Atoi` reads back every integer from its decimal rendering |
| GoStrings.AtoiToLower | predicates.go:162 | lower-casing the text does not change what `strconv.Atoi` reads |
| GoStrings.Atoi | predicates.go:162 | `strconv.Atoi`: an optional sign and decimal digits, anything else an error; its meaning is stated by `GoStrings.AtoiIntToDecimal` and `GoStrings.AtoiToLower` |
| Predicates.Eval | predicates.go:15-104 | the closure each matcher constructor returns, one case per constructor; its meaning is stated by `Predicates.PrefixSuffixMeaning`, `Predicates.ContainsMeaningAll` and `Predicates.MoreThanOneMeaning` |
| Predicates.WordContains | predicates.go:36-45 | the loop with early return answers true exactly when every substring occurs in the word |
| Predicates.WordDoesNotContain | predicates.go:48-57 | the loop answers true exactly when no substring occurs in the word |
| Predicates.WordHasDoubleLetter | predicates.go:60-69 | the loop over `len(word) - 1` positions answers true exactly when two neighbouring characters are equal |
| Predicates.PrefixSuffixMeaning | predicates.go:15-26 | the prefix matcher accepts exactly the words `x + rest` and the suffix matcher exactly the words `front + x` |
| Predicates.OperandLength | predicates.go:15-33 | an empty operand matches every word; an operand longer than the word never matches |
| Predicates.PrefixSuffixExamples | predicates.go:29-33 | prefix and suffix may overlap ("ab" and "bc" fit "abc"), and matching is case-sensitive |
| Predicates.ContainsMeaningAll | predicates.go:36-57 | contains-all accepts exactly when every operand is an infix of the word, contains-none exactly when none is, and both accept every word for an empty list |
| Predicates.ContainsSequenceExamples | predicates.go:36-57 | an operand of several letters must occur contiguously: "el" is in "hello" and "le" is not |
| Predicates.DoubleLetterExamples | predicates.go:60-69 | words shorter than two never match; repeats that are not neighbours ("banana") do not count |
| Predicates.LengthBoundsExamples | predicates.go:72-97 | the length matchers stay exact at zero and at negative bounds |
| Predicates.MoreThanOneMeaning | predicates.go:100-104 | a non-empty operand passes exactly when it occurs twice without overlap; an empty operand passes every non-empty word |
| Predicates.MoreThanOneOverlapExample | predicates.go:100-104 | "aa" starts at positions 0 and 1 of "aaa" but is counted once, so overlapping occurrences are not "more than one" |
| Predicates.MoreThanOneOnceExample | predicates.go:100-104 | "ll" is counted once in "hello", so it is not "more than one" |
| Predicates.MoreThanOneRepeatedExample | predicates.go:100-104 | "ab" in "abababa" is "more than one" |
| Predicates.MoreThanOneLetterExamples | predicates.go:100-104 | "l" is more than once in "hello", "h" is not, and nothing is more than once in the empty word |
| ClueParser.TrimEach | predicates.go:124-127 | each operand is the corresponding piece with its white space trimmed, and there are as many operands as pieces |
| ClueParser.TrimInPlace | predicates.go:125-127 | the in-place loop leaves the array holding every original entry trimmed |
| ClueParser.SkipBlanks | predicates.go:141 | the scanner drops a run of leading blanks and keeps the rest of the input |
| ClueParser.ScanDecimal | predicates.go:141 | the `%d` verb: blanks, an optional sign and a run of digits; its meaning is stated by `ClueParser.ScanDecimalOf` and `ClueParser.ScanDecimalOfLetter` |
| ClueParser.ScanBounds | predicates.go:141 | the " %d and %d" part of the template, with 0 for a bound not reached; its meaning is stated by `ClueParser.ScanBoundsOf` |
| ClueParser.ScanBetween | predicates.go:139-141 | `fmt.Sscanf` with the template "between %d and %d letters", starting from bounds 0; its meaning is stated by `ClueParser.ParseBetween`, `ClueParser.ParseBetweenWithoutLow` and `ClueParser.ParseBetweenWithoutHigh` |
| ClueParser.DigitRun | predicates.go:141 | the digits `%d` reads are the longest run of decimal digits at the front |
| ClueParser.DigitRunUnique | predicates.go:141 | a run of digits followed by a non-digit is exactly what `%d` reads |
| ClueParser.ScanDecimalOf | predicates.go:141 | `%d` on digits followed by a non-digit yields their value and the rest of the input |
| ClueParser.ScanDecimalOfLetter | predicates.go:141 | `%d` does not match a word |
| ClueParser.ScanBoundsOf | predicates.go:141 | " L and H letters" scans to the bounds L and H |
| ClueParser.Parse | predicates.go:107-108 | `parsePredicate`: lower-case the clue, then take the switch; its meaning is stated by `ClueParser.ParseIgnoresCase` and the case lemmas below |
| ClueParser.ParseLowered | predicates.go:110-197 | the switch, case by case in the source's order; its meaning is stated by `ClueParser.ParseRejectsUnknown` and the case lemmas below |
| ClueParser.ParseIgnoresCase | predicates.go:108 | the clue is lower-cased first, so clues that differ only in case parse alike |
| ClueParser.ParseRejectsUnknown | predicates.go:195-196 | a clue in none of the known forms fails, naming the lower-cased clue, and every clue that parses has a known form |
| ClueParser.ParseInfinity | predicates.go:195-196 | "infinity" is an unknown clue, so it fails and does not accept every word |
| ClueParser.ParseStartsWith | predicates.go:112-113 | "Starts with X", in any case, accepts exactly the words that start with lower-cased X |
| ClueParser.ParseEndsWith | predicates.go:115-116 | "ends with X" is the suffix matcher for lower-cased X |
| ClueParser.ParseContainsTheLetter | predicates.go:118-120 | "contains the letter X" is tried before "contains", and X is one trimmed operand even when it holds a comma |
| ClueParser.ParseContains | predicates.go:123-129 | any other "contains" clue is split at commas, and each part is trimmed into an operand that must occur |
| ClueParser.ParseContainsLettersExample | predicates_test.go:778-783 | "Contains e, l" becomes the two operands "e" and "l", and "hello" passes |
| ClueParser.ParseContainsSequenceExample | predicates_test.go:790-795 | "Contains el" is the single operand "el", and "hello" passes |
| ClueParser.OperandsExamples | predicates.go:124-127 | "e, l" gives the operands "e" and "l"; "el" gives the single operand "el" |
| ClueParser.ParseDoesNotContain | predicates.go:131-136 | "does not contain X, Y" is split and trimmed the same way, and no part may occur |
| ClueParser.ParseBetweenForm | predicates.go:138-142 | a clue starting with "between" is read by the scanner alone, whatever its case |
| ClueParser.ParseBetween | predicates.go:138-142 | "between L and H letters" accepts exactly the words of length L to H |
| ClueParser.ParseBetweenWithoutLow | predicates.go:139-142 | when no number follows "between", the ignored scan error leaves both bounds 0, so only the empty word passes |
| ClueParser.ParseBetweenWithoutHigh | predicates.go:139-142 | a lower bound read before the mismatch is kept while the upper bound stays 0, so a positive lower bound accepts no word |
| ClueParser.ParseMultipleLetter | predicates.go:144-147 | "multiple letter X's" counts X, with the "'s" removed |
| ClueParser.ParseMultiple | predicates.go:149-152 | "multiple X's" counts X when X does not start with "letter" |
| ClueParser.ParseDoubleLetter | predicates.go:154-155 | "double letter", in any case, is the adjacent-pair matcher |
| ClueParser.ParseStartsAndEndsWith | predicates.go:157-159 | "starts & ends with X" uses lower-cased X as both prefix and suffix and is not shadowed by "starts with" |
| ClueParser.ParseFewer | predicates.go:161-164 | "N letters or fewer" becomes "length below N + 1" and accepts exactly the words of at most N letters, for every integer N |
| ClueParser.FewerCount | predicates.go:161-164 | the "or fewer" case: `strconv.Atoi`, then "length below N + 1"; its meaning is stated by `ClueParser.ParseFewer` and `ClueParser.FewerAccepts` |
| ClueParser.FewerAccepts | predicates.go:164 | a "below N + 1" matcher accepts exactly the words of at most N letters |
| ClueParser.ParseMore | predicates.go:166-169 | "N letters or more" becomes "length above N - 1" and accepts exactly the words of at least N letters |
| ClueParser.MoreCount | predicates.go:166-169 | the "or more" case: `strconv.Atoi`, then "length above N - 1"; its meaning is stated by `ClueParser.ParseMore` and `ClueParser.MoreAccepts` |
| ClueParser.MoreAccepts | predicates.go:169 | an "above N - 1" matcher accepts exactly the words of at least N letters |
| ClueParser.ParseBadCount | predicates.go:161-169 | a count that `strconv.Atoi` rejects, before a suffix that no keyword case claims, makes both numeric clues fail with that count |
| ClueParser.ParseSpelledCount | predicates.go:161-169 | a spelled-out count is no integer: "Five letters or fewer" and "Five letters or more" fail, naming "five" |
| ClueParser.ParseLetterWord | predicates.go:171-194 | a "letter word" clue whose first word is no keyword is looked up among the spelled-out numbers: a known one fixes the length, any other fails |
| ClueParser.NumberWord | predicates.go:173-194 | the inner switch: "two" to "ten" name a length from 2 to 10, any other word is unknown |
| ClueParser.NumberNameFacts | predicates.go:173-191 | each of "two" to "ten" is lower case, names its value and starts with no keyword |
| ClueParser.ParseNumberWord | predicates.go:173-191 | "two letter word" to "ten letter word" accept exactly the words of 2 to 10 letters |
| ClueParser.ParseUnknownNumberWord | predicates.go:192-193 | any other word before " letter word" fails, naming that word |
| Solver.SplitWords | main.go:59 | the dictionary has at least one entry and no entry holds a line feed |
| Solver.SplitWordsCount | main.go:59 | there is one entry per line feed of the raw text, plus one; joining the entries with "\n" gives back the normalised text |
| Solver.SplitWordsOfLines | main.go:59 | a dictionary of "\r\n"-terminated lines, or of "\n"-terminated lines without carriage returns, gives back its lines |
| Solver.EmptyEntryKept | main.go:59 | empty entries are kept: "" is one empty entry, and an empty line reaches every cell whose clues accept the empty word |
| Solver.Filter | main.go:65-70 | every word kept is accepted by both clues, and no more words are kept than the dictionary holds |
| Solver.FilterAppend | main.go:66-70 | filtering keeps dictionary order: it distributes over concatenation |
| Solver.FilterMultiplicity | main.go:65-70 | an accepted word is kept exactly as often as the dictionary holds it; a rejected word is never kept |
| Solver.FilterMembership | main.go:65-70 | a word is in a cell exactly when it is in the dictionary and both clues accept it |
| Solver.FilterSymmetric | main.go:67 | asking the row clue first would give the same words |
| Solver.ColumnCells | main.go:64-78 | one column contributes one cell per row clue |
| Solver.CellOf | main.go:65-77 | one cell: the name "column & row", both conditions and the filtered words; its meaning is stated by `Solver.SolutionsShape` and `Solver.FilterMembership` |
| Solver.Solutions | main.go:62-79 | the column-major list of cells that the nested loops build; its meaning is stated by `Solver.SolutionsLength` and `Solver.SolutionsShape` |
| Solver.GetSolutions | main.go:55-82 | the three nested loops return exactly the column-major grid of cells of the split dictionary |
| Solver.SolutionsLength | main.go:62-79 | there is one result per pair of a column clue and a row clue |
| Solver.SolutionsShape | main.go:62-79 | result `i * rows + j` joins column `i` with row `j`: name "column & row", both conditions, and the filtered words |
| Layout.Cell | main.go:46 | `fmt.Fprintf(&sb, "%-*s  ", maxLength, w)`: the word left-aligned and padded to the width, then two spaces; its meaning is stated by `Layout.CellShape` |
| Layout.Rows | main.go:39 | the number of lines, rounded up, and at least one for a non-empty list; its bounds are stated by `Layout.RowsBound` |
| Layout.Render | main.go:26-53 | the text `prettyPrint` builds, line by line; its meaning is stated by `Layout.RenderCell`, `Layout.WordPrinted`, `Layout.LineShape` and `Layout.LineCount` |
| Layout.MaxLength | main.go:32-37 | no word is longer than the result, some word has exactly that length, and an empty list gives 0 |
| Layout.LongestWord | main.go:32-37 | the loop computes the length of the longest word |
| Layout.Spaces | main.go:46 | the padding is that many spaces, none for a negative count |
| Layout.PrettyPrint | main.go:26-53 | the loops build exactly the column-major layout, and an empty list gives "" |
| Layout.PosValue | main.go:44 | the cell in line `i` and column `j` holds word `i + j * rows` |
| Layout.PaddedAt | main.go:46 | the padded entry `k` is the cell of word `k` |
| Layout.RowsBound | main.go:39 | `rows * columns >= n > (rows - 1) * columns`, with `1 <= rows <= n` |
| Layout.EveryWordPlaced | main.go:42-48 | every word has a cell: line `index % rows` and column `index / rows`, a column that exists |
| Layout.EveryWordOnce | main.go:44 | two cells with the same word index are in the same line and column |
| Layout.CellShape | main.go:46 | a cell is the word followed by spaces, `maxLength + 2` characters wide |
| Layout.LineShape | main.go:42-50 | each line starts with the cell of its first-column word and ends with a newline |
| Layout.LineCount | main.go:42-50 | without line feeds inside the words, the layout has exactly `rows` line feeds and ends with one |
| Layout.NextCell | main.go:43-48 | one more column adds the cell of word `i + j * rows` when that word exists, and nothing otherwise |
| Layout.CellsWidth | main.go:43-48 | the first `j` columns of a line are `j * (maxLength + 2)` characters when the word of column `j - 1` exists |
| Layout.ColumnsBefore | main.go:43-48 | before the column of word `i + j * rows`, line `i` holds `j * (maxLength + 2)` characters |
| Layout.RenderCell | main.go:42-48 | in line `i`, right after the first `j` columns, comes the cell of word `i + j * rows` whenever that word exists |
| Layout.WordPrinted | main.go:42-48 | every word is printed as its own cell in line `index % rows`, column `index / rows`, a line and a column that exist |

## Left out

- `getPredicates` (main.go:95-134) is not modelled: it fetches the day's clues over HTTP and decodes JSON. Clue texts are inputs here.
- `getGameNumber` (main.go:88-93) is not modelled: it depends on the wall clock and uses floating point.
- `main` (main.go:136-156) is not modelled: it reads and writes the web page and substitutes the results into it.
- The progress messages printed with `fmt.Println` are left out, including "No words found." in `prettyPrint`; they are side effects only.
- `os.ReadFile("words.txt")` and its `check` are not modelled: the raw dictionary text is a parameter of `Solver.GetSolutions`.
- web/src/main.js is not part of this model: it is the page's user interface.
- The panics of `check` and `panic` in `parsePredicate` are `ParseError` values. The model does not terminate a process.
- Text is ASCII, one `char` per byte. `strings.ToLower` lowers only A to Z. Byte length and `%-*s` padding width are the same thing. Non-ASCII runes are not modelled.
- `GoStrings.Count` with an empty needle gives the word length plus one, which is Go's rune count plus one for ASCII text.
- `GoStrings.Atoi` reads an optional sign and at least one decimal digit. It does not model the 64-bit range error.
- `ClueParser.ScanBetween` models `fmt.Sscanf` only for the template "between %d and %d letters".
- ClueParser.ParseFewer / ParseMore / ScanBetween: counts are unbounded integers. The model does not wrap `N + 1` and `N - 1` at 64 bits (predicates.go:164, 169), so "9223372036854775807 letters or fewer", which accepts no word in Go, accepts every word of at most that many letters here. `%d` has no range error here, whereas Go leaves an out-of-range bound at 0.
- `Layout.PrettyPrint` requires at least one column. Go divides by zero for 0 columns, and the caller always passes a positive count.
- `Layout.PrettyPrint` does not model `strings.Builder`'s buffer; the text is a growing sequence.
- `getSolutions` preallocates `results` with a capacity. The model does not track capacity, only contents.
- `Predicates.Eval` stands for the closures: a matcher is a `Pred` value, not a function value.
