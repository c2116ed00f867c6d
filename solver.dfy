/** `getSolutions`: every pair of a column clue and a row clue, with the
    dictionary words that satisfy both. The dictionary text is a parameter;
    the source reads it from "words.txt". */
module Solver {
  import opened GoStrings
  import opened Predicates

  /** A clue as the player sees it, with the matcher parsed from it. */
  datatype Predicate = Predicate(name: string, test: Pred)

  /** One cell of the grid: both clues and the words that fit them. */
  datatype Result = Result(name: string, condition1: string, condition2: string, words: seq<string>)

  /** Both clues accept `w`; the column clue is asked first. */
  predicate Accepts(col: Predicate, row: Predicate, w: string) {
    Eval(col.test, w) && Eval(row.test, w)
  }

  // ---------------------------------------------------------------------
  // The dictionary
  // ---------------------------------------------------------------------

  /** The entries of the dictionary text: every "\r\n" turned into "\n",
      then the text cut at every "\n". Empty entries are kept. */
  function SplitWords(raw: string): (words: seq<string>)
    ensures |words| >= 1
    ensures forall k :: 0 <= k < |words| ==> '\n' !in words[k]
  {
    Split(NormalizeNewlines(raw), '\n')
  }

  /** One entry per line break, plus one; joining the entries with "\n"
      gives back the normalised text. */
  lemma SplitWordsCount(raw: string)
    ensures |SplitWords(raw)| == multiset(raw)['\n'] + 1
    ensures Join(SplitWords(raw), "\n") == NormalizeNewlines(raw)
  {
    SplitCount(NormalizeNewlines(raw), '\n');
    NormalizeKeepsNewlines(raw);
    JoinSplit(NormalizeNewlines(raw), '\n');
  }

  /** Text without carriage returns is left as it is by the normalisation. */
  lemma {:induction false} NormalizeWithoutCR(s: string)
    requires '\r' !in s
    ensures NormalizeNewlines(s) == s
    decreases |s|
  {
    if |s| > 0 {
      NormalizeWithoutCR(s[1..]);
      assert s == [s[0]] + s[1..];
    }
  }

  lemma {:induction false} NoCRInJoin(lines: seq<string>)
    requires forall k :: 0 <= k < |lines| ==> '\r' !in lines[k]
    ensures '\r' !in Join(lines, "\n")
    decreases |lines|
  {
    if |lines| > 1 {
      NoCRInJoin(lines[1..]);
    }
  }

  /** A dictionary whose lines end in "\r\n" gives back its lines, and so does
      one whose lines end in "\n" as long as no line holds a carriage return. */
  lemma SplitWordsOfLines(lines: seq<string>)
    requires |lines| >= 1
    requires forall k :: 0 <= k < |lines| ==> '\n' !in lines[k]
    ensures SplitWords(Join(lines, "\r\n")) == lines
    ensures (forall k :: 0 <= k < |lines| ==> '\r' !in lines[k]) ==> SplitWords(Join(lines, "\n")) == lines
  {
    NormalizeCRLFJoin(lines);
    SplitJoin(lines, '\n');
    if forall k :: 0 <= k < |lines| ==> '\r' !in lines[k] {
      NoCRInJoin(lines);
      NormalizeWithoutCR(Join(lines, "\n"));
    }
  }

  // ---------------------------------------------------------------------
  // One cell
  // ---------------------------------------------------------------------

  /** The words of the dictionary that both clues accept, in dictionary order. */
  function Filter(col: Predicate, row: Predicate, words: seq<string>): (r: seq<string>)
    ensures |r| <= |words|
    ensures forall k :: 0 <= k < |r| ==> Accepts(col, row, r[k])
    decreases |words|
  {
    if words == [] then []
    else
      var front := Filter(col, row, words[..|words| - 1]);
      if Accepts(col, row, words[|words| - 1]) then front + [words[|words| - 1]] else front
  }

  /** The cell for one column clue and one row clue. */
  function CellOf(col: Predicate, row: Predicate, words: seq<string>): Result {
    Result(col.name + " & " + row.name, col.name, row.name, Filter(col, row, words))
  }

  /** Filtering keeps dictionary order: it distributes over concatenation. */
  lemma {:induction false} FilterAppend(col: Predicate, row: Predicate, a: seq<string>, b: seq<string>)
    ensures Filter(col, row, a + b) == Filter(col, row, a) + Filter(col, row, b)
    decreases |b|
  {
    if b == [] {
      assert a + b == a;
    } else {
      var b' := b[..|b| - 1];
      FilterAppend(col, row, a, b');
      assert (a + b)[..|a + b| - 1] == a + b';
      assert (a + b)[|a + b| - 1] == b[|b| - 1];
    }
  }

  /** Every accepted entry is kept as often as the dictionary holds it, and
      nothing else is kept: duplicates are preserved. */
  lemma {:induction false} FilterMultiplicity(col: Predicate, row: Predicate, words: seq<string>, w: string)
    ensures multiset(Filter(col, row, words))[w] == if Accepts(col, row, w) then multiset(words)[w] else 0
    decreases |words|
  {
    if words != [] {
      var front := words[..|words| - 1];
      FilterMultiplicity(col, row, front, w);
      assert words == front + [words[|words| - 1]];
    }
  }

  /** A word fits a cell exactly when it is in the dictionary and both clues accept it. */
  lemma FilterMembership(col: Predicate, row: Predicate, words: seq<string>, w: string)
    ensures w in Filter(col, row, words) <==> w in words && Accepts(col, row, w)
  {
    FilterMultiplicity(col, row, words, w);
    assert w in Filter(col, row, words) <==> multiset(Filter(col, row, words))[w] > 0;
    assert w in words <==> multiset(words)[w] > 0;
  }

  /** Asking the row clue first would give the same words. */
  lemma {:induction false} FilterSymmetric(col: Predicate, row: Predicate, words: seq<string>)
    ensures Filter(col, row, words) == Filter(row, col, words)
    decreases |words|
  {
    if words != [] {
      FilterSymmetric(col, row, words[..|words| - 1]);
    }
  }

  // ---------------------------------------------------------------------
  // The grid
  // ---------------------------------------------------------------------

  /** The cells of one column, row by row. */
  function ColumnCells(col: Predicate, rows: seq<Predicate>, words: seq<string>): (r: seq<Result>)
    ensures |r| == |rows|
    decreases |rows|
  {
    if rows == [] then []
    else ColumnCells(col, rows[..|rows| - 1], words) + [CellOf(col, rows[|rows| - 1], words)]
  }

  /** All cells, column by column. */
  function Solutions(cols: seq<Predicate>, rows: seq<Predicate>, words: seq<string>): seq<Result>
    decreases |cols|
  {
    if cols == [] then []
    else Solutions(cols[..|cols| - 1], rows, words) + ColumnCells(cols[|cols| - 1], rows, words)
  }

  /** The source's three nested loops, columns outermost. */
  method GetSolutions(rowPredicates: seq<Predicate>, colPredicates: seq<Predicate>, rawWords: string)
    returns (results: seq<Result>)
    ensures results == Solutions(colPredicates, rowPredicates, SplitWords(rawWords))
  {
    var words := Split(NormalizeNewlines(rawWords), '\n');
    results := [];
    for c := 0 to |colPredicates|
      invariant results == Solutions(colPredicates[..c], rowPredicates, words)
    {
      var col := colPredicates[c];
      for r := 0 to |rowPredicates|
        invariant results == Solutions(colPredicates[..c], rowPredicates, words) + ColumnCells(col, rowPredicates[..r], words)
      {
        var row := rowPredicates[r];
        var filtered := [];
        for k := 0 to |words|
          invariant filtered == Filter(col, row, words[..k])
        {
          var w := words[k];
          assert words[..k + 1][..k] == words[..k] && words[..k + 1][k] == w;
          if Eval(col.test, w) && Eval(row.test, w) {
            filtered := filtered + [w];
          }
        }
        assert words[..|words|] == words;
        assert rowPredicates[..r + 1][..r] == rowPredicates[..r] && rowPredicates[..r + 1][r] == row;
        assert ColumnCells(col, rowPredicates[..r + 1], words)
            == ColumnCells(col, rowPredicates[..r], words) + [CellOf(col, row, words)];
        results := results + [Result(col.name + " & " + row.name, col.name, row.name, filtered)];
      }
      assert rowPredicates[..|rowPredicates|] == rowPredicates;
      assert colPredicates[..c + 1][..c] == colPredicates[..c] && colPredicates[..c + 1][c] == col;
      assert Solutions(colPredicates[..c + 1], rowPredicates, words)
          == Solutions(colPredicates[..c], rowPredicates, words) + ColumnCells(col, rowPredicates, words);
    }
    assert colPredicates[..|colPredicates|] == colPredicates;
  }

  lemma {:induction false} ColumnCellsAt(col: Predicate, rows: seq<Predicate>, words: seq<string>, j: int)
    requires 0 <= j < |rows|
    ensures ColumnCells(col, rows, words)[j] == CellOf(col, rows[j], words)
    decreases |rows|
  {
    if j < |rows| - 1 {
      ColumnCellsAt(col, rows[..|rows| - 1], words, j);
    }
  }

  lemma MulStep(i: int, n: int, m: int)
    requires 0 <= i < n && 0 <= m
    ensures i * m + m <= n * m
  {
    assert (i + 1) * m <= n * m;
  }

  /** There is one cell per pair of clues, and the cell at `i * |rows| + j`
      joins column `i` with row `j`: its name is "column & row", its two
      conditions are the two clue texts and its words are the filtered
      dictionary. */
  lemma {:induction false} SolutionsShape(cols: seq<Predicate>, rows: seq<Predicate>, words: seq<string>, i: int, j: int)
    requires 0 <= i < |cols| && 0 <= j < |rows|
    ensures |Solutions(cols, rows, words)| == |cols| * |rows|
    ensures i * |rows| + j < |Solutions(cols, rows, words)|
    ensures Solutions(cols, rows, words)[i * |rows| + j] == CellOf(cols[i], rows[j], words)
    decreases |cols|
  {
    SolutionsLength(cols, rows, words);
    var n := |cols| - 1;
    var front := cols[..n];
    SolutionsLength(front, rows, words);
    MulStep(i, |cols|, |rows|);
    if i < n {
      MulStep(i, n, |rows|);
      SolutionsShape(front, rows, words, i, j);
    } else {
      ColumnCellsAt(cols[n], rows, words, j);
    }
  }

  lemma {:induction false} SolutionsLength(cols: seq<Predicate>, rows: seq<Predicate>, words: seq<string>)
    ensures |Solutions(cols, rows, words)| == |cols| * |rows|
    decreases |cols|
  {
    if cols != [] {
      SolutionsLength(cols[..|cols| - 1], rows, words);
      assert (|cols| - 1) * |rows| + |rows| == |cols| * |rows|;
    }
  }

  /** Empty entries are not dropped: an empty dictionary text is one empty
      entry, and an empty line reaches every cell whose clues both accept the
      empty word. */
  lemma EmptyEntryKept(col: Predicate, row: Predicate)
    ensures SplitWords("") == [""]
    ensures SplitWords("a\n\nb") == ["a", "", "b"]
    ensures Accepts(col, row, "") ==> "" in Filter(col, row, SplitWords("a\n\nb"))
  {
    SplitWordsOfLines(["a", "", "b"]);
    assert Join(["a", "", "b"], "\n") == "a\n\nb";
    FilterMembership(col, row, ["a", "", "b"], "");
  }
}
