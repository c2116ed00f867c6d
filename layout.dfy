/** `prettyPrint`: a word list laid out in columns. The list is read down the
    columns: with `rows` lines, word `i + j * rows` sits in line `i`, column `j`.
    Every cell is the word padded with spaces to the longest word's length,
    followed by two spaces, and every line ends with a newline. */
module Layout {
  import opened GoStrings

  /** The length of the longest word, 0 for no words. */
  function MaxLength(words: seq<string>): (m: nat)
    ensures forall k :: 0 <= k < |words| ==> |words[k]| <= m
    ensures words != [] ==> exists k :: 0 <= k < |words| && |words[k]| == m
    ensures words == [] ==> m == 0
    decreases |words|
  {
    if words == [] then 0
    else
      var front := MaxLength(words[..|words| - 1]);
      var last := |words[|words| - 1]|;
      assert forall k :: 0 <= k < |words| - 1 ==> words[..|words| - 1][k] == words[k];
      if last > front then last else front
  }

  /** `n` spaces. */
  function Spaces(n: int): (r: string)
    ensures |r| == if n < 0 then 0 else n
    ensures forall k :: 0 <= k < |r| ==> r[k] == ' '
    decreases n
  {
    if n <= 0 then [] else Spaces(n - 1) + " "
  }

  /** `%-*s  `: the word left-aligned in a field of `width` characters, then two spaces. */
  function Cell(word: string, width: int): string {
    word + Spaces(width - |word|) + "  "
  }

  /** The number of lines: the word count divided by the column count, rounded up. */
  function Rows(n: nat, columns: nat): (rows: nat)
    requires columns >= 1
    ensures n >= 1 ==> rows >= 1
  {
    (n + columns - 1) / columns
  }

  /** The list position of line `i`, column `j`: `j` columns of `rows` words each, then `i`. */
  function Pos(i: nat, j: nat, rows: nat): nat
    decreases j
  {
    if j == 0 then i else Pos(i, j - 1, rows) + rows
  }

  lemma {:induction false} PosValue(i: nat, j: nat, rows: nat)
    ensures Pos(i, j, rows) == i + j * rows
    decreases j
  {
    if j > 0 {
      PosValue(i, j - 1, rows);
      assert (j - 1) * rows + rows == j * rows;
    }
  }

  /** Every word as its cell, in list order. */
  function Padded(words: seq<string>, width: int): (cells: seq<string>)
    ensures |cells| == |words|
    decreases |words|
  {
    if words == [] then []
    else Padded(words[..|words| - 1], width) + [Cell(words[|words| - 1], width)]
  }

  /** Entry `k` of the padded list is the cell of word `k`. */
  lemma {:induction false} PaddedAt(words: seq<string>, width: int, k: nat)
    requires k < |words|
    ensures Padded(words, width)[k] == Cell(words[k], width)
    decreases |words|
  {
    if k < |words| - 1 {
      PaddedAt(words[..|words| - 1], width, k);
    }
  }

  /** The cell at list position `index`; a position past the list has no cell. */
  function CellAt(cells: seq<string>, index: nat): string {
    if index < |cells| then cells[index] else ""
  }

  /** Line `i` in the first `j` columns. */
  function Cells(cells: seq<string>, rows: nat, i: nat, j: nat): string
    decreases j
  {
    if j == 0 then "" else Cells(cells, rows, i, j - 1) + CellAt(cells, Pos(i, j - 1, rows))
  }

  /** Line `i`: its cells and the newline. */
  function Line(cells: seq<string>, rows: nat, columns: nat, i: nat): string {
    Cells(cells, rows, i, columns) + "\n"
  }

  /** The first `i` lines. */
  function Lines(cells: seq<string>, rows: nat, columns: nat, i: nat): string
    decreases i
  {
    if i == 0 then "" else Lines(cells, rows, columns, i - 1) + Line(cells, rows, columns, i - 1)
  }

  /** The whole layout; nothing at all for an empty list. */
  function Render(words: seq<string>, columns: nat): string
    requires columns >= 1
  {
    if words == [] then ""
    else
      var rows := Rows(|words|, columns);
      Lines(Padded(words, MaxLength(words)), rows, columns, rows)
  }

  /** The source's loops: the longest length first, then line by line and
      column by column into a growing text. */
  method PrettyPrint(words: seq<string>, columns: nat) returns (out: string)
    requires columns >= 1
    ensures out == Render(words, columns)
    ensures words == [] ==> out == ""
  {
    if |words| == 0 {
      return "";
    }

    var maxLength := LongestWord(words);
    ghost var cells := Padded(words, maxLength);
    var rows := (|words| + columns - 1) / columns;
    assert rows == Rows(|words|, columns);
    var sb := "";
    assert Lines(cells, rows, columns, 0) == "";
    for i := 0 to rows
      invariant sb == Lines(cells, rows, columns, i)
    {
      ghost var done := sb;
      assert Cells(cells, rows, i, 0) == "";
      for j := 0 to columns
        invariant sb == done + Cells(cells, rows, i, j)
      {
        PosValue(i, j, rows);
        var index := i + j * rows;
        NextCell(words, maxLength, cells, rows, done, i, j);
        if index < |words| {
          sb := sb + Cell(words[index], maxLength);
        }
      }
      LinesStep(cells, rows, columns, i);
      sb := sb + "\n";
    }
    return sb;
  }

  /** The first loop of prettyPrint: the length of the longest word. */
  method LongestWord(words: seq<string>) returns (maxLength: nat)
    ensures maxLength == MaxLength(words)
  {
    maxLength := 0;
    for k := 0 to |words|
      invariant maxLength == MaxLength(words[..k])
    {
      assert words[..k + 1][..k] == words[..k];
      if |words[k]| > maxLength {
        maxLength := |words[k]|;
      }
    }
    assert words[..|words|] == words;
  }

  /** One more column of line `i`, after the lines before it: the cell of word
      `i + j * rows` when there is such a word, nothing otherwise. */
  lemma NextCell(words: seq<string>, width: int, cells: seq<string>, rows: nat, done: string, i: nat, j: nat)
    requires cells == Padded(words, width)
    ensures done + Cells(cells, rows, i, j + 1)
            == done + Cells(cells, rows, i, j) + (if i + j * rows < |words| then Cell(words[i + j * rows], width) else "")
  {
    PosValue(i, j, rows);
    CellAtPadded(words, width, cells, i + j * rows);
    AppendAssoc(done, Cells(cells, rows, i, j), CellAt(cells, Pos(i, j, rows)));
  }

  lemma CellAtPadded(words: seq<string>, width: int, cells: seq<string>, index: nat)
    requires cells == Padded(words, width)
    ensures CellAt(cells, index) == if index < |words| then Cell(words[index], width) else ""
  {
    if index < |words| {
      PaddedAt(words, width, index);
    }
  }

  /** Line `i` closed by its newline. */
  lemma LinesStep(cells: seq<string>, rows: nat, columns: nat, i: nat)
    ensures Lines(cells, rows, columns, i + 1) == Lines(cells, rows, columns, i) + Cells(cells, rows, i, columns) + "\n"
  {
  }

  // ---------------------------------------------------------------------
  // What the layout promises
  // ---------------------------------------------------------------------

  lemma {:induction false} MulAtLeast(e: nat, d: nat)
    requires e >= 1
    ensures e * d >= d
    decreases e
  {
    if e > 1 {
      MulAtLeast(e - 1, d);
      assert e * d == (e - 1) * d + d;
    }
  }

  /** For a < b, b * d is at least a * d plus one more d. */
  lemma MulLess(a: int, b: int, d: nat)
    requires a < b
    ensures a * d + d <= b * d
  {
    MulAtLeast(b - a, d);
    assert (b - a) * d == b * d - a * d;
  }

  /** Multiplying by a positive factor keeps the order of the other factors. */
  lemma MulCancel(a: int, b: int, d: nat)
    requires d >= 1 && a * d <= b * d
    ensures a <= b
  {
    if a > b {
      MulLess(b, a, d);
    }
  }

  lemma MulCancelStrict(a: int, b: int, d: nat)
    requires a * d < b * d
    ensures a < b
  {
    if a > b {
      MulLess(b, a, d);
    }
  }

  /** `rows` is the word count over the column count, rounded up: the lines
      have room for every word, and one line fewer would not. */
  lemma RowsBound(n: nat, columns: nat)
    requires columns >= 1 && n >= 1
    ensures Rows(n, columns) * columns >= n > (Rows(n, columns) - 1) * columns
    ensures 1 <= Rows(n, columns) <= n
  {
    var rows := Rows(n, columns);
    var q := n + columns - 1;
    assert q == rows * columns + q % columns;
    assert (rows - 1) * columns == rows * columns - columns;
    if rows < 1 {
      MulLess(rows, 1, columns);
    }
    MulAtLeast(n, columns);
    assert (n - 1) * columns == n * columns - columns;
    assert columns * (n - 1) >= n - 1 by {
      MulAtLeast(columns, n - 1);
    }
    MulCancel(rows, n, columns);
  }

  /** Word `index` has a cell: line `index % rows` and column `index / rows`,
      a column that exists. */
  lemma EveryWordPlaced(n: nat, columns: nat, index: nat)
    requires columns >= 1 && index < n
    ensures var rows := Rows(n, columns);
            index % rows < rows && index / rows < columns && index % rows + (index / rows) * rows == index
  {
    var rows := Rows(n, columns);
    RowsBound(n, columns);
    var j := index / rows;
    assert index == j * rows + index % rows;
    assert j * rows < columns * rows;
    MulCancelStrict(j, columns, rows);
  }

  /** No word has two cells: two places in the layout with the same index
      are the same line and the same column. */
  lemma EveryWordOnce(rows: nat, i: nat, j: nat, i': nat, j': nat)
    requires i < rows && i' < rows
    requires i + j * rows == i' + j' * rows
    ensures i == i' && j == j'
  {
    if j < j' {
      MulLess(j, j', rows);
    } else if j' < j {
      MulLess(j', j, rows);
    }
  }

  /** A cell is as wide as the longest word plus two: the word, then spaces. */
  lemma CellShape(word: string, width: int)
    requires |word| <= width
    ensures |Cell(word, width)| == width + 2
    ensures Cell(word, width)[..|word|] == word
    ensures forall k :: |word| <= k < width + 2 ==> Cell(word, width)[k] == ' '
  {
  }

  /** Each line starts with the cell of its first-column word, so no line is
      shorter than that cell and its newline; every line ends with a newline. */
  lemma LineShape(words: seq<string>, columns: nat, i: nat)
    requires columns >= 1 && words != [] && i < Rows(|words|, columns)
    ensures i < |words|
    ensures var line := Line(Padded(words, MaxLength(words)), Rows(|words|, columns), columns, i);
            HasPrefix(line, Cell(words[i], MaxLength(words)))
            && |line| >= MaxLength(words) + 3 && line[|line| - 1] == '\n'
  {
    var rows := Rows(|words|, columns);
    var m := MaxLength(words);
    var cells := Padded(words, m);
    RowsBound(|words|, columns);
    PaddedAt(words, m, i);
    CellsStart(cells, rows, i, columns);
    CellShape(words[i], m);
    PrefixExtends(Cells(cells, rows, i, columns), "\n", cells[i]);
  }

  lemma PrefixExtends(a: string, b: string, p: string)
    requires HasPrefix(a, p)
    ensures HasPrefix(a + b, p)
  {
    assert (a + b)[..|p|] == a[..|p|];
  }

  lemma {:induction false} CellsStart(cells: seq<string>, rows: nat, i: nat, j: nat)
    requires 1 <= j && i < |cells|
    ensures HasPrefix(Cells(cells, rows, i, j), cells[i])
    decreases j
  {
    var c := cells[i];
    if j > 1 {
      CellsStart(cells, rows, i, j - 1);
      var front := Cells(cells, rows, i, j - 1);
      var last := CellAt(cells, Pos(i, j - 1, rows));
      assert Cells(cells, rows, i, j) == front + last;
      assert (front + last)[..|c|] == front[..|c|];
    } else {
      assert Pos(i, 0, rows) == i;
      assert Cells(cells, rows, i, 0) == "";
      assert Cells(cells, rows, i, j) == "" + c;
    }
  }

  /** The first `j` columns of line `i` are `j` whole cells when the word of
      column `j - 1` exists, since the words of the earlier columns exist too. */
  lemma {:induction false} CellsWidth(words: seq<string>, rows: nat, i: nat, j: nat)
    requires j == 0 || i + (j - 1) * rows < |words|
    ensures |Cells(Padded(words, MaxLength(words)), rows, i, j)| == j * (MaxLength(words) + 2)
    decreases j
  {
    if j > 0 {
      var m := MaxLength(words);
      if j > 1 {
        assert (j - 2) * rows + rows == (j - 1) * rows;
        CellsWidth(words, rows, i, j - 1);
      }
      PosValue(i, j - 1, rows);
      var index := i + (j - 1) * rows;
      PaddedAt(words, m, index);
      CellShape(words[index], m);
      assert (j - 1) * (m + 2) + (m + 2) == j * (m + 2);
    }
  }

  lemma {:induction false} CellsPrefix(cells: seq<string>, rows: nat, i: nat, j: nat, k: nat)
    requires j <= k
    ensures HasPrefix(Cells(cells, rows, i, k), Cells(cells, rows, i, j))
    decreases k
  {
    if j < k {
      CellsPrefix(cells, rows, i, j, k - 1);
      PrefixExtends(Cells(cells, rows, i, k - 1), CellAt(cells, Pos(i, k - 1, rows)), Cells(cells, rows, i, j));
    }
  }

  /** `text` holds `c` from position `start` on. */
  predicate SlotHolds(text: string, start: nat, c: string) {
    start + |c| <= |text| && text[start..][..|c|] == c
  }

  /** In line `i` of the output, the cell of word `Pos(i, j, rows)` follows
      the first `j` columns, whenever that word exists. */
  lemma RenderCell(words: seq<string>, rows: nat, columns: nat, i: nat, j: nat)
    requires j < columns && Pos(i, j, rows) < |words|
    ensures SlotHolds(Line(Padded(words, MaxLength(words)), rows, columns, i),
                      |Cells(Padded(words, MaxLength(words)), rows, i, j)|,
                      Cell(words[Pos(i, j, rows)], MaxLength(words)))
  {
    var m := MaxLength(words);
    var cells := Padded(words, m);
    CellAtPadded(words, m, cells, Pos(i, j, rows));
    LinePrefix(cells, rows, columns, i, j + 1);
    SlotOf(Cells(cells, rows, i, j), Cell(words[Pos(i, j, rows)], m), Line(cells, rows, columns, i));
  }

  /** Line `i` starts with its first `j` columns. */
  lemma LinePrefix(cells: seq<string>, rows: nat, columns: nat, i: nat, j: nat)
    requires j <= columns
    ensures HasPrefix(Line(cells, rows, columns, i), Cells(cells, rows, i, j))
  {
    CellsPrefix(cells, rows, i, j, columns);
    PrefixExtends(Cells(cells, rows, i, columns), "\n", Cells(cells, rows, i, j));
  }

  /** The first `j` columns of line `i` are `j` whole cells. */
  lemma ColumnsBefore(words: seq<string>, rows: nat, i: nat, j: nat)
    requires i + j * rows < |words|
    ensures |Cells(Padded(words, MaxLength(words)), rows, i, j)| == j * (MaxLength(words) + 2)
  {
    if j > 0 {
      assert (j - 1) * rows + rows == j * rows;
    }
    CellsWidth(words, rows, i, j);
  }

  /** A text that starts with `front + c` holds `c` right after `front`. */
  lemma SlotOf(front: string, c: string, line: string)
    requires HasPrefix(line, front + c)
    ensures SlotHolds(line, |front|, c)
  {
    assert line[..|front + c|] == front + c;
    assert line[|front|..][..|c|] == line[..|front + c|][|front|..];
    assert (front + c)[|front|..] == c;
  }

  /** Every word is printed, in the line and column where column-major order
      puts it: word `index` is the cell in column `index / rows` of line
      `index % rows`, right after the first `index / rows` columns of that
      line (which are `(index / rows) * (m + 2)` characters wide, by
      `ColumnsBefore`). */
  lemma WordPrinted(words: seq<string>, columns: nat, index: nat)
    requires columns >= 1 && index < |words|
    ensures var rows := Rows(|words|, columns);
            var i := index % rows;
            var j := index / rows;
            var cells := Padded(words, MaxLength(words));
            i < rows && j < columns && Pos(i, j, rows) == index
            && SlotHolds(Line(cells, rows, columns, i), |Cells(cells, rows, i, j)|,
                         Cell(words[index], MaxLength(words)))
  {
    var rows := Rows(|words|, columns);
    EveryWordPlaced(|words|, columns, index);
    PosValue(index % rows, index / rows, rows);
    RenderCell(words, rows, columns, index % rows, index / rows);
  }

  lemma {:induction false} NotInCount(s: string, c: char)
    requires c !in s
    ensures multiset(s)[c] == 0
    decreases |s|
  {
    if |s| > 0 {
      NotInCount(s[1..], c);
      assert s == [s[0]] + s[1..];
    }
  }

  /** Without line breaks inside the words, the layout has exactly one line
      break per line: `rows` newline-terminated lines. */
  lemma LineCount(words: seq<string>, columns: nat)
    requires columns >= 1 && words != []
    requires forall k :: 0 <= k < |words| ==> '\n' !in words[k]
    ensures multiset(Render(words, columns))['\n'] == Rows(|words|, columns)
    ensures Render(words, columns)[|Render(words, columns)| - 1] == '\n'
  {
    var rows := Rows(|words|, columns);
    var cells := Padded(words, MaxLength(words));
    RowsBound(|words|, columns);
    forall k | 0 <= k < |cells|
      ensures '\n' !in cells[k]
    {
      PaddedAt(words, MaxLength(words), k);
      CellNoNewline(words[k], MaxLength(words));
    }
    LinesNewlines(cells, rows, columns, rows);
    LinesEnd(cells, rows, columns, rows);
  }

  lemma {:induction false} LinesNewlines(cells: seq<string>, rows: nat, columns: nat, i: nat)
    requires forall k :: 0 <= k < |cells| ==> '\n' !in cells[k]
    ensures multiset(Lines(cells, rows, columns, i))['\n'] == i
    decreases i
  {
    if i == 0 {
      assert Lines(cells, rows, columns, i) == "";
    } else {
      LinesNewlines(cells, rows, columns, i - 1);
      CellsNoNewline(cells, rows, i - 1, columns);
      NotInCount(Cells(cells, rows, i - 1, columns), '\n');
      NewlinesAppend(Cells(cells, rows, i - 1, columns), "\n");
      NewlinesAppend(Lines(cells, rows, columns, i - 1), Line(cells, rows, columns, i - 1));
    }
  }

  lemma LinesEnd(cells: seq<string>, rows: nat, columns: nat, i: nat)
    requires i > 0
    ensures var s := Lines(cells, rows, columns, i);
            |s| > 0 && s[|s| - 1] == '\n'
  {
    var front := Lines(cells, rows, columns, i - 1);
    var line := Line(cells, rows, columns, i - 1);
    assert Lines(cells, rows, columns, i) == front + line;
  }

  /** The padding of a cell holds no line break. */
  lemma CellNoNewline(w: string, width: int)
    requires '\n' !in w
    ensures '\n' !in Cell(w, width)
  {
    var sp := Spaces(width - |w|);
    assert '\n' !in sp;
    assert Cell(w, width) == w + sp + "  ";
  }

  lemma CellAtNoNewline(cells: seq<string>, index: nat)
    requires forall k :: 0 <= k < |cells| ==> '\n' !in cells[k]
    ensures '\n' !in CellAt(cells, index)
  {
  }

  lemma {:induction false} CellsNoNewline(cells: seq<string>, rows: nat, i: nat, j: nat)
    requires forall k :: 0 <= k < |cells| ==> '\n' !in cells[k]
    ensures '\n' !in Cells(cells, rows, i, j)
    decreases j
  {
    if j == 0 {
      assert Cells(cells, rows, i, j) == "";
    } else {
      var index := Pos(i, j - 1, rows);
      CellAtNoNewline(cells, index);
      CellsNoNewline(cells, rows, i, j - 1);
    }
  }
}
