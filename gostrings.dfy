/** The parts of Go's `strings` and `strconv` packages that the clue parser,
    the matchers and the solver rely on, over ASCII text (one `char` per byte). */
module GoStrings {
  import opened Wrappers

  // ---------------------------------------------------------------------
  // Prefixes and suffixes: strings.HasPrefix, HasSuffix, TrimPrefix, TrimSuffix
  // ---------------------------------------------------------------------

  predicate HasPrefix(s: string, prefix: string) {
    |prefix| <= |s| && s[..|prefix|] == prefix
  }

  predicate HasSuffix(s: string, suffix: string) {
    |suffix| <= |s| && s[|s| - |suffix|..] == suffix
  }

  /** `s` has prefix `p` exactly when `s` is `p` followed by something. */
  lemma PrefixMeaning(s: string, p: string)
    ensures HasPrefix(s, p) <==> exists rest :: s == p + rest
  {
    if HasPrefix(s, p) {
      assert s == p + s[|p|..];
    }
    forall rest | s == p + rest
      ensures HasPrefix(s, p)
    {
      assert s[..|p|] == p;
    }
  }

  /** `s` has suffix `x` exactly when `s` is something followed by `x`. */
  lemma SuffixMeaning(s: string, x: string)
    ensures HasSuffix(s, x) <==> exists front :: s == front + x
  {
    if HasSuffix(s, x) {
      assert s == s[..|s| - |x|] + x;
    }
    forall front | s == front + x
      ensures HasSuffix(s, x)
    {
      assert s[|s| - |x|..] == x;
    }
  }

  /** strings.TrimPrefix: drops `prefix` when it is there, else returns `s` unchanged. */
  function TrimPrefix(s: string, prefix: string): (r: string)
    ensures HasPrefix(s, prefix) ==> prefix + r == s
    ensures !HasPrefix(s, prefix) ==> r == s
  {
    if HasPrefix(s, prefix) then s[|prefix|..] else s
  }

  /** strings.TrimSuffix: drops `suffix` when it is there, else returns `s` unchanged. */
  function TrimSuffix(s: string, suffix: string): (r: string)
    ensures HasSuffix(s, suffix) ==> r + suffix == s
    ensures !HasSuffix(s, suffix) ==> r == s
  {
    if HasSuffix(s, suffix) then s[..|s| - |suffix|] else s
  }

  // ---------------------------------------------------------------------
  // Substrings: strings.Contains and strings.Count
  // ---------------------------------------------------------------------

  /** `sub` occurs in `s` starting at index `i`. */
  predicate OccursAt(s: string, sub: string, i: int) {
    0 <= i && i + |sub| <= |s| && s[i..i + |sub|] == sub
  }

  /** strings.Contains */
  predicate Contains(s: string, sub: string) {
    exists i | 0 <= i <= |s| - |sub| :: OccursAt(s, sub, i)
  }

  lemma OccursAtShift(s: string, sub: string, k: nat, i: int)
    requires k <= |s|
    ensures OccursAt(s[k..], sub, i) <==> i >= 0 && OccursAt(s, sub, i + k)
  {
    if 0 <= i && i + |sub| <= |s| - k {
      assert s[k..][i..i + |sub|] == s[i + k..i + k + |sub|];
    }
  }

  /** The plain meaning of "`sub` is a substring of `s`": `s` splits as `a + sub + b`. */
  ghost predicate IsInfix(sub: string, s: string) {
    exists a, b :: s == a + sub + b
  }

  /** strings.Contains agrees with the plain meaning. */
  lemma ContainsMeaning(s: string, sub: string)
    ensures Contains(s, sub) <==> IsInfix(sub, s)
  {
    if Contains(s, sub) {
      var i :| 0 <= i <= |s| - |sub| && OccursAt(s, sub, i);
      assert s == s[..i] + sub + s[i + |sub|..];
    }
    forall a, b | s == a + sub + b
      ensures Contains(s, sub)
    {
      assert s[|a|..|a| + |sub|] == sub;
      assert OccursAt(s, sub, |a|);
    }
  }

  /** strings.Count: the number of non-overlapping occurrences of `sub` in `s`,
      taken left to right; for an empty `sub` Go returns the rune count plus
      one, which for ASCII text is the length plus one. */
  function Count(s: string, sub: string): nat
    decreases |s|
  {
    if sub == [] then |s| + 1
    else if |s| < |sub| then 0
    else if HasPrefix(s, sub) then 1 + Count(s[|sub|..], sub)
    else Count(s[1..], sub)
  }

  /** Two occurrences of `sub` in `s` that do not overlap. */
  predicate TwoDisjointOccurrences(s: string, sub: string) {
    exists i, j | 0 <= i && i + |sub| <= j <= |s| - |sub| :: OccursAt(s, sub, i) && OccursAt(s, sub, j)
  }

  lemma ContainsSkipFirst(s: string, sub: string)
    requires |s| >= 1 && !OccursAt(s, sub, 0)
    ensures Contains(s, sub) <==> Contains(s[1..], sub)
  {
    if Contains(s, sub) {
      var i :| 0 <= i <= |s| - |sub| && OccursAt(s, sub, i);
      OccursAtShift(s, sub, 1, i - 1);
      assert OccursAt(s[1..], sub, i - 1);
    }
    if Contains(s[1..], sub) {
      var i :| 0 <= i <= |s[1..]| - |sub| && OccursAt(s[1..], sub, i);
      OccursAtShift(s, sub, 1, i);
      assert OccursAt(s, sub, i + 1);
    }
  }

  /** Counting finds at least one occurrence exactly when `sub` occurs at all. */
  lemma {:induction false} CountPositive(s: string, sub: string)
    requires sub != []
    ensures Count(s, sub) >= 1 <==> Contains(s, sub)
    decreases |s|
  {
    if |s| < |sub| {
    } else if HasPrefix(s, sub) {
      assert OccursAt(s, sub, 0);
    } else {
      CountPositive(s[1..], sub);
      assert !OccursAt(s, sub, 0);
      ContainsSkipFirst(s, sub);
    }
  }

  lemma SecondOccurrenceAfterFront(s: string, sub: string, k: int)
    requires sub != [] && HasPrefix(s, sub)
    requires 0 <= k <= |s[|sub|..]| - |sub| && OccursAt(s[|sub|..], sub, k)
    ensures TwoDisjointOccurrences(s, sub)
  {
    var n := |sub|;
    assert OccursAt(s, sub, 0);
    OccursAtShift(s, sub, n, k);
    assert OccursAt(s, sub, k + n);
  }

  lemma SecondOccurrenceInRest(s: string, sub: string)
    requires sub != [] && TwoDisjointOccurrences(s, sub)
    ensures |sub| <= |s| && Contains(s[|sub|..], sub)
  {
    var n := |sub|;
    var i, j :| 0 <= i && i + n <= j <= |s| - n && OccursAt(s, sub, i) && OccursAt(s, sub, j);
    OccursAtShift(s, sub, n, j - n);
    assert OccursAt(s[n..], sub, j - n);
  }

  lemma CountMoreThanOneAtFront(s: string, sub: string)
    requires sub != [] && HasPrefix(s, sub)
    ensures Count(s[|sub|..], sub) >= 1 <==> TwoDisjointOccurrences(s, sub)
  {
    var rest := s[|sub|..];
    CountPositive(rest, sub);
    if Contains(rest, sub) {
      var k :| 0 <= k <= |rest| - |sub| && OccursAt(rest, sub, k);
      SecondOccurrenceAfterFront(s, sub, k);
    }
    if TwoDisjointOccurrences(s, sub) {
      SecondOccurrenceInRest(s, sub);
    }
  }

  lemma TwoDisjointSkipFirst(s: string, sub: string)
    requires |s| >= 1 && !OccursAt(s, sub, 0)
    ensures TwoDisjointOccurrences(s, sub) <==> TwoDisjointOccurrences(s[1..], sub)
  {
    if TwoDisjointOccurrences(s, sub) {
      TwoDisjointDrop(s, sub);
    }
    if TwoDisjointOccurrences(s[1..], sub) {
      TwoDisjointKeep(s, sub);
    }
  }

  lemma TwoDisjointDrop(s: string, sub: string)
    requires |s| >= 1 && !OccursAt(s, sub, 0) && TwoDisjointOccurrences(s, sub)
    ensures TwoDisjointOccurrences(s[1..], sub)
  {
    var n := |sub|;
    var i, j :| 0 <= i && i + n <= j <= |s| - n && OccursAt(s, sub, i) && OccursAt(s, sub, j);
    OccursAtShift(s, sub, 1, i - 1);
    OccursAtShift(s, sub, 1, j - 1);
    assert OccursAt(s[1..], sub, i - 1) && OccursAt(s[1..], sub, j - 1);
  }

  lemma TwoDisjointKeep(s: string, sub: string)
    requires |s| >= 1 && TwoDisjointOccurrences(s[1..], sub)
    ensures TwoDisjointOccurrences(s, sub)
  {
    var n := |sub|;
    var i, j :| 0 <= i && i + n <= j <= |s[1..]| - n && OccursAt(s[1..], sub, i) && OccursAt(s[1..], sub, j);
    OccursAtShift(s, sub, 1, i);
    OccursAtShift(s, sub, 1, j);
    assert OccursAt(s, sub, i + 1) && OccursAt(s, sub, j + 1);
  }

  /** The count exceeds one exactly when `sub` occurs twice without overlap;
      overlapping occurrences, such as the two "aa" in "aaa", do not add up. */
  lemma {:induction false} CountMoreThanOne(s: string, sub: string)
    requires sub != []
    ensures Count(s, sub) > 1 <==> TwoDisjointOccurrences(s, sub)
    decreases |s|
  {
    if |s| < |sub| {
    } else if HasPrefix(s, sub) {
      CountMoreThanOneAtFront(s, sub);
    } else {
      CountMoreThanOne(s[1..], sub);
      TwoDisjointSkipFirst(s, sub);
    }
  }

  // ---------------------------------------------------------------------
  // White space and case: strings.TrimSpace and strings.ToLower
  // ---------------------------------------------------------------------

  /** ASCII white space as strings.TrimSpace sees it: tab, newline, vertical
      tab, form feed, carriage return and space. */
  predicate IsSpace(c: char) {
    c == ' ' || '\t' <= c <= '\r'
  }

  function TrimLeft(s: string): (r: string)
    ensures |r| <= |s| && r == s[|s| - |r|..]
    ensures forall k :: 0 <= k < |s| - |r| ==> IsSpace(s[k])
    ensures r == [] || !IsSpace(r[0])
    decreases |s|
  {
    if |s| > 0 && IsSpace(s[0]) then TrimLeft(s[1..]) else s
  }

  function TrimRight(s: string): (r: string)
    ensures |r| <= |s| && r == s[..|r|]
    ensures forall k :: |r| <= k < |s| ==> IsSpace(s[k])
    ensures r == [] || !IsSpace(r[|r| - 1])
    decreases |s|
  {
    if |s| > 0 && IsSpace(s[|s| - 1]) then TrimRight(s[..|s| - 1]) else s
  }

  predicate AllSpace(s: string) {
    forall k :: 0 <= k < |s| ==> IsSpace(s[k])
  }

  /** `r` is `s` with the white-space run `s[..i]` removed in front and only
      white space removed behind. */
  predicate TrimmedAt(s: string, r: string, i: int) {
    0 <= i <= |s| - |r| && r == s[i..i + |r|] && AllSpace(s[..i]) && AllSpace(s[i + |r|..])
  }

  /** strings.TrimSpace: the result is the part of `s` left after removing
      the white space at both ends, and it neither starts nor ends with white space. */
  function TrimSpace(s: string): (r: string)
    ensures r == [] || (!IsSpace(r[0]) && !IsSpace(r[|r| - 1]))
    ensures exists i :: TrimmedAt(s, r, i)
  {
    var left := TrimLeft(s);
    var r := TrimRight(left);
    var i := |s| - |left|;
    assert TrimmedAt(s, r, i);
    r
  }

  /** strings.ToLower on one ASCII character. */
  function LowerChar(c: char): char {
    if 'A' <= c <= 'Z' then (c as int + 32) as char else c
  }

  /** strings.ToLower: ASCII upper-case letters become lower case, all else is kept. */
  function ToLower(s: string): (r: string)
    ensures |r| == |s| && forall k :: 0 <= k < |s| ==> r[k] == LowerChar(s[k])
  {
    seq(|s|, k requires 0 <= k < |s| => LowerChar(s[k]))
  }

  /** Lower-casing twice is lower-casing once, and no upper-case letter survives it. */
  lemma ToLowerIdempotent(s: string)
    ensures ToLower(ToLower(s)) == ToLower(s)
    ensures forall k :: 0 <= k < |s| ==> !('A' <= ToLower(s)[k] <= 'Z')
  {
    assert forall k :: 0 <= k < |s| ==> LowerChar(LowerChar(s[k])) == LowerChar(s[k]);
  }

  lemma ToLowerAppend(a: string, b: string)
    ensures ToLower(a + b) == ToLower(a) + ToLower(b)
  {
  }

  /** Text without upper-case letters is left unchanged by lower-casing. */
  lemma ToLowerOfLower(s: string)
    requires forall k :: 0 <= k < |s| ==> !('A' <= s[k] <= 'Z')
    ensures ToLower(s) == s
  {
  }

  // ---------------------------------------------------------------------
  // strings.Split and strings.Join with a one-character separator
  // ---------------------------------------------------------------------

  /** strings.Split(s, sep) for a one-character separator: the pieces between
      separators, always at least one, none holding the separator. */
  function Split(s: string, sep: char): (parts: seq<string>)
    ensures |parts| >= 1
    ensures forall k :: 0 <= k < |parts| ==> sep !in parts[k]
    decreases |s|
  {
    if |s| == 0 then [""]
    else
      var rest := Split(s[1..], sep);
      if s[0] == sep then [""] + rest
      else [[s[0]] + rest[0]] + rest[1..]
  }

  /** strings.Join */
  function Join(parts: seq<string>, sep: string): string {
    if |parts| == 0 then ""
    else if |parts| == 1 then parts[0]
    else parts[0] + sep + Join(parts[1..], sep)
  }

  /** Splitting gives one piece more than there are separators. */
  lemma {:induction false} SplitCount(s: string, sep: char)
    ensures |Split(s, sep)| == multiset(s)[sep] + 1
    decreases |s|
  {
    if |s| > 0 {
      SplitCount(s[1..], sep);
      assert s == [s[0]] + s[1..];
      assert multiset(s) == multiset([s[0]]) + multiset(s[1..]);
    }
  }

  /** Joining the pieces with the separator gives back the text. */
  lemma {:induction false} JoinSplit(s: string, sep: char)
    ensures Join(Split(s, sep), [sep]) == s
    decreases |s|
  {
    if |s| > 0 {
      JoinSplit(s[1..], sep);
      var rest := Split(s[1..], sep);
      if s[0] == sep {
        assert Split(s, sep) == [""] + rest;
        assert ([""] + rest)[1..] == rest;
        assert s == [sep] + s[1..];
      } else if |rest| == 1 {
        assert s == [s[0]] + s[1..];
      } else {
        var parts := Split(s, sep);
        assert parts[1..] == rest[1..];
        assert Join(rest, [sep]) == rest[0] + [sep] + Join(rest[1..], [sep]);
        assert s == [s[0]] + s[1..];
      }
    }
  }

  lemma {:induction false} SplitAppend(p: string, t: string, sep: char)
    requires sep !in p
    ensures Split(p + t, sep) == [p + Split(t, sep)[0]] + Split(t, sep)[1..]
    decreases |p|
  {
    if |p| > 0 {
      SplitAppend(p[1..], t, sep);
      var st := Split(t, sep);
      var r := Split(p[1..] + t, sep);
      assert (p + t)[0] == p[0] && (p + t)[1..] == p[1..] + t;
      assert r[0] == p[1..] + st[0] && r[1..] == st[1..];
      assert Split(p + t, sep) == [[p[0]] + r[0]] + r[1..];
      assert [p[0]] + (p[1..] + st[0]) == p + st[0];
    } else {
      var st := Split(t, sep);
      assert p + t == t;
      assert p + st[0] == st[0];
      assert st == [st[0]] + st[1..];
    }
  }

  /** Splitting a join of separator-free pieces gives the pieces back. */
  lemma {:induction false} SplitJoin(parts: seq<string>, sep: char)
    requires |parts| >= 1
    requires forall k :: 0 <= k < |parts| ==> sep !in parts[k]
    ensures Split(Join(parts, [sep]), sep) == parts
    decreases |parts|
  {
    if |parts| == 1 {
      SplitAppend(parts[0], "", sep);
      assert parts[0] + "" == parts[0];
    } else {
      var tail := Join(parts[1..], [sep]);
      SplitJoin(parts[1..], sep);
      assert Join(parts, [sep]) == parts[0] + ([sep] + tail);
      SplitAppend(parts[0], [sep] + tail, sep);
      var st := Split([sep] + tail, sep);
      assert ([sep] + tail)[0] == sep && ([sep] + tail)[1..] == tail;
      assert st == [""] + parts[1..];
      assert st[0] == "" && st[1..] == parts[1..];
      assert parts[0] + "" == parts[0];
      assert parts == [parts[0]] + parts[1..];
    }
  }

  // ---------------------------------------------------------------------
  // strings.ReplaceAll(s, "\r\n", "\n")
  // ---------------------------------------------------------------------

  /** Replaces every "\r\n" by "\n", scanning left to right as strings.ReplaceAll does. */
  function NormalizeNewlines(s: string): string
    decreases |s|
  {
    if |s| >= 2 && s[0] == '\r' && s[1] == '\n' then "\n" + NormalizeNewlines(s[2..])
    else if |s| == 0 then ""
    else [s[0]] + NormalizeNewlines(s[1..])
  }

  lemma AppendAssoc(a: string, b: string, c: string)
    ensures a + b + c == a + (b + c)
  {
  }

  /** Line feeds add up over concatenation. */
  lemma NewlinesAppend(a: string, b: string)
    ensures multiset(a + b)['\n'] == multiset(a)['\n'] + multiset(b)['\n']
  {
    assert multiset(a + b) == multiset(a) + multiset(b);
  }

  /** Normalising line ends keeps every line feed. */
  lemma {:induction false} NormalizeKeepsNewlines(s: string)
    ensures multiset(NormalizeNewlines(s))['\n'] == multiset(s)['\n']
    decreases |s|
  {
    if |s| >= 2 && s[0] == '\r' && s[1] == '\n' {
      NormalizeKeepsNewlines(s[2..]);
      NormalizeStepCRLF(s);
    } else if |s| > 0 {
      NormalizeKeepsNewlines(s[1..]);
      NormalizeStepChar(s[0], s[1..]);
      assert s == [s[0]] + s[1..];
    }
  }

  lemma NormalizeStepCRLF(s: string)
    requires |s| >= 2 && s[0] == '\r' && s[1] == '\n'
    requires multiset(NormalizeNewlines(s[2..]))['\n'] == multiset(s[2..])['\n']
    ensures multiset(NormalizeNewlines(s))['\n'] == multiset(s)['\n']
  {
    var rest := s[2..];
    assert s == "\r\n" + rest;
    NewlinesAppend("\r\n", rest);
    NewlinesAppend("\n", NormalizeNewlines(rest));
  }

  lemma NormalizeStepChar(c: char, rest: string)
    requires !(c == '\r' && |rest| >= 1 && rest[0] == '\n')
    requires multiset(NormalizeNewlines(rest))['\n'] == multiset(rest)['\n']
    ensures multiset(NormalizeNewlines([c] + rest))['\n'] == multiset([c] + rest)['\n']
  {
    var s := [c] + rest;
    assert s[0] == c && s[1..] == rest;
    NewlinesAppend([c], rest);
    NewlinesAppend([c], NormalizeNewlines(rest));
  }

  lemma {:induction false} NormalizeLineThenCRLF(p: string, rest: string)
    requires '\n' !in p
    ensures NormalizeNewlines(p + "\r\n" + rest) == p + "\n" + NormalizeNewlines(rest)
    decreases |p|
  {
    var s := p + "\r\n" + rest;
    if |p| == 0 {
      assert s == "\r\n" + rest;
      assert s[2..] == rest;
    } else {
      NormalizeLineThenCRLF(p[1..], rest);
      assert s[1] != '\n';
      assert s[1..] == p[1..] + "\r\n" + rest;
    }
  }

  lemma {:induction false} NormalizeLine(p: string)
    requires '\n' !in p
    ensures NormalizeNewlines(p) == p
    decreases |p|
  {
    if |p| > 0 {
      NormalizeLine(p[1..]);
    }
  }

  /** Text whose lines are joined with "\r\n" normalises to the same lines joined with "\n". */
  lemma {:induction false} NormalizeCRLFJoin(lines: seq<string>)
    requires forall k :: 0 <= k < |lines| ==> '\n' !in lines[k]
    ensures NormalizeNewlines(Join(lines, "\r\n")) == Join(lines, "\n")
    decreases |lines|
  {
    if |lines| == 1 {
      NormalizeLine(lines[0]);
    } else if |lines| > 1 {
      NormalizeCRLFJoin(lines[1..]);
      NormalizeLineThenCRLF(lines[0], Join(lines[1..], "\r\n"));
    }
  }

  // ---------------------------------------------------------------------
  // Decimal integers: strconv.Atoi
  // ---------------------------------------------------------------------

  predicate IsDigit(c: char) {
    '0' <= c <= '9'
  }

  predicate AllDigits(s: string) {
    forall k :: 0 <= k < |s| ==> IsDigit(s[k])
  }

  /** The value of a run of decimal digits. */
  function DigitsValue(s: string): nat
    requires AllDigits(s)
    decreases |s|
  {
    if s == [] then 0 else DigitsValue(s[..|s| - 1]) * 10 + (s[|s| - 1] as int - '0' as int)
  }

  /** strconv.Atoi: an optional sign followed by at least one decimal digit;
      anything else is an error. */
  function Atoi(s: string): Option<int> {
    if |s| == 0 then None
    else if s[0] == '+' || s[0] == '-' then
      var digits := s[1..];
      if |digits| > 0 && AllDigits(digits) then
        var v: int := DigitsValue(digits);
        Some(if s[0] == '-' then -v else v)
      else None
    else if AllDigits(s) then Some(DigitsValue(s))
    else None
  }

  function DigitChar(d: nat): char
    requires d < 10
  {
    ('0' as int + d) as char
  }

  /** The decimal rendering of a natural number, most significant digit first. */
  function NatToDecimal(n: nat): (s: string)
    decreases n
  {
    if n < 10 then [DigitChar(n)] else NatToDecimal(n / 10) + [DigitChar(n % 10)]
  }

  /** The decimal rendering of an integer, with a leading '-' when negative. */
  function IntToDecimal(n: int): string {
    if n < 0 then "-" + NatToDecimal(-n) else NatToDecimal(n)
  }

  /** A rendering is a non-empty run of digits whose value is the number. */
  lemma {:induction false} NatToDecimalValue(n: nat)
    ensures |NatToDecimal(n)| >= 1 && AllDigits(NatToDecimal(n))
    ensures DigitsValue(NatToDecimal(n)) == n
    decreases n
  {
    var s := NatToDecimal(n);
    if n >= 10 {
      NatToDecimalValue(n / 10);
      assert s[..|s| - 1] == NatToDecimal(n / 10);
    }
  }

  /** strconv.Atoi reads back every decimal rendering. */
  lemma AtoiIntToDecimal(n: int)
    ensures Atoi(IntToDecimal(n)) == Some(n)
  {
    if n < 0 {
      var d := NatToDecimal(-n);
      NatToDecimalValue(-n);
      var s := IntToDecimal(n);
      assert s == "-" + d;
      assert s[0] == '-' && s[1..] == d;
    } else {
      NatToDecimalValue(n);
      var d := NatToDecimal(n);
      assert IsDigit(d[0]);
    }
  }

  /** Lower-casing never changes what strconv.Atoi makes of a text. */
  lemma AtoiToLower(s: string)
    ensures Atoi(ToLower(s)) == Atoi(s)
  {
    var t := ToLower(s);
    assert forall k :: 0 <= k < |s| ==> (IsDigit(t[k]) <==> IsDigit(s[k]));
    if AllDigits(s) {
      assert t == s;
    }
    if |s| > 1 && AllDigits(s[1..]) {
      assert t[1..] == s[1..];
    }
    if |s| > 1 && !AllDigits(s[1..]) {
      var k :| 0 <= k < |s[1..]| && !IsDigit(s[1..][k]);
      assert !IsDigit(t[1..][k]);
    }
  }
}
