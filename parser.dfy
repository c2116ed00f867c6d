/** `parsePredicate`: turns a clue such as "Starts with mi" into a matcher.
    The clue is lower-cased and then tried against an ordered list of forms;
    the first form that fits decides. Where the source panics, the parser
    returns a `ParseError`. */
module ClueParser {
  import opened Wrappers
  import opened GoStrings
  import opened Predicates

  datatype ParseError =
    | BadInteger(text: string)     // strconv.Atoi rejected the count of a "letters or ..." clue
    | UnknownNumber(word: string)  // "Cannot parse number: " in a "... letter word" clue
    | UnknownClue(clue: string)    // "Cannot parse predicate: " when no form fits

  // ---------------------------------------------------------------------
  // Operand lists of "contains" and "does not contain"
  // ---------------------------------------------------------------------

  /** Each part with the white space at both ends removed. */
  function TrimEach(parts: seq<string>): (r: seq<string>)
    ensures |r| == |parts|
    ensures forall k :: 0 <= k < |parts| ==> r[k] == TrimSpace(parts[k])
  {
    seq(|parts|, k requires 0 <= k < |parts| => TrimSpace(parts[k]))
  }

  /** The in-place trim loop of the "contains" and "does not contain" cases:
      every entry of the array is replaced by its trimmed text. */
  method TrimInPlace(chars: array<string>)
    modifies chars
    ensures chars[..] == TrimEach(old(chars[..]))
  {
    for i := 0 to chars.Length
      invariant forall k :: 0 <= k < i ==> chars[k] == TrimSpace(old(chars[k]))
      invariant forall k :: i <= k < chars.Length ==> chars[k] == old(chars[k])
    {
      chars[i] := TrimSpace(chars[i]);
    }
  }

  /** The operands of a "contains X, Y" clue: the text split at every comma,
      each part trimmed. A text without commas is one operand. */
  function Operands(text: string): seq<string> {
    TrimEach(Split(text, ','))
  }

  // ---------------------------------------------------------------------
  // The scan of a "between" clue against the template "between %d and %d letters"
  // ---------------------------------------------------------------------

  /** White space as Go's scanner treats it inside one line: ASCII blanks other than newline. */
  predicate IsBlank(c: char) {
    c == ' ' || ('\t' <= c <= '\r' && c != '\n')
  }

  /** The input after its leading blanks. */
  function SkipBlanks(s: string): (r: string)
    ensures |r| <= |s| && r == s[|s| - |r|..]
    ensures forall k :: 0 <= k < |s| - |r| ==> IsBlank(s[k])
    ensures r == [] || !IsBlank(r[0])
    decreases |s|
  {
    if |s| > 0 && IsBlank(s[0]) then SkipBlanks(s[1..]) else s
  }

  /** A space in the format: one or more blanks in the input, or the end of the input. */
  function MatchSpace(s: string): Option<string> {
    if s == [] then Some(s)
    else if IsBlank(s[0]) then Some(SkipBlanks(s))
    else None
  }

  /** Literal text in the format must appear as it is. */
  function MatchLiteral(s: string, lit: string): Option<string> {
    if HasPrefix(s, lit) then Some(s[|lit|..]) else None
  }

  /** The length of the run of decimal digits at the front of `s`. */
  function DigitRun(s: string): (n: nat)
    ensures n <= |s| && AllDigits(s[..n])
    ensures n == |s| || !IsDigit(s[n])
    decreases |s|
  {
    if |s| > 0 && IsDigit(s[0]) then
      var n := 1 + DigitRun(s[1..]);
      assert s[..n] == [s[0]] + s[1..][..n - 1];
      n
    else 0
  }

  /** The `%d` verb: leading blanks, an optional sign, then at least one
      decimal digit; it yields the value and the input after the digits. */
  function ScanDecimal(s: string): Option<(int, string)> {
    var t := SkipBlanks(s);
    var signed := |t| > 0 && (t[0] == '+' || t[0] == '-');
    var body := if signed then t[1..] else t;
    var n := DigitRun(body);
    if n == 0 then None
    else
      var v: int := DigitsValue(body[..n]);
      Some((if signed && t[0] == '-' then -v else v, body[n..]))
  }

  /** The two bounds of a "between" clue. Sscanf stores each number as soon as
      it has read it and stops at the first mismatch; the source ignores the
      error, so a bound that was not reached stays 0. The trailing " letters"
      of the format cannot change either bound. */
  function ScanBetween(p: string): (int, int) {
    match MatchLiteral(p, "between")
    case None => (0, 0)
    case Some(rest) => ScanBounds(rest)
  }

  /** The part " %d and %d" of the format. */
  function ScanBounds(s: string): (int, int) {
    match MatchSpace(s)
    case None => (0, 0)
    case Some(s1) =>
      match ScanDecimal(s1)
      case None => (0, 0)
      case Some((low, rest)) => (low, ScanHigh(rest))
  }

  /** The part " and %d" of the format: the upper bound, or 0 when it is not reached. */
  function ScanHigh(s: string): int {
    match MatchSpace(s)
    case None => 0
    case Some(s1) =>
      match MatchLiteral(s1, "and")
      case None => 0
      case Some(s2) =>
        match MatchSpace(s2)
        case None => 0
        case Some(s3) =>
          match ScanDecimal(s3)
          case None => 0
          case Some((high, _)) => high
  }

  // ---------------------------------------------------------------------
  // The clue grammar
  // ---------------------------------------------------------------------

  /** The inner switch of the "letter word" case. */
  function NumberWord(word: string): (r: Option<int>)
    ensures r.Some? ==> 2 <= r.value <= 10
  {
    if word == "two" then Some(2)
    else if word == "three" then Some(3)
    else if word == "four" then Some(4)
    else if word == "five" then Some(5)
    else if word == "six" then Some(6)
    else if word == "seven" then Some(7)
    else if word == "eight" then Some(8)
    else if word == "nine" then Some(9)
    else if word == "ten" then Some(10)
    else None
  }

  /** parsePredicate: the clue is lower-cased first. */
  function Parse(clue: string): Result<Pred, ParseError> {
    ParseLowered(ToLower(clue))
  }

  /** The switch of parsePredicate on the lower-cased clue, case by case in the source's order. */
  function ParseLowered(p: string): Result<Pred, ParseError> {
    if HasPrefix(p, "starts with") then
      Success(StartsWith(TrimPrefix(p, "starts with ")))
    else if HasPrefix(p, "ends with") then
      Success(EndsWith(TrimPrefix(p, "ends with ")))
    else if HasPrefix(p, "contains the letter") then
      Success(ContainsAll([TrimSpace(TrimPrefix(p, "contains the letter "))]))
    else if HasPrefix(p, "contains") then
      Success(ContainsAll(Operands(TrimPrefix(p, "contains "))))
    else if HasPrefix(p, "does not contain") then
      Success(DoesNotContain(Operands(TrimPrefix(p, "does not contain "))))
    else if HasPrefix(p, "between") then
      var (low, high) := ScanBetween(p);
      Success(LengthBetween(low, high))
    else if HasPrefix(p, "multiple letter") then
      Success(ContainsMoreThanOne(TrimSuffix(TrimPrefix(p, "multiple letter "), "'s")))
    else if HasPrefix(p, "multiple") then
      Success(ContainsMoreThanOne(TrimSuffix(TrimPrefix(p, "multiple "), "'s")))
    else if p == "double letter" then
      Success(DoubleLetter)
    else if HasPrefix(p, "starts & ends with") then
      var s := TrimPrefix(p, "starts & ends with ");
      Success(StartsAndEndsWith(s, s))
    else if HasSuffix(p, "letters or fewer") then
      FewerCount(TrimSuffix(p, " letters or fewer"))
    else if HasSuffix(p, "letters or more") then
      MoreCount(TrimSuffix(p, " letters or more"))
    else if HasSuffix(p, "letter word") then
      var word := TrimSuffix(p, " letter word");
      match NumberWord(word)
      case Some(n) => Success(LengthEqualsTo(n))
      case None => Failure(UnknownNumber(word))
    else
      Failure(UnknownClue(p))
  }

  /** The "N letters or fewer" case: strconv.Atoi reads N. */
  function FewerCount(text: string): Result<Pred, ParseError> {
    match Atoi(text)
    case Some(n) => Success(LengthLessThan(n + 1))
    case None => Failure(BadInteger(text))
  }

  /** The "N letters or more" case. */
  function MoreCount(text: string): Result<Pred, ParseError> {
    match Atoi(text)
    case Some(n) => Success(LengthGreaterThan(n - 1))
    case None => Failure(BadInteger(text))
  }

  /** The lower-cased clue starts with one of the keywords the switch tests by prefix. */
  predicate StartsWithKeyword(p: string) {
    HasPrefix(p, "starts with") || HasPrefix(p, "ends with") || HasPrefix(p, "contains the letter")
    || HasPrefix(p, "contains") || HasPrefix(p, "does not contain") || HasPrefix(p, "between")
    || HasPrefix(p, "multiple letter") || HasPrefix(p, "multiple") || HasPrefix(p, "starts & ends with")
  }

  /** None of the cases before the suffix forms applies. */
  predicate NoPrefixForm(p: string) {
    !HasPrefix(p, "starts with") && !HasPrefix(p, "ends with") && !HasPrefix(p, "contains the letter")
    && !HasPrefix(p, "contains") && !HasPrefix(p, "does not contain") && !HasPrefix(p, "between")
    && !HasPrefix(p, "multiple letter") && !HasPrefix(p, "multiple") && p != "double letter"
    && !HasPrefix(p, "starts & ends with")
  }

  /** The lower-cased clue has one of the forms the switch knows. */
  predicate Recognised(p: string) {
    StartsWithKeyword(p) || p == "double letter" || HasSuffix(p, "letters or fewer")
    || HasSuffix(p, "letters or more") || HasSuffix(p, "letter word")
  }


  // ---------------------------------------------------------------------
  // Helpers about literal keywords
  // ---------------------------------------------------------------------

  lemma NotPrefixAt(p: string, k: string, i: nat)
    requires i < |p| && i < |k| && p[i] != k[i]
    ensures !HasPrefix(p, k)
  {
    if |k| <= |p| {
      assert p[..|k|][i] != k[i];
    }
  }

  /** Past a shared front `a`, a keyword `k` is a prefix of `a + x` exactly when its rest is a prefix of `x`. */
  lemma PrefixPastFront(a: string, x: string, k: string)
    requires |a| <= |k| && k[..|a|] == a
    ensures HasPrefix(a + x, k) <==> HasPrefix(x, k[|a|..])
  {
    if |k| <= |a + x| {
      assert (a + x)[..|k|] == a + x[..|k| - |a|];
      if x[..|k| - |a|] == k[|a|..] {
        assert k == k[..|a|] + k[|a|..];
      }
      if (a + x)[..|k|] == k {
        assert k[|a|..] == (a + x)[..|k|][|a|..];
      }
    }
  }

  lemma PrefixOfAppend(a: string, b: string, k: string)
    requires HasPrefix(a, k)
    ensures HasPrefix(a + b, k)
  {
    assert (a + b)[..|k|] == a[..|k|];
  }

  lemma SuffixOfAppend(a: string, b: string, k: string)
    requires HasSuffix(b, k)
    ensures HasSuffix(a + b, k)
  {
    assert (a + b)[|a + b| - |k|..] == b[|b| - |k|..];
  }

  lemma NotSuffixAt(p: string, k: string, i: nat)
    requires i < |p| && i < |k| && p[|p| - 1 - i] != k[|k| - 1 - i]
    ensures !HasSuffix(p, k)
  {
    if |k| <= |p| {
      assert p[|p| - |k|..][|k| - 1 - i] != k[|k| - 1 - i];
    }
  }

  lemma TrimPrefixOfAppend(a: string, b: string)
    ensures TrimPrefix(a + b, a) == b
  {
    assert (a + b)[..|a|] == a;
    assert (a + b)[|a|..] == b;
  }

  lemma TrimSuffixOfAppend(a: string, b: string)
    ensures TrimSuffix(a + b, b) == a
  {
    assert (a + b)[|a + b| - |b|..] == b;
    assert (a + b)[..|a + b| - |b|] == a;
  }

  /** A clue that does not start with a letter starts with no keyword and is
      not "double letter". */
  lemma NoKeywordWithoutLetter(p: string)
    requires |p| > 0 && !('a' <= p[0] <= 'z')
    ensures NoPrefixForm(p)
  {
    NotPrefixAt(p, "starts with", 0);
    NotPrefixAt(p, "ends with", 0);
    NotPrefixAt(p, "contains the letter", 0);
    NotPrefixAt(p, "contains", 0);
    NotPrefixAt(p, "does not contain", 0);
    NotPrefixAt(p, "between", 0);
    NotPrefixAt(p, "multiple letter", 0);
    NotPrefixAt(p, "multiple", 0);
    NotPrefixAt(p, "starts & ends with", 0);
    assert "double letter"[0] == 'd';
  }

  /** The keywords of the clue grammar are already lower case. */
  lemma LowerKeyword(k: string)
    requires k == "starts with " || k == "ends with " || k == "contains the letter " || k == "contains "
          || k == "does not contain "
    ensures ToLower(k) == k
  {
    ToLowerOfLower(k);
  }

  lemma LowerKeywordMore(k: string)
    requires k == "between" || k == "multiple letter " || k == "multiple " || k == "starts & ends with "
    ensures ToLower(k) == k
  {
    ToLowerOfLower(k);
  }

  /** So are the endings of the clues. */
  lemma LowerEnding(k: string)
    requires k == "'s" || k == " letters or fewer" || k == " letters or more" || k == " letter word"
    ensures ToLower(k) == k
  {
    ToLowerOfLower(k);
  }

  /** And the literal parts of the "between" format. */
  lemma LowerFormatText(k: string)
    requires k == " " || k == " and " || k == " letters"
    ensures ToLower(k) == k
  {
    ToLowerOfLower(k);
  }

  lemma LowerKeywordClue(k: string, x: string)
    requires ToLower(k) == k
    ensures ToLower(k + x) == k + ToLower(x)
  {
    ToLowerAppend(k, x);
  }

  lemma LowerPossessive(k: string, x: string)
    requires ToLower(k) == k
    ensures ToLower(k + x + "'s") == k + (ToLower(x) + "'s")
  {
    ToLowerAppend(k + x, "'s");
    LowerKeywordClue(k, x);
    LowerEnding("'s");
  }

  /** A run of digits is lower case. */
  lemma DigitsLower(s: string)
    requires AllDigits(s)
    ensures ToLower(s) == s
  {
    ToLowerOfLower(s);
  }

  /** A clue parses as its lower-cased text does. */
  lemma ParseVia(clue: string, p: string, r: Result<Pred, ParseError>)
    requires ToLower(clue) == p && ParseLowered(p) == r
    ensures Parse(clue) == r
  {
  }

  // ---------------------------------------------------------------------
  // The switch, case by case, on lower-cased text
  // ---------------------------------------------------------------------

  lemma StartsWithLowered(t: string)
    ensures ParseLowered("starts with " + t) == Success(StartsWith(t))
  {
    PrefixOfAppend("starts with ", t, "starts with");
    TrimPrefixOfAppend("starts with ", t);
  }

  lemma EndsWithLowered(t: string)
    ensures ParseLowered("ends with " + t) == Success(EndsWith(t))
  {
    var p := "ends with " + t;
    NotPrefixAt(p, "starts with", 0);
    PrefixOfAppend("ends with ", t, "ends with");
    TrimPrefixOfAppend("ends with ", t);
  }

  lemma ContainsTheLetterLowered(t: string)
    ensures ParseLowered("contains the letter " + t) == Success(ContainsAll([TrimSpace(t)]))
  {
    var p := "contains the letter " + t;
    NotPrefixAt(p, "starts with", 0);
    NotPrefixAt(p, "ends with", 0);
    PrefixOfAppend("contains the letter ", t, "contains the letter");
    TrimPrefixOfAppend("contains the letter ", t);
  }

  lemma ContainsLowered(t: string)
    requires !HasPrefix(t, "the letter")
    ensures ParseLowered("contains " + t) == Success(ContainsAll(Operands(t)))
  {
    var p := "contains " + t;
    NotPrefixAt(p, "starts with", 0);
    NotPrefixAt(p, "ends with", 0);
    assert "contains the letter"[..9] == "contains " && "contains the letter"[9..] == "the letter";
    PrefixPastFront("contains ", t, "contains the letter");
    PrefixOfAppend("contains ", t, "contains");
    TrimPrefixOfAppend("contains ", t);
  }

  lemma DoesNotContainLowered(t: string)
    ensures ParseLowered("does not contain " + t) == Success(DoesNotContain(Operands(t)))
  {
    var p := "does not contain " + t;
    NotPrefixAt(p, "starts with", 0);
    NotPrefixAt(p, "ends with", 0);
    NotPrefixAt(p, "contains the letter", 0);
    NotPrefixAt(p, "contains", 0);
    PrefixOfAppend("does not contain ", t, "does not contain");
    TrimPrefixOfAppend("does not contain ", t);
  }

  lemma BetweenLowered(t: string)
    ensures ParseLowered("between" + t) == Success(LengthBetween(ScanBounds(t).0, ScanBounds(t).1))
  {
    var p := "between" + t;
    NotPrefixAt(p, "starts with", 0);
    NotPrefixAt(p, "ends with", 0);
    NotPrefixAt(p, "contains the letter", 0);
    NotPrefixAt(p, "contains", 0);
    NotPrefixAt(p, "does not contain", 0);
    PrefixOfAppend("between", t, "between");
    assert p[..7] == "between" && p[7..] == t;
    assert ScanBetween(p) == ScanBounds(t);
  }

  lemma MultipleLetterLowered(t: string)
    ensures ParseLowered("multiple letter " + (t + "'s")) == Success(ContainsMoreThanOne(t))
  {
    var p := "multiple letter " + (t + "'s");
    NotPrefixAt(p, "starts with", 0);
    NotPrefixAt(p, "ends with", 0);
    NotPrefixAt(p, "contains the letter", 0);
    NotPrefixAt(p, "contains", 0);
    NotPrefixAt(p, "does not contain", 0);
    NotPrefixAt(p, "between", 0);
    PrefixOfAppend("multiple letter ", t + "'s", "multiple letter");
    TrimPrefixOfAppend("multiple letter ", t + "'s");
    TrimSuffixOfAppend(t, "'s");
  }

  lemma MultipleLowered(t: string)
    requires !HasPrefix(t, "letter")
    ensures ParseLowered("multiple " + (t + "'s")) == Success(ContainsMoreThanOne(t))
  {
    var p := "multiple " + (t + "'s");
    NotPrefixAt(p, "starts with", 0);
    NotPrefixAt(p, "ends with", 0);
    NotPrefixAt(p, "contains the letter", 0);
    NotPrefixAt(p, "contains", 0);
    NotPrefixAt(p, "does not contain", 0);
    NotPrefixAt(p, "between", 0);
    assert !HasPrefix(t + "'s", "letter") by {
      if |t| >= 6 {
        assert (t + "'s")[..6] == t[..6];
      } else {
        NotPrefixAt(t + "'s", "letter", |t|);
      }
    }
    assert "multiple letter"[..9] == "multiple " && "multiple letter"[9..] == "letter";
    PrefixPastFront("multiple ", t + "'s", "multiple letter");
    PrefixOfAppend("multiple ", t + "'s", "multiple");
    TrimPrefixOfAppend("multiple ", t + "'s");
    TrimSuffixOfAppend(t, "'s");
  }

  lemma DoubleLetterLowered()
    ensures ParseLowered("double letter") == Success(DoubleLetter)
  {
    var p := "double letter";
    NotPrefixAt(p, "starts with", 0);
    NotPrefixAt(p, "ends with", 0);
    NotPrefixAt(p, "contains the letter", 0);
    NotPrefixAt(p, "contains", 0);
    NotPrefixAt(p, "does not contain", 2);
    NotPrefixAt(p, "between", 0);
    NotPrefixAt(p, "multiple letter", 0);
    NotPrefixAt(p, "multiple", 0);
  }

  lemma StartsAndEndsWithLowered(t: string)
    ensures ParseLowered("starts & ends with " + t) == Success(StartsAndEndsWith(t, t))
  {
    var p := "starts & ends with " + t;
    NotPrefixAt(p, "starts with", 7);
    NotPrefixAt(p, "ends with", 0);
    NotPrefixAt(p, "contains the letter", 0);
    NotPrefixAt(p, "contains", 0);
    NotPrefixAt(p, "does not contain", 0);
    NotPrefixAt(p, "between", 0);
    NotPrefixAt(p, "multiple letter", 0);
    NotPrefixAt(p, "multiple", 0);
    assert p != "double letter" by { assert "double letter"[0] == 'd'; }
    PrefixOfAppend("starts & ends with ", t, "starts & ends with");
    TrimPrefixOfAppend("starts & ends with ", t);
  }

  lemma FewerCase(p: string)
    requires NoPrefixForm(p) && HasSuffix(p, "letters or fewer")
    ensures ParseLowered(p) == FewerCount(TrimSuffix(p, " letters or fewer"))
  {
  }

  lemma MoreCase(p: string)
    requires NoPrefixForm(p) && !HasSuffix(p, "letters or fewer") && HasSuffix(p, "letters or more")
    ensures ParseLowered(p) == MoreCount(TrimSuffix(p, " letters or more"))
  {
  }

  lemma FewerLowered(text: string)
    requires NoPrefixForm(text + " letters or fewer")
    ensures ParseLowered(text + " letters or fewer") == FewerCount(text)
  {
    SuffixOfAppend(text, " letters or fewer", "letters or fewer");
    TrimSuffixOfAppend(text, " letters or fewer");
    FewerCase(text + " letters or fewer");
  }

  lemma MoreLowered(text: string)
    requires NoPrefixForm(text + " letters or more")
    ensures ParseLowered(text + " letters or more") == MoreCount(text)
  {
    NotSuffixAt(text + " letters or more", "letters or fewer", 0);
    SuffixOfAppend(text, " letters or more", "letters or more");
    TrimSuffixOfAppend(text, " letters or more");
    MoreCase(text + " letters or more");
  }

  lemma CountOf(text: string, n: int)
    requires Atoi(text) == Some(n)
    ensures FewerCount(text) == Success(LengthLessThan(n + 1))
    ensures MoreCount(text) == Success(LengthGreaterThan(n - 1))
  {
  }

  lemma CountBad(text: string)
    requires Atoi(text).None?
    ensures FewerCount(text) == Failure(BadInteger(text))
    ensures MoreCount(text) == Failure(BadInteger(text))
  {
  }

  lemma LetterWordLowered(w: string, n: int)
    requires NoPrefixForm(w + " letter word") && NumberWord(w) == Some(n)
    ensures ParseLowered(w + " letter word") == Success(LengthEqualsTo(n))
  {
    var p := w + " letter word";
    NotSuffixAt(p, "letters or fewer", 0);
    NotSuffixAt(p, "letters or more", 0);
    SuffixOfAppend(w, " letter word", "letter word");
    TrimSuffixOfAppend(w, " letter word");
  }

  lemma LetterWordLoweredBad(w: string)
    requires NoPrefixForm(w + " letter word") && NumberWord(w).None?
    ensures ParseLowered(w + " letter word") == Failure(UnknownNumber(w))
  {
    var p := w + " letter word";
    NotSuffixAt(p, "letters or fewer", 0);
    NotSuffixAt(p, "letters or more", 0);
    SuffixOfAppend(w, " letter word", "letter word");
    TrimSuffixOfAppend(w, " letter word");
  }

  // ---------------------------------------------------------------------
  // What a parsed matcher accepts
  // ---------------------------------------------------------------------

  lemma PrefixAccepts(clue: string, x: string, word: string)
    requires Parse(clue) == Success(StartsWith(x))
    ensures Parse(clue).Success? && (Eval(Parse(clue).value, word) <==> HasPrefix(word, x))
  {
  }

  lemma DoubleAccepts(clue: string, word: string)
    requires Parse(clue) == Success(DoubleLetter)
    ensures Eval(Parse(clue).value, word) <==> exists i :: 0 <= i < |word| - 1 && word[i] == word[i + 1]
  {
  }

  lemma FewerAccepts(clue: string, n: int, word: string)
    requires Parse(clue) == Success(LengthLessThan(n + 1))
    ensures Eval(Parse(clue).value, word) <==> |word| <= n
  {
  }

  lemma MoreAccepts(clue: string, n: int, word: string)
    requires Parse(clue) == Success(LengthGreaterThan(n - 1))
    ensures Eval(Parse(clue).value, word) <==> |word| >= n
  {
  }

  lemma EqualsAccepts(clue: string, n: int, word: string)
    requires Parse(clue) == Success(LengthEqualsTo(n))
    ensures Eval(Parse(clue).value, word) <==> |word| == n
  {
  }

  lemma BetweenAccepts(clue: string, low: int, high: int, word: string)
    requires Parse(clue) == Success(LengthBetween(low, high))
    ensures Eval(Parse(clue).value, word) <==> low <= |word| <= high
  {
  }

  lemma EmptyOnlyAccepts(clue: string, word: string)
    requires Parse(clue) == Success(LengthBetween(0, 0))
    ensures Eval(Parse(clue).value, word) <==> word == []
  {
  }

  lemma NoneAccepts(clue: string, low: int, word: string)
    requires Parse(clue) == Success(LengthBetween(low, 0))
    ensures low > 0 ==> !Eval(Parse(clue).value, word)
  {
  }

  // ---------------------------------------------------------------------
  // What the parser promises
  // ---------------------------------------------------------------------

  /** Only the lower-cased clue matters: clues that differ in case parse alike. */
  lemma {:induction false} ParseIgnoresCase(clue: string)
    ensures Parse(ToLower(clue)) == Parse(clue)
  {
    ToLowerIdempotent(clue);
  }

  /** Nothing passes unparsed: a clue in none of the known forms is an
      error naming the lower-cased clue, and every clue that parses has a known form. */
  lemma ParseRejectsUnknown(clue: string)
    ensures !Recognised(ToLower(clue)) ==> Parse(clue) == Failure(UnknownClue(ToLower(clue)))
    ensures Parse(clue).Success? ==> Recognised(ToLower(clue))
  {
    var p := ToLower(clue);
    assert Parse(clue) == ParseLowered(p);
  }

  /** "Starts with X" accepts exactly the words that start with X, lower-cased;
      the keyword itself may be written in any case. */
  lemma ParseStartsWith(x: string, word: string)
    ensures Parse("starts with " + x) == Success(StartsWith(ToLower(x)))
    ensures Parse("Starts with " + x).Success? && (Eval(Parse("Starts with " + x).value, word) <==> HasPrefix(word, ToLower(x)))
  {
    StartsWithLowered(ToLower(x));
    LowerKeyword("starts with ");
    LowerKeywordClue("starts with ", x);
    ParseVia("starts with " + x, "starts with " + ToLower(x), Success(StartsWith(ToLower(x))));
    CapitalStartsWith(x);
    ParseVia("Starts with " + x, "starts with " + ToLower(x), Success(StartsWith(ToLower(x))));
    PrefixAccepts("Starts with " + x, ToLower(x), word);
  }

  lemma CapitalStartsWith(x: string)
    ensures ToLower("Starts with " + x) == "starts with " + ToLower(x)
  {
    ToLowerAppend("Starts with ", x);
  }

  /** "Ends with X" accepts exactly the words that end with X, lower-cased. */
  lemma ParseEndsWith(x: string)
    ensures Parse("ends with " + x) == Success(EndsWith(ToLower(x)))
  {
    EndsWithLowered(ToLower(x));
    LowerKeyword("ends with ");
    LowerKeywordClue("ends with ", x);
    ParseVia("ends with " + x, "ends with " + ToLower(x), Success(EndsWith(ToLower(x))));
  }

  /** "Starts & ends with X" uses the same X at both ends. It comes after
      "starts with" in the switch but is not shadowed by it: the two differ
      at their eighth character. */
  lemma ParseStartsAndEndsWith(x: string)
    ensures Parse("starts & ends with " + x) == Success(StartsAndEndsWith(ToLower(x), ToLower(x)))
  {
    StartsAndEndsWithLowered(ToLower(x));
    LowerKeywordMore("starts & ends with ");
    LowerKeywordClue("starts & ends with ", x);
    ParseVia("starts & ends with " + x, "starts & ends with " + ToLower(x), Success(StartsAndEndsWith(ToLower(x), ToLower(x))));
  }

  /** "Contains the letter X" is tried before "contains": X is one operand,
      trimmed, even when it holds a comma. */
  lemma ParseContainsTheLetter(x: string)
    ensures Parse("contains the letter " + x) == Success(ContainsAll([TrimSpace(ToLower(x))]))
  {
    ContainsTheLetterLowered(ToLower(x));
    LowerKeyword("contains the letter ");
    LowerKeywordClue("contains the letter ", x);
    ParseVia("contains the letter " + x, "contains the letter " + ToLower(x), Success(ContainsAll([TrimSpace(ToLower(x))])));
  }

  /** Any other "contains" clue is split at commas and each part trimmed;
      every part must occur in the word. */
  lemma ParseContains(x: string)
    requires !HasPrefix(ToLower(x), "the letter")
    ensures Parse("contains " + x) == Success(ContainsAll(Operands(ToLower(x))))
  {
    ContainsLowered(ToLower(x));
    LowerKeyword("contains ");
    LowerKeywordClue("contains ", x);
    ParseVia("contains " + x, "contains " + ToLower(x), Success(ContainsAll(Operands(ToLower(x)))));
  }

  /** "Does not contain X, Y" is split and trimmed the same way; no part may occur. */
  lemma ParseDoesNotContain(x: string)
    ensures Parse("does not contain " + x) == Success(DoesNotContain(Operands(ToLower(x))))
  {
    DoesNotContainLowered(ToLower(x));
    LowerKeyword("does not contain ");
    LowerKeywordClue("does not contain ", x);
    ParseVia("does not contain " + x, "does not contain " + ToLower(x), Success(DoesNotContain(Operands(ToLower(x)))));
  }

  /** "Multiple letter X's" counts X, with the "'s" removed. */
  lemma ParseMultipleLetter(x: string)
    ensures Parse("multiple letter " + x + "'s") == Success(ContainsMoreThanOne(ToLower(x)))
  {
    MultipleLetterLowered(ToLower(x));
    LowerKeywordMore("multiple letter ");
    LowerPossessive("multiple letter ", x);
    ParseVia("multiple letter " + x + "'s", "multiple letter " + (ToLower(x) + "'s"), Success(ContainsMoreThanOne(ToLower(x))));
  }

  /** "Multiple X's" counts X as well, when X does not start with "letter". */
  lemma ParseMultiple(x: string)
    requires !HasPrefix(ToLower(x), "letter")
    ensures Parse("multiple " + x + "'s") == Success(ContainsMoreThanOne(ToLower(x)))
  {
    MultipleLowered(ToLower(x));
    LowerKeywordMore("multiple ");
    LowerPossessive("multiple ", x);
    ParseVia("multiple " + x + "'s", "multiple " + (ToLower(x) + "'s"), Success(ContainsMoreThanOne(ToLower(x))));
  }

  /** "Double letter", in any case, is the adjacent-pair matcher. */
  lemma ParseDoubleLetter(clue: string, word: string)
    requires ToLower(clue) == "double letter"
    ensures Parse(clue) == Success(DoubleLetter)
    ensures Eval(Parse(clue).value, word) <==> exists i :: 0 <= i < |word| - 1 && word[i] == word[i + 1]
  {
    DoubleLetterLowered();
    ParseVia(clue, "double letter", Success(DoubleLetter));
    DoubleAccepts(clue, word);
  }

  /** The decimal rendering of a number has no letters. */
  lemma DecimalHasNoLetters(n: int)
    ensures |IntToDecimal(n)| >= 1
    ensures IntToDecimal(n)[0] == '-' || IsDigit(IntToDecimal(n)[0])
    ensures forall k :: 0 <= k < |IntToDecimal(n)| ==> !('A' <= IntToDecimal(n)[k] <= 'Z')
  {
    var m: nat := if n < 0 then -n else n;
    NatToDecimalValue(m);
  }

  /** A decimal rendering is lower case. */
  lemma DecimalLower(n: int)
    ensures ToLower(IntToDecimal(n)) == IntToDecimal(n)
  {
    DecimalHasNoLetters(n);
    ToLowerOfLower(IntToDecimal(n));
  }

  lemma NumericClue(n: int, tail: string)
    requires ToLower(tail) == tail && |tail| > 0
    ensures ToLower(IntToDecimal(n) + tail) == IntToDecimal(n) + tail
    ensures NoPrefixForm(IntToDecimal(n) + tail)
  {
    DecimalHasNoLetters(n);
    DecimalLower(n);
    ToLowerAppend(IntToDecimal(n), tail);
    var p := IntToDecimal(n) + tail;
    assert p[0] == IntToDecimal(n)[0];
    NoKeywordWithoutLetter(p);
  }

  /** "N letters or fewer" becomes "length below N + 1": it accepts exactly the
      words of at most N letters, for every integer N. */
  lemma ParseFewer(n: int, word: string)
    ensures Parse(IntToDecimal(n) + " letters or fewer") == Success(LengthLessThan(n + 1))
    ensures Eval(Parse(IntToDecimal(n) + " letters or fewer").value, word) <==> |word| <= n
  {
    LowerEnding(" letters or fewer");
    NumericClue(n, " letters or fewer");
    AtoiIntToDecimal(n);
    FewerLowered(IntToDecimal(n));
    CountOf(IntToDecimal(n), n);
    ParseVia(IntToDecimal(n) + " letters or fewer", IntToDecimal(n) + " letters or fewer", Success(LengthLessThan(n + 1)));
    FewerAccepts(IntToDecimal(n) + " letters or fewer", n, word);
  }

  /** "N letters or more" becomes "length above N - 1": it accepts exactly the
      words of at least N letters, for every integer N. */
  lemma ParseMore(n: int, word: string)
    ensures Parse(IntToDecimal(n) + " letters or more") == Success(LengthGreaterThan(n - 1))
    ensures Eval(Parse(IntToDecimal(n) + " letters or more").value, word) <==> |word| >= n
  {
    LowerEnding(" letters or more");
    NumericClue(n, " letters or more");
    AtoiIntToDecimal(n);
    MoreLowered(IntToDecimal(n));
    CountOf(IntToDecimal(n), n);
    ParseVia(IntToDecimal(n) + " letters or more", IntToDecimal(n) + " letters or more", Success(LengthGreaterThan(n - 1)));
    MoreAccepts(IntToDecimal(n) + " letters or more", n, word);
  }

  /** A count that strconv.Atoi rejects makes either numeric clue fail. */
  lemma ParseBadCount(s: string)
    requires !StartsWithKeyword(ToLower(s) + " letters or fewer")
    requires !StartsWithKeyword(ToLower(s) + " letters or more")
    requires Atoi(s).None?
    ensures Parse(s + " letters or fewer") == Failure(BadInteger(ToLower(s)))
    ensures Parse(s + " letters or more") == Failure(BadInteger(ToLower(s)))
  {
    AtoiToLower(s);
    BadCountFewer(s);
    BadCountMore(s);
  }

  lemma BadCountFewer(s: string)
    requires !StartsWithKeyword(ToLower(s) + " letters or fewer")
    requires Atoi(ToLower(s)).None?
    ensures Parse(s + " letters or fewer") == Failure(BadInteger(ToLower(s)))
  {
    LowerEnding(" letters or fewer");
    CountClueText(s, " letters or fewer");
    FewerLowered(ToLower(s));
    CountBad(ToLower(s));
    ParseVia(s + " letters or fewer", ToLower(s) + " letters or fewer", Failure(BadInteger(ToLower(s))));
  }

  lemma BadCountMore(s: string)
    requires !StartsWithKeyword(ToLower(s) + " letters or more")
    requires Atoi(ToLower(s)).None?
    ensures Parse(s + " letters or more") == Failure(BadInteger(ToLower(s)))
  {
    LowerEnding(" letters or more");
    CountClueText(s, " letters or more");
    MoreLowered(ToLower(s));
    CountBad(ToLower(s));
    ParseVia(s + " letters or more", ToLower(s) + " letters or more", Failure(BadInteger(ToLower(s))));
  }

  /** A count clue that starts with no keyword is too long to be "double
      letter", so none of the cases before the suffix forms applies. */
  lemma CountClueText(s: string, tail: string)
    requires |tail| > 13
    requires ToLower(tail) == tail
    requires !StartsWithKeyword(ToLower(s) + tail)
    ensures ToLower(s + tail) == ToLower(s) + tail
    ensures NoPrefixForm(ToLower(s) + tail)
  {
    ToLowerAppend(s, tail);
  }

  /** A count spelled out in words is not read by strconv.Atoi: "Five letters
      or fewer" fails. */
  lemma ParseSpelledCount()
    ensures Parse("Five letters or fewer") == Failure(BadInteger("five"))
    ensures Parse("Five letters or more") == Failure(BadInteger("five"))
  {
    SpelledCountText();
    assert !IsDigit("Five"[0]);
    ParseBadCount("Five");
  }

  lemma SpelledCountText()
    ensures ToLower("Five") == "five"
    ensures "Five" + " letters or fewer" == "Five letters or fewer"
    ensures "Five" + " letters or more" == "Five letters or more"
    ensures !StartsWithKeyword("five" + " letters or fewer")
    ensures !StartsWithKeyword("five" + " letters or more")
  {
    FiveLower();
    FiveFewerNoKeyword();
    FiveMoreNoKeyword();
    FiveConcat();
  }

  lemma FiveConcat()
    ensures "Five" + " letters or fewer" == "Five letters or fewer"
    ensures "Five" + " letters or more" == "Five letters or more"
  {
  }

  lemma FiveFewerNoKeyword()
    ensures !StartsWithKeyword("five" + " letters or fewer")
  {
    var p := "five" + " letters or fewer";
    assert p[0] == 'f';
    SpelledCountNoKeyword(p);
  }

  lemma FiveMoreNoKeyword()
    ensures !StartsWithKeyword("five" + " letters or more")
  {
    var p := "five" + " letters or more";
    assert p[0] == 'f';
    SpelledCountNoKeyword(p);
  }

  lemma FiveLower()
    ensures ToLower("Five") == "five"
  {
    var r := ToLower("Five");
    assert r[0] == 'f' && r[1] == 'i' && r[2] == 'v' && r[3] == 'e';
  }

  lemma SpelledCountNoKeyword(p: string)
    requires |p| > 0 && p[0] == 'f'
    ensures !StartsWithKeyword(p)
  {
    NotPrefixAt(p, "starts with", 0);
    NotPrefixAt(p, "ends with", 0);
    NotPrefixAt(p, "contains the letter", 0);
    NotPrefixAt(p, "contains", 0);
    NotPrefixAt(p, "does not contain", 0);
    NotPrefixAt(p, "between", 0);
    NotPrefixAt(p, "multiple letter", 0);
    NotPrefixAt(p, "multiple", 0);
    NotPrefixAt(p, "starts & ends with", 0);
  }

  /** A clue ending in " letter word" that starts with no keyword is not "double letter" either. */
  lemma LetterWordText(w: string)
    requires !StartsWithKeyword(w + " letter word")
    ensures NoPrefixForm(w + " letter word")
  {
    var p := w + " letter word";
    if |p| == 13 {
      assert p[12] == 'd';
    }
  }

  /** A "letter word" clue whose first word is no keyword is looked up in the
      table of spelled-out numbers. */
  lemma ParseLetterWord(x: string)
    requires !StartsWithKeyword(ToLower(x) + " letter word")
    ensures NumberWord(ToLower(x)).Some? ==> Parse(x + " letter word") == Success(LengthEqualsTo(NumberWord(ToLower(x)).value))
    ensures NumberWord(ToLower(x)).None? ==> Parse(x + " letter word") == Failure(UnknownNumber(ToLower(x)))
  {
    LetterWordClueText(x);
    LetterWordText(ToLower(x));
    if NumberWord(ToLower(x)).Some? {
      LetterWordLowered(ToLower(x), NumberWord(ToLower(x)).value);
      ParseVia(x + " letter word", ToLower(x) + " letter word", Success(LengthEqualsTo(NumberWord(ToLower(x)).value)));
    } else {
      LetterWordLoweredBad(ToLower(x));
      ParseVia(x + " letter word", ToLower(x) + " letter word", Failure(UnknownNumber(ToLower(x))));
    }
  }

  lemma LetterWordClueText(x: string)
    ensures ToLower(x + " letter word") == ToLower(x) + " letter word"
  {
    ToLowerAppend(x, " letter word");
    LowerEnding(" letter word");
  }

  /** The spelled-out numbers. */
  const NumberNames: seq<string> := ["two", "three", "four", "five", "six", "seven", "eight", "nine", "ten"]

  lemma NumberNameNoKeyword(name: string)
    requires |name| >= 2 && name[0] != 'c' && name[0] != 'd' && name[0] != 'b' && name[0] != 'm'
    requires name[0] == 's' ==> name[1] != 't'
    requires name[0] == 'e' ==> name[1] != 'n'
    ensures !StartsWithKeyword(name + " letter word")
  {
    var p := name + " letter word";
    assert p[0] == name[0] && p[1] == name[1];
    if p[0] == 's' {
      NotPrefixAt(p, "starts with", 1);
      NotPrefixAt(p, "starts & ends with", 1);
    } else {
      NotPrefixAt(p, "starts with", 0);
      NotPrefixAt(p, "starts & ends with", 0);
    }
    if p[0] == 'e' {
      NotPrefixAt(p, "ends with", 1);
    } else {
      NotPrefixAt(p, "ends with", 0);
    }
    NotPrefixAt(p, "contains the letter", 0);
    NotPrefixAt(p, "contains", 0);
    NotPrefixAt(p, "does not contain", 0);
    NotPrefixAt(p, "between", 0);
    NotPrefixAt(p, "multiple letter", 0);
    NotPrefixAt(p, "multiple", 0);
  }

  lemma NumberNameLower(k: nat)
    requires k < |NumberNames|
    ensures ToLower(NumberNames[k]) == NumberNames[k]
  {
    ToLowerOfLower(NumberNames[k]);
  }

  lemma NumberNameValue(k: nat)
    requires k < |NumberNames|
    ensures NumberWord(NumberNames[k]) == Some(k + 2)
  {
  }

  lemma NumberNameFree(k: nat)
    requires k < |NumberNames|
    ensures !StartsWithKeyword(NumberNames[k] + " letter word")
  {
    NumberNameNoKeyword(NumberNames[k]);
  }

  /** Each spelled-out number is lower case, names its value and is no keyword. */
  lemma NumberNameFacts(k: nat)
    requires k < |NumberNames|
    ensures NumberWord(ToLower(NumberNames[k])) == Some(k + 2)
    ensures !StartsWithKeyword(ToLower(NumberNames[k]) + " letter word")
  {
    NumberNameLower(k);
    NumberNameValue(k);
    NumberNameFree(k);
  }

  /** "<number> letter word" fixes the length, for the numbers two to ten. */
  lemma ParseNumberWord(k: nat, word: string)
    requires k < |NumberNames|
    ensures Parse(NumberNames[k] + " letter word") == Success(LengthEqualsTo(k + 2))
    ensures Eval(Parse(NumberNames[k] + " letter word").value, word) <==> |word| == k + 2
  {
    var name := NumberNames[k];
    NumberNameFacts(k);
    ParseNamedNumber(name, k + 2);
    EqualsAccepts(name + " letter word", k + 2, word);
  }

  lemma ParseNamedNumber(x: string, n: int)
    requires NumberWord(ToLower(x)) == Some(n)
    requires !StartsWithKeyword(ToLower(x) + " letter word")
    ensures Parse(x + " letter word") == Success(LengthEqualsTo(n))
  {
    ParseLetterWord(x);
  }

  /** Any other word before " letter word" is an error naming that word. */
  lemma ParseUnknownNumberWord(x: string)
    requires NumberWord(ToLower(x)).None?
    requires !StartsWithKeyword(ToLower(x) + " letter word")
    ensures Parse(x + " letter word") == Failure(UnknownNumber(ToLower(x)))
  {
    ParseLetterWord(x);
  }

  // ---------------------------------------------------------------------
  // The scanner on "between" clues
  // ---------------------------------------------------------------------

  /** The run of digits at the front of `s` ends where the digits end. */
  lemma {:induction false} DigitRunUnique(s: string, m: nat)
    requires m <= |s| && AllDigits(s[..m])
    requires m == |s| || !IsDigit(s[m])
    ensures DigitRun(s) == m
    decreases m
  {
    if m > 0 {
      assert IsDigit(s[..m][0]);
      assert s[1..][..m - 1] == s[..m][1..];
      assert m - 1 == |s[1..]| || s[1..][m - 1] == s[m];
      DigitRunUnique(s[1..], m - 1);
    }
  }

  lemma ScanDecimalOf(digits: string, rest: string)
    requires |digits| >= 1 && AllDigits(digits)
    requires rest == [] || !IsDigit(rest[0])
    ensures ScanDecimal(digits + rest) == Some((DigitsValue(digits), rest))
  {
    var s := digits + rest;
    assert IsDigit(s[0]);
    assert !IsBlank(s[0]);
    assert SkipBlanks(s) == s;
    assert s[..|digits|] == digits;
    assert |digits| == |s| || s[|digits|] == rest[0];
    DigitRunUnique(s, |digits|);
    assert s[|digits|..] == rest;
    assert !(s[0] == '+' || s[0] == '-');
  }

  lemma SplitAnd()
    ensures " and " == " " + "and" + " "
  {
  }

  lemma SplitBetween()
    ensures "between " == "between" + " "
  {
  }

  /** A format space against exactly one blank. */
  lemma MatchOneSpace(rest: string)
    requires rest == [] || !IsBlank(rest[0])
    ensures MatchSpace(" " + rest) == Some(rest)
  {
    assert (" " + rest)[1..] == rest;
    assert SkipBlanks(rest) == rest;
  }

  lemma AndText(t: string)
    ensures " and " + t == " " + ("and" + (" " + t))
  {
    SplitAnd();
    AppendAssoc(" " + "and", " ", t);
    AppendAssoc(" ", "and", " " + t);
  }

  /** Past " and ", the upper bound is whatever `%d` reads. */
  lemma ScanHighAfterAnd(s3: string)
    requires s3 == [] || !IsBlank(s3[0])
    ensures ScanHigh(" " + ("and" + (" " + s3))) == match ScanDecimal(s3) case None => 0 case Some((h, _)) => h
  {
    var s2 := " " + s3;
    var s1 := "and" + s2;
    assert s1[0] == 'a';
    MatchOneSpace(s1);
    assert MatchLiteral(s1, "and") == Some(s2) by {
      assert s1[..3] == "and" && s1[3..] == s2;
    }
    MatchOneSpace(s3);
  }

  lemma ScanHighOf(hi: string, tail: string)
    requires |hi| >= 1 && AllDigits(hi)
    requires tail == [] || !IsDigit(tail[0])
    ensures ScanHigh(" and " + hi + tail) == DigitsValue(hi)
  {
    AppendAssoc(" and ", hi, tail);
    AndText(hi + tail);
    ScanDecimalOf(hi, tail);
    assert IsDigit((hi + tail)[0]);
    ScanHighAfterAnd(hi + tail);
  }

  lemma ScanBoundsOf(lo: string, hi: string)
    requires |lo| >= 1 && AllDigits(lo) && |hi| >= 1 && AllDigits(hi)
    ensures ScanBounds(" " + lo + " and " + hi + " letters") == (DigitsValue(lo), DigitsValue(hi))
  {
    var t := " and " + hi + " letters";
    assert " " + lo + " and " + hi + " letters" == " " + (lo + t);
    assert IsDigit((lo + t)[0]);
    MatchOneSpace(lo + t);
    ScanDecimalOf(lo, t);
    ScanHighOf(hi, " letters");
  }

  /** A "between" clue is read by the scanner alone; its keyword may be in any case. */
  lemma ParseBetweenForm(r: string)
    ensures Parse("between" + r) == Success(LengthBetween(ScanBounds(ToLower(r)).0, ScanBounds(ToLower(r)).1))
  {
    BetweenLowered(ToLower(r));
    LowerKeywordMore("between");
    LowerKeywordClue("between", r);
    ParseVia("between" + r, "between" + ToLower(r), Success(LengthBetween(ScanBounds(ToLower(r)).0, ScanBounds(ToLower(r)).1)));
  }

  /** A "between" clue parses to the bounds the scanner reads from the rest. */
  lemma BetweenVia(clue: string, r: string, low: int, high: int)
    requires clue == "between" + r && ScanBounds(ToLower(r)) == (low, high)
    ensures Parse(clue) == Success(LengthBetween(low, high))
  {
    ParseBetweenForm(r);
  }

  lemma BetweenTextLower(lo: string, y: string)
    requires AllDigits(lo) && ToLower(y) == y
    ensures ToLower(" " + lo + " and " + y) == " " + lo + " and " + y
  {
    LowerFormatText(" ");
    LowerFormatText(" and ");
    DigitsLower(lo);
    ToLowerAppend(" ", lo);
    ToLowerAppend(" " + lo, " and ");
    ToLowerAppend(" " + lo + " and ", y);
  }

  /** "Between L and H letters" accepts exactly the lengths from L to H. */
  lemma ParseBetween(low: nat, high: nat, word: string)
    ensures Parse("between " + NatToDecimal(low) + " and " + NatToDecimal(high) + " letters")
            == Success(LengthBetween(low, high))
    ensures Eval(Parse("between " + NatToDecimal(low) + " and " + NatToDecimal(high) + " letters").value, word)
            <==> low <= |word| <= high
  {
    var lo := NatToDecimal(low);
    var hi := NatToDecimal(high);
    BetweenClueText(lo, hi);
    BetweenBounds(low, high);
    BetweenVia("between " + lo + " and " + hi + " letters", " " + lo + " and " + hi + " letters", low, high);
    BetweenAccepts("between " + lo + " and " + hi + " letters", low, high, word);
  }

  lemma BetweenClueText(lo: string, hi: string)
    ensures "between " + lo + " and " + hi + " letters" == "between" + (" " + lo + " and " + hi + " letters")
  {
    SplitBetween();
    AppendAssoc("between", " ", lo);
    AppendAssoc("between", " " + lo, " and ");
    AppendAssoc("between", " " + lo + " and ", hi);
    AppendAssoc("between", " " + lo + " and " + hi, " letters");
  }

  lemma BetweenBounds(low: nat, high: nat)
    ensures ScanBounds(ToLower(" " + NatToDecimal(low) + " and " + NatToDecimal(high) + " letters")) == (low, high)
  {
    var lo := NatToDecimal(low);
    var hi := NatToDecimal(high);
    NatToDecimalValue(low);
    NatToDecimalValue(high);
    LowerFormatText(" letters");
    DigitsLower(hi);
    ToLowerAppend(hi, " letters");
    BetweenTextLower(lo, hi + " letters");
    AppendAssoc(" " + lo + " and ", hi, " letters");
    ScanBoundsOf(lo, hi);
  }

  /** Sscanf's error is ignored: when no number follows "between", both bounds
      stay 0, so the clue accepts only the empty word. */
  lemma ParseBetweenWithoutLow(x: string, word: string)
    requires |x| >= 1 && 'a' <= LowerChar(x[0]) <= 'z'
    ensures Parse("between " + x) == Success(LengthBetween(0, 0))
    ensures Eval(Parse("between " + x).value, word) <==> word == []
  {
    SplitBetweenClue(x);
    WithoutLowBounds(x);
    BetweenVia("between " + x, " " + x, 0, 0);
    EmptyOnlyAccepts("between " + x, word);
  }

  lemma SplitBetweenClue(x: string)
    ensures "between " + x == "between" + (" " + x)
  {
    SplitBetween();
  }

  lemma WithoutLowBounds(x: string)
    requires |x| >= 1 && 'a' <= LowerChar(x[0]) <= 'z'
    ensures ScanBounds(ToLower(" " + x)) == (0, 0)
  {
    var lx := ToLower(x);
    assert ToLower(" " + x) == " " + lx by {
      ToLowerAppend(" ", x);
      LowerFormatText(" ");
    }
    assert lx[0] == LowerChar(x[0]);
    ScanBoundsWithoutLow(lx);
  }

  lemma ScanBoundsWithoutLow(t: string)
    requires |t| >= 1 && 'a' <= t[0] <= 'z'
    ensures ScanBounds(" " + t) == (0, 0)
  {
    MatchOneSpace(t);
    ScanDecimalOfLetter(t);
  }

  /** The lower bound read before a mismatch is kept and the upper one stays 0:
      "between 4 and six letters" accepts no word at all. */
  lemma ParseBetweenWithoutHigh(low: nat, y: string, word: string)
    requires |y| >= 1 && 'a' <= y[0] <= 'z'
    requires forall k :: 0 <= k < |y| ==> !('A' <= y[k] <= 'Z')
    ensures Parse("between " + NatToDecimal(low) + " and " + y) == Success(LengthBetween(low, 0))
    ensures low > 0 ==> !Eval(Parse("between " + NatToDecimal(low) + " and " + y).value, word)
  {
    var lo := NatToDecimal(low);
    WithoutHighClueText(lo, y);
    WithoutHighBounds(low, y);
    BetweenVia("between " + lo + " and " + y, " " + lo + " and " + y, low, 0);
    NoneAccepts("between " + lo + " and " + y, low, word);
  }

  lemma WithoutHighClueText(lo: string, y: string)
    ensures "between " + lo + " and " + y == "between" + (" " + lo + " and " + y)
  {
    SplitBetween();
    AppendAssoc("between", " ", lo);
    AppendAssoc("between", " " + lo, " and ");
    AppendAssoc("between", " " + lo + " and ", y);
  }

  lemma WithoutHighBounds(low: nat, y: string)
    requires |y| >= 1 && 'a' <= y[0] <= 'z'
    requires forall k :: 0 <= k < |y| ==> !('A' <= y[k] <= 'Z')
    ensures ScanBounds(ToLower(" " + NatToDecimal(low) + " and " + y)) == (low, 0)
  {
    var lo := NatToDecimal(low);
    NatToDecimalValue(low);
    ToLowerOfLower(y);
    BetweenTextLower(lo, y);
    ScanBoundsWithoutHigh(lo, y);
  }

  lemma ScanBoundsWithoutHigh(lo: string, y: string)
    requires |lo| >= 1 && AllDigits(lo)
    requires |y| >= 1 && 'a' <= y[0] <= 'z'
    ensures ScanBounds(" " + lo + " and " + y) == (DigitsValue(lo), 0)
  {
    var tail := " and " + y;
    assert " " + lo + " and " + y == " " + (lo + tail) by {
      AppendAssoc(" " + lo, " and ", y);
    }
    assert MatchSpace(" " + (lo + tail)) == Some(lo + tail) by {
      assert IsDigit((lo + tail)[0]);
      MatchOneSpace(lo + tail);
    }
    assert ScanDecimal(lo + tail) == Some((DigitsValue(lo), tail)) by {
      ScanDecimalOf(lo, tail);
    }
    ScanHighWithout(y);
  }

  lemma ScanHighWithout(y: string)
    requires |y| >= 1 && 'a' <= y[0] <= 'z'
    ensures ScanHigh(" and " + y) == 0
  {
    AndText(y);
    ScanDecimalOfLetter(y);
    ScanHighAfterAnd(y);
  }

  /** `%d` does not match a word. */
  lemma ScanDecimalOfLetter(y: string)
    requires |y| >= 1 && 'a' <= y[0] <= 'z'
    ensures ScanDecimal(y) == None
  {
    assert !IsBlank(y[0]) && !IsDigit(y[0]) && y[0] != '+' && y[0] != '-';
    assert SkipBlanks(y) == y;
    assert y[..0] == [];
    DigitRunUnique(y, 0);
  }

  // ---------------------------------------------------------------------
  // Clues from the table tests
  // ---------------------------------------------------------------------

  /** A clue in none of the known forms, such as "infinity", is an error; it
      is not a matcher that accepts every word. */
  lemma ParseInfinity()
    ensures Parse("infinity") == Failure(UnknownClue("infinity"))
  {
    var p := "infinity";
    ToLowerOfLower(p);
    NotPrefixAt(p, "starts with", 0);
    NotPrefixAt(p, "ends with", 0);
    NotPrefixAt(p, "contains the letter", 0);
    NotPrefixAt(p, "contains", 0);
    NotPrefixAt(p, "does not contain", 0);
    NotPrefixAt(p, "between", 0);
    NotPrefixAt(p, "multiple letter", 0);
    NotPrefixAt(p, "multiple", 0);
    NotPrefixAt(p, "starts & ends with", 0);
    ParseRejectsUnknown(p);
  }

  /** "e, l" is two operands, "e" and "l"; "el" is the single operand "el". */
  lemma OperandsExamples()
    ensures Operands("e, l") == ["e", "l"]
    ensures Operands("el") == ["el"]
  {
    SplitExamples();
    TrimExamples();
  }

  lemma SplitExamples()
    ensures Split("e, l", ',') == ["e", " l"]
    ensures Split("el", ',') == ["el"]
  {
    assert Join(["e", " l"], [',']) == "e, l";
    SplitJoin(["e", " l"], ',');
    assert Join(["el"], [',']) == "el";
    SplitJoin(["el"], ',');
  }

  lemma TrimExamples()
    ensures TrimEach(["e", " l"]) == ["e", "l"]
    ensures TrimEach(["el"]) == ["el"]
  {
    TrimSpaceExamples();
    TrimEachPair("e", " l");
    TrimEachOne("el");
  }

  lemma TrimEachPair(a: string, b: string)
    ensures TrimEach([a, b]) == [TrimSpace(a), TrimSpace(b)]
  {
  }

  lemma TrimEachOne(a: string)
    ensures TrimEach([a]) == [TrimSpace(a)]
  {
  }

  lemma TrimSpaceExamples()
    ensures TrimSpace("e") == "e" && TrimSpace(" l") == "l" && TrimSpace("el") == "el"
  {
    TrimLeadingBlank(" l");
    assert " l"[1..] == "l";
    TrimmedAlready("l");
    TrimmedAlready("e");
    TrimmedAlready("el");
  }

  lemma TrimmedAlready(s: string)
    requires |s| >= 1 && !IsSpace(s[0]) && !IsSpace(s[|s| - 1])
    ensures TrimSpace(s) == s
  {
  }

  lemma TrimLeadingBlank(s: string)
    requires |s| >= 1 && IsSpace(s[0])
    ensures TrimSpace(s) == TrimSpace(s[1..])
  {
  }

  /** "Contains e, l" needs both letters anywhere in the word; "hello" has them. */
  lemma ParseContainsLettersExample()
    ensures Parse("Contains e, l") == Success(ContainsAll(["e", "l"]))
    ensures Eval(Parse("Contains e, l").value, "hello")
  {
    ContainsLettersText();
    ContainsOperandText("e, l");
    OperandsExamples();
    ParseIgnoresCase("Contains e, l");
    ContainsSequenceExamples();
  }

  lemma ContainsLettersText()
    ensures ToLower("Contains e, l") == "contains e, l"
    ensures "contains " + "e, l" == "contains e, l"
  {
    CapitalContains("e, l");
    ToLowerOfLower("e, l");
  }

  /** "Contains el" needs the two letters side by side; "hello" has them. */
  lemma ParseContainsSequenceExample()
    ensures Parse("Contains el") == Success(ContainsAll(["el"]))
    ensures Eval(Parse("Contains el").value, "hello")
  {
    ContainsSequenceText();
    ContainsOperandText("el");
    OperandsExamples();
    ParseIgnoresCase("Contains el");
    ContainsSequenceExamples();
  }

  lemma ContainsSequenceText()
    ensures ToLower("Contains el") == "contains el"
    ensures "contains " + "el" == "contains el"
  {
    CapitalContains("el");
    ToLowerOfLower("el");
  }

  lemma CapitalContains(x: string)
    ensures ToLower("Contains " + x) == "contains " + ToLower(x)
  {
    ToLowerAppend("Contains ", x);
  }

  /** A lower-case operand text that does not start with "t" is a plain "contains" clue. */
  lemma ContainsOperandText(x: string)
    requires |x| >= 1 && x[0] != 't'
    requires forall k :: 0 <= k < |x| ==> !('A' <= x[k] <= 'Z')
    ensures Parse("contains " + x) == Success(ContainsAll(Operands(x)))
  {
    ToLowerOfLower(x);
    NotPrefixAt(x, "the letter", 0);
    ParseContains(x);
  }
}
