/** The word matchers of the puzzle solver. Each Go constructor
    (`wordStartsWith`, `wordContains`, ...) returns a closure; here each is a
    constructor of `Pred` carrying only its operands, and `Eval` is the
    closure's body. */
module Predicates {
  import opened GoStrings

  datatype Pred =
    | StartsWith(prefix: string)
    | EndsWith(suffix: string)
    | StartsAndEndsWith(prefix: string, suffix: string)
    | ContainsAll(substrings: seq<string>)
    | DoesNotContain(substrings: seq<string>)
    | DoubleLetter
    | LengthGreaterThan(length: int)
    | LengthLessThan(length: int)
    | LengthEqualsTo(length: int)
    | LengthBetween(low: int, high: int)
    | ContainsMoreThanOne(letter: string)

  /** Two equal characters side by side somewhere in `word`. */
  predicate HasAdjacentPair(word: string) {
    exists i | 0 <= i < |word| - 1 :: word[i] == word[i + 1]
  }

  /** What the closure built for `p` answers for `word`. */
  function Eval(p: Pred, word: string): bool {
    match p
    case StartsWith(prefix) => HasPrefix(word, prefix)
    case EndsWith(suffix) => HasSuffix(word, suffix)
    case StartsAndEndsWith(prefix, suffix) => HasPrefix(word, prefix) && HasSuffix(word, suffix)
    case ContainsAll(subs) => forall k | 0 <= k < |subs| :: Contains(word, subs[k])
    case DoesNotContain(subs) => forall k | 0 <= k < |subs| :: !Contains(word, subs[k])
    case DoubleLetter => HasAdjacentPair(word)
    case LengthGreaterThan(n) => |word| > n
    case LengthLessThan(n) => |word| < n
    case LengthEqualsTo(n) => |word| == n
    case LengthBetween(low, high) => low <= |word| && |word| <= high
    case ContainsMoreThanOne(letter) => Count(word, letter) > 1
  }

  // ---------------------------------------------------------------------
  // The three matchers that the source writes as loops with early returns
  // ---------------------------------------------------------------------

  /** The loop of `wordContains`: false at the first substring that is missing. */
  method WordContains(substrings: seq<string>, word: string) returns (found: bool)
    ensures found <==> forall k :: 0 <= k < |substrings| ==> Contains(word, substrings[k])
  {
    for i := 0 to |substrings|
      invariant forall k :: 0 <= k < i ==> Contains(word, substrings[k])
    {
      if !Contains(word, substrings[i]) {
        return false;
      }
    }
    return true;
  }

  /** The loop of `wordDoesNotContain`: false at the first substring that is present. */
  method WordDoesNotContain(substrings: seq<string>, word: string) returns (absent: bool)
    ensures absent <==> forall k :: 0 <= k < |substrings| ==> !Contains(word, substrings[k])
  {
    for i := 0 to |substrings|
      invariant forall k :: 0 <= k < i ==> !Contains(word, substrings[k])
    {
      if Contains(word, substrings[i]) {
        return false;
      }
    }
    return true;
  }

  /** The loop of `wordHasDoubleLetter`: it runs over `len(word) - 1` positions,
      which is none at all for words of length 0 or 1. */
  method WordHasDoubleLetter(word: string) returns (double: bool)
    ensures double <==> exists i :: 0 <= i < |word| - 1 && word[i] == word[i + 1]
  {
    var i := 0;
    while i < |word| - 1
      invariant 0 <= i
      invariant forall k :: 0 <= k < i && k < |word| - 1 ==> word[k] != word[k + 1]
    {
      if word[i] == word[i + 1] {
        return true;
      }
      i := i + 1;
    }
    return false;
  }

  // ---------------------------------------------------------------------
  // What each matcher means
  // ---------------------------------------------------------------------

  /** A prefix matcher accepts exactly the words that are the prefix followed
      by something, a suffix matcher those that are something followed by the
      suffix. Matching compares characters exactly, so it is case-sensitive. */
  lemma PrefixSuffixMeaning(x: string, word: string)
    ensures Eval(StartsWith(x), word) <==> exists rest :: word == x + rest
    ensures Eval(EndsWith(x), word) <==> exists front :: word == front + x
  {
    PrefixMeaning(word, x);
    SuffixMeaning(word, x);
  }

  /** An empty operand matches every word; an operand longer than the word never does. */
  lemma OperandLength(x: string, word: string)
    ensures x == [] ==> Eval(StartsWith(x), word) && Eval(EndsWith(x), word)
    ensures |x| > |word| ==> !Eval(StartsWith(x), word) && !Eval(EndsWith(x), word)
    ensures |x| > |word| ==> !Eval(StartsAndEndsWith(x, x), word)
  {
  }

  /** Prefix and suffix are checked independently, so they may overlap:
      "ab" and "bc" both fit "abc". Upper and lower case differ. */
  lemma PrefixSuffixExamples()
    ensures Eval(StartsAndEndsWith("ab", "bc"), "abc")
    ensures Eval(StartsAndEndsWith("a", "a"), "abba")
    ensures !Eval(StartsWith("Hel"), "hello")
    ensures !Eval(EndsWith("LLO"), "hello")
    ensures !Eval(StartsAndEndsWith("He", "lo"), "hello")
  {
    assert "abc"[..2] == "ab" && "abc"[1..] == "bc";
    assert "abba"[..1] == "a" && "abba"[3..] == "a";
    assert "hello"[..3] != "Hel" by { assert "hello"[0] != "Hel"[0]; }
    assert "hello"[2..] != "LLO" by { assert "hello"[2] != "LLO"[0]; }
    assert "hello"[..2] != "He" by { assert "hello"[0] != "He"[0]; }
  }

  /** A word passes `ContainsAll` exactly when each listed operand splits it
      as `a + operand + b`, and `DoesNotContain` exactly when none does; with
      no operands both accept every word. */
  lemma ContainsMeaningAll(subs: seq<string>, word: string)
    ensures Eval(ContainsAll(subs), word) <==> forall k :: 0 <= k < |subs| ==> IsInfix(subs[k], word)
    ensures Eval(DoesNotContain(subs), word) <==> forall k :: 0 <= k < |subs| ==> !IsInfix(subs[k], word)
    ensures subs == [] ==> Eval(ContainsAll(subs), word) && Eval(DoesNotContain(subs), word)
  {
    forall k | 0 <= k < |subs|
      ensures Contains(word, subs[k]) <==> IsInfix(subs[k], word)
    {
      ContainsMeaning(word, subs[k]);
    }
  }

  /** An operand of several characters must occur contiguously: "el" is in
      "hello" but "le" is not, although both letters are. */
  lemma ContainsSequenceExamples()
    ensures Eval(ContainsAll(["el"]), "hello")
    ensures !Eval(ContainsAll(["le"]), "hello")
    ensures Eval(ContainsAll(["e", "l"]), "hello")
    ensures !Eval(DoesNotContain(["z", "e"]), "hello")
  {
    assert OccursAt("hello", "el", 1);
    assert OccursAt("hello", "e", 1);
    assert OccursAt("hello", "l", 2);
    assert Contains("hello", ["z", "e"][1]);
    assert !Contains("hello", ["le"][0]) by {
      forall i | 0 <= i <= 3
        ensures !OccursAt("hello", "le", i)
      {
        assert "hello"[i..i + 2][0] == "hello"[i];
        assert "hello"[i..i + 2][1] == "hello"[i + 1];
        if i == 0 { assert "hello"[0] != 'l'; }
        else if i == 1 { assert "hello"[1] != 'l'; }
        else if i == 2 { assert "hello"[3] != 'e'; }
        else { assert "hello"[4] != 'e'; }
      }
    }
  }

  /** The double-letter matcher looks only at neighbours: repeats that are
      apart, as in "banana", do not count, and words shorter than two never match. */
  lemma DoubleLetterExamples(word: string)
    ensures |word| <= 1 ==> !Eval(DoubleLetter, word)
    ensures !Eval(DoubleLetter, "banana")
    ensures Eval(DoubleLetter, "bookkeeper")
    ensures Eval(DoubleLetter, "pass")
  {
    assert "bookkeeper"[1] == "bookkeeper"[2];
    assert "pass"[2] == "pass"[3];
  }

  /** The length matchers stay exact at zero and negative bounds: a bound
      below zero makes "greater than" accept every word, even the empty one,
      and makes "less than" accept none. */
  lemma LengthBoundsExamples(n: int, word: string)
    ensures n < 0 ==> Eval(LengthGreaterThan(n), word)
    ensures n <= 0 ==> !Eval(LengthLessThan(n), word)
    ensures n < 0 ==> !Eval(LengthEqualsTo(n), word)
    ensures !Eval(LengthGreaterThan(0), "") && Eval(LengthGreaterThan(-1), "")
    ensures Eval(LengthBetween(n, n), word) <==> |word| == n
  {
  }

  /** "More than one" counts non-overlapping occurrences: a non-empty operand
      passes exactly when it occurs twice without overlap, and an empty
      operand passes every non-empty word. */
  lemma MoreThanOneMeaning(x: string, word: string)
    ensures x != [] ==> (Eval(ContainsMoreThanOne(x), word) <==> TwoDisjointOccurrences(word, x))
    ensures x == [] ==> (Eval(ContainsMoreThanOne(x), word) <==> |word| >= 1)
  {
    if x != [] {
      CountMoreThanOne(word, x);
    }
  }

  /** "aa" occurs twice in "aaa", at 0 and at 1, but the two occurrences
      overlap: the count is 1, so it is not "more than one". */
  lemma MoreThanOneOverlapExample()
    ensures OccursAt("aaa", "aa", 0) && OccursAt("aaa", "aa", 1)
    ensures Count("aaa", "aa") == 1
    ensures !Eval(ContainsMoreThanOne("aa"), "aaa")
  {
    assert "aaa"[..2] == "aa" && "aaa"[1..3] == "aa";
    assert "aaa"[2..] == "a";
  }

  /** "ll" occurs in "hello" only once, so it is not "more than one". */
  lemma MoreThanOneOnceExample()
    ensures Count("hello", "ll") == 1
    ensures !Eval(ContainsMoreThanOne("ll"), "hello")
  {
    assert "hello"[..2] != "ll" by { assert "hello"[0] != 'l'; }
    assert "hello"[1..] == "ello";
    assert "ello"[..2] != "ll" by { assert "ello"[0] != 'l'; }
    assert "ello"[1..] == "llo";
    assert "llo"[..2] == "ll";
    assert "llo"[2..] == "o";
  }

  /** "ab" occurs three times in "abababa", so it is "more than one". */
  lemma MoreThanOneRepeatedExample()
    ensures Eval(ContainsMoreThanOne("ab"), "abababa")
  {
    assert OccursAt("abababa", "ab", 0) && OccursAt("abababa", "ab", 2);
    MoreThanOneMeaning("ab", "abababa");
  }

  /** "l" occurs twice in "hello" and "h" once. */
  lemma MoreThanOneLetterExamples()
    ensures Eval(ContainsMoreThanOne("l"), "hello")
    ensures !Eval(ContainsMoreThanOne("h"), "hello")
    ensures !Eval(ContainsMoreThanOne("a"), "")
  {
    assert OccursAt("hello", "l", 2) && OccursAt("hello", "l", 3);
    MoreThanOneMeaning("l", "hello");
    SingleH();
  }

  lemma SingleH()
    ensures Count("hello", "h") == 1
  {
    assert "hello"[..1] == "h";
    assert "hello"[1..] == "ello";
    assert Count("ello", "h") == 0 by {
      CountPositive("ello", "h");
      forall i | 0 <= i <= 3
        ensures !OccursAt("ello", "h", i)
      {
        assert "ello"[i..i + 1][0] == "ello"[i];
      }
    }
  }
}
