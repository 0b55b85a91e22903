/** The regular expressions of the normaliser, each as a hand-written matcher
    that returns the end of the match Python's `re` finds at a position
    (greedy quantifiers with backtracking, alternatives tried in order). */
module Patterns {
  import opened Text

  /** The character classes that the patterns repeat. */
  datatype CharClass = Digits | DigitsCommas | DigitsDotsCommas | Spaces

  /** Python's `\s` on str patterns: the characters for which str.isspace() holds. */
  predicate IsSpace(c: char) {
    || c == ' '
    || '\t' <= c <= '\r'
    || '\U{1C}' <= c <= '\U{1F}'
    || c == '\U{85}' || c == '\U{A0}' || c == '\U{1680}'
    || '\U{2000}' <= c <= '\U{200A}'
    || c == '\U{2028}' || c == '\U{2029}' || c == '\U{202F}' || c == '\U{205F}' || c == '\U{3000}'
  }

  predicate InClass(c: char, k: CharClass) {
    match k
    case Digits => IsDigit(c)
    case DigitsCommas => IsDigit(c) || c == ','
    case DigitsDotsCommas => IsDigit(c) || c == '.' || c == ','
    case Spaces => IsSpace(c)
  }

  /** End of the longest run of class-k characters starting at i. */
  function SpanEnd(s: string, i: nat, k: CharClass): (j: nat)
    requires i <= |s|
    ensures i <= j <= |s|
    ensures forall m :: i <= m < j ==> InClass(s[m], k)
    ensures j == |s| || !InClass(s[j], k)
    decreases |s| - i
  {
    if i == |s| || !InClass(s[i], k) then i else SpanEnd(s, i + 1, k)
  }

  /** The last digit position in [lo, hi), if any. */
  function LastDigit(s: string, lo: nat, hi: nat): (r: Option<nat>)
    requires hi <= |s|
    ensures r.Some? ==> lo <= r.value < hi && IsDigit(s[r.value])
    ensures r.Some? ==> forall m :: r.value < m < hi ==> !IsDigit(s[m])
    ensures r.None? ==> forall m :: lo <= m < hi ==> !IsDigit(s[m])
    decreases hi
  {
    if hi <= lo then None
    else if IsDigit(s[hi - 1]) then Some(hi - 1)
    else LastDigit(s, lo, hi - 1)
  }

  /** w occurs in s at position j. */
  predicate OccursAt(s: string, j: nat, w: string) {
    j + |w| <= |s| && s[j..j + |w|] == w
  }

  /** Length of the first alternative of an alternation that matches at j. */
  function FirstAlternative(s: string, j: nat, alternatives: seq<string>): (r: Option<nat>)
    ensures r.Some? ==> j + r.value <= |s|
    decreases |alternatives|
  {
    if |alternatives| == 0 then None
    else if OccursAt(s, j, alternatives[0]) then Some(|alternatives[0]|)
    else FirstAlternative(s, j, alternatives[1..])
  }

  /** What `re.IGNORECASE` and `\b` need to know about Unicode, left
      abstract: whether a text character matches a pattern letter up to
      case, and whether a character is a word character for `\b`. */
  datatype Casing = Casing(sameLetter: (char, char) -> bool, isWordChar: char -> bool)

  /** Python's `\b` at position i. */
  predicate Boundary(casing: Casing, s: string, i: nat)
    requires i <= |s|
  {
    (i > 0 && casing.isWordChar(s[i - 1])) != (i < |s| && casing.isWordChar(s[i]))
  }

  /** The letters of w match s from position i, up to case. */
  predicate LettersAt(casing: Casing, s: string, i: nat, w: string)
    requires i + |w| <= |s|
  {
    forall k :: 0 <= k < |w| ==> casing.sameLetter(s[i + k], w[k])
  }

  datatype Pattern =
    | CommaNumber                                // ([0-9][0-9\,]+[0-9])
    | DecimalNumber                              // ([0-9]+\.[0-9]+)
    | Amount(symbol: char, body: CharClass)      // £([0-9\,]*[0-9]+), \$([0-9\.\,]*[0-9]+)
    | Ordinal(suffixes: seq<string>)             // [0-9]+(st|nd|rd|th)
    | DigitRun                                   // [0-9]+
    | Whitespace                                 // \s+
    | Abbreviation(word: string, casing: Casing) // \bword\. with re.IGNORECASE
  {
    /** The patterns of the numeric cascade: each needs an ASCII digit. */
    predicate Numeric() { !Whitespace? && !Abbreviation? }
  }

  /** Where the match of p that starts at i ends, if p matches there. */
  function MatchAt(p: Pattern, s: string, i: nat): (r: Option<nat>)
    requires i < |s|
    ensures r.Some? ==> i < r.value <= |s|
  {
    match p
    case CommaNumber =>
      if IsDigit(s[i]) && i + 1 < |s| then
        match LastDigit(s, i + 2, SpanEnd(s, i + 1, DigitsCommas))
        case Some(k) => Some(k + 1)
        case None => None
      else None
    case DecimalNumber =>
      if IsDigit(s[i]) then
        var j := SpanEnd(s, i, Digits);
        if j + 1 < |s| && s[j] == '.' && IsDigit(s[j + 1]) then Some(SpanEnd(s, j + 1, Digits)) else None
      else None
    case Amount(symbol, body) =>
      if s[i] == symbol then
        match LastDigit(s, i + 1, SpanEnd(s, i + 1, body))
        case Some(k) => Some(k + 1)
        case None => None
      else None
    case Ordinal(suffixes) =>
      if IsDigit(s[i]) then
        var j := SpanEnd(s, i, Digits);
        match FirstAlternative(s, j, suffixes)
        case Some(n) => Some(j + n)
        case None => None
      else None
    case DigitRun =>
      if IsDigit(s[i]) then Some(SpanEnd(s, i, Digits)) else None
    case Whitespace =>
      if IsSpace(s[i]) then Some(SpanEnd(s, i, Spaces)) else None
    case Abbreviation(word, casing) =>
      var j := i + |word|;
      if Boundary(casing, s, i) && j < |s| && LettersAt(casing, s, i, word) && s[j] == '.'
      then Some(j + 1) else None
  }

  /** The text the replacement receives: group 1 for the currency patterns
      (the symbol is not part of it), the whole match otherwise. */
  function Captured(p: Pattern, s: string, i: nat, e: nat): string
    requires i < e <= |s|
  {
    if p.Amount? then s[i + 1..e] else s[i..e]
  }

  /** Every numeric pattern needs a digit: in a string without one it never matches. */
  lemma NoDigitNoMatch(p: Pattern, s: string, i: nat)
    requires i < |s| && p.Numeric() && !HasDigit(s)
    ensures MatchAt(p, s, i).None?
  {
    assert !IsDigit(s[i]);
    if p.Amount? {
      var j := SpanEnd(s, i + 1, p.body);
      assert forall m :: i + 1 <= m < j ==> !IsDigit(s[m]);
    }
  }

  /** An abbreviation matches only text that ends in a literal '.'. */
  lemma AbbreviationEndsInPeriod(word: string, casing: Casing, s: string, i: nat, e: nat)
    requires i < |s|
    requires MatchAt(Abbreviation(word, casing), s, i) == Some(e)
    ensures e == i + |word| + 1 && s[e - 1] == '.' && Boundary(casing, s, i)
    ensures LettersAt(casing, s, i, word)
  {
  }

  /** The end of a greedy run of class-k characters from i is the one
      position that closes the run: everything before it is in the class and
      the character at it is not. */
  lemma SpanEndUnique(s: string, i: nat, k: CharClass, j: nat)
    requires i <= j <= |s|
    requires forall m :: i <= m < j ==> InClass(s[m], k)
    requires j == |s| || !InClass(s[j], k)
    ensures SpanEnd(s, i, k) == j
  {
  }

  /** `[0-9]+` matches at i exactly the maximal run of digits starting there. */
  lemma DigitRunMatch(s: string, i: nat, e: nat)
    requires i < |s|
    ensures MatchAt(DigitRun, s, i) == Some(e) <==>
      && i < e <= |s|
      && (forall m :: i <= m < e ==> IsDigit(s[m]))
      && (e == |s| || !IsDigit(s[e]))
  {
    if i < e <= |s| && (forall m :: i <= m < e ==> IsDigit(s[m])) && (e == |s| || !IsDigit(s[e])) {
      SpanEndUnique(s, i, Digits, e);
    }
  }

  /** `[0-9]+\.[0-9]+` matches at i exactly when the maximal digit run from i
      is followed by '.' and a digit, and then it ends at the end of the
      maximal digit run after the '.'. */
  lemma DecimalMatch(s: string, i: nat, e: nat)
    requires i < |s|
    ensures MatchAt(DecimalNumber, s, i) == Some(e) <==>
      var j := SpanEnd(s, i, Digits);
      && i < j && j + 1 < e <= |s| && s[j] == '.'
      && (forall m :: j + 1 <= m < e ==> IsDigit(s[m]))
      && (e == |s| || !IsDigit(s[e]))
  {
    var j := SpanEnd(s, i, Digits);
    if i < j && j + 1 < e <= |s| && s[j] == '.' && (forall m :: j + 1 <= m < e ==> IsDigit(s[m]))
      && (e == |s| || !IsDigit(s[e]))
    {
      SpanEndUnique(s, j + 1, Digits, e);
    }
  }

  /** An end e that the currency regex symbol([class]*[0-9]+) could reach
      from i: the symbol at i, then class characters up to a digit at e - 1. */
  predicate AmountEnd(symbol: char, body: CharClass, s: string, i: nat, e: nat) {
    && i < |s| && s[i] == symbol
    && i + 1 < e <= |s|
    && IsDigit(s[e - 1])
    && (forall m :: i + 1 <= m < e ==> InClass(s[m], body))
  }

  /** The currency patterns match at i exactly when some end is reachable,
      and then the match ends at the farthest one, as the greedy `[class]*`
      followed by backtracking to the last digit gives. */
  lemma AmountMatch(symbol: char, body: CharClass, s: string, i: nat)
    requires i < |s|
    ensures MatchAt(Amount(symbol, body), s, i).Some? ==>
      var e := MatchAt(Amount(symbol, body), s, i).value;
      && AmountEnd(symbol, body, s, i, e)
      && (forall f: nat :: AmountEnd(symbol, body, s, i, f) ==> f <= e)
    ensures MatchAt(Amount(symbol, body), s, i).None? ==>
      forall f: nat :: !AmountEnd(symbol, body, s, i, f)
  {
    if s[i] == symbol {
      var j := SpanEnd(s, i + 1, body);
      forall f: nat | AmountEnd(symbol, body, s, i, f)
        ensures f <= j && i + 1 <= f - 1 < j && IsDigit(s[f - 1])
      {
        assert forall m :: i + 1 <= m < f ==> InClass(s[m], body);
      }
    }
  }

  /** The first alternative, in the order written, that occurs at j. */
  lemma {:induction false} FirstAlternativeIsFirst(s: string, j: nat, alternatives: seq<string>)
    ensures FirstAlternative(s, j, alternatives).None? ==>
      forall k :: 0 <= k < |alternatives| ==> !OccursAt(s, j, alternatives[k])
    ensures FirstAlternative(s, j, alternatives).Some? ==>
      exists k :: 0 <= k < |alternatives|
        && FirstAlternative(s, j, alternatives).value == |alternatives[k]|
        && OccursAt(s, j, alternatives[k])
        && (forall q :: 0 <= q < k ==> !OccursAt(s, j, alternatives[q]))
    decreases |alternatives|
  {
    if |alternatives| > 0 && !OccursAt(s, j, alternatives[0]) {
      var rest := alternatives[1..];
      FirstAlternativeIsFirst(s, j, rest);
      if FirstAlternative(s, j, rest).Some? {
        var k :| 0 <= k < |rest| && FirstAlternative(s, j, rest).value == |rest[k]|
          && OccursAt(s, j, rest[k]) && (forall q :: 0 <= q < k ==> !OccursAt(s, j, rest[q]));
        assert alternatives[k + 1] == rest[k];
        assert forall q :: 1 <= q < k + 1 ==> alternatives[q] == rest[q - 1];
      } else {
        assert forall k :: 1 <= k < |alternatives| ==> alternatives[k] == rest[k - 1];
      }
    } else if |alternatives| > 0 {
      assert OccursAt(s, j, alternatives[0]);
    }
  }

  /** No suffix of an ordinal pattern starts with a digit, so the digit run
      before it is never shortened by backtracking: at a position inside the
      run no suffix occurs. */
  lemma OrdinalNoBacktrack(suffixes: seq<string>, s: string, i: nat, j: nat)
    requires forall k :: 0 <= k < |suffixes| ==> |suffixes[k]| > 0 && !IsDigit(suffixes[k][0])
    requires i <= j < |s| && j < SpanEnd(s, i, Digits)
    ensures forall k :: 0 <= k < |suffixes| ==> !OccursAt(s, j, suffixes[k])
  {
    assert IsDigit(s[j]);
    forall k | 0 <= k < |suffixes|
      ensures !OccursAt(s, j, suffixes[k])
    {
      if j + |suffixes[k]| <= |s| {
        assert s[j..j + |suffixes[k]|][0] == s[j];
      }
    }
  }

  /** `[0-9]+(suffix|...)` at i: the maximal digit run, then the first suffix
      in the order written that occurs after it. */
  lemma OrdinalMatch(suffixes: seq<string>, s: string, i: nat)
    requires i < |s|
    ensures MatchAt(Ordinal(suffixes), s, i).Some? <==>
      IsDigit(s[i]) && exists k :: 0 <= k < |suffixes| && OccursAt(s, SpanEnd(s, i, Digits), suffixes[k])
    ensures MatchAt(Ordinal(suffixes), s, i).Some? ==>
      var j, e := SpanEnd(s, i, Digits), MatchAt(Ordinal(suffixes), s, i).value;
      exists k :: 0 <= k < |suffixes|
        && e == j + |suffixes[k]|
        && OccursAt(s, j, suffixes[k])
        && (forall q :: 0 <= q < k ==> !OccursAt(s, j, suffixes[q]))
  {
    if IsDigit(s[i]) {
      FirstAlternativeIsFirst(s, SpanEnd(s, i, Digits), suffixes);
    }
  }
}
