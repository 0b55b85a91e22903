/** normalize_numbers and normalize_numbers_tr: a fixed table of re.sub
    stages run in order, each on the text the previous one left. */
module Numbers {
  import opened Text
  import opened Patterns
  import opened Spelling
  import opened Amounts
  import opened Substitution
  import Commas

  /** One stage: a pattern and the replacement for its matches. */
  datatype Rule = Rule(pattern: Pattern, action: Action)

  const EnglishOrdinalSuffixes: seq<string> := ["st", "nd", "rd", "th"]
  const TurkishOrdinalSuffixes: seq<string> := ["ıncı", "inci", "nci", "üncü", "uncu"]

  const Pounds := Amount('£', DigitsCommas)
  const DollarSign := Amount('$', DigitsDotsCommas)
  const LiraSign := Amount('₺', DigitsDotsCommas)

  /** The stages of normalize_numbers, in the order they run. Every stage
      needs a digit to match, and the comma stage comes first. */
  function EnglishRules(lex: Lexicon): (r: seq<Rule>)
    ensures |r| == 6 && AllNumeric(r)
    ensures r[0] == Rule(CommaNumber, StripCommas)
  {
    [ Rule(CommaNumber, StripCommas),
      Rule(Pounds, AppendWord(" pounds")),
      Rule(DollarSign, SpellAmount(Dollars)),
      Rule(DecimalNumber, SpellPoint(" point ")),
      Rule(Ordinal(EnglishOrdinalSuffixes), EnglishOrdinal(lex)),
      Rule(DigitRun, EnglishCardinal(lex)) ]
  }

  /** The stages of normalize_numbers_tr, in the order they run, with the
      same two facts. */
  function TurkishRules(lex: Lexicon): (r: seq<Rule>)
    ensures |r| == 7 && AllNumeric(r)
    ensures r[0] == Rule(CommaNumber, StripCommas)
  {
    [ Rule(CommaNumber, StripCommas),
      Rule(Pounds, AppendWord(" sterlin")),
      Rule(DollarSign, SpellAmount(Dollars)),
      Rule(LiraSign, SpellAmount(Liras)),
      Rule(DecimalNumber, SpellPoint(" nokta ")),
      Rule(Ordinal(TurkishOrdinalSuffixes), TurkishOrdinal(lex)),
      Rule(DigitRun, TurkishCardinal(lex)) ]
  }

  /** Runs the stages in order; the first stage that raises stops the cascade. */
  function Cascade(rules: seq<Rule>, s: string): Result<string>
    decreases |rules|
  {
    if |rules| == 0 then Success(s)
    else
      match Sub(rules[0].pattern, rules[0].action, s)
      case Failure(e) => Failure(e)
      case Success(t) => Cascade(rules[1..], t)
  }

  /** normalize_numbers: the English stages, in order. */
  function NormalizeNumbers(lex: Lexicon, s: string): Result<string> {
    Cascade(EnglishRules(lex), s)
  }

  /** normalize_numbers_tr: the Turkish stages, in order. */
  function NormalizeNumbersTr(lex: Lexicon, s: string): Result<string> {
    Cascade(TurkishRules(lex), s)
  }

  /** Neither ordinal pattern shortens its digit run: both suffix lists
      start every suffix with a letter, so no suffix occurs inside the run. */
  lemma OrdinalRunsWhole(s: string, i: nat, j: nat)
    requires i <= j < |s| && j < SpanEnd(s, i, Digits)
    ensures forall k :: 0 <= k < |EnglishOrdinalSuffixes| ==> !OccursAt(s, j, EnglishOrdinalSuffixes[k])
    ensures forall k :: 0 <= k < |TurkishOrdinalSuffixes| ==> !OccursAt(s, j, TurkishOrdinalSuffixes[k])
  {
    OrdinalNoBacktrack(EnglishOrdinalSuffixes, s, i, j);
    OrdinalNoBacktrack(TurkishOrdinalSuffixes, s, i, j);
  }

  /** Every stage's pattern needs an ASCII digit to match. */
  predicate AllNumeric(rules: seq<Rule>) {
    forall k :: 0 <= k < |rules| ==> rules[k].pattern.Numeric()
  }

  /** A cascade of numeric stages leaves text without a digit unchanged. */
  lemma {:induction false} DigitFreeCascade(rules: seq<Rule>, s: string)
    requires AllNumeric(rules) && !HasDigit(s)
    ensures Cascade(rules, s) == Success(s)
    decreases |rules|
  {
    if |rules| > 0 {
      NoDigitSubUnchanged(rules[0].pattern, rules[0].action, s);
      DigitFreeCascade(rules[1..], s);
    }
  }

  /** Text with no ASCII digit passes through both cascades unchanged. */
  lemma DigitFreeTextUnchanged(lex: Lexicon, s: string)
    requires !HasDigit(s)
    ensures NormalizeNumbers(lex, s) == Success(s)
    ensures NormalizeNumbersTr(lex, s) == Success(s)
  {
    DigitFreeCascade(EnglishRules(lex), s);
    DigitFreeCascade(TurkishRules(lex), s);
  }

  /** A cascade whose first stage is the comma stage gives the same result
      on a text and on that text with its digit-group commas removed. */
  lemma CommaStageFirst(rules: seq<Rule>, s: string)
    requires |rules| > 0 && rules[0] == Rule(CommaNumber, StripCommas)
    ensures Cascade(rules, s) == Cascade(rules, Sub(CommaNumber, StripCommas, s).value)
  {
    Commas.CommaStage(s);
  }

  /** Because commas go first, grouping commas do not change either cascade. */
  lemma GroupingCommasIgnored(lex: Lexicon, s: string)
    ensures Sub(CommaNumber, StripCommas, s).Success?
    ensures var t := Sub(CommaNumber, StripCommas, s).value;
      NormalizeNumbers(lex, s) == NormalizeNumbers(lex, t) && NormalizeNumbersTr(lex, s) == NormalizeNumbersTr(lex, t)
  {
    Commas.CommaStage(s);
    CommaStageFirst(EnglishRules(lex), s);
    CommaStageFirst(TurkishRules(lex), s);
  }

  /** "1,234" and "1234" normalise identically, in both languages. */
  lemma ThousandsSeparator(lex: Lexicon)
    ensures NormalizeNumbers(lex, "1,234") == NormalizeNumbers(lex, "1234")
    ensures NormalizeNumbersTr(lex, "1,234") == NormalizeNumbersTr(lex, "1234")
  {
    Commas.CommaStageIsDegroup("1,234");
    assert Commas.Degroup("1,234", false) == "1234";
    GroupingCommasIgnored(lex, "1,234");
  }

  /** _expand_number: int() of the run, then the English branch table. */
  lemma EnglishDigitRun(lex: Lexicon, m: string)
    requires |m| > 0 && AllDigits(m)
    ensures Expand(EnglishCardinal(lex), m) == EnglishNumberWords(lex, Value(m))
  {
    assert ParseInt(m) == Success(Value(m));
  }

  /** The English branch table: values strictly between 1000 and 3000 are
      read as years (in pairs, in hundreds, or "two thousand ..."), every
      other value by the general form without "and". */
  lemma EnglishBands(lex: Lexicon, n: nat)
    ensures n == 2000 ==> EnglishNumberWords(lex, n) == Success("two thousand")
    ensures 2001 <= n <= 2009 ==> EnglishNumberWords(lex, n) == Success("two thousand " + lex.cardinal(n % 100))
    ensures 1000 < n < 3000 && n != 2000 && n % 100 == 0 ==>
      EnglishNumberWords(lex, n) == Success(lex.cardinal(n / 100) + " hundred")
    ensures 1000 < n < 3000 && n % 100 != 0 && !(2001 <= n <= 2009) ==>
      EnglishNumberWords(lex, n) == Success(DropCommaBeforeSpace(lex.pairs(n)))
    ensures n <= 1000 || 3000 <= n ==> EnglishNumberWords(lex, n) == lex.cardinalNoAnd(n)
  {
  }

  /** expand_numbers_tr: "sıfır" exactly for runs of zeros, the library's words otherwise. */
  lemma TurkishDigitRun(lex: Lexicon, m: string)
    requires |m| > 0 && AllDigits(m)
    ensures (forall k :: 0 <= k < |m| ==> m[k] == '0') ==> Expand(TurkishCardinal(lex), m) == Success("sıfır")
    ensures (exists k :: 0 <= k < |m| && m[k] != '0') ==> Expand(TurkishCardinal(lex), m) == lex.turkish(Value(m))
  {
    ValueZeroIff(m);
  }

  /** Both digit-run callbacks read a run by its value: a leading zero changes nothing. */
  lemma LeadingZeroIgnored(lex: Lexicon, m: string)
    requires |m| > 0 && AllDigits(m)
    ensures Expand(EnglishCardinal(lex), "0" + m) == Expand(EnglishCardinal(lex), m)
    ensures Expand(TurkishCardinal(lex), "0" + m) == Expand(TurkishCardinal(lex), m)
  {
    LeadingZero(m);
  }

  /** "2005" is read "two thousand five"; "1900" is read "nineteen hundred". */
  lemma YearReadings(lex: Lexicon)
    ensures Expand(EnglishCardinal(lex), "2005") == Success("two thousand " + lex.cardinal(5))
    ensures Expand(EnglishCardinal(lex), "1900") == Success(lex.cardinal(19) + " hundred")
  {
    ValueOfFourDigits('2', '0', '0', '5');
    ValueOfFourDigits('1', '9', '0', '0');
    EnglishDigitRun(lex, "2005");
    EnglishDigitRun(lex, "1900");
  }

  /** The value of a four-digit run, digit by digit. */
  lemma ValueOfFourDigits(a: char, b: char, c: char, d: char)
    requires IsDigit(a) && IsDigit(b) && IsDigit(c) && IsDigit(d)
    ensures AllDigits([a, b, c, d])
    ensures Value([a, b, c, d]) == 1000 * DigitValue(a) + 100 * DigitValue(b) + 10 * DigitValue(c) + DigitValue(d)
  {
    var s := [a, b, c, d];
    assert s[..3] == [a, b, c] && [a, b, c][..2] == [a, b] && [a, b][..1] == [a] && [a][..0] == [];
    assert Value([a]) == DigitValue(a);
    assert Value([a, b]) == 10 * DigitValue(a) + DigitValue(b);
    assert Value([a, b, c]) == 10 * Value([a, b]) + DigitValue(c);
  }

  /** A decimal match is a digit run, '.', and a digit run that the match
      takes whole: no digit follows it. */
  lemma DecimalMatchShape(s: string, i: nat)
    requires i < |s| && MatchAt(DecimalNumber, s, i).Some?
    ensures var e, j := MatchAt(DecimalNumber, s, i).value, SpanEnd(s, i, Digits);
      && i < j && j + 1 < e && s[j] == '.'
      && AllDigits(s[i..j]) && AllDigits(s[j + 1..e])
      && (e == |s| || !IsDigit(s[e]))
      && s[i..e] == s[i..j] + ['.'] + s[j + 1..e]
  {
    var j := SpanEnd(s, i, Digits);
    var e := SpanEnd(s, j + 1, Digits);
    assert MatchAt(DecimalNumber, s, i) == Some(e);
    var x, y := s[i..j], s[j + 1..e];
    assert AllDigits(x) by {
      assert forall k :: 0 <= k < |x| ==> x[k] == s[i + k];
    }
    assert AllDigits(y) by {
      assert forall k :: 0 <= k < |y| ==> y[k] == s[j + 1 + k];
    }
  }

  /** _expand_decimal_point(_tr): a decimal match has one '.', between two
      digit runs, and the replacement puts the word in its place, leaving
      both runs as digits. */
  lemma DecimalRewrite(s: string, i: nat, w: string)
    requires i < |s| && MatchAt(DecimalNumber, s, i).Some?
    ensures var e, j := MatchAt(DecimalNumber, s, i).value, SpanEnd(s, i, Digits);
      && i < j && j + 1 < e && s[j] == '.'
      && AllDigits(s[i..j]) && AllDigits(s[j + 1..e])
      && (e == |s| || !IsDigit(s[e]))
      && Expand(SpellPoint(w), Captured(DecimalNumber, s, i, e)) == Success(s[i..j] + w + s[j + 1..e])
  {
    DecimalMatchShape(s, i);
    var e, j := MatchAt(DecimalNumber, s, i).value, SpanEnd(s, i, Digits);
    var x, y := s[i..j], s[j + 1..e];
    ReplaceSoleDot(x, y, w);
    assert Captured(DecimalNumber, s, i, e) == x + ['.'] + y;
    assert Expand(SpellPoint(w), x + ['.'] + y) == Success(ReplaceCharWith(x + ['.'] + y, '.', w));
  }

  /** The decimal match takes the whole digit run after the '.', so in
      "1.23.4" only the first '.' is read: the scan resumes at the second
      '.', where no match starts, and the "4" after it is left alone. */
  lemma DecimalTakesWholeRun()
    ensures Sub(DecimalNumber, SpellPoint(" point "), "1.23.4") == Success("1 point 23.4")
  {
    var s, a := "1.23.4", SpellPoint(" point ");
    assert SpanEnd(s, 5, Digits) == 6;
    assert MatchAt(DecimalNumber, s, 5) == None;
    assert SubFrom(DecimalNumber, a, s, 6) == Success([]);
    assert [s[5]] + [] == "4";
    assert SubFrom(DecimalNumber, a, s, 5) == Success("4");
    assert MatchAt(DecimalNumber, s, 4) == None;
    assert [s[4]] + "4" == ".4";
    assert SubFrom(DecimalNumber, a, s, 4) == Success(".4");
    assert SpanEnd(s, 0, Digits) == 1;
    DecimalMatch(s, 0, 4);
    assert MatchAt(DecimalNumber, s, 0) == Some(4);
    assert Captured(DecimalNumber, s, 0, 4) == "1" + ['.'] + "23";
    ReplaceSoleDot("1", "23", " point ");
    assert "1" + " point " + "23" == "1 point 23";
    assert Expand(a, Captured(DecimalNumber, s, 0, 4)) == Success("1 point 23");
    assert "1 point 23" + ".4" == "1 point 23.4";
  }

  /** Replacing the one '.' of two digit runs joined by it. */
  lemma ReplaceSoleDot(x: string, y: string, w: string)
    requires AllDigits(x) && AllDigits(y)
    ensures ReplaceCharWith(x + ['.'] + y, '.', w) == x + w + y
  {
    var m := x + ['.'] + y;
    assert '.' !in x && '.' !in y by {
      assert forall k :: 0 <= k < |x| ==> IsDigit(x[k]);
      assert forall k :: 0 <= k < |y| ==> IsDigit(y[k]);
    }
    CountConcat(x + ['.'], y, '.');
    CountConcat(x, ['.'], '.');
    assert Count(['.'], '.') == 1;
    assert Count(m, '.') == 1;
    BeforeAfterFirst(x, '.', y);
    ReplaceIsJoinOfSplit(m, '.', w);
    var parts := SplitOn(m, '.');
    assert parts == [x, y];
    assert parts[1..] == [y];
    assert Join(parts, w) == x + w + y;
  }

  /** A '$' followed by digits, '.', digits is one dollar match covering the
      whole text. */
  lemma DollarMatchSpans(x: string, y: string)
    requires AllDigits(x) && |y| > 0 && AllDigits(y)
    ensures var s := "$" + x + "." + y;
      MatchAt(DollarSign, s, 0) == Some(|s|) && Captured(DollarSign, s, 0, |s|) == x + "." + y
  {
    var s := "$" + x + "." + y;
    assert forall m :: 1 <= m < |s| ==> InClass(s[m], DigitsDotsCommas) by {
      forall m | 1 <= m < |s| ensures InClass(s[m], DigitsDotsCommas) {
        if m <= |x| { assert s[m] == x[m - 1]; }
        else if m > |x| + 1 { assert s[m] == y[m - |x| - 2]; }
      }
    }
    assert SpanEnd(s, 1, DigitsDotsCommas) == |s|;
    assert s[|s| - 1] == y[|y| - 1];
    assert s[1..] == x + "." + y;
  }

  /** The text a reading of an amount produces has no '.'. */
  lemma PhraseHasNoPeriod(cur: Currency, units: nat, subunits: nat)
    requires '.' !in cur.majorOne && '.' !in cur.major && '.' !in cur.minorOne && '.' !in cur.minor
    ensures '.' !in Phrase(cur, units, subunits)
  {
    assert !IsDigit('.');
  }

  /** Text without '.' has no decimal match, so the decimal stage leaves it alone. */
  lemma NoPeriodNoDecimal(t: string, w: string)
    requires '.' !in t
    ensures Sub(DecimalNumber, SpellPoint(w), t) == Success(t)
  {
    forall k | 0 <= k < |t| ensures MatchAt(DecimalNumber, t, k).None? {
      if IsDigit(t[k]) {
        var j := SpanEnd(t, k, Digits);
        assert j < |t| ==> t[j] != '.';
      }
    }
    SubUnchanged(DecimalNumber, SpellPoint(w), t, 0);
    assert t[0..] == t;
  }

  /** The dollar stage reads "$x.y" as one amount. */
  lemma DollarStageReadsAmount(x: string, y: string)
    requires AllDigits(x) && |y| > 0 && AllDigits(y)
    ensures Sub(DollarSign, SpellAmount(Dollars), "$" + x + "." + y) == Success(Phrase(Dollars, Value(x), Value(y)))
  {
    var s := "$" + x + "." + y;
    var r := Phrase(Dollars, Value(x), Value(y));
    DollarMatchSpans(x, y);
    Amounts.DottedAmount(Dollars, x, y);
    SubFromMatch(DollarSign, SpellAmount(Dollars), s, 0, |s|, r);
    assert SubFrom(DollarSign, SpellAmount(Dollars), s, |s|) == Success([]);
    assert r + [] == r;
  }

  /** A dollar or lira reading has no '.', so the decimal stage leaves it alone. */
  lemma PhraseSurvivesDecimal(cur: Currency, units: nat, subunits: nat, w: string)
    requires cur == Dollars || cur == Liras
    ensures Sub(DecimalNumber, SpellPoint(w), Phrase(cur, units, subunits)) == Success(Phrase(cur, units, subunits))
  {
    PhraseHasNoPeriod(cur, units, subunits);
    NoPeriodNoDecimal(Phrase(cur, units, subunits), w);
  }

  /** The dollar stage runs before the decimal stage: "$x.y" is read as an
      amount, and the decimal stage then finds no '.' to read as "point"
      (or "nokta"). */
  lemma AmountBeforeDecimal(x: string, y: string, w: string)
    requires AllDigits(x) && |y| > 0 && AllDigits(y)
    ensures var r := Phrase(Dollars, Value(x), Value(y));
      && Sub(DollarSign, SpellAmount(Dollars), "$" + x + "." + y) == Success(r)
      && Sub(DecimalNumber, SpellPoint(w), r) == Success(r)
  {
    DollarStageReadsAmount(x, y);
    PhraseSurvivesDecimal(Dollars, Value(x), Value(y), w);
  }
}
