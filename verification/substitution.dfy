/** Python's re.sub: every non-overlapping match, leftmost first, is
    replaced by what the replacement callback returns for it; a callback
    that raises makes the whole call raise. */
module Substitution {
  import opened Text
  import opened Patterns
  import opened Spelling
  import opened Amounts

  /** The replacement callbacks and templates of the source. */
  datatype Action =
    | StripCommas                 // _remove_commas
    | AppendWord(word: string)    // r'\1 pounds', r'\1 sterlin'
    | SpellAmount(cur: Currency)  // _expand_dollars, _expand_lira
    | SpellPoint(word: string)    // _expand_decimal_point(_tr)
    | EnglishOrdinal(lex: Lexicon)  // _expand_ordinal
    | TurkishOrdinal(lex: Lexicon)  // _expand_ordinal_tr
    | EnglishCardinal(lex: Lexicon) // _expand_number
    | TurkishCardinal(lex: Lexicon) // expand_numbers_tr
    | Literal(text: string)       // a plain replacement string
  {
    /** The callbacks that cannot raise: they never call int() and call no
        word library. */
    predicate Total() {
      !SpellAmount? && !EnglishOrdinal? && !TurkishOrdinal? && !EnglishCardinal? && !TurkishCardinal?
    }
  }

  /** The replacement for one match, given the captured text m. */
  function Expand(a: Action, m: string): (r: Result<string>)
    ensures a.Total() ==> r.Success?
  {
    match a
    case StripCommas => Success(Without(m, ','))
    case AppendWord(w) => Success(m + w)
    case SpellAmount(cur) => ExpandAmount(cur, m)
    case SpellPoint(w) => Success(ReplaceCharWith(m, '.', w))
    case EnglishOrdinal(lex) => lex.ordinal(m)
    case TurkishOrdinal(lex) => lex.turkishOrdinal(m)
    case EnglishCardinal(lex) =>
      (match ParseInt(m)
       case Success(n) => EnglishNumberWords(lex, n)
       case Failure(e) => Failure(e))
    case TurkishCardinal(lex) =>
      (match ParseInt(m)
       case Success(n) => TurkishNumberWords(lex, n)
       case Failure(e) => Failure(e))
    case Literal(t) => Success(t)
  }

  function Prepend(x: string, r: Result<string>): Result<string> {
    if r.Success? then Success(x + r.value) else r
  }

  /** re.sub(p, a, s[i..]) resumed at position i of s. */
  function SubFrom(p: Pattern, a: Action, s: string, i: nat): (r: Result<string>)
    requires i <= |s|
    ensures a.Total() ==> r.Success?
    decreases |s| - i
  {
    if i == |s| then Success([])
    else
      match MatchAt(p, s, i)
      case None => Prepend([s[i]], SubFrom(p, a, s, i + 1))
      case Some(e) =>
        match Expand(a, Captured(p, s, i, e))
        case Failure(err) => Failure(err)
        case Success(x) => Prepend(x, SubFrom(p, a, s, e))
  }

  /** re.sub(p, a, s). */
  function Sub(p: Pattern, a: Action, s: string): (r: Result<string>)
    ensures a.Total() ==> r.Success?
  {
    SubFrom(p, a, s, 0)
  }

  /** A plain replacement string is returned as it is, whatever was matched. */
  lemma ExpandLiteral(t: string, m: string)
    ensures Expand(Literal(t), m) == Success(t)
  {
  }

  /** The scan at a position where a match ends at e and its replacement is x. */
  lemma SubFromMatch(p: Pattern, a: Action, s: string, i: nat, e: nat, x: string)
    requires i < |s| && MatchAt(p, s, i) == Some(e)
    requires Expand(a, Captured(p, s, i, e)) == Success(x)
    ensures SubFrom(p, a, s, i) == Prepend(x, SubFrom(p, a, s, e))
  {
  }

  /** The scan at a position where no match starts. */
  lemma SubFromMiss(p: Pattern, a: Action, s: string, i: nat)
    requires i < |s| && MatchAt(p, s, i).None?
    ensures SubFrom(p, a, s, i) == Prepend([s[i]], SubFrom(p, a, s, i + 1))
  {
  }

  /** Where the pattern matches nowhere, re.sub returns its input. */
  lemma {:induction false} SubUnchanged(p: Pattern, a: Action, s: string, i: nat)
    requires i <= |s|
    requires forall k :: i <= k < |s| ==> MatchAt(p, s, k).None?
    ensures SubFrom(p, a, s, i) == Success(s[i..])
    decreases |s| - i
  {
    if i == |s| {
      assert s[i..] == [];
    } else {
      assert MatchAt(p, s, i).None?;
      SubUnchanged(p, a, s, i + 1);
      assert s[i..] == [s[i]] + s[i + 1..];
    }
  }

  /** A numeric pattern leaves digit-free text unchanged. */
  lemma NoDigitSubUnchanged(p: Pattern, a: Action, s: string)
    requires p.Numeric() && !HasDigit(s)
    ensures Sub(p, a, s) == Success(s)
  {
    forall k | 0 <= k < |s| ensures MatchAt(p, s, k).None? {
      NoDigitNoMatch(p, s, k);
    }
    SubUnchanged(p, a, s, 0);
  }
}
