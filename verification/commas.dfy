/** The comma stage, re.sub(([0-9][0-9\,]+[0-9]), _remove_commas), shown equal
    to a character filter: a comma is deleted exactly when, inside one run
    of digits and commas, a digit precedes it and a digit follows it. */
module Commas {
  import opened Text
  import opened Patterns
  import opened Substitution

  /** The first character of t that is not a comma exists and is a digit. */
  predicate DigitAhead(t: string)
    decreases |t|
  {
    |t| > 0 && (IsDigit(t[0]) || (t[0] == ',' && DigitAhead(t[1..])))
  }

  /** Reference filter; `seen` says a digit precedes t inside the current
      run of digits and commas. */
  function Degroup(t: string, seen: bool): string
    decreases |t|
  {
    if |t| == 0 then [] else Keep(t[0], seen, t[1..]) + Degroup(t[1..], NextSeen(t[0], seen))
  }

  /** What the filter keeps of character x, given what precedes and follows it. */
  function Keep(x: char, seen: bool, rest: string): string {
    if x == ',' && seen && DigitAhead(rest) then [] else [x]
  }

  /** Whether a digit precedes the character after x inside its run. */
  function NextSeen(x: char, seen: bool): bool {
    if IsDigit(x) then true else if x == ',' then seen else false
  }

  /** The filter deletes commas only: every other character survives, in order. */
  lemma {:induction false} DegroupKeepsNonCommas(t: string, seen: bool)
    ensures Without(Degroup(t, seen), ',') == Without(t, ',')
    decreases |t|
  {
    if |t| > 0 {
      var x, u := t[0], t[1..];
      DegroupKeepsNonCommas(u, NextSeen(x, seen));
      WithoutConcat(Keep(x, seen, u), Degroup(u, NextSeen(x, seen)), ',');
    }
  }

  lemma WithoutCons(x: char, t: string, c: char)
    ensures Without([x] + t, c) == (if x == c then [] else [x]) + Without(t, c)
  {
    assert ([x] + t)[0] == x && ([x] + t)[1..] == t;
  }

  /** One step of the filter, on text split into its first character and the rest. */
  lemma DegroupCons(x: char, t: string, seen: bool)
    ensures Degroup([x] + t, seen) == Keep(x, seen, t) + Degroup(t, NextSeen(x, seen))
  {
    assert ([x] + t)[0] == x && ([x] + t)[1..] == t;
  }

  /** A digit precedes position i inside its run of digits and commas. */
  predicate SeenBefore(s: string, i: nat)
    requires i <= |s|
    decreases i
  {
    i > 0 && (IsDigit(s[i - 1]) || (s[i - 1] == ',' && SeenBefore(s, i - 1)))
  }

  /** In the run of digits and commas at the start of t, no digit follows a comma. */
  predicate NoLateDigit(t: string) {
    || |t| == 0
    || !InClass(t[0], DigitsCommas)
    || (IsDigit(t[0]) && NoLateDigit(t[1..]))
    || (t[0] == ',' && !DigitAhead(t[1..]))
  }

  lemma NoLateDigitFromNoDigitAhead(t: string)
    requires !DigitAhead(t)
    ensures NoLateDigit(t)
  {
  }

  /** Commas up to a character outside the class leave no digit ahead. */
  lemma {:induction false} NoDigitAheadInCommas(s: string, m: nat, j: nat)
    requires m <= j <= |s|
    requires forall k :: m <= k < j ==> s[k] == ','
    requires j == |s| || !InClass(s[j], DigitsCommas)
    ensures !DigitAhead(s[m..])
    decreases j - m
  {
    if m < j {
      assert s[m..][1..] == s[m + 1..];
      NoDigitAheadInCommas(s, m + 1, j);
    }
  }

  /** Text of digits and commas that ends in a digit has a digit ahead, whatever follows it. */
  lemma {:induction false} DigitAheadInRun(w: string, rest: string)
    requires |w| > 0 && IsDigit(w[|w| - 1])
    requires forall k :: 0 <= k < |w| ==> InClass(w[k], DigitsCommas)
    ensures DigitAhead(w + rest)
    decreases |w|
  {
    assert (w + rest)[0] == w[0];
    if !IsDigit(w[0]) {
      assert (w + rest)[1..] == w[1..] + rest;
      DigitAheadInRun(w[1..], rest);
    }
  }

  /** Inside a matched span, after its first digit, the filter deletes every comma. */
  lemma {:induction false} DegroupSpan(w: string, rest: string)
    requires |w| > 0 ==> IsDigit(w[|w| - 1])
    requires forall k :: 0 <= k < |w| ==> InClass(w[k], DigitsCommas)
    ensures Degroup(w + rest, true) == Without(w, ',') + Degroup(rest, true)
    decreases |w|
  {
    if |w| == 0 {
      assert w + rest == rest;
    } else {
      var x, v := w[0], w[1..];
      HeadTail(w, rest);
      DegroupSpan(v, rest);
      DegroupCons(x, v + rest, true);
      WithoutCons(x, v, ',');
      if x == ',' {
        DigitAheadInRun(v, rest);
      } else {
        var a, b := Without(v, ','), Degroup(rest, true);
        assert [x] + (a + b) == ([x] + a) + b;
      }
    }
  }

  /** Non-empty w is its head and its tail, also in front of rest. */
  lemma HeadTail(w: string, rest: string)
    requires |w| > 0
    ensures w == [w[0]] + w[1..] && w + rest == [w[0]] + (w[1..] + rest)
  {
  }

  /** The facts about a comma-number match that the equivalence needs. */
  lemma CommaMatch(s: string, i: nat, e: nat)
    requires i < |s| && MatchAt(CommaNumber, s, i) == Some(e)
    ensures i + 3 <= e && IsDigit(s[i]) && IsDigit(s[e - 1])
    ensures forall k :: i <= k < e ==> InClass(s[k], DigitsCommas)
    ensures !DigitAhead(s[e..])
  {
    var j := SpanEnd(s, i + 1, DigitsCommas);
    assert forall k :: e <= k < j ==> s[k] == ',';
    NoDigitAheadInCommas(s, e, j);
  }

  /** After a digit that starts no comma-number match, no digit follows a comma. */
  lemma CommaMiss(s: string, i: nat)
    requires i < |s| && IsDigit(s[i]) && MatchAt(CommaNumber, s, i).None?
    ensures NoLateDigit(s[i + 1..])
  {
    if i + 1 < |s| && InClass(s[i + 1], DigitsCommas) {
      var j := SpanEnd(s, i + 1, DigitsCommas);
      assert forall k :: i + 2 <= k < j ==> s[k] == ',';
      NoDigitAheadInCommas(s, i + 2, j);
      assert s[i + 1..][1..] == s[i + 2..];
    }
  }

  /** The scanner, resumed at a position it can reach, agrees with the filter. */
  lemma {:induction false} ScannerIsDegroup(s: string, i: nat)
    requires i <= |s|
    requires SeenBefore(s, i) ==> NoLateDigit(s[i..])
    ensures SubFrom(CommaNumber, StripCommas, s, i) == Success(Degroup(s[i..], SeenBefore(s, i)))
    decreases |s| - i
  {
    if i == |s| {
      assert s[i..] == [];
    } else {
      match MatchAt(CommaNumber, s, i)
      case None =>
        if IsDigit(s[i]) {
          CommaMiss(s, i);
        } else if s[i] == ',' && SeenBefore(s, i) {
          NoLateDigitFromNoDigitAhead(s[i + 1..]);
        }
        ScannerIsDegroup(s, i + 1);
        MissStep(s, i);
      case Some(e) =>
        CommaMatch(s, i, e);
        assert SeenBefore(s, e);
        NoLateDigitFromNoDigitAhead(s[e..]);
        ScannerIsDegroup(s, e);
        MatchStep(s, i, e);
    }
  }

  /** Where no match starts, the scanner copies one character, as the filter does. */
  lemma MissStep(s: string, i: nat)
    requires i < |s| && MatchAt(CommaNumber, s, i).None?
    requires SeenBefore(s, i) ==> NoLateDigit(s[i..])
    requires SubFrom(CommaNumber, StripCommas, s, i + 1) == Success(Degroup(s[i + 1..], SeenBefore(s, i + 1)))
    ensures SubFrom(CommaNumber, StripCommas, s, i) == Success(Degroup(s[i..], SeenBefore(s, i)))
  {
    assert s[i..] == [s[i]] + s[i + 1..];
    DegroupCons(s[i], s[i + 1..], SeenBefore(s, i));
  }

  /** A match is replaced by its digits, as the filter keeps them. */
  lemma MatchStep(s: string, i: nat, e: nat)
    requires i < |s| && MatchAt(CommaNumber, s, i) == Some(e)
    requires SubFrom(CommaNumber, StripCommas, s, e) == Success(Degroup(s[e..], true))
    ensures SubFrom(CommaNumber, StripCommas, s, i) == Success(Degroup(s[i..], SeenBefore(s, i)))
  {
    CommaMatch(s, i, e);
    assert Captured(CommaNumber, s, i, e) == s[i..e];
    assert SubFrom(CommaNumber, StripCommas, s, i)
        == Success(Without(s[i..e], ',') + Degroup(s[e..], true));
    FilterOverMatch(s, i, e);
  }

  /** On a stretch of digits and commas that starts and ends with a digit,
      the filter deletes exactly the stretch's commas, whatever precedes it. */
  lemma FilterOverMatch(s: string, i: nat, e: nat)
    requires i < e <= |s| && IsDigit(s[i]) && IsDigit(s[e - 1])
    requires forall k :: i <= k < e ==> InClass(s[k], DigitsCommas)
    ensures Degroup(s[i..], SeenBefore(s, i)) == Without(s[i..e], ',') + Degroup(s[e..], true)
  {
    var x, w, rest := s[i], s[i + 1..e], s[e..];
    SliceAtDigit(s, i, e);
    forall k | 0 <= k < |w| ensures InClass(w[k], DigitsCommas) {
      assert w[k] == s[i + 1 + k];
    }
    assert |w| > 0 ==> w[|w| - 1] == s[e - 1];
    FilterAfterDigit(x, w, rest, SeenBefore(s, i));
  }

  /** s[i..] cut into its first character, the rest of the stretch to e, and what follows. */
  lemma SliceAtDigit(s: string, i: nat, e: nat)
    requires i < e <= |s|
    ensures s[i..] == [s[i]] + (s[i + 1..e] + s[e..])
    ensures s[i..e] == [s[i]] + s[i + 1..e]
  {
  }

  /** The same, for a stretch split into its first digit x and the rest w. */
  lemma FilterAfterDigit(x: char, w: string, rest: string, seen: bool)
    requires IsDigit(x) && (|w| > 0 ==> IsDigit(w[|w| - 1]))
    requires forall k :: 0 <= k < |w| ==> InClass(w[k], DigitsCommas)
    ensures Degroup([x] + (w + rest), seen) == Without([x] + w, ',') + Degroup(rest, true)
  {
    DegroupCons(x, w + rest, seen);
    DegroupSpan(w, rest);
    WithoutCons(x, w, ',');
    var a, b := Without(w, ','), Degroup(rest, true);
    assert [x] + (a + b) == ([x] + a) + b;
  }

  /** The comma stage computes the reference filter. */
  lemma CommaStageIsDegroup(s: string)
    ensures Sub(CommaNumber, StripCommas, s) == Success(Degroup(s, false))
  {
    ScannerIsDegroup(s, 0);
    assert s[0..] == s;
  }

  /** The filter keeps the digit ahead, or its absence, of the text it filters. */
  lemma {:induction false} DegroupKeepsDigitAhead(t: string, seen: bool)
    ensures DigitAhead(Degroup(t, seen)) == DigitAhead(t)
    decreases |t|
  {
    if |t| > 0 {
      var x, u := t[0], t[1..];
      if IsDigit(x) {
      } else if x == ',' {
        DegroupKeepsDigitAhead(u, seen);
        var rest := Degroup(u, seen);
        if !(seen && DigitAhead(u)) {
          assert Degroup(t, seen) == [','] + rest;
          assert ([','] + rest)[1..] == rest;
        } else {
          assert Degroup(t, seen) == rest;
        }
      } else {
      }
    }
  }

  lemma {:induction false} DegroupIdempotent(t: string, seen: bool)
    ensures Degroup(Degroup(t, seen), seen) == Degroup(t, seen)
    decreases |t|
  {
    if |t| > 0 {
      var x, u := t[0], t[1..];
      assert t == [x] + u;
      if IsDigit(x) {
        DegroupIdempotent(u, true);
        DegroupCons(x, Degroup(u, true), seen);
      } else if x == ',' {
        DegroupIdempotent(u, seen);
        if !(seen && DigitAhead(u)) {
          DegroupKeepsDigitAhead(u, seen);
          DegroupCons(x, Degroup(u, seen), seen);
          assert Degroup(t, seen) == [','] + Degroup(u, seen);
        } else {
          assert Degroup(t, seen) == Degroup(u, seen);
        }
      } else {
        DegroupIdempotent(u, false);
        DegroupCons(x, Degroup(u, false), seen);
      }
    }
  }

  /** The comma stage never fails, deletes nothing but commas, keeps every
      other character in order, and a second run changes nothing. */
  lemma CommaStage(s: string)
    ensures Sub(CommaNumber, StripCommas, s).Success?
    ensures var t := Sub(CommaNumber, StripCommas, s).value;
      && Without(t, ',') == Without(s, ',')
      && Sub(CommaNumber, StripCommas, t) == Success(t)
  {
    CommaStageIsDegroup(s);
    DegroupKeepsNonCommas(s, false);
    var t := Degroup(s, false);
    CommaStageIsDegroup(t);
    DegroupIdempotent(s, false);
  }
}
