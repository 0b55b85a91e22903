/** Character classes, integer parsing and printing, and the `str` helpers
    (count, split, join, replace) that the normaliser is built from. */
module Text {

  datatype Option<T> = None | Some(value: T)

  /** Why a rewrite fails: Python's int() rejected a captured literal, or a
      library call raised on the text it was handed. */
  datatype Error = NotAnInteger(literal: string) | LibraryRaised(argument: string)

  datatype Result<T> = Success(value: T) | Failure(error: Error)

  predicate IsDigit(c: char) { '0' <= c <= '9' }

  predicate AllDigits(s: string) { forall k :: 0 <= k < |s| ==> IsDigit(s[k]) }

  predicate HasDigit(s: string) { exists k :: 0 <= k < |s| && IsDigit(s[k]) }

  function DigitValue(c: char): (d: nat)
    requires IsDigit(c)
    ensures d < 10
  {
    c as int - '0' as int
  }

  function DigitChar(d: nat): (c: char)
    requires d < 10
    ensures IsDigit(c) && DigitValue(c) == d
  {
    ('0' as int + d) as char
  }

  /** The number a run of ASCII digits denotes; leading zeros are allowed
      and the empty run denotes 0. */
  function Value(s: string): nat
    requires AllDigits(s)
  {
    if |s| == 0 then 0 else 10 * Value(s[..|s| - 1]) + DigitValue(s[|s| - 1])
  }

  /** Python's int() on text drawn from digits, '.' and ',': the empty
      string and any non-digit make it raise ValueError. */
  function ParseInt(s: string): (r: Result<nat>)
  {
    if |s| > 0 && AllDigits(s) then Success(Value(s)) else Failure(NotAnInteger(s))
  }

  /** The text '%s' gives for a non-negative int: decimal, no leading zero. */
  function Decimal(n: nat): (r: string)
    ensures |r| > 0 && AllDigits(r)
    ensures Value(r) == n
    ensures r[0] == '0' <==> n == 0
  {
    if n < 10 then [DigitChar(n)] else Decimal(n / 10) + [DigitChar(n % 10)]
  }

  /** int('%s' % n) == n: reading back a printed count gives the count. */
  lemma ParseDecimal(n: nat)
    ensures ParseInt(Decimal(n)) == Success(n)
  {
  }

  /** int() ignores leading zeros: "0" + s reads as s does, and is rejected
      exactly when s is. */
  lemma ParseIntLeadingZero(s: string)
    requires |s| > 0
    ensures ParseInt("0" + s) == ParseInt(s) || (ParseInt("0" + s).Failure? && ParseInt(s).Failure?)
  {
    if AllDigits(s) {
      LeadingZero(s);
    } else {
      var k :| 0 <= k < |s| && !IsDigit(s[k]);
      assert ("0" + s)[k + 1] == s[k];
    }
  }

  /** A run of digits denotes 0 exactly when every digit is '0'. */
  lemma {:induction false} ValueZeroIff(s: string)
    requires AllDigits(s)
    ensures Value(s) == 0 <==> forall k :: 0 <= k < |s| ==> s[k] == '0'
    decreases |s|
  {
    if |s| > 0 {
      var init := s[..|s| - 1];
      ValueZeroIff(init);
      assert forall k :: 0 <= k < |init| ==> init[k] == s[k];
    }
  }

  /** A leading zero does not change the value of a run of digits. */
  lemma {:induction false} LeadingZero(s: string)
    requires AllDigits(s)
    ensures AllDigits("0" + s) && Value("0" + s) == Value(s)
    decreases |s|
  {
    if |s| > 0 {
      var init := s[..|s| - 1];
      LeadingZero(init);
      assert ("0" + s)[..|s|] == "0" + init;
    }
  }

  /** Printing the value of a canonical run of digits gives the run back:
      Decimal and Value are inverse on text without leading zeros. */
  lemma {:induction false} DecimalOfValue(s: string)
    requires |s| > 0 && AllDigits(s)
    requires s[0] == '0' ==> |s| == 1
    ensures Decimal(Value(s)) == s
    decreases |s|
  {
    var last := s[|s| - 1];
    if |s| == 1 {
      assert Value(s) == DigitValue(last);
      assert DigitChar(DigitValue(last)) == last;
    } else {
      var init := s[..|s| - 1];
      ValueZeroIff(init);
      assert init[0] == s[0];
      DecimalOfValue(init);
      assert Value(s) / 10 == Value(init) && Value(s) % 10 == DigitValue(last);
      assert DigitChar(DigitValue(last)) == last;
      assert s == init + [last];
    }
  }

  /** The suffix from i is its first character and the suffix after it. */
  lemma SuffixCons(s: string, i: nat)
    requires i < |s|
    ensures s[i..] == [s[i]] + s[i + 1..]
  {
  }

  /** Number of occurrences of c in s. */
  function Count(s: string, c: char): (n: nat)
    ensures n <= |s|
    ensures n == 0 <==> c !in s
    decreases |s|
  {
    if |s| == 0 then 0 else (if s[0] == c then 1 else 0) + Count(s[1..], c)
  }

  lemma {:induction false} CountConcat(a: string, b: string, c: char)
    ensures Count(a + b, c) == Count(a, c) + Count(b, c)
    decreases |a|
  {
    if |a| == 0 {
      assert a + b == b;
    } else {
      assert (a + b)[0] == a[0] && (a + b)[1..] == a[1..] + b;
      CountConcat(a[1..], b, c);
    }
  }

  /** s with every c deleted, the other characters kept in order. */
  function Without(s: string, c: char): string
    decreases |s|
  {
    if |s| == 0 then [] else (if s[0] == c then [] else [s[0]]) + Without(s[1..], c)
  }

  lemma {:induction false} WithoutConcat(a: string, b: string, c: char)
    ensures Without(a + b, c) == Without(a, c) + Without(b, c)
    decreases |a|
  {
    if |a| == 0 {
      assert a + b == b;
    } else {
      assert (a + b)[0] == a[0] && (a + b)[1..] == a[1..] + b;
      WithoutConcat(a[1..], b, c);
    }
  }

  /** The text before the first c (all of s when c does not occur). */
  function Before(s: string, c: char): (r: string)
    ensures c !in r
    ensures c !in s ==> r == s
    decreases |s|
  {
    if |s| == 0 || s[0] == c then [] else [s[0]] + Before(s[1..], c)
  }

  /** The text after the first c (empty when c does not occur). */
  function After(s: string, c: char): (r: string)
    ensures c !in s ==> r == []
    decreases |s|
  {
    if |s| == 0 then [] else if s[0] == c then s[1..] else After(s[1..], c)
  }

  /** Around the first occurrence of c: the text before it and after it. */
  lemma {:induction false} BeforeAfterFirst(x: string, c: char, y: string)
    requires c !in x
    ensures Before(x + [c] + y, c) == x && After(x + [c] + y, c) == y
    decreases |x|
  {
    if |x| == 0 {
      assert x + [c] + y == [c] + y;
    } else {
      assert (x + [c] + y)[0] == x[0] && (x + [c] + y)[1..] == x[1..] + [c] + y;
      BeforeAfterFirst(x[1..], c, y);
      assert x == [x[0]] + x[1..];
    }
  }

  /** Python's sep.join(parts). */
  function Join(parts: seq<string>, sep: string): string
    requires |parts| > 0
    decreases |parts|
  {
    if |parts| == 1 then parts[0] else parts[0] + sep + Join(parts[1..], sep)
  }

  /** Python's s.split(c): Count + 1 pieces, none containing c; with no c
      the one piece is s, with one c the pieces are the text around it. */
  function SplitOn(s: string, c: char): (parts: seq<string>)
    ensures |parts| == Count(s, c) + 1
    ensures forall k :: 0 <= k < |parts| ==> c !in parts[k]
    ensures Count(s, c) == 0 ==> parts == [s]
    ensures Count(s, c) == 1 ==> parts == [Before(s, c), After(s, c)]
    decreases |s|
  {
    if |s| == 0 then [[]]
    else
      var tail := SplitOn(s[1..], c);
      assert s == [s[0]] + s[1..];
      if s[0] == c then [[]] + tail else [[s[0]] + tail[0]] + tail[1..]
  }

  /** Prefixing the first part prefixes the joined text. */
  lemma JoinConsHead(x: char, parts: seq<string>, sep: string)
    requires |parts| > 0
    ensures Join([[x] + parts[0]] + parts[1..], sep) == [x] + Join(parts, sep)
  {
    var q := [[x] + parts[0]] + parts[1..];
    assert q[1..] == parts[1..];
  }

  /** Concatenation regrouped, for proofs that build a string piece by piece. */
  lemma Associate(x: string, y: string, z: string)
    ensures x + (y + z) == (x + y) + z
  {
  }

  /** Python's s.replace(c, t) for a single character c. */
  function ReplaceCharWith(s: string, c: char, t: string): (r: string)
    ensures c !in s ==> r == s
    ensures c !in t ==> c !in r
    decreases |s|
  {
    if |s| == 0 then []
    else (if s[0] == c then t else [s[0]]) + ReplaceCharWith(s[1..], c, t)
  }

  /** Replacing c by t is joining the pieces of split(c) with t. */
  lemma {:induction false} ReplaceIsJoinOfSplit(s: string, c: char, t: string)
    ensures ReplaceCharWith(s, c, t) == Join(SplitOn(s, c), t)
    decreases |s|
  {
    if |s| > 0 {
      ReplaceIsJoinOfSplit(s[1..], c, t);
      if s[0] == c {
        JoinAtSeparator(s, c, t);
      } else {
        JoinConsHead(s[0], SplitOn(s[1..], c), t);
        assert SplitOn(s, c) == [[s[0]] + SplitOn(s[1..], c)[0]] + SplitOn(s[1..], c)[1..];
      }
    }
  }

  /** When s starts with c, split(c) starts with an empty piece, and joining
      puts t in front of the joined rest. */
  lemma JoinAtSeparator(s: string, c: char, t: string)
    requires |s| > 0 && s[0] == c
    ensures Join(SplitOn(s, c), t) == t + Join(SplitOn(s[1..], c), t)
  {
    var tail := SplitOn(s[1..], c);
    var parts := SplitOn(s, c);
    assert parts == [[]] + tail;
    assert |parts| > 1 && parts[0] == [] && parts[1..] == tail;
    assert Join(parts, t) == parts[0] + t + Join(parts[1..], t);
  }

  /** Replacing c by itself changes nothing. */
  lemma {:induction false} ReplaceByItself(s: string, c: char)
    ensures ReplaceCharWith(s, c, [c]) == s
    decreases |s|
  {
    if |s| > 0 {
      ReplaceByItself(s[1..], c);
      assert s == [s[0]] + s[1..];
    }
  }

  /** The pieces of split(c) joined with c give s back. */
  lemma SplitJoinsBack(s: string, c: char)
    ensures Join(SplitOn(s, c), [c]) == s
  {
    ReplaceIsJoinOfSplit(s, c, [c]);
    ReplaceByItself(s, c);
  }

  /** Python's s.replace(c, d) for single characters: a per-position map. */
  function ReplaceChar(s: string, c: char, d: char): (r: string)
    ensures |r| == |s|
    ensures forall k :: 0 <= k < |s| ==> r[k] == (if s[k] == c then d else s[k])
    decreases |s|
  {
    if |s| == 0 then [] else [if s[0] == c then d else s[0]] + ReplaceChar(s[1..], c, d)
  }
}
