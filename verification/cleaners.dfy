/** The text cleaners: the Turkish letter map, whitespace collapsing, the
    abbreviation table, and the fixed pipelines that compose them with the
    number normaliser. Lower-casing and transliteration to ASCII are library
    behaviour and stay abstract. */
module Cleaners {
  import opened Text
  import opened Patterns
  import opened Spelling
  import opened Substitution
  import opened Numbers

  /* ---------------------------------------------------------------- */
  /* turkish_letter_changer                                             */
  /* ---------------------------------------------------------------- */

  /** The letters the changer rewrites. */
  predicate IsChangedLetter(c: char) {
    c == 'ı' || c == 'I' || c == 'ü' || c == 'Ü' || c == 'ş' || c == 'Ş' || c == 'ç' || c == 'Ç'
  }

  /** The per-letter map the changer applies: dotless i and capital I to
      'w', ü to 'q', ş to 'x', ç to 'j' (both cases); anything else is kept. */
  function TurkishLetter(c: char): (r: char)
    ensures !IsChangedLetter(r)
    ensures !IsChangedLetter(c) ==> r == c
  {
    if c == 'ı' || c == 'I' then 'w'
    else if c == 'ü' || c == 'Ü' then 'q'
    else if c == 'ş' || c == 'Ş' then 'x'
    else if c == 'ç' || c == 'Ç' then 'j'
    else c
  }

  /** turkish_letter_changer: eight str.replace calls in the source's order.
      The chain is the per-position letter map: same length, every position
      mapped on its own. */
  function LetterChange(s: string): (r: string)
    ensures |r| == |s|
    ensures forall k :: 0 <= k < |s| ==> r[k] == TurkishLetter(s[k])
  {
    var t1 := ReplaceChar(s, 'ı', 'w');
    var t2 := ReplaceChar(t1, 'I', 'w');
    var t3 := ReplaceChar(t2, 'ü', 'q');
    var t4 := ReplaceChar(t3, 'Ü', 'q');
    var t5 := ReplaceChar(t4, 'ş', 'x');
    var t6 := ReplaceChar(t5, 'Ş', 'x');
    var t7 := ReplaceChar(t6, 'ç', 'j');
    var r := ReplaceChar(t7, 'Ç', 'j');
    assert forall k :: 0 <= k < |s| ==> r[k] == TurkishLetter(s[k]) by {
      forall k | 0 <= k < |s|
        ensures r[k] == TurkishLetter(s[k])
      {
        assert r[k] == ChainAt(s[k]);
      }
    }
    r
  }

  /** What the eight replacements do to one character, in the source's order. */
  function ChainAt(c: char): (r: char)
    ensures r == TurkishLetter(c)
  {
    var c1 := if c == 'ı' then 'w' else c;
    var c2 := if c1 == 'I' then 'w' else c1;
    var c3 := if c2 == 'ü' then 'q' else c2;
    var c4 := if c3 == 'Ü' then 'q' else c3;
    var c5 := if c4 == 'ş' then 'x' else c4;
    var c6 := if c5 == 'Ş' then 'x' else c5;
    var c7 := if c6 == 'ç' then 'j' else c6;
    if c7 == 'Ç' then 'j' else c7
  }

  /** None of the rewritten letters survives, and every other character is
      left where it was. */
  lemma LetterChangeExcludes(s: string)
    ensures forall k :: 0 <= k < |s| ==> !IsChangedLetter(LetterChange(s)[k])
    ensures forall k :: 0 <= k < |s| && !IsChangedLetter(s[k]) ==> LetterChange(s)[k] == s[k]
  {
    var r := LetterChange(s);
    forall k | 0 <= k < |s|
      ensures !IsChangedLetter(r[k])
      ensures !IsChangedLetter(s[k]) ==> r[k] == s[k]
    {
      assert r[k] == TurkishLetter(s[k]);
    }
  }

  /** The targets w, q, x, j are never rewritten, so a second pass changes nothing. */
  lemma LetterChangeIdempotent(s: string)
    ensures LetterChange(LetterChange(s)) == LetterChange(s)
  {
    var r := LetterChange(s);
    assert forall k :: 0 <= k < |r| ==> TurkishLetter(r[k]) == r[k];
  }

  /* ---------------------------------------------------------------- */
  /* collapse_whitespace                                                */
  /* ---------------------------------------------------------------- */

  /** No two whitespace characters stand next to each other. */
  predicate NoAdjacentSpace(s: string) {
    forall k :: 0 <= k < |s| - 1 ==> !(IsSpace(s[k]) && IsSpace(s[k + 1]))
  }

  /** The only whitespace character in s is the plain space. */
  predicate OnlyPlainSpaces(s: string) {
    forall k :: 0 <= k < |s| && IsSpace(s[k]) ==> s[k] == ' '
  }

  /** The non-whitespace characters of s, in order. */
  function Visible(s: string): string
    decreases |s|
  {
    if |s| == 0 then [] else (if IsSpace(s[0]) then [] else [s[0]]) + Visible(s[1..])
  }

  lemma VisibleCons(x: char, t: string)
    ensures Visible([x] + t) == (if IsSpace(x) then [] else [x]) + Visible(t)
  {
    assert ([x] + t)[1..] == t;
  }

  /** A run of whitespace contributes nothing visible. */
  lemma {:induction false} VisibleSkipsRun(s: string, i: nat, e: nat)
    requires i <= e <= |s|
    requires forall m :: i <= m < e ==> IsSpace(s[m])
    ensures Visible(s[i..]) == Visible(s[e..])
    decreases e - i
  {
    if i < e {
      VisibleSkipsRun(s, i + 1, e);
      assert s[i..] == [s[i]] + s[i + 1..];
      VisibleCons(s[i], s[i + 1..]);
    }
  }

  /** re.sub(r'\s+', ' ', s[i..]): Literal(" ") never fails. */
  function CollapseFrom(s: string, i: nat): string
    requires i <= |s|
  {
    SubFrom(Whitespace, Literal(" "), s, i).value
  }

  /** One step of the scan: a whitespace run becomes one space, any other
      character is copied. */
  lemma CollapseStep(s: string, i: nat)
    requires i < |s|
    ensures IsSpace(s[i]) ==>
      var e := SpanEnd(s, i, Spaces);
      CollapseFrom(s, i) == " " + CollapseFrom(s, e)
    ensures !IsSpace(s[i]) ==> CollapseFrom(s, i) == [s[i]] + CollapseFrom(s, i + 1)
  {
  }

  /** The same scan written out directly: a whitespace run becomes one
      space, any other character is copied. */
  function CollapseScan(s: string, i: nat): string
    requires i <= |s|
    decreases |s| - i
  {
    if i == |s| then []
    else if IsSpace(s[i]) then " " + CollapseScan(s, SpanEnd(s, i, Spaces))
    else [s[i]] + CollapseScan(s, i + 1)
  }

  /** re.sub's scan and the direct scan produce the same text. */
  lemma {:induction false} CollapseScanAgrees(s: string, i: nat)
    requires i <= |s|
    ensures CollapseFrom(s, i) == CollapseScan(s, i)
    decreases |s| - i
  {
    if i < |s| {
      CollapseStep(s, i);
      if IsSpace(s[i]) {
        CollapseScanAgrees(s, SpanEnd(s, i, Spaces));
      } else {
        CollapseScanAgrees(s, i + 1);
      }
    }
  }

  /** The scan from position i produces a collapsed rendering of s[i..]. */
  lemma {:induction false} CollapseFacts(s: string, i: nat)
    requires i <= |s|
    ensures CollapsedFrom(s, i, CollapseScan(s, i))
    decreases |s| - i
  {
    if i == |s| {
      assert s[i..] == [];
    } else {
      if IsSpace(s[i]) {
        var e := SpanEnd(s, i, Spaces);
        CollapseFacts(s, e);
        CollapseSpaceStep(s, i, e, CollapseScan(s, e));
      } else {
        CollapseFacts(s, i + 1);
        CollapseCharStep(s, i, CollapseScan(s, i + 1));
      }
    }
  }

  /** r is a collapsed rendering of s[i..]: no adjacent whitespace, only
      plain spaces, the same visible characters, and first and last
      characters that are whitespace exactly when the input's are. */
  predicate CollapsedFrom(s: string, i: nat, r: string)
    requires i <= |s|
  {
    && NoAdjacentSpace(r)
    && OnlyPlainSpaces(r)
    && Visible(r) == Visible(s[i..])
    && (i < |s| ==> |r| > 0 && (IsSpace(r[0]) <==> IsSpace(s[i])))
    && (i < |s| ==> (IsSpace(r[|r| - 1]) <==> IsSpace(s[|s| - 1])))
    && (i == |s| ==> r == [])
  }

  /** A whitespace run followed by a collapsed rest collapses to one space
      in front of it. */
  lemma CollapseSpaceStep(s: string, i: nat, e: nat, rest: string)
    requires i < |s| && IsSpace(s[i]) && e == SpanEnd(s, i, Spaces)
    requires CollapsedFrom(s, e, rest)
    ensures CollapsedFrom(s, i, [' '] + rest)
  {
    var r := [' '] + rest;
    assert e < |s| ==> !IsSpace(s[e]);
    VisibleSkipsRun(s, i, e);
    VisibleCons(' ', rest);
    if e == |s| {
      assert IsSpace(s[|s| - 1]);
    }
  }

  /** A visible character followed by a collapsed rest. */
  lemma CollapseCharStep(s: string, i: nat, rest: string)
    requires i < |s| && !IsSpace(s[i])
    requires CollapsedFrom(s, i + 1, rest)
    ensures CollapsedFrom(s, i, [s[i]] + rest)
  {
    assert s[i..] == [s[i]] + s[i + 1..];
    VisibleCons(s[i], rest);
    VisibleCons(s[i], s[i + 1..]);
  }


  /** collapse_whitespace: every maximal whitespace run becomes one space.
      The result has no two adjacent whitespace characters, uses only the
      plain space as whitespace, keeps every other character in order, and
      does not trim: a leading or trailing run leaves a space behind. */
  function CollapseWhitespace(s: string): (r: string)
    ensures NoAdjacentSpace(r) && OnlyPlainSpaces(r)
    ensures Visible(r) == Visible(s)
    ensures |s| > 0 ==> |r| > 0 && (r[0] == ' ' <==> IsSpace(s[0]))
    ensures |s| > 0 ==> (r[|r| - 1] == ' ' <==> IsSpace(s[|s| - 1]))
    ensures |s| == 0 ==> r == []
  {
    CollapseScanAgrees(s, 0);
    CollapseFacts(s, 0);
    assert s[0..] == s;
    CollapseFrom(s, 0)
  }

  /** Text already collapsed is its own scan from position i. */
  lemma {:induction false} CollapseFixedFrom(s: string, i: nat)
    requires i <= |s|
    requires NoAdjacentSpace(s) && OnlyPlainSpaces(s)
    ensures CollapseScan(s, i) == s[i..]
    decreases |s| - i
  {
    if i == |s| {
      assert s[i..] == [];
    } else {
      if IsSpace(s[i]) {
        var e := SpanEnd(s, i, Spaces);
        assert i + 1 < |s| ==> !IsSpace(s[i + 1]);
        assert e == i + 1;
        CollapseFixedFrom(s, i + 1);
      } else {
        CollapseFixedFrom(s, i + 1);
      }
      assert s[i..] == [s[i]] + s[i + 1..];
    }
  }

  /** Collapsing twice is collapsing once. */
  lemma CollapseIdempotent(s: string)
    ensures CollapseWhitespace(CollapseWhitespace(s)) == CollapseWhitespace(s)
  {
    var r := CollapseWhitespace(s);
    CollapseScanAgrees(r, 0);
    CollapseFixedFrom(r, 0);
    assert r[0..] == r;
  }

  /** A non-empty input made only of whitespace becomes exactly one space. */
  lemma AllWhitespace(s: string)
    requires |s| > 0 && forall k :: 0 <= k < |s| ==> IsSpace(s[k])
    ensures CollapseWhitespace(s) == " "
  {
    CollapseScanAgrees(s, 0);
    assert SpanEnd(s, 0, Spaces) == |s|;
  }

  /** A whitespace run between two words becomes exactly one space, and the
      text on either side is collapsed on its own. */
  lemma CollapseAroundRun(a: string, w: string, b: string)
    requires |w| > 0 && forall k :: 0 <= k < |w| ==> IsSpace(w[k])
    requires |a| > 0 ==> !IsSpace(a[|a| - 1])
    requires |b| > 0 ==> !IsSpace(b[0])
    ensures CollapseWhitespace(a + w + b) == CollapseWhitespace(a) + " " + CollapseWhitespace(b)
  {
    Concat3(a, w, b);
    CollapseScanAgrees(a + (w + b), 0);
    CollapseScanAgrees(a, 0);
    CollapseScanAgrees(b, 0);
    ScanAroundRun(a, w, b);
  }

  lemma ScanAroundRun(a: string, w: string, b: string)
    requires |w| > 0 && forall k :: 0 <= k < |w| ==> IsSpace(w[k])
    requires |a| > 0 ==> !IsSpace(a[|a| - 1])
    requires |b| > 0 ==> !IsSpace(b[0])
    ensures CollapseScan(a + (w + b), 0) == CollapseScan(a, 0) + " " + CollapseScan(b, 0)
  {
    var s := a + (w + b);
    CollapsePrefix(a, w + b, 0);
    RunBetween(a, w, b);
    TailJoin(a, w, b);
    ShiftFromStart(s, |a| + |w|, b);
    SpaceBetween(CollapseScan(s, 0), CollapseScan(a, 0), CollapseScan(s, |a|),
      CollapseScan(s, |a| + |w|), CollapseScan(b, 0));
  }

  lemma SpaceBetween(x: string, p: string, r: string, q: string, y: string)
    requires x == p + r && r == " " + q && q == y
    ensures x == p + " " + y
  {
  }

  lemma Concat3(a: string, w: string, b: string)
    ensures a + w + b == a + (w + b) && (a + w + b)[0..] == a + w + b
    ensures a[0..] == a && b[0..] == b && |a + w| == |a| + |w|
  {
  }

  /** The run w after a is scanned as one space, and the scan resumes at b. */
  lemma RunBetween(a: string, w: string, b: string)
    requires |w| > 0 && forall k :: 0 <= k < |w| ==> IsSpace(w[k])
    requires |b| > 0 ==> !IsSpace(b[0])
    ensures CollapseScan(a + (w + b), |a|) == " " + CollapseScan(a + (w + b), |a| + |w|)
  {
    var s := a + (w + b);
    assert s[|a|] == w[0];
    RunEnd(a, w, b);
  }

  lemma RunEnd(a: string, w: string, b: string)
    requires |w| > 0 && forall k :: 0 <= k < |w| ==> IsSpace(w[k])
    requires |b| > 0 ==> !IsSpace(b[0])
    ensures SpanEnd(a + (w + b), |a|, Spaces) == |a| + |w|
  {
    var s := a + (w + b);
    assert forall m :: |a| <= m < |a| + |w| ==> s[m] == w[m - |a|];
    assert |a| + |w| < |s| ==> s[|a| + |w|] == b[0];
    SpanEndUnique(s, |a|, Spaces, |a| + |w|);
  }

  /** The scan over a + t up to the end of a, when a does not end in
      whitespace, is the scan of a alone. */
  lemma {:induction false} CollapsePrefix(a: string, t: string, i: nat)
    requires i <= |a|
    requires |a| > 0 ==> !IsSpace(a[|a| - 1])
    ensures CollapseScan(a + t, i) == CollapseScan(a, i) + CollapseScan(a + t, |a|)
    decreases |a| - i
  {
    if i < |a| {
      if IsSpace(a[i]) {
        var e := SpanEnd(a, i, Spaces);
        CollapsePrefix(a, t, e);
        PrefixSpaceStep(a, t, i);
      } else {
        CollapsePrefix(a, t, i + 1);
        PrefixCharStep(a, t, i);
      }
    }
  }

  lemma PrefixSpaceStep(a: string, t: string, i: nat)
    requires i < |a| && IsSpace(a[i]) && !IsSpace(a[|a| - 1])
    requires SpanEnd(a, i, Spaces) <= |a|
    requires CollapseScan(a + t, SpanEnd(a, i, Spaces))
      == CollapseScan(a, SpanEnd(a, i, Spaces)) + CollapseScan(a + t, |a|)
    ensures CollapseScan(a + t, i) == CollapseScan(a, i) + CollapseScan(a + t, |a|)
  {
    var e := SpanEnd(a, i, Spaces);
    SpanEndPrefix(a, t, i);
    Associate(" ", CollapseScan(a, e), CollapseScan(a + t, |a|));
  }

  lemma PrefixCharStep(a: string, t: string, i: nat)
    requires i < |a| && !IsSpace(a[i])
    requires CollapseScan(a + t, i + 1) == CollapseScan(a, i + 1) + CollapseScan(a + t, |a|)
    ensures CollapseScan(a + t, i) == CollapseScan(a, i) + CollapseScan(a + t, |a|)
  {
    assert (a + t)[i] == a[i];
    Associate([a[i]], CollapseScan(a, i + 1), CollapseScan(a + t, |a|));
  }

  /** A whitespace run inside a that stops before a's end stops at the same
      place in a + t. */
  lemma SpanEndPrefix(a: string, t: string, i: nat)
    requires i < |a| && IsSpace(a[i]) && !IsSpace(a[|a| - 1])
    ensures SpanEnd(a, i, Spaces) < |a|
    ensures SpanEnd(a + t, i, Spaces) == SpanEnd(a, i, Spaces)
  {
    var e := SpanEnd(a, i, Spaces);
    assert e == |a| ==> InClass(a[|a| - 1], Spaces);
    assert forall m :: i <= m <= e && m < |a| ==> (a + t)[m] == a[m];
    SpanEndUnique(a + t, i, Spaces, e);
  }

  /** s ends with b, which starts at position d. */
  predicate TailIs(s: string, d: nat, b: string) {
    |s| == d + |b| && forall k :: d <= k < |s| ==> s[k] == b[k - d]
  }

  /** The scan of a text from the start of its tail b is the scan of b. */
  lemma ShiftFromStart(s: string, d: nat, b: string)
    requires d <= |s| && s[d..] == b
    ensures CollapseScan(s, d) == CollapseScan(b, 0)
  {
    assert TailIs(s, d, b);
    CollapseShift(s, d, b, 0);
  }

  lemma TailJoin(a: string, w: string, b: string)
    ensures (a + (w + b))[|a| + |w|..] == b
  {
  }

  /** The scan of a text from inside its tail b does not depend on what
      comes before b. */
  lemma {:induction false} CollapseShift(s: string, d: nat, b: string, j: nat)
    requires TailIs(s, d, b) && j <= |b|
    ensures CollapseScan(s, d + j) == CollapseScan(b, j)
    decreases |b| - j
  {
    if j < |b| {
      if IsSpace(b[j]) {
        CollapseShift(s, d, b, SpanEnd(b, j, Spaces));
        ShiftSpaceStep(s, d, b, j);
      } else {
        CollapseShift(s, d, b, j + 1);
        ShiftCharStep(s, d, b, j);
      }
    }
  }

  lemma ShiftSpaceStep(s: string, d: nat, b: string, j: nat)
    requires TailIs(s, d, b) && j < |b| && IsSpace(b[j])
    requires CollapseScan(s, d + SpanEnd(b, j, Spaces)) == CollapseScan(b, SpanEnd(b, j, Spaces))
    ensures CollapseScan(s, d + j) == CollapseScan(b, j)
  {
    SpanEndShift(s, d, b, j);
  }

  lemma ShiftCharStep(s: string, d: nat, b: string, j: nat)
    requires TailIs(s, d, b) && j < |b| && !IsSpace(b[j])
    requires CollapseScan(s, d + j + 1) == CollapseScan(b, j + 1)
    ensures CollapseScan(s, d + j) == CollapseScan(b, j)
  {
    assert s[d + j] == b[j];
  }

  /** A whitespace run in the tail b ends at the same place, shifted by d. */
  lemma SpanEndShift(s: string, d: nat, b: string, j: nat)
    requires TailIs(s, d, b) && j < |b|
    ensures s[d + j] == b[j]
    ensures SpanEnd(s, d + j, Spaces) == d + SpanEnd(b, j, Spaces)
  {
    var e := SpanEnd(b, j, Spaces);
    assert forall m :: d + j <= m < d + e ==> s[m] == b[m - d];
    assert d + e < |s| ==> s[d + e] == b[e];
    SpanEndUnique(s, d + j, Spaces, d + e);
  }

  /* ---------------------------------------------------------------- */
  /* expand_abbreviations                                               */
  /* ---------------------------------------------------------------- */

  /** Replacement text of an abbreviation: it contains no '.'. */
  type Expansion = t: string | '.' !in t

  /** The abbreviations, in table order, each with its expansion. Every
      expansion is an Expansion, so none brings a '.' back into the text. */
  function AbbreviationTable(): (table: seq<(string, Expansion)>)
    ensures |table| == 37
  {
    AbbreviationRows1() + AbbreviationRows2() + AbbreviationRows3()
      + AbbreviationRows4() + AbbreviationRows5() + AbbreviationRows6()
  }

  function AbbreviationRows1(): seq<(string, Expansion)> {
    [
      ("vb", "vebenzeri"),
      ("vs", "vesaire"),
      ("dr", "doktor"),
      ("av", "avukat"),
      ("MÖ", "milattan önce"),
      ("MS", "milattan sonra"),
      ("TBMM", "Türkiye Büyük Millet Meclisi")
    ]
  }

  function AbbreviationRows2(): seq<(string, Expansion)> {
    [
      ("TDK", "Türk Dil Kurumu"),
      ("TC", "Türkiye Cumhuriyeti"),
      ("mm", "milimetre"),
      ("kg", "kilogram"),
      ("km", "kilometre"),
      ("mg", "miligram")
    ]
  }

  function AbbreviationRows3(): seq<(string, Expansion)> {
    [
      ("Prof", "Profesör"),
      ("haz", "hazırlayan"),
      ("çev", "çeviren"),
      ("Alb", "Albay"),
      ("Müh", "Mühendis"),
      ("no", "Numara")
    ]
  }

  function AbbreviationRows4(): seq<(string, Expansion)> {
    [
      ("Opr", "Operatör"),
      ("Org", "Orgeneral"),
      ("Uzm", "Uzman"),
      ("Yrd", "Yardımcı"),
      ("Doç", "Doçent"),
      ("Yzb", "Yüzbaşı")
    ]
  }

  function AbbreviationRows5(): seq<(string, Expansion)> {
    [
      ("mah", "Mahallesi"),
      ("cad", "Caddesi"),
      ("sok", "Sokak"),
      ("Apt", "Apartman"),
      ("Ecz", "Eczane"),
      ("THY", "Türk Hava Yolları")
    ]
  }

  function AbbreviationRows6(): seq<(string, Expansion)> {
    [
      ("MEB", "Milli Eğitim Bakanlığı"),
      ("bkz", "bakınız"),
      ("bul", "Bulvarı"),
      ("gön", "gönderen"),
      ("lt", "litre"),
      ("yy", "yüzyıl")
    ]
  }

  /** One full re.sub pass per table entry, in table order. */
  function ExpandAbbreviations(casing: Casing, table: seq<(string, string)>, s: string): string
    decreases |table|
  {
    if |table| == 0 then s
    else
      var pass := Sub(Abbreviation(table[0].0, casing), Literal(table[0].1), s).value;
      ExpandAbbreviations(casing, table[1..], pass)
  }

  /** Applying a table split in two is applying the first part, then the second. */
  lemma {:induction false} AbbreviationPassesCompose(casing: Casing, t1: seq<(string, string)>, t2: seq<(string, string)>, s: string)
    ensures ExpandAbbreviations(casing, t1 + t2, s)
         == ExpandAbbreviations(casing, t2, ExpandAbbreviations(casing, t1, s))
    decreases |t1|
  {
    if |t1| == 0 {
      assert t1 + t2 == t2;
    } else {
      assert (t1 + t2)[0] == t1[0] && (t1 + t2)[1..] == t1[1..] + t2;
      var pass := Sub(Abbreviation(t1[0].0, casing), Literal(t1[0].1), s).value;
      AbbreviationPassesCompose(casing, t1[1..], t2, pass);
    }
  }

  /** An abbreviation needs a '.' right after it: text without one is left alone. */
  lemma {:induction false} NoPeriodUnchanged(casing: Casing, table: seq<(string, string)>, s: string)
    requires '.' !in s
    ensures ExpandAbbreviations(casing, table, s) == s
    decreases |table|
  {
    if |table| > 0 {
      var p := Abbreviation(table[0].0, casing);
      forall k | 0 <= k < |s| ensures MatchAt(p, s, k).None? {
        if MatchAt(p, s, k).Some? {
          AbbreviationEndsInPeriod(table[0].0, casing, s, k, MatchAt(p, s, k).value);
        }
      }
      SubUnchanged(p, Literal(table[0].1), s, 0);
      assert s[0..] == s;
      NoPeriodUnchanged(casing, table[1..], s);
    }
  }

  /** A stretch s[i..e] that ends in '.' holds at least one of the periods of s[i..]. */
  lemma PeriodInStretch(s: string, i: nat, e: nat)
    requires i < e <= |s| && s[e - 1] == '.'
    ensures Count(s[i..], '.') >= 1 + Count(s[e..], '.')
  {
    assert s[i..] == s[i..e] + s[e..];
    CountConcat(s[i..e], s[e..], '.');
    assert s[i..e][e - 1 - i] == '.';
  }

  /** Every match of p in s ends in a '.' that it consumes. */
  predicate MatchesEndInPeriod(p: Pattern, s: string) {
    forall k :: 0 <= k < |s| && MatchAt(p, s, k).Some? ==> s[MatchAt(p, s, k).value - 1] == '.'
  }

  /** One pass consumes the '.' of every match and, when the expansion has
      no '.', adds none: the number of periods never grows. */
  lemma PassKeepsPeriodBound(word: string, casing: Casing, t: string, s: string, i: nat)
    requires i <= |s| && '.' !in t
    ensures Count(SubFrom(Abbreviation(word, casing), Literal(t), s, i).value, '.') <= Count(s[i..], '.')
  {
    var p := Abbreviation(word, casing);
    forall k | 0 <= k < |s| && MatchAt(p, s, k).Some? ensures s[MatchAt(p, s, k).value - 1] == '.' {
      AbbreviationEndsInPeriod(word, casing, s, k, MatchAt(p, s, k).value);
    }
    PeriodPassBound(p, t, s, i);
  }

  /** The period bound for any pattern whose matches end in a consumed '.'. */
  lemma {:induction false} PeriodPassBound(p: Pattern, t: string, s: string, i: nat)
    requires i <= |s| && '.' !in t && MatchesEndInPeriod(p, s)
    ensures Count(SubFrom(p, Literal(t), s, i).value, '.') <= Count(s[i..], '.')
    decreases |s| - i, 1
  {
    if i < |s| {
      match MatchAt(p, s, i)
      case None => PeriodMissBound(p, t, s, i);
      case Some(e) => PeriodMatchBound(p, t, s, i, e);
    }
  }

  lemma {:induction false} PeriodMissBound(p: Pattern, t: string, s: string, i: nat)
    requires i < |s| && '.' !in t && MatchesEndInPeriod(p, s) && MatchAt(p, s, i).None?
    ensures Count(SubFrom(p, Literal(t), s, i).value, '.') <= Count(s[i..], '.')
    decreases |s| - i, 0
  {
    PeriodPassBound(p, t, s, i + 1);
    PeriodMissStep(p, t, s, i);
  }

  lemma {:induction false} PeriodMatchBound(p: Pattern, t: string, s: string, i: nat, e: nat)
    requires i < |s| && '.' !in t && MatchesEndInPeriod(p, s) && MatchAt(p, s, i) == Some(e)
    ensures Count(SubFrom(p, Literal(t), s, i).value, '.') <= Count(s[i..], '.')
    decreases |s| - i, 0
  {
    PeriodPassBound(p, t, s, e);
    PeriodMatchStep(p, t, s, i, e);
  }

  /** Where no abbreviation starts, the pass copies one character. */
  lemma PeriodMissStep(p: Pattern, t: string, s: string, i: nat)
    requires i < |s| && MatchAt(p, s, i).None?
    requires Count(SubFrom(p, Literal(t), s, i + 1).value, '.') <= Count(s[i + 1..], '.')
    ensures Count(SubFrom(p, Literal(t), s, i).value, '.') <= Count(s[i..], '.')
  {
    SubFromMiss(p, Literal(t), s, i);
    SuffixCons(s, i);
    CopiedKeepsBound(s[i], SubFrom(p, Literal(t), s, i + 1), s[i + 1..]);
  }

  /** Copying one character in front of both sides keeps a period bound. */
  lemma CopiedKeepsBound(x: char, r: Result<string>, t: string)
    requires r.Success? && Count(r.value, '.') <= Count(t, '.')
    ensures Count(Prepend([x], r).value, '.') <= Count([x] + t, '.')
  {
    CountConcat([x], r.value, '.');
    CountConcat([x], t, '.');
  }

  /** A match ending in '.' is replaced by the period-free expansion. */
  lemma PeriodMatchStep(p: Pattern, t: string, s: string, i: nat, e: nat)
    requires i < |s| && '.' !in t && MatchAt(p, s, i) == Some(e) && s[e - 1] == '.'
    requires Count(SubFrom(p, Literal(t), s, e).value, '.') <= Count(s[e..], '.')
    ensures Count(SubFrom(p, Literal(t), s, i).value, '.') <= Count(s[i..], '.')
  {
    var rest := SubFrom(p, Literal(t), s, e).value;
    ExpandLiteral(t, Captured(p, s, i, e));
    SubFromMatch(p, Literal(t), s, i, e, t);
    CountConcat(t, rest, '.');
    PeriodInStretch(s, i, e);
  }

  /** Expanding a table whose expansions contain no '.' never adds a period. */
  lemma {:induction false} AbbreviationsKeepPeriodBound(casing: Casing, table: seq<(string, string)>, s: string)
    requires forall k :: 0 <= k < |table| ==> '.' !in table[k].1
    ensures Count(ExpandAbbreviations(casing, table, s), '.') <= Count(s, '.')
    decreases |table|
  {
    if |table| > 0 {
      var pass := Sub(Abbreviation(table[0].0, casing), Literal(table[0].1), s).value;
      PassKeepsPeriodBound(table[0].0, casing, table[0].1, s, 0);
      assert s[0..] == s;
      AbbreviationsKeepPeriodBound(casing, table[1..], pass);
    }
  }

  /** expand_abbreviations with the source's table never adds a '.'. */
  lemma TableKeepsPeriodBound(casing: Casing, s: string)
    ensures Count(ExpandAbbreviations(casing, AbbreviationTable(), s), '.') <= Count(s, '.')
  {
    AbbreviationsKeepPeriodBound(casing, AbbreviationTable(), s);
  }

  /* ---------------------------------------------------------------- */
  /* Pipelines                                                          */
  /* ---------------------------------------------------------------- */

  /** The library behaviour the pipelines call: str.lower, unidecode, and the
      case-insensitive matching of the abbreviation patterns. */
  datatype Host = Host(lower: string -> string, ascii: string -> string, casing: Casing)

  /** basic_cleaners: lower-case, then collapse whitespace. */
  function BasicCleaners(h: Host, s: string): (r: string)
    ensures NoAdjacentSpace(r) && OnlyPlainSpaces(r)
    ensures Visible(r) == Visible(h.lower(s))
  {
    CollapseWhitespace(h.lower(s))
  }

  /** transliteration_cleaners: ASCII, lower-case, collapse whitespace. */
  function TransliterationCleaners(h: Host, s: string): (r: string)
    ensures NoAdjacentSpace(r) && OnlyPlainSpaces(r)
    ensures Visible(r) == Visible(h.lower(h.ascii(s)))
  {
    CollapseWhitespace(h.lower(h.ascii(s)))
  }

  /** english_cleaners: ASCII, lower-case, numbers, abbreviations, collapse.
      Only the number stage can fail, and a result has no adjacent whitespace. */
  function EnglishCleaners(h: Host, lex: Lexicon, s: string): (r: Result<string>)
    ensures r.Success? <==> NormalizeNumbers(lex, h.lower(h.ascii(s))).Success?
    ensures r.Success? ==> NoAdjacentSpace(r.value) && OnlyPlainSpaces(r.value)
  {
    match NormalizeNumbers(lex, h.lower(h.ascii(s)))
    case Failure(e) => Failure(e)
    case Success(t) => Success(CollapseWhitespace(ExpandAbbreviations(h.casing, AbbreviationTable(), t)))
  }

  /** turkish_cleaners: Turkish numbers, abbreviations, the letter map,
      ASCII, lower-case, collapse. */
  function TurkishCleaners(h: Host, lex: Lexicon, s: string): (r: Result<string>)
    ensures r.Success? <==> NormalizeNumbersTr(lex, s).Success?
    ensures r.Success? ==> NoAdjacentSpace(r.value) && OnlyPlainSpaces(r.value)
  {
    match NormalizeNumbersTr(lex, s)
    case Failure(e) => Failure(e)
    case Success(t) =>
      var u := LetterChange(ExpandAbbreviations(h.casing, AbbreviationTable(), t));
      Success(CollapseWhitespace(h.lower(h.ascii(u))))
  }

  /** When the transliterated, lower-cased text has no digit and no '.', the
      number and abbreviation stages do nothing, so english_cleaners agrees
      with transliteration_cleaners. */
  lemma PlainTextEnglish(h: Host, lex: Lexicon, s: string)
    requires var t := h.lower(h.ascii(s)); !HasDigit(t) && '.' !in t
    ensures EnglishCleaners(h, lex, s) == Success(TransliterationCleaners(h, s))
  {
    var t := h.lower(h.ascii(s));
    DigitFreeTextUnchanged(lex, t);
    NoPeriodUnchanged(h.casing, AbbreviationTable(), t);
  }

  /** On text with no digit and no '.', turkish_cleaners is the letter map
      followed by transliteration_cleaners. */
  lemma PlainTextTurkish(h: Host, lex: Lexicon, s: string)
    requires !HasDigit(s) && '.' !in s
    ensures TurkishCleaners(h, lex, s) == Success(TransliterationCleaners(h, LetterChange(s)))
  {
    DigitFreeTextUnchanged(lex, s);
    NoPeriodUnchanged(h.casing, AbbreviationTable(), s);
  }
}
