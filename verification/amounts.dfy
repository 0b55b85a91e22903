/** Currency amounts: the text captured after '$' or '₺' becomes a phrase
    with a unit and a subunit count. */
module Amounts {
  import opened Text

  /** Unit names: the form used for a count of one and the form for any other count. */
  datatype Currency = Currency(majorOne: string, major: string, minorOne: string, minor: string)

  const Dollars := Currency("dolar", "dolar", "sent", "sent")
  const Liras := Currency("lira", "lira", "kuruş", "kuruş")

  function UnitName(count: nat, one: string, other: string): string {
    if count == 1 then one else other
  }

  /** The four phrase shapes, chosen by which counts are nonzero. */
  function Phrase(cur: Currency, units: nat, subunits: nat): string {
    if units != 0 && subunits != 0 then
      Decimal(units) + " " + UnitName(units, cur.majorOne, cur.major) + ", "
        + Decimal(subunits) + " " + UnitName(subunits, cur.minorOne, cur.minor)
    else if units != 0 then
      Decimal(units) + " " + UnitName(units, cur.majorOne, cur.major)
    else if subunits != 0 then
      Decimal(subunits) + " " + UnitName(subunits, cur.minorOne, cur.minor)
    else
      "sıfır " + cur.major
  }

  /** `int(part) if part else 0`. */
  function PartValue(part: string): (r: Result<nat>)
    ensures r.Success? <==> AllDigits(part)
    ensures r.Success? ==> r.value == Value(part)
  {
    if part == [] then Success(0) else ParseInt(part)
  }

  /** _expand_dollars / _expand_lira on the captured amount m. */
  function ExpandAmount(cur: Currency, m: string): Result<string> {
    var parts := SplitOn(m, '.');
    if |parts| > 2 then Success(m + " " + cur.major)
    else
      match PartValue(parts[0])
      case Failure(e) => Failure(e)
      case Success(units) =>
        match (if |parts| > 1 then PartValue(parts[1]) else Success(0))
        case Failure(e) => Failure(e)
        case Success(subunits) => Success(Phrase(cur, units, subunits))
  }

  /** More than one '.' gives m with the unit name appended. Otherwise the
      text before and after the '.' are read as counts, an empty one counting
      as zero, and a count that int() rejects makes the rewrite fail. */
  lemma ExpandAmountCases(cur: Currency, m: string)
    ensures Count(m, '.') > 1 ==> ExpandAmount(cur, m) == Success(m + " " + cur.major)
    ensures Count(m, '.') <= 1 ==>
      (ExpandAmount(cur, m).Success? <==> AllDigits(Before(m, '.')) && AllDigits(After(m, '.')))
    ensures Count(m, '.') <= 1 && ExpandAmount(cur, m).Success? ==>
      ExpandAmount(cur, m).value == Phrase(cur, Value(Before(m, '.')), Value(After(m, '.')))
  {
  }

  /** For dollars and liras the unit words do not depend on the count: the
      phrase names the unit after a nonzero unit count and the subunit after
      a nonzero subunit count, and reads a zero amount as "sıfır". */
  lemma AmountShapes(cur: Currency, m: string)
    requires cur == Dollars || cur == Liras
    requires Count(m, '.') <= 1 && AllDigits(Before(m, '.')) && AllDigits(After(m, '.'))
    ensures var units, subunits := Value(Before(m, '.')), Value(After(m, '.'));
      var r := ExpandAmount(cur, m);
      && (units != 0 && subunits != 0 ==>
            r == Success(Decimal(units) + " " + cur.major + ", " + Decimal(subunits) + " " + cur.minor))
      && (units != 0 && subunits == 0 ==> r == Success(Decimal(units) + " " + cur.major))
      && (units == 0 && subunits != 0 ==> r == Success(Decimal(subunits) + " " + cur.minor))
      && (units == 0 && subunits == 0 ==> r == Success("sıfır " + cur.major))
  {
    ExpandAmountCases(cur, m);
  }

  /** A dotted amount x.y with digit-only parts reads as the phrase for
      Value(x) units and Value(y) subunits. */
  lemma DottedAmount(cur: Currency, x: string, y: string)
    requires AllDigits(x) && AllDigits(y)
    ensures ExpandAmount(cur, x + "." + y) == Success(Phrase(cur, Value(x), Value(y)))
  {
    assert !IsDigit('.');
    ExpandAmountCases(cur, x + "." + y);
    BeforeAfterFirst(x, '.', y);
    CountConcat(x + ".", y, '.');
    CountConcat(x, ".", '.');
  }

  /** An amount written without leading zeros reads back its own digits:
      "x.y" becomes "x <unit>, y <subunit>". */
  lemma CanonicalAmount(cur: Currency, x: string, y: string)
    requires cur == Dollars || cur == Liras
    requires |x| > 0 && AllDigits(x) && x[0] != '0'
    requires |y| > 0 && AllDigits(y) && y[0] != '0'
    ensures ExpandAmount(cur, x + "." + y) == Success(x + " " + cur.major + ", " + y + " " + cur.minor)
  {
    DottedAmount(cur, x, y);
    ValueZeroIff(x);
    ValueZeroIff(y);
    DecimalOfValue(x);
    DecimalOfValue(y);
  }

  /** The subunit part is read as a count, not as a fraction: a leading
      zero after the '.' changes nothing, so "1.05" and "1.5" read alike. */
  lemma SubunitLeadingZero(cur: Currency, x: string, y: string)
    requires AllDigits(x) && AllDigits(y)
    ensures ExpandAmount(cur, x + "." + ("0" + y)) == ExpandAmount(cur, x + "." + y)
  {
    LeadingZero(y);
    DottedAmount(cur, x, y);
    DottedAmount(cur, x, "0" + y);
  }

  /** An all-zero amount reads as zero units. */
  lemma ZeroAmount()
    ensures ExpandAmount(Dollars, "0.00") == Success("sıfır dolar")
  {
    calc {
      ExpandAmount(Dollars, "0.00");
      { assert "0.00" == "0" + "." + "00"; }
      ExpandAmount(Dollars, "0" + "." + "00");
      { DottedAmount(Dollars, "0", "00"); assert "00"[..1] == "0"; }
      Success(Phrase(Dollars, 0, 0));
      Success("sıfır " + "dolar");
      { assert "sıfır " + "dolar" == "sıfır dolar"; }
      Success("sıfır dolar");
    }
  }

  /** An empty unit part counts as zero. */
  lemma FractionOnly()
    ensures ExpandAmount(Dollars, ".5") == Success("5 sent")
  {
    calc {
      ExpandAmount(Dollars, ".5");
      { assert ".5" == "" + "." + "5"; }
      ExpandAmount(Dollars, "" + "." + "5");
      { DottedAmount(Dollars, "", "5"); }
      Success(Phrase(Dollars, 0, 5));
      { assert Decimal(5) == "5"; }
      Success("5" + " " + "sent");
      { assert "5" + " " + "sent" == "5 sent"; }
      Success("5 sent");
    }
  }

  /** A single '.' between parts that int() cannot read makes the rewrite fail. */
  lemma UnreadablePartFails(cur: Currency, x: string, y: string)
    requires '.' !in x && '.' !in y && !(AllDigits(x) && AllDigits(y))
    ensures ExpandAmount(cur, x + "." + y).Failure?
  {
    ExpandAmountCases(cur, x + "." + y);
    BeforeAfterFirst(x, '.', y);
    CountConcat(x + ".", y, '.');
    CountConcat(x, ".", '.');
  }

  /** "1,.5" keeps a comma in its unit part, which int() rejects. */
  lemma CommaInPartFails()
    ensures ExpandAmount(Dollars, "1,.5").Failure?
  {
    assert !IsDigit("1,"[1]);
    UnreadablePartFails(Dollars, "1,", "5");
    assert "1," + "." + "5" == "1,.5";
  }
}
