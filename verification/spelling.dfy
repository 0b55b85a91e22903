/** Number words. The word generators themselves belong to the inflect and
    num2words libraries and are left abstract; what is modelled is the
    branch table that chooses among them. */
module Spelling {
  import opened Text

  /** The library calls the normaliser makes, as uninterpreted functions.
      A call whose argument has no bound may raise (inflect, for one, has
      no words past "decillion"), so it returns a Result; the calls that
      only ever see numbers below 3000 return plain text. */
  datatype Lexicon = Lexicon(
    cardinal: nat -> string,                  // inflect number_to_words(n), n < 30
    cardinalNoAnd: nat -> Result<string>,     // number_to_words(n, andword='')
    pairs: nat -> string,                     // number_to_words(n, andword='', zero='oh', group=2), 1000 < n < 3000
    ordinal: string -> Result<string>,        // number_to_words applied to text such as "21st"
    turkish: nat -> Result<string>,           // num2words(n, lang='tr')
    turkishOrdinal: string -> Result<string>) // num2words(<ordinal match>, lang='tr', to='ordinal')

  /** Python's s.replace(', ', ' '): every comma that a space follows is
      dropped, scanning left to right without overlap. */
  function DropCommaBeforeSpace(s: string): (r: string)
    ensures Without(r, ',') == Without(s, ',')
    ensures !HasCommaSpace(s) ==> r == s
    ensures |r| <= |s|
    decreases |s|
  {
    if |s| >= 2 && s[0] == ',' && s[1] == ' ' then
      assert s[1..][0] == ' ' && s[1..][1..] == s[2..];
      " " + DropCommaBeforeSpace(s[2..])
    else if |s| == 0 then []
    else [s[0]] + DropCommaBeforeSpace(s[1..])
  }

  /** ", " occurs somewhere in s. */
  predicate HasCommaSpace(s: string) {
    exists k :: 0 <= k < |s| - 1 && s[k] == ',' && s[k + 1] == ' '
  }

  /** Every ", " becomes " ": around an occurrence, the text before and the
      text after are rewritten on their own. */
  lemma {:induction false} DropAtCommaSpace(x: string, y: string)
    ensures DropCommaBeforeSpace(x + ", " + y) == DropCommaBeforeSpace(x) + " " + DropCommaBeforeSpace(y)
    decreases |x|, 1
  {
    if |x| == 0 {
      DropAtCommaSpaceEmpty(x, y);
    } else if |x| >= 2 && x[0] == ',' && x[1] == ' ' {
      DropAtCommaSpaceHead(x, y);
    } else {
      DropAtCommaSpaceCopy(x, y);
    }
  }

  lemma DropAtCommaSpaceEmpty(x: string, y: string)
    requires |x| == 0
    ensures DropCommaBeforeSpace(x + ", " + y) == DropCommaBeforeSpace(x) + " " + DropCommaBeforeSpace(y)
  {
    assert x == [] && x + ", " + y == ", " + y;
    DropHead(y);
    assert DropCommaBeforeSpace(x) + " " == " ";
  }

  lemma {:induction false} DropAtCommaSpaceHead(x: string, y: string)
    requires |x| >= 2 && x[0] == ',' && x[1] == ' '
    ensures DropCommaBeforeSpace(x + ", " + y) == DropCommaBeforeSpace(x) + " " + DropCommaBeforeSpace(y)
    decreases |x|, 0
  {
    var u := x[2..];
    assert x == ", " + u && x + ", " + y == ", " + (u + ", " + y);
    DropAtCommaSpace(u, y);
    DropHead(u + ", " + y);
    DropHead(u);
    Associate(" ", DropCommaBeforeSpace(u) + " ", DropCommaBeforeSpace(y));
    Associate(" ", DropCommaBeforeSpace(u), " ");
  }

  lemma {:induction false} DropAtCommaSpaceCopy(x: string, y: string)
    requires |x| > 0 && !(|x| >= 2 && x[0] == ',' && x[1] == ' ')
    ensures DropCommaBeforeSpace(x + ", " + y) == DropCommaBeforeSpace(x) + " " + DropCommaBeforeSpace(y)
    decreases |x|, 0
  {
    var u := x[1..];
    assert x == [x[0]] + u && x + ", " + y == [x[0]] + (u + ", " + y);
    assert (u + ", " + y)[0] == (if |u| == 0 then ',' else u[0]);
    DropAtCommaSpace(u, y);
    DropCopy(x[0], u + ", " + y);
    DropCopy(x[0], u);
    Associate([x[0]], DropCommaBeforeSpace(u) + " ", DropCommaBeforeSpace(y));
    Associate([x[0]], DropCommaBeforeSpace(u), " ");
  }

  /** A leading ", " becomes " ". */
  lemma DropHead(t: string)
    ensures DropCommaBeforeSpace(", " + t) == " " + DropCommaBeforeSpace(t)
  {
    assert (", " + t)[2..] == t;
  }

  /** A first character that does not open ", " is copied. */
  lemma DropCopy(c: char, t: string)
    requires !(c == ',' && |t| > 0 && t[0] == ' ')
    ensures DropCommaBeforeSpace([c] + t) == [c] + DropCommaBeforeSpace(t)
  {
    assert ([c] + t)[1..] == t;
  }

  /** English words for a digit run, as _expand_number chooses them: years
      between 1000 and 3000 (exclusive) are read in pairs or hundreds. */
  function EnglishNumberWords(lex: Lexicon, n: nat): Result<string> {
    if 1000 < n < 3000 then
      if n == 2000 then Success("two thousand")
      else if 2000 < n < 2010 then Success("two thousand " + lex.cardinal(n % 100))
      else if n % 100 == 0 then Success(lex.cardinal(n / 100) + " hundred")
      else Success(DropCommaBeforeSpace(lex.pairs(n)))
    else lex.cardinalNoAnd(n)
  }

  /** Turkish words for a digit run: num2words is not asked about zero. */
  function TurkishNumberWords(lex: Lexicon, n: nat): Result<string> {
    if n != 0 then lex.turkish(n) else Success("sıfır")
  }
}
