# Text normalisation for speech synthesis, in Dafny

This project models the text cleaners of a Turkish/English Tacotron 2 front
end. It covers two parts.

- **The number normaliser** (`numbers.py`). `normalize_numbers` and
  `normalize_numbers_tr` run a fixed list of `re.sub` stages in order:
  1. digit-group commas;
  2. pound amounts;
  3. dollar amounts, and lira amounts in Turkish;
  4. decimals;
  5. ordinals;
  6. bare digit runs.
- **The cleaners** (`cleaners.py`):
  - the Turkish letter changer;
  - whitespace collapsing;
  - the abbreviation table;
  - the four named pipelines built from them.

## How it is modelled

- `re.sub` is one scanner, `Substitution.SubFrom`. It takes a `Pattern` and
  an `Action`:
  - The `Pattern` is a hand-written matcher for each regular expression
    used. It gives the end of the match Python's greedy, backtracking engine
    finds at a position.
  - The `Action` is the replacement callback or template.
  - Matches are found left to right and never overlap. A callback that
    raises makes the whole call fail.
- The stages are data: `Numbers.EnglishRules` and `Numbers.TurkishRules` list
  them in source order. `Numbers.Cascade` runs them.
- Library calls are uninterpreted function fields of records:
  - inflect and num2words: `Spelling.Lexicon`;
  - `str.lower` and `unidecode`: `Cleaners.Host`;
  - case-insensitive letter matching and the `\w` test behind `\b`:
    `Patterns.Casing`.
- `int()` raising `ValueError` is modelled as `Failure(NotAnInteger(..))`.
  It is propagated by `re.sub` and by the cascades. For example, `"$1,.5"`
  captures `"1,.5"`, whose part `"1,"` `int()` rejects.
- The word-library calls that take a number or text of unbounded size
  return a `Result` in `Spelling.Lexicon`. A failure stands for the library
  raising, for instance inflect on a number past its largest named power
  (numbers.py:71, 89, 95). The calls that only see numbers below 3000
  (numbers.py:83-87) return plain text.
- So the cascades and the English and Turkish pipelines return
  `Result<string>`.
- The comma stage is proved equal to a reference filter, `Commas.Degroup`.
  The filter deletes a comma exactly when a digit precedes it and a digit
  follows it inside one run of digits and commas. Its properties are proved
  on the filter.
- The amount reader treats the text after the `.` as a count, not a
  fraction. `"1.05"` and `"1.5"` both read `"1 dolar, 5 sent"`; see
  `Amounts.SubunitLeadingZero`.
- Facts of the code that a reader might not expect:
  - **Unit names.** Both cascades read dollar amounts with the Turkish words
    `dolar`/`sent` (numbers.py:36-45). The unit word is the same for a
    count of one as for any other count.
  - **Failing stages.** `int()` raises on a captured part that contains a
    comma (numbers.py:34-35), so the dollar and lira stages can fail. The
    Turkish ordinal stage hands the match object to num2words
    (numbers.py:74), which can raise too. The ordinal and digit-run stages
    of both cascades fail when their word library raises.
  - **Abbreviation table.** There is one table, and both pipelines use it
    (cleaners.py:36-80).
  - **Stage order.** `english_cleaners` expands numbers before abbreviations
    (cleaners.py:119-120).

## Model

| member | source | states |
|---|---|---|
| `Text.ParseInt` | numbers.py:34-35 | int() on a captured part (also numbers.py:78, 93): it succeeds exactly on non-empty digit strings; no contract of its own, `Text.ParseDecimal` and `Text.ParseIntLeadingZero` state its properties |
| `Text.ParseDecimal` | numbers.py:34-39 | int() reads back the value that '%s' printed: parsing the decimal form of a count gives the count |
| `Text.ParseIntLeadingZero` | numbers.py:34 | a leading '0' does not change what int() reads from a part, and a part int() rejects stays rejected |
| `Text.Decimal` | numbers.py:39 | '%s' of a count is a non-empty digit string denoting the count, starting with '0' only for zero |
| `Text.DecimalOfValue` | numbers.py:39 | printing the value of a digit string without leading zeros gives the string back |
| `Text.SplitOn` | numbers.py:31 | split('.') gives one more part than there are separators and no part contains one; with no separator the one part is the input, with one separator the parts are the text before and after it |
| `Text.SplitJoinsBack` | numbers.py:31 | the parts of split('.') joined with '.' give the input back |
| `Text.ReplaceCharWith` | numbers.py:22-23 | str.replace of one character by a string: text without the character is returned as it is, and a replacement without the character leaves none behind |
| `Text.ReplaceIsJoinOfSplit` | numbers.py:23 | replace('.', w) is w joined between the parts of split('.') |
| `Text.ReplaceChar` | cleaners.py:25 | replacing one character by another keeps the length and maps every position on its own |
| `Patterns.SpanEnd` | numbers.py:15 | a greedy character-class repetition stops at the first character outside the class |
| `Patterns.SpanEndUnique` | numbers.py:8-15 | a greedy character-class run from a position ends at the one position that closes it: all class characters before it, none at it |
| `Patterns.IsSpace` | cleaners.py:22 | the characters `\s` matches in a str pattern, those for which str.isspace() holds; a definition, used by the whitespace lemmas below |
| `Patterns.MatchAt` | numbers.py:8-15 | a match found at a position is non-empty and ends inside the text; the lemmas below say which end each pattern takes |
| `Patterns.DecimalMatch` | numbers.py:9 | the decimal pattern matches from a position to e exactly when a digit run there is followed by '.', at least one digit, and e is the end of that second digit run |
| `Patterns.Captured` | numbers.py:18-30 | the text a callback receives (also numbers.py:71, 78): group 1 of the currency patterns, without the symbol, and the whole match otherwise; no contract of its own, `Substitution.SubFromMatch` passes it to the callback |
| `Patterns.Boundary` | cleaners.py:36 | `\b`: a word character on exactly one side of the position; no contract of its own, `Patterns.AbbreviationEndsInPeriod` states that every abbreviation match starts at one |
| `Patterns.DigitRunMatch` | numbers.py:15 | [0-9]+ matches at a position exactly when it ends at the end of the maximal digit run starting there |
| `Patterns.AmountMatch` | numbers.py:10-12 | a currency pattern matches at a position exactly when its symbol is there and some end is reachable through the class characters to a digit, and the match takes the farthest such end |
| `Patterns.FirstAlternativeIsFirst` | numbers.py:13-14 | a group of alternatives takes the first alternative, in the order written, that occurs at the position, and fails when none occurs |
| `Patterns.OrdinalNoBacktrack` | numbers.py:13-14 | when every suffix starts with a non-digit, no suffix occurs inside the digit run, so backtracking never shortens the run |
| `Patterns.OrdinalMatch` | numbers.py:13-14 | an ordinal pattern matches at a position exactly when a digit is there and some suffix follows the maximal digit run; the match is that run plus the first suffix in the order written |
| `Patterns.NoDigitNoMatch` | numbers.py:8-15 | no numeric pattern matches anywhere in text without an ASCII digit |
| `Patterns.AbbreviationEndsInPeriod` | cleaners.py:36 | an abbreviation match starts at a word boundary and is the word followed by a consumed '.' |
| `Spelling.DropCommaBeforeSpace` | numbers.py:87 | replace(', ', ' ') deletes commas only, changes text without ', ' in no way, and never lengthens the text |
| `Spelling.DropAtCommaSpace` | numbers.py:87 | replace(', ', ' ') acts on each ', ' on its own: the text around an occurrence is rewritten independently and the occurrence becomes ' ' |
| `Spelling.EnglishNumberWords` | numbers.py:77-89 | the branch table of _expand_number over the library calls; no contract of its own, `Numbers.EnglishBands` states its cases |
| `Spelling.TurkishNumberWords` | numbers.py:92-97 | expand_numbers_tr's choice between 'sıfır' and num2words; no contract of its own, `Numbers.TurkishDigitRun` states it |
| `Amounts.PartValue` | numbers.py:34-35 | an empty part counts as zero; a non-empty part is read by int() |
| `Amounts.ExpandAmount` | numbers.py:29-67 | _expand_dollars and _expand_lira on the captured text; no contract of its own, `Amounts.ExpandAmountCases` states its cases |
| `Amounts.Phrase` | numbers.py:36-67 | the four phrase shapes chosen by which counts are nonzero; no contract of its own, `Amounts.AmountShapes` states them |
| `Amounts.ExpandAmountCases` | numbers.py:29-47 | more than one '.' gives the capture plus the unit name; otherwise the rewrite succeeds exactly when both sides of the '.' are digit-only, and reads them as unit and subunit counts |
| `Amounts.AmountShapes` | numbers.py:36-67 | for dollars and liras: both counts nonzero give "D unit, C subunit", one nonzero gives that count and its name, both zero give "sıfır unit"; the unit word does not depend on the count |
| `Amounts.DottedAmount` | numbers.py:31-35 | "x.y" with digit-only sides reads as Value(x) units and Value(y) subunits |
| `Amounts.CanonicalAmount` | numbers.py:36-39 | an amount whose sides have no leading zeros reads back its own digits: "x.y" becomes "x dolar, y sent" |
| `Amounts.SubunitLeadingZero` | numbers.py:35 | a leading zero after the '.' changes nothing, since the subunit part is read as an integer |
| `Amounts.ZeroAmount` | numbers.py:46-47 | "0.00" reads "sıfır dolar" |
| `Amounts.FractionOnly` | numbers.py:43-45 | ".5" reads "5 sent": an empty unit part counts as zero |
| `Amounts.UnreadablePartFails` | numbers.py:31-35 | with exactly one '.', a side that is not digit-only (such as one containing a comma) makes int() raise, so the rewrite fails |
| `Amounts.CommaInPartFails` | numbers.py:34 | "1,.5" makes int() raise, so the dollar rewrite fails |
| `Substitution.Expand` | numbers.py:18-26 | the callbacks that neither call int() nor call a word library (comma removal, decimal point, templates) always succeed |
| `Substitution.SubFrom` | numbers.py:101 | re.sub with a callback that cannot raise always succeeds |
| `Substitution.Sub` | numbers.py:101-106 | re.sub over the whole text; with a callback that cannot raise it always succeeds |
| `Substitution.SubUnchanged` | numbers.py:101-106 | where a pattern matches nowhere, re.sub returns its input |
| `Substitution.NoDigitSubUnchanged` | numbers.py:8-15 | a numeric stage returns digit-free text unchanged |
| `Commas.DegroupKeepsNonCommas` | numbers.py:19 | the comma filter deletes nothing but commas and keeps the other characters in order |
| `Commas.ScannerIsDegroup` | numbers.py:8 | scanning for ([0-9][0-9,]+[0-9]) from any position and stripping commas from each match equals the reference filter on the rest of the text |
| `Commas.CommaStageIsDegroup` | numbers.py:18-19 | the comma stage is the reference filter on the whole text |
| `Commas.DegroupIdempotent` | numbers.py:101 | filtering twice is filtering once |
| `Commas.CommaStage` | numbers.py:101 | the comma stage never fails, deletes only commas, and leaves its own output unchanged |
| `Numbers.EnglishRules` | numbers.py:101-106 | the six English stages in source order: every stage needs a digit to match, and the comma stage comes first |
| `Numbers.TurkishRules` | numbers.py:110-116 | the seven Turkish stages in source order: every stage needs a digit to match, and the comma stage comes first |
| `Numbers.Cascade` | numbers.py:100-117 | runs the stages in order, stopping at the first that raises; no contract of its own, `Numbers.DigitFreeCascade` and `Numbers.CommaStageFirst` state its properties |
| `Numbers.NormalizeNumbers` | numbers.py:100-107 | normalize_numbers as the English cascade; no contract of its own, `Numbers.DigitFreeTextUnchanged`, `Numbers.GroupingCommasIgnored` and `Numbers.AmountBeforeDecimal` state its properties |
| `Numbers.NormalizeNumbersTr` | numbers.py:109-117 | normalize_numbers_tr as the Turkish cascade; no contract of its own, the same lemmas state its properties |
| `Numbers.DigitFreeCascade` | numbers.py:100-107 | a cascade of numeric stages returns digit-free text unchanged |
| `Numbers.DigitFreeTextUnchanged` | numbers.py:100-117 | text with no ASCII digit passes through both normalisers unchanged |
| `Numbers.CommaStageFirst` | numbers.py:101 | a cascade that starts with the comma stage gives the same result on a text and on its de-grouped form |
| `Numbers.GroupingCommasIgnored` | numbers.py:109-117 | both normalisers give the same result on a text and on the text with its digit-group commas removed |
| `Numbers.ThousandsSeparator` | numbers.py:101-106 | "1,234" and "1234" normalise identically, in English and in Turkish |
| `Numbers.EnglishDigitRun` | numbers.py:77-78 | the English digit-run callback reads a run by its integer value and returns the branch table's words for it, including the library's failure when it raises |
| `Numbers.EnglishBands` | numbers.py:79-89 | 2000 is "two thousand"; 2001-2009 are "two thousand" and the last two digits; other hundreds strictly between 1000 and 3000 are "N hundred"; other values in that band are read in pairs with ", " replaced by " "; all other values use the general form |
| `Numbers.TurkishDigitRun` | numbers.py:92-97 | a Turkish digit run reads "sıfır" exactly when every digit is '0', and otherwise gives what the library returns for its value, failure included |
| `Numbers.LeadingZeroIgnored` | numbers.py:77-97 | a leading zero changes neither digit-run reading |
| `Numbers.YearReadings` | numbers.py:80-85 | "2005" reads "two thousand " followed by the words for 5, and "1900" reads the words for 19 followed by " hundred" |
| `Numbers.DecimalRewrite` | numbers.py:22-26 | a decimal match is two digit runs around one '.' and ends where the second run ends; the rewrite puts the word in place of the '.', leaving both runs as digits |
| `Numbers.DecimalTakesWholeRun` | numbers.py:9 | on "1.23.4" the decimal stage matches "1.23" only, giving "1 point 23.4" |
| `Numbers.OrdinalRunsWhole` | numbers.py:13-14 | both suffix lists start every suffix with a letter, so neither ordinal pattern shortens its digit run |
| `Numbers.ReplaceSoleDot` | numbers.py:23 | replacing the '.' between two digit runs gives first run, word, second run |
| `Numbers.DollarMatchSpans` | numbers.py:11 | in "$x.y" the dollar pattern matches the whole text and captures "x.y" |
| `Numbers.PhraseHasNoPeriod` | numbers.py:36-47 | an amount reading contains no '.' |
| `Numbers.NoPeriodNoDecimal` | numbers.py:9 | the decimal stage leaves text without '.' unchanged |
| `Numbers.DollarStageReadsAmount` | numbers.py:103 | the dollar stage reads "$x.y", with digit-only x and non-empty digit-only y, as the amount Value(x) dolar and Value(y) sent |
| `Numbers.PhraseSurvivesDecimal` | numbers.py:104 | an amount reading passes the decimal stage unchanged, whatever word that stage puts for '.' |
| `Numbers.AmountBeforeDecimal` | numbers.py:103-104 | "$x.y" is consumed by the dollar stage, and the decimal stage that follows, with either word for '.', finds nothing to rewrite in the reading |
| `Cleaners.LetterChange` | cleaners.py:24-33 | the eight replacements keep the length and are the per-letter map ı,I to w; ü,Ü to q; ş,Ş to x; ç,Ç to j |
| `Cleaners.TurkishLetter` | cleaners.py:24-33 | the per-letter map never yields one of the eight rewritten letters and keeps every other character |
| `Cleaners.ChainAt` | cleaners.py:24-33 | the eight replacements applied in the source's order to one character give the per-letter map |
| `Cleaners.LetterChangeExcludes` | cleaners.py:24-33 | the output contains none of ı I ü Ü ş Ş ç Ç, and every other character stays in place |
| `Cleaners.LetterChangeIdempotent` | cleaners.py:24-33 | changing letters twice is changing them once |
| `Cleaners.CollapseFacts` | cleaners.py:22 | the \s+ scan leaves no adjacent whitespace and no whitespace but ' ', keeps the non-whitespace characters in order, and starts and ends with whitespace exactly when the input does |
| `Cleaners.CollapseScanAgrees` | cleaners.py:94 | the re.sub scan for \s+ and the direct scan (a whitespace run becomes one space, anything else is copied) give the same text |
| `Cleaners.CollapseWhitespace` | cleaners.py:93-94 | collapse_whitespace leaves no adjacent whitespace and only plain spaces, keeps every other character in order, and does not trim |
| `Cleaners.CollapseFixedFrom` | cleaners.py:94 | text with no adjacent whitespace and only plain spaces is left unchanged |
| `Cleaners.CollapseIdempotent` | cleaners.py:93-94 | collapsing twice is collapsing once |
| `Cleaners.AllWhitespace` | cleaners.py:94 | a non-empty all-whitespace text becomes exactly " " |
| `Cleaners.CollapseAroundRun` | cleaners.py:93-94 | a whitespace run between two non-whitespace characters becomes exactly one space, and the text on either side is collapsed on its own |
| `Cleaners.AbbreviationTable` | cleaners.py:36-74 | the 37 abbreviations in source order; every expansion is free of '.' by its type |
| `Cleaners.ExpandAbbreviations` | cleaners.py:77-80 | one full re.sub pass per table entry, in order; no contract of its own, the lemmas below state its properties |
| `Cleaners.AbbreviationPassesCompose` | cleaners.py:77-80 | the table is applied one full pass per entry, in order: a split table is its first part followed by its second |
| `Cleaners.NoPeriodUnchanged` | cleaners.py:36 | text without '.' is unchanged by expand_abbreviations |
| `Cleaners.PassKeepsPeriodBound` | cleaners.py:79 | one abbreviation pass with a period-free expansion never increases the number of '.' |
| `Cleaners.AbbreviationsKeepPeriodBound` | cleaners.py:77-80 | a table whose expansions have no '.' never increases the number of '.' |
| `Cleaners.TableKeepsPeriodBound` | cleaners.py:36-80 | expand_abbreviations with the source's table never increases the number of '.' |
| `Cleaners.BasicCleaners` | cleaners.py:100-104 | basic_cleaners output has no adjacent whitespace and keeps the lower-cased text's other characters |
| `Cleaners.TransliterationCleaners` | cleaners.py:107-112 | transliteration_cleaners output has no adjacent whitespace and keeps the transliterated, lower-cased text's other characters |
| `Cleaners.EnglishCleaners` | cleaners.py:115-122 | english_cleaners fails only when the number stage fails, and its output has no adjacent whitespace |
| `Cleaners.TurkishCleaners` | cleaners.py:124-131 | turkish_cleaners fails only when the Turkish number stage fails, and its output has no adjacent whitespace |
| `Cleaners.PlainTextEnglish` | cleaners.py:115-122 | when the transliterated, lower-cased text has no digit and no '.', english_cleaners equals transliteration_cleaners |
| `Cleaners.PlainTextTurkish` | cleaners.py:124-131 | on text with no digit and no '.', turkish_cleaners is the letter map followed by transliteration_cleaners |

## Left out

- **Number words.** The inflect and num2words word generators
  (numbers.py:71, 83-89, 95) are external libraries. They are
  uninterpreted fields of `Spelling.Lexicon`. Only the branch table that
  chooses among them is modelled.
- **Library ranges.** The model does not fix the largest number inflect or
  num2words can spell: inflect raises NumOutOfRangeError past "decillion",
  and that threshold is library behaviour. The unbounded calls may return
  a failure for any argument. The year-band calls (numbers.py:83-87) only
  see numbers below 3000 and are taken to return text.
- **Turkish ordinals.** `_expand_ordinal_tr` (numbers.py:73-74) hands the
  match object itself to num2words. What that does depends on the library.
  It is an uninterpreted function of the matched text that may return a
  failure, so the Turkish cascade can fail at that stage.
- **Lower-casing and transliteration.** `str.lower` and `unidecode`
  (cleaners.py:89-98) are abstract fields of `Cleaners.Host`. The pipelines'
  contracts hold whatever they do.
- **Case-insensitive matching.** Unicode case folding for `re.IGNORECASE`
  and the Unicode `\w` test behind `\b` are abstract (`Patterns.Casing`).
- **Regular expressions in general.** Only the patterns the source uses are
  modelled, each as its own matcher.
- **Wrapper functions.** `expand_numbers` and `expand_numbers_tr`
  (cleaners.py:82-86) only forward their argument. The pipelines call the
  normalisers directly.
- **Integer digit limit.** CPython 3.11 and later make `int()` and `'%s'`
  raise on integers of more than 4300 digits (numbers.py:34-39, 78, 93).
  `Text.ParseInt` and `Text.Decimal` accept any length.
- **Concrete amount examples.** `"1.50"`-style literals are covered by the
  general `Amounts.CanonicalAmount` and `Amounts.SubunitLeadingZero`. They
  are not stated one by one.
