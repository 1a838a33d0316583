# VeggieVerify ingredient classifier in Dafny

VeggieVerify reads an ingredient list from a photo (OCR) and tells the user
whether it is vegetarian. The only real logic is `check_vegetarian` in
`main.py`. It lower-cases the recognised text and produces two lists:

- the terms of a fixed German lexicon ("Fleisch", "Huhn", …) that occur in
  the text, in lexicon order;
- the lines that carry the "kann Spuren von" ("may contain traces of")
  disclaimer, lower-cased and stripped of surrounding whitespace. That is
  what the list is meant to hold. As written, line 36 keeps it from ever
  holding a line with the shipped phrase (see below and "## Findings").

The upload handler then turns these two lists into an HTML fragment.

This project models both parts as pure functions over `seq<char>` strings:

- `text.dfy` (module `Text`) models the Python string operations the code
  relies on:
  - `str.lower`, as a per-character map;
  - the `in` substring test (`Contains`);
  - `str.split` on a separator (`SplitOn`), built from a helper
    `Partition` that cuts at the first occurrence of the separator;
  - `str.join` (`Join`);
  - `str.strip` (`Strip`), over the characters for which `str.isspace`
    holds.
- `classifier.dfy` (module `Classifier`) holds:
  - the shipped lexicon and phrase;
  - `CheckVegetarian(text, lexicon, phrase)`;
  - `CheckShipped`, which is `CheckVegetarian` instantiated with the shipped
    lexicon and phrase;
  - `CheckVegetarianFixed`, a corrected per-line test (see Findings).
- `report.dfy` (module `Report`) holds:
  - the message assembly, as `ResultMessage`;
  - a parser `ParseMessage` that reads a verdict back from a message;
  - round-trip lemmas between the two.

The model follows the code as written. Three behaviours of the code are easy
to misread:

- Line 34 lower-cases the text before splitting it, so reported lines come
  out lower-cased, not in their original case.
- Line 36 tests the phrase without `.lower()`, unlike line 32. With the
  shipped phrase, which has a capital S, no line is ever reported.
- Nothing rejects an empty phrase. An empty phrase is found in every line,
  so every line is reported.

## Model

| member | source | states |
|---|---|---|
| Text.LowerChar | main.py:30 | lower-casing one character never yields an upper-case letter, and it changes only upper-case letters |
| Text.Lower | main.py:30-34 | lower-casing keeps the length and maps each character on its own, as `str.lower` does on the modelled characters |
| Text.LowerIsLower | main.py:30 | the output of `Lower` is lower-case, and a string is lower-case exactly when `Lower` leaves it unchanged |
| Text.LowerIdempotent | main.py:30 | lower-casing twice gives the same result as lower-casing once |
| Text.LowerOfUpper | main.py:30 | upper-casing a text first does not change its lower-cased form |
| Text.LowerUpperInverse | main.py:30 | on the letters the model pairs, upper-casing undoes lower-casing of a capital (except ẞ) and lower-casing undoes upper-casing of a lower-case letter |
| Text.Contains | main.py:30-36 | the empty pattern occurs in every text, and a pattern that occurs is no longer than the text |
| Text.ContainsIff | main.py:30 | the substring test holds exactly when the pattern occurs at some position; the empty pattern occurs in every text |
| Text.ContainsTransitive | main.py:32-36 | a substring of a substring of a text is a substring of that text |
| Text.PartitionHeadAvoids | main.py:34 | the part before a cut never contains the separator, so each cut is at the first occurrence |
| Text.PartitionFound | main.py:34 | a cut is made exactly when the separator occurs in the text |
| Text.SplitOn | main.py:34 | a split yields at least one piece, and no piece contains the separator |
| Text.JoinSplitOn | main.py:34 | joining the pieces of a split with the separator gives back the original text |
| Text.SplitOnJoin | main.py:34 | for at least one piece, splitting the join of pieces that avoid the separator's first character gives back those pieces |
| Text.SplitOnCount | main.py:34 | splitting on a character yields one more piece than the character's number of occurrences, so `""` yields one piece |
| Text.SplitOnPieceOccurs | main.py:34 | every piece of a split occurs in the text that was split |
| Text.Join | main.py:62 | joining nothing gives the empty string, and a join starts with the first part and ends with the last |
| Text.CountLower | main.py:34 | lower-casing keeps the number of line breaks |
| Text.Strip | main.py:37 | the result neither starts nor ends with whitespace, and it is the input with only whitespace removed before and after it |
| Text.StripUnique | main.py:37 | for any trimmed text with only whitespace around it, `Strip` returns that trimmed text |
| Text.StripTrimmed | main.py:37 | text with no whitespace at either end is left unchanged |
| Text.StripIdempotent | main.py:37 | stripping twice gives the same result as stripping once |
| Text.StripLower | main.py:34-37 | stripping a lower-case line leaves a lower-case line |
| Classifier.MatchTerms | main.py:30 | a term is matched iff it is in the lexicon and its lower-cased form occurs in the text; matches are a subsequence of the lexicon, no more than the lexicon, and have no repeats when the lexicon has none |
| Classifier.MatchTermsAppend | main.py:30 | matching distributes over concatenation of lexicons, so matches follow lexicon order |
| Classifier.CollectLines | main.py:35-37 | each entry is the stripped form of a line containing the phrase, and each such line contributes an entry |
| Classifier.CollectLinesAppend | main.py:35-37 | collection distributes over concatenation of lines, so entries follow line order and repeated lines are kept |
| Classifier.CollectLinesEveryLine | main.py:35-37 | when every line contains the phrase, the i-th entry is the i-th line stripped |
| Classifier.CollectLinesNone | main.py:35-37 | when no line contains the phrase, nothing is collected |
| Classifier.CheckVegetarian | main.py:25-38 | the matched terms are exactly the lexicon terms whose lower-cased form occurs in the lower-cased text, in lexicon order; there are no ambiguous entries unless the lower-cased phrase occurs in the lower-cased text; each entry is a stripped line of the lower-cased text that contains the phrase as written, and every such line is reported |
| Classifier.NoLineWithoutText | main.py:32-36 | when the lower-cased phrase is absent from the lower-cased text, no line contains the phrase as written, so the guard on line 32 never hides a line |
| Classifier.ScansEveryLine | main.py:32-37 | the ambiguous entries are exactly the line scan over every line of the lower-cased text, in line order and with repeats |
| Classifier.CheckShipped | main.py:12-38 | with the shipped lexicon, the matched terms are exactly the shipped terms whose lower-cased form occurs in the lower-cased text |
| Classifier.ShippedLexiconDistinct | main.py:12-14 | the shipped lexicon has no repeated term |
| Classifier.ShippedNonVegDistinct | main.py:30 | the shipped classifier never reports a term twice |
| Classifier.TermAloneFound | main.py:30 | in a lexicon without repeats, a text that is exactly one term reports that term exactly once, whatever the phrase |
| Classifier.ShippedTermAloneFound | main.py:30 | with the shipped lexicon and phrase, a text that is exactly one shipped term reports that term exactly once |
| Classifier.LowerTextSameVerdict | main.py:30-34 | classifying a text and its lower-cased form gives the same verdict |
| Classifier.UpperTextSameVerdict | main.py:30-34 | classifying a text and its upper-cased form gives the same verdict |
| Classifier.LinesAreLower | main.py:34 | every line of the split is lower-case |
| Classifier.AmbiguousLowerTrimmed | main.py:34-37 | every ambiguous entry is lower-case and has no leading or trailing whitespace |
| Classifier.MixedCasePhraseNeverMatches | main.py:32-36 | a phrase that lower-casing would change never yields an ambiguous entry |
| Classifier.ShippedPhraseNeverReports | main.py:17 | with the shipped phrase "kann Spuren von", no ambiguous line is reported for any text |
| Classifier.AmbiguousAtMostLines | main.py:34-37 | there are at most (number of line breaks + 1) ambiguous entries |
| Classifier.EmptyPhraseTakesEveryLine | main.py:32-37 | with an empty phrase there are exactly (number of line breaks + 1) entries, the i-th being the i-th lower-cased line stripped |
| Classifier.ShippedDisclaimerMissed | main.py:32-36 | the text "kann Spuren von" passes the whole-text test, yet the shipped classifier reports no ambiguous line for it |
| Classifier.CheckVegetarianFixed | main.py:32-37 | the corrected classifier matches the same terms, and each of its entries is a stripped line containing the lower-cased phrase |
| Classifier.LineInText | main.py:32-36 | a pattern found in one line is found in the whole lower-cased text |
| Classifier.FixedScansEveryLine | main.py:32 | in the corrected classifier the whole-text test is only a shortcut: scanning every line gives the same entries |
| Classifier.FixedReportsMarkedLines | main.py:34-37 | the corrected classifier reports exactly the stripped lines that contain the phrase in any letter case |
| Classifier.FixedIgnoresPhraseCase | main.py:32-36 | the corrected classifier gives the same verdict for the phrase, its lower-cased form and its upper-cased form |
| Classifier.FixedAgreesOnLowerPhrase | main.py:32-36 | for an all-lower-case phrase, the corrected classifier equals the code as written |
| Classifier.SingleLineCollected | main.py:34-37 | a single trimmed line with no line break, scanned for itself, is collected once and unchanged |
| Classifier.ShippedDisclaimerReportedFixed | main.py:17 | the corrected classifier reports the text "kann Spuren von" as the single entry "kann spuren von" |
| Report.VerdictLine | main.py:61-64 | the verdict line starts with "Not Vegetarian" iff terms were matched and with "Vegetarian" iff none were, and it ends with `<br>` |
| Report.ListItems | main.py:69-70 | the list is empty exactly when there are no entries, and otherwise starts with `<li>` and ends with `</li>` |
| Report.AmbiguousSection | main.py:66-71 | the section is empty exactly when there are no ambiguous entries, and otherwise starts with the "Ambiguous Items" heading and ends with `</ul>` |
| Report.ResultMessage | main.py:60-71 | the message starts with the "Not Vegetarian" tag iff terms were matched, with the "Vegetarian" tag iff none were, and ends with `</ul>` iff there are ambiguous entries |
| Report.ListItemsAsJoin | main.py:69-70 | the list items are the entries joined by `</li><li>`, inside one `<li>`…`</li>` pair |
| Report.SectionAsJoin | main.py:66-71 | a non-empty section is the heading, `<ul><li>`, the entries joined by `</li><li>`, and `</li></ul>` |
| Report.ParseSectionOf | main.py:66-71 | the ambiguous section reads back to its entries, in order, when no entry contains '<' |
| Report.ParseAfterVegetarianLine | main.py:63-64 | after the vegetarian line, the parser reads the rest as the ambiguous section |
| Report.ParseAfterNotVegetarianLine | main.py:61-62 | after the "Not Vegetarian" line built from at least one term, the parser reads back the terms joined by ", " and then the section, when no term contains '<' or ',' |
| Report.ParseResultMessage | main.py:60-71 | a message reads back to the verdict it was built from, when no term contains '<' or ',' and no entry contains '<' |
| Report.ShippedTermsPlain | main.py:12-14 | no shipped term contains '<' or ',' |
| Report.ParseShippedMessage | main.py:55-71 | the message built from the shipped classifier's verdict always reads back to that verdict |

## Left out

- Flask routing, the request and file-field checks, and template rendering (main.py:40-48, 73, 76): web plumbing with no logic of its own.
- Image decoding and OCR via PIL and pytesseract (main.py:51, 54), and the catch-all error message (main.py:74-75): these are calls into foreign libraries. The recognised text is a parameter of the model instead.
- Review submission and listing (main.py:19-23, 78-100): JSON file reads and writes on a shared file, with no locking. Their only logic is a list append.
- Port and environment parsing and server start (main.py:102-105): process I/O.
- Full Unicode case mapping. `LowerChar` maps only ASCII A–Z, the Latin-1 capitals U+00C0–U+00DE except U+00D7 (this covers Ä, Ö and Ü), and U+1E9E. Python's `str.lower` also maps other scripts, and for a few characters it changes the string's length. `Upper` is the matching inverse map, not Python's `str.upper`. It is used only to state case invariance, so `Classifier.UpperTextSameVerdict` and `Classifier.FixedIgnoresPhraseCase` speak about this map. It leaves alone ß, whose Python upper-case form is "SS", and ÿ (U+00FF) and µ (U+00B5), which Python upper-cases to Ÿ (U+0178) and Μ (U+039C), outside the mapped range.
- Report.ParseResultMessage: the round trip is stated only for terms without '<' or ',' and entries without '<'. The code inserts terms and entries verbatim, without HTML escaping. Other verdicts can then give messages that do not read back: a term "</span><br>" ends the verdict line early, and two verdicts can give the same message.

## Findings

| source | as written | input that shows it | evidently intended | confidence | as-written member | corrected member |
|---|---|---|---|---|---|---|
| main.py:36 | `ambiguous_phrase in line` tests the phrase as configured against a line of the lower-cased text | the text "kann Spuren von": the whole-text test on line 32 passes, but no line is reported | `ambiguous_phrase.lower() in line`, the same case-insensitive test as line 32 | high; not executed | Classifier.ShippedDisclaimerMissed | Classifier.CheckVegetarianFixed |

The as-written behaviour is proved in general:

- `Classifier.MixedCasePhraseNeverMatches` covers any phrase that contains an upper-case letter.
- `Classifier.ShippedPhraseNeverReports` covers the shipped phrase.

The corrected classifier is `Classifier.CheckVegetarianFixed`. Its intended properties are proved:

- `Classifier.FixedReportsMarkedLines`: it reports exactly the lines that contain the phrase in any letter case.
- `Classifier.FixedIgnoresPhraseCase`: it does not depend on the letter case of the phrase.
- `Classifier.FixedScansEveryLine`: its whole-text test is only a shortcut.
- `Classifier.FixedAgreesOnLowerPhrase`: it agrees with the code as written whenever the phrase is already lower-case.
- `Classifier.ShippedDisclaimerReportedFixed`: it reports the disclaimer that the code as written misses.

`CheckVegetarian` stays the model of the code as written. `CheckShipped` and the message lemmas are built on it.
