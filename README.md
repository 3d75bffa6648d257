# Virtual assistant text tools: a Dafny model

This project models the text-processing core of a Streamlit "virtual assistant". It has four tabs.

- **OCR tab** (`tabs/tab_ocr.py`):
  - `clean_ocr_text` fixes known misreadings of the text recogniser with an ordered table of literal rewrites. It then drops blank lines and lines made only of digits and symbols.
  - `parse_text` folds non-ASCII runs into spaces and collapses double spaces. It then searches the text for a merchant, a date and a total, keeps the lines that look like priced items, and renders a numbered report next to a record whose unmatched fields are `None`.
- **Summary tab** (`tabs/tab_summary.py`): `summarize_text` keeps the leading `". "`-separated pieces of a text (2, 5 or 10 of them). It re-joins them and marks a cut with `"..."`.
- **Edit tab** (`tabs/tab_edit.py`): `editorial_support` strips the text, then does one of four things:
  - cuts it to 100 words;
  - applies three grammar replacements;
  - applies two tone replacements;
  - appends a persuasive closing line.
- **Email tab** (`tabs/tab_email.py`): `draft_email` looks up the opening sentence of a tone, with a default, and fills a fixed template. The guard in `show_email_tab` only drafts when subject, recipient and details are all filled.

## Modules

Modules of Python builtins and shared helpers:

- `Chars`: character classes (ASCII whitespace, digits, letters, the regex word class) and `str.strip`.
- `Substitute`: `str.replace`, with the empty-pattern case included, and the facts about what a replacement can and cannot create.
- `Pieces`: `str.split(sep)` and `sep.join`, with their round trip and the prefix facts the summariser relies on.
- `Whitespace`: `str.split()` with no argument.
- `TextLines`:
  - list comprehension filtering;
  - the line comprehension `[l.strip() for l in text.splitlines() if l.strip()]`, which both OCR functions use.

Modules for the four tabs:

- `OcrClean`: `clean_ocr_text`, written as a method with the source's two loops.
- `OcrFields`: the normalisation of `parse_text` and one hand-written scanner for each of its four patterns. Each scanner is proved sound and complete against a declarative statement of its pattern at a position: the merchant keywords, the two date alternatives, the four total phrases, and a price after two letters for items.
- `OcrReport`:
  - the record returned by `parse_text`;
  - the report, built by a method that appends one line at a time as the source does;
  - a reader that recovers the record from the report.
- `Summary`, `Edit` and `Email`: the other three tabs, as functions.

Regular expressions are written as scanners, not as a general engine. `re.search` returns the leftmost position where the pattern matches at all. At that position, alternatives are tried in their written order and quantifiers are greedy. Each scanner follows these rules for its own pattern:

- the merchant pattern takes the first keyword in list order at the leftmost position;
- a date field `\d{1,2}` followed by a separator can only take a whole digit run;
- `[^\d]*` in the total pattern stops at the first digit.

## Model

| member | source | states |
|---|---|---|
| OcrClean.Cleaned | tabs/tab_ocr.py:47-70 | What `clean_ocr_text` returns: the corrections applied in table order, then the kept lines joined by line breaks. `OcrClean.CleanOcrText` is proved to compute it, and `OcrClean.CleanedLines` states its lines. |
| OcrClean.ApplyAll | tabs/tab_ocr.py:59-60 | The correction loop: each rule rewrites the whole text the earlier rules produced. `OcrClean.ApplyAllStep`, `OcrClean.ApplyAllAppend` and `OcrClean.DeadCorrections` state what it does. |
| OcrClean.IsNoiseLine | tabs/tab_ocr.py:66 | `^[\d\s/.,$]+$`: a non-empty line made only of digits, whitespace and `/ . , $`. `OcrClean.KeptLinesShape` and `OcrClean.NoiseLines` state its effect. |
| OcrClean.KeptLines | tabs/tab_ocr.py:63-68 | The stripped non-blank lines that are not noise, in order. `OcrClean.KeptLinesShape` states this in both directions, with order and multiplicity. |
| OcrClean.CleanOcrText | tabs/tab_ocr.py:47-70 | The method runs one loop that rewrites the text once per correction and a second that collects the surviving lines. It returns the surviving lines of the corrected text joined by line breaks. |
| OcrClean.ApplyAllStep | tabs/tab_ocr.py:59-60 | One more rule of the table is one more whole-text replacement of the text produced by the rules before it. |
| OcrClean.ApplyAllAppend | tabs/tab_ocr.py:59-60 | Applying a table in two parts, one after the other, is applying the whole table. |
| OcrClean.ApplyAllKeepsOut | tabs/tab_ocr.py:59-60 | A character that neither the text nor any replacement holds is absent after all the rules. |
| OcrClean.ApplyAllIdle | tabs/tab_ocr.py:59-60 | Rules whose patterns start with a character the text lacks leave the text unchanged. |
| OcrClean.NoCapitalSAfterDollarRule | tabs/tab_ocr.py:51-60 | From the `"S"` → `"$"` rule up to the `"GIei"` rule, the text has no capital S. |
| OcrClean.DeadCorrections | tabs/tab_ocr.py:49-60 | The `"EXPIRES"` and `"CASUNNGE"` rules never change the text, and the corrected text has no capital S. |
| OcrClean.KeptLinesShape | tabs/tab_ocr.py:63-68 | Every kept line is stripped, non-blank and not noise, and every stripped non-blank line that is not noise is kept. The kept lines keep their original order: they are the lines at exactly the positions of the non-noise lines, in increasing order. Each kept line occurs as often as among all the lines, so nothing is dropped or deduplicated. |
| OcrClean.LinesWithin | tabs/tab_ocr.py:63 | Every character of every line comes from the text. |
| OcrClean.CleanedLines | tabs/tab_ocr.py:63-70 | The output is empty exactly when no line is kept. Otherwise splitting it at line breaks gives back exactly the kept lines, in order, so it has no blank line. Each of those lines is stripped, non-blank, not noise and free of capital S, and every stripped non-noise line of the corrected text is among them. The kept lines are the non-noise lines in their original order, each as often as it occurs. |
| OcrClean.NoiseTextCleansToEmpty | tabs/tab_ocr.py:49-70 | A text made only of digits, whitespace and `/ . , $` is not touched by any correction and cleans to the empty string. |
| OcrClean.NoiseLines | tabs/tab_ocr.py:63-68 | Every line of such a text is noise, so no line is kept. |
| OcrFields.FoldNonAscii | tabs/tab_ocr.py:92 | The result is all ASCII and no longer than the input. |
| OcrFields.FoldAscii | tabs/tab_ocr.py:92 | ASCII text is left as it is. |
| OcrFields.FoldRun | tabs/tab_ocr.py:92 | A maximal run of non-ASCII characters after ASCII text becomes exactly one space. |
| OcrFields.ReplaceKeepsAscii | tabs/tab_ocr.py:93 | Replacing inside ASCII text with ASCII text keeps it ASCII. |
| OcrFields.Normalize | tabs/tab_ocr.py:92-93 | Every pattern is matched against text that is all ASCII. |
| OcrFields.NormalizeAscii | tabs/tab_ocr.py:92-93 | ASCII text without a double space is unchanged by normalisation. |
| OcrFields.NormalizeThreeSpaces | tabs/tab_ocr.py:93 | The double-space collapse is one non-overlapping pass, so three spaces become two. |
| OcrFields.FirstKeyword | tabs/tab_ocr.py:96 | The alternative picked is a keyword found at the position, ignoring case, and no earlier keyword in the list is found there. None means no keyword is found there. |
| OcrFields.DigitRun | tabs/tab_ocr.py:97 | The run counted is all digits and is followed by a non-digit or the end. |
| OcrFields.DigitRunExact | tabs/tab_ocr.py:97 | A digit span followed by a non-digit or the end is the whole run. |
| OcrFields.SpaceRun | tabs/tab_ocr.py:98 | The run counted is all whitespace and is followed by a non-space or the end. |
| OcrFields.SearchFrom | tabs/tab_ocr.py:100-102 | Leftmost search: the position found matches, and no earlier position does. None means no position matches. |
| OcrFields.LineRun | tabs/tab_ocr.py:96 | `.{0,60}` taken greedily: at most 60 characters, none a line break, stopping only at 60, at a line break or at the end. |
| OcrFields.StoreAt | tabs/tab_ocr.py:96 | The merchant pattern matches at a position exactly when a keyword is found there, ignoring case. The match takes the first such keyword, one optional whitespace character and the greedy line tail. |
| OcrFields.StoreTailEnd | tabs/tab_ocr.py:96 | `\s?.{0,60}` taken greedily: one whitespace character if there is one, then the greedy line tail. |
| OcrFields.FindStore | tabs/tab_ocr.py:96-100 | The span found is the merchant match at the leftmost matching position. None means no position matches. |
| OcrFields.MiddleField | tabs/tab_ocr.py:97 | `[/-]\d{1,2}[/-]` after the first field: the separators and the digit run between them. |
| OcrFields.DateMatch | tabs/tab_ocr.py:97 | The date pattern at a position, stated declaratively: one of the two alternatives, with digit fields of the allowed lengths, separators, and word boundaries at both ends. `OcrFields.FindDateSpec` ties the search to it. |
| OcrFields.DateAt | tabs/tab_ocr.py:97 | The date scanner at a position. `OcrFields.DateAtSound` and `OcrFields.DateAtComplete` prove it finds exactly the matches of `OcrFields.DateMatch`, with the regex engine's span. |
| OcrFields.DateAtSound | tabs/tab_ocr.py:97 | What the date scanner finds is a match of one of the two alternatives, with word boundaries at both ends. |
| OcrFields.DateAtComplete | tabs/tab_ocr.py:97 | Every match of the date pattern at a position is the one the scanner finds there. |
| OcrFields.DayFirstFound | tabs/tab_ocr.py:97 | A match of the first alternative (1-2, 1-2, then 2-4 digits) is what the scanner finds. |
| OcrFields.YearFirstFound | tabs/tab_ocr.py:97 | A match of the second alternative (4, 1-2, then 1-2 digits) is what the scanner finds. |
| OcrFields.FindDate | tabs/tab_ocr.py:97-101 | The span found is the scanner's match at the leftmost position where it matches. None means no position matches. |
| OcrFields.FindDateSpec | tabs/tab_ocr.py:97-101 | The date found matches the pattern, and no earlier position matches it. No date is found exactly when the pattern matches nowhere. |
| OcrFields.PhraseEnd | tabs/tab_ocr.py:98 | What the phrase scanner finds is a match of the phrase (`PhraseMatch`): each word in order, ignoring case, with a non-empty whitespace run between two words. |
| OcrFields.SpaceRunExact | tabs/tab_ocr.py:98 | A whitespace span followed by a non-space character or the end is the whole run. |
| OcrFields.FoldedNotSpace | tabs/tab_ocr.py:98 | A word that starts with a non-space character, found at a position, puts a non-space character there. |
| OcrFields.PhraseEndStep | tabs/tab_ocr.py:98 | After the first word, `\s+` takes the whole whitespace run, and the scan goes on with the next word. |
| OcrFields.PhraseEndComplete | tabs/tab_ocr.py:98 | Every match of a phrase whose later words start with a non-space character ends where the phrase scanner says. |
| OcrFields.FirstDigit | tabs/tab_ocr.py:98 | `[^\d]*` stops at the first digit: no digit lies before it. |
| OcrFields.FirstDigitExact | tabs/tab_ocr.py:98 | A digit after a digit-free gap is the first digit. |
| OcrFields.IsAmount | tabs/tab_ocr.py:98 | `\d+[.,]\d{2}` matched by a whole span. `OcrFields.AmountDigits` and `OcrFields.AmountAfterComplete` state it. |
| OcrFields.AmountAfter | tabs/tab_ocr.py:98 | What is found is a digit-free gap followed by an amount: digits, `.` or `,`, and two digits. |
| OcrFields.AmountDigits | tabs/tab_ocr.py:98 | An amount has at least one digit before its separator, and the separator is not a digit. |
| OcrFields.AmountAfterComplete | tabs/tab_ocr.py:98 | A digit-free gap followed by an amount is exactly what the amount scanner returns. |
| OcrFields.AltAt | tabs/tab_ocr.py:98 | One alternative of the total pattern: what it finds is an amount that follows a match of its phrase after a digit-free gap. |
| OcrFields.AltAtComplete | tabs/tab_ocr.py:98 | Every match of one alternative (phrase, digit-free gap, amount) is exactly what that alternative finds. |
| OcrFields.AltAtNone | tabs/tab_ocr.py:98 | An alternative finds nothing exactly when it matches nowhere at the position. |
| OcrFields.TotalFrom | tabs/tab_ocr.py:98 | The alternatives are tried in written order. The span returned is an amount that starts no earlier than the position. |
| OcrFields.TotalFromOrder | tabs/tab_ocr.py:98 | What the alternation returns is what the first alternative that finds something finds, and it returns nothing when no alternative finds anything. |
| OcrFields.TotalFromOrderTail | tabs/tab_ocr.py:98 | That fact when the first alternative finds nothing. |
| OcrFields.ShiftNone | tabs/tab_ocr.py:98 | Alternatives that find nothing after the first, which finds nothing, find nothing in the whole list. |
| OcrFields.TotalFromFirst | tabs/tab_ocr.py:98 | The first alternative that finds something decides the result. |
| OcrFields.TotalFromSound | tabs/tab_ocr.py:98 | What the alternation returns is a match of an alternative, and no alternative written before it matches at all. |
| OcrFields.TotalFromComplete | tabs/tab_ocr.py:98 | A match of an alternative, with no earlier alternative matching, is what the alternation returns. |
| OcrFields.TotalFromNone | tabs/tab_ocr.py:98 | The alternation returns nothing exactly when no alternative matches. |
| OcrFields.TotalPhrasesWellSpaced | tabs/tab_ocr.py:98 | The four phrases are non-empty, and their second words start with a letter, so `\s+` before them takes a whole run. |
| OcrFields.TotalAt | tabs/tab_ocr.py:98 | A total found at a position is an amount that starts no earlier. |
| OcrFields.TotalAtIff | tabs/tab_ocr.py:98 | The total scanner finds an amount at a position exactly when the total pattern matches there with that amount (`TotalMatch`). Such a match is a match of one of the four alternatives, with no alternative written before it matching at all. |
| OcrFields.TotalAtNone | tabs/tab_ocr.py:98 | The total scanner finds nothing at a position exactly when none of the four alternatives matches there. |
| OcrFields.FindTotal | tabs/tab_ocr.py:98-102 | The span found is an amount from the leftmost position where the total pattern matches. None means no position matches. |
| OcrFields.TotalMatchFound | tabs/tab_ocr.py:98 | Every match of the total pattern is what the scanner finds at its position. |
| OcrFields.FindTotalSpec | tabs/tab_ocr.py:98-102 | The total found is the amount of a match of the total pattern at the leftmost position where it matches. No total is found exactly when the pattern matches nowhere. |
| OcrFields.TotalKeywordAmount | tabs/tab_ocr.py:98 | The keyword "total" at a position, followed after no digits by an amount, yields that amount there. |
| OcrFields.TotalExample | tabs/tab_ocr.py:98-102 | "Total $4.49" yields the total "4.49". |
| OcrFields.LetterPairFrom | tabs/tab_ocr.py:106 | The scanner finds the first position holding two ASCII letters in a row. |
| OcrFields.PriceFromIff | tabs/tab_ocr.py:106 | The recursive price test holds exactly when some price separator lies at or after the position. |
| OcrFields.IsItemLine | tabs/tab_ocr.py:106 | The item test as a scan. `OcrFields.ItemLineIff` proves it equal to the declarative reading of `[A-Za-z]{2,}.*\d+[.,]\d{2}` searched anywhere in the line. |
| OcrFields.ItemLineIff | tabs/tab_ocr.py:106 | The item scan holds exactly when the line has two letters followed, at least one character later, by digits, `.` or `,`, and two digits. |
| OcrFields.ItemExample | tabs/tab_ocr.py:106 | "Apples 3.50" is an item line. |
| OcrFields.NotItemExample | tabs/tab_ocr.py:106 | A line without letters, "12/05/2024 3.50", is not an item line. |
| OcrReport.ParseFields | tabs/tab_ocr.py:100-127 | The record `parse_text` returns, built from the normalised text. `OcrReport.StoreFieldSpec`, `OcrReport.DateFieldSpec`, `OcrReport.TotalFieldSpec` and `OcrReport.ItemsFieldSpec` state each field. |
| OcrReport.ItemLines | tabs/tab_ocr.py:105-106 | The item lines of the normalised text, in order. `OcrReport.ItemsFieldSpec` states them in both directions, with their order and multiplicity. |
| OcrReport.Group | tabs/tab_ocr.py:123-125 | A field is `None` exactly when its pattern did not match, never an empty placeholder. When it did match, the field is as long as the matched span. |
| OcrReport.StoreGroup | tabs/tab_ocr.py:96-123 | The text of a merchant match starts with one of the keywords, ignoring case. |
| OcrReport.StoreFieldSpec | tabs/tab_ocr.py:96-123 | A merchant, when found, starts with one of the keywords, ignoring case. |
| OcrReport.FoldedAtSlice | tabs/tab_ocr.py:96-123 | A keyword found in the text is still found in a slice that keeps it whole. |
| OcrReport.DateMatchSlice | tabs/tab_ocr.py:97-124 | A date match cut out of its text still matches the date pattern. |
| OcrReport.DateAtSlice | tabs/tab_ocr.py:97-124 | The span the date scanner finds, cut out, matches the date pattern. |
| OcrReport.DateGroup | tabs/tab_ocr.py:101-124 | The text of a date match matches the date pattern on its own. |
| OcrReport.DateFieldSpec | tabs/tab_ocr.py:97-124 | A date, when found, matches the date pattern on its own. |
| OcrReport.TotalFieldSpec | tabs/tab_ocr.py:98-125 | A total, when found, is digits, `.` or `,`, and two digits. |
| OcrReport.ItemsFieldSpec | tabs/tab_ocr.py:105-126 | The items are exactly the stripped non-blank lines of the normalised text that match the item pattern. They keep the original order: they are the lines at exactly the matching positions, in increasing order. Each occurs as often as among the lines, with no deduplication. |
| OcrReport.DigitChar | tabs/tab_ocr.py:118 | The digit character of a number below ten. |
| OcrReport.DecimalString | tabs/tab_ocr.py:118 | `str(i+1)` is a non-empty run of digits with no leading zero. |
| OcrReport.DecimalRoundTrip | tabs/tab_ocr.py:118 | Reading back the digits of a number gives the number. |
| OcrReport.NumberedItems | tabs/tab_ocr.py:118 | There is one numbered line per item. |
| OcrReport.ReportLines | tabs/tab_ocr.py:108-120 | The list `readable`. `OcrReport.ReportShape` states its lines and `OcrReport.ReadRender` proves it determines the record. |
| OcrReport.RenderReport | tabs/tab_ocr.py:108-122 | The method appends one line at a time as the source does. It returns the report lines joined by line breaks. |
| OcrReport.ParseText | tabs/tab_ocr.py:90-127 | It returns the record of the fields found in the normalised text, and the report rendered from that record. |
| OcrReport.ReadLabelledOf | tabs/tab_ocr.py:109-114 | A labelled line is read back as its field. An absent one is not read from the next line, which starts differently. |
| OcrReport.ReadItemsOf | tabs/tab_ocr.py:116-120 | The numbered item lines, or the "No items detected." line, are read back as the items. |
| OcrReport.ReadTagged | tabs/tab_ocr.py:108-116 | The store, date and total lines before the header are read back as the three fields. What follows the header is left for the items. |
| OcrReport.ReadRender | tabs/tab_ocr.py:108-127 | The list of report lines determines the record: reading the lines back gives the record that was rendered. This is a statement about the list of lines, not the joined text. A merchant can itself hold a line break, taken by `\s?`, so the joined report does not in general determine the record. |
| OcrReport.ReportShape | tabs/tab_ocr.py:108-120 | The report lists only the matched fields, each after its label, in the order store, date, total. Then come the header, then either the items numbered from 1 or the "No items detected." line. |
| OcrReport.TotalLineIsItem | tabs/tab_ocr.py:106 | The line "Total $4.49" is itself an item line. |
| Chars.Strip | tabs/tab_edit.py:22 | `str.strip` with ASCII whitespace. `Chars.StripSpec` states it: the slice between the leading and trailing whitespace, with no whitespace at either end. |
| Chars.Lower | tabs/tab_ocr.py:96-98 | ASCII case folding, as `(?i)` applies it: capital letters map to lower case and every other character is kept. |
| Chars.SkipSpace | tabs/tab_edit.py:22 | The leading whitespace ends at the first non-whitespace character. |
| Chars.SkipSpaceBack | tabs/tab_edit.py:22 | The trailing whitespace starts after the last non-whitespace character. |
| Chars.StripSlice | tabs/tab_edit.py:22 | `strip` keeps a slice of the text, and only whitespace lies on either side of it. |
| Chars.StripEnds | tabs/tab_edit.py:22 | A stripped text neither starts nor ends with whitespace. |
| Chars.StripEmpty | tabs/tab_ocr.py:63 | `strip` gives the empty string exactly for an all-whitespace text, the case that `if l.strip()` drops. |
| Chars.StripSpec | tabs/tab_edit.py:22 | The three facts above together. |
| Chars.StripUnchanged | tabs/tab_summary.py:33 | Text without whitespace at either end is unchanged by `strip`. |
| Substitute.Replace | tabs/tab_ocr.py:60 | `str.replace`: left to right, without overlap. `Substitute.ReplaceAtMatch`, `Substitute.ReplaceSkipChar` and `Substitute.ReplaceAbsent` state the scan, and `Substitute.ReplaceRemoves` states that no occurrence is left. |
| Substitute.InsertEverywhere | tabs/tab_edit.py:30 | `replace` with an empty pattern inserts the replacement at every position, so the length grows accordingly. |
| Substitute.ContainsHasChars | tabs/tab_edit.py:30 | Every character of a substring occurs in the text. |
| Substitute.ContainsInSuffix | tabs/tab_edit.py:30 | An occurrence in a suffix is an occurrence in the whole. |
| Substitute.ContainsAfter | tabs/tab_edit.py:30 | An occurrence in `a + b` that cannot start inside `a` lies in `b`. |
| Substitute.ReplaceAbsent | tabs/tab_ocr.py:60 | Replacing a pattern that does not occur changes nothing. |
| Substitute.ReplaceLacking | tabs/tab_ocr.py:60 | A pattern holding a character the text lacks leaves the text unchanged. |
| Substitute.ReplaceAtMatch | tabs/tab_edit.py:30 | An occurrence at the start is replaced, and the left-to-right scan resumes after it. |
| Substitute.ReplaceSkipChar | tabs/tab_edit.py:30 | A character that does not start an occurrence is kept. |
| Substitute.ReplaceEliminates | tabs/tab_ocr.py:51-60 | Replacing a single character by text without it removes every instance of it. |
| Substitute.ReplaceKeepsOut | tabs/tab_ocr.py:60 | A character in neither the text nor the replacement is not in the result. |
| Substitute.InsertKeepsOut | tabs/tab_ocr.py:60 | The same holds for the empty-pattern case. |
| Substitute.ReplacePrefix | tabs/tab_edit.py:33 | A prefix of the result that cannot overlap the replacement is a prefix of the input. |
| Substitute.ReplaceRemoves | tabs/tab_edit.py:33 | Under a condition on how the replacement can overlap the pattern, the pattern no longer occurs after the replacement. |
| Substitute.ReplacePreserves | tabs/tab_edit.py:33 | Under a like condition, a replacement creates no occurrence of a string that was absent. |
| Pieces.Split | tabs/tab_summary.py:22-24 | `split` always yields at least one piece, so the "No content to summarize" branch is dead. |
| Pieces.Join | tabs/tab_summary.py:27-31 | `sep.join`. `Pieces.JoinSplit` and `Pieces.SplitJoin` prove it the inverse of `split`. |
| Pieces.JoinSplit | tabs/tab_summary.py:22-31 | Joining the pieces with the separator gives back the text. |
| Pieces.JoinSplitSep | tabs/tab_summary.py:22-31 | The step of that round trip for a text starting with the separator. |
| Pieces.JoinSplitChar | tabs/tab_summary.py:22-31 | The step of that round trip for a text that does not start with the separator. |
| Pieces.SplitPiecesLackSep | tabs/tab_summary.py:22-33 | No piece contains the separator. |
| Pieces.SplitWithin | tabs/tab_ocr.py:63 | Every character of every piece comes from the text. |
| Pieces.JoinPrefix | tabs/tab_ocr.py:70 | The first piece begins the joined text. |
| Pieces.SplitNoSep | tabs/tab_summary.py:22 | A text without the separator is a single piece. |
| Pieces.SplitTake | tabs/tab_summary.py:27-33 | The leading pieces, re-joined, are a prefix of the text, and re-splitting them gives exactly those pieces. |
| Pieces.TakePrefix | tabs/tab_summary.py:27-31 | The re-joined leading pieces begin the text. |
| Pieces.TakeResplit | tabs/tab_summary.py:33 | Re-splitting the re-joined leading pieces gives them back. |
| Pieces.TakeResplitSep | tabs/tab_summary.py:33 | That fact for a text starting with the separator. |
| Pieces.TakeResplitChar | tabs/tab_summary.py:33 | That fact for a text that does not start with the separator. |
| Pieces.SplitAfterSep | tabs/tab_summary.py:22 | A text starting with the separator splits into an empty piece and the pieces of the rest. |
| Pieces.SplitCharHead | tabs/tab_summary.py:22 | A character that does not start a separator goes to the first piece. |
| Pieces.SplitAtFirst | tabs/tab_ocr.py:63 | A one-character separator splits at its first occurrence. |
| Pieces.SplitJoin | tabs/tab_ocr.py:70 | For a one-character separator, splitting undoes joining pieces that do not contain it. |
| Pieces.SplitConcat | tabs/tab_email.py:23-34 | For a one-character separator, splitting `x + sep + y` gives the pieces of `x`, then those of `y`. |
| Pieces.SplitConcatSep | tabs/tab_email.py:23-34 | The step of that fact past a separator. |
| Pieces.SplitConcatChar | tabs/tab_email.py:23-34 | The step of that fact past another character. |
| Pieces.GlueHead | tabs/tab_email.py:23-34 | Gluing a character to the first piece commutes with appending pieces. |
| Whitespace.WordLen | tabs/tab_edit.py:25 | The first word runs up to the first whitespace character. |
| Whitespace.Words | tabs/tab_edit.py:25 | `split()` yields non-empty words without whitespace. |
| Whitespace.Gaps | tabs/tab_edit.py:25 | There is one whitespace run around each word, plus one. |
| Whitespace.WeaveGaps | tabs/tab_edit.py:25 | Every text is its words woven between whitespace runs, with a non-empty run between two words. So the words are the maximal runs of non-whitespace characters, in order. |
| Whitespace.WeaveSpaceHead | tabs/tab_edit.py:25 | The step of that fact past a whitespace character. |
| Whitespace.SpacingSpaceHead | tabs/tab_edit.py:25 | A whitespace character added to the first run keeps the runs whitespace. |
| Whitespace.WeaveWordHead | tabs/tab_edit.py:25 | The step of that fact past a word. |
| Whitespace.SpacingWordHead | tabs/tab_edit.py:25 | An empty run before a word keeps the runs well formed. |
| Whitespace.GapsHead | tabs/tab_edit.py:25 | After a word, the whitespace run is not empty when another word follows. |
| Whitespace.WordsAfterSpace | tabs/tab_edit.py:25 | Leading whitespace does not change the words. |
| Whitespace.WordsOfWeave | tabs/tab_edit.py:25 | Conversely, any words woven between whitespace runs, with a non-empty run between two words, are exactly what `split()` returns. |
| Whitespace.WordsOfJoin | tabs/tab_edit.py:25-26 | `split()` undoes `" ".join` on words. |
| Whitespace.JoinWordsEnds | tabs/tab_edit.py:26 | Joined words neither start nor end with whitespace. |
| Whitespace.JoinExtendLast | tabs/tab_edit.py:26 | Text appended to joined words extends the last word. |
| TextLines.Filter | tabs/tab_ocr.py:64-68 | A filter keeps exactly the elements that pass, and no more elements than it was given. |
| TextLines.FilterAppend | tabs/tab_ocr.py:64-68 | Filtering keeps the order: it commutes with extending the list by one element. |
| TextLines.FilterStep | tabs/tab_ocr.py:65-68 | One more element of the list adds that element to the result exactly when it passes. |
| TextLines.FilterNone | tabs/tab_ocr.py:66-67 | Nothing survives a filter that every element fails. |
| TextLines.KeptIndices | tabs/tab_ocr.py:64-68 | The positions of the elements a filter keeps, in increasing order. A position is listed exactly when its element passes. |
| TextLines.FilterOrder | tabs/tab_ocr.py:64-68 | A filter keeps the passing elements in their original order: its result is the list read at the kept positions. |
| TextLines.FilterCount | tabs/tab_ocr.py:64-68 | A filter neither drops nor duplicates: a passing element occurs in the result as often as in the list, and a failing one not at all. |
| TextLines.StripWithin | tabs/tab_ocr.py:63 | `strip` only removes characters. |
| TextLines.StrippedPiece | tabs/tab_ocr.py:63 | A stripped non-blank piece without a line break is a stripped line. |
| TextLines.NonBlankLines | tabs/tab_ocr.py:63 | The line comprehension. `TextLines.NonBlankLinesSpec` states it in both directions and `TextLines.NonBlankLinesOrder` states its order and multiplicity. |
| TextLines.NonBlankLinesSpec | tabs/tab_ocr.py:105 | Every line is the stripped, non-empty form of a piece between line breaks, and every such piece gives a line. |
| TextLines.StrippedPieces | tabs/tab_ocr.py:63 | `l.strip()` of each piece between line breaks, one per piece, in order. |
| TextLines.NonBlankLinesOrder | tabs/tab_ocr.py:63 | The lines keep the order of the text: they are the stripped pieces at exactly the positions of the non-blank pieces, in increasing order. Each non-blank line occurs as often as among the stripped pieces. |
| Summary.Take | tabs/tab_summary.py:27-31 | `sentences[:n]` is a prefix of the pieces, of length n or fewer. |
| Summary.OtherOptionsAreDetailed | tabs/tab_summary.py:26-31 | Any option other than the two short ones summarises like "Detailed paragraph". |
| Summary.SummarizeText | tabs/tab_summary.py:20-33 | A text with no more pieces than the option keeps is returned stripped, without "...". The cut case is `Summary.SummaryCut`. |
| Summary.SummaryCut | tabs/tab_summary.py:22-33 | A longer text is cut. Before stripping, the summary is a prefix of the text whose own pieces are exactly the leading pieces kept, and "..." is appended. |
| Summary.SummaryOfEmpty | tabs/tab_summary.py:22-33 | An empty text summarises to the empty string. |
| Edit.Shorten | tabs/tab_edit.py:25-26 | The concise goal. `Edit.ShortenWords` and `Edit.ConciseIdempotent` state its words. |
| Edit.FixGrammar | tabs/tab_edit.py:30 | The three chained grammar replacements. `Edit.GrammarLeavesNoLowerI` and `Edit.GrammarInsideWords` state their effect. |
| Edit.SoftenTone | tabs/tab_edit.py:33 | The two chained tone replacements. `Edit.ToneLeavesNoSorryOrPlease` states their effect. |
| Edit.EditorialSupport | tabs/tab_edit.py:20-38 | The persuasive goal returns the stripped text followed by exactly the closing line. Any goal other than the four returns the stripped text. |
| Edit.ShortenWords | tabs/tab_edit.py:24-26 | At most 100 words are re-joined as they are. More are cut to the first 100, with "..." glued to the last word. |
| Edit.ShortenCut | tabs/tab_edit.py:26 | The words of a cut text are the first 99 words and the 100th followed by "...". |
| Edit.ConciseIdempotent | tabs/tab_edit.py:25-26 | The concise goal yields at most 100 words, and applying it to its own output changes nothing. |
| Edit.GrammarLeavesNoLowerI | tabs/tab_edit.py:30 | After the grammar goal no "i " is left, not even inside a word. |
| Edit.GrammarInsideWords | tabs/tab_edit.py:30 | The "i " rule ignores word boundaries: an "i" ending a word is capitalised. |
| Edit.GrammarOnHiThere | tabs/tab_edit.py:30 | "hi there" becomes "hI there". |
| Edit.ToneLeavesNoSorryOrPlease | tabs/tab_edit.py:33 | After the tone goal neither "sorry" nor "please" is left. |
| Edit.ToneRulesSafe | tabs/tab_edit.py:33 | The tone replacements cannot overlap their own or each other's patterns in a way that rebuilds them. |
| Email.DraftEmail | tabs/tab_email.py:10-35 | The filled template. `Email.DraftLines` states its lines and `Email.DraftDetermines` proves it determines subject, recipient, opening and details. |
| Email.ToneOpening | tabs/tab_email.py:12-21 | `tone_styles.get`: the opening of any tone has no line break. |
| Email.ToneOpenings | tabs/tab_email.py:12-21 | Each of the six tones has its own opening, and every other tone gets the professional one. |
| Email.HeadJoin | tabs/tab_email.py:23-29 | The six lines before the details, joined by line breaks and followed by one, are the text before the details. |
| Email.TailJoin | tabs/tab_email.py:30-34 | The sign-off is a line break, then a blank line, "Best regards," with its two trailing spaces, the name placeholder and a final empty line. |
| Email.DraftParts | tabs/tab_email.py:23-34 | The draft is the head lines joined, a line break, the details, a line break, and the tail lines joined. |
| Email.SplitThree | tabs/tab_email.py:23-34 | Text around two line breaks splits into the lines of each of its three parts. |
| Email.HeadSingleLines | tabs/tab_email.py:23-34 | Head lines built from single-line fields are single lines, and so are the tail lines. |
| Email.DraftLines | tabs/tab_email.py:10-35 | For a subject and a recipient without line breaks, and any details, splitting a draft at line breaks gives the six head lines, then the lines of the details, then the four tail lines. There is no leading blank line, the fields appear verbatim, and a final line break ends the draft. |
| Email.DraftDetermines | tabs/tab_email.py:10-35 | Drafts whose subject and recipient have no line breaks determine the subject, the recipient, the opening and the details, even when the details span several lines. |
| Email.GenerateEmail | tabs/tab_email.py:57-62 | A draft is produced exactly when subject, recipient and details are all non-empty, and it is the template filled with them. |

## Notes on the model

- **Whitespace and line breaks.** Whitespace is ASCII whitespace (space, `\t`, `\n`, `\r`, `\x0b`, `\x0c`, `\x1c`-`\x1f`), for `strip`, `split()` and `\s`. Lines are split at `'\n'` only. `splitlines` also breaks at `\r`, `\r\n`, `\x0b`, `\x0c`, `\x1c`-`\x1e`, `\x85`, U+2028 and U+2029, and it drops an empty final piece. The empty final piece makes no difference here, because both comprehensions drop pieces that strip to nothing. A text with one of the other separators is cut into fewer lines by the model than by the source; for example `"a\rb"` is one line in the model and two in the source.
- **Case folding.** `(?i)` is ASCII case folding. This is exact for `parse_text`, because normalisation leaves only ASCII characters.
- **The end-to-end receipt example.** The receipt text `"WALMART STORE\n01/15/2024\nMilk 2.99\nBread 1.50\nTotal $4.49"` is usually described as giving two items. Following the code, it gives three: the line `"Total $4.49"` also matches the item pattern (`OcrReport.TotalLineIsItem`). The model follows the code.
- **Representation of constants.**
  - The emoji of the report labels are written as `\U{...}` escapes.
  - The email openings are written as concatenations of short literals. Their text is the same.
- **The empty-input branch of the summariser.** The "No content to summarize" branch is modelled but never taken, because `split` always yields a piece (`Pieces.Split`).
- **The `S` rule.** The corrections table rewrites every capital S to `$` before the `"EXPIRES"` and `"CASUNNGE"` rules run, so those two rules are dead (`OcrClean.DeadCorrections`).

## Left out

- Image preprocessing (`preprocess_image`, tabs/tab_ocr.py:31-45): pixel operations with floating-point factors in OpenCV and PIL.
- The EasyOCR reader, its cache and `extract_text` (tabs/tab_ocr.py:10-14, 76-84): a foreign recognition model. Its output, including the "OCR failed" message, is an arbitrary input string to `parse_text`.
- `extract_uploaded_text` (tabs/tab_edit.py:6-16, tabs/tab_summary.py:6-16): file reads and the PDF and DOCX libraries.
- The `show_*_tab` functions and `get_text_download_link`: Streamlit widgets and downloads. The only part modelled is the email field guard, as `Email.GenerateEmail`.
- VA_v1.py and tabs/tab_about.py: page layout and static text.
- Unicode whitespace, Unicode case folding, and the line separators of `splitlines` other than `'\n'`: the model uses the ASCII subsets described above.
- Unicode digits in `clean_ocr_text` (tabs/tab_ocr.py:66): `\d` there runs on text that is not normalised, so it also matches non-ASCII decimal digits. `OcrClean.IsNoiseLine` counts only the ASCII digits, so a line of, say, Arabic-Indic digits is kept by the model and dropped by the source. `parse_text` is not affected, because it normalises its text to ASCII first.
