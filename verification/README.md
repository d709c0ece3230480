# extract_pdf handlers in Dafny

This project models the five browser click handlers of the `extract_pdf`
tool and proves properties of the model:

- **Keyword search** (`extract_pdf/script.js`). For each non-blank line of
  the keyword box, the handler finds the first page whose whitespace-normalised
  text contains the whitespace-normalised keyword. It stores that page in a
  ZIP archive under a sanitised file name. It then reports how many keywords
  were found and which were not. Modules `Locator` and `KeywordExtract`.
- **Statement splitter** (`extract_pdf/split.js`). For each value, the
  handler finds the first page matching `key\s*:\s*value`, case-insensitively
  and tolerant of spacing. The record runs from that page up to the page
  before the next page that matches `key\s*:`. Every record's pages are
  appended to one output document. Values that are not found, and values
  whose copy fails, are reported. Module `RecordSplit`.
- **XML to Excel** (`extract_pdf/xml-excel-script.js`). The handler reads
  the `row` elements, or the root's children when there are none. Each row
  becomes a record from column name to trimmed cell text; a cell tagged
  `__proto__` sets no column, as the assignment goes to the object's
  prototype setter. Every cell whose
  trimmed text holds a control character that Excel refuses gets a log
  entry. Modules `InvalidChars` and `XmlRecords`.
- **XML fixer** (`extract_pdf/xml-fixer-script.js`). The handler makes up
  to ten parse attempts. Each failed attempt removes either the first
  occurrence of the character the parser's diagnostic names, logging one
  entry, or, failing that, every character Excel refuses (the C0 controls
  other than tab, line feed and carriage return) in one sweep, logging one
  entry per distinct removed character. Module `XmlFixer`.
- **XML to CSV** (`extract_pdf/xml-script.js`). Each `row` element becomes
  a line of quoted, comma-separated cell texts. The page shows the header
  line and the first data line. Module `XmlCsv`.

`Text` holds the JavaScript string operations the handlers rely on:

- `\s` and `trim` whitespace;
- `replace(/\s+/g, ' ')`;
- `split`/`join`;
- the non-blank line filter;
- ASCII lower-casing;
- `includes` and `indexOf`.

`Wrappers` holds `Option`.

The PDF libraries, the DOM parser, the browser and the file readers are
outside the model and appear as values:

- A document is its pages' text items (`Locator.Document`).
- Copied pages are 0-based page indices.
- A copy fault of the PDF library is an oracle `copyOk(value number, page index)`.
- An XML document is the list of `row` elements and of root children, each
  row being the cells' tag names and text contents (`XmlRecords.XmlDoc`).
- The XML parser used by the fixer is a `Parser` value. It carries whether a
  text parses and which character code, if any, the error message names.

Three behaviours of the code are worth noting:

- The keyword archive's file names keep the keyword's letter case; they are
  not lower-cased (`extract_pdf/script.js:45`).
- The fixer reports failure when the text first parses on the tenth attempt
  (`extract_pdf/xml-fixer-script.js:120-122`; lemma
  `XmlFixer.TenthAttemptReportedAsFailure`).
- The fixer's "more than 100 fixes" check can never fire, because there are
  at most ten repair steps, a single removal logs one entry, and only one
  sweep can log anything (at most 32 distinct characters), as it leaves a
  clean text
  (`XmlFixer.NeverTooManyFixes`).

## Model

| member | source | states |
|---|---|---|
| Text.Trim | extract_pdf/script.js:7 | the trimmed text is empty exactly when the input is all whitespace; otherwise it starts and ends with a non-space |
| Text.TrimDecompose | extract_pdf/xml-excel-script.js:78 | the trimmed text is a contiguous slice of the input with only whitespace before and after it |
| Text.TrimPadded | extract_pdf/xml-excel-script.js:78 | a text that starts and ends with a non-space, padded with whitespace on both sides, trims back to itself |
| Text.NormalizeIdempotent | extract_pdf/script.js:18 | collapsing whitespace runs is idempotent, and leaves a text unchanged exactly when each of its whitespace characters is a single space not followed by whitespace |
| Text.NormalizeSingleSpaced | extract_pdf/script.js:18 | after collapsing, every whitespace character is a single space followed by a non-space or the end |
| Text.NormalizeKeepsNonSpaces | extract_pdf/script.js:18 | collapsing whitespace keeps every non-whitespace character, in order |
| Text.NormalizeKeepsWords | extract_pdf/script.js:18 | collapsing whitespace keeps the sequence of words: no two words are merged, none is split or lost |
| Text.NormalizeKeepsEnd | extract_pdf/script.js:18 | the collapsed text ends with a space exactly when the input ends with whitespace |
| Text.Split | extract_pdf/script.js:15 | `split` yields at least one piece, no piece holds the separator, and joining the pieces gives back the text |
| Text.SplitJoin | extract_pdf/xml-script.js:34 | splitting a join of separator-free parts gives back the parts |
| Text.KeepNonBlank | extract_pdf/script.js:15 | the kept keywords are trimmed and non-empty |
| Text.KeepNonBlankIndices | extract_pdf/script.js:15 | the kept keywords are the trimmed lines at strictly increasing positions, and every line whose trimmed text is non-empty is kept |
| Text.KeepNonBlankMembers | extract_pdf/script.js:15 | a text is kept exactly when it is the non-empty trimmed text of some line |
| Text.BlankInputHasNoLines | extract_pdf/script.js:7 | the box is blank exactly when no non-blank line remains |
| Text.WordsAreWords | extract_pdf/split.js:36 | the whitespace-separated tokens of the pattern are non-empty and free of whitespace |
| Text.Lower | extract_pdf/split.js:45 | lower-casing keeps the length and maps each character with the ASCII rule |
| Text.FirstIndex | extract_pdf/xml-fixer-script.js:83 | `indexOf` of a present character: it is there, and not before |
| Text.FindFirst | extract_pdf/xml-fixer-script.js:28 | the first occurrence of a substring at or after a position, or none |
| Locator.GreedyMatchesRegex | extract_pdf/split.js:47-49 | on well-formed tokens, the greedy whitespace skip matches exactly when the regular expression `t0\s*t1\s*...` does |
| Locator.FirstMatchSpec | extract_pdf/script.js:29-37 | the located page is the least page at or after the start that matches, and none is returned only when no page matches |
| Locator.FirstMatchHits | extract_pdf/script.js:29-37 | a located page matches |
| Locator.FirstMatchMissesBefore | extract_pdf/script.js:29-37 | no page between the start and the located page matches, and none at all when no page is located |
| Locator.ScanFrom | extract_pdf/script.js:29-37 | the page loop returns the first matching page at or after `from`, and no earlier page matches |
| KeywordExtract.Sanitize | extract_pdf/script.js:45 | same length; ASCII letters and digits kept in place, every other character turned into `_` |
| KeywordExtract.FileNameShape | extract_pdf/script.js:45 | the file name is the sanitised normalised keyword (letter case kept) followed by `.pdf` |
| KeywordExtract.FindKeyword | extract_pdf/script.js:26-37 | the page found for a keyword is the first page containing the normalised keyword, a valid page number |
| KeywordExtract.SearchAll | extract_pdf/script.js:20-61 | found plus not-found counts equal the number of keywords, the not-found list is the missing keywords in order, the archive is the fold of the found pages |
| KeywordExtract.SearchKeywords | extract_pdf/script.js:7-15 | the alert is shown exactly when no file is chosen or the keyword box is blank; otherwise the counts, lists and archive above, and the ZIP link offered exactly when something was found |
| KeywordExtract.MissingExact | extract_pdf/script.js:57-60 | a keyword is reported as not found exactly when it was asked for and no page contains it |
| KeywordExtract.ArchiveKeys | extract_pdf/script.js:45-46 | the archive holds a file name exactly when some found keyword produces it |
| KeywordExtract.ArchiveSound | extract_pdf/script.js:45-46 | every archived file name comes from a found keyword, whose index is returned |
| KeywordExtract.ArchiveComplete | extract_pdf/script.js:45-46 | the file name of every found keyword is in the archive |
| KeywordExtract.ArchiveLastWins | extract_pdf/script.js:46 | a found keyword with no later keyword of the same file name keeps its page in the archive |
| KeywordExtract.ArchivePagesInDocument | extract_pdf/script.js:41 | every archived page index is a page of the document |
| KeywordExtract.ZipOfferedIffArchiveNonEmpty | extract_pdf/script.js:64 | some keyword is found exactly when the archive is non-empty |
| KeywordExtract.MissingBound | extract_pdf/script.js:58 | no more keywords are missing than were asked for |
| KeywordExtract.InvoiceLocated | extract_pdf/script.js:29-37 | in a three-page example, the keyword is found on page 2, the first page whose joined text items contain it |
| KeywordExtract.InvoiceFileName | extract_pdf/script.js:45 | `ID-7` is stored as `ID_7.pdf` |
| KeywordExtract.InvoiceScenario | extract_pdf/script.js:20-61 | the found keyword is not reported missing and is archived with its page |
| RecordSplit.LowerAll | extract_pdf/split.js:36 | every token lower-cased, in place |
| RecordSplit.StartPatternIsRegex | extract_pdf/split.js:36-49 | the start-page test matches exactly when the regular expression `key\s*:\s*value` does somewhere in the page |
| RecordSplit.EndPatternIsRegex | extract_pdf/split.js:61-63 | the end-page test matches exactly when `key\s*:` does somewhere in the page |
| RecordSplit.StartPage | extract_pdf/split.js:40-51 | a found start is a page number of the document |
| RecordSplit.StartPageFirst | extract_pdf/split.js:40-51 | the record starts on the first page matching the value, and no earlier page matches |
| RecordSplit.EndPage | extract_pdf/split.js:53-67 | the end lies between the start and the last page |
| RecordSplit.EndPageBoundary | extract_pdf/split.js:53-67 | no page after the start up to the end holds `key:`, and the page after the end does when there is one |
| RecordSplit.CopyRangeSpec | extract_pdf/split.js:70-73 | the copied pages are the leading pages of the record in order; the copy is complete exactly when every page copies, and otherwise stops at the first failing page |
| RecordSplit.RunStep | extract_pdf/split.js:28-85 | one more value extends the result by that value's processing |
| RecordSplit.FindRange | extract_pdf/split.js:35-67 | the two page loops find the start page and, when there is one, the end page |
| RecordSplit.CopyPages | extract_pdf/split.js:70-73 | the copy loop appends exactly the copied pages and reports whether all of them copied |
| RecordSplit.SplitOne | extract_pdf/split.js:29-84 | one value is processed: not found, or its record copied with an error when a copy fails |
| RecordSplit.SplitAll | extract_pdf/split.js:28-85 | the loop over the values computes the fold of the per-value processing |
| RecordSplit.SplitStatements | extract_pdf/split.js:8-15 | the alert is shown exactly when no file is chosen or the key or value box is blank; otherwise the output pages, not-found values and errors of the run |
| RecordSplit.NotFoundExact | extract_pdf/split.js:77-79 | the not-found list is the unmatched values in input order, whatever the copy faults |
| RecordSplit.UnmatchedMembers | extract_pdf/split.js:77-79 | a value is reported not found exactly when it was listed and no page matches it |
| RecordSplit.ErrorsAreFound | extract_pdf/split.js:81-84 | every value reported with an error was listed and was found |
| RecordSplit.ErrorsExact | extract_pdf/split.js:69-84 | the errors are exactly the found values with a page of their record that fails to copy, in input order |
| RecordSplit.FaultReported | extract_pdf/split.js:69-84 | a found value with a page of its record that fails to copy is reported as an error |
| RecordSplit.FaultFreeRecord | extract_pdf/split.js:70-73 | with no copy fault, a found value's whole record is copied |
| RecordSplit.FaultFreeRun | extract_pdf/split.js:28-85 | with no copy fault, the output holds every found value's record in list order and no error is reported |
| RecordSplit.PagesInDocument | extract_pdf/split.js:71 | every copied page is a page of the document |
| RecordSplit.RunExtends | extract_pdf/split.js:28-85 | processing more values only appends to the pages, the not-found list and the errors, so a failing value does not undo the others |
| RecordSplit.SpacingTolerated | extract_pdf/split.js:36 | a one-word key and value match the page text with any whitespace around the colon |
| InvalidChars.Detect | extract_pdf/xml-excel-script.js:49-55 | the detected characters are all Excel-invalid control characters and no more than the text holds |
| InvalidChars.DetectEmptyIffClean | extract_pdf/xml-excel-script.js:52-55 | nothing is detected exactly when the text has no invalid character |
| InvalidChars.DetectMembers | extract_pdf/xml-excel-script.js:52-55 | a character is detected exactly when it is invalid and occurs in the text |
| InvalidChars.DetectCounts | extract_pdf/xml-excel-script.js:52-55 | every occurrence of an invalid character is detected and removed by the sweep; every other character is kept as often as it occurs |
| InvalidChars.DetectStripPartition | extract_pdf/xml-fixer-script.js:447-472 | the detected characters and the swept text together are a permutation of the text |
| InvalidChars.StripIsClean | extract_pdf/xml-fixer-script.js:468 | the sweep leaves no invalid character |
| InvalidChars.StripChangesIffDirty | extract_pdf/xml-fixer-script.js:98-111 | the sweep changes the text, and its length, exactly when the text holds an invalid character |
| InvalidChars.DistinctSpec | extract_pdf/xml-fixer-script.js:453 | the unique characters have no duplicates and the same members as the matches |
| InvalidChars.DistinctFirstOrder | extract_pdf/xml-fixer-script.js:453 | the unique characters come in the order of their first occurrence |
| InvalidChars.DistinctInvalidBound | extract_pdf/xml-fixer-script.js:448-453 | there are at most 32 distinct invalid characters |
| InvalidChars.HexRoundTrip | extract_pdf/xml-excel-script.js:92 | the upper-case hexadecimal digits of a code read back as the code |
| InvalidChars.HexDigitsShape | extract_pdf/xml-excel-script.js:92 | the digits are upper-case hexadecimal without a leading zero, at most two below 256 |
| InvalidChars.PadTwoValue | extract_pdf/xml-excel-script.js:92 | padding to two digits keeps the value |
| InvalidChars.LabelShape | extract_pdf/xml-excel-script.js:92 | an invalid character's label is `0x` and two upper-case hexadecimal digits whose value is its code |
| InvalidChars.PadTwoShape | extract_pdf/xml-excel-script.js:92 | padding to two places prefixes zeros only, and only to a text shorter than two |
| InvalidChars.StripSubsequence | extract_pdf/xml-fixer-script.js:468 | the sweep keeps the remaining characters in their order |
| InvalidChars.Labels | extract_pdf/xml-excel-script.js:92 | each detected character gets its label, in order |
| XmlRecords.ColumnName | extract_pdf/xml-excel-script.js:81 | a column name is never empty |
| XmlRecords.Texts | extract_pdf/xml-excel-script.js:78 | each cell's trimmed text, in order |
| XmlRecords.RecordKeys | extract_pdf/xml-excel-script.js:77-81 | a row's record has exactly the column names of its cells as keys, except `__proto__` |
| XmlRecords.RecordLastWins | extract_pdf/xml-excel-script.js:81 | a column other than `__proto__` named by no later cell maps to that cell's trimmed text |
| XmlRecords.ProtoCellIgnored | extract_pdf/xml-excel-script.js:74-81 | a cell tagged `__proto__` adds no column to the record |
| XmlRecords.LogSound | extract_pdf/xml-excel-script.js:83-93 | every log entry is the entry of a cell whose trimmed text holds an invalid character |
| XmlRecords.LogComplete | extract_pdf/xml-excel-script.js:83-93 | every cell whose trimmed text holds an invalid character has its entry, with 1-based row number, column name and labels |
| XmlRecords.CleanRowsLogNothing | extract_pdf/xml-excel-script.js:83-93 | rows without invalid characters log nothing |
| XmlRecords.EdgeControlsHidden | extract_pdf/xml-excel-script.js:78-79 | control characters that `trim` removes at the edges of a cell are not reported |
| XmlRecords.FlattenRow | extract_pdf/xml-excel-script.js:72-98 | one row's loop builds its record and its log entries |
| XmlRecords.XmlToData | extract_pdf/xml-excel-script.js:58-101 | one record per row, each the row's record, and the log of all rows in order |
| XmlRecords.HandleXmlToExcel | extract_pdf/xml-excel-script.js:20-112 | each abort (no file, parser error, no root, no data) happens exactly in its case; otherwise the records and log of the selected rows |
| XmlFixer.CharOfCode | extract_pdf/xml-fixer-script.js:73 | the character made from a code is the code taken modulo 65536, and there is none exactly when that is a surrogate |
| XmlFixer.IndexOf | extract_pdf/xml-fixer-script.js:83 | -1 exactly when the character is absent; otherwise its first position |
| XmlFixer.SweepEntryFacts | extract_pdf/xml-fixer-script.js:455-465 | each sweep entry names an invalid character of the text, its code, the attempt and the position of its first occurrence |
| XmlFixer.SweepEntriesDistinct | extract_pdf/xml-fixer-script.js:453 | no character is logged twice in one sweep |
| XmlFixer.SweepEntriesCover | extract_pdf/xml-fixer-script.js:453-465 | every invalid character of the text is logged by the sweep |
| XmlFixer.SweepEntriesBound | extract_pdf/xml-fixer-script.js:453 | a sweep logs at most 32 entries |
| XmlFixer.FixLog.Push | extract_pdf/xml-fixer-script.js:84 | the log grows by the pushed entry |
| XmlFixer.RemoveAllInvalidCharacters | extract_pdf/xml-fixer-script.js:447-472 | the returned text is the text without invalid characters, and the log grows by one entry per distinct invalid character in first-occurrence order |
| XmlFixer.RemoveAt | extract_pdf/xml-fixer-script.js:93 | removing one character shortens the text by one |
| XmlFixer.RemoveAtMultiset | extract_pdf/xml-fixer-script.js:93 | removing one character removes exactly that character |
| XmlFixer.RemoveAtSubsequence | extract_pdf/xml-fixer-script.js:93 | removing one character keeps the others in their order |
| XmlFixer.RemoveDiagnosedExact | extract_pdf/xml-fixer-script.js:69-93 | when the diagnosed character is present, its first occurrence is removed and one entry with its position, code and attempt is logged |
| XmlFixer.SweepStep | extract_pdf/xml-fixer-script.js:95-111 | the fallback sweep fails exactly when the text is clean, with the message of its branch; otherwise it yields the swept text and its entries |
| XmlFixer.RepairShrinks | extract_pdf/xml-fixer-script.js:68-112 | a repair step removes characters only, keeps the rest in order and logs at least one entry |
| XmlFixer.RemoveDiagnosedShrinks | extract_pdf/xml-fixer-script.js:82-93 | removing a diagnosed character that occurs takes away exactly one occurrence of it, keeps the rest in order, and logs one entry naming it |
| XmlFixer.SweepShrinks | extract_pdf/xml-fixer-script.js:95-111 | a sweep that does not give up removes at least one character, keeps the rest in order and logs an entry |
| XmlFixer.CleanSweepLogsNothing | extract_pdf/xml-fixer-script.js:98-111 | a sweep that removes nothing logs nothing |
| XmlFixer.RepairOnce | extract_pdf/xml-fixer-script.js:62-112 | one failed attempt repairs the text as specified and appends its entries to the log; an attempt that gives up leaves the log as it was |
| XmlFixer.RepairLoop | extract_pdf/xml-fixer-script.js:40-118 | the attempt loop ends as the specified repair run does: a parse on some attempt with the text and log at that point, a thrown failure, or the attempts used up |
| XmlFixer.HandleXmlFixer | extract_pdf/xml-fixer-script.js:20-122 | the no-file alert without a file; otherwise the outcome of the repair run, where a parse on the tenth attempt still counts as the attempts used up |
| XmlFixer.LoopFacts | extract_pdf/xml-fixer-script.js:40-118 | a parsed end has a text that parses, a subsequence of the input, after at most ten attempts; the too-many-fixes failure is never raised |
| XmlFixer.FixedParses | extract_pdf/xml-fixer-script.js:40-122 | a fixed result parses, took fewer than ten attempts, is a subsequence of the input and carries the `_fixed.xml` name |
| XmlFixer.NeverTooManyFixes | extract_pdf/xml-fixer-script.js:115-117 | the more-than-100-fixes failure cannot occur |
| XmlFixer.ParsingInputUnchanged | extract_pdf/xml-fixer-script.js:55-59 | a text that parses is returned unchanged after one attempt with an empty log |
| XmlFixer.ControlsParseLate | extract_pdf/xml-fixer-script.js:47-112 | k stray control characters under a parser that names them take k single removals and parse on attempt k+1 |
| XmlFixer.TenthAttemptReportedAsFailure | extract_pdf/xml-fixer-script.js:120-122 | a text that first parses on the tenth attempt is reported as failure |
| XmlFixer.FixedNameUnchanged | extract_pdf/xml-fixer-script.js:28 | the file name is unchanged exactly when it does not contain `.xml` |
| XmlFixer.FixedNameOfXml | extract_pdf/xml-fixer-script.js:28 | `base.xml` becomes `base_fixed.xml` when `base` has no `.xml` |
| XmlCsv.QuotedCells | extract_pdf/xml-script.js:30 | each cell becomes its trimmed text in double quotes |
| XmlCsv.XmlToCsv | extract_pdf/xml-script.js:24-35 | the row loop builds the lines of the rows joined by newlines |
| XmlCsv.HandleLoadXml | extract_pdf/xml-script.js:13-52 | the no-file alert, the conversion failure, or the header and first-row fields of the text; the no-data branch is never taken |
| XmlCsv.CsvTextEmpty | extract_pdf/xml-script.js:39-42 | conversion fails exactly when there is no row or a single row without cells |
| XmlCsv.QuoteRoundTrip | extract_pdf/xml-script.js:62 | removing the quotes of a quoted quote-free text gives it back |
| XmlCsv.FieldsOfLine | extract_pdf/xml-script.js:51 | the fields of a line of plain cells are its trimmed cell texts |
| XmlCsv.CsvRoundTrip | extract_pdf/xml-script.js:24-73 | when the first row has cells, for rows without commas, quotes or newlines, the page shows the first row's texts as headers and the second row's texts as its first row |
| XmlCsv.CommaBreaksRoundTrip | extract_pdf/xml-script.js:30 | a cell holding a comma is shown as two empty headers, because nothing is escaped |

## Left out

- The DOM is not modelled: alerts, console output, preview tables, styling, download links and progress text. The handlers' results are returned as values instead.
- The PDF libraries are not modelled. A document is its pages' text items, and the output document is the list of copied 0-based page indices. Saving, `Blob` and `JSZip` are left out, as are the split handler's final save and its error (`extract_pdf/split.js:88-101`).
- Copy faults of the PDF library in the splitter are the oracle `copyOk`. A fault while reading a page's text is not modelled.
- The XML parser is not modelled. Parsing yields an `XmlDoc` or a `Parser` value, and the parser-error message is reduced to the character code it names, if any.
- File reading, `async`/`await` and the event-listener wiring are left out.
- The splitter's progress percentage is left out, because it is floating-point display text.
- RecordSplit.SplitStatements: requires the key and the values to hold no regular-expression metacharacter. The handler passes them into `new RegExp` unescaped, and the general regular-expression engine is not modelled.
- Case folding is ASCII only. Lower-casing other letters is not modelled.
- Strings are sequences of Unicode code points, not UTF-16 code units, throughout the model. Positions, lengths and contexts (`XmlFixer.IndexOf`, `XmlFixer.Context`) therefore count code points, and `KeywordExtract.Sanitize` turns a character outside the Basic Multilingual Plane into one `_` where JavaScript writes `__`, one per surrogate.
- XmlFixer.CharOfCode: a code naming a lone surrogate gives no character, so it takes the "not found" path, where JavaScript would remove that half of a surrogate pair.
- `invalidCharsInRow` (`extract_pdf/xml-excel-script.js:75, 84-87`) is left out, because nothing reads it.
- The fixer's preview of the repaired file is not modelled separately. It parses the result again and runs the same row conversion as the Excel page (`extract_pdf/xml-fixer-script.js:210-254`), which is `XmlRecords.XmlToData`. The preview and download UI are left out.
- The XML-to-CSV page does not check for a parser error, and the model takes its `row` elements as given.
