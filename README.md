# Khmer text normalisation front end: verified model of its text logic

This project models the pure text logic of a small web front end for a
Khmer text-normalisation dataset, and proves properties about that model.
It covers five pieces.

- **The Khmer encoding normaliser** (`khmer_normalizer.dfy`).
  - A cleanup stage: NFC, removal of five invisible code points, collapsing
    of horizontal whitespace, CR/CRLF to LF, a trim of each line, runs of
    three or more line feeds cut to two, and a final trim.
  - A narrow reorder fix. The window `consonant, pre-vowel, COENG,
    consonant` becomes `consonant, COENG, consonant, pre-vowel`. The fix
    is an in-place loop over an array of code points.
  - Their composition, with the two flags OR-ed.
- **The parallel-CSV pipeline of the bulk-upload dialog** (`bulk_upload.dfy`).
  - The quote-aware line tokenizer and the header-checked row parser, both
    as loops proved against specification functions.
  - The `|` tag splitter, the row validator and the CSV serializer.
  - The loop run when a file is picked. It normalises each row, counts
    corrections and keeps the rows that validate.
- **The single-record form** (`text_norm_form.dfy`): its validator, and
  the payload and state that `submit` builds. The form's state is a class
  whose `Submit` method updates its fields.
- **The tag toggles** of the pill and checkbox selectors
  (`type_pills.dfy`, `type_checklist.dfy`).
- **JavaScript built-ins** (`js_string.dfy`): `trim` with the full
  ECMAScript whitespace set, `split` on one character, `join`, and the
  line-ending replace chain. `option.dfy` holds the `Option` type the
  form's `submit` returns its payload in.

Strings are sequences of Unicode code points. NFC needs the Unicode
tables, so it is a parameter `nfc: string -> string` of every operation
that uses it.

Each cleanup stage and the tag splitter are stated both by what they
remove and by what they keep. A stage rewrites only what its pattern
matches and passes the rest through in order. The `…Append` lemmas say
that a stage works piece by piece, the `…Run` lemmas say what one match
becomes, and the `…Keeps` lemmas say that text with no match is left as
it is.

Some of what the code does differs from what a caller might expect.
The model follows the code in each case, and a lemma states the behaviour.
- `parseParallelCsv` (src/components/BulkUploadModal.jsx:55) does not
  treat an input with no content line as an error. It returns an empty
  header and no rows (`BulkUpload.ParseBlankText`).
- `parseCsvLine` (src/components/BulkUploadModal.jsx:18-22) reads two
  adjacent quotes as a literal quote everywhere, not only inside a quoted
  field. So `a,"",b` reads as `a`, `"`, `b` (`BulkUpload.AdjacentQuotesExample`).
- After a rewrite, the reorder loop (src/utils/khmerUnicodeNormalizer.js:72-88)
  goes on at the next index of the rewritten array, not at the same one.
  No mis-ordered window is left even so (`KhmerUnicodeNormalizer.FixFromLeavesNoMatch`).
- The whole normaliser is not idempotent. Invisible code points are
  removed after NFC (src/utils/khmerUnicodeNormalizer.js:40-43), so a
  second run can compose what the first could not. Only the reorder fix
  is proved idempotent (`KhmerUnicodeNormalizer.FixIdempotent`).
- The normalised upload row (src/components/BulkUploadModal.jsx:201, 204)
  keeps `type` and `span_type` as strings: the cleaned tags re-joined
  with `|` (`BulkUpload.NormalizedRowClean`).
- Serialising and parsing again gives the rows back only for fields
  without line breaks that are not made of quotes alone
  (src/components/BulkUploadModal.jsx:95-99, 18-22). A lone `"` is
  written as `""""` and read back as `""` (`BulkUpload.LoneQuoteCaveat`).

## Model

| member | source | states |
|---|---|---|
| JsString.Trim | src/components/BulkUploadModal.jsx:147-155 | `trim()` returns the slice of its argument between the leading and trailing whitespace; the result starts and ends with non-whitespace |
| JsString.TrimEmpty | src/components/BulkUploadModal.jsx:53 | a string trims to empty exactly when it is all whitespace |
| JsString.TrimPadded | src/components/BulkUploadModal.jsx:91 | `trim` removes exactly the whitespace around a trimmed, non-empty text |
| JsString.TrimEach | src/components/BulkUploadModal.jsx:57 | `map((x) => x.trim())` keeps the number of elements and trims each one in place of it |
| JsString.TrimEachAppend | src/components/BulkUploadModal.jsx:91 | trimming each element of a concatenation trims each part |
| JsString.TrimEachTrimmed | src/components/BulkUploadModal.jsx:91 | trimming each of a list of trimmed strings changes nothing |
| JsString.Join | src/utils/khmerUnicodeNormalizer.js:52 | `join` of no piece is empty, of one piece is that piece, and otherwise puts the separator between consecutive pieces |
| JsString.Split | src/utils/khmerUnicodeNormalizer.js:50 | `split` gives at least one piece, no piece holds the separator, and joining the pieces with it gives the input back |
| JsString.SplitJoin | src/components/BulkUploadModal.jsx:52 | splitting a join gives the pieces back when none holds the separator |
| JsString.JoinAppend | src/utils/khmerUnicodeNormalizer.js:52 | joining two non-empty lists puts one separator between their joins |
| JsString.SplitAppend | src/components/BulkUploadModal.jsx:90 | the pieces of `a + sep + b` are the pieces of `a` followed by those of `b` |
| JsString.ReplaceCrLf | src/utils/khmerUnicodeNormalizer.js:48 | replacing CRLF by LF introduces no new code point and keeps whether the text starts with a space; what it keeps is stated by `ReplaceCrLfAppend` |
| JsString.ReplaceCrLfAppend | src/utils/khmerUnicodeNormalizer.js:48 | a cut that does not separate a CR from the LF after it splits the replace in two, so only CRLF pairs change |
| JsString.ReplaceCr | src/utils/khmerUnicodeNormalizer.js:49 | replacing CR by LF keeps the length, turns every CR into a LF and leaves every other code point where it is |
| JsString.ReplaceCrAppend | src/utils/khmerUnicodeNormalizer.js:49 | the CR replace works code point by code point over a concatenation |
| JsString.ToLf | src/components/BulkUploadModal.jsx:50-51 | after the CRLF and CR replaces no CR is left, and every other code point was in the input; `ToLfAppend`, `ToLfCrLf` and `ToLfCr` state that only line endings change |
| JsString.ToLfAppend | src/components/BulkUploadModal.jsx:50-51 | a cut that does not separate a CR from the LF after it splits the line-ending replaces in two |
| JsString.ToLfCrLf | src/components/BulkUploadModal.jsx:50-51 | a CRLF becomes one LF and the text on either side is converted on its own |
| JsString.ToLfCr | src/components/BulkUploadModal.jsx:50-51 | a CR not followed by LF becomes one LF and the text on either side is converted on its own |
| JsString.ToLfNoCr | src/components/BulkUploadModal.jsx:50-51 | the replace chain leaves text without CR unchanged |
| KhmerUnicodeNormalizer.KhmerTables | src/utils/khmerUnicodeNormalizer.js:19-34 | COENG is U+17D2, the pre-vowels are U+17C1 to U+17C5 and the consonants U+1780 to U+17A2; the three tables are disjoint and none of their code points is whitespace or a removed invisible |
| KhmerUnicodeNormalizer.IsInvisible | src/utils/khmerUnicodeNormalizer.js:19 | the removed code points are ZWSP, LRM, RLM, WJ and BOM |
| KhmerUnicodeNormalizer.IsPreVowel | src/utils/khmerUnicodeNormalizer.js:23-29 | the pre-vowel set is the five signs U+17C1 to U+17C5 |
| KhmerUnicodeNormalizer.IsKhmerConsonant | src/utils/khmerUnicodeNormalizer.js:31-34 | a consonant is a code point of U+1780 to U+17A2 |
| KhmerUnicodeNormalizer.RemoveInvisible | src/utils/khmerUnicodeNormalizer.js:19-43 | the output holds none of U+200B, U+200E, U+200F, U+2060, U+FEFF, and only code points of the input; `RemoveInvisibleAppend` and `RemoveInvisibleKeeps` state that everything else is kept in order |
| KhmerUnicodeNormalizer.RemoveInvisibleAppend | src/utils/khmerUnicodeNormalizer.js:43 | the removal works code point by code point over a concatenation |
| KhmerUnicodeNormalizer.RemoveInvisibleKeeps | src/utils/khmerUnicodeNormalizer.js:43 | text without a removed code point is kept as it is |
| KhmerUnicodeNormalizer.CollapseHorizontal | src/utils/khmerUnicodeNormalizer.js:47 | every code point left is a space or a non-horizontal-whitespace code point of the input, so no tab, form feed or vertical tab is left; the output starts with a space exactly when the input starts with horizontal whitespace; `CollapseHorizontalRun` and `CollapseHorizontalKeeps` state that each run becomes one space and nothing else changes |
| KhmerUnicodeNormalizer.CollapseHorizontalAppend | src/utils/khmerUnicodeNormalizer.js:47 | a cut after a code point other than horizontal whitespace splits the collapse in two |
| KhmerUnicodeNormalizer.CollapseHorizontalRun | src/utils/khmerUnicodeNormalizer.js:47 | a maximal run of tabs, form feeds, vertical tabs and spaces becomes exactly one space and the text on either side is collapsed on its own |
| KhmerUnicodeNormalizer.CollapseHorizontalKeeps | src/utils/khmerUnicodeNormalizer.js:47 | text without horizontal whitespace is kept as it is |
| KhmerUnicodeNormalizer.CollapseHorizontalNoDoubleSpace | src/utils/khmerUnicodeNormalizer.js:47 | after the collapse no two spaces are adjacent |
| KhmerUnicodeNormalizer.ToLfNoDoubleSpace | src/utils/khmerUnicodeNormalizer.js:48-49 | the line-ending replaces create no double space |
| KhmerUnicodeNormalizer.TrimLines | src/utils/khmerUnicodeNormalizer.js:50-52 | the text is split at line feeds, each line trimmed, and the lines joined with line feeds again |
| KhmerUnicodeNormalizer.TrimLinesKeeps | src/utils/khmerUnicodeNormalizer.js:50-52 | text with no whitespace other than line feeds is kept as it is |
| KhmerUnicodeNormalizer.TrimLinesOneLine | src/utils/khmerUnicodeNormalizer.js:50-52 | text without a line feed is trimmed as one line |
| KhmerUnicodeNormalizer.TrimLinesTidy | src/utils/khmerUnicodeNormalizer.js:50-52 | trimming each line keeps the text free of invisibles, control whitespace and double spaces |
| KhmerUnicodeNormalizer.TrimLinesTrimmed | src/utils/khmerUnicodeNormalizer.js:50-52 | after the per-line trim no line starts or ends with whitespace |
| KhmerUnicodeNormalizer.CollapseBlankLines | src/utils/khmerUnicodeNormalizer.js:53 | replacing the runs of three or more line feeds leaves a text shorter than two unchanged and keeps the first two code points of a longer one; `CollapseBlankLinesOfRun` and `CollapseBlankLinesKeeps` state that each such run becomes two line feeds and nothing else changes |
| KhmerUnicodeNormalizer.CollapseBlankLinesAppend | src/utils/khmerUnicodeNormalizer.js:53 | a cut after a code point other than a line feed splits the collapse in two |
| KhmerUnicodeNormalizer.CollapseBlankLinesOfRun | src/utils/khmerUnicodeNormalizer.js:53 | a maximal run of three or more line feeds becomes exactly two and the text on either side is collapsed on its own |
| KhmerUnicodeNormalizer.CollapseBlankLinesKeeps | src/utils/khmerUnicodeNormalizer.js:53 | text without three adjacent line feeds is kept as it is |
| KhmerUnicodeNormalizer.CollapseBlankLinesNoTriple | src/utils/khmerUnicodeNormalizer.js:53 | after the replace no three line feeds are adjacent |
| KhmerUnicodeNormalizer.CollapseBlankLinesTidy | src/utils/khmerUnicodeNormalizer.js:53 | the replace keeps the text free of invisibles, control whitespace and double spaces |
| KhmerUnicodeNormalizer.CollapseBlankLinesNoBlank | src/utils/khmerUnicodeNormalizer.js:53 | the replace puts no whitespace next to a line break |
| KhmerUnicodeNormalizer.FinalTrimClean | src/utils/khmerUnicodeNormalizer.js:54 | the final trim of a tidy text gives text meeting every cleanup property |
| KhmerUnicodeNormalizer.CleanupIsClean | src/utils/khmerUnicodeNormalizer.js:43-54 | the output of the chained stages has no invisible or control whitespace, no double space, no triple line feed, no whitespace at a line break, and is trimmed |
| KhmerUnicodeNormalizer.RemoveInvisibleVisible | src/utils/khmerUnicodeNormalizer.js:43 | removing invisibles keeps the visible code points in order |
| KhmerUnicodeNormalizer.CollapseHorizontalVisible | src/utils/khmerUnicodeNormalizer.js:47 | the whitespace collapse keeps the visible code points in order |
| KhmerUnicodeNormalizer.ReplaceCrLfVisible | src/utils/khmerUnicodeNormalizer.js:48 | the CRLF replace keeps the visible code points in order |
| KhmerUnicodeNormalizer.ReplaceCrVisible | src/utils/khmerUnicodeNormalizer.js:49 | the CR replace keeps the visible code points in order |
| KhmerUnicodeNormalizer.TrimVisible | src/utils/khmerUnicodeNormalizer.js:54 | `trim` keeps the visible code points in order |
| KhmerUnicodeNormalizer.TrimLinesVisible | src/utils/khmerUnicodeNormalizer.js:50-52 | the per-line trim keeps the visible code points in order |
| KhmerUnicodeNormalizer.CollapseBlankLinesVisible | src/utils/khmerUnicodeNormalizer.js:53 | the blank-line collapse keeps the visible code points in order |
| KhmerUnicodeNormalizer.CleanupKeepsVisible | src/utils/khmerUnicodeNormalizer.js:43-54 | the chained stages keep the visible code points of the NFC form in order |
| KhmerUnicodeNormalizer.RunPasses | src/utils/khmerUnicodeNormalizer.js:43-54 | each pass of the chain rewrites the text the previous one left; `CleanupPasses` lists them in the order the code chains them |
| KhmerUnicodeNormalizer.CleanupPassesSteps | src/utils/khmerUnicodeNormalizer.js:40-54 | running the cleanup passes is the chain remove, collapse, CRLF/CR, per-line trim, blank-run collapse, trim, in that order |
| KhmerUnicodeNormalizer.CleanupPassesMeet | src/utils/khmerUnicodeNormalizer.js:43-54 | the passes' output is clean and keeps the visible content of their input |
| KhmerUnicodeNormalizer.NormalizeWhitespaceAndNfc | src/utils/khmerUnicodeNormalizer.js:36-57 | the cleaned text is clean, keeps the visible content of the NFC form, and `changed` is true exactly when it differs from the input; `CleanupStages` gives the text as the five stages in order, and the two examples pin down what is kept |
| KhmerUnicodeNormalizer.CleanupStages | src/utils/khmerUnicodeNormalizer.js:36-54 | the cleaned text is the final trim of the NFC form run through removal, whitespace collapse, line-ending replace, per-line trim and blank-run collapse |
| KhmerUnicodeNormalizer.CollapseSpacesBetween | src/utils/khmerUnicodeNormalizer.js:36-57 | two runs of horizontal whitespace between three visible code points clean to one space each |
| KhmerUnicodeNormalizer.BlankLinesBetween | src/utils/khmerUnicodeNormalizer.js:36-57 | three or more line feeds between two visible code points clean to one blank line |
| KhmerUnicodeNormalizer.CollapseSpacesExample | src/utils/khmerUnicodeNormalizer.js:36-57 | `"a\t\tb   c"`, left alone by NFC, cleans to `"a b c"` with `changed` true |
| KhmerUnicodeNormalizer.BlankLinesExample | src/utils/khmerUnicodeNormalizer.js:36-57 | `"x"`, five line feeds and `"y"`, left alone by NFC, clean to `"x\n\ny"` with `changed` true |
| KhmerUnicodeNormalizer.CleanWithoutVisibleIsEmpty | src/utils/khmerUnicodeNormalizer.js:46-54 | a clean text with no visible code point is empty |
| KhmerUnicodeNormalizer.CleanupOfBlank | src/utils/khmerUnicodeNormalizer.js:36-56 | an input of only whitespace and invisibles, left alone by NFC, cleans to the empty text |
| KhmerUnicodeNormalizer.MatchAt | src/utils/khmerUnicodeNormalizer.js:72-81 | the four tests of the loop body: a consonant, a pre-vowel, COENG and a consonant at `i` to `i + 3`, with `i + 3` inside the text |
| KhmerUnicodeNormalizer.MatchesApart | src/utils/khmerUnicodeNormalizer.js:72-88 | two matching windows never start one or two indices apart |
| KhmerUnicodeNormalizer.Rewrite | src/utils/khmerUnicodeNormalizer.js:83-84 | the window `a b c d` at `i` becomes `a c d b`; the length and everything outside the window are unchanged |
| KhmerUnicodeNormalizer.RewritePermutes | src/utils/khmerUnicodeNormalizer.js:84 | a rewrite keeps the multiset of code points |
| KhmerUnicodeNormalizer.FixFrom | src/utils/khmerUnicodeNormalizer.js:72-88 | the loop from index `i` on: every index below the length minus 3 is tested on the text as rewritten so far, a match rewrites the window and sets `corrected` |
| KhmerUnicodeNormalizer.FixFromStep | src/utils/khmerUnicodeNormalizer.js:72-88 | one iteration of the scan: a match at `i` rewrites and goes on at `i + 1` with `corrected` set; any other index is skipped |
| KhmerUnicodeNormalizer.FixFromPermutes | src/utils/khmerUnicodeNormalizer.js:69-88 | the scan keeps the length and the multiset of code points |
| KhmerUnicodeNormalizer.FixFromCorrected | src/utils/khmerUnicodeNormalizer.js:70-90 | the scan reports a correction exactly when some window from the start index on matches, and with none returns the text unchanged |
| KhmerUnicodeNormalizer.RewriteCreatesNoEarlierMatch | src/utils/khmerUnicodeNormalizer.js:72-88 | a rewrite at the first match leaves no match at or before that index |
| KhmerUnicodeNormalizer.FixFromLeavesNoMatch | src/utils/khmerUnicodeNormalizer.js:72-88 | continuing at the next index of the rewritten array leaves no mis-ordered window anywhere |
| KhmerUnicodeNormalizer.PreVowelFix | src/utils/khmerUnicodeNormalizer.js:68-91 | the fix permutes the code points, reports `corrected` exactly when some window of the input matches, returns the input unchanged otherwise, and leaves no mis-ordered window |
| KhmerUnicodeNormalizer.FixPreVowelBeforeCoeng | src/utils/khmerUnicodeNormalizer.js:68-91 | the in-place loop over the code-point array computes `PreVowelFix` |
| KhmerUnicodeNormalizer.FixIdempotent | src/utils/khmerUnicodeNormalizer.js:72-88 | a second fix on the fix's own output reports no correction and returns the same text |
| KhmerUnicodeNormalizer.FixExample | src/utils/khmerUnicodeNormalizer.js:63-64 | ខ ែ ្ ម រ becomes ខ ្ ម ែ រ with `corrected` true |
| KhmerUnicodeNormalizer.FixFromSameLayout | src/utils/khmerUnicodeNormalizer.js:84 | the scan only exchanges Khmer signs for Khmer signs |
| KhmerUnicodeNormalizer.SameLayoutKeepsClean | src/utils/khmerUnicodeNormalizer.js:84 | exchanging Khmer signs keeps a clean text clean |
| KhmerUnicodeNormalizer.FixKeepsClean | src/utils/khmerUnicodeNormalizer.js:104-106 | the fix keeps the cleanup's properties |
| KhmerUnicodeNormalizer.Normalization | src/utils/khmerUnicodeNormalizer.js:97-109 | the result is clean with no mis-ordered window, and is the input itself when nothing is reported |
| KhmerUnicodeNormalizer.NormalizeKhmerEncoding | src/utils/khmerUnicodeNormalizer.js:97-109 | cleanup, then the in-place fix, with `corrected` the OR of `changed` and the fix's flag, computes `Normalization` |
| KhmerUnicodeNormalizer.NormalizationOfEmpty | src/utils/khmerUnicodeNormalizer.js:97-108 | the empty input gives the empty text and `corrected` false |
| BulkUpload.CsvFields | src/components/BulkUploadModal.jsx:10-39 | a line always gives at least one column |
| BulkUpload.ParseCsvLine | src/components/BulkUploadModal.jsx:10-39 | the loop over the line, with its quote toggle and the skip over a quote pair, computes `CsvFields` |
| BulkUpload.FieldsFromCount | src/components/BulkUploadModal.jsx:15-37 | from any state, the number of columns is one more than the commas met outside quotes |
| BulkUpload.ColumnCount | src/components/BulkUploadModal.jsx:10-39 | a line gives one column more than its commas outside quotes |
| BulkUpload.AdjacentQuotesExample | src/components/BulkUploadModal.jsx:18-22 | `a,"",b` gives `a`, `"`, `b`: a quote pair is a literal quote outside quotes too |
| BulkUpload.CsvFieldsNoQuotes | src/components/BulkUploadModal.jsx:10-39 | a line without quotes gives its comma-separated pieces |
| BulkUpload.DoubleQuotes | src/components/BulkUploadModal.jsx:97 | doubling the quotes introduces no other code point |
| BulkUpload.RowLine | src/components/BulkUploadModal.jsx:107-116 | one body line is the six escaped fields in column order joined with commas |
| BulkUpload.CsvEscape | src/components/BulkUploadModal.jsx:95-99 | a field is quoted exactly when it holds `"`, `,` or a line feed, and is otherwise written as it is |
| BulkUpload.EscapedCell | src/components/BulkUploadModal.jsx:95-99 | the tokenizer reads an escaped field back as the field, unless it is made of quotes alone |
| BulkUpload.EscapedCells | src/components/BulkUploadModal.jsx:95-115 | tokenizing the comma-join of escaped fields gives the fields back |
| BulkUpload.LoneQuoteCaveat | src/components/BulkUploadModal.jsx:18-22 | a lone `"` is written as `""""` and read back as `""` |
| BulkUpload.EscapeEach | src/components/BulkUploadModal.jsx:108-115 | each field of a row is escaped, in order |
| BulkUpload.RowLines | src/components/BulkUploadModal.jsx:106-116 | one line per row, in order |
| BulkUpload.ToParallelCsv | src/components/BulkUploadModal.jsx:104-119 | the output starts with the fixed header line and a line feed and ends with a line feed |
| BulkUpload.WrittenPiecesJoin | src/components/BulkUploadModal.jsx:104-118 | the output is the header line, the row lines and an empty piece, joined with line feeds |
| BulkUpload.PiecesJoin | src/components/BulkUploadModal.jsx:104-118 | the header line, the lines and a final empty piece (two when there is no line), joined with line feeds, are the header, a line feed, the joined lines and a line feed |
| BulkUpload.PiecesShape | src/components/BulkUploadModal.jsx:104-118 | no piece of the output holds a line break when neither the header line nor a row line does |
| BulkUpload.PiecesKept | src/components/BulkUploadModal.jsx:53 | dropping the blank pieces of the output leaves the header line and the row lines, in order |
| BulkUpload.RowLineShape | src/components/BulkUploadModal.jsx:107-116 | a written row line holds no line break and is not blank |
| BulkUpload.NotBlankAt | src/components/BulkUploadModal.jsx:53 | a line with a code point other than whitespace passes the blank-line filter |
| BulkUpload.Filter | src/components/BulkUploadModal.jsx:53 | `filter` keeps no more elements than it is given |
| BulkUpload.FilterKept | src/components/BulkUploadModal.jsx:53 | what the line filter keeps is a line of the input and passes the test |
| BulkUpload.FilterAppend | src/components/BulkUploadModal.jsx:53 | the filter of a concatenation is the concatenation of the filters, so order is kept |
| BulkUpload.FilterAll | src/components/BulkUploadModal.jsx:53 | when every line passes, all are kept |
| BulkUpload.FilterNone | src/components/BulkUploadModal.jsx:53 | when no line passes, none is kept |
| BulkUpload.IsContentLine | src/components/BulkUploadModal.jsx:53 | a line is kept exactly when it trims to something non-empty |
| BulkUpload.ContentLines | src/components/BulkUploadModal.jsx:49-53 | the lines parsed are those of the text with CRLF and CR unified to LF, split at line feeds, blank ones dropped, in order |
| BulkUpload.ContentLinesShape | src/components/BulkUploadModal.jsx:49-53 | the lines parsed hold no line feed and are not blank |
| BulkUpload.IndexOf | src/components/BulkUploadModal.jsx:58 | `indexOf` is -1 exactly when the name is absent, and otherwise the first position holding it |
| BulkUpload.IndexOfFirst | src/components/BulkUploadModal.jsx:58 | the first occurrence is the index found |
| BulkUpload.Missing | src/components/BulkUploadModal.jsx:60-61 | no more names are missing than are required |
| BulkUpload.MissingMembers | src/components/BulkUploadModal.jsx:61 | a name is missing exactly when it is required and not in the header |
| BulkUpload.MissingAppend | src/components/BulkUploadModal.jsx:60-61 | the missing names keep the order of the required list |
| BulkUpload.HeaderCells | src/components/BulkUploadModal.jsx:57 | the header is the first content line tokenized with each cell trimmed |
| BulkUpload.HeaderMessage | src/components/BulkUploadModal.jsx:64 | the message is `CSV header missing: ` followed by the missing names joined with `, ` |
| BulkUpload.Cell | src/components/BulkUploadModal.jsx:74-79 | `cols[i] ?? ""`: the cell at an index inside the columns, and `""` for -1 or an index past the end |
| BulkUpload.RowFrom | src/components/BulkUploadModal.jsx:73-80 | each of the six fields is the cell at the header position of its column name |
| BulkUpload.HeaderError | src/components/BulkUploadModal.jsx:57-67 | `BAD_HEADER` is thrown exactly when some required name is absent from the trimmed header cells, with a message listing the missing names in required order |
| BulkUpload.ParseBlankText | src/components/BulkUploadModal.jsx:49-55 | text of only whitespace parses to an empty header and no rows, without an error |
| BulkUpload.ParseCsv | src/components/BulkUploadModal.jsx:48-86 | only `BAD_HEADER` is thrown; the header is empty exactly when no content line remains, and then there are no rows; a complete header names every required column, with one row per data line |
| BulkUpload.ParsedRowsAt | src/components/BulkUploadModal.jsx:69-85 | row `k` is built from the `k`-th line after the header |
| BulkUpload.ParseParallelCsv | src/components/BulkUploadModal.jsx:48-86 | the parser computes `ParseCsv` |
| BulkUpload.ParseDataLines | src/components/BulkUploadModal.jsx:69-83 | the row loop builds one row per line after the header, in order |
| BulkUpload.DataRows | src/components/BulkUploadModal.jsx:69-83 | there are as many rows as data lines |
| BulkUpload.ShortRowDefaults | src/components/BulkUploadModal.jsx:74-79 | a line with a single untrimmed cell fills `raw_text` with it and every other field with `""` |
| BulkUpload.RequiredColumnsStandard | src/components/BulkUploadModal.jsx:58-60 | the required list finds each name at its own position |
| BulkUpload.HeaderLineCells | src/components/BulkUploadModal.jsx:105 | the written header line reads back as the required columns |
| BulkUpload.NoneMissingFrom | src/components/BulkUploadModal.jsx:61 | a header holding every name of a list misses none of them |
| BulkUpload.NoneMissing | src/components/BulkUploadModal.jsx:61 | the written header misses no required name |
| BulkUpload.RowFromCells | src/components/BulkUploadModal.jsx:73-80 | with the standard header, the row built from a row's own six fields is that row |
| BulkUpload.RowLineCells | src/components/BulkUploadModal.jsx:108-115 | a writable row's line tokenizes back to its six fields |
| BulkUpload.RowReadsBack | src/components/BulkUploadModal.jsx:108-115 | a writable row's line reads back as the row |
| BulkUpload.DataRowsOfRowLines | src/components/BulkUploadModal.jsx:106-117 | the row lines of writable rows read back as those rows |
| BulkUpload.WrittenNoCr | src/components/BulkUploadModal.jsx:104-118 | the serializer's output has no CR, and splitting it at line feeds gives the header line, the row lines and empty pieces |
| BulkUpload.CsvPieces | src/components/BulkUploadModal.jsx:104-118 | the parser's content lines of the output are the header line and the row lines |
| BulkUpload.RoundTrip | src/components/BulkUploadModal.jsx:48-119 | parsing the serialized rows gives the required header and the same rows, when no field holds a line break or is made of quotes alone |
| BulkUpload.NonEmpty | src/components/BulkUploadModal.jsx:92 | `filter(Boolean)` keeps no more strings than it is given; `NonEmptyAppend` and `NonEmptyMembers` state that it keeps exactly the non-empty ones, in order |
| BulkUpload.NonEmptyAppend | src/components/BulkUploadModal.jsx:92 | the filter of a concatenation is the filter of each part, in order |
| BulkUpload.NonEmptyMembers | src/components/BulkUploadModal.jsx:92 | a string is kept exactly when it is in the input and non-empty |
| BulkUpload.SplitTypesPipe | src/components/BulkUploadModal.jsx:88-93 | every tag is non-empty, trimmed and holds no `|`; `SplitTypesPipeAppend` and `SplitTypesPipeOne` state which tags come out |
| BulkUpload.SplitTypesPipeAppend | src/components/BulkUploadModal.jsx:88-93 | the tags of `a + "|" + b` are the tags of `a` followed by those of `b` |
| BulkUpload.SplitTypesPipeOne | src/components/BulkUploadModal.jsx:88-93 | text without `|` gives its trim as the one tag, or no tag when it is blank |
| BulkUpload.SplitTypesPipeDuplicateTag | src/components/BulkUploadModal.jsx:88-93 | a tag padded with whitespace, a blank piece and the tag again (as in `" X \| \|X "`) give the tag twice |
| BulkUpload.SplitJoinedTags | src/components/BulkUploadModal.jsx:88-93 | splitting the `|`-join of tags gives the same tags, in order and with duplicates |
| BulkUpload.SplitTypesPipeRejoin | src/components/BulkUploadModal.jsx:88-93 | re-splitting the stored `|`-join gives the same tags |
| BulkUpload.RowIsValid | src/components/BulkUploadModal.jsx:146-166 | what `validateRow` accepts: non-blank raw and norm texts, a type tag, and with a non-blank `span_raw` a non-blank `span_norm` and a span type tag |
| BulkUpload.ValidateRow | src/components/BulkUploadModal.jsx:146-166 | a row is accepted exactly when raw and norm texts trim non-empty, there is a type, and a non-blank `span_raw` comes with a non-blank `span_norm` and a span type; otherwise the first failing check gives the reason |
| BulkUpload.MapFilter | src/components/BulkUploadModal.jsx:189-213 | the loop keeps at most one row per input row |
| BulkUpload.MapFilterPasses | src/components/BulkUploadModal.jsx:208-212 | every kept element passed the test |
| BulkUpload.MapFilterFrom | src/components/BulkUploadModal.jsx:198-212 | every kept element is the image of an input element |
| BulkUpload.MapFilterAppend | src/components/BulkUploadModal.jsx:189-213 | the kept elements of a concatenation are those of each part, in order |
| BulkUpload.CountWhere | src/components/BulkUploadModal.jsx:196 | the count is at most the number of elements |
| BulkUpload.CountWhereAppend | src/components/BulkUploadModal.jsx:196 | the count of a concatenation is the sum of the parts' counts |
| BulkUpload.NormalizedRow | src/components/BulkUploadModal.jsx:191-206 | the four text fields go through the normaliser and the two tag fields are their cleaned tags re-joined with `|` |
| BulkUpload.RowCorrected | src/components/BulkUploadModal.jsx:196 | a row is corrected when any of its four normaliser calls reports a correction |
| BulkUpload.NormalizedRowClean | src/components/BulkUploadModal.jsx:191-206 | the four text fields of a normalised row are clean, and its tag fields split to the same tags as the parsed row's |
| BulkUpload.AcceptedRows | src/components/BulkUploadModal.jsx:189-213 | there are at most as many accepted rows as parsed rows |
| BulkUpload.AcceptedRowsValid | src/components/BulkUploadModal.jsx:208-212 | every accepted row passes `validateRow` |
| BulkUpload.AcceptedRowsFrom | src/components/BulkUploadModal.jsx:198-212 | every accepted row is the normalised form of a parsed row |
| BulkUpload.AcceptedRowsAppend | src/components/BulkUploadModal.jsx:189-213 | the accepted rows keep input order |
| BulkUpload.AcceptedRowsOne | src/components/BulkUploadModal.jsx:208-212 | one row is kept exactly when its normalised form validates |
| BulkUpload.CorrectedCount | src/components/BulkUploadModal.jsx:196 | at most one correction is counted per parsed row |
| BulkUpload.CorrectedCountAppend | src/components/BulkUploadModal.jsx:196 | corrections of separate parts add up |
| BulkUpload.CorrectedCountOne | src/components/BulkUploadModal.jsx:196 | a row counts when any of its four fields was corrected, whether or not it is later rejected |
| BulkUpload.ProcessStep | src/components/BulkUploadModal.jsx:189-213 | the kept rows and the corrected count of the rows up to one more are those so far plus those of that one row |
| BulkUpload.NormalizeRow | src/components/BulkUploadModal.jsx:191-206 | the four normaliser calls and the re-joined tags build `NormalizedRow`, with the OR of the four flags |
| BulkUpload.KeepIfValid | src/components/BulkUploadModal.jsx:208-212 | a validating row is appended and counted; any other leaves both unchanged |
| BulkUpload.ProcessRow | src/components/BulkUploadModal.jsx:190-212 | one iteration appends what `AcceptedRows` keeps of that row alone (by `AcceptedRowsOne`, the normalised row when it validates), keeps `valid` equal to the number kept, and adds that row's own corrected count |
| BulkUpload.ProcessRowAt | src/components/BulkUploadModal.jsx:189-213 | the iteration at index `i` takes the accepted rows and counts of the rows before `i` to those of the rows up to and including `i` |
| BulkUpload.ProcessRows | src/components/BulkUploadModal.jsx:185-213 | the loop ends with the accepted rows in order, `valid` their number and at most the row count, and `corrected` the number of rows with a correction |
| BulkUpload.PickFile | src/components/BulkUploadModal.jsx:181-221 | a header error leaves the reset state with its message; otherwise the preview count is the parsed rows, the valid count and rows are the accepted ones, and the error is set exactly when none is valid |
| TextNormForm.PayloadIsValid | src/components/TextNormFormModal.jsx:44-53 | a payload is valid with non-blank raw and normalized texts, at least one type, and a non-blank span normalized text whenever the span raw text is not blank |
| TextNormForm.Validate | src/components/TextNormFormModal.jsx:44-54 | `""` exactly for a valid payload; otherwise the message of the first failing check, raw, normalized, types, span |
| TextNormForm.PayloadOf | src/components/TextNormFormModal.jsx:75-89 | the texts are the normaliser's outputs; the span fields, and span types equal to the types, are kept only when the normalised span raw text is not blank |
| TextNormForm.SpanTypesFollowSpan | src/components/TextNormFormModal.jsx:75-88 | span types are present exactly with the span raw text, and are then the record's types |
| TextNormForm.ValidPayloadHasSpanParts | src/components/TextNormFormModal.jsx:83-101 | a validated payload with a span raw text has a non-blank span normalized text and the record's non-empty types as span types |
| TextNormForm.SubmitWith | src/components/TextNormFormModal.jsx:65-101 | from the form's state and the four normaliser results: the texts set to the payload's, warnings OR-ed with the flags, the error set to the validation message, and the payload sent only when the message is empty |
| TextNormForm.PayloadFrom | src/components/TextNormFormModal.jsx:65-89 | the payload is built from the normaliser's results for the four texts of the form |
| TextNormForm.Submitted | src/components/TextNormFormModal.jsx:65-101 | `submit` is `SubmitWith` on the normaliser's results for the four texts of the form |
| TextNormForm.SubmittedState | src/components/TextNormFormModal.jsx:65-101 | after `submit` the texts are the payload's, warnings are raised for corrected fields and none lowered, the error is the validation message, and the payload goes out exactly when valid |
| TextNormForm.PayloadTextsClean | src/components/TextNormFormModal.jsx:65-84 | every text of the payload is clean |
| TextNormForm.SentPayloadMeetsRule | src/components/TextNormFormModal.jsx:65-101 | a sent payload has clean, non-empty raw and normalized texts, at least one type, and a span only with a span normalized text and the record's types |
| TextNormForm.BlankRawTextRejected | src/components/TextNormFormModal.jsx:65-100 | a raw text that cleans to blank is rejected with the raw-text message and the raw field is emptied |
| TextNormForm.SubmitState | src/components/TextNormFormModal.jsx:65-101 | the normaliser calls, the payload and the validation compute `Submitted` |
| TextNormForm.Form.constructor | src/components/TextNormFormModal.jsx:10-23 | a new form has empty texts and types, no error and no warning |
| TextNormForm.Form.Store | src/components/TextNormFormModal.jsx:92-99 | the setters give the form the new state |
| TextNormForm.Form.Submit | src/components/TextNormFormModal.jsx:62-101 | the form's new state and the payload sent are those of `Submitted` on its old state |
| TypePills.Selected | src/components/TypePills.jsx:9 | `Array.isArray(value) ? value : []`: a list value is the selection, anything else selects nothing |
| TypePills.RemoveAll | src/components/TypePills.jsx:12 | the filtered list no longer holds the tag |
| TypePills.RemoveAllCounts | src/components/TypePills.jsx:12 | every occurrence of the tag is dropped and every other tag is kept as often as it occurs |
| TypePills.RemoveAllAppend | src/components/TypePills.jsx:12 | the filter keeps the order of the other tags |
| TypePills.RemoveAllAbsent | src/components/TypePills.jsx:12 | filtering out an absent tag changes nothing |
| TypePills.Toggle | src/components/TypePills.jsx:9-14 | a selected tag is filtered out, an unselected one appended; its membership flips and no other tag's changes |
| TypePills.ToggleNotArray | src/components/TypePills.jsx:9-13 | a non-array value selects nothing, so toggling selects only the tag |
| TypePills.ToggleTwice | src/components/TypePills.jsx:11-14 | toggling an absent tag twice restores the selection |
| TypePills.ToggleSelectedTwice | src/components/TypePills.jsx:11-14 | toggling a selected tag twice moves it, once, to the end |
| TypeChecklist.Toggle | src/components/TypeChecklist.jsx:4-9 | a box's tag flips, every other box keeps its state, and the list is the pills' one |
| TypeChecklist.Checked | src/components/TypeChecklist.jsx:17 | a box is checked exactly when its tag is in the selection |
| TypeChecklist.ToggleTwice | src/components/TypeChecklist.jsx:6-9 | checking and unchecking an unchecked box restores the selection |

## Left out

- NFC: `normalize("NFC")` needs the Unicode tables, so it is the parameter `nfc`. No property of NFC is assumed beyond what a lemma requires of it.
- Null and undefined inputs: `String(input ?? "")`, `String(text || "")`, `String(s || "")` and csvEscape's `value == null` case are not modelled. Every input is a string.
- UTF-16: strings are code points. `parseCsvLine` indexes UTF-16 units, but a quote or comma is never half of a surrogate pair, so the result is the same.
- Idempotence of the whole normaliser is not claimed, because invisible code points are removed after NFC. Only the reorder fix is proved idempotent.
- `segments` and `containsKhmer`, which a preview component reads, are not defined by the normaliser and are not part of this model.
- Multi-line quoted fields are not supported by the code, since lines are split before tokenizing. `BulkUpload.RoundTrip` therefore requires rows without line breaks.
- React state, effects and rendering are not modelled: the reset effects, the file picker's `f.text()`, the upload, `isEdit`, `onSaved`, the saving flag and the selectors' markup. The form's setters are its `Store` method.
- The network calls `api.post` and `api.put` are not modelled. `submit` is modelled up to the payload it would send.
- `normalizeField` (src/components/TextNormFormModal.jsx:56-60), the per-field normaliser run on blur, is not modelled. It is one normaliser call and one setter.
- `Array.isArray(p.types)` in `validate`: the payload's types are always a list here, so only the empty-list check remains.
- The pages, table components, authentication and API client are outside the model: fetch, timers, downloads and rendering.
