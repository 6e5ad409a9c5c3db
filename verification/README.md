# GRN PDF parser — parsing core in Dafny

A model of the parsing layer of a Streamlit app that turns Goods Receipt
Note (GRN) PDFs into spreadsheet rows. The model covers three things:

- `extract_grn_data`, which reads one document's text. It searches seven
  case-insensitive metadata patterns and derives the Challan number from
  the vendor invoice number. It then finds the `S No … Article` table
  header and scans item rows left to right from there. Each row's
  description has its whitespace cleaned.
- The batch loop's row fan-out. Each document gives one metadata-only
  row, or one row per item carrying the document's metadata and file name.
- The small `clean_text` helper.

Modules, one per file:

| file | module | contents |
|---|---|---|
| `base.dfy` | `Base` | `Option`, the character classes (`\s` is Python's full `str.isspace` set), greedy runs, case-insensitive labels, `str.strip` |
| `text_util.dfy` | `TextUtil` | `clean_text` as written and as intended |
| `metadata.dfy` | `Metadata` | the pattern table, one scanner per pattern, `re.search`, the metadata record |
| `description.dfy` | `Description` | `re.sub(r'\s+', ' ', raw.strip())` |
| `items.dfy` | `Items` | the item-row regular expression as an exact scanner, and `finditer` |
| `table.dfy` | `Table` | the table header, the item records, the item list |
| `grn.dfy` | `Grn` | `extract_grn_data` and its whole-function properties |
| `batch.dfy` | `Batch` | the per-document fan-out, the batch loop, rows as dicts |

Each regular expression is modelled as a scanner that makes the choices
Python's backtracking engine makes:

- greedy runs are maximal runs;
- the lazy `.*?` and `+?` try the shortest extent first;
- `\s*` before `([^\n]+)\n` gives characters back one at a time.

The item-row scanner is proved exact. `Items.RowAtComplete` shows it finds
a row at a position exactly when some reading of the nine-field row shape
starts there. `re.search` is modelled as it behaves: the match is at the
first text position where the *whole* pattern matches. That is not always
the first occurrence of the label. A `Consignee` with no colon after it
is skipped, and the search moves on to the next one. The two PO Date
alternatives are tried together at each position, so a bare `Date:` that
comes before a `PO Number … Date:` line in the text gives the PO Date,
even though the `PO Number` alternative is written first.

The text extractor (`extract_text_from_pdf`, a PDF library call that turns
any failure into `""`) is a function parameter `extract: seq<byte> -> string`
of the batch functions. Every behaviour it can have, including returning
the empty string, is covered. The batch loop is written for any parser
`parse: string -> GrnData`, since the fan-out does not depend on what the
parser returns; `Batch.ProcessGrnBatch` is the loop with
`Grn.ExtractGrnData` as the parser, as the app runs it.

## Model

| member | source | states |
|---|---|---|
| TextUtil.CleanText | app.py:268-269 | the cleaned text has no line feed or carriage return, is no longer than the input, has no surrounding whitespace, and keeps every visible character in order and every whitespace-separated word: a line break becomes a space, never nothing |
| TextUtil.ReplaceChar | app.py:269 | `replace` of one character by another: same length, each occurrence of the old character is the new one, every other character stays in place |
| TextUtil.ReplaceSpaceKeepsWords | app.py:269 | turning one whitespace character into another keeps the visible text and the words |
| TextUtil.LineBreaksToSpaces | app.py:269 | the two line-break `replace` calls leave no `\n` or `\r`, keep the length, trimmed ends, visible text and words |
| TextUtil.ReplaceDoubleSpace | app.py:269 | one `replace('  ', ' ')` pass: the result is at most as long as the input and at least half as long |
| TextUtil.ReplaceDoubleSpaceKeeps | app.py:269 | `replace('  ', ' ')` only drops spaces: visible characters, their order and non-space ends are kept, the empty string stays empty and nothing grows |
| TextUtil.ReplaceDoubleSpaceWords | app.py:269 | the pass keeps the whitespace-separated words, so it never joins two words |
| TextUtil.ReplaceDoubleSpaceConcat | app.py:269 | the pass works piecewise: cut after a non-space, the text's result is the two halves' results joined |
| TextUtil.ReplaceDoubleSpaceRun | app.py:269 | a leading run of n spaces, ended by a non-space or the end, becomes ⌈n/2⌉ spaces and the rest is replaced on its own; with the piecewise law this fixes the result of every input, cut into space runs each with the non-space after it |
| TextUtil.ReplaceDoubleSpaceHalves | app.py:269 | one `replace` pass turns a run of n spaces into ⌈n/2⌉ spaces rather than one |
| TextUtil.CleanTextKeepsDoubleSpace | app.py:269 | `clean_text("a    b")` is `"a  b"`: a double space survives |
| TextUtil.CleanTextCollapsed | app.py:268-269 | the intended clean-up: no line breaks, trimmed, no two adjacent whitespace characters, same visible text and same words |
| Base.RunEnd | app.py:288-294 | a greedy `P*` from a position consumes the maximal run: every character up to its end is in the class, and the end is the end of the text or a character outside it |
| Base.LabelAt | app.py:287-298 | a pattern's literal label at a position under `re.IGNORECASE`: the text there equals the label up to ASCII case |
| Base.Strip | app.py:269 | `str.strip` removes only leading and trailing whitespace: the result is a trimmed middle slice with the same visible text and the same words |
| Base.StripTrimmed | app.py:315 | stripping an already trimmed string changes nothing |
| Metadata.AfterSeparator | app.py:288-294 | the `\s*:` after a label: on success whitespace and then a colon, ending just after the colon; it fails exactly when the whitespace run is not followed by `:`; a label that ends in its own colon takes no separator |
| Metadata.LineFrom | app.py:291 | `([^\n]+)\n` at a position: the capture is the non-empty text from there up to a line feed; it fails only at a line feed, at the end, or on a last line with no line feed |
| Metadata.LineBack | app.py:291 | the consignee capture is the line read from the greatest give-back point of the leading whitespace that has one; it fails only if no give-back point leaves a line ended by `\n` |
| Metadata.CaptureAt | app.py:288-294 | the three capture kinds after `\s*`: a token or date is the text right after the whitespace run, a token ends at whitespace or the end and fails only at the end; a date is captured exactly when a `DD.MM.YYYY` date follows the whitespace run; a line gives back whitespace as above |
| Metadata.CaptureAtText | app.py:288-294 | every capture is text of the document that starts inside the whitespace run it follows |
| Metadata.SeparatedCapture | app.py:288-294 | a capture read after the separator is document text that follows the label after whitespace, one colon and whitespace |
| Metadata.DateFieldAt | app.py:293 | `Date\s*:\s*(\d{2}\.\d{2}\.\d{4})` at a position captures a date, with a `Date` label there |
| Metadata.DateFieldExact | app.py:293 | a `Date` field is at a position exactly when the label, whitespace, a colon, whitespace and a `DD.MM.YYYY` date follow one another there, and its value is that date |
| Metadata.DateFieldText | app.py:293 | that date is the text after the label's separator |
| Metadata.LazyDate | app.py:293 | the lazy `.*?` alternative captures a `DD.MM.YYYY` date, and only when a `Date` label occurs at or after the position |
| Metadata.LazyDateFirst | app.py:293 | the lazy `.*?` stays on its line and stops at the first `Date` field there: the capture is that field's date, and `None` means the rest of the line has no `Date` field |
| Metadata.LazyDateReaches | app.py:293 | the lazy gap crosses a stretch of one line that holds no `Date` field and captures the date of the field where the stretch ends |
| Metadata.LazyDateAt | app.py:293 | a lazy date comes from a `Date` field on the rest of the line |
| Metadata.PoDateHasDate | app.py:293 | both alternatives of the PO Date pattern need a `Date` label in the text |
| Metadata.MatchAt | app.py:287-295 | a match of a pattern at a position captures a value of the pattern's shape (token, date or line), and the text there starts with the pattern's label (for PO Date: `PO Number`, or `Date` not preceded by a visible character) |
| Metadata.LabelledText | app.py:288-294 | a labelled pattern's capture is document text that follows the label and its separator |
| Metadata.PoDateText | app.py:293 | a PO Date capture is the date after a `Date` label's separator, where the label is at the match position or on the rest of the line of the `PO Number` label the match starts with |
| Base.FirstSome | app.py:298 | the search result is the least index from the start that holds a value; `None` means no index does |
| Metadata.SearchFrom | app.py:298 | `re.search` returns the least matching position and its capture; `None` means no position matches |
| Metadata.Field | app.py:297-300 | a field is the capture of the first match of its pattern and `None` when there is none |
| Metadata.FirstCaptureUnique | app.py:298 | the capture of the first match is determined by the text |
| Metadata.ExtractMetadata | app.py:282-303 | each of the seven fields is the first capture of its own pattern, every captured value has its pattern's shape, and Challan No equals Vendor Invoice No |
| Metadata.Truthy | app.py:302 | Python truthiness of a field value: set and non-empty |
| Metadata.MetadataUnique | app.py:282-303 | any record meeting that description is the one the function returns |
| Metadata.FieldNeedsLabel | app.py:287-300 | a set field implies its label occurs in the text |
| Description.Collapse | app.py:315 | `re.sub(r'\s+', ' ', …)` leaves no two adjacent whitespace characters and only plain spaces, and keeps the ends' kind |
| Description.CollapseWords | app.py:315 | collapsing keeps the whitespace-separated words; with the single-plain-space form and the ends this fixes the result |
| Description.CollapseKeepsText | app.py:315 | collapsing keeps the visible characters in order, adds nothing but spaces, and never lengthens |
| Description.CollapseFixes | app.py:315 | a string already in single-plain-space form is unchanged |
| Description.NormalizeKeepsClass | app.py:311-315 | cleaning a capture drawn from a class that contains the space stays inside that class |
| Description.Normalize | app.py:315 | the cleaned description is trimmed, has single plain spaces, keeps the visible text and the words of the capture and stays in the `[\w\s.\-%#]` alphabet |
| Description.NormalizeCanonical | app.py:315 | a description already trimmed with single plain spaces is left as it is |
| Description.NormalizeIdempotent | app.py:315 | cleaning a cleaned description changes nothing |
| Items.RowShapeBounds | app.py:311 | a row covers at least seventeen characters and ends inside the text |
| Items.WordBoundary | app.py:311 | `\b` at a position: a word character on exactly one side of it |
| Items.Greedy | app.py:311 | consecutive greedy runs are non-empty, maximal and adjacent |
| Items.GreedyComplete | app.py:311 | maximal runs are exactly what the greedy scan finds |
| Items.LastBoundary | app.py:311 | the MRP `[\d.]+\b` ends at the last word boundary the greedy run can give back to |
| Items.EanFrom | app.py:311 | from the EAN on, a match has exactly 13 digits, then UoM, three quantities and the MRP ending at a word boundary |
| Items.Tail | app.py:311 | `\s+(\d{13})…\b` after a description: non-empty whitespace, then the EAN and the fields after it |
| Items.TailChoice | app.py:311 | the tail takes the whole whitespace run and reads the EAN where it stops |
| Items.EanFromChoice | app.py:311 | the EAN scan's reading is fixed: UoM and quantities are maximal runs, the MRP the longest digits-and-dots run ending at a word boundary |
| Items.LazyEnd | app.py:311 | the lazy `+?` ends at the least position in range after which a tail follows; `None` when no position in range has one |
| Items.LazyEndIs | app.py:311 | the lazy end is `x` if and only if a tail follows `x` and none follows an earlier end |
| Items.LazyDescription | app.py:311 | the lazy description ends at the least position after which the rest of the row matches, and the tail read there is the result |
| Items.DescriptionFrom | app.py:311 | from where the whitespace ends, the description is the shortest run of description characters after which a tail follows; `None` means no end in that run has one |
| Items.DescriptionOn | app.py:311 | the description is a non-empty run of `[\w\s.\-%#]` between whitespace and a valid tail; when it starts where the whitespace run ends it is the shortest one, and otherwise no end after that run works and the description is the one whitespace character two before it |
| Items.RowAt | app.py:311 | a row found at a position is a reading of the nine-field row shape starting there, with maximal S No, Article and gap, and the description chosen as above |
| Items.RowAtComplete | app.py:311 | the scanner finds a row at a position if and only if some reading of the row shape starts there |
| Items.NextRow | app.py:313 | the next match is at the least position from which a row starts, and it is the reading the row pattern makes there |
| Items.FindAll | app.py:313 | `finditer` returns leftmost rows, each the reading the row pattern makes at its start, each starting where the previous ended or later, none overlapping, with no row start skipped between them |
| Items.ScanEmpty | app.py:313 | `finditer` returns no row exactly when no row starts from the position on |
| Items.ScanUnique | app.py:313 | the rows `finditer` returns are fixed by the text: two row lists that both meet its description are equal |
| Table.HeaderAt | app.py:306 | the greedy scan for `S No\s+Article` succeeds at a position exactly when some split of the whitespace makes the header match there |
| Table.TableStart | app.py:306 | the table starts at the least position where the header matches; `None` when none does |
| Table.ToItem | app.py:315-326 | an item from a row has digit-string S No, Article and quantities, a 13-digit EAN, a word UoM, a digits-and-dots MRP, and a clean description with the capture's visible text and words |
| Table.ToItemFields | app.py:315-326 | the row's cut points increase inside the text, and each column of the item is the text of its field, the description cleaned |
| Table.RowItems | app.py:313-326 | one item per row, in row order: item i is the record built from row i, and it is well shaped |
| Table.RowItemsScanned | app.py:308-326 | the items come from a left-to-right, non-overlapping scan of the text from the header on, one per row |
| Table.ExtractItems | app.py:305-326 | no header gives no items; otherwise the items are those of the scan from the first header, each row the reading the row pattern makes at its start; every item is well shaped |
| Table.ScannedItemsUnique | app.py:313-326 | two item lists scanned from the same text are equal |
| Table.TableItemsUnique | app.py:305-326 | any item list meeting that description is the one the function returns |
| Grn.ExtractGrnData | app.py:281-328 | the pair of the metadata record (first matches, shapes, Challan) and the item list (scan from the first header) |
| Grn.ExtractGrnDataUnique | app.py:281-328 | any metadata record and item list meeting those two descriptions are the pair the function returns |
| Grn.SetFieldsHaveLabels | app.py:287-303 | a metadata field, Challan included, is set only if the label of its pattern occurs in the text |
| Grn.NoLabelsNoData | app.py:282-308 | a text containing none of the labels gives the all-`None` record and no items |
| Grn.EmptyText | app.py:282-308 | the empty text, which an unreadable PDF becomes, gives the all-`None` record and no items |
| Grn.FirstAtStart | app.py:297-300 | a match at position 0 is the field's value |
| Grn.GrnNoExample | app.py:288 | `GOODS RECEIPT NOTE No.: GRN1234` yields GRN No `GRN1234` |
| Grn.ChallanExample | app.py:290-303 | `Vendor invoice no : INV555` yields Vendor Invoice No and Challan No `INV555` |
| Grn.DateExample | app.py:289-293 | `Date: 05.06.2023` yields GRN Date `05.06.2023`, and the same PO Date through the pattern's second alternative |
| Grn.PoDateExample | app.py:293 | `PO Number: P1 Date: 05.06.2023` yields PO Date `05.06.2023` through the lazy first alternative |
| Grn.ItemExample | app.py:305-326 | a header line and the row `1 2001 Widget Blue #5 1234567890123 PCS 10 10 10 99.50` give exactly one item, with description `Widget Blue #5`, EAN `1234567890123` and MRP `99.50` |
| Batch.ItemRows | app.py:418-421 | row i carries item i with the document's metadata and file name |
| Batch.DocumentRows | app.py:413-421 | a document gives max(1, k) rows, all with its metadata and file name: one metadata-only row when it has no items, otherwise one row per item in item order |
| Batch.CarriedItemRows | app.py:418-421 | the item rows give back the item list |
| Batch.DocumentRowsInverse | app.py:413-421 | a document's rows give back exactly its item list, the empty list included |
| Batch.Parse | app.py:410-411 | the rows of a parsed upload carry its file name and the metadata of its extracted text, and give back the parser's item list |
| Batch.ParseAll | app.py:407-412 | every upload is parsed from its extracted text, one document per upload, in upload order |
| Batch.RowsOf | app.py:413-421 | the rows of a document give back its item list |
| Batch.RowsAppend | app.py:407-421 | the rows of two runs of documents are the first run's rows followed by the second's, and the row counts add up |
| Batch.RowsBlock | app.py:407-421 | the rows of document k are the block that starts after the rows of all earlier documents: each upload's rows stay together, in upload order |
| Batch.RowCount | app.py:407-421 | the row count of a batch is the sum over documents of max(1, k) |
| Batch.BatchRowsSnoc | app.py:407-421 | processing one more upload appends exactly its document's rows |
| Batch.AppendItemRows | app.py:418-421 | the inner loop appends one row per item, in order |
| Batch.ProcessUpload | app.py:410-421 | one pass of the loop appends exactly the rows of the parsed upload |
| Batch.RowsNamed | app.py:413-421 | every row carries the file name of one of the documents |
| Batch.ProcessBatch | app.py:407-421 | for any parser, the loop as written produces the batch rows (each upload's rows as one block, in upload order), and their number is the sum of max(1, k) |
| Batch.ProcessGrnBatch | app.py:407-421 | the app's loop, with `extract_grn_data` as the parser, produces the batch rows, their number is the sum of max(1, k), and every row names one of the uploaded files |
| Batch.KeysDisjoint | app.py:282-326 | the eight metadata keys, the nine item keys and `file_name` are pairwise distinct |
| Batch.RowDict | app.py:414-420 | the merged row dict has the metadata keys, the item keys when there is an item, and `file_name`, and every metadata value, item value and the file name survive the merge |
| Batch.RowDictMetadata | app.py:414-420 | the merged row dict keeps every metadata value and the file name |
| Batch.RowDictItem | app.py:420 | the merged row dict keeps every item value |
| Batch.RowDictNoItem | app.py:414-417 | a metadata-only row dict has exactly the metadata keys and the file name key; no item column is among them |
| Batch.RowDictRoundTrip | app.py:414-420 | a row can be read back whole from its dict: the merge overwrites nothing |

## Left out

- `extract_text_from_pdf` (app.py:271-279) is a call into the PDF library. It is the parameter `extract`, with no assumption about its results.
- The Streamlit interface is not modelled. That covers markup, session state, progress bar, `time.sleep`, upload metrics and success rate. It is presentation and floating-point display.
- Building the pandas DataFrame and the Excel export are library calls. Rows are modelled as records and as dicts. Column order and the missing-column fill are not modelled.
- The `defaultdict(lambda: "")` of a metadata-only row makes absent keys read as `""`. Only the keys present are modelled, because that is all the DataFrame sees.
- Character classes are approximated:
  - `\d` and `\w` are ASCII only. Python's `str` patterns also accept other Unicode digits and letters.
  - `re.IGNORECASE` folds ASCII letters only.
  - `\s` and `str.strip` use the full `str.isspace` set.
- `match.group(1) or match.group(2)` is the capture of whichever PO Date alternative matched. For every other pattern the `or` never reaches `group(2)`, because a capture is never empty.
- Idempotence of `extract_grn_data` is not stated as a lemma. Every member is a pure function, so two calls on the same text are equal by construction.
- Table.ToItem: the description can be empty. With three or more whitespace characters between the Article and the EAN, the regular expression reads one of them as the description, which cleans to `""`. `ItemShape` allows this.

## Findings

| source | as written | input that shows it | evidently intended | confidence | as-written member | corrected member |
|---|---|---|---|---|---|---|
| app.py:269 | `.replace('  ', ' ')` is one non-overlapping pass, so a run of n spaces becomes ⌈n/2⌉ spaces; `clean_text` is defined at app.py:268 but never called in app.py, so the halving does not reach the exported rows | `"a    b"` becomes `"a  b"` | runs of whitespace collapse to one space, as the description clean-up at app.py:315 does | medium; not executed | TextUtil.CleanTextKeepsDoubleSpace | TextUtil.CleanTextCollapsed |
