# OCR PDF converter — verified model of the text paginator

The script `ocr_to_pdf_converter.py` converts every scanned PDF of an input
folder into a text PDF. Each page is rasterised and run through OCR. The
per-page texts are joined into one string, and each page's text comes after a
`--- Page i ---` header. That string is then written onto letter-size pages,
one line below the other. A new page starts whenever the vertical cursor reaches
the bottom margin.

This project models that logic in Dafny and proves what it does:

- `splitlines.dfy` (module `LineSplit`): Python's `str.splitlines()`. It splits at all of
  Python's line boundaries (LF, CR, CR LF as one boundary, VT, FF, 0x1C–0x1E,
  NEL, U+2028, U+2029). A final boundary does not give a trailing empty line.
- `paginator.dfy` (module `Paginator`): `create_text_pdf`. It is an imperative method whose loop keeps a
  cursor, the open page and the sealed pages. It is proved equal to a
  reference layout: consecutive chunks of 60 lines, the k-th line of
  a page at `752 - 12k`. The properties are proved about that layout:
  lines kept in order, the cursor bound, the positions, 60 lines per page, the
  page count `ceil(n/60)`, no empty sealed page, and one empty page for empty text.
- `ocr_text.dfy` (module `OcrText`): the accumulation loop of `ocr_pdf_to_text`, with
  the OCR results given as input. It is proved equal to a function over the per-page
  texts, and the shape of its lines is proved.
- `output_names.dfy` (module `OutputNames`): the `.pdf` filter and the output name
  `splitext(name)[0] + "_ocr.pdf"`. This uses POSIX `splitext` semantics: the last dot, and leading dots do not
  count.
- `converter.dfy` (module `Converter`): the main loop. The output folder is a map from
  file name to the document last saved under it. It starts from whatever the
  folder already held, because the script creates it only when it is missing and
  never empties it. The keys, the "last writer wins" contents and the files left
  untouched are proved.

The geometry is the script's: page height 792, margin 40, first cursor
position 752, pitch 12 (reportlab's default leading for the 10 pt font is
1.2 × 10 = 12 as well, so the text object and the script's cursor agree). The
cursor test `y <= 40` happens before each line. So a page takes lines at
752, 740, …, 44, which is exactly 60 lines (`CapacityIsSixty`).

Consequences of the code as written:
- A full page holds 60 lines, so 150 lines give pages of 60, 60 and 30 lines.
- `""` gives one page with no lines, because `"".splitlines()` is `[]`.
- `"\n"` gives one page holding one empty line.
- The geometry is fixed and never checked, so there is no error path for it.

## Model

| member | source | states |
|---|---|---|
| `LineSplit.IsLineBreak` | ocr_to_pdf_converter.py:51 | the characters `splitlines` ends a line at: LF, VT, FF, CR, 0x1C–0x1E, NEL, U+2028 and U+2029 |
| `LineSplit.SplitLines` | ocr_to_pdf_converter.py:51 | `text.splitlines()`: the text up to the first boundary is a line, a CR LF pair is one boundary, the rest is split again, and the empty rest gives no further line |
| `LineSplit.FirstBreak` | ocr_to_pdf_converter.py:51 | the scan for the end of the first line stops at a line boundary, or at the end of the text |
| `LineSplit.FirstBreakIsFirst` | ocr_to_pdf_converter.py:51 | no boundary comes before the one `FirstBreak` finds |
| `LineSplit.TerminatorLength` | ocr_to_pdf_converter.py:51 | a boundary is one character, except CR LF, which is one boundary of two characters |
| `LineSplit.SplitLinesHaveNoBreaks` | ocr_to_pdf_converter.py:51 | no line produced by `splitlines` contains a boundary character |
| `LineSplit.SplitLinesEmptyIff` | ocr_to_pdf_converter.py:51 | the text has no lines exactly when it is empty |
| `LineSplit.SplitLinesCons` | ocr_to_pdf_converter.py:51 | a break-free line followed by LF is the first line, and the rest is split independently |
| `LineSplit.SplitLinesPrefix` | ocr_to_pdf_converter.py:51 | LF-terminated break-free lines at the front of any text come out as its first lines |
| `LineSplit.SplitJoinTerminated` | ocr_to_pdf_converter.py:51 | round trip: LF-terminated break-free lines split back into exactly those lines (no trailing empty line) |
| `LineSplit.SplitLinesSingle` | ocr_to_pdf_converter.py:51 | a non-empty break-free text is one line, with or without a final LF |
| `Paginator.CapacityIsSixty` | ocr_to_pdf_converter.py:42-60 | the cursor `752 - 12k` is above the margin exactly for k < 60, so a page holds 60 lines |
| `Paginator.Layout` | ocr_to_pdf_converter.py:51-62 | the reference pagination the loop is proved against: consecutive pages of 60 lines each, the last holding the remaining 0 to 60 |
| `Paginator.Place` | ocr_to_pdf_converter.py:56-60 | a page holds one placement per line, the k-th of them at `752 - 12k` |
| `Paginator.CreateTextPdf` | ocr_to_pdf_converter.py:34-63 | the loop with its cursor, open page and `showPage` sealing yields exactly the reference layout of `text.splitlines()` |
| `Paginator.PlaceSnoc` | ocr_to_pdf_converter.py:59-60 | placing one more line on a page puts it one pitch below the previous one |
| `Paginator.LayoutSnoc` | ocr_to_pdf_converter.py:51-60 | one more line goes onto the last page at the cursor if that page is not full, otherwise onto a new page at the top |
| `Paginator.LayoutPreservesLines` | ocr_to_pdf_converter.py:51-59 | the pages' lines concatenated give back the input lines in order, with none dropped or duplicated |
| `Paginator.LayoutPositions` | ocr_to_pdf_converter.py:44-60 | the k-th line of every page is at `y = 752 - 12k`, and `40 < y <= 752` |
| `Paginator.LayoutPageSize` | ocr_to_pdf_converter.py:53-60 | no page holds more than 60 lines |
| `Paginator.LayoutShape` | ocr_to_pdf_converter.py:42-63 | all pages but the last hold 60 lines, the last 1 to 60, the page count is `ceil(n/60)` for n ≥ 1, and no lines give one empty page |
| `Paginator.LayoutPagesNonEmpty` | ocr_to_pdf_converter.py:51-55 | when there is at least one line, no page is empty, because a page is sealed only right before a line goes onto the next one |
| `Paginator.CreateTextPdfDegenerate` | ocr_to_pdf_converter.py:51-63 | `""` gives one page with no lines, and `"\n"` gives one page with one empty line at the top |
| `Paginator.CreateTextPdfLines` | ocr_to_pdf_converter.py:51-59 | the document carries exactly `text.splitlines()`, in order, and no placed line contains a line boundary |
| `Paginator.LayoutLineOrigin` | ocr_to_pdf_converter.py:51-60 | line k of page p is input line `60p + k` |
| `OcrText.Digit` | ocr_to_pdf_converter.py:31 | a digit value becomes a decimal digit character |
| `OcrText.NatToString` | ocr_to_pdf_converter.py:31 | the page number in the f-string is written as non-empty decimal digits with no leading zero |
| `OcrText.ParseNatToString` | ocr_to_pdf_converter.py:31 | the page number in the header reads back as that number |
| `OcrText.PageHeader` | ocr_to_pdf_converter.py:31 | the header line `--- Page i ---`, with `i` written in decimal |
| `OcrText.Section` | ocr_to_pdf_converter.py:31 | the piece appended for page `i`: two LFs, the header, one LF, then the page's OCR text |
| `OcrText.Assembled` | ocr_to_pdf_converter.py:26-32 | the reference text the loop is proved against: the sections of pages 1 to N concatenated in page order |
| `OcrText.OcrPdfToText` | ocr_to_pdf_converter.py:26-32 | the `+=` loop returns the sections `"\n\n--- Page i ---\n" + text_i` concatenated in page order |
| `OcrText.PageHeaderHasNoBreaks` | ocr_to_pdf_converter.py:31 | a page header is one line, with no boundary inside |
| `OcrText.AssembledEmptyIff` | ocr_to_pdf_converter.py:26-32 | the result is `""` exactly when there are no pages |
| `OcrText.AssembledPrefix` | ocr_to_pdf_converter.py:27-31 | the text for the first k pages is a prefix of the text for all pages |
| `OcrText.SectionsFrom` | ocr_to_pdf_converter.py:27-31 | the sections of pages i+1 to N, in page order, as the loop appends them after page i |
| `OcrText.AssembledStep` | ocr_to_pdf_converter.py:27-31 | one more iteration of the loop appends page i+1's section behind the text of the pages before it |
| `OcrText.AssembledSplit` | ocr_to_pdf_converter.py:26-32 | the whole text is the sections of the first i pages followed by the sections of the remaining pages |
| `OcrText.AssembledSection` | ocr_to_pdf_converter.py:27-31 | the whole text is the sections of pages 1 to i-1, then page i's section, then exactly the sections of the later pages |
| `OcrText.SplitLinesSection` | ocr_to_pdf_converter.py:31 | a section splits into two empty lines, the header line, and the lines of what follows it |
| `OcrText.AssembledLinesStart` | ocr_to_pdf_converter.py:26-31 | for one page or more, `splitlines()` of the result starts with `""`, `""`, `"--- Page 1 ---"` |
| `OutputNames.LowerChar` | ocr_to_pdf_converter.py:67 | lower-casing keeps a character or maps an upper-case ASCII letter to its lower-case form, and never yields an upper-case letter |
| `OutputNames.Lower` | ocr_to_pdf_converter.py:67 | lower-casing keeps the length of the name |
| `OutputNames.EndsWith` | ocr_to_pdf_converter.py:67 | `s.endswith(suffix)`: `s` is at least as long as `suffix` and its last characters, as many as `suffix` has, are `suffix` |
| `OutputNames.IsPdfName` | ocr_to_pdf_converter.py:67 | the filter `filename.lower().endswith('.pdf')` |
| `OutputNames.IsPdfNameIff` | ocr_to_pdf_converter.py:67 | a name is processed exactly when it ends in `.` followed by p, d and f in either case |
| `OutputNames.RFind` | ocr_to_pdf_converter.py:73 | `rfind` gives the last index holding the character, or -1 when the character is absent |
| `OutputNames.RFindAt` | ocr_to_pdf_converter.py:73 | `rfind` returns the position of a character when none follows it |
| `OutputNames.RFindAfter` | ocr_to_pdf_converter.py:73 | no position after the one `rfind` returns holds the character |
| `OutputNames.LastDotBeforeThree` | ocr_to_pdf_converter.py:73 | a dot followed by three non-dots is the last dot of the name |
| `OutputNames.RFindAbsent` | ocr_to_pdf_converter.py:73 | `rfind` of an absent character is -1 |
| `OutputNames.SplitExt` | ocr_to_pdf_converter.py:73 | `splitext` splits the name into root and extension, which concatenate back to the name |
| `OutputNames.SplitExtExtension` | ocr_to_pdf_converter.py:73 | the extension is empty, or a dot followed by characters that are neither dots nor `/`; it is empty exactly when no dot of the last path component comes after a character of that component other than a dot |
| `OutputNames.OutputName` | ocr_to_pdf_converter.py:73 | the output name always passes the `.pdf` filter itself |
| `OutputNames.PdfNameLastDot` | ocr_to_pdf_converter.py:67-73 | in a processed name, the last dot is the dot of the `.pdf` suffix |
| `OutputNames.PdfOutputName` | ocr_to_pdf_converter.py:73 | a processed directory entry loses exactly its last four characters, unless only dots precede them, and then gets `_ocr.pdf` |
| `OutputNames.OutputNameOfStem` | ocr_to_pdf_converter.py:67-73 | `stem + ext` gives `stem + "_ocr.pdf"` for every case spelling of `.pdf` (e.g. `a.PDF` gives `a_ocr.pdf`) |
| `OutputNames.OutputNameOfDotName` | ocr_to_pdf_converter.py:67-73 | a name of only dots before its `.pdf`, such as `.pdf`, keeps its whole name before `_ocr.pdf` |
| `Converter.Render` | ocr_to_pdf_converter.py:70-77 | the document saved for a PDF: the assembled OCR text, split into lines and laid out |
| `Converter.FolderAfter` | ocr_to_pdf_converter.py:66-77 | the reference folder the loop is proved against: starting from the existing files, each filtered entry in listing order stores its rendering under its output name |
| `Converter.ConvertFolder` | ocr_to_pdf_converter.py:66-78 | the main loop, started on the files the output folder already holds, leaves it holding that plus the rendering of each filtered entry, saved in listing order |
| `Converter.FolderAfterNames` | ocr_to_pdf_converter.py:66-74 | an output file exists exactly when it was already there or is the output name of an entry that passes the filter |
| `Converter.FolderAfterContents` | ocr_to_pdf_converter.py:66-77 | under each written name is the document of the last entry in listing order that maps to it |
| `Converter.FolderAfterLast` | ocr_to_pdf_converter.py:73-77 | the last entry, when it passes the filter, is saved under its output name |
| `Converter.FolderAfterOther` | ocr_to_pdf_converter.py:73-77 | saving an entry leaves every other file of the folder, and whether it exists, as it was |
| `Converter.NoLaterWriterInFront` | ocr_to_pdf_converter.py:66-73 | an entry no later entry overwrites stays so when the listing loses its last entry |
| `Converter.FolderAfterKeeps` | ocr_to_pdf_converter.py:15-16 | a file already in the folder that no filtered entry maps to keeps its contents |
| `Converter.SavedDocumentsAreLayouts` | ocr_to_pdf_converter.py:66-77 | every document this run saves carries exactly the OCR text's lines, at most 60 per page |

## Left out

- Rasterisation (`convert_from_path`) and OCR (`image_to_string`) are foreign calls. The per-page OCR texts are an input: a sequence for `OcrPdfToText`, and a function of the file name for `ConvertFolder`.
- reportlab drawing is modelled only as page bookkeeping: a page is its sequence of (y, line) placements. `beginText`, the font setting, `drawText`, `showPage` and `save` are covered only as that bookkeeping. Font metrics, glyphs, the constant x position 40 and the PDF bytes are not modelled.
- Long lines are never wrapped by the source, so no wrapping is modelled.
- Filesystem work is left out: creating the output folder, listing the input folder, joining paths and writing files. The folder listing is an input sequence in whatever order the host returns it. The output folder is a map. It starts from the files an earlier run left there, and those are taken to be documents whatever they hold.
- The `print` progress messages are left out.
- reportlab gives the page height as a float (792.0). All coordinates here are integers. Every value involved is a whole number, so the two agree.
- Exceptions from OCR or file I/O abort the run in the source. The model has no failure path for them.
- `OutputNames.Lower`: only ASCII A–Z is lower-cased, whereas Python applies full Unicode lower-casing. Only characters that lower-case to a dot or to p, d or f affect the `.pdf` test, and those are exactly the ASCII ones used here.
- `OutputNames.SplitExt`: only the POSIX rules (separator `/`) are modelled. Windows `ntpath` (the `\` separator and drive letters) is not.
