# Chinese PDF text extraction: a verified model of the text pipeline

The two `pdf_pro_parser_chinese_*` scripts pull Chinese text out of a PDF. They
take the text layer of each page and fall back to OCR for pages that have none.
Then they clean the text, cut it into paragraphs (horizontal) or lines
(vertical), and write a JSON report and a plain-text report. The PDF layout
parser, the rasteriser and the OCR engine are outside libraries. What the
scripts do themselves is string processing. That string processing is modelled
here as functions and methods on `seq<char>`, with its properties proved.

The two scripts are near-duplicates. Each has its own modules:

- `Chars` (chars.dfy): the character classes.
  - `IsSpace` is Python's `str.isspace`. It is the same set as `\s` in a `re`
    pattern and as what `str.strip()` removes.
  - `IsDigit` is the `\d` class (Unicode `Nd`).
  - There is one whitelist per script, taken as the regex literal actually
    parses. Inside the character class, `""''` closes one Python string
    literal and opens the next. Python then joins the adjacent literals. So the
    ASCII `"` is whitelisted and the ASCII `'` is not.
  - The vertical whitelist adds 「」『』. Its last literal is not raw, so it also
    holds a real newline, which is whitespace anyway.
- `Strings` (strings.dfy): the Python string operations the scripts use,
  written on `seq<char>`:
  - filtering by a character class, which is what `re.sub` of a negated class
    with `''` does;
  - `str.strip()`, `str.split(c)`, `sep.join`, `''.join`.
- `HorizontalCleaner` (horizontal_cleaner.dfy): `TextCleaner.clean_text` of the
  horizontal script. It is four substitutions, in order:
  1. the whitelist filter;
  2. collapsing each whitespace run to a single space;
  3. deleting `\d+\s*頁`;
  4. `strip`.
- `HorizontalOrganizer` (horizontal_organizer.dfy): `TextCleaner.organize_content`
  of the horizontal script.
  - It is built from three pieces: the capturing `re.split`, the
    `zip`/`join` re-pairing, and the cleaning of the non-blank pieces.
  - The merging loop is an imperative method (`MergeShortSentences`). It is
    proved against a grouping function, `Blocks`.
  - `Blocks` is in turn proved to be the unique split into single sentences of
    at least 15 code points and maximal runs of shorter ones.
- `VerticalCleaner` (vertical_cleaner.dfy): three parts of the vertical script:
  - its `clean_text`: the whitelist filter, then deletion of all whitespace;
  - its `organize_content`: the lines, stripped, with blank lines dropped;
  - the whitelist filter that its `_ocr_page` applies.
- `Pages` (pages.dfy): code both scripts share.
  - The page records of `hybrid_parse`.
  - The OCR fallback, as a function over any `organize` function.
  - The loops of `export_report` that collect the texts of a page.
- `Report` (report.dfy): the text-report path `rsplit('.', 1)[0] + '.txt'` and
  the title line.
- `HorizontalParser` / `VerticalParser`: each script's `_ocr_page`, the merge
  loop of `hybrid_parse`, and `export_report`.
  - The merge loop updates an `array` of page records in place.
  - `export_report` accumulates the report text in a loop.
  - Each method is proved against a specification function. Lemmas state what
    the resulting pages and report look like.

Observations the proofs establish:

- In the horizontal `clean_text`, the page-number deletion never matches. The
  whitelist has already removed every digit. (`PageNumberStepIsInert`)
- In both `export_report`s, the `if para.strip()` test never skips anything.
  (`BlankTestIsRedundant`)
- The vertical `organize_content` is stable under re-joining its lines with
  `"\n"`. So the per-page re-organisation in `export_report` writes exactly the
  lines stored in `ocr_content`. Text blocks are whitespace-free, as
  `clean_text` makes them, and they come out one per line. (`OcrPageParagraphs`,
  `TextPageParagraphs`)
- The text report overwrites the JSON report exactly when the output path
  already ends in `.txt`. (`TxtPathOverwrites`)

Inputs that come from libraries are parameters of the model:

- The text blocks of every page, as PDFMiner and `_extract_text_blocks` give
  them.
- The outcome of OCR on every page image: recognised text or a `TesseractError`.

`hybrid_parse` rasterises and runs OCR on every page image. `zip` pairs the
results with the pages by position, and a result is used only for a page with no
non-blank text block. That is what is modelled.

## Model

| member | source | states |
|---|---|---|
| `Chars.WhitelistsExcludeDigitsAndLetters` | pdf_pro_parser_chinese_horizontal.py:39 | neither whitelist (horizontal :39, vertical :38/:81, as the literals parse) admits a digit of `\d` or an ASCII letter |
| `Strings.Strip` | pdf_pro_parser_chinese_horizontal.py:45 | `str.strip()` is the slice between the leading and trailing whitespace; it is empty iff the input is blank, has no whitespace at either end, and leaves a trimmed string alone |
| `Strings.Filter` | pdf_pro_parser_chinese_horizontal.py:39 | `re.sub` of a negated character class with `''` keeps only characters of the class and never lengthens the string |
| `HorizontalCleaner.CollapseSpaces` | pdf_pro_parser_chinese_horizontal.py:41 | `re.sub(r'\s+', ' ', ·)` leaves only single ASCII spaces as whitespace, empty iff the input is, and starts with whitespace iff the input does |
| `HorizontalCleaner.CollapseKeepsClass` | pdf_pro_parser_chinese_horizontal.py:41 | the collapse introduces no character except `' '`, so any class holding the space and all input characters holds all output characters |
| `HorizontalCleaner.CollapseRun` | pdf_pro_parser_chinese_horizontal.py:41 | a maximal whitespace run, of any length and any whitespace characters, becomes exactly one `' '` and the text on both sides collapses independently |
| `HorizontalCleaner.CollapseAppend` | pdf_pro_parser_chinese_horizontal.py:41 | at a seam after a non-whitespace character, the collapse of `a + b` is the collapse of `a` followed by the collapse of `b` |
| `HorizontalCleaner.CollapseKeepsNonSpace` | pdf_pro_parser_chinese_horizontal.py:41 | collapsing whitespace keeps every non-whitespace character, in order |
| `HorizontalCleaner.CollapseFixesNormalized` | pdf_pro_parser_chinese_horizontal.py:41 | a string whose whitespace is already single spaces is unchanged by the collapse |
| `HorizontalCleaner.PageNumberMatch` | pdf_pro_parser_chinese_horizontal.py:43 | at a non-empty run of digits, then any whitespace, then `頁`, the match of `\d+\s*頁` covers exactly that prefix |
| `HorizontalCleaner.StripPageNumberMark` | pdf_pro_parser_chinese_horizontal.py:43 | a digits, whitespace, `頁` prefix is deleted whole and the substitution continues on the rest |
| `HorizontalCleaner.StripPageNumbersWithoutDigits` | pdf_pro_parser_chinese_horizontal.py:43 | the page-number substitution changes nothing in a string without digits |
| `HorizontalCleaner.PageNumberStepIsInert` | pdf_pro_parser_chinese_horizontal.py:39-43 | after the whitelist and the collapse, the page-number substitution never matches |
| `HorizontalCleaner.CleanTextWhitelisted` | pdf_pro_parser_chinese_horizontal.py:36-46 | `clean_text` returns only whitelisted characters, so no digit and no ASCII letter |
| `HorizontalCleaner.CleanTextSpacing` | pdf_pro_parser_chinese_horizontal.py:41-45 | `clean_text` output has no whitespace at either end, its only whitespace is `' '`, and no two spaces are adjacent |
| `HorizontalCleaner.CleanTextContent` | pdf_pro_parser_chinese_horizontal.py:39-45 | the non-space characters of `clean_text(t)` are exactly the whitelisted non-whitespace characters of `t`, in order, and the output is no longer than `t` |
| `HorizontalCleaner.CleanTextFixedPoints` | pdf_pro_parser_chinese_horizontal.py:36-46 | `clean_text(s) == s` iff `s` is whitelisted, single-spaced and trimmed |
| `HorizontalCleaner.CleanTextIdempotent` | pdf_pro_parser_chinese_horizontal.py:36-46 | `clean_text(clean_text(t)) == clean_text(t)` |
| `HorizontalOrganizer.SplitAtSentenceEnds` | pdf_pro_parser_chinese_horizontal.py:52 | `re.split(r'([。！？])', t)` alternates terminator-free pieces with single captured terminators, and the pieces concatenate back to `t` |
| `HorizontalOrganizer.PairTerminatorsShape` | pdf_pro_parser_chinese_horizontal.py:54 | the `zip(parts[::2], parts[1::2] + [''])` re-pairing yields complete sentences and a final terminator-free piece, and loses nothing |
| `HorizontalOrganizer.SentencePieces` | pdf_pro_parser_chinese_horizontal.py:52-54 | every sentence piece but the last ends with exactly one of `。！？`, which is its only terminator; the last has none; the pieces concatenate to the text |
| `HorizontalOrganizer.CleanSentencesAreClean` | pdf_pro_parser_chinese_horizontal.py:56 | every cleaned sentence is a fixed point of `clean_text` (whitelisted, single-spaced, trimmed) |
| `HorizontalOrganizer.CleanSentencesContent` | pdf_pro_parser_chinese_horizontal.py:56 | dropping blank pieces and cleaning the rest keeps exactly the whitelisted non-whitespace characters, in order |
| `HorizontalOrganizer.BlocksDecompose` | pdf_pro_parser_chinese_horizontal.py:59-72 | the grouping lays the sentences end to end, each group being one sentence of length ≥ 15 or a run of sentences of length < 15, with no two runs adjacent |
| `HorizontalOrganizer.BlocksUnique` | pdf_pro_parser_chinese_horizontal.py:62-72 | that decomposition is unique: any grouping with those properties is the one the loop builds |
| `HorizontalOrganizer.MergeShortSentences` | pdf_pro_parser_chinese_horizontal.py:59-72 | the `current_para`/`paragraphs` loop returns the join of each group, in order |
| `HorizontalOrganizer.OrganizeContent` | pdf_pro_parser_chinese_horizontal.py:49-74 | `organize_content` returns the non-blank joined groups of the cleaned sentences |
| `HorizontalOrganizer.OrganizeParagraphsClean` | pdf_pro_parser_chinese_horizontal.py:56-74 | every returned paragraph is non-empty and clean, so holds no newline |
| `HorizontalOrganizer.OrganizeConcat` | pdf_pro_parser_chinese_horizontal.py:56-74 | the paragraphs concatenate to exactly the cleaned sentences concatenated: nothing reordered or dropped except empty strings |
| `HorizontalOrganizer.OrganizeRuns` | pdf_pro_parser_chinese_horizontal.py:62-74 | each paragraph is a single sentence of length ≥ 15 or the join of a maximal run of shorter ones, and two run-paragraphs are never adjacent |
| `HorizontalOrganizer.OrganizeKeepsContent` | pdf_pro_parser_chinese_horizontal.py:49-74 | the non-whitespace characters of the paragraphs are the whitelisted non-whitespace characters of the text, in order |
| `HorizontalOrganizer.OrganizeEmpty` | pdf_pro_parser_chinese_horizontal.py:49-74 | an empty text has no paragraphs |
| `Pages.InitialPages` | pdf_pro_parser_chinese_horizontal.py:155-161 | the page records are numbered from 1, carry their text blocks and start with empty `ocr_content` |
| `Pages.MergeOcrKeeps` | pdf_pro_parser_chinese_horizontal.py:173-188 | the merge keeps the number of pages, each page number and text blocks, and leaves pages beyond the OCR list untouched |
| `Pages.MergeOcrContent` | pdf_pro_parser_chinese_horizontal.py:173-188 | a page's OCR content becomes the organized paragraphs iff it has an OCR text, no non-blank text block, a non-empty OCR text and non-empty paragraphs; otherwise the page is unchanged |
| `Pages.TextContentsEmpty` | pdf_pro_parser_chinese_horizontal.py:175-178 | a page contributes text contents to the report iff `has_text_content` holds for it |
| `Pages.CollectPageTexts` | pdf_pro_parser_chinese_horizontal.py:215-223 | the two collecting loops give the non-blank text contents followed by the OCR paragraphs |
| `Pages.MergedPageTexts` | pdf_pro_parser_chinese_horizontal.py:180-188 | after the merge a page reports its text contents if it has any, otherwise its organized OCR text, never both |
| `Report.RSplitHead` | pdf_pro_parser_chinese_horizontal.py:209 | `p.rsplit('.', 1)[0]` is `p` without a dot, otherwise the prefix before the last dot |
| `Report.TxtPathShape` | pdf_pro_parser_chinese_horizontal.py:209 | the txt path ends in `.txt`, replaces what follows the last dot, or appends `.txt` when there is no dot |
| `Report.TxtPathIdempotent` | pdf_pro_parser_chinese_horizontal.py:209 | deriving the txt path twice gives the same path |
| `Report.TxtPathOverwrites` | pdf_pro_parser_chinese_horizontal.py:205-210 | the text report goes to the JSON report's path exactly when that path ends in `.txt` |
| `HorizontalParser.OcrPageClean` | pdf_pro_parser_chinese_horizontal.py:98-110 | the OCR text of a page is clean, and empty when the OCR engine fails |
| `HorizontalParser.OcrResults` | pdf_pro_parser_chinese_horizontal.py:171 | one OCR text per page image, in image order |
| `HorizontalParser.MergeOcrPage` | pdf_pro_parser_chinese_horizontal.py:174-188 | one loop iteration sets that page to the merged page and changes no other |
| `HorizontalParser.MergeOcrResults` | pdf_pro_parser_chinese_horizontal.py:173-188 | the in-place merge loop leaves the page array equal to the merge specification |
| `HorizontalParser.HybridParse` | pdf_pro_parser_chinese_horizontal.py:142-190 | `hybrid_parse` returns the initial page records merged with the OCR texts |
| `HorizontalParser.ParsedPages` | pdf_pro_parser_chinese_horizontal.py:152-188 | parsed pages are numbered from 1, keep their blocks, and get OCR content iff recognition succeeded, no text block is non-blank and the paragraphs are non-empty |
| `HorizontalParser.ParsedPageTexts` | pdf_pro_parser_chinese_horizontal.py:213-223 | a parsed page reports its text contents if any, else its organized OCR text |
| `HorizontalParser.WriteParagraphs` | pdf_pro_parser_chinese_horizontal.py:233-235 | the write loop emits every non-blank paragraph followed by `"\n\n"` |
| `HorizontalParser.WritePage` | pdf_pro_parser_chinese_horizontal.py:213-235 | one page writes its texts joined with `" "`, organized, each paragraph followed by a blank line |
| `HorizontalParser.ExportReport` | pdf_pro_parser_chinese_horizontal.py:202-235 | the txt path is the `rsplit` rule and the txt body is the title then every page's paragraphs |
| `HorizontalParser.PageParagraphsClean` | pdf_pro_parser_chinese_horizontal.py:226-230 | every paragraph of a page is non-empty, clean and newline-free |
| `HorizontalParser.BlankTestIsRedundant` | pdf_pro_parser_chinese_horizontal.py:233-235 | the `if para.strip()` test never skips a paragraph |
| `HorizontalParser.PageParagraphsContent` | pdf_pro_parser_chinese_horizontal.py:226-230 | re-organizing a page keeps exactly the whitelisted non-whitespace characters of its texts, in order |
| `HorizontalParser.WrittenParagraphsClean` | pdf_pro_parser_chinese_horizontal.py:213-235 | every written paragraph is non-empty, clean and newline-free |
| `HorizontalParser.ReportLayout` | pdf_pro_parser_chinese_horizontal.py:210-235 | split on newlines, the report is the title line, an empty line, then each paragraph followed by an empty line |
| `VerticalCleaner.CleanTextChars` | pdf_pro_parser_chinese_vertical.py:36-40 | `clean_text(t)` is exactly the order-preserving filter of `t` to whitelisted non-whitespace characters (「」『』 included), has no whitespace or newline, no digit or ASCII letter, and is no longer than `t` |
| `VerticalCleaner.CleanTextFixedPoints` | pdf_pro_parser_chinese_vertical.py:36-40 | `clean_text(s) == s` iff every character of `s` is whitelisted and not whitespace |
| `VerticalCleaner.CleanTextIdempotent` | pdf_pro_parser_chinese_vertical.py:36-40 | `clean_text(clean_text(t)) == clean_text(t)` |
| `VerticalCleaner.OcrFilterKeepsLines` | pdf_pro_parser_chinese_vertical.py:81 | the `_ocr_page` filter keeps the line structure and every whitespace character in order, and `clean_text` is that filter followed by whitespace deletion |
| `VerticalCleaner.StripNonBlank` | pdf_pro_parser_chinese_vertical.py:45 | the comprehension yields non-empty stripped lines, no more than its input |
| `VerticalCleaner.OrganizeLines` | pdf_pro_parser_chinese_vertical.py:43-46 | every line is non-empty, trimmed and newline-free, and there are at most as many as `text.split('\n')` pieces |
| `VerticalCleaner.OrganizeJoin` | pdf_pro_parser_chinese_vertical.py:45 | organizing `a + "\n" + b` organizes `a` and `b` one after the other |
| `VerticalCleaner.OrganizeJoinWith` | pdf_pro_parser_chinese_vertical.py:194-195 | organizing `"\n".join(texts)` organizes each text separately, in order |
| `VerticalCleaner.OrganizeEachOfLines` | pdf_pro_parser_chinese_vertical.py:45 | lines as `organize_content` returns them come back unchanged |
| `VerticalCleaner.OrganizeStable` | pdf_pro_parser_chinese_vertical.py:43-46 | `organize_content("\n".join(organize_content(t))) == organize_content(t)` |
| `VerticalCleaner.OrganizeKeepsContent` | pdf_pro_parser_chinese_vertical.py:43-46 | only whitespace is lost: the non-whitespace characters of the lines are those of the text, in order |
| `VerticalParser.OcrPageLines` | pdf_pro_parser_chinese_vertical.py:70-85 | the lines of an OCR text are the filtered, stripped, non-blank lines of the recognized text, all whitelisted; a failed recognition gives none |
| `VerticalParser.OcrResults` | pdf_pro_parser_chinese_vertical.py:146 | one OCR text per page image, in image order |
| `VerticalParser.MergeOcrPage` | pdf_pro_parser_chinese_vertical.py:149-163 | one loop iteration sets that page to the merged page and changes no other |
| `VerticalParser.MergeOcrResults` | pdf_pro_parser_chinese_vertical.py:148-163 | the in-place merge loop leaves the page array equal to the merge specification |
| `VerticalParser.HybridParse` | pdf_pro_parser_chinese_vertical.py:117-165 | `hybrid_parse` returns the initial page records merged with the OCR texts |
| `VerticalParser.ParsedPages` | pdf_pro_parser_chinese_vertical.py:127-163 | parsed pages are numbered from 1, keep their blocks, and get OCR content iff recognition succeeded, no text block is non-blank and the OCR text has a non-blank line |
| `VerticalParser.ParsedPageTexts` | pdf_pro_parser_chinese_vertical.py:185-192 | a parsed page reports its text contents if any, else its OCR lines |
| `VerticalParser.WriteParagraphs` | pdf_pro_parser_chinese_vertical.py:196-198 | the write loop emits every non-blank line followed by `"\n"` |
| `VerticalParser.WritePage` | pdf_pro_parser_chinese_vertical.py:186-198 | one page writes its texts joined with `"\n"`, organized, one line each |
| `VerticalParser.ExportReport` | pdf_pro_parser_chinese_vertical.py:177-198 | the txt path is the `rsplit` rule and the txt body is the title then every page's lines |
| `VerticalParser.PageParagraphsLines` | pdf_pro_parser_chinese_vertical.py:193-195 | the lines of a page are the lines of each of its texts in order, each non-empty, trimmed and newline-free |
| `VerticalParser.BlankTestIsRedundant` | pdf_pro_parser_chinese_vertical.py:196-198 | the `if para.strip()` test never skips a line |
| `VerticalParser.CleanTextSpaceFree` | pdf_pro_parser_chinese_vertical.py:96 | text-block contents made by `clean_text` hold no whitespace |
| `VerticalParser.TextPageParagraphs` | pdf_pro_parser_chinese_vertical.py:185-198 | a page with whitespace-free text content writes exactly its non-blank text contents, one per line, and no OCR line |
| `VerticalParser.OcrPageParagraphs` | pdf_pro_parser_chinese_vertical.py:185-198 | a page without text content writes exactly the lines `organize_content` gave its OCR text |
| `VerticalParser.WrittenParagraphsLines` | pdf_pro_parser_chinese_vertical.py:185-198 | every written line is non-empty, trimmed and newline-free |
| `VerticalParser.ReportLayout` | pdf_pro_parser_chinese_vertical.py:183-198 | split on newlines, the report is the title line, an empty line, then each written line |

## Left out

- PDF layout parsing is not modelled: `extract_pages`, `_extract_text_blocks`, and the bounding boxes and font sets of the blocks. These are library calls, and the order of a font set is unspecified. The text blocks of every page are an input.
- `_normalize_bbox` is not modelled, because it is floating-point `round` arithmetic.
- The `"confidence": 95.0` of an OCR block is not modelled. It is a constant.
- Rasterisation (`pdf2image.convert_from_path`) and the OCR engine (`pytesseract.image_to_string`) are not modelled. The outcome of OCR on each page image is an input: recognised text, or a failure, which `_ocr_page` turns into `""`.
- `ThreadPoolExecutor.map` is modelled only by its result: one OCR text per image, in order. Concurrency is not modelled.
- The `try`/`except` in `hybrid_parse` that logs and re-raises is not modelled. The modelled steps raise nothing.
- The JSON dump and all file writes are not modelled. The text report is returned as a string.
- The `metadata` record is not modelled: `stat().st_size` and the SHA-256 of `_generate_file_hash`.
- Host checks and setup are not modelled: `_validate_system_dependencies`, `_validate_pdf`, `__init__`, `main`, argparse, logging, environment variables, hard-coded tool paths and `OCR_CONFIG`. They are I/O and host environment.
- No general regular-expression engine is modelled. Only the substitutions and splits the two scripts use are written out.
- Python strings may hold lone surrogates. Dafny characters cannot, so the model covers strings of Unicode scalar values only.
- `IsSpace` and `IsDigit` follow the Unicode 15.0 tables. A different Python version may use a different Unicode version.
- transcribe_pdfplumber.py, transcribe_pypdf2.py and transcribe_pymupdf.py are not part of this model. Each only calls a PDF library on a fixed path and writes a file.
