/** The vertical parser around its `TextCleaner`: the OCR text of a page, the OCR
    fallback of `hybrid_parse` and the text report of `export_report`. */
module VerticalParser {
  import opened Chars
  import opened Strings
  import opened VerticalCleaner
  import opened Pages
  import opened Report

  // ---------------------------------------------------------------------------
  // _ocr_page
  // ---------------------------------------------------------------------------

  /** `_ocr_page`: the recognized text through the whitelist filter alone (not
      `clean_text`), or `""` when the OCR engine fails. */
  function OcrPage(outcome: OcrOutcome): string {
    match outcome
    case Recognized(text) => OcrFilter(text)
    case OcrFailed => []
  }

  /** A class every character of every line belongs to survives `organize_content`. */
  lemma {:induction false} StripNonBlankKeepsClass(p: char -> bool, lines: seq<string>)
    requires forall k, i :: 0 <= k < |lines| && 0 <= i < |lines[k]| ==> p(lines[k][i])
    ensures var r := StripNonBlank(lines);
            forall k, i :: 0 <= k < |r| && 0 <= i < |r[k]| ==> p(r[k][i])
    decreases |lines|
  {
    if lines != [] {
      StripNonBlankKeepsClass(p, lines[1..]);
      StripKeepsClass(p, lines[0]);
      var head := if IsBlank(lines[0]) then [] else [Strip(lines[0])];
      var r := head + StripNonBlank(lines[1..]);
      forall k, i | 0 <= k < |r| && 0 <= i < |r[k]| ensures p(r[k][i]) {
        if k >= |head| {
          assert r[k] == StripNonBlank(lines[1..])[k - |head|];
        }
      }
    }
  }

  /** The lines organized from the OCR text of a page are the stripped, non-blank
      lines of the recognized text with every character outside the whitelist
      removed: filtering keeps the line structure. Every character of them is
      whitelisted; a failed recognition gives no line at all. */
  lemma OcrPageLines(outcome: OcrOutcome)
    ensures outcome.Recognized? ==>
      OrganizeContent(OcrPage(outcome)) == StripNonBlank(FilterEach(InVerticalWhitelist, SplitOn(outcome.text, '\n')))
    ensures var lines := OrganizeContent(OcrPage(outcome));
            forall k, i :: 0 <= k < |lines| && 0 <= i < |lines[k]| ==> InVerticalWhitelist(lines[k][i])
    ensures outcome.OcrFailed? ==> OrganizeContent(OcrPage(outcome)) == []
  {
    var s := OcrPage(outcome);
    if outcome.Recognized? {
      OcrFilterKeepsLines(outcome.text);
    }
    var pieces := SplitOn(s, '\n');
    forall k, i | 0 <= k < |pieces| && 0 <= i < |pieces[k]| ensures InVerticalWhitelist(pieces[k][i]) {
      JoinSplit(s, '\n');
      SplitPieceChar(s, '\n', k, i);
    }
    StripNonBlankKeepsClass(InVerticalWhitelist, pieces);
    if outcome.OcrFailed? {
      assert StripNonBlank([[]]) == [] + StripNonBlank([]);
    }
  }

  /** A character of a piece of a split is a character of the string. */
  lemma {:induction false} SplitPieceChar(s: string, c: char, k: nat, i: nat)
    requires k < |SplitOn(s, c)| && i < |SplitOn(s, c)[k]|
    ensures SplitOn(s, c)[k][i] in s
    decreases |s|
  {
    if s != [] {
      var rest := SplitOn(s[1..], c);
      if s[0] == c {
        assert SplitOn(s, c)[k] == rest[k - 1];
        SplitPieceChar(s[1..], c, k - 1, i);
      } else if k == 0 {
        if i > 0 {
          SplitPieceChar(s[1..], c, 0, i - 1);
        }
      } else {
        assert SplitOn(s, c)[k] == rest[k];
        SplitPieceChar(s[1..], c, k, i);
      }
    }
  }

  /** `list(executor.map(self._ocr_page, images))`: one OCR text per page image, in
      the order of the images. */
  function OcrResults(outcomes: seq<OcrOutcome>): (r: seq<string>)
    ensures |r| == |outcomes|
    ensures forall k :: 0 <= k < |r| ==> r[k] == OcrPage(outcomes[k])
  {
    seq(|outcomes|, k requires 0 <= k < |outcomes| => OcrPage(outcomes[k]))
  }

  // ---------------------------------------------------------------------------
  // hybrid_parse
  // ---------------------------------------------------------------------------

  /** One iteration of the merge loop of `hybrid_parse`: the page record at `i` gets
      the lines of its OCR text as its OCR content when it has no non-blank text block
      and they are not empty; no other page record changes. */
  method MergeOcrPage(pages: array<PageData>, i: nat, ocrText: string)
    requires i < pages.Length
    modifies pages
    ensures pages[i] == MergePage(old(pages[i]), ocrText, OrganizeContent)
    ensures forall k :: 0 <= k < pages.Length && k != i ==> pages[k] == old(pages[k])
  {
    var pageData := pages[i];
    if !HasTextContent(pageData.textBlocks) && ocrText != [] {
      var paragraphs := OrganizeContent(ocrText);
      if paragraphs != [] {
        pages[i] := pageData.(ocrContent := [OcrText(paragraphs)]);
      }
    }
  }

  /** The merge loop of `hybrid_parse` over `zip(result["pages"], ocr_results)`,
      changing the page records in place. */
  method MergeOcrResults(pages: array<PageData>, ocrResults: seq<string>)
    modifies pages
    ensures pages[..] == MergeOcr(old(pages[..]), ocrResults, OrganizeContent)
  {
    ghost var original := pages[..];
    var n := if |ocrResults| < pages.Length then |ocrResults| else pages.Length;
    for i := 0 to n
      invariant forall k :: 0 <= k < i ==> pages[k] == MergePage(original[k], ocrResults[k], OrganizeContent)
      invariant forall k :: i <= k < pages.Length ==> pages[k] == original[k]
    {
      MergeOcrPage(pages, i, ocrResults[i]);
    }
    forall k | 0 <= k < pages.Length ensures pages[k] == MergeOcr(original, ocrResults, OrganizeContent)[k] {
      MergeOcrAt(original, ocrResults, OrganizeContent, k);
    }
  }

  /** What `hybrid_parse` returns as `result["pages"]`, given the text blocks of every
      page PDFMiner lays out and the OCR outcome of every page image. */
  function ParseSpec(layouts: seq<seq<Block>>, outcomes: seq<OcrOutcome>): seq<PageData> {
    MergeOcr(InitialPages(layouts), OcrResults(outcomes), OrganizeContent)
  }

  /** `hybrid_parse`: build the page records, run the OCR over every page image, then
      merge. */
  method HybridParse(layouts: seq<seq<Block>>, outcomes: seq<OcrOutcome>) returns (result: seq<PageData>)
    ensures result == ParseSpec(layouts, outcomes)
  {
    var built: seq<PageData> := [];
    for i := 0 to |layouts|
      invariant built == InitialPages(layouts[..i])
    {
      built := built + [PageData(i + 1, layouts[i], [])];
    }
    assert layouts[..|layouts|] == layouts;
    var ocrResults := OcrResults(outcomes);
    var pages := new PageData[|built|](k requires 0 <= k < |built| => built[k]);
    assert pages[..] == built;
    MergeOcrResults(pages, ocrResults);
    result := pages[..];
  }

  /** The parsed pages are numbered from 1, keep their text blocks, and get OCR
      content exactly when they have an OCR text, no non-blank text block and the
      filtered OCR text has a non-blank line; that content is those lines. A page
      whose recognition failed gets no OCR content. */
  lemma ParsedPages(layouts: seq<seq<Block>>, outcomes: seq<OcrOutcome>)
    ensures var r := ParseSpec(layouts, outcomes);
            |r| == |layouts|
            && forall k :: 0 <= k < |r| ==>
                 r[k].page == k + 1 && r[k].textBlocks == layouts[k]
                 && (r[k].ocrContent != [] <==>
                       k < |outcomes| && outcomes[k].Recognized? && !HasTextContent(layouts[k])
                       && OrganizeContent(OcrPage(outcomes[k])) != [])
                 && (r[k].ocrContent != [] ==> r[k].ocrContent == [OcrText(OrganizeContent(OcrPage(outcomes[k])))])
  {
    var r := ParseSpec(layouts, outcomes);
    forall k | 0 <= k < |r|
      ensures r[k].ocrContent != [] ==> k < |outcomes| && outcomes[k].Recognized?
    {
      if k < |outcomes| {
        OcrPageLines(outcomes[k]);
      }
    }
  }

  /** The texts `export_report` collects from a parsed page: its text contents when it
      has any, otherwise the lines of its OCR text, if any. */
  lemma ParsedPageTexts(layouts: seq<seq<Block>>, outcomes: seq<OcrOutcome>, k: nat)
    requires k < |layouts|
    ensures var contents := TextContents(layouts[k]);
            PageTexts(ParseSpec(layouts, outcomes)[k])
            == if contents != [] then contents
               else if k < |outcomes| then OrganizeContent(OcrPage(outcomes[k]))
               else []
  {
    var ocr := OcrResults(outcomes);
    var p := InitialPages(layouts)[k];
    assert OrganizeContent([]) == StripNonBlank([[]]);
    TextContentsEmpty(layouts[k]);
    assert TextContents(layouts[k]) + [] == TextContents(layouts[k]);
    if k < |outcomes| {
      MergedPageTexts(p, ocr[k], OrganizeContent);
    }
  }

  // ---------------------------------------------------------------------------
  // export_report
  // ---------------------------------------------------------------------------

  /** The lines `export_report` computes for a page: its texts joined by newlines and
      organized, or none when it has no texts. */
  function PageParagraphs(p: PageData): seq<string> {
    var texts := PageTexts(p);
    if texts == [] then [] else OrganizeContent(JoinWith("\n", texts))
  }

  /** The lines written to the text report, page after page, each passing the
      `if para.strip()` test. */
  function WrittenParagraphs(pages: seq<PageData>): seq<string>
    decreases |pages|
  {
    if pages == [] then []
    else WrittenParagraphs(pages[..|pages| - 1]) + KeepNonBlank(PageParagraphs(pages[|pages| - 1]))
  }

  /** Writing one more page appends its lines. */
  lemma WrittenParagraphsStep(pages: seq<PageData>, i: nat)
    requires i < |pages|
    ensures WrittenParagraphs(pages[..i + 1]) == WrittenParagraphs(pages[..i]) + KeepNonBlank(PageParagraphs(pages[i]))
  {
    assert pages[..i + 1][..i] == pages[..i];
  }

  /** The whole text report: the title and an empty line, then every line followed by
      a newline. */
  function ReportText(pages: seq<PageData>): string {
    Title + Terminated(WrittenParagraphs(pages), "\n")
  }

  /** The inner loop of `export_report`: every line that is not blank, followed by a
      newline. */
  method WriteParagraphs(paragraphs: seq<string>) returns (written: string)
    ensures written == Terminated(KeepNonBlank(paragraphs), "\n")
  {
    written := [];
    for j := 0 to |paragraphs|
      invariant written == Terminated(KeepNonBlank(paragraphs[..j]), "\n")
    {
      var para := paragraphs[j];
      assert paragraphs[..j + 1] == paragraphs[..j] + [para];
      KeepNonBlankSnoc(paragraphs[..j], para);
      if !IsBlank(para) {
        TerminatedSnoc(KeepNonBlank(paragraphs[..j]), para, "\n");
        written := written + para + "\n";
      } else {
        assert KeepNonBlank(paragraphs[..j + 1]) == KeepNonBlank(paragraphs[..j]);
      }
    }
    assert paragraphs[..|paragraphs|] == paragraphs;
  }

  /** The body of the page loop of `export_report`: collect the texts of the page,
      join them with newlines, organize them and write every line that is not blank,
      followed by a newline. */
  method WritePage(page: PageData) returns (written: string)
    ensures written == Terminated(KeepNonBlank(PageParagraphs(page)), "\n")
  {
    var textBlocks := CollectPageTexts(page);
    var paragraphs: seq<string> := [];
    if textBlocks != [] {
      var combinedText := JoinWith("\n", textBlocks);
      paragraphs := OrganizeContent(combinedText);
    }
    written := WriteParagraphs(paragraphs);
  }

  /** `export_report`, without the JSON dump: the path of the text report and what is
      written to it. */
  method ExportReport(pages: seq<PageData>, outputPath: string) returns (txtPath: string, txt: string)
    ensures txtPath == TxtPath(outputPath)
    ensures txt == ReportText(pages)
  {
    txtPath := RSplitHead(outputPath) + ".txt";
    txt := Title;
    var body: string := [];
    for i := 0 to |pages|
      invariant body == Terminated(WrittenParagraphs(pages[..i]), "\n")
    {
      var page := pages[i];
      WrittenParagraphsStep(pages, i);
      TerminatedAppend(WrittenParagraphs(pages[..i]), KeepNonBlank(PageParagraphs(page)), "\n");
      var written := WritePage(page);
      body := body + written;
    }
    assert pages[..|pages|] == pages;
    txt := txt + body;
  }

  /** The lines of a page are the lines of each of its texts, one text after the
      other: joining the texts with newlines merges nothing. Every line is non-empty,
      has no whitespace at either end and holds no newline. */
  lemma PageParagraphsLines(p: PageData)
    ensures PageParagraphs(p) == OrganizeEach(PageTexts(p))
    ensures forall k :: 0 <= k < |PageParagraphs(p)| ==>
      PageParagraphs(p)[k] != [] && Trimmed(PageParagraphs(p)[k]) && '\n' !in PageParagraphs(p)[k]
  {
    var texts := PageTexts(p);
    if texts != [] {
      OrganizeJoinWith(texts);
      OrganizeLines(JoinWith("\n", texts));
    }
  }

  /** The `if para.strip()` test of the report never skips a line. */
  lemma BlankTestIsRedundant(p: PageData)
    ensures KeepNonBlank(PageParagraphs(p)) == PageParagraphs(p)
  {
    PageParagraphsLines(p);
    forall k | 0 <= k < |PageParagraphs(p)| ensures !IsBlank(PageParagraphs(p)[k]) {
      assert !IsSpace(PageParagraphs(p)[k][0]);
    }
    KeepNonBlankOfNonBlank(PageParagraphs(p));
  }

  /** `s` holds no whitespace, as every output of `clean_text` does. */
  predicate SpaceFree(s: string) {
    forall i :: 0 <= i < |s| ==> !IsSpace(s[i])
  }

  /** Every output of `clean_text` is free of whitespace. */
  lemma CleanTextSpaceFree(text: string)
    ensures SpaceFree(CleanText(text))
  {
    CleanTextChars(text);
  }

  /** Non-blank texts without whitespace organize into themselves, one line each. */
  lemma {:induction false} OrganizeEachSpaceFree(texts: seq<string>)
    requires forall k :: 0 <= k < |texts| ==> texts[k] != [] && SpaceFree(texts[k])
    ensures OrganizeEach(texts) == texts
    decreases |texts|
  {
    if texts != [] {
      var t := texts[0];
      assert Trimmed(t) by {
        assert !IsSpace(t[0]) && !IsSpace(t[|t| - 1]);
      }
      assert IsSpace('\n');
      assert '\n' !in t;
      OrganizeLine(t);
      OrganizeEachSpaceFree(texts[1..]);
      assert [t] + texts[1..] == texts;
    }
  }

  /** Text contents as `clean_text` produces them (free of whitespace) pass through
      the report unchanged: a page with text content writes exactly its non-blank
      text contents, one per line, and nothing of its OCR content. */
  lemma TextPageParagraphs(layouts: seq<seq<Block>>, outcomes: seq<OcrOutcome>, k: nat)
    requires k < |layouts|
    requires forall j :: 0 <= j < |layouts[k]| && layouts[k][j].TextBlock? ==> SpaceFree(layouts[k][j].content)
    requires HasTextContent(layouts[k])
    ensures PageParagraphs(ParseSpec(layouts, outcomes)[k]) == TextContents(layouts[k])
  {
    var contents := TextContents(layouts[k]);
    ParsedPageTexts(layouts, outcomes, k);
    TextContentsEmpty(layouts[k]);
    TextContentsSpaceFree(layouts[k]);
    OrganizeEachSpaceFree(contents);
    PageParagraphsLines(ParseSpec(layouts, outcomes)[k]);
  }

  /** Text contents drawn from whitespace-free text blocks are non-empty and free of
      whitespace. */
  lemma {:induction false} TextContentsSpaceFree(blocks: seq<Block>)
    requires forall j :: 0 <= j < |blocks| && blocks[j].TextBlock? ==> SpaceFree(blocks[j].content)
    ensures forall k :: 0 <= k < |TextContents(blocks)| ==>
      TextContents(blocks)[k] != [] && SpaceFree(TextContents(blocks)[k])
    decreases |blocks|
  {
    if blocks != [] {
      TextContentsSpaceFree(blocks[1..]);
      var head := if IsNonBlankText(blocks[0]) then [blocks[0].content] else [];
      var rest := TextContents(blocks[1..]);
      var r := head + rest;
      assert r == TextContents(blocks);
      forall k | 0 <= k < |r| ensures r[k] != [] && SpaceFree(r[k]) {
        if k >= |head| {
          assert r[k] == rest[k - |head|];
        }
      }
    }
  }

  /** A page filled in from its OCR text writes exactly the lines `organize_content`
      gave for it: organizing again, after re-joining them with newlines, changes
      nothing. */
  lemma OcrPageParagraphs(layouts: seq<seq<Block>>, outcomes: seq<OcrOutcome>, k: nat)
    requires k < |layouts| && k < |outcomes|
    requires !HasTextContent(layouts[k])
    ensures PageParagraphs(ParseSpec(layouts, outcomes)[k]) == OrganizeContent(OcrPage(outcomes[k]))
  {
    var lines := OrganizeContent(OcrPage(outcomes[k]));
    ParsedPageTexts(layouts, outcomes, k);
    TextContentsEmpty(layouts[k]);
    if lines != [] {
      OrganizeStable(OcrPage(outcomes[k]));
    }
  }

  /** Every written line is non-empty, has no whitespace at either end and holds no
      newline. */
  lemma {:induction false} WrittenParagraphsLines(pages: seq<PageData>)
    ensures forall k :: 0 <= k < |WrittenParagraphs(pages)| ==>
      var line := WrittenParagraphs(pages)[k];
      line != [] && Trimmed(line) && '\n' !in line
    decreases |pages|
  {
    if pages != [] {
      var front := pages[..|pages| - 1];
      var last := pages[|pages| - 1];
      WrittenParagraphsLines(front);
      BlankTestIsRedundant(last);
      PageParagraphsLines(last);
      var w := WrittenParagraphs(front);
      var ps := PageParagraphs(last);
      assert WrittenParagraphs(pages) == w + ps;
      forall k | 0 <= k < |w + ps|
        ensures (w + ps)[k] != [] && Trimmed((w + ps)[k]) && '\n' !in (w + ps)[k]
      {
        if k >= |w| {
          assert (w + ps)[k] == ps[k - |w|];
        }
      }
    }
  }

  /** Line by line, the text report is the title, an empty line, and then every
      written line, one per line. */
  lemma ReportLayout(pages: seq<PageData>)
    ensures SplitOn(ReportText(pages), '\n') == [TitleLine, []] + WrittenParagraphs(pages) + [[]]
  {
    var paras := WrittenParagraphs(pages);
    var body := Terminated(paras, "\n");
    WrittenParagraphsLines(pages);
    assert '\n' !in TitleLine;
    assert ReportText(pages) == TitleLine + ['\n', '\n'] + body;
    SplitAfterEmptyPiece(TitleLine, body, '\n');
    SplitTerminated(paras, '\n');
  }
}
