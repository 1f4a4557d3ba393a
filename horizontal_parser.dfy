/** The horizontal parser around its `TextCleaner`: the OCR text of a page, the OCR
    fallback of `hybrid_parse` and the text report of `export_report`. */
module HorizontalParser {
  import opened Chars
  import opened Strings
  import opened HorizontalCleaner
  import opened HorizontalOrganizer
  import opened Pages
  import opened Report

  // ---------------------------------------------------------------------------
  // _ocr_page
  // ---------------------------------------------------------------------------

  /** `_ocr_page`: the recognized text through `clean_text`, or `""` when the OCR
      engine fails. */
  function OcrPage(outcome: OcrOutcome): string {
    match outcome
    case Recognized(text) => CleanText(text)
    case OcrFailed => []
  }

  /** The OCR text of a page is clean, and empty when recognition failed. */
  lemma OcrPageClean(outcome: OcrOutcome)
    ensures IsClean(OcrPage(outcome))
    ensures outcome.OcrFailed? ==> OcrPage(outcome) == []
  {
    if outcome.Recognized? {
      CleanTextWhitelisted(outcome.text);
      CleanTextSpacing(outcome.text);
    }
  }

  /** `list(executor.map(self._ocr_page, images))`: one OCR text per page image, in
      the order of the images. */
  function OcrResults(outcomes: seq<OcrOutcome>): (r: seq<string>)
    ensures |r| == |outcomes|
    ensures forall k :: 0 <= k < |r| ==> r[k] == OcrPage(outcomes[k])
  {
    seq(|outcomes|, k requires 0 <= k < |outcomes| => OcrPage(outcomes[k]))
  }

  // ---------------------------------------------------------------------------
  // hybrid_parse
  // ---------------------------------------------------------------------------

  /** One iteration of the merge loop of `hybrid_parse`: the page record at `i` gets
      the paragraphs of its OCR text as its OCR content when it has no non-blank text
      block and they are not empty; no other page record changes. */
  method MergeOcrPage(pages: array<PageData>, i: nat, ocrText: string)
    requires i < pages.Length
    modifies pages
    ensures pages[i] == MergePage(old(pages[i]), ocrText, OrganizeSpec)
    ensures forall k :: 0 <= k < pages.Length && k != i ==> pages[k] == old(pages[k])
  {
    var pageData := pages[i];
    if !HasTextContent(pageData.textBlocks) && ocrText != [] {
      var paragraphs := OrganizeContent(ocrText);
      if paragraphs != [] {
        MergePageFills(pageData, ocrText, OrganizeSpec, paragraphs);
        pages[i] := pageData.(ocrContent := [OcrText(paragraphs)]);
      } else {
        MergePageSkips(pageData, ocrText, OrganizeSpec);
      }
    } else {
      MergePageSkips(pageData, ocrText, OrganizeSpec);
    }
  }

  /** The merge loop of `hybrid_parse` over `zip(result["pages"], ocr_results)`,
      changing the page records in place. */
  method MergeOcrResults(pages: array<PageData>, ocrResults: seq<string>)
    modifies pages
    ensures pages[..] == MergeOcr(old(pages[..]), ocrResults, OrganizeSpec)
  {
    ghost var original := pages[..];
    var n := if |ocrResults| < pages.Length then |ocrResults| else pages.Length;
    for i := 0 to n
      invariant forall k :: 0 <= k < i ==> pages[k] == MergePage(original[k], ocrResults[k], OrganizeSpec)
      invariant forall k :: i <= k < pages.Length ==> pages[k] == original[k]
    {
      MergeOcrPage(pages, i, ocrResults[i]);
    }
    forall k | 0 <= k < pages.Length ensures pages[k] == MergeOcr(original, ocrResults, OrganizeSpec)[k] {
      MergeOcrAt(original, ocrResults, OrganizeSpec, k);
    }
  }

  /** What `hybrid_parse` returns as `result["pages"]`, given the text blocks of every
      page PDFMiner lays out and the OCR outcome of every page image. */
  function ParseSpec(layouts: seq<seq<Block>>, outcomes: seq<OcrOutcome>): seq<PageData> {
    MergeOcr(InitialPages(layouts), OcrResults(outcomes), OrganizeSpec)
  }

  /** `hybrid_parse`: build the page records, run the OCR over every page image, then
      merge. */
  method HybridParse(layouts: seq<seq<Block>>, outcomes: seq<OcrOutcome>) returns (result: seq<PageData>)
    ensures result == ParseSpec(layouts, outcomes)
  {
    var built: seq<PageData> := [];
    for i := 0 to |layouts|
      invariant built == InitialPages(layouts[..i])
    {
      built := built + [PageData(i + 1, layouts[i], [])];
    }
    assert layouts[..|layouts|] == layouts;
    var ocrResults := OcrResults(outcomes);
    var pages := new PageData[|built|](k requires 0 <= k < |built| => built[k]);
    assert pages[..] == built;
    MergeOcrResults(pages, ocrResults);
    result := pages[..];
  }

  /** The parsed pages are numbered from 1, keep their text blocks, and get OCR
      content exactly when they have an OCR text, no non-blank text block and the
      OCR text organizes into paragraphs; that content is those paragraphs. The
      `ocr_text` test of the merge loop is implied by the paragraphs test, and a
      page whose recognition failed gets no OCR content. */
  lemma ParsedPages(layouts: seq<seq<Block>>, outcomes: seq<OcrOutcome>)
    ensures var r := ParseSpec(layouts, outcomes);
            |r| == |layouts|
            && forall k :: 0 <= k < |r| ==>
                 r[k].page == k + 1 && r[k].textBlocks == layouts[k]
                 && (r[k].ocrContent != [] <==>
                       k < |outcomes| && outcomes[k].Recognized? && !HasTextContent(layouts[k])
                       && OrganizeSpec(OcrPage(outcomes[k])) != [])
                 && (r[k].ocrContent != [] ==> r[k].ocrContent == [OcrText(OrganizeSpec(OcrPage(outcomes[k])))])
  {
    var r := ParseSpec(layouts, outcomes);
    var ocr := OcrResults(outcomes);
    OrganizeEmpty();
    forall k | 0 <= k < |r|
      ensures r[k].ocrContent != [] ==> k < |outcomes| && outcomes[k].Recognized?
    {
      if k < |outcomes| {
        OcrPageClean(outcomes[k]);
      }
    }
  }

  /** The texts `export_report` collects from a parsed page: its text contents when it
      has any, otherwise the organized OCR text, if any. */
  lemma ParsedPageTexts(layouts: seq<seq<Block>>, outcomes: seq<OcrOutcome>, k: nat)
    requires k < |layouts|
    ensures var contents := TextContents(layouts[k]);
            PageTexts(ParseSpec(layouts, outcomes)[k])
            == if contents != [] then contents
               else if k < |outcomes| then OrganizeSpec(OcrPage(outcomes[k]))
               else []
  {
    var ocr := OcrResults(outcomes);
    var p := InitialPages(layouts)[k];
    OrganizeEmpty();
    TextContentsEmpty(layouts[k]);
    assert TextContents(layouts[k]) + [] == TextContents(layouts[k]);
    if k < |outcomes| {
      MergedPageTexts(p, ocr[k], OrganizeSpec);
    }
  }

  // ---------------------------------------------------------------------------
  // export_report
  // ---------------------------------------------------------------------------

  /** The paragraphs `export_report` computes for a page: its texts joined by spaces
      and organized, or none when it has no texts. */
  function PageParagraphs(p: PageData): seq<string> {
    var texts := PageTexts(p);
    if texts == [] then [] else OrganizeSpec(JoinWith(" ", texts))
  }

  /** The paragraphs written to the text report, page after page, each passing the
      `if para.strip()` test. */
  function WrittenParagraphs(pages: seq<PageData>): seq<string>
    decreases |pages|
  {
    if pages == [] then []
    else WrittenParagraphs(pages[..|pages| - 1]) + KeepNonBlank(PageParagraphs(pages[|pages| - 1]))
  }

  /** Writing one more page appends its paragraphs. */
  lemma WrittenParagraphsStep(pages: seq<PageData>, i: nat)
    requires i < |pages|
    ensures WrittenParagraphs(pages[..i + 1]) == WrittenParagraphs(pages[..i]) + KeepNonBlank(PageParagraphs(pages[i]))
  {
    assert pages[..i + 1][..i] == pages[..i];
  }

  /** The whole text report: the title, then every paragraph followed by an empty
      line. */
  function ReportText(pages: seq<PageData>): string {
    Title + Terminated(WrittenParagraphs(pages), "\n\n")
  }

  /** The inner loop of `export_report`: every paragraph that is not blank, followed
      by an empty line. */
  method WriteParagraphs(paragraphs: seq<string>) returns (written: string)
    ensures written == Terminated(KeepNonBlank(paragraphs), "\n\n")
  {
    written := [];
    for j := 0 to |paragraphs|
      invariant written == Terminated(KeepNonBlank(paragraphs[..j]), "\n\n")
    {
      var para := paragraphs[j];
      assert paragraphs[..j + 1] == paragraphs[..j] + [para];
      KeepNonBlankSnoc(paragraphs[..j], para);
      if !IsBlank(para) {
        TerminatedSnoc(KeepNonBlank(paragraphs[..j]), para, "\n\n");
        written := written + para + "\n\n";
      } else {
        assert KeepNonBlank(paragraphs[..j + 1]) == KeepNonBlank(paragraphs[..j]);
      }
    }
    assert paragraphs[..|paragraphs|] == paragraphs;
  }

  /** The body of the page loop of `export_report`: collect the texts of the page,
      join them with spaces, organize them and write every paragraph that is not
      blank, followed by an empty line. */
  method WritePage(page: PageData) returns (written: string)
    ensures written == Terminated(KeepNonBlank(PageParagraphs(page)), "\n\n")
  {
    var textBlocks := CollectPageTexts(page);
    var pageParagraphs: seq<string> := [];
    if textBlocks != [] {
      var combinedText := JoinWith(" ", textBlocks);
      pageParagraphs := OrganizeContent(combinedText);
    }
    written := WriteParagraphs(pageParagraphs);
  }

  /** `export_report`, without the JSON dump: the path of the text report and what is
      written to it. */
  method ExportReport(pages: seq<PageData>, outputPath: string) returns (txtPath: string, txt: string)
    ensures txtPath == TxtPath(outputPath)
    ensures txt == ReportText(pages)
  {
    txtPath := RSplitHead(outputPath) + ".txt";
    txt := Title;
    var body: string := [];
    for i := 0 to |pages|
      invariant body == Terminated(WrittenParagraphs(pages[..i]), "\n\n")
    {
      var page := pages[i];
      WrittenParagraphsStep(pages, i);
      TerminatedAppend(WrittenParagraphs(pages[..i]), KeepNonBlank(PageParagraphs(page)), "\n\n");
      var written := WritePage(page);
      body := body + written;
    }
    assert pages[..|pages|] == pages;
    txt := txt + body;
  }

  /** Every paragraph of a page is non-empty and clean, with no newline. */
  lemma PageParagraphsClean(p: PageData)
    ensures forall k :: 0 <= k < |PageParagraphs(p)| ==>
      PageParagraphs(p)[k] != [] && IsClean(PageParagraphs(p)[k]) && '\n' !in PageParagraphs(p)[k]
  {
    if PageTexts(p) != [] {
      OrganizeParagraphsClean(JoinWith(" ", PageTexts(p)));
    }
  }

  /** The `if para.strip()` test of the report never skips a paragraph. */
  lemma BlankTestIsRedundant(p: PageData)
    ensures KeepNonBlank(PageParagraphs(p)) == PageParagraphs(p)
  {
    PageParagraphsClean(p);
    KeepNonBlankOfNonBlank(PageParagraphs(p));
  }

  /** The paragraphs of a page keep, in order, exactly the whitelisted characters of
      its texts that are not whitespace. */
  lemma PageParagraphsContent(p: PageData)
    ensures Filter(NotSpace, Concat(PageParagraphs(p))) == Filter(KeptByHorizontalCleaner, Concat(PageTexts(p)))
  {
    var texts := PageTexts(p);
    if texts != [] {
      OrganizeKeepsContent(JoinWith(" ", texts));
      assert !KeptByHorizontalCleaner(' ') by {
        assert IsSpace(' ');
      }
      FilterJoin(KeptByHorizontalCleaner, ' ', texts);
      FilterConcat(KeptByHorizontalCleaner, texts);
    }
  }

  /** Every written paragraph is non-empty and clean, with no newline. */
  lemma {:induction false} WrittenParagraphsClean(pages: seq<PageData>)
    ensures forall k :: 0 <= k < |WrittenParagraphs(pages)| ==>
      var para := WrittenParagraphs(pages)[k];
      para != [] && IsClean(para) && '\n' !in para
    decreases |pages|
  {
    if pages != [] {
      var front := pages[..|pages| - 1];
      var last := pages[|pages| - 1];
      WrittenParagraphsClean(front);
      BlankTestIsRedundant(last);
      PageParagraphsClean(last);
      var w := WrittenParagraphs(front);
      var ps := PageParagraphs(last);
      assert WrittenParagraphs(pages) == w + ps;
      forall k | 0 <= k < |w + ps|
        ensures (w + ps)[k] != [] && IsClean((w + ps)[k]) && '\n' !in (w + ps)[k]
      {
        if k >= |w| {
          assert (w + ps)[k] == ps[k - |w|];
        }
      }
    }
  }

  /** Line by line, the text report is the title, an empty line, and then every
      paragraph followed by an empty line. */
  lemma ReportLayout(pages: seq<PageData>)
    ensures SplitOn(ReportText(pages), '\n') == [TitleLine, []] + Spaced(WrittenParagraphs(pages)) + [[]]
  {
    var paras := WrittenParagraphs(pages);
    var lines := [TitleLine] + paras;
    WrittenParagraphsClean(pages);
    assert '\n' !in TitleLine;
    assert lines[0] == TitleLine && lines[1..] == paras;
    assert Terminated(lines, "\n\n") == ReportText(pages);
    assert forall k :: 0 <= k < |lines| ==> '\n' !in lines[k];
    SplitDoubleTerminated(lines, '\n');
    assert Spaced(lines) == [TitleLine, []] + Spaced(paras);
  }
}
