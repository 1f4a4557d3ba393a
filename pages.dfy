/** The page records of `hybrid_parse`, the OCR fallback that fills them in, and the
    texts `export_report` collects from each of them. Both parsers share this code;
    they differ only in how they clean and organize text, which is passed in. */
module Pages {
  import opened Strings

  /** An entry of a page's `text_blocks`: a `"text"` block with its cleaned content,
      or a `"figure"` block, which has none. Bounding boxes and font sets are not
      part of this model. */
  datatype Block = TextBlock(content: string) | FigureBlock

  /** An entry of `ocr_content`: the `"ocr_text"` block holding the OCR paragraphs.
      Its `"confidence"` is always the constant 95.0 and is not modelled. */
  datatype OcrBlock = OcrText(content: seq<string>)

  /** What the OCR engine gives `_ocr_page` for one page image: the recognized text,
      or a `TesseractError`. */
  datatype OcrOutcome = Recognized(text: string) | OcrFailed

  /** A page record: its number, its text blocks and its OCR content. */
  datatype PageData = PageData(page: nat, textBlocks: seq<Block>, ocrContent: seq<OcrBlock>)

  /** `block.get("type") == "text" and block.get("content", "").strip()`. */
  predicate IsNonBlankText(b: Block) {
    b.TextBlock? && !IsBlank(b.content)
  }

  /** `has_text_content`: some text block of the page has non-blank content. */
  predicate HasTextContent(blocks: seq<Block>) {
    exists i :: 0 <= i < |blocks| && IsNonBlankText(blocks[i])
  }

  // ---------------------------------------------------------------------------
  // The page records (first stage of hybrid_parse)
  // ---------------------------------------------------------------------------

  /** The records built for the pages PDFMiner lays out, numbered from 1, with no OCR
      content yet. */
  function InitialPages(layouts: seq<seq<Block>>): (r: seq<PageData>)
    ensures |r| == |layouts|
    ensures forall k :: 0 <= k < |r| ==> r[k] == PageData(k + 1, layouts[k], [])
  {
    seq(|layouts|, k requires 0 <= k < |layouts| => PageData(k + 1, layouts[k], []))
  }

  // ---------------------------------------------------------------------------
  // The OCR fallback (second stage of hybrid_parse)
  // ---------------------------------------------------------------------------

  /** One iteration of the merge loop: a page with no non-blank text block and a
      non-empty OCR text whose paragraphs are not empty gets those paragraphs as its
      only OCR block; any other page is left as it is. */
  function MergePage(p: PageData, ocrText: string, organize: string -> seq<string>): PageData {
    if !HasTextContent(p.textBlocks) && ocrText != [] && organize(ocrText) != [] then
      p.(ocrContent := [OcrText(organize(ocrText))])
    else
      p
  }

  /** The merge step that fills a page in. */
  lemma MergePageFills(p: PageData, ocrText: string, organize: string -> seq<string>, paragraphs: seq<string>)
    requires !HasTextContent(p.textBlocks) && ocrText != []
    requires paragraphs == organize(ocrText) && paragraphs != []
    ensures MergePage(p, ocrText, organize) == p.(ocrContent := [OcrText(paragraphs)])
  {
  }

  /** The merge step that leaves a page alone. */
  lemma MergePageSkips(p: PageData, ocrText: string, organize: string -> seq<string>)
    requires HasTextContent(p.textBlocks) || ocrText == [] || organize(ocrText) == []
    ensures MergePage(p, ocrText, organize) == p
  {
  }

  /** The merge loop over `zip(result["pages"], ocr_results)`: the `k`-th page is paired
      with the `k`-th OCR text; pages without one are not visited. */
  function MergeOcr(pages: seq<PageData>, ocr: seq<string>, organize: string -> seq<string>): (r: seq<PageData>)
    ensures |r| == |pages|
  {
    seq(|pages|, k requires 0 <= k < |pages| =>
      if k < |ocr| then MergePage(pages[k], ocr[k], organize) else pages[k])
  }

  /** The `k`-th merged page. */
  lemma MergeOcrAt(pages: seq<PageData>, ocr: seq<string>, organize: string -> seq<string>, k: nat)
    requires k < |pages|
    ensures MergeOcr(pages, ocr, organize)[k] == if k < |ocr| then MergePage(pages[k], ocr[k], organize) else pages[k]
  {
  }

  /** The merge keeps the number of pages, every page number and every text block;
      a page without an OCR text is untouched. */
  lemma MergeOcrKeeps(pages: seq<PageData>, ocr: seq<string>, organize: string -> seq<string>)
    ensures var r := MergeOcr(pages, ocr, organize);
            |r| == |pages|
            && (forall k :: 0 <= k < |r| ==> r[k].page == pages[k].page && r[k].textBlocks == pages[k].textBlocks)
            && (forall k :: |ocr| <= k < |r| ==> r[k] == pages[k])
  {
  }

  /** The OCR content of a page changes exactly when it has no non-blank text block,
      its OCR text is not empty and organizing it gives paragraphs; it then becomes one
      OCR block with those paragraphs. */
  lemma MergeOcrContent(pages: seq<PageData>, ocr: seq<string>, organize: string -> seq<string>, k: nat)
    requires k < |pages|
    ensures var r := MergeOcr(pages, ocr, organize);
            var filled := k < |ocr| && !HasTextContent(pages[k].textBlocks) && ocr[k] != [] && organize(ocr[k]) != [];
            (filled ==> r[k].ocrContent == [OcrText(organize(ocr[k]))])
            && (!filled ==> r[k] == pages[k])
  {
  }

  // ---------------------------------------------------------------------------
  // What export_report collects from a page
  // ---------------------------------------------------------------------------

  /** The contents of the non-blank text blocks, in order. */
  function TextContents(blocks: seq<Block>): (r: seq<string>)
    ensures |r| <= |blocks|
    decreases |blocks|
  {
    if blocks == [] then []
    else (if IsNonBlankText(blocks[0]) then [blocks[0].content] else []) + TextContents(blocks[1..])
  }

  /** Exactly the pages whose text blocks show text content contribute text contents. */
  lemma {:induction false} TextContentsEmpty(blocks: seq<Block>)
    ensures TextContents(blocks) == [] <==> !HasTextContent(blocks)
    decreases |blocks|
  {
    if blocks != [] {
      TextContentsEmpty(blocks[1..]);
      if HasTextContent(blocks[1..]) {
        var i :| 0 <= i < |blocks[1..]| && IsNonBlankText(blocks[1..][i]);
        assert blocks[i + 1] == blocks[1..][i];
      }
      if HasTextContent(blocks) && !IsNonBlankText(blocks[0]) {
        var i :| 0 <= i < |blocks| && IsNonBlankText(blocks[i]);
        assert blocks[1..][i - 1] == blocks[i];
      }
    }
  }

  /** The paragraphs of all `"ocr_text"` blocks, in order. */
  function OcrParagraphs(blocks: seq<OcrBlock>): seq<string>
    decreases |blocks|
  {
    if blocks == [] then [] else blocks[0].content + OcrParagraphs(blocks[1..])
  }

  /** The `text_blocks` list `export_report` builds for a page: first the text
      contents, then the OCR paragraphs. */
  function PageTexts(p: PageData): seq<string> {
    TextContents(p.textBlocks) + OcrParagraphs(p.ocrContent)
  }

  /** The two loops of `export_report` that build `text_blocks` for one page. */
  method CollectPageTexts(p: PageData) returns (texts: seq<string>)
    ensures texts == PageTexts(p)
  {
    texts := [];
    for i := 0 to |p.textBlocks|
      invariant texts == TextContents(p.textBlocks[..i])
    {
      var block := p.textBlocks[i];
      TextContentsSnoc(p.textBlocks[..i], block);
      assert p.textBlocks[..i + 1] == p.textBlocks[..i] + [block];
      if block.TextBlock? && !IsBlank(block.content) {
        texts := texts + [block.content];
      }
    }
    assert p.textBlocks[..|p.textBlocks|] == p.textBlocks;
    ghost var contents := texts;
    for i := 0 to |p.ocrContent|
      invariant texts == contents + OcrParagraphs(p.ocrContent[..i])
    {
      var ocrBlock := p.ocrContent[i];
      OcrParagraphsSnoc(p.ocrContent[..i], ocrBlock);
      assert p.ocrContent[..i + 1] == p.ocrContent[..i] + [ocrBlock];
      texts := texts + ocrBlock.content;
    }
    assert p.ocrContent[..|p.ocrContent|] == p.ocrContent;
  }

  lemma {:induction false} TextContentsSnoc(blocks: seq<Block>, b: Block)
    ensures TextContents(blocks + [b]) == TextContents(blocks) + (if IsNonBlankText(b) then [b.content] else [])
    decreases |blocks|
  {
    if blocks == [] {
      assert blocks + [b] == [b];
    } else {
      assert (blocks + [b])[1..] == blocks[1..] + [b];
      TextContentsSnoc(blocks[1..], b);
    }
  }

  lemma {:induction false} OcrParagraphsSnoc(blocks: seq<OcrBlock>, b: OcrBlock)
    ensures OcrParagraphs(blocks + [b]) == OcrParagraphs(blocks) + b.content
    decreases |blocks|
  {
    if blocks == [] {
      assert blocks + [b] == [b];
      assert OcrParagraphs([b]) == b.content + [];
    } else {
      assert (blocks + [b])[1..] == blocks[1..] + [b];
      OcrParagraphsSnoc(blocks[1..], b);
    }
  }

  /** For a page without OCR content yet, after the merge step the texts of the page
      are its text contents when it has any, and otherwise the OCR paragraphs: never
      both. */
  lemma MergedPageTexts(p: PageData, ocrText: string, organize: string -> seq<string>)
    requires p.ocrContent == []
    ensures var texts := PageTexts(MergePage(p, ocrText, organize));
            var contents := TextContents(p.textBlocks);
            (contents != [] ==> texts == contents)
            && (contents == [] ==> texts == (if ocrText == [] then [] else organize(ocrText)))
  {
    TextContentsEmpty(p.textBlocks);
    var contents := TextContents(p.textBlocks);
    assert contents + [] == contents;
    if contents == [] && ocrText != [] && organize(ocrText) != [] {
      assert OcrParagraphs([OcrText(organize(ocrText))]) == organize(ocrText) + [];
    }
  }
}
