/** `TextCleaner` of the vertical parser, and the filter its `_ocr_page` applies to
    the OCR text. */
module VerticalCleaner {
  import opened Chars
  import opened Strings

  // ---------------------------------------------------------------------------
  // clean_text
  // ---------------------------------------------------------------------------

  /** `TextCleaner.clean_text` of the vertical parser: the whitelist filter, then
      `re.sub(r'\s+', '', text)`, which deletes every whitespace character. */
  function CleanText(text: string): string {
    Filter(NotSpace, Filter(InVerticalWhitelist, text))
  }

  /** `clean_text(t)` is the order-preserving filter of `t` to the whitelisted
      characters that are not whitespace (so 「」『』 survive and no newline does); it
      holds no digit and no ASCII letter, and is never longer than `t`. */
  lemma CleanTextChars(text: string)
    ensures CleanText(text) == Filter(KeptByVerticalCleaner, text)
    ensures var r := CleanText(text);
            forall i :: 0 <= i < |r| ==> InVerticalWhitelist(r[i]) && !IsSpace(r[i]) && !IsDigit(r[i]) && !IsAsciiLetter(r[i])
    ensures |CleanText(text)| <= |text|
    ensures '\n' !in CleanText(text)
  {
    FilterThenFilter(InVerticalWhitelist, NotSpace, KeptByVerticalCleaner, text);
    var r := CleanText(text);
    forall i | 0 <= i < |r| ensures !IsDigit(r[i]) && !IsAsciiLetter(r[i]) {
      WhitelistsExcludeDigitsAndLetters(r[i]);
    }
    assert IsSpace('\n');
  }

  /** The fixed points of `clean_text` are the strings made only of whitelisted
      characters other than whitespace. */
  lemma CleanTextFixedPoints(s: string)
    ensures CleanText(s) == s <==> forall i :: 0 <= i < |s| ==> KeptByVerticalCleaner(s[i])
  {
    CleanTextChars(s);
    FilterKeepsAll(KeptByVerticalCleaner, s);
  }

  /** `clean_text` is idempotent. */
  lemma CleanTextIdempotent(text: string)
    ensures CleanText(CleanText(text)) == CleanText(text)
  {
    CleanTextChars(text);
    CleanTextChars(CleanText(text));
    FilterIdempotent(KeptByVerticalCleaner, text);
  }

  // ---------------------------------------------------------------------------
  // The filter of _ocr_page
  // ---------------------------------------------------------------------------

  /** The substitution `_ocr_page` applies to the OCR text: the whitelist filter
      alone, with no whitespace removal. */
  function OcrFilter(text: string): string {
    Filter(InVerticalWhitelist, text)
  }

  /** The OCR filter keeps the line structure: the lines of the filtered text are the
      filtered lines of the text. It keeps every whitespace character, in order, and
      `clean_text` is the OCR filter followed by the deletion of whitespace. */
  lemma OcrFilterKeepsLines(text: string)
    ensures SplitOn(OcrFilter(text), '\n') == FilterEach(InVerticalWhitelist, SplitOn(text, '\n'))
    ensures Filter(IsSpace, OcrFilter(text)) == Filter(IsSpace, text)
    ensures Filter(NotSpace, OcrFilter(text)) == CleanText(text)
  {
    FilterSplit(InVerticalWhitelist, text, '\n');
    FilterThenFilter(InVerticalWhitelist, IsSpace, IsSpace, text);
  }

  // ---------------------------------------------------------------------------
  // organize_content
  // ---------------------------------------------------------------------------

  /** `[line.strip() for line in lines if line.strip()]`. */
  function StripNonBlank(lines: seq<string>): (r: seq<string>)
    ensures |r| <= |lines|
    ensures forall k :: 0 <= k < |r| ==> r[k] != [] && Trimmed(r[k])
    decreases |lines|
  {
    if lines == [] then []
    else (if IsBlank(lines[0]) then [] else [Strip(lines[0])]) + StripNonBlank(lines[1..])
  }

  lemma {:induction false} StripNonBlankAppend(a: seq<string>, b: seq<string>)
    ensures StripNonBlank(a + b) == StripNonBlank(a) + StripNonBlank(b)
    decreases |a|
  {
    if a == [] {
      assert a + b == b;
    } else {
      assert (a + b)[0] == a[0] && (a + b)[1..] == a[1..] + b;
      StripNonBlankAppend(a[1..], b);
    }
  }

  /** A stripped line holds only characters of the line. */
  lemma {:induction false} StripNonBlankNoNewline(lines: seq<string>)
    requires forall k :: 0 <= k < |lines| ==> '\n' !in lines[k]
    ensures forall k :: 0 <= k < |StripNonBlank(lines)| ==> '\n' !in StripNonBlank(lines)[k]
    decreases |lines|
  {
    if lines != [] {
      StripNonBlankNoNewline(lines[1..]);
      var l := lines[0];
      var a := LeadingSpaces(l);
      var r := Strip(l);
      forall i | 0 <= i < |r| ensures r[i] != '\n' {
        assert r[i] == l[a + i];
      }
    }
  }

  /** `TextCleaner.organize_content` of the vertical parser: the lines of the text,
      stripped, without the blank ones. */
  function OrganizeContent(text: string): seq<string> {
    StripNonBlank(SplitOn(text, '\n'))
  }

  /** Every line returned is non-empty, has no whitespace at either end and holds no
      newline; there are no more of them than `text.split('\n')` has pieces. */
  lemma OrganizeLines(text: string)
    ensures var r := OrganizeContent(text);
            |r| <= |SplitOn(text, '\n')|
            && forall k :: 0 <= k < |r| ==> r[k] != [] && Trimmed(r[k]) && '\n' !in r[k]
  {
    SplitPiecesFree(text, '\n');
    StripNonBlankNoNewline(SplitOn(text, '\n'));
  }

  /** Organizing two texts joined by a newline organizes each of them, in order. */
  lemma OrganizeJoin(a: string, b: string)
    ensures OrganizeContent(a + "\n" + b) == OrganizeContent(a) + OrganizeContent(b)
  {
    SplitConcat(a, b, '\n');
    StripNonBlankAppend(SplitOn(a, '\n'), SplitOn(b, '\n'));
  }

  /** The lines of every text, one text after the other. */
  function OrganizeEach(texts: seq<string>): seq<string>
    decreases |texts|
  {
    if texts == [] then [] else OrganizeContent(texts[0]) + OrganizeEach(texts[1..])
  }

  /** Organizing `"\n".join(texts)` organizes every text separately. */
  lemma {:induction false} OrganizeJoinWith(texts: seq<string>)
    ensures OrganizeContent(JoinWith("\n", texts)) == OrganizeEach(texts)
    decreases |texts|
  {
    if texts == [] {
      assert OrganizeContent([]) == StripNonBlank([[]]);
    } else if |texts| == 1 {
      assert OrganizeEach(texts) == OrganizeContent(texts[0]) + [];
    } else {
      OrganizeJoinWith(texts[1..]);
      OrganizeJoin(texts[0], JoinWith("\n", texts[1..]));
    }
  }

  /** A non-empty line without blank ends or newline is organized into itself. */
  lemma OrganizeLine(line: string)
    requires line != [] && Trimmed(line) && '\n' !in line
    ensures OrganizeContent(line) == [line]
  {
    SplitOfPiece(line, '\n');
    assert !IsSpace(line[0]);
    assert StripNonBlank([line]) == [Strip(line)] + StripNonBlank([]);
  }

  /** Lines as `organize_content` returns them come back unchanged. */
  lemma {:induction false} OrganizeEachOfLines(lines: seq<string>)
    requires forall k :: 0 <= k < |lines| ==> lines[k] != [] && Trimmed(lines[k]) && '\n' !in lines[k]
    ensures OrganizeEach(lines) == lines
    decreases |lines|
  {
    if lines != [] {
      var rest := lines[1..];
      forall k | 0 <= k < |rest| ensures rest[k] != [] && Trimmed(rest[k]) && '\n' !in rest[k] {
        assert rest[k] == lines[k + 1];
      }
      OrganizeEachOfLines(rest);
      OrganizeLine(lines[0]);
      assert OrganizeEach(lines) == OrganizeContent(lines[0]) + OrganizeEach(rest);
      assert [lines[0]] + rest == lines;
    }
  }

  /** `organize_content` is stable under re-joining its lines with newlines, which is
      how `export_report` combines the lines of a page. */
  lemma OrganizeStable(text: string)
    ensures OrganizeContent(JoinWith("\n", OrganizeContent(text))) == OrganizeContent(text)
  {
    var lines := OrganizeContent(text);
    OrganizeLines(text);
    OrganizeJoinWith(lines);
    OrganizeEachOfLines(lines);
  }

  lemma {:induction false} StripNonBlankKeepsContent(lines: seq<string>)
    ensures Filter(NotSpace, Concat(StripNonBlank(lines))) == Concat(FilterEach(NotSpace, lines))
    decreases |lines|
  {
    if lines != [] {
      var l := lines[0];
      var head := if IsBlank(l) then [] else [Strip(l)];
      StripNonBlankKeepsContent(lines[1..]);
      ConcatAppend(head, StripNonBlank(lines[1..]));
      FilterAppend(NotSpace, Concat(head), Concat(StripNonBlank(lines[1..])));
      assert FilterEach(NotSpace, lines)[1..] == FilterEach(NotSpace, lines[1..]);
      if IsBlank(l) {
        FilterDropsAll(NotSpace, l);
      } else {
        ConcatSingle(Strip(l));
        StripKeepsNonSpace(l);
      }
    }
  }

  /** Only whitespace is lost: the characters of the lines other than whitespace are
      those of the text, in order. */
  lemma OrganizeKeepsContent(text: string)
    ensures Filter(NotSpace, Concat(OrganizeContent(text))) == Filter(NotSpace, text)
  {
    var lines := SplitOn(text, '\n');
    StripNonBlankKeepsContent(lines);
    JoinSplit(text, '\n');
    FilterJoin(NotSpace, '\n', lines);
  }
}
