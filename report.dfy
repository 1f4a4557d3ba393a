/** The parts of `export_report` both parsers share: the path of the text report and
    its title line. */
module Report {
  import opened Strings

  /** The first line of every text report. */
  const TitleLine: string := "《東坡黃州詞》"

  /** `f.write("《東坡黃州詞》\n\n")`: the title and an empty line. */
  const Title: string := TitleLine + "\n\n"

  /** `s` ends with `suffix`. */
  predicate EndsWith(s: string, suffix: string) {
    |suffix| <= |s| && s[|s| - |suffix|..] == suffix
  }

  /** No character of `p` after position `i` is a dot. */
  predicate NoDotAfter(p: string, i: nat) {
    forall k :: i < k < |p| ==> p[k] != '.'
  }

  /** `p.rsplit('.', 1)[0]`: everything before the last `.`, or all of `p` when it has
      none. */
  function RSplitHead(p: string): (h: string)
    ensures '.' !in p ==> h == p
    ensures '.' in p ==> |h| < |p| && h == p[..|h|] && p[|h|] == '.' && NoDotAfter(p, |h|)
    decreases |p|
  {
    if '.' !in p then p
    else if p[|p| - 1] == '.' then p[..|p| - 1]
    else
      var init := p[..|p| - 1];
      assert p == init + [p[|p| - 1]];
      RSplitHead(init)
  }

  /** `output_path.rsplit('.', 1)[0] + '.txt'`: the extension after the last dot is
      replaced by `.txt`, or `.txt` is appended when there is no dot (even when the
      last dot belongs to a directory name). */
  function TxtPath(outputPath: string): string {
    RSplitHead(outputPath) + ".txt"
  }

  /** The text report always ends in `.txt`; its path is the output path cut at its
      last dot, or the whole output path when it has none. */
  lemma TxtPathShape(p: string)
    ensures EndsWith(TxtPath(p), ".txt")
    ensures '.' !in p ==> TxtPath(p) == p + ".txt"
    ensures '.' in p ==> exists i :: 0 <= i < |p| && p[i] == '.' && NoDotAfter(p, i) && TxtPath(p) == p[..i] + ".txt"
  {
    var h := RSplitHead(p);
    assert TxtPath(p)[|TxtPath(p)| - 4..] == ".txt";
    if '.' in p {
      assert p[|h|] == '.' && NoDotAfter(p, |h|) && TxtPath(p) == p[..|h|] + ".txt";
    }
  }

  /** The last dot of a string ending in `.txt` is the one of that suffix. */
  lemma RSplitHeadOfTxt(h: string)
    ensures RSplitHead(h + ".txt") == h
  {
    var p := h + ".txt";
    var r := RSplitHead(p);
    assert p[|h|] == '.' && p[|h| + 1] == 't' && p[|h| + 2] == 'x' && p[|h| + 3] == 't';
    assert |r| == |h|;
    assert p[..|h|] == h;
  }

  /** Deriving the text path twice changes nothing. */
  lemma TxtPathIdempotent(p: string)
    ensures TxtPath(TxtPath(p)) == TxtPath(p)
  {
    RSplitHeadOfTxt(RSplitHead(p));
  }

  /** The text report has the path of the JSON report, and so overwrites it, exactly
      when the output path already ends in `.txt`. */
  lemma TxtPathOverwrites(p: string)
    ensures TxtPath(p) == p <==> EndsWith(p, ".txt")
  {
    TxtPathShape(p);
    if EndsWith(p, ".txt") {
      var h := p[..|p| - 4];
      assert p == h + ".txt";
      RSplitHeadOfTxt(h);
    }
  }
}
