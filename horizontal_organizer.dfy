/** `TextCleaner.organize_content` of the horizontal parser: the text is cut after
    every `。！？`, the non-blank pieces are cleaned, and one pass merges each run of
    consecutive short sentences into one paragraph. */
module HorizontalOrganizer {
  import opened Chars
  import opened Strings
  import opened HorizontalCleaner

  // ---------------------------------------------------------------------------
  // Sentences
  // ---------------------------------------------------------------------------

  /** `s` holds no sentence terminator. */
  predicate NoSentenceEnd(s: string) {
    forall j :: 0 <= j < |s| ==> !IsSentenceEnd(s[j])
  }

  /** `p` is a single terminator, as captured by the group of the split. */
  predicate IsTerminatorPiece(p: string) {
    |p| == 1 && IsSentenceEnd(p[0])
  }

  /** `p` is a complete sentence: terminator-free text followed by one terminator. */
  predicate IsSentence(p: string) {
    |p| >= 1 && IsSentenceEnd(p[|p| - 1]) && NoSentenceEnd(p[..|p| - 1])
  }

  /** The shape of a `re.split` with one captured character: terminator-free pieces
      alternating with single terminators, starting and ending with the former. */
  predicate Alternates(parts: seq<string>)
    decreases |parts|
  {
    |parts| >= 1 && NoSentenceEnd(parts[0])
    && (|parts| == 1 || (|parts| >= 3 && IsTerminatorPiece(parts[1]) && Alternates(parts[2..])))
  }

  /** `re.split(r'([。！？])', text)`: the text between terminators, each terminator
      kept as a piece of its own by the capturing group; joined up, the pieces give
      the text back. */
  function SplitAtSentenceEnds(s: string): (parts: seq<string>)
    ensures Alternates(parts)
    ensures Concat(parts) == s
    decreases |s|
  {
    if s == [] then [[]]
    else
      var rest := SplitAtSentenceEnds(s[1..]);
      if IsSentenceEnd(s[0]) then
        ConsTerminator(s[0], rest);
        [[], [s[0]]] + rest
      else
        ConsText(s[0], rest);
        [[s[0]] + rest[0]] + rest[1..]
  }

  lemma ConsTerminator(c: char, rest: seq<string>)
    requires IsSentenceEnd(c) && Alternates(rest)
    ensures Alternates([[], [c]] + rest)
    ensures Concat([[], [c]] + rest) == [c] + Concat(rest)
  {
    var parts := [[], [c]] + rest;
    assert parts[2..] == rest;
    assert parts[1..] == [[c]] + rest;
    assert Concat(parts[1..]) == [c] + Concat(rest);
    assert Concat(parts) == [] + Concat(parts[1..]);
  }

  lemma ConsText(c: char, rest: seq<string>)
    requires !IsSentenceEnd(c) && Alternates(rest)
    ensures Alternates([[c] + rest[0]] + rest[1..])
    ensures Concat([[c] + rest[0]] + rest[1..]) == [c] + Concat(rest)
  {
    var first := [c] + rest[0];
    var parts := [first] + rest[1..];
    assert NoSentenceEnd(first) by {
      forall j | 0 <= j < |first| ensures !IsSentenceEnd(first[j]) {
        if j > 0 {
          assert first[j] == rest[0][j - 1];
        }
      }
    }
    AlternatesNewHead(rest, first);
    assert parts[1..] == rest[1..];
    assert Concat(parts) == first + Concat(rest[1..]);
    assert Concat(rest) == rest[0] + Concat(rest[1..]);
  }

  /** The first piece of a split may be replaced by another terminator-free piece. */
  lemma AlternatesNewHead(parts: seq<string>, first: string)
    requires Alternates(parts) && NoSentenceEnd(first)
    ensures Alternates([first] + parts[1..])
  {
    var r := [first] + parts[1..];
    assert r[0] == first;
    if |parts| > 1 {
      assert r[1] == parts[1] && r[2..] == parts[2..];
    }
  }

  /** `[''.join(i) for i in zip(parts[::2], parts[1::2] + [''])]`: every even piece
      followed by the piece after it, the last one alone. */
  function PairTerminators(parts: seq<string>): (r: seq<string>)
    ensures |parts| >= 1 ==> |r| >= 1
    ensures |r| <= |parts|
    decreases |parts|
  {
    if |parts| == 0 then []
    else if |parts| == 1 then [parts[0]]
    else [parts[0] + parts[1]] + PairTerminators(parts[2..])
  }

  /** The paired pieces of a split: every piece but the last is a complete sentence,
      and the last holds no terminator. */
  predicate SentenceShape(ps: seq<string>) {
    |ps| >= 1
    && (forall k :: 0 <= k < |ps| - 1 ==> IsSentence(ps[k]))
    && NoSentenceEnd(ps[|ps| - 1])
  }

  lemma {:induction false} PairTerminatorsShape(parts: seq<string>)
    requires Alternates(parts)
    ensures SentenceShape(PairTerminators(parts))
    ensures Concat(PairTerminators(parts)) == Concat(parts)
    decreases |parts|
  {
    PairTerminatorsConcat(parts);
    if |parts| > 1 {
      PairTerminatorsShape(parts[2..]);
      var first := parts[0] + parts[1];
      assert first[..|first| - 1] == parts[0];
      SentenceShapeCons(first, PairTerminators(parts[2..]));
    }
  }

  /** A complete sentence may precede the paired pieces. */
  lemma SentenceShapeCons(first: string, rest: seq<string>)
    requires IsSentence(first) && SentenceShape(rest)
    ensures SentenceShape([first] + rest)
  {
    var r := [first] + rest;
    forall k | 0 <= k < |r| - 1 ensures IsSentence(r[k]) {
      if k > 0 {
        assert r[k] == rest[k - 1];
      }
    }
    assert r[|r| - 1] == rest[|rest| - 1];
  }

  /** The re-paired pieces concatenate to the pieces. */
  lemma {:induction false} PairTerminatorsConcat(parts: seq<string>)
    ensures Concat(PairTerminators(parts)) == Concat(parts)
    decreases |parts|
  {
    if |parts| == 1 {
      ConcatSingle(parts[0]);
    } else if |parts| > 1 {
      PairTerminatorsConcat(parts[2..]);
      var rest := PairTerminators(parts[2..]);
      assert ([parts[0] + parts[1]] + rest)[1..] == rest;
      assert parts[1..][1..] == parts[2..];
      assert Concat(parts) == parts[0] + (parts[1] + Concat(parts[2..]));
    }
  }

  /** The sentence pieces of `organize_content`, before cleaning. */
  function Sentences(text: string): seq<string> {
    PairTerminators(SplitAtSentenceEnds(text))
  }

  /** The sentence pieces concatenate back to the text; every piece but the last is
      terminator-free text ended by one of `。！？`, and the last piece has none. */
  lemma SentencePieces(text: string)
    ensures SentenceShape(Sentences(text))
    ensures Concat(Sentences(text)) == text
  {
    PairTerminatorsShape(SplitAtSentenceEnds(text));
  }
  /** `[TextCleaner.clean_text(s) for s in sentences if s.strip()]`. */
  function CleanSentences(pieces: seq<string>): (r: seq<string>)
    ensures |r| <= |pieces|
    decreases |pieces|
  {
    if pieces == [] then []
    else (if IsBlank(pieces[0]) then [] else [CleanText(pieces[0])]) + CleanSentences(pieces[1..])
  }

  /** Every cleaned sentence is clean. */
  lemma {:induction false} CleanSentencesAreClean(pieces: seq<string>)
    ensures forall k :: 0 <= k < |CleanSentences(pieces)| ==> IsClean(CleanSentences(pieces)[k])
    decreases |pieces|
  {
    if pieces != [] {
      CleanSentencesAreClean(pieces[1..]);
      CleanTextWhitelisted(pieces[0]);
      CleanTextSpacing(pieces[0]);
    }
  }

  /** Cleaning the sentences keeps, in order, exactly the whitelisted characters of
      the pieces that are not whitespace, apart from the spaces `clean_text` leaves
      behind. */
  lemma {:induction false} CleanSentencesContent(pieces: seq<string>)
    ensures Filter(NotSpace, Concat(CleanSentences(pieces))) == Filter(KeptByHorizontalCleaner, Concat(pieces))
    decreases |pieces|
  {
    if pieces != [] {
      var p := pieces[0];
      var head := if IsBlank(p) then [] else [CleanText(p)];
      CleanSentencesContent(pieces[1..]);
      ConcatAppend(head, CleanSentences(pieces[1..]));
      FilterAppend(NotSpace, Concat(head), Concat(CleanSentences(pieces[1..])));
      FilterAppend(KeptByHorizontalCleaner, p, Concat(pieces[1..]));
      if IsBlank(p) {
        FilterDropsAll(KeptByHorizontalCleaner, p);
      } else {
        ConcatSingle(CleanText(p));
        CleanTextContent(p);
      }
    }
  }

  /** The cleaned sentences of `text`, the input of the merging loop. */
  function CleanedSentences(text: string): seq<string> {
    CleanSentences(Sentences(text))
  }

  // ---------------------------------------------------------------------------
  // Grouping short sentences
  // ---------------------------------------------------------------------------

  /** The threshold of `len(sentence) < 15`. */
  const ShortSentenceLength: nat := 15

  predicate IsShort(s: string) {
    |s| < ShortSentenceLength
  }

  /** A group made of one sentence that is not short. */
  predicate IsLongBlock(b: seq<string>) {
    |b| == 1 && !IsShort(b[0])
  }

  /** A group made of a non-empty run of short sentences. */
  predicate IsShortRun(b: seq<string>) {
    |b| > 0 && forall i :: 0 <= i < |b| ==> IsShort(b[i])
  }

  predicate IsGroup(b: seq<string>) {
    IsLongBlock(b) || IsShortRun(b)
  }

  /** Every group is of one of the two kinds, and two runs of short sentences are
      never next to each other (so every run is maximal). */
  predicate WellGrouped(bs: seq<seq<string>>) {
    (forall k :: 0 <= k < |bs| ==> IsGroup(bs[k]))
    && (forall k :: 1 <= k < |bs| ==> !(IsShortRun(bs[k - 1]) && IsShortRun(bs[k])))
  }

  /** The groups, laid end to end. */
  function Flatten(bs: seq<seq<string>>): seq<string>
    decreases |bs|
  {
    if bs == [] then [] else Flatten(bs[..|bs| - 1]) + bs[|bs| - 1]
  }

  /** `bs` cuts `ss` into single long sentences and maximal runs of short ones. */
  predicate IsRunDecomposition(ss: seq<string>, bs: seq<seq<string>>) {
    Flatten(bs) == ss && WellGrouped(bs)
  }

  /** One step of the loop of `organize_content`: a short sentence extends an open run
      of short sentences; anything else starts a new group. */
  function AddSentence(bs: seq<seq<string>>, x: string): seq<seq<string>> {
    if IsShort(x) && bs != [] && IsShortRun(bs[|bs| - 1]) then
      bs[..|bs| - 1] + [bs[|bs| - 1] + [x]]
    else
      bs + [[x]]
  }

  /** The grouping that `organize_content` performs, sentence by sentence. */
  function Blocks(ss: seq<string>): seq<seq<string>>
    decreases |ss|
  {
    if ss == [] then [] else AddSentence(Blocks(ss[..|ss| - 1]), ss[|ss| - 1])
  }

  lemma BlocksPrefixStep(ss: seq<string>, i: nat)
    requires i < |ss|
    ensures Blocks(ss[..i + 1]) == AddSentence(Blocks(ss[..i]), ss[i])
  {
    assert ss[..i + 1][..i] == ss[..i];
  }

  lemma WellGroupedPrefix(bs: seq<seq<string>>, n: nat)
    requires WellGrouped(bs) && n <= |bs|
    ensures WellGrouped(bs[..n])
  {
    var front := bs[..n];
    forall k | 0 <= k < |front| ensures IsGroup(front[k]) {
      assert front[k] == bs[k];
    }
    forall k | 1 <= k < |front| ensures !(IsShortRun(front[k - 1]) && IsShortRun(front[k])) {
      assert front[k - 1] == bs[k - 1] && front[k] == bs[k];
    }
  }

  /** A group may follow a well grouped sequence unless both are short runs. */
  lemma WellGroupedSnoc(bs: seq<seq<string>>, b: seq<string>)
    requires WellGrouped(bs) && IsGroup(b)
    requires bs != [] && IsShortRun(bs[|bs| - 1]) ==> !IsShortRun(b)
    ensures WellGrouped(bs + [b])
  {
    var ext := bs + [b];
    forall k | 0 <= k < |ext| ensures IsGroup(ext[k]) {
      if k < |bs| {
        assert ext[k] == bs[k];
      }
    }
    forall k | 1 <= k < |ext| ensures !(IsShortRun(ext[k - 1]) && IsShortRun(ext[k])) {
      assert ext[k - 1] == bs[k - 1];
      if k < |bs| {
        assert ext[k] == bs[k];
      }
    }
  }

  /** The last short run of a well grouped sequence may be replaced by another one. */
  lemma WellGroupedReplaceLast(bs: seq<seq<string>>, b: seq<string>)
    requires WellGrouped(bs) && bs != [] && IsShortRun(bs[|bs| - 1]) && IsShortRun(b)
    ensures WellGrouped(bs[..|bs| - 1] + [b])
  {
    var front := bs[..|bs| - 1];
    WellGroupedPrefix(bs, |bs| - 1);
    if front != [] {
      assert front[|front| - 1] == bs[|bs| - 2];
    }
    WellGroupedSnoc(front, b);
  }

  lemma FlattenSnoc(bs: seq<seq<string>>, b: seq<string>)
    ensures Flatten(bs + [b]) == Flatten(bs) + b
  {
    assert (bs + [b])[..|bs|] == bs;
  }

  /** One step keeps the groups well formed and appends the sentence to them. */
  lemma AddSentenceDecomposes(bs: seq<seq<string>>, x: string)
    requires WellGrouped(bs)
    ensures WellGrouped(AddSentence(bs, x))
    ensures Flatten(AddSentence(bs, x)) == Flatten(bs) + [x]
  {
    if IsShort(x) && bs != [] && IsShortRun(bs[|bs| - 1]) {
      var front := bs[..|bs| - 1];
      var last := bs[|bs| - 1];
      assert front + [last] == bs;
      FlattenSnoc(front, last);
      FlattenSnoc(front, last + [x]);
      WellGroupedReplaceLast(bs, last + [x]);
    } else {
      FlattenSnoc(bs, [x]);
      WellGroupedSnoc(bs, [x]);
    }
  }

  /** `Blocks` cuts the sentences into long sentences and maximal short runs. */
  lemma {:induction false} BlocksDecompose(ss: seq<string>)
    ensures IsRunDecomposition(ss, Blocks(ss))
    decreases |ss|
  {
    if ss != [] {
      var init := ss[..|ss| - 1];
      BlocksDecompose(init);
      AddSentenceDecomposes(Blocks(init), ss[|ss| - 1]);
      assert init + [ss[|ss| - 1]] == ss;
    }
  }

  /** A sentence that cannot extend the last group starts a group of its own. */
  lemma AddSentenceStartsGroup(front: seq<seq<string>>, x: string)
    requires WellGrouped(front + [[x]])
    ensures AddSentence(front, x) == front + [[x]]
  {
    if IsShort(x) && front != [] {
      var ext := front + [[x]];
      assert ext[|front| - 1] == front[|front| - 1] && ext[|front|] == [x];
    }
  }

  /** A short sentence after a short run extends that run. */
  lemma AddSentenceExtendsRun(front: seq<seq<string>>, run: seq<string>, x: string)
    requires IsShortRun(run + [x])
    requires |run| > 0
    ensures AddSentence(front + [run], x) == front + [run + [x]]
  {
    var bs := front + [run];
    assert run == (run + [x])[..|run|];
    assert IsShort(x) by {
      assert x == (run + [x])[|run|];
    }
    assert bs[..|bs| - 1] == front;
  }

  /** There is only one decomposition into long sentences and maximal short runs, so
      `Blocks` is the only grouping with these properties. */
  lemma {:induction false} BlocksUnique(ss: seq<string>, bs: seq<seq<string>>)
    requires IsRunDecomposition(ss, bs)
    ensures bs == Blocks(ss)
    decreases |ss|
  {
    if bs != [] {
      var n := |bs|;
      var front := bs[..n - 1];
      var last := bs[n - 1];
      assert front + [last] == bs;
      FlattenSnoc(front, last);
      assert IsGroup(last);
      WellGroupedPrefix(bs, n - 1);
      var init := ss[..|ss| - 1];
      var x := ss[|ss| - 1];
      assert last[|last| - 1] == x;
      if |last| == 1 {
        assert last == [x];
        assert Flatten(front) == init;
        BlocksUnique(init, front);
        AddSentenceStartsGroup(front, x);
      } else {
        var shorter := last[..|last| - 1];
        assert last == shorter + [x];
        assert Flatten(front) + shorter == init;
        FlattenSnoc(front, shorter);
        WellGroupedReplaceLast(bs, shorter);
        BlocksUnique(init, front + [shorter]);
        AddSentenceExtendsRun(front, shorter, x);
      }
    }
  }

  /** `''.join` of every group. */
  function JoinAll(bs: seq<seq<string>>): (r: seq<string>)
    ensures |r| == |bs|
    decreases |bs|
  {
    if bs == [] then [] else [Concat(bs[0])] + JoinAll(bs[1..])
  }

  /** The `k`-th paragraph is the join of the `k`-th group. */
  lemma {:induction false} JoinAllAt(bs: seq<seq<string>>, k: nat)
    requires k < |bs|
    ensures JoinAll(bs)[k] == Concat(bs[k])
    decreases k
  {
    if k > 0 {
      JoinAllAt(bs[1..], k - 1);
    }
  }

  lemma JoinAllSnoc(bs: seq<seq<string>>, b: seq<string>)
    ensures JoinAll(bs + [b]) == JoinAll(bs) + [Concat(b)]
  {
    var ext := bs + [b];
    forall k | 0 <= k < |ext| ensures JoinAll(ext)[k] == (JoinAll(bs) + [Concat(b)])[k] {
      JoinAllAt(ext, k);
      if k < |bs| {
        JoinAllAt(bs, k);
      }
    }
  }

  /** The groups whose joined text is not blank. */
  function KeepNonBlankGroups(bs: seq<seq<string>>): seq<seq<string>>
    decreases |bs|
  {
    if bs == [] then []
    else (if IsBlank(Concat(bs[0])) then [] else [bs[0]]) + KeepNonBlankGroups(bs[1..])
  }

  /** The paragraphs built from a sequence of cleaned sentences. */
  function Paragraphs(ss: seq<string>): seq<string> {
    KeepNonBlank(JoinAll(Blocks(ss)))
  }

  /** What `organize_content` returns for `text`. */
  function OrganizeSpec(text: string): seq<string> {
    Paragraphs(CleanedSentences(text))
  }

  /** The group still open in the loop, if any. */
  function OpenGroup(current: seq<string>): seq<seq<string>> {
    if current == [] then [] else [current]
  }

  /** A short sentence joins the open run, or opens one after a closed long sentence. */
  lemma ShortStep(closed: seq<seq<string>>, current: seq<string>, x: string)
    requires current != [] ==> IsShortRun(current)
    requires current == [] ==> closed == [] || !IsShortRun(closed[|closed| - 1])
    requires IsShort(x)
    ensures AddSentence(closed + OpenGroup(current), x) == closed + OpenGroup(current + [x])
    ensures IsShortRun(current + [x])
  {
    if current == [] {
      assert closed + OpenGroup(current) == closed;
      assert current + [x] == [x];
    } else {
      AddSentenceExtendsRun(closed, current, x);
    }
  }

  /** The paragraph that closing the open group adds, if any. */
  function Flushed(current: seq<string>): seq<string> {
    if current == [] then [] else [Concat(current)]
  }

  /** A long sentence closes the open group and becomes a group of its own. */
  lemma LongStep(closed: seq<seq<string>>, current: seq<string>, x: string)
    requires !IsShort(x)
    ensures AddSentence(closed + OpenGroup(current), x) == closed + OpenGroup(current) + [[x]]
    ensures JoinAll(closed + OpenGroup(current) + [[x]]) == JoinAll(closed) + Flushed(current) + [x]
    ensures !IsShortRun([x])
  {
    var bs := closed + OpenGroup(current);
    FinalFlush(closed, current);
    JoinAllSnoc(bs, [x]);
    ConcatSingle(x);
  }

  /** At the end, the open group is closed. */
  lemma FinalFlush(closed: seq<seq<string>>, current: seq<string>)
    ensures JoinAll(closed + OpenGroup(current)) == JoinAll(closed) + Flushed(current)
  {
    if current == [] {
      assert closed + OpenGroup(current) == closed;
    } else {
      JoinAllSnoc(closed, current);
    }
  }

  /** The state of the merging loop after the sentences `done`: the groups closed so
      far and the open run `current` make up their grouping, and `current` is a run
      of short sentences that may only be empty after a closed long sentence. */
  predicate MergeState(done: seq<string>, closed: seq<seq<string>>, current: seq<string>) {
    Blocks(done) == closed + OpenGroup(current)
    && (current != [] ==> IsShortRun(current))
    && (current == [] ==> closed == [] || !IsShortRun(closed[|closed| - 1]))
  }

  /** The loop state after a short sentence: it is appended to the open run. */
  lemma ShortSentenceStep(ss: seq<string>, i: nat, closed: seq<seq<string>>, current: seq<string>)
    requires i < |ss| && IsShort(ss[i])
    requires MergeState(ss[..i], closed, current)
    ensures MergeState(ss[..i + 1], closed, current + [ss[i]])
  {
    BlocksPrefixStep(ss, i);
    ShortStep(closed, current, ss[i]);
  }

  /** The loop state after a long sentence: the open run and the sentence are closed,
      and the paragraphs gain the flushed run and the sentence. */
  lemma LongSentenceStep(ss: seq<string>, i: nat, closed: seq<seq<string>>, current: seq<string>)
    requires i < |ss| && !IsShort(ss[i])
    requires MergeState(ss[..i], closed, current)
    ensures MergeState(ss[..i + 1], closed + OpenGroup(current) + [[ss[i]]], [])
    ensures JoinAll(closed + OpenGroup(current) + [[ss[i]]]) == JoinAll(closed) + Flushed(current) + [ss[i]]
  {
    BlocksPrefixStep(ss, i);
    LongStep(closed, current, ss[i]);
    var ext := closed + OpenGroup(current) + [[ss[i]]];
    assert ext[|ext| - 1] == [ss[i]];
  }

  /** The merging loop of `organize_content`: short sentences are appended to
      `current`, which is flushed as one paragraph before every long sentence and at
      the end; a long sentence is a paragraph of its own. */
  method MergeShortSentences(sentences: seq<string>) returns (collected: seq<string>)
    ensures collected == JoinAll(Blocks(sentences))
  {
    collected := [];
    var current: seq<string> := [];
    ghost var closed: seq<seq<string>> := [];
    for i := 0 to |sentences|
      invariant MergeState(sentences[..i], closed, current)
      invariant collected == JoinAll(closed)
    {
      var sentence := sentences[i];
      if |sentence| < ShortSentenceLength {
        ShortSentenceStep(sentences, i, closed, current);
        current := current + [sentence];
      } else {
        LongSentenceStep(sentences, i, closed, current);
        closed := closed + OpenGroup(current) + [[sentence]];
        if current != [] {
          collected := collected + [Concat(current)];
          current := [];
        }
        collected := collected + [sentence];
      }
    }
    FinalFlush(closed, current);
    closed := closed + OpenGroup(current);
    if current != [] {
      collected := collected + [Concat(current)];
    }
    assert sentences[..|sentences|] == sentences;
  }

  /** `TextCleaner.organize_content` of the horizontal parser: split into sentences,
      clean the non-blank ones, merge the short ones, drop blank paragraphs. */
  method OrganizeContent(text: string) returns (paragraphs: seq<string>)
    ensures paragraphs == OrganizeSpec(text)
  {
    var sentences := CleanSentences(Sentences(text));
    var collected := MergeShortSentences(sentences);
    paragraphs := KeepNonBlank(collected);
  }

  // ---------------------------------------------------------------------------
  // Properties of the paragraphs
  // ---------------------------------------------------------------------------

  /** A member of a group is a member of the flattened sequence. */
  lemma {:induction false} FlattenMember(bs: seq<seq<string>>, k: nat, j: nat)
    requires k < |bs| && j < |bs[k]|
    ensures bs[k][j] in Flatten(bs)
    decreases |bs|
  {
    var front := bs[..|bs| - 1];
    if k < |bs| - 1 {
      FlattenMember(front, k, j);
      assert front[k] == bs[k];
    }
  }

  /** What `KeepNonBlank` keeps comes from its input. */
  lemma {:induction false} KeepNonBlankSubset(ps: seq<string>)
    ensures forall k :: 0 <= k < |KeepNonBlank(ps)| ==> KeepNonBlank(ps)[k] in ps
    decreases |ps|
  {
    if ps != [] {
      KeepNonBlankSubset(ps[1..]);
    }
  }

  /** `''.join` of strings with no blank end is blank only when it is empty. */
  lemma {:induction false} ConcatTrimmedBlank(ps: seq<string>)
    requires forall k :: 0 <= k < |ps| ==> Trimmed(ps[k])
    ensures IsBlank(Concat(ps)) ==> Concat(ps) == []
    decreases |ps|
  {
    if ps != [] && IsBlank(Concat(ps)) {
      var c := Concat(ps);
      var rest := Concat(ps[1..]);
      assert c == ps[0] + rest;
      assert IsBlank(ps[0]) by {
        forall i | 0 <= i < |ps[0]| ensures IsSpace(ps[0][i]) {
          assert ps[0][i] == c[i];
        }
      }
      assert IsBlank(rest) by {
        forall i | 0 <= i < |rest| ensures IsSpace(rest[i]) {
          assert rest[i] == c[|ps[0]| + i];
        }
      }
      ConcatTrimmedBlank(ps[1..]);
    }
  }

  /** Dropping blank strings that are all empty does not change the concatenation. */
  lemma {:induction false} KeepNonBlankConcat(ps: seq<string>)
    requires forall k :: 0 <= k < |ps| ==> IsBlank(ps[k]) ==> ps[k] == []
    ensures Concat(KeepNonBlank(ps)) == Concat(ps)
    decreases |ps|
  {
    if ps != [] {
      KeepNonBlankConcat(ps[1..]);
      var head := if IsBlank(ps[0]) then [] else [ps[0]];
      ConcatAppend(head, KeepNonBlank(ps[1..]));
      ConcatSingle(ps[0]);
    }
  }

  lemma {:induction false} JoinAllConcat(bs: seq<seq<string>>)
    ensures Concat(JoinAll(bs)) == Concat(Flatten(bs))
    decreases |bs|
  {
    if bs != [] {
      var front := bs[..|bs| - 1];
      var last := bs[|bs| - 1];
      assert front + [last] == bs;
      JoinAllConcat(front);
      JoinAllSnoc(front, last);
      ConcatAppend(JoinAll(front), [Concat(last)]);
      ConcatAppend(Flatten(front), last);
      ConcatSingle(Concat(last));
    }
  }

  lemma {:induction false} JoinAllKeep(bs: seq<seq<string>>)
    ensures JoinAll(KeepNonBlankGroups(bs)) == KeepNonBlank(JoinAll(bs))
    decreases |bs|
  {
    if bs != [] {
      JoinAllKeep(bs[1..]);
      var rest := KeepNonBlankGroups(bs[1..]);
      assert JoinAll(bs) == [Concat(bs[0])] + JoinAll(bs[1..]);
      if IsBlank(Concat(bs[0])) {
        assert KeepNonBlankGroups(bs) == rest;
      } else {
        var kept := [bs[0]] + rest;
        assert kept[0] == bs[0] && kept[1..] == rest;
        assert JoinAll(kept) == [Concat(bs[0])] + JoinAll(rest);
      }
    }
  }

  /** When no long sentence is blank, dropping the blank groups keeps the sequence well
      grouped; a short run at the front of what is left is the first group itself. */
  lemma {:induction false} KeepNonBlankGroupsWellGrouped(bs: seq<seq<string>>)
    requires WellGrouped(bs)
    requires forall k :: 0 <= k < |bs| && IsLongBlock(bs[k]) ==> !IsBlank(Concat(bs[k]))
    ensures WellGrouped(KeepNonBlankGroups(bs))
    ensures var kept := KeepNonBlankGroups(bs);
            kept != [] && IsShortRun(kept[0]) ==> kept[0] == bs[0]
    decreases |bs|
  {
    if bs != [] {
      var rest := bs[1..];
      assert bs[1..] == bs[1..|bs|];
      assert WellGrouped(rest) by {
        forall k | 0 <= k < |rest| ensures IsGroup(rest[k]) {
          assert rest[k] == bs[k + 1];
        }
        forall k | 1 <= k < |rest| ensures !(IsShortRun(rest[k - 1]) && IsShortRun(rest[k])) {
          assert rest[k - 1] == bs[k] && rest[k] == bs[k + 1];
        }
      }
      KeepNonBlankGroupsWellGrouped(rest);
      var kr := KeepNonBlankGroups(rest);
      if !IsBlank(Concat(bs[0])) {
        var kept := [bs[0]] + kr;
        assert kept == KeepNonBlankGroups(bs);
        forall k | 1 <= k < |kept| ensures !(IsShortRun(kept[k - 1]) && IsShortRun(kept[k])) {
          if k == 1 {
            if IsShortRun(kept[1]) {
              assert kr[0] == rest[0] == bs[1];
              assert !IsShortRun(bs[0]);
            }
          } else {
            assert kept[k - 1] == kr[k - 2] && kept[k] == kr[k - 1];
          }
        }
        forall k | 0 <= k < |kept| ensures IsGroup(kept[k]) {
          if k > 0 {
            assert kept[k] == kr[k - 1];
          }
        }
      } else {
        assert IsShortRun(bs[0]);
        if |bs| > 1 {
          assert rest[0] == bs[1];
          assert !IsShortRun(rest[0]);
        }
      }
    }
  }

  /** From clean sentences come clean, non-blank paragraphs without a newline. */
  lemma ParagraphsClean(ss: seq<string>)
    requires forall k :: 0 <= k < |ss| ==> IsClean(ss[k])
    ensures forall k :: 0 <= k < |Paragraphs(ss)| ==>
      Paragraphs(ss)[k] != [] && IsClean(Paragraphs(ss)[k]) && '\n' !in Paragraphs(ss)[k]
  {
    var bs := Blocks(ss);
    BlocksDecompose(ss);
    var joined := JoinAll(bs);
    forall k | 0 <= k < |joined| ensures IsClean(joined[k]) {
      JoinAllAt(bs, k);
      forall j | 0 <= j < |bs[k]| ensures IsClean(bs[k][j]) {
        FlattenMember(bs, k, j);
      }
      ConcatClean(bs[k]);
    }
    KeepNonBlankSubset(joined);
    forall k | 0 <= k < |Paragraphs(ss)| ensures '\n' !in Paragraphs(ss)[k] {
      NormalizedHasNoNewline(Paragraphs(ss)[k]);
    }
  }

  /** From clean sentences, the paragraphs concatenate to the sentences concatenated. */
  lemma ParagraphsConcat(ss: seq<string>)
    requires forall k :: 0 <= k < |ss| ==> Trimmed(ss[k])
    ensures Concat(Paragraphs(ss)) == Concat(ss)
  {
    var bs := Blocks(ss);
    BlocksDecompose(ss);
    var joined := JoinAll(bs);
    forall k | 0 <= k < |joined| ensures IsBlank(joined[k]) ==> joined[k] == [] {
      JoinAllAt(bs, k);
      forall j | 0 <= j < |bs[k]| ensures Trimmed(bs[k][j]) {
        FlattenMember(bs, k, j);
      }
      ConcatTrimmedBlank(bs[k]);
    }
    KeepNonBlankConcat(joined);
    JoinAllConcat(bs);
  }

  /** A single sentence of at least 15 code points with no blank end is not blank. */
  lemma LongBlockNotBlank(b: seq<string>)
    requires IsLongBlock(b) && Trimmed(b[0])
    ensures !IsBlank(Concat(b))
  {
    ConcatSingle(b[0]);
    assert !IsSpace(b[0][0]);
  }

  /** From clean sentences, the paragraphs are the joins of the non-blank groups, and
      those stay well grouped. */
  lemma ParagraphsRuns(ss: seq<string>)
    requires forall k :: 0 <= k < |ss| ==> Trimmed(ss[k])
    ensures var kept := KeepNonBlankGroups(Blocks(ss));
            Paragraphs(ss) == JoinAll(kept) && WellGrouped(kept)
  {
    var bs := Blocks(ss);
    BlocksDecompose(ss);
    JoinAllKeep(bs);
    forall k | 0 <= k < |bs| && IsLongBlock(bs[k]) ensures !IsBlank(Concat(bs[k])) {
      FlattenMember(bs, k, 0);
      LongBlockNotBlank(bs[k]);
    }
    KeepNonBlankGroupsWellGrouped(bs);
  }

  /** Every paragraph of `organize_content` is non-empty and itself clean (whitelisted
      characters, single spaces, no blank end), so it holds no newline. */
  lemma OrganizeParagraphsClean(text: string)
    ensures forall k :: 0 <= k < |OrganizeSpec(text)| ==>
      OrganizeSpec(text)[k] != [] && IsClean(OrganizeSpec(text)[k]) && '\n' !in OrganizeSpec(text)[k]
  {
    CleanSentencesAreClean(Sentences(text));
    ParagraphsClean(CleanedSentences(text));
  }

  /** Concatenating the paragraphs gives exactly the concatenation of the cleaned
      sentences, in order: only empty strings are dropped. */
  lemma OrganizeConcat(text: string)
    ensures Concat(OrganizeSpec(text)) == Concat(CleanedSentences(text))
  {
    CleanSentencesAreClean(Sentences(text));
    ParagraphsConcat(CleanedSentences(text));
  }

  /** The paragraphs are the joins of the non-blank groups of the cleaned sentences,
      where every group is a single sentence of at least 15 code points or a maximal
      run of shorter ones, and no two runs of short sentences are adjacent. */
  lemma OrganizeRuns(text: string)
    ensures var kept := KeepNonBlankGroups(Blocks(CleanedSentences(text)));
            OrganizeSpec(text) == JoinAll(kept) && WellGrouped(kept)
  {
    CleanSentencesAreClean(Sentences(text));
    ParagraphsRuns(CleanedSentences(text));
  }

  /** `organize_content` loses only whitespace and characters outside the whitelist:
      the other characters of its paragraphs are those of the text, in their order. */
  lemma OrganizeKeepsContent(text: string)
    ensures Filter(NotSpace, Concat(OrganizeSpec(text))) == Filter(KeptByHorizontalCleaner, text)
  {
    OrganizeConcat(text);
    CleanSentencesContent(Sentences(text));
    SentencePieces(text);
  }

  /** An empty text has no paragraphs. */
  lemma OrganizeEmpty()
    ensures OrganizeSpec([]) == []
  {
    assert SplitAtSentenceEnds([]) == [[]];
    assert Sentences([]) == [[]];
    assert CleanedSentences([]) == [];
  }
}
