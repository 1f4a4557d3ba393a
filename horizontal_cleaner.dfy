/** `TextCleaner.clean_text` of the horizontal parser: a whitelist filter followed by
    whitespace normalisation, a page-number deletion and a strip. */
module HorizontalCleaner {
  import opened Chars
  import opened Strings

  // ---------------------------------------------------------------------------
  // clean_text
  // ---------------------------------------------------------------------------

  /** Every whitespace character is the ASCII space and no two of them are adjacent. */
  predicate SpacesNormalized(s: string) {
    (forall i :: 0 <= i < |s| && IsSpace(s[i]) ==> s[i] == ' ')
    && (forall i :: 1 <= i < |s| ==> !(IsSpace(s[i - 1]) && IsSpace(s[i])))
  }

  /** What `clean_text` can return: whitelisted characters only, single spaces,
      nothing blank at either end. */
  predicate IsClean(s: string) {
    Trimmed(s) && SpacesNormalized(s) && forall i :: 0 <= i < |s| ==> InHorizontalWhitelist(s[i])
  }

  /** `re.sub(r'\s+', ' ', text)`: every maximal run of whitespace becomes one space. */
  function CollapseSpaces(s: string): (r: string)
    ensures |r| <= |s|
    ensures r == [] <==> s == []
    ensures r != [] ==> (IsSpace(r[0]) <==> IsSpace(s[0]))
    ensures SpacesNormalized(r)
    decreases |s|
  {
    if s == [] then []
    else if IsSpace(s[0]) then [' '] + CollapseSpaces(s[LeadingSpaces(s)..])
    else [s[0]] + CollapseSpaces(s[1..])
  }

  /** Collapsing introduces no character but `' '`: a class that holds the space and
      every character of `s` holds every character of the result. */
  lemma {:induction false} CollapseKeepsClass(p: char -> bool, s: string)
    requires p(' ') && forall i :: 0 <= i < |s| ==> p(s[i])
    ensures forall i :: 0 <= i < |CollapseSpaces(s)| ==> p(CollapseSpaces(s)[i])
    decreases |s|
  {
    if s != [] {
      var n := if IsSpace(s[0]) then LeadingSpaces(s) else 1;
      assert forall i :: 0 <= i < |s[n..]| ==> p(s[n..][i]) by {
        forall i | 0 <= i < |s[n..]| ensures p(s[n..][i]) {
          assert s[n..][i] == s[n + i];
        }
      }
      CollapseKeepsClass(p, s[n..]);
    }
  }

  /** Collapsing touches only whitespace: the other characters are kept, in order. */
  lemma {:induction false} CollapseKeepsNonSpace(s: string)
    ensures Filter(NotSpace, CollapseSpaces(s)) == Filter(NotSpace, s)
    decreases |s|
  {
    if s != [] {
      if IsSpace(s[0]) {
        var n := LeadingSpaces(s);
        CollapseKeepsNonSpace(s[n..]);
        assert s == s[..n] + s[n..];
        FilterAppend(NotSpace, s[..n], s[n..]);
        FilterDropsAll(NotSpace, s[..n]);
        FilterAppend(NotSpace, [' '], CollapseSpaces(s[n..]));
        assert Filter(NotSpace, [' ']) == [];
      } else {
        CollapseKeepsNonSpace(s[1..]);
        FilterAppend(NotSpace, [s[0]], CollapseSpaces(s[1..]));
        assert Filter(NotSpace, [s[0]]) == [s[0]] + Filter(NotSpace, []);
      }
    }
  }

  /** Collapsing leaves an already normalised string alone. */
  lemma {:induction false} CollapseFixesNormalized(s: string)
    requires SpacesNormalized(s)
    ensures CollapseSpaces(s) == s
    decreases |s|
  {
    if s != [] {
      if IsSpace(s[0]) {
        assert |s| > 1 ==> !IsSpace(s[1]);
        assert LeadingSpaces(s) == 1;
      }
      CollapseFixesNormalized(s[1..]);
      assert [s[0]] + s[1..] == s;
    }
  }

  /** The count of leading whitespace is fixed by its three defining properties. */
  lemma LeadingSpacesUnique(s: string, n: nat)
    requires n <= |s|
    requires forall i :: 0 <= i < n ==> IsSpace(s[i])
    requires n < |s| ==> !IsSpace(s[n])
    ensures LeadingSpaces(s) == n
  {
  }

  /** Where `a` ends in a non-whitespace character no whitespace run crosses the seam,
      so `a + b` collapses piece by piece. */
  lemma {:induction false} CollapseAppend(a: string, b: string)
    requires a == [] || !IsSpace(a[|a| - 1])
    ensures CollapseSpaces(a + b) == CollapseSpaces(a) + CollapseSpaces(b)
    decreases |a|
  {
    if a == [] {
      assert a + b == b;
    } else {
      var n := if IsSpace(a[0]) then LeadingSpaces(a) else 1;
      var head := [if IsSpace(a[0]) then ' ' else a[0]];
      CollapseAppendStep(a, b, n, head);
      CollapseAppend(a[n..], b);
      Associative(head, CollapseSpaces(a[n..]), CollapseSpaces(b));
    }
  }

  /** The first step of collapsing `a + b` consumes only characters of `a`. */
  lemma CollapseAppendStep(a: string, b: string, n: nat, head: string)
    requires a != [] && !IsSpace(a[|a| - 1])
    requires n == if IsSpace(a[0]) then LeadingSpaces(a) else 1
    requires head == [if IsSpace(a[0]) then ' ' else a[0]]
    ensures n <= |a| && (a[n..] == [] || !IsSpace(a[n..][|a[n..]| - 1]))
    ensures CollapseSpaces(a) == head + CollapseSpaces(a[n..])
    ensures CollapseSpaces(a + b) == head + CollapseSpaces(a[n..] + b)
  {
    if IsSpace(a[0]) {
      assert n < |a|;
      LeadingSpacesUnique(a + b, n);
    }
    DropAppend(a, b, n);
  }

  lemma DropAppend(a: string, b: string, n: nat)
    requires n <= |a|
    ensures (a + b)[n..] == a[n..] + b
  {
  }

  lemma Associative(x: string, y: string, z: string)
    ensures x + y + z == x + (y + z)
  {
  }

  /** A maximal run of whitespace, however long and whatever its characters, becomes
      exactly one ASCII space. */
  lemma CollapseRun(a: string, w: string, b: string)
    requires a == [] || !IsSpace(a[|a| - 1])
    requires w != [] && IsBlank(w)
    requires b == [] || !IsSpace(b[0])
    ensures CollapseSpaces(a + w + b) == CollapseSpaces(a) + " " + CollapseSpaces(b)
  {
    Associative(a, w, b);
    CollapseAppend(a, w + b);
    CollapseLeadingRun(w, b);
    Associative(CollapseSpaces(a), " ", CollapseSpaces(b));
  }

  lemma CollapseLeadingRun(w: string, b: string)
    requires w != [] && IsBlank(w)
    requires b == [] || !IsSpace(b[0])
    ensures CollapseSpaces(w + b) == " " + CollapseSpaces(b)
  {
    LeadingSpacesUnique(w + b, |w|);
    DropAppend(w, b, |w|);
    assert w[|w|..] == [];
  }

  /** The number of digits at the start of `s`. */
  function DigitRun(s: string): (n: nat)
    ensures n <= |s|
    ensures forall i :: 0 <= i < n ==> IsDigit(s[i])
    ensures n < |s| ==> !IsDigit(s[n])
    decreases |s|
  {
    if s != [] && IsDigit(s[0]) then 1 + DigitRun(s[1..]) else 0
  }

  /** The length of the match of `\d+\s*頁` at the start of `s`, or 0 when there is none.
      Digits, whitespace and `頁` are disjoint classes, so the greedy match is the only
      one and no backtracking can find another. */
  function PageNumberAt(s: string): (n: nat)
    ensures n <= |s|
    ensures n > 0 ==> IsDigit(s[0]) && s[n - 1] == PageMark
  {
    var d := DigitRun(s);
    if d == 0 then 0
    else
      var w := d + LeadingSpaces(s[d..]);
      if w < |s| && s[w] == PageMark then w + 1 else 0
  }

  /** The digit run is fixed by its three defining properties. */
  lemma DigitRunUnique(s: string, n: nat)
    requires n <= |s|
    requires forall i :: 0 <= i < n ==> IsDigit(s[i])
    requires n < |s| ==> !IsDigit(s[n])
    ensures DigitRun(s) == n
  {
  }

  /** Digits, then any whitespace, then `頁` is a match of `\d+\s*頁`, and the match
      covers all of it. */
  lemma PageNumberMatch(ds: string, ws: string, rest: string)
    requires ds != [] && forall i :: 0 <= i < |ds| ==> IsDigit(ds[i])
    requires IsBlank(ws)
    ensures PageNumberAt(ds + ws + [PageMark] + rest) == |ds| + |ws| + 1
  {
    var u := [PageMark] + rest;
    var t := ws + u;
    var s := ds + t;
    Associative(ds + ws, [PageMark], rest);
    Associative(ds, ws, u);
    PageMarkBoundary(t[0]);
    DigitRunPrefix(ds, t);
    DropAppend(ds, t, |ds|);
    assert ds[|ds|..] == [];
    PageMarkBoundary(PageMark);
    LeadingSpacesPrefix(ws, u);
    DropAppend(ws, u, |ws|);
    assert ws[|ws|..] == [];
  }

  lemma DigitRunPrefix(ds: string, t: string)
    requires forall i :: 0 <= i < |ds| ==> IsDigit(ds[i])
    requires t == [] || !IsDigit(t[0])
    ensures DigitRun(ds + t) == |ds|
  {
    DigitRunUnique(ds + t, |ds|);
  }

  lemma LeadingSpacesPrefix(ws: string, u: string)
    requires IsBlank(ws)
    requires u == [] || !IsSpace(u[0])
    ensures LeadingSpaces(ws + u) == |ws|
  {
    LeadingSpacesUnique(ws + u, |ws|);
  }

  /** Whitespace and `頁` are no digits, and `頁` is no whitespace. */
  lemma PageMarkBoundary(c: char)
    requires IsSpace(c) || c == PageMark
    ensures !IsDigit(c)
    ensures IsSpace(c) <==> c != PageMark
  {
  }

  /** `re.sub(r'\d+\s*頁', '', text)`: scanning left to right, every match is deleted. */
  function StripPageNumbers(s: string): (r: string)
    ensures |r| <= |s|
    decreases |s|
  {
    if s == [] then []
    else
      var m := PageNumberAt(s);
      if m > 0 then StripPageNumbers(s[m..]) else [s[0]] + StripPageNumbers(s[1..])
  }

  /** A page-number mark at the start is deleted whole, and scanning resumes after it. */
  lemma StripPageNumberMark(ds: string, ws: string, rest: string)
    requires ds != [] && forall i :: 0 <= i < |ds| ==> IsDigit(ds[i])
    requires IsBlank(ws)
    ensures StripPageNumbers(ds + ws + [PageMark] + rest) == StripPageNumbers(rest)
  {
    var s := ds + ws + [PageMark] + rest;
    PageNumberMatch(ds, ws, rest);
    assert s[|ds| + |ws| + 1..] == rest;
  }

  /** Without a digit there is nothing for the page-number substitution to delete. */
  lemma {:induction false} StripPageNumbersWithoutDigits(s: string)
    requires forall i :: 0 <= i < |s| ==> !IsDigit(s[i])
    ensures StripPageNumbers(s) == s
    decreases |s|
  {
    if s != [] {
      StripPageNumbersWithoutDigits(s[1..]);
      assert [s[0]] + s[1..] == s;
    }
  }

  /** `TextCleaner.clean_text` of the horizontal parser. */
  function CleanText(text: string): string {
    Strip(StripPageNumbers(CollapseSpaces(Filter(InHorizontalWhitelist, text))))
  }

  /** The first two substitutions yield only whitelisted characters. */
  lemma CollapsedFilterWhitelisted(text: string)
    ensures var s := CollapseSpaces(Filter(InHorizontalWhitelist, text));
            forall i :: 0 <= i < |s| ==> InHorizontalWhitelist(s[i])
  {
    var f := Filter(InHorizontalWhitelist, text);
    assert IsSpace(' ');
    CollapseKeepsClass(InHorizontalWhitelist, f);
  }

  /** The page-number substitution never matches: the whitelist has already removed
      every digit, so it returns its input unchanged. */
  lemma PageNumberStepIsInert(text: string)
    ensures var s := CollapseSpaces(Filter(InHorizontalWhitelist, text));
            StripPageNumbers(s) == s
  {
    var s := CollapseSpaces(Filter(InHorizontalWhitelist, text));
    CollapsedFilterWhitelisted(text);
    forall i | 0 <= i < |s| ensures !IsDigit(s[i]) {
      WhitelistsExcludeDigitsAndLetters(s[i]);
    }
    StripPageNumbersWithoutDigits(s);
  }

  /** A slice of a normalised string is normalised. */
  lemma SliceNormalized(s: string, a: nat, b: nat)
    requires a <= b <= |s|
    requires SpacesNormalized(s)
    ensures SpacesNormalized(s[a..b])
  {
    var t := s[a..b];
    forall i | 1 <= i < |t| ensures !(IsSpace(t[i - 1]) && IsSpace(t[i])) {
      assert t[i - 1] == s[a + i - 1] && t[i] == s[a + i];
    }
  }

  /** Stripping a normalised string leaves it normalised. */
  lemma StripNormalized(s: string)
    requires SpacesNormalized(s)
    ensures SpacesNormalized(Strip(s))
  {
    var a := LeadingSpaces(s);
    SliceNormalized(s, a, a + |Strip(s)|);
  }

  /** `clean_text` returns only whitelisted characters; in particular no ASCII letter
      and no digit. */
  lemma CleanTextWhitelisted(text: string)
    ensures var r := CleanText(text);
            forall i :: 0 <= i < |r| ==> InHorizontalWhitelist(r[i]) && !IsDigit(r[i]) && !IsAsciiLetter(r[i])
  {
    var s := CollapseSpaces(Filter(InHorizontalWhitelist, text));
    CollapsedFilterWhitelisted(text);
    PageNumberStepIsInert(text);
    var r := CleanText(text);
    assert r == Strip(s);
    StripKeepsClass(InHorizontalWhitelist, s);
    forall i | 0 <= i < |r| ensures !IsDigit(r[i]) && !IsAsciiLetter(r[i]) {
      WhitelistsExcludeDigitsAndLetters(r[i]);
    }
  }

  /** `clean_text` returns a string with no whitespace at either end, whose only
      whitespace is the ASCII space, with no two spaces adjacent. */
  lemma CleanTextSpacing(text: string)
    ensures Trimmed(CleanText(text)) && SpacesNormalized(CleanText(text))
  {
    var s := CollapseSpaces(Filter(InHorizontalWhitelist, text));
    PageNumberStepIsInert(text);
    StripNormalized(s);
  }

  /** The characters of `clean_text(t)` other than spaces are exactly the whitelisted,
      non-whitespace characters of `t`, in their order; and the result is no longer
      than `t`. */
  lemma CleanTextContent(text: string)
    ensures Filter(NotSpace, CleanText(text)) == Filter(KeptByHorizontalCleaner, text)
    ensures |CleanText(text)| <= |text|
  {
    var f := Filter(InHorizontalWhitelist, text);
    var s := CollapseSpaces(f);
    PageNumberStepIsInert(text);
    StripKeepsNonSpace(s);
    CollapseKeepsNonSpace(f);
    FilterThenFilter(InHorizontalWhitelist, NotSpace, KeptByHorizontalCleaner, text);
  }

  /** The fixed points of `clean_text` are exactly the clean strings. */
  lemma CleanTextFixedPoints(s: string)
    ensures CleanText(s) == s <==> IsClean(s)
  {
    if IsClean(s) {
      FilterKeepsAll(InHorizontalWhitelist, s);
      CollapseFixesNormalized(s);
      forall i | 0 <= i < |s| ensures !IsDigit(s[i]) {
        WhitelistsExcludeDigitsAndLetters(s[i]);
      }
      StripPageNumbersWithoutDigits(s);
    }
    if CleanText(s) == s {
      CleanTextWhitelisted(s);
      CleanTextSpacing(s);
    }
  }

  /** `clean_text` is idempotent. */
  lemma CleanTextIdempotent(text: string)
    ensures CleanText(CleanText(text)) == CleanText(text)
  {
    CleanTextWhitelisted(text);
    CleanTextSpacing(text);
    CleanTextFixedPoints(CleanText(text));
  }

  /** Joining two clean strings gives a clean string. */
  lemma CleanAppend(a: string, b: string)
    requires IsClean(a) && IsClean(b)
    ensures IsClean(a + b)
  {
    if a == [] {
      assert a + b == b;
    } else if b == [] {
      assert a + b == a;
    } else {
      var s := a + b;
      forall i | 1 <= i < |s| ensures !(IsSpace(s[i - 1]) && IsSpace(s[i])) {
        if i < |a| {
          assert s[i - 1] == a[i - 1] && s[i] == a[i];
        } else if i == |a| {
          assert s[i - 1] == a[|a| - 1];
        } else {
          assert s[i - 1] == b[i - 1 - |a|] && s[i] == b[i - |a|];
        }
      }
    }
  }

  /** `''.join` of clean strings is clean. */
  lemma {:induction false} ConcatClean(ps: seq<string>)
    requires forall k :: 0 <= k < |ps| ==> IsClean(ps[k])
    ensures IsClean(Concat(ps))
    decreases |ps|
  {
    if ps != [] {
      ConcatClean(ps[1..]);
      CleanAppend(ps[0], Concat(ps[1..]));
    }
  }

  /** A string whose only whitespace is the space has no newline. */
  lemma NormalizedHasNoNewline(s: string)
    requires SpacesNormalized(s)
    ensures '\n' !in s
  {
    if '\n' in s {
      var i :| 0 <= i < |s| && s[i] == '\n';
      assert IsSpace(s[i]);
    }
  }

}
