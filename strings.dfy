/** The Python string operations the parsers use, written out on `seq<char>`:
    filtering by a character class (what a `re.sub` of a negated class with `''` does),
    `str.strip()`, `str.split(sep)`, `sep.join(parts)` and `''.join(parts)`. */
module Strings {
  import opened Chars

  /** The characters of `s` that satisfy `p`, in their original order. */
  function Filter(p: char -> bool, s: string): (r: string)
    ensures |r| <= |s|
    ensures forall i :: 0 <= i < |r| ==> p(r[i])
    decreases |s|
  {
    if s == [] then [] else (if p(s[0]) then [s[0]] else []) + Filter(p, s[1..])
  }

  lemma {:induction false} FilterAppend(p: char -> bool, a: string, b: string)
    ensures Filter(p, a + b) == Filter(p, a) + Filter(p, b)
    decreases |a|
  {
    if a != [] {
      assert (a + b)[0] == a[0] && (a + b)[1..] == a[1..] + b;
      FilterAppend(p, a[1..], b);
      var h := if p(a[0]) then [a[0]] else [];
      assert Filter(p, a + b) == h + (Filter(p, a[1..]) + Filter(p, b));
    } else {
      assert a + b == b;
    }
  }

  /** Filtering changes nothing exactly when every character already passes. */
  lemma {:induction false} FilterKeepsAll(p: char -> bool, s: string)
    ensures Filter(p, s) == s <==> forall i :: 0 <= i < |s| ==> p(s[i])
    decreases |s|
  {
    if s != [] {
      FilterKeepsAll(p, s[1..]);
      if Filter(p, s) == s {
        assert |Filter(p, s[1..])| <= |s| - 1;
      }
    }
  }

  /** Filtering drops everything exactly when no character passes. */
  lemma {:induction false} FilterDropsAll(p: char -> bool, s: string)
    ensures Filter(p, s) == [] <==> forall i :: 0 <= i < |s| ==> !p(s[i])
    decreases |s|
  {
    if s != [] {
      FilterDropsAll(p, s[1..]);
    }
  }

  /** Two filters in a row are one filter by the conjunction of their classes. */
  lemma {:induction false} FilterThenFilter(p: char -> bool, q: char -> bool, pq: char -> bool, s: string)
    requires forall c :: pq(c) == (p(c) && q(c))
    ensures Filter(q, Filter(p, s)) == Filter(pq, s)
    decreases |s|
  {
    if s != [] {
      FilterThenFilter(p, q, pq, s[1..]);
      var head := if p(s[0]) then [s[0]] else [];
      FilterAppend(q, head, Filter(p, s[1..]));
      if p(s[0]) {
        assert Filter(q, head) == (if q(s[0]) then [s[0]] else []) + Filter(q, []);
      }
    }
  }

  /** Filtering twice by the same class is filtering once. */
  lemma FilterIdempotent(p: char -> bool, s: string)
    ensures Filter(p, Filter(p, s)) == Filter(p, s)
  {
    FilterKeepsAll(p, Filter(p, s));
  }

  /** All characters of `s` are whitespace (Python: `not s.strip()`). */
  predicate IsBlank(s: string) {
    forall i :: 0 <= i < |s| ==> IsSpace(s[i])
  }

  /** `s` has no leading and no trailing whitespace (Python: `s == s.strip()`). */
  predicate Trimmed(s: string) {
    s == [] || (!IsSpace(s[0]) && !IsSpace(s[|s| - 1]))
  }

  /** The number of whitespace characters at the start of `s`. */
  function LeadingSpaces(s: string): (n: nat)
    ensures n <= |s|
    ensures forall i :: 0 <= i < n ==> IsSpace(s[i])
    ensures n < |s| ==> !IsSpace(s[n])
    decreases |s|
  {
    if s != [] && IsSpace(s[0]) then 1 + LeadingSpaces(s[1..]) else 0
  }

  /** The number of whitespace characters at the end of `s`. */
  function TrailingSpaces(s: string): (n: nat)
    ensures n <= |s|
    ensures forall i :: |s| - n <= i < |s| ==> IsSpace(s[i])
    ensures n < |s| ==> !IsSpace(s[|s| - 1 - n])
    decreases |s|
  {
    if s != [] && IsSpace(s[|s| - 1]) then 1 + TrailingSpaces(s[..|s| - 1]) else 0
  }

  /** Python's `str.strip()`: the slice of `s` between its leading and its trailing
      whitespace. It is empty exactly when `s` is blank, it has no whitespace at
      either end, and it leaves an already trimmed string alone. */
  function Strip(s: string): (r: string)
    ensures |r| <= |s|
    ensures LeadingSpaces(s) + |r| <= |s| && r == s[LeadingSpaces(s)..LeadingSpaces(s) + |r|]
    ensures r == [] <==> IsBlank(s)
    ensures Trimmed(r)
    ensures Trimmed(s) ==> r == s
  {
    var a := LeadingSpaces(s);
    if a == |s| then [] else s[a..|s| - TrailingSpaces(s)]
  }

  /** `Strip(s)` draws its characters from `s`: a class every character of `s`
      belongs to is kept. */
  lemma StripKeepsClass(p: char -> bool, s: string)
    requires forall i :: 0 <= i < |s| ==> p(s[i])
    ensures forall i :: 0 <= i < |Strip(s)| ==> p(Strip(s)[i])
  {
    var r := Strip(s);
    forall i | 0 <= i < |r| ensures p(r[i]) {
      assert r[i] == s[LeadingSpaces(s) + i];
    }
  }

  /** Only whitespace lies outside `Strip(s)`: dropping whitespace from both gives the same. */
  lemma StripKeepsNonSpace(s: string)
    ensures Filter(NotSpace, Strip(s)) == Filter(NotSpace, s)
  {
    var a := LeadingSpaces(s);
    if a == |s| {
      SpacesFilterOut(s, 0, |s|);
      assert s[0..|s|] == s;
    } else {
      var b := |s| - TrailingSpaces(s);
      assert Strip(s) == s[a..b];
      SliceSplit(s, a, b);
      SpacesFilterOut(s, 0, a);
      SpacesFilterOut(s, b, |s|);
      FilterAppend(NotSpace, s[0..a] + s[a..b], s[b..|s|]);
      FilterAppend(NotSpace, s[0..a], s[a..b]);
    }
  }

  lemma SliceSplit(s: string, a: nat, b: nat)
    requires a <= b <= |s|
    ensures s == s[0..a] + s[a..b] + s[b..|s|]
  {
  }

  /** A run of whitespace disappears when whitespace is dropped. */
  lemma SpacesFilterOut(s: string, lo: nat, hi: nat)
    requires lo <= hi <= |s|
    requires forall i :: lo <= i < hi ==> IsSpace(s[i])
    ensures Filter(NotSpace, s[lo..hi]) == []
  {
    var run := s[lo..hi];
    forall i | 0 <= i < |run| ensures !NotSpace(run[i]) {
      assert run[i] == s[lo + i];
    }
    FilterDropsAll(NotSpace, run);
  }

  /** `[p for p in ps if p.strip()]`. */
  function KeepNonBlank(ps: seq<string>): (r: seq<string>)
    ensures |r| <= |ps|
    ensures forall k :: 0 <= k < |r| ==> !IsBlank(r[k])
    decreases |ps|
  {
    if ps == [] then []
    else (if IsBlank(ps[0]) then [] else [ps[0]]) + KeepNonBlank(ps[1..])
  }

  /** Python's `''.join(parts)`. */
  function Concat(parts: seq<string>): (r: string)
    ensures parts == [] ==> r == []
    decreases |parts|
  {
    if parts == [] then [] else parts[0] + Concat(parts[1..])
  }

  lemma {:induction false} ConcatAppend(a: seq<string>, b: seq<string>)
    ensures Concat(a + b) == Concat(a) + Concat(b)
    decreases |a|
  {
    if a != [] {
      assert (a + b)[0] == a[0] && (a + b)[1..] == a[1..] + b;
      ConcatAppend(a[1..], b);
      assert Concat(a + b) == a[0] + (Concat(a[1..]) + Concat(b));
    } else {
      assert a + b == b;
    }
  }

  lemma ConcatSingle(x: string)
    ensures Concat([x]) == x
  {
    assert [x][1..] == [];
    assert Concat([x]) == x + [];
  }

  /** Python's `sep.join(parts)`. */
  function JoinWith(sep: string, parts: seq<string>): (r: string)
    decreases |parts|
  {
    if parts == [] then []
    else if |parts| == 1 then parts[0]
    else parts[0] + sep + JoinWith(sep, parts[1..])
  }

  /** Python's `s.split(c)` for a one-character separator: the pieces between
      the occurrences of `c`; there is always at least one, and none contains `c`. */
  function SplitOn(s: string, c: char): (parts: seq<string>)
    ensures |parts| >= 1
    decreases |s|
  {
    if s == [] then [[]]
    else
      var rest := SplitOn(s[1..], c);
      if s[0] == c then [[]] + rest else [[s[0]] + rest[0]] + rest[1..]
  }

  /** No piece of a split contains the separator. */
  lemma {:induction false} SplitPiecesFree(s: string, c: char)
    ensures forall k :: 0 <= k < |SplitOn(s, c)| ==> c !in SplitOn(s, c)[k]
    decreases |s|
  {
    if s != [] {
      SplitPiecesFree(s[1..], c);
    }
  }

  /** Joining the pieces of a split with the separator gives the string back. */
  lemma {:induction false} JoinSplit(s: string, c: char)
    ensures JoinWith([c], SplitOn(s, c)) == s
    decreases |s|
  {
    if s != [] {
      JoinSplit(s[1..], c);
      var rest := SplitOn(s[1..], c);
      if s[0] == c {
        assert [[]] + rest == [[]] + rest;
      } else {
        var parts := [[s[0]] + rest[0]] + rest[1..];
        assert parts[1..] == rest[1..];
      }
    }
  }

  /** A split right after a separator-free piece `a`: `a` is the first piece. */
  lemma {:induction false} SplitAfterPiece(a: string, b: string, c: char)
    requires c !in a
    ensures SplitOn(a + [c] + b, c) == [a] + SplitOn(b, c)
    decreases |a|
  {
    if a == [] {
      assert a + [c] + b == [c] + b;
      assert ([c] + b)[1..] == b;
    } else {
      assert (a + [c] + b)[1..] == a[1..] + [c] + b;
      SplitAfterPiece(a[1..], b, c);
      assert [a[0]] + a[1..] == a;
    }
  }

  /** A separator-free piece, two separators and a rest split into the piece, an empty
      piece and the pieces of the rest. */
  lemma SplitAfterEmptyPiece(a: string, b: string, c: char)
    requires c !in a
    ensures SplitOn(a + [c, c] + b, c) == [a, []] + SplitOn(b, c)
  {
    assert a + [c, c] + b == a + [c] + ([] + [c] + b);
    SplitAfterPiece(a, [] + [c] + b, c);
    SplitAfterPiece([], b, c);
  }

  /** Splitting a join of separator-free pieces gives the pieces back. */
  lemma {:induction false} SplitJoin(parts: seq<string>, c: char)
    requires parts != []
    requires forall k :: 0 <= k < |parts| ==> c !in parts[k]
    ensures SplitOn(JoinWith([c], parts), c) == parts
    decreases |parts|
  {
    if |parts| == 1 {
      SplitOfPiece(parts[0], c);
    } else {
      SplitJoin(parts[1..], c);
      SplitAfterPiece(parts[0], JoinWith([c], parts[1..]), c);
      assert [parts[0]] + parts[1..] == parts;
    }
  }

  /** A piece without the separator splits into itself. */
  lemma {:induction false} SplitOfPiece(a: string, c: char)
    requires c !in a
    ensures SplitOn(a, c) == [a]
    decreases |a|
  {
    if a != [] {
      SplitOfPiece(a[1..], c);
      assert [a[0]] + a[1..] == a;
    }
  }

  /** `Filter(p, ·)` applied to every piece. */
  function FilterEach(p: char -> bool, parts: seq<string>): (r: seq<string>)
    ensures |r| == |parts|
    ensures forall k :: 0 <= k < |r| ==> r[k] == Filter(p, parts[k])
    decreases |parts|
  {
    if parts == [] then [] else [Filter(p, parts[0])] + FilterEach(p, parts[1..])
  }

  /** A filter that keeps the separator keeps the piece structure: the pieces of the
      filtered string are the filtered pieces. */
  lemma {:induction false} FilterSplit(p: char -> bool, s: string, c: char)
    requires p(c)
    ensures SplitOn(Filter(p, s), c) == FilterEach(p, SplitOn(s, c))
    decreases |s|
  {
    if s != [] {
      FilterSplit(p, s[1..], c);
      var rest := SplitOn(s[1..], c);
      var fr := Filter(p, s[1..]);
      if s[0] == c {
        assert Filter(p, s) == [c] + fr;
        assert ([c] + fr)[1..] == fr;
      } else {
        var first := [s[0]] + rest[0];
        assert first[1..] == rest[0];
        assert Filter(p, first) == (if p(s[0]) then [s[0]] else []) + Filter(p, rest[0]);
        assert SplitOn(s, c) == [first] + rest[1..];
        assert FilterEach(p, rest)[1..] == FilterEach(p, rest[1..]);
        assert FilterEach(p, SplitOn(s, c)) == [Filter(p, first)] + FilterEach(p, rest[1..]);
        if p(s[0]) {
          assert Filter(p, s) == [s[0]] + fr;
          assert ([s[0]] + fr)[1..] == fr;
        } else {
          assert Filter(p, s) == fr;
          assert Filter(p, first) == Filter(p, rest[0]);
          assert FilterEach(p, rest) == [Filter(p, rest[0])] + FilterEach(p, rest)[1..];
        }
      }
    }
  }

  /** Every piece followed by `term`, all concatenated: how the report writes
      paragraphs and lines. */
  function Terminated(parts: seq<string>, term: string): (r: string)
    ensures parts == [] ==> r == []
    decreases |parts|
  {
    if parts == [] then [] else parts[0] + term + Terminated(parts[1..], term)
  }

  lemma {:induction false} TerminatedAppend(a: seq<string>, b: seq<string>, term: string)
    ensures Terminated(a + b, term) == Terminated(a, term) + Terminated(b, term)
    decreases |a|
  {
    if a != [] {
      assert (a + b)[0] == a[0] && (a + b)[1..] == a[1..] + b;
      TerminatedAppend(a[1..], b, term);
      assert Terminated(a + b, term) == a[0] + term + (Terminated(a[1..], term) + Terminated(b, term));
    } else {
      assert a + b == b;
    }
  }

  /** Writing one more piece appends it and its terminator. */
  lemma TerminatedSnoc(parts: seq<string>, x: string, term: string)
    ensures Terminated(parts + [x], term) == Terminated(parts, term) + x + term
  {
    TerminatedAppend(parts, [x], term);
    assert [x][1..] == [];
    assert Terminated([x], term) == x + term + [];
  }

  /** A split of two strings joined by the separator is the two splits, one after
      the other. */
  lemma SplitConcat(a: string, b: string, c: char)
    ensures SplitOn(a + [c] + b, c) == SplitOn(a, c) + SplitOn(b, c)
  {
    var ra, rb := SplitOn(a, c), SplitOn(b, c);
    JoinSplit(a, c);
    JoinSplit(b, c);
    JoinWithAppend(ra, rb, [c]);
    SplitPiecesFree(a, c);
    SplitPiecesFree(b, c);
    SplitJoin(ra + rb, c);
  }

  /** Joining two non-empty lists is joining each and putting one separator between. */
  lemma {:induction false} JoinWithAppend(x: seq<string>, y: seq<string>, sep: string)
    requires x != [] && y != []
    ensures JoinWith(sep, x + y) == JoinWith(sep, x) + sep + JoinWith(sep, y)
    decreases |x|
  {
    if |x| > 1 {
      JoinWithAppend(x[1..], y, sep);
      assert (x + y)[1..] == x[1..] + y;
    } else {
      assert (x + y)[1..] == y;
    }
  }

  /** Filtering out the separator of a join leaves the filtered pieces, concatenated. */
  lemma {:induction false} FilterJoin(p: char -> bool, c: char, parts: seq<string>)
    requires !p(c)
    ensures Filter(p, JoinWith([c], parts)) == Concat(FilterEach(p, parts))
    decreases |parts|
  {
    if |parts| == 1 {
      ConcatSingle(Filter(p, parts[0]));
    } else if |parts| > 1 {
      var rest := JoinWith([c], parts[1..]);
      assert JoinWith([c], parts) == (parts[0] + [c]) + rest;
      FilterJoin(p, c, parts[1..]);
      FilterAppend(p, parts[0] + [c], rest);
      FilterAppend(p, parts[0], [c]);
      assert Filter(p, [c]) == [] + Filter(p, []);
      var fs := FilterEach(p, parts);
      assert fs[1..] == FilterEach(p, parts[1..]);
      assert Concat(fs) == fs[0] + Concat(fs[1..]);
    }
  }

  /** A piece followed by a blank line per element: `[p0, "", p1, "", ...]`. */
  function Spaced(parts: seq<string>): (r: seq<string>)
    ensures |r| == 2 * |parts|
    decreases |parts|
  {
    if parts == [] then [] else [parts[0], []] + Spaced(parts[1..])
  }

  /** Lines each terminated by the separator split back into the lines and a final
      empty piece. */
  lemma {:induction false} SplitTerminated(parts: seq<string>, c: char)
    requires forall k :: 0 <= k < |parts| ==> c !in parts[k]
    ensures SplitOn(Terminated(parts, [c]), c) == parts + [[]]
    decreases |parts|
  {
    if parts != [] {
      SplitTerminated(parts[1..], c);
      SplitAfterPiece(parts[0], Terminated(parts[1..], [c]), c);
      assert [parts[0]] + (parts[1..] + [[]]) == parts + [[]];
    }
  }

  /** Pieces each followed by two separators split into the pieces, each followed by an
      empty piece, and a final empty piece. */
  lemma {:induction false} SplitDoubleTerminated(parts: seq<string>, c: char)
    requires forall k :: 0 <= k < |parts| ==> c !in parts[k]
    ensures SplitOn(Terminated(parts, [c, c]), c) == Spaced(parts) + [[]]
    decreases |parts|
  {
    if parts != [] {
      var rest := Terminated(parts[1..], [c, c]);
      SplitDoubleTerminated(parts[1..], c);
      SplitAfterEmptyPiece(parts[0], rest, c);
      assert [parts[0], []] + (Spaced(parts[1..]) + [[]]) == Spaced(parts) + [[]];
    }
  }

  lemma {:induction false} KeepNonBlankSnoc(ps: seq<string>, p: string)
    ensures KeepNonBlank(ps + [p]) == KeepNonBlank(ps) + (if IsBlank(p) then [] else [p])
    decreases |ps|
  {
    if ps == [] {
      assert ps + [p] == [p];
    } else {
      assert (ps + [p])[1..] == ps[1..] + [p];
      KeepNonBlankSnoc(ps[1..], p);
    }
  }

  /** Keeping the non-blank strings of strings that are all non-blank keeps them all. */
  lemma {:induction false} KeepNonBlankOfNonBlank(ps: seq<string>)
    requires forall k :: 0 <= k < |ps| ==> !IsBlank(ps[k])
    ensures KeepNonBlank(ps) == ps
    decreases |ps|
  {
    if ps != [] {
      KeepNonBlankOfNonBlank(ps[1..]);
      assert [ps[0]] + ps[1..] == ps;
    }
  }

  /** Filtering a concatenation filters every piece. */
  lemma {:induction false} FilterConcat(p: char -> bool, parts: seq<string>)
    ensures Filter(p, Concat(parts)) == Concat(FilterEach(p, parts))
    decreases |parts|
  {
    if parts != [] {
      FilterConcat(p, parts[1..]);
      FilterAppend(p, parts[0], Concat(parts[1..]));
      assert FilterEach(p, parts)[1..] == FilterEach(p, parts[1..]);
    }
  }
}
