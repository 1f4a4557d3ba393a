/** Character classes used by the text cleaners of both parser variants.
    Python (3.x) works on code points; Dafny's `char` is a Unicode scalar value,
    so `c as int` is the code point. */
module Chars {

  /** Python's notion of whitespace: the characters for which `str.isspace()` holds.
      The same set is matched by `\s` in a `re` pattern over `str` and removed by
      `str.strip()` with no argument (Unicode 15.0 tables). */
  predicate IsSpace(c: char) {
    var n := c as int;
    (0x9 <= n <= 0xD) || (0x1C <= n <= 0x20) || n == 0x85 || n == 0xA0 || n == 0x1680
      || (0x2000 <= n <= 0x200A) || n == 0x2028 || n == 0x2029 || n == 0x202F || n == 0x205F
      || n == 0x3000
  }

  predicate NotSpace(c: char) {
    !IsSpace(c)
  }

  /** `\d` in a `re` pattern over `str`: the decimal digits of Unicode category Nd
      (Unicode 15.0 tables). */
  predicate IsDigit(c: char) {
    var n := c as int;
    (0x30 <= n <= 0x39) || (0x660 <= n <= 0x669) || (0x6F0 <= n <= 0x6F9) || (0x7C0 <= n <= 0x7C9)
      || (0x966 <= n <= 0x96F) || (0x9E6 <= n <= 0x9EF) || (0xA66 <= n <= 0xA6F) || (0xAE6 <= n <= 0xAEF)
      || (0xB66 <= n <= 0xB6F) || (0xBE6 <= n <= 0xBEF) || (0xC66 <= n <= 0xC6F) || (0xCE6 <= n <= 0xCEF)
      || (0xD66 <= n <= 0xD6F) || (0xDE6 <= n <= 0xDEF) || (0xE50 <= n <= 0xE59) || (0xED0 <= n <= 0xED9)
      || (0xF20 <= n <= 0xF29) || (0x1040 <= n <= 0x1049) || (0x1090 <= n <= 0x1099) || (0x17E0 <= n <= 0x17E9)
      || (0x1810 <= n <= 0x1819) || (0x1946 <= n <= 0x194F) || (0x19D0 <= n <= 0x19D9) || (0x1A80 <= n <= 0x1A89)
      || (0x1A90 <= n <= 0x1A99) || (0x1B50 <= n <= 0x1B59) || (0x1BB0 <= n <= 0x1BB9) || (0x1C40 <= n <= 0x1C49)
      || (0x1C50 <= n <= 0x1C59) || (0xA620 <= n <= 0xA629) || (0xA8D0 <= n <= 0xA8D9) || (0xA900 <= n <= 0xA909)
      || (0xA9D0 <= n <= 0xA9D9) || (0xA9F0 <= n <= 0xA9F9) || (0xAA50 <= n <= 0xAA59) || (0xABF0 <= n <= 0xABF9)
      || (0xFF10 <= n <= 0xFF19) || (0x104A0 <= n <= 0x104A9) || (0x10D30 <= n <= 0x10D39) || (0x11066 <= n <= 0x1106F)
      || (0x110F0 <= n <= 0x110F9) || (0x11136 <= n <= 0x1113F) || (0x111D0 <= n <= 0x111D9) || (0x112F0 <= n <= 0x112F9)
      || (0x11450 <= n <= 0x11459) || (0x114D0 <= n <= 0x114D9) || (0x11650 <= n <= 0x11659) || (0x116C0 <= n <= 0x116C9)
      || (0x11730 <= n <= 0x11739) || (0x118E0 <= n <= 0x118E9) || (0x11950 <= n <= 0x11959) || (0x11C50 <= n <= 0x11C59)
      || (0x11D50 <= n <= 0x11D59) || (0x11DA0 <= n <= 0x11DA9) || (0x11F50 <= n <= 0x11F59) || (0x16A60 <= n <= 0x16A69)
      || (0x16AC0 <= n <= 0x16AC9) || (0x16B50 <= n <= 0x16B59) || (0x1D7CE <= n <= 0x1D7FF) || (0x1E140 <= n <= 0x1E149)
      || (0x1E2F0 <= n <= 0x1E2F9) || (0x1E4F0 <= n <= 0x1E4F9) || (0x1E950 <= n <= 0x1E959) || (0x1FBF0 <= n <= 0x1FBF9)
  }

  predicate IsAsciiLetter(c: char) {
    ('a' <= c <= 'z') || ('A' <= c <= 'Z')
  }

  /** The range `一-鿿` of both whitelists (CJK Unified Ideographs). */
  predicate IsCjk(c: char) {
    0x4E00 <= c as int <= 0x9FFF
  }

  /** The punctuation of the horizontal variant's whitelist, as the literal parses:
      the class is written `""''` twice, and each `''` closes one Python string
      literal and opens the next, so the ASCII `"` is listed and the ASCII `'` is not.
      (`；` and `：` are listed twice in the class.) */
  const HorizontalPunctuation: set<char> :=
    {'.', ',', '，', '。', '！', '？', '：', '；', '"', '（', '）', '(', ')', '、', '【', '】', '《', '》'}

  /** The punctuation of the vertical variant's whitelist: the horizontal one plus the
      corner brackets 「」『』 and a newline (the last literal is not raw, so its `\n`
      is a real newline, which `\s` already covers). */
  const VerticalPunctuation: set<char> :=
    HorizontalPunctuation + {'「', '」', '『', '』', '\n'}

  /** A character the first substitution of the horizontal `clean_text` keeps. */
  predicate InHorizontalWhitelist(c: char) {
    IsCjk(c) || IsSpace(c) || c in HorizontalPunctuation
  }

  /** A character the vertical whitelist filter keeps (`clean_text` and `_ocr_page`). */
  predicate InVerticalWhitelist(c: char) {
    IsCjk(c) || IsSpace(c) || c in VerticalPunctuation
  }

  /** A whitelisted character that is not whitespace. */
  predicate KeptByHorizontalCleaner(c: char) {
    InHorizontalWhitelist(c) && !IsSpace(c)
  }

  predicate KeptByVerticalCleaner(c: char) {
    InVerticalWhitelist(c) && !IsSpace(c)
  }

  /** The sentence terminators of `re.split(r'([。！？])', text)`. */
  predicate IsSentenceEnd(c: char) {
    c == '。' || c == '！' || c == '？'
  }

  /** The character that ends a page-number mark `\d+\s*頁`. */
  const PageMark: char := '頁'

  /** Neither whitelist admits a digit or an ASCII letter. */
  lemma WhitelistsExcludeDigitsAndLetters(c: char)
    ensures InHorizontalWhitelist(c) ==> !IsDigit(c) && !IsAsciiLetter(c)
    ensures InVerticalWhitelist(c) ==> !IsDigit(c) && !IsAsciiLetter(c)
  {
    if IsSpace(c) {
      SpaceIsNoDigitOrLetter(c);
    } else if IsCjk(c) {
      assert 0x4E00 <= c as int <= 0x9FFF;
    } else if c in VerticalPunctuation {
      PunctuationIsNoDigitOrLetter(c);
    }
  }

  lemma SpaceIsNoDigitOrLetter(c: char)
    requires IsSpace(c)
    ensures !IsDigit(c) && !IsAsciiLetter(c)
  {
  }

  lemma PunctuationIsNoDigitOrLetter(c: char)
    requires c in VerticalPunctuation
    ensures !IsDigit(c) && !IsAsciiLetter(c)
  {
  }
}
