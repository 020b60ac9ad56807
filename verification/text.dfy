/**
 Character classes and small string helpers shared by the line filter and the
 rewriter: Python's whitespace table (used both by `str.strip()` and by the
 regex class `\s` on text patterns), ASCII digits, ASCII case folding, prefix
 and substring tests, and `strip`.
 */
module Text {

  /** Python's `str.isspace()` table: the ASCII separators and the Unicode
      space characters.  `str.strip()` and the regex class `\s` both use it. */
  predicate IsSpace(c: char) {
    || ('\t' <= c <= '\r')
    || ('\U{1C}' <= c <= '\U{1F}')
    || c == ' '
    || c == '\U{85}'
    || c == '\U{A0}'
    || c == '\U{1680}'
    || ('\U{2000}' <= c <= '\U{200A}')
    || c == '\U{2028}'
    || c == '\U{2029}'
    || c == '\U{202F}'
    || c == '\U{205F}'
    || c == '\U{3000}'
  }

  /** The regex class `\d`, restricted to ASCII digits. */
  predicate IsDigit(c: char) {
    '0' <= c <= '9'
  }

  /** ASCII lower-casing; every other character is its own fold. */
  function Lower(c: char): (r: char)
    ensures 'A' <= c <= 'Z' ==> 'a' <= r <= 'z'
    ensures !('A' <= c <= 'Z') ==> r == c
  {
    if 'A' <= c <= 'Z' then (c as int + 32) as char else c
  }

  /** Case-insensitive comparison of two characters, as under `re.IGNORECASE`. */
  predicate SameIgnoringCase(a: char, b: char) {
    Lower(a) == Lower(b)
  }

  predicate StartsWith(s: string, prefix: string) {
    |prefix| <= |s| && s[..|prefix|] == prefix
  }

  /** `w` occurs in `s` starting at position `i`. */
  predicate OccursAt(s: string, i: int, w: string) {
    0 <= i <= |s| - |w| && s[i..i + |w|] == w
  }

  /** `w in s` for strings: `w` occurs at some position of `s`. */
  predicate Contains(s: string, w: string) {
    exists i | 0 <= i <= |s| - |w| :: OccursAt(s, i, w)
  }

  /** Occurrences in the part after `u` are the occurrences in `u + r`
      shifted by `|u|`. */
  lemma {:induction false} OccursAtShift(u: string, r: string, p: int, w: string)
    requires 0 <= p
    ensures OccursAt(u + r, |u| + p, w) <==> OccursAt(r, p, w)
  {
    if p <= |r| - |w| {
      assert (u + r)[|u| + p..|u| + p + |w|] == r[p..p + |w|];
    }
  }

  /** Length of the leading whitespace of `s`. */
  function LeadingSpace(s: string): (n: nat)
    ensures n <= |s|
    ensures forall i | 0 <= i < n :: IsSpace(s[i])
    ensures n < |s| ==> !IsSpace(s[n])
    decreases |s|
  {
    if |s| > 0 && IsSpace(s[0]) then
      var n := 1 + LeadingSpace(s[1..]);
      assert forall i | 1 <= i < n :: s[i] == s[1..][i - 1];
      n
    else
      0
  }

  /** Length of the trailing whitespace of `s`. */
  function TrailingSpace(s: string): (n: nat)
    ensures n <= |s|
    ensures forall i | |s| - n <= i < |s| :: IsSpace(s[i])
    ensures n < |s| ==> !IsSpace(s[|s| - n - 1])
    decreases |s|
  {
    if |s| > 0 && IsSpace(s[|s| - 1]) then
      var init := s[..|s| - 1];
      var m := TrailingSpace(init);
      assert forall i | |s| - 1 - m <= i < |s| - 1 :: s[i] == init[i];
      m + 1
    else
      0
  }

  /** Python's `str.strip()`: `s` without its leading and trailing whitespace. */
  function Strip(s: string): string {
    StripRight(StripLeft(s))
  }

  function StripLeft(s: string): string
    decreases |s|
  {
    if |s| > 0 && IsSpace(s[0]) then StripLeft(s[1..]) else s
  }

  function StripRight(s: string): string
    decreases |s|
  {
    if |s| > 0 && IsSpace(s[|s| - 1]) then StripRight(s[..|s| - 1]) else s
  }

  /** `lstrip` drops exactly the leading whitespace. */
  lemma {:induction false} StripLeftDropsLeadingSpace(s: string)
    ensures StripLeft(s) == s[LeadingSpace(s)..]
    decreases |s|
  {
    if |s| > 0 && IsSpace(s[0]) {
      StripLeftDropsLeadingSpace(s[1..]);
    }
  }

  /** `rstrip` drops exactly the trailing whitespace. */
  lemma {:induction false} StripRightDropsTrailingSpace(s: string)
    ensures StripRight(s) == s[..|s| - TrailingSpace(s)]
    decreases |s|
  {
    if |s| > 0 && IsSpace(s[|s| - 1]) {
      StripRightDropsTrailingSpace(s[..|s| - 1]);
    }
  }

  /** The slice `strip` keeps: after the leading whitespace, before the trailing. */
  lemma {:induction false} StripSlice(s: string)
    ensures LeadingSpace(s) <= |s| - TrailingSpace(s[LeadingSpace(s)..])
    ensures Strip(s) == s[LeadingSpace(s)..|s| - TrailingSpace(s[LeadingSpace(s)..])]
  {
    var a := LeadingSpace(s);
    StripLeftDropsLeadingSpace(s);
    StripRightDropsTrailingSpace(s[a..]);
  }

  /** Stripping removes exactly the leading and the trailing whitespace: what
      is left is a slice of `s` that neither begins nor ends in whitespace, and
      it is empty only when `s` is all whitespace. */
  lemma {:induction false} StripMeaning(s: string)
    ensures exists a, b | 0 <= a <= b <= |s| ::
      && Strip(s) == s[a..b]
      && (forall i | 0 <= i < a :: IsSpace(s[i]))
      && (forall i | b <= i < |s| :: IsSpace(s[i]))
    ensures |Strip(s)| > 0 ==> !IsSpace(Strip(s)[0]) && !IsSpace(Strip(s)[|Strip(s)| - 1])
    ensures |Strip(s)| == 0 ==> forall i | 0 <= i < |s| :: IsSpace(s[i])
  {
    var a := LeadingSpace(s);
    var left := s[a..];
    var t := TrailingSpace(left);
    var b := |s| - t;
    StripSlice(s);
    TrailIsSpace(s, a, t);
    var r := Strip(s);
    assert 0 <= a <= b <= |s| && r == s[a..b];
    if |r| > 0 {
      assert r[0] == s[a];
      assert r[|r| - 1] == left[|left| - t - 1];
    }
  }

  /** The trailing whitespace of a suffix is whitespace of the whole text. */
  lemma {:induction false} TrailIsSpace(s: string, a: nat, t: nat)
    requires a <= |s| && t == TrailingSpace(s[a..])
    ensures forall i | |s| - t <= i < |s| :: IsSpace(s[i])
  {
    var left := s[a..];
    forall i | |s| - t <= i < |s| ensures IsSpace(s[i]) {
      assert s[i] == left[i - a];
    }
  }

  /** Stripping changes nothing when the text neither begins nor ends in whitespace. */
  lemma {:induction false} StripUnpadded(s: string)
    requires |s| > 0 && !IsSpace(s[0]) && !IsSpace(s[|s| - 1])
    ensures Strip(s) == s
  {
    assert StripLeft(s) == s;
  }
}
