/**
 The three substitutions at the end of renew.py, each as a matcher anchored at
 the start of a text (the length of the match there, if the regex matches) and
 a replacement:

   QuotedValue  `group-title="[^"]*"`  ->  `group-title="频道"`
   BareValue    `group-title=[^\s,]*`  ->  `group-title="频道"`
   BlankRun     `\n\s*\n\s*\n`         ->  "\n\n"

 The substitutions are case-sensitive.  Every match begins with the first
 character of its replacement (`Lead`), which is what lets the scanner's
 output be read back against its input.
 */
module RewriteRules {
  import opened Text
  import opened Wrappers

  const Key: string := "group-title="
  const QuotedKey: string := "group-title=\""
  /** The replacement of both `group-title` rules. */
  const Canonical: string := "group-title=\"频道\""
  const BlankLine: string := "\n\n"

  datatype Rule = QuotedValue | BareValue | BlankRun

  function Replacement(rule: Rule): (r: string)
    ensures |r| > 0 && r[0] == Lead(rule)
  {
    match rule
    case QuotedValue => Canonical
    case BareValue => Canonical
    case BlankRun => BlankLine
  }

  /** The character every match of `rule` starts with. */
  function Lead(rule: Rule): char {
    if rule == BlankRun then '\n' else 'g'
  }

  /** The first position of `c` in `s`, if any. */
  function IndexOf(s: string, c: char): (r: Option<nat>)
    ensures r.Some? ==> r.value < |s| && s[r.value] == c && c !in s[..r.value]
    ensures r.Some? ==> forall j | 0 <= j < r.value :: s[j] != c
    ensures r.None? ==> c !in s
    decreases |s|
  {
    if |s| == 0 then None
    else if s[0] == c then Some(0)
    else
      match IndexOf(s[1..], c)
      case None => None
      case Some(i) =>
        assert s[..i + 1] == [s[0]] + s[1..][..i];
        Some(i + 1)
  }

  /** The last position of `c` in `s`, if any. */
  function LastIndexOf(s: string, c: char): (r: Option<nat>)
    ensures r.Some? ==> r.value < |s| && s[r.value] == c
    ensures r.Some? ==> forall j | r.value < j < |s| :: s[j] != c
    ensures r.None? ==> forall j | 0 <= j < |s| :: s[j] != c
    decreases |s|
  {
    if |s| == 0 then None
    else if s[|s| - 1] == c then Some(|s| - 1)
    else LastIndexOf(s[..|s| - 1], c)
  }

  /** `group-title="[^"]*"` at the start of `s`: the key, then everything up to
      and including the next double quote, which may be lines away. */
  function QuotedMatch(s: string): (r: Option<nat>)
    ensures r.Some? <==> StartsWith(s, QuotedKey) && '"' in s[|QuotedKey|..]
    ensures r.Some? ==>
      && |QuotedKey| < r.value <= |s|
      && s[r.value - 1] == '"'
      && (forall i | |QuotedKey| <= i < r.value - 1 :: s[i] != '"')
  {
    if StartsWith(s, QuotedKey) then
      match IndexOf(s[|QuotedKey|..], '"')
      case None => None
      case Some(j) =>
        assert forall i | |QuotedKey| <= i < |QuotedKey| + j :: s[i] == s[|QuotedKey|..][i - |QuotedKey|];
        Some(|QuotedKey| + j + 1)
    else None
  }

  /** The quoted key begins with the key. */
  lemma {:induction false} QuotedKeyExtendsKey(s: string)
    ensures StartsWith(s, QuotedKey) ==> StartsWith(s, Key)
  {
    if StartsWith(s, QuotedKey) {
      assert s[..|Key|] == s[..|QuotedKey|][..|Key|];
    }
  }

  /** The class `[^\s,]`. */
  predicate IsValueChar(c: char) {
    !IsSpace(c) && c != ','
  }

  /** Length of the longest prefix of `s` made of value characters. */
  function ValueLength(s: string): (n: nat)
    ensures n <= |s|
    ensures forall i | 0 <= i < n :: IsValueChar(s[i])
    ensures n < |s| ==> !IsValueChar(s[n])
    decreases |s|
  {
    if |s| > 0 && IsValueChar(s[0]) then 1 + ValueLength(s[1..]) else 0
  }

  /** `group-title=[^\s,]*` at the start of `s`: the key, then as many value
      characters as follow it (possibly none). */
  function BareMatch(s: string): (r: Option<nat>)
    ensures r.Some? <==> StartsWith(s, Key)
    ensures r.Some? ==>
      && |Key| <= r.value <= |s|
      && (forall i | |Key| <= i < r.value :: IsValueChar(s[i]))
      && (r.value < |s| ==> !IsValueChar(s[r.value]))
  {
    if StartsWith(s, Key) then
      var n := ValueLength(s[|Key|..]);
      assert forall i | |Key| <= i < |Key| + n :: s[i] == s[|Key|..][i - |Key|];
      Some(|Key| + n)
    else None
  }

  /** `\n\s*\n\s*\n` matches exactly `s[..e]`: a newline, whitespace with a
      newline in it, and a final newline. */
  predicate BlankRunTo(s: string, e: int) {
    && 3 <= e <= |s|
    && s[0] == '\n'
    && s[e - 1] == '\n'
    && (forall i | 0 <= i < e :: IsSpace(s[i]))
    && (exists m | 0 < m < e - 1 :: s[m] == '\n')
  }

  /** The last newline of the whitespace that starts `s`. */
  function LastBlankNewline(s: string): (l: nat)
    requires |s| > 0 && s[0] == '\n'
    ensures l < LeadingSpace(s) && s[l] == '\n'
    ensures forall j | l < j < LeadingSpace(s) :: s[j] != '\n'
  {
    var w := LeadingSpace(s);
    var run := s[..w];
    assert run[0] == '\n';
    var l := LastIndexOf(run, '\n').value;
    assert forall j | l < j < w :: s[j] == run[j];
    l
  }

  /** Any match of `\n\s*\n\s*\n` at the start of `s` ends at or before the
      last newline of the leading whitespace, and needs a newline strictly
      between the first and that last one; with such a newline, the whole
      stretch up to the last newline matches. */
  lemma {:induction false} BlankRunShape(s: string)
    requires |s| > 0 && s[0] == '\n'
    ensures forall e | BlankRunTo(s, e) ::
      e <= LastBlankNewline(s) + 1 && exists m | 0 < m < LastBlankNewline(s) :: s[m] == '\n'
    ensures (exists m | 0 < m < LastBlankNewline(s) :: s[m] == '\n') ==> BlankRunTo(s, LastBlankNewline(s) + 1)
  {
    var w := LeadingSpace(s);
    var l := LastBlankNewline(s);
    assert forall i | 0 <= i < w :: IsSpace(s[i]) by {
      forall i | 0 <= i < w ensures IsSpace(s[i]) {
        assert s[..w][i] == s[i];
      }
    }
    forall e | BlankRunTo(s, e)
      ensures e <= l + 1 && exists m | 0 < m < l :: s[m] == '\n'
    {
      assert e <= w;
      var m :| 0 < m < e - 1 && s[m] == '\n';
    }
  }

  /** `\n\s*\n\s*\n` at the start of `s`.  The greedy `\s*` make the regex
      engine return its longest match: from the first newline to the last
      newline of the whitespace that starts `s`. */
  function BlankMatch(s: string): (r: Option<nat>)
    ensures r.Some? ==> BlankRunTo(s, r.value)
    ensures r.Some? ==> forall e | BlankRunTo(s, e) :: e <= r.value
    ensures r.None? ==> forall e :: !BlankRunTo(s, e)
  {
    if |s| > 0 && s[0] == '\n' then
      var l := LastBlankNewline(s);
      BlankRunShape(s);
      if exists m | 0 < m < l :: s[m] == '\n' then Some(l + 1) else None
    else None
  }

  /** The match of `rule` at the start of `s`, as its length. */
  function MatchLength(rule: Rule, s: string): (r: Option<nat>)
    ensures r.Some? ==> 0 < r.value <= |s| && s[0] == Lead(rule)
  {
    match rule
    case QuotedValue => QuotedMatch(s)
    case BareValue => BareMatch(s)
    case BlankRun => BlankMatch(s)
  }
}
