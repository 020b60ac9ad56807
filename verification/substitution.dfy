/**
 `re.sub(pattern, replacement, text)` for the three rules: scanning left to
 right, a match at the current position is replaced and scanning resumes after
 it; otherwise the character is copied.  Every match is non-empty, so this is
 the leftmost, non-overlapping replacement Python performs.
 */
module Substitution {
  import opened Text
  import opened Wrappers
  import opened RewriteRules

  /** `re.sub` of `rule` over `s`.  The first character survives: a match
      begins with the same character its replacement does. */
  function Sub(rule: Rule, s: string): (r: string)
    ensures |r| == 0 <==> |s| == 0
    ensures |s| > 0 ==> r[0] == s[0]
    decreases |s|
  {
    if |s| == 0 then ""
    else
      match MatchLength(rule, s)
      case Some(n) => Replacement(rule) + Sub(rule, s[n..])
      case None => [s[0]] + Sub(rule, s[1..])
  }

  /** Text without the rule's lead character cannot start a match, so it is
      copied through unchanged. */
  lemma {:induction false} SubCopies(rule: Rule, x: string, y: string)
    requires Lead(rule) !in x
    ensures Sub(rule, x + y) == x + Sub(rule, y)
    decreases |x|
  {
    if |x| > 0 {
      var s := x + y;
      assert s[0] == x[0] && s[1..] == x[1..] + y;
      assert x[0] in x;
      assert MatchLength(rule, s).None?;
      SubCopies(rule, x[1..], y);
      assert Sub(rule, s) == [x[0]] + Sub(rule, x[1..] + y);
      assert [x[0]] + (x[1..] + Sub(rule, y)) == ([x[0]] + x[1..]) + Sub(rule, y);
      assert x == [x[0]] + x[1..];
    } else {
      assert x + y == y;
    }
  }

  /** A prefix at none of whose positions the rule matches, within the whole
      text, is copied unchanged; the rest is substituted on its own. */
  lemma {:induction false} SubCopiesNoMatch(rule: Rule, x: string, y: string)
    requires forall p | 0 <= p < |x| :: MatchLength(rule, (x + y)[p..]).None?
    ensures Sub(rule, x + y) == x + Sub(rule, y)
    decreases |x|
  {
    if |x| > 0 {
      var s := x + y;
      assert s[0..] == s;
      assert s[1..] == x[1..] + y;
      forall p | 0 <= p < |x| - 1 ensures MatchLength(rule, (x[1..] + y)[p..]).None? {
        assert (x[1..] + y)[p..] == s[p + 1..];
      }
      SubCopiesNoMatch(rule, x[1..], y);
      assert [x[0]] + (x[1..] + Sub(rule, y)) == ([x[0]] + x[1..]) + Sub(rule, y);
      assert x == [x[0]] + x[1..];
    } else {
      assert x + y == y;
    }
  }

  /** Read backwards: output that starts with text free of the lead character
      came from input that starts with the same text. */
  lemma {:induction false} SubPrefixBack(rule: Rule, x: string, w: string)
    requires Lead(rule) !in w && StartsWith(Sub(rule, x), w)
    ensures StartsWith(x, w)
    decreases |w|
  {
    if |w| > 0 {
      var r := Sub(rule, x);
      assert r[0] == w[0];
      assert x[0] == w[0];
      assert w[0] in w;
      assert MatchLength(rule, x).None?;
      var rest := Sub(rule, x[1..]);
      assert r == [x[0]] + rest;
      assert rest[..|w| - 1] == w[1..];
      SubPrefixBack(rule, x[1..], w[1..]);
    }
  }

  /** Where the rule matches nowhere, the substitution is the identity. */
  lemma {:induction false} SubIdentity(rule: Rule, s: string)
    requires forall p | 0 <= p < |s| :: MatchLength(rule, s[p..]).None?
    ensures Sub(rule, s) == s
    decreases |s|
  {
    if |s| > 0 {
      assert s[0..] == s;
      forall p | 0 <= p < |s| - 1 ensures MatchLength(rule, s[1..][p..]).None? {
        assert s[1..][p..] == s[p + 1..];
      }
      SubIdentity(rule, s[1..]);
      assert s == [s[0]] + s[1..];
    }
  }
}
