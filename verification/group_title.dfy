/**
 The two `group-title` passes of renew.py: quoted values first, then whatever
 follows `group-title=` up to whitespace, a comma or the end.  Together they
 leave every `group-title=` in the text as the canonical attribute
 `group-title="频道"`, followed by a delimiter or the end of the text.
 */
module GroupTitle {
  import opened Text
  import opened RewriteRules
  import opened Substitution
  import opened Wrappers

  /** `re.sub(r'group-title="[^"]*"', 'group-title="频道"', content)` */
  function QuotedPass(s: string): string {
    Sub(QuotedValue, s)
  }

  /** `re.sub(r'group-title=[^\s,]*', 'group-title="频道"', content)` */
  function BarePass(s: string): string {
    Sub(BareValue, s)
  }

  /** At `p` stands the canonical attribute, and no value character follows it. */
  predicate CanonicalAt(t: string, p: int) {
    OccursAt(t, p, Canonical) && (p + |Canonical| == |t| || !IsValueChar(t[p + |Canonical|]))
  }

  /** Every `group-title=` in `t` is the canonical attribute. */
  predicate Settled(t: string) {
    forall p | 0 <= p < |t| && OccursAt(t, p, Key) :: CanonicalAt(t, p)
  }

  /** `g`, the first character of the key, appears in the canonical
      attribute only at its start. */
  lemma {:induction false} CanonicalHasOneLead()
    ensures Canonical[0] == 'g' && Key[0] == 'g'
    ensures forall i | 1 <= i < |Canonical| :: Canonical[i] != 'g'
    ensures 'g' !in Key[1..] && '\n' !in Key[1..]
    ensures |Key| == 12 && |Canonical| == 16 && Canonical[..12] == Key
    ensures forall i | 12 <= i < 16 :: IsValueChar(Canonical[i])
    ensures forall i | 0 <= i < 12 :: IsValueChar(Key[i]) && (i > 0 ==> Key[i] != 'g')
  {
  }

  /** No key runs on past `c`: either `c` is the key's first character, which
      recurs nowhere else in it, or `c` is not a value character, and every
      character of the key is one. */
  predicate StopsKey(c: char) {
    c == 'g' || !IsValueChar(c)
  }

  /** A key starting inside `pre` would have to end inside it, when `pre` is
      followed by the end or by a character that stops keys. */
  lemma {:induction false} KeyStaysInside(pre: string, rest: string)
    requires forall p | 0 <= p < |pre| :: !OccursAt(pre, p, Key)
    requires |rest| == 0 || StopsKey(rest[0])
    ensures forall p | 0 <= p < |pre| :: !OccursAt(pre + rest, p, Key)
  {
    var t := pre + rest;
    CanonicalHasOneLead();
    forall p | 0 <= p < |pre| ensures !OccursAt(t, p, Key) {
      if p + 12 <= |pre| {
        assert !OccursAt(pre, p, Key);
        assert t[p..p + 12] == pre[p..p + 12];
      } else if p + 12 <= |t| {
        var k := |pre| - p;
        assert IsValueChar(Key[k]) && Key[k] != 'g';
        assert t[p..p + 12][k] == rest[0] != Key[k];
      }
    }
  }

  /** Both passes copy a prefix in which no key of the whole text starts,
      and substitute the rest on its own. */
  lemma {:induction false} KeyFreePrefixCopied(rule: Rule, pre: string, rest: string)
    requires rule != BlankRun
    requires forall p | 0 <= p < |pre| :: !OccursAt(pre + rest, p, Key)
    ensures Sub(rule, pre + rest) == pre + Sub(rule, rest)
  {
    var t := pre + rest;
    forall p | 0 <= p < |pre| ensures MatchLength(rule, t[p..]).None? {
      OccursAtShift(t[..p], t[p..], 0, Key);
      assert t[..p] + t[p..] == t;
      NoKeyNoMatch(rule, t[p..]);
    }
    SubCopiesNoMatch(rule, pre, rest);
  }

  /** Both passes, after text without `group-title=`: that text is kept, and
      what follows it is rewritten as it would be on its own. */
  lemma {:induction false} PassesAfterKeyFree(pre: string, s: string)
    requires forall p | 0 <= p < |pre| :: !OccursAt(pre, p, Key)
    requires |s| == 0 || s[0] == 'g'
    ensures BarePass(QuotedPass(pre + s)) == pre + BarePass(QuotedPass(s))
  {
    KeyStaysInside(pre, s);
    KeyFreePrefixCopied(QuotedValue, pre, s);
    var q := QuotedPass(s);
    KeyStaysInside(pre, q);
    KeyFreePrefixCopied(BareValue, pre, q);
  }

  /** A suffix of a settled text is settled. */
  lemma {:induction false} SettledTail(t: string, n: nat)
    requires Settled(t) && n <= |t|
    ensures Settled(t[n..])
  {
    assert t[..n] + t[n..] == t;
    forall p | 0 <= p < |t[n..]| && OccursAt(t[n..], p, Key) ensures CanonicalAt(t[n..], p) {
      OccursAtShift(t[..n], t[n..], p, Key);
      OccursAtShift(t[..n], t[n..], p, Canonical);
      if n + p + |Canonical| < |t| {
        assert t[n..][p + |Canonical|] == t[n + p + |Canonical|];
      }
    }
  }

  /** Output of a substitution can begin with the key only where its input
      did, when the input's first character was copied. */
  lemma {:induction false} KeyAtHead(rule: Rule, s: string)
    requires |s| > 0 && MatchLength(rule, s).None?
    ensures OccursAt(Sub(rule, s), 0, Key) ==> OccursAt(s, 0, Key)
  {
    var t := Sub(rule, s);
    if OccursAt(t, 0, Key) {
      CanonicalHasOneLead();
      var r := Sub(rule, s[1..]);
      assert t == [s[0]] + r;
      assert r[..11] == t[1..12] == Key[1..];
      SubPrefixBack(rule, s[1..], Key[1..]);
      assert s[..12] == [s[0]] + s[1..][..11];
    }
  }

  /** After the bare pass, every `group-title=` is the canonical attribute,
      whatever the value was: empty, unquoted, quoted, or left unclosed. */
  lemma {:induction false} BarePassSettles(s: string)
    ensures Settled(BarePass(s))
    decreases |s|
  {
    if |s| > 0 {
      match BareMatch(s)
      case Some(n) =>
        BarePassSettles(s[n..]);
        assert BarePass(s) == Canonical + BarePass(s[n..]);
        assert n < |s| ==> BarePass(s[n..])[0] == s[n];
        SettledAfterCanonical(BarePass(s[n..]));
      case None =>
        BarePassSettles(s[1..]);
        assert BarePass(s) == [s[0]] + BarePass(s[1..]);
        assert !OccursAt(s, 0, Key);
        KeyAtHead(BareValue, s);
        SettledCons(s[0], BarePass(s[1..]));
    }
  }

  /** The canonical attribute before settled text that starts with a
      delimiter, or is empty, gives settled text. */
  lemma {:induction false} SettledAfterCanonical(r: string)
    requires Settled(r) && (|r| == 0 || !IsValueChar(r[0]))
    ensures Settled(Canonical + r)
  {
    var t := Canonical + r;
    CanonicalHasOneLead();
    forall p | 0 <= p < |t| && OccursAt(t, p, Key) ensures CanonicalAt(t, p) {
      assert t[p] == t[p..p + 12][0] == 'g';
      if p < 16 {
        assert t[p] == Canonical[p];
        assert t[..16] == Canonical;
        if 16 < |t| {
          assert t[16] == r[0];
        }
      } else {
        OccursAtShift(Canonical, r, p - 16, Key);
        OccursAtShift(Canonical, r, p - 16, Canonical);
        if p + 16 < |t| {
          assert t[p + 16] == r[p - 16 + 16];
        }
      }
    }
  }

  /** A character before settled text keeps it settled, when no key starts
      there or the key there is canonical. */
  lemma {:induction false} SettledCons(c: char, r: string)
    requires Settled(r)
    requires OccursAt([c] + r, 0, Key) ==> CanonicalAt([c] + r, 0)
    ensures Settled([c] + r)
  {
    var t := [c] + r;
    forall p | 0 < p < |t| && OccursAt(t, p, Key) ensures CanonicalAt(t, p) {
      OccursAtShift([c], r, p - 1, Key);
      OccursAtShift([c], r, p - 1, Canonical);
      if p + |Canonical| < |t| {
        assert t[p + |Canonical|] == r[p - 1 + |Canonical|];
      }
    }
  }

  /** Both patterns match the canonical attribute, when a delimiter or the
      end follows it, as exactly itself. */
  lemma {:induction false} CanonicalMatch(rule: Rule, t: string)
    requires rule != BlankRun && CanonicalAt(t, 0)
    ensures MatchLength(rule, t) == Some(|Canonical|)
  {
    CanonicalHasOneLead();
    assert t[..16] == Canonical;
    if rule == QuotedValue {
      assert t[..13] == QuotedKey;
      assert t[15] == '"' && t[13..15] == "频道";
      assert '"' in t[13..];
      assert t[13] != '"' && t[14] != '"';
    } else {
      assert StartsWith(t, Key);
      assert IsValueChar(t[12]) && IsValueChar(t[13]) && IsValueChar(t[14]) && IsValueChar(t[15]);
    }
  }

  /** Neither pattern matches where the key does not start. */
  lemma {:induction false} NoKeyNoMatch(rule: Rule, t: string)
    requires rule != BlankRun && !OccursAt(t, 0, Key)
    ensures MatchLength(rule, t).None?
  {
    QuotedKeyExtendsKey(t);
  }

  /** The passes leave a settled text as it is. */
  lemma {:induction false} SettledFixed(rule: Rule, t: string)
    requires rule != BlankRun && Settled(t)
    ensures Sub(rule, t) == t
    decreases |t|
  {
    if |t| > 0 {
      if OccursAt(t, 0, Key) {
        CanonicalMatch(rule, t);
        SettledTail(t, 16);
        SettledFixed(rule, t[16..]);
        assert t[..16] + t[16..] == t;
      } else {
        NoKeyNoMatch(rule, t);
        SettledTail(t, 1);
        SettledFixed(rule, t[1..]);
        assert [t[0]] + t[1..] == t;
      }
    }
  }

  /** Where the key never occurs, neither pass changes anything. */
  lemma {:induction false} NoKeyUntouched(rule: Rule, s: string)
    requires rule != BlankRun
    requires forall p | 0 <= p < |s| :: !OccursAt(s, p, Key)
    ensures Sub(rule, s) == s
  {
    forall p | 0 <= p < |s| ensures MatchLength(rule, s[p..]).None? {
      OccursAtShift(s[..p], s[p..], 0, Key);
      assert s[..p] + s[p..] == s;
      NoKeyNoMatch(rule, s[p..]);
    }
    SubIdentity(rule, s);
  }

  /** A closed quoted value, however long and whatever lines it spans, becomes
      the canonical value. */
  lemma {:induction false} QuotedValueReplaced(v: string, rest: string)
    requires '"' !in v
    ensures QuotedPass(QuotedKey + v + "\"" + rest) == Canonical + QuotedPass(rest)
  {
    var s := QuotedKey + v + "\"" + rest;
    var e := 13 + |v| + 1;
    assert s[..13] == QuotedKey;
    assert s[13..][|v|] == '"';
    assert forall i | 13 <= i < 13 + |v| :: s[i] == v[i - 13];
    assert s[13 + |v|] == '"';
    assert s[e..] == rest;
  }

  /** The bare pass takes every value character after the key, and only
      those: `group-title=` followed by value characters `v` and then a
      delimiter or the end becomes the canonical attribute. */
  lemma {:induction false} BarePassGreedy(v: string, b: string)
    requires forall i | 0 <= i < |v| :: IsValueChar(v[i])
    requires |b| == 0 || !IsValueChar(b[0])
    ensures BarePass(Key + v + b) == Canonical + BarePass(b)
  {
    var s := Key + v + b;
    assert s[..12] == Key;
    assert forall i | 12 <= i < 12 + |v| :: s[i] == v[i - 12];
    assert |b| > 0 ==> s[12 + |v|] == b[0];
    assert s[12 + |v|..] == b;
  }

  /** The bare pass on an attribute the quoted pass produced: value
      characters glued to the closing quote are swallowed into the match. */
  lemma {:induction false} CanonicalGlued(glued: string, b: string)
    requires forall i | 0 <= i < |glued| :: IsValueChar(glued[i])
    requires |b| == 0 || !IsValueChar(b[0])
    ensures BarePass(Canonical + glued + b) == Canonical + BarePass(b)
  {
    CanonicalHasOneLead();
    var tail := Canonical[12..] + glued;
    assert Canonical == Key + Canonical[12..];
    assert Canonical + glued + b == Key + tail + b;
    forall i | 0 <= i < |tail| ensures IsValueChar(tail[i]) {
      if i >= 4 {
        assert tail[i] == glued[i - 4];
      }
    }
    BarePassGreedy(tail, b);
  }

  /** Both passes on a quoted attribute: the value becomes canonical, and the
      value characters glued to its closing quote are swallowed, provided no
      `group-title=` starts among them; with a delimiter or the end right
      after the quote, only the value changes. */
  lemma {:induction false} QuotedAttribute(v: string, glued: string, b: string)
    requires '"' !in v
    requires forall i | 0 <= i < |glued| :: IsValueChar(glued[i])
    requires forall p | 0 <= p < |glued| :: !OccursAt(glued, p, Key)
    requires |b| == 0 || !IsValueChar(b[0])
    ensures BarePass(QuotedPass(QuotedKey + v + "\"" + glued + b)) == Canonical + BarePass(QuotedPass(b))
  {
    var q := QuotedPass(b);
    assert QuotedKey + v + "\"" + glued + b == QuotedKey + v + "\"" + (glued + b);
    QuotedValueReplaced(v, glued + b);
    KeyStaysInside(glued, b);
    KeyFreePrefixCopied(QuotedValue, glued, b);
    assert QuotedPass(QuotedKey + v + "\"" + glued + b) == Canonical + glued + q;
    CanonicalGlued(glued, q);
  }

  /** The quoted pass leaves an unquoted attribute alone: `group-title=`
      not followed by `"`, then value characters without the key. */
  lemma {:induction false} UnquotedUntouched(v: string, b: string)
    requires forall i | 0 <= i < |v| :: IsValueChar(v[i])
    requires forall p | 0 <= p < |v| :: !OccursAt(v, p, Key)
    requires |v| == 0 || v[0] != '"'
    requires |b| == 0 || !IsValueChar(b[0])
    ensures QuotedPass(Key + v + b) == Key + v + QuotedPass(b)
  {
    var s := Key + v + b;
    var x := Key[1..] + v;
    UnquotedHead(v, b);
    assert s[1..] == x + b;
    KeyFreeAfterLead(v);
    KeyStaysInside(x, b);
    CopyHeadThen(QuotedValue, s, x, b);
    CanonicalHasOneLead();
    LeadGlue(s[0], Key, v, QuotedPass(b));
  }

  /** A copied first character, then a prefix in which no key of the rest
      starts: both are copied, and the remainder is substituted on its own. */
  lemma {:induction false} CopyHeadThen(rule: Rule, s: string, x: string, b: string)
    requires rule != BlankRun && |s| > 0 && MatchLength(rule, s).None? && s[1..] == x + b
    requires forall p | 0 <= p < |x| :: !OccursAt(x + b, p, Key)
    ensures Sub(rule, s) == [s[0]] + (x + Sub(rule, b))
  {
    KeyFreePrefixCopied(rule, x, b);
  }

  /** Putting the key's first character back in front of its tail. */
  lemma {:induction false} LeadGlue(c: char, k: string, v: string, q: string)
    requires |k| > 0 && c == k[0]
    ensures [c] + (k[1..] + v + q) == k + v + q
  {
    assert k == [c] + k[1..];
  }

  /** The quoted pattern does not match `group-title=` without a quote after it. */
  lemma {:induction false} UnquotedHead(v: string, b: string)
    requires |v| == 0 || v[0] != '"'
    requires |b| == 0 || !IsValueChar(b[0])
    ensures MatchLength(QuotedValue, Key + v + b).None?
  {
    var s := Key + v + b;
    if |s| > 12 {
      if |v| > 0 {
        assert s[12] == v[0];
      } else {
        assert s[12] == b[0];
      }
      assert s[..13][12] == s[12];
    }
  }

  /** Both passes on an unquoted attribute: the quoted pass leaves it alone,
      and the bare pass makes it canonical up to the delimiter or the end. */
  lemma {:induction false} BareAttribute(v: string, b: string)
    requires forall i | 0 <= i < |v| :: IsValueChar(v[i])
    requires forall p | 0 <= p < |v| :: !OccursAt(v, p, Key)
    requires |v| == 0 || v[0] != '"'
    requires |b| == 0 || !IsValueChar(b[0])
    ensures BarePass(QuotedPass(Key + v + b)) == Canonical + BarePass(QuotedPass(b))
  {
    UnquotedUntouched(v, b);
    BarePassGreedy(v, QuotedPass(b));
  }

  /** The key's tail followed by text without the key holds no key. */
  lemma {:induction false} KeyFreeAfterLead(v: string)
    requires forall p | 0 <= p < |v| :: !OccursAt(v, p, Key)
    ensures forall p | 0 <= p < |Key[1..] + v| :: !OccursAt(Key[1..] + v, p, Key)
  {
    var x := Key[1..] + v;
    CanonicalHasOneLead();
    forall p | 0 <= p < |x| ensures !OccursAt(x, p, Key) {
      if p < 11 {
        assert x[p] == Key[p + 1];
        assert p + 12 <= |x| ==> x[p..p + 12][0] == x[p];
      } else {
        OccursAtShift(Key[1..], v, p - 11, Key);
      }
    }
  }

  /** `QuotedAttribute` after text without `group-title=`, such as the
      start of an `#EXTINF` line. */
  lemma {:induction false} QuotedAttributeAfter(pre: string, v: string, glued: string, b: string)
    requires forall p | 0 <= p < |pre| :: !OccursAt(pre, p, Key)
    requires '"' !in v
    requires forall i | 0 <= i < |glued| :: IsValueChar(glued[i])
    requires forall p | 0 <= p < |glued| :: !OccursAt(glued, p, Key)
    requires |b| == 0 || !IsValueChar(b[0])
    ensures BarePass(QuotedPass(pre + QuotedKey + v + "\"" + glued + b)) == pre + Canonical + BarePass(QuotedPass(b))
  {
    var attribute := QuotedKey + v + "\"" + glued + b;
    assert pre + QuotedKey + v + "\"" + glued + b == pre + attribute;
    PassesAfterKeyFree(pre, attribute);
    QuotedAttribute(v, glued, b);
  }

  /** `BareAttribute` after text without `group-title=`. */
  lemma {:induction false} BareAttributeAfter(pre: string, v: string, b: string)
    requires forall p | 0 <= p < |pre| :: !OccursAt(pre, p, Key)
    requires forall i | 0 <= i < |v| :: IsValueChar(v[i])
    requires forall p | 0 <= p < |v| :: !OccursAt(v, p, Key)
    requires |v| == 0 || v[0] != '"'
    requires |b| == 0 || !IsValueChar(b[0])
    ensures BarePass(QuotedPass(pre + Key + v + b)) == pre + Canonical + BarePass(QuotedPass(b))
  {
    var attribute := Key + v + b;
    assert pre + Key + v + b == pre + attribute;
    PassesAfterKeyFree(pre, attribute);
    BareAttribute(v, b);
  }

  const Extinf: string := "#EXTINF:-1 "
  const Sports: string := "体育"
  const ChannelName: string := ",CCTV5"

  /** `#EXTINF:-1 group-title="体育",CCTV5` ends as
      `#EXTINF:-1 group-title="频道",CCTV5`. */
  lemma {:induction false} SportsExample()
    ensures BarePass(QuotedPass(Extinf + QuotedKey + Sports + "\"" + "" + ChannelName)) == Extinf + Canonical + ChannelName
  {
    QuotedAttributeAfter(Extinf, Sports, "", ChannelName);
    ShortUntouched(QuotedValue, ChannelName);
    ShortUntouched(BareValue, ChannelName);
  }

  const News: string := "News"
  const FirstChannel: string := ",Channel1"

  /** `#EXTINF:-1 group-title=News,Channel1` ends as
      `#EXTINF:-1 group-title="频道",Channel1`. */
  lemma {:induction false} NewsExample()
    ensures BarePass(QuotedPass(Extinf + Key + News + FirstChannel)) == Extinf + Canonical + FirstChannel
  {
    BareAttributeAfter(Extinf, News, FirstChannel);
    ShortUntouched(QuotedValue, FirstChannel);
    ShortUntouched(BareValue, FirstChannel);
  }

  const TaggedExtinf: string := "#EXTINF:-1 tvg-id=\"x\" "
  const Logo: string := "tvg-logo=\"b\""

  /** An attribute glued to the closing quote is swallowed:
      `#EXTINF:-1 tvg-id="x" group-title="体育"tvg-logo="b",CCTV5` ends as
      `#EXTINF:-1 tvg-id="x" group-title="频道",CCTV5`. */
  lemma {:induction false} GluedLogoExample()
    ensures BarePass(QuotedPass(TaggedExtinf + QuotedKey + Sports + "\"" + Logo + ChannelName)) == TaggedExtinf + Canonical + ChannelName
  {
    LogoHasNoKey();
    TaggedExtinfHasNoKey();
    QuotedAttributeAfter(TaggedExtinf, Sports, Logo, ChannelName);
    ShortUntouched(QuotedValue, ChannelName);
    ShortUntouched(BareValue, ChannelName);
  }

  /** `tvg-logo="b"` holds no `group-title=`. */
  lemma {:induction false} LogoHasNoKey()
    ensures forall p | 0 <= p < |Logo| :: !OccursAt(Logo, p, Key)
  {
    assert Logo[0] != Key[0];
  }

  /** `#EXTINF:-1 tvg-id="x" ` holds no `group-title=`. */
  lemma {:induction false} TaggedExtinfHasNoKey()
    ensures forall p | 0 <= p < |TaggedExtinf| :: !OccursAt(TaggedExtinf, p, Key)
  {
    forall p | 0 <= p <= |TaggedExtinf| - |Key| ensures !OccursAt(TaggedExtinf, p, Key) {
      assert TaggedExtinf[p] != Key[0];
      assert TaggedExtinf[p..p + |Key|][0] == TaggedExtinf[p];
    }
  }

  /** Text shorter than the key has no match of either pattern. */
  lemma {:induction false} ShortUntouched(rule: Rule, s: string)
    requires rule != BlankRun && |s| < |Key|
    ensures Sub(rule, s) == s
  {
    NoKeyUntouched(rule, s);
  }

  const Unclosed: string := "a\nhttp://x\ngroup-title="
  const NextValue: string := "b\",C"

  /** A value whose closing quote is missing runs on to the next double quote,
      however many lines away: `group-title="a`, a link line, and the next
      attribute's key and opening quote all become one canonical attribute. */
  lemma {:induction false} UnclosedQuoteSwallowsLines()
    ensures QuotedPass(QuotedKey + Unclosed + "\"" + NextValue) == Canonical + NextValue
  {
    QuotedValueReplaced(Unclosed, NextValue);
    ShortUntouched(QuotedValue, NextValue);
  }
}
