/**
 The text transformation of renew.py's `process_m3u_file`, from the content
 read to the content written: split into lines, drop the time messages and
 the stray links below them, join, then the two `group-title` passes and the
 blank-line cleanup.
 */
module Renew {
  import opened Text
  import opened Wrappers
  import opened Lines
  import opened TimePatterns
  import opened LineFilter
  import opened RewriteRules
  import opened Substitution
  import opened GroupTitle
  import opened BlankLines

  /** Split on newlines, filter, join with newlines. */
  function FilterText(content: string): string {
    Join(Filter(Split(content)))
  }

  /** The three substitutions, in the order the program applies them. */
  function Rewrite(content: string): string {
    Collapse(BarePass(QuotedPass(content)))
  }

  /** What `process_m3u_file` writes for the content it read. */
  function ProcessContent(content: string): string {
    Rewrite(FilterText(content))
  }

  /** Without time messages, splitting and rejoining gives back the content. */
  lemma {:induction false} FilterTextNoTimeMessage(content: string)
    requires forall i | 0 <= i < |Split(content)| :: !IsTimeMessage(Split(content)[i])
    ensures FilterText(content) == content
  {
    NoTimeMessageKeepsAll(Split(content));
    JoinSplit(content);
  }

  /** The lines of the filtered text are the kept lines; when no line is
      kept the text is empty.  None of them is a time message. */
  lemma {:induction false} FilterTextLines(content: string)
    ensures Filter(Split(content)) == [] ==> FilterText(content) == ""
    ensures Filter(Split(content)) != [] ==> Split(FilterText(content)) == Filter(Split(content))
    ensures forall i | 0 <= i < |Split(FilterText(content))| :: !IsTimeMessage(Split(FilterText(content))[i])
  {
    var kept := Filter(Split(content));
    if kept != [] {
      SplitJoin(kept);
      assert forall i | 0 <= i < |kept| :: kept[i] in kept;
    } else {
      assert Split(FilterText(content)) == [""];
      TimeMessageHasHash("");
    }
  }

  /** The canonical attribute at the start of a text survives the cleanup,
      and so does the delimiter after it. */
  lemma {:induction false} CanonicalSurvivesCollapse(s: string)
    requires CanonicalAt(s, 0)
    ensures CanonicalAt(Collapse(s), 0)
  {
    var z := s[|Canonical|..];
    assert s == Canonical + z;
    assert '\n' !in Canonical;
    SubCopies(BlankRun, Canonical, z);
    var t := Collapse(s);
    assert t == Canonical + Collapse(z);
    assert t[..|Canonical|] == Canonical;
    if |z| > 0 {
      assert t[|Canonical|] == z[0] == s[|Canonical|];
    }
  }

  /** The cleanup keeps every `group-title=` canonical: it touches only
      whitespace, and a whitespace stretch after an attribute stays
      non-empty. */
  lemma {:induction false} CollapseKeepsSettled(s: string)
    requires Settled(s)
    ensures Settled(Collapse(s))
    decreases |s|
  {
    if |s| > 0 {
      match MatchLength(BlankRun, s)
      case Some(n) =>
        SettledTail(s, n);
        CollapseKeepsSettled(s[n..]);
        SettledAfterMatch(s, n);
      case None =>
        SettledTail(s, 1);
        CollapseKeepsSettled(s[1..]);
        SettledAfterCopy(s);
    }
  }

  /** A replaced run followed by settled output is settled. */
  lemma {:induction false} SettledAfterMatch(s: string, n: nat)
    requires MatchLength(BlankRun, s) == Some(n) && Settled(Collapse(s[n..]))
    ensures Settled(Collapse(s))
  {
    assert Collapse(s) == BlankLine + Collapse(s[n..]);
    SettledAfterBlankLine(Collapse(s[n..]));
  }

  /** "\n\n" holds no key, so putting it before settled text keeps it settled. */
  lemma {:induction false} SettledAfterBlankLine(r: string)
    requires Settled(r)
    ensures Settled(BlankLine + r)
  {
    var t := BlankLine + r;
    CanonicalHasOneLead();
    forall p | 0 <= p < |t| && OccursAt(t, p, Key) ensures CanonicalAt(t, p) {
      assert t[p] == t[p..p + 12][0] == 'g';
      assert t[0] == '\n' && t[1] == '\n';
      OccursAtShift(BlankLine, r, p - 2, Key);
      OccursAtShift(BlankLine, r, p - 2, Canonical);
      if p + 16 < |t| {
        assert t[p + 16] == r[p - 2 + 16];
      }
    }
  }

  /** A copied character followed by settled output is settled, when the
      input was. */
  lemma {:induction false} SettledAfterCopy(s: string)
    requires |s| > 0 && MatchLength(BlankRun, s).None? && Settled(s) && Settled(Collapse(s[1..]))
    ensures Settled(Collapse(s))
  {
    assert Collapse(s) == [s[0]] + Collapse(s[1..]);
    HeadAfterCopy(s);
    SettledCons(s[0], Collapse(s[1..]));
  }

  /** A key at the start of the output after a copied character was there in
      the input, canonical, and stays so. */
  lemma {:induction false} HeadAfterCopy(s: string)
    requires |s| > 0 && MatchLength(BlankRun, s).None? && Settled(s)
    ensures OccursAt(Collapse(s), 0, Key) ==> CanonicalAt(Collapse(s), 0)
  {
    KeyAtHead(BlankRun, s);
    if OccursAt(Collapse(s), 0, Key) {
      assert OccursAt(s, 0, Key);
      CanonicalSurvivesCollapse(s);
    }
  }

  /** After the three substitutions every `group-title=` is the canonical
      attribute, no whitespace run holds three newlines, and the only
      non-whitespace changes are those of the `group-title` passes. */
  lemma {:induction false} RewriteResult(content: string)
    ensures Settled(Rewrite(content))
    ensures NoBlankRun(Rewrite(content))
    ensures NonSpace(Rewrite(content)) == NonSpace(BarePass(QuotedPass(content)))
  {
    var b := BarePass(QuotedPass(content));
    BarePassSettles(QuotedPass(content));
    CollapseKeepsSettled(b);
    CollapseLeavesNoBlankRun(b);
    CollapseKeepsNonSpace(b);
  }

  /** Rewriting twice is rewriting once. */
  lemma {:induction false} RewriteIdempotent(content: string)
    ensures Rewrite(Rewrite(content)) == Rewrite(content)
  {
    var t := Rewrite(content);
    RewriteResult(content);
    SettledFixed(QuotedValue, t);
    SettledFixed(BareValue, t);
    NoBlankRunFixed(t);
  }

  /** The written content: every `group-title=` canonical, no whitespace run
      with three newlines, no line left that is a time message before the
      rewrite. */
  lemma {:induction false} ProcessContentResult(content: string)
    ensures Settled(ProcessContent(content))
    ensures NoBlankRun(ProcessContent(content))
    ensures forall i | 0 <= i < |Split(FilterText(content))| :: !IsTimeMessage(Split(FilterText(content))[i])
  {
    RewriteResult(FilterText(content));
    FilterTextLines(content);
  }

  /** Content that has no time message, no `group-title=` and no whitespace
      run with three newlines is written back unchanged. */
  lemma {:induction false} CleanContentUnchanged(content: string)
    requires forall i | 0 <= i < |Split(content)| :: !IsTimeMessage(Split(content)[i])
    requires forall p | 0 <= p < |content| :: !OccursAt(content, p, Key)
    requires NoBlankRun(content)
    ensures ProcessContent(content) == content
  {
    FilterTextNoTimeMessage(content);
    NoKeyUntouched(QuotedValue, content);
    NoKeyUntouched(BareValue, content);
    NoBlankRunFixed(content);
  }

  /** A file holding only the announcement and the banner link below it is
      written back empty. */
  lemma {:induction false} BannerFileEmptied()
    ensures ProcessContent(StampLine + "\n" + BannerLine) == ""
  {
    var lines := [StampLine, BannerLine];
    assert Join(lines) == StampLine + "\n" + BannerLine by {
      assert lines[1..] == [BannerLine];
    }
    SplitJoin(lines);
    BannerExample();
    assert FilterText(StampLine + "\n" + BannerLine) == "";
  }
}
