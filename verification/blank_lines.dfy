/**
 The blank-line cleanup of renew.py, `re.sub(r'\n\s*\n\s*\n', '\n\n', content)`.

 Cut the text into maximal whitespace stretches and the characters between
 them.  A stretch with three or more newlines keeps what comes before its
 first newline and after its last, with exactly "\n\n" in between; every
 other stretch, and every other character, is left alone.  `CollapseByStretch`
 states this directly and `CollapseIsByStretch` shows the regex pass does it.
 */
module BlankLines {
  import opened Text
  import opened Wrappers
  import opened RewriteRules
  import opened Substitution

  /** `re.sub(r'\n\s*\n\s*\n', '\n\n', content)` */
  function Collapse(s: string): string {
    Sub(BlankRun, s)
  }

  /** Every character of `w` is whitespace. */
  predicate Blank(w: string) {
    forall i | 0 <= i < |w| :: IsSpace(w[i])
  }

  /** `y` is empty or begins with a non-whitespace character, so a whitespace
      stretch just before it ends there. */
  predicate StartsSolid(y: string) {
    |y| == 0 || !IsSpace(y[0])
  }

  /** `u` has a newline at position `k`. */
  predicate IsNewline(u: string, k: int) {
    0 <= k < |u| && u[k] == '\n'
  }

  /** No three newlines in `u`. */
  predicate AtMostTwoNewlines(u: string) {
    forall a, b, c | 0 <= a < b < c < |u| :: !(IsNewline(u, a) && IsNewline(u, b) && IsNewline(u, c))
  }

  /** What the cleanup makes of one whitespace stretch. */
  function Squeeze(w: string): string {
    if AtMostTwoNewlines(w) then w
    else
      var first := IndexOf(w, '\n').value;
      var last := LastIndexOf(w, '\n').value;
      w[..first] + BlankLine + w[last + 1..]
  }

  /** The cleanup stretch by stretch. */
  function CollapseByStretch(s: string): string
    decreases |s|
  {
    if |s| == 0 then ""
    else if !IsSpace(s[0]) then [s[0]] + CollapseByStretch(s[1..])
    else
      var n := LeadingSpace(s);
      Squeeze(s[..n]) + CollapseByStretch(s[n..])
  }

  /** With `first` and `last` the first and last newline of `w`, three
      newlines exist exactly when one lies strictly between them. */
  lemma {:induction false} ThreeNewlines(w: string, first: nat, last: nat)
    requires IndexOf(w, '\n') == Some(first) && LastIndexOf(w, '\n') == Some(last)
    ensures !AtMostTwoNewlines(w) <==> exists m | first < m < last :: w[m] == '\n'
  {
    if !AtMostTwoNewlines(w) {
      var a, b, c :| 0 <= a < b < c < |w| && IsNewline(w, a) && IsNewline(w, b) && IsNewline(w, c);
      assert w[a] == '\n' && w[b] == '\n' && w[c] == '\n';
      assert first < b < last;
    }
    if exists m | first < m < last :: w[m] == '\n' {
      var m :| first < m < last && w[m] == '\n';
      assert IsNewline(w, first) && IsNewline(w, m) && IsNewline(w, last);
    }
  }

  /** Text whose newlines are at `i` and `i + 1` at most has at most two. */
  lemma {:induction false} NewlinesAtMost(u: string, i: int)
    requires forall k | 0 <= k < |u| && u[k] == '\n' :: k == i || k == i + 1
    ensures AtMostTwoNewlines(u)
  {
  }

  /** The squeezed form of a stretch with three newlines. */
  lemma {:induction false} SqueezeUnfold(w: string, first: nat, last: nat)
    requires !AtMostTwoNewlines(w)
    requires IndexOf(w, '\n') == Some(first) && LastIndexOf(w, '\n') == Some(last)
    ensures first <= last
    ensures Squeeze(w) == w[..first] + BlankLine + w[last + 1..]
  {
  }

  /** The squeezed form, position by position: the stretch up to its first
      newline, two newlines, and the stretch after its last newline. */
  lemma {:induction false} SqueezeAt(w: string, first: nat, last: nat)
    requires !AtMostTwoNewlines(w)
    requires IndexOf(w, '\n') == Some(first) && LastIndexOf(w, '\n') == Some(last)
    ensures first <= last
    ensures |Squeeze(w)| == first + 2 + (|w| - last - 1)
    ensures forall k | 0 <= k < first :: Squeeze(w)[k] == w[k]
    ensures Squeeze(w)[first] == '\n' && Squeeze(w)[first + 1] == '\n'
    ensures forall k | first + 2 <= k < |Squeeze(w)| :: Squeeze(w)[k] == w[k - first - 2 + last + 1]
  {
    SqueezeUnfold(w, first, last);
    var tail := w[last + 1..];
    ThreePieces(Squeeze(w), w[..first], BlankLine, tail);
    forall k | first + 2 <= k < |Squeeze(w)| ensures Squeeze(w)[k] == w[k - first - 2 + last + 1] {
      assert Squeeze(w)[k] == tail[k - first - 2];
    }
  }

  /** Positions in a concatenation of three pieces. */
  lemma {:induction false} ThreePieces(x: string, a: string, b: string, c: string)
    requires x == a + b + c
    ensures |x| == |a| + |b| + |c|
    ensures forall k | 0 <= k < |a| :: x[k] == a[k]
    ensures forall k | 0 <= k < |b| :: x[|a| + k] == b[k]
    ensures forall k | |a| + |b| <= k < |a| + |b| + |c| :: x[k] == c[k - |a| - |b|]
  {
  }

  /** A squeezed stretch is whitespace, and non-empty when the stretch is. */
  lemma {:induction false} SqueezeBlank(w: string)
    requires Blank(w)
    ensures Blank(Squeeze(w))
    ensures |w| > 0 ==> |Squeeze(w)| > 0
  {
    if !AtMostTwoNewlines(w) {
      SqueezeAt(w, IndexOf(w, '\n').value, LastIndexOf(w, '\n').value);
    }
  }

  /** A squeezed stretch holds at most two newlines. */
  lemma {:induction false} SqueezeQuiet(w: string)
    ensures AtMostTwoNewlines(Squeeze(w))
  {
    if !AtMostTwoNewlines(w) {
      var first := IndexOf(w, '\n').value;
      SqueezeAt(w, first, LastIndexOf(w, '\n').value);
      NewlinesAtMost(Squeeze(w), first);
    }
  }

  /** `LeadingSpace` of a whitespace stretch followed by a solid start is the
      stretch's length. */
  lemma {:induction false} LeadingSpaceOfStretch(w: string, y: string)
    requires Blank(w) && StartsSolid(y)
    ensures LeadingSpace(w + y) == |w|
  {
    var s := w + y;
    assert forall k | 0 <= k < |w| :: s[k] == w[k];
    assert |y| > 0 ==> s[|w|] == y[0];
  }

  /** A suffix of whitespace is whitespace. */
  lemma {:induction false} BlankSuffix(w: string, k: nat)
    requires Blank(w) && k <= |w|
    ensures Blank(w[k..])
  {
    assert forall i | 0 <= i < |w| - k :: w[k..][i] == w[k + i];
  }

  /** A stretch with a single newline, at its start, is left alone. */
  lemma {:induction false} LoneNewline(u: string, y: string)
    requires Blank(u) && StartsSolid(y)
    requires |u| > 0 && u[0] == '\n' && forall k | 1 <= k < |u| :: u[k] != '\n'
    ensures Collapse(u + y) == u + Collapse(y)
  {
    var s := u + y;
    LoneNewlineNoMatch(u, y);
    assert s[1..] == u[1..] + y;
    assert '\n' !in u[1..] by {
      assert forall k | 0 <= k < |u| - 1 :: u[1..][k] == u[k + 1];
    }
    CopyNewlineThen(s, u[1..], y);
    assert [u[0]] + u[1..] == u;
  }

  /** The pattern needs two newlines in the stretch that starts the text. */
  lemma {:induction false} LoneNewlineNoMatch(u: string, y: string)
    requires Blank(u) && StartsSolid(y)
    requires |u| > 0 && u[0] == '\n' && forall k | 1 <= k < |u| :: u[k] != '\n'
    ensures BlankMatch(u + y).None?
  {
    var s := u + y;
    LeadingSpaceOfStretch(u, y);
    var l := LastBlankNewline(s);
    assert s[l] == u[l];
  }

  /** On a stretch that starts with a newline, the pattern matches exactly
      when the stretch has three newlines, and then up to its last newline. */
  lemma {:induction false} StretchMatch(w: string, y: string)
    requires Blank(w) && StartsSolid(y) && |w| > 0 && w[0] == '\n'
    ensures LastIndexOf(w, '\n').Some?
    ensures !AtMostTwoNewlines(w) ==> BlankMatch(w + y) == Some(LastIndexOf(w, '\n').value + 1)
    ensures AtMostTwoNewlines(w) ==> BlankMatch(w + y).None?
  {
    var s := w + y;
    var last := LastIndexOf(w, '\n').value;
    assert IndexOf(w, '\n') == Some(0);
    ThreeNewlines(w, 0, last);
    LeadingSpaceOfStretch(w, y);
    var l := LastBlankNewline(s);
    assert s[l] == w[l] && s[last] == w[last];
    assert l == last;
    assert forall m | 0 < m < last :: s[m] == w[m];
  }

  /** Dropping a prefix of `w` from `w + y`.  This and the small sequence
      steps below are stated over plain strings, so that the solver sees only
      their own terms where they are used. */
  lemma {:induction false} DropFromAppend(w: string, y: string, k: nat)
    requires k <= |w|
    ensures (w + y)[k..] == w[k..] + y
  {
  }

  /** From its last newline on, a text has no other newline. */
  lemma {:induction false} FromLastNewline(w: string, last: nat)
    requires LastIndexOf(w, '\n') == Some(last)
    ensures |w[last..]| > 0 && w[last..][0] == '\n'
    ensures forall k | 1 <= k < |w[last..]| :: w[last..][k] != '\n'
  {
    assert forall k | 0 <= k < |w[last..]| :: w[last..][k] == w[last + k];
  }

  /** The part of a stretch after its last newline holds no newline. */
  lemma {:induction false} AfterLastNewline(w: string, last: nat)
    requires LastIndexOf(w, '\n') == Some(last)
    ensures '\n' !in w[last + 1..]
  {
    var tail := w[last + 1..];
    assert forall k | 0 <= k < |tail| :: tail[k] == w[last + 1 + k];
  }

  /** A stretch with three newlines, starting with one, becomes "\n\n" and
      what follows its last newline. */
  lemma {:induction false} SqueezedStretch(w: string, y: string)
    requires Blank(w) && StartsSolid(y) && |w| > 0 && w[0] == '\n' && !AtMostTwoNewlines(w)
    ensures Collapse(w + y) == Squeeze(w) + Collapse(y)
  {
    StretchMatch(w, y);
    var last := LastIndexOf(w, '\n').value;
    DropFromAppend(w, y, last + 1);
    AfterLastNewline(w, last);
    ReplaceThenCopy(w + y, last + 1, w[last + 1..], y);
    SqueezeFromNewline(w);
  }

  /** A stretch starting with a newline and holding three squeezes to
      "\n\n" and what follows its last newline. */
  lemma {:induction false} SqueezeFromNewline(w: string)
    requires |w| > 0 && w[0] == '\n' && !AtMostTwoNewlines(w)
    ensures LastIndexOf(w, '\n').Some?
    ensures Squeeze(w) == BlankLine + w[LastIndexOf(w, '\n').value + 1..]
  {
    assert IndexOf(w, '\n') == Some(0);
    var last := LastIndexOf(w, '\n').value;
    SqueezeUnfold(w, 0, last);
    EmptyPrefix(Squeeze(w), w[..0], w[last + 1..]);
  }

  /** A squeezed form whose part before the first newline is empty. */
  lemma {:induction false} EmptyPrefix(sw: string, none: string, tail: string)
    requires sw == none + BlankLine + tail && |none| == 0
    ensures sw == BlankLine + tail
  {
    assert none == "";
  }

  /** A match replaced, then text without newlines copied. */
  lemma {:induction false} ReplaceThenCopy(s: string, n: nat, tail: string, y: string)
    requires MatchLength(BlankRun, s) == Some(n) && s[n..] == tail + y && '\n' !in tail
    ensures Collapse(s) == BlankLine + tail + Collapse(y)
  {
    SubCopies(BlankRun, tail, y);
  }

  /** A stretch with at most two newlines, starting with one, is left alone. */
  lemma {:induction false} QuietStretch(w: string, y: string)
    requires Blank(w) && StartsSolid(y) && |w| > 0 && w[0] == '\n' && AtMostTwoNewlines(w)
    ensures Collapse(w + y) == w + Collapse(y)
  {
    StretchMatch(w, y);
    var last := LastIndexOf(w, '\n').value;
    AfterLastNewline(w, last);
    if last == 0 {
      LoneNewline(w, y);
    } else {
      var u := w[last..];
      BlankSuffix(w, last);
      FromLastNewline(w, last);
      LoneNewline(u, y);
      QuietBetween(w, last);
      SplitAfterHead(w, y, last);
      CopyNewlineThen(w + y, w[1..last], u + y);
      assert (w + y)[0] == w[0];
      Glue(Collapse(w + y), Collapse(u + y), Collapse(y), w[0], w[1..last], u, w);
    }
  }

  /** The newlines of a quiet stretch that starts with one are its first and
      its last: the stretch is a newline, newline-free text, and the rest
      from the last newline. */
  lemma {:induction false} QuietBetween(w: string, last: nat)
    requires |w| > 0 && w[0] == '\n' && LastIndexOf(w, '\n') == Some(last) && 0 < last
    requires AtMostTwoNewlines(w)
    ensures '\n' !in w[1..last]
    ensures w[1..] == w[1..last] + w[last..]
    ensures w == [w[0]] + w[1..last] + w[last..]
  {
    assert IndexOf(w, '\n') == Some(0);
    ThreeNewlines(w, 0, last);
    var mid := w[1..last];
    assert forall k | 0 <= k < |mid| :: mid[k] == w[k + 1];
    assert w == [w[0]] + w[1..];
  }

  /** `w + y` after its first character, cut at `k`. */
  lemma {:induction false} SplitAfterHead(w: string, y: string, k: nat)
    requires 0 < k <= |w|
    ensures (w + y)[1..] == w[1..k] + (w[k..] + y)
  {
    assert (w + y)[1..] == w[1..] + y;
    assert w[1..] == w[1..k] + w[k..];
  }

  /** Reassociating a copied character, a copied middle and a rest. */
  lemma {:induction false} Glue(a: string, b: string, c: string, head: char, mid: string, u: string, w: string)
    requires a == [head] + mid + b && b == u + c && w == [head] + mid + u
    ensures a == w + c
  {
  }

  /** A newline where the pattern does not match is copied, and so is the
      newline-free text after it. */
  lemma {:induction false} CopyNewlineThen(s: string, mid: string, rest: string)
    requires |s| > 0 && MatchLength(BlankRun, s).None? && s[1..] == mid + rest && '\n' !in mid
    ensures Collapse(s) == [s[0]] + mid + Collapse(rest)
  {
    SubCopies(BlankRun, mid, rest);
  }

  /** A stretch that starts with a newline becomes its squeezed form. */
  lemma {:induction false} StretchFromNewline(w: string, y: string)
    requires Blank(w) && StartsSolid(y) && |w| > 0 && w[0] == '\n'
    ensures Collapse(w + y) == Squeeze(w) + Collapse(y)
  {
    if AtMostTwoNewlines(w) {
      QuietStretch(w, y);
    } else {
      SqueezedStretch(w, y);
    }
  }

  /** The first and last newline of `w`, seen from its first newline on; the
      stretch has three newlines exactly when that part does. */
  lemma {:induction false} FromFirstNewline(w: string, first: nat, last: nat)
    requires IndexOf(w, '\n') == Some(first) && LastIndexOf(w, '\n') == Some(last)
    ensures first <= last
    ensures IndexOf(w[first..], '\n') == Some(0)
    ensures LastIndexOf(w[first..], '\n') == Some(last - first)
    ensures AtMostTwoNewlines(w) <==> AtMostTwoNewlines(w[first..])
  {
    assert w[first..][0] == w[first];
    LastNewlineShift(w, first, last);
    ThreeNewlines(w, first, last);
    ThreeNewlines(w[first..], 0, last - first);
    MiddleNewlineShift(w, first, last);
  }

  /** The last newline of `w`, counted from its first newline. */
  lemma {:induction false} LastNewlineShift(w: string, first: nat, last: nat)
    requires IndexOf(w, '\n') == Some(first) && LastIndexOf(w, '\n') == Some(last)
    ensures first <= last
    ensures LastIndexOf(w[first..], '\n') == Some(last - first)
  {
    var v := w[first..];
    assert forall k | 0 <= k < |v| :: v[k] == w[first + k];
    assert v[last - first] == '\n';
    var l := LastIndexOf(v, '\n').value;
    assert w[first + l] == '\n';
  }

  /** A newline strictly between the first and the last newline of `w` is one
      strictly between the first and the last of `w[first..]`, and back. */
  lemma {:induction false} MiddleNewlineShift(w: string, first: nat, last: nat)
    requires first <= last < |w|
    ensures (exists m | first < m < last :: w[m] == '\n') <==> (exists m | 0 < m < last - first :: w[first..][m] == '\n')
  {
    var v := w[first..];
    if exists m | first < m < last :: w[m] == '\n' {
      var m :| first < m < last && w[m] == '\n';
      assert v[m - first] == '\n';
    }
    if exists m | 0 < m < last - first :: v[m] == '\n' {
      var m :| 0 < m < last - first && v[m] == '\n';
      assert w[first + m] == '\n';
    }
  }

  /** Squeezing leaves what precedes the first newline alone. */
  lemma {:induction false} SqueezeAfterPrefix(w: string, first: nat)
    requires IndexOf(w, '\n') == Some(first)
    ensures Squeeze(w) == w[..first] + Squeeze(w[first..])
  {
    var last := LastIndexOf(w, '\n').value;
    FromFirstNewline(w, first, last);
    if AtMostTwoNewlines(w) {
      SqueezeQuietPrefix(w, first);
    } else {
      SqueezeLoudPrefix(w, first, last);
    }
  }

  /** A quiet stretch squeezes to itself, whatever prefix is split off. */
  lemma {:induction false} SqueezeQuietPrefix(w: string, first: nat)
    requires first <= |w| && AtMostTwoNewlines(w) && AtMostTwoNewlines(w[first..])
    ensures Squeeze(w) == w[..first] + Squeeze(w[first..])
  {
    assert w == w[..first] + w[first..];
  }

  /** The part before the first newline stays in front of the squeezed rest. */
  lemma {:induction false} SqueezeLoudPrefix(w: string, first: nat, last: nat)
    requires first <= last
    requires IndexOf(w, '\n') == Some(first) && LastIndexOf(w, '\n') == Some(last)
    requires IndexOf(w[first..], '\n') == Some(0) && LastIndexOf(w[first..], '\n') == Some(last - first)
    requires !AtMostTwoNewlines(w) && !AtMostTwoNewlines(w[first..])
    ensures Squeeze(w) == w[..first] + Squeeze(w[first..])
  {
    SqueezeUnfold(w, first, last);
    SqueezeSuffix(w, first, last);
    LoudGlue(Squeeze(w), Squeeze(w[first..]), w, first, last);
  }

  /** `SqueezeUnfold` for the part from the first newline on. */
  lemma {:induction false} SqueezeSuffix(w: string, first: nat, last: nat)
    requires first <= last < |w|
    requires IndexOf(w[first..], '\n') == Some(0) && LastIndexOf(w[first..], '\n') == Some(last - first)
    requires !AtMostTwoNewlines(w[first..])
    ensures Squeeze(w[first..]) == w[first..][..0] + BlankLine + w[first..][last - first + 1..]
  {
    SqueezeUnfold(w[first..], 0, last - first);
  }

  /** The squeezed stretch is its part before the first newline followed by
      the squeezed part from the first newline on. */
  lemma {:induction false} LoudGlue(sw: string, sv: string, w: string, first: nat, last: nat)
    requires first <= last < |w|
    requires sw == w[..first] + BlankLine + w[last + 1..]
    requires sv == w[first..][..0] + BlankLine + w[first..][last - first + 1..]
    ensures sw == w[..first] + sv
  {
    SuffixOfSuffix(w, first, last - first + 1, last + 1);
    GluePieces(sw, sv, w[..first], w[first..][..0], w[last + 1..], w[first..][last - first + 1..]);
  }

  /** A stretch without newlines is left alone. */
  lemma {:induction false} NoNewlineStretch(w: string, y: string)
    requires '\n' !in w
    ensures Squeeze(w) == w
    ensures Collapse(w + y) == w + Collapse(y)
  {
    NewlinesAtMost(w, 0);
    SubCopies(BlankRun, w, y);
  }

  /** A whitespace stretch becomes its squeezed form: a stretch with three or
      more newlines keeps what precedes its first newline and follows its
      last, with "\n\n" in between, and any other stretch is left alone. */
  lemma {:induction false} CollapseStretch(w: string, y: string)
    requires Blank(w) && StartsSolid(y)
    ensures Collapse(w + y) == Squeeze(w) + Collapse(y)
  {
    match IndexOf(w, '\n')
    case None =>
      NoNewlineStretch(w, y);
    case Some(first) =>
      var v := w[first..];
      SplitAt(w, y, first);
      assert '\n' !in w[..first];
      SubCopies(BlankRun, w[..first], v + y);
      BlankSuffix(w, first);
      StretchFromNewline(v, y);
      SqueezeAfterPrefix(w, first);
      Glue3(Collapse(w + y), Collapse(v + y), Collapse(y), w[..first], Squeeze(v), Squeeze(w));
  }

  /** `w + y` cut at `k`. */
  lemma {:induction false} SplitAt(w: string, y: string, k: nat)
    requires k <= |w|
    ensures w + y == w[..k] + (w[k..] + y)
  {
    assert w == w[..k] + w[k..];
  }

  /** Two squeezed forms with the same tail, one with an empty head. */
  lemma {:induction false} GluePieces(sw: string, sv: string, pre: string, none: string, tail: string, tail2: string)
    requires sw == pre + BlankLine + tail && sv == none + BlankLine + tail2 && |none| == 0 && tail2 == tail
    ensures sw == pre + sv
  {
    assert none == "";
  }

  /** Dropping `a` then `b` characters drops `a + b`. */
  lemma {:induction false} SuffixOfSuffix(w: string, a: nat, b: nat, c: nat)
    requires c == a + b <= |w|
    ensures w[a..][b..] == w[c..]
  {
  }

  /** Reassociating a prefix, a squeezed part and a rest. */
  lemma {:induction false} Glue3(a: string, b: string, c: string, pre: string, q: string, sq: string)
    requires a == pre + b && b == q + c && sq == pre + q
    ensures a == sq + c
  {
  }

  /** A character that is not whitespace is copied. */
  lemma {:induction false} CollapseSolid(s: string)
    requires |s| > 0 && !IsSpace(s[0])
    ensures Collapse(s) == [s[0]] + Collapse(s[1..])
  {
  }

  /** The regex pass is the stretch-by-stretch cleanup. */
  lemma {:induction false} CollapseIsByStretch(s: string)
    ensures Collapse(s) == CollapseByStretch(s)
    decreases |s|
  {
    if |s| > 0 {
      if !IsSpace(s[0]) {
        CollapseSolid(s);
        CollapseIsByStretch(s[1..]);
      } else {
        var n := LeadingSpace(s);
        var w := s[..n];
        var y := s[n..];
        assert forall k | 0 <= k < n :: w[k] == s[k];
        assert n < |s| ==> y[0] == s[n];
        assert s == w + y;
        CollapseStretch(w, y);
        CollapseIsByStretch(y);
      }
    }
  }

  /** A suffix of text with at most two newlines has at most two. */
  lemma {:induction false} AtMostSuffix(u: string, k: nat)
    requires AtMostTwoNewlines(u) && k <= |u|
    ensures AtMostTwoNewlines(u[k..])
  {
    var v := u[k..];
    forall a, b, c | 0 <= a < b < c < |v| ensures !(IsNewline(v, a) && IsNewline(v, b) && IsNewline(v, c)) {
      assert v[a] == u[k + a] && v[b] == u[k + b] && v[c] == u[k + c];
      assert !(IsNewline(u, k + a) && IsNewline(u, k + b) && IsNewline(u, k + c));
    }
  }

  /** The pattern matches nowhere inside a whitespace stretch with at most two
      newlines. */
  lemma {:induction false} QuietNoMatch(q: string, r: string, p: nat)
    requires Blank(q) && AtMostTwoNewlines(q) && StartsSolid(r) && p < |q|
    ensures BlankMatch((q + r)[p..]).None?
  {
    var u := q[p..];
    DropFromAppend(q, r, p);
    BlankSuffix(q, p);
    AtMostSuffix(q, p);
    assert (u + r)[0] == u[0];
    if u[0] == '\n' {
      StretchMatch(u, r);
    }
  }

  /** No position of `t` starts a match of `\n\s*\n\s*\n`. */
  predicate NoBlankRun(t: string) {
    forall p | 0 <= p < |t| :: BlankMatch(t[p..]).None?
  }

  /** A text that starts solid still does after the cleanup. */
  lemma {:induction false} ByStretchStartsSolid(s: string)
    requires StartsSolid(s)
    ensures StartsSolid(CollapseByStretch(s))
  {
  }

  /** A prefix of whitespace characters is blank. */
  lemma {:induction false} StretchIsBlank(s: string, n: nat)
    requires n <= |s| && forall i | 0 <= i < n :: IsSpace(s[i])
    ensures Blank(s[..n])
  {
    assert forall i | 0 <= i < n :: s[..n][i] == s[i];
  }

  /** Cleaned text has no match left. */
  lemma {:induction false} ByStretchNoBlankRun(s: string)
    ensures NoBlankRun(CollapseByStretch(s))
    decreases |s|
  {
    if |s| > 0 {
      if !IsSpace(s[0]) {
        ByStretchNoBlankRun(s[1..]);
        NoBlankRunCons(s[0], CollapseByStretch(s[1..]));
      } else {
        var n := LeadingSpace(s);
        var w := s[..n];
        ByStretchNoBlankRun(s[n..]);
        StretchIsBlank(s, n);
        SqueezeBlank(w);
        SqueezeQuiet(w);
        assert n < |s| ==> s[n..][0] == s[n];
        ByStretchStartsSolid(s[n..]);
        NoBlankRunAfterQuiet(Squeeze(w), CollapseByStretch(s[n..]));
      }
    }
  }

  /** A character other than a newline before text without a match adds none. */
  lemma {:induction false} NoBlankRunCons(c: char, r: string)
    requires c != '\n' && NoBlankRun(r)
    ensures NoBlankRun([c] + r)
  {
    var t := [c] + r;
    forall p | 0 <= p < |t| ensures BlankMatch(t[p..]).None? {
      if p > 0 {
        assert t[p..] == r[p - 1..];
      } else {
        assert t[p..][0] == c;
      }
    }
  }

  /** A quiet whitespace stretch before text that starts solid and has no
      match adds none. */
  lemma {:induction false} NoBlankRunAfterQuiet(q: string, r: string)
    requires Blank(q) && AtMostTwoNewlines(q) && StartsSolid(r) && NoBlankRun(r)
    ensures NoBlankRun(q + r)
  {
    var t := q + r;
    forall p | 0 <= p < |t| ensures BlankMatch(t[p..]).None? {
      if p < |q| {
        QuietNoMatch(q, r, p);
      } else {
        assert t[p..] == r[p - |q|..];
      }
    }
  }

  /** After the cleanup no whitespace run anywhere holds three newlines: the
      pattern matches at no position of the result. */
  lemma {:induction false} CollapseLeavesNoBlankRun(s: string)
    ensures NoBlankRun(Collapse(s))
    ensures forall p, e | 0 <= p < |Collapse(s)| :: !BlankRunTo(Collapse(s)[p..], e)
  {
    CollapseIsByStretch(s);
    ByStretchNoBlankRun(s);
  }

  /** Three newlines in a whitespace slice make a match from the first of them. */
  lemma {:induction false} ThreeNewlinesMatch(t: string, a: nat, b: nat, i: nat, j: nat, k: nat)
    requires a <= b <= |t| && Blank(t[a..b]) && i < j < k < b - a
    ensures IsNewline(t[a..b], i) && IsNewline(t[a..b], j) && IsNewline(t[a..b], k) ==>
      BlankRunTo(t[a + i..], k - i + 1)
  {
    var u := t[a..b];
    var x := t[a + i..];
    assert forall m | 0 <= m <= k - i :: x[m] == u[i + m];
  }

  /** After the cleanup no whitespace-only part of the text holds three
      newlines. */
  lemma {:induction false} CollapseLeavesQuietStretches(s: string)
    ensures forall a, b | 0 <= a <= b <= |Collapse(s)| && Blank(Collapse(s)[a..b]) ::
      AtMostTwoNewlines(Collapse(s)[a..b])
  {
    var t := Collapse(s);
    CollapseLeavesNoBlankRun(s);
    forall a, b | 0 <= a <= b <= |t| && Blank(t[a..b]) ensures AtMostTwoNewlines(t[a..b]) {
      var u := t[a..b];
      forall i, j, k | 0 <= i < j < k < |u| ensures !(IsNewline(u, i) && IsNewline(u, j) && IsNewline(u, k)) {
        ThreeNewlinesMatch(t, a, b, i, j, k);
        assert !BlankRunTo(t[a + i..], k - i + 1);
      }
    }
  }

  /** Text the pattern matches nowhere is left as it is. */
  lemma {:induction false} NoBlankRunFixed(t: string)
    requires NoBlankRun(t)
    ensures Collapse(t) == t
  {
    forall p | 0 <= p < |t| ensures MatchLength(BlankRun, t[p..]).None? {
    }
    SubIdentity(BlankRun, t);
  }

  /** The cleanup changes a text exactly when the pattern matches somewhere in it. */
  lemma {:induction false} CollapseFixedExactly(t: string)
    ensures Collapse(t) == t <==> NoBlankRun(t)
  {
    CollapseLeavesNoBlankRun(t);
    if NoBlankRun(t) {
      NoBlankRunFixed(t);
    }
  }

  /** Cleaning twice is cleaning once. */
  lemma {:induction false} CollapseIdempotent(s: string)
    ensures Collapse(Collapse(s)) == Collapse(s)
  {
    CollapseLeavesNoBlankRun(s);
    NoBlankRunFixed(Collapse(s));
  }

  /** The characters of `s` that are not whitespace, in order. */
  function NonSpace(s: string): (r: string)
    ensures |r| <= |s|
    decreases |s|
  {
    if |s| == 0 then ""
    else if IsSpace(s[0]) then NonSpace(s[1..])
    else [s[0]] + NonSpace(s[1..])
  }

  /** Keeping the non-whitespace distributes over concatenation. */
  lemma {:induction false} NonSpaceAppend(a: string, b: string)
    ensures NonSpace(a + b) == NonSpace(a) + NonSpace(b)
    decreases |a|
  {
    if |a| > 0 {
      assert (a + b)[1..] == a[1..] + b;
      NonSpaceAppend(a[1..], b);
    } else {
      assert a + b == b;
    }
  }

  /** Whitespace has no non-whitespace characters. */
  lemma {:induction false} NonSpaceBlank(w: string)
    requires Blank(w)
    ensures NonSpace(w) == ""
    decreases |w|
  {
    if |w| > 0 {
      BlankSuffix(w, 1);
      NonSpaceBlank(w[1..]);
    }
  }

  /** Every non-whitespace character survives the cleanup, in order, and no
      other is added: the cleanup only rewrites whitespace. */
  lemma {:induction false} CollapseKeepsNonSpace(s: string)
    ensures NonSpace(Collapse(s)) == NonSpace(s)
    decreases |s|
  {
    if |s| > 0 {
      match MatchLength(BlankRun, s)
      case Some(n) =>
        var r := Collapse(s[n..]);
        CollapseKeepsNonSpace(s[n..]);
        assert Collapse(s) == BlankLine + r;
        assert s == s[..n] + s[n..];
        StretchIsBlank(s, n);
        NonSpaceAppend(s[..n], s[n..]);
        NonSpaceBlank(s[..n]);
        NonSpaceAppend(BlankLine, r);
        NonSpaceBlank(BlankLine);
      case None =>
        var r := Collapse(s[1..]);
        CollapseKeepsNonSpace(s[1..]);
        assert Collapse(s) == [s[0]] + r;
        assert ([s[0]] + r)[1..] == r;
    }
  }

  /** The cleanup never lengthens the text: each match has at least three
      characters and becomes two. */
  lemma {:induction false} CollapseShortens(s: string)
    ensures |Collapse(s)| <= |s|
    ensures Collapse(s) != s ==> |Collapse(s)| < |s|
    decreases |s|
  {
    if |s| > 0 {
      match MatchLength(BlankRun, s)
      case Some(n) =>
        assert BlankRunTo(s, n);
        CollapseShortens(s[n..]);
      case None =>
        CollapseShortens(s[1..]);
        assert Collapse(s) == [s[0]] + Collapse(s[1..]);
        assert s == [s[0]] + s[1..];
    }
  }

  /** The text gets shorter exactly when the pattern matches somewhere in it. */
  lemma {:induction false} CollapseShortensExactly(s: string)
    ensures |Collapse(s)| < |s| <==> !NoBlankRun(s)
  {
    CollapseShortens(s);
    CollapseFixedExactly(s);
  }
}
