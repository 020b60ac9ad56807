/**
 The eight "timestamp announcement" patterns of renew.py and the search that
 decides whether a line is a time message.

 Every pattern has the shape `#.*T1` or `#.*T1.*T2`, where each `Ti` is a fixed
 token of literal characters and `\d` classes, matched case-insensitively.  A
 pattern is therefore modelled as the list of its tokens, `#` first; the gaps
 between tokens are the `.*` of the regex.  Lines contain no '\n', so `.`
 matches every character of a line.
 */
module TimePatterns {
  import opened Text
  import opened Lines
  import opened Wrappers

  /** One position of a token: a literal character or the class `\d`. */
  datatype Atom = Lit(c: char) | Digit

  type Token = seq<Atom>

  predicate AtomMatches(a: Atom, c: char) {
    match a
    case Lit(p) => SameIgnoringCase(p, c)
    case Digit => IsDigit(c)
  }

  /** Token `t` matches `line` at position `k`. */
  predicate TokenAt(line: string, k: nat, t: Token) {
    k + |t| <= |line| && forall j | 0 <= j < |t| :: AtomMatches(t[j], line[k + j])
  }

  function Word(w: string): (t: Token)
    ensures |t| == |w|
    ensures forall j | 0 <= j < |w| :: t[j] == Lit(w[j])
  {
    seq(|w|, j requires 0 <= j < |w| => Lit(w[j]))
  }

  function Digits(n: nat): (t: Token)
    ensures |t| == n
    ensures forall j | 0 <= j < n :: t[j] == Digit
  {
    seq(n, j => Digit)
  }

  const Hash: Token := Word("#")

  /** renew.py's `time_patterns`, in its order. */
  const Shapes: seq<seq<Token>> := [
    [Hash, Word("更新时间")],
    [Hash, Digits(4) + Word("-") + Digits(2) + Word("-") + Digits(2)],
    [Hash, Digits(2) + Word(":") + Digits(2) + Word(":") + Digits(2)],
    [Hash, Word("Update"), Word("time")],
    [Hash, Word("Generated"), Digits(4)],
    [Hash, Word("最后更新")],
    [Hash, Word("Last"), Word("update")],
    [Hash, Word("时间"), Digits(4)]
  ]

  /** Regex meaning of `T1.*T2.*...` searched from `from`: each token occurs at
      or after the end of the previous one. */
  ghost predicate Occurs(line: string, from: nat, ts: seq<Token>)
    decreases |ts|
  {
    |ts| == 0 || exists k: nat | from <= k :: TokenAt(line, k, ts[0]) && Occurs(line, k + |ts[0]|, ts[1..])
  }

  /** The first position at or after `from` where `t` matches, if any. */
  function FindFrom(line: string, from: nat, t: Token): (r: Option<nat>)
    ensures r.Some? ==> from <= r.value && TokenAt(line, r.value, t)
    ensures r.Some? ==> forall k | from <= k < r.value :: !TokenAt(line, k, t)
    ensures r.None? ==> forall k: nat | from <= k :: !TokenAt(line, k, t)
    decreases |line| - from
  {
    if from + |t| > |line| then None
    else if TokenAt(line, from, t) then Some(from)
    else FindFrom(line, from + 1, t)
  }

  /** Leftmost search for the tokens in order, as the regex engine finds them. */
  function Search(line: string, from: nat, ts: seq<Token>): bool
    decreases |ts|
  {
    if |ts| == 0 then true
    else
      match FindFrom(line, from, ts[0])
      case None => false
      case Some(k) => Search(line, k + |ts[0]|, ts[1..])
  }

  /** Searching later never finds more. */
  lemma {:induction false} OccursLater(line: string, a: nat, b: nat, ts: seq<Token>)
    requires a <= b && Occurs(line, b, ts)
    ensures Occurs(line, a, ts)
  {
    if |ts| > 0 {
      var k: nat :| b <= k && TokenAt(line, k, ts[0]) && Occurs(line, k + |ts[0]|, ts[1..]);
      assert a <= k;
    }
  }

  /** What the leftmost search finds, the regex finds. */
  lemma {:induction false} SearchSound(line: string, from: nat, ts: seq<Token>)
    requires Search(line, from, ts)
    ensures Occurs(line, from, ts)
    decreases |ts|
  {
    if |ts| > 0 {
      var k0 := FindFrom(line, from, ts[0]).value;
      SearchSound(line, k0 + |ts[0]|, ts[1..]);
      assert TokenAt(line, k0, ts[0]);
    }
  }

  /** What the regex finds, the leftmost search finds. */
  lemma {:induction false} SearchComplete(line: string, from: nat, ts: seq<Token>)
    requires Occurs(line, from, ts)
    ensures Search(line, from, ts)
    decreases |ts|
  {
    if |ts| > 0 {
      var k: nat :| from <= k && TokenAt(line, k, ts[0]) && Occurs(line, k + |ts[0]|, ts[1..]);
      var r := FindFrom(line, from, ts[0]);
      assert r.Some?;
      var k0 := r.value;
      assert k0 <= k;
      OccursLater(line, k0 + |ts[0]|, k + |ts[0]|, ts[1..]);
      SearchComplete(line, k0 + |ts[0]|, ts[1..]);
    }
  }

  /** The leftmost search finds the tokens exactly when the regex does. */
  lemma {:induction false} SearchCorrect(line: string, from: nat, ts: seq<Token>)
    ensures Search(line, from, ts) <==> Occurs(line, from, ts)
  {
    if Search(line, from, ts) {
      SearchSound(line, from, ts);
    }
    if Occurs(line, from, ts) {
      SearchComplete(line, from, ts);
    }
  }

  /** `is_time_message` of renew.py: some pattern is found in the line. */
  predicate IsTimeMessage(line: Line) {
    AnyShapeFrom(line, 0)
  }

  /** Some pattern from the `i`-th on is found in the line, trying them in order. */
  predicate AnyShapeFrom(line: Line, i: nat)
    decreases |Shapes| - i
  {
    i < |Shapes| && (Search(line, 0, Shapes[i]) || AnyShapeFrom(line, i + 1))
  }

  /** The pattern loop from the `i`-th pattern on is true exactly when one
      of those patterns is found. */
  lemma {:induction false} AnyShapeFromMeaning(line: Line, i: nat)
    requires i <= |Shapes|
    ensures AnyShapeFrom(line, i) <==> exists j | i <= j < |Shapes| :: Search(line, 0, Shapes[j])
    decreases |Shapes| - i
  {
    if i < |Shapes| {
      AnyShapeFromMeaning(line, i + 1);
    }
  }

  /** A line is a time message exactly when one of the eight regexes matches
      somewhere in it. */
  lemma {:induction false} TimeMessageMeaning(line: Line)
    ensures IsTimeMessage(line) <==> exists i | 0 <= i < |Shapes| :: Occurs(line, 0, Shapes[i])
  {
    AnyShapeFromMeaning(line, 0);
    forall i | 0 <= i < |Shapes| {
      SearchCorrect(line, 0, Shapes[i]);
    }
  }

  /** Every pattern starts with `#`, so a line without `#` is never a time message. */
  lemma {:induction false} TimeMessageHasHash(line: Line)
    ensures IsTimeMessage(line) ==> '#' in line
  {
    if IsTimeMessage(line) {
      TimeMessageMeaning(line);
      var i :| 0 <= i < |Shapes| && Occurs(line, 0, Shapes[i]);
      assert Shapes[i][0] == Hash;
      var k: nat :| TokenAt(line, k, Hash) && Occurs(line, k + 1, Shapes[i][1..]);
      assert AtomMatches(Hash[0], line[k]);
      assert line[k] == '#';
    }
  }
}
