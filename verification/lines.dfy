/**
 Splitting text on '\n' and joining lines back with '\n', as `str.split('\n')`
 and `'\n'.join(...)` do.  A `Line` never contains '\n'.
 */
module Lines {

  type Line = s: string | '\n' !in s

  /** `s.split('\n')`: the pieces between newlines; there is always one more
      piece than there are newlines, so the empty text gives one empty line. */
  function Split(s: string): (lines: seq<Line>)
    ensures |lines| >= 1
    decreases |s|
  {
    if |s| == 0 then [""]
    else if s[0] == '\n' then [""] + Split(s[1..])
    else
      var rest := Split(s[1..]);
      [[s[0]] + rest[0]] + rest[1..]
  }

  /** `'\n'.join(lines)`; no lines give the empty text. */
  function Join(lines: seq<string>): string
    decreases |lines|
  {
    if |lines| == 0 then ""
    else if |lines| == 1 then lines[0]
    else lines[0] + "\n" + Join(lines[1..])
  }

  function NewlineCount(s: string): nat
    decreases |s|
  {
    if |s| == 0 then 0 else (if s[0] == '\n' then 1 else 0) + NewlineCount(s[1..])
  }

  /** Splitting yields exactly one line more than there are newlines. */
  lemma {:induction false} SplitCount(s: string)
    ensures |Split(s)| == NewlineCount(s) + 1
    decreases |s|
  {
    if |s| > 0 {
      SplitCount(s[1..]);
    }
  }

  /** A character in front of the first line is in front of the join. */
  lemma {:induction false} JoinConsFirst(c: char, first: string, rest: seq<string>)
    ensures Join([[c] + first] + rest) == [c] + Join([first] + rest)
  {
    var ls := [[c] + first] + rest;
    if |rest| > 0 {
      assert ls[1..] == rest;
      assert ([first] + rest)[1..] == rest;
    }
  }

  /** Joining the pieces of a split gives the text back: `'\n'.join(s.split('\n')) == s`. */
  lemma {:induction false} JoinSplit(s: string)
    ensures Join(Split(s)) == s
    decreases |s|
  {
    if |s| == 0 {
    } else if s[0] == '\n' {
      var rest := Split(s[1..]);
      JoinSplit(s[1..]);
      assert ([""] + rest)[1..] == rest;
      assert s == [s[0]] + s[1..];
    } else {
      var rest := Split(s[1..]);
      JoinSplit(s[1..]);
      JoinConsFirst(s[0], rest[0], rest[1..]);
      assert [rest[0]] + rest[1..] == rest;
      assert s == [s[0]] + s[1..];
    }
  }

  /** A newline-free line and a newline split off as one line. */
  lemma {:induction false} SplitLinePrefix(x: Line, y: string)
    ensures Split(x + "\n" + y) == [x] + Split(y)
    decreases |x|
  {
    if |x| == 0 {
      assert x + "\n" + y == "\n" + y;
      assert ("\n" + y)[1..] == y;
    } else {
      var t := x + "\n" + y;
      assert t[0] == x[0];
      assert t[1..] == x[1..] + "\n" + y;
      SplitLinePrefix(x[1..], y);
      assert [x[0]] + x[1..] == x;
    }
  }

  /** A newline-free text splits into itself. */
  lemma {:induction false} SplitLine(x: Line)
    ensures Split(x) == [x]
    decreases |x|
  {
    if |x| > 0 {
      SplitLine(x[1..]);
      assert [x[0]] + x[1..] == x;
    }
  }

  /** Splitting a join gives the lines back, for any non-empty list of lines. */
  lemma {:induction false} SplitJoin(lines: seq<Line>)
    requires |lines| >= 1
    ensures Split(Join(lines)) == lines
    decreases |lines|
  {
    if |lines| == 1 {
      SplitLine(lines[0]);
    } else {
      SplitJoin(lines[1..]);
      SplitLinePrefix(lines[0], Join(lines[1..]));
      assert [lines[0]] + lines[1..] == lines;
    }
  }
}
