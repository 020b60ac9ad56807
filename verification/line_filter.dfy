/**
 The line filter of renew.py: drop every line classified as a time message,
 and drop the line right after it when that line, stripped, is a bare link.
 A line dropped that way is skipped without being classified.

 `Filter` is the filter as a two-line window over the list; `FilterLoop` is the
 source's loop with its `skip_next` flag; `Fates` says, line by line, what
 happens to each input line.
 */
module LineFilter {
  import opened Text
  import opened Lines
  import opened TimePatterns

  /** The follow-on test: stripped, the line is non-empty, does not start with
      `#`, and starts with `http` or contains `://`. */
  predicate IsStrayLink(raw: Line) {
    IsBareLink(Strip(raw))
  }

  predicate IsBareLink(t: string) {
    |t| > 0 && t[0] != '#' && (StartsWith(t, "http") || Contains(t, "://"))
  }

  /** The kept lines, in order. */
  function Filter(lines: seq<Line>): (kept: seq<Line>)
    ensures |kept| <= |lines|
    ensures forall x | x in kept :: x in lines
    ensures forall x | x in kept :: !IsTimeMessage(x)
    decreases |lines|
  {
    if |lines| == 0 then []
    else if IsTimeMessage(lines[0]) then
      if |lines| >= 2 && IsStrayLink(lines[1]) then Filter(lines[2..]) else Filter(lines[1..])
    else
      [lines[0]] + Filter(lines[1..])
  }

  /** The loop of renew.py, lines 21-59, with its `skip_next` flag. */
  method FilterLoop(lines: seq<Line>) returns (kept: seq<Line>)
    ensures kept == Filter(lines)
  {
    kept := [];
    var skipNext := false;
    var i := 0;
    while i < |lines|
      invariant 0 <= i <= |lines|
      invariant skipNext ==> i < |lines|
      invariant skipNext ==> kept + Filter(lines[i + 1..]) == Filter(lines)
      invariant !skipNext ==> kept + Filter(lines[i..]) == Filter(lines)
    {
      assert lines[i..][0] == lines[i] && lines[i..][1..] == lines[i + 1..];
      if skipNext {
        skipNext := false;
      } else if IsTimeMessage(lines[i]) {
        if i + 1 < |lines| && IsStrayLink(lines[i + 1]) {
          assert lines[i..][1] == lines[i + 1] && lines[i..][2..] == lines[i + 2..];
          skipNext := true;
        }
      } else {
        kept := kept + [lines[i]];
      }
      i := i + 1;
    }
  }

  /** What happens to one input line. */
  datatype Fate = Kept | TimeMessage | FollowOn

  /** The fate of each line; `afterTime` says whether the line before the first
      one was classified as a time message. */
  function FatesAfter(lines: seq<Line>, afterTime: bool): (fates: seq<Fate>)
    ensures |fates| == |lines|
    decreases |lines|
  {
    if |lines| == 0 then []
    else
      var f :=
        if afterTime && IsStrayLink(lines[0]) then FollowOn
        else if IsTimeMessage(lines[0]) then TimeMessage
        else Kept;
      [f] + FatesAfter(lines[1..], f == TimeMessage)
  }

  /** The fate of line `i` depends only on the fate of the line before it
      and on line `i` itself. */
  lemma {:induction false} FatesAfterWindow(lines: seq<Line>, afterTime: bool, i: nat)
    requires i < |lines|
    ensures var fates := FatesAfter(lines, afterTime);
      && (fates[i] == FollowOn <==>
            (if i == 0 then afterTime else fates[i - 1] == TimeMessage) && IsStrayLink(lines[i]))
      && (fates[i] == TimeMessage <==> fates[i] != FollowOn && IsTimeMessage(lines[i]))
    decreases i
  {
    var fates := FatesAfter(lines, afterTime);
    if i > 0 {
      var rest := FatesAfter(lines[1..], fates[0] == TimeMessage);
      assert fates == [fates[0]] + rest;
      FatesAfterWindow(lines[1..], fates[0] == TimeMessage, i - 1);
      assert fates[i] == rest[i - 1] && lines[i] == lines[1..][i - 1];
      if i > 1 {
        assert fates[i - 1] == rest[i - 2];
      }
    }
  }

  /** The fate of every line. */
  function Fates(lines: seq<Line>): (fates: seq<Fate>)
    ensures |fates| == |lines|
  {
    FatesAfter(lines, false)
  }

  /** The fates are a sliding window over (previous fate, line): a line is a
      follow-on exactly when the line before it was classified as a time
      message and it is a stray link; otherwise it is a time message exactly
      when one of the patterns matches it, and kept when none does. */
  lemma {:induction false} FatesWindow(lines: seq<Line>, i: nat)
    requires i < |lines|
    ensures var fates := Fates(lines);
      && (fates[i] == FollowOn <==> i > 0 && fates[i - 1] == TimeMessage && IsStrayLink(lines[i]))
      && (fates[i] == TimeMessage <==> fates[i] != FollowOn && IsTimeMessage(lines[i]))
  {
    FatesAfterWindow(lines, false, i);
  }

  /** A follow-on line is never classified, so it never removes the line after it. */
  lemma {:induction false} FollowOnNeverTriggers(lines: seq<Line>, i: nat)
    requires i + 1 < |lines| && Fates(lines)[i] == FollowOn
    ensures Fates(lines)[i + 1] != FollowOn
    ensures Fates(lines)[i + 1] == Kept <==> !IsTimeMessage(lines[i + 1])
  {
    FatesWindow(lines, i + 1);
  }

  /** Peeling the first window off the fates, in the three cases of `Filter`. */
  lemma {:induction false} FatesUnfold(lines: seq<Line>)
    requires |lines| > 0
    ensures IsTimeMessage(lines[0]) && |lines| >= 2 && IsStrayLink(lines[1]) ==>
      Fates(lines) == [TimeMessage, FollowOn] + Fates(lines[2..])
    ensures IsTimeMessage(lines[0]) && !(|lines| >= 2 && IsStrayLink(lines[1])) ==>
      Fates(lines) == [TimeMessage] + Fates(lines[1..])
    ensures !IsTimeMessage(lines[0]) ==> Fates(lines) == [Kept] + Fates(lines[1..])
  {
    var rest := lines[1..];
    var time := IsTimeMessage(lines[0]);
    assert FatesAfter(lines, false) == [if time then TimeMessage else Kept] + FatesAfter(rest, time);
    if time && |lines| >= 2 && IsStrayLink(lines[1]) {
      assert rest[0] == lines[1] && rest[1..] == lines[2..];
      var tail := FatesAfter(lines[2..], false);
      assert FatesAfter(rest, true) == [FollowOn] + tail;
      assert [TimeMessage] + ([FollowOn] + tail) == [TimeMessage, FollowOn] + tail;
    } else if time && |rest| > 0 {
      assert rest[0] == lines[1];
      assert FatesAfter(rest, true) == FatesAfter(rest, false);
    }
  }

  /** The lines whose fate is `Kept`, in order. */
  function Keep(lines: seq<Line>, fates: seq<Fate>): seq<Line>
    requires |fates| == |lines|
    decreases |lines|
  {
    if |lines| == 0 then []
    else (if fates[0] == Kept then [lines[0]] else []) + Keep(lines[1..], fates[1..])
  }

  /** The positions whose fate is `Kept`, ascending, counted from `offset`. */
  function KeptFrom(fates: seq<Fate>, offset: nat): seq<nat>
    decreases |fates|
  {
    if |fates| == 0 then []
    else (if fates[0] == Kept then [offset] else []) + KeptFrom(fates[1..], offset + 1)
  }

  /** Every kept position holds a `Kept` fate. */
  lemma {:induction false} KeptFromSound(fates: seq<Fate>, offset: nat)
    ensures forall k | 0 <= k < |KeptFrom(fates, offset)| ::
      offset <= KeptFrom(fates, offset)[k] < offset + |fates| && fates[KeptFrom(fates, offset)[k] - offset] == Kept
    decreases |fates|
  {
    if |fates| > 0 {
      KeptFromSound(fates[1..], offset + 1);
      var rest := KeptFrom(fates[1..], offset + 1);
      var head: seq<nat> := if fates[0] == Kept then [offset] else [];
      var idx := KeptFrom(fates, offset);
      assert idx == head + rest;
      forall k | |head| <= k < |idx|
        ensures offset <= idx[k] < offset + |fates| && fates[idx[k] - offset] == Kept
      {
        var j := k - |head|;
        assert idx[k] == rest[j];
        assert fates[1..][rest[j] - (offset + 1)] == Kept;
      }
    }
  }

  /** The kept positions ascend strictly. */
  lemma {:induction false} KeptFromAscending(fates: seq<Fate>, offset: nat)
    ensures forall k, l | 0 <= k < l < |KeptFrom(fates, offset)| ::
      KeptFrom(fates, offset)[k] < KeptFrom(fates, offset)[l]
    decreases |fates|
  {
    if |fates| > 0 {
      KeptFromAscending(fates[1..], offset + 1);
      KeptFromSound(fates[1..], offset + 1);
      var rest := KeptFrom(fates[1..], offset + 1);
      var head: seq<nat> := if fates[0] == Kept then [offset] else [];
      var idx := KeptFrom(fates, offset);
      assert idx == head + rest;
      forall k, l | 0 <= k < l < |idx|
        ensures idx[k] < idx[l]
      {
        assert idx[l] == rest[l - |head|];
        if k >= |head| {
          assert idx[k] == rest[k - |head|];
        }
      }
    }
  }

  /** Every position with a `Kept` fate is among the kept positions. */
  lemma {:induction false} KeptFromComplete(fates: seq<Fate>, offset: nat)
    ensures forall i | 0 <= i < |fates| && fates[i] == Kept :: offset + i in KeptFrom(fates, offset)
    decreases |fates|
  {
    if |fates| > 0 {
      KeptFromComplete(fates[1..], offset + 1);
      var rest := KeptFrom(fates[1..], offset + 1);
      var head: seq<nat> := if fates[0] == Kept then [offset] else [];
      assert KeptFrom(fates, offset) == head + rest;
      forall i | 1 <= i < |fates| && fates[i] == Kept
        ensures offset + i in rest
      {
        assert fates[1..][i - 1] == Kept;
      }
    }
  }

  /** There are as many kept lines as kept positions. */
  lemma {:induction false} KeepLength(lines: seq<Line>, fates: seq<Fate>, offset: nat)
    requires |fates| == |lines|
    ensures |Keep(lines, fates)| == |KeptFrom(fates, offset)|
    decreases |lines|
  {
    if |lines| > 0 {
      KeepLength(lines[1..], fates[1..], offset + 1);
    }
  }

  /** The `k`-th kept line is the line at the `k`-th kept position. */
  lemma {:induction false} KeepAt(lines: seq<Line>, fates: seq<Fate>, offset: nat, k: nat)
    requires |fates| == |lines| && k < |KeptFrom(fates, offset)|
    ensures offset <= KeptFrom(fates, offset)[k] < offset + |lines|
    ensures k < |Keep(lines, fates)| && Keep(lines, fates)[k] == lines[KeptFrom(fates, offset)[k] - offset]
    decreases |lines|
  {
    assert |fates| > 0;
    var rest := KeptFrom(fates[1..], offset + 1);
    var kept := Keep(lines[1..], fates[1..]);
    if fates[0] == Kept {
      assert KeptFrom(fates, offset) == [offset] + rest;
      assert Keep(lines, fates) == [lines[0]] + kept;
      if k > 0 {
        KeepAt(lines[1..], fates[1..], offset + 1, k - 1);
        TailIndex(lines, offset, rest[k - 1]);
      }
    } else {
      assert KeptFrom(fates, offset) == rest;
      assert Keep(lines, fates) == kept;
      KeepAt(lines[1..], fates[1..], offset + 1, k);
      TailIndex(lines, offset, rest[k]);
    }
  }

  /** Position `j` counted from `offset + 1` in the tail is position `j`
      counted from `offset` in the whole list. */
  lemma {:induction false} TailIndex(lines: seq<Line>, offset: nat, j: nat)
    requires offset + 1 <= j < offset + |lines|
    ensures lines[1..][j - (offset + 1)] == lines[j - offset]
  {
  }

  /** `Keep` picks the lines at the kept positions, unchanged and in order. */
  lemma {:induction false} KeepIsSubsequence(lines: seq<Line>, fates: seq<Fate>)
    requires |fates| == |lines|
    ensures |Keep(lines, fates)| == |KeptFrom(fates, 0)|
    ensures forall k | 0 <= k < |KeptFrom(fates, 0)| ::
      KeptFrom(fates, 0)[k] < |lines| && Keep(lines, fates)[k] == lines[KeptFrom(fates, 0)[k]]
  {
    KeepLength(lines, fates, 0);
    forall k | 0 <= k < |KeptFrom(fates, 0)|
      ensures KeptFrom(fates, 0)[k] < |lines| && Keep(lines, fates)[k] == lines[KeptFrom(fates, 0)[k]]
    {
      KeepAt(lines, fates, 0, k);
    }
  }

  /** The positions of the kept lines. */
  function KeptPositions(fates: seq<Fate>): seq<nat> {
    KeptFrom(fates, 0)
  }

  /** The window filter keeps exactly the lines whose fate is `Kept`. */
  lemma {:induction false} FilterKeepsKept(lines: seq<Line>)
    ensures Filter(lines) == Keep(lines, Fates(lines))
    decreases |lines|
  {
    if |lines| > 0 {
      FatesUnfold(lines);
      var fates := Fates(lines);
      if IsTimeMessage(lines[0]) && |lines| >= 2 && IsStrayLink(lines[1]) {
        FilterKeepsKept(lines[2..]);
        assert lines[1..][1..] == lines[2..];
        assert fates[1..][1..] == Fates(lines[2..]);
      } else {
        FilterKeepsKept(lines[1..]);
        assert fates[1..] == Fates(lines[1..]);
      }
    }
  }

  /** The filter's output is the input lines at strictly increasing positions,
      each unchanged, and a position is among them exactly when its line is
      neither a time message nor a stray link right after one. */
  lemma {:induction false} FilterIsSubsequence(lines: seq<Line>)
    ensures |Filter(lines)| == |KeptPositions(Fates(lines))|
    ensures forall k | 0 <= k < |KeptPositions(Fates(lines))| ::
      KeptPositions(Fates(lines))[k] < |lines| && Filter(lines)[k] == lines[KeptPositions(Fates(lines))[k]]
    ensures forall k, l | 0 <= k < l < |KeptPositions(Fates(lines))| ::
      KeptPositions(Fates(lines))[k] < KeptPositions(Fates(lines))[l]
    ensures forall i | 0 <= i < |lines| :: i in KeptPositions(Fates(lines)) <==> Fates(lines)[i] == Kept
  {
    var fates := Fates(lines);
    var idx := KeptPositions(fates);
    var kept := Filter(lines);
    FilterKeepsKept(lines);
    assert kept == Keep(lines, fates);
    assert idx == KeptFrom(fates, 0);
    KeepIsSubsequence(lines, fates);
    KeptFromSound(fates, 0);
    KeptFromAscending(fates, 0);
    KeptFromComplete(fates, 0);
    forall i | 0 <= i < |lines|
      ensures i in idx <==> fates[i] == Kept
    {
      if i in idx {
        var k :| 0 <= k < |idx| && idx[k] == i;
      }
    }
  }

  /** A line that matches a pattern is never kept, whatever its position. */
  lemma {:induction false} TimeMessageDropped(lines: seq<Line>, i: nat)
    requires i < |lines| && IsTimeMessage(lines[i])
    ensures i !in KeptPositions(Fates(lines))
  {
    FilterIsSubsequence(lines);
    FatesWindow(lines, i);
  }

  /** The line after a classified time message is dropped exactly when it is a
      stray link; otherwise it is classified as any other line. */
  lemma {:induction false} LineAfterTimeMessage(lines: seq<Line>, i: nat)
    requires i + 1 < |lines| && Fates(lines)[i] == TimeMessage
    ensures (i + 1 in KeptPositions(Fates(lines))) <==>
      !IsStrayLink(lines[i + 1]) && !IsTimeMessage(lines[i + 1])
  {
    FilterIsSubsequence(lines);
    FatesWindow(lines, i + 1);
  }

  function Count(fates: seq<Fate>, f: Fate): nat
    decreases |fates|
  {
    if |fates| == 0 then 0 else (if fates[0] == f then 1 else 0) + Count(fates[1..], f)
  }

  /** Every removed line is a classified time message or the single follow-on
      line after one, so at most two lines go per time message. */
  lemma {:induction false} RemovedLines(lines: seq<Line>)
    ensures var fates := Fates(lines);
      && |lines| - |Filter(lines)| == Count(fates, TimeMessage) + Count(fates, FollowOn)
      && Count(fates, FollowOn) <= Count(fates, TimeMessage)
      && |lines| - |Filter(lines)| <= 2 * Count(fates, TimeMessage)
    decreases |lines|
  {
    if |lines| > 0 {
      FatesUnfold(lines);
      var fates := Fates(lines);
      if IsTimeMessage(lines[0]) && |lines| >= 2 && IsStrayLink(lines[1]) {
        RemovedLines(lines[2..]);
        assert fates[1..][1..] == Fates(lines[2..]);
      } else {
        RemovedLines(lines[1..]);
        assert fates[1..] == Fates(lines[1..]);
      }
    }
  }

  /** A time message on the last line removes only itself. */
  lemma {:induction false} TrailingTimeMessage(lines: seq<Line>, last: Line)
    requires IsTimeMessage(last)
    ensures Filter(lines + [last]) == Filter(lines)
    decreases |lines|
  {
    var all := lines + [last];
    if |lines| == 0 {
      assert all == [last];
    } else {
      assert all[0] == lines[0] && all[1..] == lines[1..] + [last];
      if |lines| == 1 {
        assert all[1] == last;
        assert all[2..] == [];
        assert Filter([last]) == [];
      } else {
        assert all[1] == lines[1] && all[2..] == lines[2..] + [last];
        TrailingTimeMessage(lines[2..], last);
      }
      TrailingTimeMessage(lines[1..], last);
    }
  }

  /** Without time messages the filter keeps every line. */
  lemma {:induction false} NoTimeMessageKeepsAll(lines: seq<Line>)
    requires forall i | 0 <= i < |lines| :: !IsTimeMessage(lines[i])
    ensures Filter(lines) == lines
    decreases |lines|
  {
    if |lines| > 0 {
      NoTimeMessageKeepsAll(lines[1..]);
      assert [lines[0]] + lines[1..] == lines;
    }
  }

  const StampLine: Line := "#EXTM3U 更新时间: 2024-01-15 12:00:00"
  const BannerLine: Line := "http://example.com/banner"

  /** The announcement `#EXTM3U 更新时间: 2024-01-15 12:00:00` is a time
      message: `#` at the start, `更新时间` after it. */
  lemma {:induction false} StampIsTimeMessage()
    ensures IsTimeMessage(StampLine)
  {
    var word := Word("更新时间");
    assert Shapes[0] == [Hash, word];
    assert TokenAt(StampLine, 8, word);
    var rest := Shapes[0][1..];
    assert rest[0] == word && rest[1..] == [];
    assert Occurs(StampLine, 8 + |word|, rest[1..]);
    assert Occurs(StampLine, 1, rest);
    assert TokenAt(StampLine, 0, Hash) && |Hash| == 1;
    assert Shapes[0][0] == Hash && Occurs(StampLine, 0 + |Shapes[0][0]|, Shapes[0][1..]);
    assert Occurs(StampLine, 0, Shapes[0]);
    SearchComplete(StampLine, 0, Shapes[0]);
  }

  /** `http://example.com/banner`, stripped, is itself and a bare link. */
  lemma {:induction false} BannerIsStrayLink()
    ensures IsStrayLink(BannerLine)
  {
    StripUnpadded(BannerLine);
    assert BannerLine[..4] == "http";
  }

  /** The announcement and the banner link below it are both removed; an
      announcement on the last line is removed on its own. */
  lemma {:induction false} BannerExample()
    ensures Filter([StampLine, BannerLine]) == []
    ensures Filter([StampLine]) == []
  {
    StampIsTimeMessage();
    BannerIsStrayLink();
    assert [StampLine, BannerLine][2..] == [];
    assert [StampLine][1..] == [];
  }

  const PlainLine: Line := "CCTV5"

  /** `CCTV5` is not a stray link: it neither starts with `http` nor holds
      `://`. */
  lemma {:induction false} PlainLineNotStray()
    ensures !IsStrayLink(PlainLine)
  {
    StripUnpadded(PlainLine);
    assert PlainLine[..4] != "http" by {
      assert PlainLine[..4][0] == 'C';
    }
    forall i | 0 <= i <= |PlainLine| - 3 ensures !OccursAt(PlainLine, i, "://") {
      assert PlainLine[i] != ':';
      assert PlainLine[i..i + 3][0] == PlainLine[i];
    }
  }

  /** A plain line below a time message is kept: skipping it needs a link
      shape as well as a non-empty line without a leading `#`. */
  lemma {:induction false} PlainLineKept()
    ensures Filter([StampLine, PlainLine]) == [PlainLine]
  {
    StampIsTimeMessage();
    PlainLineNotStray();
    TimeMessageHasHash(PlainLine);
    assert '#' !in PlainLine;
    assert [StampLine, PlainLine][1..] == [PlainLine];
    assert [PlainLine][1..] == [];
  }
}
