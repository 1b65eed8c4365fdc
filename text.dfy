/** Models of the Rust standard-library string operations the release tool
    relies on: `find`, `contains`, `lines`, `split`, `join`, `replace`,
    `replacen(.., 1)`, `trim` and `u32::from_str`. Strings are sequences of
    characters; every pattern the tool searches for is ASCII, so byte and
    character offsets agree. */
module Text {
  import opened Common

  /** `p` occurs in `s` starting at index `i`. */
  ghost predicate OccursAt(s: string, p: string, i: int) {
    0 <= i && i + |p| <= |s| && s[i..i + |p|] == p
  }

  lemma OccursAtShift(s: string, p: string, i: int)
    requires |s| > 0 && i >= 0
    ensures OccursAt(s[1..], p, i) <==> OccursAt(s, p, i + 1)
  {
    if 0 <= i && i + 1 + |p| <= |s| {
      assert s[1..][i..i + |p|] == s[i + 1..i + 1 + |p|];
    }
  }

  /** `str::find`: the index of the first occurrence of `p` in `s`. An empty
      pattern is found at index 0. */
  function Find(s: string, p: string): (r: Option<nat>)
    ensures r.Some? ==> OccursAt(s, p, r.value)
    ensures r.Some? ==> forall j :: 0 <= j < r.value ==> !OccursAt(s, p, j)
    ensures r.None? ==> forall j :: !OccursAt(s, p, j)
    decreases |s|
  {
    if p <= s then
      assert s[0..|p|] == p;
      Some(0)
    else if |s| == 0 then
      None
    else
      assert !OccursAt(s, p, 0);
      match Find(s[1..], p)
      case Some(i) =>
        assert OccursAt(s, p, i + 1) by { OccursAtShift(s, p, i); }
        assert forall j :: 1 <= j < i + 1 ==> !OccursAt(s, p, j) by {
          forall j | 1 <= j < i + 1 ensures !OccursAt(s, p, j) { OccursAtShift(s, p, j - 1); }
        }
        Some(i + 1)
      case None =>
        assert forall j :: !OccursAt(s, p, j) by {
          forall j ensures !OccursAt(s, p, j) { if j >= 1 { OccursAtShift(s, p, j - 1); } }
        }
        None
  }

  /** `str::contains`. */
  predicate Contains(s: string, p: string) {
    Find(s, p).Some?
  }

  lemma ContainsAt(s: string, p: string, i: int)
    requires OccursAt(s, p, i)
    ensures Contains(s, p)
  {
  }

  /** The index of the first `c` in `s`. */
  function IndexOf(s: string, c: char): (r: Option<nat>)
    ensures r.Some? ==> r.value < |s| && s[r.value] == c && c !in s[..r.value]
    ensures r.None? ==> c !in s
    decreases |s|
  {
    if |s| == 0 then None
    else if s[0] == c then Some(0)
    else match IndexOf(s[1..], c)
      case Some(i) => assert s[..i + 1] == [s[0]] + s[1..][..i]; Some(i + 1)
      case None => None
  }

  /** Removes the `\r` of a `\r\n` line ending. */
  function StripCr(line: string): string {
    if |line| > 0 && line[|line| - 1] == '\r' then line[..|line| - 1] else line
  }

  /** `str::lines`: the text between `\n` line endings, with the `\r` of a
      `\r\n` ending removed; a final line ending does not start an empty
      line, and the empty string has no lines. */
  function Lines(s: string): (r: seq<string>)
    ensures forall k :: 0 <= k < |r| ==> '\n' !in r[k]
    ensures |r| == 0 <==> |s| == 0
    decreases |s|
  {
    if |s| == 0 then []
    else match IndexOf(s, '\n')
      case None => [s]
      case Some(i) => [StripCr(s[..i])] + Lines(s[i + 1..])
  }

  /** The first `c` of a text that has one is found in the same place when
      more text follows. */
  lemma IndexOfAppend(s: string, t: string, c: char)
    requires c in s
    ensures IndexOf(s + t, c) == IndexOf(s, c)
  {
    var i := IndexOf(s, c).value;
    assert (s + t)[i] == c;
    var j := IndexOf(s + t, c).value;
    assert (s + t)[..i] == s[..i];
  }

  /** The first `c` after a `c`-free prefix is the one right after it. */
  lemma IndexOfAfter(x: string, c: char, y: string)
    requires c !in x
    ensures IndexOf(x + [c] + y, c) == Some(|x|)
  {
    var s := x + [c] + y;
    assert s[|x|] == c;
    var j := IndexOf(s, c).value;
    assert s[..|x|] == x;
  }

  /** The lines of a text made of complete lines followed by more text are
      the lines of each. */
  lemma {:induction false} LinesAppend(pre: string, s: string)
    requires pre == [] || pre[|pre| - 1] == '\n'
    ensures Lines(pre + s) == Lines(pre) + Lines(s)
    decreases |pre|
  {
    if pre == [] {
      assert pre + s == s;
    } else {
      assert '\n' in pre by { assert pre[|pre| - 1] == '\n'; }
      var i := IndexOf(pre, '\n').value;
      var tail := pre[i + 1..];
      assert tail == [] || tail[|tail| - 1] == '\n';
      LinesAppend(tail, s);
      LinesAppendStep(pre, s, i);
    }
  }

  /** One line of `LinesAppend`: the first line of `pre` is the first line
      of `pre + s`, and the rest follows from the lines of what is left. */
  lemma LinesAppendStep(pre: string, s: string, i: nat)
    requires IndexOf(pre, '\n') == Some(i)
    requires Lines(pre[i + 1..] + s) == Lines(pre[i + 1..]) + Lines(s)
    ensures Lines(pre + s) == Lines(pre) + Lines(s)
  {
    var tail := pre[i + 1..];
    IndexOfAppend(pre, s, '\n');
    ConcatSlices(pre, s, i);
    LinesAt(pre + s, i);
    LinesAt(pre, i);
    ConcatAssoc([StripCr(pre[..i])], Lines(tail), Lines(s));
  }

  /** `lines` on a text with a line ending at `i`. */
  lemma LinesAt(s: string, i: nat)
    requires IndexOf(s, '\n') == Some(i)
    ensures Lines(s) == [StripCr(s[..i])] + Lines(s[i + 1..])
  {
  }

  /** Lines each ended by a newline are read back by `lines`, as long as
      none of them ends in `\r`. */
  lemma {:induction false} LinesOfTerminated(ts: seq<string>)
    requires |ts| >= 1
    requires forall k :: 0 <= k < |ts| ==> '\n' !in ts[k] && (|ts[k]| == 0 || ts[k][|ts[k]| - 1] != '\r')
    ensures Lines(Join(ts, "\n") + "\n") == ts
    decreases |ts|
  {
    var x := ts[0];
    var rest := if |ts| == 1 then [] else Join(ts[1..], "\n") + "\n";
    assert Join(ts, "\n") + "\n" == x + ['\n'] + rest;
    LinesCons(x, rest);
    if |ts| > 1 {
      LinesOfTerminated(ts[1..]);
      assert ts == [x] + ts[1..];
    }
  }

  /** A line ended by a newline, then more text. */
  lemma LinesCons(x: string, rest: string)
    requires '\n' !in x
    ensures Lines(x + ['\n'] + rest) == [StripCr(x)] + Lines(rest)
  {
    var s := x + ['\n'] + rest;
    IndexOfAfter(x, '\n', rest);
    assert s[..|x|] == x;
    assert s[|x| + 1..] == rest;
    LinesAt(s, |x|);
  }

  /** The first line of a text that starts with a line `line` ended by a
      newline or by the end of the text. */
  lemma FirstLine(line: string, rest: string)
    requires |line| > 0 && '\n' !in line
    requires rest == [] || rest[0] == '\n'
    ensures |Lines(line + rest)| >= 1
    ensures Lines(line + rest)[0] == if rest == [] then line else StripCr(line)
  {
    if rest == [] {
      assert line + rest == line;
    } else {
      IndexOfAfter(line, '\n', rest[1..]);
      assert line + rest == line + ['\n'] + rest[1..];
      assert (line + rest)[..|line|] == line;
    }
  }

  /** The line that follows complete lines `pre` and ends at a newline or
      at the end of the text. */
  lemma LineAfterLines(pre: string, line: string, rest: string)
    requires pre == [] || pre[|pre| - 1] == '\n'
    requires |line| > 0 && '\n' !in line
    requires rest == [] || rest[0] == '\n'
    ensures |Lines(pre)| < |Lines(pre + line + rest)|
    ensures Lines(pre + line + rest)[|Lines(pre)|] == if rest == [] then line else StripCr(line)
    ensures forall k :: 0 <= k < |Lines(pre)| ==> Lines(pre + line + rest)[k] == Lines(pre)[k]
  {
    assert pre + line + rest == pre + (line + rest);
    LinesAppend(pre, line + rest);
    FirstLine(line, rest);
  }

  lemma OccursWithin(s: string, p: string, x: nat, y: nat, i: int)
    requires x <= y <= |s| && OccursAt(s[x..y], p, i)
    ensures OccursAt(s, p, x + i)
  {
    var a := s[x..y][i..i + |p|];
    var b := s[x + i..x + i + |p|];
    forall k | 0 <= k < |p| ensures a[k] == b[k] {
      assert a[k] == s[x..y][i + k];
    }
    assert a == b;
  }

  /** A text that has a part containing `p` contains `p`. */
  lemma ContainsWidens(s: string, p: string, x: nat, y: nat)
    ensures x <= y <= |s| && Contains(s[x..y], p) ==> Contains(s, p)
  {
    if x <= y <= |s| && Contains(s[x..y], p) {
      var i := Find(s[x..y], p).value;
      OccursWithin(s, p, x, y, i);
      ContainsAt(s, p, x + i);
    }
  }

  /** A part of a text without `p` is without `p`. */
  lemma NotContainsSlice(s: string, p: string, x: nat, y: nat)
    requires x <= y <= |s| && !Contains(s, p)
    ensures !Contains(s[x..y], p)
  {
    ContainsWidens(s, p, x, y);
  }

  /** No line of a text without `p` contains `p`. */
  lemma {:induction false} LinesWithout(s: string, p: string)
    requires !Contains(s, p)
    ensures forall k :: 0 <= k < |Lines(s)| ==> !Contains(Lines(s)[k], p)
    decreases |s|
  {
    if |s| > 0 {
      match IndexOf(s, '\n')
      case None =>
      case Some(i) =>
        var line := s[..i];
        NotContainsSlice(s, p, 0, i);
        NotContainsSlice(s, p, i + 1, |s|);
        assert s[i + 1..|s|] == s[i + 1..];
        LinesWithout(s[i + 1..], p);
        if |line| > 0 && line[|line| - 1] == '\r' {
          assert line[..|line| - 1] == s[0..i - 1];
          NotContainsSlice(s, p, 0, i - 1);
        }
        assert s[0..i] == line;
    }
  }

  /** `str::split` on a character: the pieces between the occurrences of `c`. */
  function Split(s: string, c: char): (r: seq<string>)
    ensures |r| >= 1
    ensures forall k :: 0 <= k < |r| ==> c !in r[k]
    ensures |r| >= 2 <==> c in s
    decreases |s|
  {
    match IndexOf(s, c)
    case None => [s]
    case Some(i) => [s[..i]] + Split(s[i + 1..], c)
  }

  /** Splitting at a `c` that follows a `c`-free prefix gives the prefix,
      then the pieces of what follows. */
  lemma SplitAfter(x: string, c: char, y: string)
    requires c !in x
    ensures Split(x + [c] + y, c) == [x] + Split(y, c)
  {
    var s := x + [c] + y;
    IndexOfAfter(x, c, y);
    assert s[..|x|] == x;
    assert s[|x| + 1..] == y;
  }

  /** `[String]::join`: the pieces with `sep` between consecutive ones. */
  function Join(xs: seq<string>, sep: string): string
    decreases |xs|
  {
    if |xs| == 0 then []
    else if |xs| == 1 then xs[0]
    else xs[0] + sep + Join(xs[1..], sep)
  }

  /** Joining the pieces of a split with the separator gives back the text. */
  lemma {:induction false} JoinSplit(s: string, c: char)
    ensures Join(Split(s, c), [c]) == s
    decreases |s|
  {
    match IndexOf(s, c)
    case None =>
    case Some(i) =>
      JoinSplit(s[i + 1..], c);
      assert s == s[..i] + [c] + s[i + 1..];
  }

  /** Splitting a join of separator-free pieces gives back the pieces. */
  lemma {:induction false} SplitJoin(xs: seq<string>, c: char)
    requires |xs| >= 1
    requires forall k :: 0 <= k < |xs| ==> c !in xs[k]
    ensures Split(Join(xs, [c]), c) == xs
    decreases |xs|
  {
    if |xs| > 1 {
      var rest := Join(xs[1..], [c]);
      assert Join(xs, [c]) == xs[0] + [c] + rest;
      assert c !in xs[0];
      SplitAfter(xs[0], c, rest);
      SplitJoin(xs[1..], c);
      assert xs == [xs[0]] + xs[1..];
    }
  }

  /** Interleaves `to` around every character: `str::replace` with an empty pattern. */
  function InterleaveEmpty(s: string, to: string): string
    decreases |s|
  {
    if |s| == 0 then to else to + [s[0]] + InterleaveEmpty(s[1..], to)
  }

  /** `str::replace`: scanning left to right, every occurrence of `from`
      that does not overlap an earlier replaced one becomes `to`. */
  function Replace(s: string, from: string, to: string): string
    decreases |s|
  {
    if |from| == 0 then InterleaveEmpty(s, to)
    else if from <= s then to + Replace(s[|from|..], from, to)
    else if |s| == 0 then []
    else [s[0]] + Replace(s[1..], from, to)
  }

  /** `str::replacen(from, to, 1)`: only the first occurrence of `from` becomes `to`. */
  function ReplaceFirst(s: string, from: string, to: string): string
    decreases |s|
  {
    if from <= s then to + s[|from|..]
    else if |s| == 0 then []
    else [s[0]] + ReplaceFirst(s[1..], from, to)
  }

  /** The text around the leftmost non-overlapping occurrences of `p`. */
  ghost function SplitOn(s: string, p: string): (r: seq<string>)
    requires |p| > 0
    ensures |r| >= 1
    decreases |s|
  {
    match Find(s, p)
    case None => [s]
    case Some(i) => [s[..i]] + SplitOn(s[i + |p|..], p)
  }

  /** No occurrence of `p` starts before index `k` of `s`. */
  ghost predicate NoneBefore(s: string, p: string, k: int) {
    forall j :: 0 <= j < k ==> !OccursAt(s, p, j)
  }

  lemma NoneBeforeTail(s: string, p: string, k: int)
    requires |s| > 0 && k >= 1 && NoneBefore(s, p, k)
    ensures !(p <= s) && NoneBefore(s[1..], p, k - 1)
  {
    assert !OccursAt(s, p, 0);
    forall j | 0 <= j < k - 1 ensures !OccursAt(s[1..], p, j) {
      OccursAtShift(s, p, j);
    }
  }

  /** Cutting a concatenation inside its first part. */
  lemma ConcatSlices<T>(a: seq<T>, b: seq<T>, i: nat)
    requires i < |a|
    ensures (a + b)[..i] == a[..i]
    ensures (a + b)[i + 1..] == a[i + 1..] + b
  {
  }

  lemma ConcatAssoc<T>(a: seq<T>, b: seq<T>, c: seq<T>)
    ensures a + (b + c) == (a + b) + c
  {
  }

  lemma {:induction false} ReplaceSkips(s: string, p: string, t: string, k: nat)
    requires |p| > 0 && k <= |s|
    requires NoneBefore(s, p, k)
    ensures Replace(s, p, t) == s[..k] + Replace(s[k..], p, t)
    decreases k
  {
    if k > 0 {
      NoneBeforeTail(s, p, k);
      ReplaceSkips(s[1..], p, t, k - 1);
      ReplaceSkipsStep(s, p, t, k);
    }
  }

  /** One step of `ReplaceSkips`: a text that does not start with the
      pattern keeps its first character. */
  lemma ReplaceSkipsStep(s: string, p: string, t: string, k: nat)
    requires |p| > 0 && 0 < k <= |s| && !(p <= s)
    requires Replace(s[1..], p, t) == s[1..][..k - 1] + Replace(s[1..][k - 1..], p, t)
    ensures Replace(s, p, t) == s[..k] + Replace(s[k..], p, t)
  {
    var tail := s[1..];
    var r := Replace(s[k..], p, t);
    assert tail[k - 1..] == s[k..];
    assert Replace(s, p, t) == [s[0]] + (tail[..k - 1] + r);
    assert s[..k] == [s[0]] + tail[..k - 1];
    ConcatAssoc([s[0]], tail[..k - 1], r);
  }

  lemma {:induction false} ReplaceFirstSkips(s: string, p: string, t: string, k: nat)
    requires |p| > 0 && k <= |s|
    requires NoneBefore(s, p, k)
    ensures ReplaceFirst(s, p, t) == s[..k] + ReplaceFirst(s[k..], p, t)
    decreases k
  {
    if k > 0 {
      NoneBeforeTail(s, p, k);
      ReplaceFirstSkips(s[1..], p, t, k - 1);
      ReplaceFirstSkipsStep(s, p, t, k);
    }
  }

  lemma ReplaceFirstSkipsStep(s: string, p: string, t: string, k: nat)
    requires |p| > 0 && 0 < k <= |s| && !(p <= s)
    requires ReplaceFirst(s[1..], p, t) == s[1..][..k - 1] + ReplaceFirst(s[1..][k - 1..], p, t)
    ensures ReplaceFirst(s, p, t) == s[..k] + ReplaceFirst(s[k..], p, t)
  {
    var tail := s[1..];
    var r := ReplaceFirst(s[k..], p, t);
    assert tail[k - 1..] == s[k..];
    assert ReplaceFirst(s, p, t) == [s[0]] + (tail[..k - 1] + r);
    assert s[..k] == [s[0]] + tail[..k - 1];
    ConcatAssoc([s[0]], tail[..k - 1], r);
  }

  /** `replacen(.., 1)` on a text that starts with the pattern. */
  lemma ReplaceFirstAt(s: string, p: string, t: string)
    requires p <= s
    ensures ReplaceFirst(s, p, t) == t + s[|p|..]
  {
  }

  /** `replacen(.., 1)` when the first occurrence follows `head`. */
  lemma ReplaceFirstAfter(head: string, p: string, tail: string, t: string)
    requires |p| > 0 && NoneBefore(head + p + tail, p, |head|)
    ensures ReplaceFirst(head + p + tail, p, t) == head + t + tail
  {
    var s := head + p + tail;
    ReplaceFirstSkips(s, p, t, |head|);
    assert s[..|head|] == head;
    assert s[|head|..] == p + tail;
    assert p <= p + tail;
    assert (p + tail)[|p|..] == tail;
    ReplaceFirstAt(p + tail, p, t);
    ConcatAssoc(head, t, tail);
  }

  /** `replace` changes nothing in a text where the pattern does not occur. */
  lemma ReplaceAbsent(s: string, p: string, t: string)
    requires |p| > 0 && !Contains(s, p)
    ensures Replace(s, p, t) == s
  {
    ReplaceSkips(s, p, t, |s|);
    assert s[|s|..] == [];
  }

  /** `replacen(.., 1)` changes nothing in a text where the pattern does not occur. */
  lemma ReplaceFirstAbsent(s: string, p: string, t: string)
    requires |p| > 0 && !Contains(s, p)
    ensures ReplaceFirst(s, p, t) == s
  {
    ReplaceFirstSkips(s, p, t, |s|);
    assert s[|s|..] == [];
  }

  /** `replacen(.., 1)` replaces the first occurrence of the pattern and keeps
      the text before and after it. */
  lemma ReplaceFirstAtFirst(s: string, p: string, t: string)
    requires |p| > 0 && Contains(s, p)
    ensures var i := Find(s, p).value;
      ReplaceFirst(s, p, t) == s[..i] + t + s[i + |p|..]
  {
    var i := Find(s, p).value;
    ReplaceFirstSkips(s, p, t, i);
    assert s[i..][..|p|] == p;
    assert s[i..][|p|..] == s[i + |p|..];
  }

  lemma JoinCons(x: string, rest: seq<string>, sep: string)
    requires |rest| >= 1
    ensures Join([x] + rest, sep) == x + sep + Join(rest, sep)
  {
    assert ([x] + rest)[1..] == rest;
  }

  /** The first piece of a split at `p` ends where `p` first occurs. */
  lemma SplitOnFirst(s: string, p: string, i: nat)
    requires |p| > 0 && Find(s, p) == Some(i)
    ensures s == s[..i] + p + s[i + |p|..]
    ensures !Contains(s[..i], p)
    ensures NoneBefore(s, p, i)
  {
    assert OccursAt(s, p, i);
    SplitAround(s, i, |p|);
    FindInPrefix(s, p, i);
  }

  /** A text is the part before a window, the window and the part after. */
  lemma SplitAround(s: string, i: nat, n: nat)
    requires i + n <= |s|
    ensures s == s[..i] + s[i..i + n] + s[i + n..]
  {
  }

  /** An occurrence in a prefix is an occurrence in the text. */
  lemma FindInPrefix(s: string, p: string, x: nat)
    requires x <= |s|
    ensures Find(s[..x], p).Some? ==> OccursAt(s, p, Find(s[..x], p).value)
  {
    if Find(s[..x], p).Some? {
      assert s[..x] == s[0..x];
      OccursWithin(s, p, 0, x, Find(s[..x], p).value);
    }
  }

  lemma {:induction false} SplitOnJoin(s: string, p: string)
    requires |p| > 0
    ensures Join(SplitOn(s, p), p) == s
    ensures forall k :: 0 <= k < |SplitOn(s, p)| ==> !Contains(SplitOn(s, p)[k], p)
    decreases |s|
  {
    match Find(s, p)
    case None =>
    case Some(i) =>
      SplitOnJoin(s[i + |p|..], p);
      SplitOnJoinStep(s, p, i, s[i + |p|..]);
  }

  /** One step of `SplitOnJoin`: the piece before the first occurrence,
      then the pieces of the rest. */
  lemma SplitOnJoinStep(s: string, p: string, i: nat, rest: string)
    requires |p| > 0 && Find(s, p) == Some(i) && rest == s[i + |p|..]
    requires Join(SplitOn(rest, p), p) == rest
    requires forall k :: 0 <= k < |SplitOn(rest, p)| ==> !Contains(SplitOn(rest, p)[k], p)
    ensures Join(SplitOn(s, p), p) == s
    ensures forall k :: 0 <= k < |SplitOn(s, p)| ==> !Contains(SplitOn(s, p)[k], p)
  {
    var pieces := SplitOn(rest, p);
    SplitOnFirst(s, p, i);
    SplitOnSome(s, p, i);
    JoinCons(s[..i], pieces, p);
    forall k | 0 <= k < |SplitOn(s, p)| ensures !Contains(SplitOn(s, p)[k], p) {
      if k > 0 {
        assert SplitOn(s, p)[k] == pieces[k - 1];
      }
    }
  }

  lemma {:induction false} ReplaceIsJoin(s: string, p: string, t: string)
    requires |p| > 0
    ensures Replace(s, p, t) == Join(SplitOn(s, p), t)
    decreases |s|
  {
    match Find(s, p)
    case None =>
      ReplaceAbsent(s, p, t);
    case Some(i) =>
      var rest := s[i + |p|..];
      SplitOnFirst(s, p, i);
      ReplaceIsJoin(rest, p, t);
      ReplaceSkips(s, p, t, i);
      ReplaceIsJoinStep(s, p, t, i);
  }

  /** One step of `ReplaceIsJoin`: the text before the first occurrence,
      `to`, then the rest replaced. */
  lemma ReplaceIsJoinStep(s: string, p: string, t: string, i: nat)
    requires |p| > 0 && Find(s, p) == Some(i)
    requires Replace(s, p, t) == s[..i] + Replace(s[i..], p, t)
    requires Replace(s[i + |p|..], p, t) == Join(SplitOn(s[i + |p|..], p), t)
    ensures Replace(s, p, t) == Join(SplitOn(s, p), t)
  {
    var rest := s[i + |p|..];
    var pieces := SplitOn(rest, p);
    var x := s[..i];
    SplitOnSome(s, p, i);
    assert Replace(s[i..], p, t) == t + Replace(rest, p, t) by {
      assert p <= s[i..] by { assert s[i..][..|p|] == s[i..i + |p|]; }
      ReplaceAt(s[i..], p, t);
      assert s[i..][|p|..] == rest;
    }
    JoinCons(x, pieces, t);
    ConcatAssoc(x, t, Join(pieces, t));
  }

  lemma SplitOnSome(s: string, p: string, i: nat)
    requires |p| > 0 && Find(s, p) == Some(i)
    ensures SplitOn(s, p) == [s[..i]] + SplitOn(s[i + |p|..], p)
  {
    assert OccursAt(s, p, i);
  }

  /** `replace` on a text that starts with the pattern. */
  lemma ReplaceAt(s: string, p: string, t: string)
    requires |p| > 0 && p <= s
    ensures Replace(s, p, t) == t + Replace(s[|p|..], p, t)
  {
  }

  /** `replace` cuts the text at the occurrences of the pattern into
      pattern-free pieces and glues the same pieces back with `to`: every
      occurrence is replaced and nothing else changes. */
  lemma ReplaceIsSplitJoin(s: string, p: string, t: string)
    requires |p| > 0
    ensures Join(SplitOn(s, p), p) == s
    ensures forall k :: 0 <= k < |SplitOn(s, p)| ==> !Contains(SplitOn(s, p)[k], p)
    ensures Replace(s, p, t) == Join(SplitOn(s, p), t)
  {
    SplitOnJoin(s, p);
    ReplaceIsJoin(s, p, t);
  }

  /** Replacing a pattern by itself leaves the text unchanged. */
  lemma ReplaceSame(s: string, p: string)
    requires |p| > 0
    ensures Replace(s, p, p) == s
  {
    ReplaceIsSplitJoin(s, p, p);
  }

  /** Characters `char::is_whitespace` accepts: the Unicode White_Space set. */
  predicate IsWhitespace(c: char) {
    || ('\t' <= c <= '\r')
    || c == ' '
    || c == '\U{0085}'
    || c == '\U{00A0}'
    || c == '\U{1680}'
    || ('\U{2000}' <= c <= '\U{200A}')
    || c == '\U{2028}'
    || c == '\U{2029}'
    || c == '\U{202F}'
    || c == '\U{205F}'
    || c == '\U{3000}'
  }

  /** `str::trim_start`. */
  function TrimStart(s: string): (r: string)
    ensures |r| <= |s| && r == s[|s| - |r|..]
    ensures forall k :: 0 <= k < |s| - |r| ==> IsWhitespace(s[k])
    ensures |r| == 0 || !IsWhitespace(r[0])
    decreases |s|
  {
    if |s| > 0 && IsWhitespace(s[0]) then TrimStart(s[1..]) else s
  }

  /** `str::trim_end`. */
  function TrimEnd(s: string): (r: string)
    ensures |r| <= |s| && r == s[..|r|]
    ensures forall k :: |r| <= k < |s| ==> IsWhitespace(s[k])
    ensures |r| == 0 || !IsWhitespace(r[|r| - 1])
    decreases |s|
  {
    if |s| > 0 && IsWhitespace(s[|s| - 1]) then TrimEnd(s[..|s| - 1]) else s
  }

  /** `r` is `s` without its leading and trailing whitespace. */
  ghost predicate TrimmedOf(r: string, s: string) {
    exists i, j :: 0 <= i <= j <= |s| && r == s[i..j]
      && (forall k :: 0 <= k < i ==> IsWhitespace(s[k]))
      && (forall k :: j <= k < |s| ==> IsWhitespace(s[k]))
      && (|r| == 0 || (!IsWhitespace(r[0]) && !IsWhitespace(r[|r| - 1])))
  }

  /** `str::trim`. */
  function Trim(s: string): (r: string)
    ensures |r| <= |s|
  {
    TrimEnd(TrimStart(s))
  }

  /** Trimming removes exactly the leading and trailing whitespace. */
  lemma TrimIsTrimmedOf(s: string)
    ensures TrimmedOf(Trim(s), s)
  {
    var a := TrimStart(s);
    var r := TrimEnd(a);
    var i := |s| - |a|;
    var j := i + |r|;
    assert r == s[i..j] by {
      assert a == s[i..];
      assert a[..|r|] == s[i..j];
    }
    forall k | j <= k < |s| ensures IsWhitespace(s[k]) {
      assert s[k] == a[k - i];
    }
    if |r| > 0 {
      assert r[0] == a[0];
    }
    TrimmedOfAt(r, s, i, j);
  }

  lemma TrimmedOfAt(r: string, s: string, i: nat, j: nat)
    requires i <= j <= |s| && r == s[i..j]
    requires forall k :: 0 <= k < i ==> IsWhitespace(s[k])
    requires forall k :: j <= k < |s| ==> IsWhitespace(s[k])
    requires |r| == 0 || (!IsWhitespace(r[0]) && !IsWhitespace(r[|r| - 1]))
    ensures TrimmedOf(r, s)
  {
  }

  const U32_MAX: nat := 0xFFFF_FFFF

  predicate IsDigit(c: char) { '0' <= c <= '9' }

  /** The value of a string of decimal digits. */
  function DigitValue(c: char): nat
    requires IsDigit(c)
  {
    c as int - '0' as int
  }

  function DecimalValue(d: string): nat
    requires forall k :: 0 <= k < |d| ==> IsDigit(d[k])
    decreases |d|
  {
    if |d| == 0 then 0
    else DecimalValue(d[..|d| - 1]) * 10 + DigitValue(d[|d| - 1])
  }

  /** `str::parse::<u32>`: an optional `+`, then at least one ASCII digit,
      with a value that fits in 32 bits. */
  function ParseU32(s: string): (r: Option<nat>)
    ensures r.Some? ==> r.value <= U32_MAX
  {
    if |s| == 0 then None
    else
      var digits := if s[0] == '+' then s[1..] else s;
      if |digits| == 0 || !(forall k :: 0 <= k < |digits| ==> IsDigit(digits[k])) then None
      else if DecimalValue(digits) <= U32_MAX then Some(DecimalValue(digits))
      else None
  }

  /** The decimal notation of `n`, as `git rev-list --count` prints it. */
  function DecimalString(n: nat): (r: string)
    ensures |r| >= 1 && forall k :: 0 <= k < |r| ==> IsDigit(r[k])
    decreases n
  {
    var last := ['0' + (n % 10) as char];
    if n < 10 then last else DecimalString(n / 10) + last
  }

  /** Parsing the decimal notation of a 32-bit count gives the count back. */
  lemma {:induction false} ParseDecimalString(n: nat)
    ensures DecimalValue(DecimalString(n)) == n
    ensures n <= U32_MAX ==> ParseU32(DecimalString(n)) == Some(n)
    decreases n
  {
    var s := DecimalString(n);
    if n >= 10 {
      ParseDecimalString(n / 10);
      assert s[..|s| - 1] == DecimalString(n / 10);
    }
    assert s[0] != '+';
  }
}
