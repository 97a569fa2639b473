/** Line structure of a text, with '\n' as the only line terminator: where
    each line starts and ends, line numbers of UTF-16 locations, the two
    line-counting scanners, the line list, and slices widened to whole lines. */
module Lines {
  import opened Wrappers
  import opened UnicodeText
  import opened RangeTranslation

  /** A line number together with its text, numbered from 1. */
  datatype Line = Line(index: int, content: string)

  /** First and last line number of a range. */
  datatype LineSpan = LineSpan(start: int, end: int)

  /** `q` begins a line: it is the text start or follows a '\n'. */
  predicate IsLineStart(t: string, q: nat)
    requires q <= |t|
  {
    q == 0 || t[q - 1] == '\n'
  }

  /** End of the line that holds position `p`, terminator included
      (`NSMaxRange(lineRangeForRange(NSRange(location: p, length: 1)))`):
      just past the first '\n' at or after `p`, or the end of the text. */
  function NextLineStart(t: string, p: nat): (r: nat)
    requires p < |t|
    ensures p < r <= |t|
    ensures forall q :: p <= q < r - 1 ==> t[q] != '\n'
    ensures r < |t| ==> t[r - 1] == '\n'
    decreases |t| - p
  {
    if t[p] == '\n' || p + 1 == |t| then p + 1 else NextLineStart(t, p + 1)
  }

  /** Start of the line that holds position `p` (the line start `getLineStart` reports). */
  function LineStartAt(t: string, p: nat): (r: nat)
    requires p <= |t|
    ensures r <= p && IsLineStart(t, r)
    ensures forall q :: r <= q < p ==> t[q] != '\n'
  {
    if p == 0 || t[p - 1] == '\n' then p else LineStartAt(t, p - 1)
  }

  /** End, terminator included, of the lines that hold the scalars [i, j),
      or of the line holding `i` when the range is empty (the line end
      `getLineStart` reports). */
  function LineEndAt(t: string, i: nat, j: nat): (r: nat)
    requires i <= j <= |t|
    ensures j <= r <= |t|
    ensures r == |t| || (0 < r && t[r - 1] == '\n')
    ensures forall q :: j <= q < r - 1 ==> t[q] != '\n'
  {
    var last := if i < j then j - 1 else i;
    if last == |t| then |t| else NextLineStart(t, last)
  }

  /** Where the contents of the line starting at `p` end, before its '\n'. */
  function ContentEnd(t: string, p: nat): (r: nat)
    requires p < |t|
    ensures p <= r <= NextLineStart(t, p)
    ensures forall q :: p <= q < r ==> t[q] != '\n'
    ensures r < NextLineStart(t, p) ==> r + 1 == NextLineStart(t, p) && t[r] == '\n'
    ensures r == NextLineStart(t, p) ==> r == |t|
  {
    var n := NextLineStart(t, p);
    if t[n - 1] == '\n' then n - 1 else n
  }

  /** The starts of the lines from line start `p` on, in order. */
  function StartsFrom(t: string, p: nat): (s: seq<nat>)
    requires p <= |t|
    ensures forall k :: 0 <= k < |s| ==> p <= s[k] < |t|
    ensures forall k, l :: 0 <= k < l < |s| ==> s[k] < s[l]
    ensures p < |t| ==> s != [] && s[0] == p
    ensures p == |t| ==> s == []
    decreases |t| - p
  {
    if p == |t| then [] else [p] + StartsFrom(t, NextLineStart(t, p))
  }

  /** The start of every line of `t`. */
  function LineStarts(t: string): seq<nat>
  {
    StartsFrom(t, 0)
  }

  /** The lines of `s` without their terminators, in order, as
      `enumerateLines` hands them out: a final '\n' starts no further line. */
  function LineContents(s: string): (ls: seq<string>)
    ensures |ls| <= |s|
    ensures ls == [] <==> s == []
    decreases |s|
  {
    if s == [] then []
    else [s[..ContentEnd(s, 0)]] + LineContents(s[NextLineStart(s, 0)..])
  }

  /** `joinWithSeparator`. */
  function Join(ls: seq<string>, sep: string): string
  {
    if ls == [] then []
    else if |ls| == 1 then ls[0]
    else ls[0] + sep + Join(ls[1..], sep)
  }

  /** Exactly the line starts of the text are listed: the text start and
      every position after a '\n', except the end of the text. */
  lemma LineStartsExactly(t: string, q: nat)
    ensures q in LineStarts(t) <==> q < |t| && IsLineStart(t, q)
  {
    StartsFromExactly(t, 0, q);
  }

  lemma {:induction false} StartsFromExactly(t: string, p: nat, q: nat)
    requires p <= |t|
    ensures q in StartsFrom(t, p) <==> p <= q < |t| && (q == p || t[q - 1] == '\n')
    decreases |t| - p
  {
    if p < |t| {
      var n := NextLineStart(t, p);
      StartsFromExactly(t, n, q);
      assert StartsFrom(t, p) == [p] + StartsFrom(t, n);
    }
  }

  /** No line handed out holds a '\n'. */
  lemma {:induction false} LineContentsNoNewline(s: string)
    ensures forall k, q :: 0 <= k < |LineContents(s)| && 0 <= q < |LineContents(s)[k]| ==>
              LineContents(s)[k][q] != '\n'
    decreases |s|
  {
    if s != [] {
      var rest := s[NextLineStart(s, 0)..];
      LineContentsNoNewline(rest);
      assert LineContents(s) == [s[..ContentEnd(s, 0)]] + LineContents(rest);
    }
  }

  /** Splitting into lines and joining with '\n' gives the text back, up to
      a final '\n'. */
  lemma {:induction false} LinesReassemble(s: string)
    ensures Join(LineContents(s), "\n") + (if s != [] && s[|s| - 1] == '\n' then "\n" else "") == s
    decreases |s|
  {
    if s != [] {
      var n := NextLineStart(s, 0);
      if n == |s| {
        LastLineReassembles(s);
      } else {
        var rest := s[n..];
        LinesReassemble(rest);
        FirstLineSplits(s);
        var e := ContentEnd(s, 0);
        var joined, last := Join(LineContents(rest), "\n"), if s[|s| - 1] == '\n' then "\n" else "";
        assert s[..e] + "\n" + joined + last == s[..e] + "\n" + (joined + last);
      }
    }
  }

  /** A text that is one line: its contents and, if present, its '\n'. */
  lemma LastLineReassembles(s: string)
    requires s != [] && NextLineStart(s, 0) == |s|
    ensures Join(LineContents(s), "\n") + (if s[|s| - 1] == '\n' then "\n" else "") == s
  {
    var e := ContentEnd(s, 0);
    OneLineContents(s);
    if e < |s| {
      EndsWithNewline(s, e);
    } else {
      assert s[..e] == s;
    }
  }

  lemma EndsWithNewline(s: string, e: nat)
    requires e + 1 == |s| && s[e] == '\n'
    ensures s[..e] + "\n" == s
  {
    assert s == s[..e] + [s[e]];
  }

  /** The one line of a text that is one line is its contents. */
  lemma OneLineContents(s: string)
    requires s != [] && NextLineStart(s, 0) == |s|
    ensures LineContents(s) == [s[..ContentEnd(s, 0)]]
    ensures Join(LineContents(s), "\n") == s[..ContentEnd(s, 0)]
    ensures ContentEnd(s, 0) < |s| <==> s[|s| - 1] == '\n'
  {
    var n, e := NextLineStart(s, 0), ContentEnd(s, 0);
    assert LineContents(s[n..]) == [] by {
      assert s[n..] == [];
    }
    assert LineContents(s) == [s[..e]] + LineContents(s[n..]);
    LastLineEnd(s);
  }

  /** The last line's contents stop short of the text end exactly when the
      text ends with '\n'. */
  lemma LastLineEnd(s: string)
    requires s != [] && NextLineStart(s, 0) == |s|
    ensures ContentEnd(s, 0) < |s| <==> s[|s| - 1] == '\n'
  {
    if ContentEnd(s, 0) == |s| {
      assert s[|s| - 1] != '\n';
    }
  }

  /** A text with more than one line: its first line, a '\n', and the rest,
      whose last character is the text's last. */
  lemma FirstLineSplits(s: string)
    requires s != [] && NextLineStart(s, 0) < |s|
    ensures var n, e := NextLineStart(s, 0), ContentEnd(s, 0);
            LineContents(s) == [s[..e]] + LineContents(s[n..]) && LineContents(s[n..]) != []
            && Join(LineContents(s), "\n") == s[..e] + "\n" + Join(LineContents(s[n..]), "\n")
            && s == s[..e] + "\n" + s[n..] && s[n..][|s[n..]| - 1] == s[|s| - 1]
  {
    var n, e := NextLineStart(s, 0), ContentEnd(s, 0);
    var rest := s[n..];
    assert LineContents(s) == [s[..e]] + LineContents(rest);
    JoinCons(s[..e], LineContents(rest), "\n");
    SplitAtNewline(s, e);
  }

  lemma SplitAtNewline(s: string, e: nat)
    requires e < |s| && s[e] == '\n'
    ensures s == s[..e] + "\n" + s[e + 1..]
  {
    assert s == s[..e] + [s[e]] + s[e + 1..];
  }

  lemma JoinCons(a: string, rest: seq<string>, sep: string)
    requires rest != []
    ensures Join([a] + rest, sep) == a + sep + Join(rest, sep)
  {
    assert ([a] + rest)[1..] == rest;
  }

  /** The line from `p` ends just past the first '\n' at or after `p`. */
  lemma NextLineStartAtNewline(t: string, p: nat, m: nat)
    requires p <= m < |t| && t[m] == '\n'
    requires forall q :: p <= q < m ==> t[q] != '\n'
    ensures NextLineStart(t, p) == m + 1
  {
  }

  /** Without a '\n' from `p` on, the line from `p` runs to the end of the text. */
  lemma NextLineStartNoNewline(t: string, p: nat)
    requires p < |t|
    requires forall q :: p <= q < |t| ==> t[q] != '\n'
    ensures NextLineStart(t, p) == |t|
  {
  }

  /** Joining lines that hold no '\n' and splitting the result gives them
      back, provided the last one is not empty (an empty last line leaves
      only a trailing '\n', which starts no line). */
  lemma {:induction false} SplitJoin(ls: seq<string>)
    requires forall k, q :: 0 <= k < |ls| && 0 <= q < |ls[k]| ==> ls[k][q] != '\n'
    requires ls != [] ==> ls[|ls| - 1] != []
    ensures LineContents(Join(ls, "\n")) == ls
  {
    if ls == [] {
    } else if |ls| == 1 {
      var u := ls[0];
      NextLineStartNoNewline(u, 0);
      assert u[..|u|] == u;
      assert u[|u|..] == [];
    } else {
      var u, rest := ls[0], ls[1..];
      assert ls == [u] + rest;
      assert forall k :: 1 <= k < |ls| ==> rest[k - 1] == ls[k];
      JoinCons(u, rest, "\n");
      FirstLineOf(u, Join(rest, "\n"));
      SplitJoin(rest);
    }
  }

  /** A line without '\n' followed by '\n' is the first line of the text. */
  lemma FirstLineOf(u: string, joined: string)
    requires forall q :: 0 <= q < |u| ==> u[q] != '\n'
    ensures LineContents(u + "\n" + joined) == [u] + LineContents(joined)
  {
    var t := u + "\n" + joined;
    LineParts(u, joined);
    NextLineStartAtNewline(t, 0, |u|);
    LineContentsCons(t);
  }

  lemma LineParts(u: string, joined: string)
    ensures var t := u + "\n" + joined;
            |t| == |u| + 1 + |joined| && t[|u|] == '\n'
            && (forall q :: 0 <= q < |u| ==> t[q] == u[q])
            && t[..|u|] == u && t[|u| + 1..] == joined
  {
  }

  /** Number of leading entries of `s` whose UTF-16 offset in `t` is at most `u`. */
  function CountStartsAtMost(t: string, s: seq<nat>, u: int): (r: nat)
    requires forall k :: 0 <= k < |s| ==> s[k] <= |t|
    ensures r <= |s|
    ensures forall k :: 0 <= k < r ==> Offset(Utf16, t, s[k]) <= u
    ensures r < |s| ==> Offset(Utf16, t, s[r]) > u
  {
    if s == [] || Offset(Utf16, t, s[0]) > u then 0
    else 1 + CountStartsAtMost(t, s[1..], u)
  }

  /** How many lines start at or before UTF-16 location `u`: the number,
      counted from 1, of the line holding `u` (0 before the text). */
  function LineNumber(t: string, u: int): nat
  {
    CountStartsAtMost(t, LineStarts(t), u)
  }

  /** UTF-16 location of the start of line number `n` (0 for line 0). */
  function LineStartOffset(t: string, n: nat): nat
    requires n <= |LineStarts(t)|
  {
    if n == 0 then 0 else Offset(Utf16, t, LineStarts(t)[n - 1])
  }

  /** Line starts lie at strictly increasing UTF-16 locations. */
  lemma LineStartOffsetsIncrease(t: string, k: nat, l: nat)
    requires k < l < |LineStarts(t)|
    ensures Offset(Utf16, t, LineStarts(t)[k]) < Offset(Utf16, t, LineStarts(t)[l])
  {
    OffsetStrictlyIncreasing(Utf16, t, LineStarts(t)[k], LineStarts(t)[l]);
  }

  /** Line `k + 1` starts at or before `u` exactly when `k` is below the line number of `u`. */
  lemma LineNumberAt(t: string, u: int, k: nat)
    requires k < |LineStarts(t)|
    ensures k < LineNumber(t, u) <==> Offset(Utf16, t, LineStarts(t)[k]) <= u
  {
    var n := LineNumber(t, u);
    if n <= k && k < |LineStarts(t)| && n < k {
      LineStartOffsetsIncrease(t, n, k);
    }
  }

  /** The line number of `u` is `m` when line `m` starts at or before `u`
      and line `m + 1` does not exist or starts after it. */
  lemma LineNumberExact(t: string, u: int, m: nat)
    requires m <= |LineStarts(t)|
    requires m > 0 ==> Offset(Utf16, t, LineStarts(t)[m - 1]) <= u
    requires m < |LineStarts(t)| ==> Offset(Utf16, t, LineStarts(t)[m]) > u
    ensures LineNumber(t, u) == m
  {
    var n := LineNumber(t, u);
    if n < m {
      LineNumberAt(t, u, m - 1);
    } else if m < n {
      LineNumberAt(t, u, m);
    }
  }

  /** Later locations lie on the same or later lines. */
  lemma LineNumberMonotone(t: string, u: int, v: int)
    requires u <= v
    ensures LineNumber(t, u) <= LineNumber(t, v)
  {
    var n := LineNumber(t, u);
    if n > 0 {
      LineNumberAt(t, v, n - 1);
    }
  }

  /** A location inside the text lies on a line between its start and the
      next line's start; so its line number is at least 1. */
  lemma LineNumberWithinLine(t: string, u: int)
    requires 0 <= u < UnitCount(t)
    ensures 1 <= LineNumber(t, u) <= |LineStarts(t)|
    ensures LineStartOffset(t, LineNumber(t, u)) <= u
    ensures LineNumber(t, u) < |LineStarts(t)| ==> u < Offset(Utf16, t, LineStarts(t)[LineNumber(t, u)])
  {
    assert t != [];
    assert LineStarts(t)[0] == 0;
    assert Offset(Utf16, t, 0) == 0;
  }

  /** `lineAndCharacterForCharacterOffset`: the line number of `offset` and
      its column, counted from 1 at the start of that line. The scan visits
      the line starts in order and stops at the first one beyond `offset`. */
  method LineAndCharacterForCharacterOffset(t: string, offset: int) returns (line: nat, character: int)
    ensures line == LineNumber(t, offset)
    ensures character == offset - LineStartOffset(t, line) + 1
  {
    var numberOfLines, index, lineRangeStart, previousIndex := 0, 0, 0, 0;
    var pos := 0;
    while index < UnitCount(t)
      invariant pos <= |t| && index == Offset(Utf16, t, pos)
      invariant numberOfLines <= |LineStarts(t)| && pos == StartAt(t, numberOfLines)
      invariant lineRangeStart == numberOfLines
      invariant previousIndex == LineStartOffset(t, numberOfLines)
      invariant forall k :: 0 <= k < numberOfLines ==> Offset(Utf16, t, LineStarts(t)[k]) <= offset
      decreases |t| - pos
    {
      OffsetBelowLength(Utf16, t, pos);
      ScanStep(t, numberOfLines);
      numberOfLines := numberOfLines + 1;
      if index > offset {
        LineNumberExact(t, offset, lineRangeStart);
        break;
      }
      lineRangeStart := numberOfLines;
      previousIndex := index;
      pos := NextLineStart(t, pos);
      index := Offset(Utf16, t, pos);
    }
    if index >= UnitCount(t) && lineRangeStart == numberOfLines {
      OffsetBelowLength(Utf16, t, pos);
      LineNumberExact(t, offset, numberOfLines);
    }
    line, character := lineRangeStart, offset - previousIndex + 1;
  }

  /** Position of line start number `k`, counting from 0, or the text end
      once past the last line. */
  function StartAt(t: string, k: nat): (p: nat)
    requires k <= |LineStarts(t)|
    ensures p <= |t| && (p < |t| <==> k < |LineStarts(t)|)
  {
    if k < |LineStarts(t)| then LineStarts(t)[k] else |t|
  }

  lemma {:induction false} StartsFromNext(t: string, p: nat, k: nat)
    requires p <= |t| && k < |StartsFrom(t, p)|
    ensures (if k + 1 < |StartsFrom(t, p)| then StartsFrom(t, p)[k + 1] else |t|)
            == NextLineStart(t, StartsFrom(t, p)[k])
    decreases |t| - p
  {
    var n := NextLineStart(t, p);
    assert StartsFrom(t, p) == [p] + StartsFrom(t, n);
    if k > 0 {
      StartsFromNext(t, n, k - 1);
    }
  }

  /** Each line ends where the next one starts, the last one at the text end. */
  lemma ScanStep(t: string, k: nat)
    requires k < |LineStarts(t)|
    ensures StartAt(t, k + 1) == NextLineStart(t, StartAt(t, k))
  {
    StartsFromNext(t, 0, k);
  }

  /** The line numbers of the start and of the end of UTF-16 range `range`;
      None when the range reaches the end of the text, where the scan runs
      out before passing the range end. */
  function LinesOfRange(t: string, range: NSRange): (r: Option<LineSpan>)
    ensures r.Some? && 0 <= range.location && 0 <= range.length ==> 1 <= r.value.start <= r.value.end
  {
    if NSMaxRange(range) < UnitCount(t) then
      if 0 <= range.location && 0 <= range.length then
        LineNumberWithinLine(t, range.location);
        LineNumberMonotone(t, range.location, NSMaxRange(range));
        Some(LineSpan(LineNumber(t, range.location), LineNumber(t, NSMaxRange(range))))
      else Some(LineSpan(LineNumber(t, range.location), LineNumber(t, NSMaxRange(range))))
    else None
  }

  /** What `lineRangeWithByteRange` computes: the lines of the UTF-16 range
      that the byte range translates to, or None when the translation fails. */
  function ByteRangeLines(t: string, start: int, length: int): (r: Option<LineSpan>)
    requires ByteRangeInText(t, start, length)
    ensures r.None? <==> !(IsBoundary(Utf8, t, start) && IsBoundary(Utf8, t, start + length))
                         || start + length == ByteCount(t)
    ensures r.Some? ==> 1 <= r.value.start <= r.value.end
  {
    match ByteRangeToNSRange(t, start, length)
    case None => None
    case Some(range) =>
      TranslatedEndInside(t, start, length);
      LinesOfRange(t, range)
  }

  /** An aligned byte range ends before the text end exactly when its UTF-16
      translation does, and that translation is a proper range. */
  lemma TranslatedEndInside(t: string, start: int, length: int)
    requires ByteRangeInText(t, start, length) && ByteRangeToNSRange(t, start, length).Some?
    ensures var range := ByteRangeToNSRange(t, start, length).value;
            0 <= range.location && 0 <= range.length
            && (NSMaxRange(range) < UnitCount(t) <==> start + length < ByteCount(t))
  {
    var i, j := SpansExist(Utf8, t, start, start + length);
    OffsetSplit(Utf16, t, i, j);
    OffsetBelowLength(Utf8, t, j);
    OffsetBelowLength(Utf16, t, j);
  }

  /** The scan of `lineRangeWithByteRange` over a translated range: visits
      the line starts in order, remembering the last one at or before the
      range start, until a line ends beyond the range end. */
  method LineRangeOfRange(t: string, range: NSRange) returns (r: Option<LineSpan>)
    requires 0 <= range.location && 0 <= range.length
    ensures r == LinesOfRange(t, range)
  {
    var location, maxRange := range.location, NSMaxRange(range);
    ghost var first := LineNumber(t, location);
    var numberOfLines, index, lineRangeStart := 0, 0, 0;
    var pos := 0;
    while index < UnitCount(t)
      invariant pos <= |t| && index == Offset(Utf16, t, pos)
      invariant numberOfLines <= |LineStarts(t)| && pos == StartAt(t, numberOfLines)
      invariant lineRangeStart == if numberOfLines <= first then numberOfLines else first
      invariant numberOfLines > 0 ==> index <= maxRange
      decreases |t| - pos
    {
      ScanLine(t, range, numberOfLines);
      numberOfLines := numberOfLines + 1;
      if index <= location {
        lineRangeStart := numberOfLines;
      }
      pos := NextLineStart(t, pos);
      index := Offset(Utf16, t, pos);
      if index > maxRange {
        return Some(LineSpan(lineRangeStart, numberOfLines));
      }
    }
    ScanRunsOut(t, range, numberOfLines);
    return None;
  }

  /** One step of the scan over line `n + 1`: it starts inside the text, is
      followed by the line that starts after it, lies before the range start
      exactly when its number is at most the range start's, and when the
      next line starts beyond the range end the scan has found both lines. */
  lemma ScanLine(t: string, range: NSRange, n: nat)
    requires 0 <= range.location && 0 <= range.length
    requires n <= |LineStarts(t)| && Offset(Utf16, t, StartAt(t, n)) < UnitCount(t)
    requires n > 0 ==> Offset(Utf16, t, StartAt(t, n)) <= NSMaxRange(range)
    ensures n < |LineStarts(t)| && StartAt(t, n) < |t|
    ensures StartAt(t, n + 1) == NextLineStart(t, StartAt(t, n))
    ensures n < LineNumber(t, range.location) <==> Offset(Utf16, t, StartAt(t, n)) <= range.location
    ensures Offset(Utf16, t, StartAt(t, n + 1)) > NSMaxRange(range) ==>
              LineNumber(t, range.location) <= n + 1
              && LinesOfRange(t, range) == Some(LineSpan(LineNumber(t, range.location), n + 1))
  {
    OffsetBelowLength(Utf16, t, StartAt(t, n));
    ScanStep(t, n);
    LineNumberAt(t, range.location, n);
    if Offset(Utf16, t, StartAt(t, n + 1)) > NSMaxRange(range) {
      ScanPassesRange(t, range, n);
    }
  }

  /** A scan that reaches the text end without passing the range end means
      the range reaches the text end. */
  lemma ScanRunsOut(t: string, range: NSRange, n: nat)
    requires 0 <= range.location && 0 <= range.length
    requires n <= |LineStarts(t)| && Offset(Utf16, t, StartAt(t, n)) >= UnitCount(t)
    requires n > 0 ==> Offset(Utf16, t, StartAt(t, n)) <= NSMaxRange(range)
    ensures LinesOfRange(t, range) == None
  {
    FirstStart(t);
  }

  /** A non-empty text has its first line start at offset 0, before its end. */
  lemma FirstStart(t: string)
    ensures t != [] ==> StartAt(t, 0) == 0 && Offset(Utf16, t, 0) == 0 && 0 < UnitCount(t)
  {
    if t != [] {
      assert LineStarts(t)[0] == 0;
      assert Offset(Utf16, t, 0) == 0;
      LengthAtLeastSize(Utf16, t);
    }
  }

  /** When the line after line `k + 1` starts (or the text ends) beyond the
      range end, `k + 1` is the line number of the range end. */
  lemma ScanPassesRange(t: string, range: NSRange, k: nat)
    requires 0 <= range.location && 0 <= range.length
    requires k < |LineStarts(t)| && (k == 0 || Offset(Utf16, t, LineStarts(t)[k]) <= NSMaxRange(range))
    requires Offset(Utf16, t, StartAt(t, k + 1)) > NSMaxRange(range)
    ensures NSMaxRange(range) < UnitCount(t)
    ensures LineNumber(t, NSMaxRange(range)) == k + 1
    ensures LineNumber(t, range.location) <= k + 1
  {
    OffsetBelowLength(Utf16, t, StartAt(t, k + 1));
    assert LineStarts(t)[0] == 0;
    assert Offset(Utf16, t, 0) == 0;
    LineNumberExact(t, NSMaxRange(range), k + 1);
    LineNumberMonotone(t, range.location, NSMaxRange(range));
  }

  /** `lineRangeWithByteRange`. */
  method LineRangeWithByteRange(t: string, start: int, length: int) returns (r: Option<LineSpan>)
    requires ByteRangeInText(t, start, length)
    ensures r == ByteRangeLines(t, start, length)
  {
    var range := ByteRangeToNSRange(t, start, length);
    if range.None? {
      return None;
    }
    r := LineRangeOfRange(t, range.value);
  }

  /** `getLineStart(_:end:contentsEnd:forRange:)`: the UTF-16 range of the
      whole lines that an aligned range touches, terminators included. */
  function LineRangeFor(t: string, range: NSRange): (r: NSRange)
    requires UnitRangeAligned(t, range)
    ensures UnitRangeAligned(t, r)
    ensures forall i: nat, j: nat :: Spans(Utf16, t, i, j, range.location, NSMaxRange(range)) ==>
              Spans(Utf16, t, LineStartAt(t, i), LineEndAt(t, i, j), r.location, NSMaxRange(r))
  {
    var i := ScalarIndexAt(Utf16, t, range.location).value;
    var j := ScalarIndexAt(Utf16, t, NSMaxRange(range)).value;
    OffsetOrder(Utf16, t, i, j);
    SpansUnique(Utf16, t, i, j, range.location, NSMaxRange(range));
    var lineStart, lineEnd := LineStartAt(t, i), LineEndAt(t, i, j);
    WholeLinesAligned(t, lineStart, lineEnd);
    NSRange(Offset(Utf16, t, lineStart), Offset(Utf16, t, lineEnd) - Offset(Utf16, t, lineStart))
  }

  /** The UTF-16 range between two scalar positions is aligned. */
  lemma WholeLinesAligned(t: string, a: nat, b: nat)
    requires a <= b <= |t|
    ensures var r := NSRange(Offset(Utf16, t, a), Offset(Utf16, t, b) - Offset(Utf16, t, a));
            UnitRangeAligned(t, r) && Spans(Utf16, t, a, b, r.location, NSMaxRange(r))
  {
    OffsetOrder(Utf16, t, a, b);
    OffsetBelowLength(Utf16, t, b);
    ScalarIndexAtOffset(Utf16, t, a);
    ScalarIndexAtOffset(Utf16, t, b);
  }

  /** `substringLinesWithByteRange`: the whole lines that bytes
      [start, start + length) touch, terminators included; None when the
      byte range does not fall on scalar boundaries. */
  function SubstringLinesWithByteRange(t: string, start: int, length: int): (s: Option<string>)
    requires ByteRangeInText(t, start, length)
    ensures s.None? <==> !(IsBoundary(Utf8, t, start) && IsBoundary(Utf8, t, start + length))
    ensures forall i: nat, j: nat :: Spans(Utf8, t, i, j, start, start + length) ==>
              s == Some(t[LineStartAt(t, i)..LineEndAt(t, i, j)])
  {
    match ByteRangeToNSRange(t, start, length)
    case None => None
    case Some(range) =>
      ByteRangeToNSRangeAligned(t, start, length);
      forall i: nat, j: nat | Spans(Utf8, t, i, j, start, start + length)
        ensures SubstringWithRange(t, LineRangeFor(t, range)) == t[LineStartAt(t, i)..LineEndAt(t, i, j)]
      {
        LineSliceOfSpan(t, start, length, i, j);
      }
      Some(SubstringWithRange(t, LineRangeFor(t, range)))
  }

  /** The whole lines around the UTF-16 translation of a byte range are the
      whole lines around the scalars the byte range spans. */
  lemma LineSliceOfSpan(t: string, start: int, length: int, i: nat, j: nat)
    requires ByteRangeInText(t, start, length) && Spans(Utf8, t, i, j, start, start + length)
    ensures ByteRangeToNSRange(t, start, length).Some?
    ensures UnitRangeAligned(t, ByteRangeToNSRange(t, start, length).value)
    ensures SubstringWithRange(t, LineRangeFor(t, ByteRangeToNSRange(t, start, length).value))
            == t[LineStartAt(t, i)..LineEndAt(t, i, j)]
  {
    ByteRangeToNSRangeAligned(t, start, length);
    var range := ByteRangeToNSRange(t, start, length).value;
    OffsetSplit(Utf16, t, i, j);
    assert Spans(Utf16, t, i, j, range.location, NSMaxRange(range));
  }

  /** The widened slice holds the requested scalars, preceded by the rest
      of the first line and followed by the rest of the last one. */
  lemma SubstringLinesContainsRange(t: string, i: nat, j: nat)
    requires i <= j <= |t|
    ensures var s := t[LineStartAt(t, i)..LineEndAt(t, i, j)];
            s == t[LineStartAt(t, i)..i] + t[i..j] + t[j..LineEndAt(t, i, j)]
            && (forall q :: 0 <= q < |t[LineStartAt(t, i)..i]| ==> t[LineStartAt(t, i)..i][q] != '\n')
  {
    var a, b := LineStartAt(t, i), LineEndAt(t, i, j);
    assert t[a..b] == t[a..i] + t[i..j] + t[j..b];
    forall q | 0 <= q < i - a ensures t[a..i][q] != '\n' {
      assert t[a..i][q] == t[a + q];
    }
  }

  /** `lines()`: every line of the text with its number, counted from 1,
      collected while the lines are enumerated. */
  method Lines(t: string) returns (lines: seq<Line>)
    ensures |lines| == |LineContents(t)|
    ensures forall k :: 0 <= k < |lines| ==> lines[k] == Line(k + 1, LineContents(t)[k])
  {
    lines := [];
    var lineIndex := 1;
    var rest := t;
    while rest != []
      invariant lineIndex == |lines| + 1
      invariant LineContents(t) == Contents(lines) + LineContents(rest)
      invariant forall k :: 0 <= k < |lines| ==> lines[k].index == k + 1
      decreases |rest|
    {
      var line := rest[..ContentEnd(rest, 0)];
      LinesStep(t, lines, rest, Line(lineIndex, line));
      lines := lines + [Line(lineIndex, line)];
      lineIndex := lineIndex + 1;
      rest := rest[NextLineStart(rest, 0)..];
    }
    assert Contents(lines) == LineContents(t);
  }

  /** Taking the first line of the rest keeps the lines of the text split
      between those collected and those of the rest. */
  lemma LinesStep(t: string, lines: seq<Line>, rest: string, line: Line)
    requires rest != [] && LineContents(t) == Contents(lines) + LineContents(rest)
    requires line.content == rest[..ContentEnd(rest, 0)]
    ensures LineContents(t) == Contents(lines + [line]) + LineContents(rest[NextLineStart(rest, 0)..])
  {
    LineContentsCons(rest);
    ContentsSnoc(lines, line);
    var done, more := Contents(lines), LineContents(rest[NextLineStart(rest, 0)..]);
    assert done + ([line.content] + more) == (done + [line.content]) + more;
  }

  lemma LineContentsCons(s: string)
    requires s != []
    ensures LineContents(s) == [s[..ContentEnd(s, 0)]] + LineContents(s[NextLineStart(s, 0)..])
  {
  }

  lemma ContentsSnoc(lines: seq<Line>, line: Line)
    ensures Contents(lines + [line]) == Contents(lines) + [line.content]
  {
    assert (lines + [line])[..|lines|] == lines;
  }

  /** The texts of numbered lines. */
  function Contents(lines: seq<Line>): (cs: seq<string>)
    ensures |cs| == |lines|
    ensures forall k :: 0 <= k < |lines| ==> cs[k] == lines[k].content
  {
    if lines == [] then [] else Contents(lines[..|lines| - 1]) + [lines[|lines| - 1].content]
  }
}
