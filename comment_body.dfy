/** The assembly of a documentation comment's body from the capture groups
    of the comment patterns' matches: each capture is indented like the line
    it sits on, appledoc `@name` captures are blanked, and the parts are
    joined, trimmed at the end and stripped of their common indentation. */
module CommentBody {
  import opened Wrappers
  import opened UnicodeText
  import opened RangeTranslation
  import opened Lines
  import opened CharacterRuns
  import opened CommonIndent

  /** How the line of a capture is found. `ByteStart` is what the source
      does: it hands the capture's UTF-16 location to `byteRangeToNSRange`
      as a byte offset. `UnitStart` takes the location as what it is. */
  datatype LineLookup = ByteStart | UnitStart

  /** The ranges of one match, `rangeAtIndex(0)` first; None is `NSNotFound`,
      a capture group that took no part in the match. */
  type Match = seq<Option<NSRange>>

  /** Every range of every match lies on scalar boundaries of the text (the
      regular-expression engine matches whole scalars). */
  predicate MatchesAligned(t: string, ms: seq<Match>)
  {
    forall k, c :: 0 <= k < |ms| && 0 <= c < |ms[k]| && ms[k][c].Some? ==> UnitRangeAligned(t, ms[k][c].value)
  }

  /** `sub` occurs in `s` starting at position `k`. */
  predicate OccursAt(s: string, sub: string, k: nat)
  {
    k + |sub| <= |s| && s[k..k + |sub|] == sub
  }

  lemma OccursShift(s: string, sub: string)
    requires s != []
    ensures forall k: nat :: OccursAt(s[1..], sub, k) ==> OccursAt(s, sub, k + 1)
    ensures forall k: nat :: OccursAt(s, sub, k) && k > 0 ==> OccursAt(s[1..], sub, k - 1)
  {
    forall k: nat | OccursAt(s[1..], sub, k) ensures OccursAt(s, sub, k + 1) {
      assert s[1..][k..k + |sub|] == s[k + 1..k + 1 + |sub|];
    }
    forall k: nat | OccursAt(s, sub, k) && k > 0 ensures OccursAt(s[1..], sub, k - 1) {
      assert s[1..][k - 1..k - 1 + |sub|] == s[k..k + |sub|];
    }
  }

  /** `containsString`. */
  function Contains(s: string, sub: string): (b: bool)
    ensures b <==> exists k: nat :: OccursAt(s, sub, k)
    decreases |s|
  {
    if |s| < |sub| then false
    else if s[..|sub|] == sub then assert OccursAt(s, sub, 0); true
    else OccursShift(s, sub); Contains(s[1..], sub)
  }

  /** `String(count: n, repeatedValue: " ")`. */
  function Spaces(n: nat): (s: string)
    ensures |s| == n && forall q :: 0 <= q < n ==> s[q] == ' '
  {
    seq(n, _ => ' ')
  }

  /** Leading whitespace and newlines of the whole line holding position `p`,
      its terminator included. */
  function Indent(t: string, p: nat): nat
    requires p <= |t|
  {
    LeadingRun(t[LineStartAt(t, p)..LineEndAt(t, p, p)], IsWhitespaceOrNewline)
  }

  /** A capture indented like `line`, or "" for an appledoc directive. */
  function Indented(t: string, line: NSRange, range: NSRange): string
    requires UnitRangeAligned(t, line) && UnitRangeAligned(t, range)
  {
    var body := SubstringWithRange(t, range);
    if Contains(body, "@name") then ""
    else Spaces(LeadingRun(SubstringWithRange(t, line), IsWhitespaceOrNewline)) + body
  }

  /** One body part: "" for a capture that did not take part; otherwise
      the part that `UnitPart` or `BytePart` makes of it. */
  function CommentPart(t: string, lookup: LineLookup, range: Option<NSRange>): (s: string)
    requires range.Some? ==> UnitRangeAligned(t, range.value)
    ensures range.None? ==> s == ""
    ensures range.Some? && Contains(SubstringWithRange(t, range.value), "@name") ==> s == ""
    ensures s != [] ==> range.Some?
    ensures s != [] ==>
              var body := SubstringWithRange(t, range.value);
              |body| <= |s| && s[|s| - |body|..] == body
              && forall q :: 0 <= q < |s| - |body| ==> s[q] == ' '
  {
    match range
    case None => ""
    case Some(r) =>
      var body := SubstringWithRange(t, r);
      if lookup == UnitStart then
        Padded(Indent(t, ScalarIndexAt(Utf16, t, r.location).value), body);
        UnitPart(t, r)
      else
        match ScalarIndexAt(Utf8, t, r.location)
        case None => BytePart(t, r)
        case Some(k) => Padded(Indent(t, k), body); BytePart(t, r)
  }

  /** A capture behind as many spaces as the line holding its first scalar
      starts with whitespace characters, or "" when it holds "@name". */
  function UnitPart(t: string, r: NSRange): (s: string)
    requires UnitRangeAligned(t, r)
    ensures var i := ScalarIndexAt(Utf16, t, r.location).value;
            var body := SubstringWithRange(t, r);
            s == if Contains(body, "@name") then "" else Spaces(Indent(t, i)) + body
  {
    var i := ScalarIndexAt(Utf16, t, r.location).value;
    LineOfPosition(t, i);
    Indented(t, LineRangeFor(t, NSRange(r.location, 0)), r)
  }

  /** The source's part: the line is the one holding the scalar whose BYTE
      offset equals the capture's UTF-16 location, and when that byte offset
      splits a scalar there is no line and the part is "". */
  function BytePart(t: string, r: NSRange): (s: string)
    requires UnitRangeAligned(t, r)
    ensures ScalarIndexAt(Utf8, t, r.location).None? ==> s == ""
    ensures ScalarIndexAt(Utf8, t, r.location).Some? ==>
              var k := ScalarIndexAt(Utf8, t, r.location).value;
              var body := SubstringWithRange(t, r);
              s == if Contains(body, "@name") then "" else Spaces(Indent(t, k)) + body
  {
    LengthBounds(t);
    OffsetBelowLength(Utf16, t, ScalarIndexAt(Utf16, t, r.location).value);
    ScalarIndexAtBoundary(Utf8, t, r.location);
    match ByteRangeToNSRange(t, r.location, 0)
    case None => ""
    case Some(indexRange) =>
      var k := ScalarIndexAt(Utf8, t, r.location).value;
      ByteRangePoint(t, k);
      LineOfPosition(t, k);
      Indented(t, LineRangeFor(t, indexRange), r)
  }

  /** The empty UTF-16 range at position `p` is aligned, and the whole line
      around it is the line holding `p`. */
  lemma LineOfPosition(t: string, p: nat)
    requires p <= |t|
    ensures var r := NSRange(Offset(Utf16, t, p), 0);
            UnitRangeAligned(t, r)
            && SubstringWithRange(t, LineRangeFor(t, r)) == t[LineStartAt(t, p)..LineEndAt(t, p, p)]
  {
    var r := NSRange(Offset(Utf16, t, p), 0);
    WholeLinesAligned(t, p, p);
    var lr := LineRangeFor(t, r);
    assert Spans(Utf16, t, p, p, r.location, NSMaxRange(r));
  }

  /** The empty byte range at position `k` translates to the empty UTF-16
      range at the same position. */
  lemma ByteRangePoint(t: string, k: nat)
    requires k <= |t|
    ensures ByteRangeInText(t, Offset(Utf8, t, k), 0)
    ensures ByteRangeToNSRange(t, Offset(Utf8, t, k), 0) == Some(NSRange(Offset(Utf16, t, k), 0))
  {
    OffsetBelowLength(Utf8, t, k);
    assert t[k..k] == [];
    assert Spans(Utf8, t, k, k, Offset(Utf8, t, k), Offset(Utf8, t, k) + 0);
  }

  /** The parts of one match: one per capture group (ranges 1 and up). */
  function MatchParts(t: string, lookup: LineLookup, m: Match): seq<string>
    requires forall c :: 0 <= c < |m| && m[c].Some? ==> UnitRangeAligned(t, m[c].value)
  {
    if |m| < 1 then []
    else seq(|m| - 1, c requires 0 <= c < |m| - 1 => CommentPart(t, lookup, m[c + 1]))
  }

  /** The parts of all matches of one pattern, in match order. A pattern
      yields no parts exactly when none of its matches has a capture group. */
  function BodyParts(t: string, lookup: LineLookup, ms: seq<Match>): (parts: seq<string>)
    requires MatchesAligned(t, ms)
    ensures parts == [] <==> forall k :: 0 <= k < |ms| ==> |ms[k]| <= 1
  {
    if ms == [] then []
    else
      assert forall k, c :: 0 <= k < |ms| - 1 && 0 <= c < |ms[1..][k]| ==> ms[1..][k][c] == ms[k + 1][c];
      assert forall k :: 1 <= k < |ms| ==> ms[k] == ms[1..][k - 1];
      MatchParts(t, lookup, ms[0]) + BodyParts(t, lookup, ms[1..])
  }

  /** Parts joined by newlines, trailing whitespace and newlines trimmed,
      common indentation removed. */
  function Assemble(parts: seq<string>): (body: string)
    ensures |body| <= |Join(parts, "\n")|
  {
    RemoveCommonLeadingWhitespace(TrimTrailing(Join(parts, "\n"), IsWhitespaceOrNewline))
  }

  /** The parts of every pattern, in pattern order. */
  function PatternParts(t: string, lookup: LineLookup, patterns: seq<seq<Match>>): seq<seq<string>>
    requires forall p :: 0 <= p < |patterns| ==> MatchesAligned(t, patterns[p])
  {
    seq(|patterns|, p requires 0 <= p < |patterns| => BodyParts(t, lookup, patterns[p]))
  }

  /** The first non-empty entry from `from` on, or `|ps|`. */
  function FirstNonEmpty(ps: seq<seq<string>>, from: nat): (p: nat)
    requires from <= |ps|
    ensures from <= p <= |ps|
    ensures forall q :: from <= q < p ==> ps[q] == []
    ensures p < |ps| ==> ps[p] != []
    decreases |ps| - from
  {
    if from == |ps| || ps[from] != [] then from else FirstNonEmpty(ps, from + 1)
  }

  /** `commentBody`: the patterns are tried in order (block comment, then
      line comments) and the first one whose matches yield any part gives
      the body; None when none does. */
  function CommentBodyOf(t: string, lookup: LineLookup, patterns: seq<seq<Match>>): (r: Option<string>)
    requires forall p :: 0 <= p < |patterns| ==> MatchesAligned(t, patterns[p])
    ensures r.None? <==> forall p :: 0 <= p < |patterns| ==> BodyParts(t, lookup, patterns[p]) == []
    ensures r.Some? ==> var p := FirstNonEmpty(PatternParts(t, lookup, patterns), 0);
              p < |patterns| && r.value == Assemble(BodyParts(t, lookup, patterns[p]))
              && forall q :: 0 <= q < p ==> BodyParts(t, lookup, patterns[q]) == []
  {
    var parts := PatternParts(t, lookup, patterns);
    assert forall q :: 0 <= q < |patterns| ==> parts[q] == BodyParts(t, lookup, patterns[q]);
    var p := FirstNonEmpty(parts, 0);
    if p == |patterns| then None else Some(Assemble(parts[p]))
  }

  /** With lookup by location, a capture is kept whole: its part is the
      captured scalars behind spaces only, one per leading whitespace
      character of the capture's own line, or "" for a directive. */
  lemma UnitStartKeepsBody(t: string, r: NSRange, i: nat, j: nat)
    requires UnitRangeAligned(t, r) && Spans(Utf16, t, i, j, r.location, NSMaxRange(r))
    requires !Contains(t[i..j], "@name")
    ensures var s := CommentPart(t, UnitStart, Some(r));
            |s| == Indent(t, i) + (j - i) && s[Indent(t, i)..] == t[i..j]
            && (forall q :: 0 <= q < Indent(t, i) ==> s[q] == ' ')
            && (forall q :: LineStartAt(t, i) <= q < LineStartAt(t, i) + Indent(t, i) ==> IsWhitespaceOrNewline(t[q]))
  {
    ScalarIndexAtOffset(Utf16, t, i);
    assert SubstringWithRange(t, r) == t[i..j];
    assert CommentPart(t, UnitStart, Some(r)) == Spaces(Indent(t, i)) + t[i..j];
    Padded(Indent(t, i), t[i..j]);
    IndentIsWhitespace(t, i);
  }

  lemma Padded(n: nat, body: string)
    ensures var s := Spaces(n) + body;
            |s| == n + |body| && s[n..] == body && forall q :: 0 <= q < n ==> s[q] == ' '
  {
    var s := Spaces(n) + body;
    assert s[n..] == body;
    assert forall q :: 0 <= q < n ==> s[q] == Spaces(n)[q];
  }

  /** The indent of a line is made of whitespace and newlines. */
  lemma IndentIsWhitespace(t: string, p: nat)
    requires p <= |t|
    ensures LineStartAt(t, p) + Indent(t, p) <= |t|
    ensures forall q :: LineStartAt(t, p) <= q < LineStartAt(t, p) + Indent(t, p) ==> IsWhitespaceOrNewline(t[q])
  {
    var a, b := LineStartAt(t, p), LineEndAt(t, p, p);
    var n := Indent(t, p);
    forall q | a <= q < a + n ensures IsWhitespaceOrNewline(t[q]) {
      assert t[q] == t[a..b][q - a];
    }
  }

  /** The text "€€€\n///x" with the line-comment capture "x" at UTF-16
      location 7: byte 7 falls inside the third '€', so the source's lookup
      fails, the part is blank and the body comes out empty; looking the
      line up by location keeps "x". */
  lemma ByteStartLosesBody()
    ensures var t := "€€€\n///x";
            var patterns: seq<seq<Match>> := [[], [[Some(NSRange(4, 4)), Some(NSRange(7, 1))]]];
            (forall p :: 0 <= p < |patterns| ==> MatchesAligned(t, patterns[p]))
            && CommentBodyOf(t, ByteStart, patterns) == Some("")
            && CommentBodyOf(t, UnitStart, patterns) == Some("x")
  {
    var t := "€€€\n///x";
    ExampleAligned();
    ExampleParts();
    SecondPatternBody(t, ByteStart, Some(NSRange(4, 4)), Some(NSRange(7, 1)), "");
    SecondPatternBody(t, UnitStart, Some(NSRange(4, 4)), Some(NSRange(7, 1)), "x");
    EmptyAssembles();
    SingleLineAssembles();
  }

  /** Patterns of which only the second matches, once, with one capture
      group: the body is assembled from that capture's part alone. */
  lemma SecondPatternBody(t: string, lookup: LineLookup, whole: Option<NSRange>, capture: Option<NSRange>, part: string)
    requires whole.Some? ==> UnitRangeAligned(t, whole.value)
    requires capture.Some? ==> UnitRangeAligned(t, capture.value)
    requires CommentPart(t, lookup, capture) == part
    ensures var patterns: seq<seq<Match>> := [[], [[whole, capture]]];
            (forall p :: 0 <= p < |patterns| ==> MatchesAligned(t, patterns[p]))
            && CommentBodyOf(t, lookup, patterns) == Some(Assemble([part]))
  {
    var m: Match := [whole, capture];
    OneMatchParts(t, lookup, m, part);
    SecondOnly(t, lookup, [[], [m]], part);
  }

  /** One match with one capture group yields that group's part alone. */
  lemma OneMatchParts(t: string, lookup: LineLookup, m: Match, part: string)
    requires |m| == 2 && forall c :: 0 <= c < |m| && m[c].Some? ==> UnitRangeAligned(t, m[c].value)
    requires CommentPart(t, lookup, m[1]) == part
    ensures MatchesAligned(t, [m]) && BodyParts(t, lookup, [m]) == [part]
  {
    assert MatchesAligned(t, [m]) by {
      forall k, c | 0 <= k < 1 && 0 <= c < |[m][k]| && [m][k][c].Some? ensures UnitRangeAligned(t, [m][k][c].value) {
        assert [m][k] == m;
      }
    }
    var mp := MatchParts(t, lookup, m);
    assert |mp| == 1 && mp[0] == part;
    assert mp == [part];
    assert [m][1..] == [];
    assert BodyParts(t, lookup, [m]) == mp + BodyParts(t, lookup, []);
  }

  /** Of two patterns, when only the second yields parts, the body is theirs. */
  lemma SecondOnly(t: string, lookup: LineLookup, patterns: seq<seq<Match>>, part: string)
    requires |patterns| == 2 && patterns[0] == []
    requires forall p :: 0 <= p < |patterns| ==> MatchesAligned(t, patterns[p])
    requires BodyParts(t, lookup, patterns[1]) == [part]
    ensures CommentBodyOf(t, lookup, patterns) == Some(Assemble([part]))
  {
    var ps := PatternParts(t, lookup, patterns);
    assert ps[0] == [] && ps[1] == [part];
    assert FirstNonEmpty(ps, 0) == 1;
  }

  lemma ExampleParts()
    ensures var t := "€€€\n///x";
            UnitRangeAligned(t, NSRange(7, 1))
            && CommentPart(t, ByteStart, Some(NSRange(7, 1))) == ""
            && CommentPart(t, UnitStart, Some(NSRange(7, 1))) == "x"
  {
    ExampleBytePart();
    ExampleUnitPart();
  }

  lemma ExampleCapture()
    ensures var t := "€€€\n///x";
            UnitRangeAligned(t, NSRange(7, 1)) && ScalarIndexAt(Utf16, t, 7) == Some(7)
            && SubstringWithRange(t, NSRange(7, 1)) == "x" && !Contains("x", "@name")
  {
    ExampleOffsets();
    ScalarIndexAtOffset(Utf16, "€€€\n///x", 7);
    ExampleSubstring();
    assert !Contains("x", "@name");
  }

  lemma ExampleSubstring()
    ensures var t := "€€€\n///x";
            UnitRangeAligned(t, NSRange(7, 1)) && SubstringWithRange(t, NSRange(7, 1)) == "x"
  {
    ExampleCaptureAligned();
    ExampleSubstringOf("€€€\n///x");
  }

  lemma ExampleSubstringOf(t: string)
    requires |t| == 8 && t[7] == 'x'
    requires UnitRangeAligned(t, NSRange(7, 1)) && Offset(Utf16, t, 7) == 7 && Offset(Utf16, t, 8) == 8
    ensures SubstringWithRange(t, NSRange(7, 1)) == "x"
  {
    SingleScalarSubstring(t, NSRange(7, 1), 7);
  }

  lemma ExampleCaptureAligned()
    ensures var t := "€€€\n///x";
            UnitRangeAligned(t, NSRange(7, 1)) && Offset(Utf16, t, 7) == 7 && Offset(Utf16, t, 8) == 8
  {
    ExampleAligned();
    ExampleOffsets();
  }

  /** The range of one scalar's UTF-16 units holds that scalar alone. */
  lemma SingleScalarSubstring(t: string, r: NSRange, i: nat)
    requires i < |t| && UnitRangeAligned(t, r)
    requires Offset(Utf16, t, i) == r.location && Offset(Utf16, t, i + 1) == NSMaxRange(r)
    ensures SubstringWithRange(t, r) == [t[i]]
  {
    assert Spans(Utf16, t, i, i + 1, r.location, NSMaxRange(r));
    assert t[i..i + 1] == [t[i]];
  }

  lemma ExampleBytePart()
    ensures var t := "€€€\n///x";
            UnitRangeAligned(t, NSRange(7, 1)) && CommentPart(t, ByteStart, Some(NSRange(7, 1))) == ""
  {
    ExampleCapture();
    ExampleByteLookupFails();
  }

  lemma ExampleUnitPart()
    ensures var t := "€€€\n///x";
            UnitRangeAligned(t, NSRange(7, 1)) && CommentPart(t, UnitStart, Some(NSRange(7, 1))) == "x"
  {
    ExampleCapture();
    ExampleIndent();
  }

  lemma ExampleOffsets()
    ensures var t := "€€€\n///x";
            Offset(Utf16, t, 4) == 4 && Offset(Utf16, t, 7) == 7 && Offset(Utf16, t, 8) == 8
            && UnitCount(t) == 8
  {
    var t := "€€€\n///x";
    assert t[..4] == "€€€\n";
    assert t[..7] == "€€€\n///";
    assert t[..8] == t;
    OffsetWhole(Utf16, t);
  }

  lemma ExampleAligned()
    ensures var t := "€€€\n///x";
            UnitRangeAligned(t, NSRange(4, 4)) && UnitRangeAligned(t, NSRange(7, 1))
  {
    ExampleOffsets();
    AlignedBetween("€€€\n///x", 4, 8);
    AlignedBetween("€€€\n///x", 7, 8);
  }

  /** The UTF-16 range between two scalar positions is aligned. */
  lemma AlignedBetween(t: string, i: nat, j: nat)
    requires i <= j <= |t|
    ensures UnitRangeAligned(t, NSRange(Offset(Utf16, t, i), Offset(Utf16, t, j) - Offset(Utf16, t, i)))
  {
    ScalarIndexAtOffset(Utf16, t, i);
    ScalarIndexAtOffset(Utf16, t, j);
    OffsetOrder(Utf16, t, i, j);
    OffsetBelowLength(Utf16, t, j);
  }

  lemma ExampleByteLookupFails()
    ensures ScalarIndexAt(Utf8, "€€€\n///x", 7) == None
  {
    var t := "€€€\n///x";
    assert t[1..][1..] == "€\n///x";
    assert ScalarIndexAt(Utf8, t[1..][1..], 1) == None;
    assert ScalarIndexAt(Utf8, t[1..], 4) == None;
  }

  lemma ExampleIndent()
    ensures Indent("€€€\n///x", 7) == 0
  {
    var t := "€€€\n///x";
    assert LineStartAt(t, 7) == 4;
    assert LineEndAt(t, 7, 7) == 8;
    assert t[4..8] == "///x";
  }

  lemma EmptyAssembles()
    ensures Assemble([""]) == ""
  {
    assert Join([""], "\n") == "";
    assert LineContents("") == [];
    assert StripLines([], None) == [];
  }

  lemma SingleLineAssembles()
    ensures Assemble(["x"]) == "x"
  {
    assert Join(["x"], "\n") == "x";
    assert TrimTrailing("x", IsWhitespaceOrNewline) == "x";
    assert NextLineStart("x", 0) == 1;
    assert ContentEnd("x", 0) == 1;
    assert "x"[1..] == [] && "x"[..1] == "x";
    assert LineContents("x") == ["x"];
    assert PrefixLength("x") == 0 && !IsBlank("x");
    assert MinLeading(["x"]) == Some(0);
    assert StripLines(["x"], Some(0)) == ["x"];
  }
}
