/** Removal of the leading whitespace (and comment asterisks) that all
    non-blank lines of a text have in common. */
module CommonIndent {
  import opened Wrappers
  import opened CharacterRuns
  import opened Lines

  /** A line made only of whitespace and newlines; the empty line is one. */
  predicate IsBlank(line: string)
  {
    LeadingRun(line, IsWhitespaceOrNewline) == |line|
  }

  /** How many comment-prefix characters the line starts with. */
  function PrefixLength(line: string): nat
  {
    LeadingRun(line, IsCommentLinePrefix)
  }

  /** The least comment-prefix length over the non-blank lines, or None
      when every line is blank (the source starts from `Int.max`, which
      then survives and strips nothing). */
  function MinLeading(lines: seq<string>): Option<nat>
  {
    if lines == [] then None
    else
      var m := MinLeading(lines[..|lines| - 1]);
      var line := lines[|lines| - 1];
      if !IsBlank(line) && (m.None? || PrefixLength(line) < m.value) then Some(PrefixLength(line)) else m
  }

  /** The minimum is None exactly when every line is blank; otherwise it is
      the prefix length of some non-blank line and at most that of each. */
  lemma {:induction false} MinLeadingIsLeast(lines: seq<string>)
    ensures var m := MinLeading(lines);
            (m.None? <==> forall k :: 0 <= k < |lines| ==> IsBlank(lines[k]))
            && (m.Some? ==> exists k :: 0 <= k < |lines| && !IsBlank(lines[k]) && PrefixLength(lines[k]) == m.value)
            && (m.Some? ==> forall k :: 0 <= k < |lines| && !IsBlank(lines[k]) ==> m.value <= PrefixLength(lines[k]))
  {
    if lines != [] {
      var init := lines[..|lines| - 1];
      MinLeadingIsLeast(init);
      assert forall k :: 0 <= k < |init| ==> init[k] == lines[k];
      var m := MinLeading(init);
      var last := |lines| - 1;
      if !IsBlank(lines[last]) && (m.None? || PrefixLength(lines[last]) < m.value) {
        assert PrefixLength(lines[last]) == MinLeading(lines).value;
      } else if m.Some? {
        var w :| 0 <= w < |init| && !IsBlank(init[w]) && PrefixLength(init[w]) == m.value;
        assert lines[w] == init[w];
      }
    }
  }

  /** One line with the common prefix removed: lines shorter than it stay as they are. */
  function StripLine(line: string, m: Option<nat>): string
  {
    if m.Some? && |line| >= m.value then line[m.value..] else line
  }

  function StripLines(lines: seq<string>, m: Option<nat>): (out: seq<string>)
    ensures |out| == |lines|
    ensures forall k :: 0 <= k < |lines| ==> out[k] == StripLine(lines[k], m)
  {
    seq(|lines|, k requires 0 <= k < |lines| => StripLine(lines[k], m))
  }

  /** What `stringByRemovingCommonLeadingWhitespaceFromLines` returns: it
      only ever removes characters, so it is never longer than its input. */
  function RemoveCommonLeadingWhitespace(s: string): (r: string)
    ensures |r| <= |s|
  {
    var lines := LineContents(s);
    var out := StripLines(lines, MinLeading(lines));
    JoinNoLonger(out, lines);
    LinesReassemble(s);
    Join(out, "\n")
  }

  /** Joining lines that are each no longer than their counterparts gives a
      text no longer than joining the counterparts. */
  lemma {:induction false} JoinNoLonger(short: seq<string>, long: seq<string>)
    requires |short| == |long|
    requires forall k :: 0 <= k < |short| ==> |short[k]| <= |long[k]|
    ensures |Join(short, "\n")| <= |Join(long, "\n")|
  {
    if |short| > 1 {
      JoinNoLonger(short[1..], long[1..]);
    }
  }

  /** `stringByRemovingCommonLeadingWhitespaceFromLines`: one pass over the
      lines finds the least comment-prefix length of the non-blank lines, a
      second pass strips that many characters from every line long enough. */
  method StringByRemovingCommonLeadingWhitespaceFromLines(s: string) returns (r: string)
    ensures r == RemoveCommonLeadingWhitespace(s)
  {
    var lines := LineContents(s);
    var minLeadingCharacters: Option<nat> := None;
    for i := 0 to |lines|
      invariant minLeadingCharacters == MinLeading(lines[..i])
    {
      var line := lines[i];
      var lineLeadingWhitespace := CountOfLeadingCharactersInSet(line, IsWhitespaceOrNewline);
      var lineLeadingCharacters := CountOfLeadingCharactersInSet(line, IsCommentLinePrefix);
      MinLeadingStep(lines, i);
      if (minLeadingCharacters.None? || lineLeadingCharacters < minLeadingCharacters.value)
         && lineLeadingWhitespace != |line|
      {
        minLeadingCharacters := Some(lineLeadingCharacters);
      }
    }
    assert lines[..|lines|] == lines;
    var stripped: seq<string> := [];
    for i := 0 to |lines|
      invariant |stripped| == i
      invariant forall k :: 0 <= k < i ==> stripped[k] == StripLine(lines[k], minLeadingCharacters)
    {
      var line := lines[i];
      if minLeadingCharacters.Some? && |line| >= minLeadingCharacters.value {
        stripped := stripped + [line[minLeadingCharacters.value..]];
      } else {
        stripped := stripped + [line];
      }
    }
    assert stripped == StripLines(lines, minLeadingCharacters);
    r := Join(stripped, "\n");
  }

  /** One more line either lowers the minimum to its own prefix length or leaves it. */
  lemma MinLeadingStep(lines: seq<string>, i: nat)
    requires i < |lines|
    ensures var m := MinLeading(lines[..i]);
            MinLeading(lines[..i + 1])
            == if !IsBlank(lines[i]) && (m.None? || PrefixLength(lines[i]) < m.value)
               then Some(PrefixLength(lines[i])) else m
  {
    assert lines[..i + 1][..i] == lines[..i];
  }

  /** What stripping does to one line whose prefix is at least the minimum
      (or that is blank): it loses nothing, or exactly `m` comment-prefix
      characters when it has that many. */
  lemma StripLineRemovesPrefix(line: string, m: Option<nat>)
    requires m.Some? && !IsBlank(line) ==> m.value <= PrefixLength(line)
    ensures var out := StripLine(line, m);
            |out| <= |line|
            && line == line[..|line| - |out|] + out
            && |line| - |out| == (if m.Some? && m.value <= |line| then m.value else 0)
            && forall q :: 0 <= q < |line| - |out| ==> IsCommentLinePrefix(line[q])
  {
    if m.Some? && m.value <= |line| {
      assert line == line[..m.value] + line[m.value..];
    }
  }

  /** Every line keeps its place; each loses either nothing or exactly the
      common prefix length, the latter only when it is at least that long,
      and what it loses is made of comment-prefix characters. When every
      line is blank, nothing is removed. */
  lemma StrippedLines(s: string, k: nat)
    requires k < |LineContents(s)|
    ensures var lines := LineContents(s);
            var m := MinLeading(lines);
            var out := StripLines(lines, m);
            |out| == |lines|
            && lines[k] == lines[k][..|lines[k]| - |out[k]|] + out[k]
            && |lines[k]| - |out[k]| == (if m.Some? && m.value <= |lines[k]| then m.value else 0)
            && (forall q :: 0 <= q < |lines[k]| - |out[k]| ==> IsCommentLinePrefix(lines[k][q]))
            && (m.None? ==> out[k] == lines[k])
  {
    var lines := LineContents(s);
    MinLeadingIsLeast(lines);
    StripLineRemovesPrefix(lines[k], MinLeading(lines));
  }

  /** The result splits back into the stripped lines, one per input line,
      unless the last of them ended up empty (it then leaves only a trailing
      '\n', which starts no line). */
  lemma RemovalKeepsLines(s: string)
    requires var lines := LineContents(s);
             var out := StripLines(lines, MinLeading(lines));
             out == [] || out[|out| - 1] != []
    ensures var lines := LineContents(s);
            LineContents(RemoveCommonLeadingWhitespace(s)) == StripLines(lines, MinLeading(lines))
            && |LineContents(RemoveCommonLeadingWhitespace(s))| == |lines|
  {
    var lines := LineContents(s);
    var out := StripLines(lines, MinLeading(lines));
    LineContentsNoNewline(s);
    forall k, q | 0 <= k < |out| && 0 <= q < |out[k]| ensures out[k][q] != '\n' {
      var m := MinLeading(lines);
      if m.Some? && |lines[k]| >= m.value {
        assert out[k][q] == lines[k][m.value + q];
      }
    }
    SplitJoin(out);
  }

  lemma FirstExampleLines()
    ensures LineContents("*\n *x") == ["*", " *x"]
  {
    var s := "*\n *x";
    assert NextLineStart(s, 0) == 2;
    assert ContentEnd(s, 0) == 1 && s[..1] == "*";
    assert s[2..] == " *x";
    assert NextLineStart(" *x", 0) == 3;
    assert ContentEnd(" *x", 0) == 3;
    assert " *x"[3..] == [] && " *x"[..3] == " *x";
  }

  lemma SecondExampleLines()
    ensures LineContents("\n*x") == ["", "*x"]
  {
    var u := "\n*x";
    assert NextLineStart(u, 0) == 1;
    assert ContentEnd(u, 0) == 0 && u[..0] == "";
    assert u[1..] == "*x";
    assert NextLineStart("*x", 0) == 2;
    assert ContentEnd("*x", 0) == 2;
    assert "*x"[2..] == [] && "*x"[..2] == "*x";
  }

  lemma FirstPass()
    ensures RemoveCommonLeadingWhitespace("*\n *x") == "\n*x"
  {
    FirstExampleLines();
    assert PrefixLength("*") == 1 && !IsBlank("*");
    assert PrefixLength(" *x") == 2 && !IsBlank(" *x");
    assert MinLeading(["*", " *x"]) == Some(1);
    assert StripLines(["*", " *x"], Some(1)) == ["", "*x"];
  }

  lemma SecondPass()
    ensures RemoveCommonLeadingWhitespace("\n*x") == "\nx"
  {
    SecondExampleLines();
    assert IsBlank("");
    assert PrefixLength("*x") == 1 && !IsBlank("*x");
    assert ["", "*x"][..1] == [""] && [""][..0] == [];
    assert MinLeading([""]) == None;
    assert MinLeading(["", "*x"]) == Some(1);
    assert StripLines(["", "*x"], Some(1)) == ["", "x"];
  }

  /** Removal is not idempotent: stripping the one asterisk that both
      lines share leaves a second line that still starts with one, which the
      next pass, now that the first line is blank, strips too. */
  lemma RemovalNotIdempotent()
    ensures var once := RemoveCommonLeadingWhitespace("*\n *x");
            once == "\n*x" && RemoveCommonLeadingWhitespace(once) == "\nx"
            && RemoveCommonLeadingWhitespace(once) != once
  {
    FirstPass();
    SecondPass();
  }

  lemma ThirdExampleLines()
    ensures LineContents("  x\n  ") == ["  x", "  "]
    ensures LineContents("x\n") == ["x"]
  {
    var s := "  x\n  ";
    assert NextLineStart(s, 0) == 4;
    assert ContentEnd(s, 0) == 3 && s[..3] == "  x";
    assert s[4..] == "  ";
    assert NextLineStart("  ", 0) == 2;
    assert ContentEnd("  ", 0) == 2;
    assert "  "[2..] == [] && "  "[..2] == "  ";
    var u := "x\n";
    assert NextLineStart(u, 0) == 2;
    assert ContentEnd(u, 0) == 1 && u[..1] == "x";
    assert u[2..] == [];
  }

  /** A last line that the removal empties leaves only a trailing '\n',
      which starts no line: "  x\n  " has two lines, its result "x\n" one. */
  lemma RemovalDropsEmptiedLastLine()
    ensures RemoveCommonLeadingWhitespace("  x\n  ") == "x\n"
    ensures |LineContents("  x\n  ")| == 2 && |LineContents(RemoveCommonLeadingWhitespace("  x\n  "))| == 1
  {
    ThirdExampleLines();
    assert PrefixLength("  x") == 2 && !IsBlank("  x");
    assert IsBlank("  ");
    assert ["  x", "  "][..1] == ["  x"] && ["  x"][..0] == [];
    assert MinLeading(["  x"]) == Some(2);
    assert MinLeading(["  x", "  "]) == Some(2);
    assert StripLines(["  x", "  "], Some(2)) == ["x", ""];
  }
}
