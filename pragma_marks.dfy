/** The `#pragma mark` / `@name` declarations of a text, built from the
    second capture group of each match of the mark pattern. */
module PragmaMarks {
  import opened Wrappers
  import opened UnicodeText
  import opened RangeTranslation
  import opened Lines
  import opened CharacterRuns

  /** The one declaration kind this part of the program produces. */
  datatype DeclarationKind = Mark

  datatype SourceLocation = SourceLocation(file: string, line: int, column: int, offset: int)

  /** The fields of a mark declaration that are not left empty; the extent
      is the pair (extentStart, extentEnd). */
  datatype SourceDeclaration = SourceDeclaration(
    kind: DeclarationKind, location: SourceLocation,
    extentStart: SourceLocation, extentEnd: SourceLocation, name: string)

  /** The range the pattern is searched in: the limit range cut off at the
      text end, or the whole text. */
  function PragmaSearchRange(t: string, limitRange: Option<NSRange>): (r: NSRange)
    ensures limitRange.None? ==> r == NSRange(0, UnitCount(t))
    ensures limitRange.Some? ==>
              r.location == limitRange.value.location
              && r.length <= limitRange.value.length && NSMaxRange(r) <= UnitCount(t)
              && (r.length == limitRange.value.length || NSMaxRange(r) == UnitCount(t))
  {
    match limitRange
    case Some(limit) =>
      var rest := UnitCount(t) - limit.location;
      NSRange(limit.location, if rest < limit.length then rest else limit.length)
    case None => NSRange(0, UnitCount(t))
  }

  /** Position `p` lies in range `r`. */
  predicate Covers(r: NSRange, p: int)
  {
    r.location <= p < NSMaxRange(r)
  }

  /** `NSIntersectionRange(a, b).length`: positive exactly when some
      position lies in both ranges. */
  function IntersectionLength(a: NSRange, b: NSRange): (n: int)
    ensures n >= 0
    ensures n > 0 <==> exists p :: Covers(a, p) && Covers(b, p)
  {
    var lo := if a.location < b.location then b.location else a.location;
    var hi := if NSMaxRange(a) < NSMaxRange(b) then NSMaxRange(a) else NSMaxRange(b);
    if lo < hi then
      assert Covers(a, lo) && Covers(b, lo);
      hi - lo
    else 0
  }

  /** The loop over the excluded ranges: some excluded range intersects `m`. */
  function AnyIntersects(excludeRanges: seq<NSRange>, m: NSRange): (b: bool)
    ensures b <==> exists k :: 0 <= k < |excludeRanges| && IntersectionLength(excludeRanges[k], m) > 0
  {
    if excludeRanges == [] then false
    else if IntersectionLength(excludeRanges[0], m) > 0 then true
    else
      assert forall k :: 1 <= k < |excludeRanges| ==> excludeRanges[k] == excludeRanges[1..][k - 1];
      AnyIntersects(excludeRanges[1..], m)
  }

  /** The mark one match yields: None when its capture meets an excluded
      range or holds only whitespace; otherwise a mark named by the trimmed
      capture, at column 1 of the capture's line and at its byte offset,
      with an empty extent at that location. The translation to bytes and
      the line lookup that the source force-unwraps cannot fail here. */
  function MarkFrom(t: string, filename: string, excludeRanges: seq<NSRange>, markRange: NSRange): (d: Option<SourceDeclaration>)
    requires UnitRangeAligned(t, markRange)
    ensures d.Some? <==> !AnyIntersects(excludeRanges, markRange)
                         && Trim(SubstringWithRange(t, markRange), IsWhitespace) != []
    ensures forall i: nat, j: nat :: d.Some? && Spans(Utf16, t, i, j, markRange.location, NSMaxRange(markRange)) ==>
              var loc := SourceLocation(filename, LineNumber(t, markRange.location), 1, Offset(Utf8, t, i));
              d.value == SourceDeclaration(Mark, loc, loc, loc, Trim(t[i..j], IsWhitespace))
  {
    if AnyIntersects(excludeRanges, markRange) then None
    else
      var markString := Trim(SubstringWithRange(t, markRange), IsWhitespace);
      if markString == [] then None
      else
        var i := ScalarIndexAt(Utf16, t, markRange.location).value;
        var j := ScalarIndexAt(Utf16, t, NSMaxRange(markRange)).value;
        MarkRangePositions(t, markRange, i, j);
        match UnitRangeToByteRange(t, markRange.location, markRange.length)
        case None => None
        case Some(markByteRange) =>
          MarkLineFound(t, i, markRange.location);
          var lines := ByteRangeLines(t, markByteRange.location, 0);
          var location := SourceLocation(filename, lines.value.start, 1, markByteRange.location);
          Some(SourceDeclaration(Mark, location, location, location, markString))
  }

  /** The two positions of an aligned mark range are its only ones, and its
      byte translation starts at the byte offset of the first. */
  lemma MarkRangePositions(t: string, markRange: NSRange, i: nat, j: nat)
    requires UnitRangeAligned(t, markRange)
    requires ScalarIndexAt(Utf16, t, markRange.location) == Some(i)
    requires ScalarIndexAt(Utf16, t, NSMaxRange(markRange)) == Some(j)
    ensures Spans(Utf16, t, i, j, markRange.location, NSMaxRange(markRange))
    ensures forall i': nat, j': nat :: Spans(Utf16, t, i', j', markRange.location, NSMaxRange(markRange)) ==> i' == i && j' == j
    ensures SubstringWithRange(t, markRange) == t[i..j]
    ensures UnitRangeToByteRange(t, markRange.location, markRange.length) == Some(NSRange(Offset(Utf8, t, i), EncodedLength(Utf8, t[i..j])))
  {
    OffsetOrder(Utf16, t, i, j);
    SpansUnique(Utf16, t, i, j, markRange.location, NSMaxRange(markRange));
  }

  /** A mark whose location lies before the text end has a line: the line
      number of its location. */
  lemma MarkLineFound(t: string, i: nat, location: int)
    requires i < |t| && Offset(Utf16, t, i) == location
    ensures ByteRangeInText(t, Offset(Utf8, t, i), 0)
    ensures ByteRangeLines(t, Offset(Utf8, t, i), 0) == Some(LineSpan(LineNumber(t, location), LineNumber(t, location)))
  {
    OffsetBelowLength(Utf8, t, i);
    OffsetBelowLength(Utf16, t, i);
    assert t[i..i] == [];
    assert Spans(Utf8, t, i, i, Offset(Utf8, t, i), Offset(Utf8, t, i) + 0);
  }

  /** The candidate mark of every match, in match order. */
  function MarkCandidates(t: string, filename: string, excludeRanges: seq<NSRange>, matches: seq<NSRange>): seq<Option<SourceDeclaration>>
    requires forall k :: 0 <= k < |matches| ==> UnitRangeAligned(t, matches[k])
  {
    seq(|matches|, k requires 0 <= k < |matches| => MarkFrom(t, filename, excludeRanges, matches[k]))
  }

  /** `pragmaMarks`, given the second-capture ranges of the pattern's
      matches in the search range, in order. */
  function PragmaMarks(t: string, filename: string, excludeRanges: seq<NSRange>, matches: seq<NSRange>): (marks: seq<SourceDeclaration>)
    requires forall k :: 0 <= k < |matches| ==> UnitRangeAligned(t, matches[k])
    ensures |marks| <= |matches|
  {
    FilterSome(MarkCandidates(t, filename, excludeRanges, matches))
  }

  /** What a mark emitted for capture range `m` satisfies: the capture
      meets no excluded range, the name is non-empty with no whitespace at
      either end, and the mark sits at column 1 of the capture's line with
      its extent at its location. */
  predicate ProperMark(t: string, filename: string, excludeRanges: seq<NSRange>, m: NSRange, d: SourceDeclaration)
  {
    (forall e :: 0 <= e < |excludeRanges| ==> IntersectionLength(excludeRanges[e], m) == 0)
    && d.name != [] && !IsWhitespace(d.name[0]) && !IsWhitespace(d.name[|d.name| - 1])
    && d.kind == Mark && d.location.column == 1 && d.location.file == filename
    && d.extentStart == d.location && d.extentEnd == d.location
    && d.location.line == LineNumber(t, m.location)
  }

  /** A match whose capture meets no excluded range and is not all whitespace. */
  predicate PassesFilters(t: string, excludeRanges: seq<NSRange>, m: NSRange)
    requires UnitRangeAligned(t, m)
  {
    !AnyIntersects(excludeRanges, m) && Trim(SubstringWithRange(t, m), IsWhitespace) != []
  }

  /** The marks are those of the matches that pass the filters, in match
      order: the `k`-th comes from match `idx[k]` and is a proper mark for
      it; and a match passing the filters always yields a mark. */
  lemma PragmaMarksFiltered(t: string, filename: string, excludeRanges: seq<NSRange>, matches: seq<NSRange>)
    requires forall k :: 0 <= k < |matches| ==> UnitRangeAligned(t, matches[k])
    ensures var marks := PragmaMarks(t, filename, excludeRanges, matches);
            var idx := SomeIndices(MarkCandidates(t, filename, excludeRanges, matches), 0);
            |marks| == |idx|
            && (forall k, l :: 0 <= k < l < |idx| ==> idx[k] < idx[l])
            && (forall k :: 0 <= k < |idx| ==>
                  idx[k] < |matches|
                  && marks[k] == MarkFrom(t, filename, excludeRanges, matches[idx[k]]).value
                  && ProperMark(t, filename, excludeRanges, matches[idx[k]], marks[k]))
            && (forall m :: 0 <= m < |matches| && PassesFilters(t, excludeRanges, matches[m]) ==> m in idx)
  {
    var cands := MarkCandidates(t, filename, excludeRanges, matches);
    FilterSomeAt(cands, 0);
    assert cands[0..] == cands;
    var idx := SomeIndices(cands, 0);
    forall k | 0 <= k < |idx|
      ensures ProperMark(t, filename, excludeRanges, matches[idx[k]], cands[idx[k]].value)
    {
      MarkFromProper(t, filename, excludeRanges, matches[idx[k]]);
    }
    forall m | 0 <= m < |matches| && PassesFilters(t, excludeRanges, matches[m]) ensures m in idx {
      assert cands[m].Some?;
    }
  }

  /** A mark that one match yields is a proper mark for its capture. */
  lemma MarkFromProper(t: string, filename: string, excludeRanges: seq<NSRange>, m: NSRange)
    requires UnitRangeAligned(t, m) && MarkFrom(t, filename, excludeRanges, m).Some?
    ensures ProperMark(t, filename, excludeRanges, m, MarkFrom(t, filename, excludeRanges, m).value)
  {
    var i := ScalarIndexAt(Utf16, t, m.location).value;
    var j := ScalarIndexAt(Utf16, t, NSMaxRange(m)).value;
    MarkRangePositions(t, m, i, j);
  }
}
