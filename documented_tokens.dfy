/** Which syntax tokens can carry documentation, and the offsets of the
    tokens that follow each documentation comment. */
module DocumentedTokens {
  import opened Wrappers
  import opened UnicodeText
  import opened RangeTranslation

  /** A token of the syntax map: its kind's raw value and its byte range. */
  datatype SyntaxToken = SyntaxToken(kind: string, offset: int, length: int)

  /** Raw values of the keyword and identifier syntax kinds. */
  const KeywordKind: string := "source.lang.swift.syntaxtype.keyword"
  const IdentifierKind: string := "source.lang.swift.syntaxtype.identifier"

  /** Keywords that name a declaration that can be documented. */
  const KeywordFunctions: seq<string> := ["subscript", "init", "deinit"]

  /** A keyword token's bytes lie within the text (advancing past the end traps). */
  predicate TokenInText(t: string, token: SyntaxToken)
  {
    token.kind == KeywordKind ==> ByteRangeInText(t, token.offset, token.length)
  }

  /** `isTokenDocumentable`: an identifier always; a keyword when the scalars
      its bytes cover spell `subscript`, `init` or `deinit`; nothing else. */
  function IsTokenDocumentable(t: string, token: SyntaxToken): (b: bool)
    requires TokenInText(t, token)
    ensures token.kind == KeywordKind && !(IsBoundary(Utf8, t, token.offset) && IsBoundary(Utf8, t, token.offset + token.length)) ==> !b
    ensures forall i: nat, j: nat :: token.kind == KeywordKind && Spans(Utf8, t, i, j, token.offset, token.offset + token.length) ==>
              (b <==> t[i..j] in KeywordFunctions)
    ensures token.kind != KeywordKind ==> (b <==> token.kind == IdentifierKind)
  {
    if token.kind == KeywordKind then
      match SubstringWithByteRange(t, token.offset, token.length)
      case None => false
      case Some(s) => s in KeywordFunctions
    else token.kind == IdentifierKind
  }

  /** The offsets of the documentable tokens, in token order. */
  function DocumentableOffsets(t: string, tokens: seq<SyntaxToken>): (offs: seq<int>)
    requires forall k :: 0 <= k < |tokens| ==> TokenInText(t, tokens[k])
    ensures |offs| <= |tokens|
  {
    if tokens == [] then []
    else
      assert forall k :: 0 <= k < |tokens| - 1 ==> tokens[1..][k] == tokens[k + 1];
      (if IsTokenDocumentable(t, tokens[0]) then [tokens[0].offset] else []) + DocumentableOffsets(t, tokens[1..])
  }

  /** The first documentable token from index `from` on whose offset is at
      least `location`, by its index in `tokens`. */
  function FirstDocumentableFrom(t: string, tokens: seq<SyntaxToken>, location: int, from: nat): (r: Option<nat>)
    requires from <= |tokens| && forall k :: 0 <= k < |tokens| ==> TokenInText(t, tokens[k])
    ensures r.Some? ==> from <= r.value < |tokens| && IsTokenDocumentable(t, tokens[r.value]) && tokens[r.value].offset >= location
    ensures r.Some? ==> forall l :: from <= l < r.value && IsTokenDocumentable(t, tokens[l]) ==> tokens[l].offset < location
    ensures r.None? ==> forall l :: from <= l < |tokens| && IsTokenDocumentable(t, tokens[l]) ==> tokens[l].offset < location
    decreases |tokens| - from
  {
    if from == |tokens| then None
    else if IsTokenDocumentable(t, tokens[from]) && tokens[from].offset >= location then Some(from)
    else FirstDocumentableFrom(t, tokens, location, from + 1)
  }

  /** The first documentable token at or after byte offset `location`. */
  function FirstDocumentable(t: string, tokens: seq<SyntaxToken>, location: int): Option<nat>
    requires forall k :: 0 <= k < |tokens| ==> TokenInText(t, tokens[k])
  {
    FirstDocumentableFrom(t, tokens, location, 0)
  }

  /** `filter({ $0 >= location }).first`. */
  function FirstAtLeast(offs: seq<int>, location: int): Option<int>
  {
    if offs == [] then None
    else if offs[0] >= location then Some(offs[0])
    else FirstAtLeast(offs[1..], location)
  }

  /** The first documentable offset at or after `location` is the offset of
      the first documentable token at or after it: the filter keeps the
      token order. */
  lemma FirstAtLeastDocumentable(t: string, tokens: seq<SyntaxToken>, location: int)
    requires forall k :: 0 <= k < |tokens| ==> TokenInText(t, tokens[k])
    ensures FirstAtLeast(DocumentableOffsets(t, tokens), location)
            == match FirstDocumentable(t, tokens, location)
               case None => None
               case Some(k) => Some(tokens[k].offset)
  {
    FirstAtLeastFrom(t, tokens, location, 0);
    assert tokens[0..] == tokens;
  }

  lemma {:induction false} FirstAtLeastFrom(t: string, tokens: seq<SyntaxToken>, location: int, from: nat)
    requires from <= |tokens| && forall k :: 0 <= k < |tokens| ==> TokenInText(t, tokens[k])
    ensures FirstAtLeast(DocumentableOffsets(t, tokens[from..]), location)
            == match FirstDocumentableFrom(t, tokens, location, from)
               case None => None
               case Some(k) => Some(tokens[k].offset)
    decreases |tokens| - from
  {
    if from < |tokens| {
      FirstAtLeastFrom(t, tokens, location, from + 1);
      var rest, next := tokens[from..], tokens[from + 1..];
      assert rest[0] == tokens[from] && rest[1..] == next;
      var head := if IsTokenDocumentable(t, tokens[from]) then [tokens[from].offset] else [];
      var offs := DocumentableOffsets(t, rest);
      assert offs == head + DocumentableOffsets(t, next);
      if !(IsTokenDocumentable(t, tokens[from]) && tokens[from].offset >= location) {
        if head != [] {
          assert offs[0] == tokens[from].offset < location;
          assert offs[1..] == DocumentableOffsets(t, next);
        } else {
          assert offs == DocumentableOffsets(t, next);
        }
      }
    }
  }

  /** `documentedTokenOffsets`, given the locations of the documentation
      comment matches in order. As the source does, each UTF-16 location is
      compared with the tokens' BYTE offsets. */
  function DocumentedTokenOffsets(t: string, tokens: seq<SyntaxToken>, matchLocations: seq<int>): (r: seq<int>)
    requires forall k :: 0 <= k < |tokens| ==> TokenInText(t, tokens[k])
    ensures |r| <= |matchLocations|
  {
    FilterSome(FollowingTokens(t, tokens, matchLocations))
  }

  /** The first documentable offset after each location, if any. */
  function FollowingTokens(t: string, tokens: seq<SyntaxToken>, locations: seq<int>): seq<Option<int>>
    requires forall k :: 0 <= k < |tokens| ==> TokenInText(t, tokens[k])
  {
    var offs := DocumentableOffsets(t, tokens);
    seq(|locations|, k requires 0 <= k < |locations| => FirstAtLeast(offs, locations[k]))
  }

  /** One offset at most per location, in location order: the `k`-th comes
      from location `idx[k]` and is the offset of the first documentable
      token at or after it; a location with no such token gives nothing. */
  lemma FollowingTokensChosen(t: string, tokens: seq<SyntaxToken>, locations: seq<int>)
    requires forall k :: 0 <= k < |tokens| ==> TokenInText(t, tokens[k])
    ensures var out := DocumentedTokenOffsets(t, tokens, locations);
            var idx := SomeIndices(FollowingTokens(t, tokens, locations), 0);
            |out| == |idx| <= |locations|
            && (forall k, l :: 0 <= k < l < |idx| ==> idx[k] < idx[l])
            && (forall k :: 0 <= k < |idx| ==>
                  idx[k] < |locations|
                  && FirstDocumentable(t, tokens, locations[idx[k]]).Some?
                  && out[k] == tokens[FirstDocumentable(t, tokens, locations[idx[k]]).value].offset)
            && (forall m :: 0 <= m < |locations| && m !in idx ==>
                  FirstDocumentable(t, tokens, locations[m]).None?)
  {
    var cands := FollowingTokens(t, tokens, locations);
    FilterSomeAt(cands, 0);
    assert cands[0..] == cands;
    forall m | 0 <= m < |locations| ensures FirstAtLeast(DocumentableOffsets(t, tokens), locations[m]) == cands[m] {
    }
    forall m | 0 <= m < |locations| {
      FirstAtLeastDocumentable(t, tokens, locations[m]);
    }
  }

  /** The byte offset of an aligned UTF-16 location. */
  function ByteLocation(t: string, location: int): (b: int)
    requires ScalarIndexAt(Utf16, t, location).Some?
    ensures forall i: nat :: i <= |t| && Offset(Utf16, t, i) == location ==> b == Offset(Utf8, t, i)
  {
    var i := ScalarIndexAt(Utf16, t, location).value;
    assert forall i': nat :: i' <= |t| && Offset(Utf16, t, i') == location ==> i' == i by {
      forall i': nat | i' <= |t| && Offset(Utf16, t, i') == location ensures i' == i {
        OffsetOrder(Utf16, t, i, i');
      }
    }
    Offset(Utf8, t, i)
  }

  /** What the comparison evidently means: the first documentable token at
      or after the BYTE offset of each comment. */
  function DocumentedTokenOffsetsAtBytes(t: string, tokens: seq<SyntaxToken>, matchLocations: seq<int>): (r: seq<int>)
    requires forall k :: 0 <= k < |tokens| ==> TokenInText(t, tokens[k])
    requires forall k :: 0 <= k < |matchLocations| ==> ScalarIndexAt(Utf16, t, matchLocations[k]).Some?
    ensures |r| <= |matchLocations|
  {
    var bytes := seq(|matchLocations|, k requires 0 <= k < |matchLocations| => ByteLocation(t, matchLocations[k]));
    FilterSome(FollowingTokens(t, tokens, bytes))
  }

  /** Measured in bytes, each offset emitted for a comment is that of the
      first documentable token that starts at or after the comment, and a
      comment with none gives nothing. */
  lemma AtBytesFollowComment(t: string, tokens: seq<SyntaxToken>, matchLocations: seq<int>)
    requires forall k :: 0 <= k < |tokens| ==> TokenInText(t, tokens[k])
    requires forall k :: 0 <= k < |matchLocations| ==> ScalarIndexAt(Utf16, t, matchLocations[k]).Some?
    ensures var bytes := seq(|matchLocations|, k requires 0 <= k < |matchLocations| => ByteLocation(t, matchLocations[k]));
            var out := DocumentedTokenOffsetsAtBytes(t, tokens, matchLocations);
            var idx := SomeIndices(FollowingTokens(t, tokens, bytes), 0);
            |out| == |idx|
            && (forall k :: 0 <= k < |idx| ==>
                  idx[k] < |matchLocations|
                  && var i := ScalarIndexAt(Utf16, t, matchLocations[idx[k]]).value;
                     var first := FirstDocumentable(t, tokens, Offset(Utf8, t, i));
                     first.Some? && out[k] == tokens[first.value].offset && out[k] >= Offset(Utf8, t, i))
  {
    var bytes := seq(|matchLocations|, k requires 0 <= k < |matchLocations| => ByteLocation(t, matchLocations[k]));
    FollowingTokensChosen(t, tokens, bytes);
  }

  /** In "€€ x\n///\ny" the comment "///\n" sits at UTF-16 location 5 but at
      byte 9; the identifier `x`, before the comment, is at byte 7. Compared
      with the location, `x` is taken as the documented token; compared with
      the comment's byte offset, `y` (byte 13) is. */
  lemma LocationComparedWithBytes()
    ensures var t := "€€ x\n///\ny";
            var tokens := [SyntaxToken(IdentifierKind, 7, 1), SyntaxToken(IdentifierKind, 13, 1)];
            (forall k :: 0 <= k < |tokens| ==> TokenInText(t, tokens[k]))
            && Offset(Utf16, t, 5) == 5 && Offset(Utf8, t, 5) == 9 && Offset(Utf8, t, 3) == 7 && t[3] == 'x'
            && ScalarIndexAt(Utf16, t, 5).Some?
            && DocumentedTokenOffsets(t, tokens, [5]) == [7]
            && DocumentedTokenOffsetsAtBytes(t, tokens, [5]) == [13]
  {
    var t := "€€ x\n///\ny";
    ExampleTextOffsets();
    ScalarIndexAtOffset(Utf16, t, 5);
    ExampleComparisons(t, [SyntaxToken(IdentifierKind, 7, 1), SyntaxToken(IdentifierKind, 13, 1)]);
  }

  /** The two comparisons for any text in which scalar 5 sits at UTF-16
      location 5 and at byte 9, with identifiers at bytes 7 and 13. */
  lemma ExampleComparisons(t: string, tokens: seq<SyntaxToken>)
    requires tokens == [SyntaxToken(IdentifierKind, 7, 1), SyntaxToken(IdentifierKind, 13, 1)]
    requires 5 <= |t| && Offset(Utf16, t, 5) == 5 && Offset(Utf8, t, 5) == 9
    requires ScalarIndexAt(Utf16, t, 5) == Some(5)
    ensures forall k :: 0 <= k < |tokens| ==> TokenInText(t, tokens[k])
    ensures DocumentedTokenOffsets(t, tokens, [5]) == [7]
    ensures DocumentedTokenOffsetsAtBytes(t, tokens, [5]) == [13]
  {
    ExampleTokenOffsets(t, tokens);
    SingleComment(t, tokens, 5);
    SingleComment(t, tokens, 9);
    SingleCommentAtBytes(t, tokens, 5);
    assert ByteLocation(t, 5) == 9;
    assert [7, 13][1..] == [13];
    assert FirstAtLeast([7, 13], 5) == Some(7);
    assert FirstAtLeast([7, 13], 9) == Some(13);
  }

  /** With one comment, the result is the first documentable offset at or
      after it, if any. */
  lemma SingleComment(t: string, tokens: seq<SyntaxToken>, location: int)
    requires forall k :: 0 <= k < |tokens| ==> TokenInText(t, tokens[k])
    ensures var first := FirstAtLeast(DocumentableOffsets(t, tokens), location);
            DocumentedTokenOffsets(t, tokens, [location]) == if first.Some? then [first.value] else []
  {
    var cands := FollowingTokens(t, tokens, [location]);
    assert cands == [FirstAtLeast(DocumentableOffsets(t, tokens), location)];
    assert cands[1..] == [];
  }

  /** With one comment, comparing at bytes is comparing with its byte offset. */
  lemma SingleCommentAtBytes(t: string, tokens: seq<SyntaxToken>, location: int)
    requires forall k :: 0 <= k < |tokens| ==> TokenInText(t, tokens[k])
    requires ScalarIndexAt(Utf16, t, location).Some?
    ensures DocumentedTokenOffsetsAtBytes(t, tokens, [location])
            == DocumentedTokenOffsets(t, tokens, [ByteLocation(t, location)])
  {
    var bytes := seq(1, k requires 0 <= k < 1 => ByteLocation(t, [location][k]));
    assert bytes == [ByteLocation(t, location)];
  }

  lemma ExampleTextOffsets()
    ensures var t := "€€ x\n///\ny";
            Offset(Utf16, t, 5) == 5 && Offset(Utf8, t, 5) == 9 && Offset(Utf8, t, 3) == 7 && t[3] == 'x'
  {
    var t := "€€ x\n///\ny";
    assert t[..3] == "€€ ";
    assert t[..5] == "€€ x\n";
  }

  lemma ExampleTokenOffsets(t: string, tokens: seq<SyntaxToken>)
    requires tokens == [SyntaxToken(IdentifierKind, 7, 1), SyntaxToken(IdentifierKind, 13, 1)]
    ensures forall k :: 0 <= k < |tokens| ==> TokenInText(t, tokens[k])
    ensures DocumentableOffsets(t, tokens) == [7, 13]
  {
    assert IdentifierKind != KeywordKind;
    assert tokens[1..][1..] == [];
  }
}
