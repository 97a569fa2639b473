# SourceKitten text layer, modelled in Dafny

This project models the text layer of SourceKitten's
`String+SourceKitten.swift` and proves properties of that model. The layer
sits between the UTF-8 byte offsets that SourceKit reports and the UTF-16
code-unit indices that Foundation's `NSString` uses. It covers:

- translating ranges between the two coordinate spaces, with the
  byte-offset cache that `NSString` keeps for long texts;
- the line scanners (`lineAndCharacterForCharacterOffset`,
  `lineRangeWithByteRange`, `lines`) and the slices taken by byte range;
- the character-run helpers (`countOfLeadingCharactersInSet`,
  `stringByTrimmingTrailingCharactersInSet`,
  `stringByRemovingCommonLeadingWhitespaceFromLines`);
- what the three extractors do once the regular expression has matched:
  `pragmaMarks`, `isTokenDocumentable` / `documentedTokenOffsets`, and the
  assembly of `commentBody`.

A text is a Dafny `string`, a sequence of Unicode scalars.

- Each scalar takes 1 to 4 UTF-8 bytes (RFC 3629, section 3) and 1 or 2
  UTF-16 code units (RFC 2781, section 2.1).
- A `String.UTF8Index` or `UTF16Index` that lies on a scalar boundary is the
  scalar position it stands at.
- The offset of a position is the encoded length of the prefix before it
  (`UnicodeText.Offset`).
- `samePositionIn` answers nil exactly when the offset is not such a prefix
  length (`UnicodeText.ScalarIndexAt`).
- `advancedBy` past the end of a view traps, so the operations require their
  offsets to lie in the text (`ByteRangeInText`, `UnitRangeInText`).
- The two translations fail with None exactly on misaligned offsets.

The files follow the structure of the source:

| file | module | models |
|---|---|---|
| `wrappers.dfy` | `Wrappers` | `Option`, and the "keep the present values" step of Swift's `flatMap` |
| `unicode_text.dfy` | `UnicodeText` | encodings, offsets, `samePositionIn` |
| `byte_offset_cache.dfy` | `OffsetCache` | the `ByteOffsetCache` class and its growing `cache` map |
| `range_translation.dfy` | `RangeTranslation` | `byteRangeToNSRange` and `NSRangeToByteRange`, substrings, and the `SourceText` class that owns the associated cache |
| `lines.dfy` | `Lines` | line starts and ends, line numbers, the two scanning loops, `lines()`, `substringLinesWithByteRange` |
| `character_runs.dfy` | `CharacterRuns` | the character sets, leading and trailing runs, two-sided trimming |
| `common_indent.dfy` | `CommonIndent` | `stringByRemovingCommonLeadingWhitespaceFromLines` |
| `comment_body.dfy` | `CommentBody` | the part-building and assembly of `commentBody` |
| `pragma_marks.dfy` | `PragmaMarks` | `pragmaMarks` after matching |
| `documented_tokens.dfy` | `DocumentedTokens` | `isTokenDocumentable`, `documentedTokenOffsets` |

Imperative code stays imperative:

- The cache is a class whose method adds to its map.
- The scanners, the counting loop, the backward walk over a character
  buffer, `lines()` and the two passes of the common-indent removal are
  methods with loops.
- Each is proved equal to a function, and the source's promises are lemmas
  about that function.
- The expression-only operations and the `filter` / `map` / `flatMap`
  compositions are functions.

The source force-unwraps `lineRangeWithByteRange` when it places a pragma
mark (line 300). The model proves that this lookup cannot fail there: a mark
with a non-empty name starts before the end of the text
(`PragmaMarks.MarkLineFound`).

Some behaviours of the code are easy to miss. The model states each one:

- An offset beyond the text makes `byteRangeToNSRange` and
  `NSRangeToByteRange` trap in `advancedBy` (lines 135-136 and 162-163).
  They do not return nil. The model states this as a precondition.
- `commentBody` returns `Some("")`, not nil, when some pattern yields parts
  that trim to nothing (lines 388-392). `CommentBody.ByteStartLosesBody`
  shows one such input.
- Removing the common leading whitespace is not idempotent
  (`CommonIndent.RemovalNotIdempotent`).
  - Removing it from "*\n *x" gives "\n*x".
  - The first line of "\n*x" is now blank, so a second removal also strips
    the asterisk that remains, giving "\nx".
- Removing the common leading whitespace can lose a line
  (`CommonIndent.RemovalDropsEmptiedLastLine`).
  - "  x\n  " has two lines. The result "x\n" has one, because a trailing
    '\n' starts no line when the lines are enumerated.
  - `CommonIndent.RemovalKeepsLines` shows that the line count is kept
    whenever the last stripped line is not empty.
- `lineRangeWithByteRange` returns nil whenever the range reaches the end of
  the text (lines 223-233). The scan runs out before any line starts beyond
  the range end (`Lines.ByteRangeLines`).

## Model

Every source cell refers to `Source/SourceKittenFramework/String+SourceKitten.swift`.

| member | source | states |
|---|---|---|
| UnicodeText.ScalarIndexAt | Source/SourceKittenFramework/String+SourceKitten.swift:139-140 | `samePositionIn`: a found position has exactly the given encoded offset; None only when no scalar position of the text has that offset |
| UnicodeText.ScalarIndexAtBoundary | Source/SourceKittenFramework/String+SourceKitten.swift:139-140 | the lookup succeeds if and only if the offset is a scalar boundary |
| UnicodeText.ScalarIndexAtOffset | Source/SourceKittenFramework/String+SourceKitten.swift:166-167 | looking up the offset of any position gives that position back |
| UnicodeText.SpansUnique | Source/SourceKittenFramework/String+SourceKitten.swift:144-145 | two offsets name at most one pair of scalar positions, so distances between indices are well defined |
| OffsetCache.ByteOffsetCache.constructor | Source/SourceKittenFramework/String+SourceKitten.swift:39-41 | a new cache holds the text's UTF-8 view and no entries, and is valid |
| OffsetCache.ByteOffsetCache.NearestLocationBelow | Source/SourceKittenFramework/String+SourceKitten.swift:48 | the result is a cached key below `location` and no smaller than any other such key; None only when every key is at or above `location` |
| OffsetCache.ByteOffsetCache.ByteOffsetFromLocation | Source/SourceKittenFramework/String+SourceKitten.swift:43-61 | a hit returns the stored offset and leaves the map unchanged; a miss adds exactly the entry for `location`; either way the map stays valid and the result is the UTF-8 length of the prefix, as the direct count at line 180 computes |
| RangeTranslation.SourceText.constructor | Source/SourceKittenFramework/String+SourceKitten.swift:67-75 | a text starts with no associated cache |
| RangeTranslation.SourceText.GetByteOffsetCache | Source/SourceKittenFramework/String+SourceKitten.swift:67-75 | returns the associated cache if there is one; otherwise creates an empty one for the text and associates it |
| RangeTranslation.SourceText.NSRangeToByteRange | Source/SourceKittenFramework/String+SourceKitten.swift:158-187 | on both sides of the 50-unit threshold the result equals `UnitRangeToByteRange`, so the cached and direct branches agree; a short text or a misaligned range leaves the cache as it was, and a short text never gets one; above the threshold the existing cache, or a fresh one, gains the entry for `start` if it lacked it and keeps every other entry; the cache stays valid |
| RangeTranslation.ByteRangeToNSRange | Source/SourceKittenFramework/String+SourceKitten.swift:133-147 | None exactly when the start or end byte offset is not a scalar boundary; otherwise the location is the UTF-16 length of the prefix and the length is the UTF-16 length of the covered scalars |
| RangeTranslation.UnitRangeToByteRange | Source/SourceKittenFramework/String+SourceKitten.swift:158-187 | None exactly when an end is not a scalar boundary; otherwise the byte offset of the first covered scalar and the UTF-8 length of the covered scalars |
| RangeTranslation.ByteRangeRoundTrip | Source/SourceKittenFramework/String+SourceKitten.swift:133-187 | an aligned byte range, translated to UTF-16 and back, is returned unchanged |
| RangeTranslation.UnitRangeRoundTrip | Source/SourceKittenFramework/String+SourceKitten.swift:133-187 | an aligned UTF-16 range, translated to bytes and back, is returned unchanged |
| RangeTranslation.SubstringWithRange | Source/SourceKittenFramework/String+SourceKitten.swift:196 | `substringWithRange` of an aligned range is the scalars between its ends, and its UTF-16 length is the range length |
| RangeTranslation.SubstringWithByteRange | Source/SourceKittenFramework/String+SourceKitten.swift:195-197 | None exactly on misaligned ends; otherwise the scalars the bytes encode, which take up exactly `length` bytes |
| Lines.NextLineStart | Source/SourceKittenFramework/String+SourceKitten.swift:87 | `NSMaxRange(lineRangeForRange(...))` at a position: just past the first '\n' at or after it, or the end of the text; no '\n' lies in between |
| Lines.LineStartsExactly | Source/SourceKittenFramework/String+SourceKitten.swift:87 | the positions the scanners step through are exactly the text start and the positions after a '\n', excluding the end of the text |
| Lines.LineAndCharacterForCharacterOffset | Source/SourceKittenFramework/String+SourceKitten.swift:77-90 | the line is the number of line starts at or before `offset`; the column is `offset` minus the start of that line, plus 1 |
| Lines.LineNumberWithinLine | Source/SourceKittenFramework/String+SourceKitten.swift:77-90 | a location inside the text lies on a line from 1 to the number of lines, at or after that line's start and before the next one's |
| Lines.LineRangeOfRange | Source/SourceKittenFramework/String+SourceKitten.swift:222-233 | the scanning loop returns the line numbers of the range start and the range end, or None when the range reaches the end of the text |
| Lines.LineRangeWithByteRange | Source/SourceKittenFramework/String+SourceKitten.swift:220-235 | the lines of the translated range, or None when the translation fails |
| Lines.LinesOfRange | Source/SourceKittenFramework/String+SourceKitten.swift:222-233 | the scan's result for a UTF-16 range: a returned span of a proper range satisfies 1 <= start <= end |
| Lines.ByteRangeLines | Source/SourceKittenFramework/String+SourceKitten.swift:220-235 | None exactly when an end of the byte range splits a scalar or the range reaches the end of the text; otherwise a span with 1 <= start <= end |
| Lines.LineNumberMonotone | Source/SourceKittenFramework/String+SourceKitten.swift:225-230 | later locations lie on the same or later lines |
| Lines.LineRangeFor | Source/SourceKittenFramework/String+SourceKitten.swift:209 | `getLineStart`: an aligned range that runs from the start of the first touched line to the end of the last, terminator included |
| Lines.SubstringLinesWithByteRange | Source/SourceKittenFramework/String+SourceKitten.swift:206-212 | None exactly on misaligned ends; otherwise the whole lines around the covered scalars |
| Lines.SubstringLinesContainsRange | Source/SourceKittenFramework/String+SourceKitten.swift:199-212 | the widened slice is the rest of the first line, then the covered scalars, then the rest of the last line; the part before the scalars holds no '\n' |
| Lines.LineContents | Source/SourceKittenFramework/String+SourceKitten.swift:243 | `enumerateLines`: no more lines than characters, and no lines exactly for the empty text |
| Lines.Lines | Source/SourceKittenFramework/String+SourceKitten.swift:240-247 | one entry per line of the text, in order, numbered from 1, holding the line's contents |
| Lines.LineContentsNoNewline | Source/SourceKittenFramework/String+SourceKitten.swift:243 | no enumerated line holds a terminator |
| Lines.LinesReassemble | Source/SourceKittenFramework/String+SourceKitten.swift:243 | joining the enumerated lines with '\n' gives back the text, up to a final '\n' |
| Lines.SplitJoin | Source/SourceKittenFramework/String+SourceKitten.swift:418 | joining lines that hold no '\n' and enumerating the result gives the same lines back, when the last line is not empty |
| CharacterRuns.LeadingRun | Source/SourceKittenFramework/String+SourceKitten.swift:426-436 | the longest prefix in the set: all its characters are in the set, and the next one, if any, is not |
| CharacterRuns.CountOfLeadingCharactersInSet | Source/SourceKittenFramework/String+SourceKitten.swift:426-436 | the counting loop returns the length of the longest in-set prefix |
| CharacterRuns.TrimTrailing | Source/SourceKittenFramework/String+SourceKitten.swift:98-110 | a prefix of the input; everything cut off is in the set, and the last character kept is not |
| CharacterRuns.TrimTrailingUnique | Source/SourceKittenFramework/String+SourceKitten.swift:104-107 | a prefix that ends at a non-member and is followed only by members is the trimmed string |
| CharacterRuns.StringByTrimmingTrailingCharactersInSet | Source/SourceKittenFramework/String+SourceKitten.swift:98-110 | the backward walk over the character buffer returns the input without its longest in-set suffix: "" when every character is in the set, and an empty input unchanged |
| CharacterRuns.Trim | Source/SourceKittenFramework/String+SourceKitten.swift:291-292 | the input without its longest in-set prefix and then its longest in-set suffix; what is kept neither starts nor ends with a member |
| CharacterRuns.TrimEmpty | Source/SourceKittenFramework/String+SourceKitten.swift:293 | trimming leaves nothing if and only if every character is in the set |
| CommonIndent.MinLeadingIsLeast | Source/SourceKittenFramework/String+SourceKitten.swift:400-409 | the minimum is None if and only if every line is blank; otherwise it is the comment-prefix count of some non-blank line and no larger than that of any non-blank line |
| CommonIndent.RemoveCommonLeadingWhitespace | Source/SourceKittenFramework/String+SourceKitten.swift:399-419 | the lines, each stripped of the common prefix when long enough, joined with '\n'; never longer than the input |
| CommonIndent.StringByRemovingCommonLeadingWhitespaceFromLines | Source/SourceKittenFramework/String+SourceKitten.swift:399-419 | the two passes return the lines, each stripped of the common prefix when it is long enough, joined with '\n' |
| CommonIndent.StripLineRemovesPrefix | Source/SourceKittenFramework/String+SourceKitten.swift:412-416 | a line loses exactly `min` characters when it is at least that long, and nothing otherwise; what it loses are comment-prefix characters |
| CommonIndent.StrippedLines | Source/SourceKittenFramework/String+SourceKitten.swift:399-419 | line `k` of the result is line `k` of the input minus exactly `min` leading comment-prefix characters, or unchanged when shorter; nothing is stripped when every line is blank |
| CommonIndent.RemovalKeepsLines | Source/SourceKittenFramework/String+SourceKitten.swift:399-419 | the result has as many lines as the input, and they are the stripped lines, unless the last stripped line is empty |
| CommonIndent.RemovalNotIdempotent | Source/SourceKittenFramework/String+SourceKitten.swift:399-419 | applying the removal twice to "*\n *x" strips more than applying it once |
| CommonIndent.RemovalDropsEmptiedLastLine | Source/SourceKittenFramework/String+SourceKitten.swift:410-418 | "  x\n  " has two lines; the removal gives "x\n", which has one |
| CommentBody.Contains | Source/SourceKittenFramework/String+SourceKitten.swift:382 | `containsString`: true if and only if the substring occurs at some position |
| CommentBody.Spaces | Source/SourceKittenFramework/String+SourceKitten.swift:379 | `n` spaces |
| CommentBody.UnitPart | Source/SourceKittenFramework/String+SourceKitten.swift:368-385 | the part of a capture whose line is looked up by its UTF-16 location: "" for `@name`, otherwise one space per leading whitespace character of the capture's line, then the capture |
| CommentBody.BytePart | Source/SourceKittenFramework/String+SourceKitten.swift:368-385 | the part as written: "" when the capture's UTF-16 location, read as a byte offset, splits a scalar; otherwise the indentation is that of the line holding the scalar at that byte offset |
| CommentBody.BodyParts | Source/SourceKittenFramework/String+SourceKitten.swift:362-387 | the parts of every match in match order; a pattern yields no parts if and only if none of its matches has a capture group |
| CommentBody.CommentPart | Source/SourceKittenFramework/String+SourceKitten.swift:368-385 | "" for a capture that took no part and for one holding `@name`; any other part is the captured text behind spaces only |
| CommentBody.Assemble | Source/SourceKittenFramework/String+SourceKitten.swift:388-392 | the parts joined with newlines, trailing-trimmed and de-indented; never longer than the joined parts |
| CommentBody.FirstNonEmpty | Source/SourceKittenFramework/String+SourceKitten.swift:359-394 | the first pattern with parts; every pattern before it has none |
| CommentBody.CommentBodyOf | Source/SourceKittenFramework/String+SourceKitten.swift:352-396 | None if and only if no pattern yields a part; otherwise the parts of the first pattern that has any, joined, trimmed and stripped of their common prefix |
| CommentBody.UnitStartKeepsBody | Source/SourceKittenFramework/String+SourceKitten.swift:372-385 | looked up by location, a capture keeps all its scalars, behind exactly one space per whitespace character that starts its own line |
| CommentBody.ByteStartLosesBody | Source/SourceKittenFramework/String+SourceKitten.swift:374-376 | for "€€€\n///x", the lookup as written gives the body "" and the lookup by location gives "x" |
| PragmaMarks.PragmaSearchRange | Source/SourceKittenFramework/String+SourceKitten.swift:276-281 | the whole text without a limit; otherwise the limit's location, with its length cut to `min(utf16.count - location, length)` |
| PragmaMarks.IntersectionLength | Source/SourceKittenFramework/String+SourceKitten.swift:287 | `NSIntersectionRange(a, b).length`: never negative, and positive if and only if some position lies in both ranges |
| PragmaMarks.AnyIntersects | Source/SourceKittenFramework/String+SourceKitten.swift:286-290 | true if and only if some excluded range has a positive intersection with the capture |
| PragmaMarks.MarkFrom | Source/SourceKittenFramework/String+SourceKitten.swift:285-303 | a mark is produced if and only if the capture meets no excluded range and its whitespace-trimmed text is non-empty; that mark is named by the trimmed capture, at column 1 of the capture's line and at its byte offset, with extent (location, location) |
| PragmaMarks.PragmaMarks | Source/SourceKittenFramework/String+SourceKitten.swift:274-305 | `pragmaMarks` given the ordered capture ranges: at most one mark per match |
| PragmaMarks.PragmaMarksFiltered | Source/SourceKittenFramework/String+SourceKitten.swift:284-304 | the marks come in match order, one per match that passes the filters; each is a proper mark: no excluded intersection, a non-empty name with no whitespace at either end, column 1, extent at its location |
| DocumentedTokens.IsTokenDocumentable | Source/SourceKittenFramework/String+SourceKitten.swift:317-324 | a keyword is documentable exactly when its bytes fall on scalar boundaries and spell `subscript`, `init` or `deinit`; any other token exactly when it is an identifier |
| DocumentedTokens.FirstDocumentableFrom | Source/SourceKittenFramework/String+SourceKitten.swift:343 | the first documentable token at or after `location`; every documentable token before it lies below `location`; None when every documentable token does |
| DocumentedTokens.FirstAtLeastDocumentable | Source/SourceKittenFramework/String+SourceKitten.swift:334-343 | the first of the filtered offsets at or above `location` is the offset of the first documentable token at or above it |
| DocumentedTokens.DocumentedTokenOffsets | Source/SourceKittenFramework/String+SourceKitten.swift:333-345 | `documentedTokenOffsets` as written, comparing UTF-16 locations with byte offsets: at most one offset per match |
| DocumentedTokens.FollowingTokensChosen | Source/SourceKittenFramework/String+SourceKitten.swift:342-344 | at most one offset per match, in match order: the offset of the first documentable token at or after the match's location; a match without such a token contributes nothing |
| DocumentedTokens.DocumentedTokenOffsetsAtBytes | Source/SourceKittenFramework/String+SourceKitten.swift:333-345 | the corrected comparison at the comment's byte offset: at most one offset per match |
| DocumentedTokens.AtBytesFollowComment | Source/SourceKittenFramework/String+SourceKitten.swift:342-344 | compared at the comment's byte offset, each emitted offset is that of the first documentable token starting at or after the comment, in bytes |
| DocumentedTokens.LocationComparedWithBytes | Source/SourceKittenFramework/String+SourceKitten.swift:343 | for "€€ x\n///\ny", comparing the UTF-16 location reports the identifier before the comment (byte 7); comparing bytes reports the one after it (byte 13) |
| Wrappers.FilterSomeAt | Source/SourceKittenFramework/String+SourceKitten.swift:284 | `flatMap` with an optional result keeps exactly the present values, in order, one for each present entry |

## Left out

- `absolutePathRepresentation` (lines 117-122), `isObjectiveCHeaderFile` and `isSwiftFile` (lines 252-261) are not modelled. They depend on the file system, the current directory and Foundation's path handling.
- `substringWithSourceRange` (lines 266-268) is not modelled. It is a one-line call of `substringWithByteRange` with the offsets of two `SourceLocation`s.
- `stringByTrimmingWhitespaceAndOpeningCurlyBrace` (lines 439-443) is not modelled. It is a one-line wrapper over Foundation's two-sided trimming, which `CharacterRuns.Trim` models.
- The Objective-C associated-object calls (lines 67-75) are replaced by the `associatedCache` field of `RangeTranslation.SourceText`.
- Regular-expression compilation and matching (lines 275, 282, 338-340, 355-361) are not modelled. The model takes the ordered match ranges as inputs, and their capture groups where it needs them. It assumes that every range lies on scalar boundaries (`MatchesAligned`, `UnitRangeAligned`).
- Because matching is an input, the limit range of `pragmaMarks` and the `range` argument of `commentBody` only select the matches. `PragmaMarks.PragmaSearchRange` models the clamping. The model does not relate the matches to the search range.
- Lines end only at '\n'. Foundation also ends lines at CR, CR LF, U+2028 and U+2029 in `lineRangeForRange`, `getLineStart` and `enumerateLines`.
- The character sets follow Foundation's documentation: general category Zs and tab, plus U+000A to U+000D, U+0085, U+2028 and U+2029 for newlines. Foundation's exact tables are not modelled.
- Characters are Unicode scalars. `countOfLeadingCharactersInSet` and `stringByTrimmingTrailingCharactersInSet` test UTF-16 code units, and `line.characters.count` counts grapheme clusters. These agree with the model for text without surrogate pairs or combining sequences.
- `CommonIndent.MinLeading`: the `Int.max` starting value is modelled as `None`. It survives only when every line is blank, and then it strips nothing.
- `PragmaMarks.MarkFrom` translates the mark range with the pure `UnitRangeToByteRange`, not with the caching `SourceText.NSRangeToByteRange`. It therefore does not model the cache entries that a long text gains along the way. `RangeTranslation.SourceText.NSRangeToByteRange` proves that the result is the same.
- The `UInt32` casts of the line and the offset (lines 300-301) are not modelled; the values stay unbounded integers.
- `SourceDeclaration`, `SourceLocation`, `SyntaxToken` and `SyntaxMap` are minimal records holding only the fields used here. Only `usr`, `declaration`, `documentation`, `commentBody` and `children` are left out of the mark.
- The raw values of the syntax kinds come from SyntaxKind.swift, which is not part of this model. The model uses the strings SourceKit reports for the keyword and identifier kinds.
- `Lines.LineAndCharacterForCharacterOffset`: the source returns an optional that is never nil, so the model returns the pair directly.

## Findings

| source | as written | input that shows it | evidently intended | confidence | as-written member | corrected member |
|---|---|---|---|---|---|---|
| Source/SourceKittenFramework/String+SourceKitten.swift:374 | The UTF-16 location of a capture is passed to `byteRangeToNSRange` as a byte offset, to find the capture's line. | Take "€€€\n///x" with the capture "x" at UTF-16 location 7. Byte 7 lies inside the third '€', so the lookup fails. The part becomes "" and the comment body comes out as "". | Find the line of the capture by its UTF-16 location. The capture is then kept, indented like its line. | not executed | CommentBody.ByteStartLosesBody | CommentBody.UnitStartKeepsBody |
| Source/SourceKittenFramework/String+SourceKitten.swift:343 | The UTF-16 location of each documentation comment is compared with the tokens' UTF-8 byte offsets. | Take "€€ x\n///\ny" with identifiers at bytes 7 (`x`) and 13 (`y`). The comment starts at UTF-16 location 5, which is byte 9. As written, `x`, which comes before the comment, is reported as documented. | Compare the comment's byte offset, so that `y`, the token after the comment, is reported. | not executed | DocumentedTokens.LocationComparedWithBytes | DocumentedTokens.AtBytesFollowComment |
