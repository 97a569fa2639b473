/** Translation of ranges between UTF-8 byte offsets and UTF-16 code-unit
    offsets, substrings by either kind of range, and the text object that
    owns the byte-offset cache. */
module RangeTranslation {
  import opened Wrappers
  import opened UnicodeText
  import opened OffsetCache

  /** Foundation's `NSRange`; also used for byte ranges, as the source does. */
  datatype NSRange = NSRange(location: int, length: int)

  function NSMaxRange(r: NSRange): int
  {
    r.location + r.length
  }

  /** Texts of at most this many UTF-16 units translate without the cache. */
  const CacheThreshold: int := 50

  /** `start` and `start + length` are byte positions within the text
      (advancing a UTF-8 index beyond its end traps). */
  predicate ByteRangeInText(t: string, start: int, length: int)
  {
    0 <= start && 0 <= length && start + length <= ByteCount(t)
  }

  /** Same, for UTF-16 positions. */
  predicate UnitRangeInText(t: string, start: int, length: int)
  {
    0 <= start && 0 <= length && start + length <= UnitCount(t)
  }

  /** `r` lies in the text and both of its ends fall on scalar boundaries. */
  predicate UnitRangeAligned(t: string, r: NSRange)
  {
    UnitRangeInText(t, r.location, r.length)
    && ScalarIndexAt(Utf16, t, r.location).Some?
    && ScalarIndexAt(Utf16, t, NSMaxRange(r)).Some?
  }

  /** `byteRangeToNSRange`: the UTF-16 range covering bytes
      [start, start + length), or None when an end splits a scalar. */
  function ByteRangeToNSRange(t: string, start: int, length: int): (r: Option<NSRange>)
    requires ByteRangeInText(t, start, length)
    ensures r.None? <==> !(IsBoundary(Utf8, t, start) && IsBoundary(Utf8, t, start + length))
    ensures forall i: nat, j: nat :: Spans(Utf8, t, i, j, start, start + length) ==>
              r == Some(NSRange(Offset(Utf16, t, i), EncodedLength(Utf16, t[i..j])))
    ensures r.Some? ==> UnitRangeInText(t, r.value.location, r.value.length)
  {
    ScalarIndexAtBoundary(Utf8, t, start);
    ScalarIndexAtBoundary(Utf8, t, start + length);
    var first, last := ScalarIndexAt(Utf8, t, start), ScalarIndexAt(Utf8, t, start + length);
    if first.Some? && last.Some? then
      SpansFound(Utf8, Utf16, t, first.value, last.value, start, start + length);
      var location := Offset(Utf16, t, first.value);
      Some(NSRange(location, Offset(Utf16, t, last.value) - location))
    else
      SpansNone(Utf8, t, start, start + length);
      None
  }

  /** What `NSRangeToByteRange` computes when it counts bytes from the text
      start (the branch for short texts): the byte range covering UTF-16 units
      [start, start + length), or None when an end splits a surrogate pair. */
  function UnitRangeToByteRange(t: string, start: int, length: int): (r: Option<NSRange>)
    requires UnitRangeInText(t, start, length)
    ensures r.None? <==> !(IsBoundary(Utf16, t, start) && IsBoundary(Utf16, t, start + length))
    ensures forall i: nat, j: nat :: Spans(Utf16, t, i, j, start, start + length) ==>
              r == Some(NSRange(Offset(Utf8, t, i), EncodedLength(Utf8, t[i..j])))
    ensures r.Some? ==> ByteRangeInText(t, r.value.location, r.value.length)
  {
    ScalarIndexAtBoundary(Utf16, t, start);
    ScalarIndexAtBoundary(Utf16, t, start + length);
    var first, last := ScalarIndexAt(Utf16, t, start), ScalarIndexAt(Utf16, t, start + length);
    if first.Some? && last.Some? then
      SpansFound(Utf16, Utf8, t, first.value, last.value, start, start + length);
      Some(NSRange(Offset(Utf8, t, first.value), EncodedLength(Utf8, t[first.value..last.value])))
    else
      SpansNone(Utf16, t, start, start + length);
      None
  }

  /** Translating an aligned byte range to UTF-16 and back gives it back. */
  lemma ByteRangeRoundTrip(t: string, start: int, length: int)
    requires ByteRangeInText(t, start, length)
    requires IsBoundary(Utf8, t, start) && IsBoundary(Utf8, t, start + length)
    ensures ByteRangeToNSRange(t, start, length).Some?
    ensures var r := ByteRangeToNSRange(t, start, length).value;
            UnitRangeInText(t, r.location, r.length)
            && UnitRangeToByteRange(t, r.location, r.length) == Some(NSRange(start, length))
  {
    var i, j := SpansExist(Utf8, t, start, start + length);
    ByteToUnitAt(t, i, j);
    UnitToByteAt(t, i, j);
    assert NSRange(Offset(Utf8, t, i), Offset(Utf8, t, j) - Offset(Utf8, t, i)) == NSRange(start, length);
  }

  /** Translating an aligned UTF-16 range to bytes and back gives it back. */
  lemma UnitRangeRoundTrip(t: string, start: int, length: int)
    requires UnitRangeInText(t, start, length)
    requires IsBoundary(Utf16, t, start) && IsBoundary(Utf16, t, start + length)
    ensures UnitRangeToByteRange(t, start, length).Some?
    ensures var r := UnitRangeToByteRange(t, start, length).value;
            ByteRangeInText(t, r.location, r.length)
            && ByteRangeToNSRange(t, r.location, r.length) == Some(NSRange(start, length))
  {
    var i, j := SpansExist(Utf16, t, start, start + length);
    ByteToUnitAt(t, i, j);
    UnitToByteAt(t, i, j);
    assert NSRange(Offset(Utf16, t, i), Offset(Utf16, t, j) - Offset(Utf16, t, i)) == NSRange(start, length);
  }

  /** The byte range between two scalar positions translates to the UTF-16
      range between them. */
  lemma ByteToUnitAt(t: string, i: nat, j: nat)
    requires i <= j <= |t|
    ensures ByteRangeInText(t, Offset(Utf8, t, i), Offset(Utf8, t, j) - Offset(Utf8, t, i))
    ensures ByteRangeToNSRange(t, Offset(Utf8, t, i), Offset(Utf8, t, j) - Offset(Utf8, t, i))
            == Some(NSRange(Offset(Utf16, t, i), Offset(Utf16, t, j) - Offset(Utf16, t, i)))
  {
    OffsetSplit(Utf16, t, i, j);
    OffsetOrder(Utf8, t, i, j);
    OffsetBelowLength(Utf8, t, j);
    assert Spans(Utf8, t, i, j, Offset(Utf8, t, i), Offset(Utf8, t, j));
  }

  /** The UTF-16 range between two scalar positions translates to the byte
      range between them. */
  lemma UnitToByteAt(t: string, i: nat, j: nat)
    requires i <= j <= |t|
    ensures UnitRangeInText(t, Offset(Utf16, t, i), Offset(Utf16, t, j) - Offset(Utf16, t, i))
    ensures UnitRangeToByteRange(t, Offset(Utf16, t, i), Offset(Utf16, t, j) - Offset(Utf16, t, i))
            == Some(NSRange(Offset(Utf8, t, i), Offset(Utf8, t, j) - Offset(Utf8, t, i)))
  {
    OffsetSplit(Utf8, t, i, j);
    OffsetOrder(Utf16, t, i, j);
    OffsetBelowLength(Utf16, t, j);
    assert Spans(Utf16, t, i, j, Offset(Utf16, t, i), Offset(Utf16, t, j));
  }

  /** `substringWithRange` for a range on scalar boundaries: the scalars it covers. */
  function SubstringWithRange(t: string, r: NSRange): (s: string)
    requires UnitRangeAligned(t, r)
    ensures UnitCount(s) == r.length
    ensures forall i: nat, j: nat :: Spans(Utf16, t, i, j, r.location, NSMaxRange(r)) ==> s == t[i..j]
  {
    var i := ScalarIndexAt(Utf16, t, r.location).value;
    var j := ScalarIndexAt(Utf16, t, NSMaxRange(r)).value;
    OffsetOrder(Utf16, t, i, j);
    OffsetSplit(Utf16, t, i, j);
    SpansUnique(Utf16, t, i, j, r.location, NSMaxRange(r));
    t[i..j]
  }

  /** The range `ByteRangeToNSRange` returns is aligned, so it can be sliced. */
  lemma ByteRangeToNSRangeAligned(t: string, start: int, length: int)
    requires ByteRangeInText(t, start, length)
    requires ByteRangeToNSRange(t, start, length).Some?
    ensures UnitRangeAligned(t, ByteRangeToNSRange(t, start, length).value)
  {
    var i, j := SpansExist(Utf8, t, start, start + length);
    OffsetSplit(Utf16, t, i, j);
    OffsetBelowLength(Utf16, t, j);
    ScalarIndexAtOffset(Utf16, t, i);
    ScalarIndexAtOffset(Utf16, t, j);
  }

  /** `substringWithByteRange`: the scalars that bytes [start, start + length)
      encode, or None when an end splits a scalar. */
  function SubstringWithByteRange(t: string, start: int, length: int): (s: Option<string>)
    requires ByteRangeInText(t, start, length)
    ensures s.None? <==> !(IsBoundary(Utf8, t, start) && IsBoundary(Utf8, t, start + length))
    ensures forall i: nat, j: nat :: Spans(Utf8, t, i, j, start, start + length) ==>
              s == Some(t[i..j]) && ByteCount(t[i..j]) == length
  {
    match ByteRangeToNSRange(t, start, length)
    case None => None
    case Some(r) =>
      ByteRangeToNSRangeAligned(t, start, length);
      forall i: nat, j: nat | Spans(Utf8, t, i, j, start, start + length)
        ensures SubstringWithRange(t, r) == t[i..j] && ByteCount(t[i..j]) == length
      {
        SliceOfByteSpan(t, start, length, i, j);
      }
      Some(SubstringWithRange(t, r))
  }

  /** The UTF-16 translation of a byte range covers the scalars the byte
      range spans, and those take up exactly its bytes. */
  lemma SliceOfByteSpan(t: string, start: int, length: int, i: nat, j: nat)
    requires ByteRangeInText(t, start, length) && Spans(Utf8, t, i, j, start, start + length)
    ensures ByteRangeToNSRange(t, start, length).Some?
    ensures UnitRangeAligned(t, ByteRangeToNSRange(t, start, length).value)
    ensures SubstringWithRange(t, ByteRangeToNSRange(t, start, length).value) == t[i..j]
    ensures ByteCount(t[i..j]) == length
  {
    ByteToUnitAt(t, i, j);
    OffsetSplit(Utf8, t, i, j);
    var r := NSRange(Offset(Utf16, t, i), Offset(Utf16, t, j) - Offset(Utf16, t, i));
    ScalarIndexAtOffset(Utf16, t, i);
    ScalarIndexAtOffset(Utf16, t, j);
    assert Spans(Utf16, t, i, j, r.location, NSMaxRange(r));
  }

  /** An `NSString` together with the byte-offset cache associated with it,
      which is created on first use. */
  class SourceText {
    const text: string
    var associatedCache: ByteOffsetCache?

    ghost predicate Valid()
      reads this, associatedCache
    {
      associatedCache != null ==> associatedCache.utf8View == text && associatedCache.Valid()
    }

    constructor (s: string)
      ensures text == s && associatedCache == null && Valid()
    {
      text := s;
      associatedCache := null;
    }

    /** The associated cache, created empty the first time it is asked for. */
    method GetByteOffsetCache() returns (c: ByteOffsetCache)
      requires Valid()
      modifies this
      ensures Valid() && associatedCache == c && c.utf8View == text
      ensures old(associatedCache) != null ==> c == old(associatedCache)
      ensures old(associatedCache) == null ==> fresh(c) && c.cache == map[]
    {
      if associatedCache == null {
        c := new ByteOffsetCache(text);
        associatedCache := c;
      } else {
        c := associatedCache;
      }
    }

    /** `NSRangeToByteRange`. Texts longer than the threshold take the start
        offset from the cache; the result is the same either way. A short
        text, or a misaligned range, leaves the cache as it was (a short text
        never gets one); otherwise the cache, created if need be, gains the
        entry for `start` if it lacked it and keeps every other entry. */
    method NSRangeToByteRange(start: int, length: int) returns (r: Option<NSRange>)
      requires Valid() && UnitRangeInText(text, start, length)
      modifies this, associatedCache
      ensures Valid()
      ensures r == UnitRangeToByteRange(text, start, length)
      ensures UnitCount(text) <= CacheThreshold || r.None? ==>
                associatedCache == old(associatedCache)
                && (associatedCache != null ==> associatedCache.cache == old(associatedCache.cache))
      ensures UnitCount(text) > CacheThreshold && r.Some? ==>
                var pair := ByteOffsetIndexPair(r.value.location, ScalarIndexAt(Utf16, text, start).value);
                associatedCache != null && start in associatedCache.cache
                && (old(associatedCache) == null ==>
                      fresh(associatedCache) && associatedCache.cache == map[start := pair])
                && (old(associatedCache) != null ==>
                      associatedCache == old(associatedCache)
                      && associatedCache.cache == (if start in old(associatedCache.cache)
                                                   then old(associatedCache.cache)
                                                   else old(associatedCache.cache)[start := pair]))
    {
      var startIndex := ScalarIndexAt(Utf16, text, start);
      var endIndex := ScalarIndexAt(Utf16, text, start + length);
      if startIndex.None? || endIndex.None? {
        return None;
      }
      var i, j := startIndex.value, endIndex.value;
      OffsetOrder(Utf16, text, i, j);
      OffsetSplit(Utf8, text, i, j);
      var byteOffset: int;
      if UnitCount(text) > CacheThreshold {
        var cache := GetByteOffsetCache();
        byteOffset := cache.ByteOffsetFromLocation(start, i);
      } else {
        byteOffset := Offset(Utf8, text, i);
      }
      r := Some(NSRange(byteOffset, EncodedLength(Utf8, text[i..j])));
    }
  }
}
