/** The memo table from UTF-16 locations to UTF-8 byte offsets that a text
    keeps so that repeated translations, issued in roughly increasing order,
    scan only from the nearest location already seen. */
module OffsetCache {
  import opened Wrappers
  import opened UnicodeText

  /** A cached byte offset together with the scalar position it was measured at. */
  datatype ByteOffsetIndexPair = ByteOffsetIndexPair(byteOffset: int, index: nat)

  /** `pair` is correct for `location` in `t`: its position has UTF-16 offset
      `location` and its byte offset is the UTF-8 length of the prefix before it. */
  predicate Consistent(t: string, location: int, pair: ByteOffsetIndexPair)
  {
    pair.index <= |t| && Offset(Utf16, t, pair.index) == location
    && pair.byteOffset == Offset(Utf8, t, pair.index)
  }

  class ByteOffsetCache {
    var cache: map<int, ByteOffsetIndexPair>
    const utf8View: string

    /** Every entry is correct; entries are only ever added. */
    ghost predicate Valid()
      reads this
    {
      forall location :: location in cache ==> Consistent(utf8View, location, cache[location])
    }

    constructor (s: string)
      ensures utf8View == s && cache == map[] && Valid()
    {
      utf8View := s;
      cache := map[];
    }

    /** The greatest cached location strictly below `location`, if any.
        Cached locations are UTF-16 offsets, hence non-negative, so walking
        down from `location - 1` meets the same key that filtering the key
        set for `< location` and taking its maximum yields. */
    method NearestLocationBelow(location: int) returns (nearest: Option<int>)
      requires Valid()
      ensures nearest.Some? ==> nearest.value in cache && nearest.value < location
      ensures nearest.Some? ==> forall k :: k in cache && k < location ==> k <= nearest.value
      ensures nearest.None? ==> forall k :: k in cache ==> location <= k
    {
      var candidate := location - 1;
      while 0 <= candidate && candidate !in cache
        invariant candidate < location
        invariant forall k :: candidate < k < location ==> k !in cache
        decreases candidate
      {
        candidate := candidate - 1;
      }
      nearest := if 0 <= candidate then Some(candidate) else None;
    }

    /** The byte offset of UTF-16 location `location`, whose scalar position
        the caller passes as `index`. A hit returns the stored offset and
        leaves the table alone; a miss measures from the nearest cached
        location below (or from the text start) and records the new entry. */
    method ByteOffsetFromLocation(location: int, index: nat) returns (byteOffset: int)
      requires Valid()
      requires index <= |utf8View| && Offset(Utf16, utf8View, index) == location
      modifies this
      ensures Valid()
      ensures byteOffset == Offset(Utf8, utf8View, index)
      ensures location in old(cache) ==>
                cache == old(cache) && byteOffset == old(cache)[location].byteOffset
      ensures location !in old(cache) ==>
                cache == old(cache)[location := ByteOffsetIndexPair(byteOffset, index)]
    {
      if location in cache {
        OffsetOrder(Utf16, utf8View, index, cache[location].index);
        byteOffset := cache[location].byteOffset;
      } else {
        var pair: ByteOffsetIndexPair;
        var nearestLocation := NearestLocationBelow(location);
        if nearestLocation.Some? {
          var nearest := cache[nearestLocation.value];
          OffsetOrder(Utf16, utf8View, nearest.index, index);
          OffsetSplit(Utf8, utf8View, nearest.index, index);
          pair := ByteOffsetIndexPair(nearest.byteOffset + EncodedLength(Utf8, utf8View[nearest.index..index]), index);
        } else {
          pair := ByteOffsetIndexPair(EncodedLength(Utf8, utf8View[..index]), index);
        }
        cache := cache[location := pair];
        byteOffset := pair.byteOffset;
      }
    }
  }
}
