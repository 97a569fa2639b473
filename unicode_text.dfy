/** The text as a sequence of Unicode scalars (Dafny's `char` is a Unicode
    scalar value), and its two encoded coordinate spaces: UTF-8 byte offsets,
    which SourceKit reports, and UTF-16 code-unit offsets, which `NSString`
    indexes by. A Swift `String.UTF8Index` / `UTF16Index` on a scalar
    boundary is modelled as the scalar position it stands at. */
module UnicodeText {
  import opened Wrappers

  datatype Encoding = Utf8 | Utf16

  /** Code units one scalar takes: RFC 3629 section 3 for UTF-8,
      RFC 2781 section 2.1 for UTF-16 (a surrogate pair above U+FFFF). */
  function Width(e: Encoding, c: char): (n: nat)
    ensures 1 <= n <= 4
  {
    match e
    case Utf8 =>
      if c as int < 0x80 then 1
      else if c as int < 0x800 then 2
      else if c as int < 0x1_0000 then 3
      else 4
    case Utf16 =>
      if c as int < 0x1_0000 then 1 else 2
  }

  /** Length of the encoding of `s`, in code units of `e`. */
  function EncodedLength(e: Encoding, s: string): nat
  {
    if s == [] then 0 else Width(e, s[0]) + EncodedLength(e, s[1..])
  }

  /** UTF-8 length of the whole text (`utf8.count`). */
  function ByteCount(t: string): nat
  {
    EncodedLength(Utf8, t)
  }

  /** UTF-16 length of the whole text (`utf16.count`, `NSString.length`). */
  function UnitCount(t: string): nat
  {
    EncodedLength(Utf16, t)
  }

  /** Offset, in code units of `e`, of scalar position `i` of `t`. */
  function Offset(e: Encoding, t: string, i: nat): nat
    requires i <= |t|
  {
    EncodedLength(e, t[..i])
  }

  /** Scalar positions i <= j of `t` lie at encoded offsets `from` and `to`. */
  predicate Spans(e: Encoding, t: string, i: nat, j: nat, from: int, to: int)
  {
    i <= j <= |t| && Offset(e, t, i) == from && Offset(e, t, j) == to
  }

  /** `offset` is the encoded offset of some scalar boundary of `t`. */
  ghost predicate IsBoundary(e: Encoding, t: string, offset: int)
  {
    exists i :: 0 <= i <= |t| && Offset(e, t, i) == offset
  }

  lemma {:induction false} LengthAppend(e: Encoding, a: string, b: string)
    ensures EncodedLength(e, a + b) == EncodedLength(e, a) + EncodedLength(e, b)
  {
    if a == [] {
      assert a + b == b;
    } else {
      assert (a + b)[1..] == a[1..] + b;
      LengthAppend(e, a[1..], b);
    }
  }

  /** Every scalar takes at least one code unit, and never more UTF-16 units than UTF-8 bytes. */
  lemma {:induction false} LengthBounds(s: string)
    ensures |s| <= EncodedLength(Utf16, s) <= EncodedLength(Utf8, s)
  {
    if s != [] {
      LengthBounds(s[1..]);
    }
  }

  lemma LengthAtLeastSize(e: Encoding, s: string)
    ensures |s| <= EncodedLength(e, s)
  {
    LengthBounds(s);
  }

  /** The offset of position j is the offset of i plus the length of what lies between. */
  lemma OffsetSplit(e: Encoding, t: string, i: nat, j: nat)
    requires i <= j <= |t|
    ensures Offset(e, t, j) == Offset(e, t, i) + EncodedLength(e, t[i..j])
  {
    assert t[..j] == t[..i] + t[i..j];
    LengthAppend(e, t[..i], t[i..j]);
  }

  lemma OffsetWhole(e: Encoding, t: string)
    ensures Offset(e, t, |t|) == EncodedLength(e, t)
  {
    assert t[..|t|] == t;
  }

  /** Prefix sums grow strictly, so they name at most one scalar position. */
  lemma OffsetStrictlyIncreasing(e: Encoding, t: string, i: nat, j: nat)
    requires i < j <= |t|
    ensures Offset(e, t, i) < Offset(e, t, j)
  {
    OffsetSplit(e, t, i, j);
    LengthAtLeastSize(e, t[i..j]);
  }

  lemma OffsetOrder(e: Encoding, t: string, i: nat, j: nat)
    requires i <= |t| && j <= |t|
    ensures Offset(e, t, i) < Offset(e, t, j) <==> i < j
    ensures Offset(e, t, i) == Offset(e, t, j) <==> i == j
  {
    if i < j {
      OffsetStrictlyIncreasing(e, t, i, j);
    } else if j < i {
      OffsetStrictlyIncreasing(e, t, j, i);
    }
  }

  /** The offset of a position inside `t` is below the length of `t`. */
  lemma OffsetBelowLength(e: Encoding, t: string, i: nat)
    requires i <= |t|
    ensures Offset(e, t, i) <= EncodedLength(e, t)
    ensures Offset(e, t, i) < EncodedLength(e, t) <==> i < |t|
  {
    OffsetWhole(e, t);
    OffsetOrder(e, t, i, |t|);
  }

  lemma PrefixStep(e: Encoding, t: string)
    requires t != []
    ensures forall i :: 1 <= i <= |t| ==> Offset(e, t, i) == Width(e, t[0]) + Offset(e, t[1..], i - 1)
  {
    forall i | 1 <= i <= |t|
      ensures Offset(e, t, i) == Width(e, t[0]) + Offset(e, t[1..], i - 1)
    {
      assert t[..i][1..] == t[1..][..i - 1];
    }
  }

  /** `samePositionIn`: the scalar position whose encoded offset is `offset`,
      or None when `offset` falls inside a scalar's encoding or past the end. */
  function ScalarIndexAt(e: Encoding, t: string, offset: int): (r: Option<nat>)
    ensures r.Some? ==> r.value <= |t| && Offset(e, t, r.value) == offset
    ensures r.None? ==> forall i :: 0 <= i <= |t| ==> Offset(e, t, i) != offset
  {
    if offset == 0 then Some(0)
    else if t == [] then None
    else
      PrefixStep(e, t);
      if offset < Width(e, t[0]) then None
      else
        match ScalarIndexAt(e, t[1..], offset - Width(e, t[0]))
        case None => None
        case Some(i) => Some(i + 1)
  }

  lemma ScalarIndexAtBoundary(e: Encoding, t: string, offset: int)
    ensures ScalarIndexAt(e, t, offset).Some? <==> IsBoundary(e, t, offset)
  {
  }

  /** Two positions at the given offsets are the only ones there. */
  lemma SpansUnique(e: Encoding, t: string, i: nat, j: nat, from: int, to: int)
    requires Spans(e, t, i, j, from, to)
    ensures forall i': nat, j': nat :: Spans(e, t, i', j', from, to) ==> i' == i && j' == j
  {
    forall i': nat, j': nat | Spans(e, t, i', j', from, to) ensures i' == i && j' == j {
      OffsetOrder(e, t, i, i');
      OffsetOrder(e, t, j, j');
    }
  }

  /** Both ends on boundaries, the lower one first: the positions exist. */
  lemma SpansExist(e: Encoding, t: string, from: int, to: int) returns (i: nat, j: nat)
    requires IsBoundary(e, t, from) && IsBoundary(e, t, to) && from <= to
    ensures Spans(e, t, i, j, from, to)
  {
    i :| 0 <= i <= |t| && Offset(e, t, i) == from;
    j :| 0 <= j <= |t| && Offset(e, t, j) == to;
    OffsetOrder(e, t, i, j);
  }

  /** The lookup finds exactly the given position back. */
  lemma ScalarIndexAtOffset(e: Encoding, t: string, i: nat)
    requires i <= |t|
    ensures ScalarIndexAt(e, t, Offset(e, t, i)) == Some(i)
  {
    var r := ScalarIndexAt(e, t, Offset(e, t, i));
    OffsetOrder(e, t, i, r.value);
  }

  /** When either offset is not a boundary, no positions span them. */
  lemma SpansNone(e: Encoding, t: string, from: int, to: int)
    requires ScalarIndexAt(e, t, from).None? || ScalarIndexAt(e, t, to).None?
    ensures forall i: nat, j: nat :: !Spans(e, t, i, j, from, to)
  {
  }

  /** The positions found at two ordered offsets are the only ones spanning
      them, and what lies between takes a known length in encoding `f`. */
  lemma SpansFound(e: Encoding, f: Encoding, t: string, i: nat, j: nat, from: int, to: int)
    requires ScalarIndexAt(e, t, from) == Some(i) && ScalarIndexAt(e, t, to) == Some(j) && from <= to
    ensures Spans(e, t, i, j, from, to)
    ensures forall i': nat, j': nat :: Spans(e, t, i', j', from, to) ==>
              i' == i && j' == j && Offset(f, t, i') == Offset(f, t, i)
              && EncodedLength(f, t[i'..j']) == Offset(f, t, j) - Offset(f, t, i)
    ensures Offset(f, t, j) <= EncodedLength(f, t)
  {
    OffsetOrder(e, t, i, j);
    OffsetSplit(f, t, i, j);
    OffsetBelowLength(f, t, j);
    SpansUnique(e, t, i, j, from, to);
  }
}
