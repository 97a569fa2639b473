/** Optional values, and the "keep the present ones" step that Swift's
    `flatMap` performs when its closure returns an optional. */
module Wrappers {

  datatype Option<T> = None | Some(value: T)

  /** The present values of `s`, in their order in `s`. */
  function FilterSome<T>(s: seq<Option<T>>): (r: seq<T>)
    ensures |r| <= |s|
  {
    if s == [] then []
    else (if s[0].Some? then [s[0].value] else []) + FilterSome(s[1..])
  }

  /** The positions, from `from` on, of the present entries of `s`, in increasing order. */
  function SomeIndices<T>(s: seq<Option<T>>, from: nat): (idx: seq<nat>)
    requires from <= |s|
    ensures forall k :: 0 <= k < |idx| ==> from <= idx[k] < |s| && s[idx[k]].Some?
    ensures forall k, l :: 0 <= k < l < |idx| ==> idx[k] < idx[l]
    ensures forall j :: from <= j < |s| && s[j].Some? ==> j in idx
    decreases |s| - from
  {
    if from == |s| then []
    else (if s[from].Some? then [from] else []) + SomeIndices(s, from + 1)
  }

  /** FilterSome keeps exactly the entries SomeIndices names, in that order:
      one output per present entry, none for an absent one. */
  lemma {:induction false} FilterSomeAt<T>(s: seq<Option<T>>, from: nat)
    requires from <= |s|
    ensures |FilterSome(s[from..])| == |SomeIndices(s, from)|
    ensures forall k :: 0 <= k < |FilterSome(s[from..])| ==>
              FilterSome(s[from..])[k] == s[SomeIndices(s, from)[k]].value
    decreases |s| - from
  {
    if from < |s| {
      FilterSomeAt(s, from + 1);
      assert s[from..][1..] == s[from + 1..];
    }
  }
}
