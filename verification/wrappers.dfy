/** Swift's `Optional` and `Result`, and Swift's `compactMap` over a sequence
    of optionals. */
module Wrappers {

  /** Swift's `Optional`. */
  datatype Option<+T> = None | Some(value: T)

  /** Swift's `Result<Success, Failure>`. */
  datatype Result<+T, +E> = Ok(value: T) | Err(error: E)

  /** `xs.compactMap { $0 }`: the payloads of the `Some` entries, in order
      (`CompactMapOrder`). Written from the back so that it lines up with
      `SomeIndices`. */
  function CompactMap<T>(xs: seq<Option<T>>): (r: seq<T>)
    ensures |r| <= |xs|
  {
    if |xs| == 0 then []
    else
      var init := CompactMap(xs[..|xs| - 1]);
      assert xs == xs[..|xs| - 1] + [xs[|xs| - 1]];
      match xs[|xs| - 1]
      case Some(y) => init + [y]
      case None => init
  }

  /** The positions of the `Some` entries of `xs`, in increasing order. */
  function SomeIndices<T>(xs: seq<Option<T>>): (idx: seq<nat>)
    ensures forall k :: 0 <= k < |idx| ==> idx[k] < |xs| && xs[idx[k]].Some?
    ensures forall k, l :: 0 <= k < l < |idx| ==> idx[k] < idx[l]
    ensures forall i :: 0 <= i < |xs| && xs[i].Some? ==> i in idx
  {
    if |xs| == 0 then []
    else
      var init := SomeIndices(xs[..|xs| - 1]);
      if xs[|xs| - 1].Some? then init + [|xs| - 1] else init
  }

  /** `CompactMap` keeps every `Some` entry, in its original order, and
      nothing else: its k-th element is the payload at the k-th `Some`
      position. */
  lemma {:induction false} CompactMapOrder<T>(xs: seq<Option<T>>)
    ensures |CompactMap(xs)| == |SomeIndices(xs)|
    ensures forall k :: 0 <= k < |SomeIndices(xs)| ==>
              CompactMap(xs)[k] == xs[SomeIndices(xs)[k]].value
  {
    if |xs| > 0 {
      var n := |xs| - 1;
      var init := xs[..n];
      CompactMapOrder(init);
      var c, ci := CompactMap(init), SomeIndices(init);
      if xs[n].Some? {
        assert CompactMap(xs) == c + [xs[n].value];
        assert SomeIndices(xs) == ci + [n];
      } else {
        assert CompactMap(xs) == c;
        assert SomeIndices(xs) == ci;
      }
      forall k | 0 <= k < |SomeIndices(xs)|
        ensures CompactMap(xs)[k] == xs[SomeIndices(xs)[k]].value
      {
        if k < |ci| {
          assert init[ci[k]] == xs[ci[k]];
        }
      }
    }
  }

  /** With no `None` to drop, `CompactMap` only unwraps. */
  lemma {:induction false} CompactMapAllSome<T>(xs: seq<Option<T>>)
    requires forall i :: 0 <= i < |xs| ==> xs[i].Some?
    ensures |CompactMap(xs)| == |xs|
    ensures forall k :: 0 <= k < |xs| ==> CompactMap(xs)[k] == xs[k].value
  {
    if |xs| > 0 {
      CompactMapAllSome(xs[..|xs| - 1]);
    }
  }
}
