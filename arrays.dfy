/** The two array operations the screen relies on: the `removingDuplicates`
    extension declared next to the view (a loop over the array with a set of
    elements already seen), and SwiftUI's `remove(atOffsets:)` on an
    array, which drops the elements at a set of positions. */
module Arrays {

  predicate NoDuplicates<T(==)>(xs: seq<T>) {
    forall i, j :: 0 <= i < j < |xs| ==> xs[i] != xs[j]
  }

  predicate StrictlyIncreasing(xs: seq<nat>) {
    forall i, j :: 0 <= i < j < |xs| ==> xs[i] < xs[j]
  }

  // ---------------------------------------------------------------------
  // removingDuplicates

  /** The elements of `xs`, each kept where it first appears. */
  function Dedup<T(==)>(xs: seq<T>): (r: seq<T>)
    ensures NoDuplicates(r)
    ensures forall i :: 0 <= i < |xs| ==> xs[i] in r
    ensures forall i :: 0 <= i < |r| ==> r[i] in xs
  {
    if xs == [] then []
    else
      var init, last := xs[..|xs| - 1], xs[|xs| - 1];
      assert xs == init + [last];
      var d := Dedup(init);
      if last in d then d else d + [last]
  }

  /** The position at which `x` first appears in `xs`. */
  function FirstPosition<T(==)>(xs: seq<T>, x: T): (i: nat)
    requires x in xs
    ensures i < |xs| && xs[i] == x
    ensures forall k :: 0 <= k < i ==> xs[k] != x
  {
    if xs[0] == x then 0
    else
      assert xs == [xs[0]] + xs[1..];
      FirstPosition(xs[1..], x) + 1
  }

  /** `removingDuplicates` as written: one pass over the array, a set of the
      elements met so far, and an element appended to the result exactly when
      inserting it into that set is a fresh insertion. */
  method RemovingDuplicates<T(==)>(xs: seq<T>) returns (result: seq<T>)
    ensures result == Dedup(xs)
  {
    var seen: set<T> := {};
    result := [];
    for i := 0 to |xs|
      invariant result == Dedup(xs[..i])
      invariant forall x :: x in seen <==> x in result
    {
      var inserted := xs[i] !in seen;
      seen := seen + {xs[i]};
      assert xs[..i + 1][..i] == xs[..i];
      if inserted {
        result := result + [xs[i]];
      }
    }
    assert xs[..|xs|] == xs;
  }

  /** Moving to a longer array with the same prefix does not move the first
      position of an element already in the prefix. */
  lemma FirstPositionInPrefix<T>(xs: seq<T>, n: nat, x: T)
    requires n <= |xs| && x in xs[..n]
    ensures FirstPosition(xs, x) == FirstPosition(xs[..n], x)
  {
    var i, j := FirstPosition(xs, x), FirstPosition(xs[..n], x);
    assert xs[..n][j] == xs[j];
    assert i < n ==> xs[..n][i] == xs[i];
  }

  /** First-occurrence order: the k-th kept element is the input element at
      its first position, and those positions strictly increase, so the
      output is a subsequence of the input in first-seen order. */
  lemma {:induction false} DedupKeepsFirstSeenOrder<T>(xs: seq<T>)
    ensures forall i, j :: 0 <= i < j < |Dedup(xs)| ==>
      FirstPosition(xs, Dedup(xs)[i]) < FirstPosition(xs, Dedup(xs)[j])
    decreases |xs|
  {
    if xs != [] {
      var n := |xs| - 1;
      var init, last := xs[..n], xs[n];
      DedupKeepsFirstSeenOrder(init);
      var d, r := Dedup(init), Dedup(xs);
      forall y | y in d ensures FirstPosition(xs, y) == FirstPosition(init, y) < n {
        FirstPositionInPrefix(xs, n, y);
      }
      if last !in d {
        assert r == d + [last];
        assert last !in init;
        assert xs[..n] == init;
        assert FirstPosition(xs, last) == n;
        forall i, j | 0 <= i < j < |r|
          ensures FirstPosition(xs, r[i]) < FirstPosition(xs, r[j])
        {
          assert r[i] == d[i] && r[i] in d;
          if j < |d| {
            assert r[j] == d[j] && r[j] in d;
          }
        }
      } else {
        assert r == d;
        forall i, j | 0 <= i < j < |r|
          ensures FirstPosition(xs, r[i]) < FirstPosition(xs, r[j])
        {
          assert r[i] in d && r[j] in d;
        }
      }
    }
  }

  /** An array without repeats is left as it is. */
  lemma {:induction false} DedupOfDistinct<T>(xs: seq<T>)
    requires NoDuplicates(xs)
    ensures Dedup(xs) == xs
    decreases |xs|
  {
    if xs != [] {
      var n := |xs| - 1;
      var init := xs[..n];
      assert NoDuplicates(init);
      DedupOfDistinct(init);
      assert xs[n] !in init;
      assert xs == init + [xs[n]];
    }
  }

  /** Removing duplicates twice is the same as removing them once. */
  lemma DedupIdempotent<T>(xs: seq<T>)
    ensures Dedup(Dedup(xs)) == Dedup(xs)
  {
    DedupOfDistinct(Dedup(xs));
  }

  // ---------------------------------------------------------------------
  // remove(atOffsets:)

  /** The positions below `n` that are not in `offsets`, in increasing order. */
  function KeptIndices(n: nat, offsets: set<nat>): (r: seq<nat>)
    ensures StrictlyIncreasing(r)
    ensures forall i :: 0 <= i < |r| ==> r[i] < n
    ensures forall k: nat :: k in r <==> k < n && k !in offsets
  {
    if n == 0 then []
    else
      var r := KeptIndices(n - 1, offsets);
      if n - 1 in offsets then r else r + [n - 1]
  }

  /** `xs` without the elements whose positions are in `offsets`. */
  function RemoveAt<T>(xs: seq<T>, offsets: set<nat>): seq<T>
  {
    if xs == [] then []
    else
      var n := |xs| - 1;
      RemoveAt(xs[..n], offsets) + if n in offsets then [] else [xs[n]]
  }

  /** The survivors are exactly the elements at the kept positions, unchanged
      and in their original relative order. */
  lemma {:induction false} RemoveAtKeepsTheRest<T>(xs: seq<T>, offsets: set<nat>)
    ensures |RemoveAt(xs, offsets)| == |KeptIndices(|xs|, offsets)|
    ensures forall m :: 0 <= m < |RemoveAt(xs, offsets)| ==>
      RemoveAt(xs, offsets)[m] == xs[KeptIndices(|xs|, offsets)[m]]
    decreases |xs|
  {
    if xs != [] {
      var n := |xs| - 1;
      RemoveAtKeepsTheRest(xs[..n], offsets);
    }
  }

  /** When every offset is a valid position, exactly `|offsets|` elements go. */
  lemma {:induction false} RemoveAtLength<T>(xs: seq<T>, offsets: set<nat>)
    requires forall o :: o in offsets ==> o < |xs|
    ensures |RemoveAt(xs, offsets)| == |xs| - |offsets|
    decreases |xs|
  {
    if xs != [] {
      var n := |xs| - 1;
      var below := offsets - {n};
      RemoveAtLength(xs[..n], below);
      RemoveAtIgnoresFarOffsets(xs[..n], offsets, below);
      if n in offsets {
        assert |below| == |offsets| - 1;
      } else {
        assert below == offsets;
      }
    }
  }

  /** Offsets at or past the end of `xs` make no difference. */
  lemma {:induction false} RemoveAtIgnoresFarOffsets<T>(xs: seq<T>, a: set<nat>, b: set<nat>)
    requires forall k :: k < |xs| ==> (k in a <==> k in b)
    ensures RemoveAt(xs, a) == RemoveAt(xs, b)
    decreases |xs|
  {
    if xs != [] {
      RemoveAtIgnoresFarOffsets(xs[..|xs| - 1], a, b);
    }
  }
}
