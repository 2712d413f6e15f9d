/** String splitting for Foundation's `components(separatedBy:)`, searching
    literally: the string is cut at every leftmost, non-overlapping occurrence
    of a non-empty separator, scanning from the left, and always yields at
    least one part. */
module Text {

  datatype Option<T> = None | Some(value: T)

  /** `sep` occurs in `s` starting at index `k`. */
  predicate OccursAt(s: string, sep: string, k: nat) {
    k + |sep| <= |s| && s[k..k + |sep|] == sep
  }

  /** `sep` occurs somewhere in `s`. */
  predicate Contains(s: string, sep: string) {
    exists k: nat | k <= |s| :: OccursAt(s, sep, k)
  }

  /** No character of `s` is `c`. */
  predicate Avoids(s: string, c: char) {
    forall i :: 0 <= i < |s| ==> s[i] != c
  }

  /** The index of the leftmost occurrence of `sep` in `s`, if there is one
      (`FirstIndexIsLeftmost` says so). */
  function FirstIndex(s: string, sep: string): (r: Option<nat>)
    requires |sep| > 0
    ensures r.Some? ==> r.value + |sep| <= |s|
    decreases |s|
  {
    if |s| < |sep| then None
    else if s[..|sep|] == sep then Some(0)
    else
      match FirstIndex(s[1..], sep)
      case None => None
      case Some(j) => Some(j + 1)
  }

  /** `FirstIndex` finds an occurrence with none before it, and finds
      nothing exactly when there is no occurrence. */
  lemma {:induction false} FirstIndexIsLeftmost(s: string, sep: string)
    requires |sep| > 0
    ensures FirstIndex(s, sep).Some? ==> OccursAt(s, sep, FirstIndex(s, sep).value)
    ensures FirstIndex(s, sep).Some? ==>
      forall k: nat :: k < FirstIndex(s, sep).value ==> !OccursAt(s, sep, k)
    ensures FirstIndex(s, sep).None? <==> !Contains(s, sep)
    decreases |s|
  {
    if |s| < |sep| {
    } else if s[..|sep|] == sep {
      assert OccursAt(s, sep, 0);
    } else {
      assert !OccursAt(s, sep, 0);
      FirstIndexIsLeftmost(s[1..], sep);
      OccursShift(s, sep);
      match FirstIndex(s[1..], sep)
      case None =>
        assert forall k: nat :: 0 < k ==> !OccursAt(s, sep, k);
      case Some(j) =>
        assert FirstIndex(s, sep) == Some(j + 1);
        assert OccursAt(s[1..], sep, j) == OccursAt(s, sep, j + 1);
        forall k: nat | k < j + 1 ensures !OccursAt(s, sep, k) {
          if k > 0 {
            assert !OccursAt(s[1..], sep, k - 1);
          }
        }
    }
  }

  /** An occurrence with none before it is what `FirstIndex` finds. */
  lemma FirstIndexAt(s: string, sep: string, i: nat)
    requires |sep| > 0 && OccursAt(s, sep, i)
    requires forall k: nat :: k < i ==> !OccursAt(s, sep, k)
    ensures FirstIndex(s, sep) == Some(i)
  {
    FirstIndexIsLeftmost(s, sep);
  }

  /** An occurrence past the first position of `s` is an occurrence in `s[1..]`. */
  lemma OccursShift(s: string, sep: string)
    requires |s| > 0
    ensures forall k: nat :: 0 < k ==> OccursAt(s, sep, k) == OccursAt(s[1..], sep, k - 1)
  {
    forall k: nat | 0 < k
      ensures OccursAt(s, sep, k) == OccursAt(s[1..], sep, k - 1)
    {
      if k + |sep| <= |s| {
        assert s[1..][k - 1..k - 1 + |sep|] == s[k..k + |sep|];
      }
    }
  }

  /** An occurrence starts with the separator's first character. */
  lemma OccursAtHead(s: string, sep: string)
    requires |sep| > 0
    ensures forall k: nat :: OccursAt(s, sep, k) ==> s[k] == sep[0]
  {
    forall k: nat | OccursAt(s, sep, k) ensures s[k] == sep[0] {
      assert s[k] == s[k..k + |sep|][0];
    }
  }

  /** The parts `s` splits into at `sep`. */
  function Components(s: string, sep: string): (parts: seq<string>)
    requires |sep| > 0
    ensures |parts| > 0
    decreases |s|
  {
    match FirstIndex(s, sep)
    case None => [s]
    case Some(i) => [s[..i]] + Components(s[i + |sep|..], sep)
  }

  /** The parts glued back together with `sep` between neighbours. */
  function Join(parts: seq<string>, sep: string): string
    requires |parts| > 0
  {
    if |parts| == 1 then parts[0] else parts[0] + sep + Join(parts[1..], sep)
  }

  /** Splitting loses nothing: joining the parts again gives back the string. */
  lemma {:induction false} JoinComponents(s: string, sep: string)
    requires |sep| > 0
    ensures Join(Components(s, sep), sep) == s
    decreases |s|
  {
    match FirstIndex(s, sep)
    case None =>
    case Some(i) =>
      var rest := s[i + |sep|..];
      FirstIndexIsLeftmost(s, sep);
      JoinComponents(rest, sep);
      var parts := Components(s, sep);
      assert parts == [s[..i]] + Components(rest, sep);
      assert parts[1..] == Components(rest, sep);
      assert s == s[..i] + sep + rest by {
        assert s[i..i + |sep|] == sep;
        assert s == s[..i] + s[i..i + |sep|] + s[i + |sep|..];
      }
  }

  /** No part contains the separator. */
  lemma {:induction false} ComponentsAvoidSeparator(s: string, sep: string)
    requires |sep| > 0
    ensures forall j :: 0 <= j < |Components(s, sep)| ==> !Contains(Components(s, sep)[j], sep)
    decreases |s|
  {
    FirstIndexIsLeftmost(s, sep);
    match FirstIndex(s, sep)
    case None =>
    case Some(i) =>
      var rest := s[i + |sep|..];
      ComponentsAvoidSeparator(rest, sep);
      BeforeFirstAvoids(s, sep, i);
      assert Components(s, sep) == [s[..i]] + Components(rest, sep);
  }

  /** The text before the leftmost separator holds no separator. */
  lemma BeforeFirstAvoids(s: string, sep: string, i: nat)
    requires |sep| > 0 && FirstIndex(s, sep) == Some(i)
    ensures !Contains(s[..i], sep)
  {
    FirstIndexIsLeftmost(s, sep);
    PrefixOccurrence(s, sep, i);
  }

  /** An occurrence in a prefix of `s` is an occurrence in `s` that ends
      inside the prefix. */
  lemma PrefixOccurrence(s: string, sep: string, i: nat)
    requires i <= |s|
    ensures forall k: nat :: OccursAt(s[..i], sep, k) ==> k + |sep| <= i && OccursAt(s, sep, k)
  {
    forall k: nat | OccursAt(s[..i], sep, k)
      ensures k + |sep| <= i && OccursAt(s, sep, k)
    {
      assert s[..i][k..k + |sep|] == s[k..k + |sep|];
    }
  }

  /** The first part runs from the start up to the leftmost separator, or
      to the end when there is none. */
  lemma FirstComponent(s: string, sep: string)
    requires |sep| > 0
    ensures var head := Components(s, sep)[0];
            && |head| <= |s| && s[..|head|] == head
            && (forall k: nat :: k < |head| ==> !OccursAt(s, sep, k))
            && (|head| == |s| || OccursAt(s, sep, |head|))
  {
    FirstIndexIsLeftmost(s, sep);
    match FirstIndex(s, sep)
    case None =>
    case Some(i) =>
      assert Components(s, sep)[0] == s[..i];
  }

  /** The part that starts at index `a` runs up to the next separator at or
      after `a`, or to the end when there is none. */
  lemma ComponentAt(s: string, sep: string, a: nat)
    requires |sep| > 0 && a <= |s|
    ensures var head := Components(s[a..], sep)[0];
            && a + |head| <= |s| && s[a..a + |head|] == head
            && (a + |head| == |s| || OccursAt(s, sep, a + |head|))
            && (forall k :: a <= k < a + |head| ==> !OccursAt(s, sep, k))
  {
    var rest := s[a..];
    FirstComponent(rest, sep);
    var head := Components(rest, sep)[0];
    OccursInSuffix(s, sep, a);
    SliceOfSuffix(s, a, |head|);
    forall k | a <= k < a + |head| ensures !OccursAt(s, sep, k) {
      assert !OccursAt(rest, sep, k - a);
    }
  }

  /** After a separator the split carries on with what follows it. */
  lemma ComponentsAfterFirst(s: string, sep: string, i: nat)
    requires |sep| > 0 && FirstIndex(s, sep) == Some(i)
    ensures Components(s, sep) == [s[..i]] + Components(s[i + |sep|..], sep)
  {
  }

  /** A prefix of a suffix is a middle slice. */
  lemma SliceOfSuffix(s: string, a: nat, n: nat)
    requires a + n <= |s|
    ensures s[a..][..n] == s[a..a + n]
  {
  }

  /** Occurrences in a suffix are occurrences in the whole, shifted. */
  lemma OccursInSuffix(s: string, sep: string, a: nat)
    requires a <= |s|
    ensures forall m: nat :: OccursAt(s[a..], sep, m) == OccursAt(s, sep, a + m)
  {
    forall m: nat ensures OccursAt(s[a..], sep, m) == OccursAt(s, sep, a + m) {
      if a + m + |sep| <= |s| {
        assert s[a..][m..m + |sep|] == s[a + m..a + m + |sep|];
      }
    }
  }

  /** A string with no separator in it is its own single part. */
  lemma ComponentsOfPlain(s: string, sep: string)
    requires |sep| > 0 && !Contains(s, sep)
    ensures Components(s, sep) == [s]
  {
    FirstIndexIsLeftmost(s, sep);
  }

  /** A string without the separator's first character holds no separator. */
  lemma AvoidingIsPlain(s: string, sep: string)
    requires |sep| > 0 && Avoids(s, sep[0])
    ensures !Contains(s, sep)
  {
    OccursAtHead(s, sep);
  }

  /** A part free of the separator's first character, then the separator:
      the split takes that part first and carries on after the separator. */
  lemma SplitAfterPart(p: string, sep: string, rest: string)
    requires |sep| > 0 && Avoids(p, sep[0])
    ensures Components(p + sep + rest, sep) == [p] + Components(rest, sep)
  {
    var s := p + sep + rest;
    assert s[|p|..|p| + |sep|] == sep;
    assert forall k :: 0 <= k < |p| ==> s[k] == p[k];
    OccursAtHead(s, sep);
    FirstIndexAt(s, sep, |p|);
    assert s[..|p|] == p;
    assert s[|p| + |sep|..] == rest;
  }

  /** When no part holds the separator's first character, splitting the
      joined parts recovers exactly those parts. */
  lemma {:induction false} ComponentsOfJoin(parts: seq<string>, sep: string)
    requires |sep| > 0 && |parts| > 0
    requires forall j :: 0 <= j < |parts| ==> Avoids(parts[j], sep[0])
    ensures Components(Join(parts, sep), sep) == parts
    decreases |parts|
  {
    if |parts| == 1 {
      AvoidingIsPlain(parts[0], sep);
      ComponentsOfPlain(parts[0], sep);
    } else {
      SplitAfterPart(parts[0], sep, Join(parts[1..], sep));
      ComponentsOfJoin(parts[1..], sep);
      assert parts == [parts[0]] + parts[1..];
    }
  }
}
