/**
 * The `Versions` slice type of main.go: a descending order on versions,
 * `Less` and `Swap` over an array of versions, and `Sort`, which sorts the
 * array in place so that the highest version comes first.
 *
 * The library sort behind `sort.Sort` is not visible; `Sort` here is a
 * selection sort driven only by `Less` and `Swap`, proved against the
 * reference definition `SortDesc`.
 */
module Versions {
  import opened SemVer

  /** Every element has at least the precedence of every later one. */
  predicate Descending(s: seq<Version>)
  {
    forall i, j :: 0 <= i < j < |s| ==> AtLeast(s[i], s[j])
  }

  // ---------------------------------------------------------------------
  // Reference definition: insertion into a descending sequence.

  function Insert(x: Version, s: seq<Version>): (r: seq<Version>)
    requires Descending(s)
    ensures Descending(r)
    ensures multiset(r) == multiset(s) + multiset{x}
  {
    if s == [] then [x]
    else if AtLeast(x, s[0]) then
      HeadBoundsAll(x, s);
      PrependDescending(x, s);
      [x] + s
    else
      NotLessIsAtLeast(s[0], x);
      var rest := Insert(x, s[1..]);
      assert s == [s[0]] + s[1..];
      HeadBoundsInserted(s, x, rest);
      PrependDescending(s[0], rest);
      [s[0]] + rest
  }

  /** A version at least every element may go in front of a descending sequence. */
  lemma PrependDescending(h: Version, s: seq<Version>)
    requires Descending(s)
    requires forall y :: y in s ==> AtLeast(h, y)
    ensures Descending([h] + s)
  {
    var t := [h] + s;
    forall i, j | 0 <= i < j < |t| ensures AtLeast(t[i], t[j]) {
      if i == 0 {
        assert t[j] == s[j - 1];
      } else {
        assert t[i] == s[i - 1] && t[j] == s[j - 1];
      }
    }
  }

  /** At least the head of a descending sequence means at least all of it. */
  lemma HeadBoundsAll(x: Version, s: seq<Version>)
    requires Descending(s) && s != [] && AtLeast(x, s[0])
    ensures forall y :: y in s ==> AtLeast(x, y)
  {
    forall y | y in s ensures AtLeast(x, y) {
      HeadIsHighest(s, y);
      AtLeastTransitive(x, s[0], y);
    }
  }

  /** The head of `s` bounds what inserting a lower `x` into the tail gives. */
  lemma HeadBoundsInserted(s: seq<Version>, x: Version, rest: seq<Version>)
    requires Descending(s) && s != [] && AtLeast(s[0], x)
    requires multiset(rest) == multiset(s[1..]) + multiset{x}
    ensures forall y :: y in rest ==> AtLeast(s[0], y)
  {
    forall y | y in rest ensures AtLeast(s[0], y) {
      assert y in multiset(rest);
      if y != x {
        assert y in multiset(s[1..]);
        assert y in s[1..];
        var k :| 0 <= k < |s[1..]| && s[1..][k] == y;
        assert s[k + 1] == y;
      }
    }
  }

  /** The versions of `s`, highest precedence first. */
  function SortDesc(s: seq<Version>): (r: seq<Version>)
    ensures Descending(r)
    ensures multiset(r) == multiset(s)
  {
    if s == [] then []
    else
      assert s == [s[0]] + s[1..];
      Insert(s[0], SortDesc(s[1..]))
  }

  /**
   * A descending arrangement of a multiset of versions is unique, because
   * `LessThan` is total and its equality is structural. So in this model,
   * where versions carry no build metadata, the sort needs no stability.
   */
  lemma {:induction false} DescendingUnique(a: seq<Version>, b: seq<Version>)
    requires Descending(a) && Descending(b)
    requires multiset(a) == multiset(b)
    ensures a == b
  {
    if a == [] {
      assert |b| == |multiset(b)| == 0;
    } else {
      assert |b| == |multiset(b)| == |multiset(a)| == |a|;
      HeadIsHighest(a, b[0]);
      HeadIsHighest(b, a[0]);
      AtLeastAntisymmetric(a[0], b[0]);
      TailMultiset(a);
      TailMultiset(b);
      DescendingUnique(a[1..], b[1..]);
    }
  }

  lemma TailMultiset(s: seq<Version>)
    requires s != []
    ensures multiset(s[1..]) == multiset(s) - multiset{s[0]}
  {
    assert s == [s[0]] + s[1..];
  }

  /** The head of a descending sequence is at least any of its elements. */
  lemma HeadIsHighest(s: seq<Version>, x: Version)
    requires Descending(s) && x in multiset(s)
    ensures s != [] && AtLeast(s[0], x)
  {
    var k :| 0 <= k < |s| && s[k] == x;
    assert k == 0 || AtLeast(s[0], s[k]);
  }

  /** A sequence that is already descending is its own sort. */
  lemma SortDescOfDescending(s: seq<Version>)
    requires Descending(s)
    ensures SortDesc(s) == s
  {
    DescendingUnique(SortDesc(s), s);
  }

  /** Sorting twice gives what sorting once gives. */
  lemma SortDescIdempotent(s: seq<Version>)
    ensures SortDesc(SortDesc(s)) == SortDesc(s)
  {
    SortDescOfDescending(SortDesc(s));
  }

  /** Sorting depends only on which versions there are, not on their order. */
  lemma SortDescPermutationInvariant(s: seq<Version>, t: seq<Version>)
    requires multiset(s) == multiset(t)
    ensures SortDesc(s) == SortDesc(t)
  {
    DescendingUnique(SortDesc(s), SortDesc(t));
  }

  /** The first element of a non-empty sort is the highest version. */
  lemma SortDescHeadIsMax(s: seq<Version>, x: Version)
    requires x in s
    ensures SortDesc(s) != [] && AtLeast(SortDesc(s)[0], x)
  {
    var r := SortDesc(s);
    assert x in multiset(r);
    var k :| 0 <= k < |r| && r[k] == x;
  }

  // ---------------------------------------------------------------------
  // The sort.Interface methods of Versions, on an array.

  /**
   * `Less(v, i, j)`: element i sorts before element j, that is v[i] has
   * strictly higher precedence. When it does not, v[j] is at least v[i].
   */
  predicate Less(v: array<Version>, i: int, j: int)
    reads v
    requires 0 <= i < v.Length && 0 <= j < v.Length
    ensures Less(v, i, j) ==> v[i] != v[j] && !LessThan(v[i], v[j])
    ensures !Less(v, i, j) ==> AtLeast(v[j], v[i])
  {
    LessThanIrreflexive(v[i]);
    if LessThan(v[j], v[i]) then
      LessThanAsymmetric(v[j], v[i]);
      true
    else
      NotLessIsAtLeast(v[j], v[i]);
      false
  }

  /** Exchanges positions i and j and leaves every other position as it was. */
  method Swap(v: array<Version>, i: int, j: int)
    requires 0 <= i < v.Length && 0 <= j < v.Length
    modifies v
    ensures v[i] == old(v[j]) && v[j] == old(v[i])
    ensures forall k :: 0 <= k < v.Length && k != i && k != j ==> v[k] == old(v[k])
    ensures multiset(v[..]) == multiset(old(v[..]))
  {
    v[i], v[j] := v[j], v[i];
  }

  /**
   * Sorts `v` in place, highest version first: the result is the same
   * versions in descending order, which is exactly `SortDesc` of the input.
   */
  method Sort(v: array<Version>)
    modifies v
    ensures Descending(v[..])
    ensures multiset(v[..]) == multiset(old(v[..]))
    ensures v[..] == SortDesc(old(v[..]))
  {
    var n := v.Length;
    var i := 0;
    while i < n
      invariant 0 <= i <= n
      invariant multiset(v[..]) == multiset(old(v[..]))
      invariant forall a, b :: 0 <= a < b < i ==> AtLeast(v[a], v[b])
      invariant forall a, b :: 0 <= a < i <= b < n ==> AtLeast(v[a], v[b])
    {
      // Find the highest of v[i..].
      var m := i;
      var k := i + 1;
      while k < n
        invariant i <= m < n && i < k <= n
        invariant forall b :: i <= b < k ==> AtLeast(v[m], v[b])
      {
        if Less(v, k, m) {
          forall b | i <= b < k ensures AtLeast(v[k], v[b]) {
            AtLeastTransitive(v[k], v[m], v[b]);
          }
          m := k;
        }
        k := k + 1;
      }
      Swap(v, i, m);
      i := i + 1;
    }
    DescendingUnique(v[..], SortDesc(old(v[..])));
  }
}
