/**
 * `LatestVersions` of main.go: keep every release strictly above the
 * minimum version, then sort what is kept, highest version first.
 *
 * The function body does not drop pre-releases and does not keep one
 * release per minor line; the model does what the body does.
 */
module Releases {
  import opened SemVer
  import opened Versions

  /** The releases strictly above `minVersion`, in their original order. */
  function Above(releases: seq<Version>, minVersion: Version): (r: seq<Version>)
    ensures |r| <= |releases|
  {
    if releases == [] then []
    else
      var last := releases[|releases| - 1];
      Above(releases[..|releases| - 1], minVersion) + (if LessThan(minVersion, last) then [last] else [])
  }

  /**
   * Every release above the threshold is kept as often as it occurs, and no
   * other release is kept: nothing is added, lost or duplicated.
   */
  lemma {:induction false} AboveCounts(releases: seq<Version>, minVersion: Version)
    ensures forall x :: multiset(Above(releases, minVersion))[x]
                        == if LessThan(minVersion, x) then multiset(releases)[x] else 0
  {
    if releases != [] {
      var init, last := releases[..|releases| - 1], releases[|releases| - 1];
      assert releases == init + [last];
      AboveCounts(init, minVersion);
    }
  }

  /** A release is kept exactly when it is strictly above the threshold. */
  lemma AboveMembership(releases: seq<Version>, minVersion: Version, x: Version)
    ensures x in Above(releases, minVersion) <==> x in releases && LessThan(minVersion, x)
  {
    AboveCounts(releases, minVersion);
    assert x in Above(releases, minVersion) <==> x in multiset(Above(releases, minVersion));
    assert x in releases <==> x in multiset(releases);
  }

  /** The threshold itself is never kept. */
  lemma ThresholdExcluded(releases: seq<Version>, minVersion: Version)
    ensures minVersion !in Above(releases, minVersion)
  {
    AboveMembership(releases, minVersion, minVersion);
    LessThanIrreflexive(minVersion);
  }

  /** Nothing is kept when no release is above the threshold. */
  lemma AboveEmpty(releases: seq<Version>, minVersion: Version)
    requires forall k :: 0 <= k < |releases| ==> !LessThan(minVersion, releases[k])
    ensures Above(releases, minVersion) == []
  {
    var r := Above(releases, minVersion);
    if r != [] {
      AboveMembership(releases, minVersion, r[0]);
      assert false;
    }
  }

  /**
   * The value LatestVersions returns: the releases above the threshold,
   * highest first, with nothing added, lost or duplicated.
   */
  lemma LatestSpec(releases: seq<Version>, minVersion: Version)
    ensures Descending(SortDesc(Above(releases, minVersion)))
    ensures forall x :: multiset(SortDesc(Above(releases, minVersion)))[x]
                        == if LessThan(minVersion, x) then multiset(releases)[x] else 0
    ensures forall k :: 0 <= k < |SortDesc(Above(releases, minVersion))| ==>
                          LessThan(minVersion, SortDesc(Above(releases, minVersion))[k])
  {
    AboveCounts(releases, minVersion);
    var r := SortDesc(Above(releases, minVersion));
    forall k | 0 <= k < |r| ensures LessThan(minVersion, r[k]) {
      assert r[k] in multiset(r);
    }
  }

  /**
   * Copies the releases strictly above `minVersion` into a fresh array and
   * sorts that array, highest version first. `releases` is only read.
   */
  method LatestVersions(releases: array<Version>, minVersion: Version) returns (versionSlice: array<Version>)
    ensures fresh(versionSlice)
    ensures releases[..] == old(releases[..])
    ensures versionSlice[..] == SortDesc(Above(releases[..], minVersion))
  {
    // The slice that `append` grows.
    var kept: seq<Version> := [];
    for k := 0 to releases.Length
      invariant kept == Above(releases[..k], minVersion)
    {
      assert releases[..k + 1][..k] == releases[..k];
      if LessThan(minVersion, releases[k]) {
        kept := kept + [releases[k]];
      }
    }
    assert releases[..releases.Length] == releases[..];
    versionSlice := new Version[|kept|](k requires 0 <= k < |kept| => kept[k]);
    assert versionSlice[..] == kept;
    if versionSlice.Length >= 2 {
      Sort(versionSlice);
    } else {
      SortDescOfDescending(kept);
    }
  }

  /**
   * On the releases 1.9.3, 1.9.0, 1.8.5, 1.7.0 and 2.0.0-rc.1 with minimum
   * 1.8.0, LatestVersions keeps the pre-release and both 1.9 patches: it
   * neither drops pre-releases nor keeps one release per minor line.
   */
  lemma KeepsPreReleasesAndPatches()
    ensures SortDesc(Above([Version(1, 9, 3, []), Version(1, 9, 0, []), Version(1, 8, 5, []), Version(1, 7, 0, []),
                            Version(2, 0, 0, [AlphaNum("rc"), Numeric(1)])], Version(1, 8, 0, [])))
            == [Version(2, 0, 0, [AlphaNum("rc"), Numeric(1)]), Version(1, 9, 3, []), Version(1, 9, 0, []), Version(1, 8, 5, [])]
  {
    ExampleAbove();
    ExampleSorted();
  }

  lemma ExampleAbove()
    ensures Above([Version(1, 9, 3, []), Version(1, 9, 0, []), Version(1, 8, 5, []), Version(1, 7, 0, []),
                   Version(2, 0, 0, [AlphaNum("rc"), Numeric(1)])], Version(1, 8, 0, []))
            == [Version(1, 9, 3, []), Version(1, 9, 0, []), Version(1, 8, 5, []), Version(2, 0, 0, [AlphaNum("rc"), Numeric(1)])]
  {
    var m := Version(1, 8, 0, []);
    var rc := Version(2, 0, 0, [AlphaNum("rc"), Numeric(1)]);
    var v193, v190, v185, v170 := Version(1, 9, 3, []), Version(1, 9, 0, []), Version(1, 8, 5, []), Version(1, 7, 0, []);
    var releases := [v193, v190, v185, v170, rc];
    assert Above(releases[..1], m) == [v193] by {
      assert releases[..1][..0] == [];
    }
    assert Above(releases[..2], m) == [v193, v190] by {
      assert releases[..2][..1] == releases[..1];
    }
    assert Above(releases[..3], m) == [v193, v190, v185] by {
      assert releases[..3][..2] == releases[..2];
    }
    assert Above(releases[..4], m) == [v193, v190, v185] by {
      assert releases[..4][..3] == releases[..3];
    }
    assert releases[..4] == releases[..|releases| - 1];
  }

  lemma ExampleSorted()
    ensures SortDesc([Version(1, 9, 3, []), Version(1, 9, 0, []), Version(1, 8, 5, []), Version(2, 0, 0, [AlphaNum("rc"), Numeric(1)])])
            == [Version(2, 0, 0, [AlphaNum("rc"), Numeric(1)]), Version(1, 9, 3, []), Version(1, 9, 0, []), Version(1, 8, 5, [])]
  {
    var rc := Version(2, 0, 0, [AlphaNum("rc"), Numeric(1)]);
    var v193, v190, v185 := Version(1, 9, 3, []), Version(1, 9, 0, []), Version(1, 8, 5, []);
    ExampleDescending(rc, v193, v190, v185);
    assert multiset([v193, v190, v185, rc]) == multiset([rc, v193, v190, v185]);
    DescendingUnique(SortDesc([v193, v190, v185, rc]), [rc, v193, v190, v185]);
  }

  lemma ExampleDescending(a: Version, b: Version, c: Version, d: Version)
    requires LessThan(b, a) && LessThan(c, b) && LessThan(d, c)
    ensures Descending([a, b, c, d])
  {
    LessThanTransitive(c, b, a);
    LessThanTransitive(d, c, a);
    LessThanTransitive(d, c, b);
  }
}
