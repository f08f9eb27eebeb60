/**
 * Release tags as `main` turns them into versions: one leading `v` is
 * removed from each tag before the version text is parsed. Parsing is the
 * go-semver library's `semver.New`, the `parse` parameter here.
 */
module Tags {
  import opened SemVer

  /**
   * The tag without its leading `v`, if it has one. The Go code reads the
   * tag's first byte, so the tag must not be empty.
   */
  function StripV(tag: string): (r: string)
    requires tag != []
    ensures tag == ['v'] + r || tag == r
    ensures r == tag <==> tag[0] != 'v'
  {
    if tag[0] == 'v' then tag[1..] else tag
  }

  /** Only one `v` is removed: a tag written `vv1` keeps its second `v`. */
  lemma StripVOnce(rest: string)
    requires rest != [] && rest[0] == 'v'
    ensures StripV(['v'] + rest) == rest
    ensures StripV(['v'] + rest)[0] == 'v'
  {
    assert (['v'] + rest)[1..] == rest;
  }

  /**
   * A version text that does not itself start with `v` comes out the same
   * whether the tag was written with the prefix or without it.
   */
  lemma StripVPrefixOptional(text: string)
    requires text != [] && text[0] != 'v'
    ensures StripV(['v'] + text) == StripV(text) == text
  {
    assert (['v'] + text)[1..] == text;
  }

  /** The versions of the release tags, position by position. */
  method ReleaseVersions(tags: seq<string>, parse: string -> Version) returns (allReleases: array<Version>)
    requires forall k :: 0 <= k < |tags| ==> tags[k] != []
    ensures fresh(allReleases)
    ensures allReleases.Length == |tags|
    ensures forall k :: 0 <= k < |tags| ==> allReleases[k] == parse(StripV(tags[k]))
  {
    allReleases := new Version[|tags|](_ => Version(0, 0, 0, []));
    for i := 0 to |tags|
      invariant forall k :: 0 <= k < i ==> allReleases[k] == parse(StripV(tags[k]))
    {
      var versionString := tags[i];
      if versionString[0] == 'v' {
        versionString := versionString[1..];
      }
      allReleases[i] := parse(versionString);
    }
  }
}
