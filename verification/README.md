# Release selection of lalamove-challenge, in Dafny

This project models the release-selection core of `main.go`. Given the
release versions of a repository and a minimum version, the program keeps the
releases above the minimum and lists them highest version first. It also cuts
an input file of `owner/name,minVersion` lines into repositories, and it
strips a leading `v` from release tags.

The model has five modules:

- `SemVer` covers semantic versions and their precedence, as section 11 of
  Semantic Versioning 2.0.0 defines it. The program takes this order from the
  go-semver library's `LessThan`. Here it is defined from scratch, and it is
  proved to be a strict total order whose equality is structural.
- `Versions` covers the `Versions` slice type. `Less` and `Swap` work on an
  array. `Sort` sorts that array in place, highest version first. The library
  algorithm behind `sort.Sort` is not visible, so `Sort` is a selection sort
  that uses only `Less` and `Swap`. It is proved to yield a descending
  permutation of its input. It is also proved equal to the reference
  insertion sort `SortDesc`, because a descending arrangement of a multiset of
  versions is unique. `Versions.Len` is the array's `Length`.
- `Releases` covers `LatestVersions`. It copies every release strictly above
  the minimum into a fresh array, in order, then sorts that array when it
  holds two or more versions. The array of releases is only read.
- `Input` covers `ParseFile` from the file's text onward. The text is cut at
  every newline, comma and slash, and empty fields are dropped, as
  `strings.FieldsFunc` does. The fields are then taken three at a time as
  owner, name and minimum version.
- `Tags` covers the step in `main` that removes one leading `v` from each
  release tag before the tag is parsed.

Parsing version text (`semver.New` from go-semver) is not part of this model.
Where the program parses, the model takes a parse function `parse: string ->
Version` as a parameter.

The comment above `LatestVersions` (main.go:43) speaks of keeping the highest
release of each minor line. The body does not do this. It keeps every release
strictly above the minimum, including pre-releases and several patches of one
minor line. The model follows the body.
`Releases.KeepsPreReleasesAndPatches` works one example through to show the
difference.

## Model

| member | source | states |
|---|---|---|
| `SemVer.LessThan` | main.go:26-28 | Stands for go-semver's `LessThan`, called here and in the filter at main.go:47: precedence of section 11 of Semantic Versioning 2.0.0, by major, minor and patch, then pre-release identifiers. Its contract is the strict total order stated by `LessThanIrreflexive`, `LessThanTransitive`, `LessThanAsymmetric`, `LessThanTrichotomy` and `AtLeastAntisymmetric`, with `PrecedenceExample` as a worked chain. |
| `SemVer.LessThanIrreflexive` | main.go:26-28 | No version has lower precedence than itself. |
| `SemVer.LessThanTransitive` | main.go:26-28 | Precedence is transitive. This includes pre-release identifiers, compared field by field. |
| `SemVer.LessThanAsymmetric` | main.go:26-28 | Two versions are never each below the other. |
| `SemVer.LessThanTrichotomy` | main.go:26-28 | Any two versions are equal, or one is strictly below the other. There are no incomparable pairs. |
| `SemVer.AtLeastAntisymmetric` | main.go:26-28 | Two versions that are each at least the other are the same version. |
| `SemVer.PrecedenceExample` | main.go:47 | The example chain from section 11 of Semantic Versioning 2.0.0 holds. This covers a pre-release below its release, numeric identifiers below alphanumeric ones, numeric identifiers compared as numbers, and longer identifier lists above their prefixes. |
| `Versions.Less` | main.go:26-28 | `Less(i, j)` holds when element i sorts before element j, which means v[i] has strictly higher precedence. When it does not hold, v[j] is at least v[i]. |
| `Versions.Swap` | main.go:22-24 | Positions i and j are exchanged. Every other position is unchanged. The array keeps the same multiset of versions. |
| `Versions.Sort` | main.go:30-34 | The array is sorted in place into descending order, highest version first. It is a permutation of the input and equals `SortDesc` of the input. |
| `Versions.Insert` | main.go:32-34 | Inserting into a descending sequence keeps it descending and adds exactly one element. |
| `Versions.SortDesc` | main.go:32-34 | The reference sort is descending and a permutation of its input. |
| `Versions.DescendingUnique` | main.go:32-34 | Two descending sequences with the same multiset are equal. So in this model, where versions carry no build metadata, an unstable sort still has exactly one possible result. |
| `Versions.SortDescOfDescending` | main.go:32-34 | A descending sequence is left as it is by sorting. |
| `Versions.SortDescIdempotent` | main.go:32-34 | Sorting twice gives the same result as sorting once. |
| `Versions.SortDescPermutationInvariant` | main.go:32-34 | The result depends only on which versions there are, not on their input order. |
| `Versions.SortDescHeadIsMax` | main.go:43 | The first element of the result is at least every input version. |
| `Releases.Above` | main.go:45-50 | The filter loop: the releases strictly above the minimum, in input order, never more than the input. What it keeps is stated by `AboveCounts` and `AboveMembership`. |
| `Releases.AboveCounts` | main.go:45-50 | The filter keeps each release above the minimum as many times as it occurs, and keeps nothing else. |
| `Releases.AboveMembership` | main.go:46-50 | A release is kept exactly when it is in the input and strictly above the minimum. |
| `Releases.ThresholdExcluded` | main.go:47 | A release equal to the minimum is never kept, because the threshold is exclusive. |
| `Releases.AboveEmpty` | main.go:45-54 | When no release is above the minimum, nothing is kept. |
| `Releases.LatestSpec` | main.go:43-55 | The result is descending. Its multiset is the input's releases above the minimum. Every element is above the minimum. |
| `Releases.LatestVersions` | main.go:44-55 | The result is a fresh array equal to `SortDesc` of the releases above the minimum, in input order. The releases array is unchanged. One or zero kept releases are returned without sorting. |
| `Releases.KeepsPreReleasesAndPatches` | main.go:44-55 | Take releases 1.9.3, 1.9.0, 1.8.5, 1.7.0 and 2.0.0-rc.1 with minimum 1.8.0. The result is 2.0.0-rc.1, 1.9.3, 1.9.0, 1.8.5. |
| `Input.LeadingSeps` | main.go:65-67 | Gives the length of the longest prefix made only of newlines, commas and slashes. |
| `Input.Word` | main.go:65-67 | Gives the longest prefix without a separator. |
| `Input.Fields` | main.go:65-67 | Models `strings.FieldsFunc` with newline, comma and slash as separators: the maximal runs of non-separator characters, in order. It is characterised by `FieldsWellFormed`, `FieldsKeepText`, `FieldsSkipSep`, `FieldsCons` and `FieldsOfWord`. |
| `Input.FieldsWellFormed` | main.go:65-67 | Every field is non-empty and contains no newline, comma or slash. |
| `Input.FieldsKeepText` | main.go:65-67 | The fields, joined together, are the text with its separators removed. Nothing else is lost, and nothing is reordered. |
| `Input.FieldsSkipSep` | main.go:65-67 | A newline, comma or slash at the start of the text adds no field and changes none. |
| `Input.FieldsCons` | main.go:65-67 | A field followed by a separator is the first field, and the rest of the text gives the rest. |
| `Input.FieldsOfWord` | main.go:65-67 | A non-empty field with no separator that ends the text is the last field. |
| `Input.FieldsOfLastLine` | main.go:65-67 | A last line `owner/name,minVersion` without a newline splits into its three fields. |
| `Input.FieldsOfRenderThen` | main.go:65-67 | Newline-terminated lines followed by any text split into the lines' fields, then the fields of that text. |
| `Input.FieldsOfRender` | main.go:65-67 | A file written as one `owner/name,minVersion` line per entry splits into each line's three fields, in order. |
| `Input.FieldsOfUnterminated` | main.go:65-67 | A file whose last line has no newline splits into each line's three fields, in order, just as with the newline. |
| `Input.Repos` | main.go:68-75 | Taking the fields three at a time gives a third as many repositories. Repository k has path (fields[3k], fields[3k+1]) and the minimum version parsed from fields[3k+2]. |
| `Input.ReposOfRender` | main.go:65-75 | A file written one line per repository reads back as exactly those repositories. |
| `Input.ReposOfUnterminated` | main.go:65-75 | The same holds when the file's last line has no newline. |
| `Input.ParseFile` | main.go:65-77 | A fresh array holds `Repos` of the fields of the text. This requires a field count that is a multiple of three. |
| `Tags.StripV` | main.go:117-119 | The tag loses exactly one leading `v`, or nothing when it does not start with `v`. The tag must be non-empty. |
| `Tags.StripVOnce` | main.go:117-119 | Only one `v` is removed. `vv1` becomes `v1`. |
| `Tags.StripVPrefixOptional` | main.go:117-119 | A version text that does not start with `v` comes out the same whether its tag was written with `v` or without it. |
| `Tags.ReleaseVersions` | main.go:112-121 | Position k of the fresh array holds the version parsed from tag k after the `v` is stripped. |

## Left out

- `Releases.LatestVersions`: the comment at main.go:43 promises only the highest release of each minor line. The body keeps every release strictly above the minimum, and the model follows the body, so no grouping by minor line is modelled. `Releases.KeepsPreReleasesAndPatches` shows the difference on an example.
- Reading the input file (`ioutil.ReadFile`) and the `nil` return on a read error are not modelled. The model starts from the file's text.
- The GitHub client, the `context` value and `ListReleases` are network I/O. The model takes the release tags as a sequence.
- Output (`fmt.Println`, `fmt.Printf`), the `os.Args` handling, and the fixed `kubernetes/kubernetes` and `1.8.0` in `main` are not modelled.
- Version text parsing (`semver.New`, which panics on bad input) is not modelled. It is an abstract `parse` parameter.
- The go-semver library itself is not part of this model. `SemVer.LessThan` follows section 11 of Semantic Versioning 2.0.0. Numeric pre-release identifiers are numbers in the model, so their textual spelling plays no part.
- Build metadata is not modelled. Section 10 of Semantic Versioning 2.0.0 excludes it from precedence. So `1.9.0+a` and `1.9.0+b` have equal precedence but are different values, and the unstable `sort.Sort` may put them in either order. The uniqueness that `Versions.DescendingUnique` proves holds only because the model has no metadata.
- The algorithm inside `sort.Sort` is not modelled. `Versions.Sort` is a selection sort over `Less` and `Swap` with the same contract: a descending permutation. No stability is claimed.
- The Go slice that `append` grows in `LatestVersions` is a sequence in the model. It becomes an array before the sort. Slice capacity and the `nil` slice are not modelled. An empty result is an empty array.
- `Input.ParseFile`: when the number of fields is not a multiple of three, the Go code indexes past the end and panics. The model requires a multiple of three instead of modelling the panic.
- `Tags.StripV` and `Tags.ReleaseVersions`: an empty tag makes the Go code panic when it reads the first byte. These members require non-empty tags. A `nil` tag name is not modelled.
- Text is a sequence of characters. The UTF-8 decoding that `strings.FieldsFunc` does over bytes is not modelled.
