# openapi-gen input-directory resolver

This project models the part of the `openapi-gen` command that decides which
package directories to feed to the OpenAPI code generator. Each input token has
the form `dir/.../group/version`. `parsePathGroupVersion` splits a token into a
directory prefix and a `group/version` string. `types.ToGroupVersion` parses
the latter. `versionToPath` places the group version under the base path, with
the core group `api` as a special case: it always lives in the sibling
directory `../api`. `parseInputVersions` resolves all tokens in order. It
returns:

- one directory per token;
- the groups with their versions, sorted by group name;
- a table from each (group, version) pair to its directory.

If any token's group/version fails to parse, it returns the first such error
and nothing else.

Modules:

- `Strings`: Go's `strings.Split` and `strings.Join` on a one-character separator.
- `FilePath`: `filepath.Join` on a '/'-separated system.
- `Sorting`: Go's string order and `sort.Strings`, an in-place sort of an array.
- `OpenApiGen`: the three functions of `main.go`, plus the reference functions
  that specify `parseInputVersions`. Each of its three loops is a method of its
  own: `ResolveInputs`, whose loop body is `RecordTarget`; `SortedKeys`; and
  `GroupsInOrder`. `ParseInputVersions` calls them in turn.
- `ResolverProperties`: what these functions promise together.

## Model

| member | source | states |
|---|---|---|
| OpenApiGen.ParseInputVersions | cmd/libs/go2idl/openapi-gen/main.go:82-114 | If some token fails, the result is the first failing token's error, with no paths, no groups and an empty table. Otherwise there is no error and one path per token, each the directory of that token's group version. `groups` is strictly ascending by name, names exactly the groups seen, and lists each group's versions in token order. The table is the one left by writing every token's path in order. |
| OpenApiGen.ResolveInputs | cmd/libs/go2idl/openapi-gen/main.go:83-103 | The first loop keeps, for the tokens read so far, the paths, the table and a map from each seen group to its versions in order. It stops at the first token whose group/version does not parse, with that token's error. |
| OpenApiGen.RecordTarget | cmd/libs/go2idl/openapi-gen/main.go:91-102 | One parsed token extends the state. Its version goes at the end of its group's list, and the group is created when new. Its path goes at the end of `paths`, and the table maps its pair to that path. This keeps the resolved state consistent with the tokens read so far. |
| OpenApiGen.GroupsInOrder | cmd/libs/go2idl/openapi-gen/main.go:109-111 | The emitted groups follow the given name order exactly, each with the versions collected for it. |
| OpenApiGen.SortedKeys | cmd/libs/go2idl/openapi-gen/main.go:104-108 | Collecting the map's keys in any order and sorting them gives a strictly ascending sequence of exactly the keys. |
| OpenApiGen.ParseAllMeaning | cmd/libs/go2idl/openapi-gen/main.go:85-90 | Parsing all tokens succeeds with one target per token, each that token's own parse. Or it fails with the error of some token all of whose predecessors parsed. |
| OpenApiGen.FirstFailure | cmd/libs/go2idl/openapi-gen/main.go:87-89 | A failing token preceded only by tokens that parse decides the error of the whole call, whatever follows it. |
| OpenApiGen.VersionsOfGroups | cmd/libs/go2idl/openapi-gen/main.go:91-98 | A group has a non-empty version list exactly when some token names it. |
| OpenApiGen.VersionsOfSnoc | cmd/libs/go2idl/openapi-gen/main.go:91-98 | One more token appends its version to the end of its own group's list and leaves every other group's list unchanged. |
| OpenApiGen.ParsePathGroupVersion | cmd/libs/go2idl/openapi-gen/main.go:126-135 | No contract of its own: the definition follows the source's switch on the segment count. ResolverProperties.ParsePathGroupVersionSplits and ResolverProperties.ParseSuffix state its behaviour. |
| OpenApiGen.VersionToPath | cmd/libs/go2idl/openapi-gen/main.go:116-124 | No contract of its own: the definition follows the source's core-group branch. ResolverProperties.VersionToPathShape, ResolverProperties.VersionToPathParses and ResolverProperties.VersionToPathGroupDir state its behaviour. |
| ResolverProperties.ParsePathGroupVersionSplits | cmd/libs/go2idl/openapi-gen/main.go:126-135 | A token with at most one '/' gives an empty prefix and the whole token. A longer token gives `prefix + "/" + gvString == token`, where `gvString` is the token's last two segments joined by its single '/', and the prefix keeps all the other separators. |
| ResolverProperties.ParseSuffix | cmd/libs/go2idl/openapi-gen/main.go:126-135 | `dir/group/version`, with no '/' in group or version, parses back into exactly `dir` and `group/version`. |
| ResolverProperties.VersionToPathShape | cmd/libs/go2idl/openapi-gen/main.go:116-124 | For every input, the directory is the group's parent directory, then the group, then the version, with each empty one left out. For `api` the parent is `basePath/..` and the token's prefix is ignored. For any other group it is `basePath` joined with the prefix. |
| ResolverProperties.VersionToPathParses | cmd/libs/go2idl/openapi-gen/main.go:116-135 | Round trip for a non-empty group and version without '/': parsing the directory gives back `group/version` as its group/version part, and the group's parent directory as its prefix. |
| ResolverProperties.VersionToPathGroupDir | cmd/libs/go2idl/openapi-gen/main.go:116-124 | For a token `group/` the version is empty. Its directory is then the group's own directory: the segments of the parent directory followed by the group. |
| ResolverProperties.PathTableKeys | cmd/libs/go2idl/openapi-gen/main.go:102 | `gvToPath` has exactly one key per distinct (group, version) pair among the tokens. |
| ResolverProperties.PathTableLastWrite | cmd/libs/go2idl/openapi-gen/main.go:100-102 | Each pair maps to the directory of its last occurrence among the tokens. |
| ResolverProperties.GroupedUnique | cmd/libs/go2idl/openapi-gen/main.go:104-111 | Two group lists that both satisfy the grouping specification for the same tokens are equal. So the sort makes the output independent of the map's iteration order. |
| ResolverProperties.GroupedCountsEveryToken | cmd/libs/go2idl/openapi-gen/main.go:91-111 | The version lists of all groups together have exactly as many entries as there are tokens. Every token's version lands in exactly one group. |
| Strings.Split | cmd/libs/go2idl/openapi-gen/main.go:127 | `strings.Split` yields one piece more than there are separators, so never zero pieces, and no piece contains the separator. |
| Strings.Join | cmd/libs/go2idl/openapi-gen/main.go:133 | No contract of its own: `strings.Join`, with one separator between neighbouring parts. Strings.JoinSplit states that it undoes Strings.Split. |
| Strings.JoinSplit | cmd/libs/go2idl/openapi-gen/main.go:127-133 | Joining the pieces of a split with the same separator gives back the string. |
| FilePath.Join | cmd/libs/go2idl/openapi-gen/main.go:119-121 | No contract of its own: `filepath.Join` without `Clean`, the non-empty elements joined by '/'. FilePath.JoinSnoc states how it grows by one element. |
| FilePath.JoinSnoc | cmd/libs/go2idl/openapi-gen/main.go:119-121 | `filepath.Join` with one more element: nothing changes when the element is empty; otherwise '/' and the element are appended, or the element stands alone when all earlier elements were empty. |
| Sorting.SortStrings | cmd/libs/go2idl/openapi-gen/main.go:108 | `sort.Strings` leaves the array sorted in Go's string order and a permutation of its input. |
| Sorting.SortedDistinctAscending | cmd/libs/go2idl/openapi-gen/main.go:104-108 | A sorted sequence without repetitions is strictly ascending, and conversely. |
| Sorting.AscendingUnique | cmd/libs/go2idl/openapi-gen/main.go:104-108 | Two strictly ascending sequences with the same elements are equal. |

## Left out

- `main` (flag handling, logging, running the generator) is not modelled. It only calls `parseInputVersions` and hands its paths to the generator.
- `types.ToGroupVersion` is not part of this model. It becomes a function parameter that either returns a group version or an error of an arbitrary type.
- The package globals `inputVersions` and `basePath` become parameters.
- OpenApiGen.VersionToPath: `filepath.Join` is modelled without its final `Clean`. The path is the non-empty elements joined by '/'. `..` and repeated separators are left as they are, and the lemmas describe that uncleaned form.
- ResolverProperties.VersionToPathParses: the round trip holds only for a non-empty group and a non-empty version. When either is empty the directory has one segment fewer, and parsing it splits off the parent's last segment instead. The built-in tokens of main.go (`api/`, `apps/`, …) name no version after the `/`; VersionToPathGroupDir states what their directory is.
- `sort.Strings` is modelled by an insertion sort with the same contract, sorted and a permutation. The algorithm Go's library uses is not modelled.
- Go compares strings byte by byte. The model compares characters, which gives the same order for valid UTF-8 text. Invalid UTF-8 is not modelled.
- The map of `*GroupVersions` pointers is modelled as a map from group name to its version list. The pointers never escape the function, so aliasing plays no part.
- Go's map iteration order is modelled as an arbitrary choice of the next key. GroupedUnique shows the result does not depend on it.
- Nil slices and nil maps are modelled as empty ones. On error Go returns nil for all three outputs. The model returns empty values.
- The `case 0` arm of `parsePathGroupVersion` cannot be reached: `strings.Split` with a non-empty separator always returns at least one piece. The model has a single `<= 2` branch.
- Go's `types.Group` and `types.Version` string types are modelled as plain strings.
