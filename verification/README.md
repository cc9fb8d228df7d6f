# Geohash set compression, modelled in Dafny

This project models the discrete core of `proximityhash.go`:

- the base-32 geohash alphabet;
- `GenNextPrecisionGeoHashCode`, which expands a geohash code into its 32 children one precision level deeper;
- `CompressGeoHash`, the greedy level-by-level compressor. It replaces every group of at least 32 distinct same-length codes that share a prefix by that prefix, from the longest code length down to a minimum length;
- `MaxInt`.

It also models the test helper `explodeGeoHashCodes`, which is needed to state the repository's two compression tests.

Modules:

- `Geohash` (`geohash.dfy`): the alphabet, prefixes, `NextPrecision` (the child expansion), `ChildSet` (all children of a set of codes), and `Explode` (the test helper).
- `Compression` (`compression.dfy`):
  - `MaxInt` and `MaxLen`;
  - `MergeLevel`, one pass of the level loop at target length `i`;
  - `Levels` / `LevelThenRest`, the loop itself, with its early stop below 32 working codes;
  - `Compress`, the whole function with its early returns.
- `CompressionProps` (`compression_props.dfy`): what each level does to a code, plus coverage, "nothing invented", duplicate-freedom and the length floor, first for the loop and then for `Compress`.
- `Scenarios` (`scenarios.dfy`): the compressor on complete sibling groups. This covers any number of levels of full expansion below a code, with or without one unrelated code. It also includes the two test cases.

Modelling decisions:

- **Output.** Go map iteration order is unspecified, so the output is a `multiset<string>`. On the early-return paths the output is `multiset(codes)`: the input comes back with its duplicates. On the other path the input is first collapsed into a `set<string>` working set.
- **Merge rule.** The rule is the one in the code: a group of length-`i + 1` codes sharing a length-`i` prefix merges when it has at least 32 distinct members (`prefixCnt >= 32`, proximityhash.go:167). Geohash sibling groups are usually read as the 32 base-32 children of a prefix. `CompressionProps.GroupIsFullSiblingGroup` proves that the two readings coincide when every working code is written in the base-32 alphabet. The code never checks the alphabet, so the model keeps the count.
- **No cutoff.** The command-line tool calls a three-argument `CompressGeoHash(codes, min, max)` (proximityhash/proximityhash_cli.go:49) that is not in `proximityhash.go`. The two-parameter function modelled here has no cutoff, no truncation and no deduplication of truncated codes.
- **Three-level test.** The test at proximityhash_test.go:24-33 only prints its result. The model proves the set that follows from the code, `{wx4g0, wx4g1xwc}`.
- **Dead branch.** The loop starts at the longest length minus one, so no working code is ever more than one symbol longer than the target. The branch at proximityhash.go:155-158, for codes longer than the merge length, therefore never finds anything. `MergeLevel` models it anyway. `CompressionProps.MergeLevelBounded` is the one-level step. `CompressionProps.LevelsLongerBranchIdle` carries it through the whole loop, and `CompressionProps.CompressLongerBranchIdle` applies it to the compressor.
- **Size.** A level never ends with more codes than it started with (`Compression.MergeLevelCard`). So the loop's output is no larger than its working set, and the compressor's output is no larger than its input.

## Model

| member | source | states |
|---|---|---|
| Geohash.Base32Distinct | proximityhash.go:100-104 | the alphabet table has 32 symbols, none repeated |
| Geohash.NextPrecision | proximityhash.go:106-111 | the expansion of a code has exactly 32 entries |
| Geohash.NextPrecisionChildren | proximityhash.go:106-111 | the k-th entry is one symbol longer than the code, has the code as a proper prefix, and ends with the k-th alphabet symbol |
| Geohash.NextPrecisionDistinct | proximityhash.go:106-111 | the 32 entries are pairwise different |
| Geohash.NextPrecisionComplete | proximityhash.go:100-111 | every one-symbol base-32 extension of the code is among the entries, so no child is missed |
| Geohash.NextPrecisionSet | proximityhash.go:100-111 | as a set, the expansion is exactly the code's child set, and that set has 32 members |
| Geohash.Explode | proximityhash_test.go:10-15 | expanding a list of codes gives 32 entries per code |
| Geohash.ExplodeSet | proximityhash_test.go:10-15 | as a set, expanding a list gives exactly the children of the list's codes |
| Compression.MaxInt | proximityhash.go:184-189 | the result is one of the two arguments and is at least as large as both |
| Compression.MaxLen | proximityhash.go:120-124 | the longest length is at least every code's length and is reached by some code; it is 0 for no codes |
| Compression.Group | proximityhash.go:144-153 | a prefix group collects codes of the working set only |
| Compression.MergeLevel | proximityhash.go:141-176 | one level emits only codes it found in the working set |
| Compression.MergeLevelCard | proximityhash.go:141-176 | after one level, the working set and the emitted codes together number at most the codes the level started with: a merged prefix replaces at least one code |
| Compression.Levels | proximityhash.go:139-180 | the loop, with its early stop below 32 working codes, outputs at most as many codes as its working set holds |
| Compression.LevelThenRest | proximityhash.go:139-177 | one level followed by the rest of the loop outputs at most as many codes as the working set holds |
| Compression.Compress | proximityhash.go:114-181 | with fewer than 32 distinct codes, the output holds exactly the input's codes, since nothing merges below 32; and the output is never longer than the input |
| CompressionProps.MergeLevelFate | proximityhash.go:144-171 | in one level: shorter codes stay; longer codes are emitted and removed; a code of the merge length is emitted if its prefix group has fewer than 32 members, and otherwise is removed with its prefix inserted |
| CompressionProps.MergeLevelOrigin | proximityhash.go:144-171 | a level emits only working codes at least as long as the merge length; the next working set holds only shorter codes that stayed and prefixes of groups of at least 32 |
| CompressionProps.MergeLevelBounded | proximityhash.go:139-158 | with working codes at most one symbol longer than the target, everything emitted has exactly the merge length and everything kept is no longer than the target |
| CompressionProps.LevelsLongerBranchIdle | proximityhash.go:139-158 | starting from working codes at most one symbol past the target, no level of the loop finds a code longer than its merge length |
| CompressionProps.CompressLongerBranchIdle | proximityhash.go:119-158 | past the early returns, the branch for codes longer than the merge length is idle at every level the compressor runs |
| CompressionProps.GroupIsFullSiblingGroup | proximityhash.go:160-169 | on base-32 codes, a prefix group has at least 32 members exactly when all 32 children of the prefix are in the working set, in both directions |
| CompressionProps.MergeLevelJustified | proximityhash.go:162-169 | a level at or above the minimum inserts only prefixes of at least the minimum length that stand for at least 32 input codes |
| CompressionProps.LevelsNoDuplicates | proximityhash.go:139-180 | the loop's output never holds a code twice, and every output code was a working code or is no longer than the current target |
| CompressionProps.LevelsCover | proximityhash.go:139-180 | every working code has a prefix of itself, possibly itself, in the loop's output |
| CompressionProps.LevelsJustified | proximityhash.go:139-180 | if every working code is an input code or a justified merge, so is every output code |
| CompressionProps.CompressUnchanged | proximityhash.go:115-128 | with no codes, a non-positive minimum, or no code longer than the minimum, the output is the input with its duplicates |
| CompressionProps.CompressCovers | proximityhash.go:119-180 | every input code lies inside some output code |
| CompressionProps.CompressInventsNothing | proximityhash.go:119-180 | every output code is an input code, or has at least the minimum length and has at least 32 distinct input codes strictly inside it |
| CompressionProps.CompressAtMostDistinct | proximityhash.go:119-180 | past the early returns, the output has at most as many codes as the input has distinct codes |
| CompressionProps.CompressNoDuplicates | proximityhash.go:119-180 | once past the early returns, no output code occurs twice, even if the input repeats codes |
| Scenarios.LevelsSmall | proximityhash.go:139-180 | with fewer than 32 working codes the loop does nothing and the working set is the output |
| Scenarios.MergeLevelFullLayer | proximityhash.go:144-176 | one level over all children of some parents, plus fewer than 32 same-length stray codes outside those parents, leaves exactly the parents and emits exactly the stray codes |
| Scenarios.GenerationMerges | proximityhash.go:139-176 | the n-th generation below a code plus such stray codes has at least 32 members and merges back into the generation before |
| Scenarios.LevelsGeneration | proximityhash.go:139-180 | the loop over the n-th generation below `p` plus such stray codes, down to a minimum no longer than `p`, outputs exactly `p` and the stray codes |
| Scenarios.CompressGeneration | proximityhash.go:114-182 | compressing any list whose codes are exactly the n-th generation below `p`, with a minimum no longer than `p`, gives exactly `p` |
| Scenarios.CompressGenerationStray | proximityhash.go:114-182 | the same plus one code of the same length outside `p` gives exactly `p` and that code |
| Scenarios.CompressSiblingGroup | proximityhash.go:114-182 | compressing the 32 children of `p`, with a minimum no longer than `p`, gives exactly `p` |
| Scenarios.TdnuChildren | proximityhash.go:100-111 | the children of "tdnu2" are "tdnu20" to "tdnu2z" in alphabet order |
| Scenarios.ScenarioSiblingMerge | proximityhash_test.go:35-41 | the 32 children of "tdnu2", compressed with minimum 3, give exactly "tdnu2" |
| Scenarios.ScenarioThreeLevels | proximityhash_test.go:24-33 | the children of "wx4g0" expanded twice more, plus "wx4g1xwc", compressed with minimum 5, give exactly "wx4g0" and "wx4g1xwc" |

## Left out

- Compression.Group: its contract states only that a group is drawn from the working set. Which codes a group holds and what happens to them is stated by `CompressionProps.MergeLevelFate` and `CompressionProps.GroupIsFullSiblingGroup`.
- Compression.MergeLevel: its contract states only that emitted codes come from the working set, plus the size bound in `Compression.MergeLevelCard`. The fate of every code is stated by `CompressionProps.MergeLevelFate` and `CompressionProps.MergeLevelOrigin`.
- Compression.Levels: its contract states only the size bound. Coverage, "nothing invented" and duplicate-freedom of the loop are the lemmas `CompressionProps.LevelsCover`, `CompressionProps.LevelsJustified` and `CompressionProps.LevelsNoDuplicates`.
- Compression.LevelThenRest: its contract states only the size bound, like `Compression.Levels`, whose other properties cover it as well.
- Geometry (`CreateGeohash`, `InCircleCheck`, `getCentroid`, `convertToLatLon` and the grid width and height tables, proximityhash.go:10-91) is left out. It is floating-point arithmetic plus a call into an external geohash encoder.
- The precision range panic at proximityhash.go:53-55 is left out because it belongs to that geometry.
- The command-line tool in `proximityhash/proximityhash_cli.go` is left out. It parses flags and prints. The three-argument compressor and the `PanicIf` helper it calls are not part of this model.
- The cutoff precision is left out: the code has none, so there is no truncation of long codes and no deduplication of truncated codes.
- Output order is not modelled: the result is a multiset. This also covers the early returns, which hand back the very same slice in the same order.
- The slice capacity hint at proximityhash.go:130 has no observable effect and is left out.
- Byte semantics are not modelled. Go's `len(code)` and `code[:i]` count bytes, while the model counts characters. The two agree on geohash codes, which are ASCII, but differ for input holding multi-byte characters.
- Machine integers are not modelled. `MaxInt` and the lengths are Go `int`s, which the model treats as unbounded integers. String lengths cannot come near the 64-bit limit, so this loses nothing.
