# go-x helpers in Dafny

This project models the three packages of go-x that hold logic of their own:

- `xslices`: mapping with and without errors, minimum and maximum, flattening, building maps and sets from slices, first element, first match, filtering and difference.
- `xmaps`: merge, equality, intersection and difference of maps.
- `xstrings`: capitalization, prefix and suffix tests, letter and digit tests, rune reversal, repetition and byte tails.

It proves what each helper promises about its result.

Modules:

- `Wrappers` (`wrappers.dfy`): the `Result` type that stands for a Go `(R, error)` return.
- `XSlices` (`xslices.dfy`) and `XMaps` (`xmaps.dfy`): each Go loop that grows a slice or fills a map is a Dafny method with that loop. Each method is proved against a recursive function or a comprehension that specifies its result. Lemmas state what those functions guarantee: key sets, last writer wins, order, multiplicities, the partition of keys between intersection and difference.
- `Utf8` (`utf8.dfy`): Go strings are byte sequences, and `range s`, `[]rune(s)`, `utf8.RuneCountInString` and `string(r)` convert between bytes and runes. This module gives the rules of Go's UTF-8 decoder and encoder, including U+FFFD with width one for a malformed byte. It proves the round trips and splitting facts that the string helpers need.
- `XStrings` (`xstrings.dfy`): the string helpers over `seq<Byte>`. The tables of package `unicode` (`ToUpper`, `ToLower`, `IsUpper`, `IsLetter`, `IsDigit`) are function parameters, so every result holds whatever those tables contain.

Behaviour of the code that its documentation does not mention, stated as lemmas:

- `Difference` of slices keeps duplicates of `s1`, although its comment says "unique" (`XSlices.DifferenceCount`). The model follows the code.
- `StartsWith` and `EndsWith` compare rune counts before comparing bytes. On a prefix or suffix that is not valid UTF-8, this guard can reject a genuine byte prefix or suffix (`XStrings.StartsWithRejectsBytePrefix`, `XStrings.EndsWithRejectsByteSuffix`). For valid arguments the guard changes nothing.
- `Reverse` converts through `[]rune`, so reversing twice gives back only a valid string. Any other string comes back with its malformed bytes replaced by U+FFFD (`XStrings.ReversalTwice`).
- `LastChars` counts bytes, so it can cut a rune in two (`XStrings.LastCharsSplitsRune`).
- `Capitalize` cuts the rest of the string at byte 1, not after the first rune (see Findings).

## Model

| member | source | states |
|---|---|---|
| XSlices.Map | xslices/slices.go:12-18 | the output has one element per input element, and element `i` is `mapper(s[i])` |
| XSlices.MapWithError | xslices/slices.go:77-92 | fail fast: the output holds the values of the elements before the first failure, and the error is that element's error (nil if none fails). Collect all: the output is the values of exactly the succeeding elements and the error lists the failures' errors, both in input order |
| XSlices.MapUntilError | xslices/slices.go:25-27 | the same result as fail-fast `MapWithError`: the mapped prefix before the first failure and that failure's error |
| XSlices.SuccessesAndFailuresCount | xslices/slices.go:79-91 | in collect-all mode every element contributes exactly one value or one error |
| XSlices.NoFailuresIff | xslices/slices.go:79-91 | the joined error is nil exactly when no element's mapping fails |
| XSlices.SuccessesAppend | xslices/slices.go:80-90 | the collected values of a concatenation are the values of the first part followed by those of the second, so input order is output order |
| XSlices.FailuresAppend | xslices/slices.go:80-88 | the joined errors of a concatenation are those of the first part followed by those of the second |
| XSlices.SuccessesWithoutFailures | xslices/slices.go:77-92 | when nothing fails, collect-all gives one value per element at the same index, and fail fast sees no failure, so both modes agree |
| XSlices.First | xslices/slices.go:134-139 | true and `s[0]` exactly when the slice is non-empty; otherwise false and the zero value |
| XSlices.Min | xslices/slices.go:40-52 | false and 0 on an empty slice; otherwise true and an element of the slice no larger than any element |
| XSlices.Max | xslices/slices.go:56-68 | false and 0 on an empty slice; otherwise true and an element of the slice no smaller than any element |
| XSlices.Flatten | xslices/slices.go:95-101 | the result is the inner slices concatenated in order |
| XSlices.ConcatLength | xslices/slices.go:95-101 | the flattened length is the sum of the inner lengths |
| XSlices.ConcatMembership | xslices/slices.go:95-101 | an element is in the flattened slice exactly when it is in some inner slice |
| XSlices.ConcatAppend | xslices/slices.go:97-99 | flattening a concatenation of outer slices concatenates the flattened parts |
| XSlices.Associate | xslices/slices.go:123-130 | the result is the map obtained by inserting each pair in input order |
| XSlices.AssociatedKeys | xslices/slices.go:123-130 | the key set is exactly the set of keys the mapper produces over the input |
| XSlices.AssociatedLastWins | xslices/slices.go:120-128 | for a duplicated key the value comes from the last element producing that key |
| XSlices.ToSetFunc | xslices/slices.go:111-115 | the key set is exactly the set of mapped elements |
| XSlices.ToSet | xslices/slices.go:105-107 | the key set is exactly the set of elements of the slice |
| XSlices.Filter | xslices/slices.go:157-165 | the result is the subsequence of the elements satisfying the predicate |
| XSlices.FilteredLength | xslices/slices.go:157-165 | the filtered slice is never longer than the input |
| XSlices.FilteredCount | xslices/slices.go:157-165 | a matching element occurs as often as in the input, a non-matching one never |
| XSlices.FilteredMembership | xslices/slices.go:157-165 | an element is in the result exactly when it is in the input and matches |
| XSlices.FilteredEmptyIff | xslices/slices.go:157-165 | the result is empty exactly when no element matches |
| XSlices.FilteredAppend | xslices/slices.go:158-163 | filtering a concatenation concatenates the filtered parts, so order is kept |
| XSlices.Difference | xslices/slices.go:142-154 | the result is the elements of `s1` that do not occur in `s2`, in the order of `s1` |
| XSlices.DifferenceCount | xslices/slices.go:142-154 | every occurrence in `s1` of an element absent from `s2` is kept, so duplicates survive; no element of `s2` appears |
| XSlices.DifferenceEmptyIff | xslices/slices.go:142-154 | the result is empty exactly when every element of `s1` occurs in `s2` |
| XSlices.FindFirst | xslices/slices.go:169-176 | true exactly when some element matches; the value is then the lowest-index match, otherwise the zero value |
| XMaps.AssignAll | xmaps/maps.go:9-11 | copying every entry of `m` into `dst` gives `dst` overridden by `m` |
| XMaps.Merge | xmaps/maps.go:6-14 | the result is the maps combined first to last with later entries overriding earlier ones; no maps give the empty map |
| XMaps.MergedKeys | xmaps/maps.go:6-14 | the key set is the union of the arguments' key sets |
| XMaps.MergedLastWins | xmaps/maps.go:5-14 | each key takes its value from the last map containing it |
| XMaps.Equal | xmaps/maps.go:19-33 | true exactly when both maps have the same keys and equal values at every key |
| XMaps.SameEntriesIsEquality | xmaps/maps.go:16-33 | same keys with equal values is map equality |
| XMaps.SameEntriesReflexiveSymmetric | xmaps/maps.go:16-33 | the equality test is reflexive and symmetric |
| XMaps.Intersect | xmaps/maps.go:36-44 | a key is in the result exactly when both maps have it with equal values, and it maps to that value |
| XMaps.IntersectionSelf | xmaps/maps.go:36-44 | a map intersected with itself is itself |
| XMaps.IntersectionCommutes | xmaps/maps.go:36-44 | intersection does not depend on argument order |
| XMaps.DifferenceFromFirst | xmaps/maps.go:49-57 | after the first loop: the keys of `m1` that `m2` lacks keep `m1`'s value, those with a different value in `m2` take `m2`'s, those with an equal value are absent |
| XMaps.Difference | xmaps/maps.go:47-64 | a key in exactly one map keeps that map's value; a key in both with different values takes `m2`'s; a key in both with equal values is absent; no other key appears |
| XMaps.DifferenceKeysSymmetric | xmaps/maps.go:47-64 | the key set of the difference does not depend on argument order |
| XMaps.DifferenceOutsideConflicts | xmaps/maps.go:47-64 | at a key held by only one map, both argument orders give the same entry |
| XMaps.IntersectionDifferencePartition | xmaps/maps.go:36-64 | the key sets of intersection and difference are disjoint and together make up the keys of both maps |
| XMaps.DifferenceSelf | xmaps/maps.go:47-64 | a map differs from itself nowhere |
| Utf8.DecodeOfEncode | xstrings/strings.go:24-26 | converting runes to a string and back to `[]rune` gives the same runes |
| Utf8.ValidIffRoundTrip | xstrings/strings.go:87-91 | a string survives conversion to `[]rune` and back exactly when it is valid UTF-8 |
| Utf8.InvalidHasRuneError | xstrings/strings.go:64-66 | ranging over a string that is not valid UTF-8 yields U+FFFD at least once |
| XStrings.CapitalizeAsWritten | xstrings/strings.go:12-17 | the empty string maps to itself and only it does |
| XStrings.CapitalizeAsWrittenSplitsRune | xstrings/strings.go:13-14 | on the valid string "éa" the code as written returns bytes that are not valid UTF-8 |
| XStrings.CapitalizeAsWrittenAgrees | xstrings/strings.go:13-14 | the code as written gives the documented result exactly when the first rune is one byte wide |
| XStrings.Capitalize | xstrings/strings.go:11-17 | as documented (line 11), not as written at line 14: the first rune upper-cased, then the bytes after that rune; the empty string maps to itself and only it does (content in CapitalizeRunes and CapitalizeKeepsValid) |
| XStrings.CapitalizeRunes | xstrings/strings.go:11-17 | the first rune is upper-cased and every later rune is unchanged |
| XStrings.CapitalizeKeepsValid | xstrings/strings.go:11-17 | a valid string stays valid and keeps its rune count |
| XStrings.Uncapitalize | xstrings/strings.go:20-29 | the result is empty exactly when the input is; UncapitalizeRunes and UncapitalizeKeeps state the content |
| XStrings.UncapitalizeRunes | xstrings/strings.go:24-26 | when the first rune is upper case, the result is valid and differs only in that rune, which is lower-cased |
| XStrings.UncapitalizeKeeps | xstrings/strings.go:21-28 | the empty string, and a string whose first rune is not upper case, come back unchanged |
| XStrings.CapitalizeUndoesUncapitalize | xstrings/strings.go:11-29 | when upper-casing undoes lower-casing of the first rune, capitalizing an uncapitalized valid string gives it back |
| XStrings.StartsWith | xstrings/strings.go:32-43 | a match never has more runes in the prefix than in `s`, and a case-sensitive match is a byte prefix; EmptyAffixes, LongerAffixFails, StartsWithIsHasPrefix and StartsWithIgnoringCase state the rest |
| XStrings.EndsWith | xstrings/strings.go:46-57 | a match never has more runes in the suffix than in `s`, and a case-sensitive match is a byte suffix; EmptyAffixes, LongerAffixFails, EndsWithIsHasSuffix and EndsWithIgnoringCase state the rest |
| XStrings.EmptyAffixes | xstrings/strings.go:32-57 | with an empty argument `StartsWith` and `EndsWith` are true exactly when both arguments are empty |
| XStrings.LongerAffixFails | xstrings/strings.go:36-52 | a prefix or suffix with more runes than `s` never matches |
| XStrings.StartsWithIsHasPrefix | xstrings/strings.go:32-43 | for non-empty arguments and a valid prefix, the case-sensitive test is exactly the byte prefix relation |
| XStrings.EndsWithIsHasSuffix | xstrings/strings.go:46-57 | for non-empty arguments and a valid suffix, the case-sensitive test is exactly the byte suffix relation |
| XStrings.StartsWithIgnoringCase | xstrings/strings.go:39-41 | ignoring case, the test holds exactly when the lower-cased runes of the prefix begin those of `s` |
| XStrings.EndsWithIgnoringCase | xstrings/strings.go:53-55 | ignoring case, the test holds exactly when the lower-cased runes of the suffix end those of `s` |
| XStrings.StartsWithRejectsBytePrefix | xstrings/strings.go:36-42 | the first two bytes of "€" are a byte prefix of "€", yet the rune count guard rejects them |
| XStrings.EndsWithRejectsByteSuffix | xstrings/strings.go:50-56 | the last two bytes of "€" are a byte suffix of "€", yet the rune count guard rejects them |
| XStrings.IsAlpha | xstrings/strings.go:60-70 | true exactly when every rune of the string is a letter, so true of "" |
| XStrings.IsAlphanumeric | xstrings/strings.go:73-83 | true exactly when every rune of the string is a letter or a digit, so true of "" |
| XStrings.AlphaIsAlphanumeric | xstrings/strings.go:59-83 | a string of letters is a string of letters and digits |
| XStrings.InvalidNeedsRuneError | xstrings/strings.go:64-66 | a string that is not valid UTF-8 passes a rune test only if U+FFFD passes it |
| XStrings.ReversedAt | xstrings/strings.go:88-90 | reversal keeps the length and puts element `n-1-i` at position `i` |
| XStrings.SwappedIsReversed | xstrings/strings.go:88-90 | a slice that mirrors another position by position is its reversal |
| XStrings.ReversedTwice | xstrings/strings.go:86-92 | reversing a rune slice twice gives it back |
| XStrings.Reverse | xstrings/strings.go:86-92 | the two-index swap loop leaves the runes of `s` in reverse order, converted back to a string |
| XStrings.ReversalRunes | xstrings/strings.go:86-92 | the reversed string is valid, has as many runes, its rune `i` is rune `n-1-i` of `s`, and "" reverses to "" |
| XStrings.ReversalTwice | xstrings/strings.go:86-92 | reversing twice gives back a valid string, and any string with malformed bytes replaced by U+FFFD |
| XStrings.Repeat | xstrings/strings.go:95-102 | `n` copies of `s` for positive `n`, "" for `n <= 0` |
| XStrings.CopiesLength | xstrings/strings.go:95-102 | `n` copies have `n * len(s)` bytes |
| XStrings.CopiesAdd | xstrings/strings.go:97-100 | `m + n` copies are `m` copies followed by `n` copies |
| XStrings.CopiesValid | xstrings/strings.go:95-102 | copies of a valid string are valid |
| XStrings.CopiesRuneCount | xstrings/strings.go:95-102 | copies of a valid string have `n` times its rune count |
| XStrings.LastChars | xstrings/strings.go:105-113 | the result is a suffix of `s`: empty when `s` is empty or `size < 0`, all of `s` when `len(s) <= size`, else `size` bytes long |
| XStrings.LastCharsIdempotent | xstrings/strings.go:105-113 | taking the last `size` bytes twice is taking them once |
| XStrings.LastCharsOfAppend | xstrings/strings.go:109-112 | the last `len(t)` bytes of `f + t` are `t` |
| XStrings.LastCharsSplitsRune | xstrings/strings.go:104-113 | the count is in bytes: the last byte of the valid "é" is returned alone and is not valid |

## Left out

- `MapParallel` and `MapParallelWithContext`: goroutines, channels, a wait group and context cancellation have no sequential meaning to model.
- Packages `xhttp`, `httpbody`, `xjson`, `xtesting` and `ptr`: I/O, foreign library calls and address-of helpers with no logic of their own; they are not part of this model.
- XSlices.Min: modelled over `int` only. The `ordered` constraint also admits floats (including NaN) and strings, which are not modelled.
- XSlices.Max: modelled over `int` only, for the same reason.
- XSlices.Associate: the comment's claim that the map keeps the input's iteration order is not modelled, because Go maps have no iteration order; only the keys and values are.
- XMaps.Equal: Go's `comparable` admits floats and interfaces, where NaN != NaN, so `Equal(m, m)` is false for a map holding NaN; the model uses Dafny's `==`, which is reflexive, so Equal and SameEntriesReflexiveSymmetric hold only for value types with a reflexive `==`.
- XMaps.Intersect: for the same reason an entry whose value is NaN is dropped by Go's `Intersect(m, m)`; the model and IntersectionSelf assume a reflexive `==`.
- XMaps.Difference: for the same reason an entry whose value is NaN is kept by Go's `Difference(m, m)`; the model and DifferenceSelf assume a reflexive `==`.
- XSlices.Difference: a NaN element of `s2` is never found by Go's map lookup, so it is not removed from `s1`; the model's `!in` assumes a reflexive `==` on elements.
- XSlices.MapWithError: the joined error is the list of the failing elements' errors; the message text that `errors.Join` builds is library behaviour.
- Mapper, predicate and table functions are pure Dafny functions. Side effects or panics in a Go callback are not modelled.
- The tables of package `unicode` are parameters, not Unicode data. A result that depends on a table entry (for example whether `unicode.ToUpper` of 'a' is 'A') holds for whatever table is passed.
- XStrings.Lower: `strings.ToLower` is modelled by its general path: decode, map each rune, encode, with malformed bytes becoming U+FFFD. The ASCII fast path of the Go library gives the same bytes only when the lower-case table agrees with ASCII lower-casing on every ASCII rune (A-Z to a-z, every other ASCII rune unchanged); for other tables the model can differ on all-ASCII strings.
- Table results outside the Unicode scalar values are not modelled: the table parameters return runes. Go's `string(r)` would encode such a result as U+FFFD.
- Go maps and slices are values here. Aliasing is not modelled. Every helper builds a fresh result, and its inputs cannot change.
- Go's `range` over a map visits keys in an unspecified order. The loops pick any key not yet visited, so every proved result holds for every order.
- XStrings.Reverse: swaps the runes in a Dafny array, as the Go code swaps them in a `[]rune`. The conversion back to a string is the function `Encode`.

## Findings

| source | as written | input that shows it | evidently intended | confidence | as-written member | corrected member |
|---|---|---|---|---|---|---|
| xstrings/strings.go:14 | the rest of the string is taken from byte 1, whatever the width of the first rune | "éa" (bytes C3 A9 61): the result is the upper-cased "é" followed by the stray byte A9 and "a", which is not valid UTF-8 | the comment says only the first rune (not byte) changes: the rest should start after the first rune's bytes | not executed | XStrings.CapitalizeAsWrittenSplitsRune | XStrings.CapitalizeKeepsValid |
