# Hardware list reconciliation, modelled in Dafny

This project models the catalog-reconciliation core of the Entry hardware
application's `hardwareListManager`: the code that turns a legacy descriptor
list, a current descriptor list, the caller's previous list and the online
module registry into one published list of hardware-module descriptors.

The model is pure and value-based.

- `UnionWith` is lodash `unionWith` with a comparator that may rewrite the
  element it inspects. It walks `base ++ target`; each candidate is checked
  against the kept list from front to back; the first claim drops it; an
  unclaimed candidate is appended. The comparator may throw, which aborts the
  union (`Result`).
- `Merges` holds the three resolvers (`mergeHardwareListWithLegacy`,
  `mergeHardwareList`, `addOtherVersions`). Each stage is followed by the
  platform filter and the name sort.
- `Semver` reduces version strings to `Absent | Valid(major, minor, patch) |
  Invalid`. Precedence follows section 11 of Semantic Versioning 2.0.0 on the
  version core of section 2. `lt`/`eq` of a `null` from `valid()` throw; the
  model returns `None` there, and the resolvers turn it into
  `Failure(SemverTypeError)`.
- `Ordering` holds `platformFilter` and `nameSortComparator` as written. The
  sort is a binary insertion sort driven by that comparator.
- `OnlineModules` holds `onlineModuleSchemaModifier`, the first-seen
  de-duplication by `moduleName`, and `getHardwareModulesFromOnline` with the
  fetch result as an `Option` input.
- `HardwareListManager` holds the manager's state (router present, published
  list, online snapshot, events sent), publish/notify, lookup by id, and
  `updateHardwareList` as a function from state and inputs to the next state.

Four behaviours of the code are easy to miss; the model keeps them:

- Legacy stage direction. The kept element is the LEGACY one (the union's
  base). It takes the current descriptor's `version` and `moduleName`, and
  becomes `available`, when its defaulted version is not newer than the
  current one. It does not give its own fields to the current descriptor.
- Invalid or missing versions. They do not default silently, but a throw
  needs an id match. In the base and version merges a kept element without
  a version takes the `!ori.version` branch and `semver` is never called;
  with a present kept version, a candidate without a valid version or a kept
  version that is invalid makes `semver` throw. In the legacy merge the kept
  version is defaulted first, so any candidate without a valid version, or
  an invalid kept version, throws on a match. A throw abandons the rest of
  the update at the catch on line 70.
- The name comparator. Its right-hand fallback reads the LEFT operand's
  name, so it is not a consistent order. The model keeps this, and proves
  only that the sort permutes its input. `Ordering.CompareIsNotAntisymmetric`
  exhibits two descriptors that each compare greater than the other.
- The online stage is two passes. The published list is first merged with
  the de-duplicated online list by `mergeHardwareList`. `addOtherVersions`
  then merges the result with EVERY normalised online entry, duplicates
  included.

## Model

| member | source | states |
|---|---|---|
| Semver.OrDefault | app/src/main/core/hardwareListManager.ts:111 | the fallback to '1.0.0' for a falsy version: a missing version becomes 1.0.0, a present one is kept |
| Semver.CompareVersions | app/src/main/core/hardwareListManager.ts:87-88 | semver's three-way compare of two versions: defined exactly when both are valid, in -1..1, negative exactly when the first precedes, zero exactly when they are equal, positive exactly when the second precedes |
| Semver.CompareVersionsIsAntisymmetric | app/src/main/core/hardwareListManager.ts:87-88 | swapping the operands negates the comparison |
| Semver.Lt | app/src/main/core/hardwareListManager.ts:87 | `lt(valid(a), valid(b))` throws exactly when either version is not valid; otherwise it holds exactly when `a` precedes `b` |
| Semver.Eq | app/src/main/core/hardwareListManager.ts:88 | `eq(valid(a), valid(b))` throws exactly when either version is not valid; otherwise it holds exactly when neither precedes the other, that is when the versions are equal |
| Semver.LtEqTrichotomy | app/src/main/core/hardwareListManager.ts:86-88 | for valid versions exactly one of `lt(a, b)`, `eq(a, b)`, `lt(b, a)` holds |
| Semver.PrecedesIsStrictTotalOrder | app/src/main/core/hardwareListManager.ts:108 | precedence on version cores is irreflexive, transitive, asymmetric and total |
| Descriptors.IndexOf | app/src/main/core/hardwareListManager.ts:32 | `indexOf` returns the first index holding the value, and -1 exactly when no element holds it |
| Descriptors.Supports | app/src/main/core/hardwareListManager.ts:31-32 | `platformFilter` holds exactly when the platform field exists and contains the running platform |
| Ordering.PlatformFilter | app/src/main/core/hardwareListManager.ts:31-32 | a descriptor is in the result exactly when it is in the input and its platform list exists and contains the running platform; the result is a subsequence of the input |
| Ordering.PlatformFilterCounts | app/src/main/core/hardwareListManager.ts:31-32 | each supported descriptor occurs as often in the result as in the input, every other descriptor not at all |
| Ordering.Trim | app/src/main/core/hardwareListManager.ts:19 | `trim()` leaves no white space at either end, and yields the empty string exactly when the input is all white space |
| Ordering.TrimParts | app/src/main/core/hardwareListManager.ts:19 | the input is its leading white space, then the trimmed string, then its trailing white space |
| Ordering.TrimIsIdempotent | app/src/main/core/hardwareListManager.ts:19 | trimming twice is trimming once |
| Ordering.KoName | app/src/main/core/hardwareListManager.ts:19 | `name?.ko?.trim()` is truthy exactly when the name is localized with a Korean string that is not all white space, and then it is that string trimmed, with no white space at either end |
| Ordering.SortKey | app/src/main/core/hardwareListManager.ts:19 | the left operand is undefined exactly when the name is missing; the trimmed Korean name when it is truthy; otherwise a plain-string name itself, and for a localized name without a usable Korean text the object, which compares as "[object Object]" |
| Ordering.StrLess | app/src/main/core/hardwareListManager.ts:22-24 | string `<` holds exactly when the left string is a proper prefix of the right, or has the smaller character at the first position where they differ |
| Ordering.StrLessIsStrictTotalOrder | app/src/main/core/hardwareListManager.ts:22-24 | string `<` is irreflexive, asymmetric, transitive and total on distinct strings |
| Ordering.KeyCompare | app/src/main/core/hardwareListManager.ts:22-28 | the comparison returns 1 exactly when both keys are strings and the left is greater, -1 exactly when both are strings and the left is smaller, and 0 otherwise: when the operands are equal or one is undefined |
| Ordering.KeyCompareIsAntisymmetric | app/src/main/core/hardwareListManager.ts:22-28 | swapping the operands negates the comparison |
| Ordering.Compare | app/src/main/core/hardwareListManager.ts:18-29 | the comparator returns -1, 0 or 1; it is 0 when the left name is missing; when the right operand has a truthy trimmed Korean name it compares the two sort keys |
| Ordering.CompareIgnoresRightWithoutKo | app/src/main/core/hardwareListManager.ts:20 | otherwise the left operand is compared with its own raw name, so two descriptors without Korean names always tie |
| Ordering.CompareIsNotAntisymmetric | app/src/main/core/hardwareListManager.ts:19-20 | two concrete descriptors each compare greater than the other |
| Ordering.InsertionPoint | app/src/main/core/hardwareListManager.ts:100 | the binary search of the sort returns a position in the searched range such that the comparator does not put the pivot below the element before it, and puts it below the element at it |
| Ordering.SortByName | app/src/main/core/hardwareListManager.ts:100 | the sort is a permutation of its input |
| Ordering.Finalize | app/src/main/core/hardwareListManager.ts:122 | filter-then-sort keeps exactly the supported elements, as a permutation of the filtered list |
| Ordering.FilterKeepsIdsDistinct | app/src/main/core/hardwareListManager.ts:31-32 | filtering keeps ids distinct and invents no id |
| Ordering.SortKeepsIdsDistinct | app/src/main/core/hardwareListManager.ts:146 | sorting a list with distinct ids keeps them distinct |
| Ordering.FinalizeIsCatalog | app/src/main/core/hardwareListManager.ts:100 | filter-then-sort of a list with distinct ids is a catalog: distinct ids, every entry supports the running platform |
| UnionWith.ScanStopsAtFirstClaim | app/src/main/core/hardwareListManager.ts:80 | one candidate's scan inspects the kept elements from the front, stops at the first inspection that claims the candidate, leaves each inspected element as its inspection made it and every later one untouched; the candidate is claimed exactly when some inspection claimed it |
| UnionWith.Fold | app/src/main/core/hardwareListManager.ts:80 | offering the candidates in turn never shrinks the kept list and adds at most one element per candidate |
| UnionWith.Union | app/src/main/core/hardwareListManager.ts:80 | the union never has more elements than base and target together, and is non-empty when they are |
| UnionWith.UnionKeys | app/src/main/core/hardwareListManager.ts:80-98 | for a resolver that claims exactly on key match, the union's keys are those of base ++ target in first-occurrence order, pairwise distinct |
| UnionWith.UnionOfDisjointKeepsAll | app/src/main/core/hardwareListManager.ts:104-120 | with internally unique, mutually disjoint keys the union has exactly as many elements as base and target together |
| UnionWith.UnionOfDistinctIsConcat | app/src/main/core/hardwareListManager.ts:104-120 | a resolver that leaves other keys alone turns a distinct-key union into plain concatenation |
| UnionWith.UnionKeepsUniqueElement | app/src/main/core/hardwareListManager.ts:126-144 | with such a resolver, an element whose key occurs once in base ++ target reaches the union unchanged |
| UnionWith.UnionCarriesResolution | app/src/main/core/hardwareListManager.ts:80-144 | when a key occurs exactly twice in base ++ target, the resolver's verdict on the later element against the earlier succeeds and the element it keeps is in the union |
| Merges.ResolveLegacy | app/src/main/core/hardwareListManager.ts:80-98 | every inspected kept element gets its version defaulted to 1.0.0; on an id match the kept element ends with the newer of the two versions, taking the candidate's version, moduleName and `available` when its own is not newer; it throws exactly on a match with an invalid kept or non-valid candidate version |
| Merges.ResolveBase | app/src/main/core/hardwareListManager.ts:104-120 | on an id match the kept version is only defaulted, never replaced; moduleName is taken only when the kept version is absent or older, and then the candidate's platform list replaces the kept one exactly when it is strictly longer; the platform never shrinks; no other field changes; throws exactly on bad versions or a missing platform in that branch |
| Merges.ResolveVersions | app/src/main/core/hardwareListManager.ts:126-144 | on an id match a present candidate version is appended to availableVersions with prior entries kept; `needUpdate` and the candidate's moduleName come only when the kept version is absent or older; throws exactly on bad versions |
| Merges.ResolversClaimById | app/src/main/core/hardwareListManager.ts:80-144 | all three resolvers claim exactly the candidates with the kept element's id and never change a kept id; the last two leave other ids untouched |
| Merges.MergeHardwareListWithLegacy | app/src/main/core/hardwareListManager.ts:79-101 | fails exactly when the union throws; otherwise a catalog holding exactly the supported union elements, with ids drawn from base and target |
| Merges.MergeHardwareList | app/src/main/core/hardwareListManager.ts:103-123 | the same for the base merge |
| Merges.AddOtherVersions | app/src/main/core/hardwareListManager.ts:125-147 | the same for the version-accumulating merge |
| Merges.MergeWithEmptyOnlyResorts | app/src/main/core/hardwareListManager.ts:103-123 | merging a catalog with an empty list only re-sorts it |
| Merges.LegacyMergeCarriesResolution | app/src/main/core/hardwareListManager.ts:79-101 | for an id occurring once in base and once in target, a successful union holds the legacy resolver's verdict on the pair, with the base entry's version defaulted, and the merge publishes it when it supports the platform |
| Merges.BaseMergeCarriesResolution | app/src/main/core/hardwareListManager.ts:103-123 | the same for the base merge's resolver |
| Merges.VersionMergeCarriesResolution | app/src/main/core/hardwareListManager.ts:125-147 | the same for the version-accumulating resolver |
| Merges.VersionMergeAccumulates | app/src/main/core/hardwareListManager.ts:125-147 | when the base holds an id once and the target repeats it (the online snapshot has one entry per published version), the union's only entry with that id has the base entry's availableVersions followed by the present versions of all target entries with the id, in target order |
| Merges.FoldAccumulates | app/src/main/core/hardwareListManager.ts:138-140 | folding candidates into a list with a single entry of an id keeps that entry in place and appends the present versions of the candidates with the id, in order |
| Merges.Defaulted | app/src/main/core/hardwareListManager.ts:81-83 | the legacy default sets a missing version to 1.0.0 and changes no other field; an element with a version is left as it is |
| Merges.NewEntryIsAppendedUnchanged | app/src/main/core/hardwareListManager.ts:103-123 | a supported target entry with an id new to the base and unique in the target is published exactly as it came |
| OnlineModules.ApplyOverlay | app/src/main/core/hardwareListManager.ts:41 | lodash `merge` of `properties`: the extra fields are those of both sides, the overlay's winning on a shared name and the descriptor's kept otherwise |
| OnlineModules.EmptyOverlayChangesNothing | app/src/main/core/hardwareListManager.ts:41 | merging an overlay that sets nothing leaves the descriptor unchanged |
| OnlineModules.OverlayIsIdempotent | app/src/main/core/hardwareListManager.ts:41 | merging the same overlay twice is merging it once |
| OnlineModules.Normalize | app/src/main/core/hardwareListManager.ts:34-42 | name is the title and availableType is needDownload unless properties override them; title and files are gone unless properties re-add them; properties win every field; other fields are copied |
| OnlineModules.DedupFrom | app/src/main/core/hardwareListManager.ts:167-174 | the first-seen de-duplication never lengthens the list and keeps only input entries whose moduleName was not already found |
| OnlineModules.DedupFromSpec | app/src/main/core/hardwareListManager.ts:167-174 | with a set of names already found, the result is a subsequence whose moduleNames are the input's new names in first-occurrence order, and every first entry of a new name is kept |
| OnlineModules.FirstPerModuleNameSpec | app/src/main/core/hardwareListManager.ts:165-174 | de-duplication is an order-preserving subsequence whose moduleNames are the input's in first-occurrence order |
| OnlineModules.FirstPerModuleNameKeepsFirsts | app/src/main/core/hardwareListManager.ts:165-174 | the first entry of each moduleName is kept |
| OnlineModules.DedupByModuleName | app/src/main/core/hardwareListManager.ts:167-174 | the loop with its set of found names computes exactly the first-seen de-duplication |
| OnlineModules.GetHardwareModulesFromOnline | app/src/main/core/hardwareListManager.ts:160-196 | a failed fetch yields [] and keeps the previous snapshot; a successful one replaces the snapshot with every normalised schema, in order, and returns exactly its first entry per moduleName |
| HardwareListManager.NewManager | app/src/main/core/hardwareListManager.ts:44-52 | a new manager has empty lists and has sent nothing |
| HardwareListManager.Notify | app/src/main/core/hardwareListManager.ts:263-265 | exactly one 'hardwareListChanged' event when a router exists, none otherwise, nothing else changes |
| HardwareListManager.Publish | app/src/main/core/hardwareListManager.ts:149-158 | the whole list is replaced, the snapshot is kept, and one notification follows |
| HardwareListManager.FirstIndexWithId | app/src/main/core/hardwareListManager.ts:76 | the index of the first element with the id, or none when no element has it |
| HardwareListManager.GetHardwareById | app/src/main/core/hardwareListManager.ts:75-77 | returns the first published element with the id, or nothing exactly when none has it |
| HardwareListManager.LookupInCatalogIsUnique | app/src/main/core/hardwareListManager.ts:75-77 | in a published catalog the element found is the only one with that id |
| HardwareListManager.LookupAfterPublish | app/src/main/core/hardwareListManager.ts:156 | after a publish, a lookup returns the first entry of the new list with that id, or nothing when the new list has none |
| HardwareListManager.LocalStage | app/src/main/core/hardwareListManager.ts:60-62 | the legacy merge then the base merge with the caller's list; a success is a catalog |
| HardwareListManager.OnlineStage | app/src/main/core/hardwareListManager.ts:66-67 | the base merge with the online list then the version merge with the snapshot; a success is a catalog |
| HardwareListManager.UpdateHardwareList | app/src/main/core/hardwareListManager.ts:54-73 | a throw in the local stage publishes nothing; otherwise the published list is a catalog and the snapshot is the fetch's; at most two events are added, none without a router |
| HardwareListManager.UpdateOutcomes | app/src/main/core/hardwareListManager.ts:56-73 | nothing published, only the local list (online stage threw), or the complete list with two notifications |
| HardwareListManager.FetchFailureReusesSnapshot | app/src/main/core/hardwareListManager.ts:192-195 | a failed fetch keeps the previous snapshot, and the final list is the re-sorted local list merged with that snapshot's versions |
| HardwareListManager.UpdateIsIdempotent | app/src/main/core/hardwareListManager.ts:54-73 | a second update with the same inputs publishes the same list and snapshot |
| HardwareListManager.UpdateKeepsCatalog | app/src/main/core/hardwareListManager.ts:63-69 | every update leaves a catalog in place if it found one |

## Left out

- Disk loading (lines 197-241): directory creation, reading, JSON parsing, the `.json` filter, and the loaders' own forcing of `available`, filtering and sorting. The two disk lists are inputs, as the loaders return them.
- Archive installation (lines 242-262). It is extraction by foreign libraries followed by a fresh update.
- The `getModuleList` network call, all logger output, and the Electron router transport. The fetch is an `Option` input; notifications are an event log.
- `async`/`await` and overlapping updates. Updates run one at a time, so line 66 reads the list published on line 63.
- Object aliasing. The model uses value semantics, so these effects are absent. Line 66 mutates descriptors already published on line 63, even when a later throw aborts the update. `addOtherVersions` receives online entries that are the very objects already appended to its base. Loader objects are rewritten in place.
- Semver prerelease and build metadata, loose parsing, and the normalised string `valid()` returns. A valid version is its parsed core.
- Ordering.SortByName: V8's TimSort is modelled as a plain binary insertion sort over the whole list. TimSort's binary insertion step is modelled; its natural-run detection, the reversal of a descending run and the merging of runs are not. Because the comparator is inconsistent, neither sortedness nor stability is claimed.
- Ordering.StrLess: JavaScript compares strings by UTF-16 code units; the model compares code points. They differ only between astral characters and U+E000-U+FFFF.
- OnlineModules.Normalize: lodash `merge` is deep. It merges arrays index by index and merges nested objects; the model overrides whole fields. The normalised entry's leftover `properties` field is not kept. A schema's own `availableVersions` or `availableType` is not modelled.
- Semver.Version: an empty version string and a missing one are both `Absent`, since both are falsy. `Invalid(raw)` stands for a non-empty string that `valid()` rejects; `Invalid("")` is not a value the model gives any descriptor, since the empty string is `Absent`. An overlay version of `Some(Absent)` stands for a `null` or `''` in `properties`, which lodash `merge` copies over the version and so removes it.
- Descriptor `name` values other than missing, a string or an object with `ko`/`en` strings, and `platform` values other than an array of strings.
- An absent `availableVersions` and an empty one are the same value.
- Descriptors.Descriptor: `extras` stands for the fields other than the typed ones, so its keys are assumed not to be `id`, `name`, `moduleName`, `version`, `platform`, `availableType` or `availableVersions`; no predicate enforces this.
- UnionWith.Union: its own contract bounds only the length. What survives the union is stated by lemmas for keyed resolvers: `UnionKeys` (the keys, in first-occurrence order), `UnionKeepsUniqueElement` (an element with a unique key stays unchanged), `UnionOfDistinctIsConcat` and `UnionCarriesResolution` (the resolver's verdict on a key that occurs twice).
- HardwareListManager.UpdateIsIdempotent: holds only under value semantics. Line 67 appends online entries that are the very objects of the online snapshot, and line 139 later rewrites them in place, so a repeated update whose fetch fails appends versions again. With a snapshot [A{id x, 1.0.0}, B{id x, 2.0.0}] and two failed fetches, the program publishes `availableVersions` ['2.0.0'] and then ['2.0.0', '2.0.0']; the model gives [Valid(2, 0, 0)] both times.
