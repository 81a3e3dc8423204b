# Permission-set utility (js-roles), modelled in Dafny

The modelled module exports four operations over permission strings:

- `isPermissionInList(permission, list)` tests whether one permission is in a list.
- `isPermissionsInList(permissions, list)` is the "all of" check.
- `isPermissionsOneOf(permissions, list)` is the "one of" check.
- `mergePermissions(...lists)` returns the duplicate-free union of several lists.

The empty string means "no permission". It is never granted, and `mergePermissions` drops it. Comparison is exact, case-sensitive string equality.

`roles.dfy` (module `Roles`) holds the model:

- `IsPermissionInList` is a function. JavaScript's `Array.prototype.indexOf` is modelled as the function `IndexOf`.
- The two checks are methods with the source's `for` loop, `result` flag and `break`. Each is proved equal to a specification predicate, `AllInList` or `OneInList`.
- `MergePermissions` is a method with the source's nested loops. Its result is a local sequence that grows by appending. It is proved equal to `Merged(lists)`, the first-occurrence scan (`FirstOccurrences`) of the concatenated lists (`Flatten`).
- The variadic `...lists` is a `seq<seq<Permission>>`.

Lemmas characterise `Merged` completely. The result has no duplicates and no empty strings. A permission is in it exactly when it is non-empty and occurs in some input list. Its elements come in order of first appearance, and it is the only sequence with all of these properties. Merging is idempotent, and merging one more list only appends to the result.

`roles_test_cases.dfy` (module `RolesTestCases`) states the test suite's expectations as lemmas.

Dafny sequences are immutable values, so the model cannot change its inputs. This matches the source, which never writes to its arguments.

## Model

| member | source | states |
|---|---|---|
| Roles.IndexOf | src/index.js:40 | result is -1 exactly when `x` is absent; otherwise it indexes an element equal to `x` with no earlier occurrence |
| Roles.IsPermissionInList | src/index.js:33-41 | true iff the permission is non-empty and some list element equals it exactly |
| Roles.IsPermissionsInList | src/index.js:49-70 | the flag loop with early exit returns exactly `AllInList`: the request is non-empty and each element is in the list |
| Roles.IsPermissionsOneOf | src/index.js:78-97 | the flag loop with early exit returns exactly `OneInList`: some element of the request is in the list (false for an empty request) |
| Roles.AllInListIsInclusion | src/index.js:57-69 | "all of" holds iff the request is non-empty and every requested permission is a non-empty member of the list |
| Roles.OneInListIsOverlap | src/index.js:86-96 | "one of" holds iff the request and the list share a non-empty permission |
| Roles.AllInListImpliesOneInList | src/index.js:49-97 | a request granted by "all of" is also granted by "one of" |
| Roles.EmptyNeverGranted | src/index.js:40-96 | `""` is never in a list, even in `[""]`; `[]` and `[""]` fail both the "all of" and the "one of" check |
| Roles.FlattenMembership | src/index.js:107-115 | a permission is in the concatenation of the lists iff it is in one of them |
| Roles.FirstOccurrencesContents | src/index.js:114-124 | the scan result has no duplicates and no empty strings; it holds exactly the non-empty elements of the input |
| Roles.MergedContents | src/index.js:104-127 | the merge has no duplicates and no empty strings; it holds exactly the non-empty permissions of the input lists |
| Roles.MergePermissions | src/index.js:104-127 | the nested loops appending after an `indexOf` miss return exactly `Merged(lists)` |
| Roles.FirstOccurrencesInAppearanceOrder | src/index.js:114-124 | the scan result is strictly ordered by first index in the input |
| Roles.MergedInAppearanceOrder | src/index.js:107-124 | the merge is strictly ordered by first appearance in the concatenated input lists |
| Roles.AppearanceOrderIsUnique | src/index.js:107-124 | two sequences with the same elements, both strictly ordered by first appearance, are equal |
| Roles.FirstOccurrencesCharacterized | src/index.js:114-124 | any sequence of exactly the non-empty input elements in first-appearance order is the scan result |
| Roles.MergedCharacterized | src/index.js:104-127 | the merge is the only sequence of the non-empty input permissions in first-appearance order |
| Roles.FirstOccurrencesOfDistinct | src/index.js:121-122 | scanning a duplicate-free sequence of non-empty permissions returns it unchanged |
| Roles.MergeIdempotent | src/index.js:104-127 | merging the merge result alone gives the same result |
| Roles.FirstOccurrencesExtends | src/index.js:114-124 | scanning more input extends the earlier scan result as a prefix |
| Roles.MergeExtends | src/index.js:107-125 | merging one more list keeps the earlier merge as a prefix |
| Roles.GrantedByMergeIffGrantedByOne | src/index.js:104-127 | a permission is in the merged list iff it is in one of the merged lists |
| RolesTestCases.IsPermissionInListCases | test/index.test.js:33-57 | `'test'` is in `['test']`; it is not in `['testing']` or `['Test','TEST']`; `''` is not in `['']` |
| RolesTestCases.IsPermissionsInListCases | test/index.test.js:59-84 | `['test']` passes "all of" against `['test']`; `['test','quit']`, `['']`, `[]` and the case-changed list fail |
| RolesTestCases.IsPermissionsOneOfCases | test/index.test.js:86-111 | `['test']` passes "one of" against `['test','quit']`; `['quit']`, `['']`, `[]` and the case-changed list fail |
| RolesTestCases.MergeSingletonsKeepsOrder | test/index.test.js:114-116 | merging singleton lists of three distinct non-empty permissions gives them in argument order |
| RolesTestCases.MergeRepeatedSingleton | test/index.test.js:118-120 | merging the same one-permission list three times gives that permission once |
| RolesTestCases.MergeDistinctKeepsAll | test/index.test.js:134-136 | merging `[a]` and `[b, c]` of three distinct non-empty permissions gives `[a, b, c]` |
| RolesTestCases.MergePermissionsCases | test/index.test.js:113-137 | the four merge expectations of the test suite, on its own strings: `['quit','test','enter']`, `['test']`, `[]` and `['test','Test','TEST']` |

## Left out

- The `TypeError` guards (src/index.js:34-39, 50-55, 79-84, 110-112, 117-119) are not modelled. The parameters are typed `string` and `seq<string>`, so these errors cannot happen in the model. The same goes for the error a non-string element raises through `isPermissionInList` at src/index.js:63 and :90.
- Non-string elements in `list` are not modelled. In JavaScript such an element can sit in the list without raising an error, but strict equality never matches it against a string, so leaving it out changes no result.
- The call through `this` and the default-export object (src/index.js:25, 63, 90) are plumbing and are left out. The model calls `IsPermissionInList` directly.
- Permissions are compared as Dafny strings. The UTF-16 encoding of JavaScript strings is not modelled; equality and emptiness do not depend on it.
