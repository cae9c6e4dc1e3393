# Release registry promotion (emsdk `create_release.py`)

This project models the release script of the Emscripten SDK. The script
reads the release registry, which holds two tables:

- `releases` maps version strings to the hash of the upstream build. The
  table is ordered.
- `aliases` maps names such as `latest` to version strings.

The script parses `aliases['latest']` and adds one to its last component. It
names a branch `version_<a>_<b>_<c>` after the new version. It records the
new version with its hash, re-sorts `releases` newest first and points
`latest` at the new version. If the git working tree is dirty, it exits with
status 1 before doing any of this.

The model has six modules, one per concern:

- `Outcomes` (outcomes.dfy): the errors the script can stop with, and a result type.
- `Versions` (versions.dfy): `version_to_list`. This covers `re.split('[.-]', ...)`,
  `int()` on digit strings and `str()` of a non-negative integer. It also holds
  Python's `<` on integer lists, the bump of the last component, and the branch
  name and version string built from the bumped list.
- `VersionSort` (sorting.dfy): the stable sort that `list.sort(key=...)` performs,
  with the list's items decorated with their parsed versions, and `reversed`.
- `Registry` (registry.dfy): the `releases` dict as an insertion-ordered
  dictionary (`OrderedDict`, a value). It also holds the re-sort newest first
  and the promotion of a new release into the table.
- `CreateRelease` (create_release.dfy): `main` as the class `ReleaseInfo`. Its
  fields are the two tables, and its `Promote` method updates them step by step.
- `ReleaseScenarios` (scenarios.dfy): two worked examples.

Version lists are `seq<nat>`. Every token that parses is a string of ASCII
digits, and the bump only adds one, so no component is ever negative.

## Where the code and its description differ

The model follows the code in each case.

- The description says the patch (third) component is incremented. The code
  increments the *last* element of the parsed list. A version with fewer than
  three tokens has fewer than three elements: `"2"` becomes `"3"` and `"1.5"`
  becomes `"1.6"`. `Versions.NextVersion` bumps the last element.
- The description says re-sorting an already descending table is idempotent.
  The code sorts ascending (stably) and then reverses. Keys whose versions tie,
  such as `"1.0.0-a"` and `"1.0.0-b"` (both parse to `[1, 0, 0]`), therefore
  swap places on every run. `Registry.ResortStrictlyDescending` proves the
  idempotence when no two keys tie. `Registry.ResortFlipsTies` and
  `ReleaseScenarios.ResortSwapsTiedReleases` prove the swap when they do.
- A release key that does not parse makes the sort raise `ValueError`. This
  happens after `releases[new_version] = new_hash` has already changed the
  in-memory table (line 37 runs before line 39). It also happens after the
  branch was created, and before `latest` moves or anything is written.
  `CreateRelease.ReleaseInfo.Record` states this state.

## Model

| member | source | states |
|---|---|---|
| `Versions.Split` | scripts/create_release.py:18 | `re.split('[.-]', s)` always yields at least one piece, and no piece contains a separator |
| `Versions.SplitJoin` | scripts/create_release.py:18 | joining separator-free pieces with a separator and splitting again gives back exactly those pieces |
| `Versions.Decimal` | scripts/create_release.py:29 | `str(n)` is a non-empty digit string whose value is `n`, one digit long iff `n < 10`, with no leading zero |
| `Versions.ParseTokens` | scripts/create_release.py:18 | `[int(t) for t in ts]` succeeds iff every token is a numeral, then gives each token's value in order; otherwise the error names a token that is not a numeral |
| `Versions.VersionToList` | scripts/create_release.py:17-18 | a successful parse has between one and three elements |
| `Versions.VersionToListMeaning` | scripts/create_release.py:18 | the parse succeeds iff each of the first `min(3, #tokens)` tokens is a numeral; its elements are those tokens' values in order; a failure names one of those tokens |
| `Versions.VersionIgnoresSuffix` | scripts/create_release.py:18 | once a string has three tokens, anything appended after a further `.` or `-` does not change the parse |
| `Versions.VersionRoundTrip` | scripts/create_release.py:34 | for any list of one to three non-negative integers, parsing `'.'.join(str(p) for p in v)` gives `v` back |
| `Versions.LessIsLexicallyBefore` | scripts/create_release.py:39 | Python's list `<` holds iff `a` is a proper prefix of `b`, or the first position where they differ has the smaller element in `a` |
| `Versions.LessTransitive` | scripts/create_release.py:39 | the list order the sort uses is transitive |
| `Versions.LessTotal` | scripts/create_release.py:39 | any two different lists are ordered one way or the other |
| `Versions.Bump` | scripts/create_release.py:28 | `new_version[-1] += 1` keeps the length and all earlier elements, and adds exactly one to the last |
| `Versions.BumpIncreases` | scripts/create_release.py:28 | the bumped list is strictly greater than the original under list `<` |
| `Versions.NextVersion` | scripts/create_release.py:27-28 | the next version exists iff `latest` parses, and fails with the parse error otherwise; it has one to three elements, is strictly greater than the parsed `latest`, and its version string parses back to it |
| `Versions.BranchNameTokens` | scripts/create_release.py:29 | the branch name is `version_` followed by the decimal components separated by `_`; these are the same tokens that the version string of line 34 separates by `.` |
| `Versions.BranchNameInjective` | scripts/create_release.py:29 | two different version lists never get the same branch name |
| `VersionSort.Reverse` | scripts/create_release.py:41 | `reversed`: same length, element `i` is element `n-1-i` of the input, same multiset |
| `VersionSort.SortAscending` | scripts/create_release.py:39 | the sort returns a permutation of its input that is non-decreasing in version |
| `VersionSort.SortStable` | scripts/create_release.py:39 | the sort is stable: for every version, the items with that version keep their relative order |
| `VersionSort.ReverseTies` | scripts/create_release.py:41 | reversing a list reverses the order within each group of tied items |
| `VersionSort.SortStrictlyDescending` | scripts/create_release.py:39 | sorting a strictly descending list yields its reverse |
| `Registry.OrderedDict.Put` | scripts/create_release.py:37 | `d[k] = v` maps `k` to `v` and leaves every other key's value alone. An existing key keeps its place; a new key goes last. The key count grows by one iff `k` was absent. Validity is preserved |
| `Registry.Decorate` | scripts/create_release.py:39 | computing every key's sort key succeeds iff every key parses, and pairs each key, in order, with its parsed version |
| `Registry.SortByVersionDescending` | scripts/create_release.py:38-41 | the re-sort succeeds iff every key parses, and otherwise fails with one key's parse error. The result is a permutation of the keys and is non-increasing in parsed version |
| `Registry.TiesComeOutReversed` | scripts/create_release.py:39-41 | keys whose versions tie come out in the reverse of their order before the re-sort |
| `Registry.ResortStrictlyDescending` | scripts/create_release.py:39-41 | re-sorting a table that is strictly descending with no ties leaves its order unchanged (idempotence) |
| `Registry.ResortFlipsTies` | scripts/create_release.py:39-41 | if all keys parse to the same version, the re-sort reverses the table |
| `Registry.PromoteReleases` | scripts/create_release.py:37-41 | promotion fails iff some key of the table after insertion does not parse. On success the contents are the old contents with `version` mapped to `hash`. The order is a permutation of the post-insert order, non-increasing in version. The table stays valid |
| `CreateRelease.ExitCode` | scripts/create_release.py:22-24 | the exit status is 0 exactly after a release is created, and 1 for a dirty tree or a raised error |
| `CreateRelease.ReleaseInfo.Promote` | scripts/create_release.py:21-42 | a dirty tree gives exit 1 with both tables unchanged. A missing `latest` or an unparsable one fails with both tables unchanged. Otherwise the outcome, branch name, version and new tables are those of `NextVersion`, `BranchName` and `PromoteReleases`, and `aliases['latest']` is set. The new version maps to the given hash (the argument, else tip of tree), the order is non-increasing, and every alias still names a release when that held before |
| `CreateRelease.ReleaseInfo.Record` | scripts/create_release.py:37-42 | lines 37-42 as a state change: on success the table is `PromoteReleases` of the old one and `latest` points at the new version. On a sort failure the table holds the insertion and the aliases are unchanged |
| `ReleaseScenarios.PromoteFromOneRelease` | scripts/create_release.py:27-41 | `latest = 1.0.0` gives next version `[1, 0, 1]`, string `1.0.1` and branch `version_1_0_1`. Promoting `{1.0.0: abc}` with hash `def` gives `{1.0.1: def, 1.0.0: abc}` in that order |
| `ReleaseScenarios.ResortSwapsTiedReleases` | scripts/create_release.py:39-41 | `1.0.0-a` and `1.0.0-b` are non-increasing in either order, yet each re-sort swaps them |

## Left out

- The git calls are not modelled. `git status --porcelain` (line 22) becomes
  the boolean parameter `treeDirty`. The branch checkout (line 32) and
  `git add`/`git commit` (lines 51-52) are external effects: the model only
  names the branch, so a branch that already exists is not a modelled failure.
- Loading the registry (`emsdk.load_releases_info`, line 26) is foreign code
  that is not part of this model. The tables are given to the
  `ReleaseInfo` constructor, so a malformed file and missing `releases` or
  `aliases` keys are not modelled.
- The tip-of-tree query (`emsdk.get_emscripten_releases_tot`, line 35) is
  foreign code. Its answer is the parameter `tipOfTree`.
- The JSON write (lines 44-46), the workspace hook (line 48) and the messages
  printed at lines 23, 36 and 54 are I/O and are not modelled.
- `CreateRelease.ReleaseInfo.Promote`: `aliases` is a plain map without
  insertion order. The only write replaces the existing key `latest`, which
  keeps its place in a Python dict, so the order never changes.
- `Versions.ParseTokens` accepts only non-empty ASCII digit strings. Python's
  `int()` also accepts a leading `+`, surrounding whitespace, `_` between
  digits and non-ASCII decimal digits; the model rejects such tokens.
- `VersionSort.SortAscending` is the reference insertion sort. That Python's
  sort gives the same list rests on its documented stability: a stable sort
  by a total order has only one possible result. This is not proved here.
- scripts/update_python.py is not part of this model. It downloads,
  builds, archives and uploads through external tools.
