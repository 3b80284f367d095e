# Download statistics tool of Mac Mouse Fix, in Dafny

`stats_internal.py` is the maintainer's command-line tool that reads the
download counts of the GitHub releases of Mac Mouse Fix, keeps a JSON history
of them (`record`), prints it (`print`) and plots it (`plot`). This project
models the parts of it that are plain logic over integers and strings, and
proves what they do:

- `make_path`, a "mkdir -p" for nested dictionaries (module `Nested`, class
  `HistoryStore.History`). A history value is a `Node`, either a count
  (`Leaf`) or a dictionary (`Dict`). `History.MakePath` is the `while paths:`
  loop. It updates `root` at every `setdefault`, and it returns the innermost
  dictionary together with its location (`at`, a sequence of `Frame`s).
  Writing through that location is how the model writes into the returned
  dictionary. `EnsurePath`, `Reached` and `Graft` give the loop's result as
  functions of the history before the call.
- the `record` loop (`History.Record`, `History.RecordRelease`, functions
  `RecordOne` and `RecordAll`). It runs
  `make_path(history, name, time)['download_count'] = downloads` for each
  release, in order.
- `sorted_by_release` (module `ReleaseSort`). A list is sorted stably by a
  string field. `Ordering.SortBy` is an insertion sort, and
  `Ordering.StableSortIsSortBy` proves that every stable sort returns the same
  sequence, Python's Timsort included. A dictionary comes back as its items
  sorted by key. Any other argument is an error.
- `cool_diff` (module `WindowDiff`), as written, with Python's
  negative-index wraparound.
- the `all-stable` filter and the choice of versions to plot (module
  `Versions`).
- the total of the default command (`Releases.TotalDownloads`,
  `ReleaseSort.CurrentDownloads`).

Python exceptions become `Result` errors where the function raises on
purpose: `raise Exception('Unexpected argument type')`, and the `KeyError` of
`i[key]` while sorting. Where the script would simply crash, the model has a
precondition instead. This covers a path through or ending on a count
(`Nested.Walkable`): `make_path` itself then either fails on `setdefault` of
a count or returns the count, and line 85 raises. It also covers a release
without `name` or assets (`Releases.WellFormed`).

## Model

| member | source | states |
|---|---|---|
| `Nested.EnsurePathEmpty` | stats_internal.py:284-288 | with no keys, `make_path` returns the dictionary it was given and leaves it as it was |
| `Nested.ReachedIsExistingOrEmpty` | stats_internal.py:285-287 | the returned dictionary is the one already at the path, or a new empty one when the path was missing (that the path ends on a dictionary follows from the precondition) |
| `Nested.EnsurePathReaches` | stats_internal.py:285-288 | afterwards every prefix of the path names a dictionary, and the dictionary at the full path is the one returned |
| `Nested.EnsurePathFrame` | stats_internal.py:287 | every lookup that is not a prefix of the path gives the same result before and after |
| `Nested.EnsurePathKeeps` | stats_internal.py:287 | nothing that existed disappears, and every count in the history keeps its value |
| `Nested.AssignAtFound` | stats_internal.py:85 | after `make_path(t, *path)[key] = v`, the lookup of `path + [key]` yields `v` |
| `Nested.AssignAtFrame` | stats_internal.py:85 | that assignment changes no lookup that neither leads to nor passes through `path + [key]` |
| `HistoryStore.History.MakePath` | stats_internal.py:284-288 | the loop leaves the history equal to `EnsurePath(old, path)` and returns `Reached(old, path)`; its location `at` grafts any dictionary at the path; an empty path changes nothing |
| `HistoryStore.History.RecordRelease` | stats_internal.py:79-85 | one assignment through `make_path` leaves the history equal to `RecordOne(old, name, time, downloads)` |
| `HistoryStore.History.Record` | stats_internal.py:76-85 | the loop over the releases leaves the history equal to `RecordAll(old, releases, time)` |
| `HistoryStore.RecordOne` | stats_internal.py:85 | one recorded data point keeps the file's layout of names, then timestamps, then dictionaries |
| `HistoryStore.RecordAllSets` | stats_internal.py:76-85 | afterwards `history[name][time]['download_count']` is the first-asset download count of the last release with that name |
| `HistoryStore.RecordAllFrame` | stats_internal.py:76-85 | every lookup that avoids all written paths is unchanged |
| `HistoryStore.RecordAllOtherNames` | stats_internal.py:76-85 | the entry of a version that no release is named after is unchanged |
| `HistoryStore.RecordAllOtherTimes` | stats_internal.py:74-85 | the data points of every version at other timestamps are unchanged |
| `Ordering.StrLeTotal` | stats_internal.py:303 | Python's `<=` on `str` (code point by code point, a proper prefix first) relates any two strings one way or the other |
| `Ordering.StrLeTransitive` | stats_internal.py:303 | that ordering is transitive |
| `Ordering.StrLeAntisymmetric` | stats_internal.py:303 | two strings each `<=` the other are equal, so sorted keys that differ are in strictly increasing order |
| `Ordering.SortByIsStable` | stats_internal.py:303 | the sort returns a permutation of its input in non-decreasing key order, and ties keep their input order |
| `Ordering.StableSortUnique` | stats_internal.py:303 | two sequences in key order that agree key by key are equal |
| `Ordering.StableSortIsSortBy` | stats_internal.py:303 | any stable sort of the input (Timsort included) is the modelled sort |
| `ReleaseSort.SortedByRelease` | stats_internal.py:301-307 | a list is stably sorted by field `key`, with a missing-field error exactly when some element lacks the field; a dictionary is stably sorted by key; any other argument is exactly the "Unexpected argument type" error |
| `ReleaseSort.SortedByReleaseDict` | stats_internal.py:304-305 | a dictionary comes back as exactly its key/value pairs in strictly increasing key order, and the result does not depend on `key` |
| `ReleaseSort.TotalOfSortBy` | stats_internal.py:25-30 | sorting the releases leaves the sum of their first-asset counts unchanged |
| `ReleaseSort.CurrentDownloads` | stats_internal.py:24-32 | the default command fails exactly when a release has no `published_at`; otherwise the total it prints is the sum of the first-asset counts of all releases |
| `Releases.TotalDownloads` | stats_internal.py:26-30 | the accumulation loop yields `TotalOf(releases)`, the sum of the first-asset download counts |
| `Releases.TotalOfAppend` | stats_internal.py:26-30 | the total of a concatenation is the sum of the totals |
| `WindowDiff.CoolDiff` | stats_internal.py:309-323 | the loop returns `CoolDiffOf(a, n)` |
| `WindowDiff.CoolDiffShape` | stats_internal.py:314-321 | with `n == 0` the values come back unchanged; otherwise there are `max(0, len - 2n)` elements, and element `i` is `a[i+n] - a[i-n]`, where the second index wraps around to `a[len+i-n]` for `i < n` |
| `WindowDiff.WindowLength` | stats_internal.py:319 | for `n > 0`, `array[n:-n]` holds `len - 2n` values, or none |
| `WindowDiff.CoolDiffOnLinear` | stats_internal.py:319-321 | on values growing by `c` per step, the elements from index `n` on equal `2nc`, and the first `n` equal `(2n - len)c` |
| `WindowDiff.CoolDiffWrapsAround` | stats_internal.py:319-320 | on 0,1,2,3,4 with `n = 1` the result is -3,2,2, where the centred difference is 2,2,2 |
| `WindowDiff.CentredDiffOnLinearAt` | stats_internal.py:309-312 | on values growing by `c` per step, each element of the centred difference equals `2nc` |
| `WindowDiff.CentredDiffOnLinear` | stats_internal.py:309-312 | the centred difference has `max(0, len - 2n)` elements, each equal to `2nc` on values growing by `c` per step |
| `Versions.StableVersions` | stats_internal.py:111-113 | a name is kept exactly when it was in the input and has no space; the result is no longer than the input |
| `Versions.StableVersionsInOrder` | stats_internal.py:113 | the kept names are in their original order (a subsequence of the input) |
| `Versions.StableVersionsAppend` | stats_internal.py:113 | the filter works name by name: filtering a concatenation concatenates the results |
| `Versions.StableVersionsIdempotent` | stats_internal.py:113 | filtering twice gives the same result as filtering once |
| `Versions.SelectVersions` | stats_internal.py:103-117 | with no sub-argument, or with `all` or `total`, every history version is selected; `all-stable` selects exactly the versions without a space, in order; `latest` selects the latest release's name; any other arguments are taken as the version list |

## Left out

- The Objective-C scroll-wheel processing of the application is not part of this model.
- `load_releases` and `load_latest_release` (stats_internal.py:251-272) are HTTP requests. The releases and the latest release's name are parameters. Their pagination URL is not modelled.
- `load_history` (stats_internal.py:274-281) reads a file, and lines 92-93 write it. The history is the argument of the `History` constructor, and writing it back is left out.
- `print_nested` (stats_internal.py:290-299) and every `print` produce console output only. The `print` command is modelled only as the dictionary case of `SortedByRelease`.
- Building and drawing the plot data (stats_internal.py:119-244) and `make_format` (325-342) are left out: the `history[version]` lookup, which raises a KeyError for a version the history lacks, the `int(...)` and `fromisoformat` conversions, and the matplotlib calls.
- The numpy and datetime arithmetic of the `total` plot (stats_internal.py:155-206) is floating point. `datetime.utcnow()` is the `time` parameter of `Record`, already turned into a string.
- The `sys.argv` dispatch, `--help`, `exit()` and the two "command line argument" exceptions (stats_internal.py:22-67, 246-249) are left out. Only the choice of plotted versions is modelled.
- `HistoryStore.History.MakePath`: the returned dictionary is a value, not a reference into the history. Writes reach the history only through the returned location. Other aliasing between sub-dictionaries is not modelled.
- `Nested.Table`: a `map` has no insertion order. So the order of `history.keys()` is a separate sequence (`SelectVersions`, `StableVersions`), and a dictionary passed to `sorted_by_release` is given as its `items()` sequence.
- `Nested.Node`: history values are only integers and dictionaries. The other JSON types a hand-edited file could hold are not modelled.
- `ReleaseSort.SortedByRelease`: release fields are strings. Sorting by a field that holds numbers, lists or mixed types is not modelled.
- `WindowDiff.CoolDiff`: `n` is a natural number. Negative windows are not modelled, and neither are numpy's 64-bit integers.
- `Releases.TotalDownloads`, `ReleaseSort.CurrentDownloads`, `HistoryStore.History.Record`: a release without `name` or without assets makes the script crash (for the default command, the IndexError at line 29 after the sort). Here that is a precondition (`WellFormed`).
- `HistoryStore.HistoryShape`: the history file has the layout `record` writes, starting from the empty history of line 275. A hand-edited file in which another version holds a non-dictionary is not modelled.

## Findings

| source | as written | input that shows it | evidently intended | confidence | as-written member | corrected member |
|---|---|---|---|---|---|---|
| stats_internal.py:319-320 | element `i` of the window `array[n:-n]` is `array[i+n] - array[i-n]`, so for `i < n` the look-back index is negative and wraps to the end of the array | `[0, 1, 2, 3, 4]`, `n = 1` gives `[-3, 2, 2]` | the window element at index `i+n` minus its look-back: `array[i+2n] - array[i]`, which gives `[2, 2, 2]` | medium; not executed | `WindowDiff.CoolDiffWrapsAround` | `WindowDiff.CentredDiffOf` (`CentredDiffOnLinearAt`, `CentredDiffOnLinear`) |

`cool_diff` has no caller in the script, so no other part of the model uses
either definition. `CoolDiffOnLinear` gives the general form of this finding:
on any evenly growing series, the first `n` elements are wrong.
