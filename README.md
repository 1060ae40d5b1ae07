# ucd in Dafny

`ucd` is a `cd` replacement. It keeps two maps keyed by absolute path:

- a history of visited directories, each with a visit count and the time of the last visit;
- a stash of pinned directories, each with the time it was stashed and an optional alias.

One invocation takes a command line and does one of two things:

- runs a maintenance command (clear the history, clear it down to the display limit, clear the stash, re-alias a stash entry), saves the store and prints ".";
- chooses a target directory by a fixed precedence of modes (ancestor swap, alias, history index, stash index, the argument repeated, the home directory), changes into it, counts the visit, optionally stashes it, saves the store and prints the directory for the shell to `cd` into.

The model has four modules:

- `Strings` (`strings.dfy`): Go's order on strings and `strings.Join`.
- `Records` (`records.dfy`): the record types and the store. The store is a class whose two map fields the commands update in place. This module also holds the recency order, newest first and stable on ties, which `sortRecords` computes with `sort.SliceStable`.
  - `RecencyOrder` is a functional stable insertion sort. It is proved to be a permutation of the keys, sorted, and stable.
  - It is also proved to be the only arrangement with these properties, so it is exactly what any stable sort returns.
  - `SortRecords` collects the keys into an array and sorts them in place by adjacent swaps. It is proved to return `RecencyOrder`.
- `Utilities` (`utilities.dfy`): `Repeat`, `prependStrSlice`, `DynamicPathSwap` and `AutoClear`.
  - Each is an imperative method, proved against a pure function.
  - Lemmas about those functions state what the helpers promise.
- `Ucd` (`ucd.dfy`): `main`.
  - `Main` is a function of the request, the environment and the loaded store. It returns how the run ends, whether the cache file is written, and the final store.
  - `Run` executes the steps of `main` in their order on a `Records` object. It is proved to agree with `Main`.
  - The lemmas about `Main` and its parts state the behaviour of each command and each mode.

The modelling choices for Go's behaviour:

- **Map iteration order.** Go leaves it unspecified. It is an input: a sequence listing every key of the map exactly once (`IsEnumeration`). Stability of the sort is stated relative to it: for every timestamp, the keys with that timestamp appear in the same order in the output as in the enumeration.
- **Timestamps.** They are strings, compared with Go's `>` on strings, which compares bytes. `Less` compares characters. The two agree because UTF-8 encoding preserves the order of code points.
- **Current directory.** It is given by its segments: `/x/y/z` is `["x", "y", "z"]` and the root is `[]`.
- **Panics.** The Go runtime panics the model covers (`args[0]` with no argument, an index past the end of the sorted stash, `make` with a negative length) are an outcome of the run, `Panicked`. `AutoClear` reports its panic on a negative limit as a flag. The nil-map panics are listed under "Left out".
- **Environment.** The clock, the home directory, the file system's answer to `os.Chdir` followed by `os.Getwd`, and the store's alias check are parameters (`Env`).

## Model

| member | source | states |
|---|---|---|
| Records.PathRecord.GetTimestamp | records/records.go:26-28 | returns the record's timestamp |
| Records.PathRecord.HasCount | records/records.go:30-32 | a path record has a visit count (true) |
| Records.StashRecord.GetTimestamp | records/records.go:38-40 | returns the stash record's timestamp |
| Records.StashRecord.HasCount | records/records.go:42-44 | a stash record has no visit count (false) |
| Records.Records.constructor | main.go:81-88 | the store used when the cache cannot be decoded has both maps empty |
| Records.PathStamps | records/records.go:10-14 | the timestamps of the path records, one per key, via GetTimestamp |
| Records.StashStamps | records/records.go:10-14 | the timestamps of the stash records, one per key, via GetTimestamp |
| Strings.Less | records/records.go:91 | Go's `>` on timestamps, read the other way round: lexicographic by character, a proper prefix before the longer string |
| Strings.LessIrreflexive | records/records.go:91 | no string is ordered before itself |
| Strings.LessTransitive | records/records.go:91 | Go's string order is transitive |
| Strings.LessTotal | records/records.go:91 | any two distinct strings are ordered one way or the other |
| Strings.LessAsymmetric | records/records.go:91 | two strings are never ordered both ways |
| Strings.LessAtFirstDifference | records/records.go:91 | the first position where two strings differ decides their order |
| Records.InsertByRecency | records/records.go:90-92 | one step of the stable sort: the key moves in front of the strictly older keys at the end of the sorted prefix and stops at the first key not older |
| Records.RecencyOrder | records/records.go:84-95 | the keys as `sortRecords` returns them: each key of the enumeration inserted in turn into the sorted prefix |
| Records.RecencyOrderPermutes | records/records.go:85-92 | the recency order holds the enumerated keys, each as often as enumerated |
| Records.RecencyOrderEnumerates | records/records.go:84-95 | the recency order lists every key of the map exactly once, so its length is the map's size (0 for an empty map) |
| Records.RecencyOrderSorted | records/records.go:90-92 | no key is older than a key after it |
| Records.RecencyOrderStable | records/records.go:90 | keys with equal timestamps keep their relative iteration order |
| Records.StableSortUnique | records/records.go:90-92 | two arrangements that are both sorted newest first and stable for the same enumeration are equal |
| Records.RecencyOrderCharacterized | records/records.go:90-92 | an arrangement is the recency order if and only if it is sorted and stable |
| Records.NewestComesFirst | records/records.go:90-92 | a key strictly newer than every other key comes first |
| Records.OrderIgnoresEnumeration | records/records.go:86-92 | with pairwise distinct timestamps the result does not depend on the map's iteration order |
| Records.InsertByRecencyAt | records/records.go:90-92 | inserting a key puts it behind the keys it does not pass and in front of the strictly older keys it moves past |
| Records.InsertIntoPrefix | records/records.go:90-92 | one insertion step of the stable sort: the key moves left past strictly older keys, the rest of the array is unchanged |
| Records.SortByRecency | records/records.go:90-92 | sorts the array in place by repeated insertion; the new contents are the recency order of the old ones |
| Records.SortRecords | records/records.go:84-95 | collects the keys in iteration order and sorts them in place; the result is the recency order, an enumeration of the keys, sorted and stable |
| Records.SortRecordsExample | records/records_test.go:22-47 | the four test records sort as path3, path4, path2, path1 whatever the iteration order |
| Utilities.Repeated | utilities/utilities.go:66-73 | `times` copies joined by "/"; 0 copies give "" and 1 copy gives the string |
| Utilities.RepeatedStep | utilities/utilities.go:66-73 | one more copy appends "/" and the string |
| Utilities.RepeatedLength | utilities/utilities.go:66-73 | n >= 1 copies give length n·\|s\| + n − 1 |
| Utilities.RepeatedExamples | utilities/utilities_test.go:8-19 | `..` four times is `../../../..`, `.` twice is `./.` |
| Utilities.Repeat | utilities/utilities.go:66-73 | fills a slice of `times` copies and joins them with "/": 0 copies give "", 1 copy gives the string |
| Utilities.PrependStrSlice | utilities/utilities.go:35-40 | append, shift right and store in front: the result is one longer, starts with y and continues with x unchanged |
| Utilities.SwapTarget | utilities/utilities.go:19-33 | the relative path `dynamicPathSwap` returns: the argument, then the names of the directories it walks up through, outermost first |
| Utilities.AncestorIsPrefix | utilities/utilities.go:21-28 | going up i levels drops the last i segments and stops at the root |
| Utilities.SwappedSegmentsAreSuffix | utilities/utilities.go:21-26 | the collected names are the last k segments in order; past the root they are preceded by empty names |
| Utilities.SwapReplacesAncestor | utilities/utilities.go:19-33 | read from the directory the function leaves the process in, the target is the current path with the segment k levels up replaced by the argument |
| Utilities.SwapExample | utilities/utilities.go:19-33 | from /x/y/z with k = 2 and "w" the target is w/y/z |
| Utilities.DynamicPathSwap | utilities/utilities.go:19-33 | the loop collects the names of the directories it leaves; returns the joined target and the directory the process ends in |
| Utilities.Evict | utilities/utilities.go:79-87 | the path records past position `limit` of the given order are deleted; the survivors are a subset with their records unchanged |
| Utilities.EvictKeepsPrefix | utilities/utilities.go:82-86 | deleting the keys past position `limit` of an enumeration keeps exactly its first `limit` keys |
| Utilities.EvictKeepsNewest | utilities/utilities.go:79-87 | over the limit exactly `limit` records survive and none is older than an evicted one; otherwise nothing changes |
| Utilities.EvictIdempotent | utilities/utilities.go:79-87 | clearing to the same limit twice is clearing once |
| Utilities.AutoClear | utilities/utilities.go:79-87 | deletes the path records past position `limit` of the recency order; survivors keep their records and the stash is untouched; a negative limit panics at the first index and deletes nothing |
| Ucd.RunOutput | main.go:194-225 | what a run prints tells its outcome apart: nothing after a panic or fatal error, which saved nothing; "." exactly when it returns early; otherwise an absolute path whose visit the saved store has just recorded |
| Ucd.EffectiveLimit | main.go:90-92 | a negative display limit is replaced by the number of path records |
| Ucd.NegativeLimitKeepsAll | main.go:90-92 | with a negative display limit, clearing to the limit removes nothing |
| Ucd.ClearHistory | main.go:94-98 | empties the path records and keeps the stash |
| Ucd.ClearStash | main.go:118-122 | empties the stash and keeps the path records |
| Ucd.Realias | main.go:146-148 | only the chosen entry's alias changes; its timestamp and every other entry are kept |
| Ucd.ModifyAlias | main.go:146-148 | updates the store with the re-aliased stash and keeps the path records |
| Ucd.RealiasMayDuplicate | main.go:144-148 | re-aliasing makes no collision check: it can give two stashed paths the same alias |
| Ucd.RecordVisit | main.go:200-207 | the visited path gets count + 1 (1 if new) and the visit time; no other path record changes |
| Ucd.VisitKeepsCountsPositive | main.go:200-207 | all visit counts stay at least 1 |
| Ucd.VisitComesFirst | main.go:200-207 | a visit stamped later than every record puts its path first in the recency order |
| Ucd.VisitSurvivesEviction | main.go:200-207 | such a visit is kept by clearing to any limit of at least 1 |
| Ucd.Visit | main.go:200-207 | updates or inserts the path record in place and keeps the stash |
| Ucd.StashInsert | main.go:214 | the stash gains (or replaces) the entry for the path with the alias and the stash time; other entries are kept |
| Ucd.StashKeepsAliasesUnique | main.go:209-215 | stashing with an empty alias, or one no other entry has, keeps non-empty aliases unique |
| Ucd.StashPath | main.go:214 | stores the new stash entry in place and keeps the path records |
| Ucd.FirstWithAlias | main.go:162-170 | a found key is stashed with the alias; nothing is found exactly when no enumerated stash key has it |
| Ucd.LookupAlias | main.go:163-170 | the range loop with break finds the first key in iteration order whose record has the alias |
| Ucd.AliasLookupSound | main.go:162-175 | the alias mode goes to a stashed path with that alias, and finds nothing exactly when no stash entry has it |
| Ucd.HistoryEntry | main.go:176-182 | the history mode: "." when `n - 1 > len - 1`, otherwise the n-th key of the recency order of the path records |
| Ucd.StashEntry | main.go:183-185 | the stash mode: the n-th key of the recency order of the stash, a panic past its end |
| Ucd.SelectTarget | main.go:159-192 | the target and the directory it is resolved from, by the modes in their precedence |
| Ucd.HistoryIndexChecked | main.go:176-182 | the history index fails exactly when it exceeds the number of path records; otherwise it picks the n-th path of the recency order, counting from 1 |
| Ucd.HistoryIndexPastEndAborts | main.go:176-181 | a history index past the end prints "." and saves nothing |
| Ucd.HistoryFirstIsNewest | main.go:176-182 | history entry 1 is a path no other path is newer than |
| Ucd.StashIndexUnchecked | main.go:183-185 | the sorted stash has one entry per stashed path; the stash index panics exactly when it exceeds the stash's size, otherwise it picks the n-th path of the stash's recency order, counting from 1 |
| Ucd.ModePrecedence | main.go:160-192 | swap beats alias, which beats history index, which beats stash index, which beats the repeated argument |
| Ucd.SwapSelectsSibling | main.go:160-161 | within the path, the swap mode targets the argument joined by "/" to the last k segments, resolved from the directory k + 1 levels up; together they are the current path with the segment k levels up replaced |
| Ucd.PickHistory | main.go:177-182 | sorts the path records and checks the index as the history mode does |
| Ucd.PickStash | main.go:184-185 | sorts the stash and indexes it as the stash mode does |
| Ucd.ResolveTarget | main.go:159-192 | chooses the target by the modes in their precedence, sorting and scanning as main does |
| Ucd.MaintenanceTouchesOneMap | main.go:94-126 | clear empties the history, clear-stash empties the stash, clear-to-limit keeps the newest `limit` records; each leaves the other map alone and saves |
| Ucd.WritesOnlyCompletedRuns | main.go:139-219 | a change of directory goes to an absolute path, has counted the visit and saved; a panic or fatal error saves nothing; only the maintenance commands and completed visits save |
| Ucd.TakenAliasAborts | main.go:209-213 | stashing under an alias reported as taken prints "." and saves nothing |
| Ucd.RunKeepsAliasesUnique | main.go:200-215 | if the alias check reports every alias in use, runs that do not re-alias keep aliases unique |
| Ucd.Main | main.go:64-219 | a whole run: help and version, the clear commands, the list commands, too many arguments, re-aliasing, then navigation |
| Ucd.ModifyAliasBranch | main.go:144-155 | re-aliasing: the stash index is indexed before `args[0]` is read; the stash is saved with the new alias and "." is printed |
| Ucd.Navigate | main.go:159-219 | choosing the target, then arriving there; a failed lookup prints "." and a panic prints nothing, both without saving |
| Ucd.Arrive | main.go:194-219 | an invalid path prints "."; otherwise the visit is counted, a taken alias prints "." without saving, and a completed run stashes if asked, saves and goes to the path |
| Ucd.RunModifyAlias | main.go:144-155 | sorts the stash, indexes it, reads the argument and re-aliases the entry, as the modify-alias branch |
| Ucd.RunNavigate | main.go:159-219 | resolves the target, changes into it, records the visit, optionally stashes, as the navigation part of main |
| Ucd.Run | main.go:64-219 | runs the branches of main in their order on the store; the result is that of `Main` |

## Left out

- JSON decoding and encoding of the cache, and reading and writing `~/.ucd-cache` (main.go:76-88, 99-100, 113-114, 123-124, 150-151, 218-219). A run's `written` flag says whether the store is saved. A cache that does not decode is modelled by the empty store of the `Records` constructor.
- The configuration file (configurations/configurations.go is not part of this model). `MaxMRUDisplay` is an input.
- Flag parsing, help and version output, and `log` messages (main.go:41-72). The parsed flags are a `Request`.
- `ListRecords` table rendering (records/records.go:46-82, main.go:129-137, 153). The list commands end the run with "." and save nothing.
- The file system. `IsInvalidPath`/`isInvalidPath` followed by `os.Getwd` (utilities/utilities.go:42-50, main.go:194-198) is the parameter `Env.chdir`. It gives the new working directory, or `None` for an invalid path.
- `GetParentDir` (utilities/utilities.go:52-64): nothing in main.go calls it.
- `ReturnCwd`/`returnCwd` (utilities/utilities.go:14-17, main.go:222-225) are the `ReturnCwd` exit, which prints ".". The process exit status is not modelled.
- `TimeNow`/`timeNow` (utilities/utilities.go:75-77, main.go:269-271): the two clock readings of a run are inputs.
- The body of `Records.AliasExists` is not part of this model. The alias check is the parameter `Env.aliasExists` over the store.
- main.go:227-267 repeats `dynamicPathSwap`, `prependStrSlice` and `repeat` from the utilities. They are modelled once, in `Utilities`.
- The clear-to-limit branch of main (main.go:104-116) runs the same steps as `AutoClear`, and `Run` calls `AutoClear` for it.
- Ucd.RecordVisit: the visit count is an unbounded integer. Go's `int` overflow after 2^63 − 1 visits is not modelled.
- Records.SortRecords: `sort.SliceStable` is modelled as an insertion sort by adjacent swaps. `StableSortUnique` shows that every stable sort returns the same keys, but the sequence of swaps Go's implementation performs is not modelled.
- Utilities.AutoClear: its deletion loop is the helper method `DeletePast`, which changes the same field in the same order. Its panic on a negative limit is a returned flag, not a Go panic; main.go's own clear-to-limit only passes `EffectiveLimit`, which is never negative.
- A cache that decodes without "paths" or "stash" leaves that map nil in Go. Recording the visit (main.go:204, 206) or storing the stash entry (main.go:214) then panics with an assignment to a nil map, printing nothing and saving nothing. The model has no nil map: it treats a missing map as empty and completes such a run, so `RunOutput` and `WritesOnlyCompletedRuns` hold only for stores whose two maps are present.

The model follows main.go as written:

- re-aliasing a stash entry (main.go:144-148) checks neither the index nor the new alias for a collision;
- indexing the stash (main.go:183-185) has no range check;
- a negative repeat count makes `make` panic, and a count of 0 gives "" (main.go:188, utilities/utilities.go:67);
- an invalid target returns "." and never falls back to its parent directory (main.go:194-196);
- "-" is an ordinary argument: main.go gives it no special meaning;
- main.go never calls `AutoClear` after a visit; history is only trimmed by the clear-to-limit command.
