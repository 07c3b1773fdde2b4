# Roon Extension Manager core, in Dafny

This project models the decision-making core of a small Roon extension: the
extension installer library (`installer-lib.js`) and the "Extension
Snapshots" settings front end (`snapshots.js`). It proves properties of that
model.

- **Catalog** (`catalog.dfy`): the extension catalog read from
  `repository.json`. Entries without a `repository` are dropped. Categories of
  the same display name are merged in load order. The canonical name of an
  entry is derived from its repository URL by `_get_name`, including the URLs
  on which that function throws. A cache maps a name to its (category, index)
  pair (`_get_index_pair`). `get_extensions_by_category` lists a category,
  sorted by `_compare`, and `get_details` reads one entry.
- **Installs** (`installs.dfy`): the install record `npm_installed`. It is read
  from the text that `npm list -g --depth=0 [name]` prints: standard output
  gives the listing, and standard error gives missing-dependency and failure
  diagnostics. `_get_npm_installed_extensions` narrows it to the catalog.
- **Status** (`status.dfy`): `get_status`, `get_actions` and
  `_create_action_pair`.
- **Reporting** (`reporting.dfy`): the `_set_status` error latch.
- **Lifecycle** (`lifecycle.dfy`): `_start`, `_stop`, `_restart`,
  `perform_action`, the exit callback of a started process, applying a query,
  `_load_repository`, and the constructor's start-up sequence. They run over
  an abstract process runner. The runner records every call in a trace and
  answers a stop or terminate later by running the continuation it was given.
- **Pending** (`pending.dfy`): the pending-action queue of the settings dialog
  (`update_pending_actions`, `is_pending`, `get_pending_actions_string`,
  `perform_pending_actions`).
- **Settings** (`settings.dfy`): the selection and action-list decisions of
  `makelayout`, `get_settings` and `save_settings`.
- **Supervision** (`supervision.dfy`): the ping interval and the watchdog
  timeout driven by `core_found` and `core_lost`, and `set_status` / `ping`.

Helper modules:
- `text.dfy` models JavaScript `split`, `join`, `startsWith`, ASCII
  `toLowerCase`, string `<`, and the coercion of `undefined` to a property key.
- `ordered_maps.dfy` models JavaScript objects as insertion-ordered maps.
- `ordering.dfy` models the stable `Array.prototype.sort`.
- `wrappers.dfy` defines `Option`.

Throughout the model, `None` in an `Option` result means "the program throws
here". The model marks these points:
- a field read on `undefined`, such as `get_details` of an unknown name;
- the second piece of a split that produced only one piece;
- `runner.start` called before a runner exists.

## Behaviour worth knowing

The model follows the code in each of these cases:

- `_start` reports "Started: name" even when the name is not installed and
  nothing is started (installer-lib.js:360).
- `_stop` on a name that is not installed reports "Terminating process" and
  never runs its completion callback. A restart of such a name therefore does
  nothing more (installer-lib.js:369-384).
- The category list handed to the repository callback keeps catalog order. It
  is not sorted (installer-lib.js:199-210).
- `_load_repository` does not clear the index cache (installer-lib.js:195).
  This is harmless here, because the catalog is loaded once, at start-up, when
  the cache is still empty.
- A failed install query reports an error and still runs its callback. So the
  constructor goes on to load the catalog (installer-lib.js:440-443). The
  constructor's own query lists every package without a name, so it can
  neither fail nor throw (`Lifecycle.StartupLoads`).
- The reporter's `session_error` flag is never initialised
  (installer-lib.js:41), so errors never latch: start-up begins from that
  undefined flag (`Lifecycle.Initial`), and every later message is shown.
  The latch the flag was meant to give is stated on its own
  (`Reporting.FirstErrorWins`).
- The dialog titles the extension selector from the category list but lists
  the extensions of the catalog position (snapshots.js:143-149). The layout
  does the same (`Settings.MakeLayout`); the two agree when every category
  has a display name (`Settings.SelectAgrees`).
- A dry-run save still stages the chosen action in the pending queue
  (snapshots.js:62-66).
- `save_settings` builds the layout before it performs the queue. The
  "pending actions" label it returns lists the actions that are then
  performed (snapshots.js:63-73).

## Model

| member | source | states |
|---|---|---|
| Catalog.NameShape | installer-lib.js:299-317 | a name is derived only from an "https" URL whose third '.'-piece of the text after the scheme starts with "git"; the name holds no '/', '.' or ':' |
| Catalog.OtherSchemeHasNoName | installer-lib.js:302-316 | a URL whose text before the first ':' is not "https" yields an undefined name and does not throw |
| Catalog.NameFromPieces | installer-lib.js:304-311 | the name is the third '/'-piece of the second '.'-piece when the splits come out as the code expects |
| Catalog.NameOfGitHubStyleUrl | installer-lib.js:299-317 | round trip: `https://host.tld/owner/name.git` derives exactly `name` |
| Catalog.Installable | installer-lib.js:246-251 | the entries kept are exactly those with a `repository` |
| Catalog.InstallableCounts | installer-lib.js:246-251 | an entry with a `repository` is kept as many times as it occurs, and any other entry not at all |
| Catalog.InstallableAppend | installer-lib.js:246-251 | the kept entries keep their order: filtering two runs of entries gives the first run's kept entries followed by the second's |
| Catalog.FindCategory | installer-lib.js:253-258 | the search stops at the first category of equal display name, or at the end when there is none |
| Catalog.AddCategory | installer-lib.js:239-268 | a category grows the catalog by at most one category; it is appended only for a new name and only with surviving entries; existing names stay; no empty category, only installable entries and unique names are kept |
| Catalog.AddCategoryMerges | installer-lib.js:253-268 | the entries filed under a name gain exactly the new category's installable entries when the names are equal, and are otherwise unchanged |
| Catalog.AddAllMerges | installer-lib.js:234-272 | after a file is added, each name's entries are the earlier ones followed by the installable entries of every category of that name in the file, in order |
| Catalog.AddAllKeepsShape | installer-lib.js:234-272 | adding a file keeps three things true: no category is empty, every entry has a repository, and display names are unique |
| Catalog.LoadedShape | installer-lib.js:194-197 | a freshly loaded catalog has no empty category, only installable entries and unique display names |
| Catalog.CategoryChoices | installer-lib.js:199-210 | the category list holds (title, i) exactly for the categories with a non-empty display name, in increasing catalog position |
| Catalog.ScanCategory | installer-lib.js:326-335 | the inner scan finds only an entry of its category, at or after its start, deriving the queried name; cached keys are never lost |
| Catalog.ScanCategoryFirst | installer-lib.js:326-335 | the inner scan stops at the first match, and finds nothing only when no remaining entry matches |
| Catalog.ScanCategoryCaches | installer-lib.js:326-335 | every entry the inner scan passes, up to and including the match, is cached |
| Catalog.ScanCategoryValid | installer-lib.js:326-335 | the inner scan caches each name to a pair that points at an entry deriving it |
| Catalog.ScanFromFinds | installer-lib.js:323-336 | the outer scan does not stop at a match; it answers the first match of the last category that has one, or what it started with when no later category matches |
| Catalog.ScanFromCaches | installer-lib.js:323-336 | every entry the outer scan passes is cached |
| Catalog.ScanFromValid | installer-lib.js:323-336 | the outer scan keeps every cached pair pointing at an entry deriving its key |
| Catalog.IndexPair | installer-lib.js:319-340 | a name that is a key of the cache is always found; the cache only grows |
| Catalog.IndexPairSound | installer-lib.js:319-340 | with a valid cache, the pair found indexes an entry whose name is filed under the query's key; nothing is found only when no entry derives the name; the cache stays valid |
| Catalog.IndexPairScan | installer-lib.js:319-340 | on a cache miss, every scanned entry ends up cached, and the answer is the first match of the last matching category |
| Catalog.IndexPairNames | installer-lib.js:319-340 | except for a query for the text "undefined", the pair found indexes an entry deriving exactly the queried name |
| Catalog.Details | installer-lib.js:125-135 | `get_details` answers an entry for any name cached to a valid pair, and only adds to the cache |
| Catalog.DetailsSound | installer-lib.js:125-135 | with a valid cache, the entry answered is a catalog entry filed under the name; the call throws only when no entry derives the name |
| Catalog.CompareConsistent | installer-lib.js:289-297 | `_compare` is antisymmetric, is 0 exactly for titles equal after lower-casing, and is negative exactly when the lower-cased title is smaller |
| Catalog.Collect | installer-lib.js:75-87 | one choice is collected per entry with a non-empty display name |
| Catalog.CollectMembers | installer-lib.js:75-87 | the collected choices are exactly (display name, derived name) of the titled entries |
| Catalog.CollectCaches | installer-lib.js:84-85 | every listed name is cached to a pair in the listed category; a key that no listed entry is filed under keeps its pair; no other key is added |
| Catalog.CollectValid | installer-lib.js:84-85 | caching during the listing keeps every cached pair pointing at an entry deriving its key |
| Catalog.ExtensionsByCategory | installer-lib.js:70-92 | the listing is a permutation of the collected choices, ordered by lower-cased title |
| Catalog.ListingContents | installer-lib.js:70-92 | the listing holds one choice per titled entry of the category and nothing else; every listed name is cached into that category; a valid cache stays valid |
| Catalog.ListingIsStable | installer-lib.js:89 | choices with equal lower-cased titles keep their catalog order |
| Ordering.SortSorted | installer-lib.js:89 | the sort returns a permutation of its input in key order |
| Ordering.SortStable | installer-lib.js:89 | for every key, the elements carrying it keep their input order |
| OrderedMaps.PutGet | snapshots.js:243-246 | after `o[k] = v`, `o[k]` is `v` and every other key reads as before |
| OrderedMaps.PutKeys | snapshots.js:243-246 | for keys that are not integer-like: assigning a present key keeps its place in iteration order, and a new key is iterated last |
| OrderedMaps.RemoveGet | snapshots.js:236 | after `delete o[k]` the key is absent, every other key reads as before, and no entry is invented |
| Installs.Version | installer-lib.js:111 | `npm_installed[name]` is a recorded version of that name, undefined for an absent name, and, with distinct keys, exactly the version recorded under the name |
| Installs.BareLine | installer-lib.js:427-432 | a missing-dependency line lacks a second ": "-piece exactly when it is the bare prefix |
| Installs.DiagnoseThrows | installer-lib.js:423-438 | the standard-error scan throws exactly when some line is a bare missing-dependency prefix |
| Installs.DiagnoseFinds | installer-lib.js:423-438 | after a completed scan: `other_error` is set exactly when some non-empty line is not a dependency report; `peer_deps` is defined exactly when some line is one; and it holds exactly the dependencies it held before and those such lines name |
| Installs.DiagnoseFlags | installer-lib.js:426-437 | the two flags the scan leaves, each as an if-and-only-if over the lines |
| Installs.DiagnoseKeys | installer-lib.js:429-432 | every recorded missing dependency was recorded before or is the first ", "-field after the prefix of some dependency line |
| Installs.DiagnoseRecordsAll | installer-lib.js:429-432 | every dependency recorded before stays recorded, and the dependency each non-bare dependency line names is recorded |
| Installs.AddLinesOthers | installer-lib.js:452-458 | a name that no listing line records keeps its version |
| Installs.AddLinesDistinct | installer-lib.js:452-458 | applying the listing keeps package names distinct |
| Installs.CatalogOnlyMembers | installer-lib.js:274-287 | an entry is kept exactly when it was recorded and some catalog entry derives its name |
| Installs.FoundIffInCatalog | installer-lib.js:280 | with a valid cache, a name other than "undefined" has an index pair exactly when some catalog entry derives it |
| Installs.FilterValid | installer-lib.js:278-283 | narrowing keeps the index cache valid |
| Installs.FilterMatches | installer-lib.js:278-283 | when no installed name is "undefined", the narrowing loop appends exactly the catalog's entries, in order, versions unchanged |
| Installs.NpmInstalledMatches | installer-lib.js:274-287 | when no installed name is "undefined", `_get_npm_installed_extensions` keeps exactly the entries whose name the catalog lists, versions unchanged, in order |
| Installs.QueryInstalls | installer-lib.js:408-467 | the root is the first output line plus '/'; the query throws exactly when the diagnosis does, and fails exactly when the diagnosis saw another error; the record and cache are replaced only on success; with an empty catalog, the record is the listing applied without narrowing |
| Installs.QueryFailure | installer-lib.js:423-443 | the query throws exactly for a named query that exited with an error and printed a bare prefix line; it fails exactly when it does not throw and printed another non-empty line |
| Installs.FullQueryReplaces | installer-lib.js:446-450 | the outcome of a full query does not depend on the record it replaces |
| Installs.SingleQueryKeepsOthers | installer-lib.js:446-458 | with an empty catalog, a named query deletes only that name; other names no line records read as before, and the queried name is gone unless a line records it again |
| Installs.CatalogOnlyGet | installer-lib.js:274-287 | after narrowing, a name reads as before when the catalog lists it and as absent otherwise |
| Installs.NarrowedQueryKeepsOthers | installer-lib.js:446-463 | with a non-empty catalog and no listed name "undefined", a named query deletes only that name; other names no line records read as before when the catalog lists them and are dropped otherwise; the queried name is gone unless a line records it again |
| Installs.QueryNarrows | installer-lib.js:460-463 | with a non-empty catalog and no listed name "undefined", the record kept is the listing narrowed to the catalog's names |
| Installs.ParseLines | installer-lib.js:452-458 | lines of the form `branch name@version` append exactly their entries to the record |
| Installs.ListingRoundTrip | installer-lib.js:416-465 | round trip: a full query over a rendered listing yields exactly the rendered record and its root |
| Status.GetStatus | installer-lib.js:109-123 | the version is `npm_installed[name]`; not installed exactly for a falsy version; installed exactly with a truthy version and no runner; otherwise the runner's state |
| Status.GetActions | installer-lib.js:137-153 | no actions exactly for a falsy version; [Restart(2), Stop(3)] exactly when running; [Start(1)] exactly when installed and not running; every title is the action's string |
| Reporting.SetStatus | installer-lib.js:470-486 | a message is forwarded unless the flag is tripped; the flag trips exactly when it was `false` and the message is an error; an undefined flag stays undefined |
| Reporting.LatchNeverArms | installer-lib.js:479-485 | with the flag undefined, every message, errors included, reaches the status callback, and the flag stays undefined |
| Reporting.ErrorNotLatched | installer-lib.js:470-486 | concrete run: a message after "Extension Repository not found" is still shown |
| Reporting.TrippedStays | installer-lib.js:479-481 | once tripped, nothing more is shown |
| Reporting.FirstErrorWins | installer-lib.js:470-486 | with the flag starting `false`, exactly the messages up to and including the first error are shown, and the flag ends tripped exactly when there was an error |
| Lifecycle.Start | installer-lib.js:342-361 | throws exactly for an installed name while no runner exists; otherwise reports "Started: name", whether or not the name is installed. An installed name gets one `runner.start` call in its working directory and is marked running, with no job opened; a name that is not installed changes nothing but the report |
| Lifecycle.Perform | installer-lib.js:161-173 | an action code other than 1, 2 and 3 does nothing |
| Lifecycle.StartKeepsGood | installer-lib.js:342-361 | a start keeps the trace well formed |
| Lifecycle.StopKeepsGood | installer-lib.js:369-384 | a stop keeps the trace well formed; every open job is an unanswered stop or terminate call, and a restart continuation sits on a terminate of the same name |
| Lifecycle.PerformKeepsGood | installer-lib.js:161-173 | every action code keeps the trace well formed |
| Lifecycle.CompleteKeepsGood | installer-lib.js:364-366 | the runner completing a job keeps the trace well formed |
| Lifecycle.StopCases | installer-lib.js:369-384 | an installed running name gets a stop (user) or terminate call, and its callback waits for completion; an installed name that is not running has its callback run at once; a name that is not installed gets no call and no callback |
| Lifecycle.RestartDefersStart | installer-lib.js:363-367 | restarting a running name issues only the terminate; when it completes, the start follows, in the usual working directory |
| Lifecycle.RestartRunning | installer-lib.js:363-378 | a restart of a running name issues one terminate, opens one job and changes nothing else |
| Lifecycle.CompletionStarts | installer-lib.js:364-366 | completing a restart job traces the completion and then issues exactly the start |
| Lifecycle.WaitingStartsFollowTerminates | installer-lib.js:363-384 | in a well-formed state, a start waits only on an unanswered terminate of the same name |
| Lifecycle.ExitMessage | installer-lib.js:347-357 | a user stop is "Stopped" and not an error; an exit code is an error exactly when it is non-zero and not 3221225786; a truthy signal is a non-error; otherwise nothing is reported |
| Lifecycle.Exited | installer-lib.js:346-357 | when a started process ends, the runner reports it stopped after a user stop and terminated otherwise, the exit callback's message (if any) is reported, and nothing else changes |
| Lifecycle.ExitedOffersStart | installer-lib.js:137-153 | after its process has ended, an installed extension is offered [Start] again, and stopping it issues no call and runs its callback at once (installer-lib.js:374-381) |
| Lifecycle.ApplyQuery | installer-lib.js:440-465 | applying a query throws exactly when the query throws, and leaves the catalog, trace and open jobs alone |
| Lifecycle.Load | installer-lib.js:194-232 | the catalog is rebuilt from the file; a category list is handed on exactly when it is non-empty; the index cache is not cleared |
| Lifecycle.ReattachStarts | installer-lib.js:217-224 | with a runner, the start-up callback issues one start per installed name, in order, and nothing else |
| Lifecycle.StartupLoads | installer-lib.js:47-67 | start-up always completes: it shows the start-up message and then the loading outcome, gives a valid cache and an empty trace, leaves the reporter's flag undefined, and with a non-empty catalog gives a runner, the category list and, when no listed name is "undefined", the listing narrowed to the catalog |
| Pending.IsPending | snapshots.js:225-227 | truthy exactly when the queue has an entry under the name's key |
| Pending.FirstOffered | snapshots.js:239-250 | the position of the first action-list entry with that value, and past the end exactly when none offers it |
| Pending.UpdatePending | snapshots.js:229-256 | no action changes nothing. With an action, it is cleared from the values. 0 removes the entry. An offered action stages (action, title + " " + display name). An action not offered changes nothing. No other key changes. It throws exactly when an offered action's extension has no details |
| Pending.Lines | snapshots.js:259-263 | empty exactly for an empty queue, and otherwise ends in a line break |
| Pending.Describe | snapshots.js:258-270 | "(none)" exactly for an empty queue |
| Pending.LinesJoin | snapshots.js:261-263 | the label is the friendly texts, in key insertion order, each followed by a line break |
| Pending.DescribeLists | snapshots.js:258-270 | splitting the label of a non-empty queue at line breaks gives back the friendly texts in key insertion order |
| Pending.PerformAllStops | snapshots.js:272-279 | once an action throws, the remaining entries are not performed |
| Pending.PerformPending | snapshots.js:272-279 | one `perform_action` per entry, in key insertion order, with that entry's action and name; the queue ends empty exactly when none throws; otherwise the throwing entry and those after it are left |
| Pending.PerformAllKeepsGood | snapshots.js:272-279 | performing the queue keeps the runner trace well formed |
| Settings.BeginGood | installer-lib.js:194-232 | after start-up, the index cache is valid, and the category list offered to the dialog is no longer than the catalog, each entry pointing into it |
| Settings.SelectAsWritten | snapshots.js:143-149 | as written: it throws exactly for a selected value when the list is undefined or the value is negative; a selection is the value as list position and as catalog position |
| Settings.Select | snapshots.js:143-149 | corrected: selected exactly when an offered category carries the value, under that category's title; it throws exactly when the list is undefined |
| Settings.SelectChoices | installer-lib.js:202-209 | with a loaded catalog's list, the corrected selection picks exactly a category with a non-empty display name, under that name |
| Settings.SelectAsWrittenShifts | snapshots.js:146-149 | concrete run: behind an unnamed category, "B" cannot be selected and selecting "A" lists A's extensions under the title "B" |
| Settings.AllNamedChoices | installer-lib.js:202-209 | when every category has a display name, the i-th offered category is catalog position i, under its name |
| Settings.SelectAgrees | snapshots.js:143-149 | when every category has a display name, the selection as written agrees with the corrected one for every value that is not negative |
| Settings.MakeLayout | snapshots.js:143-205 | with the selection as written: without a selected category, both selections are cleared. With one, the selector is titled from the category list and the extensions of that catalog position are listed and cached. An extension that is not listed is cleared. A listed extension is offered [Revert Action] when pending and `get_actions` otherwise, and that becomes the action list. The pending label describes the queue |
| Settings.MakeLayoutGood | snapshots.js:143-205 | in a good session, the layout throws exactly when a category is selected while the category list is undefined or the selected value is negative, and the session stays good |
| Settings.GetSettings | snapshots.js:58-61 | the queue is emptied, nothing is pending, and the saved values are normalised in place |
| Settings.SaveSettings | snapshots.js:62-73 | the action is staged and cleared from the values. A dry run keeps the saved values. Otherwise the laid-out values are saved, the queue is performed in key insertion order and left empty, and the layout is the one built before performing. The session stays good |
| Settings.PerformAllKeeps | installer-lib.js:161-173 | performing actions leaves the catalog and the index cache alone |
| Supervision.ClearPingAsWritten | snapshots.js:293-298 | as written: the interval is cancelled but its handle is kept |
| Supervision.ClearPing | snapshots.js:293-298 | corrected: the interval is cancelled and its handle dropped |
| Supervision.ClearWatchdog | snapshots.js:307-312 | the timeout is cancelled and nothing else is |
| Supervision.SetupWatchdog | snapshots.js:300-305 | any previous timeout is cancelled and a fresh 30 s timeout is armed |
| Supervision.CoreFound | snapshots.js:42-46 | the watchdog is disarmed; a ping is armed when no handle was held; a held handle is kept, with its timer armed exactly when it was armed before |
| Supervision.CoreLostAsWritten | snapshots.js:47-51 | as written: the watchdog is armed, the ping is disarmed, and its handle is kept |
| Supervision.CoreLost | snapshots.js:47-51 | corrected: the ping is disarmed with its handle dropped, and the watchdog is armed |
| Supervision.PingNeverRearmed | snapshots.js:281-298 | as written: a held ping handle whose interval was cancelled stays held, and no run of core events schedules the ping again |
| Supervision.PingNotRearmed | snapshots.js:42-51 | as written: once a core with a scheduled ping is lost, the ping is never scheduled again, whatever core events follow |
| Supervision.PingRunFromStart | snapshots.js:42-51 | concrete run from start-up (found, lost, found): no ping is armed at the end as written, and one is armed when corrected |
| Supervision.RunKeepsPingHeld | snapshots.js:42-51 | corrected: every run of core events keeps the timers well formed and a held ping handle scheduled; a run ending in core found has the ping armed and the watchdog not, and one ending in core lost the reverse |
| Supervision.PingRearmed | snapshots.js:42-51 | corrected: from start-up, whenever the last core event is "found" the ping is armed and the watchdog is not, and whenever it is "lost" the watchdog is armed and the ping is not |
| Supervision.EventsKeepGood | snapshots.js:42-51 | core events never leak a timer, and never make ping and watchdog the same timer |
| Supervision.PingRepeatsLast | snapshots.js:288-319 | relayed messages reach the status service in order, and a ping repeats the last one (undefined before any) |

## Left out

- Running `npm` (`child_process.exec`), process signal handlers, `_terminate` and `process.exit`: operating-system I/O. A query's exit flag, standard output and standard error are inputs.
- Reading and parsing `repository.json` (`_read_JSON_file_sync`, `fs`, `JSON.parse`): file I/O. The parsed file is an input, and `None` stands for a missing or unparsable file. The `.json` name test in `_add_to_repository` always passes for its one caller.
- The process runner library (`node-api-extension-runner`): a foreign library. It is an abstract map from name to state plus a call trace. A name it has no process for reads as stopped.
- Roon API objects and the dialog widgets: UI and network plumbing. This covers discovery, `load_config`/`save_config`, `update_settings`, `send_complete`, and the author, description and status labels of `makelayout`. The `has_error` flag is never set, so saving always proceeds.
- `set_on_activity_changed`, `set_log_state`, `is_idle`, `update`, `update_all`, `restart_manager`, `get_features`, `get_logs_archive`: stubs with no behaviour. `is_idle` always answers true, so the "(in progress...)" branch of `makelayout` is not modelled.
- Real timers and asynchronous interleaving: host concurrency. Callbacks run as explicit sequential continuations, and timers are handles in a map. When the watchdog fires it calls the stub `restart_manager`, so firing is not modelled.
- Console logging with timestamps: I/O and the clock.
- `init`'s hostname suffix: an operating-system query.
- Catalog.IndexPair: requires that no catalog entry makes `_get_name` throw. A scan that reaches such an entry would throw; that case is not modelled, although `Catalog.GetName` does model the throwing URLs themselves. The same precondition holds for every operation that looks names up.
- Catalog.CompareConsistent: `toLowerCase` is ASCII lower-casing, not full Unicode case mapping. JavaScript's `<` on strings compares UTF-16 code units, while the model compares characters; the two orders differ for titles holding characters above U+FFFF.
- Installs.Version: a JavaScript object also answers the keys it inherits from `Object.prototype`, such as "constructor". The program's `npm_installed[name]`, `index_cache[name]` and `pending_actions[name]` read those as truthy functions; the model reads every absent key as undefined, so an extension named after such a key is not modelled.
- Pending.PerformPending: the model assumes no pending name is integer-like, and iterates the queue in insertion order. A `for...in` loop visits integer-like keys first, in numeric order; npm accepts all-digit package names, and `_get_name` derives "2048" from `https://github.com/owner/2048.git`, so such a queue is performed in an order the model does not give.
- Pending.LinesJoin: the same assumption as for Pending.PerformPending; for a queue holding an integer-like name, the label's lines come in `for...in` order, which the model does not reproduce.
- Pending.DescribeLists: the same assumption as for Pending.PerformPending; the texts read back from the label are in insertion order only when no pending name is integer-like.
- Pending.PerformPending: the `options` argument passed to `perform_action` is always undefined and is not modelled.
- Lifecycle.ExitMessage: exit codes are integers, and their decimal text is JavaScript's `String` of an integer. Non-integral numbers are not modelled.
- Lifecycle.Start: the exit callback handed to `runner.start` is not stored. The runner's later call of it is `Lifecycle.Exited`, which also stands for the runner library marking the process stopped or terminated; the library itself is not part of this model.
- Settings.MakeLayout: lays out the selection as written. The corrected selection (`Settings.Select`) is not laid out; `Settings.SelectAgrees` states when the two agree.
- Settings.SaveSettings: requires a well-formed session. That state holds after start-up (`Settings.BeginGood`) and is kept by every save; it is not re-proved for sessions reached by other routes.

## Findings

| source | as written | input that shows it | evidently intended | confidence | as-written member | corrected member |
|---|---|---|---|---|---|---|
| installer-lib.js:41 | `session_error` is never initialised, and it is tripped only when it is `=== false`, so the latch never arms and every later message still replaces the first error on display | any run: "Extension Repository not found" (an error) followed by "Started: x"; both are shown | the flag starts `false`, so the first error trips it and stays on display | medium, not executed | Reporting.LatchNeverArms | Reporting.FirstErrorWins |
| snapshots.js:293-298 | `clear_ping_timer` cancels the interval but keeps `ping_timer_id`, so `setup_ping_timer` on the next `core_found` sees a handle and schedules nothing | start-up, core found, core lost, core found: no ping interval is scheduled, and none is after any later events | clearing also sets `ping_timer_id` to null, so the ping is armed again | high, not executed | Supervision.PingNotRearmed | Supervision.PingRearmed |
| snapshots.js:143-149 | the selected category value (a catalog position, from installer-lib.js:203-209) is compared with `category_list.length` and indexes `category_list` for the title | catalog [unnamed, "A", "B"]: the list is [A:1, B:2]; value 2 is rejected, and value 1 shows A's extensions titled "B" | the value is looked up among the offered categories, and the title is that category's | medium, not executed | Settings.SelectAsWrittenShifts | Settings.SelectChoices |
