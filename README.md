# jagaatrack time accounting in Dafny

jagaatrack is a local, single-user time tracker. A user keeps a roster of
projects and starts and stops a stop-watch on one of them at a time. Each
stop closes the running interval into a log. The tracker shows a live
total, a coloured activity timeline and a human-readable duration. It
imports a roster from a pasted project listing and exports per-project
minute totals.

This project models the time-accounting core of the repository. It leaves
out the React, storage and dialog machinery around that core. The clock
(`Date.now()`) is a `now` parameter. The answers to prompts and
confirmations are parameters too: a prompt answer is an `Option<string>`
(`None` when cancelled) and a confirmation is a `bool`.

The modules follow the source files:

- `Types` (types.dfy) holds the stored records, `Project` and `Log`. It
  also holds the JavaScript truthiness tests the code relies on. A slug is
  `Option<string>`, because the importer can produce an `undefined` slug.
- `Text` (text.dfy) models the string built-ins the core uses. These are
  `String(n)`, `padStart(2, "0")`, `split` with a string separator, `join`
  and `trim` with the ECMAScript whitespace set.
- `Utils` (utils.dfy) covers the pure helpers of `src/utils.ts`:
  - `sum` and `msToHumanFormat`;
  - `groupBy`, as a loop filling a map;
  - the project-button toggle and the live-total formula;
  - the prompt helper;
  - the slug-based batch merge shared by every importer.
- `Timeline` (timeline.dfy) covers `createInterval` (a loop), `inInterval`,
  the `logsTimeline` bucketizer, `getLegend` and `getLogsConstraints`.
- `DataProvider` (data_provider.dfy) is the current store. Pure functions
  give each new roster or log list. The class `Store` holds the three
  persisted values, and its methods replace them as the handlers do.
- `ImportText` (import_text.dfy) is the line-parsing pipeline of the
  importers: cut at `"] - "`, keep what follows the last `"• "`, trim, and
  split on `" ["`.
- `LegacyApp` (legacy_app.dfy) is the earlier version, in which every
  project carries its own `times`. It covers that version's toggle,
  resets, import and export, with the class `LegacyStore`.
- `HeaderActions` (header_actions.dfy) covers the header buttons of the
  current version. They act on a `DataProvider.Store`.
- `AppProvider` (app_provider.dfy) covers the migration of embedded
  `times` into logs, `voidTimes` and the log lookup, with the class
  `AppState`.

Floating-point arithmetic is taken as exact and then shown to be
integer-exact. For example, `Math.ceil((ms / 1000) % 60)` is
`(ms % 60000 + 999) / 1000`, and `sum > thirdPartMs * 2` is
`3 * sum > 2 * intervalMs`. The model follows the code in these less
obvious cases:

- An import line without `" ["` is kept as a project with an `undefined`
  slug (`ImportText.ParseNameOnly`). It is not dropped.
- A slug keeps a trailing `"]"` when the line has no role part
  (`ImportText.ParseEntryLine`). It is not trimmed.
- Duplicates within one imported batch are kept; only slugs already in the
  roster are skipped (`Utils.UnseenExactly`).
- In the earlier version, ask mode names a closed entry after the
  *clicked* project when the entry has no last activity, not after the
  entry itself (`LegacyApp.ClosedEntryName`). The model keeps this as
  written.

## Model

| member | source | states |
|---|---|---|
| Text.NatToString | src/utils.ts:41-43 | `String(n)` of a natural number is a non-empty string of decimal digits with no leading zero, one digit exactly below 10 |
| Text.PaddedNumber | src/utils.ts:41-43 | padding a printed number to two places yields digits that still read back as the number, exactly two of them when the number is below 100 |
| Text.Split | src/HeaderActions.tsx:72-73 | `split` with a string separator always yields at least one piece, so `.at(0)` and `.at(-1)` always exist |
| Text.SplitJoin | src/HeaderActions.tsx:72-73 | joining the pieces of a split with the same separator gives back the original text |
| Text.TrimInfix | src/HeaderActions.tsx:73 | `trim` returns the infix between leading and trailing whitespace, and that infix neither starts nor ends with whitespace |
| Utils.SumAppend | src/utils.ts:11-13 | the sum of a concatenation is the sum of the two sums |
| Utils.CeilDiv | src/HeaderActions.tsx:104-105 | the rounded-up quotient is the least count of `d` that reaches `n` |
| Utils.FieldsExact | src/utils.ts:23-26 | hours are `ms div 3600000`, minutes `(ms div 60000) mod 60`, seconds `(ms mod 60000 + 999) div 1000`: the float arithmetic is integer-exact |
| Utils.FieldsMeaning | src/utils.ts:23-26 | minutes lie in 0..59 and seconds in 0..60; `ms` lies in the minute named by hours and minutes; seconds counts the started seconds of that minute |
| Utils.ColonFormat | src/utils.ts:41-45 | the colon format splits on ":" into exactly three digit fields, two digits each except possibly the hours, that read back as hours, minutes and seconds |
| Utils.SecondsNotCarried | src/utils.ts:19-46 | 59600 ms shows as "00:00:60" and "60s": rounded-up seconds are never carried into the minutes |
| Utils.UnitsPiecesOfFields | src/utils.ts:34-38 | the units pieces are the positive fields only, in h, m, s order, each followed by its unit letter |
| Utils.UnitsFormat | src/utils.ts:28-38 | the units format is empty exactly when all fields are zero, as for 0 ms; otherwise splitting it on spaces gives one piece per positive field in h, m, s order |
| Utils.GroupBy | src/utils.ts:258-265 | the reduce loop builds a map whose keys are exactly the keys occurring in the input; each group is the members with that key, in input order, and an absent key has no members |
| Utils.GroupExactlyOnce | src/utils.ts:258-265 | every item is in the group of its own key as often as it occurs in the input, and in no other group |
| Utils.Dedupe | src/utils.ts:207 | `[...new Set(s)]` has no duplicates and the same members as `s` |
| Utils.DedupeOrder | src/utils.ts:207 | the members of `[...new Set(s)]` come in the order of their first occurrence in `s`, which together with the row above fixes the result |
| Utils.ToggleButtonOfNoDup | src/utils.ts:202-208 | on a duplicate-free list, toggling removes the button and keeps the others in order, or appends it at the end |
| Utils.ToggleButtonMembership | src/utils.ts:202-208 | toggling a button flips its membership, keeps every other button's membership, and leaves no duplicates |
| Utils.ToggleButtonTwice | src/utils.ts:202-208 | adding an absent button and toggling it again restores a duplicate-free list exactly |
| Utils.LiveTotalStopped | src/utils.ts:213-235 | with no project started, the live total is just the sum of the logged durations |
| Utils.LiveTotalGrowth | src/utils.ts:213-235 | as time passes the live total grows by the elapsed time once per started project, and so never decreases |
| Utils.PromptAnswer | src/utils.ts:151-154 | the prompt helper returns an answer exactly when it is non-empty, and then returns it unchanged |
| Utils.TotalMinutes | src/HeaderActions.tsx:104-105 | the exported minutes are the least whole number of minutes covering the summed durations |
| Utils.UnseenExactly | src/DataProvider.tsx:109-115 | the merge appends each incoming project exactly as often as it comes in when the roster lacks its slug, and never otherwise, so duplicates within the batch are kept; the appended projects keep their incoming order, each placed after all the kept projects that came in before it |
| Utils.UnseenAppend | src/DataProvider.tsx:109-115 | filtering two batches in a row is filtering their concatenation, so the filter works member by member |
| Utils.AppendUnseenIdempotent | src/DataProvider.tsx:109-115 | merging the same batch a second time adds nothing |
| Timeline.Steps | src/utils.ts:117-121 | the generated values are `start + i * step`, each below `end`; the next one would reach `end`, and nothing is generated when `start >= end` |
| Timeline.CreateInterval | src/utils.ts:117-121 | the generator's loop collects exactly the values of `Steps` |
| Timeline.StepsShape | src/utils.ts:117-121 | the generated values rise strictly, the list is empty exactly when `start >= end`, and the last value is within one step of `end` |
| Timeline.LogSegmentsCover | src/utils.ts:89-94 | the segments of a log `[a, b]` start at `a + k * intervalMs`, each has size in 1..intervalMs, and together they cover exactly `b - a` (nothing for an empty log) |
| Timeline.ClassifyExact | src/utils.ts:103-111 | red exactly when `3 * sum > 2 * intervalMs`, orange when `intervalMs < 3 * sum <= 2 * intervalMs`, yellow when `0 < sum` and `3 * sum <= intervalMs`, white when `sum <= 0` |
| Timeline.ClassifyMonotone | src/utils.ts:103-111 | more activity in a bucket never shows a lower symbol |
| Timeline.TimelineShape | src/utils.ts:96-114 | the timeline has exactly `timelineLength` symbols, each one of the four squares, and symbol `i` classifies the sizes of the segments starting in the closed window `[c0 + i * intervalMs, c0 + (i + 1) * intervalMs]` |
| Timeline.TimelineWithoutLogs | src/utils.ts:96-114 | without logs every symbol is white |
| Timeline.TimelineOneFullBucket | src/utils.ts:84-115 | a log filling the first of two buckets exactly shows red then white |
| Timeline.TimelineBoundaryCountedTwice | src/utils.ts:97-100 | windows include both ends, so one step of activity starting on the shared boundary shows both buckets red |
| Timeline.LegendMatchesClassify | src/utils.ts:67-75 | the legend's numbers are `m div 3` and `2m div 3`, and a bucket of `k` whole minutes is white for 0, yellow up to the first number, orange up to the second and red beyond |
| Timeline.TruthyStartedAts | src/utils.ts:128 | the filtered start times are exactly the truthy `startedAt` values of the roster, and the list is empty exactly when none is truthy |
| Timeline.GetLogsConstraints | src/utils.ts:127-135 | no window exactly when there are no logs and nothing runs; otherwise the start is at or before every log start and running start, the end at or after every log end and, while something runs, `now`, and both bounds are attained by one of them |
| DataProvider.ActiveProjects | src/DataProvider.tsx:26-29 | the active projects are exactly the started members of the roster |
| DataProvider.ActiveProjectsAppend | src/DataProvider.tsx:26-29 | the active projects of two rosters in a row are those of the first followed by those of the second, so the filter keeps roster order |
| DataProvider.ActiveProjectsCount | src/DataProvider.tsx:26-29 | each started entry is kept exactly as often as it occurs in the roster, and no other entry is kept |
| DataProvider.CreateNewLogsOfActive | src/DataProvider.tsx:37-45 | there is one new log per active project, in order, each the closing log of that project |
| DataProvider.ClosingLogsCarryElapsed | src/DataProvider.tsx:37-45 | the durations of the closing logs are exactly the running times the live total shows at `now` |
| DataProvider.OneActive | src/DataProvider.tsx:37-45 | with exactly one project running, the new logs are that project's closing log alone |
| DataProvider.StartExclusive | src/DataProvider.tsx:50-63 | after a start, an entry runs exactly when it carries the started slug, from `now`; slugs stay in place, and stopped entries keep their name and last activity |
| DataProvider.StartActivityName | src/DataProvider.tsx:51-58 | a start records the non-empty prompt answer in ask mode, and the project's name otherwise (no ask mode, a cancelled answer or an empty one) |
| DataProvider.StopOnly | src/DataProvider.tsx:71-81 | a stop stops the entries with the slug and nothing else, which keep their last activity only in ask mode; other entries are unchanged |
| DataProvider.ToggleKeepsOneRunning | src/DataProvider.tsx:86-88 | with unique slugs, a toggle keeps the slugs unique and never leaves two projects running |
| DataProvider.ToggleTwice | src/DataProvider.tsx:47-88 | toggling a stopped project twice from an idle roster with unique slugs leaves nothing running and prepends exactly one log `[t1, t2]` for it, named after the prompt answer in ask mode and after the project otherwise |
| DataProvider.MarketingFiveSeconds | src/DataProvider.tsx:47-88 | a Marketing project run for 5000 ms leaves one 5000 ms log named "Marketing" and a live total of 5000 |
| DataProvider.StopAllStops | src/DataProvider.tsx:99-107 | stopping every timer keeps each project's slug, name and last activity, stops them all, and is idempotent |
| DataProvider.ClearedTotal | src/DataProvider.tsx:99-107 | after all logs are removed and all timers stopped, the live total is zero at any time |
| DataProvider.WithoutLogsOfSnoc | src/DataProvider.tsx:126 | the log filter is `Utils.WithoutSlug` by log slug, so the kept logs keep their stored order and multiplicity (by `Utils.WithoutSlugExactly`); a log added at the end is kept exactly when it is not the project's |
| DataProvider.WithoutLogsOfGroups | src/DataProvider.tsx:117-137 | deleting a project's logs empties its group, leaves every other project's logs as they were, in order, and removes exactly that group's count |
| DataProvider.ResetStopsOnly | src/DataProvider.tsx:117-124 | a reset stops the entries with the slug and keeps their other fields; other entries are untouched |
| DataProvider.ResetZeroesProject | src/DataProvider.tsx:117-130 | after a reset the project's live total is zero and the other projects are unchanged |
| Utils.WithoutSlugExactly | src/DataProvider.tsx:132-134 | after removal each entry without the slug is kept exactly as often as before and each entry with it is gone; the kept entries stay in roster order, each placed after all the kept entries that came before it |
| Utils.WithoutSlugAppend | src/App.tsx:62 | removing from two rosters in a row is removing from their concatenation, so removal works entry by entry |
| DataProvider.ReplaceBySlugEffect | src/DataProvider.tsx:139-141 | an update replaces exactly the entries with the record's slug, and repeating it changes nothing |
| DataProvider.Find | src/DataProvider.tsx:145 | `find` fails exactly when no entry has the slug, and otherwise returns the first entry that has it |
| DataProvider.SortRoster | src/DataProvider.tsx:143-149 | the sorted roster is no longer than the slug list and holds only roster members |
| DataProvider.SortRosterSkipsUnknown | src/DataProvider.tsx:143-149 | a slug no project carries contributes nothing, and the rest keep their order |
| DataProvider.SortByOwnOrder | src/DataProvider.tsx:143-149 | sorting a roster with unique string slugs by its own slug order gives back the same roster |
| DataProvider.Store.constructor | src/DataProvider.tsx:15-24 | the store starts with no projects, no logs and ask mode off |
| DataProvider.Store.SetShouldAskForActivityName | src/DataProvider.tsx:15-16 | only the ask-mode preference changes |
| Utils.LookupProjectLogs | src/DataProvider.tsx:31-35 | the lookup in the grouping of all logs returns the project's logs in stored order, or none |
| DataProvider.Store.GetProjectLogs | src/DataProvider.tsx:31-35 | the lookup in the grouping of all logs returns the project's logs in stored order, or none |
| DataProvider.Store.StartProject | src/DataProvider.tsx:47-66 | the closing logs are prepended to the unchanged old logs, and the roster becomes the start roster |
| DataProvider.Store.StopProject | src/DataProvider.tsx:68-84 | the closing logs are prepended to the unchanged old logs, and the roster becomes the stop roster |
| DataProvider.Store.ToggleActiveProject | src/DataProvider.tsx:86-88 | a started project is stopped and any other is started |
| DataProvider.Store.AddProject | src/DataProvider.tsx:90-92 | the project is put at the head of the roster |
| DataProvider.Store.RemoveAllProjectsAndLogs | src/DataProvider.tsx:94-97 | roster and logs become empty |
| DataProvider.Store.RemoveAllLogs | src/DataProvider.tsx:99-107 | every timer stops and the logs become empty |
| DataProvider.Store.AddProjects | src/DataProvider.tsx:109-115 | the unseen part of the batch is appended to the unchanged roster |
| DataProvider.Store.ResetProject | src/DataProvider.tsx:117-130 | the project's entries stop and its logs are deleted |
| DataProvider.Store.RemoveProject | src/DataProvider.tsx:132-137 | the project's entries and logs are deleted, the other entries kept in order (by `Utils.WithoutSlugExactly`) |
| DataProvider.Store.UpdateProject | src/DataProvider.tsx:139-141 | the entries with the record's slug are replaced |
| DataProvider.Store.SortProjects | src/DataProvider.tsx:143-149 | the roster is reordered by the slug list |
| ImportText.CleanLineShape | src/HeaderActions.tsx:71-74 | a cleaned line holds neither `"] - "` nor `"• "`, and neither starts nor ends with whitespace |
| ImportText.ParseLine | src/HeaderActions.tsx:71-79 | a line is dropped exactly when it cleans to the empty string |
| ImportText.ParseLineShape | src/HeaderActions.tsx:76-79 | a parsed name is non-empty and free of `" ["`; the slug is absent exactly when the cleaned line has no `" ["`, and the name is then the whole line; otherwise name, `" ["` and slug start the cleaned line, and the slug runs up to the next `" ["` or to the end of the line |
| Utils.FlatMapAppend | src/HeaderActions.tsx:71-79 | the line pipeline distributes over concatenation: the entries of a block of lines are those of its first part followed by those of the rest |
| ImportText.ParseImportOfLines | src/HeaderActions.tsx:71-74 | lines joined by newlines parse to their own entries, in order, with every line that does not clean to empty represented |
| ImportText.ParseEntryLine | src/App.tsx:198-212 | a line "name [slug" parses to that name and that slug, and a slug ending in "]" keeps it |
| ImportText.ParseBulletedLine | src/App.tsx:198-212 | a listing line "• name [slug] - role" parses to that name and slug, with the bullet, role and closing bracket cut off |
| ImportText.ParseNameOnly | src/App.tsx:203-204 | a line without " [" yields a project named after the whole line, with no slug |
| LegacyApp.ToggleCloses | src/App.tsx:70-90 | every running entry gains exactly one time entry from its start to `now` and stops; other entries keep their times, and those without the clicked slug are unchanged |
| LegacyApp.ToggleStartsClicked | src/App.tsx:92-103 | an entry runs afterwards exactly when it carries the clicked slug and was not running, and then it started at `now` |
| LegacyApp.ToggleKeepsOneRunning | src/App.tsx:66-112 | with unique slugs, at most one project runs after a toggle |
| LegacyApp.ClosedEntryName | src/App.tsx:75-86 | a closed entry is named after the project outside ask mode; in ask mode it is named after the last activity, or else the clicked project's name; the last activity survives only in ask mode |
| LegacyApp.ToggleTwice | src/App.tsx:66-112 | clicking a stopped project twice from an idle roster with unique slugs adds one time entry `[t1, t2]` to it, leaves nothing running and changes no other project |
| LegacyApp.RemoveAbsentSlug | src/App.tsx:60-64 | removing a slug no entry has changes nothing |
| LegacyApp.ResetSlug | src/App.tsx:221-233 | a reset clears the times and the timer of the entries with the slug, keeping their slug and name; other entries are untouched |
| LegacyApp.ClearAllIsEveryReset | src/App.tsx:161-177 | resetting all timers is resetting every project, and doing it twice is doing it once |
| LegacyApp.ImportedProjects | src/App.tsx:203-212 | there is one imported project per parsed entry, with its slug and name |
| LegacyApp.ImportEffect | src/App.tsx:214-218 | an import keeps the roster as a prefix and appends only stopped, empty projects with slugs the roster lacked; repeating it adds nothing |
| LegacyApp.ExportDurations | src/App.tsx:141-146 | the durations are those of the time entries, followed by `now - startedAt` only while the timer runs |
| LegacyApp.ExportRowsAppend | src/App.tsx:136-154 | export rows follow roster order: the rows of a roster are the rows of its parts |
| LegacyApp.ExportRowOfOne | src/App.tsx:136-154 | a project is exported exactly when it has time entries or a running timer, and its minutes are the least whole number covering its total |
| LegacyApp.LegacyStore.constructor | src/App.tsx:41-52 | the store starts from the stored roster with ask mode off |
| LegacyApp.LegacyStore.ToggleActiveProject | src/App.tsx:66-112 | the roster becomes the toggle roster |
| LegacyApp.LegacyStore.RemoveProject | src/App.tsx:60-64 | the entries with the slug are removed, the others kept in order (by `Utils.WithoutSlugExactly`) |
| LegacyApp.LegacyStore.ResetProject | src/App.tsx:221-233 | the entries with the slug are cleared |
| LegacyApp.LegacyStore.OnResetTimers | src/App.tsx:161-177 | a confirmed reset clears every entry; a declined one changes nothing |
| LegacyApp.LegacyStore.OnFullReset | src/App.tsx:179-189 | a confirmed reset empties the roster; a declined one changes nothing |
| LegacyApp.LegacyStore.OnImport | src/App.tsx:191-219 | a cancelled or empty text changes nothing; otherwise the unseen imported projects are appended |
| HeaderActions.ImportedProjects | src/HeaderActions.tsx:76-79 | there is one imported project per parsed entry, with its slug and name and not started |
| HeaderActions.ImportEffect | src/HeaderActions.tsx:64-86 | an import keeps the roster as a prefix and appends only stopped projects with slugs the roster lacked; repeating it adds nothing |
| HeaderActions.ExportDurations | src/HeaderActions.tsx:93-100 | the durations begin with the duration of each log of the project, in log order, followed by `now - startedAt` only while the timer runs |
| HeaderActions.ExportRowsAppend | src/HeaderActions.tsx:93-113 | export rows follow roster order: the rows of a roster are the rows of its parts |
| HeaderActions.ExportRowOfOne | src/HeaderActions.tsx:93-110 | a project is exported exactly when it has logs or a running timer, and its minutes are the least whole number covering its logs plus its running time |
| HeaderActions.OnFullReset | src/HeaderActions.tsx:34-44 | a confirmed reset empties the roster and keeps the logs; a declined one changes nothing |
| HeaderActions.OnResetTimers | src/HeaderActions.tsx:46-62 | a confirmed reset stops every timer and empties the logs; a declined one changes nothing |
| HeaderActions.OnImport | src/HeaderActions.tsx:64-86 | a cancelled or empty text changes nothing; otherwise the unseen imported projects are appended and the logs are kept |
| AppProvider.FlattenEntries | src/AppProvider.tsx:83-90 | there is one flattened entry per old entry, each the adopted form of an old entry of some project |
| AppProvider.FlattenAt | src/AppProvider.tsx:83-90 | old entry `k` of project `j` becomes, adopted, flattened entry number (entries of the projects before `j`) + `k`, so every old entry appears |
| AppProvider.InsertSorted | src/AppProvider.tsx:91 | inserting into a list sorted latest end first keeps it sorted and adds exactly the new entry |
| AppProvider.SortByEndCorrect | src/AppProvider.tsx:91 | the sort orders entries latest end first, is a permutation, and keeps the flattened order among equal end times |
| AppProvider.MigrationCorrect | src/AppProvider.tsx:81-98 | the migration yields one log per old entry, latest end first; each log carries its owning project's slug and the entry's interval, and is named after the entry or else the project |
| AppProvider.ToLogsPermutation | src/AppProvider.tsx:93-97 | turning reordered entries into logs reorders the logs, each kept exactly as often |
| AppProvider.MigrationComplete | src/AppProvider.tsx:81-98 | the migrated logs hold the log of each flattened entry exactly as often as the entry occurs, so every old entry of every project reaches them |
| AppProvider.MigrateOneEntry | src/AppProvider.tsx:83-97 | an unnamed entry with a foreign slug migrates to a log of its project, named after the project |
| AppProvider.VoidTimesEffect | src/AppProvider.tsx:57-58 | stripping old entries keeps order and every other field, leaves nothing to migrate, and is idempotent |
| AppProvider.AppState.constructor | src/AppProvider.tsx:14-18 | stored logs are used when present; otherwise the logs migrated from the stored roster are used |
| AppProvider.AppState.SetProjects | src/AppProvider.tsx:55-65 | a roster write stores the roster without old entries |
| AppProvider.AppState.SetLogs | src/AppProvider.tsx:15-18 | only the logs change |
| AppProvider.AppState.GetProjectLogs | src/AppProvider.tsx:25-30 | the lookup returns the project's logs in stored order, or none |

## Left out

- React components, hooks, context providers and the keyboard handler are not modelled. Storage is modelled as plain fields; sound, favicon and class-name merging are left out. They are presentation and persistence, not accounting logic.
- `src/ProjectRow.tsx` and `src/ProjectsLogs.tsx` are not part of this model. They are user interface components.
- `useSortableList` is not modelled. It is a user-interface adapter; `sortProjects` carries the reorder logic.
- The one-second `setInterval` refresh of the live total is not modelled. Only the instantaneous formula is, at a given `now`.
- `Date.now()` is one `now` parameter per handler. The source reads the clock several times within a handler, before and after the prompt, and the gap between readings is not modelled.
- Dates and formatted text are left out: `toISOString`, `toLocaleTimeString`, `logToTextParts`, and the `/track` line text with `toFixed(2)` hours. The export stops at the integer minute total (`Utils.ExportRow`).
- Prompts, confirmations, alerts and the clipboard are parameters or left out. A prompt is an optional answer and a confirmation is a boolean.
- `AppProvider`'s own `activeProjects` is not modelled separately. It is the same filter as `DataProvider.ActiveProjects`.
- `groupBy` collects into a plain `{}`. In the source, a log whose slug names an inherited member of `Object.prototype` (such as "constructor" or "toString") makes `[...(acc[key] || [])]` spread that inherited function, which throws. When no log carries such a slug, the lookup's `?? []` returns the inherited function instead of a list. The model treats every slug as an ordinary key.
- JavaScript object keys are strings, so `groupBy` files a log with an `undefined` slug under the key "undefined". There, a project whose slug is the text "undefined" would share that group. Here slugs are compared as values, so the two are kept apart.
- Durations are integers and `msToHumanFormat` takes a non-negative duration. Floating-point rounding is not modelled: division and `Math.floor`/`Math.ceil` are exact.
- `intervalMinutes` is a positive whole number in the timeline and the legend.
- The two-argument `getProjectLogs(project, logs)` used by the header export is not part of this model. `src/HeaderActions.tsx:9` imports it from `src/utils.ts`, but that file exports no such function: `src/utils.ts:217` only takes the one-argument lookup from `useAppContext()`. `HeaderActions.ExportDurations` therefore rests on an assumption about code the repository does not contain: that the export's lookup selects the logs by slug, as the one-argument lookup does.
- LegacyApp.ToggleRoster: the earlier version prompts once per entry it starts. The model uses one answer for all of them, which differs only when duplicate slugs start several entries.
- `useEffectEvent` and `useWithClick` are not part of this model. They are treated as plain calls of the wrapped handler.
