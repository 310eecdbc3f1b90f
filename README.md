# lazyvercel terminal UI: log tail and deployment views

This is a Dafny model of the core of lazyvercel. lazyvercel is a terminal UI for Vercel deployments. The model covers the following parts.

- **The deployment log feed** (`src/_components/deployment-logs.tsx`). It loads the history of a deployment's events. While the deployment is building, it tails the live event stream from the latest timestamp it has seen. The stream is text cut into records by a blank line (`"\n\n"`). Inside a record only `data:` lines count. Their trimmed, non-blank payloads are joined with `"\n"` and parsed as JSON. Every object (or array element that is an object) becomes one log event. A `[DONE]` payload or one that fails to parse is skipped. The text after the last delimiter is carried in a buffer to the next read and flushed when the stream ends. The effect's cleanup cancels the run and aborts the stream.
  - Modules: `LogSegments` (the record parser and the buffer), `LogCursor` (the resumption cursor and the request parameters) and `LogFeed` (the component state and one run of the effect, as classes whose methods change them).
- **The deployments screen** (`src/_components/deployments.tsx`, module `DeploymentsView`):
  - the branch tabs: every branch once, most recently deployed first, ties by name;
  - the deployments of the selected tab, newest first;
  - the banner width;
  - keeping the selected tab scrolled into view.
- **The table body** (`src/_components/table/rows.tsx`, module `TableRows`): cell truncation, keeping the selected row index inside the list, mirroring the scroll bar's width, and keeping the selected row in view.
- **The compact list** (`src/_components/deployments-list.tsx`, module `HoverCursor`): the hovered index that `j`/`k` move with wrap-around.
- **Column styles** (`src/_components/table/columns.ts`, module `Columns`).
- **Theme colours** (`src/lib/colors.ts`, module `Colors`): resolving a theme key through the theme's definitions, and the list of theme names.
- **The CLI entry point** (`src/index.tsx`, module `Cli`): choosing `DEBUG`, choosing and checking the working directory, the reported version, and the `@/` import alias registered once per process.

`Text` holds JavaScript's `split`, `join`, `trim`, `startsWith` and `String(n)` for naturals. `Json` holds the JSON values. `Sorting` holds a stable insertion sort with its permutation and order lemmas. `ScrollBoxes` holds the part of the UI toolkit's scroll box that the views read and write.

## Model

| member | source | states |
|---|---|---|
| LogCursor.EventTime | src/_components/deployment-logs.tsx:34-41 | an event's timestamp is its numeric `created`, else its payload's numeric `created`, else none |
| LogCursor.LatestFromSpec | src/_components/deployment-logs.tsx:32-43 | the reduce fails exactly when an event is `null`; otherwise its result is at least the start value, bounds every event timestamp and is the start value or some event's timestamp |
| LogCursor.LatestTimestamp | src/_components/deployment-logs.tsx:32-43 | the cursor is absent iff an event is `null`; otherwise it is non-negative, no event is newer, a non-zero cursor is some event's timestamp, and a batch without timestamps gives 0 |
| LogCursor.SetParamGet | src/_components/deployment-logs.tsx:92-98 | after `params.set(k, v)`, `get(k)` is `v` and every other key reads as before |
| LogCursor.LiveParamsSpec | src/_components/deployment-logs.tsx:87-98 | the live request always carries `follow=1` and `limit=-1`; `teamId` iff the team id is non-empty; `since` iff the cursor is a finite number above 0, written in decimal |
| LogCursor.SinceRoundTrip | src/_components/deployment-logs.tsx:96-98 | the `since` sent reads back as the latest timestamp of the history |
| Text.TrimSpec | src/_components/deployment-logs.tsx:126 | `trim` keeps the middle part that neither starts nor ends with whitespace and cuts only whitespace |
| LogSegments.Payload | src/_components/deployment-logs.tsx:123-133 | a record has a payload iff it has a non-blank `data:` line; the payload is non-empty and splits on `"\n"` back into exactly those trimmed lines, in order |
| LogSegments.Entries | src/_components/deployment-logs.tsx:141-144 | a parsed array yields its object-like elements in order, an object yields itself, anything else nothing |
| LogSegments.ObjectsOfAppend | src/_components/deployment-logs.tsx:141-144 | the filter keeps one value exactly when it is object-like and distributes over concatenation, so every object element is kept, in array order |
| LogSegments.SegmentEvents | src/_components/deployment-logs.tsx:122-152 | a record yields nothing without a payload, for `[DONE]` or when parsing fails, and otherwise the entries of the parsed payload; every event is object-like |
| LogSegments.SegmentsEventsAppend | src/_components/deployment-logs.tsx:166-168 | handling records one after another concatenates their events |
| LogSegments.MalformedRecordSkipped | src/_components/deployment-logs.tsx:139-151 | a record that fails to parse contributes nothing and leaves the records around it intact |
| LogSegments.EmptySegmentNoEvents | src/_components/deployment-logs.tsx:129-131 | an empty record yields no event |
| LogSegments.Feed | src/_components/deployment-logs.tsx:162-164 | after a read the complete records plus the new buffer are the split of buffer and chunk, and the buffer never holds a delimiter |
| LogSegments.ChunkBoundaryInvariance | src/_components/deployment-logs.tsx:154-169 | however the text is cut into chunks, the records handled are those of splitting the whole text, and the last piece stays buffered |
| LogSegments.CompleteEventsExtend | src/_components/deployment-logs.tsx:162-168 | one more read appends exactly the events of the records it closes and leaves the remainder of the whole text buffered |
| LogSegments.FlushCompletes | src/_components/deployment-logs.tsx:171-176 | the complete records plus the flushed buffer are every record of the text: none lost, none handled twice |
| LogFeed.CleanupCutsOff | src/_components/deployment-logs.tsx:146-154 | nothing read after a cleanup reaches the feed, whatever the stream delivers afterwards |
| LogFeed.LogsView.constructor | src/_components/deployment-logs.tsx:54-55 | the feed starts empty and loading |
| LogFeed.LogsView.AppendLogs | src/_components/deployment-logs.tsx:68-74 | the batch is added at the end of the feed |
| LogFeed.LogsView.StartEffect | src/_components/deployment-logs.tsx:76-81 | the feed is reset and loading, and a fresh run starts uncancelled with an empty buffer |
| LogFeed.LogsView.Restart | src/_components/deployment-logs.tsx:224-228 | the previous run is cancelled and its stream aborted if opened, its other state kept; the new run starts uncancelled, unopened, unaborted and with an empty buffer |
| LogFeed.EffectRun.Cleanup | src/_components/deployment-logs.tsx:224-227 | the run is cancelled and the stream is aborted exactly when it was opened |
| LogFeed.EffectRun.HistoryLoaded | src/_components/deployment-logs.tsx:198-213 | a cancelled run changes nothing; otherwise the feed becomes the history and loading ends; a live request goes out iff the deployment is building and the cursor is computable, with the cursor's parameters |
| LogFeed.EffectRun.HistoryFailed | src/_components/deployment-logs.tsx:214-219 | a failed history load ends loading unless cancelled and keeps the feed |
| LogFeed.EffectRun.HandleSegment | src/_components/deployment-logs.tsx:146-148 | a record's events are appended unless the run is cancelled |
| LogFeed.EffectRun.HandleSegments | src/_components/deployment-logs.tsx:166-168 | the records' events are appended in order unless the run is cancelled |
| LogFeed.EffectRun.ReadChunk | src/_components/deployment-logs.tsx:162-168 | after a read the buffer is what follows the last delimiter of all text read, and the feed holds the events of every record that text closes; the stream flags are kept |
| LogFeed.EffectRun.Flush | src/_components/deployment-logs.tsx:171-176 | a non-empty buffer's records are handled at end of stream |
| LogFeed.EffectRun.ReadLoop | src/_components/deployment-logs.tsx:154-169 | the loop reads exactly the chunks before the first stop, handles the records they close, and ends cancelled iff that stop is a cleanup |
| LogFeed.EffectRun.Tail | src/_components/deployment-logs.tsx:114-185 | the feed gains exactly the events of the text read before the first cleanup, end or failure: all records when the stream ends, only closed records otherwise, nothing when cancelled or bodiless; the run ends cancelled iff it was or a cleanup came first, aborted iff that cancelled an opened stream |
| DeploymentsView.LatestOfKeys | src/_components/deployments.tsx:44-55 | the map holds each non-empty branch that has a deployment, exactly once |
| DeploymentsView.LatestOfIsMax | src/_components/deployments.tsx:50-54 | for non-negative timestamps a branch's value is the largest `createdAt` of its deployments |
| DeploymentsView.CollectLatest | src/_components/deployments.tsx:44-55 | the loop builds the map and its insertion order |
| DeploymentsView.EntryBeforeOrders | src/_components/deployments.tsx:56-59 | the comparator is a total, transitive order |
| DeploymentsView.SortedEntriesFacts | src/_components/deployments.tsx:56-59 | the sorted entries are the map's entries, each branch once, in comparator order |
| DeploymentsView.Branches | src/_components/deployments.tsx:43-61 | the method computes the tab list |
| DeploymentsView.BranchTabsContents | src/_components/deployments.tsx:60 | the tabs are the default tab, then each deployed non-empty branch exactly once |
| DeploymentsView.BranchTabsOrder | src/_components/deployments.tsx:56-60 | a tab precedes another when its branch was deployed later, or at the same time with a name that sorts first |
| DeploymentsView.SelectedBranch | src/_components/deployments.tsx:65 | the selected branch exists iff the index is in range |
| DeploymentsView.FilterBranch | src/_components/deployments.tsx:67-72 | the default tab keeps everything; any other keeps only deployments of that branch |
| DeploymentsView.MatchingCounts | src/_components/deployments.tsx:71 | the filter keeps every matching deployment as often as it occurs and drops every other one |
| DeploymentsView.MatchingAppend | src/_components/deployments.tsx:71 | the filter keeps the original order |
| DeploymentsView.SortByNewestSpec | src/_components/deployments.tsx:74-77 | the sort is a permutation ordered newest first |
| DeploymentsView.AsciiBoxWidth | src/_components/deployments.tsx:63 | the banner is four cells per character of the name and at least 24 |
| DeploymentsView.AdjustLeft | src/_components/deployments.tsx:119-127 | the adjusted offset is unchanged or non-negative |
| DeploymentsView.TabScrollLeft | src/_components/deployments.tsx:92-127 | no tabs or a negative index scroll to 0; a zero-width viewport keeps the offset; otherwise the result is the adjustment for the selected tab, clamped to the last one |
| DeploymentsView.AdjustLeftShowsTab | src/_components/deployments.tsx:114-127 | a tab narrower than the viewport and inside the content, the last tab included, ends fully in view |
| DeploymentsView.TabScrollLeftShowsSelected | src/_components/deployments.tsx:92-127 | the effect leaves the selected (clamped) tab fully in view |
| DeploymentsView.AdjustLeftIdempotent | src/_components/deployments.tsx:119-127 | adjusting again changes nothing |
| DeploymentsView.ScrollTabIntoView | src/_components/deployments.tsx:86-128 | the effect sets only `scrollLeft`, to the adjustment for the selected tab |
| TableRows.Truncate | src/_components/table/rows.tsx:20-21 | a fitting string is kept; a longer one becomes a prefix plus an ellipsis, exactly `len` long when `len >= 1` |
| TableRows.TruncateIdempotent | src/_components/table/rows.tsx:20-21 | truncating twice to the same width is truncating once |
| TableRows.VisibleRowsSpec | src/_components/table/rows.tsx:44-54 | the rows are the selected branch's deployments (all for "All"), with multiplicities kept, newest first |
| TableRows.ClampSelection | src/_components/table/rows.tsx:56-64 | the selection is 0 for an empty list, else at most the last index, kept when it fits |
| TableRows.ClampSelectionInRange | src/_components/table/rows.tsx:56-64 | a non-negative selection lands inside a non-empty list, and clamping again changes nothing |
| TableRows.ScrollbarWidth | src/_components/table/rows.tsx:73-75 | the reserved width is the visible bar's width, and 0 otherwise |
| TableRows.AdjustTop | src/_components/table/rows.tsx:113-121 | the adjusted offset is unchanged or non-negative |
| TableRows.RowScrollTop | src/_components/table/rows.tsx:81-121 | no rows or a negative index scroll to 0; a zero-height viewport keeps the offset; otherwise the result is the adjustment for the selected row, clamped to the last one |
| TableRows.AdjustTopShowsRow | src/_components/table/rows.tsx:108-121 | a row no taller than the viewport ends fully in view |
| TableRows.RowScrollTopShowsSelected | src/_components/table/rows.tsx:81-121 | the effect leaves the selected (clamped) row fully in view |
| TableRows.AdjustTopIdempotent | src/_components/table/rows.tsx:113-121 | adjusting again changes nothing |
| TableRows.RowsState.ClampToRows | src/_components/table/rows.tsx:56-64 | the effect clamps the selection |
| TableRows.RowsState.SyncScroll | src/_components/table/rows.tsx:66-127 | the effect mirrors the bar's width and sets only `scrollTop`, to the adjustment for the selected row |
| HoverCursor.JsRem | src/_components/deployments-list.tsx:21-25 | `%` gives NaN exactly for a zero divisor and the usual remainder for a non-negative dividend |
| HoverCursor.NextWraps | src/_components/deployments-list.tsx:20-22 | down moves to the next index and wraps from the last to 0 |
| HoverCursor.PrevWraps | src/_components/deployments-list.tsx:24-26 | up moves to the previous index and wraps from 0 to the last |
| HoverCursor.StepsWrapAround | src/_components/deployments-list.tsx:20-26 | on a non-empty list both keys keep the index in range, and up undoes down and down undoes up |
| HoverCursor.EmptyListLosesIndex | src/_components/deployments-list.tsx:21-25 | on an empty list either key gives NaN, and NaN never recovers |
| HoverCursor.DeploymentsList.constructor | src/_components/deployments-list.tsx:13 | the first row is hovered |
| HoverCursor.DeploymentsList.OnKey | src/_components/deployments-list.tsx:15-33 | without focus nothing changes; `down`/`j` step down, `up`/`k` step up, other keys change nothing |
| Columns.GetColumnStyle | src/_components/table/columns.ts:12-25 | a sized column is fixed; any other grows by its flex (0 when unset) and shrinks iff the flex is non-zero |
| Columns.ShrinksIffGrows | src/_components/table/columns.ts:21-24 | a column shrinks exactly when it grows |
| Columns.TableColumnsFixed | src/_components/table/columns.ts:3-10 | the table has the six sized columns, 106 cells in all, none of them flexing |
| Colors.Definition | src/lib/colors.ts:150-151 | a string entry is its own definition, a pair its dark variant |
| Colors.GetThemeColor | src/lib/colors.ts:147-154 | resolution throws exactly for a key the theme lacks |
| Colors.ColorReturnedVerbatim | src/lib/colors.ts:152-153 | a definition starting with `#` is returned as it is |
| Colors.LightIgnored | src/lib/colors.ts:151 | the light variant never affects the colour |
| Colors.LookedUpOnce | src/lib/colors.ts:153 | any other definition is looked up once in `defs` (undefined when absent), with no chaining |
| Colors.ClosedThemeYieldsColors | src/lib/colors.ts:147-154 | in a theme whose definitions are colours, every key resolves to a colour |
| Colors.ThemesNames | src/lib/colors.ts:112-141 | the names are `custom` and then the 23 built-in themes in order, and `custom` is not a built-in theme |
| Cli.DebugValue | src/index.tsx:87-104 | an absent option leaves `DEBUG` alone; `true` or a blank string gives `lazyvercel*`; a string gives its trim; the value is never blank or padded |
| Cli.DebugValueStable | src/index.tsx:97-103 | passing the chosen value back as `--debug` chooses it again |
| Cli.ResolveCwd | src/index.tsx:68-85 | with no or an empty request there is no directory; otherwise the resolved path is returned when it is an existing directory, with the two error messages otherwise |
| Cli.FlagTakesPrecedence | src/index.tsx:69 | a given `--cwd` flag decides alone and the positional argument is ignored |
| Cli.Process.SetDebugEnv | src/index.tsx:87-104 | `DEBUG` is set to the chosen value or left unchanged |
| Cli.Process.Launch | src/index.tsx:184-190 | the directory changes exactly to a resolved directory; a resolution error is reported and changes nothing |
| Cli.ReadPackageVersion | src/index.tsx:55-66 | the version is the package's non-null `version`, and `0.0.0` when it is missing or reading or parsing fails |
| Cli.ResolveAlias | src/index.tsx:29-42 | only `@/` paths are resolved: to `x.js` when it exists, else to an existing `x/index.js`, else to `x.js` |
| Cli.Runtime.RegisterPathAliases | src/index.tsx:10-23 | the plugin is registered only with the plugin API and only when not registered before |
| Cli.Runtime.RegisterRepeatedly | src/index.tsx:19-22 | however often registration runs, the plugin is registered at most once |

## Left out

- The network and the runtime are parameters rather than code:
  - `fetch`, `AbortController`, `reader.read()` and `TextDecoder`: each read arrives as an already decoded chunk, an end or a failure, plus whether a cleanup ran meanwhile;
  - `JSON.parse`: a function parameter returning None where it throws;
  - `CONFIG` and the Vercel SDK call: their result is the `response` argument.
- The `console.error` logging and the distinction between an `AbortError` and other stream errors are left out. Both only log or return.
- `isDeploymentBuilding`, `getBranch`, `getCreatedAt` and `DEFAULT_BRANCH` are not part of this model. They are a boolean argument, the deployment's fields and a string parameter.
- Numbers are integers. Fractional timestamps, `-0`, and `NaN` or infinite timestamps in events are not modelled. `since` can still be NaN or infinite.
- `TableRows.Truncate` and `DeploymentsView.AsciiBoxWidth`: lengths and slices count Unicode code points, where JavaScript counts UTF-16 code units. A string with characters outside the Basic Multilingual Plane is truncated at a different place and a project name with such characters gets a narrower banner, and the source's cut through a surrogate pair cannot be represented.
- `localeCompare` is approximated by code-point order (`LexLe`). Locale collation is not modelled.
- The whitespace set of `trim` follows ECMAScript's list. No Unicode categories beyond it are modelled.
- The sort is modelled as a stable insertion sort. The lemmas prove permutation and order, but not stability.
- React's state updates, re-renders, memoisation, `useKeyboard` registration and the JSX layout are left out. The effects are methods on the state they change, and a functional update such as `prev === w ? prev : w` is a plain assignment.
- `scrollbox.scrollTo(0)` is modelled as `scrollTop := 0`.
- The UI toolkit's scroll box is reduced to the fields the views read and write. `rows[rowIndex]` is always present here, so the source's `if (!row) return` guard has no counterpart.
- `DeploymentsView.LatestOfIsMax`: proved only for non-negative timestamps. `!latest` treats a stored 0 as missing, so with negative timestamps a 0 is overwritten by an older value. `Record` models that behaviour as written.
- `DeploymentsView.AdjustLeft`: only states that the result is unchanged or non-negative, for a non-negative maximum. Full visibility is in `AdjustLeftShowsTab`.
- `TableRows.AdjustTop`: as for `AdjustLeft`. Full visibility is in `AdjustTopShowsRow`.
- `path.resolve`, `path.join`, `fs.existsSync`, `fs.statSync`, `process.chdir` and the package file read are abstract functions or arguments. A file system that changes between the existence check and `statSync` is not modelled.
- `startUi`, the rendering, the `cac` argument parsing, `--help` and the unknown-command handler are left out. They are UI wiring with nothing to state.
- The theme files and `loadTheme`'s schema validation are not modelled. A theme is a map of entries and a map of definitions.
