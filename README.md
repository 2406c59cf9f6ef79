# sorteador-simples in Dafny

A verified model of the core of *sorteador-simples*, a browser app for
drawing names and keeping a team scoreboard.

The model covers three parts:

- **The name pools and the animated draw** of the `App` component. Names
  are added, re-included, removed and reset. A draw is a small state
  machine: idle, then a countdown of four labels, then a spin that cycles
  through a pool of names, then a settle step that picks the winner.
- **Teams, scores, activities and the leaderboard.** The names are dealt
  round-robin into K teams, and activities are handed out one-to-one or in
  turn. Scores and activities are updated per team, the activity registry
  is case-insensitive, teams are ranked by score, and the leader effect
  fires the confetti.
- **The name utilities and the CSV writer**: `normalizeName`,
  `parseNamesFromText`, `mergeUniqueNames`, `shuffleArray` and the text
  that `exportTeamsAsCSV` builds.

Files, one module each:

| file | module | models |
|---|---|---|
| `text.dfy` | `Text` | string helpers: ASCII whitespace and case, `trim`, `split`/`join`, `filter(x => x !== y)`, `String(n)` |
| `rand.dfy` | `Rand` | `Math.floor(Math.random() * n)` for a given `r` in [0, 1) |
| `name_utils.dfy` | `NameUtils` | `src/utils/nameUtils.js` |
| `download_utils.dfy` | `DownloadUtils` | `src/utils/downloadUtils.js:15-30`, plus a CSV reader that serves only as the writer's inverse |
| `teams.dfy` | `Teams` | the team, score, activity, ranking and leader logic of `src/App.jsx:193-316` |
| `app.dfy` | `App` | the component: class `Sorteador` with one method per handler and per timer callback |

## How the component is modelled

- **The `useState` slots.** They are the fields of one `State` value,
  `Sorteador.state`. Each handler replaces it, as each `setX` replaces a
  slot. A handler's updates are applied together, before the next event.
- **A draw.** Its mutable parts are fields updated in place:
  - `phase` says which timers are pending: none, the countdown interval,
    or the spin interval and the spin timeout.
  - `pool` is the snapshot the draw spins over.
  - `cfg` holds the settings the draw's closures captured at the click.
  - `step` and `cursor` are the counters the callbacks advance.
  - `spinMs` is the length of the spin.
- **Timers.** Each timer callback is an event method: `TickCountdown`,
  `TickSpin` or `FireTimeout`. A cleared timer never fires, so its method
  does nothing when the phase does not match.
- **Outside inputs.**
  - `Math.random()` is a parameter `r` with 0 ≤ r < 1; a shuffle takes one
    such number per swap.
  - `createId()` is a fresh id supplied by the caller.
  - The sound and the confetti are recorded as `playing` and
    `confettiBursts`.
- **Invariant.** Every handler keeps `Valid()`:
  - the spin settings stay ordered within [0.5, 15];
  - the name lists have no two entries with the same lower-cased key;
  - the drawn list has no repeats;
  - the activity registry is valid;
  - a pending timer implies `isDrawing` and a non-empty pool;
  - the countdown shows its current label;
  - the spin shows `pool[cursor % pool.length]`.

  The unmount cleanup `Teardown` is the one exception. It clears the
  timers and calls no setter, so a countdown label or `isDrawing` left on
  stays in the slots; it keeps only the validity of the slots themselves.
  Nothing runs on the component after it.

## Model

| member | source | states |
|---|---|---|
| `App.Sorteador.constructor` | src/App.jsx:24-39 | the initial state: empty lists, shuffle and auto-remove on, 3 teams, 2 s and 4 s, sound on, no leader; valid, no timer |
| `App.Sorteador.AddNames` | src/App.jsx:64-73 | `allNames` becomes the merge of the typed names; `pendingNames` receives, by merge, exactly the entries not already in `allNames`; nothing else changes |
| `App.AddNamesAppends` | src/App.jsx:64-73 | with unique keys in `allNames`, the merge only appends, and the entries passed on to `pendingNames` are exactly the appended names, each with a new key |
| `App.NewEntries` | src/App.jsx:67 | a name is a new entry iff it is in the merged list and not in the previous one |
| `App.Sorteador.ResetNamesAsWritten` | src/App.jsx:75-90 | as written: timers cleared, sound stopped, countdown, all/pending/drawn names, display, teams and leader cleared; `isDrawing` untouched |
| `App.Sorteador.ResetNames` | src/App.jsx:75-90 | the same reset with `isDrawing` cleared, so `isDrawing` again matches the pending timers |
| `App.Sorteador.CancelTimers` | src/App.jsx:108-113 | after clearing the three refs, no timer is pending |
| `App.Sorteador.Reinclude` | src/App.jsx:92-95 | the name is merged into `pendingNames` and every copy of it leaves `drawnNames` |
| `App.Sorteador.RemovePending` | src/App.jsx:97-103 | the name leaves `pendingNames` and `allNames`, and the display when it is showing; key uniqueness is kept |
| `App.UniqueKeysWithout` | src/App.jsx:98-99 | filtering a name out keeps the keys unique |
| `App.Sorteador.StartDraw` | src/App.jsx:105-127 | refused (no change) while drawing or with no pending name; otherwise timers cleared, the pool a permutation of `pendingNames` (the same list when not shuffling), settings captured, `isDrawing` set, display cleared, label `"1"` shown |
| `App.DrawPool` | src/App.jsx:115 | the pool has the pending names' length and multiset, and equals them when shuffling is off |
| `App.Sorteador.TickCountdown` | src/App.jsx:164-174 | a stale tick does nothing; otherwise `step` advances and the next of `["1","2","3","VALENDO!"]` is shown; after the last label the countdown is cleared and the spin starts in the same tick |
| `App.Sorteador.StartSpin` | src/App.jsx:129-140 | the spin length comes from the captured settings, the sound starts when it was on at the click, the cursor is 0 and `pool[0]` is shown |
| `App.Sorteador.TickSpin` | src/App.jsx:141-144 | a stale tick does nothing; otherwise the cursor advances by one and `pool[cursor % pool.length]` is shown |
| `App.Sorteador.FireTimeout` | src/App.jsx:146-161 | a stale timeout does nothing; otherwise the spin stops and the winner, a pool name picked by `r` independently of the cursor, is shown and put at the head of `drawnNames`, once; it leaves `pendingNames` when auto-remove was on at the click; `isDrawing` is cleared |
| `App.Winner` | src/App.jsx:148 | the winner is a name of the pool |
| `App.EveryNameCanWin` | src/App.jsx:148 | every name of the pool is the winner for some `r` in [0, 1) |
| `App.RecordWinner` | src/App.jsx:153-156 | the drawn list starts with the winner, and its multiset is the old one with the winner counted exactly once |
| `App.RecordWinnerKeepsOthers` | src/App.jsx:153-156 | apart from the winner, the drawn list keeps the same names in the same order |
| `App.RecordWinnerDistinct` | src/App.jsx:153-156 | a drawn list without repeats stays without repeats |
| `App.RecordWinnerTwice` | src/App.jsx:153-156 | recording the same winner twice is the same as once |
| `App.Sorteador.Teardown` | src/App.jsx:46-56 | on unmount every timer is cleared and the sound stopped, and the React state is left exactly as it was |
| `App.ClampSeconds` | src/App.jsx:180 | the clamped value lies in [0.5, 15], equals the input inside it, and equals the nearer bound outside |
| `App.Sorteador.SetMinSpin` | src/App.jsx:177-183 | `NaN` changes nothing; otherwise the minimum becomes the clamped value and the maximum is raised to it when below; min ≤ max is kept |
| `App.Sorteador.SetMaxSpin` | src/App.jsx:185-191 | `NaN` changes nothing; otherwise the maximum becomes the clamped value and the minimum is lowered to it when above; min ≤ max is kept |
| `App.Round` | src/App.jsx:132-133 | `Math.round(x)` is within half a unit of `x`, halves rounded up |
| `App.SpinBounds` | src/App.jsx:130-133 | whatever the order of the settings, 500 ≤ minMs ≤ maxMs |
| `App.SpinBoundsSymmetric` | src/App.jsx:130-131 | swapping the two settings gives the same bounds |
| `App.RoundMonotonic` | src/App.jsx:132-133 | rounding keeps order |
| `App.SpinBoundsOfSettings` | src/App.jsx:130-133 | for settings in [0.5, 15] and in order, the bounds are the settings in ms, at most 15000 |
| `App.SpinDuration` | src/App.jsx:134 | the spin length lies in [minMs, maxMs] |
| `App.SpinDurationReaches` | src/App.jsx:134 | every length in [minMs, maxMs], both ends included, comes out for some `r` |
| `App.Sorteador.ToggleShuffle` | src/App.jsx:366 | flips `shuffleBeforeDraw` and nothing else |
| `App.Sorteador.ToggleAutoRemove` | src/App.jsx:368 | flips `autoRemoveWinner` and nothing else |
| `App.Sorteador.ToggleSound` | src/App.jsx:58-62 | flips `soundEnabled`; the sound stops when it is turned off |
| `App.Sorteador.ToggleAssignActivities` | src/App.jsx:395 | flips `assignActivitiesOnDraw` and nothing else |
| `App.Sorteador.SetTeamCount` | src/App.jsx:386 | stores the team count and nothing else |
| `App.Sorteador.GenerateTeams` | src/App.jsx:193-232 | refused (no change) with no names or fewer than one team; otherwise the teams become the round-robin teams of the shuffled names, with activities when assignment is on, and the leader is cleared |
| `App.ActivitiesForTeams` | src/App.jsx:212-213 | with assignment on, the activities dealt are a permutation of the registry; with it off, none |
| `App.DealtActivities` | src/App.jsx:212-213 | computes the activities to deal |
| `App.Sorteador.ResetTeams` | src/App.jsx:234-237 | no teams and no leader; nothing else changes |
| `App.Sorteador.ScoreDelta` | src/App.jsx:239-245 | the teams become the score-delta update, and nothing else changes |
| `App.Sorteador.ScoreSet` | src/App.jsx:247-253 | the teams become the score-set update, and nothing else changes |
| `App.Sorteador.AssignActivity` | src/App.jsx:255-270 | the teams become the activity update, looked up in the current registry |
| `App.Sorteador.SetActivities` | src/App.jsx:275-279 | the registry slot is replaced by a valid registry and nothing else changes |
| `App.Sorteador.AddActivity` | src/App.jsx:272-280 | the registry becomes the add update and stays valid |
| `App.Sorteador.RemoveActivity` | src/App.jsx:282-291 | the activity leaves the registry and every team that had it; the registry stays valid |
| `App.Sorteador.RankedTeams` | src/App.jsx:293-298 | the ranking is sorted by the comparator and is a permutation of the teams |
| `App.Sorteador.LeaderEffect` | src/App.jsx:300-316 | `leaderId` and the confetti count follow one run of the leader rule over the ranking |
| `App.Sorteador.ExportCsv` | src/App.jsx:332-335 | the exported text reads back as the header and the ranked teams' rows, in ranking order |
| `App.ResetDuringDrawAsWritten` | src/App.jsx:75-90 | with the reset as written, a reset during the countdown leaves `isDrawing` set with no timer, and a new draw over a re-added name is refused |
| `App.ResetDuringDraw` | src/App.jsx:75-90 | with `isDrawing` cleared by the reset, the same sequence starts the countdown over `["Ana"]` |
| `Teams.RoundRobin` | src/App.jsx:208-210 | exactly K buckets |
| `Teams.RoundRobinSizes` | src/App.jsx:208-210 | bucket t holds n / K names, plus one when t < n % K |
| `Teams.RoundRobinBalanced` | src/App.jsx:208-210 | bucket sizes differ by at most one |
| `Teams.RoundRobinPlacement` | src/App.jsx:208-210 | participant i is member number i / K of bucket i % K |
| `Teams.RoundRobinPartition` | src/App.jsx:208-210 | the buckets together are a permutation of the participants |
| `Teams.FlattenPush` | src/App.jsx:209 | pushing a name onto one bucket adds exactly that name to the union |
| `Teams.TeamName` | src/App.jsx:199 | a team label is `"Equipe "` followed by a number that reads back as `index + 1` |
| `Teams.TeamNamesDistinct` | src/App.jsx:199 | distinct indexes give distinct labels |
| `Teams.AssignedActivity` | src/App.jsx:212-227 | an assigned activity is one of the shuffled activities |
| `Teams.FormedTeams` | src/App.jsx:197-227 | exactly K teams |
| `Teams.FormedTeamsFresh` | src/App.jsx:197-227 | team t has id `ids[t]`, label "Equipe t+1", score 0 and `createdOrder` t; with no activities dealt, no team has an activity id or label |
| `Teams.FormedTeamsMembers` | src/App.jsx:208-210 | team sizes follow the round robin, differ by at most one and sum to the number of names; the members are a permutation of the names |
| `Teams.FormedTeamsPlacement` | src/App.jsx:208-210 | shuffled participant i is a member of team i mod K |
| `Teams.FormedTeamsAllAssigned` | src/App.jsx:212-227 | with at least one activity, every team gets one of them |
| `Teams.FormedTeamsOneToOne` | src/App.jsx:214-220 | with at least K activities, team t gets the id and label of shuffled activity t, so the assigned activities are pairwise distinct |
| `Teams.FormedTeamsWrapAround` | src/App.jsx:221-226 | with fewer activities than teams, team t gets activity t mod the count, and every activity is used |
| `Teams.BuildTeams` | src/App.jsx:197-227 | the array-building loops produce exactly the formed teams |
| `Teams.DealMembers` | src/App.jsx:208-210 | the push loop leaves team t with bucket t of the round robin, all else as created |
| `Teams.AssignInPlace` | src/App.jsx:212-227 | the assignment loop gives team t its activity, when it has one, and changes nothing else |
| `Teams.ScoreDelta` | src/App.jsx:239-245 | the team list keeps its length |
| `Teams.ScoreDeltaOnlyTarget` | src/App.jsx:239-245 | only the target team's score changes, by exactly `delta` |
| `Teams.ScoreDeltaInverse` | src/App.jsx:239-245 | adding and then removing the same delta restores the teams |
| `Teams.ScoreDeltaCompose` | src/App.jsx:239-245 | two deltas on the same team add up |
| `Teams.ScoreSet` | src/App.jsx:247-253 | the team list keeps its length |
| `Teams.ScoreSetOverrides` | src/App.jsx:247-253 | a set overrides an earlier delta; the target reads back the set value, and other teams are untouched; `NaN` is stored as 0; setting twice is the same as once |
| `Teams.Ids` | src/App.jsx:283 | the ids of the registry, in order |
| `Teams.AddActivity` | src/App.jsx:272-280 | the registry is kept or grows by one entry, the trimmed label under the new id; afterwards a non-blank label is always taken |
| `Teams.AddActivityOutcome` | src/App.jsx:272-280 | the registry grows exactly when the trimmed label is not blank and not already taken, case-insensitively |
| `Teams.AddActivityValid` | src/App.jsx:272-280 | adding with a fresh id keeps ids distinct, labels trimmed and labels case-insensitively unique |
| `Teams.ValidSnoc` | src/App.jsx:278 | appending a clean, distinct entry keeps the registry valid |
| `Teams.RemoveById` | src/App.jsx:283 | exactly the entries with another id remain |
| `Teams.RemoveByIdKeepsOrder` | src/App.jsx:283 | the remaining entries keep their order |
| `Teams.RemoveActivityValid` | src/App.jsx:283 | removal keeps the registry valid |
| `Teams.ValidTail` | src/App.jsx:283 | the tail of a valid registry is valid |
| `Teams.ValidCons` | src/App.jsx:283 | a clean, distinct entry in front of a valid registry keeps it valid |
| `Teams.ClearActivity` | src/App.jsx:284-290 | the team list keeps its length |
| `Teams.RemoveActivityCascades` | src/App.jsx:282-291 | no team refers to the removed id; teams that did not are untouched; only the activity fields change; consistency with the registry is kept |
| `Teams.FindActivity` | src/App.jsx:262 | a found activity is in the registry with that id; none is found only when no entry has that id |
| `Teams.AssignActivity` | src/App.jsx:255-270 | only the target team changes, and only in its activity: it gets the chosen id, and a label only when that is the text of a registered activity with that id |
| `Teams.AssignActivityClears` | src/App.jsx:255-270 | an empty choice clears both the id and the label of the target team and leaves the others untouched |
| `Teams.AssignActivityUnknown` | src/App.jsx:255-270 | an id no registered activity has is still stored on the target team, with no label, and the others are untouched |
| `Teams.AssignActivityLabel` | src/App.jsx:255-270 | assigning a registered id stores that activity's label on the target team and leaves the others untouched |
| `Teams.AssignActivityConsistent` | src/App.jsx:255-270 | assigning a registered id, or clearing with none, keeps the teams consistent with the registry |
| `Teams.Insert` | src/App.jsx:294-297 | insertion adds exactly one team |
| `Teams.Ranked` | src/App.jsx:293-298 | the ranking is a permutation of the teams |
| `Teams.InsertSorted` | src/App.jsx:294-297 | inserting into a ranking keeps it sorted |
| `Teams.RankedSorted` | src/App.jsx:293-298 | the ranking is sorted by score descending, then by `createdOrder` ascending |
| `Teams.RankedTop` | src/App.jsx:293-298 | the top team has the highest score, and the earliest creation among teams with that score |
| `Teams.RankedPair` | src/App.jsx:294-297 | two teams are swapped exactly when the second strictly precedes the first |
| `Teams.LeaderStep` | src/App.jsx:300-316 | confetti fires only when the leader changes, always to the top team of the ranking, and every change to a new leader fires it |
| `Teams.LeaderRule` | src/App.jsx:300-316 | confetti fires iff the top score is positive and the top team is not already the leader; with teams, the leader becomes the top team when its score is positive and nobody otherwise; with no teams nothing changes |
| `Teams.LeaderSettles` | src/App.jsx:300-316 | the effect's re-run after setting `leaderId` changes nothing and fires nothing |
| `Teams.LeaderHasTopScore` | src/App.jsx:300-316 | a leader holds a positive score no other team exceeds |
| `Teams.LeaderScenario` | src/App.jsx:239-316 | two teams: a point for A fires for A; a tying point for B does not fire; A set to -5 fires for B; B back to 0 leaves no leader |
| `NameUtils.NormalizeName` | src/utils/nameUtils.js:1-15 | the result has no whitespace at either end and no run of whitespace, and is empty iff the input is all whitespace |
| `NameUtils.NormalizeNameCasing` | src/utils/nameUtils.js:9-14 | every space-separated word of a non-empty result is non-empty, with its first letter upper-case and the rest lower-case |
| `NameUtils.NonBlankWords` | src/utils/nameUtils.js:9-14 | a non-blank input gives a non-empty result of title-cased words |
| `NameUtils.BlankName` | src/utils/nameUtils.js:7 | a blank input gives `''` |
| `NameUtils.NormalizeNameContent` | src/utils/nameUtils.js:1-14 | ignoring whitespace and case, the result has the input's characters in order |
| `NameUtils.NormalizeNameIdempotent` | src/utils/nameUtils.js:1-14 | normalising twice is the same as once |
| `NameUtils.NormalizeNameFixpoint` | src/utils/nameUtils.js:1-14 | an already normalised name is left unchanged |
| `NameUtils.NormalizeNameIsWords` | src/utils/nameUtils.js:1-14 | the result is the input's words (maximal runs of non-whitespace), each title-cased, joined by one space; a non-blank result splits on spaces into exactly those words |
| `NameUtils.Words` | src/utils/nameUtils.js:4-10 | every word is non-empty and free of whitespace |
| `NameUtils.WordsCleaned` | src/utils/nameUtils.js:4-5 | trimming and collapsing whitespace keep the words of a text |
| `NameUtils.WordsCollapse` | src/utils/nameUtils.js:5 | a whitespace run separates words exactly as one space does |
| `NameUtils.CleanedPiecesAreWords` | src/utils/nameUtils.js:4-10 | the space-separated pieces of the trimmed, collapsed non-blank text are the input's words |
| `NameUtils.Collapse` | src/utils/nameUtils.js:5 | collapsing is empty iff its input is |
| `NameUtils.CollapseSpacing` | src/utils/nameUtils.js:5 | after `replace(/\s+/g, ' ')` every whitespace is a single space |
| `NameUtils.CollapseSingleSpaced` | src/utils/nameUtils.js:5 | collapsing a single-spaced text changes nothing |
| `NameUtils.CollapseKeepsContent` | src/utils/nameUtils.js:5 | collapsing keeps the non-whitespace characters in order |
| `NameUtils.TitleCaseFacts` | src/utils/nameUtils.js:11-13 | title-casing keeps length and lower-cased content, produces a title-cased word, and fixes one |
| `NameUtils.PiecesNoSeparator` | src/utils/nameUtils.js:19 | no piece contains `\n`, `,` or `;` |
| `NameUtils.NonEmpty` | src/utils/nameUtils.js:21 | exactly the non-empty entries remain |
| `NameUtils.ParseNamesFromText` | src/utils/nameUtils.js:17-22 | every parsed name is non-empty, normalised and free of separators |
| `NameUtils.ParseNamesSingle` | src/utils/nameUtils.js:17-22 | text without a separator parses to its normalised self, or to nothing when that is blank |
| `NameUtils.ParseNamesConcat` | src/utils/nameUtils.js:17-22 | parsing text joined by `,`, `;`, `\n` or `\r\n` gives the names of both parts, in order; a `\n` counts alone only where no `\r` precedes it |
| `NameUtils.Merged` | src/utils/nameUtils.js:24-39 | the merge never holds two entries with the same lower-cased key, and the key of every input name is represented |
| `NameUtils.MergeOrderAndCoverage` | src/utils/nameUtils.js:24-39 | the merge is a subsequence of `current + incoming`, and every input key is in it |
| `NameUtils.MergeKeepsUniqueCurrent` | src/utils/nameUtils.js:35 | a `current` with unique keys is kept as the prefix of the merge |
| `NameUtils.MergeFirstSeen` | src/utils/nameUtils.js:28-33 | the first entry with a given key, with its casing, is the one kept |
| `NameUtils.MergeIdempotent` | src/utils/nameUtils.js:24-39 | `merge(merge(a, b), b) == merge(a, b)` |
| `NameUtils.PushEach` | src/utils/nameUtils.js:28-36 | the `forEach(push)` loop produces the specified merge and keeps `seen` equal to the keys pushed |
| `NameUtils.MergeUniqueNames` | src/utils/nameUtils.js:24-39 | the method returns the specified merge, whose keys are unique |
| `NameUtils.Picks` | src/utils/nameUtils.js:43-44 | the swap target for position i is `floor(r * (i + 1))`, so it lies in [0, i] |
| `NameUtils.Shuffled` | src/utils/nameUtils.js:41-48 | the shuffle has the same length and multiset as the input |
| `NameUtils.SwapPermutes` | src/utils/nameUtils.js:45 | a swap keeps the multiset |
| `NameUtils.ShuffleFromPermutes` | src/utils/nameUtils.js:43-46 | each remaining swap keeps the multiset |
| `NameUtils.SwapAt` | src/utils/nameUtils.js:45 | swaps two array cells in place |
| `NameUtils.ShuffleArray` | src/utils/nameUtils.js:41-48 | the loop over a fresh copy returns the specified shuffle, a permutation of the input, without touching it |
| `DownloadUtils.Escape` | src/utils/downloadUtils.js:27 | doubling quotes never shortens a cell |
| `DownloadUtils.QuoteAll` | src/utils/downloadUtils.js:26-27 | each cell is quoted, in order |
| `DownloadUtils.CellRoundTrip` | src/utils/downloadUtils.js:27 | reading a quoted cell back, with quotes un-doubled, gives `String(cell)` |
| `DownloadUtils.LineRoundTrip` | src/utils/downloadUtils.js:25-28 | a line reads back as its cells |
| `DownloadUtils.CsvRoundTrip` | src/utils/downloadUtils.js:24-30 | the whole text reads back as its records |
| `DownloadUtils.Row` | src/utils/downloadUtils.js:17-22 | every row has exactly four cells |
| `DownloadUtils.Rows` | src/utils/downloadUtils.js:17-22 | row k is the row of team k, in input order |
| `DownloadUtils.Lines` | src/utils/downloadUtils.js:25-29 | line k is the line of record k |
| `DownloadUtils.ExportTeamsAsCsv` | src/utils/downloadUtils.js:15-30 | the export reads back as the header followed by one row per team, in order |
| `DownloadUtils.ExportRowCells` | src/utils/downloadUtils.js:17-22 | record k+1 is team k's label, members joined by a space, a bar and a space, score and activity label, or `""` when there is none |
| `DownloadUtils.ExportHeader` | src/utils/downloadUtils.js:16-29 | the text starts with `"Equipe";"Integrantes";"Pontuacao";"Atividade"` |
| `DownloadUtils.HeaderCells` | src/utils/downloadUtils.js:16 | each header cell is quoted as is |
| `DownloadUtils.ExportNoTrailingNewline` | src/utils/downloadUtils.js:30 | the text is not empty and does not end with a newline |
| `DownloadUtils.CsvEndsWithQuote` | src/utils/downloadUtils.js:24-30 | the text ends with a closing quote |
| `DownloadUtils.ParseCsv` | src/utils/downloadUtils.js:24-30 | a parsed text has at least one record, each with at least one cell |
| `Text.Trim` | src/App.jsx:273 | `trim()` gives a contiguous part of the input with only whitespace before and after it, no whitespace at either end of it, and nothing exactly when the input is all whitespace |
| `Text.Split` | src/utils/nameUtils.js:10 | `split(' ')` yields at least one piece, none containing the separator |
| `Text.JoinSplit` | src/utils/nameUtils.js:10-14 | joining the pieces of a split gives the text back |
| `Text.SplitJoin` | src/utils/nameUtils.js:10-14 | splitting words joined by a separator they lack gives the words back |
| `Text.Without` | src/App.jsx:94 | `filter(item => item !== x)` removes every `x`, keeps every other entry as often as it occurred, and changes nothing when `x` is absent |
| `Text.WithoutConcat` | src/App.jsx:94 | filtering distributes over concatenation, so the kept entries keep their order |
| `Text.DistinctWithout` | src/App.jsx:154 | filtering keeps a list without repeats |
| `Text.LowerStr` | src/utils/nameUtils.js:29 | lower-casing maps each character and keeps the length |
| `Text.ParseIntToString` | src/utils/downloadUtils.js:20 | `String(score)` reads back as the score |
| `Rand.RandomIndex` | src/utils/nameUtils.js:44 | `Math.floor(r * n)` lies in [0, n) |
| `Rand.RandomIndexReaches` | src/utils/nameUtils.js:44 | every index is reached by some `r` |

## Left out

- Rendering and styling: every JSX component and the Tailwind
  configuration, including the team colours (`TEAM_GRADIENTS`, the `color`
  field of a team).
- The crown in the team section marks the top team even at score 0. That
  is presentation and is not modelled; the leader rule of the component
  is.
- `triggerDownload`, `exportAsJSON` and `handleExportJson`: Blob, DOM,
  `Date` and `JSON.stringify` I/O. Only the CSV text is modelled.
- The audio hook and the confetti library. They are recorded as the flag
  `playing` and the counter `confettiBursts`.
- `scripts/generateSpinAudio.js`: floating-point synthesis, file writes
  and a child process.
- `createId`, `Date.now` and `Math.random`:
  - ids are values the caller supplies, fresh where the source relies on
    freshness;
  - random numbers are parameters in [0, 1);
  - nothing is said about their distribution.
- Real timer durations (600 ms, 100 ms, the spin length). Timers are
  discrete events. `spinMs` is recorded, but nothing makes the timeout
  wait for it.
- React's batching and the order of effects. A handler's updates land
  together. The leader effect is a method, `LeaderEffect`, that the
  environment calls after a change. The sound effect (src/App.jsx:58-62)
  runs inside `ToggleSound`, the only handler that changes
  `soundEnabled`.
- `NormalizeName`, `Merged`, `Key`: NFC normalisation and pt-BR locale
  casing are replaced by ASCII case mapping, and `\s` by the ASCII
  whitespace characters.
- `Teams.AddActivity`: the label's `trim()` and `toLowerCase()`
  (src/App.jsx:273, 276) are modelled with ASCII rules. Non-ASCII letters
  are not case-folded, so "AÇÃO" is not recognised as taken when "Ação"
  is registered, and NBSP, U+FEFF, U+2028 and U+2029 are not trimmed.
- `Teams.AddActivityOutcome`: "already taken, ignoring case" means equal
  after ASCII lower-casing, not after JavaScript's Unicode
  `toLowerCase()`.
- `Text.Trim`: strips only the ASCII whitespace characters of `IsSpace`.
  JavaScript's `trim()` also strips NBSP, U+FEFF, U+2028, U+2029 and the
  other Unicode space separators.
- `Text.LowerStr`: maps only `A`-`Z` to lower case. JavaScript's
  `toLowerCase()` and `toLocaleLowerCase('pt-BR')` also lower-case
  non-ASCII letters.
- `App.Round`, `App.SpinBounds`: the seconds are reals. Binary
  floating-point rounding of `seconds * 1000` is not modelled.
- The `if (!pool.length)` branch of `handleDraw` (src/App.jsx:116-119)
  cannot be taken. The pool has as many names as `pendingNames`, which the
  guard requires to be non-empty. `StartDraw` states the pool's length,
  and the branch is left out.
- `Teams.AssignActivity`: the activity id is an `Option`. Every falsy id
  the source can receive (`''`, `null`) is `None`.
- `Teams.ScoreSet`: `ScoreInput` holds only integers (or `NaN`). The
  score field of TeamCard (src/components/TeamCard.jsx:53) passes
  `Number(value) || 0`, which can be fractional, so fractional scores, and
  `String(score)` of them in the CSV, are not modelled.

## Findings

| source | as written | input that shows it | evidently intended | confidence | as-written member | corrected member |
|---|---|---|---|---|---|---|
| src/App.jsx:75-90 | `handleResetNames` clears the three timers but never calls `setIsDrawing(false)` | add "Ana", press draw, press reset during the countdown, add "Ana" again and press draw: `isDrawing` is still true with no timer left to clear it, so every later draw is refused | reset also clears `isDrawing`, since it cancels the timers that would have cleared it | high (not executed) | `App.ResetDuringDrawAsWritten` (with `App.Sorteador.ResetNamesAsWritten`) | `App.ResetDuringDraw` (with `App.Sorteador.ResetNames`) |
