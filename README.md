# Apollo review store, ingestion pipeline and board, in Dafny

Apollo is a terminal tool for triaging git commits. It records every commit of a repository in a SQLite
review store, with one `review_state` row per commit ("unreviewed", "reviewed" or "ignored"). It moves
new commits from the repository's history into that store, using a per-repository watermark (the hash
of the last commit ingested), and shows them on a three-column board driven by the keyboard.

This project models that core and proves properties of the model:

- **Review store** (`db_schema.dfy`, `db_repo.dfy`, `db_commit.dfy`, `db_event.dfy`, `db_store.dfy`).
  - The database is a `Database` value: repositories, commits, review_state, the events log, the two
    AUTOINCREMENT counters and the connection's `last_insert_rowid`.
  - `WellFormed` states the schema's keys and foreign keys. Every operation is a function on the
    value that keeps them.
  - The class `ReviewStore.Store` holds the four tables as fields. Each of its methods is proved to
    leave the state-transformer function of the old state, or to return a result stated by a
    specification predicate: `IsListing` for the two listings, `StatsOf` for the statistics.
- **History reader** (`git_repo.dfy`).
  - A repository is its HEAD reference name, the commits its log walk yields (newest first), and
    where the walk fails.
  - `ReadNewCommits` runs the callback loop and reverses an array in place. It is proved equal to the
    function `Read`.
- **Ingestion commands** (`tui_commands.dfy`): `persistCommits`, `seedCommits`, `readNewCommits`,
  `updateReview`, `loadCommits`, `initRepo`, `repoName`, and the branches of `Update` that chain them.
  Each command is a method that runs against the store object and returns the message the Go command
  reports.
- **Configuration** (`config.dfy`): `ResolvedPaths` with its `seen` set and the `add` closure,
  `ExpandHome` and `Defaults`.
- **Board** (`tui_keys.dfy`, `tui_board.dfy`, `tui_model.dfy`).
  - The key table and the layout arithmetic.
  - The classes `BoardColumn` and `Board`. Their methods change the columns in place and are proved
    against functions on the board's value: `Clamp`, `Partition`, `KeyStep`.

Go strings are byte sequences, so a `string` here holds one `char` per byte. Time is an integer
parameter `now`. Every driver or I/O failure the Go code can meet is an explicit parameter: a `fault`
flag, the `InsertFault` of the two statements of `InsertCommit`, the `UpsertFault` of `UpsertRepo`
(the upsert statement, or the read-back after it), a failing walk index. The home
directory and `filepath.Join` are the `Env` parameter.

Two behaviours of the code are easy to misread, and the model keeps them as written:

- `UpdateReviewStatus` clears `reviewed_at` for every status other than "reviewed"
  (internal/db/commit.go:51-58).
- `updateReview` always writes an empty note, erasing any note the commit had
  (internal/tui/commands.go:141).

## Model

| member | source | states |
|---|---|---|
| Schema.EmptyIsWellFormed | internal/db/schema.go:3-42 | The freshly migrated database (four empty tables, counters at 1) meets every key and foreign-key constraint, and commits and review_state are paired. |
| RepoTable.Upsert | internal/db/repo.go:14-18 | The upsert keeps the schema constraints (paths stay unique, ids stay below the counter), leaves the path registered afterwards, and touches no other table. Both branches use up an AUTOINCREMENT id. |
| RepoTable.Lookup | internal/db/repo.go:33-45 | The lookup by path finds a row exactly when the path is registered, and that row is the one at the path. |
| RepoTable.SetWatermark | internal/db/repo.go:47-50 | The watermark update keeps the constraints and the set of repository ids, and leaves the commit, review and event tables alone. |
| RepoTable.LookupFinds | internal/db/repo.go:33-45 | Since paths are unique, the row with a given path is the one the lookup returns. |
| RepoTable.UpsertNewPath | internal/db/repo.go:14-18 | An unseen path gets a row under the fresh id `nextRepoId`, with the given name, active, and an empty watermark; no other row changes. |
| RepoTable.UpsertExistingPath | internal/db/repo.go:14-18 | A registered path keeps its id, path, active flag and watermark, and only its name is replaced. Other rows and last_insert_rowid stay as they were; the AUTOINCREMENT sequence still moves up by one, because SQLite draws the rowid before the conflict check. |
| RepoTable.UpsertIdempotent | internal/db/repo.go:14-18 | Upserting the same name and path twice leaves the tables and last_insert_rowid as once; the second call only uses up one more id. |
| RepoTable.UpsertAgainSkipsId | internal/db/repo.go:14-18 | Registering "/a", "/a" again, then "/b" gives "/b" the id 3: the id the re-registration used up is never handed out. |
| RepoTable.DistinctPathsDistinctIds | internal/db/schema.go:4-11 | Two different registered paths have different ids. |
| RepoTable.SetWatermarkEffect | internal/db/repo.go:47-50 | A known repository's watermark becomes the given hash, even an older one. Other fields and rows are unchanged, and an unknown id changes nothing. |
| CommitTable.InsertCommitRow | internal/db/commit.go:35-42 | INSERT OR IGNORE into commits: afterwards the hash is stored, the key set grows by at most that hash, and stored rows keep their values. |
| CommitTable.InsertReviewRow | internal/db/commit.go:44-47 | INSERT OR IGNORE into review_state: afterwards the hash has a row, and existing rows keep theirs. |
| CommitTable.InsertCommitOp | internal/db/commit.go:34-48 | InsertCommit keeps the constraints and adds at most the given hash. It succeeds exactly when there is no driver fault and the hash is stored or its repository exists (the foreign key). On success the hash is in both tables and pairing is preserved. |
| CommitTable.UpdateReviewOp | internal/db/commit.go:50-61 | UpdateReviewStatus fails exactly on a driver fault. It changes only review_state rows, never which hashes have one, and preserves pairing. |
| CommitTable.InsertNewHash | internal/db/commit.go:34-48 | A new hash of a registered repository adds exactly one commit row (with the given fields) and one review_state row: "unreviewed", empty note, no reviewed_at. |
| CommitTable.InsertDuplicateHash | internal/db/commit.go:34-48 | Inserting a stored hash succeeds and changes nothing: its repository, fields, status and note are kept. |
| CommitTable.InsertUnknownRepo | internal/db/commit.go:35-42 | A new hash naming an unregistered repository fails on the foreign key, and the database is unchanged. |
| CommitTable.InsertUnpairsOnlyOnReviewFailure | internal/db/commit.go:34-48 | The commit/review_state pairing breaks exactly when the second statement fails after the first inserted a new row. |
| CommitTable.UpdateReviewEffect | internal/db/commit.go:50-61 | On a stored hash the status and note are overwritten, and reviewed_at is `now` iff the status is "reviewed", NULL otherwise. Every other row stays. |
| CommitTable.UpdateReviewUnknownHash | internal/db/commit.go:50-61 | An unknown hash succeeds and changes nothing. |
| CommitTable.ReviewRoundTrip | internal/db/commit.go:50-61 | Reviewed, then unreviewed, then reviewed again: each move into "reviewed" stamps its own time, and the move away clears the stamp. |
| CommitTable.ListedSet | internal/db/commit.go:63-84 | The hashes selected by the listing join are exactly those satisfying `Listed`: in both joins, in a requested repository, with a status that passes the filter. |
| CommitTable.ListedUnion | internal/db/commit.go:86-118 | Listing several repositories lists a hash iff listing one of them alone would: the `IN (...)` condition is the union. |
| CommitTable.NothingListedForNoIds | internal/db/commit.go:86-118 | With no repository ids, the only listing is the empty one. |
| CommitTable.FilteredListingIsSublisting | internal/db/commit.go:72-74 | A filtered listing holds exactly the rows of the unfiltered listing whose status passes the filter. |
| CommitTable.NewestExists | internal/db/commit.go:75 | Every non-empty set of stored hashes has a newest member: the ORDER BY always has a next row. |
| CommitTable.ListingStep | internal/db/commit.go:120-131 | Appending a newest remaining row, as scanCommitRows appends the rows in query order, keeps the listing invariant. |
| CommitTable.StatusesOf | internal/db/commit.go:159-170 | Every joined row's status is among the statuses the GROUP BY yields. |
| CommitTable.GroupingStep | internal/db/commit.go:159-170 | Emitting the row of one pending status, with its count, keeps the grouping invariant. |
| CommitTable.SumCountsCovers | internal/db/commit.go:173-179 | Summing the counts of distinct statuses counts every joined hash with one of those statuses exactly once. |
| CommitTable.CountForGroup | internal/db/commit.go:180-187 | The count the switch keeps for a status is that status's number of joined rows. |
| CommitTable.TallyOfGrouping | internal/db/commit.go:159-190 | Tallying any valid grouping yields `StatsOf`: Total is the number of joined rows, and each named field is its status's count. |
| CommitTable.TotalCoversNamed | internal/db/commit.go:133-138 | Total is at least Unreviewed + Reviewed + Ignored, with equality when only those three statuses occur. |
| CommitTable.NoIdsNoStats | internal/db/commit.go:144-157 | No repository ids give all-zero statistics. |
| EventLog.AppendEvent | internal/db/event.go:5-11 | InsertEvent appends exactly one row carrying the given type, hash, payload and time. Its id is larger than every earlier id and becomes last_insert_rowid. Earlier rows and the other tables are unchanged. |
| EventLog.EventForUnknownHash | internal/db/schema.go:34 | An event naming a hash with no commit is appended all the same, and no commit appears. |
| ReviewStore.Store.constructor | internal/db/schema.go:3-42 | A new store holds the empty, well-formed, paired database. |
| ReviewStore.Store.UpsertRepo | internal/db/repo.go:13-30 | The corrected form, which always reads the id back. A failed upsert statement changes nothing. Otherwise the tables become `Upsert` of the old ones and the path's row carries the given name. A failed read-back then reports an error with the upsert applied; a successful one returns the id of the row at the path, which for a path registered before is its existing id. |
| ReviewStore.Store.UpsertRepoAsWritten | internal/db/repo.go:13-30 | The code as written. A failed upsert statement changes nothing; otherwise the tables become `Upsert` of the old ones. A new path returns its new id `nextRepoId`. A path registered before returns the previous insert's id when that is non-zero. When it is zero, the row is read back: its id is returned, or, if the read-back fails, an error with the upsert already applied. |
| ReviewStore.Store.GetRepoByPath | internal/db/repo.go:33-45 | Returns the record registered at the path, or None with no error for an unknown path; an error on a driver fault. |
| ReviewStore.Store.UpdateLastCommitHash | internal/db/repo.go:47-50 | The new state is `SetWatermark` of the old one; on a fault, nothing changes. |
| ReviewStore.Store.InsertCommit | internal/db/commit.go:34-48 | The new state is `InsertCommitOp` of the old one, and the error result matches its `ok`. |
| ReviewStore.Store.UpdateReviewStatus | internal/db/commit.go:50-61 | The new state is `UpdateReviewOp` of the old one, and the error result matches its `ok`. |
| ReviewStore.Store.InsertEvent | internal/db/event.go:5-11 | The new state is `AppendEvent` of the old one; on a fault, nothing changes. |
| ReviewStore.Store.Select | internal/db/commit.go:120-131 | The row-scanning loop returns a listing: every listed hash exactly once, as its joined row, newest first, and nothing else. |
| ReviewStore.Store.ListCommits | internal/db/commit.go:63-84 | Returns an error exactly on a fault; otherwise a listing of that one repository's rows that pass the filter, newest first. |
| ReviewStore.Store.ListAllCommits | internal/db/commit.go:86-118 | No ids give an empty result without a query. Otherwise it returns an error exactly on a fault, else a listing over the union of the given ids. |
| ReviewStore.Store.GroupByStatus | internal/db/commit.go:159-170 | The GROUP BY yields one row per occurring status, with that status's count. |
| ReviewStore.Store.QueryStats | internal/db/commit.go:159-190 | The accumulation loop returns `StatsOf` over the ids, or an error exactly on a fault. |
| ReviewStore.Store.GetStats | internal/db/commit.go:140-142 | The statistics of one repository. |
| ReviewStore.Store.GetAggregateStats | internal/db/commit.go:144-157 | No ids give zeros without a query; otherwise the statistics over the union of the ids. |
| ReviewStore.UpsertAgainReturnsStaleId | internal/db/repo.go:23-29 | As written, registering "/a", "/b", then "/a" again returns 2, while GetRepoByPath then reads id 1 for "/a". |
| ReviewStore.UpsertAgainReturnsOwnId | internal/db/repo.go:23-29 | The corrected upsert returns 1 for the same calls. |
| GoStrings.TrimLeftCuts | internal/git/repo.go:65 | TrimLeft keeps a suffix that does not start with white space, and cuts only white space. |
| GoStrings.TrimRightCuts | internal/git/repo.go:65 | TrimRight keeps a prefix that does not end with white space, and cuts only white space. |
| GoStrings.TrimSpaceCuts | internal/git/repo.go:100-102 | TrimSpace keeps a slice that neither starts nor ends with white space, and cuts only white space on either side. |
| GoStrings.TrimSpaceKeepsBytes | internal/git/repo.go:100 | Every byte of the trimmed string occurs in the input. |
| GoStrings.TrimSpaceIdempotent | internal/config/config.go:23 | Trimming twice is trimming once. |
| GoStrings.IndexByte | internal/git/repo.go:99 | The first index of the separator, or -1 iff there is none. |
| GoStrings.TrimPrefix | internal/git/repo.go:33-34 | With the prefix present, prefix + result is the input; otherwise the input comes back unchanged. |
| GitRepo.CurrentBranch | internal/git/repo.go:27-37 | "unknown" when HEAD cannot be resolved; the name after "refs/heads/" for a branch reference; any other reference name unchanged. |
| GitRepo.SplitMessage | internal/git/repo.go:98-105 | The subject contains no newline; with no newline the subject is the trimmed message and the body is "". |
| GitRepo.ToInfoKeepsHashAndBranch | internal/git/repo.go:74-82 | Each record keeps the commit's hash and the branch computed before the walk. |
| GitRepo.Converted | internal/git/repo.go:65-82 | One record per walked commit, in walk order. |
| GitRepo.Reversed | internal/git/repo.go:107-111 | out[i] = in[n-1-i]. |
| GitRepo.WalkEnd | internal/git/repo.go:57-63 | The walk stops at the first commit that is the stop hash, or once `limit` commits are taken; every commit before that point continues the walk. |
| GitRepo.ReadNewCommits | internal/git/repo.go:39-92 | The method (head, log, callback loop, in-place reverse) returns exactly `Read`. |
| GitRepo.Walk | internal/git/repo.go:56-88 | The callback loop collects the commits up to the stop point, one record each, and fails iff the iterator fails before the stop. |
| GitRepo.WalkEndFrom | internal/git/repo.go:57-63 | Any index where the walk first stops is `WalkEnd`. |
| GitRepo.SeedCommits | internal/git/repo.go:94-96 | SeedCommits(n) is ReadNewCommits("", n). |
| GitRepo.Reverse | internal/git/repo.go:107-111 | The in-place swap loop leaves the array reversed. |
| GitRepo.ReversedTwice | internal/git/repo.go:107-111 | Reversing twice is the identity. |
| GitRepo.BranchOfReference | internal/git/repo.go:27-37 | CurrentBranch of "refs/heads/" + name is the name; other reference names come back unchanged. |
| GitRepo.SplitAtFirstNewline | internal/git/repo.go:98-105 | A message split at its first newline gives both trimmed parts. |
| GitRepo.ReadBounded | internal/git/repo.go:61-63 | At most max(limit, 0) commits come back, and none when limit ≤ 0. |
| GitRepo.ReadIsReversedPrefix | internal/git/repo.go:57-91 | The result is the walked prefix reversed: oldest first, HEAD's commit last, all carrying the same branch. |
| GitRepo.ReadStopsBeforeSince | internal/git/repo.go:58-60 | The stop-hash commit and everything after it in walk order are excluded. |
| GitRepo.ReadWithoutHead | internal/git/repo.go:40-43 | An unresolvable HEAD is an error, and the branch is "unknown". |
| GitRepo.SeedTakesNewest | internal/git/repo.go:94-96 | With no empty hash in the history, seeding never stops at a hash: it returns the newest min(n, len) commits, oldest first. |
| GitRepo.SeedEnd | internal/git/repo.go:57-63 | With no empty hash, the walk from any point below the bound stops exactly at min(max(n, 0), len). |
| GitRepo.ReadSinceTip | internal/git/repo.go:58-60 | Reading since HEAD's own commit gives nothing. |
| GitRepo.SeedThreeOfFive | internal/git/repo.go:57-91 | Seeding 3 of five commits gives the third, second and first in walk order (C, D, E). |
| GitRepo.ReadSinceThirdOfFive | internal/git/repo.go:57-91 | Reading since the third newest of five distinct commits gives the two newer ones, oldest first. |
| Config.Defaults | internal/config/config.go:55-60 | SeedDepth 50, DebounceMs 300, no paths. |
| Config.ExpandHome | internal/config/config.go:106-115 | Identity on "" and on paths not starting with '~', and also when the home directory is unknown; otherwise it joins the home with the rest. |
| Config.Add | internal/config/config.go:22-32 | The `add` closure appends the normalized path and marks it seen, unless it is empty or already seen, in which case nothing changes. |
| Config.ResolvedPaths | internal/config/config.go:19-40 | The loop over RepoPath, then RepoPaths, computes `Resolved`: each candidate's first occurrence. |
| Config.KeptDistinct | internal/config/config.go:24-31 | The kept paths are distinct, non-empty, and none was seen before. |
| Config.KeptMembers | internal/config/config.go:22-32 | A path is kept iff it is non-empty, unseen, and some candidate normalizes to it. |
| Config.KeptLength | internal/config/config.go:22-32 | At most one path is kept per candidate. |
| Config.FirstAt | internal/config/config.go:27-29 | The index of the first candidate that normalizes to the path. |
| Config.KeptInFirstOccurrenceOrder | internal/config/config.go:33-39 | The kept paths come in the order of their first occurrences. |
| Config.ResolvedDistinctNonEmpty | internal/config/config.go:19-32 | ResolvedPaths holds no duplicate and no empty path. |
| Config.ResolvedComeFromConfig | internal/config/config.go:23 | Every resolved path is `ExpandHome(TrimSpace(p))` of a configured p, and there are at most 1 + len(RepoPaths) of them. |
| Config.RepoPathFirst | internal/config/config.go:33-35 | A RepoPath that is set and does not normalize to "" comes first. |
| Config.DefaultsResolveNothing | internal/config/config.go:55-60 | The defaults resolve to no paths. |
| Keys.MapKey | internal/tui/keys.go:23-56 | A key maps to None iff it is not one of the 19 bound names. Otherwise it maps to an action whose key set contains it. |
| Keys.KeysForInvertsMapKey | internal/tui/keys.go:23-56 | Each listed key of an action maps to that action: q/ctrl+c Quit, k/up Up, j/down Down, h/left/shift+tab Left, l/right/tab Right, r, u, i, enter, esc, c, n. |
| Keys.BoundKeysAreKeysForActions | internal/tui/keys.go:23-56 | The bound keys are exactly the keys of the actions. |
| Keys.KeysForDisjoint | internal/tui/keys.go:23-56 | No key is bound to two actions. |
| BoardLayout.Quo | internal/tui/board.go:68 | Go's truncating integer division, on both signs of the numerator. |
| BoardLayout.VisibleSlots | internal/tui/board.go:68-80 | The slot count is at least 1: (height-2)/5, or one less when a card is expanded here. |
| BoardLayout.VisibleCardRange | internal/tui/board.go:58-99 | (0, 0) for an empty column; at most `VisibleSlots` cards; with 0 ≤ cursor < len, 0 ≤ start ≤ cursor < end ≤ len. |
| BoardLayout.WindowStaysWhileCursorVisible | internal/tui/board.go:82-91 | A window that already shows the cursor does not scroll. |
| BoardLayout.WindowFollowsCursorDown | internal/tui/board.go:82-98 | With the cursor below the window, the window scrolls so that the cursor takes its last slot. |
| BoardLayout.ColumnWidth | internal/tui/board.go:101-108 | At least 10, and a third (rounded down) of max(width-2, 30). |
| BoardLayout.BoardHeight | internal/tui/board.go:110-116 | At least 5: height-5, or 5 when that is smaller. |
| BoardLayout.RuneCount | internal/tui/board.go:118-129 | The number of UTF-8 code points is at most the number of bytes. |
| BoardLayout.RuneCountAppend | internal/tui/board.go:128 | Code-point counts add over concatenation. |
| BoardLayout.TruncateAsWritten | internal/tui/board.go:118-129 | As written: "" for maxLen ≤ 0, s when it fits, the first maxLen bytes for maxLen ≤ 3, else the first maxLen-1 bytes plus the 7-byte literal. |
| BoardLayout.EllipsisAsWrittenRunes | internal/tui/board.go:128 | The literal as written is three code points, not one. |
| BoardLayout.TruncateAsWrittenOverflowsAll | internal/tui/board.go:118-129 | For every 3 < maxLen < len(s), the cut line as written has the code points of the kept maxLen-1 bytes plus 3. So it has more than maxLen whenever those bytes hold at least maxLen-2 code points, as any ASCII line does. |
| BoardLayout.TruncateAsWrittenOverflows | internal/tui/board.go:128 | truncate("abcdef", 4) as written has 6 code points, more than 4. |
| BoardLayout.Truncate | internal/tui/board.go:118-129 | The same four cases with the one-character ellipsis "…". |
| BoardLayout.TruncateFitsWidth | internal/tui/board.go:118-129 | The corrected cut never has more than max(maxLen, 0) code points (a column each for one-cell characters), and keeps a prefix of s, either all of it or all but what the ellipsis replaces. |
| BoardModel.SelectedIn | internal/tui/model.go:42-47 | None iff the column is empty or the cursor ≥ len; otherwise the commit at the cursor. |
| BoardModel.OfStatus | internal/tui/model.go:172-181 | A bucket is never longer than the input. |
| BoardModel.BoardColumn.constructor | internal/tui/model.go:90-98 | A column with its id, title and status, and no commits. |
| BoardModel.BoardColumn.Selected | internal/tui/model.go:42-47 | The method is `SelectedIn` of the column's state. |
| BoardModel.BoardColumn.ClampCursor | internal/tui/model.go:49-53 | The new column state is `Clamp` of the old. |
| BoardModel.Board.constructor | internal/tui/model.go:78-101 | NewModel: three empty columns in status order, the first active, nothing expanded, the board on screen. |
| BoardModel.Board.VisibleRange | internal/tui/board.go:58-99 | On a valid board the cursor card of every non-empty column is drawn, within the slot count. |
| BoardModel.Board.PartitionCommits | internal/tui/model.go:170-186 | The view becomes `Partition` of the old view, and the board stays valid. |
| BoardModel.Board.UpdateKeys | internal/tui/model.go:188-261 | The view becomes `KeyStep`'s board for `MapKey(key)`, the returned command is `KeyStep`'s command, and the board stays valid. |
| BoardModel.Board.Buckets | internal/tui/model.go:171-181 | The bucket loop puts each row into the bucket of its status, in input order. |
| BoardModel.ClampInRange | internal/tui/model.go:49-53 | Clamping leaves a cursor below len alone, and puts every non-negative cursor into [0, max(0, len-1)]. |
| BoardModel.SelectedWhenNonEmpty | internal/tui/model.go:42-47 | With the cursor in range, a card is selected iff the column has cards. |
| BoardModel.OfStatusMembers | internal/tui/model.go:172-181 | A row is in a bucket iff it is in the input and has the bucket's status. |
| BoardModel.OfStatusAppend | internal/tui/model.go:172-181 | Bucketing keeps input order: the bucket of a concatenation is the concatenation of the buckets. |
| BoardModel.PartitionCovers | internal/tui/model.go:172-181 | The three buckets together hold at most every row, and exactly every row when all statuses are the three known ones. Other statuses are dropped. |
| BoardModel.PartitionSound | internal/tui/model.go:182-185 | After partitioning, each column holds exactly its status's rows in input order, with its scroll kept and its cursor clamped onto a card. Active column, expanded card and screen are unchanged. |
| BoardModel.KeyStepSound | internal/tui/model.go:188-261 | Every key press keeps the cursors on cards and the active column among the three. |
| BoardModel.UpDownBounded | internal/tui/model.go:196-206 | Up and Down move only the active cursor, by one, within [0, max(0, len-1)], and clear the expanded card. |
| BoardModel.LeftRightBounded | internal/tui/model.go:208-218 | Left and Right move the active column by one within [0, 2], clear the expanded card, and move no cursor. |
| BoardModel.ExpandToggles | internal/tui/model.go:220-230 | Expand toggles the expanded hash between "" and the selected hash, and does nothing on an empty column. Back clears it. |
| BoardModel.ExpandTwiceRestores | internal/tui/model.go:220-227 | Pressing enter twice on the same card restores the board. |
| BoardModel.CommandsNeedSelection | internal/tui/model.go:232-250 | Review, Unreview, Ignore and Copy leave the board alone. They produce a command iff the column has cards: the status update of the selected hash, or its first 7 bytes to copy. |
| BoardModel.QuitAndNoneKeepBoard | internal/tui/model.go:192-194 | Quit returns the quit command; an unbound key changes nothing. |
| Ingest.InsertAll | internal/tui/commands.go:60-64 | The insert loop keeps the constraints, touches neither repositories nor events, and reports a failing index within the batch. |
| Ingest.InsertAllKeepsFailure | internal/tui/commands.go:60-64 | Once an insert fails, the later commits are never tried. |
| Ingest.InsertAllSucceeds | internal/tui/commands.go:60-64 | With a registered repository and no driver fault, no insert fails. |
| Ingest.InsertAllKeepsRows | internal/tui/commands.go:60-64 | The loop only adds rows: every stored row keeps its values. |
| Ingest.InsertAllStoresPrefix | internal/tui/commands.go:60-64 | Every commit before the failing one, and every commit when none fails, is stored. |
| Ingest.InsertAllPairs | internal/tui/commands.go:60-64 | A loop with no failing insert keeps commits and review_state paired. |
| Ingest.Notices | internal/tui/commands.go:71-75 | One notification ("New commit", subject) per batch element, in order. |
| Ingest.PersistCommits | internal/tui/commands.go:58-79 | The store, message and notifications are `Persist` of the old store: insert in order, stop at the first error, then move the watermark, then notify. |
| Ingest.NotifyAll | internal/tui/commands.go:71-75 | The notify loop sends `Notices` of the batch. |
| Ingest.PersistSucceeds | internal/tui/commands.go:58-79 | A fault-free batch for a registered repository is stored whole, stored rows are unchanged, and the watermark is the last hash. Every element is notified, including already-present ones. |
| Ingest.PersistAbortsOnInsertError | internal/tui/commands.go:60-64 | The first insert error aborts: the earlier inserts stay, repositories (so the watermark) are unchanged, and nobody is notified. |
| Ingest.PersistWatermarkError | internal/tui/commands.go:66-69 | A failed watermark update reports an error and notifies nobody; the inserted commits stay. |
| Ingest.SeedCommitsCmd | internal/tui/commands.go:32-56 | No repository handle, a lookup error or an unregistered path give an empty batch. Otherwise it returns the read since the watermark (the newest `SeedDepth` commits when the watermark is empty), an error giving an empty batch. |
| Ingest.ReadNewCommitsCmd | internal/tui/commands.go:120-137 | A missing handle or row gives an empty batch; otherwise the read since the watermark, with a read error surfaced as ErrorMsg. |
| Ingest.SeedIsReadSinceWatermark | internal/tui/commands.go:44-49 | Both seed branches read since the watermark: at most SeedDepth commits, none of them the watermark commit or older. |
| Ingest.UpdateReview | internal/tui/commands.go:139-146 | The store becomes `UpdateReviewOp` with note "", so a stored hash gets the status and loses its note. |
| Ingest.LoadCommits | internal/tui/commands.go:81-93 | An error iff the listing or the statistics fail; otherwise the repository's full listing, newest first, with `StatsOf`. |
| Ingest.RepoName | internal/tui/commands.go:155-162 | The backward scan returns the suffix after the last '/', which has no '/'; the whole path when there is none; "" for a trailing '/'. |
| Ingest.LastSegmentUnique | internal/tui/commands.go:155-162 | A path has only one last segment. |
| Ingest.LastSegmentExamples | internal/tui/commands.go:155-162 | "/home/me/apollo" gives "apollo", "/home/me/apollo/" gives "", and "apollo" gives itself. |
| Ingest.InitRepo | internal/tui/commands.go:15-30 | Calls the upsert as written. A failed open, or a failed upsert statement, is an error and leaves the store alone. Otherwise the path is registered under its last path segment and no other table changes; a read-back error is reported, with the row registered. The message carries the id UpsertRepo returns. That is the path's own id when the path is new or last_insert_rowid was 0, as on the first write after Open, which is the program's one call; otherwise it is the previous insert's id. |
| Ingest.Reaction | internal/tui/model.go:119-152 | The dispatch starts a persist only for a non-empty batch. Seeding always starts the watcher; persisted commits and review updates reload; an empty batch of new commits does nothing. |

## Left out

- The file watcher and its fan-in (internal/watcher) are concurrency and timing. `startWatcher`, `listenWatcher` and the `WatcherReadyMsg` branch of `Update` appear only as tasks in `Ingest.Reaction`.
- Opening the database (internal/db/db.go), the SQL text and the driver are not modelled. Their observable effects are: one connection, so one `last_insert_rowid`; `foreign_keys=ON`; and errors, which are fault parameters.
- go-git (`PlainOpen`, `Head`, `Log`, `Parents`) is replaced by the `Repo` value. OpenRepo is the `openResult` parameter of `InitRepo`.
- Clock readings (`time.Now`, `CURRENT_TIMESTAMP`) are the parameter `now`. Datetime round-tripping through the driver is not modelled.
- The notifier (notify-send) is a recorded `Notification`; its errors are ignored, as in the Go code.
- Loading, saving and environment overrides of the configuration, `ApolloDir`, and main.go are I/O and are left out. `os.UserHomeDir` and `filepath.Join` are the `Env` parameter.
- Rendering (internal/style, card.go, `boardView`, `renderColumn`, `View`), window-size messages, the copied-hash flash and the error line are presentation and are left out.
- `updateNote` and the text input it drives are a bubbletea component and are left out. `ActionNote` only records the note to edit and switches the screen.
- `copyHashCmd` writes an OSC 52 escape to the terminal, which is left out. The model keeps the command with the first 7 bytes of the hash.
- internal/tui/views.go and model_test.go refer to fields absent from model.go and are not modelled. Type-only files appear as datatypes.
- Ingest.PersistCommits: the error names the hash as `c.Hash[:7]`, which panics on hashes shorter than 7 bytes; the model keeps only the "insert commit" context of the message.
- Ingest.UpdateReview: the error message of a failed update is reduced to a fixed text; the Go code passes the driver's error through.
- GoStrings.TrimSpaceCuts: trims ASCII white space only; the Unicode spaces `strings.TrimSpace` also removes are not modelled.
- CommitTable.IsListing, ReviewStore.Store.Select, ReviewStore.Store.ListCommits, ReviewStore.Store.ListAllCommits, Ingest.LoadCommits: "newest first" orders by the integer instant `committedAt`. The program's `ORDER BY c.committed_at DESC` (internal/db/commit.go:75) compares the stored text, which the driver writes in each commit's own zone offset. The two orders agree only when all listed commits share one offset: a commit at 10:30+02:00 (08:30 UTC) is listed before one at 09:00+00:00 by the program, and after it here. The board inherits this order through `Partition`.
- UpsertRepoAsWritten: an error from `LastInsertId()` itself (repo.go:24) is not a fault parameter; the model always takes the id the statement set, so the read-back it would force is not modelled.
- BoardModel.OfStatus: its own contract states only a length bound; its content and order are stated by OfStatusMembers and OfStatusAppend.

## Findings

| source | as written | input that shows it | evidently intended | confidence | as-written member | corrected member |
|---|---|---|---|---|---|---|
| internal/db/repo.go:23-29 | `UpsertRepo` returns `LastInsertId()`, which after the UPDATE branch of the upsert is the connection's previous insert id | register "/a" (id 1), then "/b" (id 2), then "/a" again: the call returns 2 while "/a" keeps id 1 | return the id of the row at the path, new or existing | not executed | ReviewStore.UpsertAgainReturnsStaleId | ReviewStore.UpsertAgainReturnsOwnId |
| internal/tui/board.go:128 | the ellipsis literal is the 7 bytes C3 A2 E2 82 AC C2 A6, the UTF-8 of "…" read as Windows-1252 and encoded again; it shows as three characters "â€¦" | truncate("abcdef", 4) gives "abcâ€¦", 6 code points for a maxLen of 4 | the one-character "…" (E2 80 A6), so that a cut line has at most maxLen code points | not executed | BoardLayout.TruncateAsWrittenOverflowsAll | BoardLayout.TruncateFitsWidth |
