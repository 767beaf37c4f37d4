# Telegram bridge: a verified model

The repository stores Telegram messages in SQLite (`crates/history`), fills that store from a long-poll loop
(`crates/tg-updater`), serves it over an authenticated local pipe (`crates/local-pipe`), and lets a coding session wait
for a reply on Telegram (`crates/tg-hook`). This project models the parts of those crates that carry state or
arithmetic and proves what they keep:

- `Tables`, `IndexAgreement`, `Retention`, `Phrase`, `Search`, `Paging`, `Poll`, `Unread`, `History`, `Listing`: the
  history store. `History.History` is the store handle, a class whose methods update the message, chat and kv tables and the
  full-text index in place. The index is a set of postings (token, rowid, position) that the code keeps in step by
  hand; the FTS5 tokenizer and SQLite's choice of rowid for a new row are parameters (`Engine`), and the choice may hand
  out a freed rowid again. The statements of the store are also given as functions on table values, so that runs of
  any length can be stated.
- `Updates`, `Replay`, `Convergence`, `Ledger`, `Versions`, `AllowList`: the updater. `Updates.Updater` is the loop body;
  `Replay` runs it against Telegram's log under crashes, failed writes and re-fetches of any size, following the `getUpdates`
  contract of the Telegram Bot API ("Getting updates": `offset` is the first update returned, and lower ones are
  confirmed). `Convergence` is about runs in which no record write fails, the last three about all runs.
- `Calendar`: `epoch_to_civil` against the calendar of RFC 3339 (section 5.7 and Appendix C).
- `Utf8`, `Split`: message splitting on UTF-8 (section 3 of RFC 3629).
- `Ancestry`, `Watcher`: process ancestry, the nearest-common-ancestor decision, and the cached snapshot.
- `Decimal`, `Questions`, `Auth`, `WaitLoop`: option numbering and replies, the AUTH line, the hook's wait loops.

Inputs from outside (the clock, the network, Win32, whether a database write succeeds) are parameters.
`dafny verify dfyconfig.toml` checks everything.

## What the proofs turned up

- The index is exact after every completed operation, but `trim_older_than` and `trim_per_chat_to` delete and rebuild in
  two separate statements. If the rebuild does not happen, the index still agrees exactly when no deleted row had a
  token (`IndexAgreement.TrimWithoutRebuild`). The leftovers never reach a search while they name rowids nobody uses
  (`Search.JoinHidesGhosts`), and that lasts through a run exactly as long as no new message gets a freed rowid under
  which the index still lists something else (`Search.GhostsHiddenExactlyWhen`). Then a search goes wrong exactly when
  its phrase can be read off the old and the new text lying over each other but not off the new one
  (`Search.ReusedRowidMisleadsExactlyWhen`; `Search.ReusedRowidMisleads` is an input that shows it).
  `enforce_retention`, the one the server calls, runs in a transaction and does not have this gap.
- The comment on `search` says callers may use the full FTS5 query syntax; the code quotes the query as one phrase. The
  model follows the code.
- The design document asks that restarts neither replay nor skip updates
  (docs/superpowers/specs/2026-05-13-telegram-mcp-design.md:178). The code does both. It replays after every event that
  handles updates without persisting an offset past all of those ever handled (`Replay.ReplaysExactlyWhen`;
  `Versions.UpdateIsReplayed` is an input that shows it). When no record write fails, replays leave no trace once the
  offset has caught up (`Convergence.ReplayConverges`).
- Failed record writes are only logged, and the offset moves on. The tables always hold the versions of the last
  successful writes in time (`Versions.RunsHoldLastWrites`). Once the offset has passed a message's last update, its
  newest version is in the table for good or never, exactly as `Versions.NewestMessageKeptExactlyWhen` says, and some
  version is exactly as `Versions.MessageLostExactlyWhen` says (`Versions.UpdateIsSkipped` is an input that loses one);
  for chats see `Versions.NewestChatKeptExactlyWhen`. A replay can even put an older version back: an edit that had been
  stored is lost when the replay's write of the original succeeds and that of the edit fails (`Versions.EditIsReverted`).
- A reply is lost when fifty or more messages of the chat, sent ones included, are newer than it at the poll
  (`Poll.PollIsExact` gives the exact condition, `Poll.BuriedReplyIsLost` an input).
- The watcher's comment says a live process's ancestry never changes. It does when a process between the window and the
  hook's application exits. The cached verdict is the fresh one exactly when it is "not active", the snapshot is new, or
  every process from the window up to the deciding one still runs (`Watcher.CachedVerdictExactlyWhen`). In every other
  case it is a stale "active" (`Watcher.ExitedAncestorMisleads`; `Watcher.LauncherExits` is an input that shows it).
- `kv_put` accepts any key, so another writer could disturb a chat's unread baseline; the count is right exactly when no
  key that stands for the chat, in whatever notation, is left with another number
  (`Unread.UnreadIsSinceLastMarkExactlyWhen`; `Unread.PutDisturbs` is an input that disturbs it). In the repository
  only `mark_read` writes such keys.
- `split_message` ends exactly when every character but whitespace fits the limit (`Split.SplitEndsExactlyWhen`); the
  caller's 4096 always suffices.
- `epoch_to_civil` returns the year as an i32: the result names the input second exactly when its year fits
  (`Calendar.EpochToCivilCorrect`).

## Model

| member | source | states |
|---|---|---|
| History.History.constructor | crates/history/src/store.rs:150-156 | a new store has empty tables and an index that agrees with them |
| History.History.UpsertChat | crates/history/src/store.rs:28-45 | the chat row takes the new columns but keeps its `first_seen`; nothing else changes |
| History.History.TouchChatLastSeen | crates/history/src/store.rs:192-208 | only the `last_seen` column of an existing chat moves; no chat is created |
| History.History.InsertMessage | crates/history/src/store.rs:50-109 | delete of the old postings, upsert and indexing leave one row per key and an index equal to a rebuild |
| History.History.RecordInbound | crates/history/src/store.rs:271-286 | chat and message are both written or, if the commit fails, neither |
| History.History.KvPut | crates/history/src/store.rs:611-625 | one key is set, or nothing changes when the write fails |
| History.History.MarkRead | crates/history/src/store.rs:652-658 | the chat's baseline key holds the id in decimal; nothing else changes |
| History.History.DeleteMessagesBefore | crates/history/src/store.rs:113-118 | exactly the rows dated before the cutoff go, and the count is their number |
| History.History.DeletePerChatOverflow | crates/history/src/store.rs:124-135 | exactly the rows whose ROW_NUMBER exceeds the cap go, and the count is their number |
| History.History.TrimOlderThan | crates/history/src/store.rs:666-675 | the age trim with its exact count; the index agrees afterwards |
| History.History.TrimPerChatTo | crates/history/src/store.rs:680-689 | the per-chat trim with its exact count; the index agrees afterwards |
| History.History.DeleteBeyondLimits | crates/history/src/store.rs:710-717 | the rows left are those of both deletes, `aged_out` counts the rows failing the age limit, and counts and survivors add up |
| History.History.EnforceRetention | crates/history/src/store.rs:701-725 | the same with the index in agreement although the rebuild is skipped when nothing was deleted |
| History.History.GetMessage | crates/history/src/store.rs:292-365 | found exactly when a row has the key, and then that row |
| History.History.Messages | crates/history/src/store.rs:374-465 | the page: stored rows of the chat strictly between the cursors, largest ids first, the newest ones if the limit cuts it |
| History.PageListsNewest | crates/history/src/store.rs:384-404 | a page in terms of its rows: strictly between the cursors, strictly descending, at most `limit`, and if a row is left out the page is full of newer ones |
| History.History.Search | crates/history/src/store.rs:556-605 | at most a hundred distinct hits, newest first: stored rows that have the phrase and meet the filters, and every such row unless a hundred at least as new are listed |
| History.HitsMeetFilters | crates/history/src/store.rs:576-588 | every hit is a stored row that has the phrase, is in the chat asked for, and is dated no earlier than `since` and no later than `until` |
| History.NewestAreHit | crates/history/src/store.rs:566-588 | every such row is a hit, unless there are a hundred hits none of which is older |
| History.History.ListChats | crates/history/src/store.rs:476-545 | every chat once, latest `last_seen` first, with its highest message id and the number of its inbound rows above its baseline |
| History.Summarise | crates/history/src/store.rs:526-541 | one chat's row, its highest message id, and the number of its inbound rows above its baseline |
| History.EveryChatListed | crates/history/src/store.rs:480-505 | the listing leaves no chat out and repeats none |
| History.ListedUnreadIsSinceLastMark | crates/history/src/store.rs:467-545 | after any run the listed unread count is the inbound rows above a baseline last written for the chat, and above the id last marked read unless another number was written |
| Listing.ReportedCount | crates/history/src/store.rs:467-545 | after any run in which only `mark_read` writes the chat's baseline the reported count is the inbound rows above the last mark |
| Listing.WrittenMessageCounts | crates/history/src/store.rs:527-533 | writing a message raises its chat's count by one if it is inbound and above the mark, lowers it by one if it replaces such a version, and changes nothing otherwise |
| Listing.MarkingReads | crates/history/src/store.rs:648-658 | marking a chat up to its highest id brings its count to 0 and leaves every other chat's |
| Ordering.SelectTop | crates/history/src/store.rs:487-490 | ORDER BY DESC LIMIT n: n rows, largest keys first, none left out larger than one listed, for every order of ties |
| Ordering.TopKeysDescend | crates/history/src/store.rs:487-490 | with distinct keys such a selection is the top of the one descending list of keys |
| IndexAgreement.ReindexAgrees | crates/history/src/store.rs:58-107 | removing the old text's postings and adding the new text's yields the rebuilt index, also to and from NULL text and on reused rowids |
| IndexAgreement.ApplyKeepsSound | crates/history/src/store.rs:28-145 | every operation keeps one row per key and the index equal to a rebuild |
| IndexAgreement.NothingDeleted | crates/history/src/store.rs:718-720 | a delete count of zero means an unchanged table, so the skipped rebuild is not missed |
| IndexAgreement.RunsStaySound | crates/history/src/store.rs:50-145 | the same after every sequence of inserts, overwrites, records, marks, trims and sweeps on a new store |
| IndexAgreement.TrimWithoutRebuild | crates/history/src/store.rs:668-673 | a trim whose rebuild did not happen keeps agreement if and only if no deleted row had a token |
| Retention.RowNumberCounts | crates/history/src/store.rs:127-131 | ROW_NUMBER is one more than the number of rows of the chat with a higher message id |
| Retention.Survives | crates/history/src/store.rs:691-725 | a row survives if and only if it passes the age limit and fewer than `keep` passing rows of its chat have a higher id |
| Retention.SweepKeeps | crates/history/src/store.rs:691-725 | the same in terms of the date, chat and id columns |
| Retention.OverflowIsDeleted | crates/history/src/store.rs:124-135 | deleting by ROW_NUMBER and by count of newer rows is the same |
| Retention.CountsAddUp | crates/history/src/store.rs:710-722 | the two counts and the survivors sum to the original number of rows |
| Retention.SweepIsIdempotent | crates/history/src/store.rs:701-725 | a second sweep with the same limits deletes nothing |
| Retention.AgeFirstKeepsMore | crates/history/src/store.rs:710-717 | ageing before capping keeps everything capping before ageing would |
| Retention.OrderOfDeletesIrrelevant | crates/history/src/store.rs:710-717 | the two orders agree when dates follow message ids in every chat |
| Retention.DeletesDisagreeWhen | crates/history/src/store.rs:710-717 | the orders disagree on a row exactly when rows too old to pass push it over the cap |
| Phrase.EscapedReadsBack | crates/history/src/store.rs:12-15 | an FTS5 string reader consumes the whole escaped query and returns the query |
| Phrase.ReadsBackEscaped | crates/history/src/store.rs:12-15 | every complete FTS5 string is the escape of what it reads as |
| Phrase.EscapeIsInjective | crates/history/src/store.rs:12-15 | different queries escape differently |
| Search.LookupFindsPhrase | crates/history/src/store.rs:568-574 | on a rebuilt index the lookup finds exactly the rows whose text has the phrase's words in sequence |
| Search.SearchRefinesScan | crates/history/src/store.rs:556-605 | with an index in agreement the rows selected by index, join and filters are those of a scan |
| Search.FewMatchesAllListed | crates/history/src/store.rs:588-588 | with at most a hundred matches all are listed |
| Search.JoinHidesGhosts | crates/history/src/store.rs:571-573 | postings of deleted rows never reach a result while their rowids are unused |
| Search.TrimLeavesOnlyGhosts | crates/history/src/store.rs:666-689 | a trim that stops before its rebuild leaves every true posting and, beyond these, only ones of deleted rows |
| Search.InsertHidesGhostsExactlyWhen | crates/history/src/store.rs:50-109 | inserting a message keeps it so if and only if its row exists or all the index lists under its rowid is what it says |
| Search.GhostsHiddenExactlyWhen | crates/history/src/store.rs:50-145 | from an interrupted trim on, leftovers stay hidden at every point of a run if and only if every step is harmless in that sense |
| Search.ReusedRowidMisleadsExactlyWhen | crates/history/src/store.rs:666-675 | after an interrupted trim and an insert, any search is right if and only if the rowid was not freed, the filters exclude the new message, it has the phrase, or the phrase cannot be read off old and new text lying over each other |
| Paging.ReadPage | crates/history/src/store.rs:374-465 | the selection and the collecting loop yield the page |
| Paging.NextWindow | crates/history/src/store.rs:79-86 | asking with the last id as `before` continues exactly after the page, with fewer rows left |
| Paging.WalkIsComplete | crates/history/src/store.rs:374-465 | for any limit but zero a client paging to the empty page sees every row between its cursors once, strictly descending |
| Paging.WalkIsCompleteExactlyWhen | crates/history/src/store.rs:374-465 | only the limit zero loses rows, and only if there are any |
| Poll.ToolPagingIsComplete | crates/mcp-server/src/main.rs:645-645 | under the server's clamp every requested limit gives a complete walk |
| Unread.RunsRecordWrites | crates/history/src/store.rs:611-658 | after any run each kv key holds the value last written under it, by `kv_put` or `mark_read`, and no other key is there |
| Unread.BaselineKeyStrips | crates/history/src/store.rs:512-518 | a baseline key passes the LIKE pattern and strips to the printed chat id |
| Unread.BaselineKeysDistinct | crates/history/src/store.rs:652-658 | chats never share a baseline key |
| Unread.BaselineKeyIs | crates/history/src/store.rs:654-654 | the key is `last_unread_baseline:` and the chat id in decimal |
| Unread.ScanBaselines | crates/history/src/store.rs:507-524 | the scan collects, for every chat a matching row names, the baseline of such a row, in any row order |
| Unread.ScanUsesWritten | crates/history/src/store.rs:507-533 | after any run the baseline used for a chat is a number last written under a key that stands for it, 0 if there is none |
| Unread.UnreadIsSinceLastMarkExactlyWhen | crates/history/src/store.rs:507-533 | after any run, in every scan order, that baseline is the id last marked if and only if no key that stands for the chat was left with another number |
| Unread.MarksAreUndisturbed | crates/history/src/store.rs:652-658 | that is so whenever `mark_read` alone writes the chat's baseline |
| Decimal.ParseShow | crates/history/src/store.rs:519-519 | every i64 printed in decimal parses back to itself |
| Decimal.ShowIsInjective | crates/history/src/store.rs:654-655 | different numbers print differently |
| Decimal.ParseI64Accepts | crates/history/src/store.rs:519-519 | digits with or without a sign parse to the number they denote if it is an i64 |
| Decimal.ParseI64Refuses | crates/history/src/store.rs:519-519 | nothing but digits with or without a sign parses |
| Poll.ParseReplies | crates/tg-hook/src/poll.rs:40-57 | the inbound rows with an id, as a multiset, sorted by id |
| Poll.SortIsStable | crates/tg-hook/src/poll.rs:55-55 | the sort keeps the order of replies with equal ids |
| Poll.PollOnce | crates/tg-hook/src/poll.rs:18-34 | the replies are exactly the inbound rows above the baseline with fewer than fifty newer ones, oldest first |
| Poll.PollIsExact | crates/tg-hook/src/poll.rs:18-57 | a stored row becomes a reply if and only if it is inbound, above the baseline and has fewer than fifty newer rows in its chat |
| Poll.RepliesAscend | crates/tg-hook/src/poll.rs:36-57 | replies are strictly oldest first, and each is a stored inbound row above the baseline |
| Poll.NoReplyMissed | crates/tg-hook/src/poll.rs:16-34 | with at most fifty rows above the baseline no inbound one is missed |
| Updates.Updater.constructor | crates/tg-updater/src/polling.rs:63-78 | the volatile offset starts as the number under `update_offset`, 0 if absent or unreadable |
| Updates.Updater.Turn | crates/tg-updater/src/polling.rs:89-137 | a batch is recorded in order, filtered, and both offsets move past it only if the write succeeds; failures only back off, doubling up to 30 seconds |
| Updates.SuccessorWraps | crates/tg-updater/src/polling.rs:118-118 | the offset after an id is the next i64, wrapping at the largest |
| Updates.OffsetIsPastBatch | crates/tg-updater/src/polling.rs:98-124 | in whatever order a batch comes, a persisted offset is one past its largest id; without an id or when the write fails it stays |
| AllowList.OnlyListedChats | crates/tg-updater/src/polling.rs:107-112 | in every run no chat outside the list has a row, and every message row is of an update that maps to a listed chat |
| AllowList.ListedUpdateStored | crates/tg-updater/src/polling.rs:104-115 | once a record write of a mapped update of a listed chat has succeeded, its message and chat have rows from then on |
| AllowList.ListedUpdateAccountedFor | crates/tg-updater/src/polling.rs:104-125 | at every loop head each such update below the offset has its rows, or a record write of it failed |
| AllowList.ListedChatOnly | crates/tg-updater/src/polling.rs:107-112 | with the list {42}, of one message from chat 42 and one from chat 99 only the first is stored |
| Replay.OffsetAfterBatch | crates/tg-updater/src/polling.rs:98-124 | a persisted non-empty batch strictly raises the offset to just past its last update |
| Replay.StepAdvances | crates/tg-updater/src/polling.rs:89-137 | no event lowers the offset, and an offset write raises it |
| Replay.RunsKeepOffsetSafe | crates/tg-updater/src/polling.rs:71-125 | at every loop head memory and disk agree on the offset, and every update below it was stored, unmappable, filtered, or had its write fail |
| Replay.StoredExactlyWhen | crates/tg-updater/src/polling.rs:113-125 | once a turn persists the offset, a write of an update of its batch ever succeeds if and only if one had before or it succeeds in that turn |
| Replay.ReplaysExactlyWhen | crates/tg-updater/src/polling.rs:71-125 | after any event the next fetch repeats handled updates unless the event persisted an offset past all of them, or handled none and there were none to repeat |
| Ledger.UpdateBacked | crates/tg-updater/src/polling.rs:113-115 | an update whose write succeeds gives its message and chat their rows and disturbs no others |
| Ledger.RunsStayBacked | crates/tg-updater/src/polling.rs:89-126 | in every run, failed writes included, every update whose write ever succeeded has rows for its message and chat, and every row is that of some such update |
| Ledger.PassedIsAccountedFor | crates/tg-updater/src/polling.rs:113-125 | at every loop head each update below the offset is unmappable, filtered, had its write fail, or has its rows in the tables |
| Versions.UpdateOverwrites | crates/tg-updater/src/polling.rs:99-116 | one update changes the row of its message and of its chat, keeping `first_seen`, if its write succeeds, and nothing else |
| Versions.RunsHoldLastWrites | crates/tg-updater/src/polling.rs:89-126 | in every run, failed writes and replays included, every message and chat row is that of the last successful writes in time |
| Versions.PassedRowsStay | crates/tg-updater/src/polling.rs:117-125 | rows all of whose writers the offset has passed never change again |
| Versions.RowsAfterPassing | crates/tg-updater/src/polling.rs:89-126 | once a turn persists the offset past every writer of a row, it stays what the last successful write of that batch left, or what it was |
| Versions.NewestMessageKeptExactlyWhen | crates/tg-updater/src/polling.rs:113-125 | the newest version of a message is in the table for good if and only if its write succeeded in the turn that persisted the offset past it, or what the rest of that turn left was that version already |
| Versions.NewestChatKeptExactlyWhen | crates/tg-updater/src/polling.rs:113-125 | the same for the newest state of a chat |
| Versions.MessageLostExactlyWhen | crates/tg-updater/src/polling.rs:113-125 | a message has a row after the offset passed all its updates if and only if it had one before that turn or a write of one succeeded in it |
| Versions.EditIsReverted | crates/tg-updater/src/mapping.rs:19-23 | an edit already stored is lost for good when a replay stores the original again and fails on the edit, though the run is caught up |
| Convergence.UpdateTraced | crates/tg-updater/src/polling.rs:99-116 | one recorded update makes its own message and chat rows the newest writer's and leaves all others |
| Convergence.RunsStayTraced | crates/tg-updater/src/polling.rs:89-126 | when no record write fails, every row in every run comes from a writer between its last committed one and the furthest update handled |
| Convergence.ReplayConverges | crates/tg-updater/src/polling.rs:89-126 | when no record write fails, once the offset is past the furthest update handled, messages and chats, `first_seen` included, are those of one in-order pass |
| Convergence.RunsKeepIndex | crates/tg-updater/src/polling.rs:89-126 | in every run, failed writes included, the search index agrees with the table |
| Calendar.YearOfEraBrackets | crates/local-pipe/src/server.rs:212-216 | the year of era starts on or before the day and ends after it, so no unsigned difference underflows |
| Calendar.MonthsAdvance | crates/local-pipe/src/server.rs:217-220 | the month arithmetic yields real dates, each followed by its calendar successor |
| Calendar.CivilAdvances | crates/local-pipe/src/server.rs:211-220 | the next day number is the next calendar day, across months, leap days, centuries and eras |
| Calendar.CivilHasDayNumber | crates/local-pipe/src/server.rs:211-220 | the date found for a day number is that many days from 1970-01-01, counted year by year and month by month |
| Calendar.EveryDateIsReached | crates/local-pipe/src/server.rs:211-220 | every calendar date is the one found for its day number |
| Calendar.EpochToCivilCorrect | crates/local-pipe/src/server.rs:204-222 | the result names the input second if and only if its year fits an i32 |
| Calendar.YearWraps | crates/local-pipe/src/server.rs:211-222 | a year that does not fit comes back modulo 2^32; month, day and time stay right |
| Utf8.BoundaryIsPrefix | crates/tg-hook/src/wake.rs:34-36 | the byte test finds exactly the offsets between characters |
| Utf8.Utf8Exactly | crates/local-pipe/src/auth.rs:64-64 | bytes pass as text if and only if they are the encoding of some text |
| Split.StepBack | crates/tg-hook/src/wake.rs:32-37 | stepping back byte by byte stops at the end of the longest run of characters that fits |
| Split.CutPrefersNewline | crates/tg-hook/src/wake.rs:38-40 | a chunk is cut at the last newline of its window, unless the only newline is its first character or it has none; then it is as long as the limit allows |
| Split.FirstChunk | crates/tg-hook/src/wake.rs:31-43 | the chunks of a text over the limit: the part before the cut less its trailing whitespace, then those of the part after it less its leading whitespace; the cut is the last newline within the limit, else the limit |
| Split.WhitespaceIs | crates/tg-hook/src/wake.rs:41-42 | whitespace is the twenty-five characters with the Unicode property |
| Split.TrimmingIsExact | crates/tg-hook/src/wake.rs:41-42 | trimming an end takes away all the whitespace there and nothing else |
| Split.SplitMessage | crates/tg-hook/src/wake.rs:25-48 | whenever the loops can end at all they do, with the chunks whose properties the next rows state |
| Split.SplitIsFaithful | crates/tg-hook/src/wake.rs:23-48 | every chunk fits the limit in bytes and UTF-16 units, none is empty, and the text is the chunks with only whitespace between |
| Split.WovenKeepsInk | crates/tg-hook/src/wake.rs:41-46 | every non-whitespace character survives, in order |
| Split.SplitEndsExactlyWhen | crates/tg-hook/src/wake.rs:31-43 | the loop ends if and only if every character but whitespace fits the limit, which four bytes always allow |
| Ancestry.AncestryIn | crates/local-pipe/src/process.rs:110-126 | a duplicate-free parent path of at most 33 pids that ends only at a missing process, a zero, own or repeated parent, or the cap |
| Ancestry.WalkIsUnique | crates/local-pipe/src/process.rs:110-126 | there is only one such path |
| Ancestry.PidAncestryChain | crates/local-pipe/src/process.rs:130-137 | the path without the process itself |
| Ancestry.WalkReaches | crates/local-pipe/src/process.rs:110-126 | on a cycle-free snapshot the path holds every ancestor within the cap |
| Ancestry.WalksAgree | crates/local-pipe/src/process.rs:110-126 | two paths that meet go on together |
| Ancestry.FocusedWindowIsHost | crates/tg-hook/src/local_input.rs:128-135 | true exactly when the first process of the window's path that is the hook's is not a generic one |
| Ancestry.HostExactlyWhen | crates/tg-hook/src/local_input.rs:128-159 | that process is known, has a pid above 4, and is not one of the seven shell and service executables or nameless |
| Ancestry.FirstCommonIsNearest | crates/tg-hook/src/local_input.rs:121-135 | between the snapshot of the hook's start and the watcher's, that process is the nearest common ancestor of the window, and of the hook unless a pid was reused |
| Ancestry.NoCommonMissed | crates/tg-hook/src/local_input.rs:128-135 | a process within the cap that is the window's ancestor now and was the hook's at its start is never missed, whatever exited in between |
| Watcher.LocalInputWatcher.UserActive | crates/tg-hook/src/local_input.rs:100-117 | active exactly when input is within the threshold and the window is the host's by the kept snapshot, replaced only for an unknown window |
| Watcher.LiveDecision | crates/tg-hook/src/local_input.rs:111-135 | for a window the cache knows, a fresh snapshot says "host" if and only if the cached path to the host still runs |
| Watcher.CachedVerdictExactlyWhen | crates/tg-hook/src/local_input.rs:66-117 | at every poll of every run in which no new process gets a pid the cache mentions, the cached verdict is the fresh one if and only if it is negative, the snapshot is new, or every process up to the deciding one still runs; it never misses an active user |
| Watcher.CacheIsTransparent | crates/tg-hook/src/local_input.rs:66-73 | over every run in which no process exits before its children, the cached verdict on a running window is the fresh one |
| Watcher.ExitedAncestorMisleads | crates/tg-hook/src/local_input.rs:111-115 | in any run, when a process on the cached path to the host exits, the cached verdict stays positive and the fresh one is negative |
| Questions.FlatOptions | crates/tg-hook/src/question.rs:62-70 | the nested loops yield the global numbering |
| Questions.FlatListsAll | crates/tg-hook/src/question.rs:60-70 | the numbering lists every option exactly once, in ask order |
| Questions.Render | crates/tg-hook/src/question.rs:75-106 | the n-th option line printed carries the number n and the n-th option's label and description |
| Questions.DigitRunPicks | crates/tg-hook/src/question.rs:117-121 | a digit run picks the option it denotes, and nothing when out of range or too long to parse |
| Questions.PicksJoin | crates/tg-hook/src/question.rs:117-121 | a non-digit between two texts keeps their picks apart and in order |
| Questions.JoinedPicks | crates/tg-hook/src/main.rs:266-271 | the picks of newline-joined replies are those of each reply in turn |
| Questions.ListingPicks | crates/tg-hook/src/question.rs:110-121 | a reply listing valid numbers in any digit-free text picks exactly those, in order |
| Questions.GroupPicks | crates/tg-hook/src/question.rs:132-137 | each question gets the labels picked for it, in reply order |
| Questions.NoPickLost | crates/tg-hook/src/question.rs:132-137 | the questions together hold as many labels as there were picks |
| Questions.AnswerFromReply | crates/tg-hook/src/question.rs:114-156 | the trimmed reply when nothing is picked, else every question with its labels |
| Questions.FreeTextPassedOn | crates/tg-hook/src/question.rs:123-130 | a reply without a valid number comes back whole, less the whitespace at both ends |
| Questions.ListedNumbersAnswered | crates/tg-hook/src/question.rs:72-156 | a reply listing printed numbers is answered, under each question's header or text, with the labels printed beside exactly those of the numbers that are the question's, in reply order |
| Questions.OneNumberAnswered | crates/tg-hook/src/question.rs:72-156 | one bare number picks the label printed beside it, for the question that offers it and for no other |
| Auth.ConstantTimeEq | crates/local-pipe/src/auth.rs:77-86 | the accumulated xor is zero exactly when the sequences are equal |
| Auth.ReadLine | crates/local-pipe/src/auth.rs:42-58 | the bytes before the first LF, or the reason there is no such line, and what is left unread |
| Auth.ConsumeAuthLine | crates/local-pipe/src/auth.rs:38-74 | the outcome and the unread rest for every stream |
| Auth.AcceptedExactlyWhen | crates/local-pipe/src/auth.rs:36-74 | accepted if and only if the first LF follows at most 1024 bytes that, less one optional CR, are `AUTH ` and the token |
| Auth.IncompleteExactlyWhen | crates/local-pipe/src/auth.rs:42-58 | without an LF in the first 1025 bytes the attempt is too long if there are that many, and otherwise fails as the stream ends |
| Auth.RefusedExactlyWhen | crates/local-pipe/src/auth.rs:59-74 | a complete line is malformed if and only if it is not text or lacks the prefix, and has a bad token if and only if another one follows |
| Auth.TakesNoMoreThanTheLine | crates/local-pipe/src/auth.rs:34-58 | at most 1025 bytes are taken, and on acceptance exactly those up to the first LF |
| Auth.GoodClientAdmitted | crates/local-pipe/src/auth.rs:36-74 | a client sending the line in either form is admitted and what follows is left intact |
| WaitLoop.RunStop | crates/tg-hook/src/main.rs:133-190 | the wait ends at its first decisive wake; it blocks at most once, at the deadline with the retry message or at a poll with the texts of exactly the replies the table then holds |
| WaitLoop.RunAsk | crates/tg-hook/src/main.rs:237-282 | the wait ends at its first decisive wake; the tool is blocked at most once, if and only if the wait ends at a poll, with the answer read from exactly the replies the table then holds |
| WaitLoop.RepliedExactlyWhen | crates/tg-hook/src/main.rs:140-189 | a reply decides exactly at the first poll whose table holds an inbound message after the baseline with fewer than fifty newer ones, nothing having interrupted, timed out or released the wait; and it is decided by exactly these messages, oldest first |
| WaitLoop.ReplyComesThrough | crates/tg-hook/src/main.rs:133-189 | when wakes come at every poll interval, a message that stays in the table ends the wait with a reply within one interval, unless the deadline comes first |
| WaitLoop.LocalInputReleases | crates/tg-hook/src/main.rs:152-158 | with the release enabled, a user active from some time on ends the wait within half a second |
| WaitLoop.TakeoverNeedsOptIn | crates/tg-hook/src/main.rs:152-152 | without it local input never does |
| WaitLoop.InterruptThenDeadline | crates/tg-hook/src/main.rs:140-151 | at a wake an interrupt wins over everything else, and the deadline over all but that |
| WaitLoop.StopReasonTellsAll | crates/tg-hook/src/main.rs:163-178 | the Stop hook hands back every reply, one as it is, several as numbered lines oldest first |
| WaitLoop.TextsOfAll | crates/tg-hook/src/main.rs:266-270 | the AskUserQuestion hook reads every reply that has text, in order |
| WaitLoop.JoinedLinesSplit | crates/tg-hook/src/main.rs:178-178 | joined single-line texts come apart again into just those texts |
| WaitLoop.UnansweredMeansBuried | crates/tg-hook/src/main.rs:165-182 | a poll the wait goes on after passes over an inbound message after the baseline only if fifty newer ones bury it |
| WaitLoop.QuietPollsChangeNothing | crates/tg-hook/src/main.rs:182-185 | failed and empty polls can be exchanged for each other at any number of wakes without changing how the wait ends |
| WaitLoop.DeadlineEndsWait | crates/tg-hook/src/main.rs:147-151 | a wait that reaches its deadline ends |
| WaitLoop.PollsAreBounded | crates/tg-hook/src/cli.rs:111-116 | with `poll_secs` at least 1 a wait polls at most `timeout_secs / poll_secs` times |
| WaitLoop.ChecksAreBounded | crates/tg-hook/src/main.rs:137-153 | the watcher is asked at most once every half second |

## Left out

- SQLite itself, WAL mode, task spawning and the connection mutex: each store method is one atomic step, except that the two trims are also shown interrupted between their statements.
- FTS5 tokenization, the `snippet` text, and queries with an embedded NUL: the tokenizer is an arbitrary function from text to words, and matching is by word positions.
- The columns no statement reads (sender, reply, media, raw JSON): one field stands for them.
- JSON decoding, `map_update`, the MCP envelope and alias lookup: an update carries what mapping makes of it, a history row its decoded fields.
- A debug build, in which the successor of the largest i64 panics: `Updates.Successor` wraps, as the release profile does. Telegram's log in `Replay` holds no such id.
- A kv read that fails when the updater starts: the loop then never runs.
- Writers other than the updater in `Convergence`: outbound mirroring and retention run beside it in the server.
- Watcher.CachedVerdictExactlyWhen: runs in which a new process gets a pid the cached snapshot mentions; the cache can then be wrong either way (`Watcher.ReusedPidMisleads` shows the other one).
- Ancestry.FirstCommonIsNearest: the distance from the hook when a pid was reused between the two snapshots.
- Interrupts that arrive while a poll or notice is in flight: a wake says whether one is seen when the select is polled.
- Wording of messages, status lines and logs beyond option numbers, labels and replies.
- Real time: clocks are milliseconds, and a timer is ready from its instant on.
- The pipe accept loop, its backoff, access control lists and discovery files: no property spans them here.
- Timing of the constant-time comparison: only its result is modelled.
- Config loading, command-line parsing, error mapping and enum conversions: they would only add easy members.
