/** Which version of a message and of a chat the tables hold when record writes may fail and batches are replayed. */
module Versions {
  import opened Common
  import opened Tables
  import opened IndexAgreement
  import opened Updates
  import opened Replay
  import opened Convergence

  /** What the tables hold for one message key and one chat. */
  datatype Rows = Rows(message: Option<StoredMessage>, chat: Option<ChatInfo>)

  ghost function RowsOf(db: Db, k: Key, c: i64): Rows {
    Rows(RowFor(db.messages, k), ChatRow(db.chats, c))
  }

  /** The rows once the write of the update at `pos` has succeeded. */
  function Overwritten(log: seq<Update>, allowed: Option<set<i64>>, pos: nat, k: Key, c: i64, rows: Rows): Rows {
    Rows(if Writes(log, allowed, pos, k) then Some(log[pos].mapped.value.msg) else rows.message,
         if WritesChat(log, allowed, pos, c) then Some(FirstSeenKept(rows.chat, log[pos].mapped.value.chat))
         else rows.chat)
  }

  function FirstSeenKept(prior: Option<ChatInfo>, c: ChatInfo): ChatInfo {
    if prior.Some? then c.(first_seen := prior.value.first_seen) else c
  }

  /** The versions the last successful writes of a stretch of the log leave, over `rows` where there is none. */
  function LastWrites(log: seq<Update>, allowed: Option<set<i64>>, from: nat, n: nat, commits: seq<bool>, k: Key,
                      c: i64, rows: Rows): Rows
    requires n <= |commits|
  {
    if n == 0 then
      rows
    else
      var before := LastWrites(log, allowed, from, n - 1, commits, k, c, rows);
      if commits[n - 1] then Overwritten(log, allowed, from + n - 1, k, c, before) else before
  }

  lemma UpdateOverwrites(e: Engine, log: seq<Update>, allowed: Option<set<i64>>, db: Db, pos: nat, commits: bool,
                         k: Key, c: i64)
    requires pos < |log| && Keyed(db.messages)
    ensures var after := ApplyUpdate(e, db, log[pos], allowed, commits);
            && Keyed(after.messages)
            && RowsOf(after, k, c) ==
               if commits then Overwritten(log, allowed, pos, k, c, RowsOf(db, k, c)) else RowsOf(db, k, c)
  {
    if Admitted(log[pos], allowed) && commits {
      var chat, msg := log[pos].mapped.value.chat, log[pos].mapped.value.msg;
      InsertKeepsKeys(e, UpsertChat(db, chat), msg);
      RowAfterInsert(e, UpsertChat(db, chat), msg, k);
    }
  }

  lemma {:induction false} StretchOverwrites(e: Engine, log: seq<Update>, allowed: Option<set<i64>>, db: Db, from: nat,
                                             n: nat, commits: seq<bool>, k: Key, c: i64)
    requires from + n <= |log| && n <= |commits| && Keyed(db.messages)
    ensures var after := ApplyUpdates(e, db, log[from..from + n], allowed, commits);
            && Keyed(after.messages)
            && RowsOf(after, k, c) == LastWrites(log, allowed, from, n, commits, k, c, RowsOf(db, k, c))
  {
    hide Keyed, RowsOf, ApplyUpdate, Overwritten;
    var us := log[from..from + n];
    if n == 0 {
      assert us == [];
    } else {
      StretchOverwrites(e, log, allowed, db, from, n - 1, commits, k, c);
      assert us[..n - 1] == log[from..from + (n - 1)];
      UpdateOverwrites(e, log, allowed, ApplyUpdates(e, db, us[..n - 1], allowed, commits), from + n - 1,
                       commits[n - 1], k, c);
    }
  }

  // -- runs -----------------------------------------------------------------------------------------

  /** The versions an event leaves. */
  ghost function AfterEvent(log: seq<Update>, allowed: Option<set<i64>>, offset: int, ev: Event, k: Key, c: i64,
                            rows: Rows): Rows
    requires ValidLog(log) && ValidEvent(ev)
  {
    if ev.Turn? || ev.CrashIn? then
      LastWrites(log, allowed, FirstAt(log, offset), Handled(log, offset, ev), ev.commits, k, c, rows)
    else
      rows
  }

  /** The versions a run leaves: those of the last successful writes in time, replays included. */
  ghost function AfterRun(e: Engine, log: seq<Update>, allowed: Option<set<i64>>, s: Sys, evs: seq<Event>, k: Key,
                          c: i64): Rows
    requires ValidLog(log) && ValidRun(evs)
  {
    if evs == [] then
      RowsOf(s.db, k, c)
    else
      var n := |evs| - 1;
      AfterEvent(log, allowed, Run(e, log, allowed, s, evs[..n]).offset, evs[n], k, c,
                 AfterRun(e, log, allowed, s, evs[..n], k, c))
  }

  lemma StepOverwrites(e: Engine, log: seq<Update>, allowed: Option<set<i64>>, s: Sys, ev: Event, k: Key, c: i64)
    requires ValidLog(log) && ValidEvent(ev) && Keyed(s.db.messages)
    ensures var t := Step(e, log, allowed, s, ev);
            && Keyed(t.db.messages)
            && RowsOf(t.db, k, c) == AfterEvent(log, allowed, s.offset, ev, k, c, RowsOf(s.db, k, c))
  {
    hide Keyed, ApplyUpdates, MaxId, LastWrites, HasKey;
    if ev.Turn? || ev.CrashIn? {
      StretchOverwrites(e, log, allowed, s.db, FirstAt(log, s.offset), Handled(log, s.offset, ev), ev.commits, k, c);
    }
  }

  /** In every run, failed writes and replays included, the tables hold the versions of the last successful writes. */
  lemma {:induction false} RunsHoldLastWrites(e: Engine, log: seq<Update>, allowed: Option<set<i64>>, s: Sys,
                                              evs: seq<Event>, k: Key, c: i64)
    requires ValidLog(log) && ValidRun(evs) && Keyed(s.db.messages)
    ensures var t := Run(e, log, allowed, s, evs);
            Keyed(t.db.messages) && RowsOf(t.db, k, c) == AfterRun(e, log, allowed, s, evs, k, c)
  {
    hide Keyed, RowsOf, AfterEvent;
    if evs != [] {
      var n := |evs| - 1;
      RunsHoldLastWrites(e, log, allowed, s, evs[..n], k, c);
      StepOverwrites(e, log, allowed, Run(e, log, allowed, s, evs[..n]), evs[n], k, c);
    }
  }

  // -- once the offset has passed every writer --------------------------------------------------------

  ghost predicate NoneFrom(log: seq<Update>, allowed: Option<set<i64>>, k: Key, pos: nat) {
    forall i: nat :: Writes(log, allowed, i, k) ==> i < pos
  }

  ghost predicate NoChatFrom(log: seq<Update>, allowed: Option<set<i64>>, c: i64, pos: nat) {
    forall i: nat :: WritesChat(log, allowed, i, c) ==> i < pos
  }

  lemma {:induction false} NothingOverwritten(log: seq<Update>, allowed: Option<set<i64>>, from: nat, n: nat,
                                              commits: seq<bool>, k: Key, c: i64, rows: Rows)
    requires n <= |commits|
    ensures var after := LastWrites(log, allowed, from, n, commits, k, c, rows);
            && (NoneFrom(log, allowed, k, from) ==> after.message == rows.message)
            && (NoChatFrom(log, allowed, c, from) ==> after.chat == rows.chat)
  {
    if n > 0 {
      NothingOverwritten(log, allowed, from, n - 1, commits, k, c, rows);
    }
  }

  lemma FirstAtGrows(log: seq<Update>, a: int, b: int)
    requires ValidLog(log) && a <= b
    ensures FirstAt(log, a) <= FirstAt(log, b)
  {
    FirstAtSplits(log, a);
    FirstAtSplits(log, b);
    if FirstAt(log, b) < |log| {
      assert b <= log[FirstAt(log, b)].id.value;
    }
  }

  /** No later event touches what the offset has passed. */
  lemma {:induction false} PassedRowsStay(e: Engine, log: seq<Update>, allowed: Option<set<i64>>, s: Sys,
                                          evs: seq<Event>, k: Key, c: i64)
    requires ValidLog(log) && ValidRun(evs) && OffsetSafe(log, allowed, s) && Keyed(s.db.messages)
    ensures var t := Run(e, log, allowed, s, evs);
            && OffsetSafe(log, allowed, t) && Keyed(t.db.messages) && s.offset <= t.offset
            && (NoneFrom(log, allowed, k, FirstAt(log, s.offset)) ==>
                  RowFor(t.db.messages, k) == RowFor(s.db.messages, k))
            && (NoChatFrom(log, allowed, c, FirstAt(log, s.offset)) ==>
                  ChatRow(t.db.chats, c) == ChatRow(s.db.chats, c))
  {
    hide OffsetSafe, Keyed, Step, RowFor, ChatRow, LastWrites;
    if evs != [] {
      var init, last := evs[..|evs| - 1], evs[|evs| - 1];
      PassedRowsStay(e, log, allowed, s, init, k, c);
      var m := Run(e, log, allowed, s, init);
      StepAdvances(e, log, allowed, m, last);
      StepOverwrites(e, log, allowed, m, last, k, c);
      FirstAtGrows(log, s.offset, m.offset);
      if last.Turn? || last.CrashIn? {
        NothingOverwritten(log, allowed, FirstAt(log, m.offset), Handled(log, m.offset, last), last.commits, k, c,
                           RowsOf(m.db, k, c));
      }
    }
  }

  /** Any run, a turn that handles `n` updates and persists the offset, and any run after it. */
  ghost function Throughout(e: Engine, log: seq<Update>, allowed: Option<set<i64>>, s: Sys, n: nat, commits: seq<bool>,
                            later: seq<Event>): Sys
    requires ValidLog(log) && ValidRun(later) && FirstAt(log, s.offset) + n <= |log| && n <= |commits|
  {
    Run(e, log, allowed, TurnStep(e, log, allowed, s, n, commits, true), later)
  }

  /** A state some run leads to. */
  ghost predicate Reachable(e: Engine, log: seq<Update>, allowed: Option<set<i64>>, s: Sys)
    requires ValidLog(log)
  {
    exists evs :: ValidRun(evs) && s == Run(e, log, allowed, START, evs)
  }

  lemma ReachableIsSafe(e: Engine, log: seq<Update>, allowed: Option<set<i64>>, s: Sys)
    requires ValidLog(log) && Reachable(e, log, allowed, s)
    ensures OffsetSafe(log, allowed, s) && Keyed(s.db.messages)
  {
    hide OffsetSafe, Run;
    var evs :| ValidRun(evs) && s == Run(e, log, allowed, START, evs);
    RunsKeepOffsetSafe(e, log, allowed, evs);
    RunsKeepIndex(e, log, allowed, evs);
  }

  /** After the offset has passed every writer, the rows are and stay the versions that turn left. */
  lemma {:induction false} RowsAfterPassing(e: Engine, log: seq<Update>, allowed: Option<set<i64>>, s: Sys, n: nat,
                                            commits: seq<bool>, later: seq<Event>, k: Key, c: i64)
    requires ValidLog(log) && ValidRun(later) && Reachable(e, log, allowed, s)
    requires FirstAt(log, s.offset) + n <= |log| && n <= |commits|
    ensures var from := FirstAt(log, s.offset);
            var end := RowsOf(Throughout(e, log, allowed, s, n, commits, later).db, k, c);
            var left := LastWrites(log, allowed, from, n, commits, k, c, RowsOf(s.db, k, c));
            && (NoneFrom(log, allowed, k, from + n) ==> end.message == left.message)
            && (NoChatFrom(log, allowed, c, from + n) ==> end.chat == left.chat)
  {
    hide OffsetSafe, Keyed, Run, RowFor, ChatRow, LastWrites, NoneFrom, NoChatFrom;
    var t := TurnStep(e, log, allowed, s, n, commits, true);
    ReachableIsSafe(e, log, allowed, s);
    TurnAdvances(e, log, allowed, s, n, commits, true);
    TurnOverwrites(e, log, allowed, s, n, commits, k, c);
    PassedRowsStay(e, log, allowed, t, later, k, c);
  }

  lemma {:induction false} TurnOverwrites(e: Engine, log: seq<Update>, allowed: Option<set<i64>>, s: Sys, n: nat,
                                          commits: seq<bool>, k: Key, c: i64)
    requires ValidLog(log) && FirstAt(log, s.offset) + n <= |log| && n <= |commits| && Keyed(s.db.messages)
    ensures var from, t := FirstAt(log, s.offset), TurnStep(e, log, allowed, s, n, commits, true);
            && Keyed(t.db.messages) && FirstAt(log, t.offset) == from + n
            && RowsOf(t.db, k, c) == LastWrites(log, allowed, from, n, commits, k, c, RowsOf(s.db, k, c))
  {
    hide Keyed, ApplyUpdates, MaxId, LastWrites, HasKey, NextOffset;
    StretchOverwrites(e, log, allowed, s.db, FirstAt(log, s.offset), n, commits, k, c);
    OffsetAfterBatch(log, s.offset, n, true);
  }

  // -- the newest version -----------------------------------------------------------------------------

  /** From the last writer on a stretch changes nothing more. */
  lemma {:induction false} UpToLastWriter(log: seq<Update>, allowed: Option<set<i64>>, from: nat, m: nat, n: nat,
                                          commits: seq<bool>, k: Key, c: i64, rows: Rows)
    requires m <= n <= |commits|
    ensures var short := LastWrites(log, allowed, from, m, commits, k, c, rows);
            var long := LastWrites(log, allowed, from, n, commits, k, c, rows);
            && (NoneFrom(log, allowed, k, from + m) ==> long.message == short.message)
            && (NoChatFrom(log, allowed, c, from + m) ==> long.chat == short.chat)
  {
    if m < n {
      UpToLastWriter(log, allowed, from, m, n - 1, commits, k, c, rows);
    }
  }

  /**
   * Take any run, then a turn that persists the offset past the last update of a message, then any run. The table holds
   * that newest version exactly if its write succeeded in that turn, or if what the turn's earlier successful writes
   * left, and before it the table, was the newest version already.
   */
  lemma NewestMessageKeptExactlyWhen(e: Engine, log: seq<Update>, allowed: Option<set<i64>>, s: Sys, n: nat,
                                     commits: seq<bool>, later: seq<Event>, w: nat, k: Key, c: i64)
    requires ValidLog(log) && ValidRun(later) && Reachable(e, log, allowed, s)
    requires FirstAt(log, s.offset) <= w < FirstAt(log, s.offset) + n <= |log| && n <= |commits|
    requires Writes(log, allowed, w, k) && NoneFrom(log, allowed, k, w + 1)
    ensures var from, newest := FirstAt(log, s.offset), log[w].mapped.value.msg;
            RowFor(Throughout(e, log, allowed, s, n, commits, later).db.messages, k) == Some(newest) <==>
            || commits[w - from]
            || LastWrites(log, allowed, from, w - from, commits, k, c, RowsOf(s.db, k, c)).message == Some(newest)
  {
    hide Throughout, RowFor, Reachable;
    var from := FirstAt(log, s.offset);
    RowsAfterPassing(e, log, allowed, s, n, commits, later, k, c);
    UpToLastWriter(log, allowed, from, w + 1 - from, n, commits, k, c, RowsOf(s.db, k, c));
  }

  /** The row shows the columns of `c`; `first_seen` is its own. */
  predicate Shows(row: Option<ChatInfo>, c: ChatInfo) {
    row.Some? && row.value == c.(first_seen := row.value.first_seen)
  }

  /** The same for the newest state of a chat. */
  lemma NewestChatKeptExactlyWhen(e: Engine, log: seq<Update>, allowed: Option<set<i64>>, s: Sys, n: nat,
                                  commits: seq<bool>, later: seq<Event>, w: nat, k: Key, c: i64)
    requires ValidLog(log) && ValidRun(later) && Reachable(e, log, allowed, s)
    requires FirstAt(log, s.offset) <= w < FirstAt(log, s.offset) + n <= |log| && n <= |commits|
    requires WritesChat(log, allowed, w, c) && NoChatFrom(log, allowed, c, w + 1)
    ensures var from, newest := FirstAt(log, s.offset), log[w].mapped.value.chat;
            Shows(ChatRow(Throughout(e, log, allowed, s, n, commits, later).db.chats, c), newest) <==>
            || commits[w - from]
            || Shows(LastWrites(log, allowed, from, w - from, commits, k, c, RowsOf(s.db, k, c)).chat, newest)
  {
    hide Throughout, RowFor, ChatRow, Reachable;
    var from := FirstAt(log, s.offset);
    RowsAfterPassing(e, log, allowed, s, n, commits, later, k, c);
    UpToLastWriter(log, allowed, from, w + 1 - from, n, commits, k, c, RowsOf(s.db, k, c));
  }

  lemma {:induction false} SomethingWritten(log: seq<Update>, allowed: Option<set<i64>>, from: nat, n: nat,
                                            commits: seq<bool>, k: Key, c: i64, rows: Rows)
    requires n <= |commits|
    ensures LastWrites(log, allowed, from, n, commits, k, c, rows).message.Some? <==>
            || rows.message.Some?
            || exists i: nat :: from <= i < from + n && Writes(log, allowed, i, k) && commits[i - from]
  {
    if n > 0 {
      SomethingWritten(log, allowed, from, n - 1, commits, k, c, rows);
    }
  }

  /** And the table holds some version exactly if it held one before or a write of one succeeded in that turn. */
  lemma MessageLostExactlyWhen(e: Engine, log: seq<Update>, allowed: Option<set<i64>>, s: Sys, n: nat,
                               commits: seq<bool>, later: seq<Event>, k: Key, c: i64)
    requires ValidLog(log) && ValidRun(later) && Reachable(e, log, allowed, s)
    requires FirstAt(log, s.offset) + n <= |log| && n <= |commits|
    requires NoneFrom(log, allowed, k, FirstAt(log, s.offset) + n)
    ensures var from := FirstAt(log, s.offset);
            HasKey(Throughout(e, log, allowed, s, n, commits, later).db.messages, k) <==>
            || HasKey(s.db.messages, k)
            || exists i: nat :: from <= i < from + n && Writes(log, allowed, i, k) && commits[i - from]
  {
    hide Throughout, Reachable;
    RowsAfterPassing(e, log, allowed, s, n, commits, later, k, c);
    SomethingWritten(log, allowed, FirstAt(log, s.offset), n, commits, k, c, RowsOf(s.db, k, c));
  }

  // -- inputs that show it ----------------------------------------------------------------------------

  /** A message and its edit. */
  ghost predicate IsEdit(log: seq<Update>, k: Key) {
    && |log| == 2 && log[0].id == Some(0) && log[1].id == Some(1)
    && log[0].mapped.Some? && KeyOf(log[0].mapped.value.msg) == k
    && log[1].mapped.Some? && KeyOf(log[1].mapped.value.msg) == k
    && log[0].mapped.value.msg != log[1].mapped.value.msg
  }

  /**
   * An edit lost after it was stored: both writes succeed, the offset write fails, and in the replay that persists the
   * offset the write of the edit fails. The run is caught up, yet the table has the first version for good.
   */
  lemma {:induction false} EditIsReverted(e: Engine, log: seq<Update>, k: Key, later: seq<Event>)
    requires IsEdit(log, k) && ValidLog(log) && ValidRun(later)
    ensures var evs := [Turn(2, [true, true], false), Turn(2, [true, false], true)];
            ValidRun(evs)
            && var t := Run(e, log, None, START, evs);
               && FirstAt(log, t.offset) == t.reached == 2 && 1 in t.stored
               && RowFor(Run(e, log, None, t, later).db.messages, k) == Some(log[0].mapped.value.msg)
               && RowFor(InOrder(e, log, None, 2).messages, k) == Some(log[1].mapped.value.msg)
  {
    hide OffsetSafe, RowFor, BatchDb, ApplyUpdates, Reachable, MaxId, NextOffset;
    var first, second := Turn(2, [true, true], false), Turn(2, [true, false], true);
    var s, t := Run(e, log, None, START, [first]), Run(e, log, None, START, [first, second]);
    TwoEvents(e, log, None, first, second);
    FirstAtIs(log, 0, 0);
    OffsetAfterBatch(log, 0, 2, false);
    assert s == TurnStep(e, log, None, START, 2, [true, true], false);
    OffsetAfterBatch(log, 0, 2, true);
    assert t == TurnStep(e, log, None, s, 2, [true, false], true);
    assert Admitted(log[1], None) && 1 in s.stored;
    assert Reachable(e, log, None, s) by { ReachedBy(e, log, None, [first]); }
    var c := log[0].mapped.value.chat.chat_id;
    NewestAfter(e, log, s, later, k, c);
    InOrderHasEdit(e, log, k, c);
  }

  lemma InOrderHasEdit(e: Engine, log: seq<Update>, k: Key, c: i64)
    requires IsEdit(log, k)
    ensures RowFor(InOrder(e, log, None, 2).messages, k) == Some(log[1].mapped.value.msg)
  {
    hide RowFor, ApplyUpdates;
    assert log[..2] == log[0..0 + 2];
    StretchOverwrites(e, log, None, EMPTY, 0, 2, seq(2, _ => true), k, c);
  }

  lemma {:induction false} TwoEvents(e: Engine, log: seq<Update>, allowed: Option<set<i64>>, a: Event, b: Event)
    requires ValidLog(log) && ValidEvent(a) && ValidEvent(b)
    ensures Run(e, log, allowed, START, [a]) == Step(e, log, allowed, START, a)
    ensures Run(e, log, allowed, START, [a, b]) == Step(e, log, allowed, Step(e, log, allowed, START, a), b)
  {
    hide Step;
    assert [a, b][..1] == [a] && [a][..0] == [];
  }

  lemma {:induction false} ReachedBy(e: Engine, log: seq<Update>, allowed: Option<set<i64>>, evs: seq<Event>)
    requires ValidLog(log) && ValidRun(evs)
    ensures Reachable(e, log, allowed, Run(e, log, allowed, START, evs))
  {
  }

  lemma {:induction false} NewestAfter(e: Engine, log: seq<Update>, s: Sys, later: seq<Event>, k: Key, c: i64)
    requires IsEdit(log, k) && ValidLog(log) && ValidRun(later) && Reachable(e, log, None, s)
    requires FirstAt(log, s.offset) == 0
    ensures var t := TurnStep(e, log, None, s, 2, [true, false], true);
            RowFor(Run(e, log, None, t, later).db.messages, k) == Some(log[0].mapped.value.msg)
  {
    hide Reachable, RowFor;
    RowsAfterPassing(e, log, None, s, 2, [true, false], later, k, c);
    var rows := RowsOf(s.db, k, c);
    assert LastWrites(log, None, 0, 0, [true, false], k, c, rows) == rows;
    assert LastWrites(log, None, 0, 1, [true, false], k, c, rows) == Overwritten(log, None, 0, k, c, rows);
  }

  /** An update skipped: its write fails in the turn that persists the offset, and its message never appears. */
  lemma {:induction false} UpdateIsSkipped(e: Engine, log: seq<Update>, later: seq<Event>)
    requires |log| == 1 && log[0].id == Some(0) && log[0].mapped.Some? && ValidLog(log) && ValidRun(later)
    ensures var t := Run(e, log, None, START, [Turn(1, [false], true)]);
            !HasKey(Run(e, log, None, t, later).db.messages, KeyOf(log[0].mapped.value.msg))
  {
    hide HasKey, BatchDb, Reachable, MaxId, NextOffset;
    var k, c := KeyOf(log[0].mapped.value.msg), log[0].mapped.value.chat.chat_id;
    TwoEvents(e, log, None, Turn(1, [false], true), Idle);
    FirstAtIs(log, 0, 0);
    assert Run(e, log, None, START, [Turn(1, [false], true)]) == TurnStep(e, log, None, START, 1, [false], true);
    ReachedBy(e, log, None, []);
    assert !HasKey(START.db.messages, k) by { NothingStored(k); }
    MessageLostExactlyWhen(e, log, None, START, 1, [false], later, k, c);
  }

  lemma NothingStored(k: Key)
    ensures !HasKey(START.db.messages, k)
  {
  }

  /** An update replayed: it is stored, the process dies before the offset write, and the next fetch starts at it. */
  lemma {:induction false} UpdateIsReplayed(e: Engine, log: seq<Update>)
    requires |log| == 1 && log[0].id == Some(0) && log[0].mapped.Some? && ValidLog(log)
    ensures var t := Run(e, log, None, START, [CrashIn(1, 1, [true])]);
            0 in t.stored && FirstAt(log, t.offset) == 0 < t.reached
  {
    hide ApplyUpdates, OffsetSafe;
    TwoEvents(e, log, None, CrashIn(1, 1, [true]), Idle);
    FirstAtIs(log, 0, 0);
    RunsKeepOffsetSafe(e, log, None, []);
    CrashAdvances(e, log, None, START, 1, [true]);
    assert Admitted(log[0], None);
  }
}
