/**
 * What the store holds after any run of the updater in which every record write commits: always the work of a recent
 * enough writer, and the result of one in-order pass over the log once the offset has caught up.
 */
module Convergence {
  import opened Common
  import opened Decimal
  import opened Tables
  import opened IndexAgreement
  import opened Updates
  import opened Replay

  ghost function RowFor(ms: Messages, k: Key): Option<StoredMessage> {
    if HasKey(ms, k) then Some(ms[RowOf(ms, k)]) else None
  }

  function ChatRow(chats: map<i64, ChatInfo>, c: i64): Option<ChatInfo> {
    if c in chats then Some(chats[c]) else None
  }

  /** Position `j` of the log writes the row of key `k`, or of chat `c`. */
  predicate Writes(log: seq<Update>, allowed: Option<set<i64>>, j: nat, k: Key) {
    j < |log| && Admitted(log[j], allowed) && KeyOf(log[j].mapped.value.msg) == k
  }

  predicate WritesChat(log: seq<Update>, allowed: Option<set<i64>>, j: nat, c: i64) {
    j < |log| && Admitted(log[j], allowed) && log[j].mapped.value.chat.chat_id == c
  }

  ghost predicate NoWriter(log: seq<Update>, allowed: Option<set<i64>>, k: Key, lo: nat, hi: nat) {
    forall j: nat :: lo <= j < hi ==> !Writes(log, allowed, j, k)
  }

  ghost predicate NoChatWriter(log: seq<Update>, allowed: Option<set<i64>>, c: i64, lo: nat, hi: nat) {
    forall j: nat :: lo <= j < hi ==> !WritesChat(log, allowed, j, c)
  }

  /** The row is that of writer `w`, which no writer before `pos` follows. */
  ghost predicate RowFrom(log: seq<Update>, allowed: Option<set<i64>>, row: StoredMessage, k: Key, pos: nat, w: nat) {
    Writes(log, allowed, w, k) && log[w].mapped.value.msg == row && NoWriter(log, allowed, k, w + 1, pos)
  }

  /** The same for a chat row, except that `first_seen` is that of the chat's first writer of all, `v`. */
  ghost predicate ChatFrom(log: seq<Update>, allowed: Option<set<i64>>, row: ChatInfo, c: i64, pos: nat, w: nat, v: nat)
  {
    && v <= w && WritesChat(log, allowed, w, c) && WritesChat(log, allowed, v, c)
    && NoChatWriter(log, allowed, c, 0, v) && NoChatWriter(log, allowed, c, w + 1, pos)
    && row == log[w].mapped.value.chat.(first_seen := log[v].mapped.value.chat.first_seen)
  }

  /**
   * The row of `k` in a run that has handled the log up to `reached` and, in its current pass, up to `pos`: written
   * by an update before `reached` and not older than the last writer before `pos`; missing only if there is none.
   */
  ghost predicate RowTraced(log: seq<Update>, allowed: Option<set<i64>>, row: Option<StoredMessage>, k: Key, pos: nat,
                            reached: nat)
  {
    if row.None? then NoWriter(log, allowed, k, 0, reached)
    else exists w: nat :: w < reached && RowFrom(log, allowed, row.value, k, pos, w)
  }

  ghost predicate ChatTraced(log: seq<Update>, allowed: Option<set<i64>>, row: Option<ChatInfo>, c: i64, pos: nat,
                             reached: nat)
  {
    if row.None? then NoChatWriter(log, allowed, c, 0, reached)
    else exists w: nat, v: nat :: w < reached && ChatFrom(log, allowed, row.value, c, pos, w, v)
  }

  ghost predicate Traced(log: seq<Update>, allowed: Option<set<i64>>, db: Db, pos: nat, reached: nat) {
    && Keyed(db.messages)
    && (forall k :: RowTraced(log, allowed, RowFor(db.messages, k), k, pos, reached))
    && (forall c: i64 :: ChatTraced(log, allowed, ChatRow(db.chats, c), c, pos, reached))
  }

  // -- one update ---------------------------------------------------------------------------

  lemma RowAfterInsert(e: Engine, db: Db, m: StoredMessage, k: Key)
    requires Keyed(db.messages)
    ensures RowFor(InsertMessage(e, db, m).messages, k) == if k == KeyOf(m) then Some(m) else RowFor(db.messages, k)
  {
    var after := InsertMessage(e, db, m).messages;
    var r := TargetRow(e, db.messages, KeyOf(m));
    if k == KeyOf(m) {
      assert r in after && KeyOf(after[r]) == k;
    } else if HasKey(db.messages, k) {
      var q := RowOf(db.messages, k);
      assert q in after && after[q] == db.messages[q];
    }
  }

  lemma RowStep(log: seq<Update>, allowed: Option<set<i64>>, row: Option<StoredMessage>, k: Key, pos: nat, reached: nat)
    requires pos < |log| && pos <= reached
    requires RowTraced(log, allowed, row, k, pos, reached)
    ensures var next := if Writes(log, allowed, pos, k) then Some(log[pos].mapped.value.msg) else row;
            RowTraced(log, allowed, next, k, pos + 1, Max(reached, pos + 1))
  {
    if Writes(log, allowed, pos, k) {
      assert RowFrom(log, allowed, log[pos].mapped.value.msg, k, pos + 1, pos);
    } else if row.Some? {
      var w: nat :| w < reached && RowFrom(log, allowed, row.value, k, pos, w);
      assert RowFrom(log, allowed, row.value, k, pos + 1, w);
    }
  }

  lemma ChatStep(log: seq<Update>, allowed: Option<set<i64>>, chats: map<i64, ChatInfo>, c: i64, pos: nat, reached: nat)
    requires pos < |log| && pos <= reached
    requires ChatTraced(log, allowed, ChatRow(chats, c), c, pos, reached)
    ensures var next := if WritesChat(log, allowed, pos, c)
                        then Some(MergedChat(chats, log[pos].mapped.value.chat)) else ChatRow(chats, c);
            ChatTraced(log, allowed, next, c, pos + 1, Max(reached, pos + 1))
  {
    if c in chats {
      var w: nat, v: nat :| w < reached && ChatFrom(log, allowed, chats[c], c, pos, w, v);
      if WritesChat(log, allowed, pos, c) {
        assert v <= pos;
        assert ChatFrom(log, allowed, MergedChat(chats, log[pos].mapped.value.chat), c, pos + 1, pos, v);
      } else {
        assert ChatFrom(log, allowed, chats[c], c, pos + 1, w, v);
      }
    } else if WritesChat(log, allowed, pos, c) {
      assert ChatFrom(log, allowed, MergedChat(chats, log[pos].mapped.value.chat), c, pos + 1, pos, pos);
    }
  }

  lemma UpdateTraced(e: Engine, log: seq<Update>, allowed: Option<set<i64>>, db: Db, pos: nat, reached: nat)
    requires pos < |log| && pos <= reached
    requires Traced(log, allowed, db, pos, reached)
    ensures Traced(log, allowed, ApplyUpdate(e, db, log[pos], allowed, true), pos + 1, Max(reached, pos + 1))
  {
    var after := ApplyUpdate(e, db, log[pos], allowed, true);
    if Admitted(log[pos], allowed) {
      InsertKeepsKeys(e, UpsertChat(db, log[pos].mapped.value.chat), log[pos].mapped.value.msg);
    }
    forall k ensures RowTraced(log, allowed, RowFor(after.messages, k), k, pos + 1, Max(reached, pos + 1)) {
      RowStep(log, allowed, RowFor(db.messages, k), k, pos, reached);
      if Admitted(log[pos], allowed) {
        RowAfterInsert(e, UpsertChat(db, log[pos].mapped.value.chat), log[pos].mapped.value.msg, k);
      }
    }
    forall c: i64 ensures ChatTraced(log, allowed, ChatRow(after.chats, c), c, pos + 1, Max(reached, pos + 1)) {
      ChatStep(log, allowed, db.chats, c, pos, reached);
    }
  }

  // -- runs ---------------------------------------------------------------------------------

  /** Going back to an earlier position of the log only weakens what is known. */
  lemma Rewind(log: seq<Update>, allowed: Option<set<i64>>, db: Db, other: Db, pos: nat, reached: nat, to: nat)
    requires Traced(log, allowed, db, pos, reached)
    requires other.messages == db.messages && other.chats == db.chats && to <= pos
    ensures Traced(log, allowed, other, to, reached)
  {
    forall k ensures RowTraced(log, allowed, RowFor(other.messages, k), k, to, reached) {
      var row := RowFor(db.messages, k);
      assert RowTraced(log, allowed, row, k, pos, reached);
      if row.Some? {
        var w: nat :| w < reached && RowFrom(log, allowed, row.value, k, pos, w);
        assert RowFrom(log, allowed, row.value, k, to, w);
      }
    }
    forall c: i64 ensures ChatTraced(log, allowed, ChatRow(other.chats, c), c, to, reached) {
      var row := ChatRow(db.chats, c);
      assert ChatTraced(log, allowed, row, c, pos, reached);
      if row.Some? {
        var w: nat, v: nat :| w < reached && ChatFrom(log, allowed, row.value, c, pos, w, v);
        assert ChatFrom(log, allowed, row.value, c, to, w, v);
      }
    }
  }

  ghost predicate AllTrue(commits: seq<bool>) {
    forall i :: 0 <= i < |commits| ==> commits[i]
  }

  lemma {:induction false} StretchTraced(e: Engine, log: seq<Update>, allowed: Option<set<i64>>, db: Db, from: nat,
                                         n: nat, commits: seq<bool>, reached: nat)
    requires from + n <= |log| && n <= |commits| && AllTrue(commits) && from <= reached
    requires Traced(log, allowed, db, from, reached)
    ensures Traced(log, allowed, ApplyUpdates(e, db, log[from..from + n], allowed, commits), from + n,
                   Max(reached, from + n))
  {
    var us := log[from..from + n];
    if n == 0 {
      assert us == [];
    } else {
      StretchTraced(e, log, allowed, db, from, n - 1, commits, reached);
      assert us[..n - 1] == log[from..from + (n - 1)];
      UpdateTraced(e, log, allowed, ApplyUpdates(e, db, us[..n - 1], allowed, commits), from + n - 1,
                   Max(reached, from + n - 1));
    }
  }

  /** No record write fails. */
  ghost predicate Commits(ev: Event) {
    (ev.Turn? ==> AllTrue(ev.commits)) && (ev.CrashIn? ==> AllTrue(ev.commits))
  }

  ghost predicate NoRefusals(evs: seq<Event>) {
    forall i :: 0 <= i < |evs| ==> Commits(evs[i])
  }

  /** The same, for the state a pass over `n` updates ends in. */
  lemma PassTraced(e: Engine, log: seq<Update>, allowed: Option<set<i64>>, s: Sys, n: nat, commits: seq<bool>, t: Sys)
    requires ValidLog(log) && AllTrue(commits)
    requires FirstAt(log, s.offset) + n <= |log| && n <= |commits| && FirstAt(log, s.offset) <= s.reached
    requires Traced(log, allowed, s.db, FirstAt(log, s.offset), s.reached)
    requires var from := FirstAt(log, s.offset);
             var db := ApplyUpdates(e, s.db, log[from..from + n], allowed, commits);
             && t.db.messages == db.messages && t.db.chats == db.chats
             && t.reached == Max(s.reached, from + n) && FirstAt(log, t.offset) <= from + n
    ensures Traced(log, allowed, t.db, FirstAt(log, t.offset), t.reached)
  {
    var from := FirstAt(log, s.offset);
    var db := ApplyUpdates(e, s.db, log[from..from + n], allowed, commits);
    StretchTraced(e, log, allowed, s.db, from, n, commits, s.reached);
    Rewind(log, allowed, db, t.db, from + n, t.reached, FirstAt(log, t.offset));
  }

  lemma {:induction false} TurnEnds(e: Engine, log: seq<Update>, allowed: Option<set<i64>>, s: Sys, n: nat,
                                    commits: seq<bool>, persists: bool)
    requires ValidLog(log)
    requires FirstAt(log, s.offset) + n <= |log| && n <= |commits|
    ensures var from := FirstAt(log, s.offset);
            var t := TurnStep(e, log, allowed, s, n, commits, persists);
            var db := ApplyUpdates(e, s.db, log[from..from + n], allowed, commits);
            && t.db.messages == db.messages && t.db.chats == db.chats
            && t.reached == Max(s.reached, from + n) && FirstAt(log, t.offset) <= from + n
  {
    hide ValidLog, ApplyUpdates, BatchDb, MaxId, NextOffset, Admitted;
    BatchRows(e, s.db, log[FirstAt(log, s.offset)..FirstAt(log, s.offset) + n], allowed, commits, persists);
    OffsetAfterBatch(log, s.offset, n, persists);
  }

  lemma {:induction false} BatchRows(e: Engine, db: Db, us: seq<Update>, allowed: Option<set<i64>>,
                                     commits: seq<bool>, persists: bool)
    requires |us| <= |commits|
    ensures var t := BatchDb(e, db, us, allowed, commits, persists);
            t.messages == ApplyUpdates(e, db, us, allowed, commits).messages
            && t.chats == ApplyUpdates(e, db, us, allowed, commits).chats
  {
    hide ApplyUpdates, MaxId;
  }

  lemma TurnTraced(e: Engine, log: seq<Update>, allowed: Option<set<i64>>, s: Sys, n: nat, commits: seq<bool>,
                   persists: bool)
    requires ValidLog(log) && AllTrue(commits)
    requires FirstAt(log, s.offset) + n <= |log| && n <= |commits| && FirstAt(log, s.offset) <= s.reached
    requires Traced(log, allowed, s.db, FirstAt(log, s.offset), s.reached)
    ensures var t := TurnStep(e, log, allowed, s, n, commits, persists);
            Traced(log, allowed, t.db, FirstAt(log, t.offset), t.reached)
  {
    TurnEnds(e, log, allowed, s, n, commits, persists);
    PassTraced(e, log, allowed, s, n, commits, TurnStep(e, log, allowed, s, n, commits, persists));
  }

  lemma CrashTraced(e: Engine, log: seq<Update>, allowed: Option<set<i64>>, s: Sys, n: nat, commits: seq<bool>)
    requires ValidLog(log) && AllTrue(commits) && OffsetSafe(log, allowed, s)
    requires FirstAt(log, s.offset) + n <= |log| && n <= |commits|
    requires Traced(log, allowed, s.db, FirstAt(log, s.offset), s.reached)
    ensures var t := CrashStep(e, log, allowed, s, n, commits);
            Traced(log, allowed, t.db, FirstAt(log, t.offset), t.reached)
  {
    CrashAdvances(e, log, allowed, s, n, commits);
    PassTraced(e, log, allowed, s, n, commits, CrashStep(e, log, allowed, s, n, commits));
  }

  lemma StepTraced(e: Engine, log: seq<Update>, allowed: Option<set<i64>>, s: Sys, ev: Event)
    requires ValidLog(log) && ValidEvent(ev) && Commits(ev) && OffsetSafe(log, allowed, s)
    requires Traced(log, allowed, s.db, FirstAt(log, s.offset), s.reached)
    ensures var t := Step(e, log, allowed, s, ev); Traced(log, allowed, t.db, FirstAt(log, t.offset), t.reached)
  {
    var n := Handled(log, s.offset, ev);
    var t := Step(e, log, allowed, s, ev);
    match ev
    case Turn(_, commits, persists) =>
      assert t == TurnStep(e, log, allowed, s, n, commits, persists);
      TurnTraced(e, log, allowed, s, n, commits, persists);
    case CrashIn(_, _, commits) =>
      assert t == CrashStep(e, log, allowed, s, n, commits);
      CrashTraced(e, log, allowed, s, n, commits);
    case Idle => assert t == s;
    case Restart => assert t == s;
  }

  /**
   * When no record write fails, each row of every run comes from between its last committed writer and the furthest
   * update handled.
   */
  lemma {:induction false} RunsStayTraced(e: Engine, log: seq<Update>, allowed: Option<set<i64>>, evs: seq<Event>)
    requires ValidLog(log) && ValidRun(evs) && NoRefusals(evs)
    ensures var s := Run(e, log, allowed, START, evs); Traced(log, allowed, s.db, FirstAt(log, s.offset), s.reached)
  {
    if evs == [] {
      EmptyTraced(log, allowed);
      FirstAtIs(log, 0, 0);
    } else {
      var n := |evs| - 1;
      RunsStayTraced(e, log, allowed, evs[..n]);
      RunsKeepOffsetSafe(e, log, allowed, evs[..n]);
      StepTraced(e, log, allowed, Run(e, log, allowed, START, evs[..n]), evs[n]);
    }
  }

  lemma EmptyTraced(log: seq<Update>, allowed: Option<set<i64>>)
    ensures Traced(log, allowed, EMPTY, 0, 0)
  {
  }

  // -- catching up ----------------------------------------------------------------------------

  /** The store one in-order pass over the first `n` updates leaves. */
  ghost function InOrder(e: Engine, log: seq<Update>, allowed: Option<set<i64>>, n: nat): Db
    requires n <= |log|
  {
    ApplyUpdates(e, EMPTY, log[..n], allowed, seq(n, _ => true))
  }

  ghost predicate SameContents(a: Db, b: Db) {
    a.chats == b.chats && forall k :: RowFor(a.messages, k) == RowFor(b.messages, k)
  }

  /** When the pass has caught up with the furthest update, the trace leaves no choice. */
  lemma CaughtUpIsUnique(log: seq<Update>, allowed: Option<set<i64>>, a: Db, b: Db, n: nat)
    requires Traced(log, allowed, a, n, n) && Traced(log, allowed, b, n, n)
    ensures SameContents(a, b)
  {
    forall k ensures RowFor(a.messages, k) == RowFor(b.messages, k) {
      LastWriterUnique(log, allowed, RowFor(a.messages, k), RowFor(b.messages, k), k, n);
    }
    forall c: i64 ensures ChatRow(a.chats, c) == ChatRow(b.chats, c) {
      LastChatWriterUnique(log, allowed, ChatRow(a.chats, c), ChatRow(b.chats, c), c, n);
    }
    assert forall c: i64 :: c in a.chats <==> ChatRow(a.chats, c).Some?;
    assert forall c: i64 :: c in b.chats <==> ChatRow(b.chats, c).Some?;
  }

  lemma LastWriterUnique(log: seq<Update>, allowed: Option<set<i64>>, a: Option<StoredMessage>,
                         b: Option<StoredMessage>, k: Key, n: nat)
    requires RowTraced(log, allowed, a, k, n, n) && RowTraced(log, allowed, b, k, n, n)
    ensures a == b
  {
    if a.Some? && b.Some? {
      var w: nat :| w < n && RowFrom(log, allowed, a.value, k, n, w);
      var x: nat :| x < n && RowFrom(log, allowed, b.value, k, n, x);
      assert w == x;
    }
  }

  lemma LastChatWriterUnique(log: seq<Update>, allowed: Option<set<i64>>, a: Option<ChatInfo>, b: Option<ChatInfo>,
                             c: i64, n: nat)
    requires ChatTraced(log, allowed, a, c, n, n) && ChatTraced(log, allowed, b, c, n, n)
    ensures a == b
  {
    if a.Some? && b.Some? {
      var w: nat, v: nat :| w < n && ChatFrom(log, allowed, a.value, c, n, w, v);
      var x: nat, y: nat :| x < n && ChatFrom(log, allowed, b.value, c, n, x, y);
      assert w == x && v == y;
    }
  }

  lemma InOrderTraced(e: Engine, log: seq<Update>, allowed: Option<set<i64>>, n: nat)
    requires n <= |log|
    ensures Traced(log, allowed, InOrder(e, log, allowed, n), n, n)
  {
    EmptyTraced(log, allowed);
    StretchTraced(e, log, allowed, EMPTY, 0, n, seq(n, _ => true), 0);
    assert log[0..0 + n] == log[..n];
  }

  /**
   * When no record write fails, crashes, partial batches, failed offset writes and re-fetches of any size leave no
   * mark: once the persisted offset is past the furthest update ever handled, messages and chats are those of one
   * in-order pass. Module `Versions` says what failed writes leave.
   */
  lemma {:induction false} ReplayConverges(e: Engine, log: seq<Update>, allowed: Option<set<i64>>, evs: seq<Event>)
    requires ValidLog(log) && ValidRun(evs) && NoRefusals(evs)
    requires var s := Run(e, log, allowed, START, evs);
             s.reached > 0 ==> s.reached <= |log| && log[s.reached - 1].id.value < s.offset
    ensures var s := Run(e, log, allowed, START, evs);
            s.reached <= |log| && SameContents(s.db, InOrder(e, log, allowed, s.reached))
  {
    var s := Run(e, log, allowed, START, evs);
    RunsStayTraced(e, log, allowed, evs);
    RunsKeepOffsetSafe(e, log, allowed, evs);
    var from := FirstAt(log, s.offset);
    FirstAtSplits(log, s.offset);
    assert from == s.reached;
    InOrderTraced(e, log, allowed, s.reached);
    CaughtUpIsUnique(log, allowed, s.db, InOrder(e, log, allowed, s.reached), s.reached);
  }

  /** In every run, failed writes included, the search index agrees with the table. */
  lemma {:induction false} RunsKeepIndex(e: Engine, log: seq<Update>, allowed: Option<set<i64>>, evs: seq<Event>)
    requires ValidLog(log) && ValidRun(evs)
    ensures Sound(e, Run(e, log, allowed, START, evs).db)
  {
    if evs == [] {
      RunsStaySound(e, []);
    } else {
      var n := |evs| - 1;
      var s := Run(e, log, allowed, START, evs[..n]);
      RunsKeepIndex(e, log, allowed, evs[..n]);
      StepKeepsIndex(e, log, allowed, s, evs[n]);
    }
  }

  lemma {:induction false} UpdatesKeepIndex(e: Engine, db: Db, us: seq<Update>, allowed: Option<set<i64>>,
                                            commits: seq<bool>)
    requires |us| <= |commits| && Sound(e, db)
    ensures Sound(e, ApplyUpdates(e, db, us, allowed, commits))
  {
    if us != [] {
      var n := |us| - 1;
      var before := ApplyUpdates(e, db, us[..n], allowed, commits);
      UpdatesKeepIndex(e, db, us[..n], allowed, commits);
      if Admitted(us[n], allowed) {
        ApplyKeepsSound(e, before, Record(us[n].mapped.value.chat, us[n].mapped.value.msg));
      }
    }
  }

  lemma StepKeepsIndex(e: Engine, log: seq<Update>, allowed: Option<set<i64>>, s: Sys, ev: Event)
    requires ValidLog(log) && ValidEvent(ev) && Sound(e, s.db)
    ensures Sound(e, Step(e, log, allowed, s, ev).db)
  {
    hide Sound, ValidLog, TurnStep, CrashStep;
    var n := Handled(log, s.offset, ev);
    match ev
    case Turn(_, commits, persists) => TurnKeepsIndex(e, log, allowed, s, n, commits, persists);
    case CrashIn(_, _, commits) => CrashKeepsIndex(e, log, allowed, s, n, commits);
    case Idle =>
    case Restart =>
  }

  lemma TurnKeepsIndex(e: Engine, log: seq<Update>, allowed: Option<set<i64>>, s: Sys, n: nat, commits: seq<bool>,
                       persists: bool)
    requires ValidLog(log) && FirstAt(log, s.offset) + n <= |log| && n <= |commits| && Sound(e, s.db)
    ensures Sound(e, TurnStep(e, log, allowed, s, n, commits, persists).db)
  {
    hide Sound, ValidLog, ApplyUpdates, MaxId;
    var batch := log[FirstAt(log, s.offset)..FirstAt(log, s.offset) + n];
    UpdatesKeepIndex(e, s.db, batch, allowed, commits);
    OffsetWriteKeepsIndex(e, ApplyUpdates(e, s.db, batch, allowed, commits), MaxId(batch));
  }

  lemma CrashKeepsIndex(e: Engine, log: seq<Update>, allowed: Option<set<i64>>, s: Sys, n: nat, commits: seq<bool>)
    requires ValidLog(log) && FirstAt(log, s.offset) + n <= |log| && n <= |commits| && Sound(e, s.db)
    ensures Sound(e, CrashStep(e, log, allowed, s, n, commits).db)
  {
    hide Sound, ValidLog, ApplyUpdates;
    UpdatesKeepIndex(e, s.db, log[FirstAt(log, s.offset)..FirstAt(log, s.offset) + n], allowed, commits);
  }

  lemma OffsetWriteKeepsIndex(e: Engine, db: Db, m: Option<i64>)
    requires Sound(e, db)
    ensures m.Some? ==> Sound(e, KvPut(db, OFFSET_KEY, Show(Successor(m.value))))
  {
    if m.Some? {
      ApplyKeepsSound(e, db, Put(OFFSET_KEY, Show(Successor(m.value))));
    }
  }
}
