/** What the tables hold when record writes may fail: the rows of the updates whose write succeeded, and no others. */
module Ledger {
  import opened Common
  import opened Tables
  import opened IndexAgreement
  import opened Updates
  import opened Replay
  import opened Convergence

  /** The row of `k` is that of some stored writer; it is missing only if there is none. */
  ghost predicate RowBacked(log: seq<Update>, allowed: Option<set<i64>>, row: Option<StoredMessage>, k: Key,
                            stored: set<nat>) {
    if row.None? then forall j :: j in stored ==> !Writes(log, allowed, j, k)
    else exists j :: j in stored && Writes(log, allowed, j, k) && log[j].mapped.value.msg == row.value
  }

  /** The same for a chat row, whose `first_seen` is that of a stored writer too. */
  ghost predicate ChatBacked(log: seq<Update>, allowed: Option<set<i64>>, row: Option<ChatInfo>, c: i64,
                             stored: set<nat>) {
    if row.None? then forall j :: j in stored ==> !WritesChat(log, allowed, j, c)
    else exists w, v :: && w in stored && v in stored
                        && WritesChat(log, allowed, w, c) && WritesChat(log, allowed, v, c)
                        && row.value == log[w].mapped.value.chat.(first_seen := log[v].mapped.value.chat.first_seen)
  }

  /** The tables are the work of the updates in `stored`: these have their rows, and no row comes from elsewhere. */
  ghost predicate Backed(log: seq<Update>, allowed: Option<set<i64>>, db: Db, stored: set<nat>) {
    && Keyed(db.messages)
    && (forall k :: RowBacked(log, allowed, RowFor(db.messages, k), k, stored))
    && (forall c: i64 :: ChatBacked(log, allowed, ChatRow(db.chats, c), c, stored))
  }

  lemma RowStaysBacked(log: seq<Update>, allowed: Option<set<i64>>, row: Option<StoredMessage>, k: Key,
                       stored: set<nat>, pos: nat)
    requires pos < |log| && RowBacked(log, allowed, row, k, stored)
    ensures var next := if Writes(log, allowed, pos, k) then Some(log[pos].mapped.value.msg) else row;
            RowBacked(log, allowed, next, k, stored + {pos})
  {
    if row.Some? {
      var j :| j in stored && Writes(log, allowed, j, k) && log[j].mapped.value.msg == row.value;
      assert j in stored + {pos};
    }
    assert pos in stored + {pos};
  }

  lemma ChatStaysBacked(log: seq<Update>, allowed: Option<set<i64>>, chats: map<i64, ChatInfo>, c: i64,
                        stored: set<nat>, pos: nat)
    requires pos < |log| && ChatBacked(log, allowed, ChatRow(chats, c), c, stored)
    ensures var next := if WritesChat(log, allowed, pos, c)
                        then Some(MergedChat(chats, log[pos].mapped.value.chat)) else ChatRow(chats, c);
            ChatBacked(log, allowed, next, c, stored + {pos})
  {
    assert pos in stored + {pos};
    if c in chats {
      var w, v :| && w in stored && v in stored && WritesChat(log, allowed, w, c) && WritesChat(log, allowed, v, c)
                  && chats[c] == log[w].mapped.value.chat.(first_seen := log[v].mapped.value.chat.first_seen);
      assert w in stored + {pos} && v in stored + {pos};
    }
  }

  /** One update whose write succeeds joins the ledger. */
  lemma UpdateBacked(e: Engine, log: seq<Update>, allowed: Option<set<i64>>, db: Db, stored: set<nat>, pos: nat)
    requires pos < |log| && Admitted(log[pos], allowed) && Backed(log, allowed, db, stored)
    ensures Backed(log, allowed, ApplyUpdate(e, db, log[pos], allowed, true), stored + {pos})
  {
    hide RowBacked, ChatBacked;
    var chat, msg := log[pos].mapped.value.chat, log[pos].mapped.value.msg;
    var after := ApplyUpdate(e, db, log[pos], allowed, true);
    InsertKeepsKeys(e, UpsertChat(db, chat), msg);
    forall k ensures RowBacked(log, allowed, RowFor(after.messages, k), k, stored + {pos}) {
      RowStaysBacked(log, allowed, RowFor(db.messages, k), k, stored, pos);
      RowAfterInsert(e, UpsertChat(db, chat), msg, k);
    }
    forall c: i64 ensures ChatBacked(log, allowed, ChatRow(after.chats, c), c, stored + {pos}) {
      ChatStaysBacked(log, allowed, db.chats, c, stored, pos);
    }
  }

  ghost function Committed(log: seq<Update>, allowed: Option<set<i64>>, from: nat, n: nat, commits: seq<bool>): set<nat>
    requires from + n <= |log| && n <= |commits|
  {
    set j: nat | from <= j < from + n && Admitted(log[j], allowed) && commits[j - from]
  }

  lemma NoneCommitted(log: seq<Update>, allowed: Option<set<i64>>, from: nat, commits: seq<bool>)
    requires from <= |log|
    ensures Committed(log, allowed, from, 0, commits) == {}
  {
  }

  lemma CommittedNext(log: seq<Update>, allowed: Option<set<i64>>, from: nat, n: nat, commits: seq<bool>)
    requires 0 < n && from + n <= |log| && n <= |commits|
    ensures Committed(log, allowed, from, n, commits) ==
            Committed(log, allowed, from, n - 1, commits)
            + if Admitted(log[from + n - 1], allowed) && commits[n - 1] then {from + n - 1} else {}
  {
    hide Admitted;
  }

  lemma {:induction false} StretchBacked(e: Engine, log: seq<Update>, allowed: Option<set<i64>>, db: Db,
                                         stored: set<nat>, from: nat, n: nat, commits: seq<bool>)
    requires from + n <= |log| && n <= |commits| && Backed(log, allowed, db, stored)
    ensures Backed(log, allowed, ApplyUpdates(e, db, log[from..from + n], allowed, commits),
                   stored + Committed(log, allowed, from, n, commits))
  {
    hide Backed, Committed, Admitted, RecordInbound;
    var us := log[from..from + n];
    if n == 0 {
      NoneCommitted(log, allowed, from, commits);
      assert us == [] && stored + {} == stored;
    } else {
      var pos := from + n - 1;
      var before := Committed(log, allowed, from, n - 1, commits);
      StretchBacked(e, log, allowed, db, stored, from, n - 1, commits);
      assert us[..n - 1] == log[from..from + (n - 1)];
      CommittedNext(log, allowed, from, n, commits);
      if Admitted(log[pos], allowed) && commits[n - 1] {
        UpdateBacked(e, log, allowed, ApplyUpdates(e, db, us[..n - 1], allowed, commits), stored + before, pos);
        assert stored + (before + {pos}) == stored + before + {pos};
      } else {
        assert before + {} == before;
      }
    }
  }

  lemma StepBacked(e: Engine, log: seq<Update>, allowed: Option<set<i64>>, s: Sys, ev: Event)
    requires ValidLog(log) && ValidEvent(ev) && Backed(log, allowed, s.db, s.stored)
    ensures var t := Step(e, log, allowed, s, ev); Backed(log, allowed, t.db, t.stored)
  {
    hide RowBacked, ChatBacked, ApplyUpdates, MaxId;
    var from, n := FirstAt(log, s.offset), Handled(log, s.offset, ev);
    if ev.Turn? || ev.CrashIn? {
      StretchBacked(e, log, allowed, s.db, s.stored, from, n, ev.commits);
    }
  }

  /**
   * In every run, failed writes included, each update whose write ever succeeded has a row for its message and its
   * chat, and every row is that of some such update; module `Versions` says of which.
   */
  lemma {:induction false} RunsStayBacked(e: Engine, log: seq<Update>, allowed: Option<set<i64>>, s: Sys,
                                          evs: seq<Event>)
    requires ValidLog(log) && ValidRun(evs) && Backed(log, allowed, s.db, s.stored)
    ensures var t := Run(e, log, allowed, s, evs); Backed(log, allowed, t.db, t.stored)
  {
    hide Backed;
    if evs != [] {
      var n := |evs| - 1;
      RunsStayBacked(e, log, allowed, s, evs[..n]);
      StepBacked(e, log, allowed, Run(e, log, allowed, s, evs[..n]), evs[n]);
    }
  }

  lemma StartBacked(log: seq<Update>, allowed: Option<set<i64>>)
    ensures Backed(log, allowed, START.db, START.stored)
  {
  }

  /**
   * At every point of every run, an update below the offset has nothing to store, had its write fail, or has a row
   * under its key and one for its chat.
   */
  lemma {:induction false} PassedIsAccountedFor(e: Engine, log: seq<Update>, allowed: Option<set<i64>>,
                                                evs: seq<Event>, j: nat)
    requires ValidLog(log) && ValidRun(evs)
    requires j < |log| && log[j].id.value < Run(e, log, allowed, START, evs).offset
    ensures var t := Run(e, log, allowed, START, evs);
            || !Admitted(log[j], allowed) || j in t.refused
            || (HasKey(t.db.messages, KeyOf(log[j].mapped.value.msg)) && log[j].mapped.value.chat.chat_id in t.db.chats)
  {
    var t := Run(e, log, allowed, START, evs);
    hide Run, RowBacked, ChatBacked, HasKey;
    RunsKeepOffsetSafe(e, log, allowed, evs);
    StartBacked(log, allowed);
    RunsStayBacked(e, log, allowed, START, evs);
    FirstAtSplits(log, t.offset);
    assert Settled(log, allowed, t, j);
    if Admitted(log[j], allowed) && j in t.stored {
      StoredHasRows(log, allowed, t.db, t.stored, j);
    }
  }

  lemma StoredHasRows(log: seq<Update>, allowed: Option<set<i64>>, db: Db, stored: set<nat>, j: nat)
    requires Backed(log, allowed, db, stored) && j in stored && j < |log| && Admitted(log[j], allowed)
    ensures HasKey(db.messages, KeyOf(log[j].mapped.value.msg)) && log[j].mapped.value.chat.chat_id in db.chats
  {
    var m := log[j].mapped.value;
    assert RowBacked(log, allowed, RowFor(db.messages, KeyOf(m.msg)), KeyOf(m.msg), stored);
    assert ChatBacked(log, allowed, ChatRow(db.chats, m.chat.chat_id), m.chat.chat_id, stored);
  }
}
