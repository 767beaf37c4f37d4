/** What the allow-list lets into the tables, and what becomes of every update it does. */
module AllowList {
  import opened Common
  import opened Tables
  import opened Updates
  import opened Replay
  import opened Convergence
  import opened Ledger

  /**
   * In every run nothing of a chat outside the list gets into the tables: no chat row, and every message row is that of
   * some update of the log that maps to a listed chat.
   */
  lemma {:induction false} OnlyListedChats(e: Engine, log: seq<Update>, allowed: Option<set<i64>>, evs: seq<Event>)
    requires ValidLog(log) && ValidRun(evs)
    ensures var t := Run(e, log, allowed, START, evs);
            && (allowed.Some? ==> forall c: i64 :: c in t.db.chats ==> c in allowed.value)
            && forall r :: r in t.db.messages ==>
                 exists j: nat :: && j < |log| && log[j].mapped.Some? && log[j].mapped.value.msg == t.db.messages[r]
                                  && (allowed.Some? ==> log[j].mapped.value.chat.chat_id in allowed.value)
  {
    hide Run, Backed;
    var t := Run(e, log, allowed, START, evs);
    StartBacked(log, allowed);
    RunsStayBacked(e, log, allowed, START, evs);
    forall c: i64 | allowed.Some? && c in t.db.chats ensures c in allowed.value {
      ChatIsListed(log, allowed, t.db, t.stored, c);
    }
    forall r | r in t.db.messages
      ensures exists j: nat :: && j < |log| && log[j].mapped.Some? && log[j].mapped.value.msg == t.db.messages[r]
                               && (allowed.Some? ==> log[j].mapped.value.chat.chat_id in allowed.value)
    {
      var j := RowIsListed(log, allowed, t.db, t.stored, r);
    }
  }

  lemma ChatIsListed(log: seq<Update>, allowed: Option<set<i64>>, db: Db, stored: set<nat>, c: i64)
    requires Backed(log, allowed, db, stored) && c in db.chats
    ensures allowed.Some? ==> c in allowed.value
  {
    assert ChatBacked(log, allowed, ChatRow(db.chats, c), c, stored);
  }

  lemma RowIsListed(log: seq<Update>, allowed: Option<set<i64>>, db: Db, stored: set<nat>, r: int) returns (j: nat)
    requires Backed(log, allowed, db, stored) && r in db.messages
    ensures j < |log| && log[j].mapped.Some? && log[j].mapped.value.msg == db.messages[r]
    ensures allowed.Some? ==> log[j].mapped.value.chat.chat_id in allowed.value
  {
    var k := KeyOf(db.messages[r]);
    assert HasKey(db.messages, k);
    assert RowBacked(log, allowed, RowFor(db.messages, k), k, stored);
    j :| j in stored && Writes(log, allowed, j, k) && log[j].mapped.value.msg == db.messages[r];
  }

  /** Event `i` of a run handles the update at position `j`, and its record write succeeds or not. */
  ghost predicate HandledAt(e: Engine, log: seq<Update>, allowed: Option<set<i64>>, evs: seq<Event>, i: nat, j: nat,
                            succeeds: bool)
    requires ValidLog(log) && ValidRun(evs)
  {
    && i < |evs| && (evs[i].Turn? || evs[i].CrashIn?)
    && var offset := Run(e, log, allowed, START, evs[..i]).offset;
       var from := FirstAt(log, offset);
       from <= j < from + Handled(log, offset, evs[i]) && evs[i].commits[j - from] == succeeds
  }

  lemma HandledAtPrefix(e: Engine, log: seq<Update>, allowed: Option<set<i64>>, evs: seq<Event>, n: nat, i: nat, j: nat,
                        succeeds: bool)
    requires ValidLog(log) && ValidRun(evs) && i < n <= |evs|
    ensures HandledAt(e, log, allowed, evs[..n], i, j, succeeds) <==> HandledAt(e, log, allowed, evs, i, j, succeeds)
  {
    assert evs[..n][..i] == evs[..i] && evs[..n][i] == evs[i];
  }

  /** The tables have a row for the message and one for the chat. */
  ghost predicate InRows(db: Db, m: Inbound) {
    HasKey(db.messages, KeyOf(m.msg)) && m.chat.chat_id in db.chats
  }

  /** Once a record write of a mapped update of a listed chat has succeeded, its message and its chat have rows. */
  lemma {:induction false} ListedUpdateStored(e: Engine, log: seq<Update>, allowed: Option<set<i64>>, evs: seq<Event>,
                                              i: nat, j: nat)
    requires ValidLog(log) && ValidRun(evs) && j < |log| && HandledAt(e, log, allowed, evs, i, j, true)
    requires log[j].mapped.Some? && (allowed.None? || log[j].mapped.value.chat.chat_id in allowed.value)
    ensures InRows(Run(e, log, allowed, START, evs).db, log[j].mapped.value)
  {
    hide Run, Backed, HasKey;
    StoredFrom(e, log, allowed, evs, i, j);
    StartBacked(log, allowed);
    RunsStayBacked(e, log, allowed, START, evs);
    var t := Run(e, log, allowed, START, evs);
    StoredHasRows(log, allowed, t.db, t.stored, j);
  }

  lemma {:induction false} StoredFrom(e: Engine, log: seq<Update>, allowed: Option<set<i64>>, evs: seq<Event>, i: nat,
                                      j: nat)
    requires ValidLog(log) && ValidRun(evs) && j < |log| && HandledAt(e, log, allowed, evs, i, j, true)
    requires log[j].mapped.Some? && (allowed.None? || log[j].mapped.value.chat.chat_id in allowed.value)
    ensures j in Run(e, log, allowed, START, evs).stored
  {
    hide Step, Handled;
    var n := |evs| - 1;
    var s := Run(e, log, allowed, START, evs[..n]);
    StepStores(e, log, allowed, s, evs[n], j);
    if i < n {
      HandledAtPrefix(e, log, allowed, evs, n, i, j, true);
      StoredFrom(e, log, allowed, evs[..n], i, j);
    }
  }

  lemma StepStores(e: Engine, log: seq<Update>, allowed: Option<set<i64>>, s: Sys, ev: Event, j: nat)
    requires ValidLog(log) && ValidEvent(ev) && j < |log|
    requires log[j].mapped.Some? && (allowed.None? || log[j].mapped.value.chat.chat_id in allowed.value)
    ensures var t, from := Step(e, log, allowed, s, ev), FirstAt(log, s.offset);
            && (j in s.stored ==> j in t.stored)
            && ((ev.Turn? || ev.CrashIn?) && from <= j < from + Handled(log, s.offset, ev) && ev.commits[j - from]
                ==> j in t.stored)
  {
    hide ValidLog, BatchDb, ApplyUpdates, NextOffset, LoadedOffset;
  }

  /** Every update below the offset was handled by some event. */
  lemma {:induction false} PassedWasHandled(e: Engine, log: seq<Update>, allowed: Option<set<i64>>, evs: seq<Event>,
                                            j: nat)
    requires ValidLog(log) && ValidRun(evs) && j < FirstAt(log, Run(e, log, allowed, START, evs).offset)
    ensures exists i: nat, ok: bool :: HandledAt(e, log, allowed, evs, i, j, ok)
  {
    if evs == [] {
      FirstAtIs(log, 0, 0);
    } else {
      hide Step, OffsetSafe;
      var n := |evs| - 1;
      var s := Run(e, log, allowed, START, evs[..n]);
      if j < FirstAt(log, s.offset) {
        PassedWasHandled(e, log, allowed, evs[..n], j);
        var i: nat, ok: bool :| HandledAt(e, log, allowed, evs[..n], i, j, ok);
        HandledAtPrefix(e, log, allowed, evs, n, i, j, ok);
      } else {
        RunsKeepOffsetSafe(e, log, allowed, evs[..n]);
        OffsetPassesHandled(e, log, allowed, s, evs[n]);
        var ok := evs[n].commits[j - FirstAt(log, s.offset)];
        assert HandledAt(e, log, allowed, evs, n, j, ok);
      }
    }
  }

  /** One event moves the offset past nothing it did not handle. */
  lemma OffsetPassesHandled(e: Engine, log: seq<Update>, allowed: Option<set<i64>>, s: Sys, ev: Event)
    requires ValidLog(log) && ValidEvent(ev) && OffsetSafe(log, allowed, s)
    ensures var from, to := FirstAt(log, s.offset), FirstAt(log, Step(e, log, allowed, s, ev).offset);
            to > from ==> (ev.Turn? || ev.CrashIn?) && to <= from + Handled(log, s.offset, ev)
  {
    hide ValidLog, AllSettled, BatchDb, ApplyUpdates, NextOffset, LoadedOffset;
    var n := Handled(log, s.offset, ev);
    match ev
    case Turn(_, _, persists) => OffsetAfterBatch(log, s.offset, n, persists);
    case CrashIn(_, _, commits) => CrashAdvances(e, log, allowed, s, n, commits);
    case Idle =>
    case Restart =>
  }

  /**
   * At every loop head each mapped update of a listed chat below the offset has its rows, or its record write failed
   * when it was handled.
   */
  lemma {:induction false} ListedUpdateAccountedFor(e: Engine, log: seq<Update>, allowed: Option<set<i64>>,
                                                    evs: seq<Event>, j: nat)
    requires ValidLog(log) && ValidRun(evs)
    requires j < |log| && log[j].id.value < Run(e, log, allowed, START, evs).offset
    requires log[j].mapped.Some? && (allowed.None? || log[j].mapped.value.chat.chat_id in allowed.value)
    ensures InRows(Run(e, log, allowed, START, evs).db, log[j].mapped.value)
            || exists i: nat :: HandledAt(e, log, allowed, evs, i, j, false)
  {
    hide Run, InRows, HandledAt;
    FirstAtSplits(log, Run(e, log, allowed, START, evs).offset);
    PassedWasHandled(e, log, allowed, evs, j);
    var i: nat, ok: bool :| HandledAt(e, log, allowed, evs, i, j, ok);
    if ok {
      ListedUpdateStored(e, log, allowed, evs, i, j);
    }
  }

  /** With the list {42}, of one message from chat 42 and one from chat 99 only the first is stored. */
  lemma {:induction false} ListedChatOnly(e: Engine, log: seq<Update>)
    requires |log| == 2 && log[0].id == Some(0) && log[1].id == Some(1) && ValidLog(log)
    requires log[0].mapped.Some? && log[0].mapped.value.chat.chat_id == 42
    requires log[1].mapped.Some? && log[1].mapped.value.chat.chat_id == 99
    ensures var t := Run(e, log, Some({42}), START, [Turn(2, [true, true], true)]);
            InRows(t.db, log[0].mapped.value) && 99 !in t.db.chats && t.offset == 2
  {
    hide BatchDb, ApplyUpdates, InRows, MaxId;
    var evs := [Turn(2, [true, true], true)];
    assert evs[..0] == [];
    FirstAtIs(log, 0, 0);
    OffsetAfterBatch(log, 0, 2, true);
    assert HandledAt(e, log, Some({42}), evs, 0, 0, true);
    ListedUpdateStored(e, log, Some({42}), evs, 0, 0);
    OnlyListedChats(e, log, Some({42}), evs);
  }
}
