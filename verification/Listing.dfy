/** How the unread counts of `list_chats` move from one operation to the next. */
module Listing {
  import opened Common
  import opened Tables
  import opened IndexAgreement
  import opened Unread
  import opened History

  /** After the run `list_chats` may say that `chat` has `n` unread messages. */
  ghost predicate Reports(e: Engine, ops: seq<Op>, chat: int, n: nat) {
    exists b, out, i: nat :: ReportsAt(RunOps(e, EMPTY, ops), b, out, i, chat, n)
  }

  ghost predicate ReportsAt(db: Db, b: map<int, int>, out: seq<ChatSummary>, i: nat, chat: int, n: nat) {
    && CollectedFrom(db.kv, db.kv.Keys, b) && AreSummaries(db.messages, db.chats, b, out)
    && i < |out| && out[i].info.chat_id == chat && out[i].unread_count == n
  }

  ghost predicate Counts(m: StoredMessage, chat: int, mark: int) {
    m.chat_id == chat && m.direction == In && m.message_id > mark
  }

  ghost function Counted(ms: Messages, chat: int, mark: int): set<int> {
    set r | r in ms && Counts(ms[r], chat, mark)
  }

  /** What is reported is the number of inbound messages above the last mark. */
  lemma {:induction false} ReportedCount(e: Engine, ops: seq<Op>, chat: i64, n: nat)
    requires OnlyMarks(ops, chat) && Reports(e, ops, chat, n)
    ensures n == |Counted(RunOps(e, EMPTY, ops).messages, chat, LastMarked(ops, chat))|
  {
    hide RunOps, AreSummaries, CollectedFrom, Undisturbed, OnlyMarks, LastMarked;
    var db := RunOps(e, EMPTY, ops);
    var b, out, i: nat :| ReportsAt(db, b, out, i, chat, n);
    MarksAreUndisturbed(ops, chat);
    ListedUnreadIsSinceLastMark(e, ops, db, b, out, i);
    SpelledOut(db.messages, chat, LastMarked(ops, chat));
  }

  lemma SpelledOut(ms: Messages, chat: int, mark: int)
    ensures Counted(ms, chat, mark) ==
            set r | r in ms && ms[r].chat_id == chat && ms[r].direction == In && ms[r].message_id > mark
  {
    var spelled := set r | r in ms && ms[r].chat_id == chat && ms[r].direction == In && ms[r].message_id > mark;
    forall r ensures r in Counted(ms, chat, mark) <==> r in spelled {
      assert r in Counted(ms, chat, mark) <==> r in ms && Counts(ms[r], chat, mark);
    }
  }

  lemma {:induction false} OneMoreOp(e: Engine, ops: seq<Op>, op: Op, chat: int)
    ensures RunOps(e, EMPTY, ops + [op]) == Apply(e, RunOps(e, EMPTY, ops), op)
    ensures LastMarked(ops + [op], chat) == if op.Mark? && op.chat == chat then op.up_to else LastMarked(ops, chat)
    ensures OnlyMarks(ops + [op], chat) ==> OnlyMarks(ops, chat)
  {
    hide Apply, Names;
    var all := ops + [op];
    assert all[..|all| - 1] == ops;
    assert forall i :: 0 <= i < |ops| ==> all[i] == ops[i];
  }

  lemma WriteMovesCount(ms: Messages, r: int, m: StoredMessage, chat: int, mark: int)
    ensures |Counted(ms[r := m], chat, mark)| ==
            |Counted(ms, chat, mark)|
            - (if r in ms && Counts(ms[r], chat, mark) then 1 else 0) + (if Counts(m, chat, mark) then 1 else 0)
  {
    hide Counts;
    var before, after := Counted(ms, chat, mark), Counted(ms[r := m], chat, mark);
    assert before - {r} == after - {r};
    assert r in before <==> r in ms && Counts(ms[r], chat, mark);
    assert r in after <==> Counts(m, chat, mark);
    WithoutOne(before, r);
    WithoutOne(after, r);
  }

  lemma WithoutOne(s: set<int>, r: int)
    ensures |s| == |s - {r}| + if r in s then 1 else 0
  {
    if r in s {
      assert s == (s - {r}) + {r};
    } else {
      assert s == s - {r};
    }
  }

  /**
   * Writing a message moves a chat's count by what the message adds and what the version it replaces took away: a new
   * inbound message of the chat above its mark adds one; one sent, one at or below the mark, and one of another chat
   * add nothing.
   */
  lemma {:induction false} WrittenMessageCounts(e: Engine, ops: seq<Op>, op: Op, m: StoredMessage, chat: i64, x: nat,
                                                y: nat)
    requires OnlyMarks(ops, chat) && (op == Insert(m) || (op.Record? && op.m == m))
    requires Reports(e, ops, chat, x) && Reports(e, ops + [op], chat, y)
    ensures var ms, mark := RunOps(e, EMPTY, ops).messages, LastMarked(ops, chat);
            var adds := m.chat_id == chat && m.direction == In && m.message_id > mark;
            var takes := exists r :: && r in ms && ms[r].chat_id == m.chat_id && ms[r].message_id == m.message_id
                                     && ms[r].chat_id == chat && ms[r].direction == In && ms[r].message_id > mark;
            y == x + (if adds then 1 else 0) - (if takes then 1 else 0)
  {
    hide RunOps, Reports, LastMarked, Keyed;
    var db := RunOps(e, EMPTY, ops);
    OneMoreOp(e, ops, op, chat);
    assert OnlyMarks(ops + [op], chat) by { NoPutAdded(ops, op, chat); }
    ReportedCount(e, ops, chat, x);
    ReportedCount(e, ops + [op], chat, y);
    var r := TargetRow(e, db.messages, KeyOf(m));
    assert RunOps(e, EMPTY, ops + [op]).messages == db.messages[r := m];
    WriteMovesCount(db.messages, r, m, chat, LastMarked(ops, chat));
    RunsStaySound(e, ops);
    TargetIsReplaced(e, db.messages, m);
  }

  lemma NoPutAdded(ops: seq<Op>, op: Op, chat: int)
    requires OnlyMarks(ops, chat) && !op.Put?
    ensures OnlyMarks(ops + [op], chat)
  {
  }

  /** The row an upsert writes to is the row with the message's key, if there is one. */
  lemma TargetIsReplaced(e: Engine, ms: Messages, m: StoredMessage)
    requires Keyed(ms)
    ensures var r := TargetRow(e, ms, KeyOf(m));
            forall q :: q in ms && ms[q].chat_id == m.chat_id && ms[q].message_id == m.message_id <==> q in ms && q == r
  {
    var r := TargetRow(e, ms, KeyOf(m));
    if r in ms {
      assert HasKey(ms, KeyOf(m));
    }
    forall q | q in ms && ms[q].chat_id == m.chat_id && ms[q].message_id == m.message_id ensures q == r {
      assert KeyOf(ms[q]) == KeyOf(m) && HasKey(ms, KeyOf(m));
    }
  }

  /** Marking a chat read up to its highest id leaves it nothing unread; other chats keep their count. */
  lemma {:induction false} MarkingReads(e: Engine, ops: seq<Op>, marked: i64, up_to: i64, chat: i64, x: nat, y: nat)
    requires OnlyMarks(ops, chat)
    requires Reports(e, ops, chat, x) && Reports(e, ops + [Mark(marked, up_to)], chat, y)
    ensures var ms := RunOps(e, EMPTY, ops).messages;
            if chat != marked then y == x
            else (forall r :: r in ms && ms[r].chat_id == chat ==> ms[r].message_id <= up_to) ==> y == 0
  {
    hide RunOps, Reports, LastMarked;
    var db, op := RunOps(e, EMPTY, ops), Mark(marked, up_to);
    OneMoreOp(e, ops, op, chat);
    assert OnlyMarks(ops + [op], chat) by { NoPutAdded(ops, op, chat); }
    ReportedCount(e, ops, chat, x);
    ReportedCount(e, ops + [op], chat, y);
    assert RunOps(e, EMPTY, ops + [op]).messages == db.messages;
    if chat == marked && forall r :: r in db.messages && db.messages[r].chat_id == chat ==>
                                       db.messages[r].message_id <= up_to {
      assert forall r :: r !in Counted(db.messages, chat, up_to);
    }
  }
}
