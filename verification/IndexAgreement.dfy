/** The hand-synchronised full-text index always equals a rebuild from the table. */
module IndexAgreement {
  import opened Common
  import opened Tables

  ghost predicate InRow(e: Engine, ms: Messages, p: Posting) {
    && p.rowid in ms
    && var ts := Terms(e, ms[p.rowid].text);
       p.pos < |ts| && ts[p.pos] == p.token
  }

  lemma FullIndexMembers(e: Engine, ms: Messages, p: Posting)
    ensures p in FullIndex(e, ms) <==> InRow(e, ms, p)
  {
    if InRow(e, ms, p) {
      assert p in RowPostings(e, p.rowid, ms[p.rowid].text);
    }
  }

  /** Removing the OLD text's postings and adding the NEW text's gives the rebuilt index. */
  lemma ReindexAgrees(e: Engine, db: Db, m: StoredMessage)
    requires Agrees(e, db)
    ensures Agrees(e, InsertMessage(e, db, m))
  {
    var after := InsertMessage(e, db, m);
    var r := TargetRow(e, db.messages, KeyOf(m));
    forall p ensures p in after.fts <==> p in FullIndex(e, after.messages) {
      FullIndexMembers(e, db.messages, p);
      FullIndexMembers(e, after.messages, p);
      assert p in RowPostings(e, r, m.text) <==> p.rowid == r && InRow(e, after.messages, p);
    }
  }

  lemma InsertKeepsKeys(e: Engine, db: Db, m: StoredMessage)
    requires Keyed(db.messages)
    ensures Keyed(InsertMessage(e, db, m).messages)
  {
  }

  /** Deleting rows never disturbs the key constraint. */
  lemma SubmapKeyed(ms: Messages, kept: Messages)
    requires Keyed(ms)
    requires forall r :: r in kept ==> r in ms && kept[r] == ms[r]
    ensures Keyed(kept)
  {
  }

  /** A delete that removed no row left the table as it was: skipping the rebuild is safe. */
  lemma NothingDeleted(ms: Messages, kept: Messages)
    requires forall r :: r in kept ==> r in ms && kept[r] == ms[r]
    ensures |kept| <= |ms|
    ensures |kept| == |ms| ==> kept == ms
  {
    forall r | r in kept.Keys ensures r in ms.Keys {
      assert r in kept;
    }
    SubsetSize(kept.Keys, ms.Keys);
    if |kept| == |ms| {
      forall r | r in ms ensures r in kept && kept[r] == ms[r] {
        assert r in kept.Keys;
      }
    }
  }

  lemma RetainedIsSubmap(ms: Messages, cutoff: Option<int>, keep: Option<int>)
    ensures var kept := Retained(ms, cutoff, keep);
            forall r :: r in kept ==> r in ms && kept[r] == ms[r]
  {
  }

  // -- whole runs ------------------------------------------------------------------

  datatype Op =
    | Insert(m: StoredMessage)
    | Record(c: ChatInfo, m: StoredMessage)
    | Upsert(c: ChatInfo)
    | Touch(chat: i64, last_seen: i64)
    | Put(key: string, value: string)
    | Mark(chat: i64, up_to: i64)
    | TrimOlder(cutoff: int)
    | TrimPerChat(keep: int)
    | Enforce(max_age_cutoff: Option<int>, keep_per_chat: Option<int>)

  ghost function Apply(e: Engine, db: Db, op: Op): Db {
    match op
    case Insert(m) => InsertMessage(e, db, m)
    case Record(c, m) => RecordInbound(e, db, c, m)
    case Upsert(c) => UpsertChat(db, c)
    case Touch(chat, at) => TouchChat(db, chat, at)
    case Put(k, v) => KvPut(db, k, v)
    case Mark(chat, id) => MarkRead(db, chat, id)
    case TrimOlder(cutoff) => TrimOlderThan(e, db, cutoff)
    case TrimPerChat(keep) => TrimPerChatTo(e, db, keep)
    case Enforce(cutoff, keep) => EnforceRetention(e, db, cutoff, keep)
  }

  ghost function RunOps(e: Engine, db: Db, ops: seq<Op>): Db {
    if ops == [] then db else Apply(e, RunOps(e, db, ops[..|ops| - 1]), ops[|ops| - 1])
  }

  lemma ApplyKeepsSound(e: Engine, db: Db, op: Op)
    requires Sound(e, db)
    ensures Sound(e, Apply(e, db, op))
  {
    match op
    case Insert(m) => ReindexAgrees(e, db, m);
    case Record(c, m) => ReindexAgrees(e, UpsertChat(db, c), m);
    case Upsert(_) =>
    case Touch(_, _) =>
    case Put(_, _) =>
    case Mark(_, _) =>
    case TrimOlder(cutoff) => SubmapKeyed(db.messages, DeleteBefore(db.messages, cutoff));
    case TrimPerChat(keep) => SubmapKeyed(db.messages, DeleteOverflow(db.messages, keep));
    case Enforce(cutoff, keep) =>
      var kept := Retained(db.messages, cutoff, keep);
      RetainedIsSubmap(db.messages, cutoff, keep);
      SubmapKeyed(db.messages, kept);
      NothingDeleted(db.messages, kept);
  }

  /** After any sequence of operations on a new store, the incremental index is the rebuilt one. */
  lemma {:induction false} RunsStaySound(e: Engine, ops: seq<Op>)
    ensures Sound(e, RunOps(e, EMPTY, ops))
  {
    if ops == [] {
      assert FullIndex(e, EMPTY.messages) == {};
    } else {
      RunsStaySound(e, ops[..|ops| - 1]);
      ApplyKeepsSound(e, RunOps(e, EMPTY, ops[..|ops| - 1]), ops[|ops| - 1]);
    }
  }

  // -- the trims are two autocommitted statements ----------------------------------

  /**
   * `trim_older_than` and `trim_per_chat_to` delete and rebuild outside a transaction. If the rebuild does
   * not happen, the index still agrees exactly when no deleted row had a token to leave behind.
   */
  lemma TrimWithoutRebuild(e: Engine, db: Db, kept: Messages)
    requires Agrees(e, db)
    requires forall r :: r in kept ==> r in db.messages && kept[r] == db.messages[r]
    ensures Agrees(e, db.(messages := kept)) <==>
            forall r :: r in db.messages && r !in kept ==> Terms(e, db.messages[r].text) == []
  {
    var after := db.(messages := kept);
    if Agrees(e, after) {
      forall r | r in db.messages && r !in kept ensures Terms(e, db.messages[r].text) == [] {
        var ts := Terms(e, db.messages[r].text);
        if ts != [] {
          var p := Posting(ts[0], r, 0);
          FullIndexMembers(e, db.messages, p);
          FullIndexMembers(e, kept, p);
          assert false;
        }
      }
    } else {
      if forall r :: r in db.messages && r !in kept ==> Terms(e, db.messages[r].text) == [] {
        forall p ensures p in db.fts <==> p in FullIndex(e, kept) {
          FullIndexMembers(e, db.messages, p);
          FullIndexMembers(e, kept, p);
        }
        assert false;
      }
    }
  }
}
