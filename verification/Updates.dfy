/** One batch of Telegram updates: mapping, filtering, recording, and the offset it leads to. */
module Updates {
  import opened Common
  import opened Decimal
  import opened Tables
  import opened History

  const OFFSET_KEY := "update_offset"

  /** `id + 1` on an i64, as the release build computes it. */
  function Successor(id: i64): i64 {
    if id == I64_MAX then I64_MIN else id + 1
  }

  lemma SuccessorWraps(id: i64)
    ensures -0x8000_0000_0000_0000 <= Successor(id) <= 0x7FFF_FFFF_FFFF_FFFF
    ensures (Successor(id) - (id + 1)) % 0x1_0000_0000_0000_0000 == 0
  {
  }

  datatype Inbound = Inbound(chat: ChatInfo, msg: StoredMessage)

  /** A raw update: its `update_id` if it has one, and what `map_update` makes of it. */
  datatype Update = Update(id: Option<i64>, mapped: Option<Inbound>)

  predicate Admitted(u: Update, allowed: Option<set<i64>>) {
    u.mapped.Some? && (allowed.Some? ==> u.mapped.value.chat.chat_id in allowed.value)
  }

  ghost function ApplyUpdate(e: Engine, db: Db, u: Update, allowed: Option<set<i64>>, commits: bool): Db {
    if Admitted(u, allowed) && commits then RecordInbound(e, db, u.mapped.value.chat, u.mapped.value.msg) else db
  }

  /** The updates handled one after the other; `commits[i]` is whether the write of the i-th succeeds. */
  ghost function ApplyUpdates(e: Engine, db: Db, us: seq<Update>, allowed: Option<set<i64>>, commits: seq<bool>): Db
    requires |us| <= |commits|
  {
    if us == [] then
      db
    else
      var n := |us| - 1;
      ApplyUpdate(e, ApplyUpdates(e, db, us[..n], allowed, commits), us[n], allowed, commits[n])
  }

  /** The highest update id of a batch. */
  function MaxId(us: seq<Update>): Option<i64> {
    if us == [] then
      None
    else
      var n := |us| - 1;
      var m := MaxId(us[..n]);
      if us[n].id.None? then m
      else if m.None? then us[n].id
      else Some(Max(m.value, us[n].id.value))
  }

  /** The offset a restart resumes from; 0 when none is stored or it does not parse. */
  function LoadedOffset(kv: map<string, string>): int {
    if OFFSET_KEY in kv && ParseI64(kv[OFFSET_KEY]).Some? then ParseI64(kv[OFFSET_KEY]).value else 0
  }

  /** The store and the volatile offset after a batch; `persists` is whether the offset write succeeds. */
  ghost function BatchDb(e: Engine, db: Db, us: seq<Update>, allowed: Option<set<i64>>, commits: seq<bool>,
                         persists: bool): Db
    requires |us| <= |commits|
  {
    var applied := ApplyUpdates(e, db, us, allowed, commits);
    var m := MaxId(us);
    if m.Some? && persists then KvPut(applied, OFFSET_KEY, Show(Successor(m.value))) else applied
  }

  function NextOffset(offset: int, us: seq<Update>, persists: bool): int {
    var m := MaxId(us);
    if m.Some? && persists then Successor(m.value) else offset
  }

  lemma {:induction false} MaxIdIsGreatest(us: seq<Update>)
    ensures forall u :: u in us && u.id.Some? ==> MaxId(us).Some? && u.id.value <= MaxId(us).value
    ensures MaxId(us).Some? ==> exists u :: u in us && u.id == MaxId(us)
  {
    if us != [] {
      var n := |us| - 1;
      MaxIdIsGreatest(us[..n]);
      assert us == us[..n] + [us[n]];
      assert us[n] in us && forall u :: u in us[..n] ==> u in us;
    }
  }

  /**
   * In whatever order a batch lists its updates, a persisted offset is one past the largest id in it. Without an id,
   * or when the write fails, the offset stays.
   */
  lemma OffsetIsPastBatch(offset: int, us: seq<Update>, persists: bool)
    requires forall u :: u in us && u.id.Some? ==> u.id.value < I64_MAX
    ensures var next := NextOffset(offset, us, persists);
            if persists && exists u :: u in us && u.id.Some?
            then (forall u :: u in us && u.id.Some? ==> u.id.value < next)
                 && exists u :: u in us && u.id.Some? && u.id.value + 1 == next
            else next == offset
  {
    MaxIdIsGreatest(us);
  }

  datatype FetchResult = Fetched(updates: seq<Update>) | RateLimited(retry_after_secs: nat) | Failed

  const MAX_BACKOFF_SECS: nat := 30

  class Updater {
    const store: History
    const allowed: Option<set<i64>>
    var offset: int
    var backoff: nat

    constructor (store: History, allowed: Option<set<i64>>)
      requires store.Valid()
      ensures this.store == store && this.allowed == allowed
      ensures offset == LoadedOffset(store.kv) && backoff == 1
      ensures "update_offset" !in store.kv ==> offset == 0
      ensures "update_offset" in store.kv ==>
                var saved := ParseI64(store.kv["update_offset"]);
                offset == if saved.Some? then saved.value else 0
    {
      this.store := store;
      this.allowed := allowed;
      new;
      var saved := store.KvGet(OFFSET_KEY);
      offset := 0;
      if saved.Some? {
        var parsed := ParseI64(saved.value);
        if parsed.Some? {
          offset := parsed.value;
        }
      }
      backoff := 1;
    }

    /** One turn of the endless loop; `slept` is the seconds it waits before the next fetch. */
    method Turn(result: FetchResult, commits: seq<bool>, persists: bool) returns (slept: nat)
      requires store.Valid()
      requires result.Fetched? ==> |result.updates| <= |commits|
      modifies this, store
      ensures store.Valid()
      ensures result.Fetched? ==>
                && store.State() ==
                     BatchDb(store.engine, old(store.State()), result.updates, allowed, commits, persists)
                && offset == NextOffset(old(offset), result.updates, persists)
                && backoff == 1 && slept == 0
      ensures !result.Fetched? ==> store.State() == old(store.State()) && offset == old(offset)
      ensures result.RateLimited? ==> slept == result.retry_after_secs && backoff == old(backoff)
      ensures result.Failed? ==>
                slept == old(backoff) && backoff == if 2 * old(backoff) <= 30 then 2 * old(backoff) else 30
    {
      slept := 0;
      match result
      case Fetched(updates) =>
        backoff := 1;
        var max_update_id: Option<i64> := None;
        for i := 0 to |updates|
          invariant store.Valid()
          invariant store.State() == ApplyUpdates(store.engine, old(store.State()), updates[..i], allowed, commits)
          invariant max_update_id == MaxId(updates[..i])
          invariant offset == old(offset) && backoff == 1
        {
          var u := updates[i];
          assert updates[..i + 1][..i] == updates[..i];
          if u.id.Some? {
            max_update_id := if max_update_id.None? then u.id else Some(Max(max_update_id.value, u.id.value));
          }
          if u.mapped.None? {
            continue;
          }
          var chat, msg := u.mapped.value.chat, u.mapped.value.msg;
          if allowed.Some? && chat.chat_id !in allowed.value {
            continue;
          }
          var _ := store.RecordInbound(chat, msg, commits[i]);
        }
        assert updates[..|updates|] == updates;
        if max_update_id.Some? {
          var next := Successor(max_update_id.value);
          var ok := store.KvPut(OFFSET_KEY, Show(next), persists);
          if ok {
            offset := next;
          }
        }
      case RateLimited(retry_after_secs) =>
        slept := retry_after_secs;
      case Failed =>
        slept := backoff;
        backoff := Min(backoff * 2, MAX_BACKOFF_SECS);
    }
  }
}
