/** Unread counts: the kv scan of `list_chats` against the history of `mark_read` calls. */
module Unread {
  import opened Common
  import opened Decimal
  import opened Tables
  import opened IndexAgreement

  function FoldCase(c: char): char {
    if 'A' <= c <= 'Z' then (c as int + 32) as char else c
  }

  /** LIKE 'last_unread_baseline:%': `_` stands for any character and ASCII case is ignored. */
  predicate LikeBaseline(key: string) {
    && |key| >= |BASELINE_PREFIX|
    && forall i :: 0 <= i < |BASELINE_PREFIX| ==>
         BASELINE_PREFIX[i] == '_' || FoldCase(key[i]) == FoldCase(BASELINE_PREFIX[i])
  }

  function StripPrefix(key: string): Option<string> {
    if |key| >= |BASELINE_PREFIX| && key[..|BASELINE_PREFIX|] == BASELINE_PREFIX
    then Some(key[|BASELINE_PREFIX|..])
    else None
  }

  datatype Entry = Entry(chat: int, baseline: int)

  /** What one scanned kv row contributes: nothing unless the key strips and both numbers parse. */
  function EntryOf(key: string, value: string): Option<Entry> {
    var id := StripPrefix(key);
    if id.None? || ParseI64(id.value).None? || ParseI64(value).None? then None
    else Some(Entry(ParseI64(id.value).value, ParseI64(value).value))
  }

  /** `b` holds, for every chat some scanned row names, the baseline of one such row. */
  ghost predicate CollectedFrom(kv: map<string, string>, keys: set<string>, b: map<int, int>) {
    && (forall k :: k in keys && k in kv && LikeBaseline(k) && EntryOf(k, kv[k]).Some? ==>
          EntryOf(k, kv[k]).value.chat in b)
    && (forall c :: c in b ==>
          exists k :: k in keys && k in kv && LikeBaseline(k) && EntryOf(k, kv[k]) == Some(Entry(c, b[c])))
  }

  /** The kv rows whose key is LIKE the baseline pattern, in whatever order they come. */
  method ScanBaselines(kv: map<string, string>) returns (baselines: map<int, int>)
    ensures CollectedFrom(kv, kv.Keys, baselines)
  {
    var todo := set k | k in kv && LikeBaseline(k);
    ghost var seen: set<string> := {};
    baselines := map[];
    while todo != {}
      invariant todo <= kv.Keys && seen <= kv.Keys
      invariant forall k :: k in todo ==> LikeBaseline(k)
      invariant forall k :: k in kv && LikeBaseline(k) ==> k in todo || k in seen
      invariant CollectedFrom(kv, seen, baselines)
      decreases |todo|
    {
      var key :| key in todo;
      var id := StripPrefix(key);
      ghost var before := baselines;
      if id.Some? {
        var cid, base := ParseI64(id.value), ParseI64(kv[key]);
        if cid.Some? && base.Some? {
          baselines := baselines[cid.value := base.value];
        }
      }
      ScanStep(kv, seen, before, key, baselines);
      seen := seen + {key};
      todo := todo - {key};
    }
    AllScanned(kv, seen, baselines);
  }

  lemma AllScanned(kv: map<string, string>, seen: set<string>, b: map<int, int>)
    requires CollectedFrom(kv, seen, b)
    requires seen <= kv.Keys
    requires forall k :: k in kv && LikeBaseline(k) ==> k in seen
    ensures CollectedFrom(kv, kv.Keys, b)
  {
  }

  lemma ScanStep(kv: map<string, string>, seen: set<string>, b: map<int, int>, key: string, next: map<int, int>)
    requires key in kv
    requires LikeBaseline(key) || next == b
    requires CollectedFrom(kv, seen, b)
    requires next == if EntryOf(key, kv[key]).Some?
                     then b[EntryOf(key, kv[key]).value.chat := EntryOf(key, kv[key]).value.baseline] else b
    ensures CollectedFrom(kv, seen + {key}, next)
  {
  }

  /** Inbound rows of `chat` above `baseline`. */
  function UnreadRows(ms: Messages, chat: int, baseline: int): set<int> {
    set r | r in ms && ms[r].chat_id == chat && ms[r].direction.In? && ms[r].message_id > baseline
  }

  function BaselineIn(b: map<int, int>, chat: int): int {
    if chat in b then b[chat] else 0
  }

  // -- what runs write -----------------------------------------------------------------------

  /** The id of the last `mark_read` of `chat` in a run; 0 if there was none. */
  ghost function LastMarked(ops: seq<Op>, chat: int): i64 {
    if ops == [] then
      0
    else
      var op := ops[|ops| - 1];
      if op.Mark? && op.chat == chat then op.up_to else LastMarked(ops[..|ops| - 1], chat)
  }

  datatype KvRow = KvRow(key: string, value: string)

  /** The kv row an operation writes, if it writes one. */
  function Written(op: Op): Option<KvRow> {
    match op
    case Put(key, value) => Some(KvRow(key, value))
    case Mark(chat, up_to) => Some(KvRow(BaselineKey(chat), Show(up_to)))
    case _ => None
  }

  /** The value last written under `key` in a run. */
  ghost function LastWritten(ops: seq<Op>, key: string): Option<string> {
    if ops == [] then
      None
    else
      var w := Written(ops[|ops| - 1]);
      if w.Some? && w.value.key == key then Some(w.value.value) else LastWritten(ops[..|ops| - 1], key)
  }

  lemma KvAfter(e: Engine, db: Db, op: Op)
    ensures Apply(e, db, op).kv == if Written(op).Some? then db.kv[Written(op).value.key := Written(op).value.value]
                                   else db.kv
  {
    hide BaselineKey, Show;
  }

  /** After any run each key holds the value last written under it; a key never written is absent. */
  lemma {:induction false} RunsRecordWrites(e: Engine, ops: seq<Op>, key: string)
    ensures var kv := RunOps(e, EMPTY, ops).kv;
            LastWritten(ops, key) == if key in kv then Some(kv[key]) else None
  {
    hide Apply, Written;
    if ops != [] {
      RunsRecordWrites(e, ops[..|ops| - 1], key);
      KvAfter(e, RunOps(e, EMPTY, ops[..|ops| - 1]), ops[|ops| - 1]);
    }
  }

  lemma BaselineKeyStrips(chat: i64)
    ensures LikeBaseline(BaselineKey(chat))
    ensures StripPrefix(BaselineKey(chat)) == Some(Show(chat))
  {
    var key := BaselineKey(chat);
    assert forall i :: 0 <= i < |BASELINE_PREFIX| ==> key[i] == BASELINE_PREFIX[i];
    assert key[..|BASELINE_PREFIX|] == BASELINE_PREFIX;
    assert key[|BASELINE_PREFIX|..] == Show(chat);
  }

  lemma BaselineKeyIs(chat: i64)
    ensures BaselineKey(chat) == "last_unread_baseline:" + Show(chat)
  {
  }

  /** Chats never share a baseline key. */
  lemma BaselineKeysDistinct(a: i64, b: i64)
    requires BaselineKey(a) == BaselineKey(b)
    ensures a == b
  {
    BaselineKeyStrips(a);
    BaselineKeyStrips(b);
    ShowIsInjective(a, b);
  }

  // -- the baseline used for a chat -------------------------------------------------------------

  /** The key stands for `chat` in the scan, in whatever notation. */
  predicate Names(key: string, chat: int) {
    var id := StripPrefix(key);
    id.Some? && ParseI64(id.value) == Some(chat)
  }

  /** The run last wrote the baseline `n` for `chat` under some key that stands for it. */
  ghost predicate WroteBaseline(ops: seq<Op>, chat: int, n: int) {
    exists key :: WroteBaselineAt(ops, key, chat, n)
  }

  ghost predicate WroteBaselineAt(ops: seq<Op>, key: string, chat: int, n: int) {
    Names(key, chat) && LastWritten(ops, key).Some? && ParseI64(LastWritten(ops, key).value) == Some(n)
  }

  /** A scan may use `n` for `chat`: a row says so, or it is 0 and no row says anything. */
  ghost predicate MayUse(ops: seq<Op>, chat: int, n: int) {
    WroteBaseline(ops, chat, n) || (n == 0 && forall x :: !WroteBaseline(ops, chat, x))
  }

  lemma EntryNames(key: string, value: string, chat: int, n: int)
    ensures EntryOf(key, value) == Some(Entry(chat, n)) <==> Names(key, chat) && ParseI64(value) == Some(n)
    ensures Names(key, chat) ==> LikeBaseline(key)
  {
    if Names(key, chat) {
      forall i | 0 <= i < |BASELINE_PREFIX| ensures key[i] == BASELINE_PREFIX[i] {
        assert key[..|BASELINE_PREFIX|][i] == key[i];
      }
    }
  }

  /** The table a run leaves has a row with baseline `n` for `chat` exactly when the run last wrote one. */
  lemma {:induction false} RowsAreWrites(e: Engine, ops: seq<Op>, key: string, chat: int, n: int)
    ensures var kv := RunOps(e, EMPTY, ops).kv;
            WroteBaselineAt(ops, key, chat, n) <==>
            key in kv && LikeBaseline(key) && EntryOf(key, kv[key]) == Some(Entry(chat, n))
  {
    hide LikeBaseline, EntryOf, Names, RunOps, LastWritten;
    var kv := RunOps(e, EMPTY, ops).kv;
    RunsRecordWrites(e, ops, key);
    if key in kv {
      EntryNames(key, kv[key], chat, n);
    }
  }

  /** After any run, any scan of the table uses a baseline last written for the chat... */
  lemma {:induction false} ScanUsesWritten(e: Engine, ops: seq<Op>, b: map<int, int>, chat: int)
    requires var kv := RunOps(e, EMPTY, ops).kv; CollectedFrom(kv, kv.Keys, b)
    ensures MayUse(ops, chat, BaselineIn(b, chat))
  {
    hide LikeBaseline, EntryOf, WroteBaselineAt, RunOps;
    var kv := RunOps(e, EMPTY, ops).kv;
    if chat in b {
      var k :| k in kv && LikeBaseline(k) && EntryOf(k, kv[k]) == Some(Entry(chat, b[chat]));
      RowsAreWrites(e, ops, k, chat, b[chat]);
    } else {
      forall x, key ensures !WroteBaselineAt(ops, key, chat, x) {
        RowsAreWrites(e, ops, key, chat, x);
      }
    }
  }

  /** ...and any such baseline is used by some scan. */
  lemma {:induction false} SomeScanUses(e: Engine, ops: seq<Op>, chat: int, n: int)
    requires MayUse(ops, chat, n)
    ensures var kv := RunOps(e, EMPTY, ops).kv; exists b :: CollectedFrom(kv, kv.Keys, b) && BaselineIn(b, chat) == n
  {
    hide LikeBaseline, EntryOf, WroteBaselineAt, RunOps;
    var kv := RunOps(e, EMPTY, ops).kv;
    SomeScan(kv, kv.Keys);
    var b :| CollectedFrom(kv, kv.Keys, b);
    if WroteBaseline(ops, chat, n) {
      var key :| WroteBaselineAt(ops, key, chat, n);
      RowsAreWrites(e, ops, key, chat, n);
      assert CollectedFrom(kv, kv.Keys, b[chat := n]);
    } else {
      ScanUsesWritten(e, ops, b, chat);
    }
  }

  lemma {:induction false} SomeScan(kv: map<string, string>, keys: set<string>)
    requires keys <= kv.Keys
    ensures exists b :: CollectedFrom(kv, keys, b)
    decreases |keys|
  {
    hide LikeBaseline, EntryOf;
    if keys == {} {
      assert CollectedFrom(kv, {}, map[]);
    } else {
      var key := AnyOf(keys);
      var rest := keys - {key};
      SomeScan(kv, rest);
      var b :| CollectedFrom(kv, rest, b);
      assert rest + {key} == keys;
      if LikeBaseline(key) {
        var next := if EntryOf(key, kv[key]).Some?
                    then b[EntryOf(key, kv[key]).value.chat := EntryOf(key, kv[key]).value.baseline] else b;
        ScanStep(kv, rest, b, key, next);
        assert CollectedFrom(kv, keys, next);
      } else {
        assert CollectedFrom(kv, keys, b);
      }
    }
  }

  /** Every key that stands for the chat and holds a number holds the id last marked; without such a key that is 0. */
  ghost predicate Undisturbed(ops: seq<Op>, chat: int) {
    forall n :: MayUse(ops, chat, n) ==> n == LastMarked(ops, chat)
  }

  /**
   * After any run the baseline `list_chats` uses for a chat is the id last marked for it, whatever order the kv rows
   * come in, exactly when no key that stands for the chat was left holding another number.
   */
  lemma {:induction false} UnreadIsSinceLastMarkExactlyWhen(e: Engine, ops: seq<Op>, chat: int)
    ensures var kv := RunOps(e, EMPTY, ops).kv;
            (forall b :: CollectedFrom(kv, kv.Keys, b) ==> BaselineIn(b, chat) == LastMarked(ops, chat)) <==>
            Undisturbed(ops, chat)
  {
    hide CollectedFrom, MayUse, RunOps;
    var kv := RunOps(e, EMPTY, ops).kv;
    forall b | CollectedFrom(kv, kv.Keys, b) ensures MayUse(ops, chat, BaselineIn(b, chat)) {
      ScanUsesWritten(e, ops, b, chat);
    }
    forall n | MayUse(ops, chat, n)
      ensures exists b :: CollectedFrom(kv, kv.Keys, b) && BaselineIn(b, chat) == n
    {
      SomeScanUses(e, ops, chat, n);
    }
  }

  /** No `kv_put` of a run uses a key that stands for the chat. */
  ghost predicate OnlyMarks(ops: seq<Op>, chat: int) {
    forall i :: 0 <= i < |ops| && ops[i].Put? ==> !Names(ops[i].key, chat)
  }

  lemma MarkKeyNames(a: i64, chat: int)
    ensures Names(BaselineKey(a), chat) <==> a == chat
  {
    BaselineKeyStrips(a);
    ParseShow(a);
  }

  lemma {:induction false} OnlyMarkWrites(ops: seq<Op>, chat: i64, key: string)
    requires OnlyMarks(ops, chat) && Names(key, chat)
    ensures LastWritten(ops, key).Some? ==>
              key == BaselineKey(chat) && LastWritten(ops, key).value == Show(LastMarked(ops, chat))
    ensures LastWritten(ops, BaselineKey(chat)).None? ==> LastMarked(ops, chat) == 0
  {
    hide Names, BaselineKey, Show;
    if ops != [] {
      var op := ops[|ops| - 1];
      OnlyMarkWrites(ops[..|ops| - 1], chat, key);
      if op.Mark? {
        MarkKeyNames(op.chat, chat);
        if BaselineKey(op.chat) == BaselineKey(chat) { BaselineKeysDistinct(op.chat, chat); }
      } else if op.Put? {
        MarkKeyNames(chat, chat);
      }
    }
  }

  /** So it is whenever `mark_read` alone writes the chat's baseline, as in the repository. */
  lemma MarksAreUndisturbed(ops: seq<Op>, chat: i64)
    requires OnlyMarks(ops, chat)
    ensures Undisturbed(ops, chat)
  {
    hide Names, BaselineKey, Show, OnlyMarks, LastMarked;
    var key := BaselineKey(chat);
    MarkKeyNames(chat, chat);
    OnlyMarkWrites(ops, chat, key);
    ParseShow(LastMarked(ops, chat));
    forall k, n | WroteBaselineAt(ops, k, chat, n) ensures n == LastMarked(ops, chat) {
      OnlyMarkWrites(ops, chat, k);
    }
    if LastWritten(ops, key).Some? {
      assert WroteBaselineAt(ops, key, chat, LastMarked(ops, chat));
      assert WroteBaseline(ops, chat, LastMarked(ops, chat));
    }
    forall n | MayUse(ops, chat, n) ensures n == LastMarked(ops, chat) {
      if WroteBaseline(ops, chat, n) {
        var k :| WroteBaselineAt(ops, k, chat, n);
      }
    }
  }

  /** A `kv_put` that disturbs it: chat 5 was marked read up to 10, and its key is then given another number. */
  lemma {:induction false} PutDisturbs(e: Engine, b: map<int, int>)
    requires var kv := RunOps(e, EMPTY, [Mark(5, 10), Put(BaselineKey(5), Show(3))]).kv; CollectedFrom(kv, kv.Keys, b)
    ensures BaselineIn(b, 5) == 3 && LastMarked([Mark(5, 10), Put(BaselineKey(5), Show(3))], 5) == 10
  {
    hide BaselineKey, Show, Names, RunOps, CollectedFrom, LastWritten, ParseI64;
    var ops := [Mark(5, 10), Put(BaselineKey(5), Show(3))];
    assert ops[..1] == [Mark(5, 10)];
    ScanUsesWritten(e, ops, b, 5);
    MarkKeyNames(5, 5);
    ParseShow(3);
    forall key ensures LastWritten(ops, key) == if key == BaselineKey(5) then Some(Show(3)) else None {
      PutWrites(ops, key);
    }
    assert WroteBaselineAt(ops, BaselineKey(5), 5, 3);
    assert WroteBaseline(ops, 5, 3);
    var n := BaselineIn(b, 5);
    assert WroteBaseline(ops, 5, n);
    var key :| WroteBaselineAt(ops, key, 5, n);
    assert key == BaselineKey(5);
  }

  lemma {:induction false} PutWrites(ops: seq<Op>, key: string)
    requires ops == [Mark(5, 10), Put(BaselineKey(5), Show(3))]
    ensures LastWritten(ops, key) == if key == BaselineKey(5) then Some(Show(3)) else None
  {
    hide BaselineKey, Show;
    assert ops[..1] == [Mark(5, 10)] && [Mark(5, 10)][..0] == [];
    assert LastWritten([], key) == None;
    assert LastWritten([Mark(5, 10)], key) == if key == BaselineKey(5) then Some(Show(10)) else None;
  }
}
