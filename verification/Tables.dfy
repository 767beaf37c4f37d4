/** The SQLite tables behind the history store, as values, and what each statement of the store does to them. */
module Tables {
  import opened Common
  import opened Decimal
  import opened Ordering

  datatype Direction = In | Out

  datatype ChatKind = Private | Group | Supergroup | Channel

  datatype ChatInfo = ChatInfo(
    chat_id: i64, kind: ChatKind, title: Option<string>, username: Option<string>,
    first_seen: i64, last_seen: i64)

  /** `rest` stands for the columns no statement reads: sender, reply, media and raw JSON. */
  datatype StoredMessage = StoredMessage(
    chat_id: i64, message_id: i64, date: i64, text: Option<string>, direction: Direction, rest: string)

  datatype Key = Key(chat_id: i64, message_id: i64)

  function KeyOf(m: StoredMessage): Key {
    Key(m.chat_id, m.message_id)
  }

  /** One entry of the full-text index: `token` is the word at `pos` of the row at `rowid`. */
  datatype Posting = Posting(token: string, rowid: int, pos: nat)

  type Messages = map<int, StoredMessage>

  datatype Db = Db(messages: Messages, chats: map<i64, ChatInfo>, kv: map<string, string>, fts: set<Posting>)

  const EMPTY := Db(map[], map[], map[], {})

  ghost function SomeUnused(used: set<int>): int
    ensures SomeUnused(used) !in used
  {
    if used == {} then 1 else Greatest(used) + 1
  }

  /** SQLite's choice of rowid for a new row: any rule that avoids the rowids in use, so a freed one may come back. */
  type Allocator = f: set<int> -> int | forall used: set<int> :: f(used) !in used
    ghost witness (used: set<int>) => SomeUnused(used)

  /** The two parts of SQLite that stay abstract: the FTS5 tokenizer and the rowid allocator. */
  datatype Engine = Engine(tokens: string -> seq<string>, alloc: Allocator)

  // -- message rows ------------------------------------------------------------

  /** PRIMARY KEY (chat_id, message_id). */
  ghost predicate Keyed(ms: Messages) {
    forall r, q :: r in ms && q in ms && KeyOf(ms[r]) == KeyOf(ms[q]) ==> r == q
  }

  ghost predicate Stored(ms: Messages, m: StoredMessage) {
    exists r :: r in ms && ms[r] == m
  }

  ghost predicate HasKey(ms: Messages, k: Key) {
    exists r :: r in ms && KeyOf(ms[r]) == k
  }

  ghost function RowOf(ms: Messages, k: Key): (r: int)
    requires HasKey(ms, k)
    ensures r in ms && KeyOf(ms[r]) == k
  {
    var r :| r in ms && KeyOf(ms[r]) == k;
    r
  }

  /** The rowid an upsert of `k` writes to: the existing row's, or a newly allocated one. */
  ghost function TargetRow(e: Engine, ms: Messages, k: Key): int {
    if HasKey(ms, k) then RowOf(ms, k) else e.alloc(ms.Keys)
  }

  // -- the full-text index -----------------------------------------------------

  function Terms(e: Engine, text: Option<string>): seq<string> {
    if text.None? then [] else e.tokens(text.value)
  }

  function RowPostings(e: Engine, rowid: int, text: Option<string>): set<Posting> {
    var ts := Terms(e, text);
    set k | 0 <= k < |ts| :: Posting(ts[k], rowid, k)
  }

  /** The FTS5 'delete' command: drop `rowid` from the list of every token of the text it is given. */
  function Unindexed(e: Engine, fts: set<Posting>, rowid: int, text: Option<string>): set<Posting> {
    var ts := Terms(e, text);
    set p | p in fts && !(p.rowid == rowid && p.token in ts)
  }

  /** The FTS5 'rebuild' command: index the content table from scratch. */
  function FullIndex(e: Engine, ms: Messages): set<Posting> {
    set r, p | r in ms && p in RowPostings(e, r, ms[r].text) :: p
  }

  ghost predicate Agrees(e: Engine, db: Db) {
    db.fts == FullIndex(e, db.messages)
  }

  /** The integrity the store must never lose: one row per key, one chat per id, an index that matches. */
  ghost predicate Sound(e: Engine, db: Db) {
    && Keyed(db.messages)
    && Agrees(e, db)
    && forall c :: c in db.chats ==> db.chats[c].chat_id == c
  }

  // -- statements ----------------------------------------------------------------

  function MergedChat(chats: map<i64, ChatInfo>, c: ChatInfo): ChatInfo {
    if c.chat_id in chats then c.(first_seen := chats[c.chat_id].first_seen) else c
  }

  function UpsertChat(db: Db, c: ChatInfo): Db {
    db.(chats := db.chats[c.chat_id := MergedChat(db.chats, c)])
  }

  function TouchChat(db: Db, chat: i64, last_seen: i64): Db {
    if chat in db.chats then db.(chats := db.chats[chat := db.chats[chat].(last_seen := last_seen)]) else db
  }

  ghost function InsertMessage(e: Engine, db: Db, m: StoredMessage): Db {
    var r := TargetRow(e, db.messages, KeyOf(m));
    var cleared := if r in db.messages then Unindexed(e, db.fts, r, db.messages[r].text) else db.fts;
    db.(messages := db.messages[r := m], fts := cleared + RowPostings(e, r, m.text))
  }

  ghost function RecordInbound(e: Engine, db: Db, c: ChatInfo, m: StoredMessage): Db {
    InsertMessage(e, UpsertChat(db, c), m)
  }

  function KvPut(db: Db, key: string, value: string): Db {
    db.(kv := db.kv[key := value])
  }

  const BASELINE_PREFIX := "last_unread_baseline:"

  function BaselineKey(chat: int): string {
    BASELINE_PREFIX + Show(chat)
  }

  function MarkRead(db: Db, chat: i64, up_to: i64): Db {
    KvPut(db, BaselineKey(chat), Show(up_to))
  }

  /** DELETE FROM messages WHERE date < cutoff. */
  function DeleteBefore(ms: Messages, cutoff: int): Messages {
    map r | r in ms && !(ms[r].date < cutoff) :: ms[r]
  }

  /** The message ids of one chat: the partition ROW_NUMBER() ranks. */
  function ChatIds(ms: Messages, chat: int): set<int> {
    set r | r in ms && ms[r].chat_id == chat :: ms[r].message_id
  }

  /** ROW_NUMBER() OVER (PARTITION BY chat_id ORDER BY message_id DESC). */
  ghost function RowNumber(ms: Messages, r: int): (n: nat)
    requires r in ms
    ensures 1 <= n
  {
    var order := Descending(ChatIds(ms, ms[r].chat_id));
    DescendingLists(ChatIds(ms, ms[r].chat_id));
    assert ms[r].message_id in Elements(order);
    var i :| 0 <= i < |order| && order[i] == ms[r].message_id;
    i + 1
  }

  /** DELETE the rows whose ROW_NUMBER exceeds `keep`. */
  ghost function DeleteOverflow(ms: Messages, keep: int): Messages {
    map r | r in ms && RowNumber(ms, r) <= keep :: ms[r]
  }

  ghost function TrimOlderThan(e: Engine, db: Db, cutoff: int): Db {
    var kept := DeleteBefore(db.messages, cutoff);
    db.(messages := kept, fts := FullIndex(e, kept))
  }

  ghost function TrimPerChatTo(e: Engine, db: Db, keep: int): Db {
    var kept := DeleteOverflow(db.messages, keep);
    db.(messages := kept, fts := FullIndex(e, kept))
  }

  /** The rows left by the age limit, then by the per-chat cap; a limit that is not set deletes nothing. */
  ghost function AgedIn(ms: Messages, cutoff: Option<int>): Messages {
    if cutoff.Some? then DeleteBefore(ms, cutoff.value) else ms
  }

  ghost function Capped(ms: Messages, keep: Option<int>): Messages {
    if keep.Some? then DeleteOverflow(ms, keep.value) else ms
  }

  ghost function Retained(ms: Messages, cutoff: Option<int>, keep: Option<int>): Messages {
    Capped(AgedIn(ms, cutoff), keep)
  }

  /** `enforce_retention`: both deletes, and a rebuild only when a row went away. */
  ghost function EnforceRetention(e: Engine, db: Db, cutoff: Option<int>, keep: Option<int>): Db {
    var kept := Retained(db.messages, cutoff, keep);
    db.(messages := kept, fts := if |kept| < |db.messages| then FullIndex(e, kept) else db.fts)
  }
}
