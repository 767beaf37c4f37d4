/** The store handle: every method of the history store, over the tables it updates in place. */
module History {
  import opened Common
  import opened Decimal
  import opened Ordering
  import opened Tables
  import opened IndexAgreement
  import opened Retention
  import opened Phrase
  import opened Search
  import opened Paging
  import opened Unread

  const SEARCH_LIMIT: nat := 100

  datatype SearchHit = SearchHit(chat_id: int, message_id: int, date: int)

  function HitOf(m: StoredMessage): SearchHit {
    SearchHit(m.chat_id, m.message_id, m.date)
  }

  datatype ChatSummary = ChatSummary(info: ChatInfo, unread_count: nat, last_message_id: Option<int>)

  function LastSeen(chats: map<i64, ChatInfo>): map<int, int> {
    map c: int | c in chats :: chats[c].last_seen
  }

  class History {
    const engine: Engine
    var messages: Messages
    var chats: map<i64, ChatInfo>
    var kv: map<string, string>
    var fts: set<Posting>

    function State(): Db
      reads this
    {
      Db(messages, chats, kv, fts)
    }

    ghost predicate Valid()
      reads this
    {
      Sound(engine, State())
    }

    constructor (engine: Engine)
      ensures State() == EMPTY && this.engine == engine
      ensures Valid()
    {
      this.engine := engine;
      messages, chats, kv, fts := map[], map[], map[], {};
    }

    // -- writes ------------------------------------------------------------------------

    method UpsertChat(c: ChatInfo)
      requires Valid()
      modifies this
      ensures State() == Tables.UpsertChat(old(State()), c)
      ensures chats.Keys == old(chats).Keys + {c.chat_id}
      ensures forall id :: id in old(chats) && id != c.chat_id ==> chats[id] == old(chats)[id]
      ensures chats[c.chat_id] == c.(first_seen := chats[c.chat_id].first_seen)
      ensures chats[c.chat_id].first_seen ==
              if c.chat_id in old(chats) then old(chats)[c.chat_id].first_seen else c.first_seen
      ensures Valid()
    {
      if c.chat_id in chats {
        chats := chats[c.chat_id := chats[c.chat_id].(
                   kind := c.kind, title := c.title, username := c.username, last_seen := c.last_seen)];
      } else {
        chats := chats[c.chat_id := c];
      }
    }

    method TouchChatLastSeen(chat_id: i64, last_seen: i64)
      requires Valid()
      modifies this
      ensures State() == TouchChat(old(State()), chat_id, last_seen)
      ensures chats.Keys == old(chats).Keys && forall id :: id in chats && id != chat_id ==> chats[id] == old(chats)[id]
      ensures chat_id in chats ==> chats[chat_id] == old(chats)[chat_id].(last_seen := last_seen)
      ensures Valid()
    {
      if chat_id in chats {
        chats := chats[chat_id := chats[chat_id].(last_seen := last_seen)];
      }
    }

    /** Delete the old row's postings, write the row, index the new text. */
    method InsertMessage(m: StoredMessage)
      requires Valid()
      modifies this
      ensures State() == Tables.InsertMessage(engine, old(State()), m)
      ensures Valid()
    {
      ApplyKeepsSound(engine, State(), Insert(m));
      var rowid;
      if r :| r in messages && KeyOf(messages[r]) == KeyOf(m) {
        rowid := r;
        fts := Unindexed(engine, fts, rowid, messages[rowid].text);
      } else {
        rowid := engine.alloc(messages.Keys);
      }
      assert rowid == TargetRow(engine, messages, KeyOf(m));
      messages := messages[rowid := m];
      fts := fts + RowPostings(engine, rowid, messages[rowid].text);
    }

    /** One transaction; `commits` is whether SQLite lets it commit. */
    method RecordInbound(c: ChatInfo, m: StoredMessage, commits: bool) returns (ok: bool)
      requires Valid()
      modifies this
      ensures Valid() && ok == commits
      ensures State() == if ok then Tables.RecordInbound(engine, old(State()), c, m) else old(State())
    {
      if commits {
        UpsertChat(c);
        InsertMessage(m);
      }
      return commits;
    }

    method KvPut(key: string, value: string, commits: bool) returns (ok: bool)
      requires Valid()
      modifies this
      ensures Valid() && ok == commits
      ensures State() == if ok then Tables.KvPut(old(State()), key, value) else old(State())
    {
      if commits {
        kv := kv[key := value];
      }
      return commits;
    }

    method KvGet(key: string) returns (value: Option<string>)
      ensures value == if key in kv then Some(kv[key]) else None
    {
      value := if key in kv then Some(kv[key]) else None;
    }

    method MarkRead(chat_id: i64, up_to: i64)
      requires Valid()
      modifies this
      ensures State() == Tables.MarkRead(old(State()), chat_id, up_to)
      ensures Valid()
    {
      var _ := KvPut(BASELINE_PREFIX + Show(chat_id), Show(up_to), true);
    }

    // -- retention -----------------------------------------------------------------------

    method DeleteMessagesBefore(cutoff: int) returns (removed: nat)
      modifies this`messages
      ensures messages == DeleteBefore(old(messages), cutoff)
      ensures removed == |old(messages).Keys - messages.Keys|
    {
      var doomed := set r | r in messages && messages[r].date < cutoff;
      ghost var before := messages;
      messages := messages - doomed;
      assert before.Keys - messages.Keys == doomed;
      removed := |doomed|;
    }

    method DeletePerChatOverflow(keep: int) returns (removed: nat)
      requires Keyed(messages)
      modifies this`messages
      ensures messages == DeleteOverflow(old(messages), keep)
      ensures removed == |old(messages).Keys - messages.Keys|
    {
      var doomed := Overflow(messages, keep);
      OverflowIsDeleted(messages, keep);
      messages := messages - doomed;
      removed := |doomed|;
    }

    method RebuildFts()
      modifies this`fts
      ensures fts == FullIndex(engine, messages)
    {
      fts := FullIndex(engine, messages);
    }

    method TrimOlderThan(cutoff: int) returns (removed: nat)
      requires Valid()
      modifies this
      ensures State() == Tables.TrimOlderThan(engine, old(State()), cutoff)
      ensures Valid()
      ensures removed == |old(messages).Keys - messages.Keys|
    {
      hide FullIndex, DeleteBefore;
      ApplyKeepsSound(engine, State(), TrimOlder(cutoff));
      removed := DeleteMessagesBefore(cutoff);
      RebuildFts();
      assert State() == Apply(engine, old(State()), TrimOlder(cutoff));
    }

    method TrimPerChatTo(keep: int) returns (removed: nat)
      requires Valid()
      modifies this
      ensures State() == Tables.TrimPerChatTo(engine, old(State()), keep)
      ensures Valid()
      ensures removed == |old(messages).Keys - messages.Keys|
    {
      hide RowNumber, FullIndex, DeleteOverflow;
      ApplyKeepsSound(engine, State(), TrimPerChat(keep));
      removed := DeletePerChatOverflow(keep);
      RebuildFts();
      assert State() == Apply(engine, old(State()), TrimPerChat(keep));
    }

    /** The two deletes of the sweep, each only if its limit is set. */
    method DeleteBeyondLimits(max_age_cutoff: Option<int>, keep_per_chat: Option<int>)
      returns (aged_out: nat, overflowed: nat)
      requires Keyed(messages)
      modifies this`messages
      ensures messages == Retained(old(messages), max_age_cutoff, keep_per_chat)
      ensures aged_out == |AgedOut(old(messages), max_age_cutoff)|
      ensures aged_out + overflowed + |messages| == |old(messages)|
    {
      aged_out, overflowed := 0, 0;
      if max_age_cutoff.Some? {
        aged_out := DeleteMessagesBefore(max_age_cutoff.value);
      }
      ghost var aged := messages;
      AgedComplement(old(messages), aged, max_age_cutoff);
      if keep_per_chat.Some? {
        overflowed := DeletePerChatOverflow(keep_per_chat.value);
      }
      CappedComplement(aged, messages, keep_per_chat);
    }

    /** Both limits in one transaction, rebuilding only if a row was deleted. */
    method EnforceRetention(max_age_cutoff: Option<int>, keep_per_chat: Option<int>)
      returns (aged_out: nat, overflowed: nat)
      requires Valid()
      modifies this
      ensures State() == Tables.EnforceRetention(engine, old(State()), max_age_cutoff, keep_per_chat)
      ensures Valid()
      ensures aged_out == |AgedOut(old(messages), max_age_cutoff)|
      ensures aged_out + overflowed + |messages| == |old(messages)|
    {
      ApplyKeepsSound(engine, State(), Enforce(max_age_cutoff, keep_per_chat));
      aged_out, overflowed := DeleteBeyondLimits(max_age_cutoff, keep_per_chat);
      if aged_out + overflowed > 0 {
        RebuildFts();
      }
      assert State() == Apply(engine, old(State()), Enforce(max_age_cutoff, keep_per_chat));
    }

    // -- reads ---------------------------------------------------------------------------

    method GetMessage(chat_id: i64, message_id: i64) returns (m: Option<StoredMessage>)
      requires Valid()
      ensures m.Some? <==> HasKey(messages, Key(chat_id, message_id))
      ensures m.Some? ==> Stored(messages, m.value) && KeyOf(m.value) == Key(chat_id, message_id)
    {
      if r :| r in messages && KeyOf(messages[r]) == Key(chat_id, message_id) {
        m := Some(messages[r]);
      } else {
        m := None;
      }
    }

    /** A page of one chat, newest first. */
    method Messages(chat_id: int, before: Option<int>, after: Option<int>, limit: int)
      returns (out: seq<StoredMessage>)
      requires Valid()
      ensures IsPage(messages, chat_id, before, after, limit, out)
      ensures forall i :: 0 <= i < |out| ==>
                && Stored(messages, out[i]) && out[i].chat_id == chat_id
                && (before.Some? ==> out[i].message_id < before.value)
                && (after.Some? ==> out[i].message_id > after.value)
      ensures forall i, j :: 0 <= i < j < |out| ==> out[i].message_id > out[j].message_id
      ensures limit >= 0 ==> |out| <= limit
      ensures forall r :: r in messages && messages[r].chat_id == chat_id && messages[r] !in out
                          && (before.Some? ==> messages[r].message_id < before.value)
                          && (after.Some? ==> messages[r].message_id > after.value)
                          ==> |out| == limit && forall m :: m in out ==> m.message_id > messages[r].message_id
    {
      out := ReadPage(messages, chat_id, before, after, limit);
      PageListsNewest(messages, chat_id, before, after, limit, out);
    }

    /** Hits of a phrase search, newest first, at most a hundred. */
    method Search(query: string, filter: Filter) returns (hits: seq<SearchHit>)
      requires Valid()
      ensures AreNewestHits(messages, Scan(engine, messages, query, filter), SEARCH_LIMIT, hits)
      ensures |hits| <= 100 && forall i, j :: 0 <= i < j < |hits| ==> hits[i].date >= hits[j].date
      ensures forall i, j :: 0 <= i < j < |hits| ==>
                hits[i].chat_id != hits[j].chat_id || hits[i].message_id != hits[j].message_id
      ensures forall h :: h in hits ==>
                && (filter.chat.Some? ==> h.chat_id == filter.chat.value)
                && (filter.since.Some? ==> h.date >= filter.since.value)
                && (filter.until.Some? ==> h.date <= filter.until.value)
                && exists r :: && r in messages && messages[r].chat_id == h.chat_id
                               && messages[r].message_id == h.message_id && messages[r].date == h.date
                               && Occurs(engine.tokens(query), Terms(engine, messages[r].text))
      ensures forall r :: r in messages && Occurs(engine.tokens(query), Terms(engine, messages[r].text))
                          && (filter.chat.Some? ==> messages[r].chat_id == filter.chat.value)
                          && (filter.since.Some? ==> messages[r].date >= filter.since.value)
                          && (filter.until.Some? ==> messages[r].date <= filter.until.value)
                          ==> || (exists h :: && h in hits && h.chat_id == messages[r].chat_id
                                              && h.message_id == messages[r].message_id && h.date == messages[r].date)
                              || (|hits| == 100 && forall h :: h in hits ==> h.date >= messages[r].date)
    {
      hide Occurs;
      var match_arg := PhraseEscape(query);
      SearchRefinesScan(engine, State(), query, filter);
      var want := Selected(engine, State(), match_arg, filter);
      var rows := SelectTop(Dates(messages), want, SEARCH_LIMIT);
      hits := [];
      for i := 0 to |rows|
        invariant |hits| == i
        invariant forall k :: 0 <= k < i ==> rows[k] in messages && hits[k] == HitOf(messages[rows[k]])
      {
        assert rows[i] in want;
        hits := hits + [HitOf(messages[rows[i]])];
      }
      assert DescribeRows(messages, rows, hits);
      assert AreNewestHits(messages, Scan(engine, messages, query, filter), SEARCH_LIMIT, hits);
      HitsAreOrdered(engine, messages, query, filter, hits);
      HitsMeetFilters(engine, messages, query, filter, hits);
      NewestAreHit(engine, messages, query, filter, hits);
    }

    /** Every chat, latest activity first, with its last message id and its unread count. */
    method ListChats() returns (out: seq<ChatSummary>)
      requires Valid()
      ensures exists b :: CollectedFrom(kv, kv.Keys, b) && AreSummaries(messages, chats, b, out)
      ensures |out| == |chats| && forall c: i64 :: c in chats ==> exists s :: s in out && s.info == chats[c]
      ensures forall i, j :: 0 <= i < j < |out| ==>
                out[i].info.last_seen >= out[j].info.last_seen && out[i].info.chat_id != out[j].info.chat_id
    {
      hide IsSummary, Agrees, CollectedFrom;
      var ordered := SelectTop(LastSeen(chats), chats.Keys, |chats|);
      var baselines := ScanBaselines(kv);
      out := [];
      for i := 0 to |ordered|
        invariant |out| == i
        invariant forall k :: 0 <= k < i ==> IsSummary(messages, chats, baselines, ordered[k], out[k])
      {
        assert ordered[i] in chats.Keys;
        var s := Summarise(messages, chats, baselines, ordered[i]);
        out := out + [s];
      }
      assert SummariseRows(messages, chats, baselines, ordered, out);
      ListingIsOrdered(messages, chats, baselines, ordered, out);
    }
  }

  /** A page in terms of its rows: between the cursors, newest first, and nothing newer left out. */
  lemma PageListsNewest(ms: Messages, chat: int, before: Option<int>, after: Option<int>, limit: int,
                        out: seq<StoredMessage>)
    requires Keyed(ms) && IsPage(ms, chat, before, after, limit, out)
    ensures forall i :: 0 <= i < |out| ==>
              && Stored(ms, out[i]) && out[i].chat_id == chat
              && (before.Some? ==> out[i].message_id < before.value)
              && (after.Some? ==> out[i].message_id > after.value)
    ensures forall i, j :: 0 <= i < j < |out| ==> out[i].message_id > out[j].message_id
    ensures limit >= 0 ==> |out| <= limit
    ensures forall r :: r in ms && ms[r].chat_id == chat && ms[r] !in out
                        && (before.Some? ==> ms[r].message_id < before.value)
                        && (after.Some? ==> ms[r].message_id > after.value)
                        ==> |out| == limit && forall m :: m in out ==> m.message_id > ms[r].message_id
  {
    hide Keyed, Stored, PageIds;
    PageIsTop(ms, chat, before, after, limit, out);
    var d := Descending(Window(ms, chat, before, after));
    forall i | 0 <= i < |out|
      ensures (before.Some? ==> out[i].message_id < before.value) && (after.Some? ==> out[i].message_id > after.value)
    {
      MemberOf(d, i);
    }
    forall r | r in ms && ms[r].chat_id == chat && ms[r] !in out
               && (before.Some? ==> ms[r].message_id < before.value)
               && (after.Some? ==> ms[r].message_id > after.value)
      ensures |out| == limit && forall m :: m in out ==> m.message_id > ms[r].message_id
    {
      assert InWindow(ms[r], chat, before, after);
      LeftOutIsOlder(ms, chat, before, after, limit, out, r);
    }
  }

  lemma PageIsTop(ms: Messages, chat: int, before: Option<int>, after: Option<int>, limit: int, out: seq<StoredMessage>)
    requires IsPage(ms, chat, before, after, limit, out)
    ensures var w := Window(ms, chat, before, after);
            var d := Descending(w);
            && StrictlyDescending(d) && Elements(d) == w && |d| == |w|
            && |out| == (if limit < 0 || |w| <= limit then |w| else limit)
            && forall i :: 0 <= i < |out| ==> out[i].message_id == d[i]
  {
    DescendingLists(Window(ms, chat, before, after));
    assert forall i :: 0 <= i < |out| ==> Ids(out)[i] == out[i].message_id;
  }

  lemma LeftOutIsOlder(ms: Messages, chat: int, before: Option<int>, after: Option<int>, limit: int,
                       out: seq<StoredMessage>, r: int)
    requires Keyed(ms) && IsPage(ms, chat, before, after, limit, out)
    requires r in ms && ms[r].chat_id == chat && ms[r] !in out && InWindow(ms[r], chat, before, after)
    ensures |out| == limit && forall m :: m in out ==> m.message_id > ms[r].message_id
  {
    hide InWindow, PageIds;
    PageIsTop(ms, chat, before, after, limit, out);
    var d := Descending(Window(ms, chat, before, after));
    assert ms[r].message_id in Window(ms, chat, before, after);
    var k :| 0 <= k < |d| && d[k] == ms[r].message_id;
    forall m | m in out ensures m.message_id != ms[r].message_id {
      var i :| 0 <= i < |out| && out[i] == m;
      var q :| q in ms && ms[q] == out[i];
      assert q != r && KeyOf(ms[q]) != KeyOf(ms[r]);
    }
    forall i | 0 <= i < |out| ensures d[i] != d[k] {
      assert out[i] in out;
    }
  }

  lemma HitsAreOrdered(e: Engine, ms: Messages, query: string, f: Filter, hits: seq<SearchHit>)
    requires Keyed(ms) && AreNewestHits(ms, Scan(e, ms, query, f), SEARCH_LIMIT, hits)
    ensures |hits| <= 100 && forall i, j :: 0 <= i < j < |hits| ==> hits[i].date >= hits[j].date
    ensures forall i, j :: 0 <= i < j < |hits| ==>
              hits[i].chat_id != hits[j].chat_id || hits[i].message_id != hits[j].message_id
  {
    hide Occurs;
    var rows :| NewestOf(ms, Scan(e, ms, query, f), SEARCH_LIMIT, rows) && DescribeRows(ms, rows, hits);
    forall i, j | 0 <= i < j < |hits|
      ensures hits[i].date >= hits[j].date
      ensures hits[i].chat_id != hits[j].chat_id || hits[i].message_id != hits[j].message_id
    {
      assert Dates(ms)[rows[i]] >= Dates(ms)[rows[j]];
      assert rows[i] != rows[j] && KeyOf(ms[rows[i]]) != KeyOf(ms[rows[j]]);
    }
  }

  lemma HitsMeetFilters(e: Engine, ms: Messages, query: string, f: Filter, hits: seq<SearchHit>)
    requires AreNewestHits(ms, Scan(e, ms, query, f), SEARCH_LIMIT, hits)
    ensures forall h :: h in hits ==>
              && (f.chat.Some? ==> h.chat_id == f.chat.value)
              && (f.since.Some? ==> h.date >= f.since.value)
              && (f.until.Some? ==> h.date <= f.until.value)
              && exists r :: && r in ms && ms[r].chat_id == h.chat_id
                             && ms[r].message_id == h.message_id && ms[r].date == h.date
                             && Occurs(e.tokens(query), Terms(e, ms[r].text))
  {
    hide Occurs;
    var rows :| NewestOf(ms, Scan(e, ms, query, f), SEARCH_LIMIT, rows) && DescribeRows(ms, rows, hits);
    forall h | h in hits
      ensures && (f.chat.Some? ==> h.chat_id == f.chat.value)
              && (f.since.Some? ==> h.date >= f.since.value)
              && (f.until.Some? ==> h.date <= f.until.value)
              && exists r :: && r in ms && ms[r].chat_id == h.chat_id
                             && ms[r].message_id == h.message_id && ms[r].date == h.date
                             && Occurs(e.tokens(query), Terms(e, ms[r].text))
    {
      var i :| 0 <= i < |hits| && hits[i] == h;
      ScannedRow(e, ms, query, f, rows[i]);
      assert ms[rows[i]].chat_id == h.chat_id;
    }
  }

  lemma ScannedRow(e: Engine, ms: Messages, query: string, f: Filter, r: int)
    requires r in Scan(e, ms, query, f)
    ensures r in ms && Occurs(e.tokens(query), Terms(e, ms[r].text))
    ensures f.chat.Some? ==> ms[r].chat_id == f.chat.value
    ensures f.since.Some? ==> ms[r].date >= f.since.value
    ensures f.until.Some? ==> ms[r].date <= f.until.value
  {
  }

  lemma NewestAreHit(e: Engine, ms: Messages, query: string, f: Filter, hits: seq<SearchHit>)
    requires AreNewestHits(ms, Scan(e, ms, query, f), SEARCH_LIMIT, hits)
    ensures forall r :: r in ms && Occurs(e.tokens(query), Terms(e, ms[r].text))
                        && (f.chat.Some? ==> ms[r].chat_id == f.chat.value)
                        && (f.since.Some? ==> ms[r].date >= f.since.value)
                        && (f.until.Some? ==> ms[r].date <= f.until.value)
                        ==> || (exists h :: && h in hits && h.chat_id == ms[r].chat_id
                                            && h.message_id == ms[r].message_id && h.date == ms[r].date)
                            || (|hits| == 100 && forall h :: h in hits ==> h.date >= ms[r].date)
  {
    hide Occurs;
    var want := Scan(e, ms, query, f);
    var rows :| NewestOf(ms, want, SEARCH_LIMIT, rows) && DescribeRows(ms, rows, hits);
    forall r | r in want
      ensures || (exists h :: && h in hits && h.chat_id == ms[r].chat_id
                              && h.message_id == ms[r].message_id && h.date == ms[r].date)
              || (|hits| == 100 && forall h :: h in hits ==> h.date >= ms[r].date)
    {
      if r in rows {
        var i :| 0 <= i < |rows| && rows[i] == r;
        assert hits[i] in hits && hits[i] == HitOf(ms[r]);
      } else {
        assert |rows| < |want| by {
          DistinctLength(rows);
          SubsetSize(Elements(rows), want);
        }
        forall h | h in hits ensures h.date >= ms[r].date {
          var i :| 0 <= i < |hits| && hits[i] == h;
          assert Dates(ms)[r] <= Dates(ms)[rows[i]];
        }
      }
    }
  }

  /** `hits` describe the rows `rows`, one by one. */
  ghost predicate DescribeRows(ms: Messages, rows: seq<int>, hits: seq<SearchHit>) {
    |hits| == |rows| && forall i :: 0 <= i < |rows| ==> rows[i] in ms && hits[i] == HitOf(ms[rows[i]])
  }

  /** `hits` are the newest `n` of the rows `want`, newest first. */
  ghost predicate AreNewestHits(ms: Messages, want: set<int>, n: nat, hits: seq<SearchHit>)
    requires want <= ms.Keys
  {
    exists rows :: NewestOf(ms, want, n, rows) && DescribeRows(ms, rows, hits)
  }

  ghost predicate SummariseRows(ms: Messages, chats: map<i64, ChatInfo>, baselines: map<int, int>, ordered: seq<int>,
                                out: seq<ChatSummary>) {
    |out| == |ordered| && forall i :: 0 <= i < |out| ==> IsSummary(ms, chats, baselines, ordered[i], out[i])
  }

  /** `out` summarises every chat once, latest `last_seen` first. */
  ghost predicate AreSummaries(ms: Messages, chats: map<i64, ChatInfo>, baselines: map<int, int>, out: seq<ChatSummary>)
  {
    exists ordered :: && TopRows(LastSeen(chats), chats.Keys, |chats|, ordered)
                      && SummariseRows(ms, chats, baselines, ordered, out)
  }

  /** `s` describes `chat`: its stored row, its highest message id, its inbound rows above its baseline. */
  ghost predicate IsSummary(ms: Messages, chats: map<i64, ChatInfo>, baselines: map<int, int>, chat: int,
                            s: ChatSummary)
  {
    && chat in chats && s.info == chats[chat]
    && (s.last_message_id.None? ==> forall r :: r in ms ==> ms[r].chat_id != chat)
    && (s.last_message_id.Some? ==>
          && (exists r :: r in ms && ms[r].chat_id == chat && ms[r].message_id == s.last_message_id.value)
          && (forall r :: r in ms && ms[r].chat_id == chat ==> ms[r].message_id <= s.last_message_id.value))
    && var baseline := if chat in baselines then baselines[chat] else 0;
       s.unread_count ==
       |set r | r in ms && ms[r].chat_id == chat && ms[r].direction == In && ms[r].message_id > baseline|
  }

  method Summarise(ms: Messages, chats: map<i64, ChatInfo>, baselines: map<int, int>,
                   chat: int) returns (s: ChatSummary)
    requires chat in chats
    ensures IsSummary(ms, chats, baselines, chat, s)
  {
    var ids := ChatIds(ms, chat);
    var last := None;
    if ids != {} {
      HasGreatest(ids);
      var m :| m in ids && forall x :: x in ids ==> x <= m;
      last := Some(m);
    }
    var baseline := if chat in baselines then baselines[chat] else 0;
    assert UnreadRows(ms, chat, baseline) ==
           set r | r in ms && ms[r].chat_id == chat && ms[r].direction == In && ms[r].message_id > baseline;
    forall r | r in ms && ms[r].chat_id == chat ensures ms[r].message_id in ids {
    }
    s := ChatSummary(chats[chat], |UnreadRows(ms, chat, baseline)|, last);
  }

  /** All chats are listed, each once. */
  lemma EveryChatListed(chats: map<i64, ChatInfo>, ordered: seq<int>)
    requires TopRows(LastSeen(chats), chats.Keys, |chats|, ordered)
    ensures Elements(ordered) == chats.Keys && |ordered| == |chats|
  {
    var all: set<int> := chats.Keys;
    assert |all| == |chats|;
    DistinctLength(ordered);
    SubsetSize(Elements(ordered), all);
  }

  lemma SummaryInfo(ms: Messages, chats: map<i64, ChatInfo>, baselines: map<int, int>, chat: int, s: ChatSummary)
    requires IsSummary(ms, chats, baselines, chat, s)
    ensures chat in chats && s.info == chats[chat]
  {
  }

  lemma ListingIsOrdered(ms: Messages, chats: map<i64, ChatInfo>, baselines: map<int, int>, ordered: seq<int>,
                         out: seq<ChatSummary>)
    requires forall c :: c in chats ==> chats[c].chat_id == c
    requires TopRows(LastSeen(chats), chats.Keys, |chats|, ordered)
    requires SummariseRows(ms, chats, baselines, ordered, out)
    ensures |out| == |chats| && forall c: i64 :: c in chats ==> exists s :: s in out && s.info == chats[c]
    ensures forall i, j :: 0 <= i < j < |out| ==>
              out[i].info.last_seen >= out[j].info.last_seen && out[i].info.chat_id != out[j].info.chat_id
  {
    EveryChatListed(chats, ordered);
    hide IsSummary;
    forall i | 0 <= i < |out|
      ensures ordered[i] in chats.Keys && out[i].info == chats[ordered[i] as i64]
    {
      SummaryInfo(ms, chats, baselines, ordered[i], out[i]);
    }
    forall c: i64 | c in chats ensures exists s :: s in out && s.info == chats[c] {
      assert c in Elements(ordered);
      var i :| 0 <= i < |ordered| && ordered[i] == c;
      assert out[i] in out;
    }
    forall i, j | 0 <= i < j < |out|
      ensures out[i].info.last_seen >= out[j].info.last_seen && out[i].info.chat_id != out[j].info.chat_id
    {
      assert LastSeen(chats)[ordered[i]] >= LastSeen(chats)[ordered[j]] && ordered[i] != ordered[j];
    }
  }

  /**
   * After any run, a listed chat's unread count is its inbound rows above a baseline last written for it, and above the
   * id last marked read unless some other number was written for it.
   */
  lemma {:induction false} ListedUnreadIsSinceLastMark(e: Engine, ops: seq<Op>, db: Db, baselines: map<int, int>,
                                                       out: seq<ChatSummary>, i: nat)
    requires db == RunOps(e, EMPTY, ops) && CollectedFrom(db.kv, db.kv.Keys, baselines)
    requires AreSummaries(db.messages, db.chats, baselines, out) && i < |out|
    ensures var chat, ms := out[i].info.chat_id, db.messages;
            && (exists n :: MayUse(ops, chat, n)
                  && out[i].unread_count ==
                     |set r | r in ms && ms[r].chat_id == chat && ms[r].direction == In && ms[r].message_id > n|)
            && (Undisturbed(ops, chat) ==>
                  out[i].unread_count ==
                  |set r | r in ms && ms[r].chat_id == chat && ms[r].direction == In
                           && ms[r].message_id > LastMarked(ops, chat)|)
  {
    hide CollectedFrom, MayUse, RunOps;
    RunsStaySound(e, ops);
    var ordered :| && TopRows(LastSeen(db.chats), db.chats.Keys, |db.chats|, ordered)
                   && SummariseRows(db.messages, db.chats, baselines, ordered, out);
    assert IsSummary(db.messages, db.chats, baselines, ordered[i], out[i]);
    ScanUsesWritten(e, ops, baselines, out[i].info.chat_id);
  }
}
