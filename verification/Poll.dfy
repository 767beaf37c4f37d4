/** Finding the replies among the messages after the wakeup. */
module Poll {
  import opened Common
  import opened Ordering
  import opened Tables
  import opened Paging

  datatype Reply = Reply(message_id: int, text: Option<string>)

  /** One decoded element of the `tg_history_messages` array; a field is absent or of the wrong type when None. */
  datatype HistoryRow = HistoryRow(message_id: Option<int>, direction: Option<string>, text: Option<string>)

  const POLL_LIMIT := 50

  predicate IsInbound(row: HistoryRow) {
    row.direction == Some("in") && row.message_id.Some?
  }

  function Inbound(rows: seq<HistoryRow>): seq<Reply> {
    if rows == [] then
      []
    else
      var last := rows[|rows| - 1];
      var kept := Inbound(rows[..|rows| - 1]);
      if IsInbound(last) then kept + [Reply(last.message_id.value, last.text)] else kept
  }

  /** Stable sort by message id. */
  function SortById(rs: seq<Reply>): seq<Reply> {
    if rs == [] then [] else InsertById(rs[0], SortById(rs[1..]))
  }

  function InsertById(r: Reply, sorted: seq<Reply>): seq<Reply> {
    if sorted == [] || r.message_id <= sorted[0].message_id then
      [r] + sorted
    else
      [sorted[0]] + InsertById(r, sorted[1..])
  }

  ghost predicate SortedById(rs: seq<Reply>) {
    forall i, j :: 0 <= i < j < |rs| ==> rs[i].message_id <= rs[j].message_id
  }

  function WithId(rs: seq<Reply>, id: int): seq<Reply> {
    if rs == [] then []
    else if rs[0].message_id == id then [rs[0]] + WithId(rs[1..], id)
    else WithId(rs[1..], id)
  }

  lemma {:induction false} InsertKeeps(r: Reply, sorted: seq<Reply>)
    ensures multiset(InsertById(r, sorted)) == multiset{r} + multiset(sorted)
  {
    if sorted == [] || r.message_id <= sorted[0].message_id {
    } else {
      InsertKeeps(r, sorted[1..]);
      assert sorted == [sorted[0]] + sorted[1..];
    }
  }

  lemma {:induction false} InsertSorts(r: Reply, sorted: seq<Reply>)
    requires SortedById(sorted)
    ensures SortedById(InsertById(r, sorted))
  {
    if sorted == [] || r.message_id <= sorted[0].message_id {
    } else {
      var rest := InsertById(r, sorted[1..]);
      InsertSorts(r, sorted[1..]);
      InsertKeeps(r, sorted[1..]);
      forall i | 0 <= i < |rest| ensures sorted[0].message_id <= rest[i].message_id {
        assert rest[i] in multiset(rest);
      }
    }
  }

  lemma {:induction false} InsertIsStable(r: Reply, sorted: seq<Reply>, id: int)
    requires SortedById(sorted)
    ensures WithId(InsertById(r, sorted), id) == WithId([r], id) + WithId(sorted, id)
  {
    if sorted == [] || r.message_id <= sorted[0].message_id {
      assert ([r] + sorted)[1..] == sorted;
    } else {
      var rest := InsertById(r, sorted[1..]);
      InsertIsStable(r, sorted[1..], id);
      assert ([sorted[0]] + rest)[1..] == rest;
      if sorted[0].message_id == id {
        assert r.message_id != id;
      }
    }
  }

  /** The sort orders the replies and keeps each of them... */
  lemma {:induction false} SortSorts(rs: seq<Reply>)
    ensures SortedById(SortById(rs))
    ensures multiset(SortById(rs)) == multiset(rs)
  {
    if rs != [] {
      SortSorts(rs[1..]);
      InsertSorts(rs[0], SortById(rs[1..]));
      InsertKeeps(rs[0], SortById(rs[1..]));
      assert rs == [rs[0]] + rs[1..];
    }
  }

  /** ...and leaves replies with equal ids in their order. */
  lemma {:induction false} SortIsStable(rs: seq<Reply>, id: int)
    ensures WithId(SortById(rs), id) == WithId(rs, id)
  {
    if rs != [] {
      SortSorts(rs[1..]);
      SortIsStable(rs[1..], id);
      InsertIsStable(rs[0], SortById(rs[1..]), id);
    }
  }

  /** `parse_replies`: keep the inbound rows, oldest first. */
  method ParseReplies(rows: seq<HistoryRow>) returns (replies: seq<Reply>)
    ensures SortedById(replies)
    ensures multiset(replies) == multiset(Inbound(rows))
    ensures replies == SortById(Inbound(rows))
  {
    replies := [];
    for i := 0 to |rows|
      invariant replies == Inbound(rows[..i])
    {
      assert rows[..i + 1][..i] == rows[..i];
      if IsInbound(rows[i]) {
        replies := replies + [Reply(rows[i].message_id.value, rows[i].text)];
      }
    }
    assert rows[..|rows|] == rows;
    SortSorts(replies);
    replies := SortById(replies);
  }

  // -- a poll against the table ----------------------------------------------------------

  function DirectionName(d: Direction): string {
    if d.In? then "in" else "out"
  }

  function Decoded(page: seq<StoredMessage>): (rows: seq<HistoryRow>)
    ensures |rows| == |page|
    ensures forall i :: 0 <= i < |page| ==>
              rows[i] == HistoryRow(Some(page[i].message_id), Some(DirectionName(page[i].direction)), page[i].text)
  {
    seq(|page|, i requires 0 <= i < |page| =>
      HistoryRow(Some(page[i].message_id), Some(DirectionName(page[i].direction)), page[i].text))
  }

  lemma {:induction false} InboundMembers(rows: seq<HistoryRow>, x: Reply)
    ensures x in Inbound(rows) <==>
            exists i :: 0 <= i < |rows| && IsInbound(rows[i]) && x == Reply(rows[i].message_id.value, rows[i].text)
  {
    if rows != [] {
      var n := |rows| - 1;
      InboundMembers(rows[..n], x);
      forall i | 0 <= i < n ensures rows[..n][i] == rows[i] {}
      if x in Inbound(rows[..n]) {
        var i :| 0 <= i < n && IsInbound(rows[..n][i]) && x == Reply(rows[..n][i].message_id.value, rows[..n][i].text);
        assert rows[..n][i] == rows[i];
      }
    }
  }

  ghost predicate NewestFirst(rs: seq<Reply>) {
    forall i, j :: 0 <= i < j < |rs| ==> rs[i].message_id > rs[j].message_id
  }

  ghost predicate OldestFirst(rs: seq<Reply>) {
    forall i, j :: 0 <= i < j < |rs| ==> rs[i].message_id < rs[j].message_id
  }

  /** Replies taken from a page have as strictly ordered ids as the page. */
  lemma {:induction false} InboundDescends(page: seq<StoredMessage>)
    requires forall i, j :: 0 <= i < j < |page| ==> page[i].message_id > page[j].message_id
    ensures NewestFirst(Inbound(Decoded(page)))
  {
    if page != [] {
      var n := |page| - 1;
      var init := page[..n];
      assert Decoded(page)[..n] == Decoded(init);
      InboundDescends(init);
      InboundBelow(init, page[n].message_id);
      assert Decoded(page)[n] == Decoded(page)[|Decoded(page)| - 1];
    }
  }

  lemma InboundBelow(page: seq<StoredMessage>, id: int)
    requires forall i :: 0 <= i < |page| ==> page[i].message_id > id
    ensures forall k :: 0 <= k < |Inbound(Decoded(page))| ==> Inbound(Decoded(page))[k].message_id > id
  {
    var rs := Inbound(Decoded(page));
    forall k | 0 <= k < |rs| ensures rs[k].message_id > id {
      InboundMembers(Decoded(page), rs[k]);
    }
  }

  /** The server's clamp on a requested page size. */
  function ClampLimit(limit: int): (n: int)
    ensures 1 <= n <= 500
    ensures 1 <= limit <= 500 ==> n == limit
    ensures limit < 1 ==> n == 1
    ensures limit > 500 ==> n == 500
  {
    Max(1, Min(limit, 500))
  }

  /** Whatever limit a client of the tool asks for, paging to the end sees every message of the chat. */
  lemma {:induction false} ToolPagingIsComplete(ms: Messages, chat: int, after: Option<int>, requested: int)
    ensures Walk(ms, chat, None, after, ClampLimit(requested)) == Descending(Window(ms, chat, None, after))
  {
    WalkIsComplete(ms, chat, None, after, ClampLimit(requested));
  }

  ghost function PollReplies(page: seq<StoredMessage>): seq<Reply> {
    SortById(Inbound(Decoded(page)))
  }

  /** The chat's ids above `id`. */
  ghost function Above(ms: Messages, chat: int, id: int): set<int> {
    set x | x in ChatIds(ms, chat) && x > id
  }

  /**
   * One poll of any table: the replies come oldest first, and a stored row is among them exactly when it is
   * inbound, above the baseline, and among the newest fifty rows of its chat.
   */
  lemma PollIsExact(ms: Messages, chat: int, baseline: int, page: seq<StoredMessage>, r: int)
    requires Keyed(ms)
    requires IsPage(ms, chat, None, Some(baseline), POLL_LIMIT, page)
    requires r in ms && ms[r].chat_id == chat
    ensures var m := ms[r];
            Reply(m.message_id, m.text) in PollReplies(page) <==>
            m.direction.In? && m.message_id > baseline && |Above(ms, chat, m.message_id)| < 50
  {
    var m := ms[r];
    var found := Inbound(Decoded(page));
    var x := Reply(m.message_id, m.text);
    SortSorts(found);
    assert x in SortById(found) <==> x in multiset(SortById(found));
    assert x in found <==> x in multiset(found);
    InboundMembers(Decoded(page), x);
    PageMembership(ms, chat, baseline, page, m.message_id);
    forall k | 0 <= k < |page| && page[k].message_id == m.message_id ensures page[k] == m {
      var q :| q in ms && ms[q] == page[k];
      assert KeyOf(ms[r]) == KeyOf(ms[q]);
    }
    if m.message_id in Ids(page) {
      var k :| 0 <= k < |page| && Ids(page)[k] == m.message_id;
      assert page[k] == m;
      assert IsInbound(Decoded(page)[k]) <==> m.direction.In?;
    }
    if x in found {
      var k :| 0 <= k < |page| && IsInbound(Decoded(page)[k]) && x.message_id == page[k].message_id;
      assert Ids(page)[k] == m.message_id && page[k] == m;
    }
    assert m.message_id in ChatIds(ms, chat);
  }

  /** A chat's id is on the poll's page exactly when it is above the baseline and has fewer than fifty ids above it. */
  lemma {:induction false} PageMembership(ms: Messages, chat: int, baseline: int, page: seq<StoredMessage>, id: int)
    requires IsPage(ms, chat, None, Some(baseline), POLL_LIMIT, page)
    ensures id in Ids(page) <==>
            id in ChatIds(ms, chat) && id > baseline && |Above(ms, chat, id)| < POLL_LIMIT
  {
    var w := Window(ms, chat, None, Some(baseline));
    var d := Descending(w);
    DescendingLists(w);
    var n := Min(POLL_LIMIT, |w|);
    assert Ids(page) == d[..n];
    assert id in w <==> id in ChatIds(ms, chat) && id > baseline by {
      if id in ChatIds(ms, chat) && id > baseline {
        var r :| r in ms && ms[r].chat_id == chat && ms[r].message_id == id;
        assert InWindow(ms[r], chat, None, Some(baseline));
      }
    }
    PrefixIsTop(d, n, id);
    assert id in d <==> id in Elements(d);
    if id in w {
      var higher := set y | y in Elements(d) && y > id;
      forall y ensures y in higher <==> y in Above(ms, chat, id) {
        if y in Above(ms, chat, id) {
          var r :| r in ms && ms[r].chat_id == chat && ms[r].message_id == y;
          assert InWindow(ms[r], chat, None, Some(baseline));
        }
      }
      assert higher == Above(ms, chat, id);
      if n < POLL_LIMIT {
        assert higher <= w - {id};
        SubsetSize(higher, w - {id});
      }
    }
  }

  ghost predicate IsReply(ms: Messages, chat: int, baseline: int, x: Reply) {
    exists m :: && Stored(ms, m) && m.chat_id == chat && m.direction.In?
                && m.message_id > baseline && x == Reply(m.message_id, m.text)
  }

  /** The replies are strictly oldest first and all stored, inbound and above the baseline: nothing sent becomes one. */
  lemma RepliesAscend(ms: Messages, chat: int, baseline: int, page: seq<StoredMessage>)
    requires IsPage(ms, chat, None, Some(baseline), POLL_LIMIT, page)
    ensures var rs := PollReplies(page);
            && OldestFirst(rs)
            && (forall x :: x in rs ==> IsReply(ms, chat, baseline, x))
  {
    var found := Inbound(Decoded(page));
    var rs := SortById(found);
    DescendingLists(Window(ms, chat, None, Some(baseline)));
    forall i, j | 0 <= i < j < |page| ensures page[i].message_id > page[j].message_id {
      assert Ids(page)[i] > Ids(page)[j];
    }
    InboundDescends(page);
    SortSorts(found);
    DistinctSortedAscends(found, rs);
    forall x | x in rs ensures IsReply(ms, chat, baseline, x) {
      assert x in multiset(rs);
      FoundIsReply(ms, chat, baseline, page, x);
    }
  }

  lemma FoundIsReply(ms: Messages, chat: int, baseline: int, page: seq<StoredMessage>, x: Reply)
    requires IsPage(ms, chat, None, Some(baseline), POLL_LIMIT, page)
    requires x in Inbound(Decoded(page))
    ensures IsReply(ms, chat, baseline, x)
  {
    InboundMembers(Decoded(page), x);
    var k :| 0 <= k < |page| && IsInbound(Decoded(page)[k]) && x == Reply(page[k].message_id, page[k].text);
    PageMembership(ms, chat, baseline, page, page[k].message_id);
    assert Ids(page)[k] in Ids(page);
    assert Stored(ms, page[k]);
  }

  /** Sorting a strictly descending list by the same key leaves no ties. */
  lemma DistinctSortedAscends(found: seq<Reply>, rs: seq<Reply>)
    requires NewestFirst(found)
    requires SortedById(rs) && multiset(rs) == multiset(found)
    ensures OldestFirst(rs)
  {
    forall i, j | 0 <= i < j < |rs| ensures rs[i].message_id < rs[j].message_id {
      if rs[i].message_id == rs[j].message_id {
        var a, b := rs[i], rs[j];
        assert a in multiset(rs) && b in multiset(rs);
        var p :| 0 <= p < |found| && found[p] == a;
        var q :| 0 <= q < |found| && found[q] == b;
        assert p == q;
        TwiceCounts(rs, i, j);
        OnceCounts(found, p);
        assert false;
      }
    }
  }

  lemma TwiceCounts(rs: seq<Reply>, i: nat, j: nat)
    requires i < j < |rs| && rs[i] == rs[j]
    ensures multiset(rs)[rs[i]] >= 2
  {
    assert rs == rs[..i] + [rs[i]] + rs[i + 1..j] + [rs[j]] + rs[j + 1..];
  }

  lemma OnceCounts(found: seq<Reply>, p: nat)
    requires NewestFirst(found)
    requires p < |found|
    ensures multiset(found)[found[p]] == 1
  {
    assert found == found[..p] + [found[p]] + found[p + 1..];
    assert found[p] !in found[..p] && found[p] !in found[p + 1..];
  }

  /** With at most fifty rows above the baseline no inbound one is missed. */
  lemma NoReplyMissed(ms: Messages, chat: int, baseline: int, page: seq<StoredMessage>, r: int)
    requires Keyed(ms)
    requires IsPage(ms, chat, None, Some(baseline), POLL_LIMIT, page)
    requires |Above(ms, chat, baseline)| <= 50
    requires r in ms && ms[r].chat_id == chat && ms[r].direction.In? && ms[r].message_id > baseline
    ensures Reply(ms[r].message_id, ms[r].text) in PollReplies(page)
  {
    var m := ms[r];
    assert m.message_id in Above(ms, chat, baseline);
    assert Above(ms, chat, m.message_id) <= Above(ms, chat, baseline) - {m.message_id};
    SubsetSize(Above(ms, chat, m.message_id), Above(ms, chat, baseline) - {m.message_id});
    PollIsExact(ms, chat, baseline, page, r);
  }

  /** A row a poll answers with: inbound, above the baseline, and with fewer than fifty newer rows in its chat. */
  ghost predicate IsAwaited(ms: Messages, chat: int, baseline: int, m: StoredMessage) {
    && Stored(ms, m) && m.chat_id == chat && m.direction.In?
    && m.message_id > baseline && |Above(ms, chat, m.message_id)| < POLL_LIMIT
  }

  ghost predicate IsAwaitedReply(ms: Messages, chat: int, baseline: int, x: Reply) {
    exists m :: IsAwaited(ms, chat, baseline, m) && x == Reply(m.message_id, m.text)
  }

  /** `rs` are those rows and no others, oldest first. */
  ghost predicate AreAwaited(ms: Messages, chat: int, baseline: int, rs: seq<Reply>) {
    OldestFirst(rs) && forall x :: x in rs <==> IsAwaitedReply(ms, chat, baseline, x)
  }

  lemma PageAnswers(ms: Messages, chat: int, baseline: int, page: seq<StoredMessage>)
    requires Keyed(ms) && IsPage(ms, chat, None, Some(baseline), POLL_LIMIT, page)
    ensures AreAwaited(ms, chat, baseline, PollReplies(page))
  {
    hide PollReplies, IsPage, Above, OldestFirst;
    RepliesAscend(ms, chat, baseline, page);
    forall x ensures x in PollReplies(page) <==> IsAwaitedReply(ms, chat, baseline, x) {
      if x in PollReplies(page) {
        assert IsReply(ms, chat, baseline, x);
        var m :| && Stored(ms, m) && m.chat_id == chat && m.direction.In?
                 && m.message_id > baseline && x == Reply(m.message_id, m.text);
        var r :| r in ms && ms[r] == m;
        PollIsExact(ms, chat, baseline, page, r);
        assert IsAwaited(ms, chat, baseline, m);
      }
      if IsAwaitedReply(ms, chat, baseline, x) {
        var m :| IsAwaited(ms, chat, baseline, m) && x == Reply(m.message_id, m.text);
        var r :| r in ms && ms[r] == m;
        PollIsExact(ms, chat, baseline, page, r);
      }
    }
  }

  /** `poll_once`: one page of everything after the baseline, inbound rows only, oldest first. */
  method PollOnce(ms: Messages, chat: int, baseline: int) returns (replies: seq<Reply>)
    requires Keyed(ms)
    ensures AreAwaited(ms, chat, baseline, replies)
  {
    var page := ReadPage(ms, chat, None, Some(baseline), ClampLimit(POLL_LIMIT));
    replies := ParseReplies(Decoded(page));
    PageAnswers(ms, chat, baseline, page);
  }

  lemma SomeAwaited(ms: Messages, chat: int, baseline: int, rs: seq<Reply>)
    requires AreAwaited(ms, chat, baseline, rs)
    ensures rs != [] <==> exists m :: IsAwaited(ms, chat, baseline, m)
  {
    if rs != [] {
      assert IsAwaitedReply(ms, chat, baseline, rs[0]);
    }
    if m :| IsAwaited(ms, chat, baseline, m) {
      assert IsAwaitedReply(ms, chat, baseline, Reply(m.message_id, m.text));
    }
  }

  /** A chat in which one inbound message, id 1, is followed by fifty that the hook sent. */
  function Buried(): Messages {
    map r: int | 1 <= r <= 51 :: BuriedRow(r)
  }

  function BuriedRow(r: int): StoredMessage
    requires 1 <= r <= 51
  {
    StoredMessage(7, r, 0, Some("text"), if r == 1 then In else Out, "")
  }

  lemma FiftyAbove()
    ensures |Above(Buried(), 7, 1)| == 50
  {
    var ids := seq(50, i => i + 2);
    DistinctLength(ids);
    forall x ensures x in Above(Buried(), 7, 1) <==> x in Elements(ids) {
      if 2 <= x <= 51 {
        assert Buried()[x].message_id == x && ids[x - 2] == x;
      }
    }
    assert Above(Buried(), 7, 1) == Elements(ids);
  }

  /** A poll of that chat after baseline 0 answers with nothing, although the message is there to answer with. */
  lemma BuriedReplyIsLost(replies: seq<Reply>)
    requires AreAwaited(Buried(), 7, 0, replies)
    ensures replies == [] && Stored(Buried(), Buried()[1]) && Buried()[1].direction.In? && Buried()[1].message_id > 0
  {
    FiftyAbove();
    forall m ensures !IsAwaited(Buried(), 7, 0, m) {
    }
    SomeAwaited(Buried(), 7, 0, replies);
  }
}
