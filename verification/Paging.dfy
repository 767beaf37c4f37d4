/** Cursor paging over one chat's messages. */
module Paging {
  import opened Common
  import opened Ordering
  import opened Tables

  predicate InWindow(m: StoredMessage, chat: int, before: Option<int>, after: Option<int>) {
    && m.chat_id == chat
    && (before.Some? ==> m.message_id < before.value)
    && (after.Some? ==> m.message_id > after.value)
  }

  /** Message ids of `chat` strictly between the two cursors. */
  function Window(ms: Messages, chat: int, before: Option<int>, after: Option<int>): set<int> {
    set r | r in ms && InWindow(ms[r], chat, before, after) :: ms[r].message_id
  }

  /** SQLite's LIMIT: a negative limit is no limit. */
  function Cut(limit: int, available: nat): nat {
    if limit < 0 then available else Min(limit, available)
  }

  /** Ids of the page: the window, largest id first, cut at the limit. */
  ghost function PageIds(ms: Messages, chat: int, before: Option<int>, after: Option<int>, limit: int): seq<int> {
    var w := Window(ms, chat, before, after);
    DescendingLists(w);
    Descending(w)[..Cut(limit, |w|)]
  }

  function Ids(rows: seq<StoredMessage>): (ids: seq<int>)
    ensures |ids| == |rows|
    ensures forall i :: 0 <= i < |rows| ==> ids[i] == rows[i].message_id
  {
    if rows == [] then [] else [rows[0].message_id] + Ids(rows[1..])
  }

  /** `out` is the page: stored rows of the chat, in page order. */
  ghost predicate IsPage(ms: Messages, chat: int, before: Option<int>, after: Option<int>, limit: int,
                         out: seq<StoredMessage>) {
    && Ids(out) == PageIds(ms, chat, before, after, limit)
    && forall i :: 0 <= i < |out| ==> Stored(ms, out[i]) && out[i].chat_id == chat
  }

  /** What a descending sequence has left after `n` elements is what lies below the last one taken. */
  lemma TailIsBelow(d: seq<int>, n: nat)
    requires StrictlyDescending(d)
    requires 0 < n <= |d|
    ensures StrictlyDescending(d[n..])
    ensures Elements(d[n..]) == set x | x in Elements(d) && x < d[n - 1]
  {
    forall x | x in Elements(d) && x < d[n - 1] ensures x in Elements(d[n..]) {
      var k :| 0 <= k < |d| && d[k] == x;
      assert d[n..][k - n] == x;
    }
    forall x | x in Elements(d[n..]) ensures x in Elements(d) && x < d[n - 1] {
      var k :| 0 <= k < |d[n..]| && d[n..][k] == x;
      assert d[n + k] == x;
    }
  }

  function IdOf(ms: Messages): map<int, int> {
    map r | r in ms :: ms[r].message_id
  }

  function WindowRows(ms: Messages, chat: int, before: Option<int>, after: Option<int>): set<int> {
    set r | r in ms && InWindow(ms[r], chat, before, after)
  }

  /** `messages`: select the window's rows largest id first, then collect them one by one. */
  method ReadPage(ms: Messages, chat: int, before: Option<int>, after: Option<int>, limit: int)
    returns (out: seq<StoredMessage>)
    requires Keyed(ms)
    ensures IsPage(ms, chat, before, after, limit, out)
  {
    var want := WindowRows(ms, chat, before, after);
    var n := Cut(limit, |want|);
    var rows := SelectTop(IdOf(ms), want, n);
    out := [];
    for i := 0 to |rows|
      invariant |out| == i
      invariant forall k :: 0 <= k < i ==> Fetched(ms, chat, rows[k], out[k])
    {
      assert rows[i] in want;
      var m := ms[rows[i]];
      assert Fetched(ms, chat, rows[i], m);
      out := out + [m];
    }
    assert forall k :: 0 <= k < |out| ==> Fetched(ms, chat, rows[k], out[k]);
    SelectedIsPage(ms, chat, before, after, n, rows, Ids(out));
  }

  ghost predicate Fetched(ms: Messages, chat: int, row: int, m: StoredMessage) {
    row in ms && ms[row] == m && m.chat_id == chat
  }

  lemma SelectedIsPage(ms: Messages, chat: int, before: Option<int>, after: Option<int>, n: nat,
                       rows: seq<int>, ids: seq<int>)
    requires Keyed(ms)
    requires TopRows(IdOf(ms), WindowRows(ms, chat, before, after), n, rows)
    requires |ids| == |rows| && forall i :: 0 <= i < |rows| ==> ids[i] == IdOf(ms)[rows[i]]
    ensures |Window(ms, chat, before, after)| == |WindowRows(ms, chat, before, after)|
    ensures |rows| <= |Descending(Window(ms, chat, before, after))|
    ensures ids == Descending(Window(ms, chat, before, after))[..|rows|]
  {
    var want := WindowRows(ms, chat, before, after);
    forall r, q | r in want && q in want && IdOf(ms)[r] == IdOf(ms)[q] ensures r == q {
      assert KeyOf(ms[r]) == KeyOf(ms[q]);
    }
    forall x | x in Window(ms, chat, before, after) ensures exists r :: r in want && IdOf(ms)[r] == x {
      var r :| r in ms && InWindow(ms[r], chat, before, after) && ms[r].message_id == x;
      assert r in want && IdOf(ms)[r] == x;
    }
    TopKeysDescend(IdOf(ms), want, n, rows, Window(ms, chat, before, after), ids);
  }

  /** Moving `before` down to an id of the window keeps exactly the ids below it. */
  lemma WindowBelow(ms: Messages, chat: int, before: Option<int>, after: Option<int>, last: int)
    requires last in Window(ms, chat, before, after)
    ensures Window(ms, chat, Some(last), after) == set x | x in Window(ms, chat, before, after) && x < last
  {
    var w := Window(ms, chat, before, after);
    var next := Window(ms, chat, Some(last), after);
    forall x | x in w && x < last ensures x in next {
      var r :| r in ms && InWindow(ms[r], chat, before, after) && ms[r].message_id == x;
      assert InWindow(ms[r], chat, Some(last), after);
    }
    forall x | x in next ensures x in w {
      var r :| r in ms && InWindow(ms[r], chat, Some(last), after) && ms[r].message_id == x;
      assert InWindow(ms[r], chat, before, after);
    }
  }

  /** The page after a non-empty page, asked for with its last id as `before`, starts where it stopped. */
  lemma NextWindow(ms: Messages, chat: int, before: Option<int>, after: Option<int>, limit: int)
    requires PageIds(ms, chat, before, after, limit) != []
    ensures var page := PageIds(ms, chat, before, after, limit);
            var w := Window(ms, chat, before, after);
            var next := Window(ms, chat, Some(page[|page| - 1]), after);
            && |page| <= |Descending(w)| && page == Descending(w)[..|page|]
            && |next| < |w|
            && Descending(next) == Descending(w)[|page|..]
  {
    var page := PageIds(ms, chat, before, after, limit);
    var w := Window(ms, chat, before, after);
    DescendingLists(w);
    var last := LastTaken(w, |page|);
    WindowBelow(ms, chat, before, after, last);
    RestOfDescending(w, |page|);
  }

  ghost function LastTaken(w: set<int>, n: nat): (last: int)
    requires 0 < n <= |w|
    ensures |Descending(w)| == |w| && last == Descending(w)[n - 1] && last in w
  {
    DescendingLists(w);
    assert Descending(w)[n - 1] in Elements(Descending(w));
    Descending(w)[n - 1]
  }

  lemma RestOfDescending(w: set<int>, n: nat)
    requires 0 < n <= |w|
    ensures var rest := set x | x in w && x < LastTaken(w, n);
            Descending(rest) == Descending(w)[n..] && |rest| < |w|
  {
    var rest := set x | x in w && x < LastTaken(w, n);
    DescendingLists(w);
    DescendingLists(rest);
    TailIsBelow(Descending(w), n);
    DescendingUnique(Descending(rest), Descending(w)[n..]);
  }

  /** A client that keeps passing the last id it saw as `before` until a page comes back empty. */
  ghost function Walk(ms: Messages, chat: int, before: Option<int>, after: Option<int>, limit: int): seq<int>
    decreases |Window(ms, chat, before, after)|
  {
    var page := PageIds(ms, chat, before, after, limit);
    if page == [] then
      []
    else
      NextWindow(ms, chat, before, after, limit);
      page + Walk(ms, chat, Some(page[|page| - 1]), after, limit)
  }

  /** Such a client sees every row between its cursors exactly once, in strictly descending order. */
  lemma {:induction false} WalkIsComplete(ms: Messages, chat: int, before: Option<int>, after: Option<int>, limit: int)
    requires limit != 0
    ensures Walk(ms, chat, before, after, limit) == Descending(Window(ms, chat, before, after))
    decreases |Window(ms, chat, before, after)|
  {
    var d := Descending(Window(ms, chat, before, after));
    var page := PageIds(ms, chat, before, after, limit);
    if page == [] {
      EmptyPage(ms, chat, before, after, limit);
    } else {
      NextWindow(ms, chat, before, after, limit);
      WalkIsComplete(ms, chat, Some(page[|page| - 1]), after, limit);
      assert d == d[..|page|] + d[|page|..];
    }
  }

  lemma EmptyPage(ms: Messages, chat: int, before: Option<int>, after: Option<int>, limit: int)
    requires limit != 0 && PageIds(ms, chat, before, after, limit) == []
    ensures Descending(Window(ms, chat, before, after)) == []
  {
    DescendingLists(Window(ms, chat, before, after));
  }

  /** The client reaches the end of any table, and only the limit zero is no use to it. */
  lemma {:induction false} WalkIsCompleteExactlyWhen(ms: Messages, chat: int, after: Option<int>, limit: int)
    ensures Walk(ms, chat, None, after, limit) == Descending(Window(ms, chat, None, after)) <==>
            limit != 0 || Window(ms, chat, None, after) == {}
  {
    var w := Window(ms, chat, None, after);
    DescendingLists(w);
    if limit != 0 {
      WalkIsComplete(ms, chat, None, after, limit);
    } else if w != {} {
      assert |Descending(w)| == |w| != 0;
    }
  }
}
