/** Full-text search through the index, against a scan of the table. */
module Search {
  import opened Common
  import opened Ordering
  import opened Tables
  import opened IndexAgreement
  import opened Phrase

  datatype Filter = Filter(chat: Option<i64>, since: Option<i64>, until: Option<i64>)

  /** The WHERE clauses added for the arguments that are given; both date bounds are inclusive. */
  predicate Passes(m: StoredMessage, f: Filter) {
    && (f.chat.Some? ==> m.chat_id == f.chat.value)
    && (f.since.Some? ==> m.date >= f.since.value)
    && (f.until.Some? ==> m.date <= f.until.value)
  }

  /** The phrase MATCH looks for: the tokens of the one string the query text holds. */
  function MatchPhrase(e: Engine, match_arg: string): seq<string> {
    var t := ReadString(match_arg);
    if t.Some? then e.tokens(t.value.content) else []
  }

  /** The index lists `phrase` word for word at row `r` from `pos` on. */
  predicate ListedAt(fts: set<Posting>, phrase: seq<string>, r: int, pos: nat) {
    forall i | 0 <= i < |phrase| :: Posting(phrase[i], r, pos + i) in fts
  }

  /** Rowids whose postings hold `phrase` at consecutive positions; an empty phrase matches nothing. */
  function IndexLookup(fts: set<Posting>, phrase: seq<string>): set<int> {
    if phrase == [] then
      {}
    else
      set p | p in fts && p.token == phrase[0]
              && ListedAt(fts, phrase, p.rowid, p.pos) :: p.rowid
  }

  /** The rows `search` selects: index lookup, join on rowid, then the filters. */
  function Selected(e: Engine, db: Db, match_arg: string, f: Filter): set<int> {
    set r | r in IndexLookup(db.fts, MatchPhrase(e, match_arg)) && r in db.messages && Passes(db.messages[r], f)
  }

  /** `phrase` occurs as consecutive words of `ts`. */
  ghost predicate Occurs(phrase: seq<string>, ts: seq<string>) {
    phrase != [] && exists p: nat :: OccursAt(phrase, ts, p)
  }

  ghost predicate OccursAt(phrase: seq<string>, ts: seq<string>, p: nat) {
    p + |phrase| <= |ts| && ts[p..p + |phrase|] == phrase
  }

  /** The reference: scan every row for the query's words. */
  ghost function Scan(e: Engine, ms: Messages, query: string, f: Filter): set<int> {
    set r | r in ms && Occurs(e.tokens(query), Terms(e, ms[r].text)) && Passes(ms[r], f)
  }

  lemma ListedWhereItOccurs(e: Engine, ms: Messages, phrase: seq<string>, r: int, pos: nat)
    requires phrase != []
    ensures ListedAt(FullIndex(e, ms), phrase, r, pos)
            <==> r in ms && OccursAt(phrase, Terms(e, ms[r].text), pos)
  {
    forall i | 0 <= i < |phrase| {
      FullIndexMembers(e, ms, Posting(phrase[i], r, pos + i));
    }
    if ListedAt(FullIndex(e, ms), phrase, r, pos) {
      var last := |phrase| - 1;
      assert InRow(e, ms, Posting(phrase[last], r, pos + last));
      assert forall i | 0 <= i < |phrase| :: InRow(e, ms, Posting(phrase[i], r, pos + i));
    }
    if r in ms && OccursAt(phrase, Terms(e, ms[r].text), pos) {
      var ts := Terms(e, ms[r].text);
      forall i | 0 <= i < |phrase| ensures InRow(e, ms, Posting(phrase[i], r, pos + i)) {
        assert ts[pos..pos + |phrase|][i] == ts[pos + i];
      }
    }
  }

  lemma LookupFindsPhrase(e: Engine, ms: Messages, phrase: seq<string>, r: int)
    ensures r in IndexLookup(FullIndex(e, ms), phrase) <==> r in ms && Occurs(phrase, Terms(e, ms[r].text))
  {
    var fts := FullIndex(e, ms);
    if r in IndexLookup(fts, phrase) {
      var p :| p in fts && p.rowid == r && ListedAt(fts, phrase, r, p.pos);
      ListedWhereItOccurs(e, ms, phrase, r, p.pos);
    }
    if r in ms && Occurs(phrase, Terms(e, ms[r].text)) {
      var pos: nat :| OccursAt(phrase, Terms(e, ms[r].text), pos);
      ListedWhereItOccurs(e, ms, phrase, r, pos);
      assert Posting(phrase[0], r, pos + 0) in fts;
    }
  }

  /** With a synchronised index, what the SQL selects for the escaped query is what the scan finds. */
  lemma SearchRefinesScan(e: Engine, db: Db, query: string, f: Filter)
    requires Agrees(e, db)
    ensures Selected(e, db, PhraseEscape(query), f) == Scan(e, db.messages, query, f)
  {
    EscapedReadsBack(query, []);
    assert PhraseEscape(query) + [] == PhraseEscape(query);
    assert MatchPhrase(e, PhraseEscape(query)) == e.tokens(query);
    forall r ensures r in Selected(e, db, PhraseEscape(query), f) <==> r in Scan(e, db.messages, query, f) {
      LookupFindsPhrase(e, db.messages, e.tokens(query), r);
    }
  }

  function Dates(ms: Messages): map<int, int> {
    map r | r in ms :: ms[r].date
  }

  /** ORDER BY date DESC LIMIT n over the rows `want`, whatever order equal dates come in. */
  ghost predicate NewestOf(ms: Messages, want: set<int>, n: nat, rows: seq<int>)
    requires want <= ms.Keys
  {
    TopRows(Dates(ms), want, n, rows)
  }

  /** At most `n` matches: all of them are listed. */
  lemma FewMatchesAllListed(ms: Messages, want: set<int>, n: nat, rows: seq<int>)
    requires want <= ms.Keys && NewestOf(ms, want, n, rows)
    requires |want| <= n
    ensures Elements(rows) == want
  {
    DistinctLength(rows);
    SubsetSize(Elements(rows), want);
  }

  // -- a search over an index left stale by an interrupted trim -------------------------

  /** Every true posting is present, and the extra ones name rows that no longer exist. */
  ghost predicate OnlyGhosts(e: Engine, db: Db) {
    && FullIndex(e, db.messages) <= db.fts
    && forall p :: p in db.fts && p.rowid in db.messages ==> p in FullIndex(e, db.messages)
  }

  /** That is what a trim leaves when it stops between its delete and its rebuild. */
  lemma TrimLeavesOnlyGhosts(e: Engine, db: Db, kept: Messages)
    requires Agrees(e, db) && forall r :: r in kept ==> r in db.messages && kept[r] == db.messages[r]
    ensures OnlyGhosts(e, db.(messages := kept))
  {
    forall p ensures p in FullIndex(e, kept) <==> p in db.fts && p.rowid in kept {
      FullIndexMembers(e, db.messages, p);
      FullIndexMembers(e, kept, p);
    }
  }

  /** The join hides such leftovers from every search... */
  lemma JoinHidesGhosts(e: Engine, db: Db, query: string, f: Filter)
    requires OnlyGhosts(e, db)
    ensures Selected(e, db, PhraseEscape(query), f) == Scan(e, db.messages, query, f)
  {
    var clean := db.(fts := FullIndex(e, db.messages));
    SearchRefinesScan(e, clean, query, f);
    var phrase := MatchPhrase(e, PhraseEscape(query));
    forall r | r in db.messages
      ensures r in IndexLookup(db.fts, phrase) <==> r in IndexLookup(clean.fts, phrase)
    {
      if r in IndexLookup(db.fts, phrase) {
        var p :| p in db.fts && p.token == phrase[0] && p.rowid == r && ListedAt(db.fts, phrase, r, p.pos);
        assert p in clean.fts && ListedAt(clean.fts, phrase, r, p.pos);
      }
    }
  }

  /**
   * An operation leaves it so: it does not hand a rowid to a new message under which the index still lists something
   * that message does not say.
   */
  ghost predicate Harmless(e: Engine, db: Db, op: Op) {
    match op
    case Insert(m) => StaleFits(e, db, m)
    case Record(_, m) => StaleFits(e, db, m)
    case _ => true
  }

  ghost predicate StaleFits(e: Engine, db: Db, m: StoredMessage) {
    var r := TargetRow(e, db.messages, KeyOf(m));
    r in db.messages || forall p :: p in db.fts && p.rowid == r ==> p in RowPostings(e, r, m.text)
  }

  /** ...until a new message gets a freed rowid, and even then unless the old text lingers on under it. */
  lemma InsertHidesGhostsExactlyWhen(e: Engine, db: Db, m: StoredMessage)
    requires Keyed(db.messages) && OnlyGhosts(e, db)
    ensures OnlyGhosts(e, InsertMessage(e, db, m)) <==> StaleFits(e, db, m)
  {
    var after := InsertMessage(e, db, m);
    var r := TargetRow(e, db.messages, KeyOf(m));
    forall p
      ensures p in FullIndex(e, after.messages) <==>
              if p.rowid == r then p in RowPostings(e, r, m.text) else p in FullIndex(e, db.messages)
    {
      FullIndexMembers(e, db.messages, p);
      FullIndexMembers(e, after.messages, p);
      assert p in RowPostings(e, r, m.text) <==> p.rowid == r && InRow(e, after.messages, p);
    }
    if r in db.messages {
      forall p | p in db.fts && p.rowid == r ensures p.token in Terms(e, db.messages[r].text) {
        FullIndexMembers(e, db.messages, p);
      }
    }
  }

  lemma ApplyKeepsKeys(e: Engine, db: Db, op: Op)
    requires Keyed(db.messages)
    ensures Keyed(Apply(e, db, op).messages)
  {
    match op
    case Insert(m) => InsertKeepsKeys(e, db, m);
    case Record(c, m) => InsertKeepsKeys(e, UpsertChat(db, c), m);
    case TrimOlder(cutoff) => SubmapKeyed(db.messages, DeleteBefore(db.messages, cutoff));
    case TrimPerChat(keep) => SubmapKeyed(db.messages, DeleteOverflow(db.messages, keep));
    case Enforce(cutoff, keep) =>
      RetainedIsSubmap(db.messages, cutoff, keep);
      SubmapKeyed(db.messages, Retained(db.messages, cutoff, keep));
    case _ =>
  }

  lemma ApplyHidesGhostsExactlyWhen(e: Engine, db: Db, op: Op)
    requires Keyed(db.messages) && OnlyGhosts(e, db)
    ensures OnlyGhosts(e, Apply(e, db, op)) <==> Harmless(e, db, op)
  {
    match op
    case Insert(m) => InsertHidesGhostsExactlyWhen(e, db, m);
    case Record(c, m) => InsertHidesGhostsExactlyWhen(e, UpsertChat(db, c), m);
    case Enforce(cutoff, keep) =>
      RetainedIsSubmap(db.messages, cutoff, keep);
      NothingDeleted(db.messages, Retained(db.messages, cutoff, keep));
    case _ =>
  }

  ghost function Upto(e: Engine, db: Db, ops: seq<Op>, i: nat): Db
    requires i <= |ops|
  {
    RunOps(e, db, ops[..i])
  }

  lemma UptoNext(e: Engine, db: Db, ops: seq<Op>, i: nat)
    requires i < |ops|
    ensures Upto(e, db, ops, i + 1) == Apply(e, Upto(e, db, ops, i), ops[i])
  {
    assert ops[..i + 1][..i] == ops[..i];
  }

  lemma {:induction false} HarmlessSoFar(e: Engine, db: Db, ops: seq<Op>, i: nat)
    requires Keyed(db.messages) && OnlyGhosts(e, db) && i <= |ops|
    ensures Keyed(Upto(e, db, ops, i).messages)
    ensures (forall k: nat :: k < i ==> Harmless(e, Upto(e, db, ops, k), ops[k])) ==> OnlyGhosts(e, Upto(e, db, ops, i))
  {
    hide OnlyGhosts, Harmless, Keyed;
    if i > 0 {
      HarmlessSoFar(e, db, ops, i - 1);
      UptoNext(e, db, ops, i - 1);
      ApplyKeepsKeys(e, Upto(e, db, ops, i - 1), ops[i - 1]);
      if forall k: nat :: k < i ==> Harmless(e, Upto(e, db, ops, k), ops[k]) {
        ApplyHidesGhostsExactlyWhen(e, Upto(e, db, ops, i - 1), ops[i - 1]);
      }
    }
  }

  /** From an interrupted trim on, the leftovers stay hidden throughout a run exactly when each step is harmless. */
  lemma GhostsHiddenExactlyWhen(e: Engine, db: Db, ops: seq<Op>)
    requires Keyed(db.messages) && OnlyGhosts(e, db)
    ensures (forall i: nat :: i <= |ops| ==> OnlyGhosts(e, Upto(e, db, ops, i))) <==>
            (forall i: nat :: i < |ops| ==> Harmless(e, Upto(e, db, ops, i), ops[i]))
  {
    hide OnlyGhosts, Harmless, Keyed, Upto;
    if forall i: nat :: i <= |ops| ==> OnlyGhosts(e, Upto(e, db, ops, i)) {
      forall i: nat | i < |ops| ensures Harmless(e, Upto(e, db, ops, i), ops[i]) {
        HarmlessSoFar(e, db, ops, i);
        UptoNext(e, db, ops, i);
        assert OnlyGhosts(e, Upto(e, db, ops, i + 1));
        ApplyHidesGhostsExactlyWhen(e, Upto(e, db, ops, i), ops[i]);
      }
    }
    if forall i: nat :: i < |ops| ==> Harmless(e, Upto(e, db, ops, i), ops[i]) {
      forall i: nat | i <= |ops| ensures OnlyGhosts(e, Upto(e, db, ops, i)) {
        HarmlessSoFar(e, db, ops, i);
      }
    }
  }

  // -- which searches a reused rowid misleads --------------------------------------------

  predicate WordAt(ts: seq<string>, p: nat, w: string) {
    p < |ts| && ts[p] == w
  }

  /** At `p` the words of `phrase` stand one after the other, each in `a` or in `b`: two texts read as one. */
  ghost predicate OverlayAt(phrase: seq<string>, a: seq<string>, b: seq<string>, p: nat) {
    forall i :: 0 <= i < |phrase| ==> WordAt(a, p + i, phrase[i]) || WordAt(b, p + i, phrase[i])
  }

  ghost predicate Overlays(phrase: seq<string>, a: seq<string>, b: seq<string>) {
    phrase != [] && exists p: nat :: OverlayAt(phrase, a, b, p)
  }

  lemma OverlayOfOne(phrase: seq<string>, a: seq<string>)
    ensures Overlays(phrase, a, []) <==> Occurs(phrase, a)
    ensures Overlays(phrase, [], a) <==> Occurs(phrase, a)
  {
    forall p: nat | phrase != []
      ensures OverlayAt(phrase, a, [], p) <==> OccursAt(phrase, a, p)
      ensures OverlayAt(phrase, [], a, p) <==> OccursAt(phrase, a, p)
    {
      OverlayOfOneAt(phrase, a, p);
    }
  }

  lemma OverlayOfOneAt(phrase: seq<string>, a: seq<string>, p: nat)
    requires phrase != []
    ensures OverlayAt(phrase, a, [], p) <==> OccursAt(phrase, a, p)
    ensures OverlayAt(phrase, [], a, p) <==> OccursAt(phrase, a, p)
  {
    if OccursAt(phrase, a, p) {
      forall i | 0 <= i < |phrase| ensures WordAt(a, p + i, phrase[i]) {
        assert a[p..p + |phrase|][i] == a[p + i];
      }
    }
    if OverlayAt(phrase, a, [], p) || OverlayAt(phrase, [], a, p) {
      var last := |phrase| - 1;
      assert WordAt(a, p + last, phrase[last]);
      forall i | 0 <= i < |phrase| ensures a[p..p + |phrase|][i] == phrase[i] {
        assert WordAt(a, p + i, phrase[i]);
      }
    }
  }

  /** The words indexed for row `q` before the trim, if there was such a row. */
  ghost function OldTerms(e: Engine, ms: Messages, q: int): seq<string> {
    if q in ms then Terms(e, ms[q].text) else []
  }

  /** After an insert at `r` over a stale index a phrase is looked up in old and new words lying over each other. */
  lemma LookupOverlays(e: Engine, ms: Messages, r: int, text: Option<string>, phrase: seq<string>, q: int)
    ensures q in IndexLookup(FullIndex(e, ms) + RowPostings(e, r, text), phrase) <==>
            Overlays(phrase, OldTerms(e, ms, q), if q == r then Terms(e, text) else [])
  {
    var fts := FullIndex(e, ms) + RowPostings(e, r, text);
    var a, b := OldTerms(e, ms, q), if q == r then Terms(e, text) else [];
    if phrase != [] {
      forall p: nat ensures ListedAt(fts, phrase, q, p) <==> OverlayAt(phrase, a, b, p) {
        ListedOverlays(e, ms, r, text, phrase, q, p);
      }
      if p: nat :| OverlayAt(phrase, a, b, p) {
        assert ListedAt(fts, phrase, q, p);
        assert Posting(phrase[0], q, p + 0) in fts;
      }
    }
  }

  lemma ListedOverlays(e: Engine, ms: Messages, r: int, text: Option<string>, phrase: seq<string>, q: int, p: nat)
    ensures ListedAt(FullIndex(e, ms) + RowPostings(e, r, text), phrase, q, p) <==>
            OverlayAt(phrase, OldTerms(e, ms, q), if q == r then Terms(e, text) else [], p)
  {
    var fts := FullIndex(e, ms) + RowPostings(e, r, text);
    var a, b := OldTerms(e, ms, q), if q == r then Terms(e, text) else [];
    forall i | 0 <= i < |phrase|
      ensures Posting(phrase[i], q, p + i) in fts <==> WordAt(a, p + i, phrase[i]) || WordAt(b, p + i, phrase[i])
    {
      FullIndexMembers(e, ms, Posting(phrase[i], q, p + i));
    }
    if ListedAt(fts, phrase, q, p) {
      forall i | 0 <= i < |phrase| ensures WordAt(a, p + i, phrase[i]) || WordAt(b, p + i, phrase[i]) {
        assert Posting(phrase[i], q, p + i) in fts;
      }
    }
    if OverlayAt(phrase, a, b, p) {
      forall i | 0 <= i < |phrase| ensures Posting(phrase[i], q, p + i) in fts {
        assert WordAt(a, p + i, phrase[i]) || WordAt(b, p + i, phrase[i]);
      }
    }
  }

  /**
   * A trim deletes rows and stops before the rebuild; then a new message is inserted. A search is still right exactly
   * when the new message's rowid was not freed, the filters keep the message out, it has the phrase, or the phrase
   * cannot be read off the old text and the new one lying over each other.
   */
  lemma ReusedRowidMisleadsExactlyWhen(e: Engine, db: Db, kept: Messages, m: StoredMessage, query: string, f: Filter)
    requires Agrees(e, db) && forall r :: r in kept ==> r in db.messages && kept[r] == db.messages[r]
    requires !HasKey(kept, KeyOf(m))
    ensures var r, phrase := e.alloc(kept.Keys), e.tokens(query);
            var after := InsertMessage(e, db.(messages := kept), m);
            Selected(e, after, PhraseEscape(query), f) == Scan(e, after.messages, query, f) <==>
            || r !in db.messages || !Passes(m, f) || Occurs(phrase, Terms(e, m.text))
            || !Overlays(phrase, Terms(e, db.messages[r].text), Terms(e, m.text))
  {
    hide Overlays, Occurs, IndexLookup, FullIndex, RowPostings;
    var r, phrase := e.alloc(kept.Keys), e.tokens(query);
    var after := InsertMessage(e, db.(messages := kept), m);
    var found, right := Selected(e, after, PhraseEscape(query), f), Scan(e, after.messages, query, f);
    assert r !in kept && after.fts == FullIndex(e, db.messages) + RowPostings(e, r, m.text);
    EscapedReadsBack(query, []);
    assert PhraseEscape(query) + [] == PhraseEscape(query);
    assert MatchPhrase(e, PhraseEscape(query)) == phrase;
    OverlayOfOne(phrase, Terms(e, m.text));
    LookupOverlays(e, db.messages, r, m.text, phrase, r);
    assert r in right <==> Passes(m, f) && Occurs(phrase, Terms(e, m.text));
    assert r in found <==> Passes(m, f) && Overlays(phrase, OldTerms(e, db.messages, r), Terms(e, m.text));
    OverlayHolds(phrase, OldTerms(e, db.messages, r), Terms(e, m.text));
    forall q | q != r ensures q in found <==> q in right {
      LookupOverlays(e, db.messages, r, m.text, phrase, q);
      if q in kept {
        OverlayOfOne(phrase, Terms(e, kept[q].text));
      }
    }
  }

  lemma OverlayHolds(phrase: seq<string>, a: seq<string>, b: seq<string>)
    ensures Occurs(phrase, b) ==> Overlays(phrase, a, b)
  {
    if Occurs(phrase, b) {
      var p: nat :| OccursAt(phrase, b, p);
      OverlayOfOneAt(phrase, b, p);
      assert OverlayAt(phrase, a, b, p);
    }
  }

  lemma OneWordOverlays(w: string, a: seq<string>, b: seq<string>)
    ensures Overlays([w], a, b) <==> w in a || w in b
    ensures Occurs([w], b) <==> w in b
  {
    if i: nat :| i < |a| && a[i] == w {
      assert WordAt(a, i + 0, w) && OverlayAt([w], a, b, i);
    }
    if i: nat :| i < |b| && b[i] == w {
      assert WordAt(b, i + 0, w);
      assert OverlayAt([w], a, b, i) && b[i..i + 1] == [w];
      assert OccursAt([w], b, i);
    }
    if Occurs([w], b) {
      var i: nat :| OccursAt([w], b, i);
      assert b[i..i + 1][0] == w;
    }
    if Overlays([w], a, b) {
      var p: nat :| OverlayAt([w], a, b, p);
      assert WordAt(a, p + 0, [w][0]) || WordAt(b, p + 0, [w][0]);
    }
  }

  /** For one word: wrong exactly if the old text had it, the new one does not, and the filters let the row through. */
  lemma ReusedRowidAndOneWord(e: Engine, db: Db, kept: Messages, m: StoredMessage, query: string, w: string, f: Filter)
    requires Agrees(e, db) && forall r :: r in kept ==> r in db.messages && kept[r] == db.messages[r]
    requires !HasKey(kept, KeyOf(m)) && e.tokens(query) == [w]
    ensures var r := e.alloc(kept.Keys);
            var after := InsertMessage(e, db.(messages := kept), m);
            Selected(e, after, PhraseEscape(query), f) != Scan(e, after.messages, query, f) <==>
            r in db.messages && w in Terms(e, db.messages[r].text) && w !in Terms(e, m.text) && Passes(m, f)
  {
    hide Selected, Scan, Overlays, Occurs;
    ReusedRowidMisleadsExactlyWhen(e, db, kept, m, query, f);
    OneWordOverlays(w, OldTerms(e, db.messages, e.alloc(kept.Keys)), Terms(e, m.text));
  }

  /** For instance: the only message, "a", is trimmed away; a search for "a" then finds the new message "b". */
  lemma ReusedRowidMisleads(e: Engine, gone: StoredMessage, added: StoredMessage)
    requires e.alloc({}) == 1
    requires gone.text == Some("a") && added.text == Some("b")
    requires e.tokens("a") == ["a"] && e.tokens("b") == ["b"]
    ensures var interrupted := InsertMessage(e, EMPTY, gone).(messages := map[]);
            var after := InsertMessage(e, interrupted, added);
            var all := Filter(None, None, None);
            Selected(e, after, PhraseEscape("a"), all) != Scan(e, after.messages, "a", all)
  {
    var before := InsertMessage(e, EMPTY, gone);
    assert EMPTY.messages.Keys == {};
    assert FullIndex(e, EMPTY.messages) == {};
    ReindexAgrees(e, EMPTY, gone);
    ReusedRowidAndOneWord(e, before, map[], added, "a", "a", Filter(None, None, None));
  }
}
