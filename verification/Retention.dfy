/** Which rows the retention sweep keeps, how many it reports, and that sweeping twice changes nothing. */
module Retention {
  import opened Common
  import opened Ordering
  import opened Tables
  import opened IndexAgreement

  /** The rows of `r`'s chat with a higher message id. */
  function Newer(ms: Messages, r: int): set<int>
    requires r in ms
  {
    set q | q in ms && ms[q].chat_id == ms[r].chat_id && ms[q].message_id > ms[r].message_id
  }

  /** ROW_NUMBER() is one more than the number of rows of the chat with a higher message id. */
  lemma RowNumberCounts(ms: Messages, r: int)
    requires Keyed(ms) && r in ms
    ensures RowNumber(ms, r) == |Newer(ms, r)| + 1
  {
    var ids := ChatIds(ms, ms[r].chat_id);
    var order := Descending(ids);
    DescendingLists(ids);
    var i := RowNumber(ms, r) - 1;
    assert 0 <= i < |order| && order[i] == ms[r].message_id;
    RankIsPosition(order, i);
    var above := set x | x in Elements(order) && x > order[i];
    var newer := Newer(ms, r);
    var id := map q | q in ms :: ms[q].message_id;
    forall q, p | q in newer && p in newer && id[q] == id[p] ensures q == p {
      assert KeyOf(ms[q]) == KeyOf(ms[p]);
    }
    forall q | q in newer ensures id[q] in above {
      assert id[q] in ids;
    }
    forall b | b in above ensures exists q :: q in newer && id[q] == b {
      assert b in ids;
      var q :| q in ms && ms[q].chat_id == ms[r].chat_id && ms[q].message_id == b;
      assert q in newer && id[q] == b;
    }
    InjectiveImage(id, newer, above);
  }

  /** The rows over the cap, by count of newer rows. */
  function Overflow(ms: Messages, keep: int): set<int> {
    set r | r in ms && |Newer(ms, r)| + 1 > keep
  }

  lemma OverflowIsDeleted(ms: Messages, keep: int)
    requires Keyed(ms)
    ensures ms - Overflow(ms, keep) == DeleteOverflow(ms, keep)
    ensures ms.Keys - DeleteOverflow(ms, keep).Keys == Overflow(ms, keep)
  {
    forall r | r in ms ensures r in DeleteOverflow(ms, keep) <==> r !in Overflow(ms, keep) {
      RowNumberCounts(ms, r);
    }
  }

  ghost predicate PassesAge(ms: Messages, cutoff: Option<int>, r: int)
    requires r in ms
  {
    cutoff.Some? ==> ms[r].date >= cutoff.value
  }

  /** The rows of `r`'s chat with a higher message id that the age limit lets through. */
  ghost function NewerPassing(ms: Messages, cutoff: Option<int>, r: int): set<int>
    requires r in ms
  {
    set q | q in Newer(ms, r) && PassesAge(ms, cutoff, q)
  }

  /** A row survives exactly when it passes the age limit and the cap has room for it among those that pass. */
  lemma Survives(ms: Messages, cutoff: Option<int>, keep: Option<int>, r: int)
    requires Keyed(ms)
    ensures r in Retained(ms, cutoff, keep) <==>
            && r in ms && PassesAge(ms, cutoff, r)
            && (keep.Some? ==> |NewerPassing(ms, cutoff, r)| < keep.value)
  {
    var aged := AgedIn(ms, cutoff);
    SubmapKeyed(ms, aged);
    if r in aged && keep.Some? {
      RowNumberCounts(aged, r);
      forall q ensures q in Newer(aged, r) <==> q in NewerPassing(ms, cutoff, r) {
        assert q in aged <==> q in ms && PassesAge(ms, cutoff, q);
      }
      assert Newer(aged, r) == NewerPassing(ms, cutoff, r);
    }
  }

  /** The same in terms of the columns, for a sweep with both limits. */
  lemma SweepKeeps(ms: Messages, cutoff: int, keep: int, r: int)
    requires Keyed(ms) && r in ms
    ensures var newer := set q | q in ms && ms[q].chat_id == ms[r].chat_id && ms[q].message_id > ms[r].message_id
                                 && ms[q].date >= cutoff;
            r in Retained(ms, Some(cutoff), Some(keep)) <==> ms[r].date >= cutoff && |newer| < keep
  {
    Survives(ms, Some(cutoff), Some(keep), r);
    var newer := set q | q in ms && ms[q].chat_id == ms[r].chat_id && ms[q].message_id > ms[r].message_id
                         && ms[q].date >= cutoff;
    forall q ensures q in newer <==> q in NewerPassing(ms, Some(cutoff), r) {
    }
    assert newer == NewerPassing(ms, Some(cutoff), r);
  }

  ghost function AgedOut(ms: Messages, cutoff: Option<int>): set<int> {
    set r | r in ms && !PassesAge(ms, cutoff, r)
  }

  /** The age limit takes away exactly the rows that do not pass it. */
  lemma AgedComplement(ms: Messages, aged: Messages, cutoff: Option<int>)
    requires aged == AgedIn(ms, cutoff)
    ensures ms.Keys - aged.Keys == AgedOut(ms, cutoff)
    ensures |AgedOut(ms, cutoff)| + |aged| == |ms|
    ensures Keyed(ms) ==> Keyed(aged)
  {
    DeletedCount(ms, aged);
  }

  lemma CappedComplement(aged: Messages, kept: Messages, keep: Option<int>)
    requires kept == Capped(aged, keep)
    ensures |aged.Keys - kept.Keys| + |kept| == |aged|
    ensures keep.None? ==> aged.Keys - kept.Keys == {}
  {
    DeletedCount(aged, kept);
  }

  /** The two reported counts and the survivors add up to the rows there were. */
  lemma CountsAddUp(ms: Messages, cutoff: Option<int>, keep: Option<int>)
    ensures var aged := AgedIn(ms, cutoff);
            var overflowed := |aged.Keys - Capped(aged, keep).Keys|;
            |AgedOut(ms, cutoff)| + overflowed + |Retained(ms, cutoff, keep)| == |ms|
  {
    var aged := AgedIn(ms, cutoff);
    AgedComplement(ms, aged, cutoff);
    CappedComplement(aged, Capped(aged, keep), keep);
  }

  lemma DeletedCount(ms: Messages, kept: Messages)
    requires forall r :: r in kept ==> r in ms
    ensures |ms.Keys - kept.Keys| + |kept| == |ms|
  {
    forall r | r in kept.Keys ensures r in ms.Keys {
      assert r in kept;
    }
    assert ms.Keys == (ms.Keys - kept.Keys) + kept.Keys;
    assert (ms.Keys - kept.Keys) !! kept.Keys;
  }

  /** A sweep with the same limits right after a sweep deletes nothing. */
  lemma SweepIsIdempotent(ms: Messages, cutoff: Option<int>, keep: Option<int>)
    requires Keyed(ms)
    ensures var once := Retained(ms, cutoff, keep);
            Retained(once, cutoff, keep) == once
  {
    var once := Retained(ms, cutoff, keep);
    RetainedIsSubmap(ms, cutoff, keep);
    SubmapKeyed(ms, once);
    RetainedIsSubmap(once, cutoff, keep);
    forall r | r in once ensures r in Retained(once, cutoff, keep) {
      SurvivorSurvives(ms, once, cutoff, keep, r);
    }
  }

  /** Fewer rows can only leave more room under the cap. */
  lemma SurvivorSurvives(ms: Messages, once: Messages, cutoff: Option<int>, keep: Option<int>, r: int)
    requires Keyed(ms) && Keyed(once)
    requires forall q :: q in once ==> q in ms && once[q] == ms[q]
    requires r in once && r in Retained(ms, cutoff, keep)
    ensures r in Retained(once, cutoff, keep)
  {
    Survives(ms, cutoff, keep, r);
    Survives(once, cutoff, keep, r);
    SubsetSize(NewerPassing(once, cutoff, r), NewerPassing(ms, cutoff, r));
  }

  /** What the cap applied before the age limit would keep. */
  ghost function CappedThenAged(ms: Messages, cutoff: Option<int>, keep: Option<int>): Messages {
    AgedIn(Capped(ms, keep), cutoff)
  }

  /** Ageing first keeps at least as much as capping first. */
  lemma AgeFirstKeepsMore(ms: Messages, cutoff: Option<int>, keep: Option<int>, r: int)
    requires Keyed(ms)
    requires r in CappedThenAged(ms, cutoff, keep)
    ensures r in Retained(ms, cutoff, keep)
  {
    Survives(ms, cutoff, keep, r);
    if keep.Some? {
      RowNumberCounts(ms, r);
      SubsetSize(NewerPassing(ms, cutoff, r), Newer(ms, r));
    }
  }

  /** In every chat, a higher message id means a date at least as late. */
  ghost predicate DatesFollowIds(ms: Messages) {
    forall r, q :: r in ms && q in ms && ms[r].chat_id == ms[q].chat_id && ms[r].message_id < ms[q].message_id
      ==> ms[r].date <= ms[q].date
  }

  /** When dates follow ids the order of the two deletes does not matter. */
  lemma OrderOfDeletesIrrelevant(ms: Messages, cutoff: Option<int>, keep: Option<int>)
    requires Keyed(ms) && DatesFollowIds(ms)
    ensures Retained(ms, cutoff, keep) == CappedThenAged(ms, cutoff, keep)
  {
    var capFirst := CappedThenAged(ms, cutoff, keep);
    forall r ensures r in Retained(ms, cutoff, keep) <==> r in capFirst {
      if r in capFirst {
        AgeFirstKeepsMore(ms, cutoff, keep, r);
      }
      if r in Retained(ms, cutoff, keep) {
        CapFirstKeepsToo(ms, cutoff, keep, r);
      }
    }
  }

  lemma CapFirstKeepsToo(ms: Messages, cutoff: Option<int>, keep: Option<int>, r: int)
    requires Keyed(ms) && DatesFollowIds(ms)
    requires r in Retained(ms, cutoff, keep)
    ensures r in CappedThenAged(ms, cutoff, keep)
  {
    Survives(ms, cutoff, keep, r);
    RowNumberCounts(ms, r);
    assert NewerPassing(ms, cutoff, r) == Newer(ms, r);
  }

  /**
   * Without that, age-first and cap-first agree on a row that passes the age limit exactly when the old rows
   * above it do not push it over the cap.
   */
  lemma DeletesDisagreeWhen(ms: Messages, cutoff: int, keep: int, r: int)
    requires Keyed(ms) && r in ms
    ensures r in Retained(ms, Some(cutoff), Some(keep)) && r !in CappedThenAged(ms, Some(cutoff), Some(keep)) <==>
            && ms[r].date >= cutoff
            && |NewerPassing(ms, Some(cutoff), r)| < keep <= |Newer(ms, r)|
  {
    Survives(ms, Some(cutoff), Some(keep), r);
    RowNumberCounts(ms, r);
  }
}
