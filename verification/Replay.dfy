/** Whole runs of the updater against Telegram's log, with crashes, failed writes and re-fetches. */
module Replay {
  import opened Common
  import opened Decimal
  import opened Tables
  import opened Updates

  /** What Telegram holds: updates with strictly increasing ids, none so large that the next offset wraps. */
  ghost predicate ValidLog(log: seq<Update>) {
    && (forall i :: 0 <= i < |log| ==> log[i].id.Some? && 0 <= log[i].id.value < I64_MAX)
    && (forall i, j :: 0 <= i < j < |log| ==> log[i].id.value < log[j].id.value)
  }

  /** Position `i` separates the updates below `offset` from the others. */
  ghost predicate SplitsAt(log: seq<Update>, offset: int, i: nat)
    requires ValidLog(log)
  {
    && i <= |log|
    && (forall k :: 0 <= k < i ==> log[k].id.value < offset)
    && (forall k :: i <= k < |log| ==> offset <= log[k].id.value)
  }

  lemma {:induction false} SplitExists(log: seq<Update>, offset: int)
    requires ValidLog(log)
    ensures exists i: nat :: SplitsAt(log, offset, i)
  {
    if log == [] {
      assert SplitsAt(log, offset, 0);
    } else {
      var n := |log| - 1;
      if log[n].id.value < offset {
        assert SplitsAt(log, offset, |log|);
      } else {
        SplitExists(log[..n], offset);
        var i: nat :| SplitsAt(log[..n], offset, i);
        assert forall k :: 0 <= k < n ==> log[..n][k] == log[k];
        assert SplitsAt(log, offset, i);
      }
    }
  }

  /** Position of the first update `getUpdates` returns for `offset`. */
  ghost function FirstAt(log: seq<Update>, offset: int): (i: nat)
    requires ValidLog(log)
    ensures i <= |log|
  {
    SplitExists(log, offset);
    var i: nat :| SplitsAt(log, offset, i);
    i
  }

  lemma FirstAtSplits(log: seq<Update>, offset: int)
    requires ValidLog(log)
    ensures SplitsAt(log, offset, FirstAt(log, offset))
  {
    SplitExists(log, offset);
  }

  lemma SplitNotBelow(log: seq<Update>, offset: int, a: nat, b: nat)
    requires ValidLog(log) && SplitsAt(log, offset, a) && SplitsAt(log, offset, b)
    ensures a <= b
  {
    if b < |log| {
      assert offset <= log[b].id.value;
    }
  }

  lemma FirstAtIs(log: seq<Update>, offset: int, i: nat)
    requires ValidLog(log) && SplitsAt(log, offset, i)
    ensures FirstAt(log, offset) == i
  {
    FirstAtSplits(log, offset);
    SplitNotBelow(log, offset, i, FirstAt(log, offset));
    SplitNotBelow(log, offset, FirstAt(log, offset), i);
  }

  /** The updater and its history: positions ever stored, positions whose write failed, and the furthest handled. */
  datatype Sys = Sys(db: Db, offset: int, reached: nat, stored: set<nat>, refused: set<nat>)

  const START := Sys(EMPTY, 0, 0, {}, {})

  /**
   * A turn fetches up to `count` updates from the offset on and handles them; either it gets to the offset write,
   * which `persists` or fails, or the process dies once `handled` of them are done and starts again. Between turns
   * it may idle (a failed or rate-limited fetch) or restart.
   */
  datatype Event =
    | Turn(count: nat, commits: seq<bool>, persists: bool)
    | CrashIn(count: nat, handled: nat, commits: seq<bool>)
    | Idle
    | Restart

  ghost predicate ValidEvent(ev: Event) {
    match ev
    case Turn(count, commits, _) => count <= |commits|
    case CrashIn(count, handled, commits) => handled <= count <= |commits|
    case _ => true
  }

  /** Handle the `n` updates of the log from position `from` on. */
  ghost function Handle(e: Engine, log: seq<Update>, allowed: Option<set<i64>>, s: Sys, from: nat, n: nat,
                        commits: seq<bool>): Sys
    requires from + n <= |log| && n <= |commits|
  {
    s.(db := ApplyUpdates(e, s.db, log[from..from + n], allowed, commits),
       reached := Max(s.reached, from + n),
       stored := s.stored + (set j: nat | from <= j < from + n && Admitted(log[j], allowed) && commits[j - from]),
       refused := s.refused + (set j: nat | from <= j < from + n && Admitted(log[j], allowed) && !commits[j - from]))
  }

  /** Handle `n` updates from the offset on, then write the offset. */
  ghost function TurnStep(e: Engine, log: seq<Update>, allowed: Option<set<i64>>, s: Sys, n: nat, commits: seq<bool>,
                          persists: bool): Sys
    requires ValidLog(log) && FirstAt(log, s.offset) + n <= |log| && n <= |commits|
  {
    var from := FirstAt(log, s.offset);
    var batch := log[from..from + n];
    Handle(e, log, allowed, s, from, n, commits).(
      db := BatchDb(e, s.db, batch, allowed, commits, persists),
      offset := NextOffset(s.offset, batch, persists))
  }

  /** Handle `n` updates from the offset on, die, and reload the offset. */
  ghost function CrashStep(e: Engine, log: seq<Update>, allowed: Option<set<i64>>, s: Sys, n: nat,
                           commits: seq<bool>): Sys
    requires ValidLog(log) && FirstAt(log, s.offset) + n <= |log| && n <= |commits|
  {
    var after := Handle(e, log, allowed, s, FirstAt(log, s.offset), n, commits);
    after.(offset := LoadedOffset(after.db.kv))
  }

  /** How many updates an event handles. */
  ghost function Handled(log: seq<Update>, offset: int, ev: Event): nat
    requires ValidLog(log)
  {
    var available := |log| - FirstAt(log, offset);
    match ev
    case Turn(count, _, _) => Min(count, available)
    case CrashIn(count, handled, _) => Min(Min(count, available), handled)
    case _ => 0
  }

  ghost function Step(e: Engine, log: seq<Update>, allowed: Option<set<i64>>, s: Sys, ev: Event): Sys
    requires ValidLog(log) && ValidEvent(ev)
  {
    var n := Handled(log, s.offset, ev);
    match ev
    case Turn(_, commits, persists) => TurnStep(e, log, allowed, s, n, commits, persists)
    case CrashIn(_, _, commits) => CrashStep(e, log, allowed, s, n, commits)
    case Idle => s
    case Restart => s.(offset := LoadedOffset(s.db.kv))
  }

  ghost predicate ValidRun(evs: seq<Event>) {
    forall i :: 0 <= i < |evs| ==> ValidEvent(evs[i])
  }

  ghost function Run(e: Engine, log: seq<Update>, allowed: Option<set<i64>>, s: Sys, evs: seq<Event>): Sys
    requires ValidLog(log) && ValidRun(evs)
  {
    if evs == [] then s else Step(e, log, allowed, Run(e, log, allowed, s, evs[..|evs| - 1]), evs[|evs| - 1])
  }

  // -- the offset -------------------------------------------------------------------------

  lemma {:induction false} BatchMax(us: seq<Update>)
    requires ValidLog(us) && us != []
    ensures MaxId(us) == us[|us| - 1].id
  {
    var n := |us| - 1;
    if n == 0 {
      assert MaxId(us[..0]) == None;
    } else {
      BatchMax(us[..n]);
      assert us[..n][n - 1] == us[n - 1];
    }
  }

  lemma {:induction false} RecordingKeepsKv(e: Engine, db: Db, us: seq<Update>, allowed: Option<set<i64>>,
                                            commits: seq<bool>)
    requires |us| <= |commits|
    ensures ApplyUpdates(e, db, us, allowed, commits).kv == db.kv
  {
    if us != [] {
      RecordingKeepsKv(e, db, us[..|us| - 1], allowed, commits);
    }
  }

  /** Where the offset stands after a batch: just past its last update, or where it was. */
  lemma OffsetAfterBatch(log: seq<Update>, offset: int, n: nat, persists: bool)
    requires ValidLog(log) && FirstAt(log, offset) + n <= |log|
    ensures var from := FirstAt(log, offset);
            var next := NextOffset(offset, log[from..from + n], persists);
            if n > 0 && persists
            then next == log[from + n - 1].id.value + 1 && next > offset && FirstAt(log, next) == from + n
            else next == offset
  {
    var from := FirstAt(log, offset);
    var batch := log[from..from + n];
    FirstAtSplits(log, offset);
    if n > 0 {
      BatchMax(batch);
      FirstAtIs(log, log[from + n - 1].id.value + 1, from + n);
    } else {
      assert batch == [];
    }
  }

  /** The position is accounted for: nothing to store, dropped by the allow-list, stored, or its write failed. */
  ghost predicate Settled(log: seq<Update>, allowed: Option<set<i64>>, s: Sys, j: nat)
    requires j < |log|
  {
    !Admitted(log[j], allowed) || j in s.stored || j in s.refused
  }

  ghost predicate AllSettled(log: seq<Update>, allowed: Option<set<i64>>, s: Sys, upTo: nat)
    requires upTo <= |log|
  {
    forall j: nat :: j < upTo ==> Settled(log, allowed, s, j)
  }

  /** Persisted and volatile offset agree, and everything the offset has passed is settled. */
  ghost predicate OffsetSafe(log: seq<Update>, allowed: Option<set<i64>>, s: Sys)
    requires ValidLog(log)
  {
    && LoadedOffset(s.db.kv) == s.offset
    && FirstAt(log, s.offset) <= s.reached <= |log|
    && AllSettled(log, allowed, s, FirstAt(log, s.offset))
  }

  /** Handling a stretch right after the settled part settles it too. */
  lemma HandleSettles(e: Engine, log: seq<Update>, allowed: Option<set<i64>>, s: Sys, from: nat, n: nat,
                      commits: seq<bool>, t: Sys, upTo: nat)
    requires from + n <= |log| && n <= |commits| && AllSettled(log, allowed, s, from)
    requires var h := Handle(e, log, allowed, s, from, n, commits); t.stored == h.stored && t.refused == h.refused
    requires upTo <= from + n
    ensures AllSettled(log, allowed, t, upTo)
  {
    forall j: nat | j < upTo ensures Settled(log, allowed, t, j) {
      if j < from { assert Settled(log, allowed, s, j); }
    }
  }

  function KvAfter(kv: map<string, string>, us: seq<Update>, persists: bool): map<string, string> {
    if MaxId(us).Some? && persists then kv[OFFSET_KEY := Show(Successor(MaxId(us).value))] else kv
  }

  /** The two offsets move together or not at all. */
  lemma OffsetsInStep(kv: map<string, string>, offset: int, us: seq<Update>, persists: bool)
    requires LoadedOffset(kv) == offset
    ensures LoadedOffset(KvAfter(kv, us, persists)) == NextOffset(offset, us, persists)
  {
    if MaxId(us).Some? {
      StoredOffsetLoads(kv, Successor(MaxId(us).value));
    }
  }

  lemma BatchKv(e: Engine, db: Db, us: seq<Update>, allowed: Option<set<i64>>, commits: seq<bool>, persists: bool)
    requires |us| <= |commits|
    ensures BatchDb(e, db, us, allowed, commits, persists).kv == KvAfter(db.kv, us, persists)
  {
    RecordingKeepsKv(e, db, us, allowed, commits);
  }

  lemma StoredOffsetLoads(kv: map<string, string>, next: i64)
    ensures LoadedOffset(kv[OFFSET_KEY := Show(next)]) == next
  {
    ParseShow(next);
  }

  /** What one event may do to the offsets: keep them safe, never lower them, and raise them when it writes one. */
  ghost predicate AdvancesSafely(log: seq<Update>, allowed: Option<set<i64>>, s: Sys, t: Sys)
    requires ValidLog(log)
  {
    && OffsetSafe(log, allowed, t)
    && t.offset >= s.offset
    && (t.db.kv != s.db.kv ==> t.offset > s.offset)
  }

  lemma TurnAdvances(e: Engine, log: seq<Update>, allowed: Option<set<i64>>, s: Sys, n: nat, commits: seq<bool>,
                     persists: bool)
    requires ValidLog(log) && OffsetSafe(log, allowed, s)
    requires FirstAt(log, s.offset) + n <= |log| && n <= |commits|
    ensures AdvancesSafely(log, allowed, s, TurnStep(e, log, allowed, s, n, commits, persists))
  {
    hide ApplyUpdates;
    var from := FirstAt(log, s.offset);
    var batch := log[from..from + n];
    var t := TurnStep(e, log, allowed, s, n, commits, persists);
    BatchKv(e, s.db, batch, allowed, commits, persists);
    OffsetsInStep(s.db.kv, s.offset, batch, persists);
    OffsetAfterBatch(log, s.offset, n, persists);
    HandleSettles(e, log, allowed, s, from, n, commits, t, FirstAt(log, t.offset));
  }

  lemma CrashAdvances(e: Engine, log: seq<Update>, allowed: Option<set<i64>>, s: Sys, n: nat, commits: seq<bool>)
    requires ValidLog(log) && OffsetSafe(log, allowed, s)
    requires FirstAt(log, s.offset) + n <= |log| && n <= |commits|
    ensures AdvancesSafely(log, allowed, s, CrashStep(e, log, allowed, s, n, commits))
    ensures CrashStep(e, log, allowed, s, n, commits).offset == s.offset
  {
    var from := FirstAt(log, s.offset);
    var t := CrashStep(e, log, allowed, s, n, commits);
    RecordingKeepsKv(e, s.db, log[from..from + n], allowed, commits);
    HandleSettles(e, log, allowed, s, from, n, commits, t, from);
  }

  lemma StepAdvances(e: Engine, log: seq<Update>, allowed: Option<set<i64>>, s: Sys, ev: Event)
    requires ValidLog(log) && ValidEvent(ev) && OffsetSafe(log, allowed, s)
    ensures AdvancesSafely(log, allowed, s, Step(e, log, allowed, s, ev))
  {
    hide TurnStep, CrashStep;
    var n := Handled(log, s.offset, ev);
    match ev
    case Turn(_, commits, persists) => TurnAdvances(e, log, allowed, s, n, commits, persists);
    case CrashIn(_, _, commits) => CrashAdvances(e, log, allowed, s, n, commits);
    case Idle => assert Step(e, log, allowed, s, ev) == s;
    case Restart => assert Step(e, log, allowed, s, ev) == s;
  }

  /** At every loop head of every run the offset in memory is the one on disk and never passed an unsettled update. */
  lemma {:induction false} RunsKeepOffsetSafe(e: Engine, log: seq<Update>, allowed: Option<set<i64>>, evs: seq<Event>)
    requires ValidLog(log) && ValidRun(evs)
    ensures OffsetSafe(log, allowed, Run(e, log, allowed, START, evs))
  {
    if evs == [] {
      assert EMPTY.kv == map[];
      FirstAtIs(log, 0, 0);
    } else {
      RunsKeepOffsetSafe(e, log, allowed, evs[..|evs| - 1]);
      StepAdvances(e, log, allowed, Run(e, log, allowed, START, evs[..|evs| - 1]), evs[|evs| - 1]);
    }
  }

  /** Once the offset has passed an update, whether it is stored never changes again. */
  lemma {:induction false} PassedIsFinal(e: Engine, log: seq<Update>, allowed: Option<set<i64>>, s: Sys,
                                         evs: seq<Event>, j: nat)
    requires ValidLog(log) && ValidRun(evs) && OffsetSafe(log, allowed, s)
    requires j < FirstAt(log, s.offset)
    ensures var t := Run(e, log, allowed, s, evs);
            && OffsetSafe(log, allowed, t) && j < FirstAt(log, t.offset)
            && (j in t.stored <==> j in s.stored)
  {
    if evs != [] {
      var init, last := evs[..|evs| - 1], evs[|evs| - 1];
      PassedIsFinal(e, log, allowed, s, init, j);
      var m := Run(e, log, allowed, s, init);
      StepAdvances(e, log, allowed, m, last);
      assert log[j].id.value < m.offset;
    }
  }

  /**
   * The design asks that restarts neither replay nor skip. They skip: once a turn has persisted the offset, an update
   * of its batch is ever stored, whatever happens later, exactly if it was before or its write succeeded in that turn.
   */
  lemma {:induction false} StoredExactlyWhen(e: Engine, log: seq<Update>, allowed: Option<set<i64>>, s: Sys,
                          n: nat, commits: seq<bool>, evs: seq<Event>, j: nat)
    requires ValidLog(log) && ValidRun(evs) && OffsetSafe(log, allowed, s)
    requires FirstAt(log, s.offset) <= j < FirstAt(log, s.offset) + n <= |log| && n <= |commits|
    ensures j in Run(e, log, allowed, TurnStep(e, log, allowed, s, n, commits, true), evs).stored <==>
            j in s.stored || (Admitted(log[j], allowed) && commits[j - FirstAt(log, s.offset)])
  {
    hide OffsetSafe, Run, BatchDb, NextOffset;
    var t := TurnStep(e, log, allowed, s, n, commits, true);
    TurnAdvances(e, log, allowed, s, n, commits, true);
    OffsetAfterBatch(log, s.offset, n, true);
    assert t.offset == NextOffset(s.offset, log[FirstAt(log, s.offset)..FirstAt(log, s.offset) + n], true);
    PassedIsFinal(e, log, allowed, t, evs, j);
  }

  /** After a turn the next fetch goes on from the furthest update handled only if the offset was written past it. */
  lemma TurnReplays(e: Engine, log: seq<Update>, allowed: Option<set<i64>>, s: Sys, n: nat, commits: seq<bool>,
                    persists: bool)
    requires ValidLog(log) && FirstAt(log, s.offset) + n <= |log| && n <= |commits|
    requires FirstAt(log, s.offset) <= s.reached
    ensures var from, t := FirstAt(log, s.offset), TurnStep(e, log, allowed, s, n, commits, persists);
            FirstAt(log, t.offset) < t.reached <==>
            if n > 0 && persists then from + n < s.reached else n > 0 || from < s.reached
  {
    hide ValidLog, ApplyUpdates, BatchDb, NextOffset, MaxId, Admitted;
    OffsetAfterBatch(log, s.offset, n, persists);
  }

  /**
   * And they replay: after any event the next fetch starts below an update already handled unless the event got past
   * all of them and its offset write succeeded, or it handled none and nothing was left to replay before.
   */
  lemma ReplaysExactlyWhen(e: Engine, log: seq<Update>, allowed: Option<set<i64>>, s: Sys, ev: Event)
    requires ValidLog(log) && ValidEvent(ev) && OffsetSafe(log, allowed, s)
    ensures var from, n, t := FirstAt(log, s.offset), Handled(log, s.offset, ev), Step(e, log, allowed, s, ev);
            FirstAt(log, t.offset) < t.reached <==>
            if n > 0 && ev.Turn? && ev.persists then from + n < s.reached else n > 0 || from < s.reached
  {
    hide ValidLog, TurnStep, CrashStep, AllSettled;
    var n := Handled(log, s.offset, ev);
    match ev
    case Turn(_, commits, persists) => TurnReplays(e, log, allowed, s, n, commits, persists);
    case CrashIn(_, _, commits) =>
      CrashAdvances(e, log, allowed, s, n, commits);
      CrashReaches(e, log, allowed, s, n, commits);
    case Idle =>
    case Restart =>
  }

  lemma CrashReaches(e: Engine, log: seq<Update>, allowed: Option<set<i64>>, s: Sys, n: nat, commits: seq<bool>)
    requires ValidLog(log) && FirstAt(log, s.offset) + n <= |log| && n <= |commits|
    ensures CrashStep(e, log, allowed, s, n, commits).reached == Max(s.reached, FirstAt(log, s.offset) + n)
  {
  }
}
