/** The local-input watcher and the process snapshot it caches between polls. */
module Watcher {
  import opened Common
  import opened Ancestry

  /** What one poll of the operating system says: milliseconds since input, and the focused window's process. */
  datatype Sighting = Sighting(elapsed: Option<nat>, fg: nat)

  /** Whether the poll gets as far as looking at the snapshot. */
  predicate Recent(s: Sighting, threshold: nat) {
    s.elapsed.Some? && s.elapsed.value <= threshold && s.fg != 0
  }

  ghost predicate Verdict(snap: Snapshot, host: seq<nat>, threshold: nat, s: Sighting) {
    Recent(s, threshold) && IsHost(snap, host, s.fg)
  }

  /** The snapshot kept after a poll: a new one only if the focused process is unknown to the old. */
  function Refreshed(cache: Snapshot, live: Snapshot, threshold: nat, s: Sighting): Snapshot {
    if Recent(s, threshold) && s.fg !in cache then live else cache
  }

  class LocalInputWatcher {
    const host_pids: seq<nat>
    const threshold_millis: nat
    var snapshot: Snapshot

    constructor (host_pids: seq<nat>, threshold_millis: nat)
      ensures this.host_pids == host_pids && this.threshold_millis == threshold_millis && snapshot == map[]
    {
      this.host_pids := host_pids;
      this.threshold_millis := threshold_millis;
      snapshot := map[];
    }

    /** `live` is what a process snapshot taken now would hold. */
    method UserActive(s: Sighting, live: Snapshot) returns (active: bool)
      modifies this
      ensures snapshot == Refreshed(old(snapshot), live, threshold_millis, s)
      ensures active <==> Verdict(snapshot, host_pids, threshold_millis, s)
      ensures active <==> && s.elapsed.Some? && s.elapsed.value <= threshold_millis && s.fg != 0
                          && IsHost(snapshot, host_pids, s.fg)
      ensures s.fg in old(snapshot) ==> snapshot == old(snapshot)
      ensures active ==> s.fg in snapshot || snapshot == live
    {
      if s.elapsed.None? {
        return false;
      }
      if s.elapsed.value > threshold_millis {
        return false;
      }
      if s.fg == 0 {
        return false;
      }
      if s.fg !in snapshot {
        snapshot := live;
      }
      active := FocusedWindowIsHost(s.fg, host_pids, snapshot);
    }
  }

  // -- the cache against a changing process table ----------------------------------------------

  /** The running processes and the watcher's cache. */
  datatype World = World(live: Snapshot, cache: Snapshot)

  datatype Event =
    | Spawn(pid: nat, info: ProcInfo)
    | Exit(pid: nat)
    | Poll(s: Sighting)

  /** Every pid a snapshot mentions: its processes and their parents, some of which may have gone before. */
  ghost function Mentioned(snap: Snapshot): set<nat> {
    snap.Keys + set p | p in snap :: snap[p].parent
  }

  ghost function Begin(start: Snapshot): World {
    World(start, map[])
  }

  ghost function Step(threshold: nat, w: World, ev: Event): World {
    match ev
    case Spawn(pid, info) => w.(live := w.live[pid := info])
    case Exit(pid) => w.(live := w.live - {pid})
    case Poll(s) => w.(cache := Refreshed(w.cache, w.live, threshold, s))
  }

  ghost function Run(threshold: nat, w: World, evs: seq<Event>): World {
    if evs == [] then w else Step(threshold, Run(threshold, w, evs[..|evs| - 1]), evs[|evs| - 1])
  }

  /**
   * Any process may exit at any time, any window may be focused and pids may come back, as long as a new process does
   * not get one the cached snapshot mentions.
   */
  ghost predicate Fresh(w: World, ev: Event) {
    ev.Spawn? ==> ev.pid !in Mentioned(w.cache)
  }

  ghost predicate FreshRun(threshold: nat, w: World, evs: seq<Event>) {
    forall i :: 0 <= i < |evs| ==> Fresh(Run(threshold, w, evs[..i]), evs[i])
  }

  /** What the cache says of a process still running is still so, and it knows its parent if that is running too. */
  ghost predicate StillTrue(cache: Snapshot, live: Snapshot) {
    forall p :: p in cache && p in live ==>
      cache[p] == live[p] && (cache[p].parent in live ==> cache[p].parent in cache)
  }

  lemma StepStaysTrue(threshold: nat, w: World, ev: Event)
    requires StillTrue(w.cache, w.live) && Fresh(w, ev)
    ensures var t := Step(threshold, w, ev); StillTrue(t.cache, t.live)
  {
    assert forall p :: p in w.cache ==> w.cache[p].parent in Mentioned(w.cache);
  }

  lemma {:induction false} RunStaysTrue(threshold: nat, w: World, evs: seq<Event>)
    requires StillTrue(w.cache, w.live) && FreshRun(threshold, w, evs)
    ensures var now := Run(threshold, w, evs); StillTrue(now.cache, now.live)
  {
    if evs != [] {
      var n := |evs| - 1;
      assert forall i :: 0 <= i < n ==> evs[..n][..i] == evs[..i];
      RunStaysTrue(threshold, w, evs[..n]);
      StepStaysTrue(threshold, Run(threshold, w, evs[..n]), evs[n]);
    }
  }

  /** The first `n` processes of a walk are running. */
  ghost predicate Running(live: Snapshot, chain: seq<nat>, n: nat) {
    n <= |chain| && forall k :: 0 <= k < n ==> chain[k] in live
  }

  ghost predicate SameUpTo(a: seq<nat>, b: seq<nat>, n: nat) {
    n <= |a| && n <= |b| && forall k :: 0 <= k < n ==> a[k] == b[k]
  }

  /** As far as its processes run, a walk is the same in the cache and in the live table. */
  lemma {:induction false} SameWhileRunning(cache: Snapshot, live: Snapshot, chain: seq<nat>, hops: nat, n: nat)
    requires StillTrue(cache, live) && chain != []
    requires forall k :: 0 <= k < |chain| ==> chain[k] in cache && chain[k] in live
    ensures var a, b := Climb(cache, chain, hops), Climb(live, chain, hops);
            (Running(live, a, n) <==> Running(live, b, n)) && (Running(live, a, n) ==> SameUpTo(a, b, n))
    decreases hops
  {
    var a, b := Climb(cache, chain, hops), Climb(live, chain, hops);
    assert NextHop(cache, chain) == NextHop(live, chain);
    if hops > 0 && NextHop(live, chain).Some? {
      var next := NextHop(live, chain).value;
      if next in live {
        SameWhileRunning(cache, live, chain + [next], hops - 1, n);
      } else {
        assert chain + [next] <= a && chain + [next] <= b;
        assert a[|chain|] == next == b[|chain|];
        assert forall k :: 0 <= k < |chain| ==> a[k] == chain[k] == b[k];
      }
    }
  }

  /** The cached walk reaches a process that makes the window the host's, and all processes up to it are running. */
  ghost predicate HostPathRuns(cache: Snapshot, live: Snapshot, host: seq<nat>, fg: nat) {
    exists i: nat :: PathRunsTo(cache, live, host, fg, i)
  }

  ghost predicate PathRunsTo(cache: Snapshot, live: Snapshot, host: seq<nat>, fg: nat, i: nat) {
    Decides(cache, host, fg, i) && Running(live, Chain(cache, fg), i + 1)
  }

  /** For a window the cache knows, the live table says "host" exactly when the cached path to the host still runs. */
  lemma LiveDecision(cache: Snapshot, live: Snapshot, host: seq<nat>, fg: nat)
    requires StillTrue(cache, live) && fg in cache
    ensures IsHost(live, host, fg) <==> HostPathRuns(cache, live, host, fg)
  {
    hide StillTrue, IsGenericAncestor, FirstCommon, Running, Decides, Chain, PathRunsTo;
    if fg in live {
      forall i: nat ensures PathRunsTo(cache, live, host, fg, i) <==> Decides(live, host, fg, i) {
        DecidesTheSame(cache, live, host, fg, i);
      }
    } else {
      GoneIsNotHost(cache, live, host, fg);
    }
  }

  lemma DecidesTheSame(cache: Snapshot, live: Snapshot, host: seq<nat>, fg: nat, i: nat)
    requires StillTrue(cache, live) && fg in cache && fg in live
    ensures PathRunsTo(cache, live, host, fg, i) <==> Decides(live, host, fg, i)
  {
    hide StillTrue;
    if Decides(live, host, fg, i) {
      WalkRunsBefore(live, fg, i);
    }
    if Running(live, Chain(cache, fg), i + 1) || Running(live, Chain(live, fg), i + 1) {
      SameAlongPath(cache, live, host, fg, i);
    }
  }

  lemma GoneIsNotHost(cache: Snapshot, live: Snapshot, host: seq<nat>, fg: nat)
    requires fg !in live
    ensures !IsHost(live, host, fg) && !HostPathRuns(cache, live, host, fg)
  {
    assert Chain(live, fg) == [fg] && IsGenericAncestor(live, fg);
    ChainIsWalk(cache, fg);
  }

  /** Every process of a walk but the last is in the table it was walked in. */
  lemma WalkRunsBefore(snap: Snapshot, fg: nat, i: nat)
    requires i < |Chain(snap, fg)|
    ensures forall k :: 0 <= k < i ==> Chain(snap, fg)[k] in snap
  {
    ChainIsWalk(snap, fg);
    forall k | 0 <= k < i ensures Chain(snap, fg)[k] in snap {
      assert IsParent(snap, Chain(snap, fg)[k], Chain(snap, fg)[k + 1]);
    }
  }

  /** Position `i` means the same in both walks when either is running up to it. */
  lemma SameAlongPath(cache: Snapshot, live: Snapshot, host: seq<nat>, fg: nat, i: nat)
    requires StillTrue(cache, live) && fg in cache && fg in live
    requires Running(live, Chain(cache, fg), i + 1) || Running(live, Chain(live, fg), i + 1)
    ensures var a, b := Chain(cache, fg), Chain(live, fg);
            && Running(live, a, i + 1) && Running(live, b, i + 1)
            && (FirstCommon(a, host, i) <==> FirstCommon(b, host, i))
            && (IsGenericAncestor(cache, a[i]) <==> IsGenericAncestor(live, b[i]))
  {
    var a, b := Chain(cache, fg), Chain(live, fg);
    SameWhileRunning(cache, live, [fg], MAX_HOPS, i + 1);
    ChainIsWalk(cache, fg);
    if i > 0 {
      assert IsParent(cache, a[i - 1], a[i]);
      assert a[i - 1] in live;
    }
  }

  /**
   * The watcher takes it that a live process's ancestry never changes. At every poll of every run the fresh verdict is
   * the cached one exactly when that is "not active", when the snapshot was just taken, or when every process from
   * the window up to the one that decides is still running.
   */
  lemma {:induction false} CachedVerdictExactlyWhen(threshold: nat, host: seq<nat>, start: Snapshot, evs: seq<Event>,
                                                    s: Sighting)
    requires FreshRun(threshold, Begin(start), evs)
    ensures var now := Run(threshold, Begin(start), evs);
            var cached := Verdict(Refreshed(now.cache, now.live, threshold, s), host, threshold, s);
            (Verdict(now.live, host, threshold, s) <==> cached) <==>
            !cached || s.fg !in now.cache || HostPathRuns(now.cache, now.live, host, s.fg)
    ensures var now := Run(threshold, Begin(start), evs);
            Verdict(now.live, host, threshold, s) ==>
              Verdict(Refreshed(now.cache, now.live, threshold, s), host, threshold, s)
  {
    RunStaysTrue(threshold, Begin(start), evs);
    var now := Run(threshold, Begin(start), evs);
    if s.fg in now.cache {
      LiveDecision(now.cache, now.live, host, s.fg);
      if i: nat :| PathRunsTo(now.cache, now.live, host, s.fg, i) {
        assert IsHost(now.cache, host, s.fg);
      }
    }
  }

  // -- the watcher's assumption --------------------------------------------------------------------

  /** No process exits before its children. */
  ghost predicate LeafExit(w: World, ev: Event) {
    ev.Exit? ==> forall p :: p in w.live && p != ev.pid ==> w.live[p].parent != ev.pid
  }

  ghost predicate LeafExits(threshold: nat, w: World, evs: seq<Event>) {
    forall i :: 0 <= i < |evs| ==> LeafExit(Run(threshold, w, evs[..i]), evs[i])
  }

  /** A cached parent of a running process is running. */
  ghost predicate ParentsRun(cache: Snapshot, live: Snapshot) {
    forall p :: p in cache && p in live && cache[p].parent in cache ==> cache[p].parent in live
  }

  lemma {:induction false} RunKeepsParents(threshold: nat, w: World, evs: seq<Event>)
    requires StillTrue(w.cache, w.live) && ParentsRun(w.cache, w.live)
    requires FreshRun(threshold, w, evs) && LeafExits(threshold, w, evs)
    ensures var now := Run(threshold, w, evs); StillTrue(now.cache, now.live) && ParentsRun(now.cache, now.live)
  {
    if evs != [] {
      var n := |evs| - 1;
      assert forall i :: 0 <= i < n ==> evs[..n][..i] == evs[..i];
      RunKeepsParents(threshold, w, evs[..n]);
      StepStaysTrue(threshold, Run(threshold, w, evs[..n]), evs[n]);
      assert LeafExit(Run(threshold, w, evs[..n]), evs[n]);
    }
  }

  lemma {:induction false} PathRuns(cache: Snapshot, live: Snapshot, fg: nat, n: nat)
    requires ParentsRun(cache, live) && fg in live && n < |Chain(cache, fg)| && Chain(cache, fg)[n] in cache
    ensures Running(live, Chain(cache, fg), n + 1)
  {
    ChainIsWalk(cache, fg);
    if n > 0 {
      assert IsParent(cache, Chain(cache, fg)[n - 1], Chain(cache, fg)[n]);
      PathRuns(cache, live, fg, n - 1);
    }
  }

  /** When no process exits before its children, the cached verdict on a running window is always the fresh one. */
  lemma {:induction false} CacheIsTransparent(threshold: nat, host: seq<nat>, start: Snapshot, evs: seq<Event>,
                                              s: Sighting)
    requires FreshRun(threshold, Begin(start), evs) && LeafExits(threshold, Begin(start), evs)
    requires s.fg in Run(threshold, Begin(start), evs).live
    ensures var now := Run(threshold, Begin(start), evs);
            Verdict(Refreshed(now.cache, now.live, threshold, s), host, threshold, s) <==>
            Verdict(now.live, host, threshold, s)
  {
    var now := Run(threshold, Begin(start), evs);
    RunKeepsParents(threshold, Begin(start), evs);
    CachedVerdictExactlyWhen(threshold, host, start, evs, s);
    if s.fg in now.cache && IsHost(now.cache, host, s.fg) {
      var i: nat :| Decides(now.cache, host, s.fg, i);
      PathRuns(now.cache, now.live, s.fg, i);
      assert PathRunsTo(now.cache, now.live, host, s.fg, i);
    }
  }

  /**
   * Windows does not keep that assumption: in any run, when a process on the cached path to the host exits, the cache
   * goes on saying "active" at that window where a fresh snapshot does not.
   */
  lemma {:induction false} ExitedAncestorMisleads(threshold: nat, host: seq<nat>, start: Snapshot, evs: seq<Event>,
                                                  s: Sighting, i: nat, k: nat)
    requires FreshRun(threshold, Begin(start), evs) && Recent(s, threshold)
    requires var cache := Run(threshold, Begin(start), evs).cache;
             s.fg in cache && Decides(cache, host, s.fg, i) && k <= i
    ensures var gone := Chain(Run(threshold, Begin(start), evs).cache, s.fg)[k];
            var now := Run(threshold, Begin(start), evs + [Exit(gone)]);
            && Verdict(Refreshed(now.cache, now.live, threshold, s), host, threshold, s)
            && !Verdict(now.live, host, threshold, s)
  {
    var before := Run(threshold, Begin(start), evs);
    var chain := Chain(before.cache, s.fg);
    var all := evs + [Exit(chain[k])];
    assert all[..|evs|] == evs && forall j :: 0 <= j < |evs| ==> all[j] == evs[j] && all[..j] == evs[..j];
    var now := Run(threshold, Begin(start), all);
    assert now == Step(threshold, before, Exit(chain[k]));
    RunStaysTrue(threshold, Begin(start), all);
    LiveDecision(now.cache, now.live, host, s.fg);
    forall j: nat ensures !PathRunsTo(now.cache, now.live, host, s.fg, j) {
      if Decides(now.cache, host, s.fg, j) {
        assert i == j;
        assert chain[k] !in now.live;
      }
    }
  }

  /** For instance: the user is seen at the editor's window, then the launcher between it and the editor exits. */
  lemma LauncherExits(start: Snapshot)
    requires start == map[30 := ProcInfo(20, "renderer.exe"), 20 := ProcInfo(10, "launcher.exe"),
                          10 := ProcInfo(0, "code.exe")]
    ensures var s := Sighting(Some(0), 30);
            var now := Run(2000, Begin(start), [Poll(s)] + [Exit(20)]);
            && Verdict(Refreshed(now.cache, now.live, 2000, s), [10], 2000, s)
            && !Verdict(now.live, [10], 2000, s)
  {
    var s := Sighting(Some(0), 30);
    assert [Poll(s)][..0] == [];
    LauncherWalk(start);
    assert !IsGenericAncestor(start, 10) by { assert "code.exe"[0] == 'c'; }
    assert Decides(start, [10], 30, 2);
    ExitedAncestorMisleads(2000, [10], start, [Poll(s)], s, 2, 1);
  }

  lemma LauncherWalk(start: Snapshot)
    requires start.Keys == {10, 20, 30} && start[30].parent == 20 && start[20].parent == 10 && start[10].parent == 0
    ensures Chain(start, 30) == [30, 20, 10]
  {
    assert IsWalk(start, 30, [30, 20, 10]);
    ChainIsWalk(start, 30);
    WalkIsUnique(start, 30, Chain(start, 30), [30, 20, 10]);
  }

  /**
   * A pid the cache mentions can come back, and then the cache can be wrong either way: here a launcher's pid goes to a
   * child of the editor, and the cached verdict stays "not active" where the fresh one is "active".
   */
  lemma ReusedPidMisleads(start: Snapshot)
    requires start == map[30 := ProcInfo(20, "renderer.exe"), 20 := ProcInfo(0, "launcher.exe"),
                          10 := ProcInfo(0, "code.exe")]
    ensures var s := Sighting(Some(0), 30);
            var now := Run(2000, Begin(start), [Poll(s), Exit(20), Spawn(20, ProcInfo(10, "shell.exe"))]);
            && !Verdict(Refreshed(now.cache, now.live, 2000, s), [10], 2000, s)
            && Verdict(now.live, [10], 2000, s)
  {
    var s := Sighting(Some(0), 30);
    var evs := [Poll(s), Exit(20), Spawn(20, ProcInfo(10, "shell.exe"))];
    assert evs[..2][..1] == evs[..1] && evs[..1][..0] == [];
    assert Run(2000, Begin(start), evs[..1]) == World(start, start);
    assert Run(2000, Begin(start), evs[..2]) == World(start - {20}, start);
    var now := Run(2000, Begin(start), evs);
    assert now == World((start - {20})[20 := ProcInfo(10, "shell.exe")], start);
    LauncherWalk(now.live);
    assert !IsGenericAncestor(now.live, 10) by { assert "code.exe"[0] == 'c'; }
    assert Decides(now.live, [10], 30, 2);
    assert IsWalk(start, 30, [30, 20]);
    ChainIsWalk(start, 30);
    WalkIsUnique(start, 30, Chain(start, 30), [30, 20]);
  }
}
