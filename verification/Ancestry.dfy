/** Process ancestry walks, and the nearest-common-ancestor decision made with them. */
module Ancestry {
  import opened Common

  datatype ProcInfo = ProcInfo(parent: nat, exe: string)

  type Snapshot = map<nat, ProcInfo>

  const MAX_HOPS: nat := 32

  /** The next process of a walk, if it goes on. */
  function NextHop(snap: Snapshot, chain: seq<nat>): Option<nat>
    requires chain != []
  {
    var cur := chain[|chain| - 1];
    if cur !in snap then
      None
    else
      var parent := snap[cur].parent;
      if parent == 0 || parent == cur || parent in chain then None else Some(parent)
  }

  function Climb(snap: Snapshot, chain: seq<nat>, hops: nat): (r: seq<nat>)
    requires chain != []
    ensures chain <= r
    decreases hops
  {
    if hops == 0 || NextHop(snap, chain).None? then chain
    else Climb(snap, chain + [NextHop(snap, chain).value], hops - 1)
  }

  function Chain(snap: Snapshot, pid: nat): seq<nat> {
    Climb(snap, [pid], MAX_HOPS)
  }

  /**
   * A duplicate-free path of parents from `pid`, of at most 33 processes, that ends only at a missing process, at a
   * zero, own or repeated parent, or at the cap.
   */
  ghost predicate IsWalk(snap: Snapshot, pid: nat, chain: seq<nat>) {
    && chain != [] && chain[0] == pid && |chain| <= MAX_HOPS + 1
    && Distinct(chain)
    && (forall i :: 0 <= i < |chain| - 1 ==> IsParent(snap, chain[i], chain[i + 1]))
    && (|chain| == MAX_HOPS + 1 || EndsAt(snap, chain, chain[|chain| - 1]))
  }

  ghost predicate IsParent(snap: Snapshot, p: nat, q: nat) {
    p in snap && snap[p].parent == q && q != 0
  }

  ghost predicate EndsAt(snap: Snapshot, chain: seq<nat>, p: nat) {
    p in snap ==> snap[p].parent == 0 || snap[p].parent in chain
  }

  lemma {:induction false} ClimbWalks(snap: Snapshot, pid: nat, chain: seq<nat>, hops: nat)
    requires chain != [] && chain[0] == pid && |chain| + hops == MAX_HOPS + 1
    requires Distinct(chain)
    requires forall i :: 0 <= i < |chain| - 1 ==> IsParent(snap, chain[i], chain[i + 1])
    ensures IsWalk(snap, pid, Climb(snap, chain, hops))
    decreases hops
  {
    if hops > 0 && NextHop(snap, chain).Some? {
      var next := chain + [NextHop(snap, chain).value];
      assert forall i :: 0 <= i < |chain| ==> next[i] == chain[i];
      ClimbWalks(snap, pid, next, hops - 1);
    }
  }

  lemma ChainIsWalk(snap: Snapshot, pid: nat)
    ensures IsWalk(snap, pid, Chain(snap, pid))
  {
    ClimbWalks(snap, pid, [pid], MAX_HOPS);
  }

  /** Only one walk of a process exists. */
  lemma WalkIsUnique(snap: Snapshot, pid: nat, a: seq<nat>, b: seq<nat>)
    requires IsWalk(snap, pid, a) && IsWalk(snap, pid, b)
    ensures a == b
  {
    NotLonger(snap, pid, a, b);
    NotLonger(snap, pid, b, a);
    WalkPrefix(snap, pid, a, b, |a|);
    assert a[..|a|] == a && b[..|b|] == b;
  }

  lemma NotLonger(snap: Snapshot, pid: nat, a: seq<nat>, b: seq<nat>)
    requires IsWalk(snap, pid, a) && IsWalk(snap, pid, b)
    ensures |b| <= |a|
  {
    if |a| < |b| {
      WalkPrefix(snap, pid, a, b, |a|);
      assert b[..|a|] == a;
      GoesOn(snap, pid, b, |a|);
      assert false;
    }
  }

  /** Before its end a walk always moves on to a new process. */
  lemma GoesOn(snap: Snapshot, pid: nat, b: seq<nat>, n: nat)
    requires IsWalk(snap, pid, b) && 0 < n < |b|
    ensures !EndsAt(snap, b[..n], b[..n][n - 1])
  {
    assert IsParent(snap, b[n - 1], b[n]);
  }

  lemma {:induction false} WalkPrefix(snap: Snapshot, pid: nat, a: seq<nat>, b: seq<nat>, n: nat)
    requires IsWalk(snap, pid, a) && IsWalk(snap, pid, b)
    requires n <= |a| && n <= |b|
    ensures a[..n] == b[..n]
  {
    if n == 0 {
    } else if n == 1 {
      assert a[..1] == [pid] == b[..1];
    } else {
      WalkPrefix(snap, pid, a, b, n - 1);
      assert a[..n - 1][n - 2] == b[..n - 1][n - 2];
      assert IsParent(snap, a[n - 2], a[n - 1]) && IsParent(snap, b[n - 2], b[n - 1]);
      assert a[..n] == a[..n - 1] + [a[n - 1]];
      assert b[..n] == b[..n - 1] + [b[n - 1]];
    }
  }

  /** `ancestry_in`. */
  method AncestryIn(snap: Snapshot, pid: nat) returns (chain: seq<nat>)
    ensures chain == Chain(snap, pid)
    ensures IsWalk(snap, pid, chain) && |chain| <= 33
  {
    hide IsWalk;
    chain := [pid];
    var cur := pid;
    for i := 0 to MAX_HOPS
      invariant chain != [] && cur == chain[|chain| - 1]
      invariant Climb(snap, chain, MAX_HOPS - i) == Chain(snap, pid)
    {
      if cur !in snap { break; }
      var parent := snap[cur].parent;
      if parent == 0 || parent == cur || parent in chain { break; }
      chain := chain + [parent];
      cur := parent;
    }
    ChainIsWalk(snap, pid);
  }

  /** `pid_ancestry_chain`: the walk without its first process. */
  method PidAncestryChain(snap: Snapshot, self: nat) returns (chain: seq<nat>)
    ensures chain == Chain(snap, self)[1..]
  {
    chain := AncestryIn(snap, self);
    if chain != [] {
      chain := chain[1..];
    }
  }

  // -- parent links without the cap ------------------------------------------------------------

  /** The `n`-th parent of `p`, following links as long as they lead on. */
  ghost function Up(snap: Snapshot, p: nat, n: nat): Option<nat> {
    if n == 0 then
      Some(p)
    else
      var q := Up(snap, p, n - 1);
      if q.Some? && q.value in snap && snap[q.value].parent != 0 then Some(snap[q.value].parent) else None
  }

  /** No process is its own proper ancestor. */
  ghost predicate CycleFree(snap: Snapshot) {
    forall p: nat, n: nat :: n > 0 ==> Up(snap, p, n) != Some(p)
  }

  lemma {:induction false} UpComposes(snap: Snapshot, p: nat, q: nat, a: nat, b: nat)
    requires Up(snap, p, a) == Some(q)
    ensures Up(snap, p, a + b) == Up(snap, q, b)
  {
    if b > 0 {
      UpComposes(snap, p, q, a, b - 1);
    }
  }

  lemma {:induction false} UpStays(snap: Snapshot, p: nat, a: nat, b: nat)
    requires a <= b && Up(snap, p, b).Some?
    ensures Up(snap, p, a).Some?
  {
    if a < b {
      UpStays(snap, p, a, b - 1);
    }
  }

  lemma {:induction false} WalkIsUp(snap: Snapshot, pid: nat, chain: seq<nat>, i: nat)
    requires IsWalk(snap, pid, chain) && i < |chain|
    ensures Up(snap, pid, i) == Some(chain[i])
  {
    if i > 0 {
      WalkIsUp(snap, pid, chain, i - 1);
      assert IsParent(snap, chain[i - 1], chain[i]);
    }
  }

  /** On a cycle-free snapshot the walk reaches every ancestor within the cap. */
  lemma {:induction false} WalkReaches(snap: Snapshot, pid: nat, chain: seq<nat>, n: nat)
    requires CycleFree(snap) && IsWalk(snap, pid, chain)
    requires n <= 32 && Up(snap, pid, n).Some?
    ensures n < |chain|
  {
    if |chain| <= n {
      var last := |chain| - 1;
      WalkIsUp(snap, pid, chain, last);
      UpStays(snap, pid, last + 1, n);
      var parent := snap[chain[last]].parent;
      assert parent in chain;
      var k :| 0 <= k < |chain| && chain[k] == parent;
      WalkIsUp(snap, pid, chain, k);
      UpComposes(snap, pid, parent, k, last + 1 - k);
      assert false;
    }
  }

  /** Two walks that meet go on together. */
  lemma {:induction false} WalksAgree(snap: Snapshot, p: nat, q: nat, a: seq<nat>, b: seq<nat>, i: nat, j: nat, k: nat)
    requires IsWalk(snap, p, a) && IsWalk(snap, q, b)
    requires i + k < |a| && j + k < |b| && a[i] == b[j]
    ensures a[i + k] == b[j + k]
  {
    if k > 0 {
      WalksAgree(snap, p, q, a, b, i, j, k - 1);
      assert IsParent(snap, a[i + k - 1], a[i + k]) && IsParent(snap, b[j + k - 1], b[j + k]);
    }
  }

  // -- the decision -----------------------------------------------------------------------------

  const GENERIC_EXES: set<string> :=
    {"explorer.exe", "svchost.exe", "services.exe", "wininit.exe", "winlogon.exe", "userinit.exe",
     "runtimebroker.exe", ""}

  predicate IsGenericAncestor(snap: Snapshot, pid: nat) {
    pid <= 4 || pid !in snap || snap[pid].exe in GENERIC_EXES
  }

  /** Position `i` is the first of `chain` that is one of `host`. */
  ghost predicate FirstCommon(chain: seq<nat>, host: seq<nat>, i: nat) {
    i < |chain| && chain[i] in host && forall k :: 0 <= k < i ==> chain[k] !in host
  }

  /** Position `i` of the window's walk makes it the host's. */
  ghost predicate Decides(snap: Snapshot, host: seq<nat>, fg: nat, i: nat) {
    FirstCommon(Chain(snap, fg), host, i) && !IsGenericAncestor(snap, Chain(snap, fg)[i])
  }

  ghost predicate IsHost(snap: Snapshot, host: seq<nat>, fg: nat) {
    exists i: nat :: Decides(snap, host, fg, i)
  }

  /** `focused_window_is_host`. */
  method FocusedWindowIsHost(fg: nat, host: seq<nat>, snap: Snapshot) returns (is_host: bool)
    ensures is_host <==> IsHost(snap, host, fg)
  {
    var chain := AncestryIn(snap, fg);
    for i := 0 to |chain|
      invariant forall k :: 0 <= k < i ==> chain[k] !in host
    {
      if chain[i] in host {
        assert FirstCommon(chain, host, i);
        assert Decides(snap, host, fg, i) <==> !IsGenericAncestor(snap, chain[i]);
        return !IsGenericAncestor(snap, chain[i]);
      }
    }
    return false;
  }

  /**
   * The window is the host's exactly when the first process of its path that is one of the hook's is a known one other
   * than the idle and system processes, the shell and the service hosts, or one without a name.
   */
  lemma HostExactlyWhen(snap: Snapshot, host: seq<nat>, fg: nat)
    ensures IsHost(snap, host, fg) <==>
            exists i: nat :: && i < |Chain(snap, fg)| && Chain(snap, fg)[i] in host
                             && (forall k :: 0 <= k < i ==> Chain(snap, fg)[k] !in host)
                             && IsApplication(snap, Chain(snap, fg)[i])
  {
    hide Chain, IsApplication, IsGenericAncestor;
    forall i: nat | i < |Chain(snap, fg)|
      ensures IsApplication(snap, Chain(snap, fg)[i]) <==> !IsGenericAncestor(snap, Chain(snap, fg)[i])
    {
      ApplicationExactlyWhen(snap, Chain(snap, fg)[i]);
    }
    if i: nat :| && i < |Chain(snap, fg)| && Chain(snap, fg)[i] in host
                 && (forall k :: 0 <= k < i ==> Chain(snap, fg)[k] !in host)
                 && IsApplication(snap, Chain(snap, fg)[i]) {
      assert Decides(snap, host, fg, i);
    }
  }

  ghost predicate IsApplication(snap: Snapshot, pid: nat) {
    && pid > 4 && pid in snap
    && snap[pid].exe != "" && snap[pid].exe != "explorer.exe" && snap[pid].exe != "svchost.exe"
    && snap[pid].exe != "services.exe" && snap[pid].exe != "wininit.exe" && snap[pid].exe != "winlogon.exe"
    && snap[pid].exe != "userinit.exe" && snap[pid].exe != "runtimebroker.exe"
  }

  lemma ApplicationExactlyWhen(snap: Snapshot, pid: nat)
    ensures IsApplication(snap, pid) <==> !IsGenericAncestor(snap, pid)
  {
  }

  // -- the nearest common ancestor -------------------------------------------------------------------

  /**
   * The hook's ancestors are read once, when it starts (`early`); the window's are read from the watcher's snapshot.
   * A process within the cap that is an ancestor of the window now and was one of the hook then is never missed.
   */
  lemma {:induction false} NoCommonMissed(early: Snapshot, snap: Snapshot, fg: nat, hook: nat, y: nat, a: nat, b: nat)
    requires CycleFree(snap) && CycleFree(early)
    requires a <= 32 && 0 < b <= 32
    requires Up(snap, fg, a) == Some(y) && Up(early, hook, b) == Some(y)
    ensures exists i: nat :: i <= a && FirstCommon(Chain(snap, fg), Chain(early, hook)[1..], i)
  {
    IsListed(snap, fg, y, a);
    IsListed(early, hook, y, b);
    assert Chain(early, hook)[1..][b - 1] == y;
    FirstOf(Chain(snap, fg), Chain(early, hook)[1..], a);
  }

  /** An ancestor within the cap is on the walk, at its distance. */
  lemma {:induction false} IsListed(snap: Snapshot, p: nat, y: nat, n: nat)
    requires CycleFree(snap) && n <= 32 && Up(snap, p, n) == Some(y)
    ensures n < |Chain(snap, p)| && Chain(snap, p)[n] == y
  {
    ChainIsWalk(snap, p);
    WalkReaches(snap, p, Chain(snap, p), n);
    WalkIsUp(snap, p, Chain(snap, p), n);
  }

  /** No pid stands for different processes in the two snapshots. */
  ghost predicate NoReuse(early: Snapshot, snap: Snapshot) {
    forall p :: p in early && p in snap ==> early[p] == snap[p]
  }

  lemma {:induction false} UpInBoth(early: Snapshot, snap: Snapshot, p: nat, n: nat)
    requires NoReuse(early, snap)
    ensures Up(early, p, n).Some? ==> Up(early + snap, p, n) == Up(early, p, n)
    ensures Up(snap, p, n).Some? ==> Up(early + snap, p, n) == Up(snap, p, n)
  {
    if n > 0 {
      UpInBoth(early, snap, p, n - 1);
    }
  }

  /**
   * The process the decision looks at is the nearest common ancestor of the window and the hook's parent: any other
   * common ancestor within the cap is at least as far from the window and is an ancestor of it. It is at least as far
   * from the hook too, whatever exited in between, unless a pid was reused or parent links loop.
   */
  lemma FirstCommonIsNearest(early: Snapshot, snap: Snapshot, fg: nat, hook: nat, i: nat, j: nat, y: nat, a: nat,
                             b: nat)
    requires CycleFree(snap) && CycleFree(early)
    requires FirstCommon(Chain(snap, fg), Chain(early, hook)[1..], i)
    requires 0 < j < |Chain(early, hook)| && Chain(early, hook)[j] == Chain(snap, fg)[i]
    requires a <= 32 && 0 < b <= 32
    requires Up(snap, fg, a) == Some(y) && Up(early, hook, b) == Some(y)
    ensures i <= a && Up(snap, Chain(snap, fg)[i], a - i) == Some(y)
    ensures NoReuse(early, snap) && CycleFree(early + snap) ==> j <= b
  {
    hide Up, Chain, CycleFree, IsWalk, NoReuse;
    var z := Chain(snap, fg)[i];
    NoCommonMissed(early, snap, fg, hook, y, a, b);
    ChainIsWalk(snap, fg);
    ChainIsWalk(early, hook);
    WalkIsUp(snap, fg, Chain(snap, fg), i);
    WalkIsUp(early, hook, Chain(early, hook), j);
    UpComposes(snap, fg, z, i, a - i);
    if b < j && NoReuse(early, snap) && CycleFree(early + snap) {
      UpComposes(early, hook, y, b, j - b);
      NoLoop(early, snap, z, y, a - i, j - b);
      assert false;
    }
  }

  lemma {:induction false} NoLoop(early: Snapshot, snap: Snapshot, z: nat, y: nat, k: nat, m: nat)
    requires NoReuse(early, snap) && CycleFree(early + snap)
    requires Up(snap, z, k) == Some(y) && Up(early, y, m) == Some(z)
    ensures m == 0
  {
    hide NoReuse;
    UpInBoth(early, snap, y, m);
    UpInBoth(early, snap, z, k);
    UpComposes(early + snap, z, y, k, m);
  }

  lemma {:induction false} FirstOf(chain: seq<nat>, host: seq<nat>, a: nat)
    requires a < |chain| && chain[a] in host
    ensures exists i: nat :: i <= a && FirstCommon(chain, host, i)
  {
    if k: nat :| k < a && chain[k] in host {
      FirstOf(chain, host, k);
    } else {
      assert FirstCommon(chain, host, a);
    }
  }
}
