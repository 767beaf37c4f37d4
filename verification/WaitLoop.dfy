/** The wait loops of the Stop and AskUserQuestion hooks: timers, signals, polls, and the one decision they end in. */
module WaitLoop {
  import opened Common
  import opened Decimal
  import opened Tables
  import opened Poll
  import opened Questions

  const LOCAL_INPUT_POLL_MS: nat := 500

  /**
   * One turn of the select: the time, whether an interrupt is pending, what the watcher would say, and the message
   * table a poll would be answered from, or None if it would fail.
   */
  datatype Wake = Wake(now: nat, interrupt: bool, user_active: bool, table: Option<Messages>)

  /**
   * Settings, with times in milliseconds from the creation of the timeout; the intervals start no earlier. Replies
   * are the messages of `chat` after `baseline`.
   */
  datatype Config = Config(timeout_secs: nat, poll_secs: nat, release_on_local_input: bool, poll_from: nat,
                           local_from: nat, chat: int, baseline: int)

  /** The tables served are well-formed. */
  ghost predicate Served(wakes: seq<Wake>) {
    forall i :: 0 <= i < |wakes| && wakes[i].table.Some? ==> Keyed(wakes[i].table.value)
  }

  /** What argument parsing guarantees. */
  predicate ValidConfig(c: Config) {
    c.poll_secs >= 1 && c.timeout_secs >= 1
  }

  /** Interval ticks used up so far. */
  datatype Ticks = Ticks(polls: nat, locals: nat)

  datatype Branch = Interrupt | Timeout | Local | PollTick | Nothing

  /** The biased select: the first ready branch in order. */
  function Select(c: Config, t: Ticks, w: Wake): Branch {
    if w.interrupt then Interrupt
    else if w.now >= c.timeout_secs * 1000 then Timeout
    else if c.release_on_local_input && w.now >= c.local_from + (t.locals + 1) * LOCAL_INPUT_POLL_MS then Local
    else if w.now >= c.poll_from + (t.polls + 1) * c.poll_secs * 1000 then PollTick
    else Nothing
  }

  function Ticked(t: Ticks, b: Branch): Ticks {
    match b
    case Local => t.(locals := t.locals + 1)
    case PollTick => t.(polls := t.polls + 1)
    case _ => t
  }

  /** A poll now would find an inbound message after the baseline with fewer than fifty newer ones. */
  ghost predicate HasReplies(c: Config, w: Wake) {
    w.table.Some? && exists m :: IsAwaited(w.table.value, c.chat, c.baseline, m)
  }

  /** Whether a turn ends the wait. */
  ghost predicate Decisive(c: Config, b: Branch, w: Wake) {
    b.Interrupt? || b.Timeout? || (b.Local? && w.user_active) || (b.PollTick? && HasReplies(c, w))
  }

  datatype Ending = Interrupted | TimedOut | TookOver | Replied(replies: seq<Reply>) | StillWaiting

  /** The ending a decisive turn brings; for a poll, with exactly the replies the table holds. */
  ghost predicate EndsAs(c: Config, b: Branch, w: Wake, e: Ending) {
    match b
    case Interrupt => e == Interrupted
    case Timeout => e == TimedOut
    case Local => e == TookOver
    case PollTick => e.Replied? && w.table.Some? && AreAwaited(w.table.value, c.chat, c.baseline, e.replies)
    case Nothing => false
  }

  /** Ticks used up by the wakes of a trace, were none of them decisive. */
  function TicksAfter(c: Config, wakes: seq<Wake>): Ticks {
    if wakes == [] then
      Ticks(0, 0)
    else
      var n := |wakes| - 1;
      var t := TicksAfter(c, wakes[..n]);
      Ticked(t, Select(c, t, wakes[n]))
  }

  function BranchAt(c: Config, wakes: seq<Wake>, i: nat): Branch
    requires i < |wakes|
  {
    Select(c, TicksAfter(c, wakes[..i]), wakes[i])
  }

  ghost predicate DecisiveAt(c: Config, wakes: seq<Wake>, i: nat) {
    i < |wakes| && Decisive(c, BranchAt(c, wakes, i), wakes[i])
  }

  /** `i` is where the wait ends. */
  ghost predicate EndsAt(c: Config, wakes: seq<Wake>, i: nat) {
    DecisiveAt(c, wakes, i) && forall k: nat :: k < i ==> !DecisiveAt(c, wakes, k)
  }

  /** How the wait over a whole trace ends: at its first decisive wake, or not at all. */
  ghost predicate WaitEnds(c: Config, wakes: seq<Wake>, e: Ending) {
    if e.StillWaiting? then forall k: nat :: !DecisiveAt(c, wakes, k)
    else exists i: nat :: EndsAt(c, wakes, i) && EndsAs(c, BranchAt(c, wakes, i), wakes[i], e)
  }

  // -- the two loops ----------------------------------------------------------------------------------

  datatype Decision = Block(reason: string) | ToolBlock(answer: Answer)

  const MEDIA_ONLY := "(media-only message)"

  function TextOr(r: Reply): string {
    if r.text.Some? then r.text.value else MEDIA_ONLY
  }

  function NumberedReplies(rs: seq<Reply>, n: nat): seq<string> {
    if rs == [] then [] else [['['] + ShowNat(n) + [']', ' '] + TextOr(rs[0])] + NumberedReplies(rs[1..], n + 1)
  }

  /** The text handed back as the next turn: one reply as it is, several numbered and joined. */
  function StopReason(rs: seq<Reply>): string
    requires rs != []
  {
    if |rs| == 1 then TextOr(rs[0]) else JoinLines(NumberedReplies(rs, 1))
  }

  function Texts(rs: seq<Reply>): seq<string> {
    if rs == [] then [] else (if rs[0].text.Some? then [rs[0].text.value] else []) + Texts(rs[1..])
  }

  /** What the Stop hook has emitted when its wait ends with `e`. */
  predicate StopEmits(retry: string, e: Ending, emitted: seq<Decision>) {
    match e
    case TimedOut => emitted == [Block(retry)]
    case Replied(rs) => rs != [] && emitted == [Block(StopReason(rs))]
    case _ => emitted == []
  }

  /** What the AskUserQuestion hook has emitted: a tool block, and only for a reply. */
  ghost predicate AskEmits(qs: seq<Question>, e: Ending, emitted: seq<Decision>) {
    match e
    case Replied(rs) => |emitted| == 1 && emitted[0].ToolBlock? && Answers(qs, JoinLines(Texts(rs)), emitted[0].answer)
    case _ => emitted == []
  }

  /** The wait ended at its first decisive wake, and at no other. */
  lemma EndedAt(c: Config, wakes: seq<Wake>, i: nat, e: Ending)
    requires DecisiveAt(c, wakes, i) && EndsAs(c, BranchAt(c, wakes, i), wakes[i], e)
    requires forall k: nat :: k < i ==> !DecisiveAt(c, wakes, k)
    ensures WaitEnds(c, wakes, e)
    ensures forall k: nat :: EndsAt(c, wakes, k) <==> k == i
  {
    assert EndsAt(c, wakes, i);
  }

  /**
   * The loop of `run_stop` over the wakes it sees. It blocks at most once: with the retry message at the deadline, or,
   * exactly if the wait ends at a poll, with the replies in the table then.
   */
  method RunStop(c: Config, retry: string, wakes: seq<Wake>) returns (emitted: seq<Decision>, e: Ending)
    requires Served(wakes)
    ensures WaitEnds(c, wakes, e)
    ensures StopEmits(retry, e, emitted) && |emitted| <= 1
    ensures e.TimedOut? ==> emitted == [Block(retry)]
    ensures e.Replied? ==> e.replies != [] && emitted == [Block(StopReason(e.replies))]
    ensures emitted != [] <==> exists i: nat :: EndsAt(c, wakes, i) && BranchAt(c, wakes, i) in {PollTick, Timeout}
  {
    var t := Ticks(0, 0);
    for i := 0 to |wakes|
      invariant t == TicksAfter(c, wakes[..i])
      invariant forall k: nat :: k < i ==> !DecisiveAt(c, wakes, k)
    {
      var w := wakes[i];
      var b := Select(c, t, w);
      assert b == BranchAt(c, wakes, i);
      assert wakes[..i + 1][..i] == wakes[..i];
      match b {
        case Interrupt =>
          EndedAt(c, wakes, i, Interrupted);
          return [], Interrupted;
        case Timeout =>
          EndedAt(c, wakes, i, TimedOut);
          return [Block(retry)], TimedOut;
        case Local =>
          if w.user_active {
            EndedAt(c, wakes, i, TookOver);
            return [], TookOver;
          }
        case PollTick =>
          if w.table.Some? {
            var replies := PollOnce(w.table.value, c.chat, c.baseline);
            SomeAwaited(w.table.value, c.chat, c.baseline, replies);
            if replies != [] {
              EndedAt(c, wakes, i, Replied(replies));
              return [Block(StopReason(replies))], Replied(replies);
            }
          }
        case Nothing =>
      }
      t := Ticked(t, b);
    }
    return [], StillWaiting;
  }

  /**
   * The loop of `run_ask` over the wakes it sees. It blocks the tool at most once, and exactly if the wait ends at a
   * poll, with the answer read from the replies in the table then.
   */
  method RunAsk(c: Config, qs: seq<Question>, wakes: seq<Wake>) returns (emitted: seq<Decision>, e: Ending)
    requires Served(wakes)
    ensures WaitEnds(c, wakes, e)
    ensures AskEmits(qs, e, emitted) && |emitted| <= 1
    ensures e.Replied? ==>
              emitted != [] && emitted[0].ToolBlock? && Answers(qs, JoinLines(Texts(e.replies)), emitted[0].answer)
    ensures emitted != [] <==> exists i: nat :: EndsAt(c, wakes, i) && BranchAt(c, wakes, i).PollTick?
  {
    var t := Ticks(0, 0);
    for i := 0 to |wakes|
      invariant t == TicksAfter(c, wakes[..i])
      invariant forall k: nat :: k < i ==> !DecisiveAt(c, wakes, k)
    {
      var w := wakes[i];
      var b := Select(c, t, w);
      assert b == BranchAt(c, wakes, i);
      assert wakes[..i + 1][..i] == wakes[..i];
      match b {
        case Interrupt =>
          EndedAt(c, wakes, i, Interrupted);
          return [], Interrupted;
        case Timeout =>
          EndedAt(c, wakes, i, TimedOut);
          return [], TimedOut;
        case Local =>
          if w.user_active {
            EndedAt(c, wakes, i, TookOver);
            return [], TookOver;
          }
        case PollTick =>
          if w.table.Some? {
            var replies := PollOnce(w.table.value, c.chat, c.baseline);
            SomeAwaited(w.table.value, c.chat, c.baseline, replies);
            if replies != [] {
              EndedAt(c, wakes, i, Replied(replies));
              var answer := AnswerFromReply(qs, JoinLines(Texts(replies)));
              return [ToolBlock(answer)], Replied(replies);
            }
          }
        case Nothing =>
      }
      t := Ticked(t, b);
    }
    return [], StillWaiting;
  }

  // -- what every trace satisfies -----------------------------------------------------------------------

  /** Nothing happens to the wait before it ends but its clocks. */
  ghost predicate QuietAt(c: Config, wakes: seq<Wake>, k: nat)
    requires k < |wakes|
  {
    var w := wakes[k];
    && !w.interrupt
    && w.now < c.timeout_secs * 1000
    && (BranchAt(c, wakes, k).Local? ==> !w.user_active)
    && (BranchAt(c, wakes, k).PollTick? ==> !HasReplies(c, w))
  }

  lemma QuietIsIndecisive(c: Config, wakes: seq<Wake>, k: nat)
    requires k < |wakes|
    ensures QuietAt(c, wakes, k) <==> !DecisiveAt(c, wakes, k)
  {
  }

  /** The first poll that finds a reply, with nothing before it to end the wait. */
  ghost predicate FirstReplyAt(c: Config, wakes: seq<Wake>, i: nat) {
    && i < |wakes| && BranchAt(c, wakes, i).PollTick? && HasReplies(c, wakes[i])
    && forall k: nat :: k < i ==> QuietAt(c, wakes, k)
  }

  /**
   * A wait is decided by a reply exactly at the first poll tick whose table holds an inbound message after the baseline
   * with fewer than fifty newer ones, when no earlier wake saw an interrupt, the deadline or an enabled local release;
   * and then it is decided by exactly these messages, oldest first.
   */
  lemma RepliedExactlyWhen(c: Config, wakes: seq<Wake>, e: Ending)
    requires WaitEnds(c, wakes, e)
    ensures e.Replied? <==> exists i: nat :: FirstReplyAt(c, wakes, i)
    ensures forall i: nat :: FirstReplyAt(c, wakes, i) ==>
              e.Replied? && AreAwaited(wakes[i].table.value, c.chat, c.baseline, e.replies)
  {
    hide QuietAt, BranchAt, AreAwaited, HasReplies;
    forall k: nat | k < |wakes| ensures QuietAt(c, wakes, k) <==> !DecisiveAt(c, wakes, k) {
      QuietIsIndecisive(c, wakes, k);
    }
    forall i: nat | FirstReplyAt(c, wakes, i) ensures EndsAt(c, wakes, i) {
      assert DecisiveAt(c, wakes, i);
    }
    if e.Replied? {
      var i: nat :| EndsAt(c, wakes, i) && EndsAs(c, BranchAt(c, wakes, i), wakes[i], e);
      assert FirstReplyAt(c, wakes, i);
    }
  }

  /** A poll passes over an inbound message after the baseline only if fifty newer ones bury it. */
  lemma UnansweredMeansBuried(c: Config, wakes: seq<Wake>, i: nat, k: nat, r: int)
    requires EndsAt(c, wakes, i) && k < i && BranchAt(c, wakes, k).PollTick? && wakes[k].table.Some?
    requires var ms := wakes[k].table.value;
             r in ms && ms[r].chat_id == c.chat && ms[r].direction.In? && ms[r].message_id > c.baseline
    ensures |Above(wakes[k].table.value, c.chat, wakes[k].table.value[r].message_id)| >= 50
  {
    assert !DecisiveAt(c, wakes, k);
    assert !IsAwaited(wakes[k].table.value, c.chat, c.baseline, wakes[k].table.value[r]);
  }

  /** The deadline ends every wait that reaches it. */
  lemma DeadlineEndsWait(c: Config, wakes: seq<Wake>, e: Ending, i: nat)
    requires WaitEnds(c, wakes, e) && i < |wakes| && wakes[i].now >= c.timeout_secs * 1000
    ensures !e.StillWaiting?
  {
    assert DecisiveAt(c, wakes, i);
  }

  /** Two wakes that differ only in what a poll without replies, or a watcher that saw nobody, found. */
  ghost predicate SameButQuiet(c: Config, v: Wake, w: Wake) {
    v == w || (v.now == w.now && v.interrupt == w.interrupt && !v.user_active && !w.user_active
               && !HasReplies(c, v) && !HasReplies(c, w))
  }

  /** The clocks run by time alone. */
  lemma {:induction false} ClocksIgnoreOutcomes(c: Config, a: seq<Wake>, b: seq<Wake>)
    requires |a| == |b| && forall k :: 0 <= k < |a| ==> SameButQuiet(c, a[k], b[k])
    ensures TicksAfter(c, a) == TicksAfter(c, b)
  {
    if a != [] {
      var n := |a| - 1;
      assert forall k :: 0 <= k < n ==> a[..n][k] == a[k] && b[..n][k] == b[k];
      ClocksIgnoreOutcomes(c, a[..n], b[..n]);
      assert SameButQuiet(c, a[n], b[n]);
    }
  }

  /** Failed and empty polls change nothing: exchanging them, anywhere, leaves the wait ending the same way. */
  lemma QuietPollsChangeNothing(c: Config, a: seq<Wake>, b: seq<Wake>, e: Ending)
    requires |a| == |b| && forall k :: 0 <= k < |a| ==> SameButQuiet(c, a[k], b[k])
    requires WaitEnds(c, a, e)
    ensures WaitEnds(c, b, e)
  {
    forall k: nat | k < |a|
      ensures BranchAt(c, a, k) == BranchAt(c, b, k) && (DecisiveAt(c, a, k) <==> DecisiveAt(c, b, k))
      ensures DecisiveAt(c, a, k) ==> (EndsAs(c, BranchAt(c, a, k), a[k], e) <==> EndsAs(c, BranchAt(c, b, k), b[k], e))
    {
      assert forall i :: 0 <= i < k ==> a[..k][i] == a[i] && b[..k][i] == b[i];
      ClocksIgnoreOutcomes(c, a[..k], b[..k]);
      assert SameButQuiet(c, a[k], b[k]);
    }
    if !e.StillWaiting? {
      var i: nat :| EndsAt(c, a, i) && EndsAs(c, BranchAt(c, a, i), a[i], e);
      assert EndsAt(c, b, i);
    }
  }

  /** Each poll happens before the deadline and no earlier than its tick. */
  lemma {:induction false} PollsAreTimed(c: Config, wakes: seq<Wake>)
    requires ValidConfig(c)
    ensures TicksAfter(c, wakes).polls * c.poll_secs < c.timeout_secs
  {
    if wakes != [] {
      var n := |wakes| - 1;
      PollsAreTimed(c, wakes[..n]);
      var t := TicksAfter(c, wakes[..n]);
      if Select(c, t, wakes[n]).PollTick? {
        assert (t.polls + 1) * c.poll_secs * 1000 <= wakes[n].now < c.timeout_secs * 1000;
      }
    }
  }

  /** The wakes of a trace that take a branch. */
  ghost function Taking(c: Config, wakes: seq<Wake>, b: Branch): set<nat> {
    set k: nat | k < |wakes| && BranchAt(c, wakes, k) == b
  }

  /** The ticks used up are the polls and the checks made. */
  lemma {:induction false} TicksCount(c: Config, wakes: seq<Wake>)
    ensures TicksAfter(c, wakes).polls == |Taking(c, wakes, PollTick)|
    ensures TicksAfter(c, wakes).locals == |Taking(c, wakes, Local)|
  {
    hide Select;
    if wakes == [] {
      assert Taking(c, wakes, PollTick) == {} && Taking(c, wakes, Local) == {};
    } else {
      hide Taking;
      TicksCount(c, wakes[..|wakes| - 1]);
      OneMoreWake(c, wakes, PollTick);
      OneMoreWake(c, wakes, Local);
    }
  }

  lemma {:induction false} OneMoreWake(c: Config, wakes: seq<Wake>, b: Branch)
    requires wakes != []
    ensures var n := |wakes| - 1;
            |Taking(c, wakes, b)| == |Taking(c, wakes[..n], b)| + if BranchAt(c, wakes, n) == b then 1 else 0
  {
    hide BranchAt;
    var n := |wakes| - 1;
    var init := wakes[..n];
    var before, after := Taking(c, init, b), Taking(c, wakes, b);
    forall k: nat ensures k in after <==> k in before || (k == n && BranchAt(c, wakes, n) == b) {
      if k < n { SamePrefix(c, wakes, n, k); }
    }
    assert n !in before;
    if BranchAt(c, wakes, n) == b {
      assert after == before + {n};
    } else {
      assert after == before;
    }
  }

  /** A wait polls at most `timeout_secs / poll_secs` times. */
  lemma PollsAreBounded(c: Config, wakes: seq<Wake>)
    requires ValidConfig(c)
    ensures |Taking(c, wakes, PollTick)| <= c.timeout_secs / c.poll_secs
  {
    var polls := TicksAfter(c, wakes).polls;
    TicksCount(c, wakes);
    PollsAreTimed(c, wakes);
    QuotientBound(c.timeout_secs, c.poll_secs, polls);
  }

  /** The watcher is asked at most once every half second. */
  lemma ChecksAreBounded(c: Config, wakes: seq<Wake>)
    requires wakes != [] && Chronological(wakes)
    ensures Taking(c, wakes, Local) != {} ==>
              c.local_from + 500 * |Taking(c, wakes, Local)| <= wakes[|wakes| - 1].now
  {
    TicksCount(c, wakes);
    TicksFit(c, wakes);
    if Taking(c, wakes, Local) != {} {
      assert |Taking(c, wakes, Local)| > 0;
    }
  }

  lemma QuotientBound(n: nat, d: nat, k: nat)
    requires d >= 1 && k * d < n
    ensures k <= n / d
  {
    if n / d < k {
      Times(n / d + 1, k, d);
      assert false;
    }
  }

  lemma Times(a: nat, b: nat, d: nat)
    requires a <= b
    ensures a * d <= b * d
  {
  }

  // -- what a wait cannot miss ----------------------------------------------------------------------------

  ghost predicate Chronological(wakes: seq<Wake>) {
    forall i, j :: 0 <= i < j < |wakes| ==> wakes[i].now <= wakes[j].now
  }

  /** Ticks are used up no faster than time goes by. */
  lemma {:induction false} TicksFit(c: Config, wakes: seq<Wake>)
    requires wakes != [] && Chronological(wakes)
    ensures var t, now := TicksAfter(c, wakes), wakes[|wakes| - 1].now;
            && (t.polls > 0 ==> c.poll_from + t.polls * c.poll_secs * 1000 <= now)
            && (t.locals > 0 ==> c.local_from + t.locals * 500 <= now)
  {
    var n := |wakes| - 1;
    if n == 0 {
      assert TicksAfter(c, wakes[..0]) == Ticks(0, 0);
    } else {
      TicksFit(c, wakes[..n]);
      assert wakes[..n][n - 1].now <= wakes[n].now;
    }
  }

  /** The first wake at or after an interval's multiple polls, unless something with priority ends the wait there. */
  lemma PollIsDue(c: Config, wakes: seq<Wake>, i: nat, m: nat)
    requires Chronological(wakes) && i < |wakes| && m >= 1
    requires c.poll_from + m * c.poll_secs * 1000 <= wakes[i].now
    requires i > 0 ==> wakes[i - 1].now < c.poll_from + m * c.poll_secs * 1000
    requires !wakes[i].interrupt && wakes[i].now < c.timeout_secs * 1000 && !c.release_on_local_input
    ensures BranchAt(c, wakes, i).PollTick?
  {
    var t := TicksAfter(c, wakes[..i]);
    if i > 0 {
      TicksFit(c, wakes[..i]);
    }
    if t.polls < m {
      Product(t.polls + 1, m, c.poll_secs);
    } else {
      Product(m, t.polls, c.poll_secs);
    }
  }

  lemma Product(a: nat, b: nat, d: nat)
    requires a <= b
    ensures a * d * 1000 <= b * d * 1000
  {
    Times(a, b, d);
  }

  lemma LocalIsDue(c: Config, wakes: seq<Wake>, i: nat, m: nat)
    requires Chronological(wakes) && i < |wakes| && m >= 1
    requires c.local_from + m * 500 <= wakes[i].now
    requires i > 0 ==> wakes[i - 1].now < c.local_from + m * 500
    requires !wakes[i].interrupt && wakes[i].now < c.timeout_secs * 1000 && c.release_on_local_input
    ensures BranchAt(c, wakes, i).Local?
  {
    if i > 0 {
      TicksFit(c, wakes[..i]);
    }
  }

  /** The first wake at or after `time`. */
  lemma {:induction false} FirstAfter(wakes: seq<Wake>, time: nat, k: nat) returns (i: nat)
    requires Chronological(wakes) && k < |wakes| && wakes[k].now >= time
    ensures i <= k && wakes[i].now >= time && (i > 0 ==> wakes[i - 1].now < time)
  {
    i := k;
    if k > 0 && wakes[k - 1].now >= time {
      i := FirstAfter(wakes, time, k - 1);
    }
  }

  lemma SamePrefix(c: Config, wakes: seq<Wake>, n: nat, k: nat)
    requires k < n <= |wakes|
    ensures BranchAt(c, wakes[..n], k) == BranchAt(c, wakes, k)
    ensures DecisiveAt(c, wakes[..n], k) <==> DecisiveAt(c, wakes, k)
  {
    assert wakes[..n][..k] == wakes[..k];
  }

  /** A decisive wake has the wait over by then. */
  lemma {:induction false} OverBy(c: Config, wakes: seq<Wake>, e: Ending, k: nat) returns (i: nat)
    requires WaitEnds(c, wakes, e) && DecisiveAt(c, wakes, k)
    ensures i <= k && !e.StillWaiting? && EndsAt(c, wakes, i) && EndsAs(c, BranchAt(c, wakes, i), wakes[i], e)
    ensures WaitEnds(c, wakes[..i + 1], e)
  {
    hide Decisive, EndsAs, BranchAt;
    i :| EndsAt(c, wakes, i) && EndsAs(c, BranchAt(c, wakes, i), wakes[i], e);
    forall j: nat | j <= i
      ensures DecisiveAt(c, wakes[..i + 1], j) <==> DecisiveAt(c, wakes, j)
      ensures BranchAt(c, wakes[..i + 1], j) == BranchAt(c, wakes, j)
    {
      SamePrefix(c, wakes, i + 1, j);
    }
    assert EndsAt(c, wakes[..i + 1], i);
  }

  /** A multiple of the interval lies within one interval of any time. */
  lemma NextMultiple(from: nat, step: nat, time: nat) returns (m: nat)
    requires step >= 1
    ensures m >= 1 && time <= from + m * step <= Max(time, from) + step
  {
    if time <= from {
      m := 1;
    } else {
      m := (time - from + step - 1) / step;
      assert m * step == step * m;
    }
  }

  /** There is a wake at every multiple of `step` after `from` up to the last wake. */
  ghost predicate WakesEvery(wakes: seq<Wake>, from: nat, step: nat) {
    forall m: nat :: m >= 1 && wakes != [] && from + m * step <= wakes[|wakes| - 1].now ==>
      WokenAt(wakes, from + m * step)
  }

  ghost predicate WokenAt(wakes: seq<Wake>, time: nat) {
    exists k :: 0 <= k < |wakes| && wakes[k].now == time
  }

  /**
   * No reply that stays is missed. When wakes come at every poll interval, nothing interrupts and no local release is
   * enabled, a message that from `since` on is in the table, inbound, after the baseline and with fewer than fifty
   * newer ones ends the wait within one poll interval, with a reply; or the deadline comes first.
   */
  lemma ReplyComesThrough(c: Config, wakes: seq<Wake>, e: Ending, since: nat)
    requires ValidConfig(c) && WaitEnds(c, wakes, e) && Chronological(wakes)
    requires !c.release_on_local_input && forall k :: 0 <= k < |wakes| ==> !wakes[k].interrupt
    requires WakesEvery(wakes, c.poll_from, c.poll_secs * 1000)
    requires forall k :: 0 <= k < |wakes| && wakes[k].now >= since ==>
               wakes[k].table.Some? && exists m :: IsAwaited(wakes[k].table.value, c.chat, c.baseline, m)
    requires wakes != [] && Max(since, c.poll_from) + c.poll_secs * 1000 <= wakes[|wakes| - 1].now
    ensures var limit := Max(since, c.poll_from) + c.poll_secs * 1000;
            if limit < c.timeout_secs * 1000
            then e.Replied? && exists i: nat :: i < |wakes| && wakes[i].now <= limit && WaitEnds(c, wakes[..i + 1], e)
            else wakes[|wakes| - 1].now >= c.timeout_secs * 1000 ==> e.Replied? || e.TimedOut?
  {
    hide WaitEnds, TicksAfter, IsAwaited;
    var limit := Max(since, c.poll_from) + c.poll_secs * 1000;
    if limit < c.timeout_secs * 1000 {
      var m := NextMultiple(c.poll_from, c.poll_secs * 1000, since);
      var k := PollHappens(c, wakes, m);
      var i := OverBy(c, wakes, e, k);
    } else if wakes[|wakes| - 1].now >= c.timeout_secs * 1000 {
      var i := OverBy(c, wakes, e, |wakes| - 1);
    }
  }

  lemma PollHappens(c: Config, wakes: seq<Wake>, m: nat) returns (i: nat)
    requires Chronological(wakes) && WakesEvery(wakes, c.poll_from, c.poll_secs * 1000) && m >= 1
    requires !c.release_on_local_input && forall k :: 0 <= k < |wakes| ==> !wakes[k].interrupt
    requires wakes != [] && c.poll_from + m * (c.poll_secs * 1000) <= wakes[|wakes| - 1].now
    requires c.poll_from + m * (c.poll_secs * 1000) < c.timeout_secs * 1000
    ensures i < |wakes| && wakes[i].now == c.poll_from + m * (c.poll_secs * 1000) && BranchAt(c, wakes, i).PollTick?
  {
    var time := c.poll_from + m * (c.poll_secs * 1000);
    assert WokenAt(wakes, time);
    var k :| 0 <= k < |wakes| && wakes[k].now == time;
    i := FirstAfter(wakes, time, k);
    assert wakes[i].now <= wakes[k].now;
    Regroup(m, c.poll_secs);
    PollIsDue(c, wakes, i, m);
  }

  lemma Regroup(m: nat, d: nat)
    ensures m * (d * 1000) == m * d * 1000
  {
  }

  /** Local input releases only when that was asked for. */
  lemma TakeoverNeedsOptIn(c: Config, wakes: seq<Wake>)
    requires WaitEnds(c, wakes, TookOver)
    ensures c.release_on_local_input
  {
    var i: nat :| EndsAt(c, wakes, i) && EndsAs(c, BranchAt(c, wakes, i), wakes[i], TookOver);
  }

  /**
   * And then it does. When wakes come every half second and the user is active from `since` on, the wait is over within
   * half a second; handed over to the user unless an interrupt, the deadline or a reply comes first.
   */
  lemma LocalInputReleases(c: Config, wakes: seq<Wake>, e: Ending, since: nat)
    requires WaitEnds(c, wakes, e) && Chronological(wakes) && c.release_on_local_input
    requires WakesEvery(wakes, c.local_from, 500)
    requires forall k :: 0 <= k < |wakes| && wakes[k].now >= since ==> wakes[k].user_active
    requires wakes != [] && Max(since, c.local_from) + 500 <= wakes[|wakes| - 1].now
    ensures !e.StillWaiting?
    ensures exists i: nat :: && i < |wakes| && wakes[i].now <= Max(since, c.local_from) + 500
                             && WaitEnds(c, wakes[..i + 1], e)
    ensures Max(since, c.local_from) + 500 < c.timeout_secs * 1000 ==>
              (forall k :: 0 <= k < |wakes| ==> !wakes[k].interrupt && !HasReplies(c, wakes[k])) ==> e == TookOver
  {
    hide WaitEnds, TicksAfter, HasReplies;
    var m := NextMultiple(c.local_from, 500, since);
    var time := c.local_from + m * 500;
    assert WokenAt(wakes, time);
    var k :| 0 <= k < |wakes| && wakes[k].now == time;
    var f := FirstAfter(wakes, time, k);
    assert wakes[f].now <= wakes[k].now;
    if !wakes[f].interrupt && wakes[f].now < c.timeout_secs * 1000 {
      LocalIsDue(c, wakes, f, m);
    }
    assert DecisiveAt(c, wakes, f);
    var i := OverBy(c, wakes, e, f);
    assert wakes[i].now <= wakes[f].now;
  }

  /** An interrupt wins over everything else that is ready at a wake, and the deadline over all but that. */
  lemma InterruptThenDeadline(c: Config, wakes: seq<Wake>, e: Ending, i: nat)
    requires i < |wakes| && WaitEnds(c, wakes[..i], StillWaiting) && WaitEnds(c, wakes[..i + 1], e)
    ensures wakes[i].interrupt ==> e == Interrupted
    ensures !wakes[i].interrupt && wakes[i].now >= c.timeout_secs * 1000 ==> e == TimedOut
    ensures !wakes[i].interrupt && wakes[i].now < c.timeout_secs * 1000 ==> e != Interrupted && e != TimedOut
  {
    hide TicksAfter, HasReplies;
    var upTo := wakes[..i + 1];
    forall k: nat | k < i ensures !DecisiveAt(c, upTo, k) {
      SamePrefix(c, wakes, i, k);
      SamePrefix(c, wakes, i + 1, k);
      assert !DecisiveAt(c, wakes[..i], k);
    }
    if wakes[i].interrupt || wakes[i].now >= c.timeout_secs * 1000 {
      assert DecisiveAt(c, wakes[..i + 1], i);
    }
    if !e.StillWaiting? {
      var j: nat :| EndsAt(c, upTo, j) && EndsAs(c, BranchAt(c, upTo, j), upTo[j], e);
      assert j == i;
    }
  }

  // -- what the replies are turned into -------------------------------------------------------------------

  /** The lines of a text. */
  function Lines(s: string): (ls: seq<string>)
    ensures ls != []
  {
    if s == [] then
      [[]]
    else
      var rest := Lines(s[1..]);
      if s[0] == '\n' then [[]] + rest else [[s[0]] + rest[0]] + rest[1..]
  }

  lemma {:induction false} LinesJoin(a: string, b: string)
    ensures Lines(a + ['\n'] + b) == Lines(a) + Lines(b)
  {
    if a == [] {
      assert a + ['\n'] + b == ['\n'] + b;
      assert (['\n'] + b)[1..] == b;
    } else {
      LinesJoin(a[1..], b);
      assert (a + ['\n'] + b)[1..] == a[1..] + ['\n'] + b;
      FirstLine(a[0], Lines(a[1..]), Lines(b));
    }
  }

  lemma FirstLine(c: char, ls: seq<string>, more: seq<string>)
    requires ls != []
    ensures [[]] + (ls + more) == ([[]] + ls) + more
    ensures [[c] + (ls + more)[0]] + (ls + more)[1..] == ([[c] + ls[0]] + ls[1..]) + more
  {
  }

  lemma {:induction false} OneLine(s: string)
    requires '\n' !in s
    ensures Lines(s) == [s]
  {
    if s != [] {
      OneLine(s[1..]);
      assert [s[0]] + s[1..] == s;
    }
  }

  /** Joined single-line texts come apart again into just those texts. */
  lemma {:induction false} JoinedLinesSplit(texts: seq<string>)
    requires texts != [] && forall t :: t in texts ==> '\n' !in t
    ensures Lines(JoinLines(texts)) == texts
  {
    var n := |texts| - 1;
    OneLine(texts[n]);
    if n > 0 {
      assert forall t :: t in texts[..n] ==> t in texts;
      JoinedLinesSplit(texts[..n]);
      LinesJoin(JoinLines(texts[..n]), texts[n]);
      assert texts == texts[..n] + [texts[n]];
    } else {
      assert texts == [texts[0]];
    }
  }

  lemma {:induction false} NumberedLine(rs: seq<Reply>, n: nat, k: nat)
    requires k < |rs|
    ensures |NumberedReplies(rs, n)| == |rs|
    ensures NumberedReplies(rs, n)[k] ==
            "[" + ShowNat(n + k) + "] " + if rs[k].text.Some? then rs[k].text.value else "(media-only message)"
  {
    hide ShowNat;
    if k == 0 {
      if |rs| > 1 { NumberedLine(rs[1..], n + 1, 0); }
      Bracketed(ShowNat(n), TextOr(rs[0]));
    } else {
      NumberedLine(rs[1..], n + 1, k - 1);
    }
  }

  lemma Bracketed(number: string, text: string)
    ensures ['['] + number + [']', ' '] + text == "[" + number + "] " + text
  {
  }

  /**
   * The Stop hook hands back every reply: a single one as it is, several as one line each, oldest first, numbered from
   * one. A reply without text stands as a note that it was media only.
   */
  lemma StopReasonTellsAll(rs: seq<Reply>)
    requires rs != [] && forall r :: r in rs && r.text.Some? ==> '\n' !in r.text.value
    ensures |rs| == 1 ==>
              StopReason(rs) == if rs[0].text.Some? then rs[0].text.value else "(media-only message)"
    ensures |rs| > 1 ==>
              && |Lines(StopReason(rs))| == |rs|
              && forall k :: 0 <= k < |rs| ==>
                   Lines(StopReason(rs))[k] ==
                   "[" + ShowNat(1 + k) + "] " + if rs[k].text.Some? then rs[k].text.value else "(media-only message)"
  {
    hide ShowNat, Lines, NumberedReplies, JoinLines;
    if |rs| > 1 {
      var texts := NumberedReplies(rs, 1);
      NumberedLine(rs, 1, 0);
      forall k | 0 <= k < |rs|
        ensures texts[k] ==
                "[" + ShowNat(1 + k) + "] " + if rs[k].text.Some? then rs[k].text.value else "(media-only message)"
        ensures '\n' !in texts[k]
      {
        NumberedLine(rs, 1, k);
        assert rs[k] in rs;
        DigitsNoNewline(1 + k);
      }
      JoinedLinesSplit(texts);
    }
  }

  lemma {:induction false} DigitsNoNewline(n: nat)
    ensures '\n' !in ShowNat(n)
  {
    ShowNatDenotes(n);
    forall i | 0 <= i < |ShowNat(n)| ensures ShowNat(n)[i] != '\n' {
      assert IsDigit(ShowNat(n)[i]);
    }
  }

  /** The AskUserQuestion hook reads the texts of all replies that have one, oldest first. */
  lemma {:induction false} TextsOfAll(rs: seq<Reply>, r: Reply)
    ensures Texts(rs + [r]) == Texts(rs) + if r.text.Some? then [r.text.value] else []
  {
    if rs == [] {
      assert rs + [r] == [r] && [r][1..] == [];
    } else {
      assert (rs + [r])[1..] == rs[1..] + [r];
      TextsOfAll(rs[1..], r);
    }
  }
}
