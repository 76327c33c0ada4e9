/** Exactly which messages the not-receding rule can leave behind unseen. */
module DrainMisses {
  import opened Telegram
  import opened Deletion
  import opened Drain
  import opened DrainHidden
  import opened DrainStops
  import DrainCompletes
  import Int64

  /** One second, in the nanoseconds that instants count. */
  const SECOND := 1_000_000_000

  /**
   * A job and a start that the program can meet: the client up, a TTL of some minutes, a clock that does not run
   * backwards, and whole-second dates that follow the ids.
   */
  ghost predicate Lifelike(job: Job, st: State) {
    && AlwaysUp(job.env.net) && (exists minutes: nat :: job.ttl == Int64.Ttl(minutes) > 0)
    && (forall m, n :: m <= n ==> job.env.clock(m) <= job.env.clock(n))
    && Descending(st.h) && DrainCompletes.DatesDescend(st.h)
    && forall i :: 0 <= i < |st.h| ==> st.h[i].sent % SECOND == 0
  }

  /** The same ids with the same kinds; only the dates may differ. */
  ghost predicate SamePattern(h: seq<Msg>, g: seq<Msg>) {
    |h| == |g| && forall i :: 0 <= i < |h| ==> h[i].id == g[i].id && h[i].ordinary == g[i].ordinary
  }

  lemma SameRuns(h: seq<Msg>, g: seq<Msg>, n: nat)
    requires SamePattern(h, g) && n <= |h|
    ensures Unbroken(h[..n]) <==> Unbroken(g[..n])
  {
    assert forall j: nat | j + PAGE_LIMIT <= n :: ServiceRun(h[..n], j) <==> ServiceRun(g[..n], j);
  }

  lemma SameHidden(h: seq<Msg>, g: seq<Msg>, l: nat)
    requires SamePattern(h, g) && l < |h| && Hidden(h, l)
    ensures Hidden(g, l)
  {
    var i, j, k :| 0 <= i < j < k < l && h[i].ordinary && h[j].ordinary && !h[k].ordinary && Unbroken(h[..j]);
    SameRuns(h, g, j);
    assert g[i].ordinary && g[j].ordinary && !g[k].ordinary;
  }

  // ---------------------------------------------------------------- the histories that show it

  /** The first k messages sent a minute after the others. */
  function Redated(h: seq<Msg>, k: nat): seq<Msg> {
    seq(|h|, x requires 0 <= x < |h| => Msg(h[x].id, if x < k then Int64.MINUTE else 0, h[x].ordinary))
  }

  const GROUP := Group(-1_000_000_000_001, "chat", "", true, 1)

  /** A TTL of one minute, everything going through, and a minute between the first pass and the second. */
  function MinuteJob(window: nat): Job {
    Job(Env(Net(n => true, n => true, (n, k) => true), window,
            (n: nat) => if n <= 1 then Int64.MINUTE else 2 * Int64.MINUTE, n => true),
        GROUP, GROUP.markedID, Int64.Ttl(1))
  }

  function StartWith(h: seq<Msg>): State {
    State(h, map[], map[], 0, 0)
  }

  lemma RedatedIsLifelike(h: seq<Msg>, window: nat, k: nat)
    requires Descending(h)
    ensures Lifelike(MinuteJob(window), StartWith(Redated(h, k))) && SamePattern(h, Redated(h, k))
    ensures MinuteJob(window).ttl == Int64.MINUTE
  {
    assert Int64.Ttl(1) == Int64.MINUTE;
  }

  /** A pass that finds something to delete while the network works and the context lives. */
  lemma WorkingPass(job: Job, q: Progress, n: nat, seen: seq<Msg>, ids: seq<int>)
    requires DrainCompletes.NetWorks(job.env.net) && (forall k :: job.env.ctxOk(k))
    requires Descending(q.st.h) && seen == Walk(Window(q.st.h, job.env.window), 0)
    requires ids == Expired(seen, job.env.clock(n), job.ttl) && ids != []
    ensures var turn := TakeTurn(job, q, n);
            && turn.at.st.h == Remove(q.st.h, IdSet(ids))
            && turn.at.oldest == MinId(seen)
            && turn.at.passes == q.passes + [Pass(q.st.h, job.env.clock(n), seen, ids, [])]
            && (turn.Stop? <==> q.oldest != 0 && MinId(seen) >= q.oldest)
            && (turn.Stop? ==> turn.exit == NotReceding)
  {
    PassScans(job, q.st);
    SubmittedIds(q.st.h, job.env.window, seen, job.env.clock(n), job.ttl);
    DrainCompletes.DeletesAll(job, Scanned(job, q.st), ids);
  }

  /** Service messages standing alone before an ordinary stretch do not keep the walk from it. */
  lemma HeadWalk(u: seq<Msg>, j: nat, t: seq<Msg>)
    requires j <= |u| && Unbroken(u[..j]) && (forall x :: j <= x < |u| ==> u[x].ordinary)
    requires |t| <= 1 && AllService(t)
    ensures Walk(u + t, 0) == Reals(u)
  {
    var head, rest := u[..j], u[j..];
    assert u == head + rest;
    PassesIff(head);
    WalkSplit(head, rest, 0);
    OrdinaryPasses(rest, Trailing(head, 0));
    WalkSplit(u, t, 0);
    if t != [] {
      assert t[1..] == [];
    }
  }

  lemma {:induction false} NothingExpired(seen: seq<Msg>, now: int, ttl: int)
    requires forall i :: 0 <= i < |seen| ==> !Int64.Aged(now, seen[i].sent, ttl)
    ensures Expired(seen, now, ttl) == []
  {
    if seen != [] {
      NothingExpired(seen[..|seen| - 1], now, ttl);
    }
  }

  /** A history in which the message at k - 1 ends a stretch of ordinary ones before a service message. */
  ghost predicate Trap(g: seq<Msg>, i: nat, j: nat, k: nat) {
    && Descending(g) && i < j < k < |g| - 1
    && g[i].ordinary && !g[k].ordinary && (forall x :: j <= x < k ==> g[x].ordinary) && Unbroken(g[..j])
    && forall x :: 0 <= x < |g| ==> g[x].sent == if x < k - 1 then Int64.MINUTE else 0
  }

  lemma OnlyLastExpired(u: seq<Msg>, last: Msg, now: int, ttl: int)
    requires last.ordinary && Int64.Aged(now, last.sent, ttl) && Expired(Reals(u), now, ttl) == []
    ensures Reals(u + [last]) == Reals(u) + [last] && Expired(Reals(u + [last]), now, ttl) == [last.id]
  {
    RealsAppend(u, [last]);
    assert Reals([last]) == [last] + Reals([]);
    assert (Reals(u) + [last])[..|Reals(u)|] == Reals(u);
  }

  lemma LastIsOldest(v: seq<Msg>, u: seq<Msg>, last: Msg)
    requires Descending(v) && Reals(v) == u + [last]
    ensures MinId(Reals(v)) == last.id
  {
    RealsDescend(v);
    MinIdOfDescending(Reals(v));
  }

  /** With a window that ends before the service message, only the last message in it has expired. */
  lemma FirstWindow(g: seq<Msg>, i: nat, j: nat, k: nat)
    requires Trap(g, i, j, k)
    ensures var seen := Walk(Window(g, k), 0);
            Expired(seen, Int64.MINUTE, Int64.MINUTE) == [g[k - 1].id] && MinId(seen) == g[k - 1].id
  {
    var v, u, last := g[..k], g[..k - 1], g[k - 1];
    assert Window(g, k) == v == u + [last];
    assert v[..j] == g[..j] && v + [] == v;
    HeadWalk(v, j, []);
    FreshHead(g, k - 1);
    OnlyLastExpired(u, last, Int64.MINUTE, Int64.MINUTE);
    DescendingSlice(g, 0, k);
    LastIsOldest(v, Reals(u), last);
  }

  /** A first pass that finds one message to delete cuts that message out. */
  lemma DeletesOne(job: Job, q: Progress, n: nat, x: nat)
    requires DrainCompletes.NetWorks(job.env.net) && (forall k :: job.env.ctxOk(k))
    requires Descending(q.st.h) && x < |q.st.h| && q.oldest == 0
    requires Expired(Walk(Window(q.st.h, job.env.window), 0), job.env.clock(n), job.ttl) == [q.st.h[x].id]
    ensures var turn := TakeTurn(job, q, n);
            && turn.Next? && turn.at.st.h == q.st.h[..x] + q.st.h[x + 1..]
            && turn.at.oldest == MinId(Walk(Window(q.st.h, job.env.window), 0))
  {
    WorkingPass(job, q, n, Walk(Window(q.st.h, job.env.window), 0), [q.st.h[x].id]);
    OneGone(q.st.h, x);
  }

  /** The first pass deletes that message. */
  lemma FirstPass(job: Job, g: seq<Msg>, k: nat, q: Progress)
    requires job == MinuteJob(k) && Descending(g) && 0 < k <= |g| && q.st.h == g && q.oldest == 0
    requires var seen := Walk(Window(g, k), 0);
             Expired(seen, Int64.MINUTE, Int64.MINUTE) == [g[k - 1].id] && MinId(seen) == g[k - 1].id
    ensures var turn := TakeTurn(job, q, 1);
            turn.Next? && turn.at.st.h == g[..k - 1] + g[k..] && turn.at.oldest == g[k - 1].id
  {
    assert Int64.Ttl(1) == Int64.MINUTE;
    DeletesOne(job, q, 1, k - 1);
  }

  lemma OneGone(g: seq<Msg>, x: nat)
    requires Descending(g) && x < |g|
    ensures Remove(g, IdSet([g[x].id])) == g[..x] + g[x + 1..]
  {
    assert forall id :: id in IdSet([g[x].id]) <==> id == g[x].id;
    DrainCompletes.RemoveCuts(g, x, x + 1, IdSet([g[x].id]));
  }

  lemma FreshHead(g: seq<Msg>, n: nat)
    requires n <= |g| && forall x :: 0 <= x < n ==> g[x].sent == Int64.MINUTE
    ensures Expired(Reals(g[..n]), Int64.MINUTE, Int64.MINUTE) == []
  {
    RealsAreThere(g[..n]);
    var seen := Reals(g[..n]);
    forall x | 0 <= x < |seen| ensures !Int64.Aged(Int64.MINUTE, seen[x].sent, Int64.MINUTE) {
      assert seen[x] in g[..n];
    }
    NothingExpired(seen, Int64.MINUTE, Int64.MINUTE);
  }

  /** With the service message at the end of its window, the second pass does not see past it. */
  lemma SecondWindow(g: seq<Msg>, i: nat, j: nat, k: nat, h: seq<Msg>) returns (seen: seq<Msg>)
    requires Trap(g, i, j, k) && h == g[..k - 1] + g[k..]
    ensures Descending(h) && seen == Walk(Window(h, k), 0) && seen != []
    ensures MinId(seen) > g[k - 1].id
    ensures forall m :: m in seen ==> m.id > g[k - 1].id && m.sent in {0, Int64.MINUTE}
  {
    var u := g[..k - 1];
    assert Window(h, k) == u + [g[k]];
    assert u[..j] == g[..j];
    HeadWalk(u, j, [g[k]]);
    CutStaysDescending(g, k);
    seen := Reals(u);
    SeenInHead(g, i, k, seen);
  }

  /** The second pass deletes what it sees, and the rule fires. */
  lemma SecondPass(g: seq<Msg>, i: nat, j: nat, k: nat, q: Progress, l: nat)
    requires Trap(g, i, j, k) && k < l < |g|
    requires q.st.h == g[..k - 1] + g[k..] && q.oldest == g[k - 1].id
    ensures var turn := TakeTurn(MinuteJob(k), q, 2);
            turn.Stop? && turn.exit == NotReceding && (g[l].ordinary ==> Missed(MinuteJob(k), turn.at, g[l]))
  {
    var job, now := MinuteJob(k), 2 * Int64.MINUTE;
    var seen := SecondWindow(g, i, j, k, q.st.h);
    assert Int64.Ttl(1) == Int64.MINUTE;
    var ids := Expired(seen, now, job.ttl);
    ExpiredMembers(seen, now, job.ttl, seen[0].id);
    assert Int64.Aged(now, seen[0].sent, job.ttl);
    WorkingPass(job, q, 2, seen, ids);
    ExpiredMembers(seen, now, job.ttl, g[l].id);
    assert q.st.h[l - 1] == g[l];
    RemoveMembers(q.st.h, IdSet(ids), g[l]);
  }

  lemma SeenInHead(g: seq<Msg>, i: nat, k: nat, seen: seq<Msg>)
    requires Descending(g) && i < k - 1 < |g| && g[i].ordinary && seen == Reals(g[..k - 1])
    requires forall x :: 0 <= x < |g| ==> g[x].sent in {0, Int64.MINUTE}
    ensures seen != [] && MinId(seen) > g[k - 1].id
    ensures forall m :: m in seen ==> m.id > g[k - 1].id && m.sent in {0, Int64.MINUTE}
  {
    var u := g[..k - 1];
    RealsAreThere(u);
    assert u[i] in seen;
    forall m | m in seen ensures m.id > g[k - 1].id && m.sent in {0, Int64.MINUTE} {
      var x :| 0 <= x < |u| && u[x] == m;
    }
    DescendingSlice(g, 0, k - 1);
    RealsDescend(u);
    MinIdOfDescending(seen);
  }

  lemma CutStaysDescending(g: seq<Msg>, k: nat)
    requires Descending(g) && 0 < k <= |g|
    ensures Descending(g[..k - 1] + g[k..])
  {
    var h := g[..k - 1] + g[k..];
    assert forall x :: 0 <= x < |h| ==> h[x] == g[if x < k - 1 then x else x + 1];
  }

  lemma TwoTurns(step: Step, p: Progress, q: Progress, exit: Exit, r: Progress)
    requires step(p, 1) == Next(q) && step(q, 2) == Stop(exit, r)
    ensures Loop(step, p, 1) == (exit, r)
  {
    assert Loop(step, q, 2) == (exit, r);
  }

  /** So the rule ends the drain at the second pass, with everything behind the service message untried. */
  lemma TrapMisses(g: seq<Msg>, i: nat, j: nat, k: nat, l: nat)
    requires Trap(g, i, j, k) && k < l < |g| && g[l].ordinary
    ensures var (exit, q) := RunDrain(MinuteJob(k), StartWith(g));
            exit == NotReceding && Missed(MinuteJob(k), q, g[l])
  {
    var job, p := MinuteJob(k), Start(MinuteJob(k), StartWith(g));
    assert Int64.Ttl(1) == Int64.MINUTE;
    FirstWindow(g, i, j, k);
    FirstPass(job, g, k, p);
    var q := TakeTurn(job, p, 1).at;
    SecondPass(g, i, j, k, q, l);
    var turn := TakeTurn(job, q, 2);
    TwoTurns(Turns(job), p, q, turn.exit, turn.at);
  }

  /** The first service message behind j. */
  lemma FirstService(h: seq<Msg>, j: nat, k: nat) returns (s: nat)
    requires j < k < |h| && h[j].ordinary && !h[k].ordinary
    ensures j < s <= k && !h[s].ordinary && forall x :: j <= x < s ==> h[x].ordinary
  {
    s := j + 1;
    while h[s].ordinary
      invariant j < s <= k && forall x :: j <= x < s ==> h[x].ordinary
      decreases k - s
    {
      s := s + 1;
    }
  }

  lemma RedatedIsTrap(h: seq<Msg>, i: nat, j: nat, k: nat)
    requires Descending(h) && i < j < k < |h| - 1 && Unbroken(h[..j])
    requires h[i].ordinary && !h[k].ordinary && forall x :: j <= x < k ==> h[x].ordinary
    ensures Trap(Redated(h, k - 1), i, j, k)
  {
    SameRuns(h, Redated(h, k - 1), j);
  }

  /** A drain that the program can meet, over some dating of the history, ends so with the l-th message missed. */
  ghost predicate EndsMissing(h: seq<Msg>, l: nat, job: Job, st: State, exits: set<Exit>)
    requires l < |h|
  {
    && Lifelike(job, st) && SamePattern(h, st.h)
    && RunDrain(job, st).0 in exits && Missed(job, RunDrain(job, st).1, st.h[l])
  }

  lemma TrappedIsMissed(h: seq<Msg>, i: nat, j: nat, k: nat, l: nat)
    requires Descending(h) && i < j < k < l < |h| && h[l].ordinary && Unbroken(h[..j])
    requires h[i].ordinary && !h[k].ordinary && forall x :: j <= x < k ==> h[x].ordinary
    ensures EndsMissing(h, l, MinuteJob(k), StartWith(Redated(h, k - 1)), {NotReceding})
  {
    RedatedIsLifelike(h, k, k - 1);
    RedatedIsTrap(h, i, j, k);
    TrapMisses(Redated(h, k - 1), i, j, k, l);
  }

  /** Every hidden message is missed by some drain of that history. */
  lemma HiddenIsMissed(h: seq<Msg>, l: nat) returns (job: Job, st: State)
    requires Descending(h) && l < |h| && h[l].ordinary && Hidden(h, l)
    ensures EndsMissing(h, l, job, st, {NotReceding})
  {
    var i, j, k :| 0 <= i < j < k < l && h[i].ordinary && h[j].ordinary && !h[k].ordinary && Unbroken(h[..j]);
    var s := FirstService(h, j, k);
    TrappedIsMissed(h, i, j, s, l);
    job, st := MinuteJob(s), StartWith(Redated(h, s - 1));
  }

  /**
   * Main result on the not-receding rule: given which messages are ordinary and which are service messages, it
   * can end a drain with an expired ordinary message neither seen nor tried if and only if two ordinary messages,
   * the second without a page's worth of service messages in a row before it, stand before a service message
   * that stands before it.
   */
  lemma NotRecedingMissesIff(h: seq<Msg>, l: nat)
    requires Descending(h) && l < |h| && h[l].ordinary
    ensures Hidden(h, l) <==> exists job, st :: EndsMissing(h, l, job, st, {NotReceding})
  {
    if Hidden(h, l) {
      var job, st := HiddenIsMissed(h, l);
    }
    if job, st :| EndsMissing(h, l, job, st, {NotReceding}) {
      MissedIsHidden(job, st, l);
      SameHidden(st.h, h, l);
    }
  }

  /** So the rule is right for every drain of a history if and only if none of its ordinary messages is hidden. */
  lemma NotRecedingRightIff(h: seq<Msg>)
    requires Descending(h)
    ensures NoneHidden(h) <==>
              forall l, job, st :: 0 <= l < |h| && h[l].ordinary ==> !EndsMissing(h, l, job, st, {NotReceding})
  {
    forall l | 0 <= l < |h| && h[l].ordinary
      ensures Hidden(h, l) <==> exists job, st :: EndsMissing(h, l, job, st, {NotReceding})
    {
      NotRecedingMissesIff(h, l);
    }
  }

  // ---------------------------------------------------------------- one history

  /** Two ordinary messages, a service message, and an ordinary one behind it. */
  const EXAMPLE := [Msg(10, 0, true), Msg(9, 0, true), Msg(8, 0, false), Msg(1, 0, true)]

  /** The least history on which the rule goes wrong. */
  lemma NotRecedingStopsTooSoon() returns (job: Job, st: State)
    ensures EndsMissing(EXAMPLE, 3, job, st, {NotReceding})
  {
    assert Unbroken(EXAMPLE[..1]);
    assert EXAMPLE[0].ordinary && EXAMPLE[1].ordinary && !EXAMPLE[2].ordinary;
    assert Hidden(EXAMPLE, 3);
    job, st := HiddenIsMissed(EXAMPLE, 3);
  }
}
