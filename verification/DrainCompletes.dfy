/** Exactly how far a drain gets when nothing interferes with it. */
module DrainCompletes {
  import opened Telegram
  import opened Deletion
  import opened Drain
  import opened DrainHidden
  import Chunks
  import Int64

  /** Every request goes through and the client is up. */
  ghost predicate NetWorks(net: Net) {
    && (forall n :: net.searchOk(n))
    && (forall n :: net.up(n))
    && (forall n, k :: net.chunkOk(n, k))
  }

  /** The network works, the context lives, and the clock stands still. */
  ghost predicate Undisturbed(env: Env, now: int) {
    && NetWorks(env.net)
    && (forall n :: env.ctxOk(n))
    && (forall n :: env.clock(n) == now)
  }

  /** Newer messages were sent later. */
  ghost predicate DatesDescend(h: seq<Msg>) {
    forall i, j :: 0 <= i < j < |h| ==> h[i].sent >= h[j].sent
  }

  /** The first f messages are fresh and all others have expired. */
  ghost predicate FreshThenExpired(h: seq<Msg>, f: nat, now: int, ttl: int) {
    && f <= |h|
    && (forall i :: 0 <= i < f ==> !Int64.Aged(now, h[i].sent, ttl))
    && (forall i :: f <= i < |h| ==> Int64.Aged(now, h[i].sent, ttl))
  }

  function FreshCount(h: seq<Msg>, now: int, ttl: int): nat {
    if h == [] || Int64.Aged(now, h[0].sent, ttl) then 0 else 1 + FreshCount(h[1..], now, ttl)
  }

  lemma {:induction false} DatesSplit(h: seq<Msg>, now: int, ttl: int)
    requires DatesDescend(h)
    ensures FreshThenExpired(h, FreshCount(h, now, ttl), now, ttl)
  {
    if h != [] {
      if Int64.Aged(now, h[0].sent, ttl) {
        forall i | 0 <= i < |h| ensures Int64.Aged(now, h[i].sent, ttl) {
          assert h[0].sent >= h[i].sent;
        }
      } else {
        DatesSplit(h[1..], now, ttl);
        var f := FreshCount(h[1..], now, ttl);
        forall i | 0 <= i < |h| ensures i < f + 1 <==> !Int64.Aged(now, h[i].sent, ttl) {
          if i > 0 {
            assert h[i] == h[1..][i - 1];
          }
        }
      }
    }
  }

  /** The history without the newest k of its expired messages. */
  function Left(h: seq<Msg>, f: nat, k: nat): seq<Msg>
    requires f <= |h|
  {
    h[..f] + h[if f + k <= |h| then f + k else |h|..]
  }

  lemma LeftTwice(h: seq<Msg>, f: nat, j: nat, k: nat)
    requires f <= |h|
    ensures f <= |Left(h, f, j)| && Left(Left(h, f, j), f, k) == Left(h, f, j + k)
  {
    var l := Left(h, f, j);
    assert l[..f] == h[..f];
  }

  lemma LeftKeepsShape(h: seq<Msg>, f: nat, k: nat, now: int, ttl: int)
    requires Descending(h) && AllOrdinary(h) && FreshThenExpired(h, f, now, ttl)
    ensures Descending(Left(h, f, k)) && AllOrdinary(Left(h, f, k)) && FreshThenExpired(Left(h, f, k), f, now, ttl)
  {
    var l := Left(h, f, k);
    var skip := if f + k <= |h| then k else |h| - f;
    assert forall i :: 0 <= i < f ==> l[i] == h[i];
    assert forall i :: f <= i < |l| ==> l[i] == h[i + skip];
    forall i, j | 0 <= i < j < |l| ensures l[i].id > l[j].id {
      assert h[if i < f then i else i + skip].id > h[if j < f then j else j + skip].id;
    }
  }

  // ---------------------------------------------------------------- what one pass submits and removes

  /** The ids of a stretch of messages, in order. */
  function IdsOf(v: seq<Msg>): seq<int> {
    seq(|v|, i requires 0 <= i < |v| => v[i].id)
  }

  lemma {:induction false} ExpiredIsTail(v: seq<Msg>, f: nat, now: int, ttl: int)
    requires forall i :: 0 <= i < |v| ==> (Int64.Aged(now, v[i].sent, ttl) <==> i >= f)
    ensures Expired(v, now, ttl) == IdsOf(if f <= |v| then v[f..] else [])
  {
    if v != [] {
      var k := |v| - 1;
      ExpiredIsTail(v[..k], f, now, ttl);
      if f <= k {
        assert v[..k][f..] == v[f..][..k - f];
        assert IdsOf(v[f..]) == IdsOf(v[f..][..k - f]) + [v[k].id];
      }
    }
  }

  lemma {:induction false} RemoveNone(h: seq<Msg>, gone: set<int>)
    requires forall i :: 0 <= i < |h| ==> h[i].id !in gone
    ensures Remove(h, gone) == h
  {
    if h != [] {
      RemoveNone(h[1..], gone);
    }
  }

  /** When the ids to remove are exactly those of a stretch, removal cuts out the stretch. */
  lemma {:induction false} RemoveCuts(h: seq<Msg>, lo: nat, hi: nat, gone: set<int>)
    requires lo <= hi <= |h|
    requires forall i :: 0 <= i < |h| ==> (h[i].id in gone <==> lo <= i < hi)
    ensures Remove(h, gone) == h[..lo] + h[hi..]
  {
    if hi == 0 {
      RemoveNone(h, gone);
    } else {
      var t := h[1..];
      var tlo := if lo == 0 then 0 else lo - 1;
      RemoveCuts(t, tlo, hi - 1, gone);
      assert t[hi - 1..] == h[hi..];
      assert lo > 0 ==> h[..lo] == [h[0]] + t[..lo - 1];
    }
  }

  lemma StretchIds(h: seq<Msg>, lo: nat, hi: nat, i: nat)
    requires Descending(h) && lo <= hi <= |h| && i < |h|
    ensures h[i].id in IdSet(IdsOf(h[lo..hi])) <==> lo <= i < hi
  {
    var ids := IdsOf(h[lo..hi]);
    assert forall j :: 0 <= j < |ids| ==> ids[j] == h[lo + j].id;
    if lo <= i < hi {
      assert ids[i - lo] == h[i].id;
    }
  }

  /** Removing a contiguous stretch of a descending history cuts out exactly that stretch. */
  lemma RemoveStretch(h: seq<Msg>, lo: nat, hi: nat)
    requires Descending(h) && lo <= hi <= |h|
    ensures Remove(h, IdSet(IdsOf(h[lo..hi]))) == h[..lo] + h[hi..]
  {
    forall i | 0 <= i < |h| ensures h[i].id in IdSet(IdsOf(h[lo..hi])) <==> lo <= i < hi {
      StretchIds(h, lo, hi, i);
    }
    RemoveCuts(h, lo, hi, IdSet(IdsOf(h[lo..hi])));
  }

  lemma {:induction false} NothingFails(chunks: seq<seq<int>>, ok: nat -> bool)
    requires forall k :: ok(k)
    ensures FailedOf(chunks, ok) == []
  {
    if chunks != [] {
      NothingFails(chunks[..|chunks| - 1], ok);
    }
  }

  /** How many expired messages one pass reaches behind f fresh ones. */
  function Reach(window: nat, f: nat): nat {
    if window > f then window - f else 0
  }

  /** How many expired messages n passes reach between them. */
  function Taken(window: nat, f: nat, n: nat): nat {
    if n == 0 then 0 else Taken(window, f, n - 1) + Reach(window, f)
  }

  lemma {:induction false} TakenIsProduct(window: nat, f: nat, n: nat)
    ensures Taken(window, f, n) == n * Reach(window, f)
  {
    if n > 0 {
      TakenIsProduct(window, f, n - 1);
    }
  }

  lemma {:induction false} TakenGrows(window: nat, f: nat, m: nat, n: nat)
    requires m <= n
    ensures Taken(window, f, m) <= Taken(window, f, n)
  {
    if m < n {
      TakenGrows(window, f, m, n - 1);
    }
  }

  // ---------------------------------------------------------------- the loop

  /** After n - 1 passes the drain has taken n - 1 times its reach, oldest expired first to come into view. */
  ghost predicate OnCourse(job: Job, h: seq<Msg>, f: nat, q: Progress, n: nat)
    requires f <= |h|
  {
    && n >= 1
    && q.st.h == Left(h, f, Taken(job.env.window, f, n - 1))
    && (q.oldest != 0 ==> forall i :: f <= i < |q.st.h| ==> q.st.h[i].id < q.oldest)
    && q.rep.failed == 0
  }

  ghost predicate Arrived(job: Job, h: seq<Msg>, f: nat, exit: Exit, q: Progress)
    requires f <= |h|
  {
    && exit in {Complete, PassCeiling}
    && q.st.h == Left(h, f, Taken(job.env.window, f, MAX_PASSES))
    && q.rep.failed == 0
  }

  /** What a pass submits: the expired end of its window. */
  lemma PassSubmits(h: seq<Msg>, window: nat, f: nat, now: int, ttl: int)
    requires Descending(h) && FreshThenExpired(h, f, now, ttl)
    ensures var v := Window(h, window);
            && Expired(v, now, ttl) == IdsOf(if f <= |v| then v[f..] else [])
            && (Expired(v, now, ttl) == [] <==> |v| <= f)
  {
    var v := Window(h, window);
    WindowIsPrefix(h, window);
    assert forall i :: 0 <= i < |v| ==> v[i] == h[i];
    ExpiredIsTail(v, f, now, ttl);
  }

  /** Taking a pass's reach cuts the history at the end of its window. */
  lemma ReachIsWindow(h: seq<Msg>, window: nat, f: nat)
    requires f <= |h|
    ensures var v := Window(h, window);
            && (|v| <= f ==> Left(h, f, Reach(window, f)) == h)
            && (f < |v| ==> v[f..] == h[f..|v|] && Left(h, f, Reach(window, f)) == h[..f] + h[|v|..])
  {
    assert Left(h, f, 0) == h && Left(h, f, |h|) == Left(h, f, |h| - f);
  }

  /** When everything goes through, a deletion takes all the ids it is given off the server. */
  lemma DeletesAll(job: Job, st: State, ids: seq<int>)
    requires NetWorks(job.env.net) && Descending(st.h)
    requires Distinct(ids) && IdSet(ids) <= Ids(st.h)
    ensures var (after, pr) := DeleteKnown(job.env.net, job.g, job.chat, st, ids);
            && after.h == Remove(st.h, IdSet(ids)) && pr.failed == 0 && pr.deleted == |ids|
            && FailedIds(job, st, ids) == []
  {
    NothingFails(Chunks.Split(ids, DELETE_BATCH), ChunkOk(job.env.net, st.deletes));
    KnownDeletionAccounts(job.env.net, job.g, job.chat, st, ids);
    assert IdSet(ids) - IdSet([]) == IdSet(ids);
  }

  /** What is left behind a cut in a descending history is older than what was cut. */
  lemma CutIsOlder(h: seq<Msg>, f: nat, cut: nat)
    requires Descending(h) && f < cut <= |h|
    ensures var left := h[..f] + h[cut..];
            forall i :: f <= i < |left| ==> left[i].id < h[cut - 1].id
  {
    var left := h[..f] + h[cut..];
    assert forall i :: f <= i < |left| ==> left[i] == h[i - f + cut];
  }

  /** One pass over a history of f fresh messages followed by expired ones. */
  lemma PassTakesReach(job: Job, q: Progress, scanned: State, seen: seq<Msg>, f: nat, now: int)
    requires Undisturbed(job.env, now)
    requires Descending(q.st.h) && AllOrdinary(q.st.h) && FreshThenExpired(q.st.h, f, now, job.ttl)
    requires scanned.h == q.st.h && seen == Window(q.st.h, job.env.window) && f < |seen|
    ensures var after := AfterDelete(job, q, scanned, seen, now);
            && after.st.h == Left(q.st.h, f, Reach(job.env.window, f))
            && after.st.h == q.st.h[..f] + q.st.h[|seen|..]
            && after.rep.failed == q.rep.failed && after.rep.deleted > q.rep.deleted
            && after.oldest == q.st.h[|seen| - 1].id
  {
    var h := q.st.h;
    WindowIsPrefix(h, job.env.window);
    PassSubmits(h, job.env.window, f, now, job.ttl);
    ReachIsWindow(h, job.env.window, f);
    SubmittedOfWindow(job, q, seen, now);
    DeletesAll(job, scanned, Expired(seen, now, job.ttl));
    RemoveStretch(h, f, |seen|);
    MinIdOfDescending(seen);
  }

  /** The drain stays on course over a pass that took its reach. */
  lemma StaysOnCourse(job: Job, h: seq<Msg>, f: nat, q: Progress, n: nat, after: Progress, seen: nat)
    requires Descending(q.st.h) && f <= |h| && f < seen <= |q.st.h| && OnCourse(job, h, f, q, n)
    requires after.st.h == Left(q.st.h, f, Reach(job.env.window, f)) == q.st.h[..f] + q.st.h[seen..]
    requires after.rep.failed == q.rep.failed && after.oldest == q.st.h[seen - 1].id
    ensures OnCourse(job, h, f, after, n + 1)
    ensures q.oldest != 0 ==> after.oldest < q.oldest
  {
    LeftAfterPass(h, f, job.env.window, n);
    CutIsOlder(q.st.h, f, seen);
    assert q.oldest != 0 ==> q.st.h[seen - 1].id < q.oldest;
  }

  lemma LeftAfterPass(h: seq<Msg>, f: nat, window: nat, n: nat)
    requires f <= |h| && n >= 1
    ensures var l := Left(h, f, Taken(window, f, n - 1));
            f <= |l| && Left(l, f, Reach(window, f)) == Left(h, f, Taken(window, f, n))
  {
    LeftTwice(h, f, Taken(window, f, n - 1), Reach(window, f));
  }

  /** The drain has arrived when a pass finds nothing left to take. */
  lemma ArrivesWhenEmpty(job: Job, h: seq<Msg>, f: nat, q: Progress, n: nat)
    requires f <= |h| && 1 <= n <= MAX_PASSES && OnCourse(job, h, f, q, n)
    requires Left(q.st.h, f, Reach(job.env.window, f)) == q.st.h
    ensures q.st.h == Left(h, f, Taken(job.env.window, f, MAX_PASSES))
  {
    var w := job.env.window;
    LeftTwice(h, f, Taken(w, f, n - 1), Reach(w, f));
    TakenGrows(w, f, n - 1, MAX_PASSES);
    if Reach(w, f) == 0 {
      TakenIsProduct(w, f, n - 1);
      TakenIsProduct(w, f, MAX_PASSES);
    } else {
      LeftStays(h, f, Taken(w, f, n - 1), Taken(w, f, n), Taken(w, f, MAX_PASSES));
    }
  }

  /** Once taking more changes nothing, no expired message is left and taking more still changes nothing. */
  lemma LeftStays(h: seq<Msg>, f: nat, a: nat, b: nat, c: nat)
    requires f <= |h| && a < b && a <= c
    requires Left(h, f, a) == Left(h, f, b)
    ensures Left(h, f, a) == Left(h, f, c)
  {
    assert |Left(h, f, a)| == if f + a <= |h| then |h| - a else f;
    assert |Left(h, f, b)| == if f + b <= |h| then |h| - b else f;
  }

  lemma SubmittedOfWindow(job: Job, q: Progress, v: seq<Msg>, now: int)
    requires Descending(q.st.h) && AllOrdinary(q.st.h) && v == Window(q.st.h, job.env.window)
    ensures Distinct(Expired(v, now, job.ttl)) && IdSet(Expired(v, now, job.ttl)) <= Ids(q.st.h)
  {
    WindowIsPrefix(q.st.h, job.env.window);
    WalkOfOrdinary(v);
    SubmittedIds(q.st.h, job.env.window, v, now, job.ttl);
  }

  /** What the rest of a pass must lead to. */
  ghost predicate LeadsOn(job: Job, h: seq<Msg>, f: nat, n: nat, turn: Turn)
    requires f <= |h|
  {
    if turn.Stop? then Arrived(job, h, f, turn.exit, turn.at) else OnCourse(job, h, f, turn.at, n + 1)
  }

  lemma EmptyPassArrives(job: Job, h: seq<Msg>, f: nat, now: int, q: Progress, n: nat, scanned: State, seen: seq<Msg>)
    requires f <= |h| && 1 <= n <= MAX_PASSES && OnCourse(job, h, f, q, n)
    requires job.env.clock(n) == now && Expired(seen, now, job.ttl) == []
    requires scanned.h == q.st.h && Left(q.st.h, f, Reach(job.env.window, f)) == q.st.h
    ensures LeadsOn(job, h, f, n, AfterScan(job, q, n, scanned, seen))
  {
    ArrivesWhenEmpty(job, h, f, q, n);
  }

  lemma DeletingPassLeadsOn(job: Job, h: seq<Msg>, f: nat, now: int, q: Progress, n: nat, scanned: State,
                            seen: seq<Msg>)
    requires f <= |h| && n >= 1
    requires job.env.clock(n) == now && job.env.ctxOk(2 * n + 1) && Expired(seen, now, job.ttl) != []
    requires var after := AfterDelete(job, q, scanned, seen, now);
             && OnCourse(job, h, f, after, n + 1)
             && after.rep.deleted != q.rep.deleted
             && (q.oldest != 0 ==> after.oldest < q.oldest)
    ensures LeadsOn(job, h, f, n, AfterScan(job, q, n, scanned, seen))
  {}

  lemma AfterScanOnCourse(job: Job, h: seq<Msg>, f: nat, now: int, q: Progress, n: nat, scanned: State, seen: seq<Msg>)
    requires Undisturbed(job.env, now)
    requires Descending(h) && AllOrdinary(h) && FreshThenExpired(h, f, now, job.ttl)
    requires 1 <= n <= MAX_PASSES && OnCourse(job, h, f, q, n)
    requires scanned.h == q.st.h && seen == Window(q.st.h, job.env.window)
    ensures LeadsOn(job, h, f, n, AfterScan(job, q, n, scanned, seen))
  {
    LeftKeepsShape(h, f, Taken(job.env.window, f, n - 1), now, job.ttl);
    PassSubmits(q.st.h, job.env.window, f, now, job.ttl);
    ReachIsWindow(q.st.h, job.env.window, f);
    if |seen| <= f {
      EmptyPassArrives(job, h, f, now, q, n, scanned, seen);
    } else {
      WindowIsPrefix(q.st.h, job.env.window);
      FullPassOnCourse(job, h, f, now, q, n, scanned, seen);
      DeletingPassLeadsOn(job, h, f, now, q, n, scanned, seen);
    }
  }

  lemma FullPassOnCourse(job: Job, h: seq<Msg>, f: nat, now: int, q: Progress, n: nat, scanned: State, seen: seq<Msg>)
    requires Undisturbed(job.env, now) && f <= |h| && OnCourse(job, h, f, q, n)
    requires Descending(q.st.h) && AllOrdinary(q.st.h) && FreshThenExpired(q.st.h, f, now, job.ttl)
    requires scanned.h == q.st.h && seen == Window(q.st.h, job.env.window) && f < |seen| <= |q.st.h|
    ensures var after := AfterDelete(job, q, scanned, seen, now);
            && OnCourse(job, h, f, after, n + 1)
            && after.rep.deleted != q.rep.deleted
            && (q.oldest != 0 ==> after.oldest < q.oldest)
  {
    PassTakesReach(job, q, scanned, seen, f, now);
    StaysOnCourse(job, h, f, q, n, AfterDelete(job, q, scanned, seen, now), |seen|);
  }

  lemma TurnOnCourse(job: Job, h: seq<Msg>, f: nat, now: int, q: Progress, n: nat)
    requires Undisturbed(job.env, now)
    requires Descending(h) && AllOrdinary(h) && FreshThenExpired(h, f, now, job.ttl)
    requires 1 <= n <= MAX_PASSES && OnCourse(job, h, f, q, n)
    ensures LeadsOn(job, h, f, n, TakeTurn(job, q, n))
  {
    LeftKeepsShape(h, f, Taken(job.env.window, f, n - 1), now, job.ttl);
    WindowIsPrefix(q.st.h, job.env.window);
    WalkOfOrdinary(Window(q.st.h, job.env.window));
    PassScans(job, q.st);
    AfterScanOnCourse(job, h, f, now, q, n, Scanned(job, q.st), ScanPass(job, q.st).seen);
  }

  lemma DrainArrives(job: Job, st: State, f: nat, now: int)
    requires Undisturbed(job.env, now) && job.ttl > 0
    requires Descending(st.h) && AllOrdinary(st.h) && FreshThenExpired(st.h, f, now, job.ttl)
    ensures var (exit, q) := RunDrain(job, st); Arrived(job, st.h, f, exit, q)
  {
    var inv := (q: Progress, n: nat) => f <= |st.h| && OnCourse(job, st.h, f, q, n);
    var post := (e: Exit, q: Progress) => f <= |st.h| && Arrived(job, st.h, f, e, q);
    forall q, n | 1 <= n <= MAX_PASSES ensures Keeps(Turns(job), inv, post, q, n) {
      if inv(q, n) {
        TurnOnCourse(job, st.h, f, now, q, n);
      }
    }
    StartsOnCourse(job, st, f);
    forall q | inv(q, MAX_PASSES + 1) ensures post(PassCeiling, q) {
      CeilingArrives(job, st.h, f, q);
    }
    DrainInduction(job, st, inv, post);
  }

  lemma StartsOnCourse(job: Job, st: State, f: nat)
    requires f <= |st.h|
    ensures OnCourse(job, st.h, f, Start(job, st), 1)
  {
    assert Left(st.h, f, 0) == st.h;
  }

  lemma CeilingArrives(job: Job, h: seq<Msg>, f: nat, q: Progress)
    requires f <= |h| && OnCourse(job, h, f, q, MAX_PASSES + 1)
    ensures Arrived(job, h, f, PassCeiling, q)
  {}

  /**
   * Main result on draining: undisturbed, over ordinary messages whose dates follow their ids, a drain removes
   * exactly the newest 50 * (window - fresh) expired messages and no rule stops it sooner; so it leaves just
   * the fresh messages if and only if no more than that many had expired.
   */
  lemma DrainTakesExactly(job: Job, st: State, now: int)
    requires Undisturbed(job.env, now) && job.ttl > 0
    requires Descending(st.h) && AllOrdinary(st.h) && DatesDescend(st.h)
    ensures var f := FreshCount(st.h, now, job.ttl);
            && FreshThenExpired(st.h, f, now, job.ttl)
            && var (exit, q) := RunDrain(job, st);
            && exit in {Complete, PassCeiling} && q.rep.failed == 0
            && q.st.h == Left(st.h, f, 50 * Reach(job.env.window, f))
            && (q.st.h == st.h[..f] <==> |st.h| - f <= 50 * Reach(job.env.window, f))
  {
    var f := FreshCount(st.h, now, job.ttl);
    DatesSplit(st.h, now, job.ttl);
    DrainArrives(job, st, f, now);
    TakenIsProduct(job.env.window, f, MAX_PASSES);
    LeftIsFresh(st.h, f, MAX_PASSES * Reach(job.env.window, f));
  }

  lemma LeftIsFresh(h: seq<Msg>, f: nat, k: nat)
    requires f <= |h|
    ensures Left(h, f, k) == h[..f] <==> |h| - f <= k
  {
    assert |Left(h, f, k)| == if f + k <= |h| then |h| - k else f;
  }
}
