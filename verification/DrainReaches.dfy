/** How far an undisturbed drain gets in any history, service messages and dates in any order included. */
module DrainReaches {
  import opened Telegram
  import opened Deletion
  import opened Drain
  import opened DrainCompletes
  import opened DrainHidden
  import DrainScreens
  import Int64

  /** An ordinary message at least ttl old, which a pass that sees it deletes. */
  predicate Expires(m: Msg, now: int, ttl: int) {
    m.ordinary && Int64.Aged(now, m.sent, ttl)
  }

  /** The ids of the expired messages whose places the walk reaches when some of the history has gone. */
  function Takes(h0: seq<Msg>, gone: set<int>, window: nat, now: int, ttl: int): set<int> {
    set x | 0 <= x < |h0| && h0[x].id !in gone && Expires(h0[x], now, ttl) && Reached(h0, gone, window, x) :: h0[x].id
  }

  /** The ids that n passes take one after the other. */
  function Gone(h0: seq<Msg>, window: nat, now: int, ttl: int, n: nat): set<int> {
    if n == 0 then {}
    else
      var before := Gone(h0, window, now, ttl, n - 1);
      before + Takes(h0, before, window, now, ttl)
  }

  /** Once a pass takes nothing, no later one does. */
  lemma {:induction false} GoneStays(h0: seq<Msg>, window: nat, now: int, ttl: int, n: nat, m: nat)
    requires n <= m && Takes(h0, Gone(h0, window, now, ttl, n), window, now, ttl) == {}
    ensures Gone(h0, window, now, ttl, m) == Gone(h0, window, now, ttl, n)
    decreases m
  {
    if n < m {
      GoneStays(h0, window, now, ttl, n, m - 1);
    }
  }

  lemma TakesNothingTwice(h0: seq<Msg>, gone: set<int>, window: nat, now: int, ttl: int)
    ensures Takes(h0, gone, window, now, ttl) !! gone
    ensures gone + Takes(h0, gone, window, now, ttl) == gone <==> Takes(h0, gone, window, now, ttl) == {}
  {
    var t := Takes(h0, gone, window, now, ttl);
    forall id | id in t ensures id !in gone {
      var x :| 0 <= x < |h0| && h0[x].id !in gone && h0[x].id == id;
    }
  }

  // ---------------------------------------------------------------- one pass

  /** What is left of a history once some of its ordinary messages have gone, and what a scan of it sees. */
  ghost predicate ScansLeft(h0: seq<Msg>, gone: set<int>, window: nat, h: seq<Msg>, seen: seq<Msg>) {
    Descending(h0) && h == Remove(h0, gone) && seen == Walk(Window(h, window), 0)
  }

  /** A pass submits exactly the expired messages it reaches. */
  lemma SubmitsReached(h0: seq<Msg>, gone: set<int>, window: nat, h: seq<Msg>, seen: seq<Msg>, now: int, ttl: int)
    requires ScansLeft(h0, gone, window, h, seen)
    ensures IdSet(Expired(seen, now, ttl)) == Takes(h0, gone, window, now, ttl)
  {
    forall id ensures id in Expired(seen, now, ttl) <==> id in Takes(h0, gone, window, now, ttl) {
      ExpiredMembers(seen, now, ttl, id);
      if id in Expired(seen, now, ttl) {
        var m :| m in seen && m.id == id && Int64.Aged(now, m.sent, ttl);
        SeenStands(h0, gone, window, h, seen, m);
      }
      if x :| 0 <= x < |h0| && h0[x].id !in gone && Expires(h0[x], now, ttl) && Reached(h0, gone, window, x)
              && h0[x].id == id {
        SeenIffReached(h0, gone, window, x);
      }
    }
  }

  /** A seen message stands at a reached place of the original history. */
  lemma SeenStands(h0: seq<Msg>, gone: set<int>, window: nat, h: seq<Msg>, seen: seq<Msg>, m: Msg)
    requires ScansLeft(h0, gone, window, h, seen) && m in seen
    ensures exists x :: 0 <= x < |h0| && h0[x] == m && m.id !in gone && m.ordinary && Reached(h0, gone, window, x)
  {
    RemoveDescends(h0, gone);
    SeenIsInside(h, window, seen, m);
    RemoveMembers(h0, gone, m);
    var x :| 0 <= x < |h0| && h0[x] == m;
    SeenIffReached(h0, gone, window, x);
  }

  /** An ordinary message that is left and was not seen is older than everything seen. */
  lemma UnseenIsOlder(h0: seq<Msg>, gone: set<int>, window: nat, h: seq<Msg>, seen: seq<Msg>, m: Msg, s: Msg)
    requires ScansLeft(h0, gone, window, h, seen) && m in h && m.ordinary && m !in seen && s in seen
    ensures m.id < s.id
  {
    SeenStands(h0, gone, window, h, seen, s);
    RemoveMembers(h0, gone, m);
    var c :| 0 <= c < |h0| && h0[c] == s && Reached(h0, gone, window, c);
    var l :| 0 <= l < |h0| && h0[l] == m;
    UnseenIsBehind(h0, gone, window, c, l);
  }

  /** Every expired message that is left is older than a bound. */
  ghost predicate ExpiredBelow(h: seq<Msg>, bound: int, now: int, ttl: int) {
    forall m :: m in h && Expires(m, now, ttl) ==> m.id < bound
  }

  /** A pass that deletes all it submits leaves expired messages only below the oldest it saw. */
  lemma LeavesBelow(h0: seq<Msg>, gone: set<int>, window: nat, h: seq<Msg>, seen: seq<Msg>, now: int, ttl: int)
    requires ScansLeft(h0, gone, window, h, seen) && seen != []
    ensures ExpiredBelow(Remove(h, IdSet(Expired(seen, now, ttl))), MinId(seen), now, ttl)
  {
    var ids := IdSet(Expired(seen, now, ttl));
    RemoveDescends(h0, gone);
    OldestOfSeen(h, window, seen);
    MinIdIsThere(seen);
    var s :| s in seen && s.id == MinId(seen);
    forall m | m in Remove(h, ids) && Expires(m, now, ttl) ensures m.id < MinId(seen) {
      RemoveMembers(h, ids, m);
      ExpiredMembers(seen, now, ttl, m.id);
      UnseenIsOlder(h0, gone, window, h, seen, m, s);
    }
  }

  /** With everything expired that is left below a bound, a scan that sees any of it sees below the bound. */
  lemma SeesBelow(h: seq<Msg>, window: nat, seen: seq<Msg>, bound: int, now: int, ttl: int)
    requires Descending(h) && seen == Walk(Window(h, window), 0) && ExpiredBelow(h, bound, now, ttl)
    requires Expired(seen, now, ttl) != []
    ensures MinId(seen) < bound
  {
    ExpiredMembers(seen, now, ttl, Expired(seen, now, ttl)[0]);
    var m :| m in seen && Int64.Aged(now, m.sent, ttl);
    SeenIsInside(h, window, seen, m);
    OldestOfSeen(h, window, seen);
  }

  // ---------------------------------------------------------------- the loop

  /** After n - 1 passes exactly what they reached has gone, each of them took something, and nothing failed. */
  ghost predicate OnTheWay(job: Job, h0: seq<Msg>, now: int, q: Progress, n: nat) {
    var w, ttl := job.env.window, job.ttl;
    && n >= 1 && q.rep.failed == 0
    && q.st.h == Remove(h0, Gone(h0, w, now, ttl, n - 1))
    && (q.oldest != 0 ==> ExpiredBelow(q.st.h, q.oldest, now, ttl))
    && (n > 1 ==> Gone(h0, w, now, ttl, n - 1) != Gone(h0, w, now, ttl, n - 2))
  }

  /** Where the drain ends: with what fifty passes reach, complete exactly when the fiftieth has nothing to add. */
  ghost predicate ReachesAll(job: Job, h0: seq<Msg>, now: int, exit: Exit, q: Progress) {
    var w, ttl := job.env.window, job.ttl;
    && exit in {Complete, PassCeiling} && q.rep.failed == 0
    && q.st.h == Remove(h0, Gone(h0, w, now, ttl, MAX_PASSES))
    && (exit == Complete <==> Gone(h0, w, now, ttl, MAX_PASSES) == Gone(h0, w, now, ttl, MAX_PASSES - 1))
  }

  lemma EmptyPassEnds(job: Job, h0: seq<Msg>, now: int, q: Progress, n: nat, scanned: State, seen: seq<Msg>)
    requires Descending(h0) && OnTheWay(job, h0, now, q, n) && n <= MAX_PASSES
    requires scanned.h == q.st.h && seen == Walk(Window(q.st.h, job.env.window), 0)
    requires Expired(seen, now, job.ttl) == []
    ensures ReachesAll(job, h0, now, Complete, q.(st := scanned))
  {
    var w, ttl := job.env.window, job.ttl;
    var gone := Gone(h0, w, now, ttl, n - 1);
    SubmitsReached(h0, gone, w, q.st.h, seen, now, ttl);
    assert Takes(h0, gone, w, now, ttl) == {};
    GoneStays(h0, w, now, ttl, n - 1, MAX_PASSES);
    GoneStays(h0, w, now, ttl, n - 1, MAX_PASSES - 1);
  }

  lemma DeletingPassGoesOn(job: Job, h0: seq<Msg>, now: int, q: Progress, n: nat, scanned: State, seen: seq<Msg>)
    requires Undisturbed(job.env, now) && Descending(h0) && OnTheWay(job, h0, now, q, n)
    requires scanned.h == q.st.h && seen == Walk(Window(q.st.h, job.env.window), 0)
    requires Expired(seen, now, job.ttl) != []
    ensures var after := AfterDelete(job, q, scanned, seen, now);
            && OnTheWay(job, h0, now, after, n + 1) && after.rep.deleted != q.rep.deleted
            && (q.oldest != 0 ==> after.oldest < q.oldest)
  {
    var ids := Expired(seen, now, job.ttl);
    RemoveDescends(h0, Gone(h0, job.env.window, now, job.ttl, n - 1));
    SubmittedIds(q.st.h, job.env.window, seen, now, job.ttl);
    DeletesAll(job, scanned, ids);
    TakesReached(h0, job.env.window, now, job.ttl, n, q.st.h, seen);
    PassRecedes(h0, job.env.window, now, job.ttl, n, q.st.h, seen, q.oldest);
  }

  /** What a pass submits takes the history one pass further. */
  lemma TakesReached(h0: seq<Msg>, w: nat, now: int, ttl: int, n: nat, h: seq<Msg>, seen: seq<Msg>)
    requires n >= 1 && ScansLeft(h0, Gone(h0, w, now, ttl, n - 1), w, h, seen) && Expired(seen, now, ttl) != []
    ensures Remove(h, IdSet(Expired(seen, now, ttl))) == Remove(h0, Gone(h0, w, now, ttl, n))
    ensures Gone(h0, w, now, ttl, n) != Gone(h0, w, now, ttl, n - 1)
  {
    var gone := Gone(h0, w, now, ttl, n - 1);
    var ids := Expired(seen, now, ttl);
    SubmitsReached(h0, gone, w, h, seen, now, ttl);
    RemoveTwice(h0, gone, IdSet(ids));
    assert ids[0] in IdSet(ids);
    TakesNothingTwice(h0, gone, w, now, ttl);
  }

  /** A pass that submits something sees below the bound it came with, and leaves a lower one. */
  lemma PassRecedes(h0: seq<Msg>, w: nat, now: int, ttl: int, n: nat, h: seq<Msg>, seen: seq<Msg>, bound: int)
    requires n >= 1 && ScansLeft(h0, Gone(h0, w, now, ttl, n - 1), w, h, seen) && Expired(seen, now, ttl) != []
    requires bound != 0 ==> ExpiredBelow(h, bound, now, ttl)
    ensures ExpiredBelow(Remove(h, IdSet(Expired(seen, now, ttl))), MinId(seen), now, ttl)
    ensures bound != 0 ==> MinId(seen) < bound
  {
    var gone := Gone(h0, w, now, ttl, n - 1);
    RemoveDescends(h0, gone);
    ExpiredMembers(seen, now, ttl, Expired(seen, now, ttl)[0]);
    LeavesBelow(h0, gone, w, h, seen, now, ttl);
    if bound != 0 {
      SeesBelow(h, w, seen, bound, now, ttl);
    }
  }

  /** What the rest of a pass must lead to. */
  ghost predicate GoesOn(job: Job, h0: seq<Msg>, now: int, n: nat, turn: Turn) {
    if turn.Stop? then ReachesAll(job, h0, now, turn.exit, turn.at) else OnTheWay(job, h0, now, turn.at, n + 1)
  }

  lemma AfterScanGoesOn(job: Job, h0: seq<Msg>, now: int, q: Progress, n: nat, scanned: State, seen: seq<Msg>)
    requires Undisturbed(job.env, now) && Descending(h0) && OnTheWay(job, h0, now, q, n) && n <= MAX_PASSES
    requires scanned.h == q.st.h && seen == Walk(Window(q.st.h, job.env.window), 0)
    ensures GoesOn(job, h0, now, n, AfterScan(job, q, n, scanned, seen))
  {
    assert job.env.clock(n) == now && job.env.ctxOk(2 * n + 1);
    if Expired(seen, now, job.ttl) == [] {
      EmptyPassEnds(job, h0, now, q, n, scanned, seen);
    } else {
      DeletingPassGoesOn(job, h0, now, q, n, scanned, seen);
    }
  }

  lemma TurnGoesOn(job: Job, h0: seq<Msg>, now: int, q: Progress, n: nat)
    requires Undisturbed(job.env, now) && Descending(h0) && OnTheWay(job, h0, now, q, n) && n <= MAX_PASSES
    ensures GoesOn(job, h0, now, n, TakeTurn(job, q, n))
  {
    RemoveDescends(h0, Gone(h0, job.env.window, now, job.ttl, n - 1));
    PassScans(job, q.st);
    AfterScanGoesOn(job, h0, now, q, n, Scanned(job, q.st), ScanPass(job, q.st).seen);
  }

  /**
   * Main result on any history: undisturbed, a drain takes exactly the expired messages that its passes reach one
   * after the other, no rule ends it sooner, and it completes exactly when the fiftieth pass would add nothing.
   */
  lemma DrainTakesReached(job: Job, st: State, now: int)
    requires Undisturbed(job.env, now) && job.ttl > 0 && Descending(st.h)
    ensures ReachesAll(job, st.h, now, RunDrain(job, st).0, RunDrain(job, st).1)
  {
    StartsOnTheWay(job, st, now);
    LoopReaches(job, st.h, now, Start(job, st), 1);
  }

  lemma {:induction false} LoopReaches(job: Job, h0: seq<Msg>, now: int, q: Progress, n: nat)
    requires Undisturbed(job.env, now) && Descending(h0) && 1 <= n <= MAX_PASSES + 1 && OnTheWay(job, h0, now, q, n)
    ensures var (exit, at) := Loop(Turns(job), q, n); ReachesAll(job, h0, now, exit, at)
    decreases MAX_PASSES + 1 - n, 1
  {
    if n > MAX_PASSES {
      CeilingReaches(job, h0, now, q);
    } else {
      LoopUnfolds(Turns(job), q, n);
      TurnGoesOn(job, h0, now, q, n);
      RestReaches(job, h0, now, n, TakeTurn(job, q, n));
    }
  }

  lemma {:induction false} RestReaches(job: Job, h0: seq<Msg>, now: int, n: nat, turn: Turn)
    requires Undisturbed(job.env, now) && Descending(h0) && 1 <= n <= MAX_PASSES && GoesOn(job, h0, now, n, turn)
    ensures var (exit, at) := if turn.Stop? then (turn.exit, turn.at) else Loop(Turns(job), turn.at, n + 1);
            ReachesAll(job, h0, now, exit, at)
    decreases MAX_PASSES + 1 - n, 0
  {
    if turn.Next? {
      LoopReaches(job, h0, now, turn.at, n + 1);
    }
  }

  lemma StartsOnTheWay(job: Job, st: State, now: int)
    ensures OnTheWay(job, st.h, now, Start(job, st), 1)
  {
    RemoveNothing(st.h);
  }

  lemma CeilingReaches(job: Job, h0: seq<Msg>, now: int, q: Progress)
    requires OnTheWay(job, h0, now, q, MAX_PASSES + 1)
    ensures ReachesAll(job, h0, now, PassCeiling, q)
  {}

  // ---------------------------------------------------------------- few service messages

  /** The messages that no pass may delete. */
  function Stays(v: seq<Msg>, now: int, ttl: int): seq<Msg> {
    if v == [] then []
    else if Expires(v[0], now, ttl) then Stays(v[1..], now, ttl)
    else [v[0]] + Stays(v[1..], now, ttl)
  }

  /** Of the expired messages before the x-th, those that are not gone still count against the window. */
  lemma {:induction false} StaysRemain(v: seq<Msg>, gone: set<int>, now: int, ttl: int)
    requires forall i :: 0 <= i < |v| && v[i].id in gone ==> Expires(v[i], now, ttl)
    ensures |Stays(v, now, ttl)| <= |Remove(v, gone)|
    ensures (forall i :: 0 <= i < |v| && Expires(v[i], now, ttl) ==> v[i].id in gone) ==>
              Remove(v, gone) == Stays(v, now, ttl)
  {
    if v != [] {
      StaysRemain(v[1..], gone, now, ttl);
    }
  }

  lemma {:induction false} StaysGrow(v: seq<Msg>, m: nat, now: int, ttl: int)
    requires m <= |v|
    ensures |Stays(v[..m], now, ttl)| <= |Stays(v, now, ttl)|
  {
    if m > 0 {
      assert v[..m][1..] == v[1..][..m - 1];
      StaysGrow(v[1..], m - 1, now, ttl);
    }
  }

  /** Only expired messages go, each of them with fewer than a window of lasting messages before it. */
  lemma {:induction false} GoneHadRoom(h0: seq<Msg>, window: nat, now: int, ttl: int, n: nat, x: nat)
    requires Descending(h0) && x < |h0| && h0[x].id in Gone(h0, window, now, ttl, n)
    ensures Expires(h0[x], now, ttl) && |Stays(h0[..x], now, ttl)| < window
    decreases n, x
  {
    var before := Gone(h0, window, now, ttl, n - 1);
    if h0[x].id in before {
      GoneHadRoom(h0, window, now, ttl, n - 1, x);
    } else {
      var y :| 0 <= y < |h0| && h0[y].id == h0[x].id && Expires(h0[y], now, ttl) && Reached(h0, before, window, y);
      assert y == x;
      forall i | 0 <= i < x && h0[..x][i].id in before ensures Expires(h0[..x][i], now, ttl) {
        GoneHadRoom(h0, window, now, ttl, n - 1, i);
      }
      StaysRemain(h0[..x], before, now, ttl);
    }
  }

  /** With less than a page of service messages the walk always gets through. */
  lemma FewServicesPass(h0: seq<Msg>, gone: set<int>, x: nat)
    requires Descending(h0) && x <= |h0| && |ServicesOf(h0)| < PAGE_LIMIT
    ensures Passes(Remove(h0[..x], gone), 0)
  {
    var v := Remove(h0[..x], gone);
    DescendingSlice(h0, 0, x);
    RemoveDescends(h0[..x], gone);
    PassesIff(v);
    if !Unbroken(v) {
      var j: nat :| j + PAGE_LIMIT <= |v| && ServiceRun(v, j);
      var run := v[j..j + PAGE_LIMIT];
      DescendingSlice(v, j, j + PAGE_LIMIT);
      forall m | m in run ensures m in h0 && !m.ordinary {
        var i :| 0 <= i < |run| && run[i] == m;
        assert v[j + i] == m && m in v;
        RemoveMembers(h0[..x], gone, m);
      }
      DrainScreens.PartOfServices(h0, run);
    }
  }

  /** When nothing more is taken, whatever had room has gone. */
  lemma {:induction false} RoomIsTaken(h0: seq<Msg>, gone: set<int>, window: nat, now: int, ttl: int, x: nat)
    requires Descending(h0) && |ServicesOf(h0)| < PAGE_LIMIT && Takes(h0, gone, window, now, ttl) == {}
    requires forall i :: 0 <= i < |h0| && h0[i].id in gone ==> Expires(h0[i], now, ttl)
    requires x < |h0| && Expires(h0[x], now, ttl) && |Stays(h0[..x], now, ttl)| < window
    ensures h0[x].id in gone
    decreases x
  {
    var v := h0[..x];
    forall i | 0 <= i < |v| && Expires(v[i], now, ttl) ensures v[i].id in gone {
      assert v[..i] == h0[..i];
      StaysGrow(v, i, now, ttl);
      RoomIsTaken(h0, gone, window, now, ttl, i);
    }
    StaysRemain(v, gone, now, ttl);
    FewServicesPass(h0, gone, x);
    ReachedIsTaken(h0, gone, window, now, ttl, x);
  }

  lemma ReachedIsTaken(h0: seq<Msg>, gone: set<int>, window: nat, now: int, ttl: int, x: nat)
    requires x < |h0| && Expires(h0[x], now, ttl) && Reached(h0, gone, window, x)
    ensures h0[x].id in gone + Takes(h0, gone, window, now, ttl)
  {}

  /**
   * With less than a page of service messages in the history, a drain that completes has deleted exactly the
   * expired messages before which fewer than a window of fresh and service messages stand.
   */
  lemma CompleteDrainLeaves(job: Job, st: State, now: int, x: nat)
    requires Undisturbed(job.env, now) && job.ttl > 0 && Descending(st.h) && |ServicesOf(st.h)| < 100
    requires RunDrain(job, st).0 == Complete && x < |st.h|
    ensures st.h[x] in RunDrain(job, st).1.st.h <==>
              !(Expires(st.h[x], now, job.ttl) && |Stays(st.h[..x], now, job.ttl)| < job.env.window)
  {
    DrainTakesReached(job, st, now);
    CompleteLeaves(job, st.h, now, RunDrain(job, st).1, x);
  }

  lemma CompleteLeaves(job: Job, h0: seq<Msg>, now: int, q: Progress, x: nat)
    requires Descending(h0) && |ServicesOf(h0)| < PAGE_LIMIT && ReachesAll(job, h0, now, Complete, q) && x < |h0|
    ensures h0[x] in q.st.h <==>
              !(Expires(h0[x], now, job.ttl) && |Stays(h0[..x], now, job.ttl)| < job.env.window)
  {
    var w, ttl := job.env.window, job.ttl;
    var gone := Gone(h0, w, now, ttl, MAX_PASSES - 1);
    RemoveMembers(h0, gone, h0[x]);
    TakesNothingTwice(h0, gone, w, now, ttl);
    forall i | 0 <= i < |h0| && h0[i].id in gone
      ensures Expires(h0[i], now, ttl) && |Stays(h0[..i], now, ttl)| < w
    {
      GoneHadRoom(h0, w, now, ttl, MAX_PASSES - 1, i);
    }
    if Expires(h0[x], now, ttl) && |Stays(h0[..x], now, ttl)| < w {
      RoomIsTaken(h0, gone, w, now, ttl, x);
    }
  }
}
