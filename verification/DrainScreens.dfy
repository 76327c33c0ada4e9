/** Exactly which messages a drain that completes, or gives up, can leave behind unseen in its window. */
module DrainScreens {
  import opened Telegram
  import opened Deletion
  import opened Drain
  import opened DrainHidden
  import opened DrainMisses
  import opened DrainStops
  import DrainCompletes
  import Int64

  // ---------------------------------------------------------------- drains that delete nothing

  /** Behind a page's worth of service messages in a row an expired message goes unseen, and the drain completes. */
  lemma ScreenedIsMissed(h: seq<Msg>, window: nat, l: nat) returns (job: Job, st: State)
    requires Descending(h) && l < |h| && l < window && h[l].ordinary && !Unbroken(h[..l])
    ensures Lifelike(job, st) && SamePattern(h, st.h) && job.env.window == window
    ensures var (exit, q) := RunDrain(job, st);
            exit == Complete && q.st.h == st.h && Missed(job, q, st.h[l])
  {
    var g := Redated(h, l);
    job, st := MinuteJob(window), StartWith(g);
    RedatedIsLifelike(h, window, l);
    SameRuns(h, g, l);
    PassScans(job, st);
    ScreenedSeesFresh(g, window, l);
    var turn := TakeTurn(job, Start(job, st), 1);
    assert turn.Stop? && turn.exit == Complete;
    OneTurn(Turns(job), Start(job, st), turn.exit, turn.at);
  }

  lemma ScreenedSeesFresh(g: seq<Msg>, window: nat, l: nat)
    requires Descending(g) && l < |g| && l < window && !Unbroken(g[..l])
    requires forall x :: 0 <= x < l ==> g[x].sent == Int64.MINUTE
    ensures Expired(Walk(Window(g, window), 0), Int64.MINUTE, Int64.MINUTE) == []
  {
    var v := Window(g, window);
    var seen := Walk(v, 0);
    WindowIsPrefix(g, window);
    assert v[..l] == g[..l];
    WalkVisits(v, 0);
    RealsAreThere(v);
    forall x | 0 <= x < |seen| ensures !Int64.Aged(Int64.MINUTE, seen[x].sent, Int64.MINUTE) {
      assert seen[x] == Reals(v)[x] && seen[x] in v;
      var i :| 0 <= i < |v| && v[i] == seen[x];
      WalkSees(v, i);
      PassesIff(v[..i]);
      if i >= l {
        BrokenStays(v, l, i);
      }
    }
    NothingExpired(seen, Int64.MINUTE, Int64.MINUTE);
  }

  lemma BrokenStays(v: seq<Msg>, l: nat, i: nat)
    requires l <= i <= |v| && !Unbroken(v[..l])
    ensures !Unbroken(v[..i])
  {
    var j: nat :| j + PAGE_LIMIT <= l && ServiceRun(v[..l], j);
    assert forall x :: 0 <= x < l ==> v[..l][x] == v[..i][x];
    assert ServiceRun(v[..i], j);
  }

  lemma OneTurn(step: Step, p: Progress, exit: Exit, r: Progress)
    requires step(p, 1) == Stop(exit, r)
    ensures Loop(step, p, 1) == (exit, r)
  {}

  /** A drain of a given window that ends so without having deleted anything, with the l-th message missed. */
  ghost predicate EndsUntouched(h: seq<Msg>, window: nat, l: nat, job: Job, st: State)
    requires l < |h|
  {
    && EndsMissing(h, l, job, st, {Complete, NothingDeleted})
    && job.env.window == window && RunDrain(job, st).1.st.h == st.h
  }

  /**
   * Main result on the other two exits: of the messages in the window, a drain that completes or gives up with
   * the history as it was can miss exactly the ordinary ones behind a page's worth of service messages in a row.
   */
  lemma UntouchedMissesIff(h: seq<Msg>, window: nat, l: nat)
    requires Descending(h) && l < |h| && l < window && h[l].ordinary
    ensures !Unbroken(h[..l]) <==> exists job, st :: EndsUntouched(h, window, l, job, st)
  {
    if !Unbroken(h[..l]) {
      var job, st := ScreenedIsMissed(h, window, l);
      assert EndsUntouched(h, window, l, job, st);
    }
    if job, st :| EndsUntouched(h, window, l, job, st) {
      UntouchedMisses(h, window, l, job, st);
    }
  }

  lemma UntouchedMisses(h: seq<Msg>, window: nat, l: nat, job: Job, st: State)
    requires l < |h| && l < window && EndsUntouched(h, window, l, job, st)
    ensures !Unbroken(h[..l])
  {
    UntouchedScreens(job, st, l);
    SameRuns(h, st.h, l);
  }

  lemma UntouchedScreens(job: Job, st: State, l: nat)
    requires Descending(st.h) && job.ttl > 0 && l < |st.h| && l < job.env.window
    requires RunDrain(job, st).0 in {Complete, NothingDeleted}
    requires RunDrain(job, st).1.st.h == st.h && Missed(job, RunDrain(job, st).1, st.h[l])
    ensures !Unbroken(st.h[..l])
  {
    if RunDrain(job, st).0 == Complete {
      CompleteIsSound(job, st);
    } else {
      NothingDeletedIsSound(job, st);
    }
    var v := Window(st.h, job.env.window);
    WindowIsPrefix(st.h, job.env.window);
    assert v[l] == st.h[l] && v[..l] == st.h[..l];
  }

  // ---------------------------------------------------------------- counting service messages

  lemma {:induction false} ServicesAreThere(v: seq<Msg>)
    ensures forall m :: m in ServicesOf(v) <==> m in v && !m.ordinary
  {
    if v != [] {
      ServicesAreThere(v[1..]);
      assert v == [v[0]] + v[1..];
    }
  }

  lemma {:induction false} ServicesDescend(v: seq<Msg>)
    requires Descending(v)
    ensures Descending(ServicesOf(v))
  {
    if v != [] {
      DescendingSlice(v, 1, |v|);
      ServicesDescend(v[1..]);
      if !v[0].ordinary {
        ServicesAreThere(v[1..]);
        forall m | m in ServicesOf(v[1..]) ensures m.id < v[0].id {
          HeadIsNewest(v, m);
        }
        DescendingCons(v[0], ServicesOf(v[1..]));
      }
    }
  }

  lemma {:induction false} RealsAndServices(v: seq<Msg>)
    ensures |Reals(v)| + |ServicesOf(v)| == |v|
  {
    if v != [] {
      RealsAndServices(v[1..]);
    }
  }

  /** Without its ordinary messages a history is its service messages. */
  lemma {:induction false} RemoveOrdinary(v: seq<Msg>, gone: set<int>)
    requires forall i :: 0 <= i < |v| ==> (v[i].id in gone <==> v[i].ordinary)
    ensures Remove(v, gone) == ServicesOf(v)
  {
    if v != [] {
      RemoveOrdinary(v[1..], gone);
    }
  }

  lemma {:induction false} SameServices(h: seq<Msg>, g: seq<Msg>, n: nat)
    requires SamePattern(h, g) && n <= |h|
    ensures |ServicesOf(h[..n])| == |ServicesOf(g[..n])|
  {
    if n > 0 {
      assert h[..n][1..] == h[1..][..n - 1] && g[..n][1..] == g[1..][..n - 1];
      SameServices(h[1..], g[1..], n - 1);
    }
  }

  lemma PartOfServices(h: seq<Msg>, w: seq<Msg>)
    requires Descending(h) && Descending(w) && forall m :: m in w ==> m in h && !m.ordinary
    ensures |w| <= |ServicesOf(h)|
  {
    ServicesAreThere(h);
    ServicesDescend(h);
    assert Ids(w) <= Ids(ServicesOf(h));
    IdsSize(w);
    IdsSize(ServicesOf(h));
    SubsetSize(Ids(w), Ids(ServicesOf(h)));
  }

  /** Service messages of a history that are newer than a message of it are among those before it. */
  lemma NewerServices(h: seq<Msg>, l: nat, w: seq<Msg>)
    requires Descending(h) && l < |h| && Descending(w)
    requires forall m :: m in w ==> m in h && !m.ordinary && m.id > h[l].id
    ensures |w| <= |ServicesOf(h[..l])|
  {
    DescendingSlice(h, 0, l);
    forall m | m in w ensures m in h[..l] {
      var i :| 0 <= i < |h| && h[i] == m;
      assert h[..l][i] == m;
    }
    PartOfServices(h[..l], w);
  }

  // ---------------------------------------------------------------- drains that delete first

  /** A drain ends so with the l-th message missed although it stands in the window. */
  ghost predicate EndsInWindow(h: seq<Msg>, l: nat, job: Job, st: State)
    requires l < |h|
  {
    && EndsMissing(h, l, job, st, {Complete, NothingDeleted})
    && st.h[l] in Window(RunDrain(job, st).1.st.h, job.env.window)
  }

  lemma ReadsAll(v: seq<Msg>, now: int, ttl: int)
    requires Descending(v) && forall m :: m in v ==> Int64.Aged(now, m.sent, ttl)
    ensures forall i :: 0 <= i < |v| ==> (v[i].id in IdSet(Expired(Reals(v), now, ttl)) <==> v[i].ordinary)
  {
    RealsAreThere(v);
    forall i | 0 <= i < |v| ensures v[i].id in IdSet(Expired(Reals(v), now, ttl)) <==> v[i].ordinary {
      ExpiredMembers(Reals(v), now, ttl, v[i].id);
      if m :| m in Reals(v) && m.id == v[i].id {
        SameId(v, m, v[i]);
      }
    }
  }

  /** Everything expired, no run of service messages before the l-th message, but a page's worth of them in all. */
  ghost predicate Scattered(g: seq<Msg>, l: nat) {
    && Descending(g) && l < |g| && (forall m :: m in g ==> m.sent == 0)
    && Unbroken(g[..l]) && |ServicesOf(g[..l])| >= PAGE_LIMIT
  }

  /** Not all that stands before the l-th message is a service message, since no run of them does. */
  lemma SomeOrdinary(g: seq<Msg>, l: nat)
    requires Scattered(g, l)
    ensures Reals(g[..l]) != [] && |ServicesOf(g[..l])| < l
  {
    RealsAndServices(g[..l]);
    RealsOfService(g[..l]);
    if Reals(g[..l]) == [] {
      assert ServiceRun(g[..l], 0);
      assert false;
    }
  }

  /** The first pass takes every ordinary message before the l-th, and leaves the service messages. */
  lemma TakesAllBefore(g: seq<Msg>, l: nat, q: Progress)
    requires Scattered(g, l) && q.st.h == g && q.oldest == 0
    ensures var turn := TakeTurn(MinuteJob(l), q, 1);
            turn.Next? && turn.at.st.h == ServicesOf(g[..l]) + g[l..]
  {
    var job, v := MinuteJob(l), g[..l];
    var ids := Expired(Reals(v), Int64.MINUTE, Int64.MINUTE);
    assert Int64.Ttl(1) == Int64.MINUTE;
    assert Window(g, l) == v && v + [] == v && v[..l] == v;
    HeadWalk(v, l, []);
    DescendingSlice(g, 0, l);
    SomeOrdinary(g, l);
    RealsAreThere(v);
    StillTakes(g, l, ids);
    ExpiredMembers(Reals(v), Int64.MINUTE, Int64.MINUTE, Reals(v)[0].id);
    assert Reals(v)[0] in g;
    WorkingPass(job, q, 1, Reals(v), ids);
  }

  lemma StillTakes(g: seq<Msg>, l: nat, ids: seq<int>)
    requires Scattered(g, l) && ids == Expired(Reals(g[..l]), Int64.MINUTE, Int64.MINUTE)
    ensures Remove(g, IdSet(ids)) == ServicesOf(g[..l]) + g[l..]
  {
    var v, t := g[..l], g[l..];
    assert g == v + t;
    assert forall m :: m in v ==> m in g;
    DescendingSlice(g, 0, l);
    ReadsAll(v, Int64.MINUTE, Int64.MINUTE);
    RemoveAppend(v, t, IdSet(ids));
    RemoveOrdinary(v, IdSet(ids));
    forall i | 0 <= i < |t| ensures t[i].id !in IdSet(ids) {
      ExpiredMembers(Reals(v), Int64.MINUTE, Int64.MINUTE, t[i].id);
      RealsAreThere(v);
      forall m | m in v ensures m.id > t[i].id {
        var x :| 0 <= x < |v| && v[x] == m;
        assert g[x].id > g[l + i].id;
      }
    }
    DrainCompletes.RemoveNone(t, IdSet(ids));
  }

  /** The second pass starts with a page of service messages, sees nothing, and the drain completes. */
  lemma SeesNothing(g: seq<Msg>, l: nat, q: Progress)
    requires Scattered(g, l) && g[l].ordinary && q.st.h == ServicesOf(g[..l]) + g[l..] && Descending(q.st.h)
    ensures var turn := TakeTurn(MinuteJob(l), q, 2);
            && turn.Stop? && turn.exit == Complete && turn.at.st.h == q.st.h
            && Missed(MinuteJob(l), turn.at, g[l]) && g[l] in Window(q.st.h, l)
  {
    var s, v := ServicesOf(g[..l]), Window(q.st.h, l);
    SomeOrdinary(g, l);
    ServicesAreThere(g[..l]);
    assert q.st.h[|s|] == g[l] == v[|s|];
    forall i | 0 <= i < PAGE_LIMIT ensures !v[i].ordinary {
      assert v[i] == s[i];
    }
    assert AllService(if |v| <= PAGE_LIMIT then v else v[..PAGE_LIMIT]);
    WalkStuck(v, 0);
    PassScans(MinuteJob(l), q.st);
    assert Int64.Ttl(1) == Int64.MINUTE;
    assert g[l] in g;
  }

  lemma ScatteredIsMissed(h: seq<Msg>, l: nat) returns (job: Job, st: State)
    requires Descending(h) && l < |h| && h[l].ordinary && Unbroken(h[..l]) && |ServicesOf(h[..l])| >= PAGE_LIMIT
    ensures EndsInWindow(h, l, job, st)
  {
    var g := Redated(h, 0);
    job, st := MinuteJob(l), StartWith(g);
    RedatedIsLifelike(h, l, 0);
    SameRuns(h, g, l);
    SameServices(h, g, l);
    assert Scattered(g, l);
    var p := Start(job, st);
    TakesAllBefore(g, l, p);
    var q := TakeTurn(job, p, 1).at;
    LeftDescends(g, l);
    SeesNothing(g, l, q);
    var turn := TakeTurn(job, q, 2);
    TwoTurns(Turns(job), p, q, turn.exit, turn.at);
  }

  lemma LeftDescends(g: seq<Msg>, l: nat)
    requires Scattered(g, l)
    ensures Descending(ServicesOf(g[..l]) + g[l..])
  {
    var ids := Expired(Reals(g[..l]), Int64.MINUTE, Int64.MINUTE);
    StillTakes(g, l, ids);
    RemoveDescends(g, IdSet(ids));
  }

  /** A message of the last window that such a drain missed had a page's worth of service messages before it. */
  lemma MissedIsScreened(job: Job, st: State, l: nat)
    requires Descending(st.h) && job.ttl > 0 && l < |st.h|
    requires RunDrain(job, st).0 in {Complete, NothingDeleted} && Missed(job, RunDrain(job, st).1, st.h[l])
    requires st.h[l] in Window(RunDrain(job, st).1.st.h, job.env.window)
    ensures |ServicesOf(st.h[..l])| >= PAGE_LIMIT
  {
    var exit, q := RunDrain(job, st).0, RunDrain(job, st).1;
    ExitsMean(job, st);
    if exit == Complete {
      CompleteIsSound(job, st);
    } else {
      NothingDeletedIsSound(job, st);
    }
    UnseenIsScreened(job, st.h, q, q.passes[|q.passes| - 1], l);
  }

  lemma UnseenIsScreened(job: Job, h0: seq<Msg>, q: Progress, p: Pass, l: nat)
    requires Descending(h0) && l < |h0| && EndsIn(job, h0, q, p) && SawUnscreened(job, p)
    requires h0[l] in Window(p.before, job.env.window) && h0[l].ordinary && h0[l] !in p.seen
    ensures |ServicesOf(h0[..l])| >= PAGE_LIMIT
  {
    var v := Window(p.before, job.env.window);
    WindowIsPrefix(p.before, job.env.window);
    var i :| 0 <= i < |v| && v[i] == h0[l];
    var j: nat :| j + PAGE_LIMIT <= i && ServiceRun(v[..i], j);
    var run := v[j..j + PAGE_LIMIT];
    DescendingSlice(v, j, j + PAGE_LIMIT);
    forall m | m in run ensures m in h0 && !m.ordinary && m.id > h0[l].id {
      var x :| 0 <= x < |run| && run[x] == m;
      assert m == v[j + x] == v[..i][j + x] == p.before[j + x];
      assert m in p.before;
    }
    NewerServices(h0, l, run);
  }

  /**
   * Main result on the other two exits: given the kinds of messages, a drain can complete, or give up, with the
   * l-th one expired in its window and untried if and only if a page's worth of service messages, in any
   * arrangement, stands before it.
   */
  lemma WindowMissesIff(h: seq<Msg>, l: nat)
    requires Descending(h) && l < |h| && h[l].ordinary
    ensures |ServicesOf(h[..l])| >= 100 <==> exists job, st :: EndsInWindow(h, l, job, st)
  {
    if |ServicesOf(h[..l])| >= PAGE_LIMIT {
      var job, st := ManyAreMissed(h, l);
    }
    if job, st :| EndsInWindow(h, l, job, st) {
      EndsBehindMany(h, l, job, st);
    }
  }

  lemma ManyAreMissed(h: seq<Msg>, l: nat) returns (job: Job, st: State)
    requires Descending(h) && l < |h| && h[l].ordinary && |ServicesOf(h[..l])| >= PAGE_LIMIT
    ensures EndsInWindow(h, l, job, st)
  {
    if Unbroken(h[..l]) {
      job, st := ScatteredIsMissed(h, l);
    } else {
      job, st := BrokenIsMissed(h, l);
    }
  }

  lemma EndsBehindMany(h: seq<Msg>, l: nat, job: Job, st: State)
    requires Descending(h) && l < |h| && h[l].ordinary && EndsInWindow(h, l, job, st)
    ensures |ServicesOf(h[..l])| >= PAGE_LIMIT
  {
    MissedIsScreened(job, st, l);
    SameServices(h, st.h, l);
  }

  lemma BrokenIsMissed(h: seq<Msg>, l: nat) returns (job: Job, st: State)
    requires Descending(h) && l < |h| && h[l].ordinary && !Unbroken(h[..l])
    ensures EndsInWindow(h, l, job, st)
  {
    job, st := ScreenedIsMissed(h, l + 1, l);
    assert Window(st.h, l + 1)[l] == st.h[l];
  }
}
