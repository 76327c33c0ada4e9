/** What each way of ending a drain says about the messages that are left. */
module DrainStops {
  import opened Telegram
  import opened Deletion
  import opened Drain
  import opened DrainHidden
  import Int64

  // ---------------------------------------------------------------- the last pass

  /** The state a drain ended in is what its last pass left of the history it scanned. */
  ghost predicate EndsIn(job: Job, h0: seq<Msg>, q: Progress, p: Pass) {
    && Descending(p.before) && (forall m :: m in p.before ==> m in h0)
    && p.seen == Walk(Window(p.before, job.env.window), 0)
    && p.submitted == Expired(p.seen, p.now, job.ttl)
    && IdSet(p.failed) <= IdSet(p.submitted)
    && q.st.h == Remove(p.before, IdSet(p.submitted) - IdSet(p.failed))
  }

  /** Every ordinary message that the last pass could not see was hidden in the original history. */
  ghost predicate OnlyHiddenUnseen(h0: seq<Msg>, p: Pass) {
    forall l :: 0 <= l < |h0| && h0[l].ordinary && h0[l] in p.before && h0[l] !in p.seen ==> Hidden(h0, l)
  }

  /**
   * Which of the exits that look at the messages it is, and what each of them says; the last of them says it
   * only when the client was up at every delete call.
   */
  ghost predicate Meaning(job: Job, h0: seq<Msg>, exit: Exit, q: Progress, up: bool) {
    exit in {Complete, NothingDeleted} || (exit == NotReceding && up) ==>
      && q.passes != []
      && var p := q.passes[|q.passes| - 1];
      && EndsIn(job, h0, q, p)
      && (exit == Complete <==> p.submitted == [])
      && (exit == NothingDeleted <==> p.submitted != [] && IdSet(p.failed) == IdSet(p.submitted))
      && (exit == NotReceding ==> |Newer(p.before, MinId(p.seen))| < job.env.window && OnlyHiddenUnseen(h0, p))
  }

  /** Between passes: only ordinary messages have gone, and behind a pass there is a gap and room in the window. */
  ghost predicate RecedingBy(job: Job, h0: seq<Msg>, q: Progress, gone: set<int>) {
    && Thinned(h0, gone, q.st.h)
    && (q.oldest != 0 ==>
          && |Newer(q.st.h, q.oldest)| < job.env.window
          && exists j :: 0 <= j < |h0| && Gap(h0, gone, job.env.window, j))
  }

  ghost predicate Receding(job: Job, h0: seq<Msg>, q: Progress) {
    exists gone :: RecedingBy(job, h0, q, gone)
  }

  /** A part of a history that is in order itself. */
  ghost predicate Whole(h0: seq<Msg>, h: seq<Msg>) {
    Descending(h0) && Descending(h) && forall m :: m in h ==> m in h0
  }

  lemma DeletionKeepsWhole(h0: seq<Msg>, h: seq<Msg>, ids: set<int>)
    requires Whole(h0, h)
    ensures Whole(h0, Remove(h, ids))
  {
    RemoveDescends(h, ids);
    forall m | m in Remove(h, ids) ensures m in h0 {
      RemoveMembers(h, ids, m);
    }
  }

  lemma AfterDeleteEndsIn(job: Job, h0: seq<Msg>, q: Progress, scanned: State, seen: seq<Msg>, now: int)
    requires job.env.net.up(scanned.deletes) && Whole(h0, q.st.h)
    requires scanned.h == q.st.h && seen == Walk(Window(q.st.h, job.env.window), 0)
    ensures var after := AfterDelete(job, q, scanned, seen, now);
            var p := after.passes[|after.passes| - 1];
            && EndsIn(job, h0, after, p) && p.before == q.st.h && p.seen == seen
            && p.submitted == Expired(seen, now, job.ttl)
            && after.rep.deleted - q.rep.deleted == |IdSet(p.submitted) - IdSet(p.failed)|
  {
    var ids := Expired(seen, now, job.ttl);
    var ok := ChunkOk(job.env.net, scanned.deletes);
    var d := DeleteIds(ids, true, ok);
    SubmittedIds(q.st.h, job.env.window, seen, now, job.ttl);
    DistinctAccounts(ids, ok);
    DistinctDeleted(ids, ok);
    DistinctSize(d.deleted);
    assert |multiset(d.deleted)| == |d.deleted|;
    assert |multiset(Without(ids, IdSet(d.failed)))| == |Without(ids, IdSet(d.failed))|;
  }

  /** Deleting something that was seen keeps the drain receding. */
  lemma DeletingRecedes(job: Job, h0: seq<Msg>, q: Progress, seen: seq<Msg>, ids: set<int>, after: Progress)
    requires Descending(h0) && Receding(job, h0, q) && seen == Walk(Window(q.st.h, job.env.window), 0)
    requires ids != {} && forall id :: id in ids ==> exists m :: m in seen && m.id == id
    requires after.st.h == Remove(q.st.h, ids) && after.oldest == MinId(seen)
    ensures Receding(job, h0, after)
  {
    var gone :| RecedingBy(job, h0, q, gone);
    RemoveDescends(h0, gone);
    NewerShrinks(q.st.h, job.env.window, seen, ids);
    DeletingOpensGap(h0, gone, q.st.h, job.env.window, seen, ids);
    assert RecedingBy(job, h0, after, gone + ids);
  }

  lemma NewerThanHigher(h: seq<Msg>, low: int, high: int)
    requires low <= high
    ensures |Newer(h, high)| <= |Newer(h, low)|
  {
    SubsetSize(Newer(h, high), Newer(h, low));
  }

  /** When the rule fires, only hidden messages were unseen. */
  lemma FiringMeans(job: Job, h0: seq<Msg>, q: Progress, p: Pass)
    requires Descending(h0) && Receding(job, h0, q) && q.oldest != 0
    requires p.before == q.st.h && p.seen == Walk(Window(q.st.h, job.env.window), 0) && p.seen != []
    requires MinId(p.seen) >= q.oldest
    ensures |Newer(p.before, MinId(p.seen))| < job.env.window && OnlyHiddenUnseen(h0, p)
  {
    var gone :| RecedingBy(job, h0, q, gone);
    var j :| 0 <= j < |h0| && Gap(h0, gone, job.env.window, j);
    NewerThanHigher(q.st.h, q.oldest, MinId(p.seen));
    forall l | 0 <= l < |h0| && h0[l].ordinary && h0[l] in p.before && h0[l] !in p.seen ensures Hidden(h0, l) {
      UnseenIsHidden(h0, gone, q.st.h, job.env.window, p.seen, j, l);
    }
  }

  /** A pass that found something to delete and had the client up. */
  lemma DeletionMeans(job: Job, h0: seq<Msg>, q: Progress, scanned: State, seen: seq<Msg>, now: int)
    requires Whole(h0, q.st.h) && job.env.net.up(scanned.deletes)
    requires scanned.h == q.st.h && seen == Walk(Window(q.st.h, job.env.window), 0)
    requires Expired(seen, now, job.ttl) != []
    ensures var after := AfterDelete(job, q, scanned, seen, now);
            && (after.rep.deleted == q.rep.deleted ==> Meaning(job, h0, NothingDeleted, after, true))
            && (after.rep.deleted != q.rep.deleted && Receding(job, h0, q) ==>
                  && Receding(job, h0, after)
                  && (q.oldest != 0 && after.oldest >= q.oldest ==> Meaning(job, h0, NotReceding, after, true)))
  {
    var after := AfterDelete(job, q, scanned, seen, now);
    var p := after.passes[|after.passes| - 1];
    var gone := IdSet(p.submitted) - IdSet(p.failed);
    AfterDeleteEndsIn(job, h0, q, scanned, seen, now);
    if after.rep.deleted == q.rep.deleted {
      assert gone == {};
    } else if Receding(job, h0, q) {
      assert gone != {};
      forall id | id in gone ensures exists m :: m in seen && m.id == id {
        ExpiredMembers(seen, now, job.ttl, id);
      }
      DeletingRecedes(job, h0, q, seen, gone, after);
      if q.oldest != 0 && after.oldest >= q.oldest {
        FiringMeans(job, h0, q, p);
      }
    }
  }

  /** A call on a stopped client books every id as deleted. */
  lemma StoppedBooksAll(job: Job, q: Progress, scanned: State, seen: seq<Msg>, now: int)
    requires !job.env.net.up(scanned.deletes)
    ensures var after := AfterDelete(job, q, scanned, seen, now);
            after.rep.deleted == q.rep.deleted + |Expired(seen, now, job.ttl)| && after.st.h == scanned.h
  {
    RemoveNothing(scanned.h);
    assert IdSet([]) == {};
    WithoutAll(Expired(seen, now, job.ttl), {});
  }

  /** Where a drain stands between two passes, the client having been up so far or not. */
  ghost predicate Going(job: Job, h0: seq<Msg>, lo: nat, q: Progress) {
    && Whole(h0, q.st.h) && lo <= q.st.deletes
    && (UpBetween(job.env.net, lo, q.st.deletes) ==> Receding(job, h0, q))
  }

  lemma AfterScanMeans(job: Job, h0: seq<Msg>, lo: nat, q: Progress, n: nat, scanned: State, seen: seq<Msg>)
    requires Going(job, h0, lo, q) && scanned.h == q.st.h && scanned.deletes == q.st.deletes
    requires seen == Walk(Window(q.st.h, job.env.window), 0)
    ensures var turn := AfterScan(job, q, n, scanned, seen);
            if turn.Stop? then Meaning(job, h0, turn.exit, turn.at, UpBetween(job.env.net, lo, turn.at.st.deletes))
            else Going(job, h0, lo, turn.at)
  {
    var now := job.env.clock(n);
    if Expired(seen, now, job.ttl) == [] {
      RemoveNothing(q.st.h);
      assert IdSet([]) - IdSet([]) == {};
    } else {
      var after := AfterDelete(job, q, scanned, seen, now);
      DeletionKeepsWhole(h0, q.st.h, IdSet(DeleteIds(Expired(seen, now, job.ttl), job.env.net.up(q.st.deletes),
                                                     ChunkOk(job.env.net, q.st.deletes)).deleted));
      if job.env.net.up(q.st.deletes) {
        DeletionMeans(job, h0, q, scanned, seen, now);
      } else {
        StoppedBooksAll(job, q, scanned, seen, now);
      }
    }
  }

  lemma TurnMeans(job: Job, h0: seq<Msg>, lo: nat, q: Progress, n: nat)
    requires Going(job, h0, lo, q)
    ensures var turn := TakeTurn(job, q, n);
            if turn.Stop? then Meaning(job, h0, turn.exit, turn.at, UpBetween(job.env.net, lo, turn.at.st.deletes))
            else Going(job, h0, lo, turn.at)
  {
    PassScans(job, q.st);
    if ScanPass(job, q.st).ok {
      AfterScanMeans(job, h0, lo, q, n, Scanned(job, q.st), ScanPass(job, q.st).seen);
    }
  }

  lemma StartsGoing(job: Job, st: State)
    requires Descending(st.h)
    ensures Going(job, st.h, st.deletes, Start(job, st))
  {
    RemoveNothing(st.h);
    assert RecedingBy(job, st.h, Start(job, st), {});
  }

  /** No delete call of the drain met a stopped client. */
  ghost predicate UpThroughout(job: Job, st: State) {
    UpBetween(job.env.net, st.deletes, RunDrain(job, st).1.st.deletes)
  }

  /** Every exit that looks at the messages means what it says, whatever the history holds. */
  lemma ExitsMean(job: Job, st: State)
    requires Descending(st.h) && job.ttl > 0
    ensures Meaning(job, st.h, RunDrain(job, st).0, RunDrain(job, st).1, UpThroughout(job, st))
  {
    var inv := (q: Progress, n: nat) => Going(job, st.h, st.deletes, q);
    var post := (e: Exit, q: Progress) =>
      Meaning(job, st.h, e, q, UpBetween(job.env.net, st.deletes, q.st.deletes));
    StartsGoing(job, st);
    forall q, n ensures Keeps(Turns(job), inv, post, q, n) {
      if Going(job, st.h, st.deletes, q) {
        TurnMeans(job, st.h, st.deletes, q, n);
      }
    }
    DrainInduction(job, st, inv, post);
  }

  // ---------------------------------------------------------------- what the exits leave

  /**
   * What a pass saw of its window: exactly the ordinary messages without a page's worth of service messages in a
   * row before them, so all ordinary ones when no such run stands before one.
   */
  ghost predicate SawUnscreened(job: Job, p: Pass) {
    var v := Window(p.before, job.env.window);
    && (forall i :: 0 <= i < |v| ==> (v[i] in p.seen <==> v[i].ordinary && Unbroken(v[..i])))
    && (!Blocked(v) ==> forall m :: m in v && m.ordinary ==> m in p.seen)
  }

  lemma PassSees(job: Job, h0: seq<Msg>, q: Progress, p: Pass)
    requires EndsIn(job, h0, q, p)
    ensures SawUnscreened(job, p)
  {
    var v := Window(p.before, job.env.window);
    WindowIsPrefix(p.before, job.env.window);
    forall i | 0 <= i < |v| ensures v[i] in p.seen <==> v[i].ordinary && Unbroken(v[..i]) {
      WalkSees(v, i);
      PassesIff(v[..i]);
    }
    WalkCompleteIff(v);
    RealsAreThere(v);
  }

  /** A seen message that is left and had expired is one whose delete failed. */
  lemma LeftHasFailed(job: Job, h0: seq<Msg>, q: Progress, p: Pass, m: Msg)
    requires EndsIn(job, h0, q, p) && m in q.st.h
    ensures m in p.before && (m in p.seen && Int64.Aged(p.now, m.sent, job.ttl) ==> m.id in p.failed)
  {
    RemoveMembers(p.before, IdSet(p.submitted) - IdSet(p.failed), m);
    ExpiredMembers(p.seen, p.now, job.ttl, m.id);
  }

  /** The history as the last pass found it, and nothing it saw has expired. */
  ghost predicate NothingSeenExpired(job: Job, q: Progress, p: Pass) {
    q.st.h == p.before && SawUnscreened(job, p) && forall m :: m in p.seen ==> !Int64.Aged(p.now, m.sent, job.ttl)
  }

  /**
   * A completed drain, whatever failed on the way, leaves no expired message that its last pass could see: in
   * its window none but those behind a page's worth of service messages in a row.
   */
  lemma CompleteIsSound(job: Job, st: State)
    requires Descending(st.h) && job.ttl > 0 && RunDrain(job, st).0 == Complete
    ensures var q := RunDrain(job, st).1;
            q.passes != [] && NothingSeenExpired(job, q, q.passes[|q.passes| - 1])
  {
    ExitsMean(job, st);
    CompleteMeans(job, st.h, RunDrain(job, st).1);
  }

  lemma CompleteMeans(job: Job, h0: seq<Msg>, q: Progress)
    requires exists up :: Meaning(job, h0, Complete, q, up)
    ensures q.passes != [] && NothingSeenExpired(job, q, q.passes[|q.passes| - 1])
  {
    var p := q.passes[|q.passes| - 1];
    PassSees(job, h0, q, p);
    RemoveNothing(p.before);
    assert IdSet(p.submitted) - IdSet(p.failed) == {};
    forall m | m in p.seen ensures !Int64.Aged(p.now, m.sent, job.ttl) {
      ExpiredMembers(p.seen, p.now, job.ttl, m.id);
    }
  }

  /** The history as the last pass found it, and of what it saw only failures have expired. */
  ghost predicate OnlyFailuresExpired(job: Job, q: Progress, p: Pass) {
    && q.st.h == p.before && SawUnscreened(job, p) && p.failed != []
    && forall m :: m in p.seen && Int64.Aged(p.now, m.sent, job.ttl) ==> m.id in p.failed
  }

  /** A drain that stops because a pass deleted nothing leaves the history alone, and what it saw expired failed. */
  lemma NothingDeletedIsSound(job: Job, st: State)
    requires Descending(st.h) && job.ttl > 0 && RunDrain(job, st).0 == NothingDeleted
    ensures var q := RunDrain(job, st).1;
            q.passes != [] && OnlyFailuresExpired(job, q, q.passes[|q.passes| - 1])
  {
    ExitsMean(job, st);
    NothingDeletedMeans(job, st.h, RunDrain(job, st).1);
  }

  lemma NothingDeletedMeans(job: Job, h0: seq<Msg>, q: Progress)
    requires exists up :: Meaning(job, h0, NothingDeleted, q, up)
    ensures q.passes != [] && OnlyFailuresExpired(job, q, q.passes[|q.passes| - 1])
  {
    var p := q.passes[|q.passes| - 1];
    PassSees(job, h0, q, p);
    RemoveNothing(p.before);
    assert IdSet(p.submitted) - IdSet(p.failed) == {};
    assert p.submitted[0] in IdSet(p.submitted);
    forall m | m in p.seen && Int64.Aged(p.now, m.sent, job.ttl) ensures m.id in p.failed {
      ExpiredMembers(p.seen, p.now, job.ttl, m.id);
      assert m.id in IdSet(p.failed);
    }
  }

  /** A drain has ended with an expired ordinary message left that its last pass did not report as failed. */
  ghost predicate Missed(job: Job, q: Progress, m: Msg) {
    && q.passes != [] && m in q.st.h && m.ordinary
    && var p := q.passes[|q.passes| - 1];
       Int64.Aged(p.now, m.sent, job.ttl) && m.id !in p.failed
  }

  /** The not-receding rule misses hidden messages only. */
  lemma MissedIsHidden(job: Job, st: State, l: nat)
    requires Descending(st.h) && job.ttl > 0 && UpThroughout(job, st) && l < |st.h|
    requires RunDrain(job, st).0 == NotReceding && Missed(job, RunDrain(job, st).1, st.h[l])
    ensures Hidden(st.h, l)
  {
    ExitsMean(job, st);
    FiringMisses(job, st.h, RunDrain(job, st).1, l);
  }

  lemma FiringMisses(job: Job, h0: seq<Msg>, q: Progress, l: nat)
    requires Meaning(job, h0, NotReceding, q, true) && l < |h0| && Missed(job, q, h0[l])
    ensures Hidden(h0, l)
  {
    LeftHasFailed(job, h0, q, q.passes[|q.passes| - 1], h0[l]);
  }

  /** No ordinary message is hidden. */
  ghost predicate NoneHidden(h: seq<Msg>) {
    forall l :: 0 <= l < |h| && h[l].ordinary ==> !Hidden(h, l)
  }

  /** What the not-receding rule promises: all that was there was seen, and what is left expired has failed. */
  ghost predicate NothingElseReachable(job: Job, q: Progress, p: Pass) {
    && (forall m :: m in p.before && m.ordinary ==> m in p.seen)
    && forall m :: m in q.st.h && m.ordinary && Int64.Aged(p.now, m.sent, job.ttl) ==> m.id in p.failed
  }

  /**
   * Main result on stopping early: where no message is hidden, the window-not-receding rule is right. The last
   * pass had seen every ordinary message there was, so whatever is left and was expired at that pass's clock is
   * a message whose delete failed in that pass.
   */
  lemma NotRecedingIsSound(job: Job, st: State)
    requires Descending(st.h) && NoneHidden(st.h) && job.ttl > 0 && UpThroughout(job, st)
    requires RunDrain(job, st).0 == NotReceding
    ensures var q := RunDrain(job, st).1;
            q.passes != [] && NothingElseReachable(job, q, q.passes[|q.passes| - 1])
  {
    ExitsMean(job, st);
    FiringSawAll(job, st.h, RunDrain(job, st).1);
  }

  lemma FiringSawAll(job: Job, h0: seq<Msg>, q: Progress)
    requires Meaning(job, h0, NotReceding, q, true) && NoneHidden(h0)
    ensures q.passes != [] && NothingElseReachable(job, q, q.passes[|q.passes| - 1])
  {
    var p := q.passes[|q.passes| - 1];
    forall m | m in p.before && m.ordinary ensures m in p.seen {
      var l :| 0 <= l < |h0| && h0[l] == m;
      assert !Hidden(h0, l);
    }
    forall m | m in q.st.h
      ensures m in p.before && (m in p.seen && Int64.Aged(p.now, m.sent, job.ttl) ==> m.id in p.failed)
    {
      LeftHasFailed(job, h0, q, p, m);
    }
  }

  /** Over ordinary messages the whole history had then fitted the window just scanned, with room to spare. */
  lemma NotRecedingOverOrdinary(job: Job, st: State)
    requires Descending(st.h) && AllOrdinary(st.h) && job.ttl > 0 && UpThroughout(job, st)
    requires RunDrain(job, st).0 == NotReceding
    ensures var q := RunDrain(job, st).1;
            && q.passes != []
            && var p := q.passes[|q.passes| - 1];
            && |p.before| < job.env.window && p.seen == p.before
            && forall m :: m in q.st.h && Int64.Aged(p.now, m.sent, job.ttl) ==> m.id in p.failed
  {
    ExitsMean(job, st);
    OrdinaryFiring(job, st.h, RunDrain(job, st).1);
  }

  lemma OrdinaryFiring(job: Job, h0: seq<Msg>, q: Progress)
    requires Meaning(job, h0, NotReceding, q, true) && AllOrdinary(h0)
    ensures q.passes != []
    ensures var p := q.passes[|q.passes| - 1];
            && |p.before| < job.env.window && p.seen == p.before
            && forall m :: m in q.st.h && Int64.Aged(p.now, m.sent, job.ttl) ==> m.id in p.failed
  {
    var p := q.passes[|q.passes| - 1];
    FiringSawAll(job, h0, q);
    WindowIsPrefix(p.before, job.env.window);
    WalkOfOrdinary(Window(p.before, job.env.window));
    forall m | m in q.st.h ensures m in p.before {
      LeftHasFailed(job, h0, q, p, m);
    }
    OldestOfAll(p.before, p.seen, job.env.window);
  }

  /** When all of a history was seen, it lies at or above the smallest id seen. */
  lemma OldestOfAll(h: seq<Msg>, seen: seq<Msg>, window: nat)
    requires Descending(h) && seen == Window(h, window) == Walk(Window(h, window), 0)
    requires (forall m :: m in h ==> m in seen) && |Newer(h, MinId(seen))| < window
    ensures |h| < window && seen == h
  {
    if |h| >= window {
      LastIsUnseen(h, window, seen);
      assert false;
    }
  }

  // ---------------------------------------------------------------- a stopped client

  /**
   * Main result on a stopped client: when the delete call of a pass finds the client stopped, the next pass sees
   * the same window again, and is the last one of the drain whatever lies outside the window.
   */
  lemma StoppedCallEndsDrain(job: Job, q: Progress, n: nat, scanned: State, seen: seq<Msg>, now: int)
    requires Descending(q.st.h) && scanned.h == q.st.h && seen == Walk(Window(q.st.h, job.env.window), 0)
    requires Expired(seen, now, job.ttl) != [] && !job.env.net.up(scanned.deletes) && now <= job.env.clock(n + 1)
    ensures var turn := TakeTurn(job, AfterDelete(job, q, scanned, seen, now), n + 1);
            turn.Stop? && turn.exit in {Cancelled, ScanFailed, NothingDeleted, NotReceding}
  {
    var after := AfterDelete(job, q, scanned, seen, now);
    StoppedBooksAll(job, q, scanned, seen, now);
    StillExpired(seen, now, job.env.clock(n + 1), job.ttl);
    OldestOfSeen(q.st.h, job.env.window, seen);
    PassScans(job, after.st);
    if ScanPass(job, after.st).ok {
      SameWindowEnds(job, after, n + 1, Scanned(job, after.st), seen);
    }
  }

  lemma SameWindowEnds(job: Job, q: Progress, n: nat, scanned: State, seen: seq<Msg>)
    requires Expired(seen, job.env.clock(n), job.ttl) != [] && q.oldest == MinId(seen) != 0
    ensures var turn := AfterScan(job, q, n, scanned, seen);
            turn.Stop? && turn.exit in {NothingDeleted, NotReceding}
  {}

  lemma StillExpired(seen: seq<Msg>, now: int, later: int, ttl: int)
    requires now <= later && Expired(seen, now, ttl) != []
    ensures seen != [] && Expired(seen, later, ttl) != []
  {
    var id := Expired(seen, now, ttl)[0];
    ExpiredMembers(seen, now, ttl, id);
    var m :| m in seen && m.id == id && Int64.Aged(now, m.sent, ttl);
    assert Int64.Aged(later, m.sent, ttl);
    ExpiredMembers(seen, later, ttl, id);
  }
}
