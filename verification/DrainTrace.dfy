/** What a drain did, read off the passes it recorded, and which exit these say it took. */
module DrainTrace {
  import opened Telegram
  import opened Deletion
  import opened Drain
  import ChatCfg
  import Int64

  /** The submitted ids that did not fail. */
  function Kept(p: Pass): set<int> {
    IdSet(p.submitted) - IdSet(p.failed)
  }

  /** The id of the oldest message a pass saw, messages being seen newest first. */
  function Oldest(p: Pass): int {
    if p.seen == [] then 0 else p.seen[|p.seen| - 1].id
  }

  /** The history that recorded passes left, the n-th of them having made the n-th delete call. */
  function LeftBy(job: Job, st: State, passes: seq<Pass>): seq<Msg> {
    if passes == [] then st.h
    else
      var n := |passes| - 1;
      if job.env.net.up(st.deletes + n) then Remove(passes[n].before, Kept(passes[n])) else passes[n].before
  }

  function Booked(passes: seq<Pass>): nat {
    if passes == [] then 0 else Booked(passes[..|passes| - 1]) + |Kept(passes[|passes| - 1])|
  }

  /**
   * What a pass with n passes before it did: by its own reading of the clock it saw the whole walk of the window over
   * what the passes before it had left, and submitted all that had expired in one delete call.
   */
  ghost predicate Ran(job: Job, st: State, before: seq<Pass>, p: Pass) {
    var n := |before|;
    && p.now == job.env.clock(n + 1) && p.before == LeftBy(job, st, before)
    && p.seen == Walk(Window(p.before, job.env.window), 0)
    && p.submitted == Expired(p.seen, p.now, job.ttl)
    && p.failed == DeleteIds(p.submitted, job.env.net.up(st.deletes + n), ChunkOk(job.env.net, st.deletes + n)).failed
  }

  /** No rule ends the drain with the last of these passes: it deleted something and saw deeper than the one before. */
  ghost predicate GoesOn(passes: seq<Pass>) {
    var k := |passes|;
    k > 0 ==> Kept(passes[k - 1]) != {} && (k > 1 ==> Oldest(passes[k - 1]) < Oldest(passes[k - 2]))
  }

  /** The pause that follows the last of these passes found the context live; there is none before the first. */
  ghost predicate Paused(job: Job, passes: seq<Pass>) {
    passes != [] ==> job.env.ctxOk(2 * |passes| + 1)
  }

  /** Every recorded pass ran as it should, and none of them after a pass that ends the drain. */
  ghost predicate Did(job: Job, st: State, passes: seq<Pass>) {
    passes != [] ==>
      var k := |passes| - 1;
      var before := passes[..k];
      Did(job, st, before) && GoesOn(before) && Ran(job, st, before, passes[k])
  }

  /** The context was live before each of the first k passes, and in the pause between any two of them. */
  ghost predicate Lived(job: Job, k: nat) {
    k > 0 ==> Lived(job, k - 1) && job.env.ctxOk(2 * k) && (k > 1 ==> job.env.ctxOk(2 * k - 1))
  }

  ghost predicate AllAnswered(net: Net, lo: nat, hi: nat) {
    forall n :: lo <= n < hi ==> net.searchOk(n)
  }

  /** Which exit the recorded passes and the context say a drain takes. */
  ghost predicate Exits(job: Job, exit: Exit, passes: seq<Pass>) {
    var k, ctxOk := |passes|, job.env.ctxOk;
    && (exit == Complete <==> k > 0 && passes[k - 1].submitted == [])
    && (exit == NothingDeleted <==> k > 0 && passes[k - 1].submitted != [] && Kept(passes[k - 1]) == {})
    && (exit == NotReceding <==>
          k > 1 && Kept(passes[k - 1]) != {} && Oldest(passes[k - 1]) >= Oldest(passes[k - 2]))
    && (exit == Cancelled <==> GoesOn(passes) && (Paused(job, passes) ==> k < 50 && !ctxOk(2 * k + 2)))
    && (exit == ScanFailed <==> GoesOn(passes) && Paused(job, passes) && k < 50 && ctxOk(2 * k + 2))
    && (exit == PassCeiling <==> GoesOn(passes) && Paused(job, passes) && k >= 50)
  }

  /** What a drain leaves behind, its exit apart. */
  ghost predicate Leaves(job: Job, st: State, q: Progress) {
    && q.st.h == LeftBy(job, st, q.passes) && Descending(q.st.h)
    && q.rep.title == job.g.title && q.rep.deleted == Booked(q.passes)
    && st.searches <= q.st.searches
  }

  /** The exit a drain took and what it left, as its passes tell. */
  ghost predicate Tells(job: Job, st: State, exit: Exit, q: Progress) {
    && Lived(job, |q.passes|) && Exits(job, exit, q.passes) && Leaves(job, st, q) && |q.passes| <= 50
    && (exit == ScanFailed <==> !AllAnswered(job.env.net, st.searches, q.st.searches))
    && q.st.deletes == st.deletes + if exit == Complete then |q.passes| - 1 else |q.passes|
  }

  // ---------------------------------------------------------------- one pass

  /** A scan is cut short exactly when one of its own requests fails. */
  lemma {:induction false} ScanOkIff(v: seq<Msg>, offset: int, net: Net, n: nat)
    ensures var s := ScanFrom(v, offset, net.searchOk, n);
            s.next > n && (s.ok <==> AllAnswered(net, n, s.next))
    decreases |Below(v, offset)|
  {
    var page := Page(v, offset);
    var minID := MinId(Reals(page));
    if net.searchOk(n) && |page| != 0 && minID != 0 && minID != offset {
      ScanProgresses(v, offset);
      ScanOkIff(v, minID, net, n + 1);
    }
  }

  /** Before the n-th pass every earlier one went on, and the oldest id is that of the last. */
  ghost predicate OnTrack(job: Job, st: State, q: Progress, n: nat) {
    && n == |q.passes| + 1 && Lived(job, n - 1) && GoesOn(q.passes) && Paused(job, q.passes) && Leaves(job, st, q)
    && q.oldest == (if n == 1 then 0 else Oldest(q.passes[n - 2]))
    && (n > 1 ==> q.oldest > 0)
    && AllAnswered(job.env.net, st.searches, q.st.searches)
    && q.st.deletes == st.deletes + n - 1
  }

  lemma DidMore(job: Job, st: State, passes: seq<Pass>, p: Pass)
    requires Did(job, st, passes) && GoesOn(passes) && Ran(job, st, passes, p)
    ensures Did(job, st, passes + [p])
  {
    assert (passes + [p])[..|passes|] == passes;
  }

  lemma BookedMore(passes: seq<Pass>, p: Pass)
    ensures Booked(passes + [p]) == Booked(passes) + |Kept(p)|
  {
    assert (passes + [p])[..|passes|] == passes;
  }

  lemma OldestIsLast(h: seq<Msg>, window: nat, seen: seq<Msg>)
    requires Descending(h) && seen == Walk(Window(h, window), 0) && seen != []
    ensures MinId(seen) == seen[|seen| - 1].id > 0
  {
    SeenIsPartOfWindow(h, window, seen);
    MinIdOfDescending(seen);
  }

  // ---------------------------------------------------------------- the exits

  /** When no rule has ended the drain, the context, the ceiling and the next scan decide. */
  lemma ExitsBetween(job: Job, passes: seq<Pass>)
    requires GoesOn(passes)
    ensures !Paused(job, passes) ==> Exits(job, Cancelled, passes)
    ensures Paused(job, passes) ==>
              var live := job.env.ctxOk(2 * |passes| + 2);
              Exits(job, if |passes| >= 50 then PassCeiling else if live then ScanFailed else Cancelled, passes)
  {
    assert passes != [] ==> IdSet(passes[|passes| - 1].submitted) != {};
  }

  /** The rules after one more pass. */
  lemma ExitsAfter(job: Job, passes: seq<Pass>, p: Pass)
    ensures var all := passes + [p];
            && (p.submitted == [] ==> Exits(job, Complete, all))
            && (p.submitted != [] && Kept(p) == {} ==> Exits(job, NothingDeleted, all))
            && (p.submitted != [] && Kept(p) != {} ==>
                  if passes != [] && Oldest(p) >= Oldest(passes[|passes| - 1]) then Exits(job, NotReceding, all)
                  else GoesOn(all))
  {}

  // ---------------------------------------------------------------- one pass of the loop

  /** A scan of the history as it stands, all of whose requests were answered. */
  ghost predicate ScannedAll(job: Job, q: Progress, scanned: State, seen: seq<Msg>) {
    && scanned == q.st.(index := scanned.index, searches := scanned.searches)
    && q.st.searches <= scanned.searches && AllAnswered(job.env.net, q.st.searches, scanned.searches)
    && seen == Walk(Window(q.st.h, job.env.window), 0)
  }

  /** Between them, one turn of the loop has added at most one pass, and that one ran as it should. */
  ghost predicate Adds(job: Job, st: State, before: seq<Pass>, passes: seq<Pass>) {
    || passes == before
    || (exists p :: passes == before + [p] && Ran(job, st, before, p))
  }

  /** The pass that finds nothing expired. */
  lemma EmptyPassTells(job: Job, st: State, q: Progress, n: nat, scanned: State, seen: seq<Msg>)
    requires OnTrack(job, st, q, n) && n <= MAX_PASSES && job.env.ctxOk(2 * n)
    requires ScannedAll(job, q, scanned, seen) && Expired(seen, job.env.clock(n), job.ttl) == []
    ensures var p := Pass(q.st.h, job.env.clock(n), seen, [], []);
            Tells(job, st, Complete, q.(st := scanned, passes := q.passes + [p]))
  {
    var p := Pass(q.st.h, job.env.clock(n), seen, [], []);
    assert Kept(p) == {};
    EmptyPassLeaves(job, st, q, scanned, p);
    ExitsAfter(job, q.passes, p);
    LivedOn(job, q.passes, n);
    AnsweredOn(job.env.net, st.searches, q.st.searches, scanned.searches);
  }

  lemma LivedOn(job: Job, passes: seq<Pass>, n: nat)
    requires n == |passes| + 1 && Lived(job, n - 1) && Paused(job, passes) && job.env.ctxOk(2 * n)
    ensures Lived(job, n)
  {}

  lemma AnsweredOn(net: Net, lo: nat, mid: nat, hi: nat)
    requires lo <= mid <= hi && AllAnswered(net, lo, mid)
    ensures AllAnswered(net, mid, hi) <==> AllAnswered(net, lo, hi)
  {}

  /** A pass over the history that the earlier passes left ran as it should. */
  lemma PassRan(job: Job, st: State, q: Progress, n: nat, scanned: State, p: Pass)
    requires n == |q.passes| + 1 && q.st.h == LeftBy(job, st, q.passes) && q.st.deletes == st.deletes + n - 1
    requires scanned.deletes == q.st.deletes
    requires p.before == q.st.h && p.now == job.env.clock(n) && p.seen == Walk(Window(q.st.h, job.env.window), 0)
    requires p.submitted == Expired(p.seen, p.now, job.ttl) && p.failed == FailedIds(job, scanned, p.submitted)
    ensures Ran(job, st, q.passes, p)
  {}

  lemma EmptyPassLeaves(job: Job, st: State, q: Progress, scanned: State, p: Pass)
    requires Leaves(job, st, q) && q.st.searches <= scanned.searches && scanned.h == q.st.h
    requires Kept(p) == {} && p.before == q.st.h
    ensures Leaves(job, st, q.(st := scanned, passes := q.passes + [p]))
  {
    BookedMore(q.passes, p);
    LeavesAll(job, st, q.passes, p);
  }

  /** A pass that deleted nothing left the history it had found. */
  lemma LeavesAll(job: Job, st: State, passes: seq<Pass>, p: Pass)
    requires Kept(p) == {}
    ensures LeftBy(job, st, passes + [p]) == p.before
  {
    RemoveNothing(p.before);
    assert (passes + [p])[|passes|] == p;
  }

  /** What a deleting pass hands on to the rules. */
  ghost predicate Handed(job: Job, st: State, q: Progress, n: nat, after: Progress, p: Pass) {
    && after.passes == q.passes + [p] && Leaves(job, st, after)
    && p.submitted != [] && (after.rep.deleted == q.rep.deleted <==> Kept(p) == {})
    && after.oldest == Oldest(p) > 0
    && AllAnswered(job.env.net, st.searches, after.st.searches)
    && after.st.deletes == st.deletes + n
  }

  lemma DeletingPassHands(job: Job, st: State, q: Progress, n: nat, scanned: State, seen: seq<Msg>)
    requires OnTrack(job, st, q, n) && ScannedAll(job, q, scanned, seen)
    requires Expired(seen, job.env.clock(n), job.ttl) != []
    ensures var now := job.env.clock(n);
            var ids := Expired(seen, now, job.ttl);
            var p := Pass(q.st.h, now, seen, ids, FailedIds(job, scanned, ids));
            Ran(job, st, q.passes, p) && Handed(job, st, q, n, AfterDelete(job, q, scanned, seen, now), p)
  {
    var now := job.env.clock(n);
    var ids, after := Expired(seen, now, job.ttl), AfterDelete(job, q, scanned, seen, now);
    var p := Pass(q.st.h, now, seen, ids, FailedIds(job, scanned, ids));
    PassRan(job, st, q, n, scanned, p);
    SubmittedIds(q.st.h, job.env.window, seen, now, job.ttl);
    OldestIsLast(q.st.h, job.env.window, seen);
    AnsweredOn(job.env.net, st.searches, q.st.searches, scanned.searches);
    DeletionLeaves(job, st, q, n, scanned, p, after);
  }

  /** What a deletion of distinct ids changes, as the recorded pass tells. */
  lemma DeletionLeaves(job: Job, st: State, q: Progress, n: nat, scanned: State, p: Pass, after: Progress)
    requires n == |q.passes| + 1 && Leaves(job, st, q) && q.st.deletes == st.deletes + n - 1
    requires scanned.h == q.st.h && scanned.deletes == q.st.deletes && q.st.searches <= scanned.searches
    requires p.before == q.st.h && p.failed == FailedIds(job, scanned, p.submitted) && Distinct(p.submitted)
    requires var (left, pr) := DeleteKnown(job.env.net, job.g, job.chat, scanned, p.submitted);
             after.st == left && after.rep == Merge(q.rep, pr) && after.passes == q.passes + [p]
    ensures Leaves(job, st, after) && after.rep.deleted == q.rep.deleted + |Kept(p)|
    ensures after.st.deletes == st.deletes + n && after.st.searches == scanned.searches
  {
    DeletionAccounts(job.env.net, job.g, job.chat, scanned, p.submitted);
    BookedMore(q.passes, p);
  }

  /** What a turn must lead to. */
  ghost predicate Told(job: Job, st: State, q: Progress, n: nat, turn: Turn) {
    && Adds(job, st, q.passes, turn.at.passes)
    && if turn.Stop? then Tells(job, st, turn.exit, turn.at) else OnTrack(job, st, turn.at, n + 1)
  }

  lemma AfterScanTold(job: Job, st: State, q: Progress, n: nat, scanned: State, seen: seq<Msg>)
    requires OnTrack(job, st, q, n) && n <= MAX_PASSES && job.env.ctxOk(2 * n) && ScannedAll(job, q, scanned, seen)
    ensures Told(job, st, q, n, AfterScan(job, q, n, scanned, seen))
  {
    var now := job.env.clock(n);
    var ids := Expired(seen, now, job.ttl);
    if ids == [] {
      PassRan(job, st, q, n, scanned, Pass(q.st.h, now, seen, [], FailedIds(job, scanned, [])));
      EmptyPassTells(job, st, q, n, scanned, seen);
    } else {
      var p := Pass(q.st.h, now, seen, ids, FailedIds(job, scanned, ids));
      DeletingPassHands(job, st, q, n, scanned, seen);
      var after := AfterDelete(job, q, scanned, seen, now);
      RulesTell(job, st, q, n, after, p);
      if GoesOn(after.passes) {
        PauseTells(job, st, q, n, after, p);
      }
    }
  }

  /** The rules after a deleting pass. */
  lemma RulesTell(job: Job, st: State, q: Progress, n: nat, after: Progress, p: Pass)
    requires OnTrack(job, st, q, n) && n <= MAX_PASSES && job.env.ctxOk(2 * n) && Handed(job, st, q, n, after, p)
    ensures after.rep.deleted == q.rep.deleted ==> Tells(job, st, NothingDeleted, after)
    ensures after.rep.deleted != q.rep.deleted && q.oldest != 0 && after.oldest >= q.oldest ==>
              Tells(job, st, NotReceding, after)
    ensures after.rep.deleted != q.rep.deleted && (q.oldest == 0 || after.oldest < q.oldest) ==> GoesOn(after.passes)
  {
    ExitsAfter(job, q.passes, p);
    LivedOn(job, q.passes, n);
  }

  /** The pause after a pass that no rule ended. */
  lemma PauseTells(job: Job, st: State, q: Progress, n: nat, after: Progress, p: Pass)
    requires OnTrack(job, st, q, n) && n <= MAX_PASSES && job.env.ctxOk(2 * n) && Handed(job, st, q, n, after, p)
    requires GoesOn(after.passes)
    ensures if job.env.ctxOk(2 * n + 1) then OnTrack(job, st, after, n + 1) else Tells(job, st, Cancelled, after)
  {
    LivedOn(job, q.passes, n);
    ExitsBetween(job, after.passes);
  }

  /** A context that ends, or a scan request that fails, before the pass is recorded. */
  lemma NoPassTells(job: Job, st: State, q: Progress, n: nat)
    requires OnTrack(job, st, q, n) && n <= MAX_PASSES
    ensures !job.env.ctxOk(2 * n) ==> Tells(job, st, Cancelled, q)
    ensures job.env.ctxOk(2 * n) && !ScanPass(job, q.st).ok ==>
              Tells(job, st, ScanFailed, q.(st := Scanned(job, q.st)))
  {
    ExitsBetween(job, q.passes);
    ScanOkIff(Window(q.st.h, job.env.window), 0, job.env.net, q.st.searches);
    AnsweredOn(job.env.net, st.searches, q.st.searches, ScanPass(job, q.st).next);
  }

  lemma ScansAll(job: Job, q: Progress)
    requires Descending(q.st.h) && ScanPass(job, q.st).ok
    ensures ScannedAll(job, q, Scanned(job, q.st), ScanPass(job, q.st).seen)
  {
    PassScans(job, q.st);
    ScanOkIff(Window(q.st.h, job.env.window), 0, job.env.net, q.st.searches);
  }

  lemma TurnTold(job: Job, st: State, q: Progress, n: nat)
    requires OnTrack(job, st, q, n) && n <= MAX_PASSES
    ensures Told(job, st, q, n, TakeTurn(job, q, n))
  {
    NoPassTells(job, st, q, n);
    if job.env.ctxOk(2 * n) && ScanPass(job, q.st).ok {
      ScansAll(job, q);
      AfterScanTold(job, st, q, n, Scanned(job, q.st), ScanPass(job, q.st).seen);
    }
  }

  // ---------------------------------------------------------------- the loop

  lemma DidAdds(job: Job, st: State, before: seq<Pass>, passes: seq<Pass>)
    requires Did(job, st, before) && GoesOn(before) && Adds(job, st, before, passes)
    ensures Did(job, st, passes)
  {
    if passes != before {
      var p :| passes == before + [p] && Ran(job, st, before, p);
      DidMore(job, st, before, p);
    }
  }

  lemma {:induction false} LoopTold(job: Job, st: State, q: Progress, n: nat)
    requires 1 <= n <= MAX_PASSES + 1 && OnTrack(job, st, q, n) && Did(job, st, q.passes)
    ensures var (exit, at) := Loop(Turns(job), q, n); Did(job, st, at.passes) && Tells(job, st, exit, at)
    decreases MAX_PASSES + 1 - n, 1
  {
    if n > MAX_PASSES {
      ExitsBetween(job, q.passes);
    } else {
      LoopUnfolds(Turns(job), q, n);
      TurnTold(job, st, q, n);
      DidAdds(job, st, q.passes, TakeTurn(job, q, n).at.passes);
      RestTold(job, st, n, TakeTurn(job, q, n));
    }
  }

  lemma {:induction false} RestTold(job: Job, st: State, n: nat, turn: Turn)
    requires 1 <= n <= MAX_PASSES && Did(job, st, turn.at.passes)
    requires if turn.Stop? then Tells(job, st, turn.exit, turn.at) else OnTrack(job, st, turn.at, n + 1)
    ensures var (exit, at) := if turn.Stop? then (turn.exit, turn.at) else Loop(Turns(job), turn.at, n + 1);
            Did(job, st, at.passes) && Tells(job, st, exit, at)
    decreases MAX_PASSES + 1 - n, 0
  {
    if turn.Next? {
      LoopTold(job, st, turn.at, n + 1);
    }
  }

  /**
   * Main result on the order of a drain's steps, for any context, clock and failures: every recorded pass ran as it
   * should, nothing else changed the history, and the recorded passes say which exit the drain took.
   */
  lemma DrainTells(job: Job, st: State)
    requires job.ttl > 0 && Descending(st.h)
    ensures var (exit, q) := RunDrain(job, st); Did(job, st, q.passes) && Tells(job, st, exit, q)
  {
    LoopTold(job, st, Start(job, st), 1);
  }

  /** Every pass was begun under a live context, and all but the last were followed by a live pause. */
  lemma {:induction false} LivedThroughout(job: Job, k: nat, n: nat)
    requires Lived(job, k) && 1 <= n <= k
    ensures job.env.ctxOk(2 * n) && (n < k ==> job.env.ctxOk(2 * n + 1))
    decreases k
  {
    if n < k {
      LivedThroughout(job, k - 1, n);
    }
  }

  /** A drain of a chat with a TTL whose context has already ended does nothing at all. */
  lemma EndedContextDoesNothing(job: Job, st: State)
    requires job.ttl > 0 && !job.env.ctxOk(2)
    ensures RunDrain(job, st) == (Cancelled, Progress(st, Report(job.g.title, 0, 0, []), [], 0))
  {
    LoopUnfolds(Turns(job), Start(job, st), 1);
  }

  // ---------------------------------------------------------------- ages

  /** Of what a pass saw it submitted exactly the messages that were the given age or older, newest first. */
  ghost predicate SubmitsAged(p: Pass, age: int) {
    && (forall i, j :: 0 <= i < j < |p.submitted| ==> p.submitted[i] > p.submitted[j])
    && (forall m :: m in p.seen ==> (m.id in p.submitted <==> p.now - m.sent >= age))
    && (forall id :: id in p.submitted ==> exists m :: m in p.seen && m.id == id)
  }

  lemma ExpiredAreAged(h: seq<Msg>, window: nat, p: Pass, ttl: int)
    requires Descending(h) && p.seen == Walk(Window(h, window), 0) && p.submitted == Expired(p.seen, p.now, ttl)
    requires 0 < ttl && Int64.Fits(ttl)
    ensures SubmitsAged(p, ttl)
  {
    SeenIsPartOfWindow(h, window, p.seen);
    ExpiredDescend(p.seen, p.now, ttl);
    forall m | m in p.seen ensures m.id in p.submitted <==> p.now - m.sent >= ttl {
      ExpiredMembers(p.seen, p.now, ttl, m.id);
      Int64.AgedIsTrueAge(p.now, m.sent, ttl);
      forall o | o in p.seen && o.id == m.id ensures o == m {
        SeenOnce(p.seen, o, m);
      }
    }
    forall id | id in p.submitted ensures exists m :: m in p.seen && m.id == id {
      ExpiredMembers(p.seen, p.now, ttl, id);
    }
  }

  lemma {:induction false} ExpiredDescend(seen: seq<Msg>, now: int, ttl: int)
    requires Descending(seen)
    ensures var ids := Expired(seen, now, ttl); forall i, j :: 0 <= i < j < |ids| ==> ids[i] > ids[j]
  {
    if seen != [] {
      var k := |seen| - 1;
      DescendingSlice(seen, 0, k);
      ExpiredDescend(seen[..k], now, ttl);
      var before := Expired(seen[..k], now, ttl);
      forall i | 0 <= i < |before| ensures before[i] > seen[k].id {
        ExpiredMembers(seen[..k], now, ttl, before[i]);
        var m :| m in seen[..k] && m.id == before[i];
        var j :| 0 <= j < k && seen[j] == m;
      }
    }
  }

  lemma SeenOnce(seen: seq<Msg>, a: Msg, b: Msg)
    requires Descending(seen) && a in seen && b in seen && a.id == b.id
    ensures a == b
  {
    var i, j :| 0 <= i < |seen| && seen[i] == a && 0 <= j < |seen| && seen[j] == b;
  }

  /** Every recorded pass of a drain under a positive threshold submitted by age alone. */
  lemma {:induction false} PassesSubmitAged(job: Job, st: State, passes: seq<Pass>)
    requires Did(job, st, passes) && Descending(st.h) && 0 < job.ttl && Int64.Fits(job.ttl)
    ensures Descending(LeftBy(job, st, passes))
    ensures forall p :: p in passes ==> SubmitsAged(p, job.ttl)
    decreases |passes|
  {
    if passes != [] {
      var k := |passes| - 1;
      var p := passes[k];
      PassesSubmitAged(job, st, passes[..k]);
      RanByAge(job, st, passes[..k], p);
      assert passes == passes[..k] + [p];
    }
  }

  lemma RanByAge(job: Job, st: State, before: seq<Pass>, p: Pass)
    requires Ran(job, st, before, p) && Descending(LeftBy(job, st, before)) && 0 < job.ttl && Int64.Fits(job.ttl)
    ensures Descending(LeftBy(job, st, before + [p])) && SubmitsAged(p, job.ttl)
  {
    ExpiredAreAged(p.before, job.env.window, p, job.ttl);
    RemoveDescends(p.before, Kept(p));
    assert (before + [p])[|before|] == p;
  }

  /** A drain under a whole number of minutes deletes by age in minutes. */
  lemma DrainsByMinutes(job: Job, st: State, minutes: nat)
    requires Descending(st.h) && 0 < minutes <= 153_722_867 && job.ttl == minutes * 60_000_000_000
    ensures forall p :: p in RunDrain(job, st).1.passes ==> SubmitsAged(p, minutes * 60_000_000_000)
  {
    DrainTells(job, st);
    PassesSubmitAged(job, st, RunDrain(job, st).1.passes);
  }

  /** A whole drain in terms of the minutes stored for its chat, none of them meaning that there is nothing to do. */
  ghost predicate Follows(job: Job, st: State, minutes: int, exit: Exit, q: Progress) {
    && (minutes == 0 ==> exit == Complete && q == Progress(st, Report(job.g.title, 0, 0, []), [], 0))
    && (0 < minutes <= 153_722_867 && Descending(st.h) ==>
          && Did(job, st, q.passes) && Tells(job, st, exit, q)
          && forall p :: p in q.passes ==> SubmitsAged(p, minutes * 60_000_000_000))
  }

  lemma DrainFollows(job: Job, st: State, cfg: ChatCfg.View)
    requires job.ttl == ChatCfg.TtlOf(cfg, job.chat)
    ensures var minutes := if job.chat in cfg then cfg[job.chat].ttlMinutes else 0;
            && Follows(job, st, minutes, RunDrain(job, st).0, RunDrain(job, st).1)
            && (0 <= minutes <= 153_722_867 ==> (job.ttl > 0 <==> minutes > 0))
  {
    var minutes := if job.chat in cfg then cfg[job.chat].ttlMinutes else 0;
    if 0 <= minutes <= 153_722_867 {
      ChatCfg.TtlIsMinutes(cfg, job.chat);
      if minutes > 0 && Descending(st.h) {
        DrainTells(job, st);
        DrainsByMinutes(job, st, minutes);
      }
    }
  }
}
