/**
 * The multi-pass history drain of one chat: each pass scans the window, deletes what has expired, and one of
 * several rules ends the run.
 */
module Drain {
  import opened Telegram
  import opened Deletion
  import Index
  import Int64

  /** The most passes one drain makes. */
  const MAX_PASSES := 50

  /** The surroundings: which requests go through, the window, the clock at each pass, and the context checks. */
  datatype Env = Env(net: Net, window: nat, clock: nat -> int, ctxOk: nat -> bool)

  /** The ids of the messages at least ttl old, in order. */
  function Expired(seen: seq<Msg>, now: int, ttl: int): seq<int> {
    if seen == [] then []
    else
      var k := |seen| - 1;
      Expired(seen[..k], now, ttl) + (if Int64.Aged(now, seen[k].sent, ttl) then [seen[k].id] else [])
  }

  /** One completed pass: the history it scanned, its clock, what it saw, submitted and failed to delete. */
  datatype Pass = Pass(before: seq<Msg>, now: int, seen: seq<Msg>, submitted: seq<int>, failed: seq<int>)

  datatype Exit = Cancelled | ScanFailed | Complete | NothingDeleted | NotReceding | PassCeiling

  /** What is being drained: a known group's chat under the TTL read at the start. */
  datatype Job = Job(env: Env, g: Group, chat: int, ttl: int)

  /** How far a drain has come; oldest is the smallest id the previous pass saw, zero before the first. */
  datatype Progress = Progress(st: State, rep: Report, passes: seq<Pass>, oldest: int)

  /** What one pass leads to: the end of the drain, or the next pass. */
  datatype Turn = Stop(exit: Exit, at: Progress) | Next(at: Progress)

  function ScanPass(job: Job, st: State): Scan {
    ScanFrom(Window(st.h, job.env.window), 0, job.env.net.searchOk, st.searches)
  }

  /** The state once the callback has indexed what the scan saw. */
  function Scanned(job: Job, st: State): State {
    var scan := ScanPass(job, st);
    st.(index := Index.PutAll(st.index, job.chat, scan.seen), searches := scan.next)
  }

  function FailedIds(job: Job, st: State, ids: seq<int>): seq<int> {
    DeleteIds(ids, job.env.net.up(st.deletes), ChunkOk(job.env.net, st.deletes)).failed
  }

  /** The deletion of a pass that found something to delete. */
  function AfterDelete(job: Job, p: Progress, scanned: State, seen: seq<Msg>, now: int): Progress {
    var expired := Expired(seen, now, job.ttl);
    var (after, pr) := DeleteKnown(job.env.net, job.g, job.chat, scanned, expired);
    Progress(after, Merge(p.rep, pr),
             p.passes + [Pass(p.st.h, now, seen, expired, FailedIds(job, scanned, expired))], MinId(seen))
  }

  /** The rest of a pass once its scan has ended well. */
  function AfterScan(job: Job, p: Progress, pass: nat, scanned: State, seen: seq<Msg>): Turn {
    var now := job.env.clock(pass);
    if Expired(seen, now, job.ttl) == [] then
      Stop(Complete, p.(st := scanned, passes := p.passes + [Pass(p.st.h, now, seen, [], [])]))
    else
      var after := AfterDelete(job, p, scanned, seen, now);
      if after.rep.deleted == p.rep.deleted then Stop(NothingDeleted, after)
      else if p.oldest != 0 && after.oldest >= p.oldest then Stop(NotReceding, after)
      else if !job.env.ctxOk(2 * pass + 1) then Stop(Cancelled, after)
      else Next(after)
  }

  /** One pass with all its ways of ending the drain. */
  function TakeTurn(job: Job, p: Progress, pass: nat): Turn {
    if !job.env.ctxOk(2 * pass) then Stop(Cancelled, p)
    else
      var scan := ScanPass(job, p.st);
      var scanned := Scanned(job, p.st);
      if !scan.ok then Stop(ScanFailed, p.(st := scanned)) else AfterScan(job, p, pass, scanned, scan.seen)
  }

  type Step = (Progress, nat) -> Turn

  function Turns(job: Job): Step {
    (p: Progress, pass: nat) => TakeTurn(job, p, pass)
  }

  /** The pass loop, from a given pass on. */
  function Loop(step: Step, p: Progress, pass: nat): (Exit, Progress)
    requires 1 <= pass <= MAX_PASSES + 1
    decreases MAX_PASSES + 1 - pass, p
  {
    if pass > MAX_PASSES then (PassCeiling, p)
    else
      match step(p, pass)
      case Stop(exit, at) => (exit, at)
      case Next(at) => Loop(step, at, pass + 1)
  }

  lemma LoopUnfolds(step: Step, p: Progress, pass: nat)
    requires 1 <= pass <= MAX_PASSES
    ensures Loop(step, p, pass)
         == var turn := step(p, pass); if turn.Stop? then (turn.exit, turn.at) else Loop(step, turn.at, pass + 1)
  {}

  function Start(job: Job, st: State): Progress {
    Progress(st, Report(job.g.title, 0, 0, []), [], 0)
  }

  /** A whole drain; a chat without a positive TTL is left alone. */
  function RunDrain(job: Job, st: State): (Exit, Progress) {
    if job.ttl <= 0 then (Complete, Start(job, st)) else Loop(Turns(job), Start(job, st), 1)
  }

  /** One pass takes an invariant of the loop to itself, or to the conclusion when the pass ends the drain. */
  ghost predicate Keeps(step: Step, inv: (Progress, nat) -> bool, post: (Exit, Progress) -> bool, q: Progress, n: nat)
  {
    var turn := step(q, n);
    inv(q, n) ==> if turn.Stop? then post(turn.exit, turn.at) else inv(turn.at, n + 1)
  }

  /** An invariant of every pass is an invariant of the loop. */
  lemma {:induction false} LoopInduction(step: Step, inv: (Progress, nat) -> bool, post: (Exit, Progress) -> bool,
                                        p: Progress, pass: nat)
    requires 1 <= pass <= MAX_PASSES + 1 && inv(p, pass)
    requires forall q, n | 1 <= n <= MAX_PASSES :: Keeps(step, inv, post, q, n)
    requires forall q | inv(q, MAX_PASSES + 1) :: post(PassCeiling, q)
    ensures var (exit, at) := Loop(step, p, pass); post(exit, at)
    decreases MAX_PASSES + 1 - pass
  {
    assert pass <= MAX_PASSES ==> Keeps(step, inv, post, p, pass);
    if pass <= MAX_PASSES && step(p, pass).Next? {
      LoopInduction(step, inv, post, step(p, pass).at, pass + 1);
    }
  }

  lemma DrainInduction(job: Job, st: State, inv: (Progress, nat) -> bool, post: (Exit, Progress) -> bool)
    requires job.ttl > 0 && inv(Start(job, st), 1)
    requires forall q, n | 1 <= n <= MAX_PASSES :: Keeps(Turns(job), inv, post, q, n)
    requires forall q | inv(q, MAX_PASSES + 1) :: post(PassCeiling, q)
    ensures post(RunDrain(job, st).0, RunDrain(job, st).1)
  {
    LoopInduction(Turns(job), inv, post, Start(job, st), 1);
  }

  // ---------------------------------------------------------------- one pass

  lemma {:induction false} ExpiredMembers(seen: seq<Msg>, now: int, ttl: int, id: int)
    ensures id in Expired(seen, now, ttl) <==> exists m :: m in seen && m.id == id && Int64.Aged(now, m.sent, ttl)
  {
    if seen != [] {
      var k := |seen| - 1;
      ExpiredMembers(seen[..k], now, ttl, id);
      assert seen == seen[..k] + [seen[k]];
    }
  }

  lemma {:induction false} ExpiredDistinct(seen: seq<Msg>, now: int, ttl: int)
    requires Descending(seen)
    ensures Distinct(Expired(seen, now, ttl))
  {
    if seen != [] {
      var k := |seen| - 1;
      DescendingSlice(seen, 0, k);
      ExpiredDistinct(seen[..k], now, ttl);
      ExpiredMembers(seen[..k], now, ttl, seen[k].id);
      forall m | m in seen[..k] ensures m.id != seen[k].id {
        var i :| 0 <= i < k && seen[i] == m;
      }
    }
  }

  lemma WindowIsPrefix(h: seq<Msg>, window: nat)
    requires Descending(h)
    ensures Window(h, window) <= h && Descending(Window(h, window))
  {
    DescendingSlice(h, 0, |Window(h, window)|);
    assert h[..|h|] == h;
  }

  /** What a walk saw are messages of the window, in descending order. */
  lemma SeenIsPartOfWindow(h: seq<Msg>, window: nat, seen: seq<Msg>)
    requires Descending(h) && seen <= Walk(Window(h, window), 0)
    ensures Descending(seen)
    ensures forall m :: m in seen ==> m in Window(h, window) && m in h && m.ordinary
  {
    var v := Window(h, window);
    WindowIsPrefix(h, window);
    WalkVisits(v, 0);
    RealsDescend(v);
    RealsAreThere(v);
    assert seen <= Reals(v);
    DescendingSlice(Reals(v), 0, |seen|);
    assert seen == Reals(v)[..|seen|];
    forall m | m in seen ensures m in Reals(v) && m in v && m in h {
      var i :| 0 <= i < |seen| && seen[i] == m;
      assert Reals(v)[i] == m;
    }
  }

  /** The ids one pass submits are distinct ids of existing messages. */
  lemma SubmittedIds(h: seq<Msg>, window: nat, seen: seq<Msg>, now: int, ttl: int)
    requires Descending(h) && seen <= Walk(Window(h, window), 0)
    ensures Distinct(Expired(seen, now, ttl))
    ensures IdSet(Expired(seen, now, ttl)) <= Ids(h)
  {
    SeenIsPartOfWindow(h, window, seen);
    ExpiredDistinct(seen, now, ttl);
    forall id | id in Expired(seen, now, ttl) ensures id in Ids(h) {
      ExpiredMembers(seen, now, ttl, id);
    }
  }

  /** Everything the later results need to know about one scan. */
  lemma PassScans(job: Job, st: State)
    requires Descending(st.h)
    ensures var scan := ScanPass(job, st);
            && scan.seen <= Walk(Window(st.h, job.env.window), 0)
            && (scan.ok ==> scan.seen == Walk(Window(st.h, job.env.window), 0))
            && ((forall n :: job.env.net.searchOk(n)) ==> scan.ok)
  {
    WindowIsPrefix(st.h, job.env.window);
    ScanIsWalk(Window(st.h, job.env.window), job.env.net.searchOk, st.searches);
  }

  // ---------------------------------------------------------------- accounting

  /** Every delete call with a number in the range found the client running. */
  ghost predicate UpBetween(net: Net, lo: nat, hi: nat) {
    forall n :: lo <= n < hi ==> net.up(n)
  }

  /** How many ids the passes submitted between them. */
  function Submitted(passes: seq<Pass>): nat {
    if passes == [] then 0 else Submitted(passes[..|passes| - 1]) + |passes[|passes| - 1].submitted|
  }

  /**
   * The books between two moments: links, counter, the report against the ids submitted, and the reported
   * count against the fall on the server.
   */
  ghost predicate Books(job: Job, p: Progress, q: Progress) {
    var reported := q.rep.deleted - p.rep.deleted;
    var fall := |p.st.h| - |q.st.h|;
    && Descending(q.st.h)
    && |q.rep.links| <= LINK_LIMIT
    && p.st.deletes <= q.st.deletes
    && Count(q.st.counts, job.chat) - Count(p.st.counts, job.chat) == reported
    && reported + q.rep.failed - p.rep.failed == Submitted(q.passes) - Submitted(p.passes)
    && reported >= fall
    && (reported == fall <==> UpBetween(job.env.net, p.st.deletes, q.st.deletes))
  }

  lemma BooksChain(job: Job, p: Progress, q: Progress, r: Progress)
    requires Books(job, p, q) && Books(job, q, r)
    ensures Books(job, p, r)
  {}

  lemma DeletionBooks(job: Job, p: Progress, scanned: State, ids: seq<int>, q: Progress)
    requires Descending(p.st.h) && |p.rep.links| <= LINK_LIMIT
    requires scanned.h == p.st.h && scanned.counts == p.st.counts && scanned.deletes == p.st.deletes
    requires ids != [] && Distinct(ids) && IdSet(ids) <= Ids(p.st.h)
    requires var (after, pr) := DeleteKnown(job.env.net, job.g, job.chat, scanned, ids);
             q.st == after && q.rep == Merge(p.rep, pr)
    requires Submitted(q.passes) == Submitted(p.passes) + |ids|
    ensures Books(job, p, q)
  {
    KnownDeletionAccounts(job.env.net, job.g, job.chat, scanned, ids);
    assert q.st.deletes == p.st.deletes + 1;
    assert UpBetween(job.env.net, p.st.deletes, q.st.deletes) <==> job.env.net.up(p.st.deletes);
  }

  lemma OneMorePass(passes: seq<Pass>, more: seq<Pass>, ids: seq<int>)
    requires |more| == |passes| + 1 && more[..|passes|] == passes && more[|passes|].submitted == ids
    ensures Submitted(more) == Submitted(passes) + |ids|
  {}

  lemma AfterScanAccounts(job: Job, p: Progress, pass: nat, scanned: State, seen: seq<Msg>)
    requires Descending(p.st.h) && |p.rep.links| <= LINK_LIMIT
    requires scanned.h == p.st.h && scanned.counts == p.st.counts && scanned.deletes == p.st.deletes
    requires seen <= Walk(Window(p.st.h, job.env.window), 0)
    ensures Books(job, p, AfterScan(job, p, pass, scanned, seen).at)
  {
    var now := job.env.clock(pass);
    if Expired(seen, now, job.ttl) == [] {
      NothingToBook(job, p, p.(st := scanned, passes := p.passes + [Pass(p.st.h, now, seen, [], [])]));
    } else {
      AfterDeleteAccounts(job, p, scanned, seen, now);
    }
  }

  /** A pass that deletes nothing leaves the books as they were. */
  lemma NothingToBook(job: Job, p: Progress, q: Progress)
    requires Descending(p.st.h) && |p.rep.links| <= LINK_LIMIT && q.rep == p.rep
    requires q.st.h == p.st.h && q.st.counts == p.st.counts && q.st.deletes == p.st.deletes
    requires |q.passes| == |p.passes| + 1 && q.passes[..|p.passes|] == p.passes && q.passes[|p.passes|].submitted == []
    ensures Books(job, p, q)
  {
    OneMorePass(p.passes, q.passes, []);
  }

  lemma AfterDeleteAccounts(job: Job, p: Progress, scanned: State, seen: seq<Msg>, now: int)
    requires Descending(p.st.h) && |p.rep.links| <= LINK_LIMIT
    requires scanned.h == p.st.h && scanned.counts == p.st.counts && scanned.deletes == p.st.deletes
    requires seen <= Walk(Window(p.st.h, job.env.window), 0) && Expired(seen, now, job.ttl) != []
    ensures Books(job, p, AfterDelete(job, p, scanned, seen, now))
  {
    var expired, after := Expired(seen, now, job.ttl), AfterDelete(job, p, scanned, seen, now);
    SubmittedIds(p.st.h, job.env.window, seen, now, job.ttl);
    OneMorePass(p.passes, after.passes, expired);
    DeletionBooks(job, p, scanned, expired, after);
  }

  lemma TurnAccounts(job: Job, p: Progress, pass: nat)
    requires Descending(p.st.h) && |p.rep.links| <= LINK_LIMIT
    ensures Books(job, p, TakeTurn(job, p, pass).at)
  {
    PassScans(job, p.st);
    AfterScanAccounts(job, p, pass, Scanned(job, p.st), ScanPass(job, p.st).seen);
  }

  /**
   * Main result on accounting: over a drain running alone, with any clock and any failures, the merged report
   * counts exactly the fall in the server's history if and only if no delete call met a stopped client;
   * otherwise it overstates it. Deleted plus failed is the number of ids submitted over all passes, the counter
   * grows by the reported number, and at most ten links are kept.
   */
  lemma DrainAccounts(job: Job, st: State)
    requires Descending(st.h)
    ensures Books(job, Start(job, st), RunDrain(job, st).1)
  {
    var p := Start(job, st);
    if job.ttl > 0 {
      var inv := (q: Progress, n: nat) => Books(job, p, q);
      var post := (e: Exit, q: Progress) => Books(job, p, q);
      forall q, n ensures Keeps(Turns(job), inv, post, q, n) {
        if Books(job, p, q) {
          TurnAccounts(job, q, n);
          BooksChain(job, p, q, TakeTurn(job, q, n).at);
        }
      }
      DrainInduction(job, st, inv, post);
    }
  }
}
