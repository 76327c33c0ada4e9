/** What a drain leaves in the index for the sweeps that follow it. */
module DrainIndexes {
  import opened Telegram
  import opened Deletion
  import opened Drain
  import Index
  import Int64

  /** The index records a message of the drained chat under its send time. */
  ghost predicate Records(job: Job, st: State, m: Msg) {
    m.id in Index.Messages(st.index, job.chat) && Index.Messages(st.index, job.chat)[m.id] == m.sent
  }

  /** Every seen message that is still on the server is indexed. */
  ghost predicate RecordsLeft(job: Job, st: State, seen: seq<Msg>) {
    forall m :: m in seen && m in st.h ==> Records(job, st, m)
  }

  /** The last pass had nothing to delete, or its delete call, the drain's latest, found the client up. */
  ghost predicate Answered(job: Job, q: Progress, p: Pass) {
    p.submitted == [] || (q.st.deletes > 0 && job.env.net.up(q.st.deletes - 1))
  }

  /** All that the last pass saw and left on the server is indexed exactly when its delete call was answered. */
  ghost predicate HandsOver(job: Job, q: Progress) {
    q.passes != [] ==>
      var p := q.passes[|q.passes| - 1];
      RecordsLeft(job, q.st, p.seen) <==> Answered(job, q, p)
  }

  lemma ScanRecords(job: Job, st: State, m: Msg)
    requires Descending(st.h) && m in ScanPass(job, st).seen
    ensures Records(job, Scanned(job, st), m)
  {
    PassScans(job, st);
    SeenIsPartOfWindow(st.h, job.env.window, ScanPass(job, st).seen);
    Index.PutAllRecords(st.index, job.chat, ScanPass(job, st).seen, m);
  }

  /** With the client up, a deletion keeps the records of what it leaves on the server. */
  lemma DeletionKeepsRecord(job: Job, st: State, ids: seq<int>, m: Msg)
    requires job.env.net.up(st.deletes) && Distinct(ids) && Records(job, st, m)
    requires m in DeleteKnown(job.env.net, job.g, job.chat, st, ids).0.h
    ensures Records(job, DeleteKnown(job.env.net, job.g, job.chat, st, ids).0, m)
  {
    var ok := ChunkOk(job.env.net, st.deletes);
    DistinctAccounts(ids, ok);
    RemoveMembers(st.h, IdSet(DeleteIds(ids, true, ok).deleted), m);
  }

  /** On a stopped client it forgets an id whose message stays on the server. */
  lemma StoppedForgets(job: Job, st: State, ids: seq<int>, m: Msg)
    requires !job.env.net.up(st.deletes) && m.id in ids
    ensures var after := DeleteKnown(job.env.net, job.g, job.chat, st, ids).0;
            after.h == st.h && !Records(job, after, m)
  {
    RemoveNothing(st.h);
    assert IdSet([]) == {};
    WithoutAll(ids, {});
    assert m.id in IdSet(ids);
  }

  lemma AfterDeleteHandsOver(job: Job, q: Progress, scanned: State, seen: seq<Msg>, now: int)
    requires scanned.h == q.st.h && (forall m :: m in seen ==> m in scanned.h && Records(job, scanned, m))
    requires Distinct(Expired(seen, now, job.ttl)) && Expired(seen, now, job.ttl) != []
    ensures HandsOver(job, AfterDelete(job, q, scanned, seen, now))
  {
    var ids := Expired(seen, now, job.ttl);
    var after := DeleteKnown(job.env.net, job.g, job.chat, scanned, ids).0;
    if job.env.net.up(scanned.deletes) {
      forall m | m in seen && m in after.h ensures Records(job, after, m) {
        DeletionKeepsRecord(job, scanned, ids, m);
      }
    } else {
      ExpiredMembers(seen, now, job.ttl, ids[0]);
      var m :| m in seen && m.id == ids[0] && Int64.Aged(now, m.sent, job.ttl);
      StoppedForgets(job, scanned, ids, m);
      assert m in after.h && !Records(job, after, m);
    }
  }

  lemma AfterScanHandsOver(job: Job, q: Progress, n: nat, scanned: State, seen: seq<Msg>)
    requires Descending(q.st.h) && scanned.h == q.st.h && seen == Walk(Window(q.st.h, job.env.window), 0)
    requires forall m :: m in seen ==> Records(job, scanned, m)
    ensures var turn := AfterScan(job, q, n, scanned, seen);
            HandsOver(job, turn.at) && Descending(turn.at.st.h)
  {
    var now := job.env.clock(n);
    SubmittedIds(q.st.h, job.env.window, seen, now, job.ttl);
    SeenIsPartOfWindow(q.st.h, job.env.window, seen);
    if Expired(seen, now, job.ttl) == [] {
      NothingDeletedHandsOver(job, q.(st := scanned, passes := q.passes + [Pass(q.st.h, now, seen, [], [])]));
    } else {
      AfterDeleteHandsOver(job, q, scanned, seen, now);
      AfterDeleteDescends(job, q, scanned, seen, now);
    }
  }

  lemma NothingDeletedHandsOver(job: Job, q: Progress)
    requires q.passes != [] && q.passes[|q.passes| - 1].submitted == []
    requires forall m :: m in q.passes[|q.passes| - 1].seen ==> Records(job, q.st, m)
    ensures HandsOver(job, q)
  {}

  lemma AfterDeleteDescends(job: Job, q: Progress, scanned: State, seen: seq<Msg>, now: int)
    requires Descending(scanned.h)
    ensures Descending(AfterDelete(job, q, scanned, seen, now).st.h)
  {
    var ids := Expired(seen, now, job.ttl);
    RemoveDescends(scanned.h, IdSet(DeleteIds(ids, job.env.net.up(scanned.deletes),
                                              ChunkOk(job.env.net, scanned.deletes)).deleted));
  }

  lemma TurnHandsOver(job: Job, q: Progress, n: nat)
    requires Descending(q.st.h) && HandsOver(job, q)
    ensures var turn := TakeTurn(job, q, n);
            (turn.Stop? && turn.exit == ScanFailed) || (HandsOver(job, turn.at) && Descending(turn.at.st.h))
  {
    PassScans(job, q.st);
    if ScanPass(job, q.st).ok {
      forall m | m in ScanPass(job, q.st).seen ensures Records(job, Scanned(job, q.st), m) {
        ScanRecords(job, q.st, m);
      }
      AfterScanHandsOver(job, q, n, Scanned(job, q.st), ScanPass(job, q.st).seen);
    }
  }

  /**
   * Main result on the hand-over: unless a scan request failed, every message that the last pass saw and that is
   * still on the server is indexed under its true date when the drain ends, failed deletes included, if and only
   * if that pass submitted nothing or its delete call found the client up. So the sweeps that follow try the
   * failed ones again, and what a call on a stopped client was given is forgotten.
   */
  lemma DrainHandsOver(job: Job, st: State)
    requires Descending(st.h) && job.ttl > 0
    ensures var (exit, q) := RunDrain(job, st);
            exit == ScanFailed || HandsOver(job, q)
  {
    var inv := (q: Progress, n: nat) => Descending(q.st.h) && HandsOver(job, q);
    var post := (e: Exit, q: Progress) => e == ScanFailed || HandsOver(job, q);
    forall q, n ensures Keeps(Turns(job), inv, post, q, n) {
      if Descending(q.st.h) && HandsOver(job, q) {
        TurnHandsOver(job, q, n);
      }
    }
    DrainInduction(job, st, inv, post);
  }
}
