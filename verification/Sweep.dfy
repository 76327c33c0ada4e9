/** The periodic sweep: which indexed messages one tick submits for deletion. */
module Sweep {
  import opened Wrappers
  import opened Telegram
  import ChatCfg
  import Chunks
  import Deletion
  import DrainCompletes
  import Index
  import Int64

  datatype Job = Job(marked: int, ids: seq<int>)

  /** The indexed ids of a chat that are at least its TTL old; none when the chat has no positive TTL. */
  function ExpiredIds(ix: Index.Index, cfg: ChatCfg.View, now: int, chat: int): set<int> {
    var ttl := ChatCfg.TtlOf(cfg, chat);
    var msgs := Index.Messages(ix, chat);
    set id | id in msgs && 0 < ttl && Int64.Aged(now, msgs[id], ttl)
  }

  ghost predicate JobOf(j: Job, ix: Index.Index, cfg: ChatCfg.View, now: int) {
    j.ids != [] && Distinct(j.ids) && IdSet(j.ids) == ExpiredIds(ix, cfg, now, j.marked)
  }

  /** One job for each chat with something expired, holding exactly its expired ids, each once. */
  ghost predicate IsSnapshot(jobs: seq<Job>, ix: Index.Index, cfg: ChatCfg.View, now: int) {
    && (forall i :: 0 <= i < |jobs| ==> JobOf(jobs[i], ix, cfg, now))
    && (forall i, j :: 0 <= i < j < |jobs| ==> jobs[i].marked != jobs[j].marked)
    && (forall chat :: ExpiredIds(ix, cfg, now, chat) != {} ==> exists i :: 0 <= i < |jobs| && jobs[i].marked == chat)
  }

  /** Old enough under the minutes stored for the chat. */
  ghost predicate OldInMinutes(ix: Index.Index, cfg: ChatCfg.View, now: int, chat: int, id: int) {
    && chat in ix && id in ix[chat] && chat in cfg && cfg[chat].ttlMinutes > 0
    && now - ix[chat][id] >= cfg[chat].ttlMinutes * 60_000_000_000
  }

  /** The jobs of a sweep in terms of stored minutes: for each chat one job with all that is old enough, or none. */
  ghost predicate InMinutes(jobs: seq<Job>, ix: Index.Index, cfg: ChatCfg.View, now: int) {
    && (forall n :: 0 <= n < |jobs| ==> jobs[n].marked in ix && jobs[n].marked in cfg && jobs[n].ids != [])
    && (forall n, id :: 0 <= n < |jobs| && 0 <= cfg[jobs[n].marked].ttlMinutes <= 153_722_867 ==>
                          (id in jobs[n].ids <==> OldInMinutes(ix, cfg, now, jobs[n].marked, id)))
    && (forall chat, id :: OldInMinutes(ix, cfg, now, chat, id) && cfg[chat].ttlMinutes <= 153_722_867 ==>
                             exists n :: 0 <= n < |jobs| && jobs[n].marked == chat && id in jobs[n].ids)
  }

  lemma ExpiredInMinutes(ix: Index.Index, cfg: ChatCfg.View, now: int, chat: int, id: int)
    requires chat in cfg ==> 0 <= cfg[chat].ttlMinutes <= 153_722_867
    ensures id in ExpiredIds(ix, cfg, now, chat) <==> OldInMinutes(ix, cfg, now, chat, id)
  {
    ChatCfg.TtlIsMinutes(cfg, chat);
    var msgs := Index.Messages(ix, chat);
    if id in msgs && ChatCfg.TtlOf(cfg, chat) > 0 {
      Int64.AgedIsTrueAge(now, msgs[id], ChatCfg.TtlOf(cfg, chat));
    }
  }

  lemma SnapshotInMinutes(jobs: seq<Job>, ix: Index.Index, cfg: ChatCfg.View, now: int)
    requires IsSnapshot(jobs, ix, cfg, now)
    ensures InMinutes(jobs, ix, cfg, now)
  {
    forall n | 0 <= n < |jobs| ensures jobs[n].marked in ix && jobs[n].marked in cfg && jobs[n].ids != [] {
      JobHasExpired(jobs[n], ix, cfg, now);
      NoMinutesNoJob(ix, cfg, now, jobs[n].marked);
    }
    forall n, id | 0 <= n < |jobs| && 0 <= cfg[jobs[n].marked].ttlMinutes <= 153_722_867
      ensures id in jobs[n].ids <==> OldInMinutes(ix, cfg, now, jobs[n].marked, id)
    {
      assert JobOf(jobs[n], ix, cfg, now);
      ExpiredInMinutes(ix, cfg, now, jobs[n].marked, id);
      assert id in jobs[n].ids <==> id in IdSet(jobs[n].ids);
    }
    forall chat, id | OldInMinutes(ix, cfg, now, chat, id) && cfg[chat].ttlMinutes <= 153_722_867
      ensures exists n :: 0 <= n < |jobs| && jobs[n].marked == chat && id in jobs[n].ids
    {
      ExpiredInMinutes(ix, cfg, now, chat, id);
      var n :| 0 <= n < |jobs| && jobs[n].marked == chat;
      assert id in jobs[n].ids;
    }
  }

  lemma NoMinutesNoJob(ix: Index.Index, cfg: ChatCfg.View, now: int, chat: int)
    requires ExpiredIds(ix, cfg, now, chat) != {}
    ensures chat in ix && chat in cfg
  {
    if chat !in cfg {
      ChatCfg.TtlIsMinutes(cfg, chat);
    }
  }

  /** The same while the chats in rest are still to be looked at. */
  ghost predicate CollectedSoFar(jobs: seq<Job>, ix: Index.Index, cfg: ChatCfg.View, now: int, rest: set<int>) {
    && (forall i :: 0 <= i < |jobs| ==> JobOf(jobs[i], ix, cfg, now) && jobs[i].marked !in rest)
    && (forall i, j :: 0 <= i < j < |jobs| ==> jobs[i].marked != jobs[j].marked)
    && (forall chat :: chat !in rest && ExpiredIds(ix, cfg, now, chat) != {} ==>
                         exists i :: 0 <= i < |jobs| && jobs[i].marked == chat)
  }

  lemma CollectOne(jobs: seq<Job>, ix: Index.Index, cfg: ChatCfg.View, now: int, rest: set<int>, j: Job)
    requires CollectedSoFar(jobs, ix, cfg, now, rest)
    requires JobOf(j, ix, cfg, now) && j.marked in rest
    ensures CollectedSoFar(jobs + [j], ix, cfg, now, rest - {j.marked})
  {
    var more := jobs + [j];
    forall chat | chat !in rest - {j.marked} && ExpiredIds(ix, cfg, now, chat) != {}
      ensures exists i :: 0 <= i < |more| && more[i].marked == chat
    {
      if chat == j.marked {
        assert more[|jobs|].marked == chat;
      } else {
        var i :| 0 <= i < |jobs| && jobs[i].marked == chat;
        assert more[i].marked == chat;
      }
    }
  }

  /** One chat as a sweep finds it: its indexed entries, its messages on the server and its counter. */
  datatype Chat = Chat(entries: map<int, int>, own: seq<Msg>, count: nat)

  /** What a sweep can touch: the server's histories, the index and the counters. */
  datatype World = World(history: map<int, seq<Msg>>, index: Index.Index, counts: map<int, nat>) {
    function Own(chat: int): seq<Msg> {
      if chat in history then history[chat] else []
    }

    function Of(chat: int): Chat {
      Chat(Index.Messages(index, chat), Own(chat), Deletion.Count(counts, chat))
    }
  }

  /**
   * A chat has lost some of the ids, and has counted the lost entries: the server lost the messages of exactly
   * the lost entries, or, when the client was not up throughout, all entries are lost and no message.
   */
  ghost predicate LosesOnly(c: Chat, d: Chat, ids: set<int>, up: bool) {
    var gone := c.entries.Keys - d.entries.Keys;
    && gone <= ids && d.entries == c.entries - gone && d.count == c.count + |gone|
    && (d.own == Remove(c.own, gone) || (!up && gone == ids && d.own == c.own))
  }

  /** A chat has lost all of the ids and their messages. */
  ghost predicate Loses(c: Chat, d: Chat, ids: set<int>) {
    d.entries == c.entries - ids && d.own == Remove(c.own, ids)
  }

  /** Between two moments of a sweep every chat loses nothing but what had expired at its start. */
  ghost predicate LosesOnlyExpired(w: World, x: World, cfg: ChatCfg.View, now: int, up: bool) {
    forall chat :: LosesOnlyIn(w, x, cfg, now, up, chat)
  }

  ghost predicate LosesOnlyIn(w: World, x: World, cfg: ChatCfg.View, now: int, up: bool, chat: int) {
    LosesOnly(w.Of(chat), x.Of(chat), ExpiredIds(w.index, cfg, now, chat), up)
  }

  /** Over a fully successful sweep every chat loses exactly what had expired. */
  ghost predicate LosesExpired(w: World, x: World, cfg: ChatCfg.View, now: int) {
    forall chat :: Loses(w.Of(chat), x.Of(chat), ExpiredIds(w.index, cfg, now, chat))
  }

  ghost predicate DoneUpTo(jobs: seq<Job>, k: nat, w: World, x: World)
    requires k <= |jobs|
  {
    forall i :: 0 <= i < k ==> Loses(w.Of(jobs[i].marked), x.Of(jobs[i].marked), IdSet(jobs[i].ids))
  }

  ghost predicate UntouchedFrom(jobs: seq<Job>, k: nat, w: World, x: World) {
    forall i :: k <= i < |jobs| ==> x.Of(jobs[i].marked) == w.Of(jobs[i].marked)
  }

  lemma JobHasExpired(j: Job, ix: Index.Index, cfg: ChatCfg.View, now: int)
    requires JobOf(j, ix, cfg, now)
    ensures ExpiredIds(ix, cfg, now, j.marked) != {}
  {
    assert j.ids[0] in IdSet(j.ids);
  }

  /** After a fully successful sweep nothing indexed is expired, so a sweep at the same instant submits nothing. */
  lemma SweepTwice(w: World, x: World, cfg: ChatCfg.View, now: int, jobs: seq<Job>)
    requires LosesExpired(w, x, cfg, now)
    requires IsSnapshot(jobs, x.index, cfg, now)
    ensures forall chat :: ExpiredIds(x.index, cfg, now, chat) == {}
    ensures jobs == []
  {
    forall chat ensures ExpiredIds(x.index, cfg, now, chat) == {} {
      assert Loses(w.Of(chat), x.Of(chat), ExpiredIds(w.index, cfg, now, chat));
    }
    if jobs != [] {
      JobHasExpired(jobs[0], x.index, cfg, now);
      assert false;
    }
  }

  // ---------------------------------------------------------------- what deleting the jobs does

  lemma NoLoss(c: Chat, ids: set<int>, up: bool)
    ensures LosesOnly(c, c, ids, up)
  {
    var none: set<int> := {};
    assert c.entries - none == c.entries && c.entries.Keys - c.entries.Keys == none;
    RemoveNothing(c.own);
  }

  lemma NothingLost(w: World, cfg: ChatCfg.View, now: int, up: bool)
    ensures LosesOnlyExpired(w, w, cfg, now, up)
  {
    forall chat ensures LosesOnlyIn(w, w, cfg, now, up, chat) {
      NoLoss(w.Of(chat), ExpiredIds(w.index, cfg, now, chat), up);
    }
  }

  /** Every delete call and every batch goes through. */
  ghost predicate DeletesWork(net: Net) {
    (forall n :: net.up(n)) && forall n, k :: net.chunkOk(n, k)
  }

  lemma {:induction false} WithoutKeepsDistinct(ids: seq<int>, bad: set<int>)
    requires Distinct(ids)
    ensures Distinct(Deletion.Without(ids, bad)) && IdSet(Deletion.Without(ids, bad)) <= IdSet(ids)
  {
    if ids != [] {
      var k := |ids| - 1;
      WithoutKeepsDistinct(ids[..k], bad);
      var kept := Deletion.Without(ids[..k], bad);
      assert ids[k] !in IdSet(ids[..k]);
      assert IdSet(ids) == IdSet(ids[..k]) + {ids[k]};
      assert forall i :: 0 <= i < |kept| ==> kept[i] in IdSet(ids[..k]);
    }
  }

  /** The messages a deletion takes off the server are among those submitted; all of them when all goes through. */
  lemma DeletedArePart(net: Net, call: nat, ids: seq<int>)
    ensures var d := DeleteIds(ids, net.up(call), ChunkOk(net, call));
            && IdSet(d.deleted) <= IdSet(ids)
            && (DeletesWork(net) ==> d.failed == [] && IdSet(d.deleted) == IdSet(ids))
  {
    var d := DeleteIds(ids, net.up(call), ChunkOk(net, call));
    if net.up(call) {
      DeletePartitions(ids, ChunkOk(net, call));
      forall x ensures x in d.failed || x in d.deleted <==> x in ids {
        assert multiset(ids)[x] == multiset(d.failed)[x] + multiset(d.deleted)[x];
        assert x in multiset(ids) <==> x in multiset(d.failed) || x in multiset(d.deleted);
      }
    }
    if DeletesWork(net) {
      DrainCompletes.NothingFails(Chunks.Split(ids, DELETE_BATCH), ChunkOk(net, call));
    }
  }

  /** What the index and the counter of a chat lose when the kept ids of a deletion are dropped. */
  lemma DroppedAreCounted(m: map<int, int>, ids: seq<int>, bad: set<int>)
    requires Distinct(ids) && IdSet(ids) <= m.Keys
    ensures var ok := Deletion.Without(ids, bad);
            && IdSet(ok) <= IdSet(ids) && m.Keys - (m - IdSet(ok)).Keys == IdSet(ok) && |IdSet(ok)| == |ok|
            && (bad == {} ==> ok == ids)
  {
    var ok := Deletion.Without(ids, bad);
    WithoutKeepsDistinct(ids, bad);
    Deletion.DistinctSize(ok);
    Deletion.WithoutAll(ids, bad);
    assert m.Keys - (m - IdSet(ok)).Keys == IdSet(ok);
  }

  /** One chat before or after a deletion. */
  function ChatOf(st: Deletion.State, chat: int): Chat {
    Chat(Index.Messages(st.index, chat), st.h, Deletion.Count(st.counts, chat))
  }

  lemma KnownChat(net: Net, g: Group, j: Job, st: Deletion.State)
    ensures var d := DeleteIds(j.ids, net.up(st.deletes), ChunkOk(net, st.deletes));
            var ok := Deletion.Without(j.ids, IdSet(d.failed));
            var c := ChatOf(st, j.marked);
            ChatOf(Deletion.DeleteKnown(net, g, j.marked, st, j.ids).0, j.marked)
            == Chat(c.entries - IdSet(ok), Remove(c.own, IdSet(d.deleted)), c.count + |ok|)
  {}

  /** What a deletion says to have failed and what it took off the server, with the client up or stopped. */
  ghost predicate Outcome(ids: seq<int>, failed: seq<int>, deleted: seq<int>, up: bool) {
    && IdSet(deleted) <= IdSet(ids)
    && if up then IdSet(Deletion.Without(ids, IdSet(failed))) == IdSet(deleted) else failed == deleted == []
  }

  lemma OutcomeOf(net: Net, call: nat, ids: seq<int>)
    requires Distinct(ids)
    ensures var d := DeleteIds(ids, net.up(call), ChunkOk(net, call)); Outcome(ids, d.failed, d.deleted, net.up(call))
  {
    DeletedArePart(net, call, ids);
    if net.up(call) {
      Deletion.DistinctAccounts(ids, ChunkOk(net, call));
    }
  }

  /** A known chat loses the entries whose batch did not fail. */
  lemma KnownLoses(c: Chat, d: Chat, ids: seq<int>, failed: seq<int>, deleted: seq<int>, up: bool)
    requires Distinct(ids) && IdSet(ids) <= c.entries.Keys && Outcome(ids, failed, deleted, up)
    requires var ok := Deletion.Without(ids, IdSet(failed));
             d == Chat(c.entries - IdSet(ok), Remove(c.own, IdSet(deleted)), c.count + |ok|)
    ensures LosesOnly(c, d, IdSet(ids), up)
    ensures d.entries == c.entries - (IdSet(ids) - IdSet(failed))
    ensures failed == [] && IdSet(deleted) == IdSet(ids) ==> Loses(c, d, IdSet(ids))
  {
    DroppedAreCounted(c.entries, ids, IdSet(failed));
    KeptSet(ids, IdSet(failed));
    if !up {
      RemoveNothing(c.own);
      assert IdSet(deleted) == {} && IdSet(failed) == {};
    }
  }

  lemma KeptSet(ids: seq<int>, bad: set<int>)
    ensures IdSet(Deletion.Without(ids, bad)) == IdSet(ids) - bad
  {
    var ok := Deletion.Without(ids, bad);
    forall x ensures x in ok <==> x in ids && x !in bad {
      Deletion.WithoutCounts(ids, bad, x);
      assert x in ok <==> multiset(ok)[x] > 0;
      assert x in ids <==> multiset(ids)[x] > 0;
    }
  }

  /** One job's deletion leaves the entries and the counter of another chat alone. */
  lemma DeletionSpares(net: Net, group: Option<Group>, j: Job, st: Deletion.State, c: int)
    requires c != j.marked
    ensures var after := Deletion.DeleteOrSkip(net, group, j.marked, st, j.ids).0;
            && Index.Messages(after.index, c) == Index.Messages(st.index, c)
            && Deletion.Count(after.counts, c) == Deletion.Count(st.counts, c)
  {}

  /** The ids whose batch failed when a job is deleted. */
  function FailedIn(net: Net, call: nat, j: Job): set<int> {
    IdSet(DeleteIds(j.ids, net.up(call), ChunkOk(net, call)).failed)
  }

  /** One job's deletion: its chat, when known, loses the entries whose batch did not fail. */
  lemma DeletionLoses(net: Net, group: Option<Group>, j: Job, st: Deletion.State)
    requires j.ids != [] && Distinct(j.ids) && IdSet(j.ids) <= Index.Messages(st.index, j.marked).Keys
    ensures var c := ChatOf(st, j.marked);
            var d := ChatOf(Deletion.DeleteOrSkip(net, group, j.marked, st, j.ids).0, j.marked);
            && LosesOnly(c, d, IdSet(j.ids), net.up(st.deletes))
            && (group.Some? ==> d.entries == c.entries - (IdSet(j.ids) - FailedIn(net, st.deletes, j)))
            && (group.Some? && DeletesWork(net) ==> Loses(c, d, IdSet(j.ids)))
  {
    var c := ChatOf(st, j.marked);
    if group.None? {
      NoLoss(c, IdSet(j.ids), net.up(st.deletes));
    } else {
      var d := DeleteIds(j.ids, net.up(st.deletes), ChunkOk(net, st.deletes));
      DeletedArePart(net, st.deletes, j.ids);
      OutcomeOf(net, st.deletes, j.ids);
      var after := Deletion.DeleteKnown(net, group.value, j.marked, st, j.ids).0;
      KnownChat(net, group.value, j, st);
      KnownLoses(c, ChatOf(after, j.marked), j.ids, d.failed, d.deleted, net.up(st.deletes));
    }
  }

  lemma JobEffect(net: Net, group: Option<Group>, j: Job, st: Deletion.State, w: World, x: World)
    requires j.ids != [] && Distinct(j.ids) && IdSet(j.ids) <= w.Of(j.marked).entries.Keys
    requires st.h == w.Own(j.marked) && st.index == w.index && st.counts == w.counts
    requires var after := Deletion.DeleteOrSkip(net, group, j.marked, st, j.ids).0;
             x.Own(j.marked) == after.h && x.index == after.index && x.counts == after.counts
    requires forall c :: c != j.marked ==> x.Own(c) == w.Own(c)
    ensures LosesOnly(w.Of(j.marked), x.Of(j.marked), IdSet(j.ids), net.up(st.deletes))
    ensures forall c :: c != j.marked ==> x.Of(c) == w.Of(c)
    ensures group.Some? ==>
              x.Of(j.marked).entries == w.Of(j.marked).entries - (IdSet(j.ids) - FailedIn(net, st.deletes, j))
    ensures group.Some? && DeletesWork(net) ==> Loses(w.Of(j.marked), x.Of(j.marked), IdSet(j.ids))
  {
    DeletionLoses(net, group, j, st);
    forall c | c != j.marked ensures x.Of(c) == w.Of(c) {
      DeletionSpares(net, group, j, st, c);
    }
  }

  lemma JobIsIndexed(w: World, at: World, cfg: ChatCfg.View, now: int, jobs: seq<Job>, k: nat)
    requires k < |jobs| && IsSnapshot(jobs, w.index, cfg, now) && UntouchedFrom(jobs, k, w, at)
    ensures var j := jobs[k];
            j.ids != [] && Distinct(j.ids) && IdSet(j.ids) <= Index.Messages(at.index, j.marked).Keys
  {
    assert JobOf(jobs[k], w.index, cfg, now) && at.Of(jobs[k].marked) == w.Of(jobs[k].marked);
  }

  /** One more job done: its chat was still untouched, and it now has lost only what had expired. */
  lemma JobDone(w: World, at: World, x: World, cfg: ChatCfg.View, now: int, up: bool, jobs: seq<Job>, k: nat)
    requires k < |jobs| && IsSnapshot(jobs, w.index, cfg, now) && LosesOnlyExpired(w, at, cfg, now, up)
    requires UntouchedFrom(jobs, k, w, at)
    requires var c := jobs[k].marked;
             && LosesOnly(at.Of(c), x.Of(c), IdSet(jobs[k].ids), up)
             && forall o :: o != c ==> x.Of(o) == at.Of(o)
    ensures LosesOnlyExpired(w, x, cfg, now, up)
  {
    assert JobOf(jobs[k], w.index, cfg, now);
    forall chat ensures LosesOnlyIn(w, x, cfg, now, up, chat) {
      assert LosesOnlyIn(w, at, cfg, now, up, chat);
    }
  }

  /** The chats of the jobs before and behind it are as they were. */
  lemma OthersStay(w: World, at: World, x: World, jobs: seq<Job>, k: nat)
    requires k < |jobs| && forall i, j :: 0 <= i < j < |jobs| ==> jobs[i].marked != jobs[j].marked
    requires UntouchedFrom(jobs, k, w, at) && forall o :: o != jobs[k].marked ==> x.Of(o) == at.Of(o)
    ensures UntouchedFrom(jobs, k + 1, w, x)
    ensures DoneUpTo(jobs, k, w, at) && Loses(w.Of(jobs[k].marked), x.Of(jobs[k].marked), IdSet(jobs[k].ids)) ==>
              DoneUpTo(jobs, k + 1, w, x)
  {
    forall i | 0 <= i < |jobs| && i != k ensures x.Of(jobs[i].marked) == at.Of(jobs[i].marked) {
      assert jobs[i].marked != jobs[k].marked;
    }
  }

  /** The chat of every job is a known group. */
  ghost predicate AllKnown(jobs: seq<Job>, groups: map<int, Group>) {
    forall i :: 0 <= i < |jobs| ==> jobs[i].marked in groups
  }

  lemma ExpiredAreKnown(jobs: seq<Job>, ix: Index.Index, cfg: ChatCfg.View, now: int, groups: map<int, Group>)
    requires IsSnapshot(jobs, ix, cfg, now)
    requires forall chat :: ExpiredIds(ix, cfg, now, chat) != {} ==> chat in groups
    ensures AllKnown(jobs, groups)
  {
    forall i | 0 <= i < |jobs| ensures jobs[i].marked in groups {
      JobHasExpired(jobs[i], ix, cfg, now);
    }
  }

  lemma AllLost(jobs: seq<Job>, w: World, x: World, cfg: ChatCfg.View, now: int, up: bool)
    requires IsSnapshot(jobs, w.index, cfg, now) && LosesOnlyExpired(w, x, cfg, now, up)
    requires DoneUpTo(jobs, |jobs|, w, x)
    ensures LosesExpired(w, x, cfg, now)
  {
    forall chat ensures Loses(w.Of(chat), x.Of(chat), ExpiredIds(w.index, cfg, now, chat)) {
      assert LosesOnlyIn(w, x, cfg, now, up, chat);
      if ExpiredIds(w.index, cfg, now, chat) != {} {
        var i :| 0 <= i < |jobs| && jobs[i].marked == chat;
        assert JobOf(jobs[i], w.index, cfg, now);
      } else {
        LosesNone(w.Of(chat), x.Of(chat), up);
      }
    }
  }

  lemma LosesNone(c: Chat, d: Chat, up: bool)
    requires LosesOnly(c, d, {}, up)
    ensures Loses(c, d, {})
  {
    var gone := c.entries.Keys - d.entries.Keys;
    assert gone == {};
    RemoveNothing(c.own);
  }
}
