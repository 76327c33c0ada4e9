/** The cleaner object: its index, counters and active set, and the operations that update them. */
module Cleaner {
  import opened Wrappers
  import opened Telegram
  import opened Deletion
  import opened Drain
  import ChatCfg
  import DrainTrace
  import Index
  import Int64
  import Reconcile
  import Sorting
  import Sweep

  /** Drops the failed ids from a list of ids. */
  method KeepGood(ids: seq<int>, failed: seq<int>) returns (ok: seq<int>)
    ensures ok == Without(ids, IdSet(failed))
  {
    var failedSet: set<int> := {};
    for i := 0 to |failed|
      invariant failedSet == IdSet(failed[..i])
    {
      failedSet := failedSet + {failed[i]};
    }
    assert failed[..|failed|] == failed && ids[..0] == [];
    ok := [];
    for i := 0 to |ids|
      invariant ok == Without(ids[..i], IdSet(failed))
    {
      assert ids[..i + 1][..i] == ids[..i];
      if ids[i] !in failedSet {
        ok := ok + [ids[i]];
      }
    }
    assert ids[..|ids|] == ids;
  }

  /** Collects links until the limit is reached. */
  method CollectLinks(g: Group, ids: seq<int>) returns (links: seq<string>)
    ensures links == LinksOf(g, ids)
  {
    links := [];
    assert ids[..0] == [];
    for i := 0 to |ids|
      invariant links == LinksOf(g, ids[..i])
    {
      if |links| >= LINK_LIMIT {
        FullLinksStay(g, ids, i);
        break;
      }
      assert ids[..i + 1][..i] == ids[..i];
      var link := MessageLink(g, ids[i]);
      if link != "" {
        links := links + [link];
      }
    }
    assert ids[..|ids|] == ids;
  }

  lemma {:induction false} FullLinksStay(g: Group, ids: seq<int>, i: nat)
    requires i <= |ids| && |LinksOf(g, ids[..i])| == LINK_LIMIT
    ensures LinksOf(g, ids) == LinksOf(g, ids[..i])
    decreases |ids|
  {
    if i == |ids| {
      assert ids[..i] == ids;
    } else {
      assert ids[..|ids| - 1][..i] == ids[..i];
      FullLinksStay(g, ids[..|ids| - 1], i);
    }
  }

  /** Adds a pass's report to the running one, link by link until the limit. */
  method MergeReport(dst: Report, src: Report) returns (merged: Report)
    ensures merged == Merge(dst, src)
  {
    var links := dst.links;
    for i := 0 to |src.links|
      invariant links == dst.links + src.links[..i]
      invariant i > 0 ==> |dst.links| + i <= LINK_LIMIT
    {
      if |links| >= LINK_LIMIT {
        assert links == Merge(dst, src).links;
        return Report(dst.title, dst.deleted + src.deleted, dst.failed + src.failed, links);
      }
      links := links + [src.links[i]];
    }
    assert src.links[..|src.links|] == src.links;
    merged := Report(dst.title, dst.deleted + src.deleted, dst.failed + src.failed, links);
  }

  /** The marked ids of a dialog listing. */
  method PresentIn(listed: seq<Group>) returns (present: set<int>)
    ensures present == Reconcile.Present(listed)
  {
    present := {};
    for i := 0 to |listed|
      invariant present == Reconcile.Present(listed[..i])
    {
      assert listed[..i + 1] == listed[..i] + [listed[i]];
      present := present + {listed[i].markedID};
    }
    assert listed[..|listed|] == listed;
  }

  datatype Changes = Changes(lost: seq<string>, rejoined: seq<string>)

  class Cleaner {
    const tg: Client
    var index: Index.Index
    var deleted: map<int, nat>
    var active: set<int>

    constructor (tg: Client)
      ensures this.tg == tg && index == map[] && deleted == map[] && active == {}
    {
      this.tg := tg;
      index, deleted, active := map[], map[], {};
    }

    /** What a deletion in the given chat can touch. */
    ghost function StateOf(chat: int): State
      reads this, tg
    {
      State(tg.Own(chat), index, deleted, tg.searches, tg.deletes)
    }

    // -------------------------------------------------------------- the index

    method IndexMessage(chat: int, id: int, sent: int)
      modifies this`index
      ensures index == Index.Put(old(index), chat, id, sent)
    {
      if chat !in index {
        index := index[chat := map[]];
      }
      index := index[chat := index[chat][id := sent]];
    }

    method RemoveLocked(chat: int, ids: seq<int>)
      modifies this`index
      ensures index == Index.RemoveIds(old(index), chat, IdSet(ids))
    {
      if chat !in index {
        return;
      }
      ghost var m := index[chat];
      MinusNothing(m);
      for i := 0 to |ids|
        invariant chat in index && index == old(index)[chat := m - IdSet(ids[..i])]
      {
        MinusOneMore(m, ids, i);
        index := index[chat := index[chat] - {ids[i]}];
      }
      assert ids[..|ids|] == ids;
      if index[chat] == map[] {
        index := index - {chat};
      }
    }

    /** A delete update: for one chat, or for the common message box when the chat id is zero. */
    method OnDeleted(chat: int, ids: seq<int>)
      modifies this`index
      ensures index == Index.Step(old(index), Index.Deleted(chat, IdSet(ids)))
    {
      if chat != 0 {
        RemoveLocked(chat, ids);
        return;
      }
      ghost var goal := Index.RemoveCommon(index, IdSet(ids));
      var rest := index.Keys;
      while rest != {}
        invariant rest <= old(index).Keys
        invariant forall c :: c in rest ==> c in index && index[c] == old(index)[c]
        invariant forall c :: c !in rest ==> (c in index <==> c in goal) && (c in index ==> index[c] == goal[c])
      {
        var marked := AnyOf(rest);
        rest := rest - {marked};
        if MarksChannel(marked) {
          continue;
        }
        RemoveLocked(marked, ids);
      }
      forall c ensures c in index <==> c in goal {
        assert c !in rest;
      }
      assert index == goal;
    }

    /** A message that matches a pattern is to be deleted at once; otherwise it is indexed if the chat has a TTL. */
    method OnOwnMessage(cfg: ChatCfg.View, chat: int, id: int, sent: int, text: string) returns (instant: bool)
      modifies this`index
      ensures instant <==> ChatCfg.Matches(ChatCfg.SettingsOf(cfg, chat).patterns, text)
      ensures index == if !instant && ChatCfg.SettingsOf(cfg, chat).ttlMinutes > 0
                       then Index.Put(old(index), chat, id, sent) else old(index)
    {
      var settings := ChatCfg.SettingsOf(cfg, chat);
      instant := ChatCfg.MatchLoop(settings.patterns, text);
      if instant {
        return;
      }
      if settings.ttlMinutes <= 0 {
        return;
      }
      IndexMessage(chat, id, sent);
    }

    method MarkActive(chat: int)
      modifies this`active
      ensures active == old(active) + {chat} == Reconcile.Step(old(active), Reconcile.Marked(chat))
    {
      active := active + {chat};
    }

    method DisableChat(chat: int)
      modifies this`index, this`active
      ensures index == old(index) - {chat} == Index.Step(old(index), Index.Disabled(chat))
      ensures active == old(active) - {chat} == Reconcile.Step(old(active), Reconcile.Disabled(chat))
    {
      index := index - {chat};
      active := active - {chat};
    }

    method Reset()
      modifies this
      ensures index == map[] && deleted == map[] && active == {} == Reconcile.Step(old(active), Reconcile.Reset)
      ensures forall chat :: Count(deleted, chat) == 0
    {
      index, deleted, active := map[], map[], {};
    }

    // -------------------------------------------------------------- groups and the start-up scan

    /** The cached group, or the one a single refresh of the cache brings in. */
    method ResolveGroup(chat: int, listing: Option<seq<Group>>) returns (g: Option<Group>)
      modifies tg`groups
      ensures tg.groups == LookedUp(old(tg.groups), chat, listing)
      ensures g == if chat in tg.groups then Some(tg.groups[chat]) else None
      ensures chat in old(tg.groups) ==> tg.groups == old(tg.groups)
      ensures chat !in old(tg.groups) ==>
                (g.Some? <==> listing.Some? && exists l :: l in listing.value && l.markedID == chat)
    {
      LooksUpOnce(tg.groups, chat, listing);
      if chat in tg.groups {
        return Some(tg.groups[chat]);
      }
      var listed := tg.ResolveGroups(listing);
      if listed.None? {
        return None;
      }
      g := if chat in tg.groups then Some(tg.groups[chat]) else None;
    }

    method IndexAll(chat: int, seen: seq<Msg>)
      modifies this`index
      ensures index == Index.PutAll(old(index), chat, seen)
    {
      assert seen[..0] == [];
      for i := 0 to |seen|
        invariant index == Index.PutAll(old(index), chat, seen[..i])
      {
        assert seen[..i + 1][..i] == seen[..i];
        IndexMessage(chat, seen[i].id, seen[i].sent);
      }
      assert seen[..|seen|] == seen;
    }

    /** The start-up scan: the chat becomes active and everything the walk delivers is indexed. */
    method EnableChat(chat: int, listing: Option<seq<Group>>) returns (ok: bool)
      modifies this`index, this`active, tg`groups, tg`searches
      ensures tg.groups == LookedUp(old(tg.groups), chat, listing)
      ensures chat !in tg.groups ==>
                !ok && index == old(index) && active == old(active) && tg.searches == old(tg.searches)
      ensures chat in tg.groups ==>
                && active == old(active) + {chat}
                && var scan := ScanFrom(Window(tg.Own(chat), tg.window), 0, tg.net.searchOk, old(tg.searches));
                   && ok == scan.ok && index == Index.PutAll(old(index), chat, scan.seen) && tg.searches == scan.next
                   && (Descending(tg.Own(chat)) ==>
                         && scan.seen <= Walk(Window(tg.Own(chat), tg.window), 0)
                         && Index.Adds(old(index), index, chat, scan.seen))
    {
      var g := ResolveGroup(chat, listing);
      if g.None? {
        return false;
      }
      MarkActive(chat);
      var seen;
      ghost var n := tg.searches;
      seen, ok := tg.ScanOwn(chat);
      if Descending(tg.Own(chat)) {
        WindowIsPrefix(tg.Own(chat), tg.window);
        ScanIsWalk(Window(tg.Own(chat), tg.window), tg.net.searchOk, n);
        SeenIsPartOfWindow(tg.Own(chat), tg.window, seen);
        Index.ScanAdds(index, chat, seen);
      }
      IndexAll(chat, seen);
    }

    // -------------------------------------------------------------- deleting

    ghost function GroupOf(chat: int): Option<Group>
      reads tg
    {
      if chat in tg.groups then Some(tg.groups[chat]) else None
    }

    method DeleteIDs(chat: int, ids: seq<int>) returns (rep: Report)
      modifies this`index, this`deleted, tg`history, tg`deletes
      ensures (StateOf(chat), rep) == DeleteOrSkip(tg.net, GroupOf(chat), chat, old(StateOf(chat)), ids)
      ensures ids == [] || chat !in tg.groups ==>
                && StateOf(chat) == old(StateOf(chat))
                && rep == Report(if chat in tg.groups then tg.groups[chat].title else "", 0, 0, [])
      ensures forall c :: c != chat ==> tg.Own(c) == old(tg.Own(c))
    {
      if chat !in tg.groups {
        return Report("", 0, 0, []);
      }
      var g := tg.groups[chat];
      if ids == [] {
        return Report(g.title, 0, 0, []);
      }
      var failed, err := tg.Delete(chat, ids);
      var ok := KeepGood(ids, failed);
      RemoveLocked(chat, ok);
      deleted := deleted[chat := Count(deleted, chat) + |ok|];
      var links := CollectLinks(g, Sorting.SortInts(failed));
      rep := Report(g.title, |ok|, |failed|, links);
    }

    // -------------------------------------------------------------- draining

    /** The scan callback of a drain pass: index, track the oldest id, collect what has expired. */
    method ScanCallbacks(chat: int, seen: seq<Msg>, now: int, ttl: int) returns (oldest: int, expired: seq<int>)
      modifies this`index
      ensures index == Index.PutAll(old(index), chat, seen)
      ensures oldest == MinId(seen) && expired == Expired(seen, now, ttl)
    {
      oldest, expired := 0, [];
      assert seen[..0] == [];
      for i := 0 to |seen|
        invariant index == Index.PutAll(old(index), chat, seen[..i])
        invariant oldest == MinId(seen[..i]) && expired == Expired(seen[..i], now, ttl)
      {
        var m := seen[i];
        assert seen[..i + 1][..i] == seen[..i];
        IndexMessage(chat, m.id, m.sent);
        if oldest == 0 || m.id < oldest {
          oldest := m.id;
        }
        if Int64.Aged(now, m.sent, ttl) {
          expired := expired + [m.id];
        }
      }
      assert seen[..|seen|] == seen;
    }

    ghost function ProgressOf(chat: int, rep: Report, passes: seq<Pass>, oldest: int): Progress
      reads this, tg
    {
      Progress(StateOf(chat), rep, passes, oldest)
    }

    /** One pass of a drain of a known group; it names the exit when the drain ends here. */
    method DrainPass(g: Group, chat: int, ttl: int, clock: nat -> int, ctxOk: nat -> bool, pass: nat, rep: Report,
                     prevOldest: int, ghost passes: seq<Pass>)
      returns (exit: Option<Exit>, merged: Report, oldest: int, ghost done: seq<Pass>)
      requires chat in tg.groups && tg.groups[chat] == g
      modifies this`index, this`deleted, tg`searches, tg`history, tg`deletes
      ensures var job := Drain.Job(Env(tg.net, tg.window, clock, ctxOk), g, chat, ttl);
              var turn := TakeTurn(job, old(ProgressOf(chat, rep, passes, prevOldest)), pass);
              && (exit.None? <==> turn.Next?) && (exit.Some? ==> exit.value == turn.exit)
              && turn.at.st == StateOf(chat) && turn.at.rep == merged && turn.at.passes == done
              && (exit.None? ==> turn.at.oldest == oldest)
      ensures forall c :: c != chat ==> tg.Own(c) == old(tg.Own(c))
    {
      ghost var before := StateOf(chat);
      ghost var job := Drain.Job(Env(tg.net, tg.window, clock, ctxOk), g, chat, ttl);
      merged, oldest, done := rep, prevOldest, passes;
      if !ctxOk(2 * pass) {
        return Some(Cancelled), merged, oldest, done;
      }
      var now := clock(pass);
      var seen, ok := tg.ScanOwn(chat);
      var expired;
      oldest, expired := ScanCallbacks(chat, seen, now, ttl);
      ghost var scanned := StateOf(chat);
      assert scanned == Scanned(job, before) && ScanPass(job, before).seen == seen && ScanPass(job, before).ok == ok;
      if !ok {
        return Some(ScanFailed), merged, oldest, done;
      }
      exit, merged, oldest, done := DrainRest(g, chat, ttl, now, ctxOk(2 * pass + 1), rep, prevOldest, oldest, expired,
                                              before.h, seen, passes);
    }

    /** The part of a pass that follows its scan: delete what has expired and apply the stopping rules. */
    method DrainRest(g: Group, chat: int, ttl: int, now: int, live: bool, rep: Report, prevOldest: int, oldest: int,
                     expired: seq<int>, ghost h: seq<Msg>, ghost seen: seq<Msg>, ghost passes: seq<Pass>)
      returns (exit: Option<Exit>, merged: Report, newOldest: int, ghost done: seq<Pass>)
      requires chat in tg.groups && tg.groups[chat] == g
      requires oldest == MinId(seen) && expired == Expired(seen, now, ttl)
      modifies this`index, this`deleted, tg`history, tg`deletes
      ensures newOldest == oldest
      ensures expired == [] ==>
                && exit == Some(Complete) && merged == rep && done == passes + [Pass(h, now, seen, [], [])]
                && StateOf(chat) == old(StateOf(chat))
      ensures expired != [] ==>
                var (after, pr) := DeleteKnown(tg.net, g, chat, old(StateOf(chat)), expired);
                && StateOf(chat) == after && merged == Merge(rep, pr)
                && done == passes + [Pass(h, now, seen, expired,
                                          DeleteIds(expired, tg.net.up(old(tg.deletes)),
                                                    ChunkOk(tg.net, old(tg.deletes))).failed)]
                && exit == if pr.deleted == 0 then Some(NothingDeleted)
                           else if prevOldest != 0 && oldest >= prevOldest then Some(NotReceding)
                           else if !live then Some(Cancelled) else None
      ensures forall c :: c != chat ==> tg.Own(c) == old(tg.Own(c))
    {
      merged, newOldest := rep, oldest;
      if |expired| == 0 {
        done := passes + [Pass(h, now, seen, [], [])];
        return Some(Complete), merged, newOldest, done;
      }
      done := passes + [Pass(h, now, seen, expired,
                             DeleteIds(expired, tg.net.up(tg.deletes), ChunkOk(tg.net, tg.deletes)).failed)];
      var pr := DeleteIDs(chat, expired);
      merged := MergeReport(rep, pr);
      if pr.deleted == 0 {
        return Some(NothingDeleted), merged, newOldest, done;
      }
      if prevOldest != 0 && oldest >= prevOldest {
        return Some(NotReceding), merged, newOldest, done;
      }
      if !live {
        return Some(Cancelled), merged, newOldest, done;
      }
      exit := None;
    }

    /** The whole drain of one chat: none for an unknown group, and one without work for a chat without a TTL. */
    method DrainChat(cfg: ChatCfg.View, chat: int, listing: Option<seq<Group>>, clock: nat -> int, ctxOk: nat -> bool)
      returns (rep: Report, exit: Option<Exit>)
      modifies this, tg`groups, tg`searches, tg`history, tg`deletes
      ensures tg.groups == LookedUp(old(tg.groups), chat, listing)
      ensures exit.Some? <==> chat in tg.groups
      ensures chat !in tg.groups ==>
                StateOf(chat) == old(StateOf(chat)) && active == old(active) && rep == Report("", 0, 0, [])
      ensures chat in tg.groups ==>
                var ttl := ChatCfg.TtlOf(cfg, chat);
                var job := Drain.Job(Env(tg.net, tg.window, clock, ctxOk), tg.groups[chat], chat, ttl);
                var (e, q) := RunDrain(job, old(StateOf(chat)));
                && exit == Some(e) && rep == q.rep && StateOf(chat) == q.st
                && active == (if ttl > 0 then old(active) + {chat} else old(active))
                && DrainTrace.Follows(job, old(StateOf(chat)), if chat in cfg then cfg[chat].ttlMinutes else 0, e, q)
      ensures chat in tg.groups && (chat in cfg ==> 0 <= cfg[chat].ttlMinutes <= 153_722_867) ==>
                active == if chat in cfg && cfg[chat].ttlMinutes > 0 then old(active) + {chat} else old(active)
      ensures forall c :: c != chat ==> tg.Own(c) == old(tg.Own(c))
    {
      var found := ResolveGroup(chat, listing);
      if found.None? {
        return Report("", 0, 0, []), None;
      }
      var g := found.value;
      rep := Report(g.title, 0, 0, []);
      var ttl := ChatCfg.TtlOf(cfg, chat);
      ghost var job := Drain.Job(Env(tg.net, tg.window, clock, ctxOk), g, chat, ttl);
      DrainTrace.DrainFollows(job, StateOf(chat), cfg);
      if ttl <= 0 {
        return rep, Some(Complete);
      }
      MarkActive(chat);
      var e: Exit;
      rep, e := DrainLoop(g, chat, ttl, clock, ctxOk, job, RunDrain(job, StateOf(chat)));
      exit := Some(e);
    }

    /** The pass loop under its ceiling. */
    method DrainLoop(g: Group, chat: int, ttl: int, clock: nat -> int, ctxOk: nat -> bool, ghost job: Drain.Job,
                     ghost whole: (Exit, Progress))
      returns (rep: Report, exit: Exit)
      requires chat in tg.groups && tg.groups[chat] == g
      requires job == Drain.Job(Env(tg.net, tg.window, clock, ctxOk), g, chat, ttl)
      requires whole == Loop(Turns(job), Start(job, StateOf(chat)), 1)
      modifies this`index, this`deleted, tg`searches, tg`history, tg`deletes
      ensures exit == whole.0 && rep == whole.1.rep && StateOf(chat) == whole.1.st
      ensures forall c :: c != chat ==> tg.Own(c) == old(tg.Own(c))
    {
      ghost var passes: seq<Pass> := [];
      rep := Report(g.title, 0, 0, []);
      var prevOldest := 0;
      var pass := 1;
      while pass <= MAX_PASSES
        invariant 1 <= pass <= MAX_PASSES + 1
        invariant whole == Loop(Turns(job), ProgressOf(chat, rep, passes, prevOldest), pass)
        invariant forall c :: c != chat ==> tg.Own(c) == old(tg.Own(c))
      {
        var stop: Option<Exit>;
        stop, rep, prevOldest, passes :=
          DrainTurn(g, chat, ttl, clock, ctxOk, pass, rep, prevOldest, passes, job, whole);
        if stop.Some? {
          return rep, stop.value;
        }
        pass := pass + 1;
      }
      exit := PassCeiling;
    }

    /** One round of the pass loop, which stays on its way to the given outcome. */
    method DrainTurn(g: Group, chat: int, ttl: int, clock: nat -> int, ctxOk: nat -> bool, pass: nat, rep: Report,
                     prevOldest: int, ghost passes: seq<Pass>, ghost job: Drain.Job, ghost whole: (Exit, Progress))
      returns (exit: Option<Exit>, merged: Report, oldest: int, ghost done: seq<Pass>)
      requires chat in tg.groups && tg.groups[chat] == g && 1 <= pass <= MAX_PASSES
      requires job == Drain.Job(Env(tg.net, tg.window, clock, ctxOk), g, chat, ttl)
      requires whole == Loop(Turns(job), ProgressOf(chat, rep, passes, prevOldest), pass)
      modifies this`index, this`deleted, tg`searches, tg`history, tg`deletes
      ensures exit.None? ==> whole == Loop(Turns(job), ProgressOf(chat, merged, done, oldest), pass + 1)
      ensures exit.Some? ==> whole.0 == exit.value && whole.1.rep == merged && whole.1.st == StateOf(chat)
      ensures forall c :: c != chat ==> tg.Own(c) == old(tg.Own(c))
    {
      LoopUnfolds(Turns(job), ProgressOf(chat, rep, passes, prevOldest), pass);
      exit, merged, oldest, done := DrainPass(g, chat, ttl, clock, ctxOk, pass, rep, prevOldest, passes);
    }

    // -------------------------------------------------------------- sweeping

    /** The ids of one chat's map that are at least ttl old, in whatever order the map gives them. */
    method CollectExpired(msgs: map<int, int>, now: int, ttl: int) returns (expired: seq<int>)
      ensures Distinct(expired)
      ensures IdSet(expired) == set id | id in msgs && Int64.Aged(now, msgs[id], ttl)
    {
      expired := [];
      var rest := msgs.Keys;
      while rest != {}
        invariant rest <= msgs.Keys && Distinct(expired)
        invariant IdSet(expired) == set id | id in msgs && id !in rest && Int64.Aged(now, msgs[id], ttl)
      {
        var id := AnyOf(rest);
        assert id !in IdSet(expired);
        rest := rest - {id};
        if Int64.Aged(now, msgs[id], ttl) {
          ghost var was := expired;
          expired := expired + [id];
          assert IdSet(expired) == IdSet(was) + {id};
        }
      }
    }

    /** The jobs of one sweep, taken from the index as it is now. */
    method Snapshot(cfg: ChatCfg.View, now: int) returns (jobs: seq<Sweep.Job>)
      ensures Sweep.IsSnapshot(jobs, index, cfg, now)
    {
      jobs := [];
      var rest := index.Keys;
      while rest != {}
        invariant rest <= index.Keys && Sweep.CollectedSoFar(jobs, index, cfg, now, rest)
      {
        var marked := AnyOf(rest);
        var ttl := ChatCfg.TtlOf(cfg, marked);
        if ttl <= 0 {
          assert Sweep.ExpiredIds(index, cfg, now, marked) == {};
          rest := rest - {marked};
          continue;
        }
        var expired := CollectExpired(index[marked], now, ttl);
        assert IdSet(expired) == Sweep.ExpiredIds(index, cfg, now, marked);
        if |expired| > 0 {
          Sweep.CollectOne(jobs, index, cfg, now, rest, Sweep.Job(marked, expired));
          jobs := jobs + [Sweep.Job(marked, expired)];
        }
        rest := rest - {marked};
      }
    }

    /** What a sweep can touch. */
    ghost function World(): Sweep.World
      reads this, tg
    {
      Sweep.World(tg.history, index, deleted)
    }

    /** Every chat with something expired is a known group. */
    ghost predicate KnowsExpired(cfg: ChatCfg.View, now: int)
      reads this, tg
    {
      forall chat :: Sweep.ExpiredIds(index, cfg, now, chat) != {} ==> chat in tg.groups
    }

    /** Hands one job of a sweep to deletion. */
    method SweepJob(j: Sweep.Job)
      requires j.ids != [] && Distinct(j.ids) && IdSet(j.ids) <= Index.Messages(index, j.marked).Keys
      modifies this`index, this`deleted, tg`history, tg`deletes
      ensures Sweep.LosesOnly(old(World().Of(j.marked)), World().Of(j.marked), IdSet(j.ids), tg.net.up(old(tg.deletes)))
      ensures j.marked in tg.groups ==>
                World().Of(j.marked).entries
                == old(World().Of(j.marked)).entries - (IdSet(j.ids) - Sweep.FailedIn(tg.net, old(tg.deletes), j))
      ensures forall c :: c != j.marked ==> World().Of(c) == old(World().Of(c))
      ensures j.marked in tg.groups && Sweep.DeletesWork(tg.net) ==>
                Sweep.Loses(old(World().Of(j.marked)), World().Of(j.marked), IdSet(j.ids))
    {
      ghost var w, st := World(), StateOf(j.marked);
      var rep := DeleteIDs(j.marked, j.ids);
      forall c | c != j.marked ensures World().Own(c) == w.Own(c) {
        assert tg.Own(c) == old(tg.Own(c));
      }
      Sweep.JobEffect(tg.net, GroupOf(j.marked), j, st, w, World());
    }

    /** One round of the sweep's loop. */
    method SweepNext(jobs: seq<Sweep.Job>, k: nat, ghost w: Sweep.World, ghost cfg: ChatCfg.View, ghost now: int)
      requires k < |jobs| && Sweep.IsSnapshot(jobs, w.index, cfg, now)
      requires Sweep.LosesOnlyExpired(w, World(), cfg, now, AlwaysUp(tg.net))
      requires Sweep.UntouchedFrom(jobs, k, w, World())
      modifies this`index, this`deleted, tg`history, tg`deletes
      ensures Sweep.LosesOnlyExpired(w, World(), cfg, now, AlwaysUp(tg.net))
      ensures Sweep.UntouchedFrom(jobs, k + 1, w, World())
      ensures jobs[k].marked in tg.groups && Sweep.DeletesWork(tg.net) && Sweep.DoneUpTo(jobs, k, w, old(World())) ==>
                Sweep.DoneUpTo(jobs, k + 1, w, World())
    {
      ghost var at := World();
      Sweep.JobIsIndexed(w, at, cfg, now, jobs, k);
      SweepJob(jobs[k]);
      Sweep.JobDone(w, at, World(), cfg, now, AlwaysUp(tg.net), jobs, k);
      Sweep.OthersStay(w, at, World(), jobs, k);
    }

    /** The loop over a sweep's jobs, left early when the context ends. */
    method SweepJobs(jobs: seq<Sweep.Job>, ctxOk: nat -> bool, ghost cfg: ChatCfg.View, ghost now: int)
      requires Sweep.IsSnapshot(jobs, index, cfg, now)
      modifies this`index, this`deleted, tg`history, tg`deletes
      ensures Sweep.LosesOnlyExpired(old(World()), World(), cfg, now, AlwaysUp(tg.net))
      ensures Sweep.AllKnown(jobs, tg.groups) && Sweep.DeletesWork(tg.net) && (forall k :: ctxOk(k)) ==>
                Sweep.DoneUpTo(jobs, |jobs|, old(World()), World())
    {
      ghost var w := World();
      Sweep.NothingLost(w, cfg, now, AlwaysUp(tg.net));
      for k := 0 to |jobs|
        invariant Sweep.LosesOnlyExpired(w, World(), cfg, now, AlwaysUp(tg.net))
        invariant Sweep.UntouchedFrom(jobs, k, w, World())
        invariant Sweep.AllKnown(jobs, tg.groups) && Sweep.DeletesWork(tg.net) ==> Sweep.DoneUpTo(jobs, k, w, World())
      {
        if !ctxOk(k) {
          return;
        }
        SweepNext(jobs, k, w, cfg, now);
      }
    }

    /**
     * One sweep: it takes its jobs from the index as it is and hands them to deletion one by one while the
     * context lives. Only expired entries leave the index and only their messages leave the server, each lost
     * entry is counted, and when all goes through exactly the expired ones are gone from both.
     */
    method SweepOnce(cfg: ChatCfg.View, now: int, ctxOk: nat -> bool) returns (jobs: seq<Sweep.Job>)
      modifies this`index, this`deleted, tg`history, tg`deletes
      ensures Sweep.IsSnapshot(jobs, old(index), cfg, now) && Sweep.InMinutes(jobs, old(index), cfg, now)
      ensures Sweep.LosesOnlyExpired(old(World()), World(), cfg, now, AlwaysUp(tg.net))
      ensures old(KnowsExpired(cfg, now)) && Sweep.DeletesWork(tg.net) && (forall k :: ctxOk(k)) ==>
                Sweep.LosesExpired(old(World()), World(), cfg, now)
    {
      ghost var w := World();
      jobs := Snapshot(cfg, now);
      Sweep.SnapshotInMinutes(jobs, index, cfg, now);
      if KnowsExpired(cfg, now) {
        Sweep.ExpiredAreKnown(jobs, index, cfg, now, tg.groups);
      }
      SweepJobs(jobs, ctxOk, cfg, now);
      if Sweep.DoneUpTo(jobs, |jobs|, w, World()) {
        Sweep.AllLost(jobs, w, World(), cfg, now, AlwaysUp(tg.net));
      }
    }

    // -------------------------------------------------------------- reconciling

    /** The chats a reconcile looks at: those with a TTL and those being maintained. */
    method Watch(cfg: ChatCfg.View) returns (watch: set<int>)
      ensures watch == active + set chat | chat in cfg && cfg[chat].ttlMinutes > 0
    {
      watch := {};
      var rest := cfg.Keys;
      while rest != {}
        invariant rest <= cfg.Keys
        invariant watch == set chat | chat in cfg && chat !in rest && cfg[chat].ttlMinutes > 0
      {
        var chat := AnyOf(rest);
        rest := rest - {chat};
        if cfg[chat].ttlMinutes > 0 {
          watch := watch + {chat};
        }
      }
      watch := watch + active;
    }

    /** The loop over the watched chats, in any order: the titles lost and rejoined, and the drains started. */
    method Compare(cfg: ChatCfg.View, present: set<int>)
      returns (lostTitles: seq<string>, rejoinedTitles: seq<string>, drains: seq<int>)
      modifies this`index, this`active
      ensures var lost := Reconcile.Lost(old(active), present);
              var rejoined := Reconcile.Rejoined(old(active), present, cfg);
              && active == Reconcile.After(old(active), present, cfg)
              && index == old(index) - lost
              && Reconcile.Names(lostTitles, lost, tg.groups) && Reconcile.Names(rejoinedTitles, rejoined, tg.groups)
              && Distinct(drains) && IdSet(drains) == rejoined
    {
      ghost var lost := Reconcile.Lost(active, present);
      ghost var rejoined := Reconcile.Rejoined(active, present, cfg);
      lostTitles, rejoinedTitles, drains := [], [], [];
      var watch := Watch(cfg);
      var rest := watch;
      assert index - {} == index;
      while rest != {}
        invariant rest <= watch
        invariant active == old(active) - (lost - rest) + (rejoined - rest)
        invariant index == old(index) - (lost - rest)
        invariant Reconcile.Compared(lost, rejoined, rest, lostTitles, rejoinedTitles, drains, tg.groups)
      {
        var marked := AnyOf(rest);
        var here := marked in present;
        var maintained := marked in active;
        Reconcile.Visited(lost, rest, marked);
        Reconcile.Visited(rejoined, rest, marked);
        if maintained && !here {
          Reconcile.LosesOne(lost, rejoined, rest, lostTitles, rejoinedTitles, drains, tg.groups, marked);
          DisableChat(marked);
          lostTitles := lostTitles + [Reconcile.ChatTitle(tg.groups, marked)];
        } else if !maintained && here && ChatCfg.TtlOf(cfg, marked) > 0 {
          Reconcile.RejoinsOne(lost, rejoined, rest, lostTitles, rejoinedTitles, drains, tg.groups, marked);
          MarkActive(marked);
          drains := drains + [marked];
          rejoinedTitles := rejoinedTitles + [Reconcile.ChatTitle(tg.groups, marked)];
        }
        rest := rest - {marked};
      }
      assert lost - rest == lost && rejoined - rest == rejoined;
    }

    /**
     * Compares the dialog listing with the maintained chats and acts on the difference, visiting the chats in
     * any order; the chats to drain are returned in the order their drains start.
     */
    method ReconcileOnce(cfg: ChatCfg.View, listing: Option<seq<Group>>)
      returns (res: Option<Changes>, drains: seq<int>)
      modifies this`index, this`active, tg`groups
      ensures res.Some? <==> listing.Some?
      ensures listing.None? ==>
                && drains == [] && index == old(index) && tg.groups == old(tg.groups)
                && active == old(active) == Reconcile.Step(old(active), Reconcile.SyncFailed)
      ensures listing.Some? ==>
                && tg.groups == Refreshed(old(tg.groups), listing.value)
                && var present := Reconcile.Present(listing.value);
                var lost := Reconcile.Lost(old(active), present);
                var rejoined := Reconcile.Rejoined(old(active), present, cfg);
                && active == Reconcile.Step(old(active), Reconcile.Sync(present, cfg))
                && index == old(index) - lost
                && Reconcile.Reports(res.value.lost, lost, tg.groups)
                && Reconcile.Reports(res.value.rejoined, rejoined, tg.groups)
                && Distinct(drains) && IdSet(drains) == rejoined
                && Reconcile.FollowsListing(old(active), active, lost, rejoined, listing.value, cfg)
    {
      var listed := tg.ResolveGroups(listing);
      if listed.None? {
        return None, [];
      }
      var present := PresentIn(listed.value);
      Reconcile.PresentInAnyOrder(listed.value, listing.value);
      ghost var was := active;
      Reconcile.ReconcileFollows(was, listing.value, cfg);
      var lostTitles, rejoinedTitles;
      lostTitles, rejoinedTitles, drains := Compare(cfg, present);
      Reconcile.SortedNamesReport(lostTitles, Reconcile.Lost(was, present), tg.groups);
      Reconcile.SortedNamesReport(rejoinedTitles, Reconcile.Rejoined(was, present, cfg), tg.groups);
      res := Some(Changes(Sorting.SortStrings(lostTitles), Sorting.SortStrings(rejoinedTitles)));
    }
  }

  lemma MinusNothing(m: map<int, int>)
    ensures m - IdSet([]) == m
  {}

  lemma MinusOneMore(m: map<int, int>, ids: seq<int>, i: nat)
    requires i < |ids|
    ensures m - IdSet(ids[..i]) - {ids[i]} == m - IdSet(ids[..i + 1])
  {
    assert IdSet(ids[..i + 1]) == IdSet(ids[..i]) + {ids[i]};
  }
}
