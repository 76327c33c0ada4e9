/**
 * All interleavings of updates, scans, configuration edits, sweeps, drains and instant deletions, and what they
 * may hand to deletion. Each locked section is one step; every request is a step of its own.
 */
module Runs {
  import opened Wrappers
  import ChatCfg
  import Index
  import Int64

  /** When each message was sent; a message keeps its date for good. */
  type Dates = (int, int) -> int

  /** A sweep's ids for one chat, with the TTL it read for the chat and the step at which it did. */
  datatype Batch = Batch(chat: int, ttl: int, since: nat, ids: seq<int>)

  /** Work in progress. A drain and an instant deletion carry the step they were started at. */
  datatype Worker =
    | Instant(chat: int, id: int, since: nat)
    | Scan(chat: int)
    | Drain(chat: int, ttl: int, since: nat)
    | DrainScan(chat: int, ttl: int, since: nat, now: int, expired: seq<int>)
    | Sweep(now: int, batches: seq<Batch>)

  datatype State = State(step: nat, clock: int, cfg: ChatCfg.View, index: Index.Index, workers: map<nat, Worker>)

  datatype Action =
    | Wait(later: int)
    | Configure(cfg: ChatCfg.View)
    | OwnMessage(k: nat, chat: int, id: int, text: string)
    | Forget(op: Index.Op)
    | StartScan(k: nat, chat: int)
    | StartDrain(k: nat, chat: int)
    | StartPass(k: nat)
    | Callback(k: nat, id: int)
    | StartSweep(k: nat)
    | SweepRead(k: nat, chat: int)
    | Submit(k: nat)
    | Finish(k: nat)

  predicate Matching(s: State, chat: int, text: string) {
    ChatCfg.Matches(ChatCfg.SettingsOf(s.cfg, chat).patterns, text)
  }

  /** The expired entries of a chat's map as one sweep collects them; the order is the map's own. */
  ghost predicate Collects(s: State, now: int, b: Batch) {
    && b.since == s.step && b.ttl == ChatCfg.TtlOf(s.cfg, b.chat) > 0
    && var msgs := Index.Messages(s.index, b.chat);
    forall id :: id in b.ids ==> id in msgs && Int64.Aged(now, msgs[id], b.ttl)
  }

  /** The successor of a state with the given changes. */
  ghost predicate Moves(s: State, t: State, clock: int, cfg: ChatCfg.View, index: Index.Index,
                        workers: map<nat, Worker>) {
    t == State(s.step + 1, clock, cfg, index, workers)
  }

  /** One step of the whole program. */
  ghost predicate Next(dates: Dates, s: State, a: Action, t: State) {
    match a
    case Wait(later) => later >= s.clock && Moves(s, t, later, s.cfg, s.index, s.workers)
    case Configure(cfg) => Moves(s, t, s.clock, cfg, s.index, s.workers)
    case OwnMessage(k, chat, id, text) =>
      if Matching(s, chat, text) then
        k !in s.workers && Moves(s, t, s.clock, s.cfg, s.index, s.workers[k := Instant(chat, id, s.step)])
      else if ChatCfg.SettingsOf(s.cfg, chat).ttlMinutes <= 0 then Moves(s, t, s.clock, s.cfg, s.index, s.workers)
      else Moves(s, t, s.clock, s.cfg, Index.Put(s.index, chat, id, dates(chat, id)), s.workers)
    case Forget(op) => !op.Indexed? && Moves(s, t, s.clock, s.cfg, Index.Step(s.index, op), s.workers)
    case StartScan(k, chat) => k !in s.workers && Moves(s, t, s.clock, s.cfg, s.index, s.workers[k := Scan(chat)])
    case StartDrain(k, chat) =>
      var ttl := ChatCfg.TtlOf(s.cfg, chat);
      k !in s.workers && ttl > 0 && Moves(s, t, s.clock, s.cfg, s.index, s.workers[k := Drain(chat, ttl, s.step)])
    case StartPass(k) =>
      && k in s.workers && s.workers[k].Drain?
      && var d := s.workers[k];
         Moves(s, t, s.clock, s.cfg, s.index, s.workers[k := DrainScan(d.chat, d.ttl, d.since, s.clock, [])])
    case Callback(k, id) =>
      && k in s.workers && (s.workers[k].Scan? || s.workers[k].DrainScan?)
      && var w := s.workers[k];
         var sent := dates(w.chat, id);
         var more := if w.DrainScan? && Int64.Aged(w.now, sent, w.ttl) then w.(expired := w.expired + [id]) else w;
         Moves(s, t, s.clock, s.cfg, Index.Put(s.index, w.chat, id, sent), s.workers[k := more])
    case StartSweep(k) => k !in s.workers && Moves(s, t, s.clock, s.cfg, s.index, s.workers[k := Sweep(s.clock, [])])
    case SweepRead(k, chat) =>
      && k in s.workers && s.workers[k].Sweep?
      && var w := s.workers[k];
         exists b: Batch :: b.chat == chat && Collects(s, w.now, b)
                     && Moves(s, t, s.clock, s.cfg, s.index, s.workers[k := Sweep(w.now, w.batches + [b])])
    case Submit(k) =>
      && k in s.workers && Submitted(s.workers[k]).Some?
      && Moves(s, t, s.clock, s.cfg, s.index, s.workers[k := AfterSubmit(s.workers[k])])
    case Finish(k) => k in s.workers && Moves(s, t, s.clock, s.cfg, s.index, s.workers - {k})
  }

  /** What a worker hands to deletion next, if anything: a chat and a list of ids. */
  function Submitted(w: Worker): Option<(int, seq<int>)> {
    match w
    case Instant(chat, id, _) => Some((chat, [id]))
    case DrainScan(chat, _, _, _, expired) => if expired == [] then None else Some((chat, expired))
    case Sweep(_, batches) => if batches == [] then None else Some((batches[0].chat, batches[0].ids))
    case _ => None
  }

  function AfterSubmit(w: Worker): Worker
    requires Submitted(w).Some?
  {
    match w
    case DrainScan(chat, ttl, since, _, _) => Drain(chat, ttl, since)
    case Sweep(now, batches) => Sweep(now, batches[1..])
    case _ => w
  }

  // ---------------------------------------------------------------- runs

  datatype History = History(states: seq<State>, actions: seq<Action>)

  /** A run from a fresh start: nothing indexed, no work in progress. */
  ghost predicate IsRun(dates: Dates, r: History) {
    && |r.states| == |r.actions| + 1
    && r.states[0].step == 0 && r.states[0].index == map[] && r.states[0].workers == map[]
    && forall i :: 0 <= i < |r.actions| ==> Next(dates, r.states[i], r.actions[i], r.states[i + 1])
  }

  /** The message matched a pattern of its chat when it arrived at step j, which started worker k. */
  ghost predicate MatchedAt(r: History, j: nat, k: nat, chat: int, id: int)
    requires j < |r.actions| < |r.states|
  {
    var a := r.actions[j];
    a.OwnMessage? && a.k == k && a.chat == chat && a.id == id && Matching(r.states[j], chat, a.text)
  }

  /** At step j worker k read a positive TTL for the chat, and by the given time the message is that old. */
  ghost predicate OldEnough(dates: Dates, r: History, j: nat, k: nat, chat: int, id: int, now: int)
    requires j < |r.actions| < |r.states|
  {
    var ttl := ChatCfg.TtlOf(r.states[j].cfg, chat);
    && r.actions[j] in {StartDrain(k, chat), SweepRead(k, chat)}
    && ttl > 0 && now - dates(chat, id) >= ttl
  }

  /** Worker k has not finished between steps j and i, so what it did at j it did as the worker it is at i. */
  ghost predicate Working(r: History, j: nat, i: nat, k: nat)
    requires i <= |r.actions|
  {
    forall n :: j < n < i ==> r.actions[n] != Finish(k)
  }

  /** The index holds each message under its true date. */
  ghost predicate TrueDates(dates: Dates, ix: Index.Index) {
    forall chat, id :: chat in ix && id in ix[chat] ==> ix[chat][id] == dates(chat, id)
  }

  ghost predicate BatchJustified(dates: Dates, r: History, i: nat, k: nat, now: int, b: Batch)
    requires i <= |r.actions| < |r.states|
  {
    && b.since < i && Working(r, b.since, i, k)
    && forall id :: id in b.ids ==> OldEnough(dates, r, b.since, k, b.chat, id, now)
  }

  /** Whatever worker k is about to hand over at step i is justified by a step already taken. */
  ghost predicate WorkerJustified(dates: Dates, r: History, i: nat, k: nat, w: Worker)
    requires i <= |r.actions| < |r.states|
  {
    match w
    case Instant(chat, id, since) => since < i && Working(r, since, i, k) && MatchedAt(r, since, k, chat, id)
    case Scan(_) => true
    case Drain(chat, ttl, since) =>
      && since < i && Working(r, since, i, k)
      && r.actions[since] == StartDrain(k, chat) && ttl == ChatCfg.TtlOf(r.states[since].cfg, chat) > 0
    case DrainScan(chat, ttl, since, now, expired) =>
      && since < i && Working(r, since, i, k)
      && r.actions[since] == StartDrain(k, chat) && ttl == ChatCfg.TtlOf(r.states[since].cfg, chat) > 0
      && now <= r.states[i].clock
      && forall id :: id in expired ==> OldEnough(dates, r, since, k, chat, id, now)
    case Sweep(now, batches) =>
      && now <= r.states[i].clock
      && forall n :: 0 <= n < |batches| ==> BatchJustified(dates, r, i, k, now, batches[n])
  }

  ghost predicate Inv(dates: Dates, r: History, i: nat)
    requires i <= |r.actions| < |r.states|
  {
    var s := r.states[i];
    && s.step == i
    && TrueDates(dates, s.index)
    && forall k :: k in s.workers ==> WorkerJustified(dates, r, i, k, s.workers[k])
  }

  lemma PutKeepsDates(dates: Dates, ix: Index.Index, chat: int, id: int)
    requires TrueDates(dates, ix)
    ensures TrueDates(dates, Index.Put(ix, chat, id, dates(chat, id)))
  {}

  lemma ForgetKeepsDates(dates: Dates, ix: Index.Index, op: Index.Op)
    requires TrueDates(dates, ix) && !op.Indexed?
    ensures TrueDates(dates, Index.Step(ix, op))
  {
    if op.Deleted? {
      forall chat, id | chat in Index.Step(ix, op) && id in Index.Step(ix, op)[chat]
        ensures Index.Step(ix, op)[chat][id] == dates(chat, id)
      {
        Index.DeletedMessages(ix, op.chat, op.ids, chat);
      }
    }
  }

  /** A worker left alone stays justified as time goes by. */
  lemma JustifiedLater(dates: Dates, r: History, i: nat, k: nat, w: Worker)
    requires i < |r.actions| < |r.states| && r.states[i].clock <= r.states[i + 1].clock
    requires r.actions[i] != Finish(k) && WorkerJustified(dates, r, i, k, w)
    ensures WorkerJustified(dates, r, i + 1, k, w)
  {}

  lemma AgedMeansOld(now: int, sent: int, ttl: int)
    requires Int64.Fits(ttl) && ttl > 0 && Int64.Aged(now, sent, ttl)
    ensures now - sent >= ttl
  {
    Int64.AgedIsTrueAge(now, sent, ttl);
  }

  /** What a sweep collects from one chat is justified by the TTL it reads in that step. */
  lemma CollectedIsJustified(dates: Dates, r: History, i: nat, k: nat, w: Worker, b: Batch)
    requires i < |r.actions| < |r.states| && r.actions[i] == SweepRead(k, b.chat)
    requires r.states[i].step == i && TrueDates(dates, r.states[i].index)
    requires w.Sweep? && WorkerJustified(dates, r, i + 1, k, w) && Collects(r.states[i], w.now, b)
    ensures WorkerJustified(dates, r, i + 1, k, Sweep(w.now, w.batches + [b]))
  {
    forall id | id in b.ids ensures OldEnough(dates, r, i, k, b.chat, id, w.now) {
      AgedMeansOld(w.now, dates(b.chat, id), b.ttl);
    }
  }

  /** What a drain collects is justified by the TTL it read at its start. */
  lemma SeenIsJustified(dates: Dates, r: History, i: nat, k: nat, w: Worker, id: int)
    requires i < |r.actions| < |r.states| && r.actions[i] != Finish(k)
    requires r.states[i].clock <= r.states[i + 1].clock && WorkerJustified(dates, r, i, k, w)
    requires w.DrainScan? && Int64.Aged(w.now, dates(w.chat, id), w.ttl)
    ensures WorkerJustified(dates, r, i + 1, k, w.(expired := w.expired + [id]))
  {
    JustifiedLater(dates, r, i, k, w);
    AgedMeansOld(w.now, dates(w.chat, id), w.ttl);
  }

  /** Handing over leaves a worker that is justified as it was. */
  lemma SubmitIsJustified(dates: Dates, r: History, i: nat, k: nat, w: Worker)
    requires i < |r.actions| < |r.states| && r.actions[i] != Finish(k)
    requires r.states[i].clock <= r.states[i + 1].clock && WorkerJustified(dates, r, i, k, w)
    requires Submitted(w).Some?
    ensures WorkerJustified(dates, r, i + 1, k, AfterSubmit(w))
  {
    JustifiedLater(dates, r, i, k, w);
  }

  /** The one worker a step works on is justified afterwards. */
  lemma WorkedOnIsJustified(dates: Dates, r: History, i: nat, k: nat)
    requires IsRun(dates, r) && i < |r.actions| && Inv(dates, r, i)
    requires k in r.states[i + 1].workers
    requires k !in r.states[i].workers || r.states[i].workers[k] != r.states[i + 1].workers[k]
    ensures WorkerJustified(dates, r, i + 1, k, r.states[i + 1].workers[k])
  {
    var s, a, t := r.states[i], r.actions[i], r.states[i + 1];
    assert Next(dates, s, a, t);
    match a {
      case Callback(_, id) =>
        SeenIsJustified(dates, r, i, k, s.workers[k], id);
      case SweepRead(_, chat) =>
        var w := s.workers[k];
        var b: Batch :| b.chat == chat && Collects(s, w.now, b) && t.workers[k] == Sweep(w.now, w.batches + [b]);
        JustifiedLater(dates, r, i, k, w);
        CollectedIsJustified(dates, r, i, k, w, b);
      case Submit(_) =>
        SubmitIsJustified(dates, r, i, k, s.workers[k]);
      case _ =>
    }
  }

  lemma StepKeepsInv(dates: Dates, r: History, i: nat)
    requires IsRun(dates, r) && i < |r.actions| && Inv(dates, r, i)
    ensures Inv(dates, r, i + 1)
  {
    var s, a, t := r.states[i], r.actions[i], r.states[i + 1];
    assert Next(dates, s, a, t);
    match a {
      case OwnMessage(_, chat, id, _) => PutKeepsDates(dates, s.index, chat, id);
      case Callback(k, id) => PutKeepsDates(dates, s.index, s.workers[k].chat, id);
      case Forget(op) => ForgetKeepsDates(dates, s.index, op);
      case _ =>
    }
    forall k | k in t.workers ensures WorkerJustified(dates, r, i + 1, k, t.workers[k]) {
      if k in s.workers && s.workers[k] == t.workers[k] {
        JustifiedLater(dates, r, i, k, t.workers[k]);
      } else {
        WorkedOnIsJustified(dates, r, i, k);
      }
    }
  }

  lemma {:induction false} RunKeepsInv(dates: Dates, r: History, i: nat)
    requires IsRun(dates, r) && i <= |r.actions|
    ensures Inv(dates, r, i)
  {
    if i > 0 {
      RunKeepsInv(dates, r, i - 1);
      StepKeepsInv(dates, r, i - 1);
    }
  }

  /** An id handed over at step i by worker k: why that is right, naming the earlier step that made it so. */
  ghost predicate Rightly(dates: Dates, r: History, i: nat, k: nat, chat: int, id: int)
    requires i <= |r.actions| < |r.states|
  {
    exists j :: 0 <= j < i && Working(r, j, i, k)
             && (MatchedAt(r, j, k, chat, id) || OldEnough(dates, r, j, k, chat, id, r.states[i].clock))
  }

  lemma OldEnoughLater(dates: Dates, r: History, j: nat, k: nat, chat: int, id: int, now: int, later: int)
    requires j < |r.actions| < |r.states| && now <= later
    requires OldEnough(dates, r, j, k, chat, id, now)
    ensures OldEnough(dates, r, j, k, chat, id, later)
  {}

  /**
   * Main result on safety: in every interleaving, each id handed to deletion either matched a pattern when its
   * message arrived, or is by then at least as old as a positive TTL that this very drain read when it started,
   * or this very sweep read for the chat.
   */
  lemma NothingDeletedEarly(dates: Dates, r: History, i: nat, k: nat, id: int)
    requires IsRun(dates, r) && i < |r.actions| && r.actions[i] == Submit(k)
    requires k in r.states[i].workers && Submitted(r.states[i].workers[k]).Some?
    requires id in Submitted(r.states[i].workers[k]).value.1
    ensures Rightly(dates, r, i, k, Submitted(r.states[i].workers[k]).value.0, id)
  {
    RunKeepsInv(dates, r, i);
    var w := r.states[i].workers[k];
    assert WorkerJustified(dates, r, i, k, w);
    match w {
      case Instant(chat, _, since) => assert MatchedAt(r, since, k, chat, id);
      case DrainScan(chat, _, since, now, _) => OldEnoughLater(dates, r, since, k, chat, id, now, r.states[i].clock);
      case Sweep(now, batches) =>
        var b := batches[0];
        assert BatchJustified(dates, r, i, k, now, b) && id in b.ids;
        OldEnoughLater(dates, r, b.since, k, b.chat, id, now, r.states[i].clock);
    }
  }

  /** Every configuration of the run stores minutes in the range that converts exactly. */
  ghost predicate ExactMinutes(r: History) {
    forall i, chat :: 0 <= i < |r.states| && chat in r.states[i].cfg ==>
                        0 <= r.states[i].cfg[chat].ttlMinutes <= 153_722_867
  }

  /** At step j worker k read positive minutes for the chat, and the message is that many minutes old by then. */
  ghost predicate MinutesOld(dates: Dates, r: History, j: nat, k: nat, chat: int, id: int, now: int)
    requires j < |r.actions| < |r.states|
  {
    var cfg := r.states[j].cfg;
    && r.actions[j] in {StartDrain(k, chat), SweepRead(k, chat)}
    && chat in cfg && cfg[chat].ttlMinutes > 0
    && now - dates(chat, id) >= cfg[chat].ttlMinutes * 60_000_000_000
  }

  /**
   * The same in minutes: what is handed to deletion matched a pattern on arrival, or is as many minutes old as
   * this very drain read in the configuration when it started, or this very sweep read there for the chat.
   */
  lemma NothingDeletedBeforeItsMinutes(dates: Dates, r: History, i: nat, k: nat, id: int)
    requires IsRun(dates, r) && ExactMinutes(r) && i < |r.actions| && r.actions[i] == Submit(k)
    requires k in r.states[i].workers && Submitted(r.states[i].workers[k]).Some?
    requires id in Submitted(r.states[i].workers[k]).value.1
    ensures var chat := Submitted(r.states[i].workers[k]).value.0;
            exists j :: 0 <= j < i && Working(r, j, i, k)
                   && (MatchedAt(r, j, k, chat, id) || MinutesOld(dates, r, j, k, chat, id, r.states[i].clock))
  {
    var chat := Submitted(r.states[i].workers[k]).value.0;
    NothingDeletedEarly(dates, r, i, k, id);
    var j :| 0 <= j < i && Working(r, j, i, k)
      && (MatchedAt(r, j, k, chat, id) || OldEnough(dates, r, j, k, chat, id, r.states[i].clock));
    if OldEnough(dates, r, j, k, chat, id, r.states[i].clock) {
      ChatCfg.TtlIsMinutes(r.states[j].cfg, chat);
      assert MinutesOld(dates, r, j, k, chat, id, r.states[i].clock);
    }
  }

  // ---------------------------------------------------------------- what can be handed over

  /** A run under one configuration that ends with the worker handing over a message of the chat at the given time. */
  ghost predicate HandsOver(dates: Dates, r: History, k: nat, cfg: ChatCfg.View, now: int, chat: int, id: int) {
    && IsRun(dates, r) && r.actions != [] && (forall i :: 0 <= i < |r.states| ==> r.states[i].cfg == cfg)
    && var i := |r.actions| - 1;
       var s := r.states[i];
       && r.actions[i] == Submit(k) && s.clock == now && k in s.workers
       && Submitted(s.workers[k]).Some? && Submitted(s.workers[k]).value.0 == chat
       && id in Submitted(s.workers[k]).value.1
  }

  ghost predicate Handable(dates: Dates, cfg: ChatCfg.View, now: int, chat: int, id: int) {
    exists r, k :: HandsOver(dates, r, k, cfg, now, chat, id)
  }

  lemma MatchIsHandedOver(dates: Dates, cfg: ChatCfg.View, now: int, chat: int, id: int, text: string)
    requires ChatCfg.Matches(ChatCfg.SettingsOf(cfg, chat).patterns, text)
    ensures Handable(dates, cfg, now, chat, id)
  {
    var s0 := State(0, now, cfg, map[], map[]);
    var s1 := State(1, now, cfg, map[], map[0 := Instant(chat, id, 0)]);
    var s2 := s1.(step := 2);
    var r := History([s0, s1, s2], [OwnMessage(0, chat, id, text), Submit(0)]);
    assert Next(dates, s0, r.actions[0], s1) && Next(dates, s1, r.actions[1], s2);
    assert HandsOver(dates, r, 0, cfg, now, chat, id);
  }

  /** A scan indexes a message, and a drain's scan takes it down when it is old enough. */
  lemma CallbackSteps(dates: Dates, s: State, k: nat, id: int)
    requires k in s.workers && (s.workers[k].Scan? || s.workers[k].DrainScan?)
    requires var w := s.workers[k]; w.DrainScan? ==> Int64.Aged(w.now, dates(w.chat, id), w.ttl)
    ensures var w := s.workers[k];
            var more := if w.DrainScan? then w.(expired := w.expired + [id]) else w;
            Next(dates, s, Callback(k, id), State(s.step + 1, s.clock, s.cfg,
                                                  Index.Put(s.index, w.chat, id, dates(w.chat, id)),
                                                  s.workers[k := more]))
  {}

  lemma SubmitSteps(dates: Dates, s: State, k: nat)
    requires k in s.workers && Submitted(s.workers[k]).Some?
    ensures Next(dates, s, Submit(k), s.(step := s.step + 1, workers := s.workers[k := AfterSubmit(s.workers[k])]))
  {}

  lemma SweepReadSteps(dates: Dates, s: State, k: nat, chat: int, b: Batch)
    requires k in s.workers && s.workers[k].Sweep? && b.chat == chat && Collects(s, s.workers[k].now, b)
    ensures var w := s.workers[k];
            Next(dates, s, SweepRead(k, chat),
                 s.(step := s.step + 1, workers := s.workers[k := Sweep(w.now, w.batches + [b])]))
  {}

  lemma OldIsHandedOver(dates: Dates, cfg: ChatCfg.View, now: int, chat: int, id: int)
    requires ChatCfg.TtlOf(cfg, chat) > 0 && now - dates(chat, id) >= ChatCfg.TtlOf(cfg, chat)
    ensures Handable(dates, cfg, now, chat, id)
  {
    var ttl, sent := ChatCfg.TtlOf(cfg, chat), dates(chat, id);
    var ix := Index.Put(map[], chat, id, sent);
    Int64.AgedIsTrueAge(now, sent, ttl);
    var s0 := State(0, now, cfg, map[], map[]);
    var s1 := State(1, now, cfg, map[], s0.workers[0 := Drain(chat, ttl, 0)]);
    var s2 := State(2, now, cfg, map[], s1.workers[0 := DrainScan(chat, ttl, 0, now, [])]);
    var s3 := State(3, now, cfg, ix, s2.workers[0 := DrainScan(chat, ttl, 0, now, [] + [id])]);
    var s4 := State(4, now, cfg, ix, s3.workers[0 := Drain(chat, ttl, 0)]);
    CallbackSteps(dates, s2, 0, id);
    SubmitSteps(dates, s3, 0);
    var r := History([s0, s1, s2, s3, s4], [StartDrain(0, chat), StartPass(0), Callback(0, id), Submit(0)]);
    assert HandsOver(dates, r, 0, cfg, now, chat, id);
  }

  /** A scan that sees one message, and a sweep that takes it from the index. */
  function SweptRun(dates: Dates, cfg: ChatCfg.View, now: int, chat: int, id: int): History {
    var ix := Index.Put(map[], chat, id, dates(chat, id));
    var scan := map[0 := Scan(chat)];
    var b := Batch(chat, ChatCfg.TtlOf(cfg, chat), 3, [id]);
    History([State(0, now, cfg, map[], map[]), State(1, now, cfg, map[], scan), State(2, now, cfg, ix, scan),
             State(3, now, cfg, ix, scan[1 := Sweep(now, [])]), State(4, now, cfg, ix, scan[1 := Sweep(now, [b])]),
             State(5, now, cfg, ix, scan[1 := Sweep(now, [])])],
            [StartScan(0, chat), Callback(0, id), StartSweep(1), SweepRead(1, chat), Submit(1)])
  }

  lemma SweptRunScans(dates: Dates, cfg: ChatCfg.View, now: int, chat: int, id: int)
    ensures var r := SweptRun(dates, cfg, now, chat, id);
            forall i :: 0 <= i < 3 ==> Next(dates, r.states[i], r.actions[i], r.states[i + 1])
  {
    var r := SweptRun(dates, cfg, now, chat, id);
    CallbackSteps(dates, r.states[1], 0, id);
    assert r.states[1].workers[0 := Scan(chat)] == r.states[1].workers;
  }

  lemma SweptRunSweeps(dates: Dates, cfg: ChatCfg.View, now: int, chat: int, id: int)
    requires ChatCfg.TtlOf(cfg, chat) > 0 && now - dates(chat, id) >= ChatCfg.TtlOf(cfg, chat)
    ensures var r := SweptRun(dates, cfg, now, chat, id);
            forall i :: 3 <= i < 5 ==> Next(dates, r.states[i], r.actions[i], r.states[i + 1])
  {
    var ttl := ChatCfg.TtlOf(cfg, chat);
    var r, b := SweptRun(dates, cfg, now, chat, id), Batch(chat, ttl, 3, [id]);
    Int64.AgedIsTrueAge(now, dates(chat, id), ttl);
    assert [] + [b] == [b] && [b][1..] == [];
    SweepReadSteps(dates, r.states[3], 1, chat, b);
    SubmitSteps(dates, r.states[4], 1);
  }

  /** A sweep alone is enough, once a scan has indexed the message. */
  lemma OldIsSwept(dates: Dates, cfg: ChatCfg.View, now: int, chat: int, id: int)
    requires ChatCfg.TtlOf(cfg, chat) > 0 && now - dates(chat, id) >= ChatCfg.TtlOf(cfg, chat)
    ensures exists r :: HandsOver(dates, r, 1, cfg, now, chat, id) && r.actions[|r.actions| - 2] == SweepRead(1, chat)
  {
    SweptRunScans(dates, cfg, now, chat, id);
    SweptRunSweeps(dates, cfg, now, chat, id);
    assert HandsOver(dates, SweptRun(dates, cfg, now, chat, id), 1, cfg, now, chat, id);
  }

  /**
   * Under one configuration, a message can be handed to deletion at a given time if and only if some text matches
   * the chat's patterns, or the chat has positive minutes and the message is at least that old.
   */
  lemma HandedOverIff(dates: Dates, cfg: ChatCfg.View, now: int, chat: int, id: int)
    requires chat in cfg ==> 0 <= cfg[chat].ttlMinutes <= 153_722_867
    ensures Handable(dates, cfg, now, chat, id) <==>
              || (exists text :: ChatCfg.Matches(ChatCfg.SettingsOf(cfg, chat).patterns, text))
              || (chat in cfg && cfg[chat].ttlMinutes > 0
                  && now - dates(chat, id) >= cfg[chat].ttlMinutes * 60_000_000_000)
  {
    ChatCfg.TtlIsMinutes(cfg, chat);
    if text :| ChatCfg.Matches(ChatCfg.SettingsOf(cfg, chat).patterns, text) {
      MatchIsHandedOver(dates, cfg, now, chat, id, text);
    } else if chat in cfg && cfg[chat].ttlMinutes > 0
              && now - dates(chat, id) >= cfg[chat].ttlMinutes * 60_000_000_000 {
      OldIsHandedOver(dates, cfg, now, chat, id);
    } else if r, k :| HandsOver(dates, r, k, cfg, now, chat, id) {
      HandedOverRightly(dates, r, k, cfg, now, chat, id);
    }
  }

  lemma HandedOverRightly(dates: Dates, r: History, k: nat, cfg: ChatCfg.View, now: int, chat: int, id: int)
    requires HandsOver(dates, r, k, cfg, now, chat, id)
    ensures || (exists text :: ChatCfg.Matches(ChatCfg.SettingsOf(cfg, chat).patterns, text))
            || (ChatCfg.TtlOf(cfg, chat) > 0 && now - dates(chat, id) >= ChatCfg.TtlOf(cfg, chat))
  {
    var i := |r.actions| - 1;
    NothingDeletedEarly(dates, r, i, k, id);
    var j :| 0 <= j < i && (MatchedAt(r, j, k, chat, id) || OldEnough(dates, r, j, k, chat, id, now));
    assert r.states[j].cfg == cfg;
  }

  /** The index never misdates a message, whatever the interleaving. */
  lemma IndexKeepsDates(dates: Dates, r: History, i: nat, chat: int, id: int)
    requires IsRun(dates, r) && i <= |r.actions|
    requires id in Index.Messages(r.states[i].index, chat)
    ensures Index.Messages(r.states[i].index, chat)[id] == dates(chat, id)
  {
    RunKeepsInv(dates, r, i);
  }
}
