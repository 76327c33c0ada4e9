/**
 * Membership reconcile as set algebra, and what it reports over a whole run of membership changes.
 */
module Reconcile {
  import opened Telegram
  import opened Sorting
  import ChatCfg
  import Decimal
  import Int64

  /** The chats a listing puts the account in. */
  function Present(listed: seq<Group>): set<int> {
    set g | g in listed :: g.markedID
  }

  lemma PresentInAnyOrder(a: seq<Group>, b: seq<Group>)
    requires multiset(a) == multiset(b)
    ensures Present(a) == Present(b)
  {
    forall g ensures g in a <==> g in b {
      assert g in a <==> multiset(a)[g] > 0;
      assert g in b <==> multiset(b)[g] > 0;
    }
  }

  /** A chat the configuration wants drained on joining. */
  predicate Wanted(cfg: ChatCfg.View, chat: int) {
    ChatCfg.SettingsOf(cfg, chat).ttlMinutes > 0 && ChatCfg.TtlOf(cfg, chat) > 0
  }

  function WantedChats(cfg: ChatCfg.View): set<int> {
    set chat | chat in cfg && Wanted(cfg, chat)
  }

  function Lost(active: set<int>, present: set<int>): set<int> {
    active - present
  }

  function Rejoined(active: set<int>, present: set<int>, cfg: ChatCfg.View): set<int> {
    set chat | chat in present && chat !in active && Wanted(cfg, chat)
  }

  function After(active: set<int>, present: set<int>, cfg: ChatCfg.View): set<int> {
    active - Lost(active, present) + Rejoined(active, present, cfg)
  }

  /** The maintained set becomes the chats the account is in that were maintained or are wanted. */
  lemma AfterIsIntersection(active: set<int>, present: set<int>, cfg: ChatCfg.View)
    ensures After(active, present, cfg) == present * (active + WantedChats(cfg))
    ensures (forall chat :: chat in cfg ==> 0 <= cfg[chat].ttlMinutes <= Int64.LAST_EXACT_MINUTES) ==>
              WantedChats(cfg) == set chat | chat in cfg && cfg[chat].ttlMinutes > 0
  {
    if forall chat :: chat in cfg ==> 0 <= cfg[chat].ttlMinutes <= Int64.LAST_EXACT_MINUTES {
      forall chat | chat in cfg ensures Wanted(cfg, chat) <==> cfg[chat].ttlMinutes > 0 {
        Int64.PositivityTestsAgree(cfg[chat].ttlMinutes);
      }
    }
  }

  lemma WantedInMinutes(cfg: ChatCfg.View, chat: int)
    ensures Wanted(cfg, chat) <==> chat in cfg && PositiveFor(cfg[chat].ttlMinutes)
  {
    if chat in cfg {
      Int64.WrapKeepsResidue(cfg[chat].ttlMinutes * 60_000_000_000);
    }
  }

  /** Which chats are maintained, lost and rejoined, said of the listing's marked ids and the stored minutes. */
  ghost predicate FollowsListing(was: set<int>, after: set<int>, lost: set<int>, rejoined: set<int>, listed: seq<Group>,
                                 cfg: ChatCfg.View) {
    forall chat ::
      var here := exists g :: g in listed && g.markedID == chat;
      && (chat in lost <==> chat in was && !here)
      && (chat in rejoined <==> chat !in was && here && chat in cfg && PositiveFor(cfg[chat].ttlMinutes))
      && (chat in after <==> here && (chat in was || (chat in cfg && PositiveFor(cfg[chat].ttlMinutes))))
  }

  /** A positive count of minutes whose product with the minute, cut to 64 bits, has its sign bit clear. */
  predicate PositiveFor(minutes: int) {
    minutes > 0 && 0 < minutes * 60_000_000_000 % 0x1_0000_0000_0000_0000 < 0x8000_0000_0000_0000
  }

  /** That is any positive count up to the exact bound; the next one is not. */
  lemma PositiveInRange(minutes: int)
    ensures 0 < minutes <= 153_722_867 ==> PositiveFor(minutes)
    ensures !PositiveFor(153_722_868)
  {}

  lemma ReconcileFollows(was: set<int>, listed: seq<Group>, cfg: ChatCfg.View)
    ensures var present := Present(listed);
            FollowsListing(was, After(was, present, cfg), Lost(was, present), Rejoined(was, present, cfg), listed, cfg)
  {
    forall chat ensures chat in Present(listed) <==> exists g :: g in listed && g.markedID == chat {}
    forall chat ensures Wanted(cfg, chat) <==> chat in cfg && PositiveFor(cfg[chat].ttlMinutes) {
      WantedInMinutes(cfg, chat);
    }
  }

  /** A second reconcile against the same membership finds nothing to report. */
  lemma SecondIsQuiet(active: set<int>, present: set<int>, cfg: ChatCfg.View)
    ensures var after := After(active, present, cfg);
            && Lost(after, present) == {} && Rejoined(after, present, cfg) == {}
            && After(after, present, cfg) == after
  {}

  // ---------------------------------------------------------------- reports by title

  function ChatTitle(groups: map<int, Group>, chat: int): string {
    if chat in groups && groups[chat].title != "" then groups[chat].title else Decimal.FormatInt(chat)
  }

  function Titled(chats: set<int>, groups: map<int, Group>, title: string): set<int> {
    set chat | chat in chats && ChatTitle(groups, chat) == title
  }

  /** The titles of a set of chats, one per chat. */
  ghost predicate Names(titles: seq<string>, chats: set<int>, groups: map<int, Group>) {
    forall t :: multiset(titles)[t] == |Titled(chats, groups, t)|
  }

  /** A report: the titles of exactly the given chats, sorted. */
  ghost predicate Reports(titles: seq<string>, chats: set<int>, groups: map<int, Group>) {
    SortedBy(titles, StringLe) && Names(titles, chats, groups)
  }

  lemma NamesExtend(titles: seq<string>, chats: set<int>, groups: map<int, Group>, chat: int)
    requires Names(titles, chats, groups) && chat !in chats
    ensures Names(titles + [ChatTitle(groups, chat)], chats + {chat}, groups)
  {
    var title := ChatTitle(groups, chat);
    forall t ensures multiset(titles + [title])[t] == |Titled(chats + {chat}, groups, t)| {
      assert Titled(chats + {chat}, groups, t)
          == if t == title then Titled(chats, groups, t) + {chat} else Titled(chats, groups, t);
    }
  }

  /** What one more visited chat adds to the visited part of a set. */
  lemma Visited(s: set<int>, rest: set<int>, x: int)
    requires x in rest
    ensures s - (rest - {x}) == if x in s then s - rest + {x} else s - rest
  {}

  /** The reports and drains of a comparison while the chats in rest are still to be looked at. */
  ghost predicate Compared(lost: set<int>, rejoined: set<int>, rest: set<int>, lostTitles: seq<string>,
                           rejoinedTitles: seq<string>, drains: seq<int>, groups: map<int, Group>) {
    && Names(lostTitles, lost - rest, groups) && Names(rejoinedTitles, rejoined - rest, groups)
    && Distinct(drains) && IdSet(drains) == rejoined - rest
  }

  lemma LosesOne(lost: set<int>, rejoined: set<int>, rest: set<int>, lostTitles: seq<string>,
                 rejoinedTitles: seq<string>, drains: seq<int>, groups: map<int, Group>, chat: int)
    requires Compared(lost, rejoined, rest, lostTitles, rejoinedTitles, drains, groups)
    requires chat in rest && chat in lost && chat !in rejoined
    ensures Compared(lost, rejoined, rest - {chat}, lostTitles + [ChatTitle(groups, chat)], rejoinedTitles, drains,
                     groups)
  {
    Visited(lost, rest, chat);
    Visited(rejoined, rest, chat);
    NamesExtend(lostTitles, lost - rest, groups, chat);
  }

  lemma RejoinsOne(lost: set<int>, rejoined: set<int>, rest: set<int>, lostTitles: seq<string>,
                   rejoinedTitles: seq<string>, drains: seq<int>, groups: map<int, Group>, chat: int)
    requires Compared(lost, rejoined, rest, lostTitles, rejoinedTitles, drains, groups)
    requires chat in rest && chat !in lost && chat in rejoined
    ensures Compared(lost, rejoined, rest - {chat}, lostTitles, rejoinedTitles + [ChatTitle(groups, chat)],
                     drains + [chat], groups)
  {
    Visited(lost, rest, chat);
    Visited(rejoined, rest, chat);
    NamesExtend(rejoinedTitles, rejoined - rest, groups, chat);
    assert IdSet(drains + [chat]) == IdSet(drains) + {chat};
  }

  /** A report names each of its chats: by its group's title, or by its id when there is none. */
  lemma ReportNames(titles: seq<string>, chats: set<int>, groups: map<int, Group>, chat: int)
    requires Reports(titles, chats, groups) && chat in chats
    ensures chat in groups && groups[chat].title != "" ==> groups[chat].title in titles
    ensures chat !in groups || groups[chat].title == "" ==> Decimal.FormatInt(chat) in titles
  {
    var t := ChatTitle(groups, chat);
    assert chat in Titled(chats, groups, t);
    assert multiset(titles)[t] == |Titled(chats, groups, t)|;
    assert t in multiset(titles);
  }

  lemma {:induction false} NamesCount(titles: seq<string>, chats: set<int>, groups: map<int, Group>)
    requires Names(titles, chats, groups)
    ensures |titles| == |chats|
    decreases |titles|
  {
    if titles == [] {
      forall chat ensures chat !in chats {
        assert multiset(titles)[ChatTitle(groups, chat)] == |Titled(chats, groups, ChatTitle(groups, chat))|;
      }
      assert chats == {};
    } else {
      var k := |titles| - 1;
      var t := titles[k];
      assert titles == titles[..k] + [t] && multiset(titles)[t] == |Titled(chats, groups, t)|;
      var chat :| chat in Titled(chats, groups, t);
      NamesShrink(titles[..k], chats, groups, chat);
      NamesCount(titles[..k], chats - {chat}, groups);
    }
  }

  lemma NamesShrink(titles: seq<string>, chats: set<int>, groups: map<int, Group>, chat: int)
    requires chat in chats && Names(titles + [ChatTitle(groups, chat)], chats, groups)
    ensures Names(titles, chats - {chat}, groups)
  {
    var title := ChatTitle(groups, chat);
    forall t ensures multiset(titles)[t] == |Titled(chats - {chat}, groups, t)| {
      assert Titled(chats - {chat}, groups, t)
          == if t == title then Titled(chats, groups, t) - {chat} else Titled(chats, groups, t);
      assert multiset(titles + [title])[t] == |Titled(chats, groups, t)|;
    }
  }

  lemma SortedNamesReport(titles: seq<string>, chats: set<int>, groups: map<int, Group>)
    requires Names(titles, chats, groups)
    ensures Reports(SortStrings(titles), chats, groups)
  {
    StringLeIsTotal();
    SortSorts(titles, StringLe);
  }

  /** A report is determined by the set of chats: the order in which the maps were iterated does not show. */
  lemma ReportIsUnique(a: seq<string>, b: seq<string>, chats: set<int>, groups: map<int, Group>)
    requires Reports(a, chats, groups) && Reports(b, chats, groups)
    ensures a == b
  {
    forall t ensures multiset(a)[t] == multiset(b)[t] {
      assert multiset(a)[t] == |Titled(chats, groups, t)|;
    }
    assert multiset(a) == multiset(b);
    StringLeIsTotal();
    SortedIsUnique(a, b, StringLe);
  }

  // ---------------------------------------------------------------- runs

  /**
   * One step of a run: a reconcile against some membership and configuration, one whose listing fails, a chat
   * marked by a start-up scan or a drain, a chat disabled, or a reset.
   */
  datatype Input =
    | Sync(present: set<int>, cfg: ChatCfg.View)
    | SyncFailed
    | Marked(chat: int)
    | Disabled(chat: int)
    | Reset

  function Step(active: set<int>, i: Input): set<int> {
    match i
    case Sync(present, cfg) => After(active, present, cfg)
    case SyncFailed => active
    case Marked(chat) => active + {chat}
    case Disabled(chat) => active - {chat}
    case Reset => {}
  }

  function Active(active: set<int>, inputs: seq<Input>): set<int>
    decreases |inputs|
  {
    if inputs == [] then active else Step(Active(active, inputs[..|inputs| - 1]), inputs[|inputs| - 1])
  }

  /** What happens to one chat: the two reports of a reconcile, and the changes made by other means. */
  datatype Event = LostIt | RejoinedIt | MarkedIt | DroppedIt {
    predicate Up() {
      RejoinedIt? || MarkedIt?
    }
  }

  /** What one step does to a chat; marking a maintained chat or dropping any other does nothing. */
  function StepEvents(active: set<int>, i: Input, chat: int): seq<Event> {
    match i
    case Sync(present, cfg) =>
      if chat in Lost(active, present) then [LostIt]
      else if chat in Rejoined(active, present, cfg) then [RejoinedIt]
      else []
    case SyncFailed => []
    case Marked(c) => if c == chat && chat !in active then [MarkedIt] else []
    case Disabled(c) => if c == chat && chat in active then [DroppedIt] else []
    case Reset => if chat in active then [DroppedIt] else []
  }

  /** Everything that happens to a chat over a run, in order. */
  function Events(active: set<int>, inputs: seq<Input>, chat: int): seq<Event>
    decreases |inputs|
  {
    if inputs == [] then []
    else
      var k := |inputs| - 1;
      Events(active, inputs[..k], chat) + StepEvents(Active(active, inputs[..k]), inputs[k], chat)
  }

  /** Changes up and down take turns, beginning with one down exactly when the chat was maintained at the start. */
  ghost predicate Alternate(events: seq<Event>, maintained: bool) {
    && (events != [] ==> (events[0].Up() <==> !maintained))
    && forall i :: 0 < i < |events| ==> (events[i].Up() <==> !events[i - 1].Up())
  }

  function Number(events: seq<Event>, e: Event): nat {
    if events == [] then 0
    else Number(events[..|events| - 1], e) + (if events[|events| - 1] == e then 1 else 0)
  }

  function Bit(b: bool): int {
    if b then 1 else 0
  }

  /** Rejoins and marks minus losses and drops. */
  function Balance(events: seq<Event>): int {
    Number(events, RejoinedIt) + Number(events, MarkedIt) - Number(events, LostIt) - Number(events, DroppedIt)
  }

  /** How a chat's events over a run relate to its maintained bit. */
  ghost predicate Follows(active: set<int>, end: set<int>, events: seq<Event>, chat: int) {
    && Alternate(events, chat in active)
    && Balance(events) == Bit(chat in end) - Bit(chat in active)
    && (chat in end <==> if events == [] then chat in active else events[|events| - 1].Up())
  }

  /**
   * Main result over runs: whatever membership and configuration come along, each chat's changes strictly
   * alternate, and rejoins minus losses is the net change of its maintained bit less the marks and drops that
   * scans, drains, disabling and resets made.
   */
  lemma {:induction false} EventsAlternate(active: set<int>, inputs: seq<Input>, chat: int)
    ensures Follows(active, Active(active, inputs), Events(active, inputs, chat), chat)
    decreases |inputs|
  {
    if inputs != [] {
      var k := |inputs| - 1;
      EventsAlternate(active, inputs[..k], chat);
      StepFollows(active, Active(active, inputs[..k]), inputs[k], Events(active, inputs[..k], chat), chat);
    }
  }

  lemma StepFollows(active: set<int>, before: set<int>, i: Input, events: seq<Event>, chat: int)
    requires Follows(active, before, events, chat)
    ensures Follows(active, Step(before, i), events + StepEvents(before, i, chat), chat)
  {
    var step := StepEvents(before, i, chat);
    StepToggles(before, i, chat);
    if step == [] {
      assert events + step == events;
    } else {
      assert step == [step[0]];
      AppendEvent(active, before, Step(before, i), events, step[0], chat);
    }
  }

  /** A step changes a chat's bit exactly when something happens to the chat, and in that direction. */
  lemma StepToggles(before: set<int>, i: Input, chat: int)
    ensures var end, step := Step(before, i), StepEvents(before, i, chat);
            && (step == [] ==> (chat in end <==> chat in before))
            && (step != [] ==> |step| == 1 && (step[0].Up() <==> chat in end) && (chat in end <==> chat !in before))
  {}

  lemma AppendEvent(active: set<int>, before: set<int>, end: set<int>, events: seq<Event>, e: Event, chat: int)
    requires Follows(active, before, events, chat)
    requires (e.Up() <==> chat in end) && (chat in end <==> chat !in before)
    ensures Follows(active, end, events + [e], chat)
  {
    var more := events + [e];
    assert more[..|events|] == events;
    assert forall x :: Number(more, x) == Number(events, x) + (if e == x then 1 else 0);
  }

  /** Nothing but losses and rejoins. */
  ghost predicate OnlyReports(events: seq<Event>) {
    && (forall i :: 0 <= i < |events| ==> events[i] == LostIt || events[i] == RejoinedIt)
    && Number(events, MarkedIt) == 0 && Number(events, DroppedIt) == 0
  }

  predicate IsReconcile(i: Input) {
    i.Sync? || i.SyncFailed?
  }

  /** With reconciles alone, losses and rejoins strictly alternate and rejoins minus losses is the net change. */
  lemma ReconcilesAlternate(active: set<int>, inputs: seq<Input>, chat: int)
    requires forall i :: 0 <= i < |inputs| ==> IsReconcile(inputs[i])
    ensures var events := Events(active, inputs, chat);
            && OnlyReports(events)
            && (events != [] ==> (events[0] == LostIt <==> chat in active))
            && (forall i :: 0 < i < |events| ==> events[i] != events[i - 1])
            && Number(events, RejoinedIt) - Number(events, LostIt)
               == Bit(chat in Active(active, inputs)) - Bit(chat in active)
  {
    ReportsOnly(active, inputs, chat);
    EventsAlternate(active, inputs, chat);
    ReportsAlternate(Events(active, inputs, chat), chat in active);
  }

  lemma ReportsAlternate(events: seq<Event>, maintained: bool)
    requires OnlyReports(events) && Alternate(events, maintained)
    ensures events != [] ==> (events[0] == LostIt <==> maintained)
    ensures forall i :: 0 < i < |events| ==> events[i] != events[i - 1]
  {}

  lemma {:induction false} ReportsOnly(active: set<int>, inputs: seq<Input>, chat: int)
    requires forall i :: 0 <= i < |inputs| ==> IsReconcile(inputs[i])
    ensures OnlyReports(Events(active, inputs, chat))
    decreases |inputs|
  {
    if inputs != [] {
      var k := |inputs| - 1;
      ReportsOnly(active, inputs[..k], chat);
      var events := Events(active, inputs[..k], chat);
      var step := StepEvents(Active(active, inputs[..k]), inputs[k], chat);
      StepReports(Active(active, inputs[..k]), inputs[k], chat);
      if step == [] {
        assert events + step == events;
      } else {
        ReportAppended(events, step[0]);
      }
    }
  }

  lemma StepReports(active: set<int>, i: Input, chat: int)
    requires IsReconcile(i)
    ensures var step := StepEvents(active, i, chat);
            step == [] || step == [LostIt] || step == [RejoinedIt]
  {}

  lemma ReportAppended(events: seq<Event>, e: Event)
    requires OnlyReports(events) && (e == LostIt || e == RejoinedIt)
    ensures OnlyReports(events + [e])
  {
    assert (events + [e])[..|events|] == events;
  }
}
