/**
 * The user client over an abstract server: marked ids, the paged walk over the account's own messages,
 * and the batched delete.
 */
module Telegram {
  import opened Wrappers
  import Chunks
  import Decimal
  import Int64
  import Sorting
  import Text

  // ---------------------------------------------------------------- marked ids

  const CHANNEL_SHIFT := 1_000_000_000_000

  function MarkChannel(id: int): int {
    Int64.Wrap(-CHANNEL_SHIFT - id)
  }

  function MarkChat(id: int): int {
    Int64.Wrap(-id)
  }

  /** The range check the cleaner applies to a marked id. */
  predicate MarksChannel(marked: int) {
    marked < -CHANNEL_SHIFT
  }

  lemma WrapOver(x: int)
    requires Int64.MIN - Int64.MODULUS <= x < Int64.MIN
    ensures Int64.Wrap(x) == x + Int64.MODULUS
  {
    assert x - Int64.MIN == -1 * Int64.MODULUS + (x + Int64.MODULUS - Int64.MIN);
  }

  /** A channel mark is recognised as one exactly for ids from 1 up to where the subtraction overflows. */
  lemma ChannelMarkRecognised(id: int)
    requires Int64.Fits(id)
    ensures MarksChannel(MarkChannel(id)) <==> 1 <= id <= -Int64.MIN - 1_000_000_000_000
    ensures MarksChannel(MarkChannel(id)) ==> MarkChannel(id) == -(1_000_000_000_000 + id)
  {
    if id > -Int64.MIN - CHANNEL_SHIFT {
      WrapOver(-CHANNEL_SHIFT - id);
    }
  }

  /** A basic-group mark is told apart from channels exactly while the raw id is at most the shift. */
  lemma ChatMarkRecognised(id: int)
    requires 1 <= id <= Int64.MAX
    ensures !MarksChannel(MarkChat(id)) <==> id <= 1_000_000_000_000
    ensures MarkChat(id) == -id
  {}

  /** In the supported ranges the two markings are injective and never meet. */
  lemma MarksAreDistinct(a: int, b: int)
    requires 1 <= a <= -Int64.MIN - CHANNEL_SHIFT && 1 <= b <= -Int64.MIN - CHANNEL_SHIFT
    ensures MarkChannel(a) == MarkChannel(b) <==> a == b
    ensures MarkChat(a) == MarkChat(b) <==> a == b
    ensures MarkChannel(a) == MarkChat(b) <==> b == a + CHANNEL_SHIFT
    ensures b <= CHANNEL_SHIFT ==> MarkChannel(a) != MarkChat(b)
  {}

  // ---------------------------------------------------------------- groups and links

  datatype Group = Group(markedID: int, title: string, username: string, isChannel: bool, rawID: int)

  function MessageLink(g: Group, id: int): string {
    if !g.isChannel then ""
    else if g.username != "" then "https://t.me/" + g.username + "/" + Decimal.FormatInt(id)
    else "https://t.me/c/" + Decimal.FormatInt(g.rawID) + "/" + Decimal.FormatInt(id)
  }

  /**
   * A link to a message of a supergroup: behind its last slash stands the message's id, and before that the
   * public name, or else a c and the group's own id.
   */
  ghost predicate LeadsTo(link: string, g: Group, id: int) {
    var cut := Text.CutLast(link, '/');
    && cut.Some? && Decimal.ParseInt(cut.value.1) == Some(id)
    && if g.username != "" then cut.value.0 == "https://t.me/" + g.username
       else
         var place := Text.CutLast(cut.value.0, '/');
         place.Some? && place.value.0 == "https://t.me/c" && Decimal.ParseInt(place.value.1) == Some(g.rawID)
  }

  lemma LinkLeads(g: Group, id: int)
    requires g.isChannel && Int64.Fits(id) && Int64.Fits(g.rawID)
    ensures LeadsTo(MessageLink(g, id), g, id)
  {
    Decimal.FormatHasNoSlash(id);
    Decimal.ParseFormat(id);
    if g.username != "" {
      JoinedAtSlash("https://t.me/" + g.username, Decimal.FormatInt(id));
    } else {
      Decimal.FormatHasNoSlash(g.rawID);
      Decimal.ParseFormat(g.rawID);
      var place := "https://t.me/c/" + Decimal.FormatInt(g.rawID);
      JoinedAtSlash(place, Decimal.FormatInt(id));
      assert "https://t.me/c/" == "https://t.me/c" + "/";
      JoinedAtSlash("https://t.me/c", Decimal.FormatInt(g.rawID));
    }
  }

  lemma JoinedAtSlash(head: string, tail: string)
    requires '/' !in tail
    ensures Text.CutLast(head + "/" + tail, '/') == Some((head, tail))
  {
    Text.CutLastJoined(head, '/', tail);
  }

  /** The cache after a refresh: every listed group is (re)entered, none is ever forgotten. */
  function Refreshed(groups: map<int, Group>, listed: seq<Group>): map<int, Group>
    decreases |listed|
  {
    if listed == [] then groups
    else
      var g := listed[|listed| - 1];
      Refreshed(groups, listed[..|listed| - 1])[g.markedID := g]
  }

  /** The last entry of a listing for a chat. */
  predicate IsLastOf(listed: seq<Group>, chat: int, i: int) {
    && 0 <= i < |listed| && listed[i].markedID == chat
    && forall j :: i < j < |listed| ==> listed[j].markedID != chat
  }

  /** A refresh forgets no group and enters every listed one as it was last listed. */
  lemma {:induction false} RefreshForgetsNone(groups: map<int, Group>, listed: seq<Group>, chat: int)
    ensures var after := Refreshed(groups, listed);
            && (chat in after <==> chat in groups || exists g :: g in listed && g.markedID == chat)
            && ((forall g :: g in listed ==> g.markedID != chat) && chat in groups ==> after[chat] == groups[chat])
            && forall i :: IsLastOf(listed, chat, i) ==> after[chat] == listed[i]
    decreases |listed|
  {
    if listed != [] {
      var k := |listed| - 1;
      RefreshForgetsNone(groups, listed[..k], chat);
      assert listed == listed[..k] + [listed[k]];
      assert forall i :: 0 <= i < k ==> listed[..k][i] == listed[i];
      forall i | IsLastOf(listed, chat, i) ensures Refreshed(groups, listed)[chat] == listed[i] {
        if i < k {
          assert listed[k].markedID != chat && IsLastOf(listed[..k], chat, i);
        }
      }
    }
  }

  predicate TitleLe(a: Group, b: Group) {
    Sorting.StringLe(a.title, b.title)
  }

  lemma TitleRanks()
    ensures Sorting.Ranking(TitleLe)
  {
    Sorting.StringLeIsTotal();
  }

  /** The same groups by ascending title; groups of one title come in any order. */
  ghost predicate ByTitle(sorted: seq<Group>, listed: seq<Group>) {
    && multiset(sorted) == multiset(listed)
    && forall i, j :: 0 <= i < j < |sorted| ==> Sorting.StringLe(sorted[i].title, sorted[j].title)
  }

  /** The cache once a chat has been looked up, refreshed a single time when the chat is not in it. */
  function LookedUp(groups: map<int, Group>, chat: int, listing: Option<seq<Group>>): map<int, Group> {
    if chat in groups || listing.None? then groups else Refreshed(groups, listing.value)
  }

  /** A chat in the cache causes no refresh; any other is found exactly when the one refresh lists it. */
  lemma LooksUpOnce(groups: map<int, Group>, chat: int, listing: Option<seq<Group>>)
    ensures chat in groups || listing.None? ==> LookedUp(groups, chat, listing) == groups
    ensures chat !in groups && listing.Some? ==>
              && (chat in LookedUp(groups, chat, listing) <==> exists g :: g in listing.value && g.markedID == chat)
              && forall i :: IsLastOf(listing.value, chat, i) ==>
                               LookedUp(groups, chat, listing)[chat] == listing.value[i]
  {
    if listing.Some? {
      RefreshForgetsNone(groups, listing.value, chat);
    }
  }

  // ---------------------------------------------------------------- the server's history

  /** An own message: its id, its send time, and whether it is an ordinary message or a service one. */
  datatype Msg = Msg(id: int, sent: int, ordinary: bool)

  /** Newest first, with positive ids. */
  ghost predicate Descending(h: seq<Msg>) {
    && (forall i :: 0 <= i < |h| ==> h[i].id >= 1)
    && (forall i, j :: 0 <= i < j < |h| ==> h[i].id > h[j].id)
  }

  /** The layer that search exposes: the newest messages that currently exist. */
  function Window(h: seq<Msg>, window: nat): seq<Msg> {
    if |h| <= window then h else h[..window]
  }

  function Reals(v: seq<Msg>): seq<Msg> {
    if v == [] then [] else if v[0].ordinary then [v[0]] + Reals(v[1..]) else Reals(v[1..])
  }

  function ServicesOf(v: seq<Msg>): seq<Msg> {
    if v == [] then [] else if v[0].ordinary then ServicesOf(v[1..]) else [v[0]] + ServicesOf(v[1..])
  }

  function Remove(h: seq<Msg>, gone: set<int>): seq<Msg> {
    if h == [] then []
    else if h[0].id in gone then Remove(h[1..], gone)
    else [h[0]] + Remove(h[1..], gone)
  }

  // ---------------------------------------------------------------- the paged scan

  const PAGE_LIMIT := 100

  predicate Before(m: Msg, offset: int) {
    offset == 0 || m.id < offset
  }

  function Below(v: seq<Msg>, offset: int): (b: seq<Msg>)
    ensures forall m :: m in b ==> Before(m, offset)
  {
    if v == [] then []
    else if Before(v[0], offset) then [v[0]] + Below(v[1..], offset)
    else Below(v[1..], offset)
  }

  /** One search answer: at most a page of the messages before the offset. */
  function Page(v: seq<Msg>, offset: int): (p: seq<Msg>)
    ensures p <= Below(v, offset)
  {
    var b := Below(v, offset);
    if |b| <= PAGE_LIMIT then b else b[..PAGE_LIMIT]
  }

  /** The smallest id, or zero when there is none, as the page loop accumulates it. */
  function MinId(msgs: seq<Msg>): int {
    if msgs == [] then 0
    else
      var m := MinId(msgs[..|msgs| - 1]);
      var id := msgs[|msgs| - 1].id;
      if m == 0 || id < m then id else m
  }

  lemma {:induction false} MinIdIsThere(msgs: seq<Msg>)
    ensures MinId(msgs) != 0 ==> exists m :: m in msgs && m.id == MinId(msgs)
  {
    if msgs != [] {
      MinIdIsThere(msgs[..|msgs| - 1]);
      assert msgs[|msgs| - 1] in msgs;
    }
  }

  lemma {:induction false} RealsAreThere(v: seq<Msg>)
    ensures forall m :: m in Reals(v) <==> m in v && m.ordinary
  {
    if v != [] {
      RealsAreThere(v[1..]);
      assert v == [v[0]] + v[1..];
    }
  }

  lemma {:induction false} BelowShrinks(v: seq<Msg>, offset: int, lower: int)
    requires lower != 0 && (offset == 0 || lower <= offset)
    ensures |Below(v, lower)| <= |Below(v, offset)|
    ensures (exists m :: m in Below(v, offset) && m.id == lower) ==> |Below(v, lower)| < |Below(v, offset)|
  {
    if v != [] {
      BelowShrinks(v[1..], offset, lower);
    }
  }

  /** A page with an ordinary message moves the offset strictly back. */
  lemma ScanProgresses(v: seq<Msg>, offset: int)
    requires MinId(Reals(Page(v, offset))) != 0
    ensures var minID := MinId(Reals(Page(v, offset)));
            (offset == 0 || minID < offset) && |Below(v, minID)| < |Below(v, offset)|
  {
    var page := Page(v, offset);
    RealsAreThere(page);
    MinIdIsThere(Reals(page));
    var m :| m in Reals(page) && m.id == MinId(Reals(page));
    assert m in page && m in Below(v, offset);
    BelowShrinks(v, offset, m.id);
  }

  /** The messages handed to the callback, whether the walk ran to its end, and the next request number. */
  datatype Scan = Scan(seen: seq<Msg>, ok: bool, next: nat)

  /** The walk over a fixed window from an offset; request n is answered when searchOk(n) holds. */
  function ScanFrom(v: seq<Msg>, offset: int, searchOk: nat -> bool, n: nat): Scan
    decreases |Below(v, offset)|
  {
    if !searchOk(n) then Scan([], false, n + 1)
    else
      var page := Page(v, offset);
      var reals := Reals(page);
      var minID := MinId(reals);
      if |page| == 0 || minID == 0 || minID == offset then Scan(reals, true, n + 1)
      else
        ScanProgresses(v, offset);
        var rest := ScanFrom(v, minID, searchOk, n + 1);
        Scan(reals + rest.seen, rest.ok, rest.next)
  }

  /** The plain walk, one message at a time, that gives up after a page's worth of service messages in a row. */
  function Walk(v: seq<Msg>, services: nat): seq<Msg> {
    if v == [] then []
    else if v[0].ordinary then [v[0]] + Walk(v[1..], 0)
    else if services + 1 >= PAGE_LIMIT then []
    else Walk(v[1..], services + 1)
  }

  ghost predicate AllService(v: seq<Msg>) {
    forall i :: 0 <= i < |v| ==> !v[i].ordinary
  }

  lemma {:induction false} BelowAll(v: seq<Msg>, offset: int)
    requires forall i :: 0 <= i < |v| ==> Before(v[i], offset)
    ensures Below(v, offset) == v
  {
    if v != [] {
      BelowAll(v[1..], offset);
    }
  }

  /** In a descending history the messages before the p-th one's predecessor are the suffix from p. */
  lemma {:induction false} BelowIsSuffix(v: seq<Msg>, p: nat)
    requires Descending(v) && 1 <= p <= |v|
    ensures Below(v, v[p - 1].id) == v[p..]
  {
    if p == 1 {
      BelowAll(v[1..], v[0].id);
    } else {
      BelowIsSuffix(v[1..], p - 1);
    }
  }

  lemma {:induction false} WalkStuck(u: seq<Msg>, services: nat)
    requires services < PAGE_LIMIT
    requires AllService(if |u| <= PAGE_LIMIT - services then u else u[..PAGE_LIMIT - services])
    ensures Walk(u, services) == []
  {
    if u != [] {
      var t := if |u| <= PAGE_LIMIT - services then u else u[..PAGE_LIMIT - services];
      assert u[0] == t[0];
      if services + 1 < PAGE_LIMIT {
        var w := u[1..];
        assert (if |w| <= PAGE_LIMIT - services - 1 then w else w[..PAGE_LIMIT - services - 1]) == t[1..];
        WalkStuck(w, services + 1);
      }
    }
  }

  lemma {:induction false} WalkThrough(u: seq<Msg>, services: nat, last: nat)
    requires services + last < PAGE_LIMIT && last < |u| && u[last].ordinary
    ensures Walk(u, services) == Reals(u[..last + 1]) + Walk(u[last + 1..], 0)
  {
    var head := u[..last + 1];
    assert head[0] == u[0] && head[1..] == u[1..][..last];
    if last == 0 {
      assert Reals(head[1..]) == [];
    } else {
      WalkThrough(u[1..], if u[0].ordinary then 0 else services + 1, last - 1);
      assert u[1..][last..] == u[last + 1..];
    }
  }

  lemma {:induction false} RealsAppend(a: seq<Msg>, b: seq<Msg>)
    ensures Reals(a + b) == Reals(a) + Reals(b)
  {
    if a == [] {
      assert a + b == b;
    } else {
      assert (a + b)[1..] == a[1..] + b;
      RealsAppend(a[1..], b);
    }
  }

  lemma {:induction false} RealsOfService(v: seq<Msg>)
    ensures AllService(v) <==> Reals(v) == []
  {
    if v != [] {
      RealsOfService(v[1..]);
      assert AllService(v) <==> !v[0].ordinary && AllService(v[1..]) by {
        assert v == [v[0]] + v[1..];
      }
    }
  }

  lemma DescendingSlice(v: seq<Msg>, lo: nat, hi: nat)
    requires Descending(v) && lo <= hi <= |v|
    ensures Descending(v[lo..hi])
  {
    var s := v[lo..hi];
    assert forall i :: 0 <= i < |s| ==> s[i] == v[lo + i];
  }

  lemma DescendingCons(m: Msg, t: seq<Msg>)
    requires Descending(t) && m.id >= 1
    requires forall x :: x in t ==> x.id < m.id
    ensures Descending([m] + t)
  {
    var s := [m] + t;
    forall i, j | 0 <= i < j < |s| ensures s[i].id > s[j].id {
      assert s[j] == t[j - 1];
      if i > 0 {
        assert s[i] == t[i - 1];
      }
    }
  }

  lemma HeadIsNewest(v: seq<Msg>, m: Msg)
    requires Descending(v) && v != [] && m in v[1..]
    ensures m.id < v[0].id
  {
    var i :| 0 <= i < |v[1..]| && v[1..][i] == m;
    assert v[i + 1] == m;
  }

  lemma {:induction false} RealsDescend(v: seq<Msg>)
    requires Descending(v)
    ensures Descending(Reals(v))
  {
    if v != [] {
      DescendingSlice(v, 1, |v|);
      RealsDescend(v[1..]);
      if v[0].ordinary {
        RealsAreThere(v[1..]);
        forall m | m in Reals(v[1..]) ensures m.id < v[0].id {
          HeadIsNewest(v, m);
        }
        DescendingCons(v[0], Reals(v[1..]));
      }
    }
  }

  lemma {:induction false} MinIdOfDescending(s: seq<Msg>)
    requires Descending(s) && s != []
    ensures MinId(s) == s[|s| - 1].id
  {
    if |s| > 1 {
      MinIdOfDescending(s[..|s| - 1]);
    }
  }

  /** The last ordinary message of a page stands at l. */
  ghost predicate EndsAt(page: seq<Msg>, l: nat) {
    l < |page| && page[l].ordinary && AllService(page[l + 1..])
  }

  lemma {:induction false} FindLast(v: seq<Msg>) returns (l: nat)
    requires !AllService(v)
    ensures EndsAt(v, l)
  {
    var k := |v| - 1;
    if v[k].ordinary {
      l := k;
    } else {
      l := FindLast(v[..k]);
      assert v[l + 1..] == v[..k][l + 1..] + [v[k]];
    }
  }

  lemma RealsUpTo(page: seq<Msg>, l: nat)
    requires EndsAt(page, l)
    ensures Reals(page) == Reals(page[..l + 1]) == Reals(page[..l]) + [page[l]]
  {
    assert page == page[..l + 1] + page[l + 1..];
    RealsAppend(page[..l + 1], page[l + 1..]);
    RealsOfService(page[l + 1..]);
    assert page[..l + 1] == page[..l] + [page[l]];
    RealsAppend(page[..l], [page[l]]);
    assert Reals([page[l]]) == [page[l]] + Reals([]);
  }

  /**
   * The paged walk over a descending window, from any page boundary, is the plain walk from there; when a
   * request fails it has delivered a prefix of it.
   */
  lemma {:induction false} ScanIsWalkFrom(v: seq<Msg>, p: nat, offset: int, searchOk: nat -> bool, n: nat)
    requires Descending(v) && p <= |v|
    requires offset == if p == 0 then 0 else v[p - 1].id
    ensures var s := ScanFrom(v, offset, searchOk, n);
            && s.seen <= Walk(v[p..], 0)
            && (s.ok ==> s.seen == Walk(v[p..], 0))
            && ((forall k :: searchOk(k)) ==> s.ok)
            && s.next > n
    decreases |v| - p
  {
    var page := Page(v, offset);
    if !searchOk(n) {
    } else if AllService(page) {
      WalkEnds(v, p, offset);
    } else {
      var l := FindLast(page);
      WalkTurnsPage(v, p, offset, l);
      var after := p + l + 1;
      var next := v[after - 1].id;
      ScanIsWalkFrom(v, after, next, searchOk, n + 1);
      ScanUnfolds(v, offset, next, searchOk, n);
      PrefixUnder(Reals(page), ScanFrom(v, next, searchOk, n + 1).seen, Walk(v[after..], 0));
    }
  }

  /** A page of service messages only ends the plain walk. */
  lemma WalkEnds(v: seq<Msg>, p: nat, offset: int)
    requires Descending(v) && p <= |v| && AllService(Page(v, offset))
    requires offset == if p == 0 then 0 else v[p - 1].id
    ensures Walk(v[p..], 0) == [] && Reals(Page(v, offset)) == []
  {
    var u, page := v[p..], Page(v, offset);
    PageAt(v, p, offset);
    RealsOfService(page);
    assert page == if |u| <= PAGE_LIMIT then u else u[..PAGE_LIMIT];
    WalkStuck(u, 0);
  }

  /** Any other page takes the plain walk to just behind its last ordinary message, where the next one starts. */
  lemma WalkTurnsPage(v: seq<Msg>, p: nat, offset: int, l: nat)
    requires Descending(v) && p <= |v| && EndsAt(Page(v, offset), l)
    requires offset == if p == 0 then 0 else v[p - 1].id
    ensures var page := Page(v, offset);
            && p + l < |v| && MinId(Reals(page)) == v[p + l].id > 0 && v[p + l].id != offset
            && Walk(v[p..], 0) == Reals(page) + Walk(v[p + l + 1..], 0)
  {
    PageAt(v, p, offset);
    PageTurns(v, p, Page(v, offset), l);
  }

  lemma PageTurns(v: seq<Msg>, p: nat, page: seq<Msg>, l: nat)
    requires Descending(v) && p <= |v| && page <= v[p..] && |page| <= PAGE_LIMIT && EndsAt(page, l)
    ensures p + l < |v| && MinId(Reals(page)) == v[p + l].id > 0 && (p == 0 || v[p + l].id != v[p - 1].id)
    ensures Walk(v[p..], 0) == Reals(page) + Walk(v[p + l + 1..], 0)
  {
    LastOfPage(v, p, page, l);
    assert v[p..][l] == page[l];
    WalkOn(v[p..], l);
    BehindPage(v, p, l);
  }

  lemma WalkOn(u: seq<Msg>, l: nat)
    requires l < PAGE_LIMIT && l < |u| && u[l].ordinary
    ensures Walk(u, 0) == Reals(u[..l + 1]) + Walk(u[l + 1..], 0)
  {
    WalkThrough(u, 0, l);
  }

  lemma BehindPage(v: seq<Msg>, p: nat, l: nat)
    requires p + l < |v|
    ensures v[p..][l + 1..] == v[p + l + 1..]
  {}

  lemma ScanUnfolds(v: seq<Msg>, offset: int, next: int, searchOk: nat -> bool, n: nat)
    requires searchOk(n) && next == MinId(Reals(Page(v, offset)))
    requires next != 0 && next != offset && Page(v, offset) != []
    ensures var rest := ScanFrom(v, next, searchOk, n + 1);
            ScanFrom(v, offset, searchOk, n) == Scan(Reals(Page(v, offset)) + rest.seen, rest.ok, rest.next)
  {}

  /** The whole walk is what has been delivered so far followed by the rest of it. */
  ghost predicate Continues(whole: Scan, seen: seq<Msg>, rest: Scan) {
    whole == Scan(seen + rest.seen, rest.ok, rest.next)
  }

  /** One turn of the page loop: it ends the walk, or leaves a strictly shorter one to continue with. */
  lemma ScanTurn(v: seq<Msg>, offset: int, searchOk: nat -> bool, n: nat, seen: seq<Msg>, whole: Scan)
    requires Continues(whole, seen, ScanFrom(v, offset, searchOk, n))
    ensures !searchOk(n) ==> whole == Scan(seen, false, n + 1)
    ensures var page := Page(v, offset);
            var minID := MinId(Reals(page));
            searchOk(n) ==>
              if |page| == 0 || minID == 0 || minID == offset then
                whole == Scan(seen + Reals(page), true, n + 1)
              else
                && |Below(v, minID)| < |Below(v, offset)|
                && Continues(whole, seen + Reals(page), ScanFrom(v, minID, searchOk, n + 1))
  {
    var page := Page(v, offset);
    var minID := MinId(Reals(page));
    if searchOk(n) && |page| != 0 && minID != 0 && minID != offset {
      ScanProgresses(v, offset);
      ScanUnfolds(v, offset, minID, searchOk, n);
      var rest := ScanFrom(v, minID, searchOk, n + 1);
      assert seen + (Reals(page) + rest.seen) == seen + Reals(page) + rest.seen;
    }
  }

  lemma PrefixUnder(a: seq<Msg>, x: seq<Msg>, y: seq<Msg>)
    requires x <= y
    ensures a + x <= a + y
  {}

  lemma PageAt(v: seq<Msg>, p: nat, offset: int)
    requires Descending(v) && p <= |v|
    requires offset == if p == 0 then 0 else v[p - 1].id
    ensures Below(v, offset) == v[p..]
  {
    if p == 0 {
      BelowAll(v, 0);
    } else {
      BelowIsSuffix(v, p);
    }
  }

  /** A page's smallest ordinary id is that of its last ordinary message. */
  lemma LastOfPage(v: seq<Msg>, p: nat, page: seq<Msg>, l: nat)
    requires Descending(v) && p <= |v| && page <= v[p..] && EndsAt(page, l)
    ensures p + l < |v| && Reals(page) == Reals(v[p..][..l + 1])
    ensures MinId(Reals(page)) == v[p + l].id > 0 && (p == 0 || v[p + l].id != v[p - 1].id)
  {
    assert page[..l + 1] == v[p..][..l + 1] && page[l] == v[p + l];
    RealsUpTo(page, l);
    PageDescends(v, p, page);
    RealsDescend(page);
    MinIdOfDescending(Reals(page));
  }

  lemma PageDescends(v: seq<Msg>, p: nat, page: seq<Msg>)
    requires Descending(v) && p <= |v| && page <= v[p..]
    ensures Descending(page)
  {
    assert page == v[p..p + |page|];
    DescendingSlice(v, p, p + |page|);
  }

  /**
   * Main result on scanning: paging equals the plain walk of the window, and a walk cut short by a failing
   * request has visited a prefix of it.
   */
  lemma ScanIsWalk(v: seq<Msg>, searchOk: nat -> bool, n: nat)
    requires Descending(v)
    ensures var s := ScanFrom(v, 0, searchOk, n);
            && s.seen <= Walk(v, 0)
            && (s.ok ==> s.seen == Walk(v, 0))
            && ((forall k :: searchOk(k)) ==> s.ok)
  {
    ScanIsWalkFrom(v, 0, 0, searchOk, n);
    assert v[0..] == v;
  }

  /** A walk visits ordinary messages of the window only, each at most once, newest first. */
  lemma {:induction false} WalkVisits(v: seq<Msg>, services: nat)
    ensures Walk(v, services) <= Reals(v)
  {
    if v != [] {
      WalkVisits(v[1..], if v[0].ordinary then 0 else services + 1);
    }
  }

  /** A page's worth of service messages with an ordinary message somewhere behind them. */
  ghost predicate Blocked(v: seq<Msg>) {
    exists j, k :: 0 <= j && j + PAGE_LIMIT <= k < |v| && v[k].ordinary && ServiceRun(v, j)
  }

  ghost predicate ServiceRun(v: seq<Msg>, j: nat)
    requires j + PAGE_LIMIT <= |v|
  {
    forall i :: j <= i < j + PAGE_LIMIT ==> !v[i].ordinary
  }

  /** The first n messages are service messages, and an ordinary one stands somewhere behind them. */
  ghost predicate StartsBlocked(v: seq<Msg>, n: nat) {
    exists k :: n <= k < |v| && v[k].ordinary && AllService(v[..n])
  }

  /** The same, when some service messages have already been passed. */
  ghost predicate BlockedAfter(v: seq<Msg>, services: nat)
    requires services < PAGE_LIMIT
  {
    StartsBlocked(v, PAGE_LIMIT - services) || Blocked(v)
  }

  lemma BlockedTail(v: seq<Msg>)
    requires v != []
    ensures Blocked(v[1..]) ==> Blocked(v)
    ensures v[0].ordinary && Blocked(v) ==> Blocked(v[1..])
  {
    var t := v[1..];
    if Blocked(t) {
      var j, k :| 0 <= j && j + PAGE_LIMIT <= k < |t| && t[k].ordinary && ServiceRun(t, j);
      assert v[k + 1].ordinary && ServiceRun(v, j + 1);
    }
    if v[0].ordinary && Blocked(v) {
      var j, k :| 0 <= j && j + PAGE_LIMIT <= k < |v| && v[k].ordinary && ServiceRun(v, j);
      assert t[k - 1].ordinary && ServiceRun(t, j - 1);
    }
  }

  lemma StartsBlockedStep(v: seq<Msg>, n: nat)
    requires v != [] && !v[0].ordinary && n > 0
    ensures StartsBlocked(v, n) <==> StartsBlocked(v[1..], n - 1)
  {
    var t := v[1..];
    if StartsBlocked(v, n) {
      var k :| n <= k < |v| && v[k].ordinary && AllService(v[..n]);
      assert t[k - 1].ordinary && t[..n - 1] == v[..n][1..];
    }
    if StartsBlocked(t, n - 1) {
      var k :| n - 1 <= k < |t| && t[k].ordinary && AllService(t[..n - 1]);
      assert v[k + 1].ordinary && v[..n] == [v[0]] + t[..n - 1];
    }
  }

  lemma StartsBlockedFewer(v: seq<Msg>, n: nat, more: nat)
    requires n <= more && StartsBlocked(v, more)
    ensures StartsBlocked(v, n)
  {
    var k :| more <= k < |v| && v[k].ordinary && AllService(v[..more]);
    assert forall i :: 0 <= i < n ==> v[..n][i] == v[..more][i];
  }

  /** A run that blocks v starts at its head or blocks the rest. */
  lemma BlockedAtHead(v: seq<Msg>)
    requires v != [] && Blocked(v)
    ensures Blocked(v[1..]) || StartsBlocked(v, PAGE_LIMIT)
  {
    var t := v[1..];
    var j, k :| 0 <= j && j + PAGE_LIMIT <= k < |v| && v[k].ordinary && ServiceRun(v, j);
    if j > 0 {
      assert t[k - 1].ordinary && ServiceRun(t, j - 1);
    } else {
      assert AllService(v[..PAGE_LIMIT]);
    }
  }

  lemma BlockedStep(v: seq<Msg>, services: nat)
    requires v != [] && !v[0].ordinary && services + 1 < PAGE_LIMIT
    ensures BlockedAfter(v, services) <==> BlockedAfter(v[1..], services + 1)
  {
    BlockedTail(v);
    StartsBlockedStep(v, PAGE_LIMIT - services);
    if Blocked(v) && !Blocked(v[1..]) {
      BlockedAtHead(v);
      StartsBlockedFewer(v, PAGE_LIMIT - services, PAGE_LIMIT);
    }
  }

  lemma {:induction false} WalkCompleteFrom(v: seq<Msg>, services: nat)
    requires services < PAGE_LIMIT
    ensures Walk(v, services) == Reals(v) <==> !BlockedAfter(v, services)
  {
    if v == [] {
    } else if v[0].ordinary {
      WalkCompleteFrom(v[1..], 0);
      BlockedTail(v);
      BlockedFromStart(v[1..]);
      assert ([v[0]] + Walk(v[1..], 0))[1..] == Walk(v[1..], 0);
      assert ([v[0]] + Reals(v[1..]))[1..] == Reals(v[1..]);
    } else if services + 1 >= PAGE_LIMIT {
      RealsOfService(v);
      assert AllService(v[..1]);
    } else {
      WalkCompleteFrom(v[1..], services + 1);
      BlockedStep(v, services);
    }
  }

  lemma BlockedFromStart(v: seq<Msg>)
    ensures BlockedAfter(v, 0) <==> Blocked(v)
  {
    if k :| PAGE_LIMIT <= k < |v| && v[k].ordinary && AllService(v[..PAGE_LIMIT]) {
      forall i | 0 <= i < PAGE_LIMIT ensures !v[i].ordinary {
        assert v[i] == v[..PAGE_LIMIT][i];
      }
      assert ServiceRun(v, 0);
    }
  }

  /** The walk misses nothing exactly when no page's worth of service messages precedes an ordinary one. */
  lemma WalkCompleteIff(v: seq<Msg>)
    ensures Walk(v, 0) == Reals(v) <==> !Blocked(v)
  {
    WalkCompleteFrom(v, 0);
    BlockedFromStart(v);
  }

  // ---------------------------------------------------------------- what a walk reaches

  /** No page's worth of service messages in a row. */
  ghost predicate Unbroken(v: seq<Msg>) {
    forall j: nat | j + PAGE_LIMIT <= |v| :: !ServiceRun(v, j)
  }

  /** The walk gets through v when it has already passed some service messages. */
  predicate Passes(v: seq<Msg>, services: nat) {
    if v == [] then true
    else if v[0].ordinary then Passes(v[1..], 0)
    else services + 1 < PAGE_LIMIT && Passes(v[1..], services + 1)
  }

  /** How many service messages in a row the walk has passed when it leaves v. */
  function Trailing(v: seq<Msg>, services: nat): nat {
    if v == [] then services else Trailing(v[1..], if v[0].ordinary then 0 else services + 1)
  }

  /** The walk goes on behind u exactly when it gets through it. */
  lemma {:induction false} WalkSplit(u: seq<Msg>, t: seq<Msg>, services: nat)
    requires services < PAGE_LIMIT
    ensures Walk(u + t, services)
         == if Passes(u, services) then Reals(u) + Walk(t, Trailing(u, services)) else Walk(u, services)
    ensures Passes(u, services) ==> Trailing(u, services) < PAGE_LIMIT
    ensures Passes(u + t, services) <==> Passes(u, services) && Passes(t, Trailing(u, services))
  {
    if u == [] {
      assert u + t == t;
    } else {
      assert (u + t)[1..] == u[1..] + t;
      if u[0].ordinary {
        WalkSplit(u[1..], t, 0);
      } else if services + 1 < PAGE_LIMIT {
        WalkSplit(u[1..], t, services + 1);
      }
    }
  }

  lemma {:induction false} OrdinaryPasses(v: seq<Msg>, services: nat)
    requires forall i :: 0 <= i < |v| ==> v[i].ordinary
    ensures Passes(v, services)
  {
    if v != [] {
      OrdinaryPasses(v[1..], 0);
    }
  }

  lemma WalkIsReal(v: seq<Msg>)
    ensures forall m :: m in Walk(v, 0) ==> m in v && m.ordinary
  {
    WalkVisits(v, 0);
    RealsAreThere(v);
    assert forall m :: m in Walk(v, 0) ==> m in Reals(v);
  }

  lemma NotBefore(v: seq<Msg>, i: nat)
    requires Descending(v) && i < |v|
    ensures v[i] !in v[..i]
  {}

  /** A walk sees exactly the ordinary messages that it gets through to. */
  lemma WalkSees(v: seq<Msg>, i: nat)
    requires Descending(v) && i < |v|
    ensures v[i] in Walk(v, 0) <==> v[i].ordinary && Passes(v[..i], 0)
  {
    var u, t := v[..i], v[i..];
    assert v == u + t;
    WalkSplit(u, t, 0);
    if !Passes(u, 0) {
      WalkIsReal(u);
      NotBefore(v, i);
    } else if v[i].ordinary {
      assert Walk(t, Trailing(u, 0))[0] == v[i];
    } else {
      WalkIsReal(v);
    }
  }

  /** The walk gets through a list of messages exactly when it has no page's worth of service messages in a row. */
  lemma PassesIff(v: seq<Msg>)
    ensures Passes(v, 0) <==> Unbroken(v)
  {
    var m := Msg(1, 0, true);
    var w := v + [m];
    WalkSplit(v, [m], 0);
    RealsAppend(v, [m]);
    assert Reals([m]) == [m] + Reals([]) && Walk([m], Trailing(v, 0)) == [m] + Walk([], 0);
    WalkVisits(v, 0);
    WalkCompleteIff(w);
    BlockedByRun(v, m);
  }

  lemma BlockedByRun(v: seq<Msg>, m: Msg)
    requires m.ordinary
    ensures Blocked(v + [m]) <==> !Unbroken(v)
  {
    var w := v + [m];
    assert forall i :: 0 <= i < |v| ==> w[i] == v[i];
    if Blocked(w) {
      var j, k :| 0 <= j && j + PAGE_LIMIT <= k < |w| && w[k].ordinary && ServiceRun(w, j);
      assert ServiceRun(v, j);
    }
    if !Unbroken(v) {
      var j: nat :| j + PAGE_LIMIT <= |v| && ServiceRun(v, j);
      assert ServiceRun(w, j) && w[|v|].ordinary;
    }
  }

  /** Putting ordinary messages back in keeps a walk going. */
  lemma {:induction false} PassesThicker(v: seq<Msg>, gone: set<int>, services: nat, fewer: nat)
    requires forall m :: m in v && m.id in gone ==> m.ordinary
    requires fewer <= services && Passes(Remove(v, gone), services)
    ensures Passes(v, fewer)
  {
    if v != [] {
      assert v[0] in v;
      assert forall m :: m in v[1..] ==> m in v;
      if v[0].id in gone {
        PassesThicker(v[1..], gone, services, 0);
      } else {
        assert Remove(v, gone)[1..] == Remove(v[1..], gone);
        PassesThicker(v[1..], gone, if v[0].ordinary then 0 else services + 1, if v[0].ordinary then 0 else fewer + 1);
      }
    }
  }

  lemma {:induction false} RemoveAppend(u: seq<Msg>, t: seq<Msg>, gone: set<int>)
    ensures Remove(u + t, gone) == Remove(u, gone) + Remove(t, gone)
  {
    if u == [] {
      assert u + t == t;
    } else {
      assert (u + t)[1..] == u[1..] + t;
      RemoveAppend(u[1..], t, gone);
    }
  }

  // ---------------------------------------------------------------- batched deletion

  /** The most ids one delete request carries. */
  const DELETE_BATCH := 100

  /** The ids of the failing batches, in order. */
  function FailedOf(chunks: seq<seq<int>>, chunkOk: nat -> bool): seq<int> {
    if chunks == [] then []
    else
      var k := |chunks| - 1;
      FailedOf(chunks[..k], chunkOk) + (if chunkOk(k) then [] else chunks[k])
  }

  /** The ids of the batches that went through, in order. */
  function DeletedOf(chunks: seq<seq<int>>, chunkOk: nat -> bool): seq<int> {
    if chunks == [] then []
    else
      var k := |chunks| - 1;
      DeletedOf(chunks[..k], chunkOk) + (if chunkOk(k) then chunks[k] else [])
  }

  /** What one delete call reports as failed, and what it took off the server. */
  datatype Deletion = Deletion(failed: seq<int>, deleted: seq<int>)

  /** A stopped client sends nothing and reports no failed id. */
  function DeleteIds(ids: seq<int>, up: bool, chunkOk: nat -> bool): Deletion {
    if !up then Deletion([], [])
    else
      var chunks := Chunks.Split(ids, DELETE_BATCH);
      Deletion(FailedOf(chunks, chunkOk), DeletedOf(chunks, chunkOk))
  }

  function IdSet(ids: seq<int>): set<int> {
    set id | id in ids
  }

  lemma {:induction false} FailedAndDeleted(chunks: seq<seq<int>>, chunkOk: nat -> bool)
    ensures multiset(FailedOf(chunks, chunkOk)) + multiset(DeletedOf(chunks, chunkOk))
         == multiset(Chunks.Flatten(chunks))
  {
    if chunks != [] {
      var k := |chunks| - 1;
      FailedAndDeleted(chunks[..k], chunkOk);
      assert chunks == chunks[..k] + [chunks[k]];
      Chunks.FlattenAppend(chunks[..k], [chunks[k]]);
      assert Chunks.Flatten([chunks[k]]) == chunks[k] + Chunks.Flatten([]) == chunks[k];
    }
  }

  /** With the client running, every id submitted is either reported failed or deleted, occurrence by occurrence. */
  lemma DeletePartitions(ids: seq<int>, chunkOk: nat -> bool)
    ensures var d := DeleteIds(ids, true, chunkOk);
            multiset(d.failed) + multiset(d.deleted) == multiset(ids)
  {
    FailedAndDeleted(Chunks.Split(ids, DELETE_BATCH), chunkOk);
    Chunks.SplitFlattens(ids, DELETE_BATCH);
  }

  ghost predicate Distinct(ids: seq<int>) {
    forall i, j :: 0 <= i < j < |ids| ==> ids[i] != ids[j]
  }

  // ---------------------------------------------------------------- the client

  /** Which requests go through: search requests, the client being up at a delete call, and its batches. */
  datatype Net = Net(searchOk: nat -> bool, up: nat -> bool, chunkOk: (nat, nat) -> bool)

  function ChunkOk(net: Net, call: nat): nat -> bool {
    (k: nat) => net.chunkOk(call, k)
  }

  /** One round of the page loop: ask for a page, hand it to the callback, and move the offset unless this was all. */
  method TakePage(v: seq<Msg>, offsetID: int, answered: nat -> bool, n: nat, seen: seq<Msg>, ghost whole: Scan)
    returns (done: bool, ok: bool, more: seq<Msg>, next: int)
    requires Continues(whole, seen, ScanFrom(v, offsetID, answered, n))
    ensures done ==> whole == Scan(more, ok, n + 1)
    ensures !done ==> Continues(whole, more, ScanFrom(v, next, answered, n + 1))
    ensures !done ==> |Below(v, next)| < |Below(v, offsetID)|
  {
    ScanTurn(v, offsetID, answered, n, seen, whole);
    if !answered(n) {
      return true, false, seen, offsetID;
    }
    var msgs := Page(v, offsetID);
    var counted, minID := ReadPage(msgs);
    done, ok, more, next := |msgs| == 0 || minID == 0 || minID == offsetID, true, seen + counted, minID;
  }

  class Client {
    const net: Net
    const window: nat
    var groups: map<int, Group>
    var history: map<int, seq<Msg>>
    var searches: nat
    var deletes: nat

    constructor (net: Net, window: nat, history: map<int, seq<Msg>>)
      ensures this.net == net && this.window == window && this.history == history
      ensures groups == map[] && searches == 0 && deletes == 0
    {
      this.net, this.window, this.history := net, window, history;
      groups, searches, deletes := map[], 0, 0;
    }

    /** The account's own messages in a chat, newest first. */
    function Own(chat: int): seq<Msg>
      reads this
    {
      if chat in history then history[chat] else []
    }

    /** Refreshes the cache from a dialog listing and sorts it by title; a listing that fails changes nothing. */
    method ResolveGroups(listing: Option<seq<Group>>) returns (listed: Option<seq<Group>>)
      modifies this`groups
      ensures listed.Some? <==> listing.Some?
      ensures listing.Some? ==> ByTitle(listed.value, listing.value)
      ensures groups == if listing.Some? then Refreshed(old(groups), listing.value) else old(groups)
    {
      listed := None;
      if listing.Some? {
        var all := listing.value;
        assert all[..0] == [];
        for i := 0 to |all|
          invariant groups == Refreshed(old(groups), all[..i])
        {
          assert all[..i + 1][..i] == all[..i];
          groups := groups[all[i].markedID := all[i]];
        }
        assert all[..|all|] == all;
        TitleRanks();
        Sorting.SortSorts(all, TitleLe);
        listed := Some(Sorting.Sort(all, TitleLe));
      }
    }

    /** Walks the window page by page; the callback calls are returned in order. */
    method ScanOwn(chat: int) returns (seen: seq<Msg>, ok: bool)
      modifies this`searches
      ensures Scan(seen, ok, searches) == ScanFrom(Window(Own(chat), window), 0, net.searchOk, old(searches))
    {
      var v, answered := Window(Own(chat), window), net.searchOk;
      ghost var whole := ScanFrom(v, 0, answered, searches);
      var offsetID := 0;
      seen, ok := [], true;
      while true
        invariant Continues(whole, seen, ScanFrom(v, offsetID, answered, searches))
        decreases |Below(v, offsetID)|
      {
        var done: bool;
        done, ok, seen, offsetID := TakePage(v, offsetID, answered, searches, seen, whole);
        searches := searches + 1;
        if done {
          return;
        }
      }
    }

    /** Deletes in batches; a failing batch leaves all its messages in place. */
    method Delete(chat: int, ids: seq<int>) returns (failed: seq<int>, err: bool)
      modifies this`history, this`deletes
      ensures var d := DeleteIds(ids, net.up(old(deletes)), ChunkOk(net, old(deletes)));
              && failed == d.failed
              && history == old(history)[chat := Remove(old(Own(chat)), IdSet(d.deleted))]
      ensures deletes == old(deletes) + 1
      ensures err <==> !net.up(old(deletes)) || failed != []
    {
      var call := deletes;
      ghost var h := Own(chat);
      deletes := deletes + 1;
      RemoveNothing(h);
      assert IdSet([]) == {};
      history := history[chat := Own(chat)];
      if !net.up(call) {
        return [], true;
      }
      var chunks := Chunks.ChunkInts(ids, DELETE_BATCH);
      failed, err := DeleteChunks(chat, call, chunks);
      AllOkIff(ids, ChunkOk(net, call));
    }

    method DeleteChunks(chat: int, call: nat, chunks: seq<seq<int>>) returns (failed: seq<int>, err: bool)
      requires chat in history
      modifies this`history
      ensures failed == FailedOf(chunks, ChunkOk(net, call))
      ensures err <==> !AllOk(|chunks|, ChunkOk(net, call))
      ensures history == old(history)[chat := Remove(old(history[chat]), IdSet(DeletedOf(chunks, ChunkOk(net, call))))]
    {
      ghost var h := history[chat];
      ghost var ok := ChunkOk(net, call);
      RemoveNothing(h);
      assert IdSet([]) == {};
      failed, err := [], false;
      assert chunks[..0] == [];
      for k := 0 to |chunks|
        invariant failed == FailedOf(chunks[..k], ok)
        invariant err == !AllOk(k, ok)
        invariant chat in history && history == old(history)[chat := Remove(h, IdSet(DeletedOf(chunks[..k], ok)))]
      {
        ChunkStep(h, chunks, k, ok);
        var e := DeleteChunk(chat, call, k, chunks[k]);
        if e {
          failed := failed + chunks[k];
          err := true;
        }
      }
      assert chunks[..|chunks|] == chunks;
    }

    /** One delete request: all of the batch goes, or none of it. */
    method DeleteChunk(chat: int, call: nat, k: nat, chunk: seq<int>) returns (e: bool)
      requires chat in history
      modifies this`history
      ensures e == !net.chunkOk(call, k)
      ensures history == if e then old(history) else old(history)[chat := Remove(old(history[chat]), IdSet(chunk))]
    {
      e := !net.chunkOk(call, k);
      if !e {
        history := history[chat := Remove(history[chat], IdSet(chunk))];
      }
    }
  }

  ghost predicate AllOk(n: nat, ok: nat -> bool) {
    forall k :: 0 <= k < n ==> ok(k)
  }

  lemma {:induction false} FailedNothing(chunks: seq<seq<int>>, ok: nat -> bool)
    requires forall i :: 0 <= i < |chunks| ==> chunks[i] != []
    ensures FailedOf(chunks, ok) == [] <==> AllOk(|chunks|, ok)
  {
    if chunks != [] {
      FailedNothing(chunks[..|chunks| - 1], ok);
    }
  }

  lemma AllOkIff(ids: seq<int>, ok: nat -> bool)
    ensures var chunks := Chunks.Split(ids, DELETE_BATCH);
            FailedOf(chunks, ok) == [] <==> AllOk(|chunks|, ok)
  {
    Chunks.SplitSizes(ids, DELETE_BATCH);
    FailedNothing(Chunks.Split(ids, DELETE_BATCH), ok);
  }

  /** Counts one page: the ordinary messages in order, and the smallest of their ids. */
  method ReadPage(msgs: seq<Msg>) returns (counted: seq<Msg>, minID: int)
    ensures counted == Reals(msgs) && minID == MinId(Reals(msgs))
  {
    counted, minID := [], 0;
    assert msgs[..0] == [];
    for i := 0 to |msgs|
      invariant counted == Reals(msgs[..i]) && minID == MinId(counted)
    {
      var m := msgs[i];
      assert msgs[..i + 1] == msgs[..i] + [m];
      RealsAppend(msgs[..i], [m]);
      if !m.ordinary {
        continue;
      }
      ghost var longer := counted + [m];
      assert longer[..|longer| - 1] == counted;
      counted := counted + [m];
      if minID == 0 || m.id < minID {
        minID := m.id;
      }
    }
    assert msgs[..|msgs|] == msgs;
  }

  lemma ChunkStep(h: seq<Msg>, chunks: seq<seq<int>>, k: nat, ok: nat -> bool)
    requires k < |chunks|
    ensures FailedOf(chunks[..k + 1], ok) == FailedOf(chunks[..k], ok) + (if ok(k) then [] else chunks[k])
    ensures var before := Remove(h, IdSet(DeletedOf(chunks[..k], ok)));
            Remove(h, IdSet(DeletedOf(chunks[..k + 1], ok)))
            == if ok(k) then Remove(before, IdSet(chunks[k])) else before
  {
    assert chunks[..k + 1][..k] == chunks[..k];
    var gone := DeletedOf(chunks[..k], ok);
    if ok(k) {
      assert IdSet(gone + chunks[k]) == IdSet(gone) + IdSet(chunks[k]);
      RemoveTwice(h, IdSet(gone), IdSet(chunks[k]));
    } else {
      assert gone + [] == gone;
    }
  }

  lemma {:induction false} RemoveNothing(h: seq<Msg>)
    ensures Remove(h, {}) == h
  {
    if h != [] {
      RemoveNothing(h[1..]);
    }
  }

  lemma {:induction false} RemoveTwice(h: seq<Msg>, a: set<int>, b: set<int>)
    ensures Remove(Remove(h, a), b) == Remove(h, a + b)
  {
    if h != [] {
      RemoveTwice(h[1..], a, b);
      if h[0].id !in a {
        assert Remove(h, a)[1..] == Remove(h[1..], a);
      }
    }
  }
}
