/** Which ordinary messages of a thinned-out history a scan of its window gets to, and which are hidden from it. */
module DrainHidden {
  import opened Telegram
  import opened Deletion
  import opened Drain

  /** The ids at or above a bound. */
  function Newer(h: seq<Msg>, bound: int): set<int> {
    set m | m in h && m.id >= bound :: m.id
  }

  ghost predicate AllOrdinary(h: seq<Msg>) {
    forall m :: m in h ==> m.ordinary
  }

  // ---------------------------------------------------------------- windows

  lemma {:induction false} WalkOfOrdinary(v: seq<Msg>)
    requires AllOrdinary(v)
    ensures Walk(v, 0) == v
  {
    if v != [] {
      WalkOfOrdinary(v[1..]);
      assert v[0] in v;
    }
  }

  lemma SeenIsInside(h: seq<Msg>, window: nat, seen: seq<Msg>, m: Msg)
    requires Descending(h) && seen <= Walk(Window(h, window), 0) && m in seen
    ensures m in h && m.ordinary
  {
    SeenIsPartOfWindow(h, window, seen);
  }

  /** The smallest id seen belongs to the window and bounds everything seen from below. */
  lemma OldestOfSeen(h: seq<Msg>, window: nat, seen: seq<Msg>)
    requires Descending(h) && seen <= Walk(Window(h, window), 0) && seen != []
    ensures MinId(seen) != 0
    ensures exists i :: 0 <= i < |Window(h, window)| && Window(h, window)[i].id == MinId(seen)
    ensures forall m :: m in seen ==> m.id >= MinId(seen)
  {
    SeenIsPartOfWindow(h, window, seen);
    MinIdOfDescending(seen);
    var v := Window(h, window);
    assert seen[|seen| - 1] in v;
    forall m | m in seen ensures m.id >= MinId(seen) {
      var i :| 0 <= i < |seen| && seen[i] == m;
    }
  }

  /** Nothing at or above the oldest message seen lies outside the window, so it is at most a window's worth. */
  lemma NewerFitsWindow(h: seq<Msg>, window: nat, seen: seq<Msg>)
    requires Descending(h) && seen <= Walk(Window(h, window), 0) && seen != []
    ensures |Newer(h, MinId(seen))| <= window
  {
    var v := Window(h, window);
    OldestOfSeen(h, window, seen);
    WindowIsPrefix(h, window);
    var k :| 0 <= k < |v| && v[k].id == MinId(seen);
    assert h[k] == v[k];
    forall id | id in Newer(h, MinId(seen)) ensures id in Ids(v) {
      var m :| m in h && m.id == id;
      var i :| 0 <= i < |h| && h[i] == m;
      assert i <= k && v[i] == m;
    }
    SubsetSize(Newer(h, MinId(seen)), Ids(v));
    IdsSize(v);
  }

  lemma SubsetSize(a: set<int>, b: set<int>)
    requires a <= b
    ensures |a| <= |b|
    ensures a != b ==> |a| < |b|
  {
    assert b == a + (b - a);
    assert a != b ==> b - a != {};
  }

  lemma SomeWasSeen(seen: seq<Msg>, gone: set<int>)
    requires gone != {} && forall id :: id in gone ==> exists m :: m in seen && m.id == id
    ensures exists m :: m in seen && m.id in gone
  {
    if forall m :: m in seen ==> m.id !in gone {
      assert forall id :: id in gone ==> id in {};
    }
  }

  /** Deleting something that was seen leaves strictly less than a window at or above the oldest seen. */
  lemma NewerShrinks(h: seq<Msg>, window: nat, seen: seq<Msg>, gone: set<int>)
    requires Descending(h) && seen <= Walk(Window(h, window), 0)
    requires gone != {} && forall id :: id in gone ==> exists m :: m in seen && m.id == id
    ensures MinId(seen) != 0
    ensures |Newer(Remove(h, gone), MinId(seen))| < window
  {
    SomeWasSeen(seen, gone);
    var m :| m in seen && m.id in gone;
    OldestOfSeen(h, window, seen);
    NewerFitsWindow(h, window, seen);
    SeenIsPartOfWindow(h, window, seen);
    var before, after := Newer(h, MinId(seen)), Newer(Remove(h, gone), MinId(seen));
    forall x | x in after ensures x in before && x !in gone {
      var y :| y in Remove(h, gone) && y.id == x && y.id >= MinId(seen);
      RemoveMembers(h, gone, y);
    }
    assert m.id in before && m.id !in after;
    SubsetSize(after, before);
  }

  // ---------------------------------------------------------------- a history that loses ordinary messages

  /** What is left of a history from which only ordinary messages have gone. */
  ghost predicate Thinned(h0: seq<Msg>, gone: set<int>, h: seq<Msg>) {
    h == Remove(h0, gone) && forall m :: m in h0 && m.id in gone ==> m.ordinary
  }

  /** The walk of the window gets as far as the place of the c-th message of the original history. */
  predicate Reached(h0: seq<Msg>, gone: set<int>, window: nat, c: nat)
    requires c <= |h0|
  {
    var newer := Remove(h0[..c], gone);
    |newer| < window && Passes(newer, 0)
  }

  /** Where a message of the original history stands in what is left. */
  lemma Place(h0: seq<Msg>, gone: set<int>, x: nat)
    requires x < |h0| && h0[x].id !in gone
    ensures var h, newer := Remove(h0, gone), Remove(h0[..x], gone);
            |newer| < |h| && h[|newer|] == h0[x] && h[..|newer|] == newer
  {
    var h, newer := Remove(h0, gone), Remove(h0[..x], gone);
    assert h0 == h0[..x] + h0[x..];
    RemoveAppend(h0[..x], h0[x..], gone);
    assert Remove(h0[x..], gone)[0] == h0[x];
  }

  /** The walk of the window sees exactly the ordinary messages whose place it reaches. */
  lemma SeenIffReached(h0: seq<Msg>, gone: set<int>, window: nat, x: nat)
    requires Descending(h0) && x < |h0| && h0[x].id !in gone
    ensures h0[x] in Walk(Window(Remove(h0, gone), window), 0) <==> h0[x].ordinary && Reached(h0, gone, window, x)
  {
    var h, newer := Remove(h0, gone), Remove(h0[..x], gone);
    var v := Window(h, window);
    RemoveDescends(h0, gone);
    WindowIsPrefix(h, window);
    Place(h0, gone, x);
    if |newer| < window {
      assert v[|newer|] == h0[x] && v[..|newer|] == newer;
      WalkSees(v, |newer|);
    } else {
      WalkVisits(v, 0);
      RealsAreThere(v);
      forall m | m in v ensures m.id > h0[x].id {
        var i :| 0 <= i < |v| && v[i] == m;
      }
      assert forall m :: m in Walk(v, 0) ==> m in Reals(v);
    }
  }

  /** Everything newer than a reached place is reached. */
  lemma ReachedNewer(h0: seq<Msg>, gone: set<int>, window: nat, x: nat, c: nat)
    requires x <= c <= |h0| && Reached(h0, gone, window, c)
    ensures Reached(h0, gone, window, x)
  {
    var u, t := h0[..x], h0[x..c];
    assert h0[..c] == u + t;
    RemoveAppend(u, t, gone);
    WalkSplit(Remove(u, gone), Remove(t, gone), 0);
  }

  /** Behind a reached place the walk goes on through ordinary messages as far as the window does. */
  lemma ReachedThrough(h0: seq<Msg>, gone: set<int>, window: nat, c: nat, x: nat)
    requires c <= x <= |h0| && Reached(h0, gone, window, c)
    requires forall k :: c <= k < x ==> h0[k].ordinary
    ensures Passes(Remove(h0[..x], gone), 0)
    ensures |Remove(h0[..x], gone)| < window ==> Reached(h0, gone, window, x)
  {
    var u, t := h0[..c], h0[c..x];
    assert h0[..x] == u + t;
    RemoveAppend(u, t, gone);
    forall i | 0 <= i < |Remove(t, gone)| ensures Remove(t, gone)[i].ordinary {
      RemoveMembers(t, gone, Remove(t, gone)[i]);
    }
    WalkSplit(Remove(u, gone), Remove(t, gone), 0);
    OrdinaryPasses(Remove(t, gone), Trailing(Remove(u, gone), 0));
  }

  // ---------------------------------------------------------------- the messages the rule can miss

  /** Two ordinary messages that the walk gets to stand before a service message, and that before the given one. */
  ghost predicate Hidden(h: seq<Msg>, l: nat)
    requires l < |h|
  {
    exists i, j, k :: 0 <= i < j < k < l && h[i].ordinary && h[j].ordinary && !h[k].ordinary && Unbroken(h[..j])
  }

  /** A place that has become vacant and that the walk of the window still reaches. */
  ghost predicate Gap(h0: seq<Msg>, gone: set<int>, window: nat, j: nat)
    requires j < |h0|
  {
    h0[j].id in gone && Reached(h0, gone, window, j)
  }

  /** A full window behind a reached place ends in a message that was seen. */
  lemma FullWindowIsSeen(h0: seq<Msg>, gone: set<int>, window: nat, c: nat, l: nat)
    requires Descending(h0) && c < l < |h0| && Reached(h0, gone, window, c)
    requires forall k :: c <= k < l ==> h0[k].ordinary
    requires window <= |Remove(h0[..l], gone)|
    ensures var h := Remove(h0, gone);
            |h| >= window > 0 && h[window - 1] in Walk(Window(h, window), 0)
  {
    var u, t := h0[..c], h0[c..l];
    var h, ur, tr := Remove(h0, gone), Remove(u, gone), Remove(t, gone);
    assert h0[..l] == u + t && h0 == h0[..l] + h0[l..];
    RemoveAppend(u, t, gone);
    RemoveAppend(h0[..l], h0[l..], gone);
    RemoveDescends(h0, gone);
    var n := window - 1 - |ur|;
    forall i | 0 <= i < |tr| ensures tr[i].ordinary {
      RemoveMembers(t, gone, tr[i]);
    }
    assert h[window - 1] == tr[n] && h[..window - 1] == ur + tr[..n];
    WalkSplit(ur, tr[..n], 0);
    OrdinaryPasses(tr[..n], Trailing(ur, 0));
    var v := Window(h, window);
    WindowIsPrefix(h, window);
    assert v[window - 1] == h[window - 1] && v[..window - 1] == h[..window - 1];
    WalkSees(v, window - 1);
  }

  /** Less than a window at or above the smallest id seen means that a full window's last message was not seen. */
  lemma LastIsUnseen(h: seq<Msg>, window: nat, seen: seq<Msg>)
    requires Descending(h) && seen == Walk(Window(h, window), 0) && |Newer(h, MinId(seen))| < window <= |h|
    ensures h[window - 1] !in seen
  {
    var v := Window(h, window);
    WindowIsPrefix(h, window);
    if h[window - 1] in seen {
      OldestOfSeen(h, window, seen);
      assert v[window - 1] == h[window - 1];
      forall id | id in Ids(v) ensures id in Newer(h, MinId(seen)) {
        var m :| m in v && m.id == id;
        var i :| 0 <= i < |v| && v[i] == m;
        assert m.id >= v[window - 1].id && m in h;
      }
      IdsSize(v);
      SubsetSize(Ids(v), Newer(h, MinId(seen)));
      assert false;
    }
  }

  /** A message that is left and not seen lies behind every reached place. */
  lemma UnseenIsBehind(h0: seq<Msg>, gone: set<int>, window: nat, c: nat, l: nat)
    requires Descending(h0) && c < |h0| && l < |h0| && Reached(h0, gone, window, c)
    requires h0[l].ordinary && h0[l].id !in gone && h0[l] !in Walk(Window(Remove(h0, gone), window), 0)
    ensures c < l
  {
    SeenIffReached(h0, gone, window, l);
    if l <= c {
      ReachedNewer(h0, gone, window, l, c);
    }
  }

  /** Behind a reached ordinary place, only a service message keeps the scan of a window with room from a message. */
  lemma ServiceBetween(h0: seq<Msg>, gone: set<int>, window: nat, c: nat, l: nat)
    requires Descending(h0) && c < |h0| && l < |h0| && Reached(h0, gone, window, c) && h0[c].ordinary
    requires h0[l].ordinary && h0[l].id !in gone
    requires var h := Remove(h0, gone);
             var seen := Walk(Window(h, window), 0);
             h0[l] !in seen && |Newer(h, MinId(seen))| < window
    ensures exists k :: c < k < l && !h0[k].ordinary
  {
    var h := Remove(h0, gone);
    UnseenIsBehind(h0, gone, window, c, l);
    if forall k :: c < k < l ==> h0[k].ordinary {
      ReachedThrough(h0, gone, window, c, l);
      SeenIffReached(h0, gone, window, l);
      FullWindowIsSeen(h0, gone, window, c, l);
      RemoveDescends(h0, gone);
      LastIsUnseen(h, window, Walk(Window(h, window), 0));
      assert false;
    }
  }

  /** With a gap among the reached places, a scan that does not recede misses hidden messages only. */
  lemma UnseenIsHidden(h0: seq<Msg>, gone: set<int>, h: seq<Msg>, window: nat, seen: seq<Msg>, j: nat, l: nat)
    requires Descending(h0) && Thinned(h0, gone, h) && seen == Walk(Window(h, window), 0) && seen != []
    requires |Newer(h, MinId(seen))| < window
    requires j < |h0| && Gap(h0, gone, window, j)
    requires l < |h0| && h0[l] in h && h0[l].ordinary && h0[l] !in seen
    ensures Hidden(h0, l)
  {
    RemoveMembers(h0, gone, h0[l]);
    var b := SeenPlace(h0, gone, h, window, seen);
    var i, c := if b < j then b else j, if b < j then j else b;
    ServiceBetween(h0, gone, window, c, l);
    PassesThicker(h0[..c], gone, 0, 0);
    PassesIff(h0[..c]);
    assert h0[i].ordinary && h0[c].ordinary;
  }

  /** The place of the first message seen. */
  lemma SeenPlace(h0: seq<Msg>, gone: set<int>, h: seq<Msg>, window: nat, seen: seq<Msg>) returns (b: nat)
    requires Descending(h0) && Thinned(h0, gone, h) && seen == Walk(Window(h, window), 0) && seen != []
    ensures b < |h0| && h0[b].ordinary && h0[b].id !in gone && Reached(h0, gone, window, b)
  {
    RemoveDescends(h0, gone);
    SeenIsPartOfWindow(h, window, seen);
    assert seen[0] in h;
    RemoveMembers(h0, gone, seen[0]);
    b :| 0 <= b < |h0| && h0[b] == seen[0];
    SeenIffReached(h0, gone, window, b);
  }

  /** The place of the newest message with one of the ids. */
  function FirstOf(h: seq<Msg>, ids: set<int>): (j: nat)
    requires exists m :: m in h && m.id in ids
    ensures j < |h| && h[j].id in ids && forall i :: 0 <= i < j ==> h[i].id !in ids
  {
    if h[0].id in ids then 0
    else
      assert h == [h[0]] + h[1..];
      1 + FirstOf(h[1..], ids)
  }

  lemma {:induction false} RemoveNoMore(v: seq<Msg>, gone: set<int>, ids: set<int>)
    requires forall i :: 0 <= i < |v| ==> v[i].id !in ids
    ensures Remove(v, gone + ids) == Remove(v, gone)
  {
    if v != [] {
      RemoveNoMore(v[1..], gone, ids);
    }
  }

  lemma SameId(h: seq<Msg>, a: Msg, b: Msg)
    requires Descending(h) && a in h && b in h && a.id == b.id
    ensures a == b
  {
    var i :| 0 <= i < |h| && h[i] == a;
    var j :| 0 <= j < |h| && h[j] == b;
  }

  /** Deleting messages that were seen thins the history out and opens a gap at the newest of them. */
  lemma DeletingOpensGap(h0: seq<Msg>, gone: set<int>, h: seq<Msg>, window: nat, seen: seq<Msg>, ids: set<int>)
    requires Descending(h0) && Thinned(h0, gone, h) && seen == Walk(Window(h, window), 0)
    requires ids != {} && forall id :: id in ids ==> exists m :: m in seen && m.id == id
    ensures Thinned(h0, gone + ids, Remove(h, ids))
    ensures exists j :: 0 <= j < |h0| && Gap(h0, gone + ids, window, j)
  {
    RemoveTwice(h0, gone, ids);
    forall m | m in h0 && m.id in ids ensures m in seen && m.ordinary && m.id !in gone {
      SeenById(h0, gone, h, window, seen, m);
    }
    SomeWasSeen(seen, ids);
    var s :| s in seen && s.id in ids;
    SeenById(h0, gone, h, window, seen, s);
    var j := FirstOf(h0, ids);
    assert h0[j] in h0;
    GapAt(h0, gone, window, ids, j);
  }

  /** A message of the original history with the id of a seen one is that one. */
  lemma SeenById(h0: seq<Msg>, gone: set<int>, h: seq<Msg>, window: nat, seen: seq<Msg>, m: Msg)
    requires Descending(h0) && Thinned(h0, gone, h) && seen == Walk(Window(h, window), 0)
    requires m in h0 || m in seen
    requires exists s :: s in seen && s.id == m.id
    ensures m in h0 && m in seen && m.ordinary && m.id !in gone
  {
    RemoveDescends(h0, gone);
    SeenIsPartOfWindow(h, window, seen);
    var s :| s in seen && s.id == m.id;
    RemoveMembers(h0, gone, s);
    RemoveMembers(h0, gone, m);
    SameId(h0, m, s);
  }

  lemma GapAt(h0: seq<Msg>, gone: set<int>, window: nat, ids: set<int>, j: nat)
    requires Descending(h0) && j < |h0| && h0[j].id in ids && h0[j].id !in gone
    requires h0[j] in Walk(Window(Remove(h0, gone), window), 0)
    requires forall i :: 0 <= i < j ==> h0[i].id !in ids
    ensures Gap(h0, gone + ids, window, j)
  {
    SeenIffReached(h0, gone, window, j);
    RemoveNoMore(h0[..j], gone, ids);
  }
}
