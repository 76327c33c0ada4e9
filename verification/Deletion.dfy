/** Deleting a list of ids from a chat: the report, the counter, the index, and how they account for the ids. */
module Deletion {
  import opened Wrappers
  import opened Telegram
  import Chunks
  import Index
  import Int64
  import Sorting

  /** The most links a report carries. */
  const LINK_LIMIT := 10

  datatype Report = Report(title: string, deleted: nat, failed: nat, links: seq<string>)

  /** What a deletion touches: one chat's history on the server, the index, the counters and the call number. */
  datatype State = State(h: seq<Msg>, index: Index.Index, counts: map<int, nat>, searches: nat, deletes: nat)

  /** The ids that are not in the failed set, in order. */
  function Without(ids: seq<int>, bad: set<int>): seq<int> {
    if ids == [] then []
    else
      var k := |ids| - 1;
      Without(ids[..k], bad) + (if ids[k] in bad then [] else [ids[k]])
  }

  /** The links of the given ids that have one, up to the limit. */
  function LinksOf(g: Group, ids: seq<int>): (links: seq<string>)
    ensures |links| <= LINK_LIMIT
  {
    if ids == [] then []
    else
      var links := LinksOf(g, ids[..|ids| - 1]);
      var link := MessageLink(g, ids[|ids| - 1]);
      if |links| < LINK_LIMIT && link != "" then links + [link] else links
  }

  /** Every delete call finds the client running. */
  ghost predicate AlwaysUp(net: Net) {
    forall n :: net.up(n)
  }

  function Count(counts: map<int, nat>, chat: int): nat {
    if chat in counts then counts[chat] else 0
  }

  /** Deletes ids from the chat of a known group. */
  function DeleteKnown(net: Net, g: Group, chat: int, st: State, ids: seq<int>): (State, Report) {
    var d := DeleteIds(ids, net.up(st.deletes), ChunkOk(net, st.deletes));
    var ok := Without(ids, IdSet(d.failed));
    (State(Remove(st.h, IdSet(d.deleted)),
           Index.RemoveIds(st.index, chat, IdSet(ok)),
           st.counts[chat := Count(st.counts, chat) + |ok|],
           st.searches,
           st.deletes + 1),
     Report(g.title, |ok|, |d.failed|, LinksOf(g, Sorting.SortInts(d.failed))))
  }

  /** Nothing to delete, or a group that is not known, leaves everything as it is. */
  function DeleteOrSkip(net: Net, group: Option<Group>, chat: int, st: State, ids: seq<int>): (State, Report) {
    if ids == [] || group.None? then (st, Report(if group.Some? then group.value.title else "", 0, 0, []))
    else DeleteKnown(net, group.value, chat, st, ids)
  }

  /** Folds one report into another, keeping the first links up to the limit. */
  function Merge(dst: Report, src: Report): Report {
    var room := if |dst.links| >= LINK_LIMIT then 0 else LINK_LIMIT - |dst.links|;
    Report(dst.title, dst.deleted + src.deleted, dst.failed + src.failed,
           dst.links + (if |src.links| <= room then src.links else src.links[..room]))
  }

  function Shortened(links: seq<string>): seq<string> {
    if |links| <= LINK_LIMIT then links else links[..LINK_LIMIT]
  }

  lemma MergeKeepsFirstLinks(a: Report, b: Report)
    requires |a.links| <= LINK_LIMIT
    ensures Merge(a, b).links == Shortened(a.links + b.links)
  {}

  /** Merging keeps the title, adds the counts and keeps the first ten links of both reports in order. */
  lemma MergeAdds(a: Report, b: Report)
    requires |a.links| <= 10
    ensures var m, all := Merge(a, b), a.links + b.links;
            && m.title == a.title && m.deleted == a.deleted + b.deleted && m.failed == a.failed + b.failed
            && m.links == if |all| <= 10 then all else all[..10]
  {
    MergeKeepsFirstLinks(a, b);
  }

  /** It does not matter how the reports of several passes are grouped when they are merged. */
  lemma MergeIsAssociative(a: Report, b: Report, c: Report)
    requires |a.links| <= LINK_LIMIT && |b.links| <= LINK_LIMIT
    ensures Merge(Merge(a, b), c) == Merge(a, Merge(b, c))
  {
    MergeKeepsFirstLinks(a, b);
    MergeKeepsFirstLinks(Merge(a, b), c);
    MergeKeepsFirstLinks(b, c);
    MergeKeepsFirstLinks(a, Merge(b, c));
    ShorteningAgain(a.links + b.links, c.links);
    ShorteningUnder(a.links, b.links + c.links);
    assert a.links + b.links + c.links == a.links + (b.links + c.links);
  }

  lemma ShorteningAgain(x: seq<string>, y: seq<string>)
    ensures Shortened(Shortened(x) + y) == Shortened(x + y)
  {}

  lemma ShorteningUnder(x: seq<string>, y: seq<string>)
    ensures Shortened(x + Shortened(y)) == Shortened(x + y)
  {}

  // ---------------------------------------------------------------- links

  lemma LinkIffChannel(g: Group, id: int)
    ensures MessageLink(g, id) != "" <==> g.isChannel
  {}

  lemma LinksStep(g: Group, ids: seq<int>, id: int)
    ensures LinksOf(g, ids + [id])
         == if |LinksOf(g, ids)| < LINK_LIMIT && g.isChannel then LinksOf(g, ids) + [MessageLink(g, id)]
            else LinksOf(g, ids)
  {
    LinkIffChannel(g, id);
    assert (ids + [id])[..|ids|] == ids;
  }

  /** The links of a list are those of its first ids, or none for a basic group. */
  lemma {:induction false} LinksAreFirst(g: Group, ids: seq<int>)
    ensures var n := if g.isChannel then (if |ids| < LINK_LIMIT then |ids| else LINK_LIMIT) else 0;
            && |LinksOf(g, ids)| == n
            && forall i :: 0 <= i < n ==> LinksOf(g, ids)[i] == MessageLink(g, ids[i])
  {
    if ids != [] {
      var k := |ids| - 1;
      LinksAreFirst(g, ids[..k]);
      assert ids == ids[..k] + [ids[k]];
      LinksStep(g, ids[..k], ids[k]);
    }
  }

  /** A supergroup's report links the smallest failed ids in ascending order, a basic group's none. */
  lemma LinksAreSmallestFailed(net: Net, g: Group, chat: int, st: State, ids: seq<int>)
    ensures var failed := DeleteIds(ids, net.up(st.deletes), ChunkOk(net, st.deletes)).failed;
            var sorted := Sorting.SortInts(failed);
            var links := DeleteKnown(net, g, chat, st, ids).1.links;
            && multiset(sorted) == multiset(failed)
            && (forall i, j :: 0 <= i < j < |sorted| ==> sorted[i] <= sorted[j])
            && |links| == (if !g.isChannel then 0 else if |failed| < 10 then |failed| else 10)
            && |links| <= |sorted|
            && (forall i :: 0 <= i < |links| ==> links[i] == MessageLink(g, sorted[i]))
            && forall i :: 0 <= i < |links| && Int64.Fits(sorted[i]) && Int64.Fits(g.rawID) ==>
                             LeadsTo(links[i], g, sorted[i])
  {
    var failed := DeleteIds(ids, net.up(st.deletes), ChunkOk(net, st.deletes)).failed;
    Sorting.IntLeIsTotal();
    Sorting.SortSorts(failed, Sorting.IntLe);
    LinksAreFirst(g, Sorting.SortInts(failed));
    assert |multiset(Sorting.SortInts(failed))| == |failed|;
    var links, sorted := DeleteKnown(net, g, chat, st, ids).1.links, Sorting.SortInts(failed);
    forall i | 0 <= i < |links| && Int64.Fits(sorted[i]) && Int64.Fits(g.rawID)
      ensures LeadsTo(links[i], g, sorted[i])
    {
      LinkLeads(g, sorted[i]);
    }
  }

  // ---------------------------------------------------------------- counting

  lemma {:induction false} WithoutCounts(ids: seq<int>, bad: set<int>, x: int)
    ensures multiset(Without(ids, bad))[x] == if x in bad then 0 else multiset(ids)[x]
  {
    if ids != [] {
      var k := |ids| - 1;
      WithoutCounts(ids[..k], bad, x);
      LastCounts(ids, x);
      LastCounts(Without(ids[..k], bad) + [ids[k]], x);
      assert (Without(ids[..k], bad) + [ids[k]])[..|Without(ids[..k], bad)|] == Without(ids[..k], bad);
      assert Without(ids[..k], bad) + [] == Without(ids[..k], bad);
    }
  }

  lemma LastCounts(ids: seq<int>, x: int)
    requires ids != []
    ensures var k := |ids| - 1; multiset(ids)[x] == multiset(ids[..k])[x] + if ids[k] == x then 1 else 0
  {
    assert ids == ids[..|ids| - 1] + [ids[|ids| - 1]];
  }

  /** Of a list split into failed and deleted occurrences, what stays are the deleted ones outside the failed set. */
  lemma KeptSize(ids: seq<int>, failed: seq<int>, deleted: seq<int>)
    requires multiset(failed) + multiset(deleted) == multiset(ids)
    ensures multiset(Without(ids, IdSet(failed))) == multiset(Without(deleted, IdSet(failed)))
  {
    var bad := IdSet(failed);
    forall x ensures multiset(Without(ids, bad))[x] == multiset(Without(deleted, bad))[x] {
      WithoutCounts(ids, bad, x);
      WithoutCounts(deleted, bad, x);
      assert x !in bad ==> multiset(failed)[x] == 0;
    }
  }

  lemma SplitSize(ids: seq<int>, failed: seq<int>, deleted: seq<int>)
    requires multiset(failed) + multiset(deleted) == multiset(ids)
    ensures |ids| == |failed| + |deleted|
  {
    assert |multiset(ids)| == |multiset(failed)| + |multiset(deleted)|;
  }

  lemma {:induction false} WithoutAll(ids: seq<int>, bad: set<int>)
    ensures |Without(ids, bad)| <= |ids|
    ensures |Without(ids, bad)| == |ids| <==> IdSet(ids) !! bad
    ensures IdSet(ids) !! bad ==> Without(ids, bad) == ids
  {
    if ids != [] {
      var k := |ids| - 1;
      WithoutAll(ids[..k], bad);
      assert ids == ids[..k] + [ids[k]];
      assert IdSet(ids) == IdSet(ids[..k]) + {ids[k]};
    }
  }

  /**
   * With the client running, deleted plus failed is the number of ids exactly when no id was both in a batch
   * that failed and in a batch that went through.
   */
  lemma AccountsForAllIff(ids: seq<int>, chunkOk: nat -> bool)
    ensures var d := DeleteIds(ids, true, chunkOk);
            |Without(ids, IdSet(d.failed))| + |d.failed| == |ids| <==> IdSet(d.failed) !! IdSet(d.deleted)
  {
    var d := DeleteIds(ids, true, chunkOk);
    DeletePartitions(ids, chunkOk);
    KeptSize(ids, d.failed, d.deleted);
    SplitSize(ids, d.failed, d.deleted);
    WithoutAll(d.deleted, IdSet(d.failed));
    assert |multiset(Without(ids, IdSet(d.failed)))| == |Without(ids, IdSet(d.failed))|;
    assert |multiset(Without(d.deleted, IdSet(d.failed)))| == |Without(d.deleted, IdSet(d.failed))|;
  }

  /** In a batch that failed, or in one that went through. */
  lemma {:induction false} InBatch(chunks: seq<seq<int>>, chunkOk: nat -> bool, x: int)
    ensures x in FailedOf(chunks, chunkOk) <==> exists k :: 0 <= k < |chunks| && chunkOk(k) == false && x in chunks[k]
    ensures x in DeletedOf(chunks, chunkOk) <==> exists k :: 0 <= k < |chunks| && chunkOk(k) == true && x in chunks[k]
  {
    if chunks != [] {
      var k := |chunks| - 1;
      InBatch(chunks[..k], chunkOk, x);
      assert chunks == chunks[..k] + [chunks[k]];
      BatchesOneMore(chunks[..k], chunks[k], chunkOk, x, true);
      BatchesOneMore(chunks[..k], chunks[k], chunkOk, x, false);
    }
  }

  lemma BatchesOneMore(chunks: seq<seq<int>>, c: seq<int>, chunkOk: nat -> bool, x: int, ok: bool)
    ensures (exists k :: 0 <= k < |chunks + [c]| && chunkOk(k) == ok && x in (chunks + [c])[k]) <==>
            (exists k :: 0 <= k < |chunks| && chunkOk(k) == ok && x in chunks[k])
            || (chunkOk(|chunks|) == ok && x in c)
  {
    var more := chunks + [c];
    assert more[|chunks|] == c;
    assert forall k :: 0 <= k < |chunks| ==> more[k] == chunks[k];
  }

  /** No id stands in two batches. */
  ghost predicate BatchesApart(ids: seq<int>) {
    var chunks := Chunks.Split(ids, 100);
    forall a, b, x :: 0 <= a < b < |chunks| && x in chunks[a] ==> x !in chunks[b]
  }

  /** Deleted plus failed is the number of ids when the batches end so. */
  ghost predicate AccountsForAll(ids: seq<int>, chunkOk: nat -> bool) {
    var d := DeleteIds(ids, true, chunkOk);
    |Without(ids, IdSet(d.failed))| + |d.failed| == |ids|
  }

  /** With the client running, the report accounts for every id whatever fails exactly when no id is in two batches. */
  lemma AlwaysAccountsForAllIff(ids: seq<int>)
    ensures (forall chunkOk: nat -> bool :: AccountsForAll(ids, chunkOk)) <==> BatchesApart(ids)
  {
    var chunks := Chunks.Split(ids, DELETE_BATCH);
    if BatchesApart(ids) {
      forall chunkOk: nat -> bool ensures AccountsForAll(ids, chunkOk) {
        ApartAccounts(ids, chunkOk);
      }
    } else {
      var a, b, x :| 0 <= a < b < |chunks| && x in chunks[a] && x in chunks[b];
      var chunkOk := (k: nat) => k != a;
      InBatch(chunks, chunkOk, x);
      AccountsForAllIff(ids, chunkOk);
      assert x in IdSet(DeleteIds(ids, true, chunkOk).failed) && x in IdSet(DeleteIds(ids, true, chunkOk).deleted);
      assert !AccountsForAll(ids, chunkOk);
    }
  }

  lemma ApartAccounts(ids: seq<int>, chunkOk: nat -> bool)
    requires BatchesApart(ids)
    ensures AccountsForAll(ids, chunkOk)
  {
    var chunks := Chunks.Split(ids, DELETE_BATCH);
    var d := DeleteIds(ids, true, chunkOk);
    forall x | x in d.failed ensures x !in d.deleted {
      InBatch(chunks, chunkOk, x);
    }
    AccountsForAllIff(ids, chunkOk);
  }

  lemma {:induction false} DistinctCounts(ids: seq<int>, x: int)
    requires Distinct(ids)
    ensures multiset(ids)[x] <= 1
  {
    if ids != [] {
      var k := |ids| - 1;
      DistinctCounts(ids[..k], x);
      assert ids == ids[..k] + [ids[k]];
      if x == ids[k] {
        assert x !in ids[..k];
      }
    }
  }

  /** An id of a distinct list is in one part of it only, and kept exactly when it is not in the failed one. */
  lemma DistinctParts(ids: seq<int>, failed: seq<int>, deleted: seq<int>, x: int)
    requires Distinct(ids) && multiset(failed) + multiset(deleted) == multiset(ids)
    ensures x in failed ==> x !in deleted
    ensures x in ids <==> x in failed || x in deleted
    ensures x in Without(ids, IdSet(failed)) <==> x in ids && x !in failed
  {
    var ok := Without(ids, IdSet(failed));
    DistinctCounts(ids, x);
    WithoutCounts(ids, IdSet(failed), x);
    assert multiset(ids)[x] == multiset(failed)[x] + multiset(deleted)[x];
    assert x in ids <==> multiset(ids)[x] > 0;
    assert x in failed <==> multiset(failed)[x] > 0;
    assert x in deleted <==> multiset(deleted)[x] > 0;
    assert x in ok <==> multiset(ok)[x] > 0;
  }

  /** For distinct ids the kept ids are the deleted ones: the index forgets exactly what left the server. */
  lemma DistinctAccounts(ids: seq<int>, chunkOk: nat -> bool)
    requires Distinct(ids)
    ensures var d := DeleteIds(ids, true, chunkOk);
            var ok := Without(ids, IdSet(d.failed));
            && |ok| + |d.failed| == |ids|
            && multiset(ok) == multiset(d.deleted)
            && IdSet(ok) == IdSet(d.deleted) == IdSet(ids) - IdSet(d.failed)
            && IdSet(d.failed) <= IdSet(ids)
  {
    var d := DeleteIds(ids, true, chunkOk);
    var ok := Without(ids, IdSet(d.failed));
    DeletePartitions(ids, chunkOk);
    KeptSize(ids, d.failed, d.deleted);
    SplitSize(ids, d.failed, d.deleted);
    forall x ensures x in d.failed ==> x !in d.deleted
             ensures x in ids <==> x in d.failed || x in d.deleted
             ensures x in ok <==> x in ids && x !in d.failed
    {
      DistinctParts(ids, d.failed, d.deleted, x);
    }
    WithoutAll(d.deleted, IdSet(d.failed));
    assert |multiset(ok)| == |ok| && |multiset(d.deleted)| == |d.deleted|;
  }

  // ---------------------------------------------------------------- the server's side

  function Ids(h: seq<Msg>): set<int> {
    set m | m in h :: m.id
  }

  lemma {:induction false} RemoveMembers(h: seq<Msg>, gone: set<int>, m: Msg)
    ensures m in Remove(h, gone) <==> m in h && m.id !in gone
  {
    if h != [] {
      RemoveMembers(h[1..], gone, m);
      assert h == [h[0]] + h[1..];
    }
  }

  lemma {:induction false} RemoveDescends(h: seq<Msg>, gone: set<int>)
    requires Descending(h)
    ensures Descending(Remove(h, gone))
  {
    if h != [] {
      DescendingSlice(h, 1, |h|);
      RemoveDescends(h[1..], gone);
      if h[0].id !in gone {
        forall m | m in Remove(h[1..], gone) ensures m.id < h[0].id {
          RemoveMembers(h[1..], gone, m);
          HeadIsNewest(h, m);
        }
        DescendingCons(h[0], Remove(h[1..], gone));
      }
    }
  }

  lemma {:induction false} IdsSize(h: seq<Msg>)
    requires Descending(h)
    ensures |Ids(h)| == |h|
  {
    if h != [] {
      DescendingSlice(h, 1, |h|);
      IdsSize(h[1..]);
      HeadIsNew(h);
      IdsOfHead(h);
      OneMore(Ids(h[1..]), h[0].id);
    }
  }

  lemma OneMore(s: set<int>, x: int)
    requires x !in s
    ensures |{x} + s| == |s| + 1
  {}

  lemma IdsOfHead(h: seq<Msg>)
    requires h != []
    ensures Ids(h) == {h[0].id} + Ids(h[1..])
  {
    IdsOfCons(h[0], h[1..]);
    assert h == [h[0]] + h[1..];
  }

  lemma HeadIsNew(h: seq<Msg>)
    requires Descending(h) && h != []
    ensures h[0].id !in Ids(h[1..])
  {
    forall m | m in h[1..] ensures m.id < h[0].id {
      HeadIsNewest(h, m);
    }
  }

  lemma IdsOfCons(m: Msg, t: seq<Msg>)
    ensures Ids([m] + t) == {m.id} + Ids(t)
  {
    assert m in [m] + t;
    forall x | x in t ensures x in [m] + t {}
  }

  lemma IdsOfRemove(h: seq<Msg>, gone: set<int>)
    ensures Ids(Remove(h, gone)) == Ids(h) - gone
  {
    forall m ensures m in Remove(h, gone) <==> m in h && m.id !in gone {
      RemoveMembers(h, gone, m);
    }
  }

  lemma {:induction false} DistinctSize(ids: seq<int>)
    requires Distinct(ids)
    ensures |IdSet(ids)| == |ids|
  {
    if ids != [] {
      var k := |ids| - 1;
      DistinctSize(ids[..k]);
      assert ids == ids[..k] + [ids[k]];
      assert IdSet(ids) == IdSet(ids[..k]) + {ids[k]};
    }
  }

  /** How much shorter a history gets when ids are removed: by those of them that it holds. */
  lemma RemoveShortens(h: seq<Msg>, gone: set<int>)
    requires Descending(h)
    ensures |Remove(h, gone)| == |h| - |gone * Ids(h)|
  {
    RemoveDescends(h, gone);
    IdsOfRemove(h, gone);
    IdsSize(h);
    IdsSize(Remove(h, gone));
    assert Ids(h) == (Ids(h) - gone) + gone * Ids(h);
  }

  /**
   * Main result on one deletion of distinct ids, on the server or not: the report accounts for every id, the
   * counter grows by the reported count, and the index loses exactly the ids that did not fail. While the client
   * runs, the server loses those of them that it still has; while it is stopped, everything is reported deleted
   * and nothing is.
   */
  lemma DeletionAccounts(net: Net, g: Group, chat: int, st: State, ids: seq<int>)
    requires Descending(st.h) && Distinct(ids)
    ensures var (st', rep) := DeleteKnown(net, g, chat, st, ids);
            var d := DeleteIds(ids, net.up(st.deletes), ChunkOk(net, st.deletes));
            var kept := IdSet(ids) - IdSet(d.failed);
            && rep.title == g.title && rep.deleted + rep.failed == |ids|
            && rep.deleted == |kept|
            && Count(st'.counts, chat) == Count(st.counts, chat) + rep.deleted
            && st'.index == Index.RemoveIds(st.index, chat, kept)
            && Descending(st'.h)
            && (net.up(st.deletes) ==> st'.h == Remove(st.h, kept) && |st'.h| == |st.h| - |kept * Ids(st.h)|)
            && (!net.up(st.deletes) ==> st'.h == st.h && rep.deleted == |ids|)
  {
    var ok := ChunkOk(net, st.deletes);
    var d := DeleteIds(ids, net.up(st.deletes), ok);
    RemoveDescends(st.h, IdSet(d.deleted));
    DistinctSize(ids);
    if net.up(st.deletes) {
      DistinctAccounts(ids, ok);
      RemoveShortens(st.h, IdSet(d.deleted));
      assert |multiset(d.deleted)| == |d.deleted|;
      assert |multiset(Without(ids, IdSet(d.failed)))| == |Without(ids, IdSet(d.failed))|;
      DistinctDeleted(ids, ok);
      DistinctSize(d.deleted);
    } else {
      RemoveNothing(st.h);
      assert IdSet(d.deleted) == {} && IdSet(d.failed) == {};
      WithoutAll(ids, {});
      assert IdSet(ids) - {} == IdSet(ids);
    }
  }

  lemma PartSize(a: set<int>, b: set<int>)
    ensures |a * b| == |a| <==> a <= b
  {
    assert a == a * b + (a - b);
    assert a <= b <==> a - b == {};
  }

  /** When the ids are all on the server, the reported count is the fall in the server's history. */
  lemma KnownDeletionAccounts(net: Net, g: Group, chat: int, st: State, ids: seq<int>)
    requires Descending(st.h) && Distinct(ids) && IdSet(ids) <= Ids(st.h)
    ensures var (st', rep) := DeleteKnown(net, g, chat, st, ids);
            var d := DeleteIds(ids, net.up(st.deletes), ChunkOk(net, st.deletes));
            && rep.deleted + rep.failed == |ids|
            && Count(st'.counts, chat) == Count(st.counts, chat) + rep.deleted
            && Descending(st'.h)
            && (net.up(st.deletes) ==>
                  && st'.h == Remove(st.h, IdSet(ids) - IdSet(d.failed))
                  && |st.h| == |st'.h| + rep.deleted)
            && (!net.up(st.deletes) ==> st'.h == st.h && rep.deleted == |ids|)
  {
    DeletionAccounts(net, g, chat, st, ids);
    PartSize(IdSet(ids) - IdSet(DeleteIds(ids, net.up(st.deletes), ChunkOk(net, st.deletes)).failed), Ids(st.h));
  }

  lemma DistinctDeleted(ids: seq<int>, chunkOk: nat -> bool)
    requires Distinct(ids)
    ensures Distinct(DeleteIds(ids, true, chunkOk).deleted)
  {
    var deleted := DeleteIds(ids, true, chunkOk).deleted;
    DeletePartitions(ids, chunkOk);
    forall i, j | 0 <= i < j < |deleted| ensures deleted[i] != deleted[j] {
      DistinctCounts(ids, deleted[i]);
      assert multiset(ids)[deleted[i]] >= multiset(deleted)[deleted[i]];
      if deleted[i] == deleted[j] {
        TwiceCounts(deleted, i, j);
        assert false;
      }
    }
  }

  lemma TwiceCounts(s: seq<int>, i: nat, j: nat)
    requires i < j < |s| && s[i] == s[j]
    ensures multiset(s)[s[i]] >= 2
  {
    assert s == s[..j] + s[j..];
    assert s[..j][i] == s[i] && s[j..][0] == s[i];
  }

  /**
   * The reported count is the truth about the server exactly when the client was running and every id that did
   * not fail was still on the server, or the client was stopped and nothing was asked.
   */
  lemma ReportIsTrueIff(net: Net, g: Group, chat: int, st: State, ids: seq<int>)
    requires Descending(st.h) && Distinct(ids)
    ensures var (st', rep) := DeleteKnown(net, g, chat, st, ids);
            var d := DeleteIds(ids, net.up(st.deletes), ChunkOk(net, st.deletes));
            rep.deleted == |st.h| - |st'.h| <==>
              if net.up(st.deletes) then IdSet(ids) - IdSet(d.failed) <= Ids(st.h) else ids == []
  {
    DeletionAccounts(net, g, chat, st, ids);
    var d := DeleteIds(ids, net.up(st.deletes), ChunkOk(net, st.deletes));
    PartSize(IdSet(ids) - IdSet(d.failed), Ids(st.h));
  }

  /** For ids that are all on the server that is when the client was running or nothing was asked. */
  lemma KnownReportIsTrueIff(net: Net, g: Group, chat: int, st: State, ids: seq<int>)
    requires Descending(st.h) && Distinct(ids) && IdSet(ids) <= Ids(st.h)
    ensures var (st', rep) := DeleteKnown(net, g, chat, st, ids);
            rep.deleted == |st.h| - |st'.h| <==> net.up(st.deletes) || ids == []
  {
    ReportIsTrueIff(net, g, chat, st, ids);
  }

  /** An id that is no longer on the server is reported deleted when its batch goes through. */
  lemma StaleIdIsReported(net: Net, g: Group, chat: int, st: State, id: int)
    requires Descending(st.h) && id !in Ids(st.h) && net.up(st.deletes) && net.chunkOk(st.deletes, 0)
    ensures var (st', rep) := DeleteKnown(net, g, chat, st, [id]);
            rep.deleted == 1 && rep.failed == 0 && st'.h == st.h
  {
    var chunks := Chunks.Split([id], DELETE_BATCH);
    assert chunks == [[id]] && chunks[..0] == [];
    assert FailedOf(chunks, ChunkOk(net, st.deletes)) == [];
    DeletionAccounts(net, g, chat, st, [id]);
    assert IdSet([id]) - IdSet([]) == {id} && {id} * Ids(st.h) == {};
    RemovesNone(st.h, {id});
  }

  lemma {:induction false} RemovesNone(h: seq<Msg>, gone: set<int>)
    requires gone !! Ids(h)
    ensures Remove(h, gone) == h
  {
    if h != [] {
      assert h == [h[0]] + h[1..];
      assert h[0].id in Ids(h) && Ids(h[1..]) <= Ids(h);
      RemovesNone(h[1..], gone);
    }
  }
}
