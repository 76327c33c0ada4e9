# Verified model of langolier-bot

langolier-bot deletes the account's own messages in group chats once they are older than a per-chat time-to-live,
and deletes at once the messages that match a per-chat pattern. This project models its core in Dafny and proves
what that core promises:

- the paged walk over the account's own messages, the batched delete, and the marked chat ids
  (`Telegram.dfy`, `Chunks.dfy`);
- deletion with its report, counter and index (`Deletion.dfy`), and the multi-pass history drain with all its exits
  (`Drain.dfy`), with the order of its steps and the exit they lead to (`DrainTrace.dfy`), what each exit means
  (`DrainHidden.dfy`, `DrainStops.dfy`), exactly which messages the exits can miss (`DrainMisses.dfy`,
  `DrainScreens.dfy`), how far an undisturbed drain gets (`DrainCompletes.dfy`, `DrainReaches.dfy`) and what it leaves
  in the index (`DrainIndexes.dfy`);
- the message index (`Index.dfy`), the sweep (`Sweep.dfy`), membership reconcile (`Reconcile.dfy`), and the cleaner
  object whose methods are proved against these specifications (`Cleaner.dfy`);
- every interleaving of updates, scans, configuration edits, sweeps, drains and instant deletions (`Runs.dfy`);
- the membership poke protocol (`PokeLoop.dfy`), and two loops on one channel after a restart (`PokeLoops.dfy`);
- the configuration store over its bucket, with pattern slices on the heap (`ChatCfg.dfy`), the callback payloads
  (`Callback.dfy`), the access-hash store (`Hasher.dfy`), decimal printing and parsing (`Decimal.dfy`), 64-bit
  durations (`Int64.dfy`), trimming and splitting of text (`Text.dfy`), sorting (`Sorting.dfy`).

`dafny verify dfyconfig.toml` checks the whole project.

## How the surroundings appear

The server holds, per chat, a strictly id-descending sequence of own messages. A search sees the newest `window`
messages that currently exist and answers with at most 100 of those before the offset. Which requests go through is an
arbitrary total function of the request's number (`Net`), so a theorem that puts no condition on it covers every
pattern of failures; the client being stopped at a delete call, the clock of each pass and the two context checks of
each pass are arbitrary functions in the same way (without a pause the second check always succeeds). A transaction
commits or has no effect, as a parameter says. Maps are iterated in any order (`Wrappers.AnyOf`). A dialog listing is
an argument that may be missing.

The scan's callback is not a function value: `ScanOwn` returns the callback's arguments in order and the caller
applies its callback to them. `Store.Mutate` receives the edit as data instead of a closure. `Cleaner` methods take
the configuration they read as a value; `ChatCfg.Store.Get` and `List` are what produces it.

## What the code does where its text or its intent says otherwise

- A service message does not count towards the scan offset, although a comment says it does
  (`internal/tgclient/tgclient.go:599`). A page holding no ordinary message therefore ends the scan: `ScanIsWalk` and
  `WalkCompleteIff` say exactly which messages are missed.
- With service messages in the history the window-not-receding rule can end a drain while an expired message was
  neither seen nor tried. `NotRecedingMissesIff` says which messages that can happen to, given only which messages
  are ordinary: those behind a service message behind two ordinary ones, the second of which the walk can get to.
  `NotRecedingRightIff` says for which histories the rule is right whatever the window, dates, clock, context and
  failing requests, `NotRecedingStopsTooSoon` gives a history of four messages, and `NotRecedingIsSound` what the
  rule promises where no message is hidden. All this is for a client that is up; `StoppedCallEndsDrain` shows that
  a delete call on a stopped client makes the next pass the last one.
- A drain that completes, or gives up because a pass deleted nothing, can leave an expired message in its window
  unseen: exactly the ordinary ones with a hundred service messages before them, in any arrangement, since the
  drain's own deletions can bring them together (`WindowMissesIff`). For a drain that has deleted nothing they must
  stand in a row (`UntouchedMissesIff`); what the last pass saw is stated by `CompleteIsSound` and
  `NothingDeletedIsSound`.
- A delete call on a stopped client reports no failed id, so everything is booked as deleted; and an id that is no
  longer on the server, which a sweep submits when a delete update has not arrived yet, is booked as deleted too
  (`StaleIdIsReported`). `ReportIsTrueIff` gives the exact condition under which one report is true, and
  `DrainAccounts` that for a drain, which submits only what it has just seen. `DrainHandsOver` and `SweepOnce` show
  that a call on a stopped client also drops from the index what it was given and did not delete.
- After a restart of the client a poke can be lost to the cancelled loop of the earlier start, which may still take a
  token before it leaves (`LostInRestart`); it is lost in no other way (`LostToOldLoopOnly`), and once that loop has
  stopped none is (`NoneLostOnceStopped`).
- A minute count above 153722867 overflows the duration: the next one is negative, and some far larger ones wrap
  round to a few microseconds. `TtlExactIff` is the exact bound, and the results in minutes are for counts up to it;
  `ReconcileFollows` is for all counts.
- A basic group whose raw id exceeds 10^12 is taken for a channel by common-box delete updates
  (`CommonBoxMissesHugeChat`); up to it the update reaches the group (`CommonBoxReaches`).

## Model

| member | source | states |
|---|---|---|
| `Telegram.ScanIsWalk` | internal/tgclient/tgclient.go:574-647 | over any descending window the paged scan delivers exactly the plain message-by-message walk that gives up after 100 service messages in a row; a scan cut short by a failing request delivers a prefix of it; with all requests answered it ends well |
| `Telegram.WalkCompleteIff` | internal/tgclient/tgclient.go:595-623 | the walk misses no ordinary message if and only if no run of 100 service messages precedes one |
| `Telegram.WalkVisits` | internal/tgclient/tgclient.go:596-606 | whatever a walk visits is a prefix of the window's ordinary messages, so each is visited at most once and newest first |
| `Telegram.Client.ScanOwn` | internal/tgclient/tgclient.go:574-647 | the page loop, with its offset, its three end conditions and its error return, computes the specified walk and terminates against a server that honours the offset |
| `Telegram.ReadPage` | internal/tgclient/tgclient.go:595-606 | one page's loop returns the ordinary messages in order and the smallest of their ids |
| `Chunks.ChunkInts` | internal/tgclient/tgclient.go:725-738 | the slicing loop returns the specified batches, none for an empty list or a non-positive size |
| `Chunks.SplitFlattens` | internal/tgclient/tgclient.go:725-738 | the batches concatenate back to the input |
| `Chunks.SplitSizes` | internal/tgclient/tgclient.go:725-738 | every batch but the last is full, the last is non-empty, and their number is the rounded-up quotient |
| `Telegram.Client.Delete` | internal/tgclient/tgclient.go:651-675 | the failed list is the in-order concatenation of exactly the failing batches, the other batches' messages leave the server and nothing else does, an error is returned exactly when the client is stopped or something failed |
| `Telegram.DeletePartitions` | internal/tgclient/tgclient.go:656-674 | with the client running, failed and deleted ids together are the submitted ids, occurrence by occurrence |
| `Telegram.ChannelMarkRecognised` | internal/tgclient/tgclient.go:45-46 | for every 64-bit id, a channel mark falls below the shift exactly for ids from 1 up to the overflow of the subtraction |
| `Telegram.MarksAreDistinct` | internal/tgclient/tgclient.go:45-49 | within the supported ranges both markings are injective, and a channel and a basic group share a mark only when the group's raw id exceeds 10^12 |
| `Telegram.Client.ResolveGroups` | internal/tgclient/tgclient.go:498-524 | a successful listing enters its groups into the cache, forgets none, and is returned sorted by title; a failed one changes nothing |
| `Telegram.RefreshForgetsNone` | internal/tgclient/tgclient.go:516-520 | after a refresh a chat is in the cache exactly when it was there or is listed; a listed one has its last listed group, any other the group it had |
| `Telegram.LooksUpOnce` | internal/cleaner/cleaner.go:246-257 | a look-up of a cached chat changes nothing; of any other it is found exactly when the refresh lists it, and then with the listed group |
| `Telegram.LinkLeads` | internal/tgclient/tgclient.go:679-687 | cut at its last slash, a supergroup's link holds the message id behind it, and before it the public name or else a "c" and the group's raw id |
| `Deletion.AccountsForAllIff` | internal/cleaner/cleaner.go:514-532 | with the client running, deleted plus failed equals the number of ids if and only if no id was in both a failing and a succeeding batch |
| `Deletion.AlwaysAccountsForAllIff` | internal/cleaner/cleaner.go:514-532 | it does so whichever batches fail if and only if no id stands in two of the batches of a hundred |
| `Deletion.DeletionAccounts` | internal/cleaner/cleaner.go:497-543 | for distinct ids, on the server or not: deleted plus failed is their number, the counter grows by deleted, the index loses exactly the non-failed ids, and with the client running the server loses those of them that it has; stopped, all are booked deleted and none is |
| `Deletion.ReportIsTrueIff` | internal/cleaner/cleaner.go:507-532 | for distinct ids, the reported count equals the fall in the server's history if and only if the client was running and every id whose batch did not fail was still on the server, or it was stopped and nothing was asked |
| `Deletion.KnownReportIsTrueIff` | internal/cleaner/cleaner.go:507-532 | for ids that are all on the server, that is when the client was running or nothing was asked |
| `Deletion.StaleIdIsReported` | internal/cleaner/cleaner.go:514-530 | an id that is no longer on the server is reported deleted when its batch goes through |
| `Deletion.LinksAreSmallestFailed` | internal/cleaner/cleaner.go:533-541 | in a report on a supergroup the i-th link leads to the i-th smallest failed id of that group, at most ten of them; a basic group's report has no link |
| `Deletion.MergeIsAssociative` | internal/cleaner/cleaner.go:484-493 | how the passes' reports are grouped when merged does not matter, links and their order included |
| `Deletion.MergeAdds` | internal/cleaner/cleaner.go:484-493 | a merged report has the title of the first, the sums of the counts, and the first ten of both reports' links in order |
| `Sorting.SortSorts` | internal/cleaner/cleaner.go:371-372 | sorting returns a sorted permutation |
| `Sorting.StringLeIsLexicographic` | internal/cleaner/cleaner.go:371-372 | the order of titles is decided by the first character that differs, and a string comes before its continuations |
| `Cleaner.Cleaner.DeleteIDs` | internal/cleaner/cleaner.go:497-543 | the method's report and the resulting history, index, counter and call number are the specified ones; an unknown group or an empty list changes nothing; other chats' histories stay |
| `Cleaner.KeepGood` | internal/cleaner/cleaner.go:514-524 | the two loops keep exactly the ids outside the failed list, in order |
| `Cleaner.CollectLinks` | internal/cleaner/cleaner.go:534-541 | the loop with its early exit returns the specified links |
| `Cleaner.MergeReport` | internal/cleaner/cleaner.go:484-493 | the link-by-link loop computes the specified merge |
| `Drain.DrainAccounts` | internal/cleaner/cleaner.go:403-481 | over any drain running alone, with any clock and failures: deleted plus failed is the number of ids submitted over all passes, the counter grows by deleted, at most ten links are kept, and deleted equals the fall in the server's history if and only if no delete call met a stopped client |
| `DrainTrace.DrainTells` | internal/cleaner/cleaner.go:415-480 | any context, clock and failures: every recorded pass, told by number, had its own reading of the clock, saw the whole walk of the window over what the passes before it had left, and submitted in one call what had expired; nothing else changed the history; the context was live before each pass and in each pause between two; and from the passes and the context alone, each of the six exits is taken if and only if its rule, the context, the fiftieth pass or a failing request calls for it |
| `DrainTrace.LivedThroughout` | internal/cleaner/cleaner.go:417-475 | pass by pass: each was begun under a live context, and each but the last was followed by a live pause |
| `DrainTrace.EndedContextDoesNothing` | internal/cleaner/cleaner.go:416-419 | a drain whose context has ended before the first pass is cancelled with an empty report and leaves history, index, counters and request numbers untouched |
| `DrainTrace.DrainFollows` | internal/cleaner/cleaner.go:407-434 | a chat without minutes is left alone; with minutes up to the exact bound, each pass submitted exactly the messages it saw that were that many minutes old, newest first |
| `DrainStops.ExitsMean` | internal/cleaner/cleaner.go:438-465 | for any history and any failures: a drain completes, or stops with nothing deleted, exactly when its last pass found nothing expired, or failed on all it found; and if the client was up throughout, the not-receding exit leaves unseen only ordinary messages that were hidden in the history the drain began with |
| `DrainStops.MissedIsHidden` | internal/cleaner/cleaner.go:459-465 | with the client up throughout, an expired ordinary message that is left when the not-receding rule ends a drain, and that its last pass did not report as failed, was hidden in the history the drain began with |
| `DrainStops.NotRecedingIsSound` | internal/cleaner/cleaner.go:459-465 | with the client up throughout and no ordinary message hidden, when the rule fires the last pass had seen every ordinary message there was, so each one left that was expired at its clock is one whose delete failed in that pass |
| `DrainStops.NotRecedingOverOrdinary` | internal/cleaner/cleaner.go:459-465 | with the client up throughout and ordinary messages only, the whole history had then fitted the window, with room to spare, and what is left expired had failed |
| `DrainMisses.NotRecedingMissesIff` | internal/cleaner/cleaner.go:415-466 | for given kinds of messages, the rule can end a drain with the l-th one, ordinary and expired, neither seen nor tried if and only if it is behind a service message behind two ordinary ones, the second of which has no hundred service messages in a row before it; the drains considered have the client up, a TTL of whole minutes, whole-second dates that follow the ids, a clock that never goes back, and any window, context and failing requests |
| `DrainMisses.NotRecedingRightIff` | internal/cleaner/cleaner.go:415-466 | so the rule is right for every such drain of a history if and only if none of its ordinary messages is hidden |
| `DrainStops.CompleteIsSound` | internal/cleaner/cleaner.go:438-443 | whatever failed on the way, a completed drain leaves nothing expired that its last pass saw, and that pass saw exactly the ordinary messages of its window with no hundred service messages in a row before them; so all of them when no such run stands before an ordinary one |
| `DrainStops.NothingDeletedIsSound` | internal/cleaner/cleaner.go:453-458 | whatever failed on the way, a drain stopped because a pass deleted nothing left the history as it was, and all that is expired of what that pass saw, which is the same part of the window, failed in it |
| `DrainScreens.WindowMissesIff` | internal/cleaner/cleaner.go:415-458 | for given kinds of messages, a drain can complete or give up with the l-th one, ordinary, expired and in its window, neither seen nor tried if and only if at least a hundred service messages, in any arrangement, stand before it; the drains considered are those above |
| `DrainScreens.UntouchedMissesIff` | internal/cleaner/cleaner.go:438-458 | for a given window, a drain that completes or gives up without having deleted anything can miss the l-th one, ordinary and expired, if and only if a hundred service messages in a row stand before it |
| `DrainStops.StoppedCallEndsDrain` | internal/cleaner/cleaner.go:445-465 | when a pass's delete call finds the client stopped, the next pass is the drain's last, ending as nothing deleted or not receding unless it is cancelled or its scan fails |
| `DrainMisses.NotRecedingStopsTooSoon` | internal/cleaner/cleaner.go:459-465 | a concrete history of four messages, one of them a service message, over which the rule fires while an expired message remains neither seen nor tried |
| `DrainCompletes.DrainTakesExactly` | internal/cleaner/cleaner.go:403-481 | undisturbed, over ordinary messages whose dates follow their ids, the drain removes exactly the newest 50*(window - fresh) expired messages, no rule ends it sooner, and only the fresh messages are left if and only if no more than that many had expired |
| `DrainCompletes.DatesSplit` | internal/cleaner/cleaner.go:431-433 | when dates follow ids, the fresh messages come first and all others are expired |
| `DrainReaches.DrainTakesReached` | internal/cleaner/cleaner.go:403-481 | undisturbed, over any history with service messages and dates in any order, a drain removes exactly the expired messages that its passes reach one after the other, no rule ends it sooner, and it completes if and only if the fiftieth pass would add nothing |
| `DrainReaches.CompleteDrainLeaves` | internal/cleaner/cleaner.go:403-481 | with fewer than a hundred service messages in the history, such a drain that completes has removed exactly the expired ordinary messages before which fewer than a window of fresh and service messages stand |
| `DrainIndexes.DrainHandsOver` | internal/cleaner/cleaner.go:426-445 | unless a scan request failed, every message that the last pass saw and that is still on the server is indexed under its true date when the drain ends, if and only if that pass submitted nothing or its delete call found the client up |
| `Cleaner.Cleaner.ScanCallbacks` | internal/cleaner/cleaner.go:426-434 | the callback indexes every message, keeps the smallest id and collects exactly the expired ids |
| `Cleaner.Cleaner.DrainPass` | internal/cleaner/cleaner.go:416-475 | one iteration of the loop over the object's state is the specified pass, exit by exit |
| `Cleaner.Cleaner.DrainChat` | internal/cleaner/cleaner.go:403-481 | the method is the specified drain on the chat's history, index and counters; an unknown group or a chat without minutes does no work, and otherwise the steps, the exit and the ages in minutes are those of `DrainTells` and `DrainFollows`; the chat becomes active exactly with positive minutes; other chats' histories stay |
| `Index.RunRefines` | internal/cleaner/cleaner.go:199-242 | any run of index, delete-update, disable and reset operations on the two-level map is the same run on a flat (chat, id) map, and no chat ever keeps an empty inner map |
| `Index.CommonBoxReaches` | internal/cleaner/cleaner.go:213-226 | a delete update without a chat id removes the ids from every basic group with raw id up to 10^12 and leaves every supergroup's map whole |
| `Index.CommonBoxMissesHugeChat` | internal/cleaner/cleaner.go:220-223 | above 10^12 the update misses the basic group |
| `Index.ScanAdds` | internal/cleaner/cleaner.go:285-287 | a scan leaves in the chat's map the entries from before and exactly the messages it saw, these under their send times, and changes no other chat |
| `Cleaner.Cleaner.IndexMessage` | internal/cleaner/cleaner.go:199-208 | the chat's map, created on first use, gains the entry |
| `Cleaner.Cleaner.RemoveLocked` | internal/cleaner/cleaner.go:231-242 | the loop removes the ids and drops the chat's map when it becomes empty |
| `Cleaner.Cleaner.OnDeleted` | internal/cleaner/cleaner.go:213-226 | for any iteration order, the index becomes the specified one for the chat or for the common box |
| `Cleaner.Cleaner.OnOwnMessage` | internal/cleaner/cleaner.go:185-195 | a matching message is handed to instant deletion and not indexed; any other is indexed exactly when the chat has positive minutes |
| `Cleaner.Cleaner.ResolveGroup` | internal/cleaner/cleaner.go:246-257 | the cached group, or the one a single refresh brings in, or none |
| `Cleaner.Cleaner.EnableChat` | internal/cleaner/cleaner.go:278-288 | after at most one refresh of the group cache, a known group becomes active and exactly what the scan delivered, a prefix of the plain walk, is added to its index, even when the scan then fails; an unknown one changes nothing else |
| `Cleaner.Cleaner.DisableChat` | internal/cleaner/cleaner.go:292-297 | the chat leaves the index and the active set, nothing else changes |
| `Cleaner.Cleaner.Reset` | internal/cleaner/cleaner.go:302-308 | index, counters and active set are emptied |
| `Cleaner.Cleaner.CollectExpired` | internal/cleaner/cleaner.go:163-168 | for any map order, exactly the ids at least ttl old, each once |
| `Cleaner.Cleaner.Snapshot` | internal/cleaner/cleaner.go:157-173 | for any map order, one job per chat with something expired under its TTL, holding exactly its expired ids, each once |
| `Sweep.SnapshotInMinutes` | internal/cleaner/cleaner.go:157-173 | in minutes: a job's ids are exactly the indexed ones whose age is at least the chat's stored minutes, every such id is in the job of its chat, and only configured chats have a job |
| `Cleaner.Cleaner.SweepOnce` | internal/cleaner/cleaner.go:149-181 | a sweep hands over the jobs of that snapshot, the ages being those in minutes; whatever fails, only expired entries leave the index and each chat's counter grows by the entries it lost; the server loses the messages of exactly those entries, or, for a job whose call met a stopped client, none while the whole job is forgotten; when all goes through and the groups are known, exactly the expired ones are gone from index and server |
| `Cleaner.Cleaner.SweepJob` | internal/cleaner/cleaner.go:175-180 | a job's deletion drops from a known chat's index exactly the ids whose batch did not fail, and with the client up takes the messages of exactly those off the server |
| `Sweep.SweepTwice` | internal/cleaner/cleaner.go:158-171 | after a sweep that went through nothing indexed is expired, and a sweep at the same instant has no job |
| `Reconcile.AfterIsIntersection` | internal/cleaner/cleaner.go:339-370 | the active set becomes the present chats that were active or are wanted; within the exact TTL range wanted means positive minutes |
| `Reconcile.ReconcileFollows` | internal/cleaner/cleaner.go:339-370 | for every chat: it is lost exactly when it was active and no listed group has its marked id; it rejoins exactly when it was not active, some listed group has its marked id, and its stored minutes are positive and stay so as a 64-bit duration; it is active afterwards exactly when it is listed and was active or is so wanted |
| `Reconcile.SecondIsQuiet` | internal/cleaner/cleaner.go:350-369 | a second reconcile against the same membership and configuration reports nothing and changes nothing |
| `Reconcile.ReportIsUnique` | internal/cleaner/cleaner.go:357-372 | a sorted report is determined by the set of chats, so the iteration order never shows |
| `Reconcile.ReportNames` | internal/cleaner/cleaner.go:376-383 | a report names each of its chats, by its group's title or, without one, by its id |
| `Reconcile.NamesCount` | internal/cleaner/cleaner.go:357-370 | a report has as many names as chats |
| `Reconcile.EventsAlternate` | internal/cleaner/cleaner.go:350-369 | over any run of reconciles, marks by scans and drains, disablings and resets, each chat's changes up and down strictly alternate, and rejoins minus losses is the net change of its active bit less what the marks and drops contributed |
| `Reconcile.ReconcilesAlternate` | internal/cleaner/cleaner.go:350-369 | over any run of reconciles alone, each chat's losses and rejoins strictly alternate and their balance is the net change of its active bit |
| `Cleaner.Cleaner.Watch` | internal/cleaner/cleaner.go:344-354 | the watched chats are those with positive minutes and those being maintained |
| `Cleaner.Cleaner.ReconcileOnce` | internal/cleaner/cleaner.go:334-374 | for any iteration order: active set, losses and rejoins are those `ReconcileFollows` reads off the listing and the minutes, the lost chats leave the index, Lost and Rejoined as the sorted titles of exactly the two differences, one drain started per rejoin; a failed listing changes nothing |
| `Runs.NothingDeletedEarly` | internal/cleaner/cleaner.go:149-208 | in every interleaving each id handed to deletion matched a pattern on arrival, or is at least as old as a positive TTL that this very drain read at its start or this very sweep read for the chat: the worker has not finished since |
| `Runs.NothingDeletedBeforeItsMinutes` | internal/cleaner/cleaner.go:149-208 | the same with ages in stored minutes: what was not matched is at least as many minutes old as this very drain or sweep had read for the chat |
| `Runs.HandedOverIff` | internal/cleaner/cleaner.go:149-208 | under one configuration, some interleaving hands a message over at a given time if and only if some text matches the chat's patterns, or the chat has positive minutes and the message is that old |
| `Runs.OldIsSwept` | internal/cleaner/cleaner.go:149-181 | a message that is old enough can be handed over by a sweep alone once a scan has indexed it |
| `Runs.IndexKeepsDates` | internal/cleaner/cleaner.go:199-208 | in every interleaving the index holds each message under its true send date |
| `PokeLoop.NoLostPoke` | internal/bot/bot.go:426-455 | in every reachable uncancelled state, a poke newer than the start of the last reconcile means a queued token or a loop between receiving one and reconciling |
| `PokeLoop.ReconcileStarts` | internal/bot/bot.go:426-455 | while a reconcile is due, an uncancelled run with more than six loop steps beyond its number of pokes contains the start of one |
| `PokeLoop.LoopCanStep` | internal/bot/bot.go:429-443 | while a reconcile is due the loop always has a step to take |
| `PokeLoops.NoneLostOnceStopped` | internal/bot/bot.go:419-443 | with a cancelled loop of an earlier start on the same channel: once it has stopped, wherever the new loop is, no later poke is lost |
| `PokeLoops.LostToOldLoopOnly` | internal/bot/bot.go:426-443 | before that, none is lost while the old loop takes no token |
| `PokeLoops.LostInRestart` | internal/bot/bot.go:434-441 | a concrete run in which the old loop takes the token of a poke and leaves, and the new loop never hears of it |
| `ChatCfg.MatchLoop` | internal/chatcfg/chatcfg.go:50-70 | the loop with its early exits decides whether some non-empty pattern equals, or is a prefix of, the trimmed non-blank text |
| `ChatCfg.ExactMatchesIff` | internal/chatcfg/chatcfg.go:59-63 | an exact pattern matches exactly the texts that are the pattern once trimmed, and an empty one none |
| `ChatCfg.PrefixMatchesIff` | internal/chatcfg/chatcfg.go:65-67 | any other pattern matches exactly the texts that continue it once trimmed, and an empty one none |
| `ChatCfg.MatchesAny` | internal/chatcfg/chatcfg.go:55-69 | a list of patterns matches a text exactly when one of them alone does |
| `ChatCfg.AddedPatternMatches` | internal/chatcfg/chatcfg.go:135-142 | a stored pattern matches its own text with any white space around it |
| `ChatCfg.RunKeepsClean` | internal/chatcfg/chatcfg.go:128-151 | after any run of operations every stored TTL is non-negative and every stored pattern trimmed and non-empty |
| `ChatCfg.EffectIsLocal` | internal/chatcfg/chatcfg.go:126-182 | an operation on one chat changes no other chat's settings |
| `ChatCfg.EffectsAre` | internal/chatcfg/chatcfg.go:128-164 | what each operation leaves, chat by chat: the minutes, negative ones as zero; the earlier patterns and the trimmed one with its own exact flag behind them; the patterns before an index as they were and those behind it one place earlier; nothing; and every other chat as it was |
| `ChatCfg.Store.SetTTL` | internal/chatcfg/chatcfg.go:128-133 | when the transaction commits, the chat has the minutes, or zero for negative ones, and the patterns it had |
| `ChatCfg.Store.AddPattern` | internal/chatcfg/chatcfg.go:136-142 | when the transaction commits, the trimmed pattern with its exact flag stands behind the earlier ones; a blank one is refused |
| `ChatCfg.Store.RemovePattern` | internal/chatcfg/chatcfg.go:145-151 | when the transaction commits, the indexed pattern is gone, those before it stay, those behind it move up by one; an index out of range removes nothing |
| `ChatCfg.Store.Disable` | internal/chatcfg/chatcfg.go:154-164 | when the transaction commits, the chat is no longer configured |
| `ChatCfg.Store.Get` | internal/chatcfg/chatcfg.go:109-113 | the stored configuration, or no minutes and no patterns, in an array of the caller's own |
| `ChatCfg.RemoveUndoesAdd` | internal/chatcfg/chatcfg.go:135-151 | removing the pattern just added restores the chat's settings |
| `ChatCfg.Clone` | internal/chatcfg/chatcfg.go:184-191 | an equal configuration whose array is new, or nil when there are no patterns |
| `ChatCfg.ShiftOut` | internal/chatcfg/chatcfg.go:147-149 | the in-place shift removes exactly the indexed element within the same array |
| `ChatCfg.AppendTo` | internal/chatcfg/chatcfg.go:141 | appending adds one element, in place when there is room and in a new array otherwise |
| `ChatCfg.Store.Mutate` | internal/chatcfg/chatcfg.go:166-182 | a committed edit changes the chat's settings in cache and bucket alike, a failed one nothing, and no array that existed before is written |
| `ChatCfg.Store.PerformAll` | internal/chatcfg/chatcfg.go:126-182 | after any run of operations with any pattern of failing transactions the bucket encodes the cache, and both are what the committed operations make of the start |
| `ChatCfg.EncodingIsUnique` | internal/chatcfg/chatcfg.go:193-195 | a bucket encodes at most one configuration: distinct chats have distinct keys |
| `ChatCfg.Open` | internal/chatcfg/chatcfg.go:82-105 | loading succeeds exactly when every key is an integer and every value decodes, and then a store over an encoding holds exactly the encoded configuration |
| `ChatCfg.Reopen` | internal/chatcfg/chatcfg.go:82-124 | reopening the bucket of a store never fails and yields the same configuration |
| `ChatCfg.SnapshotSurvives` | internal/chatcfg/chatcfg.go:109-113 | a configuration returned once keeps its value through any later run of operations, and its array is not the store's |
| `ChatCfg.Scribble` | internal/chatcfg/chatcfg.go:109-124 | overwriting an array that is not the store's never shows in the store |
| `Callback.ParseOfPrint` | internal/bot/bot.go:283-324 | every payload the menus print, for all 64-bit ids, pages and indexes, parses back to the callback it was printed for |
| `Callback.ReprintIsStable` | internal/bot/bot.go:283-324 | whatever the parser accepts is of one of the ten kinds and a callback the menus can print, and re-printing and parsing it again changes nothing |
| `Callback.ChatButtons` | internal/bot/bot.go:299-304 | each of the seven kinds of chat buttons, written as the menus write it, parses to that kind and chat |
| `Callback.PageButtons` | internal/bot/bot.go:289-298 | so does a page button |
| `Callback.PatKindButtons` | internal/bot/bot.go:305-309 | a match-type payload parses exactly for the two types |
| `Callback.PatDelButtons` | internal/bot/bot.go:310-320 | a removal button parses to its chat and index |
| `Callback.PrintInjective` | internal/bot/bot.go:527-572 | distinct callbacks have distinct payloads |
| `Decimal.ParseFormat` | internal/bot/bot.go:294-300 | every 64-bit integer survives printing and parsing |
| `Decimal.FormatInjective` | internal/chatcfg/chatcfg.go:193-195 | printing is injective |
| `Decimal.PrintsDecimal` | internal/chatcfg/chatcfg.go:193-195 | a further digit behind a printed number makes it ten times the number and the digit, and a minus stands before a negative one |
| `Decimal.ParseSigned` | internal/bot/bot.go:294-300 | leading zeros and a plus change nothing, a minus negates |
| `Decimal.ParseRefuses` | internal/bot/bot.go:294-303 | a text without a digit, or with anything but digits behind its sign, is no number |
| `Decimal.ParseTooLarge` | internal/bot/bot.go:294-303 | a number that needs more than 64 bits is refused |
| `Hasher.KeyInjective` | internal/tgclient/hasher.go:62-76 | no two (kind, user, peer) triples share a key |
| `Hasher.LowByteFirst` | internal/tgclient/hasher.go:54-56 | the i-th stored byte is the i-th digit of the hash in base 256 |
| `Hasher.StoredHashRoundTrip` | internal/tgclient/hasher.go:48-56 | eight little-endian bytes give back every signed hash |
| `Hasher.HashStore.Set` | internal/tgclient/hasher.go:54-60 | a committed write stores the hash's bytes under the key and is what the same triple reads from then on, every other triple reads what it did, and a failed write changes nothing |
| `Hasher.HashStore.Get` | internal/tgclient/hasher.go:37-52 | the stored hash, or zero and not found |
| `Int64.TtlExactIff` | internal/chatcfg/chatcfg.go:39-41 | a non-negative minute count converts exactly if and only if it is at most 153722867 |
| `ChatCfg.TtlIsMinutes` | internal/chatcfg/chatcfg.go:39-41 | up to that bound the threshold of a chat is its stored minutes times sixty thousand million nanoseconds |
| `Int64.WrapKeepsResidue` | internal/chatcfg/chatcfg.go:39-41 | beyond it the product keeps its residue modulo 2^64, which decides its sign |
| `Int64.PositivityTestsAgree` | internal/chatcfg/chatcfg.go:39-41 | up to that bound positive minutes and positive duration mean the same, and the next count is a negative duration |
| `Int64.HugeMinutesWrapToMicroseconds` | internal/chatcfg/chatcfg.go:39-41 | a concrete huge minute count is a TTL of 2048 nanoseconds |
| `Int64.AgedIsTrueAge` | internal/cleaner/cleaner.go:165 | the saturating subtraction decides the true age comparison for every positive TTL |

## Left out

- Transport, authorization, start and stop of the client, rate limiting and flood waits: library behaviour.
- Bot texts, prompts, pattern conversation, status lines and `Stats`: rendering.
- JSON text and bbolt pages: a bucket value is a decoded configuration or garbage, a transaction is all or nothing.
- Wall-clock pauses and tickers: a logical clock and freely chosen steps.
- Partial effects of a failed delete request: a batch goes as a whole or not at all.
- Filtering of dialogs and classification of service actions: single-branch facts.
- Arrivals and other work during a drain: the results of `DrainStops`, `DrainMisses`, `DrainScreens`, `DrainCompletes`, `DrainReaches`, `DrainIndexes` and `DrainAccounts` speak of a drain running alone; interleavings are covered by the safety results of `Runs`.
- NotRecedingMissesIff: a client that is stopped during the drain is outside the drains considered; StoppedCallEndsDrain says what happens then.
- Runs.NothingDeletedEarly: an instant deletion may be handed over more than once in the model, which only adds behaviour.
- Runs.HandedOverIff: whether the message exists on the server is not part of `Runs`.
- NotRecedingMissesIff: the window is the drain's to choose; for one fixed window the condition is necessary and not sufficient.
- PokeLoop.NoLostPoke: one loop only; `PokeLoops` adds the loop of an earlier start.
- PokeLoop.NoLostPoke, PokeLoop.ReconcileStarts: a reconcile whose dialog listing fails still counts as started.
