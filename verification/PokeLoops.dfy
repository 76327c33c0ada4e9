/**
 * Two reconcile loops on one channel: a cancelled one that has not left yet, and the one a later start has begun.
 * A poke is lost only to the old loop, and none once that has stopped.
 */
module PokeLoops {
  import opened Wrappers
  import opened PokeLoop

  /** The new loop with the channel and the counts, and where the old loop is. */
  datatype Pair = Pair(main: State, previous: Place)

  datatype PairAction = Main(action: Action) | Old(action: Action)

  /** The old loop as the single-loop protocol sees it: cancelled, on the same channel. */
  function OldLoop(p: Pair): State {
    p.main.(at := p.previous, cancelled := true)
  }

  /** The old loop's steps change the channel and its own place; its reconciles are cancelled and cover nothing. */
  function NextOfPair(p: Pair, a: PairAction): Option<Pair> {
    match a
    case Main(action) =>
      (match Next(p.main, action)
       case None => None
       case Some(s) => Some(p.(main := s)))
    case Old(action) =>
      if action == Poke || action == Cancel then None
      else
        match Next(OldLoop(p), action)
        case None => None
        case Some(s) => Some(Pair(p.main.(token := s.token), s.at))
  }

  function ExecPair(p: Pair, actions: seq<PairAction>): Option<Pair>
    decreases |actions|
  {
    if actions == [] then Some(p)
    else
      match ExecPair(p, actions[..|actions| - 1])
      case None => None
      case Some(q) => NextOfPair(q, actions[|actions| - 1])
  }

  /** The old loop takes a token out of the channel. */
  predicate Takes(a: PairAction) {
    a == Old(Receive) || a == Old(DrainOne)
  }

  /** A poke newer than the n-th, and than the start of the last reconcile, is on its way. */
  predicate SoundSince(s: State, n: nat) {
    && s.covered <= s.pokes
    && (s.at == Stopped ==> s.cancelled)
    && (s.pokes > s.covered && s.pokes > n && s.at != Stopped ==> OnItsWay(s))
  }

  lemma NextKeepsSoundSince(p: Pair, a: PairAction, n: nat)
    requires SoundSince(p.main, n) && NextOfPair(p, a).Some? && !Takes(a)
    ensures SoundSince(NextOfPair(p, a).value.main, n)
  {}

  lemma {:induction false} ExecKeepsSoundSince(p: Pair, actions: seq<PairAction>, n: nat)
    requires SoundSince(p.main, n) && ExecPair(p, actions).Some?
    requires forall i :: 0 <= i < |actions| ==> !Takes(actions[i])
    ensures SoundSince(ExecPair(p, actions).value.main, n)
    decreases |actions|
  {
    if actions != [] {
      var k := |actions| - 1;
      ExecKeepsSoundSince(p, actions[..k], n);
      NextKeepsSoundSince(ExecPair(p, actions[..k]).value, actions[k], n);
    }
  }

  /** A poke is lost to the old loop or not at all: none is while the old loop takes no token. */
  lemma LostToOldLoopOnly(p: Pair, actions: seq<PairAction>)
    requires Initial(p.main) && ExecPair(p, actions).Some?
    requires forall i :: 0 <= i < |actions| ==> !Takes(actions[i])
    ensures var q := ExecPair(p, actions).value;
            !q.main.cancelled && Pending(q.main) ==> OnItsWay(q.main)
  {
    ExecKeepsSoundSince(p, actions, 0);
  }

  lemma StoppedTakesNothing(p: Pair, a: PairAction)
    requires p.previous == Stopped && NextOfPair(p, a).Some?
    ensures !Takes(a) && NextOfPair(p, a).value.previous == Stopped
  {}

  lemma {:induction false} StoppedStays(p: Pair, actions: seq<PairAction>)
    requires p.previous == Stopped && ExecPair(p, actions).Some?
    ensures ExecPair(p, actions).value.previous == Stopped
    ensures forall i :: 0 <= i < |actions| ==> !Takes(actions[i])
    decreases |actions|
  {
    if actions != [] {
      var k := |actions| - 1;
      StoppedStays(p, actions[..k]);
      StoppedTakesNothing(ExecPair(p, actions[..k]).value, actions[k]);
      assert forall i :: 0 <= i < k ==> actions[i] == actions[..k][i];
    }
  }

  /**
   * Main result on a restart: once the old loop has stopped, wherever the new loop is by then, no poke that comes
   * afterwards is lost.
   */
  lemma NoneLostOnceStopped(p: Pair, actions: seq<PairAction>)
    requires p.previous == Stopped && p.main.covered <= p.main.pokes && (p.main.at == Stopped ==> p.main.cancelled)
    requires ExecPair(p, actions).Some?
    ensures var s := ExecPair(p, actions).value.main;
            !s.cancelled && Pending(s) && s.pokes > p.main.pokes ==> OnItsWay(s)
  {
    StoppedStays(p, actions);
    ExecKeepsSoundSince(p, actions, p.main.pokes);
  }

  /** Until then one can be: the old loop takes the token of a poke and leaves, and the new loop never hears of it. */
  lemma LostInRestart()
    ensures var p := Pair(PokeLoop.State(false, Select, false, 0, 0), Select);
            var q := ExecPair(p, [Main(Poke), Old(Receive), Old(Leave)]);
            && Initial(p.main) && q.Some? && q.value.previous == Stopped
            && !q.value.main.cancelled && Pending(q.value.main) && !OnItsWay(q.value.main)
  {
    var p := Pair(PokeLoop.State(false, Select, false, 0, 0), Select);
    var a := [Main(Poke), Old(Receive), Old(Leave)];
    assert a[..2] == [Main(Poke), Old(Receive)] && a[..2][..1] == [Main(Poke)] && [Main(Poke)][..0] == [];
    assert ExecPair(p, []) == Some(p);
    assert ExecPair(p, [Main(Poke)]) == Some(Pair(PokeLoop.State(true, Select, false, 1, 0), Select));
    assert ExecPair(p, a[..2]) == Some(Pair(PokeLoop.State(false, Select, false, 1, 0), Coalescing));
  }
}
