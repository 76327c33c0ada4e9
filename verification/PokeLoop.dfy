/**
 * The membership poke protocol: a channel with room for one token, pokes that never block, and a loop that
 * waits for a token or a tick, coalesces, empties the channel and reconciles.
 */
module PokeLoop {
  import opened Wrappers

  /** Where the loop is; Ready stands between deciding to reconcile and starting to. */
  datatype Place = Select | Coalescing | Draining | Ready | Reconciling | Stopped

  /** The channel, the loop, and two counts: pokes so far, and pokes before the last reconcile started. */
  datatype State = State(token: bool, at: Place, cancelled: bool, pokes: nat, covered: nat)

  datatype Action =
    | Poke
    | Cancel
    | Tick
    | Receive
    | CoalesceOver
    | DrainOne
    | DrainOver
    | StartReconcile
    | EndReconcile
    | Leave

  /** The state an action leads to, or none when it cannot happen. */
  function Next(s: State, a: Action): Option<State> {
    match a
    case Poke => Some(s.(token := true, pokes := s.pokes + 1))
    case Cancel => Some(s.(cancelled := true))
    case Tick => if s.at == Select then Some(s.(at := Ready)) else None
    case Receive => if s.at == Select && s.token then Some(s.(token := false, at := Coalescing)) else None
    case CoalesceOver => if s.at == Coalescing then Some(s.(at := Draining)) else None
    case DrainOne => if s.at == Draining && s.token then Some(s.(token := false)) else None
    case DrainOver => if s.at == Draining && !s.token then Some(s.(at := Ready)) else None
    case StartReconcile => if s.at == Ready then Some(s.(at := Reconciling, covered := s.pokes)) else None
    case EndReconcile => if s.at == Reconciling then Some(s.(at := Select)) else None
    case Leave => if s.cancelled && s.at in {Select, Coalescing} then Some(s.(at := Stopped)) else None
  }

  function Exec(s: State, actions: seq<Action>): Option<State>
    decreases |actions|
  {
    if actions == [] then Some(s)
    else
      match Exec(s, actions[..|actions| - 1])
      case None => None
      case Some(t) => Next(t, actions[|actions| - 1])
  }

  /** A loop that has just been started; a token may be left over in the channel. */
  predicate Initial(s: State) {
    s.at == Select && !s.cancelled && s.pokes == s.covered == 0
  }

  /** A poke never blocks: wherever the loop is, afterwards a token is queued and the loop is where it was. */
  lemma PokeQueues(s: State)
    ensures Next(s, Poke) == Some(State(true, s.at, s.cancelled, s.pokes + 1, s.covered))
  {}

  /** Some poke is newer than the start of the last reconcile. */
  predicate Pending(s: State) {
    s.pokes > s.covered
  }

  /** A reconcile is on its way: a token is queued, or the loop is between receiving one and reconciling. */
  predicate OnItsWay(s: State) {
    s.token || s.at in {Coalescing, Draining, Ready}
  }

  predicate Sound(s: State) {
    && s.covered <= s.pokes
    && (s.at == Stopped ==> s.cancelled)
    && (Pending(s) && s.at != Stopped ==> OnItsWay(s))
  }

  lemma NextKeepsSound(s: State, a: Action)
    requires Sound(s) && Next(s, a).Some?
    ensures Sound(Next(s, a).value)
  {}

  lemma {:induction false} ExecKeepsSound(s: State, actions: seq<Action>)
    requires Sound(s) && Exec(s, actions).Some?
    ensures Sound(Exec(s, actions).value)
    decreases |actions|
  {
    if actions != [] {
      ExecKeepsSound(s, actions[..|actions| - 1]);
      NextKeepsSound(Exec(s, actions[..|actions| - 1]).value, actions[|actions| - 1]);
    }
  }

  /** Main result: in every reachable state that is not cancelled, no poke is lost. */
  lemma {:induction false} NoLostPoke(s: State, actions: seq<Action>)
    requires Initial(s) && Exec(s, actions).Some?
    ensures var t := Exec(s, actions).value;
            !t.cancelled && Pending(t) ==> OnItsWay(t)
  {
    ExecKeepsSound(s, actions);
  }

  // ---------------------------------------------------------------- a reconcile does start

  /** A step the loop takes by itself. */
  predicate LoopStep(a: Action) {
    a != Poke && a != Cancel && a != Leave
  }

  /** A bound on the loop's own steps before its next reconcile starts, while one is due. */
  function Rank(s: State): nat {
    var queued := if s.token then 1 else 0;
    match s.at
    case Ready => 1
    case Draining => 2 + queued
    case Coalescing => 3 + queued
    case Select => 5
    case Reconciling => 6
    case Stopped => 0
  }

  /** While a reconcile is due the loop is never stuck. */
  lemma LoopCanStep(s: State)
    requires Sound(s) && Pending(s) && !s.cancelled
    ensures exists a :: LoopStep(a) && Next(s, a).Some?
  {
    var a := match s.at
      case Ready => StartReconcile
      case Draining => if s.token then DrainOne else DrainOver
      case Coalescing => CoalesceOver
      case Select => Receive
      case Reconciling => EndReconcile
      case Stopped => Cancel;
    assert LoopStep(a) && Next(s, a).Some?;
  }

  function LoopSteps(actions: seq<Action>): nat {
    if actions == [] then 0
    else LoopSteps(actions[..|actions| - 1]) + (if LoopStep(actions[|actions| - 1]) then 1 else 0)
  }

  function Pokes(actions: seq<Action>): nat {
    if actions == [] then 0
    else Pokes(actions[..|actions| - 1]) + (if actions[|actions| - 1] == Poke then 1 else 0)
  }

  lemma StepLowersRank(s: State, a: Action)
    requires Sound(s) && Pending(s) && !s.cancelled && Next(s, a).Some?
    requires a !in {Cancel, Leave, StartReconcile}
    ensures var t := Next(s, a).value;
            && Sound(t) && Pending(t) && !t.cancelled
            && (LoopStep(a) ==> Rank(t) < Rank(s))
            && (a == Poke ==> Rank(t) <= Rank(s) + 1)
  {}

  lemma {:induction false} RankDrops(s: State, actions: seq<Action>)
    requires Sound(s) && Pending(s) && !s.cancelled && Exec(s, actions).Some?
    requires forall i :: 0 <= i < |actions| ==> actions[i] !in {Cancel, Leave, StartReconcile}
    ensures var t := Exec(s, actions).value;
            && Sound(t) && Pending(t) && !t.cancelled
            && Rank(t) + LoopSteps(actions) <= Rank(s) + Pokes(actions)
    decreases |actions|
  {
    if actions != [] {
      var k := |actions| - 1;
      RankDrops(s, actions[..k]);
      StepLowersRank(Exec(s, actions[..k]).value, actions[k]);
    }
  }

  /**
   * With finitely many further pokes a due reconcile does start: a run that is not cancelled and takes more
   * than six loop steps beyond its number of pokes must contain the start of one.
   */
  lemma ReconcileStarts(s: State, actions: seq<Action>)
    requires Sound(s) && Pending(s) && !s.cancelled && Exec(s, actions).Some?
    requires Cancel !in actions && LoopSteps(actions) > 6 + Pokes(actions)
    ensures StartReconcile in actions
  {
    if StartReconcile !in actions {
      NeverLeaves(s, actions);
      RankDrops(s, actions);
      assert false;
    }
  }

  lemma StaysUncancelled(s: State, a: Action)
    requires !s.cancelled && Next(s, a).Some? && a != Cancel
    ensures a != Leave && !Next(s, a).value.cancelled
  {}

  lemma {:induction false} NeverLeaves(s: State, actions: seq<Action>)
    requires !s.cancelled && Exec(s, actions).Some?
    requires forall i :: 0 <= i < |actions| ==> actions[i] != Cancel
    ensures forall i :: 0 <= i < |actions| ==> actions[i] != Leave
    ensures !Exec(s, actions).value.cancelled
    decreases |actions|
  {
    if actions != [] {
      var k := |actions| - 1;
      NeverLeaves(s, actions[..k]);
      StaysUncancelled(Exec(s, actions[..k]).value, actions[k]);
      assert forall i :: 0 <= i < k ==> actions[i] == actions[..k][i];
    }
  }
}
