/** Following a processor's live lane into a destination, and requesting as history
    every block the processor lacks. The destination's gaps are durable; what has
    been requested is remembered only until the process ends. Any step may fail,
    end the session, or end the process. */
module LiveSync {
  import opened CoverageHoles

  datatype Change = LiveGap(range: BlockRange) | Entity(row: nat)

  /** Where a run is between two steps. `Requesting` goes through a snapshot of the
      gaps; `Forgetting` has its first range handed over. */
  datatype Phase =
    | Disconnected
    | Opening(holes: seq<BlockRange>)
    | Requesting(pending: seq<BlockRange>)
    | Forgetting(pending: seq<BlockRange>)
    | Following
    | Applying(batch: seq<Change>, done: nat)

  /** `rows` are the entity changes applied, in order. `received`, `handed`,
      `remembered` and `acknowledged` record what has happened. */
  datatype World = World(gaps: set<BlockRange>, rows: seq<nat>, requested: seq<BlockRange>, phase: Phase,
                         received: seq<seq<Change>>, handed: set<BlockRange>,
                         remembered: set<BlockRange>, acknowledged: set<BlockRange>)

  datatype Action =
    | Connect(holes: seq<BlockRange>)
    | RememberHole
    | ReadGaps(order: seq<BlockRange>)   // the gaps, in the order the destination lists them
    | HandOver                           // a subscription is created and handed to `onBackfill`
    | FailToHandOver
    | Forget
    | Receive(batch: seq<Change>)
    | ApplyNext
    | Acknowledge(order: seq<BlockRange>)
    | EndSession                         // a transient failure: reconnect later
    | Restart                            // the process ends; its memory is lost

  predicate Inside(inner: BlockRange, outer: BlockRange) {
    outer.fromBlock <= inner.fromBlock && inner.toBlock <= outer.toBlock
  }

  /** A range already requested covers this one. */
  predicate InFlight(requested: seq<BlockRange>, range: BlockRange) {
    exists i :: 0 <= i < |requested| && Inside(range, requested[i])
  }

  /** `order` is the gaps in some order, each once. */
  predicate Lists(order: seq<BlockRange>, gaps: set<BlockRange>) {
    && (forall i | 0 <= i < |order| :: order[i] in gaps)
    && (forall range | range in gaps :: range in order)
    && forall i, j | 0 <= i < j < |order| :: order[i] != order[j]
  }

  function Started(pending: seq<BlockRange>): Phase {
    if pending == [] then Following else Requesting(pending)
  }

  function Gaps(batch: seq<Change>, done: nat): set<BlockRange>
    requires done <= |batch|
  {
    set i | 0 <= i < done && batch[i].LiveGap? :: batch[i].range
  }

  function Act(w: World, a: Action): World {
    match a
    case Connect(holes) => if w.phase.Disconnected? then w.(phase := Opening(holes)) else w
    case RememberHole =>
      if w.phase.Opening? && w.phase.holes != [] then
        var hole := w.phase.holes[0];
        w.(gaps := w.gaps + {hole}, remembered := w.remembered + {hole}, phase := Opening(w.phase.holes[1..]))
      else w
    case ReadGaps(order) =>
      if w.phase == Opening([]) && Lists(order, w.gaps) then w.(phase := Started(order)) else w
    case HandOver =>
      if w.phase.Requesting? && w.phase.pending != [] then
        var range := w.phase.pending[0];
        if InFlight(w.requested, range) then w.(phase := Forgetting(w.phase.pending))
        else w.(requested := w.requested + [range], handed := w.handed + {range}, phase := Forgetting(w.phase.pending))
      else w
    case FailToHandOver =>
      if w.phase.Requesting? && w.phase.pending != [] && !InFlight(w.requested, w.phase.pending[0])
      then w.(phase := Following) else w
    case Forget =>
      if w.phase.Forgetting? && w.phase.pending != []
      then w.(gaps := w.gaps - {w.phase.pending[0]}, phase := Started(w.phase.pending[1..])) else w
    case Receive(batch) =>
      if w.phase.Following? then w.(received := w.received + [batch], phase := Applying(batch, 0)) else w
    case ApplyNext =>
      if w.phase.Applying? && w.phase.done < |w.phase.batch| then
        var change := w.phase.batch[w.phase.done];
        var next := w.(phase := Applying(w.phase.batch, w.phase.done + 1));
        if change.LiveGap?
        then next.(gaps := next.gaps + {change.range}, remembered := next.remembered + {change.range})
        else next.(rows := next.rows + [change.row])
      else w
    case Acknowledge(order) =>
      if w.phase.Applying? && w.phase.done == |w.phase.batch| && Lists(order, w.gaps)
      then w.(acknowledged := w.acknowledged + Gaps(w.phase.batch, w.phase.done), phase := Started(order)) else w
    case EndSession => w.(phase := Disconnected)
    case Restart => w.(phase := Disconnected, requested := [])
  }

  function Run(w: World, actions: seq<Action>): World
    decreases |actions|
  {
    if actions == [] then w else Run(Act(w, actions[0]), actions[1..])
  }

  /** Nothing remembered, requested or handed over yet. */
  const EMPTY := World({}, [], [], Disconnected, [], {}, {}, {})

  // ------------------------------------------------------------ the invariant

  /** A block is still owed by the destination or was handed over. */
  ghost predicate Safe(w: World, b: int) {
    (exists range :: range in w.gaps && Within(range, b)) || (exists range :: range in w.handed && Within(range, b))
  }

  /** No request is for blocks an earlier one of this process asked for. */
  ghost predicate AskedOnce(requested: seq<BlockRange>) {
    forall i, j | 0 <= i < j < |requested| :: !Inside(requested[j], requested[i])
  }

  ghost predicate PhaseFits(w: World) {
    match w.phase
    case Requesting(pending) => pending != [] && Lists(pending, w.gaps)
    case Forgetting(pending) => pending != [] && Lists(pending, w.gaps) && InFlight(w.requested, pending[0])
    case Applying(batch, done) => done <= |batch| && Gaps(batch, done) <= w.remembered
    case _ => true
  }

  ghost predicate Inv(w: World) {
    && AllSafe(w, w.remembered)
    && w.acknowledged <= w.remembered
    && (forall i | 0 <= i < |w.requested| :: w.requested[i] in w.handed)
    && AskedOnce(w.requested)
    && PhaseFits(w)
  }

  /** Every block of `ranges` is safe. */
  ghost predicate AllSafe(w: World, ranges: set<BlockRange>) {
    forall range, b | range in ranges && Within(range, b) :: Safe(w, b)
  }

  /** Blocks stay safe while gaps are only added, or one is dropped that lies
      inside a range handed over. */
  lemma StaysSafe(w: World, w': World, b: int)
    requires Safe(w, b) && w.handed <= w'.handed
    requires forall range | range in w.gaps && range !in w'.gaps ::
               exists outer :: outer in w'.handed && Inside(range, outer)
    ensures Safe(w', b)
  {
    if range :| range in w.gaps && Within(range, b) {
      if range !in w'.gaps {
        var outer :| outer in w'.handed && Inside(range, outer);
        assert Within(outer, b);
      }
    }
  }

  lemma AllStaySafe(w: World, w': World, ranges: set<BlockRange>)
    requires AllSafe(w, ranges) && w.handed <= w'.handed
    requires forall range | range in w.gaps && range !in w'.gaps ::
               exists outer :: outer in w'.handed && Inside(range, outer)
    ensures AllSafe(w', ranges)
  {
    forall range, b | range in ranges && Within(range, b) ensures Safe(w', b) {
      StaysSafe(w, w', b);
    }
  }

  lemma RememberedIsSafe(w: World, w': World, range: BlockRange)
    requires AllSafe(w, w.remembered) && w'.handed == w.handed
    requires w'.gaps == w.gaps + {range} && w'.remembered == w.remembered + {range}
    ensures AllSafe(w', w'.remembered)
  {
    AllStaySafe(w, w', w.remembered);
    forall b | Within(range, b) ensures Safe(w', b) {
      assert range in w'.gaps;
    }
  }

  lemma HandOverKeeps(w: World)
    requires Inv(w)
    ensures Inv(Act(w, HandOver))
  {
    var w' := Act(w, HandOver);
    AllStaySafe(w, w', w.remembered);
    if w.phase.Requesting? {
      var range := w.phase.pending[0];
      if !InFlight(w.requested, range) {
        assert Inside(range, w'.requested[|w.requested|]);
      }
    }
  }

  lemma ForgetKeeps(w: World)
    requires Inv(w)
    ensures Inv(Act(w, Forget))
  {
    var w' := Act(w, Forget);
    if w.phase.Forgetting? {
      var range, rest := w.phase.pending[0], w.phase.pending[1..];
      var i :| 0 <= i < |w.requested| && Inside(range, w.requested[i]);
      assert w.requested[i] in w'.handed;
      AllStaySafe(w, w', w.remembered);
      assert Lists(rest, w'.gaps) by {
        forall other | other in w'.gaps ensures other in rest {
          var k :| 0 <= k < |w.phase.pending| && w.phase.pending[k] == other;
          assert rest[k - 1] == other;
        }
      }
    }
  }

  lemma ApplyKeeps(w: World)
    requires Inv(w)
    ensures Inv(Act(w, ApplyNext))
  {
    var w' := Act(w, ApplyNext);
    if w.phase.Applying? && w.phase.done < |w.phase.batch| {
      var change := w.phase.batch[w.phase.done];
      assert Gaps(w.phase.batch, w.phase.done + 1)
             == Gaps(w.phase.batch, w.phase.done) + (if change.LiveGap? then {change.range} else {});
      if change.LiveGap? {
        RememberedIsSafe(w, w', change.range);
      } else {
        AllStaySafe(w, w', w.remembered);
      }
    }
  }

  lemma ActKeeps(w: World, a: Action)
    requires Inv(w)
    ensures Inv(Act(w, a))
  {
    match a
    case RememberHole =>
      if w.phase.Opening? && w.phase.holes != [] {
        RememberedIsSafe(w, Act(w, a), w.phase.holes[0]);
      }
    case HandOver => HandOverKeeps(w);
    case Forget => ForgetKeeps(w);
    case ApplyNext => ApplyKeeps(w);
    case _ => AllStaySafe(w, Act(w, a), w.remembered);
  }

  lemma {:induction false} RunKeeps(w: World, actions: seq<Action>)
    requires Inv(w)
    ensures Inv(Run(w, actions))
    decreases |actions|
  {
    if actions != [] {
      ActKeeps(w, actions[0]);
      RunKeeps(Act(w, actions[0]), actions[1..]);
    }
  }

  /** Through any failures, reconnections and restarts: every block of a live gap
      that was acknowledged, and of a hole a session once remembered, is in a
      durable gap or inside a range handed to `onBackfill`. */
  lemma NoBlockIsLost(actions: seq<Action>, range: BlockRange, b: int)
    requires var w := Run(EMPTY, actions); range in w.acknowledged || range in w.remembered
    requires Within(range, b)
    ensures Safe(Run(EMPTY, actions), b)
  {
    RunKeeps(EMPTY, actions);
  }

  /** A range is dropped only when all its blocks were handed over, and handing
      over is never undone. */
  lemma OnlyHandedIsForgotten(actions: seq<Action>, a: Action, range: BlockRange)
    requires var w := Run(EMPTY, actions); range in w.gaps && range !in Act(w, a).gaps
    ensures exists outer :: outer in Run(EMPTY, actions).handed && Inside(range, outer)
    ensures Run(EMPTY, actions).handed <= Act(Run(EMPTY, actions), a).handed
  {
    var w := Run(EMPTY, actions);
    RunKeeps(EMPTY, actions);
    assert a == Forget;
    var i :| 0 <= i < |w.requested| && Inside(range, w.requested[i]);
    assert w.requested[i] in w.handed;
  }

  /** Without a failure, going once through the gaps: hand over and forget each. */
  function Pass(n: nat): seq<Action> {
    if n == 0 then [] else [HandOver, Forget] + Pass(n - 1)
  }

  /** A pass in which no request fails leaves no gap, whatever is already in
      flight, and returns to the live lane. */
  lemma {:induction false} PassEmptiesGaps(w: World)
    requires Inv(w) && w.phase.Requesting?
    ensures var w' := Run(w, Pass(|w.phase.pending|)); w'.gaps == {} && w'.phase == Following
    decreases |w.phase.pending|
  {
    var pending := w.phase.pending;
    var n := |pending|;
    var handed := Act(w, HandOver);
    var w' := Act(handed, Forget);
    ActKeeps(w, HandOver);
    ActKeeps(handed, Forget);
    assert Pass(n)[0] == HandOver && Pass(n)[1..][0] == Forget && Pass(n)[1..][1..] == Pass(n - 1);
    assert Run(w, Pass(n)) == Run(w', Pass(n - 1));
    if n > 1 {
      PassEmptiesGaps(w');
    } else {
      assert forall range | range in w.gaps :: range == pending[0];
    }
  }
}
