/** That the anchor lane gets anywhere: which blocks a run reads when the range it
    asks for is served and it is not cut short. */
module AnchorLaneProgress {
  import opened MachineIntegers
  import opened Wrappers
  import opened Observations
  import opened AnchorLane

  /** The finalized chain, by number. */
  type FinalChain = nat -> Frame

  /** Its blocks from `a` up to but not including `b`. */
  function Range(chain: FinalChain, a: nat, b: nat): (s: seq<Frame>)
    requires a <= b
    ensures |s| == b - a
  {
    seq(b - a, i requires 0 <= i < b - a => chain(a + i))
  }

  lemma RangeSplits(chain: FinalChain, a: nat, b: nat, c: nat)
    requires a <= b <= c
    ensures Range(chain, a, c) == Range(chain, a, b) + Range(chain, b, c)
  {
  }

  ghost predicate LinkedUpTo(chain: FinalChain, from: nat, to: nat) {
    forall m, n | from <= m < n <= to && n == m + 1 :: chain(n).block.parentHash == chain(m).block.hash
  }

  /** The event's tip is on the chain, and its answers above `from` are ranges of
      the chain; a range may also go unanswered. */
  ghost predicate Serves(event: L1Event, chain: FinalChain, from: nat) {
    event.Finalized? ==>
      && event.tip.number < U64_MAX && event.tip.hash == chain(event.tip.number).block.hash
      && forall start: U64 | from <= start <= event.tip.number && event.blocks(start).Some? ::
           event.blocks(start).value == Range(chain, start, event.tip.number + 1)
  }

  ghost predicate AllServe(events: seq<L1Event>, chain: FinalChain, from: nat) {
    forall i | 0 <= i < |events| :: Serves(events[i], chain, from)
  }

  /** The last block a lane can read, having read up to `number`: the greatest tip
      before finality fails or a range it asks for goes unanswered. */
  function Reach(number: U64, events: seq<L1Event>): (reach: U64)
    ensures reach >= number
    decreases |events|
  {
    if events == [] || events[0].Failed? then number
    else if events[0].Informing? || events[0].tip.number <= number then Reach(number, events[1..])
    else if events[0].blocks(number + 1).None? then number
    else Reach(events[0].tip.number, events[1..])
  }

  /** The cursor a lane on the chain has once it read up to `to`. */
  function CursorAt(reader: Reader, c: Cursor, chain: FinalChain, to: U64): Cursor
    requires c.number <= to
  {
    Cursor(to, chain(to).block.hash, Fold(reader, c.learned, Range(chain, c.number + 1, to + 1)).1)
  }

  /** What the chain says between a cursor and `to`. */
  function SaidUpTo(reader: Reader, c: Cursor, chain: FinalChain, to: nat): seq<Observation>
    requires c.number <= to
  {
    Fold(reader, c.learned, Range(chain, c.number + 1, to + 1)).0
  }

  lemma SaidSplits(reader: Reader, c: Cursor, chain: FinalChain, mid: U64, to: U64)
    requires c.number <= mid <= to
    ensures var next := CursorAt(reader, c, chain, mid);
            && SaidUpTo(reader, c, chain, to) == SaidUpTo(reader, c, chain, mid) + SaidUpTo(reader, next, chain, to)
            && CursorAt(reader, c, chain, to) == CursorAt(reader, next, chain, to)
  {
    RangeSplits(chain, c.number + 1, mid + 1, to + 1);
    FoldSplits(reader, c.learned, Range(chain, c.number + 1, mid + 1), Range(chain, mid + 1, to + 1));
  }

  lemma SentPrepends(batch: Segment, rest: seq<Segment>)
    ensures Sent([batch] + rest) == batch.sent + Sent(rest)
  {
    assert ([batch] + rest)[1..] == rest;
  }

  /** An answered range above the cursor is read and committed, and the run goes
      on from there. */
  lemma CommitsAnswered(reader: Reader, lookback: U64, c: Cursor, chain: FinalChain, events: seq<L1Event>, budget: nat)
    requires events != [] && events[0].Finalized? && c.number < events[0].tip.number && Serves(events[0], chain, c.number + 1)
    requires c.hash == chain(c.number).block.hash && LinkedUpTo(chain, c.number, c.number + 1)
    requires events[0].blocks(c.number + 1).Some? && budget > |SaidUpTo(reader, c, chain, events[0].tip.number)|
    ensures var next, said := CursorAt(reader, c, chain, events[0].tip.number), SaidUpTo(reader, c, chain, events[0].tip.number);
            var rest := RunFrom(reader, lookback, Some(next), events[1..], budget - |said| - 1);
            var run := RunFrom(reader, lookback, Some(c), events, budget);
            run.0 == rest.0 && Sent(run.1) == said + Sent(rest.1)
  {
    var tip := events[0].tip.number;
    var frames := Range(chain, c.number + 1, tip + 1);
    assert frames[0] == chain(c.number + 1) && events[0].blocks(c.number + 1).value == frames;
    var next, said := CursorAt(reader, c, chain, tip), SaidUpTo(reader, c, chain, tip);
    SentPrepends(Segment(frames, said, true), RunFrom(reader, lookback, Some(next), events[1..], budget - |said| - 1).1);
  }

  /** A lane makes progress: with budget enough to send what it reads and to write
      its cursors, a run reads exactly the chain from its cursor up to its reach,
      sends all that says, and leaves its cursor there. */
  lemma {:induction false} RunReadsToItsReach(reader: Reader, lookback: U64, c: Cursor, chain: FinalChain,
                                              events: seq<L1Event>, budget: nat)
    requires c.number < U64_MAX && c.hash == chain(c.number).block.hash && AllServe(events, chain, c.number + 1)
    requires LinkedUpTo(chain, c.number, Reach(c.number, events))
    requires budget >= |SaidUpTo(reader, c, chain, Reach(c.number, events))| + |events|
    ensures var run := RunFrom(reader, lookback, Some(c), events, budget);
            && run.0 == Some(CursorAt(reader, c, chain, Reach(c.number, events)))
            && Sent(run.1) == SaidUpTo(reader, c, chain, Reach(c.number, events))
    decreases |events|
  {
    if events == [] || events[0].Failed? {
      SaysNothing(reader, c, chain);
    } else if events[0].Informing? || events[0].tip.number <= c.number {
      RunReadsToItsReach(reader, lookback, c, chain, events[1..], budget);
    } else if events[0].blocks(c.number + 1).None? {
      SaysNothing(reader, c, chain);
    } else {
      var tip, to := events[0].tip.number, Reach(c.number, events);
      var next := CursorAt(reader, c, chain, tip);
      var sent := SaidUpTo(reader, c, chain, tip);
      assert Serves(events[0], chain, c.number + 1);
      SaidSplits(reader, c, chain, tip, to);
      CommitsAnswered(reader, lookback, c, chain, events, budget);
      RunReadsToItsReach(reader, lookback, next, chain, events[1..], budget - |sent| - 1);
    }
  }

  /** The reach is the greatest tip, when finality does not fail and every range
      asked for is answered. */
  lemma {:induction false} ReachIsTheGreatestTip(number: U64, events: seq<L1Event>)
    requires forall e | e in events :: !e.Failed?
    requires forall e, start: U64 | e in events && e.Finalized? && number < start <= e.tip.number :: e.blocks(start).Some?
    ensures forall e | e in events && e.Finalized? :: e.tip.number <= Reach(number, events)
    ensures Reach(number, events) == number || exists e :: e in events && e.Finalized? && e.tip.number == Reach(number, events)
    decreases |events|
  {
    if events != [] {
      assert events == [events[0]] + events[1..];
      ReachIsTheGreatestTip(if events[0].Finalized? && events[0].tip.number > number then events[0].tip.number else number,
                            events[1..]);
    }
  }

  /** The cursor after a fresh lane's first range, and what that range says. */
  function FirstCursor(reader: Reader, chain: FinalChain, start: nat, tip: U64): Cursor
    requires start <= tip
  {
    Cursor(tip, chain(tip).block.hash, Fold(reader, NOTHING, Range(chain, start, tip + 1)).1)
  }

  function FirstSaid(reader: Reader, chain: FinalChain, start: nat, tip: U64): seq<Observation>
    requires start <= tip
  {
    Fold(reader, NOTHING, Range(chain, start, tip + 1)).0
  }

  /** A lane without a cursor begins with its first tip, `lookback` blocks below
      it, and goes on from there in the same way; it ends at once when that range
      goes unanswered. */
  lemma {:induction false} FreshLaneReadsFromLookback(reader: Reader, lookback: U64, chain: FinalChain,
                                                      events: seq<L1Event>, budget: nat, i: nat)
    requires i < |events| && events[i].Finalized? && forall j | 0 <= j < i :: events[j].Informing?
    requires AllServe(events, chain, SatSub(events[i].tip.number, lookback))
    requires var tip := events[i].tip.number;
             var to := Reach(tip, events[i + 1..]);
             && LinkedUpTo(chain, tip, to)
             && budget >= |FirstSaid(reader, chain, SatSub(tip, lookback), to)| + |events|
    ensures var start, to := SatSub(events[i].tip.number, lookback), Reach(events[i].tip.number, events[i + 1..]);
            var run := RunFrom(reader, lookback, None, events, budget);
            if events[i].blocks(start).None? then run == (None, [])
            else run.0 == Some(FirstCursor(reader, chain, start, to)) && Sent(run.1) == FirstSaid(reader, chain, start, to)
    decreases i
  {
    if i > 0 {
      assert events[1..][i - 1] == events[i] && events[1..][i..] == events[i + 1..];
      FreshLaneReadsFromLookback(reader, lookback, chain, events[1..], budget, i - 1);
    } else if events[0].blocks(SatSub(events[0].tip.number, lookback)).Some? {
      FirstRangeThenRest(reader, lookback, chain, events, budget);
    }
  }

  /** The first range, and then the rest of the run from the cursor after it. */
  lemma FirstRangeThenRest(reader: Reader, lookback: U64, chain: FinalChain, events: seq<L1Event>, budget: nat)
    requires events != [] && events[0].Finalized? && AllServe(events, chain, SatSub(events[0].tip.number, lookback))
    requires events[0].blocks(SatSub(events[0].tip.number, lookback)).Some?
    requires var tip := events[0].tip.number;
             var to := Reach(tip, events[1..]);
             && LinkedUpTo(chain, tip, to)
             && budget >= |FirstSaid(reader, chain, SatSub(tip, lookback), to)| + |events|
    ensures var start, to := SatSub(events[0].tip.number, lookback), Reach(events[0].tip.number, events[1..]);
            var run := RunFrom(reader, lookback, None, events, budget);
            run.0 == Some(FirstCursor(reader, chain, start, to)) && Sent(run.1) == FirstSaid(reader, chain, start, to)
  {
    var tip := events[0].tip.number;
    var start, to := SatSub(tip, lookback), Reach(tip, events[1..]);
    var next, said := FirstCursor(reader, chain, start, tip), FirstSaid(reader, chain, start, tip);
    SaidAfterFirst(reader, chain, start, tip, to);
    FirstCommits(reader, lookback, chain, events, budget);
    AllServeAbove(events, chain, start, tip + 1);
    RunReadsToItsReach(reader, lookback, next, chain, events[1..], budget - |said| - 1);
  }

  lemma SaidAfterFirst(reader: Reader, chain: FinalChain, start: nat, tip: U64, to: U64)
    requires start <= tip <= to
    ensures var next := FirstCursor(reader, chain, start, tip);
            && FirstSaid(reader, chain, start, to) == FirstSaid(reader, chain, start, tip) + SaidUpTo(reader, next, chain, to)
            && FirstCursor(reader, chain, start, to) == CursorAt(reader, next, chain, to)
  {
    RangeSplits(chain, start, tip + 1, to + 1);
    FoldSplits(reader, NOTHING, Range(chain, start, tip + 1), Range(chain, tip + 1, to + 1));
  }

  lemma FirstCommits(reader: Reader, lookback: U64, chain: FinalChain, events: seq<L1Event>, budget: nat)
    requires events != [] && events[0].Finalized? && Serves(events[0], chain, SatSub(events[0].tip.number, lookback))
    requires events[0].blocks(SatSub(events[0].tip.number, lookback)).Some?
    requires budget > |FirstSaid(reader, chain, SatSub(events[0].tip.number, lookback), events[0].tip.number)|
    ensures var start, tip := SatSub(events[0].tip.number, lookback), events[0].tip.number;
            var said := FirstSaid(reader, chain, start, tip);
            var rest := RunFrom(reader, lookback, Some(FirstCursor(reader, chain, start, tip)), events[1..], budget - |said| - 1);
            var run := RunFrom(reader, lookback, None, events, budget);
            run.0 == rest.0 && Sent(run.1) == said + Sent(rest.1)
  {
    var start, tip := SatSub(events[0].tip.number, lookback), events[0].tip.number;
    var said := FirstSaid(reader, chain, start, tip);
    SentPrepends(Segment(Range(chain, start, tip + 1), said, true),
                 RunFrom(reader, lookback, Some(FirstCursor(reader, chain, start, tip)), events[1..], budget - |said| - 1).1);
  }

  lemma AllServeAbove(events: seq<L1Event>, chain: FinalChain, from: nat, higher: nat)
    requires events != [] && AllServe(events, chain, from) && from <= higher
    ensures AllServe(events[1..], chain, higher)
  {
    forall i | 0 <= i < |events[1..]| ensures Serves(events[1..][i], chain, higher) {
      assert Serves(events[i + 1], chain, from);
    }
  }

  lemma SaysNothing(reader: Reader, c: Cursor, chain: FinalChain)
    requires c.hash == chain(c.number).block.hash
    ensures SaidUpTo(reader, c, chain, c.number) == [] && CursorAt(reader, c, chain, c.number) == c
  {
    assert Range(chain, c.number + 1, c.number + 1) == [];
  }
}
