/** The lane that follows finalized L1 ranges, threads the respected game type
    through them, and resumes from its cursor. A run may die between any two of
    its effects: each observation it sends and each cursor it writes spends one
    unit of the run's `budget`, and the run ends when none is left. */
module AnchorLane {
  import opened MachineIntegers
  import opened Wrappers
  import opened L1Claims
  import opened Observations

  /** What the lane learned from the rollup's contracts up to where it stopped. */
  datatype Learned = Learned(signer: Option<Address>, gameType: Option<U32>)

  const NOTHING := Learned(None, None)

  datatype Cursor = Cursor(number: U64, hash: Word, learned: Learned)

  datatype Tip = Tip(number: U64, hash: Word)

  /** An event of L1 finality. `blocks` is how the block source answers for the
      range from a given start through `tip`; `None` is an error. */
  datatype L1Event =
    | Finalized(tip: Tip, blocks: U64 -> Option<seq<Frame>>)
    | Informing
    | Failed

  /** A lane's configuration. */
  datatype Config = Config(anchor: L1Anchor, rollup: Rollup, lookback: U64, followGameType: bool)

  /** One batch: the frames it read, what it sent of their observations, and
      whether it wrote its cursor. */
  datatype Segment = Segment(frames: seq<Frame>, sent: seq<Observation>, committed: bool)

  // ------------------------------------------------------------ one left fold

  function Respect(config: Config, anchor: L1Anchor, gameType: U32): L1Anchor {
    if config.followGameType && anchor.DisputeGames? then anchor.(gameType := gameType) else anchor
  }

  /** The anchor in force once `learned` is known. */
  function InForce(config: Config, learned: Learned): L1Anchor {
    match learned.gameType
    case None => config.anchor
    case Some(gameType) => Respect(config, config.anchor, gameType)
  }

  function Learn(learned: Learned, o: Observation): Learned {
    match o
    case SignerChanged(signer) => learned.(signer := Some(signer))
    case GameTypeChanged(gameType) => learned.(gameType := Some(gameType))
    case _ => learned
  }

  function LearnAll(learned: Learned, observations: seq<Observation>): Learned
    decreases |observations|
  {
    if observations == [] then learned else LearnAll(Learn(learned, observations[0]), observations[1..])
  }

  /** How a block is read once something is learned. */
  type Reader = (Learned, Frame) -> seq<Observation>

  /** A block is read with the anchor in force before it. */
  function ReaderOf(config: Config): Reader {
    (learned, frame) => ObserveFrame(InForce(config, learned), config.rollup, frame)
  }

  /** Everything a range of blocks says, with what it teaches carried along. */
  function Fold(reader: Reader, learned: Learned, frames: seq<Frame>): (seq<Observation>, Learned)
    decreases |frames|
  {
    if frames == [] then ([], learned)
    else
      var said := reader(learned, frames[0]);
      var rest := Fold(reader, LearnAll(learned, said), frames[1..]);
      (said + rest.0, rest.1)
  }

  lemma {:induction false} FoldSplits(reader: Reader, learned: Learned, a: seq<Frame>, b: seq<Frame>)
    ensures var left := Fold(reader, learned, a);
            var right := Fold(reader, left.1, b);
            Fold(reader, learned, a + b) == (left.0 + right.0, right.1)
    decreases |a|
  {
    if a == [] {
      assert a + b == b;
      assert [] + Fold(reader, learned, b).0 == Fold(reader, learned, b).0;
    } else {
      assert (a + b)[1..] == a[1..] + b;
      var said := reader(learned, a[0]);
      var after := LearnAll(learned, said);
      FoldSplits(reader, after, a[1..], b);
      var tail := Fold(reader, after, a[1..]);
      assert said + (tail.0 + Fold(reader, tail.1, b).0) == (said + tail.0) + Fold(reader, tail.1, b).0;
    }
  }

  lemma {:induction false} LearnAllSplits(learned: Learned, a: seq<Observation>, b: seq<Observation>)
    ensures LearnAll(learned, a + b) == LearnAll(LearnAll(learned, a), b)
    decreases |a|
  {
    if a == [] {
      assert a + b == b;
    } else {
      assert (a + b)[1..] == a[1..] + b;
      LearnAllSplits(Learn(learned, a[0]), a[1..], b);
    }
  }

  // ------------------------------------------------------------ what a run does

  function LearnedOf(cursor: Option<Cursor>): Learned {
    match cursor case None => NOTHING case Some(c) => c.learned
  }

  function StartOf(lookback: U64, cursor: Option<Cursor>, tip: Tip): U64 {
    match cursor
    case None => SatSub(tip.number, lookback)
    case Some(c) => SatAdd(c.number, 1)
  }

  /** A batch's first block is the one after the cursor's but names another
      parent. */
  predicate Unlinked(cursor: Option<Cursor>, frames: seq<Frame>) {
    cursor.Some? && frames != []
    && frames[0].block.number == SatAdd(cursor.value.number, 1)
    && frames[0].block.parentHash != cursor.value.hash
  }

  /** What one event does: nothing, end the run, die in the middle of its
      batch, or commit its batch. */
  datatype Step = Skip | Stop | Die(batch: Segment) | Commit(batch: Segment, next: Cursor)

  function StepOf(reader: Reader, lookback: U64, cursor: Option<Cursor>, event: L1Event, budget: nat): Step {
    match event
    case Failed => Stop
    case Informing => Skip
    case Finalized(tip, blocks) =>
      var start := StartOf(lookback, cursor, tip);
      if start > tip.number then Skip
      else
        match blocks(start)
        case None => Stop
        case Some(frames) =>
          if Unlinked(cursor, frames) then Stop
          else
            var said := Fold(reader, LearnedOf(cursor), frames);
            if budget <= |said.0| then Die(Segment(frames, said.0[..budget], false))
            else Commit(Segment(frames, said.0, true), Cursor(tip.number, tip.hash, said.1))
  }

  /** The cursor and batches a run leaves behind when it starts at `cursor`. */
  function RunFrom(reader: Reader, lookback: U64, cursor: Option<Cursor>, events: seq<L1Event>, budget: nat)
    : (Option<Cursor>, seq<Segment>)
    decreases |events|
  {
    if events == [] then (cursor, [])
    else
      match StepOf(reader, lookback, cursor, events[0], budget)
      case Skip => RunFrom(reader, lookback, cursor, events[1..], budget)
      case Stop => (cursor, [])
      case Die(batch) => (cursor, [batch])
      case Commit(batch, next) =>
        var rest := RunFrom(reader, lookback, Some(next), events[1..], budget - |batch.sent| - 1);
        (rest.0, [batch] + rest.1)
  }

  function Sent(segments: seq<Segment>): seq<Observation> {
    if segments == [] then [] else segments[0].sent + Sent(segments[1..])
  }

  /** The lane with its durable cursor file and its channel. */
  class Lane {
    const config: Config
    var anchor: L1Anchor
    var cursorFile: Option<Cursor>
    var sent: seq<Observation>

    constructor (config: Config, cursorFile: Option<Cursor>)
      ensures this.config == config && this.cursorFile == cursorFile && sent == []
    {
      this.config := config;
      this.anchor := config.anchor;
      this.cursorFile := cursorFile;
      this.sent := [];
    }

    /** Read games of `gameType` from here on, unless the anchor's is fixed. */
    method RespectType(gameType: U32)
      modifies this`anchor
      ensures anchor == Respect(config, old(anchor), gameType)
    {
      if config.followGameType && anchor.DisputeGames? && anchor.gameType != gameType {
        anchor := anchor.(gameType := gameType);
      }
    }

    /** Send `observations` until `budget` runs out, learning from each one. */
    method SendAll(observations: seq<Observation>, budget: nat, learned: Learned)
      returns (left: nat, learned': Learned, died: bool)
      requires anchor == InForce(config, learned)
      modifies this`anchor, this`sent
      ensures died == (budget < |observations|)
      ensures sent == old(sent) + (if died then observations[..budget] else observations)
      ensures !died ==> left == budget - |observations| && learned' == LearnAll(learned, observations)
                        && anchor == InForce(config, learned')
    {
      left, learned', died := budget, learned, false;
      for j := 0 to |observations|
        invariant left == budget - j
        invariant anchor == InForce(config, learned')
        invariant learned' == LearnAll(learned, observations[..j])
        invariant sent == old(sent) + observations[..j]
      {
        var o := observations[j];
        assert observations[..j + 1] == observations[..j] + [o];
        LearnAllSplits(learned, observations[..j], [o]);
        assert LearnAll(learned', [o]) == Learn(learned', o);
        if left == 0 {
          died := true;
          return;
        }
        match o {
          case SignerChanged(signer) => learned' := learned'.(signer := Some(signer));
          case GameTypeChanged(gameType) =>
            learned' := learned'.(gameType := Some(gameType));
            RespectType(gameType);
          case _ =>
        }
        sent := sent + [o];
        left := left - 1;
      }
      assert observations[..|observations|] == observations;
    }

    /** Read one block with the anchor in force and send what it says. */
    method SendFrame(frame: Frame, budget: nat, learned: Learned)
      returns (left: nat, learned': Learned, died: bool)
      requires anchor == InForce(config, learned)
      modifies this`anchor, this`sent
      ensures var said := ReaderOf(config)(learned, frame);
              died == (budget < |said|)
              && sent == old(sent) + (if died then said[..budget] else said)
              && (!died ==> left == budget - |said| && learned' == LearnAll(learned, said) && anchor == InForce(config, learned'))
    {
      var observations := Observe(anchor, config.rollup, frame);
      left, learned', died := SendAll(observations, budget, learned);
    }

    /** Go on with block `i` of `frames`, the blocks before it having said `done`. */
    method SendNext(frames: seq<Frame>, i: nat, left: nat, learned: Learned,
                    ghost from: Learned, ghost done: seq<Observation>, ghost budget: nat)
      returns (left': nat, learned': Learned, died: bool, ghost done': seq<Observation>)
      requires i < |frames| && anchor == InForce(config, learned) && left == budget - |done|
      requires (done, learned) == Fold(ReaderOf(config), from, frames[..i])
      modifies this`anchor, this`sent
      ensures died ==> && budget < |Fold(ReaderOf(config), from, frames).0|
                       && done + done' == Fold(ReaderOf(config), from, frames).0[..budget]
      ensures sent == old(sent) + done'
      ensures !died ==> && (done + done', learned') == Fold(ReaderOf(config), from, frames[..i + 1])
                        && left' == budget - |done + done'| && anchor == InForce(config, learned')
    {
      done' := ReaderOf(config)(learned, frames[i]);
      FoldStepWithin(ReaderOf(config), from, frames, i, budget);
      left', learned', died := SendFrame(frames[i], left, learned);
      done' := if died then done'[..left] else done';
    }

    method SendEach(frames: seq<Frame>, budget: nat, learned: Learned)
      returns (left: nat, learned': Learned, died: bool, ghost done: seq<Observation>)
      requires anchor == InForce(config, learned)
      modifies this`anchor, this`sent
      ensures sent == old(sent) + done
      ensures died ==> budget < |Fold(ReaderOf(config), learned, frames).0|
                       && done == Fold(ReaderOf(config), learned, frames).0[..budget]
      ensures !died ==> (done, learned') == Fold(ReaderOf(config), learned, frames)
                        && left == budget - |done| && anchor == InForce(config, learned')
    {
      left, learned', died, done := budget, learned, false, [];
      for i := 0 to |frames|
        invariant anchor == InForce(config, learned') && !died
        invariant (done, learned') == Fold(ReaderOf(config), learned, frames[..i])
        invariant sent == old(sent) + done && left == budget - |done|
      {
        ghost var said;
        left, learned', died, said := SendNext(frames, i, left, learned', learned, done, budget);
        done := done + said;
        if died {
          return;
        }
      }
      assert frames[..|frames|] == frames;
    }

    /** Send what `frames` say until `budget` runs out. */
    method SendFrames(frames: seq<Frame>, budget: nat, learned: Learned)
      returns (left: nat, learned': Learned, died: bool)
      requires anchor == InForce(config, learned)
      modifies this`anchor, this`sent
      ensures died == (budget < |Fold(ReaderOf(config), learned, frames).0|)
      ensures sent == old(sent) + (if died then Fold(ReaderOf(config), learned, frames).0[..budget]
                                   else Fold(ReaderOf(config), learned, frames).0)
      ensures !died ==> left == budget - |Fold(ReaderOf(config), learned, frames).0|
                        && learned' == Fold(ReaderOf(config), learned, frames).1
                        && anchor == InForce(config, learned')
    {
      ghost var done;
      left, learned', died, done := SendEach(frames, budget, learned);
    }

    /** Handle one event of L1 finality from the stored cursor; `ended` when the
        run is over. */
    method Take(event: L1Event, budget: nat, learned: Learned)
      returns (left: nat, learned': Learned, ended: bool)
      requires anchor == InForce(config, learned) && learned == LearnedOf(cursorFile)
      modifies this
      ensures match StepOf(ReaderOf(config), config.lookback, old(cursorFile), event, budget)
              case Skip => !ended && left == budget && cursorFile == old(cursorFile) && sent == old(sent)
              case Stop => ended && cursorFile == old(cursorFile) && sent == old(sent)
              case Die(batch) => ended && cursorFile == old(cursorFile) && sent == old(sent) + batch.sent
              case Commit(batch, next) =>
                !ended && left == budget - |batch.sent| - 1 && cursorFile == Some(next) && sent == old(sent) + batch.sent
      ensures !ended ==> anchor == InForce(config, learned') && learned' == LearnedOf(cursorFile)
    {
      left, learned', ended := budget, learned, false;
      if event.Failed? {
        ended := true;
        return;
      }
      if event.Informing? {
        return;
      }
      var start := StartOf(config.lookback, cursorFile, event.tip);
      if start > event.tip.number {
        return;
      }
      var answer := event.blocks(start);
      if answer.None? || Unlinked(cursorFile, answer.value) {
        ended := true;
        return;
      }
      left, learned', ended := SendFrames(answer.value, budget, learned);
      if ended {
        return;
      }
      if left == 0 {
        ended := true;
        return;
      }
      cursorFile := Some(Cursor(event.tip.number, event.tip.hash, learned'));
      left := left - 1;
    }

    /** Handle the event at `i`: what is left to do is the rest of the run. */
    method Advance(events: seq<L1Event>, i: nat, budget: nat, learned: Learned)
      returns (left: nat, learned': Learned, ended: bool)
      requires i < |events|
      requires anchor == InForce(config, learned) && learned == LearnedOf(cursorFile)
      modifies this
      ensures var run := RunFrom(ReaderOf(config), config.lookback, old(cursorFile), events[i..], budget);
              if ended then cursorFile == run.0 && sent == old(sent) + Sent(run.1)
              else
                var rest := RunFrom(ReaderOf(config), config.lookback, cursorFile, events[i + 1..], left);
                rest.0 == run.0 && sent + Sent(rest.1) == old(sent) + Sent(run.1)
      ensures !ended ==> anchor == InForce(config, learned') && learned' == LearnedOf(cursorFile)
    {
      RunUnfolds(ReaderOf(config), config.lookback, cursorFile, events, i, budget);
      ghost var step := StepOf(ReaderOf(config), config.lookback, cursorFile, events[i], budget);
      left, learned', ended := Take(events[i], budget, learned);
      if step.Commit? {
        ghost var rest := Sent(RunFrom(ReaderOf(config), config.lookback, cursorFile, events[i + 1..], left).1);
        assert sent + rest == old(sent) + (step.batch.sent + rest);
      }
    }

    /** Follow `events` from the stored cursor until they end, something fails,
        or the budget is spent. */
    method Run(events: seq<L1Event>, budget: nat)
      modifies this
      ensures cursorFile == RunFrom(ReaderOf(config), config.lookback, old(cursorFile), events, budget).0
      ensures sent == old(sent) + Sent(RunFrom(ReaderOf(config), config.lookback, old(cursorFile), events, budget).1)
    {
      var learned := LearnedOf(cursorFile);
      anchor := config.anchor;
      if learned.gameType.Some? {
        RespectType(learned.gameType.value);
      }
      var left: nat := budget;
      ghost var run := RunFrom(ReaderOf(config), config.lookback, cursorFile, events, budget);
      ghost var goal := sent + Sent(run.1);
      assert events[0..] == events;
      for i := 0 to |events|
        invariant learned == LearnedOf(cursorFile) && anchor == InForce(config, learned)
        invariant run.0 == RunFrom(ReaderOf(config), config.lookback, cursorFile, events[i..], left).0
        invariant goal == sent + Sent(RunFrom(ReaderOf(config), config.lookback, cursorFile, events[i..], left).1)
      {
        var ended;
        left, learned, ended := Advance(events, i, left, learned);
        if ended {
          return;
        }
      }
    }
  }

  lemma RunUnfolds(reader: Reader, lookback: U64, cursor: Option<Cursor>, events: seq<L1Event>, i: nat, budget: nat)
    requires i < |events|
    ensures var run := RunFrom(reader, lookback, cursor, events[i..], budget);
            match StepOf(reader, lookback, cursor, events[i], budget)
            case Skip => run == RunFrom(reader, lookback, cursor, events[i + 1..], budget)
            case Stop => run.0 == cursor && Sent(run.1) == []
            case Die(batch) => run.0 == cursor && Sent(run.1) == batch.sent
            case Commit(batch, next) =>
              var rest := RunFrom(reader, lookback, Some(next), events[i + 1..], budget - |batch.sent| - 1);
              run.0 == rest.0 && Sent(run.1) == batch.sent + Sent(rest.1)
  {
    assert events[i..][0] == events[i] && events[i..][1..] == events[i + 1..];
    match StepOf(reader, lookback, cursor, events[i], budget)
    case Die(batch) =>
      assert Sent([batch]) == batch.sent + Sent([batch][1..]) && [batch][1..] == [];
    case Commit(batch, next) =>
      var rest := RunFrom(reader, lookback, Some(next), events[i + 1..], budget - |batch.sent| - 1);
      assert ([batch] + rest.1)[1..] == rest.1;
    case _ =>
  }

  /** A budget that ends within the next block ends within the whole fold. */
  lemma FoldStepWithin(reader: Reader, learned: Learned, frames: seq<Frame>, i: nat, budget: nat)
    requires i < |frames| && |Fold(reader, learned, frames[..i]).0| <= budget
    ensures var done := Fold(reader, learned, frames[..i]);
            var said := reader(done.1, frames[i]);
            && Fold(reader, learned, frames[..i + 1]) == (done.0 + said, LearnAll(done.1, said))
            && (budget < |done.0| + |said| ==>
                  && budget < |Fold(reader, learned, frames).0|
                  && done.0 + said[..budget - |done.0|] == Fold(reader, learned, frames).0[..budget])
  {
    FoldStep(reader, learned, frames, i);
    var done := Fold(reader, learned, frames[..i]);
    var said := reader(done.1, frames[i]);
    if budget < |done.0| + |said| {
      PrefixOfBoth(done.0, said, Fold(reader, learned, frames).0, budget);
    }
  }

  lemma PrefixOfBoth(a: seq<Observation>, b: seq<Observation>, whole: seq<Observation>, n: nat)
    requires a + b <= whole && |a| <= n < |a| + |b|
    ensures a + b[..n - |a|] == whole[..n]
  {
  }

  lemma FoldOne(reader: Reader, learned: Learned, frame: Frame)
    ensures Fold(reader, learned, [frame]) == (reader(learned, frame), LearnAll(learned, reader(learned, frame)))
  {
    var said := reader(learned, frame);
    var none: seq<Frame> := [frame][1..];
    assert none == [];
    assert Fold(reader, LearnAll(learned, said), none) == ([], LearnAll(learned, said));
    assert said + [] == said;
  }

  lemma FoldStep(reader: Reader, learned: Learned, frames: seq<Frame>, i: nat)
    requires i < |frames|
    ensures var done := Fold(reader, learned, frames[..i]);
            var said := reader(done.1, frames[i]);
            Fold(reader, learned, frames[..i + 1]) == (done.0 + said, LearnAll(done.1, said))
            && done.0 + said <= Fold(reader, learned, frames).0
  {
    var done := Fold(reader, learned, frames[..i]);
    assert frames[..i + 1] == frames[..i] + [frames[i]];
    FoldSplits(reader, learned, frames[..i], [frames[i]]);
    FoldOne(reader, done.1, frames[i]);
    assert frames == frames[..i + 1] + frames[i + 1..];
    FoldSplits(reader, learned, frames[..i + 1], frames[i + 1..]);
  }
}
