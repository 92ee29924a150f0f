/** What the anchor lane delivers over a whole lifetime of runs, each of which may
    fail, die in the middle of a batch, or be stopped. */
module AnchorLaneTheorems {
  import opened MachineIntegers
  import opened Wrappers
  import opened L1Claims
  import opened Observations
  import opened AnchorLane

  // ------------------------------------------------------------ assumptions

  /** Consecutive, hash-linked blocks that follow the block `number`, `hash`. */
  ghost predicate Extends(number: nat, hash: Word, frames: seq<Frame>)
    decreases |frames|
  {
    frames != [] ==>
      frames[0].block.number == number + 1 && frames[0].block.parentHash == hash
      && Extends(number + 1, frames[0].block.hash, frames[1..])
  }

  function LastHash(hash: Word, frames: seq<Frame>): Word {
    if frames == [] then hash else frames[|frames| - 1].block.hash
  }

  /** The block source's contract: the blocks from `start` through the tip,
      hash-linked down from it. */
  ghost predicate Answers(start: U64, tip: Tip, frames: seq<Frame>) {
    && start + |frames| == tip.number + 1
    && frames != [] && LastHash(0, frames) == tip.hash
    && frames[0].block.number == start
    && Extends(start, frames[0].block.hash, frames[1..])
  }

  /** An event whose source keeps that contract for ranges above `base`. */
  ghost predicate Honest(event: L1Event, base: nat) {
    event.Finalized? ==>
      event.tip.number < U64_MAX
      && forall start: U64 | base < start <= event.tip.number ::
           event.blocks(start).Some? ==> Answers(start, event.tip, event.blocks(start).value)
  }

  // ------------------------------------------------------- a lifetime of runs

  datatype Life = Life(events: seq<L1Event>, budget: nat)

  /** The cursor and batches left behind by one run after another. */
  function Lifetime(reader: Reader, lookback: U64, cursor: Option<Cursor>, lives: seq<Life>): (Option<Cursor>, seq<Segment>)
    decreases |lives|
  {
    if lives == [] then (cursor, [])
    else
      var run := RunFrom(reader, lookback, cursor, lives[0].events, lives[0].budget);
      var rest := Lifetime(reader, lookback, run.0, lives[1..]);
      (rest.0, run.1 + rest.1)
  }

  function Committed(segments: seq<Segment>): seq<Frame> {
    if segments == [] then []
    else (if segments[0].committed then segments[0].frames else []) + Committed(segments[1..])
  }

  function CommittedSent(segments: seq<Segment>): seq<Observation> {
    if segments == [] then []
    else (if segments[0].committed then segments[0].sent else []) + CommittedSent(segments[1..])
  }

  /** The cursor of a lane that read `frames` after `from` in one pass. */
  function After(reader: Reader, from: Cursor, frames: seq<Frame>): Cursor
    requires from.number + |frames| <= U64_MAX
  {
    Cursor(from.number + |frames|, LastHash(from.hash, frames), Fold(reader, from.learned, frames).1)
  }

  /** From the cursor `from` to the cursor `to`, batch by batch: each one's
      blocks follow the cursor before it by number and hash; a committed one sent
      all they say and moved the cursor past them; one that died sent a prefix
      of what they say and left the cursor alone. */
  ghost predicate OnePass(reader: Reader, from: Cursor, segments: seq<Segment>, to: Cursor)
    decreases |segments|
  {
    if segments == [] then from == to
    else
      var batch := segments[0];
      var said := Fold(reader, from.learned, batch.frames).0;
      && Extends(from.number, from.hash, batch.frames)
      && if batch.committed then
           && batch.sent == said && from.number + |batch.frames| < U64_MAX
           && OnePass(reader, After(reader, from, batch.frames), segments[1..], to)
         else
           && batch.sent <= said && OnePass(reader, from, segments[1..], to)
  }

  lemma {:induction false} OnePassAppends(reader: Reader, c0: Cursor, a: seq<Segment>, c1: Cursor, b: seq<Segment>, c2: Cursor)
    requires OnePass(reader, c0, a, c1) && OnePass(reader, c1, b, c2)
    ensures OnePass(reader, c0, a + b, c2)
    decreases |a|
  {
    if a == [] {
      assert a + b == b;
    } else {
      assert (a + b)[1..] == a[1..] + b;
      OnePassAppends(reader, if a[0].committed then After(reader, c0, a[0].frames) else c0, a[1..], c1, b, c2);
    }
  }

  lemma OnePassBatch(reader: Reader, lookback: U64, c: Cursor, event: L1Event, budget: nat, base: nat)
    requires base <= c.number < U64_MAX && Honest(event, base)
    ensures var step := StepOf(reader, lookback, Some(c), event, budget);
            && (step.Die? ==> OnePass(reader, c, [step.batch], c))
            && (step.Commit? ==> OnePass(reader, c, [step.batch], step.next) && base <= step.next.number < U64_MAX)
  {
    if event.Finalized? && c.number < event.tip.number && event.blocks(c.number + 1).Some? {
      var frames := event.blocks(c.number + 1).value;
      assert Answers(c.number + 1, event.tip, frames);
      assert LastHash(c.hash, frames) == event.tip.hash;
      var step := StepOf(reader, lookback, Some(c), event, budget);
      if !step.Stop? {
        assert [step.batch][1..] == [];
      }
    }
  }

  lemma {:induction false} RunIsOnePass(reader: Reader, lookback: U64, c: Cursor, events: seq<L1Event>, budget: nat, base: nat)
    requires base <= c.number < U64_MAX
    requires forall event | event in events :: Honest(event, base)
    ensures var (to, segments) := RunFrom(reader, lookback, Some(c), events, budget);
            to.Some? && OnePass(reader, c, segments, to.value) && base <= to.value.number < U64_MAX
    decreases |events|
  {
    if events != [] {
      OnePassBatch(reader, lookback, c, events[0], budget, base);
      match StepOf(reader, lookback, Some(c), events[0], budget)
      case Skip => RunIsOnePass(reader, lookback, c, events[1..], budget, base);
      case Commit(batch, next) =>
        RunIsOnePass(reader, lookback, next, events[1..], budget - |batch.sent| - 1, base);
        var (to, rest) := RunFrom(reader, lookback, Some(next), events[1..], budget - |batch.sent| - 1);
        OnePassAppends(reader, c, [batch], next, rest, to.value);
      case _ =>
    }
  }

  /** Once a cursor exists, whatever the finalized tips are and wherever the runs
      fail or die, the batches they leave behind are one pass. */
  lemma {:induction false} LifetimeIsOnePass(reader: Reader, lookback: U64, c: Cursor, lives: seq<Life>, base: nat)
    requires base <= c.number < U64_MAX
    requires forall i, event | 0 <= i < |lives| && event in lives[i].events :: Honest(event, base)
    ensures var (to, segments) := Lifetime(reader, lookback, Some(c), lives);
            to.Some? && OnePass(reader, c, segments, to.value)
    decreases |lives|
  {
    if lives != [] {
      RunIsOnePass(reader, lookback, c, lives[0].events, lives[0].budget, base);
      var (at, first) := RunFrom(reader, lookback, Some(c), lives[0].events, lives[0].budget);
      LifetimeIsOnePass(reader, lookback, at.value, lives[1..], base);
      var (to, rest) := Lifetime(reader, lookback, at, lives[1..]);
      OnePassAppends(reader, c, first, at.value, rest, to.value);
    }
  }

  lemma {:induction false} ExtendsAppends(number: nat, hash: Word, a: seq<Frame>, b: seq<Frame>)
    requires Extends(number, hash, a) && Extends(number + |a|, LastHash(hash, a), b)
    ensures Extends(number, hash, a + b)
    decreases |a|
  {
    if a == [] {
      assert a + b == b;
    } else {
      assert (a + b)[1..] == a[1..] + b;
      ExtendsAppends(number + 1, a[0].block.hash, a[1..], b);
    }
  }

  /** One pass, whatever its batching, is one fold: the committed blocks are one
      hash-linked chain after the first cursor, their observations are the left
      fold over that chain with the respected game type threaded through, and the
      last cursor is where that fold ends. */
  lemma {:induction false} OnePassIsOneFold(reader: Reader, from: Cursor, segments: seq<Segment>, to: Cursor)
    requires from.number < U64_MAX && OnePass(reader, from, segments, to)
    ensures var frames := Committed(segments);
            && Extends(from.number, from.hash, frames)
            && from.number + |frames| < U64_MAX && to == After(reader, from, frames)
            && CommittedSent(segments) == Fold(reader, from.learned, frames).0
    decreases |segments|
  {
    if segments != [] {
      var batch := segments[0];
      var rest := Committed(segments[1..]);
      if batch.committed {
        var at := After(reader, from, batch.frames);
        OnePassIsOneFold(reader, at, segments[1..], to);
        FoldSplits(reader, from.learned, batch.frames, rest);
        ExtendsAppends(from.number, from.hash, batch.frames, rest);
      } else {
        OnePassIsOneFold(reader, from, segments[1..], to);
        assert [] + rest == rest;
        assert [] + CommittedSent(segments[1..]) == CommittedSent(segments[1..]);
      }
    }
  }

  // ------------------------------------------------- one chain, any batching

  /** Every answer is a range of the one finalized `chain` that follows block
      `base`. */
  ghost predicate OfChain(event: L1Event, base: nat, chain: seq<Frame>) {
    event.Finalized? ==>
      event.tip.number <= base + |chain|
      && forall start: U64 | base < start <= event.tip.number ::
           event.blocks(start).Some? ==> event.blocks(start).value == chain[start - base - 1..event.tip.number - base]
  }

  /** Every batch read the chain's next blocks, from `at` on. */
  ghost predicate Along(chain: seq<Frame>, at: nat, segments: seq<Segment>)
    decreases |segments|
  {
    segments != [] ==>
      var frames := segments[0].frames;
      && at + |frames| <= |chain| && frames == chain[at..at + |frames|]
      && Along(chain, if segments[0].committed then at + |frames| else at, segments[1..])
  }

  lemma {:induction false} AlongAppends(chain: seq<Frame>, at: nat, a: seq<Segment>, b: seq<Segment>)
    requires Along(chain, at, a) && Along(chain, at + |Committed(a)|, b)
    ensures Along(chain, at, a + b)
    ensures |Committed(a + b)| == |Committed(a)| + |Committed(b)|
    decreases |a|
  {
    if a == [] {
      assert a + b == b;
    } else {
      assert (a + b)[1..] == a[1..] + b;
      AlongAppends(chain, if a[0].committed then at + |a[0].frames| else at, a[1..], b);
    }
  }

  lemma AlongBatch(reader: Reader, lookback: U64, c: Cursor, base: nat, chain: seq<Frame>, event: L1Event, budget: nat)
    requires base <= c.number < U64_MAX && OfChain(event, base, chain) && Honest(event, base)
    ensures var step := StepOf(reader, lookback, Some(c), event, budget);
            && (step.Die? ==> Along(chain, c.number - base, [step.batch]) && Committed([step.batch]) == [])
            && (step.Commit? ==> Along(chain, c.number - base, [step.batch])
                                 && step.next.number == c.number + |Committed([step.batch])|)
  {
    var step := StepOf(reader, lookback, Some(c), event, budget);
    if step.Die? || step.Commit? {
      assert [step.batch][1..] == [];
    }
  }

  /** A run from block `number` whose batches follow the chain up to its cursor. */
  ghost predicate GoesAlong(number: nat, base: nat, chain: seq<Frame>, run: (Option<Cursor>, seq<Segment>))
    requires base <= number
  {
    Along(chain, number - base, run.1) && run.0.Some? && run.0.value.number == number + |Committed(run.1)|
  }

  lemma CommitGoesAlong(number: nat, base: nat, chain: seq<Frame>, batch: Segment, next: nat, rest: (Option<Cursor>, seq<Segment>))
    requires base <= number && Along(chain, number - base, [batch])
    requires next == number + |Committed([batch])| && GoesAlong(next, base, chain, rest)
    ensures GoesAlong(number, base, chain, (rest.0, [batch] + rest.1))
  {
    AlongAppends(chain, number - base, [batch], rest.1);
  }

  /** Every event answers from the chain, and keeps the source's contract. */
  ghost predicate AllOfChain(events: seq<L1Event>, base: nat, chain: seq<Frame>) {
    forall i | 0 <= i < |events| :: OfChain(events[i], base, chain) && Honest(events[i], base)
  }

  /** What one event adds to a run along the chain, given the rest of the run. */
  lemma StepAlong(reader: Reader, lookback: U64, c: Cursor, base: nat, chain: seq<Frame>, events: seq<L1Event>, budget: nat)
    requires base <= c.number < U64_MAX && events != [] && OfChain(events[0], base, chain) && Honest(events[0], base)
    requires match StepOf(reader, lookback, Some(c), events[0], budget)
             case Skip => RunsAlong(reader, lookback, c, base, chain, events[1..], budget)
             case Commit(batch, next) =>
               base <= next.number < U64_MAX
               && RunsAlong(reader, lookback, next, base, chain, events[1..], budget - |batch.sent| - 1)
             case _ => true
    ensures RunsAlong(reader, lookback, c, base, chain, events, budget)
  {
    AlongBatch(reader, lookback, c, base, chain, events[0], budget);
    var step := StepOf(reader, lookback, Some(c), events[0], budget);
    if step.Commit? {
      var rest := RunFrom(reader, lookback, Some(step.next), events[1..], budget - |step.batch.sent| - 1);
      CommitGoesAlong(c.number, base, chain, step.batch, step.next.number, rest);
    }
  }

  ghost predicate RunsAlong(reader: Reader, lookback: U64, c: Cursor, base: nat, chain: seq<Frame>,
                            events: seq<L1Event>, budget: nat)
    requires base <= c.number
  {
    GoesAlong(c.number, base, chain, RunFrom(reader, lookback, Some(c), events, budget))
  }

  lemma {:induction false} RunAlong(reader: Reader, lookback: U64, c: Cursor, base: nat, chain: seq<Frame>,
                                    events: seq<L1Event>, budget: nat)
    requires base <= c.number < U64_MAX && AllOfChain(events, base, chain)
    ensures RunsAlong(reader, lookback, c, base, chain, events, budget)
    decreases |events|
  {
    if events != [] {
      OnePassBatch(reader, lookback, c, events[0], budget, base);
      var step := StepOf(reader, lookback, Some(c), events[0], budget);
      if step.Skip? {
        RunAlong(reader, lookback, c, base, chain, events[1..], budget);
      } else if step.Commit? {
        RunAlong(reader, lookback, step.next, base, chain, events[1..], budget - |step.batch.sent| - 1);
      }
      StepAlong(reader, lookback, c, base, chain, events, budget);
    }
  }

  lemma {:induction false} LifetimeAlong(reader: Reader, lookback: U64, c: Cursor, base: nat, chain: seq<Frame>, lives: seq<Life>)
    requires base <= c.number < U64_MAX
    requires forall i | 0 <= i < |lives| :: AllOfChain(lives[i].events, base, chain)
    ensures Along(chain, c.number - base, Lifetime(reader, lookback, Some(c), lives).1)
    decreases |lives|
  {
    if lives != [] {
      RunAlong(reader, lookback, c, base, chain, lives[0].events, lives[0].budget);
      assert forall event | event in lives[0].events :: Honest(event, base);
      RunIsOnePass(reader, lookback, c, lives[0].events, lives[0].budget, base);
      var (at, first) := RunFrom(reader, lookback, Some(c), lives[0].events, lives[0].budget);
      LifetimeAlong(reader, lookback, at.value, base, chain, lives[1..]);
      AlongAppends(chain, c.number - base, first, Lifetime(reader, lookback, at, lives[1..]).1);
    }
  }

  /** What the batches committed before batch `k` sent, followed by what batch
      `k` itself sent. */
  function SentUpTo(segments: seq<Segment>, k: nat): seq<Observation>
    requires k < |segments|
  {
    if k == 0 then segments[0].sent
    else (if segments[0].committed then segments[0].sent else []) + SentUpTo(segments[1..], k - 1)
  }

  lemma {:induction false} PrefixOfOneFold(reader: Reader, from: Cursor, chain: seq<Frame>, at: nat,
                                           segments: seq<Segment>, to: Cursor, k: nat)
    requires at <= |chain| && k < |segments|
    requires OnePass(reader, from, segments, to) && Along(chain, at, segments)
    ensures SentUpTo(segments, k) <= Fold(reader, from.learned, chain[at..]).0
    decreases |segments|
  {
    var batch := segments[0];
    if k > 0 && !batch.committed {
      PrefixOfOneFold(reader, from, chain, at, segments[1..], to, k - 1);
      assert [] + SentUpTo(segments[1..], k - 1) == SentUpTo(segments[1..], k - 1);
    } else if k > 0 {
      var end := at + |batch.frames|;
      PrefixOfOneFold(reader, After(reader, from, batch.frames), chain, end, segments[1..], to, k - 1);
      PrefixAcross(reader, from.learned, chain, at, batch.frames, SentUpTo(segments[1..], k - 1));
    } else {
      PrefixWithin(reader, from.learned, chain, at, batch.frames, batch.sent);
    }
  }

  lemma PrefixAcross(reader: Reader, learned: Learned, chain: seq<Frame>, at: nat, frames: seq<Frame>, sent: seq<Observation>)
    requires at + |frames| <= |chain| && frames == chain[at..at + |frames|]
    requires sent <= Fold(reader, Fold(reader, learned, frames).1, chain[at + |frames|..]).0
    ensures Fold(reader, learned, frames).0 + sent <= Fold(reader, learned, chain[at..]).0
  {
    FoldFromBatch(reader, learned, chain, at, frames);
  }

  lemma PrefixWithin(reader: Reader, learned: Learned, chain: seq<Frame>, at: nat, frames: seq<Frame>, sent: seq<Observation>)
    requires at + |frames| <= |chain| && frames == chain[at..at + |frames|]
    requires sent <= Fold(reader, learned, frames).0
    ensures sent <= Fold(reader, learned, chain[at..]).0
  {
    FoldFromBatch(reader, learned, chain, at, frames);
  }

  lemma FoldFromBatch(reader: Reader, learned: Learned, chain: seq<Frame>, at: nat, frames: seq<Frame>)
    requires at + |frames| <= |chain| && frames == chain[at..at + |frames|]
    ensures var after := Fold(reader, learned, frames);
            Fold(reader, learned, chain[at..]).0 == after.0 + Fold(reader, after.1, chain[at + |frames|..]).0
  {
    assert chain[at..] == frames + chain[at + |frames|..];
    FoldSplits(reader, learned, frames, chain[at + |frames|..]);
  }

  lemma {:induction false} ChainIsHonest(event: L1Event, base: nat, hash: Word, chain: seq<Frame>)
    requires OfChain(event, base, chain) && Extends(base, hash, chain)
    requires event.Finalized? ==> event.tip.number < U64_MAX
    requires event.Finalized? && base < event.tip.number ==> event.tip.hash == chain[event.tip.number - base - 1].block.hash
    ensures Honest(event, base)
  {
    if event.Finalized? {
      forall start: U64 | base < start <= event.tip.number && event.blocks(start).Some?
        ensures Answers(start, event.tip, event.blocks(start).value)
      {
        RangeAnswers(base, hash, chain, start, event.tip);
      }
    }
  }

  lemma RangeAnswers(base: nat, hash: Word, chain: seq<Frame>, start: U64, tip: Tip)
    requires Extends(base, hash, chain) && base < start <= tip.number <= base + |chain|
    requires tip.number < U64_MAX && tip.hash == chain[tip.number - base - 1].block.hash
    ensures Answers(start, tip, chain[start - base - 1..tip.number - base])
  {
    ExtendsRange(base, hash, chain, start - base - 1, tip.number - base);
  }

  lemma {:induction false} ExtendsRange(number: nat, hash: Word, chain: seq<Frame>, i: nat, j: nat)
    requires Extends(number, hash, chain) && i < j <= |chain|
    ensures chain[i].block.number == number + i + 1
    ensures Extends(number + i + 1, chain[i].block.hash, chain[i..j][1..])
    decreases j
  {
    if i > 0 {
      assert chain[i..j] == chain[1..][i - 1..j - 1];
      ExtendsRange(number + 1, chain[0].block.hash, chain[1..], i - 1, j - 1);
    } else if j > 1 {
      assert chain[0..j][1..] == chain[1..][0..j - 1];
      ExtendsRange(number + 1, chain[0].block.hash, chain[1..], 0, j - 1);
      assert chain[1..][0..j - 1] == [chain[1]] + chain[1..][0..j - 1][1..];
    }
  }

  /** While every tip is on the one finalized `chain`, however it is cut into
      batches and wherever runs die: at any moment, what the committed batches
      sent, followed by what the batch in progress sent, is a prefix of the one
      fold over the chain. A crash therefore repeats a prefix of its unfinished
      batch and nothing else. */
  lemma DeliveryIsPrefixOfOneFold(reader: Reader, lookback: U64, c: Cursor, chain: seq<Frame>, lives: seq<Life>, k: nat)
    requires c.number < U64_MAX && Extends(c.number, c.hash, chain)
    requires forall i, event | 0 <= i < |lives| && event in lives[i].events ::
               OfChain(event, c.number, chain)
               && (event.Finalized? ==> event.tip.number < U64_MAX)
               && (event.Finalized? && c.number < event.tip.number ==>
                     event.tip.hash == chain[event.tip.number - c.number - 1].block.hash)
    requires k < |Lifetime(reader, lookback, Some(c), lives).1|
    ensures var segments := Lifetime(reader, lookback, Some(c), lives).1;
            SentUpTo(segments, k) <= Fold(reader, c.learned, chain).0
  {
    forall i, event | 0 <= i < |lives| && event in lives[i].events ensures Honest(event, c.number) {
      ChainIsHonest(event, c.number, c.hash, chain);
    }
    var (to, segments) := Lifetime(reader, lookback, Some(c), lives);
    LifetimeIsOnePass(reader, lookback, c, lives, c.number);
    LifetimeAlong(reader, lookback, c, c.number, chain, lives);
    assert chain[0..] == chain;
    PrefixOfOneFold(reader, c, chain, 0, segments, to.value, k);
  }

  /** The bound on the tips is needed: exactly the last representable block is
      read again by every tip that names it. */
  lemma OnlyTheLastNumberIsReread(lookback: U64, c: Cursor, tip: Tip)
    requires tip.number == c.number
    ensures StartOf(lookback, Some(c), tip) <= tip.number <==> c.number == U64_MAX
  {
  }

  // ---------------------------------------------------- which type a block is read with

  /** The factory's log of the creation `o` of a game of `gameType`, whose claim is
      readable. */
  ghost predicate LogOfGame(config: Config, gameType: U32, frame: Frame, log: Log, o: Observation)
    requires config.anchor.DisputeGames? && o.GameCreated?
  {
    && CreationReadable(config, frame, log)
    && log.topics[2] == gameType && FromWord(log.topics[1]) == o.game
    && ClaimOf(config.rollup, config.anchor.claims, frame, log.transactionIndex, log.topics[3]) == Some((o.l2Block, o.root))
  }

  ghost predicate CreationReadable(config: Config, frame: Frame, log: Log)
    requires config.anchor.DisputeGames?
  {
    && log.address == config.anchor.factory && |log.topics| >= 4 && log.topics[0] == DISPUTE_GAME_CREATED
    && ClaimOf(config.rollup, config.anchor.claims, frame, log.transactionIndex, log.topics[3]).Some?
  }

  /** A block is read with the game type in force before it: it reports exactly the
      games of that type whose claims are readable, whatever the block itself
      changes, and so none of its readable creations of another type. */
  lemma GamesHaveTheTypeBefore(config: Config, learned: Learned, frames: seq<Frame>, i: nat, o: Observation)
    requires config.anchor.DisputeGames? && i < |frames| && o.GameCreated?
    ensures var before := Fold(ReaderOf(config), learned, frames[..i]);
            var anchor := InForce(config, before.1);
            var said := ReaderOf(config)(before.1, frames[i]);
            && Fold(ReaderOf(config), learned, frames[..i + 1]).0 == before.0 + said
            && anchor.DisputeGames?
            && (o in said <==> !frames[i].logs.Missing?
                               && exists log :: log in frames[i].logs.value && LogOfGame(config, anchor.gameType, frames[i], log, o))
            && forall log | CreationReadable(config, frames[i], log) ::
                 ObserveLog(anchor, config.rollup, frames[i], log).Some? <==> log.topics[2] == anchor.gameType
  {
    FoldStep(ReaderOf(config), learned, frames, i);
    var anchor := InForce(config, Fold(ReaderOf(config), learned, frames[..i]).1);
    var observer := Observer(anchor, config.rollup, frames[i]);
    if !frames[i].logs.Missing? {
      ObservedFromLog(observer, frames[i].logs.value, o);
      forall log ensures observer(log) == Some(o) <==> LogOfGame(config, anchor.gameType, frames[i], log, o) {
        LoggedGame(config, anchor, frames[i], log, o);
      }
    }
  }

  lemma LoggedGame(config: Config, anchor: L1Anchor, frame: Frame, log: Log, o: Observation)
    requires config.anchor.DisputeGames? && o.GameCreated?
    requires anchor.DisputeGames? && anchor == config.anchor.(gameType := anchor.gameType)
    ensures ObserveLog(anchor, config.rollup, frame, log) == Some(o) <==> LogOfGame(config, anchor.gameType, frame, log, o)
  {
  }

  /** The last game type that `observations` name, or `before`. */
  function LastType(observations: seq<Observation>, before: Option<U32>): Option<U32>
    decreases |observations|
  {
    if observations == [] then before
    else
      match observations[|observations| - 1]
      case GameTypeChanged(gameType) => Some(gameType)
      case _ => LastType(observations[..|observations| - 1], before)
  }

  lemma {:induction false} LearnsLastType(learned: Learned, observations: seq<Observation>)
    ensures LearnAll(learned, observations).gameType == LastType(observations, learned.gameType)
    decreases |observations|
  {
    if observations != [] {
      var init, last := observations[..|observations| - 1], observations[|observations| - 1];
      assert observations == init + [last];
      LearnsLastType(learned, init);
      LearnAllSplits(learned, init, [last]);
      assert [last][1..] == [];
    }
  }

  /** The last signer that `observations` name, or `before`. */
  function LastSigner(observations: seq<Observation>, before: Option<Address>): Option<Address>
    decreases |observations|
  {
    if observations == [] then before
    else
      match observations[|observations| - 1]
      case SignerChanged(signer) => Some(signer)
      case _ => LastSigner(observations[..|observations| - 1], before)
  }

  lemma {:induction false} LearnsLastSigner(learned: Learned, observations: seq<Observation>)
    ensures LearnAll(learned, observations).signer == LastSigner(observations, learned.signer)
    decreases |observations|
  {
    if observations != [] {
      var init, last := observations[..|observations| - 1], observations[|observations| - 1];
      assert observations == init + [last];
      LearnsLastSigner(learned, init);
      LearnAllSplits(learned, init, [last]);
      assert [last][1..] == [];
    }
  }

  /** A cursor remembers the last signer and the last game type of everything sent
      before it. */
  lemma RemembersTheLastSaid(reader: Reader, learned: Learned, frames: seq<Frame>)
    ensures var (said, after) := Fold(reader, learned, frames);
            after == Learned(LastSigner(said, learned.signer), LastType(said, learned.gameType))
  {
    LearnsWhatIsSaid(reader, learned, frames);
    LearnsLastSigner(learned, Fold(reader, learned, frames).0);
    LearnsLastType(learned, Fold(reader, learned, frames).0);
  }

  /** What is learned is learned from what is said. */
  lemma {:induction false} LearnsWhatIsSaid(reader: Reader, learned: Learned, frames: seq<Frame>)
    ensures Fold(reader, learned, frames).1 == LearnAll(learned, Fold(reader, learned, frames).0)
    decreases |frames|
  {
    if frames != [] {
      var said := reader(learned, frames[0]);
      var after := LearnAll(learned, said);
      LearnsWhatIsSaid(reader, after, frames[1..]);
      LearnAllSplits(learned, said, Fold(reader, after, frames[1..]).0);
    }
  }

  /** The type a lane respects: the last one learned, if it follows it. */
  function TypeOr(gameType: Option<U32>, default: U32): U32 {
    match gameType case None => default case Some(t) => t
  }

  /** The next block is read with the last type that all blocks before it named,
      or the one the lane began with, and with nothing else changed: any block's
      last change is in force for the next, whatever else it said after that. */
  lemma NextBlockHasTheLastType(config: Config, learned: Learned, frames: seq<Frame>, i: nat)
    requires i < |frames|
    ensures var before := Fold(ReaderOf(config), learned, frames[..i]).1;
            var after := Fold(ReaderOf(config), learned, frames[..i + 1]);
            && after.1.gameType == LastType(ReaderOf(config)(before, frames[i]), before.gameType)
            && after.1.gameType == LastType(after.0, learned.gameType)
            && InForce(config, after.1)
               == if config.anchor.DisputeGames? && config.followGameType
                  then config.anchor.(gameType := TypeOr(after.1.gameType, config.anchor.gameType))
                  else config.anchor
  {
    FoldStep(ReaderOf(config), learned, frames, i);
    var before := Fold(ReaderOf(config), learned, frames[..i]).1;
    LearnsLastType(before, ReaderOf(config)(before, frames[i]));
    LearnsWhatIsSaid(ReaderOf(config), learned, frames[..i + 1]);
    LearnsLastType(learned, Fold(ReaderOf(config), learned, frames[..i + 1]).0);
  }

  /** So a game of a type that becomes respected earlier in its own block is not
      reported, although the registry respects that type by then. */
  lemma TypeChangeMissesItsOwnBlock(config: Config, learned: Learned, frame: Frame, change: Log, creation: Log, gameType: U32)
    requires config.anchor.DisputeGames? && config.followGameType
    requires frame.logs == Complete([change, creation])
    requires change.address == config.anchor.registry && Topic(change, 0) == Some(RESPECTED_GAME_TYPE_SET)
    requires Enc(gameType) <= change.data
    requires creation.address == config.anchor.factory && |creation.topics| >= 4
    requires creation.topics[0] == DISPUTE_GAME_CREATED && creation.topics[2] == gameType
    requires InForce(config, learned).gameType != gameType
    ensures Fold(ReaderOf(config), learned, [frame]).0 == [GameTypeChanged(gameType)]
    ensures InForce(config, Fold(ReaderOf(config), learned, [frame]).1).gameType == gameType
  {
    var anchor := InForce(config, learned);
    var observer := Observer(anchor, config.rollup, frame);
    GameTypeObserved(anchor, config.rollup, frame, change, gameType);
    assert observer(change) == Some(GameTypeChanged(gameType)) && observer(creation) == None;
    assert [change, creation][1..] == [creation] && [creation][1..] == [];
    assert FilterMap(observer, [creation]) == [] by {
      assert FilterMap(observer, []) == [];
    }
    assert FilterMap(observer, [change, creation]) == [GameTypeChanged(gameType)];
    FoldOne(ReaderOf(config), learned, frame);
    assert [GameTypeChanged(gameType)][1..] == [];
  }
}
