/** An ad-hoc processor run on its own feed: blocks applied to and undone from a
    throwaway store, and the processor swapped while it runs.

    The store keeps, for every applied block, the state before it: undoing the
    newest applied block restores that state. */
module RunModel {
  import opened Wrappers
  import opened Sorting

  type Hash = nat

  datatype BlockRef = BlockRef(number: nat, hash: Hash, parentHash: Hash)

  datatype Frame = Frame(block: BlockRef, body: nat)

  /** A processor's state: its entities by key. */
  type Db = map<nat, nat>

  /** A module: what applying a block does, unless it refuses the block, and
      whether a block's material covers what it requires. */
  datatype Processor = Processor(reduce: (Db, Frame) -> Option<Db>, covers: Frame -> bool)

  datatype Record = Record(frame: Frame, before: Db)

  datatype Store = Store(state: Db, journal: seq<Record>)

  const EMPTY_STORE := Store(map[], [])

  datatype Undone = Restored(store: Store) | NotFound | OutOfOrder

  function StoreApply(store: Store, p: Processor, frame: Frame): Option<Store> {
    match p.reduce(store.state, frame)
    case None => None
    case Some(state) => Some(Store(state, store.journal + [Record(frame, store.state)]))
  }

  predicate Journaled(journal: seq<Record>, number: nat, hash: Hash) {
    exists r :: r in journal && r.frame.block.number == number && r.frame.block.hash == hash
  }

  /** Undo one block. The result is defined for the newest applied block only. */
  function StoreUndo(store: Store, number: nat, hash: Hash): Undone {
    if !Journaled(store.journal, number, hash) then NotFound
    else
      var top := store.journal[|store.journal| - 1];
      if top.frame.block.number == number && top.frame.block.hash == hash
      then Restored(Store(top.before, store.journal[..|store.journal| - 1]))
      else OutOfOrder
  }

  /** A run between two events. */
  datatype Run = Run(store: Store, processor: Processor, version: nat, kept: seq<Frame>, keep: nat,
                     first: Option<nat>, last: Option<BlockRef>)

  datatype Outcome =
    | Going(run: Run)
    | Failed                                      // the run ends with an error
    | Replan(version: nat, processor: Processor)  // the run plans its feed again
    | Undefined                                   // the feed undid a block out of order

  function Fresh(p: Processor, version: nat, keep: nat): Run {
    Run(EMPTY_STORE, p, version, [], keep, None, None)
  }

  /** The newest `keep` of `frames`. */
  function Newest(frames: seq<Frame>, keep: nat): seq<Frame> {
    if |frames| > keep then frames[|frames| - keep..] else frames
  }

  function ApplyFed(run: Run, frame: Frame): Outcome {
    if run.last.Some? && frame.block.number <= run.last.value.number then Going(run)
    else if run.last.Some? && frame.block.parentHash != run.last.value.hash then Failed
    else
      match StoreApply(run.store, run.processor, frame)
      case None => Failed
      case Some(store) =>
        Going(run.(store := store, kept := Newest(run.kept + [frame], run.keep),
                   first := if run.first.None? then Some(frame.block.number) else run.first,
                   last := Some(frame.block)))
  }

  function ApplyAll(run: Run, frames: seq<Frame>): Outcome
    decreases |frames|
  {
    if frames == [] then Going(run)
    else
      match ApplyFed(run, frames[0])
      case Going(next) => ApplyAll(next, frames[1..])
      case other => other
  }

  predicate Applied(run: Run, block: BlockRef) {
    run.last.Some? && block.number <= run.last.value.number && run.first.Some? && block.number >= run.first.value
  }

  function UndoOne(run: Run, block: BlockRef): Outcome {
    if !Applied(run, block) then Going(run)
    else
      match StoreUndo(run.store, block.number, block.hash)
      case NotFound => Failed
      case OutOfOrder => Undefined
      case Restored(store) =>
        var number := if block.number == 0 then 0 else block.number - 1;
        Going(run.(store := store, last := Some(BlockRef(number, block.parentHash, 0))))
  }

  function UndoAll(run: Run, blocks: seq<BlockRef>): Outcome
    decreases |blocks|
  {
    if blocks == [] then Going(run)
    else
      match UndoOne(run, blocks[0])
      case Going(next) => UndoAll(next, blocks[1..])
      case other => other
  }

  function Lowest(blocks: seq<BlockRef>): nat
    requires blocks != []
  {
    if |blocks| == 1 then blocks[0].number
    else var rest := Lowest(blocks[1..]); if blocks[0].number < rest then blocks[0].number else rest
  }

  /** The frames numbered below `bound`. */
  function Below(frames: seq<Frame>, bound: nat): seq<Frame> {
    if frames == [] then []
    else (if frames[0].block.number < bound then [frames[0]] else []) + Below(frames[1..], bound)
  }

  function Descending(block: BlockRef): int {
    0 - block.number as int
  }

  /** Undo the reverted blocks this run applied, newest first. */
  function Revert(run: Run, reverted: seq<BlockRef>): Outcome {
    var kept := if reverted == [] then run.kept else Below(run.kept, Lowest(reverted));
    UndoAll(run.(kept := kept), SortBy(reverted, Descending))
  }

  /** Take another processor and rerun the blocks the run keeps. */
  function Swap(run: Run, version: nat, p: Processor): Outcome {
    if run.kept == [] || !p.covers(run.kept[|run.kept| - 1]) then Replan(version, p)
    else ApplyAll(Fresh(p, version, run.keep), run.kept)
  }

  datatype Event =
    | Block(frame: Frame)
    | Reorg(reverted: seq<BlockRef>, applied: seq<Frame>)
    | Swapped(version: nat, processor: Processor)
    | Informing

  function Step(run: Run, e: Event): Outcome {
    match e
    case Block(frame) => ApplyFed(run, frame)
    case Reorg(reverted, applied) =>
      (match Revert(run, reverted)
       case Going(next) => ApplyAll(next, applied)
       case other => other)
    case Swapped(version, p) => Swap(run, version, p)
    case Informing => Going(run)
  }

  function Steps(run: Run, events: seq<Event>): Outcome
    decreases |events|
  {
    if events == [] then Going(run)
    else
      match Step(run, events[0])
      case Going(next) => Steps(next, events[1..])
      case other => other
  }

  // --------------------------------------------------------------- the meaning

  /** The blocks applied and not undone. */
  function Chain(run: Run): (s: seq<Frame>)
    ensures |s| == |run.store.journal|
  {
    seq(|run.store.journal|, i requires 0 <= i < |run.store.journal| => run.store.journal[i].frame)
  }

  /** A processor's state after `frames`, unless it refuses one of them. */
  function Fold(p: Processor, frames: seq<Frame>): Option<Db> {
    if frames == [] then Some(map[])
    else
      match Fold(p, frames[..|frames| - 1])
      case None => None
      case Some(state) => p.reduce(state, frames[|frames| - 1])
  }

  /** The hash block 0 names as its parent: no block's. */
  const NO_BLOCK: Hash := 0

  /** What a block reference says is what its hash commits to. */
  datatype Headers = Headers(numberOf: Hash -> nat, parentOf: Hash -> Hash)

  ghost predicate Genuine(h: Headers, b: BlockRef) {
    && h.numberOf(b.hash) == b.number && h.parentOf(b.hash) == b.parentHash
    && if b.number == 0 then b.parentHash == NO_BLOCK
       else b.parentHash != NO_BLOCK && h.numberOf(b.parentHash) == b.number - 1
  }

  ghost predicate GenuineEvent(h: Headers, e: Event) {
    match e
    case Block(frame) => Genuine(h, frame.block)
    case Reorg(reverted, applied) =>
      && (forall b | b in reverted :: Genuine(h, b))
      && (forall f | f in applied :: Genuine(h, f.block))
    case _ => true
  }

  ghost predicate IsSuffix(s: seq<Frame>, of: seq<Frame>) {
    |s| <= |of| && s == of[|of| - |s|..]
  }

  /** `frames` are consecutive, hash-linked, genuine blocks. */
  ghost predicate Linked(h: Headers, frames: seq<Frame>) {
    && (forall i | 0 <= i < |frames| :: Genuine(h, frames[i].block))
    && forall i, j | 0 <= i < j < |frames| && j == i + 1 ::
         frames[j].block.parentHash == frames[i].block.hash && frames[j].block.number == frames[i].block.number + 1
  }

  /** Everything the store holds is the processor's own fold. */
  ghost predicate Replays(run: Run) {
    && Fold(run.processor, Chain(run)) == Some(run.store.state)
    && forall i | 0 <= i < |run.store.journal| :: Fold(run.processor, Chain(run)[..i]) == Some(run.store.journal[i].before)
  }

  /** Everything was undone down to the block before the first. */
  ghost predicate BelowFirst(h: Headers, run: Run) {
    && run.last.Some? && run.last.value.hash != NO_BLOCK && run.last.value.number == h.numberOf(run.last.value.hash)
    && run.first == Some(run.last.value.number + 1)
  }

  /** Everything was undone, block 0 included. */
  predicate Emptied(run: Run) {
    && run.store.journal == [] && run.first == Some(0)
    && run.last.Some? && run.last.value.number == 0 && run.last.value.hash == NO_BLOCK
  }

  /** The run's bounds are those of a linked chain. */
  ghost predicate Fits(h: Headers, run: Run) {
    var chain := Chain(run);
    && Linked(h, chain)
    && (run.first.Some? <==> run.last.Some?)
    && if chain != [] then
         && run.first == Some(chain[0].block.number)
         && run.last.Some? && run.last.value.number == chain[|chain| - 1].block.number
         && run.last.value.hash == chain[|chain| - 1].block.hash
       else run.last.Some? ==> BelowFirst(h, run) || Emptied(run)
  }

  /** The kept blocks are the chain's newest, at most `keep` of them. */
  ghost predicate KeepsNewest(run: Run) {
    IsSuffix(run.kept, Chain(run)) && |run.kept| <= run.keep
  }

  ghost predicate Inv(h: Headers, run: Run) {
    Replays(run) && Fits(h, run) && KeepsNewest(run)
  }

  lemma FreshInv(h: Headers, p: Processor, version: nat, keep: nat)
    ensures Inv(h, Fresh(p, version, keep))
  {
  }

  lemma ReplaysAppends(before: Run, after: Run, frame: Frame)
    requires Replays(before) && after.processor == before.processor
    requires StoreApply(before.store, before.processor, frame) == Some(after.store)
    ensures Replays(after) && Chain(after) == Chain(before) + [frame]
  {
    var chain, chain' := Chain(before), Chain(after);
    assert chain' == chain + [frame];
    assert chain'[..|chain|] == chain;
    forall i | 0 <= i < |chain'|
      ensures Fold(after.processor, chain'[..i]) == Some(after.store.journal[i].before)
    {
      assert chain'[..i] == chain[..i];
      assert i == |chain| ==> chain[..i] == chain;
    }
  }

  lemma SuffixAppends(kept: seq<Frame>, chain: seq<Frame>, frame: Frame, keep: nat)
    requires IsSuffix(kept, chain)
    ensures IsSuffix(Newest(kept + [frame], keep), chain + [frame])
    ensures |Newest(kept + [frame], keep)| <= keep
  {
    assert kept + [frame] == (chain + [frame])[|chain| - |kept|..];
  }

  lemma LinkedAppends(h: Headers, chain: seq<Frame>, frame: Frame)
    requires Linked(h, chain) && Genuine(h, frame.block)
    requires chain != [] ==> frame.block.parentHash == chain[|chain| - 1].block.hash
                             && chain[|chain| - 1].block.number < frame.block.number
    ensures Linked(h, chain + [frame])
  {
  }

  /** A run whose blocks were all undone, block 0 included, accepts no block. */
  lemma EmptiedAcceptsNothing(h: Headers, run: Run, frame: Frame)
    requires Emptied(run) && Genuine(h, frame.block)
    ensures ApplyFed(run, frame) == if frame.block.number == 0 then Going(run) else Failed
  {
  }

  lemma ApplyFedFits(h: Headers, run: Run, frame: Frame, after: Run)
    requires Fits(h, run) && Genuine(h, frame.block) && !Emptied(run)
    requires ApplyFed(run, frame) == Going(after) && after != run && Chain(after) == Chain(run) + [frame]
    ensures Fits(h, after)
  {
    LinkedAppends(h, Chain(run), frame);
    assert (Chain(run) + [frame])[|Chain(run)|] == frame;
  }

  /** Applying one block extends the chain, or leaves the run alone. */
  lemma ApplyFedKeeps(h: Headers, run: Run, frame: Frame)
    requires Inv(h, run) && Genuine(h, frame.block)
    ensures var o := ApplyFed(run, frame);
            o.Going? ==> Inv(h, o.run) && (o.run == run || Chain(o.run) == Chain(run) + [frame])
  {
    if Emptied(run) {
      EmptiedAcceptsNothing(h, run, frame);
    } else if ApplyFed(run, frame).Going? && ApplyFed(run, frame).run != run {
      var after := ApplyFed(run, frame).run;
      ReplaysAppends(run, after, frame);
      SuffixAppends(run.kept, Chain(run), frame, run.keep);
      ApplyFedFits(h, run, frame, after);
    }
  }

  lemma {:induction false} ApplyAllKeeps(h: Headers, run: Run, frames: seq<Frame>)
    requires Inv(h, run) && forall f | f in frames :: Genuine(h, f.block)
    ensures ApplyAll(run, frames).Going? ==> Inv(h, ApplyAll(run, frames).run)
    decreases |frames|
  {
    if frames != [] {
      ApplyFedKeeps(h, run, frames[0]);
      match ApplyFed(run, frames[0])
      case Going(next) => ApplyAllKeeps(h, next, frames[1..]);
      case _ =>
    }
  }

  lemma LinkedNumbers(h: Headers, frames: seq<Frame>, i: nat, j: nat)
    requires Linked(h, frames) && i <= j < |frames|
    ensures frames[j].block.number == frames[i].block.number + (j - i)
    decreases j
  {
    if i < j {
      LinkedNumbers(h, frames, i, j - 1);
    }
  }

  lemma UndoReplays(before: Run, after: Run, number: nat, hash: Hash)
    requires Replays(before) && after.processor == before.processor
    requires StoreUndo(before.store, number, hash) == Restored(after.store)
    ensures Replays(after)
  {
    var chain, chain' := Chain(before), Chain(after);
    var n := |chain| - 1;
    assert chain' == chain[..n];
    forall i | 0 <= i < n ensures Fold(after.processor, chain'[..i]) == Some(after.store.journal[i].before) {
      assert chain'[..i] == chain[..i];
    }
  }

  /** Undoing a block takes the top of the chain off, or leaves the run alone. */
  lemma UndoOneFits(h: Headers, run: Run, block: BlockRef)
    requires Fits(h, run) && Genuine(h, block)
    ensures var o := UndoOne(run, block);
            o.Going? ==>
              && Fits(h, o.run)
              && if Applied(run, block) then
                   Chain(run) != [] && Chain(run)[|Chain(run)| - 1].block.number == block.number
                   && Chain(o.run) == Chain(run)[..|Chain(run)| - 1] && SameRun(run, o.run) && ChainIsPrefix(run, o.run)
                   && (block.number == 0 ==> Chain(o.run) == [])
                 else o.run == run
  {
    var o := UndoOne(run, block);
    if o.Going? && Applied(run, block) {
      var n := |run.store.journal| - 1;
      var chain := Chain(run);
      assert Chain(o.run) == chain[..n];
      LinkedNumbers(h, chain, 0, n);
      if n > 0 {
        assert chain[n].block.parentHash == chain[n - 1].block.hash;
      }
    }
  }

  /** What undoing never changes. */
  ghost predicate SameRun(before: Run, after: Run) {
    && after.kept == before.kept && after.keep == before.keep && after.first == before.first
    && after.processor == before.processor && after.version == before.version
  }

  ghost predicate ChainIsPrefix(before: Run, after: Run) {
    |Chain(after)| <= |Chain(before)| && Chain(after) == Chain(before)[..|Chain(after)|]
  }

  /** Undoing blocks one after another leaves a prefix of the chain. */
  lemma {:induction false} UndoAllFits(h: Headers, run: Run, blocks: seq<BlockRef>)
    requires Fits(h, run)
    requires forall b | b in blocks :: Genuine(h, b)
    ensures var o := UndoAll(run, blocks);
            o.Going? ==> Fits(h, o.run) && SameRun(run, o.run) && ChainIsPrefix(run, o.run)
    decreases |blocks|
  {
    PrefixOfItself(run);
    if blocks != [] {
      UndoOneFits(h, run, blocks[0]);
      if UndoAll(run, blocks).Going? {
        var next := UndoOne(run, blocks[0]).run;
        UndoAllFits(h, next, blocks[1..]);
        PrefixOfPrefix(run, next, UndoAll(run, blocks).run);
      }
    }
  }

  lemma PrefixOfItself(run: Run)
    ensures ChainIsPrefix(run, run)
  {
    assert Chain(run)[..|Chain(run)|] == Chain(run);
  }

  lemma PrefixOfPrefix(a: Run, b: Run, c: Run)
    requires ChainIsPrefix(a, b)
    requires ChainIsPrefix(b, c)
    ensures ChainIsPrefix(a, c)
  {
    assert Chain(c) == Chain(a)[..|Chain(b)|][..|Chain(c)|];
  }

  lemma {:induction false} UndoAllReplays(run: Run, blocks: seq<BlockRef>)
    requires Replays(run)
    ensures var o := UndoAll(run, blocks); o.Going? ==> Replays(o.run)
    decreases |blocks|
  {
    if blocks != [] {
      match UndoOne(run, blocks[0])
      case Going(next) =>
        if Applied(run, blocks[0]) {
          UndoReplays(run, next, blocks[0].number, blocks[0].hash);
        }
        UndoAllReplays(next, blocks[1..]);
      case _ =>
    }
  }

  lemma {:induction false} UndoneAreNamed(h: Headers, run: Run, blocks: seq<BlockRef>, i: nat)
    requires Fits(h, run)
    requires forall b | b in blocks :: Genuine(h, b)
    requires UndoAll(run, blocks).Going? && |Chain(UndoAll(run, blocks).run)| <= i < |Chain(run)|
    ensures exists b :: b in blocks && b.number == Chain(run)[i].block.number
    decreases |blocks|
  {
    UndoOneFits(h, run, blocks[0]);
    var next := UndoOne(run, blocks[0]).run;
    if i < |Chain(next)| {
      UndoneAreNamed(h, next, blocks[1..], i);
      var b :| b in blocks[1..] && b.number == Chain(next)[i].block.number;
      assert b in blocks;
    } else {
      assert blocks[0] in blocks;
    }
  }

  lemma {:induction false} NoneStaysApplied(h: Headers, run: Run, blocks: seq<BlockRef>, b: BlockRef)
    requires Fits(h, run)
    requires forall b | b in blocks :: Genuine(h, b)
    requires UndoAll(run, blocks).Going? && (b in blocks || !Applied(run, b))
    ensures Chain(UndoAll(run, blocks).run) != [] ==> !Applied(UndoAll(run, blocks).run, b)
    decreases |blocks|
  {
    if blocks != [] {
      UndoOneFits(h, run, blocks[0]);
      var next := UndoOne(run, blocks[0]).run;
      assert b == blocks[0] || b in blocks[1..] || !Applied(run, b);
      if Chain(next) == [] {
        UndoAllFits(h, next, blocks[1..]);
      } else {
        NoneStaysApplied(h, next, blocks[1..], b);
      }
    }
  }

  lemma {:induction false} LowestIsLowest(blocks: seq<BlockRef>)
    requires blocks != []
    ensures forall b | b in blocks :: Lowest(blocks) <= b.number
    ensures exists b :: b in blocks && b.number == Lowest(blocks)
  {
    assert blocks == [blocks[0]] + blocks[1..];
    if |blocks| > 1 {
      LowestIsLowest(blocks[1..]);
    }
  }

  lemma {:induction false} BelowCuts(frames: seq<Frame>, bound: nat, k: nat)
    requires k <= |frames|
    requires forall i | 0 <= i < k :: frames[i].block.number < bound
    requires forall i | k <= i < |frames| :: frames[i].block.number >= bound
    ensures Below(frames, bound) == frames[..k]
    decreases |frames|
  {
    if frames != [] {
      BelowCuts(frames[1..], bound, if k == 0 then 0 else k - 1);
    }
  }

  /** The kept blocks below a bound are a suffix of the chain below it. */
  lemma KeptStaysSuffix(chain: seq<Frame>, m: nat, kept: seq<Frame>, bound: nat)
    requires IsSuffix(kept, chain) && m <= |chain|
    requires forall i | 0 <= i < m :: chain[i].block.number < bound
    requires forall i | m <= i < |chain| :: chain[i].block.number >= bound
    ensures IsSuffix(Below(kept, bound), chain[..m]) && |Below(kept, bound)| <= |kept|
  {
    var d := |chain| - |kept|;
    var k := if m < d then 0 else m - d;
    forall i | 0 <= i < |kept| ensures kept[i] == chain[d + i] {}
    BelowCuts(kept, bound, k);
    assert kept[..k] == chain[..m][m - k..];
  }

  lemma NothingBelow(chain: seq<Frame>, kept: seq<Frame>, bound: nat)
    requires IsSuffix(kept, chain) && forall i | 0 <= i < |chain| :: chain[i].block.number >= bound
    ensures Below(kept, bound) == []
  {
    forall i | 0 <= i < |kept| ensures kept[i] == chain[|chain| - |kept| + i] {}
    BelowCuts(kept, bound, 0);
  }

  lemma SortKeepsMembers(blocks: seq<BlockRef>)
    ensures forall b :: b in SortBy(blocks, Descending) <==> b in blocks
  {
    SortBySorts(blocks, Descending);
    assert forall b :: b in SortBy(blocks, Descending) <==> b in multiset(SortBy(blocks, Descending));
    assert forall b :: b in blocks <==> b in multiset(blocks);
  }

  lemma OutsideApplied(h: Headers, run: Run, b: BlockRef, i: nat)
    requires Fits(h, run) && !Applied(run, b) && i < |Chain(run)|
    ensures Chain(run)[i].block.number < b.number || b.number < Chain(run)[0].block.number
  {
    LinkedNumbers(h, Chain(run), i, |Chain(run)| - 1);
  }

  /** Where the undone blocks begin: all of the chain, or exactly the blocks from
      the lowest reverted number on. */
  lemma CutAtLowest(h: Headers, run: Run, blocks: seq<BlockRef>, after: Run, lowest: BlockRef, i: nat)
    requires Fits(h, run) && UndoAll(run, blocks) == Going(after)
    requires forall b | b in blocks :: Genuine(h, b)
    requires forall b | b in blocks :: lowest.number <= b.number
    requires lowest in blocks && i < |Chain(run)|
    requires Fits(h, after) && ChainIsPrefix(run, after)
    ensures i >= |Chain(after)| ==> Chain(run)[i].block.number >= lowest.number
    ensures i < |Chain(after)| ==>
              Chain(run)[i].block.number < lowest.number || lowest.number < Chain(run)[0].block.number
  {
    if i >= |Chain(after)| {
      UndoneAreNamed(h, run, blocks, i);
    } else {
      NoneStaysApplied(h, run, blocks, lowest);
      OutsideApplied(h, after, lowest, i);
    }
  }

  lemma RevertCutsKept(h: Headers, run: Run, blocks: seq<BlockRef>, after: Run, lowest: BlockRef)
    requires Fits(h, run) && UndoAll(run, blocks) == Going(after)
    requires forall b | b in blocks :: Genuine(h, b)
    requires forall b | b in blocks :: lowest.number <= b.number
    requires lowest in blocks
    ensures var chain, m := Chain(run), |Chain(after)|;
            && m <= |chain| && Chain(after) == chain[..m]
            && (forall i | m <= i < |chain| :: chain[i].block.number >= lowest.number)
            && ((forall i | 0 <= i < m :: chain[i].block.number < lowest.number)
                || (forall i | 0 <= i < |chain| :: chain[i].block.number >= lowest.number))
  {
    var chain := Chain(run);
    UndoAllFits(h, run, blocks);
    forall i | 0 <= i < |chain|
      ensures i >= |Chain(after)| ==> chain[i].block.number >= lowest.number
      ensures i < |Chain(after)| ==> chain[i].block.number < lowest.number || lowest.number < chain[0].block.number
    {
      CutAtLowest(h, run, blocks, after, lowest, i);
    }
    if chain != [] && lowest.number < chain[0].block.number {
      forall i | 0 <= i < |chain| ensures chain[i].block.number >= lowest.number {
        LinkedNumbers(h, chain, 0, i);
      }
    }
  }

  /** A reorg's undone blocks come off the top of the chain, and the kept blocks
      stay a suffix of it. */
  lemma RevertKeeps(h: Headers, run: Run, reverted: seq<BlockRef>)
    requires Inv(h, run)
    requires forall b | b in reverted :: Genuine(h, b)
    ensures Revert(run, reverted).Going? ==>
              Inv(h, Revert(run, reverted).run) && ChainIsPrefix(run, Revert(run, reverted).run)
  {
    var blocks := SortBy(reverted, Descending);
    SortKeepsMembers(reverted);
    if reverted != [] {
      RevertSome(h, run, reverted, blocks);
    }
  }

  lemma KeepOnly(h: Headers, run: Run, kept: seq<Frame>)
    requires Fits(h, run) && Replays(run)
    ensures var start := run.(kept := kept); Fits(h, start) && Replays(start) && Chain(start) == Chain(run)
  {
    assert Chain(run.(kept := kept)) == Chain(run);
  }

  lemma RevertSome(h: Headers, run: Run, reverted: seq<BlockRef>, blocks: seq<BlockRef>)
    requires Inv(h, run) && reverted != []
    requires forall b | b in reverted :: Genuine(h, b)
    requires forall b :: b in blocks <==> b in reverted
    ensures var o := UndoAll(run.(kept := Below(run.kept, Lowest(reverted))), blocks);
            o.Going? ==> Inv(h, o.run) && ChainIsPrefix(run, o.run)
  {
    var bound := Lowest(reverted);
    var start := run.(kept := Below(run.kept, bound));
    KeepOnly(h, run, start.kept);
    UndoAllFits(h, start, blocks);
    UndoAllReplays(start, blocks);
    var o := UndoAll(start, blocks);
    if o.Going? {
      LowestIsLowest(reverted);
      var lowest :| lowest in reverted && lowest.number == bound;
      KeptIsCut(h, run, start, blocks, o.run, lowest);
    }
  }

  lemma KeptIsCut(h: Headers, run: Run, start: Run, blocks: seq<BlockRef>, after: Run, lowest: BlockRef)
    requires KeepsNewest(run) && start == run.(kept := Below(run.kept, lowest.number))
    requires Fits(h, start) && UndoAll(start, blocks) == Going(after) && Chain(start) == Chain(run)
    requires SameRun(start, after) && ChainIsPrefix(start, after)
    requires forall b | b in blocks :: Genuine(h, b)
    requires forall b | b in blocks :: lowest.number <= b.number
    requires lowest in blocks
    ensures KeepsNewest(after)
  {
    RevertCutsKept(h, start, blocks, after, lowest);
    CutKept(Chain(run), |Chain(after)|, run.kept, lowest.number);
  }

  lemma CutKept(chain: seq<Frame>, m: nat, kept: seq<Frame>, bound: nat)
    requires IsSuffix(kept, chain) && m <= |chain|
    requires forall i | m <= i < |chain| :: chain[i].block.number >= bound
    requires (forall i | 0 <= i < m :: chain[i].block.number < bound)
             || (forall i | 0 <= i < |chain| :: chain[i].block.number >= bound)
    ensures IsSuffix(Below(kept, bound), chain[..m]) && |Below(kept, bound)| <= |kept|
  {
    if forall i | 0 <= i < m :: chain[i].block.number < bound {
      KeptStaysSuffix(chain, m, kept, bound);
    } else {
      NothingBelow(chain, kept, bound);
    }
  }
}
