/** What a run on its own feed keeps over every sequence of blocks, reorgs and
    swaps. */
module RunTheorems {
  import opened Wrappers
  import opened Sorting
  import opened RunModel

  lemma StepKeeps(h: Headers, run: Run, e: Event)
    requires Inv(h, run) && GenuineEvent(h, e)
    ensures Step(run, e).Going? ==> Inv(h, Step(run, e).run)
  {
    match e
    case Block(frame) => ApplyFedKeeps(h, run, frame);
    case Reorg(reverted, applied) =>
      RevertKeeps(h, run, reverted);
      match Revert(run, reverted) {
        case Going(next) => ApplyAllKeeps(h, next, applied);
        case _ =>
      }
    case Swapped(version, p) =>
      if Swap(run, version, p).Going? {
        SwapKeeps(h, run, version, p);
      }
    case Informing =>
  }

  lemma SwapKeeps(h: Headers, run: Run, version: nat, p: Processor)
    requires Inv(h, run)
    ensures Swap(run, version, p).Going? ==> Inv(h, Swap(run, version, p).run)
  {
    FreshInv(h, p, version, run.keep);
    forall f | f in run.kept ensures Genuine(h, f.block) {
      var i :| 0 <= i < |run.kept| && run.kept[i] == f;
      assert f == Chain(run)[|Chain(run)| - |run.kept| + i];
    }
    ApplyAllKeeps(h, Fresh(p, version, run.keep), run.kept);
  }

  /** After any sequence of blocks, reorgs and swaps of its own feed that a run
      survives: its store is the current processor folded over the hash-linked
      chain of blocks applied and not undone, from `first` to `last`, and its kept
      blocks are the newest of that chain, at most `keep`. */
  lemma {:induction false} RunReplaysItsChain(h: Headers, run: Run, events: seq<Event>)
    requires Inv(h, run) && forall e | e in events :: GenuineEvent(h, e)
    ensures Steps(run, events).Going? ==> Inv(h, Steps(run, events).run)
    decreases |events|
  {
    if events != [] {
      StepKeeps(h, run, events[0]);
      match Step(run, events[0])
      case Going(next) => RunReplaysItsChain(h, next, events[1..]);
      case _ =>
    }
  }

  // ------------------------------------------------------------------- swaps

  /** `frames` may be applied one after another from `run` on. */
  ghost predicate Continues(run: Run, frames: seq<Frame>) {
    && (forall i, j | 0 <= i < j < |frames| && j == i + 1 ::
          frames[j].block.parentHash == frames[i].block.hash && frames[j].block.number > frames[i].block.number)
    && (frames != [] && run.last.Some? ==>
          frames[0].block.number > run.last.value.number && frames[0].block.parentHash == run.last.value.hash)
  }

  lemma FoldExtends(p: Processor, done: seq<Frame>, frame: Frame)
    ensures Fold(p, done + [frame]) ==
            match Fold(p, done) case None => None case Some(state) => p.reduce(state, frame)
  {
    assert (done + [frame])[..|done|] == done;
  }

  lemma {:induction false} FoldStopsEarly(p: Processor, done: seq<Frame>, rest: seq<Frame>)
    requires Fold(p, done).None?
    ensures Fold(p, done + rest).None?
    decreases |rest|
  {
    if rest == [] {
      assert done + rest == done;
    } else {
      FoldExtends(p, done, rest[0]);
      FoldStopsEarly(p, done + [rest[0]], rest[1..]);
      assert done + [rest[0]] + rest[1..] == done + rest;
    }
  }

  /** Rerunning linked blocks applies every one of them, as long as the processor
      accepts them all. */
  lemma {:induction false} RerunApplies(run: Run, done: seq<Frame>, frames: seq<Frame>)
    requires Continues(run, frames) && |done| + |frames| <= run.keep
    requires Chain(run) == done && run.kept == done && Fold(run.processor, done) == Some(run.store.state)
    ensures var o := ApplyAll(run, frames);
            if Fold(run.processor, done + frames).Some? then
              && o.Going? && Chain(o.run) == done + frames && o.run.kept == done + frames
              && o.run.version == run.version && o.run.processor == run.processor
              && (frames != [] ==> o.run.last == Some(frames[|frames| - 1].block))
              && (run.first.None? && frames != [] ==> o.run.first == Some(frames[0].block.number))
              && (run.first.Some? ==> o.run.first == run.first)
            else o.Failed?
    decreases |frames|
  {
    if frames == [] {
      assert done + frames == done;
    } else {
      var frame, rest := frames[0], frames[1..];
      FoldExtends(run.processor, done, frame);
      assert done + [frame] + rest == done + frames;
      if ApplyFed(run, frame).Going? {
        assert Chain(ApplyFed(run, frame).run) == done + [frame];
        RerunApplies(ApplyFed(run, frame).run, done + [frame], rest);
      } else {
        FoldStopsEarly(run.processor, done + [frame], rest);
      }
    }
  }

  lemma KeptContinues(h: Headers, run: Run, start: Run)
    requires Fits(h, run) && KeepsNewest(run) && run.kept != [] && start.last.None?
    ensures Continues(start, run.kept)
    ensures var newest := run.kept[|run.kept| - 1].block;
            run.last.Some? && run.last.value.number == newest.number && run.last.value.hash == newest.hash
  {
    var chain, kept := Chain(run), run.kept;
    forall i | 0 <= i < |kept| ensures kept[i] == chain[|chain| - |kept| + i] {}
  }

  /** A swap plans the feed again exactly when the run keeps nothing or its newest
      kept block lacks what the new processor requires. Otherwise the new
      processor reruns exactly the kept blocks, in a fresh store, and ends at the
      same tip number and hash with the same blocks kept; only a block it refuses
      ends the run. */
  lemma SwapRerunsKept(h: Headers, run: Run, version: nat, p: Processor)
    requires Inv(h, run)
    ensures var o := Swap(run, version, p);
            if run.kept == [] || !p.covers(run.kept[|run.kept| - 1]) then o == Replan(version, p)
            else if Fold(p, run.kept).Some? then
              && o.Going? && Chain(o.run) == run.kept && o.run.kept == run.kept
              && o.run.version == version && o.run.processor == p
              && o.run.last.Some? && o.run.last.value.number == run.last.value.number
              && o.run.last.value.hash == run.last.value.hash && o.run.first == Some(run.kept[0].block.number)
            else o.Failed?
  {
    if run.kept != [] {
      var start := Fresh(p, version, run.keep);
      KeptContinues(h, run, start);
      assert [] + run.kept == run.kept;
      RerunApplies(start, [], run.kept);
    }
  }

  // ------------------------------------------------------------------- reorgs

  /** `b` is a block of `chain`, and every block from it up is listed. */
  ghost predicate OnTop(chain: seq<Frame>, listed: seq<BlockRef>, b: BlockRef) {
    && (exists i :: 0 <= i < |chain| && chain[i].block == b)
    && forall i | 0 <= i < |chain| && chain[i].block.number >= b.number :: chain[i].block in listed
  }

  /** The reverted blocks this run applied are the top of its chain: each is one
      of its blocks, and so is listed every block above it. */
  ghost predicate TopOfChain(run: Run, reverted: seq<BlockRef>) {
    forall b | b in reverted && Applied(run, b) :: OnTop(Chain(run), reverted, b)
  }

  ghost predicate Descends(blocks: seq<BlockRef>) {
    forall i, j | 0 <= i < j < |blocks| :: blocks[i].number >= blocks[j].number
  }

  lemma UndoesTop(h: Headers, run: Run, blocks: seq<BlockRef>)
    requires Fits(h, run) && blocks != [] && Descends(blocks) && TopOfChain(run, blocks) && Applied(run, blocks[0])
    ensures var n := |Chain(run)|;
            n > 0 && Chain(run)[n - 1].block == blocks[0] && UndoOne(run, blocks[0]).Going?
  {
    var chain, b := Chain(run), blocks[0];
    assert OnTop(chain, blocks, b);
    var i :| 0 <= i < |chain| && chain[i].block == b;
    var n := |chain| - 1;
    LinkedNumbers(h, chain, i, n);
    assert chain[n].block in blocks;
    var j :| 0 <= j < |blocks| && blocks[j] == chain[n].block;
    assert j > 0 ==> blocks[0].number >= blocks[j].number;
    assert i == n;
    assert run.store.journal[n] in run.store.journal;
  }

  lemma OnTopOfRest(h: Headers, chain: seq<Frame>, blocks: seq<BlockRef>, b: BlockRef)
    requires Linked(h, chain) && chain != [] && blocks != [] && chain[|chain| - 1].block == blocks[0]
    requires OnTop(chain, blocks, b) && b.number < blocks[0].number
    ensures OnTop(chain[..|chain| - 1], blocks[1..], b)
  {
    var n := |chain| - 1;
    var i :| 0 <= i <= n && chain[i].block == b;
    assert chain[..n][i].block == b;
    forall k | 0 <= k < n && chain[k].block.number >= b.number ensures chain[k].block in blocks[1..] {
      LinkedNumbers(h, chain, k, n);
      StaysListed(blocks, chain[k].block);
    }
  }

  lemma StaysListed(blocks: seq<BlockRef>, b: BlockRef)
    requires b in blocks && b != blocks[0]
    ensures b in blocks[1..]
  {
    var j :| 0 <= j < |blocks| && blocks[j] == b;
    assert blocks[1..][j - 1] == b;
  }

  lemma OnTopWithout(chain: seq<Frame>, blocks: seq<BlockRef>, b: BlockRef)
    requires blocks != [] && OnTop(chain, blocks, b)
    requires forall k | 0 <= k < |chain| :: chain[k].block != blocks[0]
    ensures OnTop(chain, blocks[1..], b)
  {
    forall k | 0 <= k < |chain| && chain[k].block.number >= b.number ensures chain[k].block in blocks[1..] {
      StaysListed(blocks, chain[k].block);
    }
  }

  lemma UnappliedIsAbsent(h: Headers, run: Run, b: BlockRef, k: nat)
    requires Fits(h, run) && !Applied(run, b) && k < |Chain(run)|
    ensures Chain(run)[k].block != b
  {
    OutsideApplied(h, run, b, k);
    LinkedNumbers(h, Chain(run), 0, k);
  }

  /** Block 0 is listed at most once, if the run began with it. */
  ghost predicate OneGenesis(run: Run, blocks: seq<BlockRef>) {
    run.first == Some(0) ==> forall b: BlockRef | b.number == 0 :: multiset(blocks)[b] <= 1
  }

  lemma SameNumberSameBlock(h: Headers, chain: seq<Frame>, listed: seq<BlockRef>, a: BlockRef, b: BlockRef)
    requires Linked(h, chain) && a.number == b.number
    requires OnTop(chain, listed, a) && OnTop(chain, listed, b)
    ensures a == b
  {
    var i :| 0 <= i < |chain| && chain[i].block == a;
    var j :| 0 <= j < |chain| && chain[j].block == b;
    if i < j {
      LinkedNumbers(h, chain, i, j);
    } else {
      LinkedNumbers(h, chain, j, i);
    }
  }

  lemma GenesisComesLast(h: Headers, run: Run, blocks: seq<BlockRef>)
    requires Fits(h, run) && blocks != [] && Descends(blocks) && TopOfChain(run, blocks) && OneGenesis(run, blocks)
    requires Applied(run, blocks[0]) && blocks[0].number == 0
    ensures blocks[1..] == []
  {
    if |blocks| > 1 {
      FirstTwo(blocks);
      assert blocks[1] in blocks && blocks[0] in blocks && blocks[1].number == 0;
      assert OnTop(Chain(run), blocks, blocks[1]) && OnTop(Chain(run), blocks, blocks[0]);
      SameNumberSameBlock(h, Chain(run), blocks, blocks[1], blocks[0]);
    }
  }

  lemma FirstTwo(blocks: seq<BlockRef>)
    requires |blocks| > 1
    ensures blocks[0] == blocks[1] ==> multiset(blocks)[blocks[0]] >= 2
  {
    assert blocks == [blocks[0]] + ([blocks[1]] + blocks[2..]);
  }

  lemma TopOfRest(h: Headers, run: Run, next: Run, blocks: seq<BlockRef>)
    requires Fits(h, run) && blocks != [] && Descends(blocks) && TopOfChain(run, blocks) && OneGenesis(run, blocks)
    requires Genuine(h, blocks[0]) && UndoOne(run, blocks[0]) == Going(next)
    ensures TopOfChain(next, blocks[1..]) && OneGenesis(next, blocks[1..])
  {
    assert blocks == [blocks[0]] + blocks[1..];
    var chain := Chain(run);
    UndoOneFits(h, run, blocks[0]);
    if Applied(run, blocks[0]) {
      UndoesTop(h, run, blocks);
      if blocks[0].number == 0 {
        GenesisComesLast(h, run, blocks);
        return;
      }
    } else {
      forall k | 0 <= k < |chain| ensures chain[k].block != blocks[0] {
        UnappliedIsAbsent(h, run, blocks[0], k);
      }
    }
    forall b | b in blocks[1..] && Applied(next, b) ensures OnTop(Chain(next), blocks[1..], b) {
      assert OnTop(chain, blocks, b);
      if Applied(run, blocks[0]) {
        OnTopOfRest(h, chain, blocks, b);
      } else {
        OnTopWithout(chain, blocks, b);
      }
    }
  }

  lemma {:induction false} UndoAllOfTop(h: Headers, run: Run, blocks: seq<BlockRef>)
    requires Fits(h, run) && Descends(blocks) && TopOfChain(run, blocks) && OneGenesis(run, blocks)
    requires forall b | b in blocks :: Genuine(h, b)
    ensures UndoAll(run, blocks).Going?
    decreases |blocks|
  {
    if blocks != [] {
      if Applied(run, blocks[0]) {
        UndoesTop(h, run, blocks);
      }
      var next := UndoOne(run, blocks[0]).run;
      UndoOneFits(h, run, blocks[0]);
      TopOfRest(h, run, next, blocks);
      UndoAllOfTop(h, next, blocks[1..]);
    }
  }

  /** What is undone with success names block 0 at most once, and not at all once
      nothing is left to undo. */
  lemma {:induction false} UndoneGenesisOnce(h: Headers, run: Run, blocks: seq<BlockRef>)
    requires Fits(h, run) && run.first == Some(0) && UndoAll(run, blocks).Going?
    requires forall b | b in blocks :: Genuine(h, b)
    ensures forall i, j | 0 <= i < j < |blocks| :: blocks[i].number > 0 || blocks[j].number > 0
    ensures Chain(run) == [] ==> forall i | 0 <= i < |blocks| :: blocks[i].number > 0
    decreases |blocks|
  {
    if blocks != [] {
      UndoOneFits(h, run, blocks[0]);
      UndoneGenesisOnce(h, UndoOne(run, blocks[0]).run, blocks[1..]);
      assert forall i | 0 < i < |blocks| :: blocks[i] == blocks[1..][i - 1];
    }
  }

  lemma {:induction false} TwoIndices(blocks: seq<BlockRef>, b: BlockRef) returns (i: nat, j: nat)
    requires multiset(blocks)[b] >= 2
    ensures i < j < |blocks| && blocks[i] == b && blocks[j] == b
    decreases |blocks|
  {
    assert blocks == [blocks[0]] + blocks[1..];
    if blocks[0] == b {
      assert b in multiset(blocks[1..]);
      var k :| 0 <= k < |blocks[1..]| && blocks[1..][k] == b;
      i, j := 0, k + 1;
    } else {
      i, j := TwoIndices(blocks[1..], b);
      i, j := i + 1, j + 1;
    }
  }

  /** A reorg whose reverted blocks are the top of the chain, listed in any order
      and together with blocks the run never applied, is undone exactly when it
      does not list block 0 twice: no undo is refused or out of order. */
  lemma ReorgOfTopIsUndone(h: Headers, run: Run, reverted: seq<BlockRef>)
    requires Inv(h, run) && TopOfChain(run, reverted)
    requires forall b | b in reverted :: Genuine(h, b)
    ensures Revert(run, reverted).Going? <==> OneGenesis(run, reverted)
  {
    var blocks := SortBy(reverted, Descending);
    var start := run.(kept := if reverted == [] then run.kept else Below(run.kept, Lowest(reverted)));
    KeepOnly(h, run, start.kept);
    NewestFirst(reverted);
    SortKeepsMembers(reverted);
    if OneGenesis(run, reverted) {
      SortedIsTop(run, start, reverted);
      UndoAllOfTop(h, start, blocks);
    } else if UndoAll(start, blocks).Going? {
      GenesisTwice(h, start, reverted);
    }
  }

  /** So a run that has applied nothing but block 0 ends when it is told twice to
      undo it, and goes on when it is told once. */
  lemma GenesisListedTwiceFails(p: Processor, version: nat, keep: nat, genesis: Frame)
    requires genesis.block.number == 0 && genesis.block.parentHash == NO_BLOCK && p.reduce(map[], genesis).Some?
    ensures var o, b := ApplyFed(Fresh(p, version, keep), genesis), genesis.block;
            o.Going? && Revert(o.run, [b]).Going? && Revert(o.run, [b, b]) == Failed
  {
    var b := genesis.block;
    var run := ApplyFed(Fresh(p, version, keep), genesis).run;
    var start := run.(kept := Below(run.kept, 0));
    assert Chain(start) == [genesis];
    UndoesOnlyGenesis(start, genesis);
    RevertsOne(run, b);
    SortsPair(b);
    UndoesPair(start, b);
  }

  lemma UndoesOnlyGenesis(run: Run, genesis: Frame)
    requires Chain(run) == [genesis] && Chain(run)[0] == genesis && genesis.block.number == 0
    requires run.first == Some(0) && run.last.Some? && run.last.value.number == 0 && genesis.block.parentHash == NO_BLOCK
    ensures UndoOne(run, genesis.block).Going? && Emptied(UndoOne(run, genesis.block).run)
  {
    assert run.store.journal[0] in run.store.journal;
  }

  lemma SortsPair(b: BlockRef)
    ensures SortBy([b, b], Descending) == [b, b] && Lowest([b, b]) == b.number
  {
    SortBySorts([b, b], Descending);
    SortKeepsMembers([b, b]);
    var sorted := SortBy([b, b], Descending);
    assert |multiset(sorted)| == |multiset([b, b])|;
    assert sorted[0] in sorted && sorted[1] in sorted;
    assert [b, b][1..] == [b];
  }

  lemma UndoesPair(run: Run, b: BlockRef)
    requires b.number == 0 && UndoOne(run, b).Going? && Emptied(UndoOne(run, b).run)
    ensures UndoAll(run, [b, b]) == Failed
  {
    var next := UndoOne(run, b).run;
    assert UndoOne(next, b) == Failed;
    assert [b, b][1..] == [b] && [b][1..] == [];
    assert UndoAll(next, [b]) == Failed;
  }

  lemma SortedIsTop(run: Run, start: Run, reverted: seq<BlockRef>)
    requires Chain(start) == Chain(run) && start.first == run.first && start.last == run.last
    requires TopOfChain(run, reverted) && OneGenesis(run, reverted)
    ensures TopOfChain(start, SortBy(reverted, Descending)) && OneGenesis(start, SortBy(reverted, Descending))
  {
    var blocks := SortBy(reverted, Descending);
    SortKeepsMembers(reverted);
    SortBySorts(reverted, Descending);
    forall b | b in blocks && Applied(start, b) ensures OnTop(Chain(start), blocks, b) {
      assert OnTop(Chain(run), reverted, b);
    }
  }

  lemma GenesisTwice(h: Headers, start: Run, reverted: seq<BlockRef>)
    requires Fits(h, start) && forall b | b in SortBy(reverted, Descending) :: Genuine(h, b)
    requires UndoAll(start, SortBy(reverted, Descending)).Going?
    ensures OneGenesis(start, reverted)
  {
    var blocks := SortBy(reverted, Descending);
    SortBySorts(reverted, Descending);
    if start.first == Some(0) {
      UndoneGenesisOnce(h, start, blocks);
      forall b: BlockRef | b.number == 0 ensures multiset(reverted)[b] <= 1 {
        if multiset(blocks)[b] >= 2 {
          var i, j := TwoIndices(blocks, b);
        }
      }
    }
  }

  lemma NewestFirst(reverted: seq<BlockRef>)
    ensures Descends(SortBy(reverted, Descending))
  {
    var blocks := SortBy(reverted, Descending);
    SortBySorts(reverted, Descending);
    forall i, j | 0 <= i < j < |blocks| ensures blocks[i].number >= blocks[j].number {
      assert Descending(blocks[i]) <= Descending(blocks[j]);
    }
  }

  lemma RevertsOne(run: Run, b: BlockRef)
    ensures Revert(run, [b]) == UndoOne(run.(kept := Below(run.kept, b.number)), b)
  {
    assert [b][1..] == [];
    assert SortBy([b], Descending) == [b];
    assert UndoAll(run.(kept := Below(run.kept, b.number)), [b]) == UndoOne(run.(kept := Below(run.kept, b.number)), b);
  }

  lemma StoreUndoesApply(store: Store, p: Processor, frame: Frame, after: Store)
    requires StoreApply(store, p, frame) == Some(after)
    ensures StoreUndo(after, frame.block.number, frame.block.hash) == Restored(store)
  {
    assert after.journal[|store.journal|] in after.journal;
    assert after.journal[..|store.journal|] == store.journal;
  }

  /** Reverting the block just applied restores the store before it and, for a
      run that had a last block, its number and hash. */
  lemma RevertUndoesApply(h: Headers, run: Run, frame: Frame)
    requires Inv(h, run) && Genuine(h, frame.block)
    requires ApplyFed(run, frame).Going? && ApplyFed(run, frame).run != run
    ensures var o := Revert(ApplyFed(run, frame).run, [frame.block]);
            && o.Going? && o.run.store == run.store && o.run.last.Some?
            && o.run.last.value.number == (if frame.block.number == 0 then 0 else frame.block.number - 1)
            && o.run.last.value.hash == frame.block.parentHash
            && (run.last.Some? ==>
                  o.run.last.value.number == run.last.value.number && o.run.last.value.hash == run.last.value.hash)
  {
    var applied := ApplyFed(run, frame).run;
    JustApplied(h, run, frame);
    RevertsOne(applied, frame.block);
    StoreUndoesApply(run.store, run.processor, frame, applied.store);
    if run.last.Some? {
      LastIsNumbered(h, run);
    }
  }

  lemma LastIsNumbered(h: Headers, run: Run)
    requires Fits(h, run) && run.last.Some?
    ensures Emptied(run) || run.last.value.number == h.numberOf(run.last.value.hash)
  {
  }

  lemma JustApplied(h: Headers, run: Run, frame: Frame)
    requires Fits(h, run) && ApplyFed(run, frame).Going? && ApplyFed(run, frame).run != run
    ensures Applied(ApplyFed(run, frame).run, frame.block)
  {
    if run.last.Some? {
      FirstIsNotAboveNext(h, run);
    }
  }

  lemma FirstIsNotAboveNext(h: Headers, run: Run)
    requires Fits(h, run) && run.last.Some?
    ensures run.first.Some? && run.first.value <= run.last.value.number + 1
  {
    var chain := Chain(run);
    if chain != [] {
      LinkedNumbers(h, chain, 0, |chain| - 1);
    }
  }

  // ------------------------------------------------- when a reorg is survived

  /** The frames above what the run applied last. */
  function AboveLast(run: Run, frames: seq<Frame>): seq<Frame> {
    if frames == [] || run.last.None? || frames[0].block.number > run.last.value.number then frames
    else AboveLast(run, frames[1..])
  }

  lemma {:induction false} AboveLastIsRest(h: Headers, run: Run, frames: seq<Frame>)
    requires Linked(h, frames)
    ensures Linked(h, AboveLast(run, frames)) && ApplyAll(run, frames) == ApplyAll(run, AboveLast(run, frames))
    ensures |AboveLast(run, frames)| <= |frames|
    ensures AboveLast(run, frames) == frames[|frames| - |AboveLast(run, frames)|..]
    ensures AboveLast(run, frames) != [] && run.last.Some? ==>
              AboveLast(run, frames)[0].block.number > run.last.value.number
    decreases |frames|
  {
    if frames != [] && run.last.Some? && frames[0].block.number <= run.last.value.number {
      LinkedTail(h, frames);
      AboveLastIsRest(h, run, frames[1..]);
    }
  }

  lemma LinkedTail(h: Headers, frames: seq<Frame>)
    requires Linked(h, frames) && frames != []
    ensures Linked(h, frames[1..])
  {
  }

  lemma LinkedContinues(h: Headers, run: Run, frames: seq<Frame>)
    requires Linked(h, frames)
    requires frames != [] && run.last.Some? ==>
               frames[0].block.number > run.last.value.number && frames[0].block.parentHash == run.last.value.hash
    ensures Continues(run, frames)
  {
  }

  /** Linked blocks that continue a run are all applied, as long as the processor
      accepts them. */
  lemma {:induction false} ContinuingApplies(run: Run, done: seq<Frame>, frames: seq<Frame>)
    requires Continues(run, frames) && Chain(run) == done && Fold(run.processor, done) == Some(run.store.state)
    ensures var o := ApplyAll(run, frames);
            if Fold(run.processor, done + frames).Some? then o.Going? && Chain(o.run) == done + frames else o.Failed?
    decreases |frames|
  {
    if frames == [] {
      assert done + frames == done;
    } else {
      var frame, rest := frames[0], frames[1..];
      FoldExtends(run.processor, done, frame);
      assert done + [frame] + rest == done + frames;
      if ApplyFed(run, frame).Going? {
        assert Chain(ApplyFed(run, frame).run) == done + [frame];
        ContinuingApplies(ApplyFed(run, frame).run, done + [frame], rest);
      } else {
        FoldStopsEarly(run.processor, done + [frame], rest);
      }
    }
  }

  /** Whether a linked list of blocks fits on what a run applied last. */
  predicate Joins(run: Run, frames: seq<Frame>) {
    frames == [] || run.last.None? || frames[0].block.parentHash == run.last.value.hash
  }

  /** Exactly when a run survives the linked blocks a reorg applies: the first one
      above its last block names that block as its parent, and the processor
      accepts them all on top of what is left. Then they are its chain's new top. */
  lemma AppliedIsSurvived(h: Headers, run: Run, applied: seq<Frame>)
    requires Replays(run) && Linked(h, applied)
    ensures var rest := AboveLast(run, applied);
            var o := ApplyAll(run, applied);
            && (o.Going? <==> Joins(run, rest) && Fold(run.processor, Chain(run) + rest).Some?)
            && (o.Going? ==> Chain(o.run) == Chain(run) + rest)
            && (!o.Going? ==> o.Failed?)
  {
    var rest := AboveLast(run, applied);
    AboveLastIsRest(h, run, applied);
    if Joins(run, rest) {
      LinkedContinues(h, run, rest);
      ContinuingApplies(run, Chain(run), rest);
    } else {
      assert ApplyFed(run, rest[0]).Failed?;
    }
  }

  /** A reorg of the top of the chain, exactly: it is survived if block 0 is not
      listed twice, the applied blocks join what is left, and the processor
      accepts them; its chain is then what was left and those blocks. */
  lemma ReorgIsSurvived(h: Headers, run: Run, reverted: seq<BlockRef>, applied: seq<Frame>)
    requires Inv(h, run) && TopOfChain(run, reverted) && OneGenesis(run, reverted) && Linked(h, applied)
    requires forall b | b in reverted :: Genuine(h, b)
    ensures Revert(run, reverted).Going?
    ensures var left := Revert(run, reverted).run;
            var rest := AboveLast(left, applied);
            var o := Step(run, Reorg(reverted, applied));
            && ChainIsPrefix(run, left)
            && (o.Going? <==> Joins(left, rest) && Fold(left.processor, Chain(left) + rest).Some?)
            && (o.Going? ==> Chain(o.run) == Chain(left) + rest)
  {
    ReorgOfTopIsUndone(h, run, reverted);
    RevertKeeps(h, run, reverted);
    AppliedIsSurvived(h, Revert(run, reverted).run, applied);
  }

  /** A reorg that reaches below the first block of the run: what is left is known
      by the old block below the first, and the new block of that number is
      skipped. So the next one does not join and ends the run; without a next one
      the run goes on empty. */
  lemma ReorgBelowFirstFails(h: Headers, run: Run, left: Run, reverted: seq<BlockRef>, applied: seq<Frame>, k: nat)
    requires Inv(h, run) && forall b | b in reverted :: Genuine(h, b)
    requires Revert(run, reverted) == Going(left) && BelowFirst(h, left)
    requires Linked(h, applied) && k < |applied|
    requires applied[k].block.number == left.last.value.number && applied[k].block.hash != left.last.value.hash
    ensures Step(run, Reorg(reverted, applied)) == if k + 1 < |applied| then Failed else Going(left)
  {
    RevertKeeps(h, run, reverted);
    AppliedIsSurvived(h, left, applied);
    AboveLastIsRest(h, left, applied);
    RestBegins(h, left, applied, k);
  }

  lemma {:induction false} RestBegins(h: Headers, run: Run, frames: seq<Frame>, k: nat)
    requires Linked(h, frames) && run.last.Some? && k < |frames| && frames[k].block.number == run.last.value.number
    ensures AboveLast(run, frames) == frames[k + 1..]
    decreases k
  {
    LinkedNumbers(h, frames, 0, k);
    if k > 0 {
      LinkedTail(h, frames);
      RestBegins(h, run, frames[1..], k - 1);
    } else if |frames| > 1 {
      assert frames[1..][0].block.number > frames[0].block.number;
    }
  }

  /** After block 0 is reverted nothing is applied any more: another block 0 is
      skipped, and the block after it ends the run. */
  lemma RevertedGenesisIsNotReplaced(h: Headers, run: Run, reverted: seq<BlockRef>, applied: seq<Frame>)
    requires Revert(run, reverted).Going? && Emptied(Revert(run, reverted).run)
    requires forall f | f in applied :: Genuine(h, f.block)
    ensures Step(run, Reorg(reverted, applied)) ==
            if forall f | f in applied :: f.block.number == 0 then Revert(run, reverted) else Failed
  {
    EmptiedAppliesNothing(h, Revert(run, reverted).run, applied);
  }

  lemma {:induction false} EmptiedAppliesNothing(h: Headers, run: Run, frames: seq<Frame>)
    requires Emptied(run) && forall f | f in frames :: Genuine(h, f.block)
    ensures ApplyAll(run, frames) == if forall f | f in frames :: f.block.number == 0 then Going(run) else Failed
    decreases |frames|
  {
    if frames != [] {
      assert frames == [frames[0]] + frames[1..];
      EmptiedAcceptsNothing(h, run, frames[0]);
      EmptiedAppliesNothing(h, run, frames[1..]);
    }
  }

  /** And reverting every block of a chain that begins with block 0 does that. */
  lemma UndoingGenesisEmpties(h: Headers, run: Run, genesis: BlockRef)
    requires Fits(h, run) && Genuine(h, genesis) && genesis.number == 0 && Applied(run, genesis)
    ensures UndoOne(run, genesis).Going? ==> Emptied(UndoOne(run, genesis).run)
  {
    UndoOneFits(h, run, genesis);
  }

  // ------------------------------------------------------------------ versions

  /** The swaps posted to a run and what it has seen of them: only the newest
      unseen one is ever taken. */
  datatype Channel = Channel(version: nat, pending: Option<(nat, Processor)>)

  datatype Use = Post(processor: Processor) | Take

  /** A run starts as version 1; each posted swap makes one more. */
  const OPENED := Channel(1, None)

  function UseChannel(c: Channel, use: Use): (Channel, Option<(nat, Processor)>) {
    match use
    case Post(p) => (Channel(c.version + 1, Some((c.version + 1, p))), None)
    case Take => (c.(pending := None), c.pending)
  }

  function Taken(c: Channel, uses: seq<Use>): seq<(nat, Processor)>
    decreases |uses|
  {
    if uses == [] then []
    else
      var (next, taken) := UseChannel(c, uses[0]);
      if taken.None? then Taken(next, uses[1..]) else [taken.value] + Taken(next, uses[1..])
  }

  function Posted(uses: seq<Use>): seq<Processor> {
    if uses == [] then []
    else if uses[0].Take? then Posted(uses[1..])
    else [uses[0].processor] + Posted(uses[1..])
  }

  /** The versions of `taken` increase, all of them above `floor`. */
  predicate VersionsAscend(taken: seq<(nat, Processor)>, floor: int) {
    taken == [] || (floor < taken[0].0 && VersionsAscend(taken[1..], taken[0].0))
  }

  /** Every taken version names the processor posted under it. */
  ghost predicate NamesPosted(taken: seq<(nat, Processor)>, posted: seq<Processor>) {
    taken == []
    || (2 <= taken[0].0 < |posted| + 2 && taken[0].1 == posted[taken[0].0 - 2] && NamesPosted(taken[1..], posted))
  }

  function Floor(c: Channel): int {
    if c.pending.Some? then c.version - 1 else c.version
  }

  lemma {:induction false} TakenAscend(c: Channel, uses: seq<Use>)
    requires c.pending.Some? ==> c.pending.value.0 == c.version
    ensures VersionsAscend(Taken(c, uses), Floor(c))
    decreases |uses|
  {
    if uses != [] {
      var next := UseChannel(c, uses[0]).0;
      TakenAscend(next, uses[1..]);
      if uses[0].Take? && c.pending.Some? {
        assert Taken(c, uses)[1..] == Taken(next, uses[1..]);
      } else {
        AscendsFromLower(Taken(next, uses[1..]), Floor(next), Floor(c));
      }
    }
  }

  lemma {:induction false} TakenAreNamed(c: Channel, posted: seq<Processor>, uses: seq<Use>)
    requires c.version == |posted| + 1
    requires c.pending.Some? ==> posted != [] && c.pending.value == (c.version, posted[|posted| - 1])
    ensures NamesPosted(Taken(c, uses), posted + Posted(uses))
    decreases |uses|
  {
    if uses != [] {
      var next, rest := UseChannel(c, uses[0]).0, uses[1..];
      if uses[0].Post? {
        TakenAreNamed(next, posted + [uses[0].processor], rest);
        assert posted + [uses[0].processor] + Posted(rest) == posted + Posted(uses);
      } else {
        TakenAreNamed(next, posted, rest);
        if c.pending.Some? {
          TakenIsNamed(c, posted, Taken(next, rest), Posted(rest));
        }
      }
    }
  }

  lemma TakenIsNamed(c: Channel, posted: seq<Processor>, taken: seq<(nat, Processor)>, later: seq<Processor>)
    requires c.version == |posted| + 1 && posted != []
    requires c.pending == Some((c.version, posted[|posted| - 1])) && NamesPosted(taken, posted + later)
    ensures NamesPosted([c.pending.value] + taken, posted + later)
  {
    assert ([c.pending.value] + taken)[1..] == taken;
    assert (posted + later)[c.version - 2] == posted[|posted| - 1];
  }

  lemma AscendsFromLower(taken: seq<(nat, Processor)>, floor: int, lower: int)
    requires VersionsAscend(taken, floor) && lower <= floor
    ensures VersionsAscend(taken, lower)
  {
  }

  /** Whatever the order of posts and takes, the versions a run takes strictly
      increase, and version `v` is the processor posted as the run's `v`-th. */
  lemma VersionsIncrease(uses: seq<Use>)
    ensures VersionsAscend(Taken(OPENED, uses), 1)
    ensures NamesPosted(Taken(OPENED, uses), Posted(uses))
  {
    TakenAscend(OPENED, uses);
    TakenAreNamed(OPENED, [], uses);
    assert [] + Posted(uses) == Posted(uses);
  }
}
