/** What a run is left with by everything its own feed delivered: the chain those
    events prescribe, block by block and reorg by reorg. */
module RunProgress {
  import opened Wrappers
  import opened Sorting
  import opened RunModel
  import opened RunTheorems

  // -------------------------------------------------------- blocks on their own

  function Blocks(frames: seq<Frame>): (events: seq<Event>)
    ensures |events| == |frames|
  {
    if frames == [] then [] else [Block(frames[0])] + Blocks(frames[1..])
  }

  lemma {:induction false} BlocksAreApplied(run: Run, frames: seq<Frame>)
    ensures Steps(run, Blocks(frames)) == ApplyAll(run, frames)
    decreases |frames|
  {
    if frames != [] {
      assert Blocks(frames)[1..] == Blocks(frames[1..]);
      match ApplyFed(run, frames[0])
      case Going(next) => BlocksAreApplied(next, frames[1..]);
      case _ =>
    }
  }

  lemma NewestOfNewest(a: seq<Frame>, b: seq<Frame>, keep: nat)
    ensures Newest(Newest(a, keep) + b, keep) == Newest(a + b, keep)
  {
  }

  /** Keeping the newest of some and then of more is keeping the newest of all. */
  lemma NewestOfMore(kept: seq<Frame>, frames: seq<Frame>, keep: nat)
    requires |kept| <= keep
    ensures frames == [] ==> Newest(kept + frames, keep) == kept
    ensures frames != [] ==>
              |Newest(kept + [frames[0]], keep)| <= keep
              && Newest(Newest(kept + [frames[0]], keep) + frames[1..], keep) == Newest(kept + frames, keep)
  {
    if frames == [] {
      assert kept + frames == kept;
    } else {
      NewestOfNewest(kept + [frames[0]], frames[1..], keep);
      assert kept + [frames[0]] + frames[1..] == kept + frames;
    }
  }

  lemma ContinuesOn(run: Run, frames: seq<Frame>)
    requires Continues(run, frames) && frames != [] && ApplyFed(run, frames[0]).Going?
    ensures var next := ApplyFed(run, frames[0]).run;
            Continues(next, frames[1..]) && next.keep == run.keep && next.kept == Newest(run.kept + [frames[0]], run.keep)
  {
  }

  lemma {:induction false} KeepsTheNewest(run: Run, frames: seq<Frame>)
    requires Continues(run, frames) && ApplyAll(run, frames).Going? && |run.kept| <= run.keep
    ensures ApplyAll(run, frames).run.kept == Newest(run.kept + frames, run.keep)
    decreases |frames|
  {
    NewestOfMore(run.kept, frames, run.keep);
    if frames != [] {
      ContinuesOn(run, frames);
      KeepsTheNewest(ApplyFed(run, frames[0]).run, frames[1..]);
    }
  }

  /** A feed of linked blocks: the run goes on exactly when the first one above its
      last names that one as its parent and the processor accepts them all on top
      of its chain. Then they are its chain's new top, and of what it kept and
      them it keeps the newest that fit. */
  lemma BlocksFeedTheRun(h: Headers, run: Run, frames: seq<Frame>)
    requires Inv(h, run) && Linked(h, frames)
    ensures var rest := AboveLast(run, frames);
            var o := Steps(run, Blocks(frames));
            && (o.Going? <==> Joins(run, rest) && Fold(run.processor, Chain(run) + rest).Some?)
            && (o.Going? ==> Chain(o.run) == Chain(run) + rest && o.run.kept == Newest(run.kept + rest, run.keep))
            && (!o.Going? ==> o.Failed?)
  {
    BlocksAreApplied(run, frames);
    AppliedIsSurvived(h, run, frames);
    AboveLastIsRest(h, run, frames);
    var rest := AboveLast(run, frames);
    if ApplyAll(run, frames).Going? {
      LinkedContinues(h, run, rest);
      KeepsTheNewest(run, rest);
    }
  }

  /** Nothing is dropped that fits. */
  lemma NewestKeepsWhatFits(frames: seq<Frame>, keep: nat)
    ensures IsSuffix(Newest(frames, keep), frames)
    ensures |Newest(frames, keep)| == if |frames| <= keep then |frames| else keep
  {
  }

  function WithoutInforming(events: seq<Event>): seq<Event> {
    if events == [] then []
    else (if events[0].Informing? then [] else [events[0]]) + WithoutInforming(events[1..])
  }

  /** Events that only inform change nothing and end nothing, wherever they come. */
  lemma {:induction false} InformingChangesNothing(run: Run, events: seq<Event>)
    ensures Steps(run, events) == Steps(run, WithoutInforming(events))
    decreases |events|
  {
    if events != [] {
      var rest := WithoutInforming(events[1..]);
      if events[0].Informing? {
        assert [] + rest == rest;
        InformingChangesNothing(run, events[1..]);
      } else {
        assert ([events[0]] + rest)[1..] == rest;
        match Step(run, events[0])
        case Going(next) => InformingChangesNothing(next, events[1..]);
        case _ =>
      }
    }
  }

  // ---------------------------------------------------- what a reorg takes off

  /** The blocks of `chain` that are not listed. */
  function Unlisted(chain: seq<Frame>, listed: seq<BlockRef>): seq<Frame> {
    if chain == [] then []
    else Unlisted(chain[..|chain| - 1], listed)
         + (if chain[|chain| - 1].block in listed then [] else [chain[|chain| - 1]])
  }

  lemma {:induction false} UnlistedSame(chain: seq<Frame>, a: seq<BlockRef>, b: seq<BlockRef>)
    requires forall i | 0 <= i < |chain| :: chain[i].block in a <==> chain[i].block in b
    ensures Unlisted(chain, a) == Unlisted(chain, b)
  {
    if chain != [] {
      UnlistedSame(chain[..|chain| - 1], a, b);
    }
  }

  lemma UndoneIsTop(h: Headers, run: Run, b: BlockRef)
    requires Fits(h, run) && Genuine(h, b) && Applied(run, b) && UndoOne(run, b).Going?
    ensures Chain(run) != [] && Chain(run)[|Chain(run)| - 1].block == b
    ensures Chain(UndoOne(run, b).run) == Chain(run)[..|Chain(run)| - 1]
    ensures forall k | 0 <= k < |Chain(run)| - 1 :: Chain(run)[k].block != b
  {
    var n := |Chain(run)| - 1;
    UndoOneFits(h, run, b);
    assert Genuine(h, Chain(run)[n].block);
    forall k | 0 <= k < n ensures Chain(run)[k].block != b {
      LinkedNumbers(h, Chain(run), k, n);
    }
  }

  /** What one block after another is undone are the listed blocks of the chain. */
  lemma {:induction false} UndoAllTakesTheListed(h: Headers, run: Run, blocks: seq<BlockRef>)
    requires Fits(h, run) && forall b | b in blocks :: Genuine(h, b)
    requires UndoAll(run, blocks).Going?
    ensures Chain(UndoAll(run, blocks).run) == Unlisted(Chain(run), blocks)
    decreases |blocks|
  {
    if blocks == [] {
      NothingListed(Chain(run));
    } else {
      assert blocks == [blocks[0]] + blocks[1..];
      UndoOneFits(h, run, blocks[0]);
      UndoAllTakesTheListed(h, UndoOne(run, blocks[0]).run, blocks[1..]);
      UndoOneTakesTheListed(h, run, blocks);
    }
  }

  lemma {:induction false} UndoOneTakesTheListed(h: Headers, run: Run, blocks: seq<BlockRef>)
    requires Fits(h, run) && blocks != [] && Genuine(h, blocks[0]) && UndoOne(run, blocks[0]).Going?
    ensures Unlisted(Chain(run), blocks) == Unlisted(Chain(UndoOne(run, blocks[0]).run), blocks[1..])
  {
    var b, chain := blocks[0], Chain(run);
    assert blocks == [b] + blocks[1..];
    if Applied(run, b) {
      UndoneIsTop(h, run, b);
      UnlistedSame(chain[..|chain| - 1], blocks, blocks[1..]);
    } else {
      forall k | 0 <= k < |chain| ensures chain[k].block != b {
        UnappliedIsAbsent(h, run, b, k);
      }
      UnlistedSame(chain, blocks, blocks[1..]);
    }
  }

  lemma {:induction false} NothingListed(chain: seq<Frame>)
    ensures Unlisted(chain, []) == chain
  {
    if chain != [] {
      NothingListed(chain[..|chain| - 1]);
    }
  }

  /** Whatever a reorg lists, in any order and with blocks never applied among it:
      a run it leaves going has lost exactly the listed blocks of its chain. */
  lemma RevertTakesTheListed(h: Headers, run: Run, reverted: seq<BlockRef>)
    requires Inv(h, run) && forall b | b in reverted :: Genuine(h, b)
    requires Revert(run, reverted).Going?
    ensures Chain(Revert(run, reverted).run) == Unlisted(Chain(run), reverted)
  {
    var start := run.(kept := if reverted == [] then run.kept else Below(run.kept, Lowest(reverted)));
    KeepOnly(h, run, start.kept);
    SortKeepsMembers(reverted);
    UndoAllTakesTheListed(h, start, SortBy(reverted, Descending));
    UnlistedSame(Chain(run), reverted, SortBy(reverted, Descending));
  }

  function Before(number: nat): nat {
    if number == 0 then 0 else number - 1
  }

  /** `after` is the run with its chain's blocks from some number up undone: its last
      block is then the parent of the lowest of them. */
  ghost predicate EndsBelow(run: Run, after: Run) {
    && |Chain(after)| <= |Chain(run)|
    && if |Chain(after)| == |Chain(run)| then after == run
       else
         var b := Chain(run)[|Chain(after)|].block;
         after.last == Some(BlockRef(Before(b.number), b.parentHash, 0))
  }

  lemma {:induction false} UndoAllEndsBelow(h: Headers, run: Run, blocks: seq<BlockRef>)
    requires Fits(h, run) && forall b | b in blocks :: Genuine(h, b)
    requires UndoAll(run, blocks).Going?
    ensures EndsBelow(run, UndoAll(run, blocks).run)
    decreases |blocks|
  {
    if blocks != [] {
      assert blocks == [blocks[0]] + blocks[1..];
      var next := UndoOne(run, blocks[0]).run;
      UndoOneFits(h, run, blocks[0]);
      UndoAllEndsBelow(h, next, blocks[1..]);
      UndoOneEndsBelow(h, run, blocks[0]);
      EndsBelowBoth(run, next, UndoAll(next, blocks[1..]).run);
    }
  }

  lemma {:induction false} UndoOneEndsBelow(h: Headers, run: Run, b: BlockRef)
    requires Fits(h, run) && Genuine(h, b) && UndoOne(run, b).Going?
    ensures EndsBelow(run, UndoOne(run, b).run) && ChainIsPrefix(run, UndoOne(run, b).run)
  {
    PrefixOfItself(run);
    if Applied(run, b) {
      UndoneIsTop(h, run, b);
    }
  }

  lemma EndsBelowBoth(run: Run, next: Run, after: Run)
    requires EndsBelow(run, next) && ChainIsPrefix(run, next) && EndsBelow(next, after)
    ensures EndsBelow(run, after)
  {
  }

  /** The frames numbered below everything listed. */
  function BelowAll(frames: seq<Frame>, listed: seq<BlockRef>): seq<Frame> {
    if frames == [] then []
    else (if forall b | b in listed :: frames[0].block.number < b.number then [frames[0]] else []) + BelowAll(frames[1..], listed)
  }

  lemma {:induction false} BelowAllIsBelow(frames: seq<Frame>, listed: seq<BlockRef>)
    ensures BelowAll(frames, listed) == if listed == [] then frames else Below(frames, Lowest(listed))
    decreases |frames|
  {
    if frames != [] {
      BelowAllIsBelow(frames[1..], listed);
      if listed != [] {
        LowestIsLowest(listed);
      }
    }
  }

  // ------------------------------------------------------ the prescribed view

  /** What can be told of a run from outside: its chain, the blocks it keeps, the
      number and hash it goes on from, and its processor. */
  datatype View = View(chain: seq<Frame>, kept: seq<Frame>, tip: Option<(nat, Hash)>, version: nat, processor: Processor)

  function ViewOf(run: Run): View {
    View(Chain(run), run.kept, match run.last case None => None case Some(b) => Some((b.number, b.hash)),
         run.version, run.processor)
  }

  /** A delivered block extends the chain, unless it is numbered no higher than
      what the run goes on from. */
  function WithBlock(v: View, keep: nat, frame: Frame): View {
    if v.tip.Some? && frame.block.number <= v.tip.value.0 then v
    else v.(chain := v.chain + [frame], kept := Newest(v.kept + [frame], keep),
            tip := Some((frame.block.number, frame.block.hash)))
  }

  function WithBlocks(v: View, keep: nat, frames: seq<Frame>): View
    decreases |frames|
  {
    if frames == [] then v else WithBlocks(WithBlock(v, keep, frames[0]), keep, frames[1..])
  }

  /** A reorg takes the listed blocks off; the run goes on from the parent of the
      lowest it lost, and keeps what is numbered below everything listed. */
  function WithoutListed(v: View, listed: seq<BlockRef>): View {
    var chain := Unlisted(v.chain, listed);
    v.(chain := chain, kept := BelowAll(v.kept, listed),
       tip := if |chain| < |v.chain|
              then Some((Before(v.chain[|chain|].block.number), v.chain[|chain|].block.parentHash)) else v.tip)
  }

  function Prescribed(v: View, keep: nat, e: Event): View {
    match e
    case Block(frame) => WithBlock(v, keep, frame)
    case Reorg(listed, applied) => WithBlocks(WithoutListed(v, listed), keep, applied)
    case Swapped(version, p) => v.(chain := v.kept, version := version, processor := p)
    case Informing => v
  }

  function PrescribedBy(v: View, keep: nat, events: seq<Event>): View
    decreases |events|
  {
    if events == [] then v else PrescribedBy(Prescribed(v, keep, events[0]), keep, events[1..])
  }

  lemma BlockIsPrescribed(run: Run, frame: Frame)
    requires ApplyFed(run, frame).Going?
    ensures ViewOf(ApplyFed(run, frame).run) == WithBlock(ViewOf(run), run.keep, frame)
    ensures ApplyFed(run, frame).run.keep == run.keep
  {
    var after := ApplyFed(run, frame).run;
    if run.last.None? || frame.block.number > run.last.value.number {
      assert Chain(after) == Chain(run) + [frame];
    }
  }

  lemma {:induction false} BlocksArePrescribed(run: Run, frames: seq<Frame>)
    requires ApplyAll(run, frames).Going?
    ensures ViewOf(ApplyAll(run, frames).run) == WithBlocks(ViewOf(run), run.keep, frames)
    ensures ApplyAll(run, frames).run.keep == run.keep
    decreases |frames|
  {
    if frames != [] {
      BlockIsPrescribed(run, frames[0]);
      BlocksArePrescribed(ApplyFed(run, frames[0]).run, frames[1..]);
    }
  }

  lemma RevertIsPrescribed(h: Headers, run: Run, reverted: seq<BlockRef>)
    requires Inv(h, run) && forall b | b in reverted :: Genuine(h, b)
    requires Revert(run, reverted).Going?
    ensures var after := Revert(run, reverted).run;
            ViewOf(after) == WithoutListed(ViewOf(run), reverted) && after.keep == run.keep
  {
    var start := run.(kept := if reverted == [] then run.kept else Below(run.kept, Lowest(reverted)));
    KeepOnly(h, run, start.kept);
    SortKeepsMembers(reverted);
    RevertTakesTheListed(h, run, reverted);
    UndoAllEndsBelow(h, start, SortBy(reverted, Descending));
    UndoAllKeeps(start, SortBy(reverted, Descending));
    BelowAllIsBelow(run.kept, reverted);
  }

  lemma {:induction false} UndoAllKeeps(run: Run, blocks: seq<BlockRef>)
    requires UndoAll(run, blocks).Going?
    ensures SameRun(run, UndoAll(run, blocks).run)
    decreases |blocks|
  {
    if blocks != [] {
      UndoAllKeeps(UndoOne(run, blocks[0]).run, blocks[1..]);
    }
  }

  lemma StepIsPrescribed(h: Headers, run: Run, e: Event)
    requires Inv(h, run) && GenuineEvent(h, e) && Step(run, e).Going?
    ensures ViewOf(Step(run, e).run) == Prescribed(ViewOf(run), run.keep, e) && Step(run, e).run.keep == run.keep
  {
    match e
    case Block(frame) => BlockIsPrescribed(run, frame);
    case Reorg(reverted, applied) =>
      RevertIsPrescribed(h, run, reverted);
      BlocksArePrescribed(Revert(run, reverted).run, applied);
    case Swapped(version, p) =>
      SwapRerunsKept(h, run, version, p);
      BlocksArePrescribed(Fresh(p, version, run.keep), run.kept);
    case Informing =>
  }

  /** Every run that survives its feed, whatever this delivers, has exactly the
      view the events prescribe: the blocks delivered and not taken off again or
      left behind by a swap, in order, with the newest of them kept. */
  lemma {:induction false} SurvivingRunIsPrescribed(h: Headers, run: Run, events: seq<Event>)
    requires Inv(h, run) && forall e | e in events :: GenuineEvent(h, e)
    requires Steps(run, events).Going?
    ensures ViewOf(Steps(run, events).run) == PrescribedBy(ViewOf(run), run.keep, events)
    decreases |events|
  {
    if events != [] {
      StepKeeps(h, run, events[0]);
      StepIsPrescribed(h, run, events[0]);
      SurvivingRunIsPrescribed(h, Step(run, events[0]).run, events[1..]);
    }
  }

  // ----------------------------------------------------------------- versions

  function Used(c: Channel, uses: seq<Use>): Channel {
    if uses == [] then c else UseChannel(Used(c, uses[..|uses| - 1]), uses[|uses| - 1]).0
  }

  /** A run takes the newest processor posted, under the number of posts so far
      plus one, exactly when one was posted since it last took one. */
  lemma {:induction false} TakesTheNewestPosted(uses: seq<Use>)
    ensures var c, posted := Used(OPENED, uses), Posted(uses);
            && c.version == |posted| + 1
            && UseChannel(c, Take).1 == if uses != [] && uses[|uses| - 1].Post?
                                        then Some((|posted| + 1, uses[|uses| - 1].processor)) else None
  {
    if uses != [] {
      var n := |uses| - 1;
      TakesTheNewestPosted(uses[..n]);
      assert uses == uses[..n] + [uses[n]];
      PostedAppends(uses[..n], uses[n]);
    }
  }

  lemma {:induction false} PostedAppends(uses: seq<Use>, use: Use)
    ensures |Posted(uses + [use])| == |Posted(uses)| + if use.Post? then 1 else 0
    decreases |uses|
  {
    if uses == [] {
      assert [use][1..] == [];
      assert ([] + [use])[1..] == [];
    } else {
      assert (uses + [use])[1..] == uses[1..] + [use];
      PostedAppends(uses[1..], use);
    }
  }
}
