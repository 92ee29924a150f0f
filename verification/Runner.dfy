/** The run itself: fields updated in place as its feed delivers events. */
module Runner {
  import opened Wrappers
  import opened Sorting
  import opened RunModel

  datatype Signal = Fine | Error | PlanAgain(version: nat, processor: Processor) | Unknown

  /** `signal` and the fields `now` are what `outcome` says. */
  ghost predicate Ends(outcome: Outcome, signal: Signal, now: Run) {
    match outcome
    case Going(run) => signal == Fine && now == run
    case Failed => signal == Error
    case Replan(version, p) => signal == PlanAgain(version, p)
    case Undefined => signal == Unknown
  }

  lemma {:induction false} StepsAppend(run: Run, events: seq<Event>, e: Event)
    ensures Steps(run, events + [e]) ==
            match Steps(run, events) case Going(next) => Step(next, e) case other => other
    decreases |events|
  {
    if events == [] {
      assert (events + [e])[1..] == [];
    } else {
      assert (events + [e])[1..] == events[1..] + [e];
      match Step(run, events[0])
      case Going(next) => StepsAppend(next, events[1..], e);
      case _ =>
    }
  }

  predicate ReachedIn(outcome: Outcome, anchor: nat) {
    outcome.Going? && outcome.run.last.Some? && outcome.run.last.value.number >= anchor
  }

  class Runner {
    var store: Store
    var processor: Processor
    var version: nat
    var kept: seq<Frame>
    var keep: nat
    var first: Option<nat>
    var last: Option<BlockRef>

    function State(): Run
      reads this
    {
      Run(store, processor, version, kept, keep, first, last)
    }

    constructor (processor: Processor, keep: nat)
      ensures State() == Fresh(processor, 1, keep)
    {
      this.store, this.processor, this.version := EMPTY_STORE, processor, 1;
      this.kept, this.keep, this.first, this.last := [], keep, None, None;
    }

    method Reset(version: nat, processor: Processor)
      modifies this
      ensures State() == Fresh(processor, version, old(keep))
    {
      store := EMPTY_STORE;
      this.processor, this.version := processor, version;
      kept, first, last := [], None, None;
    }

    method Keep(frame: Frame)
      modifies `kept
      ensures kept == Newest(old(kept) + [frame], keep)
    {
      kept := kept + [frame];
      while |kept| > keep
        invariant Newest(kept, keep) == Newest(old(kept) + [frame], keep)
      {
        kept := kept[1..];
      }
    }

    method ApplyFed(frame: Frame) returns (signal: Signal)
      modifies this
      ensures Ends(RunModel.ApplyFed(old(State()), frame), signal, State())
    {
      if last.Some? {
        if frame.block.number <= last.value.number {
          return Fine;
        }
        if frame.block.parentHash != last.value.hash {
          return Error;
        }
      }
      var applied := StoreApply(store, processor, frame);
      if applied.None? {
        return Error;
      }
      store := applied.value;
      if first.None? {
        first := Some(frame.block.number);
      }
      last := Some(frame.block);
      Keep(frame);
      return Fine;
    }

    method ApplyEach(frames: seq<Frame>) returns (signal: Signal)
      modifies this
      ensures Ends(ApplyAll(old(State()), frames), signal, State())
    {
      signal := Fine;
      var i := 0;
      while i < |frames|
        invariant i <= |frames| && signal == Fine
        invariant ApplyAll(old(State()), frames) == ApplyAll(State(), frames[i..])
      {
        signal := ApplyFed(frames[i]);
        if !signal.Fine? {
          return;
        }
        i := i + 1;
      }
    }

    method UndoBlock(block: BlockRef) returns (signal: Signal)
      modifies this
      ensures Ends(UndoOne(old(State()), block), signal, State())
    {
      if last.None? || block.number > last.value.number || first.None? || block.number < first.value {
        return Fine;
      }
      match StoreUndo(store, block.number, block.hash)
      case NotFound => return Error;
      case OutOfOrder => return Unknown;
      case Restored(before) =>
        store := before;
        last := Some(BlockRef(if block.number == 0 then 0 else block.number - 1, block.parentHash, 0));
        return Fine;
    }

    method Revert(reverted: seq<BlockRef>) returns (signal: Signal)
      modifies this
      ensures Ends(RunModel.Revert(old(State()), reverted), signal, State())
    {
      if reverted != [] {
        kept := Below(kept, Lowest(reverted));
      }
      var blocks := SortBy(reverted, Descending);
      signal := Fine;
      var i := 0;
      while i < |blocks|
        invariant i <= |blocks| && signal == Fine
        invariant RunModel.Revert(old(State()), reverted) == UndoAll(State(), blocks[i..])
      {
        signal := UndoBlock(blocks[i]);
        if !signal.Fine? {
          return;
        }
        i := i + 1;
      }
    }

    method SwapOnFeed(version: nat, processor: Processor) returns (signal: Signal)
      modifies this
      ensures Ends(Swap(old(State()), version, processor), signal, State())
    {
      if kept == [] || !processor.covers(kept[|kept| - 1]) {
        return PlanAgain(version, processor);
      }
      var frames := kept;
      Reset(version, processor);
      signal := ApplyEach(frames);
    }

    method Handle(e: Event) returns (signal: Signal)
      modifies this
      ensures Ends(Step(old(State()), e), signal, State())
    {
      match e
      case Block(frame) => signal := ApplyFed(frame);
      case Reorg(reverted, applied) =>
        signal := Revert(reverted);
        if signal.Fine? {
          signal := ApplyEach(applied);
        }
      case Swapped(version, p) => signal := SwapOnFeed(version, p);
      case Informing => signal := Fine;
    }

    /** Take what the run's own feed delivers, until it ends, the run fails or,
        for a run that does not follow, the anchor is reached. */
    method RunOwnFeed(events: seq<Event>, follow: bool, anchor: nat) returns (signal: Signal, taken: nat)
      modifies this
      ensures taken <= |events|
      ensures Ends(Steps(old(State()), events[..taken]), signal, State())
      ensures signal == Fine ==> taken == |events| || (!follow && ReachedIn(Going(State()), anchor))
      ensures !follow ==> forall k | 0 <= k < taken :: !ReachedIn(Steps(old(State()), events[..k]), anchor)
    {
      signal, taken := Fine, 0;
      while taken < |events|
        invariant taken <= |events| && signal == Fine
        invariant Steps(old(State()), events[..taken]) == Going(State())
        invariant !follow ==> forall k | 0 <= k < taken :: !ReachedIn(Steps(old(State()), events[..k]), anchor)
      {
        if !follow && last.Some? && last.value.number >= anchor {
          return;
        }
        StepsAppend(old(State()), events[..taken], events[taken]);
        assert events[..taken + 1] == events[..taken] + [events[taken]];
        signal := Handle(events[taken]);
        taken := taken + 1;
        if !signal.Fine? {
          return;
        }
      }
    }
  }
}
