/** One live session of the sync, as its loops run it. Every step it takes is one
    of the protocol's, so a session that fails or a process that ends at any point
    is a run of the protocol too. */
module KeepInSync {
  import opened CoverageHoles
  import opened LiveSync

  ghost function AsSet(gaps: seq<BlockRange>): set<BlockRange> {
    set range | range in gaps
  }

  ghost predicate Distinct(gaps: seq<BlockRange>) {
    forall i, j | 0 <= i < j < |gaps| :: gaps[i] != gaps[j]
  }

  function Without(gaps: seq<BlockRange>, range: BlockRange): seq<BlockRange> {
    if gaps == [] then []
    else if gaps[0] == range then Without(gaps[1..], range)
    else [gaps[0]] + Without(gaps[1..], range)
  }

  lemma {:induction false} WithoutDrops(gaps: seq<BlockRange>, range: BlockRange)
    requires Distinct(gaps)
    ensures Distinct(Without(gaps, range))
    ensures AsSet(Without(gaps, range)) == AsSet(gaps) - {range}
    decreases |gaps|
  {
    if gaps != [] {
      var rest := gaps[1..];
      assert gaps == [gaps[0]] + rest;
      WithoutDrops(rest, range);
      assert AsSet(gaps) == {gaps[0]} + AsSet(rest);
      var kept := Without(rest, range);
      assert forall other :: other in kept <==> other in AsSet(kept);
      if gaps[0] != range {
        assert gaps[0] !in AsSet(rest);
        assert AsSet([gaps[0]] + kept) == {gaps[0]} + AsSet(kept);
      }
    }
  }

  lemma NoneLeft(gaps: seq<BlockRange>)
    ensures AsSet(gaps) == {} ==> gaps == []
  {
    assert gaps == [] || gaps[0] in AsSet(gaps);
  }

  lemma {:induction false} RunAppends(w: World, actions: seq<Action>, a: Action)
    ensures Run(w, actions + [a]) == Act(Run(w, actions), a)
    decreases |actions|
  {
    if actions == [] {
      assert (actions + [a])[1..] == [];
    } else {
      assert (actions + [a])[1..] == actions[1..] + [a];
      RunAppends(Act(w, actions[0]), actions[1..], a);
    }
  }

  /** What was remembered stays so. */
  lemma {:induction false} PrefixRemembers(w: World, a: seq<Action>, b: seq<Action>)
    requires a <= b
    ensures Run(w, a).remembered <= Run(w, b).remembered
    decreases |b|
  {
    if a != b {
      var c := b[..|b| - 1];
      assert b == c + [b[|b| - 1]];
      PrefixRemembers(w, a, c);
      RunAppends(w, c, b[|b| - 1]);
    }
  }

  /** The entity changes of a batch. */
  function Rows(batch: seq<Change>): seq<nat> {
    if batch == [] then []
    else Rows(batch[..|batch| - 1]) + if batch[|batch| - 1].Entity? then [batch[|batch| - 1].row] else []
  }

  function AllRows(batches: seq<seq<Change>>): seq<nat> {
    if batches == [] then [] else AllRows(batches[..|batches| - 1]) + Rows(batches[|batches| - 1])
  }

  function AllGaps(batches: seq<seq<Change>>): set<BlockRange> {
    if batches == [] then {}
    else
      var last := batches[|batches| - 1];
      AllGaps(batches[..|batches| - 1]) + Gaps(last, |last|)
  }

  /** Nothing was received, applied or acknowledged between `w` and `w'`. */
  ghost predicate OnlyRequests(w: World, w': World) {
    w'.rows == w.rows && w'.received == w.received && w'.acknowledged == w.acknowledged
  }

  /** The destination's gaps and rows and the process's memory. The ghost fields are the
      protocol's state and the steps that led to it. */
  class Keeper {
    var gaps: seq<BlockRange>
    var rows: seq<nat>
    var requested: seq<BlockRange>
    ghost var start: World
    ghost var trace: seq<Action>

    ghost function World(): World
      reads this
    {
      Run(start, trace)
    }

    ghost predicate Tracks()
      reads this
    {
      Distinct(gaps) && AsSet(gaps) == World().gaps && rows == World().rows && requested == World().requested
    }

    /** After a start of the process: the destination as it left it. */
    constructor (gaps: seq<BlockRange>, rows: seq<nat>, ghost start: World)
      requires Distinct(gaps) && AsSet(gaps) == start.gaps && rows == start.rows && start.requested == []
      ensures Tracks() && this.start == start && trace == []
    {
      this.gaps, this.rows, requested := gaps, rows, [];
      this.start, trace := start, [];
    }

    ghost method Take(a: Action)
      modifies `trace
      ensures trace == old(trace) + [a] && World() == Act(old(World()), a)
    {
      RunAppends(start, trace, a);
      trace := trace + [a];
    }

    method RememberGap(range: BlockRange)
      requires Distinct(gaps)
      modifies `gaps
      ensures Distinct(gaps) && AsSet(gaps) == AsSet(old(gaps)) + {range}
    {
      if range !in gaps {
        gaps := gaps + [range];
      }
    }

    method ForgetGap(range: BlockRange)
      requires Distinct(gaps)
      modifies `gaps
      ensures Distinct(gaps) && AsSet(gaps) == AsSet(old(gaps)) - {range}
    {
      WithoutDrops(gaps, range);
      gaps := Without(gaps, range);
    }

    method RequestOne(range: BlockRange, ghost pending: seq<BlockRange>, accepts: BlockRange -> bool) returns (done: bool)
      requires Tracks() && pending != [] && World().phase == Requesting(pending) && range == pending[0]
      modifies this
      ensures Tracks() && start == old(start) && old(trace) <= trace
      ensures World().phase == if done then Started(pending[1..]) else Following
      ensures done <==> accepts(range) || InFlight(old(requested), range)
      ensures requested == old(requested) + if done && !InFlight(old(requested), range) then [range] else []
      ensures AsSet(gaps) == if done then AsSet(old(gaps)) - {range} else AsSet(old(gaps))
      ensures OnlyRequests(old(World()), World())
    {
      if !InFlight(requested, range) {
        if !accepts(range) {
          Take(FailToHandOver);
          return false;
        }
        requested := requested + [range];
      }
      Take(HandOver);
      ForgetGap(range);
      Take(Forget);
      return true;
    }

    /** Request every gap not in flight, dropping each once it is handed over; the
        first failure ends the pass. `accepts` says which requests succeed. */
    method Request(accepts: BlockRange -> bool)
      requires Tracks() && World().phase == Started(gaps)
      modifies this
      ensures Tracks() && start == old(start) && old(trace) <= trace
      ensures World().phase == Following
      ensures (forall range | range in old(gaps) :: accepts(range)) ==> gaps == []
      ensures OnlyRequests(old(World()), World())
    {
      var pending := gaps;
      var i := 0;
      while i < |pending|
        invariant i <= |pending|
        invariant Tracks() && start == old(start) && old(trace) <= trace
        invariant World().phase == Started(pending[i..]) && OnlyRequests(old(World()), World())
        invariant AsSet(gaps) <= AsSet(pending[i..])
      {
        assert pending[i..][0] == pending[i] && pending[i..][1..] == pending[i + 1..];
        var done := RequestOne(pending[i], pending[i..], accepts);
        if !done {
          return;
        }
        i := i + 1;
      }
      NoneLeft(gaps);
    }

    method ApplyChange(batch: seq<Change>, done: nat)
      requires Tracks() && done < |batch| && World().phase == Applying(batch, done)
      modifies this
      ensures Tracks() && start == old(start) && old(trace) <= trace && World().phase == Applying(batch, done + 1)
      ensures rows == old(rows) + if batch[done].Entity? then [batch[done].row] else []
      ensures World().received == old(World().received) && World().acknowledged == old(World().acknowledged)
    {
      match batch[done] {
        case LiveGap(range) => RememberGap(range);
        case Entity(row) => rows := rows + [row];
      }
      Take(ApplyNext);
    }

    method Process(batch: seq<Change>)
      requires Tracks() && World().phase == Following
      modifies this
      ensures Tracks() && start == old(start) && old(trace) <= trace
      ensures World().phase == Applying(batch, |batch|) && rows == old(rows) + Rows(batch)
      ensures World().received == old(World().received) + [batch] && World().acknowledged == old(World().acknowledged)
    {
      Take(Receive(batch));
      for done := 0 to |batch|
        invariant Tracks() && start == old(start) && old(trace) <= trace
        invariant World().phase == Applying(batch, done) && rows == old(rows) + Rows(batch[..done])
        invariant World().received == old(World().received) + [batch] && World().acknowledged == old(World().acknowledged)
      {
        assert batch[..done + 1][..done] == batch[..done];
        ApplyChange(batch, done);
      }
      assert batch[..|batch|] == batch;
    }

    method Open(holes: seq<BlockRange>)
      requires Tracks() && World().phase == Disconnected
      modifies this
      ensures Tracks() && start == old(start) && old(trace) <= trace
      ensures World().phase == Opening([])
      ensures forall i | 0 <= i < |holes| :: holes[i] in World().remembered
      ensures OnlyRequests(old(World()), World())
    {
      Take(Connect(holes));
      for i := 0 to |holes|
        invariant Tracks() && start == old(start) && old(trace) <= trace
        invariant World().phase == Opening(holes[i..]) && OnlyRequests(old(World()), World())
        invariant forall k | 0 <= k < i :: holes[k] in World().remembered
      {
        assert holes[i..][0] == holes[i] && holes[i..][1..] == holes[i + 1..];
        RememberGap(holes[i]);
        Take(RememberHole);
      }
    }

    /** A session: remember the holes, request, and then for each batch remember
        its gaps and apply its changes, acknowledge, and request. Afterwards every
        batch has been received, applied and acknowledged in order, every block the
        coverage lacked is a durable gap's or was handed over, and when no request
        failed no gap is left. */
    method Session(coverage: Coverage, fromBlock: nat, batches: seq<seq<Change>>, accepts: BlockRange -> bool)
      requires Tracks() && World().phase == Disconnected && Inv(start) && SortedByStart(coverage.available)
      modifies this
      ensures Tracks() && start == old(start) && old(trace) <= trace
      ensures World().phase == Following
      ensures forall b | Lacks(coverage, fromBlock, b) :: Safe(World(), b)
      ensures (forall range :: accepts(range)) ==> gaps == []
      ensures rows == old(rows) + AllRows(batches) && World().received == old(World().received) + batches
      ensures World().acknowledged == old(World().acknowledged) + AllGaps(batches)
    {
      var holes := HolesOf(coverage, fromBlock);
      Open(holes);
      ghost var opening := trace;
      ListsItself();
      Take(ReadGaps(gaps));
      Request(accepts);
      Follow(batches, accepts);
      PrefixRemembers(start, opening, trace);
      RunKeeps(start, trace);
      forall b | Lacks(coverage, fromBlock, b) ensures Safe(World(), b) {
        assert Covers(holes, b);
        var i :| 0 <= i < |holes| && Within(holes[i], b);
        assert holes[i] in World().remembered;
      }
    }

    method HandleBatch(batch: seq<Change>, accepts: BlockRange -> bool)
      requires Tracks() && World().phase == Following && ((forall range :: accepts(range)) ==> gaps == [])
      modifies this
      ensures Tracks() && start == old(start) && old(trace) <= trace
      ensures World().phase == Following && ((forall range :: accepts(range)) ==> gaps == [])
      ensures rows == old(rows) + Rows(batch) && World().received == old(World().received) + [batch]
      ensures World().acknowledged == old(World().acknowledged) + Gaps(batch, |batch|)
    {
      Process(batch);
      ListsItself();
      Take(Acknowledge(gaps));
      Request(accepts);
    }

    method Follow(batches: seq<seq<Change>>, accepts: BlockRange -> bool)
      requires Tracks() && World().phase == Following && ((forall range :: accepts(range)) ==> gaps == [])
      modifies this
      ensures Tracks() && start == old(start) && old(trace) <= trace
      ensures World().phase == Following && ((forall range :: accepts(range)) ==> gaps == [])
      ensures rows == old(rows) + AllRows(batches) && World().received == old(World().received) + batches
      ensures World().acknowledged == old(World().acknowledged) + AllGaps(batches)
    {
      for i := 0 to |batches|
        invariant Tracks() && start == old(start) && old(trace) <= trace
        invariant World().phase == Following
        invariant (forall range :: accepts(range)) ==> gaps == []
        invariant rows == old(rows) + AllRows(batches[..i]) && World().received == old(World().received) + batches[..i]
        invariant World().acknowledged == old(World().acknowledged) + AllGaps(batches[..i])
      {
        assert batches[..i + 1][..i] == batches[..i] && batches[..i + 1] == batches[..i] + [batches[i]];
        HandleBatch(batches[i], accepts);
      }
      assert batches[..|batches|] == batches;
    }

    lemma ListsItself()
      requires Tracks()
      ensures Lists(gaps, World().gaps)
    {
      forall i | 0 <= i < |gaps| ensures gaps[i] in World().gaps {
        assert gaps[i] in AsSet(gaps);
      }
      forall range | range in World().gaps ensures range in gaps {
        assert range in AsSet(gaps);
      }
    }
  }
}
