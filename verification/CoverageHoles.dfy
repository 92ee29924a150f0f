/** The blocks a processor lacks when a live session starts. */
module CoverageHoles {
  import opened Wrappers

  datatype BlockRange = BlockRange(fromBlock: int, toBlock: int)

  datatype Coverage = Coverage(available: seq<BlockRange>, configuredStartBlock: nat,
                               processedThrough: Option<nat>, chainFinalizedHead: Option<nat>)

  predicate Within(range: BlockRange, b: int) {
    range.fromBlock <= b <= range.toBlock
  }

  /** Some range holds `b`. */
  ghost predicate Covers(ranges: seq<BlockRange>, b: int) {
    exists i :: 0 <= i < |ranges| && Within(ranges[i], b)
  }

  /** Non-empty ranges in order of their starts; they may overlap and nest. */
  ghost predicate SortedByStart(ranges: seq<BlockRange>) {
    && (forall i | 0 <= i < |ranges| :: ranges[i].fromBlock <= ranges[i].toBlock)
    && forall i, j | 0 <= i < j < |ranges| :: ranges[i].fromBlock <= ranges[j].fromBlock
  }

  /** Non-empty, in order, and with a block between each two: no two could be
      joined, so none could be larger. */
  ghost predicate Maximal(holes: seq<BlockRange>) {
    && (forall i | 0 <= i < |holes| :: holes[i].fromBlock <= holes[i].toBlock)
    && forall i, j | 0 <= i < j < |holes| :: holes[i].toBlock + 1 < holes[j].fromBlock
  }

  function Through(c: Coverage): Option<nat> {
    if c.processedThrough.Some? then c.processedThrough else c.chainFinalizedHead
  }

  function StartBlock(c: Coverage, from: nat): nat {
    if from > c.configuredStartBlock then from else c.configuredStartBlock
  }

  ghost predicate Lacks(c: Coverage, from: nat, b: int) {
    Through(c).Some? && StartBlock(c, from) <= b <= Through(c).value && !Covers(c.available, b)
  }

  /** What a processor lacks: a block from both starts on, through what it has
      processed, or through the finalized head if it has processed nothing, that no
      available range holds. */
  lemma LackedExactly(c: Coverage, from: nat, b: int)
    ensures Lacks(c, from, b) <==>
            && from <= b && c.configuredStartBlock <= b && !Covers(c.available, b)
            && match (c.processedThrough, c.chainFinalizedHead)
               case (Some(processed), _) => b <= processed
               case (None, Some(head)) => b <= head
               case (None, None) => false
  {
  }

  function NonEmpty(holes: seq<BlockRange>): seq<BlockRange> {
    if holes == [] then []
    else
      var init, last := holes[..|holes| - 1], holes[|holes| - 1];
      if last.fromBlock <= last.toBlock then NonEmpty(init) + [last] else NonEmpty(init)
  }

  lemma CoversAppend(ranges: seq<BlockRange>, range: BlockRange, b: int)
    ensures Covers(ranges + [range], b) <==> Covers(ranges, b) || Within(range, b)
  {
    var all := ranges + [range];
    if Covers(ranges, b) {
      var i :| 0 <= i < |ranges| && Within(ranges[i], b);
      assert Within(all[i], b);
    }
    if Within(range, b) {
      assert Within(all[|ranges|], b);
    }
  }

  lemma {:induction false} NonEmptyCovers(holes: seq<BlockRange>, b: int)
    ensures Covers(NonEmpty(holes), b) <==> Covers(holes, b)
    decreases |holes|
  {
    if holes != [] {
      var init, last := holes[..|holes| - 1], holes[|holes| - 1];
      assert init + [last] == holes;
      NonEmptyCovers(init, b);
      CoversAppend(init, last, b);
      CoversAppend(NonEmpty(init), last, b);
    }
  }

  /** As `Maximal`, but for the ranges that are non-empty only. */
  ghost predicate Apart(holes: seq<BlockRange>, below: int) {
    && (forall i | 0 <= i < |holes| :: holes[i].fromBlock <= holes[i].toBlock ==> holes[i].toBlock + 1 < below)
    && forall i, j | 0 <= i < j < |holes| ::
         holes[i].fromBlock <= holes[i].toBlock && holes[j].fromBlock <= holes[j].toBlock ==>
           holes[i].toBlock + 1 < holes[j].fromBlock
  }

  lemma {:induction false} NonEmptyMaximal(holes: seq<BlockRange>, below: int)
    requires Apart(holes, below)
    ensures Maximal(NonEmpty(holes))
    ensures forall i | 0 <= i < |NonEmpty(holes)| :: NonEmpty(holes)[i].toBlock + 1 < below
    decreases |holes|
  {
    if holes != [] {
      var init, last := holes[..|holes| - 1], holes[|holes| - 1];
      NonEmptyMaximal(init, below);
      if last.fromBlock <= last.toBlock {
        NonEmptyMaximal(init, last.fromBlock);
      }
    }
  }

  /** After some ranges: the holes are the uncovered blocks below `next`, none of
      them above the latest range's start, and `next` is above every range. */
  ghost predicate Scanned(ranges: seq<BlockRange>, start: int, through: int, holes: seq<BlockRange>, next: int) {
    && (forall b :: Covers(ranges, b) && start <= b ==> b < next)
    && (forall b :: Covers(holes, b) <==> start <= b < next && b <= through && !Covers(ranges, b))
    && (forall b :: Covers(holes, b) ==> ranges != [] && b < ranges[|ranges| - 1].fromBlock)
    && (ranges == [] ==> next == start)
  }

  lemma ScannedGap(ranges: seq<BlockRange>, range: BlockRange, start: int, through: int,
                   holes: seq<BlockRange>, next: int, hole: BlockRange)
    requires Scanned(ranges, start, through, holes, next) && start <= next
    requires SortedByStart(ranges + [range]) && range.fromBlock > next
    requires hole == BlockRange(next, if range.fromBlock - 1 < through then range.fromBlock - 1 else through)
    ensures Scanned(ranges + [range], start, through, holes + [hole],
                    if range.toBlock + 1 > next then range.toBlock + 1 else next)
  {
    assert (ranges + [range])[|ranges|] == range;
    forall b
      ensures Covers(ranges + [range], b) <==> Covers(ranges, b) || Within(range, b)
      ensures Covers(holes + [hole], b) <==> Covers(holes, b) || Within(hole, b)
    {
      CoversAppend(ranges, range, b);
      CoversAppend(holes, hole, b);
    }
  }

  lemma ScannedOverlap(ranges: seq<BlockRange>, range: BlockRange, start: int, through: int,
                       holes: seq<BlockRange>, next: int)
    requires Scanned(ranges, start, through, holes, next) && start <= next
    requires SortedByStart(ranges + [range]) && range.fromBlock <= next
    ensures Scanned(ranges + [range], start, through, holes,
                    if range.toBlock + 1 > next then range.toBlock + 1 else next)
  {
    var all := ranges + [range];
    assert all[|ranges|] == range;
    assert ranges != [] ==> all[|ranges| - 1].fromBlock <= range.fromBlock;
    forall b ensures Covers(all, b) <==> Covers(ranges, b) || Within(range, b) {
      CoversAppend(ranges, range, b);
    }
    forall b ensures Covers(holes, b) ==> b < range.fromBlock {}
  }

  /** Exactly the blocks from the start through the last processed (or, before
      the first, the finalized) one that no available range covers, as maximal
      ranges in order. */
  method HolesOf(c: Coverage, from: nat) returns (holes: seq<BlockRange>)
    requires SortedByStart(c.available)
    ensures forall b :: Covers(holes, b) <==> Lacks(c, from, b)
    ensures Maximal(holes)
  {
    var end := Through(c);
    if end.None? {
      return [];
    }
    var through := end.value;
    holes := [];
    var next: int := StartBlock(c, from);
    for i := 0 to |c.available|
      invariant next >= StartBlock(c, from)
      invariant Apart(holes, next)
      invariant Scanned(c.available[..i], StartBlock(c, from), through, holes, next)
    {
      var range := c.available[i];
      assert c.available[..i + 1] == c.available[..i] + [range];
      if range.fromBlock > next {
        var hole := BlockRange(next, if range.fromBlock - 1 < through then range.fromBlock - 1 else through);
        ScannedGap(c.available[..i], range, StartBlock(c, from), through, holes, next, hole);
        holes := holes + [hole];
      } else {
        ScannedOverlap(c.available[..i], range, StartBlock(c, from), through, holes, next);
      }
      next := if range.toBlock + 1 > next then range.toBlock + 1 else next;
    }
    assert c.available[..|c.available|] == c.available;
    if next <= through {
      ghost var before := holes;
      holes := holes + [BlockRange(next, through)];
      forall b ensures Covers(holes, b) <==> Covers(before, b) || next <= b <= through {
        CoversAppend(before, BlockRange(next, through), b);
      }
    }
    forall b ensures Covers(NonEmpty(holes), b) <==> Covers(holes, b) {
      NonEmptyCovers(holes, b);
    }
    NonEmptyMaximal(holes, if next <= through then through + 2 else next);
    holes := NonEmpty(holes);
  }

  /** Maximal ranges are determined by the blocks they cover, so the holes are
      the only answer there is. */
  lemma {:induction false} MaximalAreUnique(a: seq<BlockRange>, b: seq<BlockRange>)
    requires Maximal(a) && Maximal(b) && forall n :: Covers(a, n) <==> Covers(b, n)
    ensures a == b
    decreases |a|
  {
    CoversItsFirst(a);
    CoversItsFirst(b);
    if a != [] {
      FirstIsLowest(a, b);
      FirstIsLowest(b, a);
      FirstEndsSame(a, b);
      FirstEndsSame(b, a);
      forall n ensures Covers(a[1..], n) <==> Covers(b[1..], n) {
        RestCovers(a, n);
        RestCovers(b, n);
      }
      MaximalAreUnique(a[1..], b[1..]);
      assert a == [a[0]] + a[1..] && b == [b[0]] + b[1..];
    }
  }

  lemma CoversItsFirst(a: seq<BlockRange>)
    requires Maximal(a)
    ensures a != [] ==> Covers(a, a[0].fromBlock)
  {
    assert a != [] ==> Within(a[0], a[0].fromBlock);
  }

  lemma FirstIsLowest(a: seq<BlockRange>, b: seq<BlockRange>)
    requires Maximal(a) && Maximal(b) && a != [] && b != [] && forall n :: Covers(a, n) <==> Covers(b, n)
    ensures a[0].fromBlock <= b[0].fromBlock
  {
    assert Within(b[0], b[0].fromBlock);
    assert Covers(b, b[0].fromBlock);
    var i :| 0 <= i < |a| && Within(a[i], b[0].fromBlock);
    assert i > 0 ==> a[0].toBlock + 1 < a[i].fromBlock;
  }

  lemma FirstEndsSame(a: seq<BlockRange>, b: seq<BlockRange>)
    requires Maximal(a) && Maximal(b) && a != [] && b != [] && forall n :: Covers(a, n) <==> Covers(b, n)
    requires a[0].fromBlock == b[0].fromBlock
    ensures a[0].toBlock <= b[0].toBlock
  {
    var n := b[0].toBlock + 1;
    forall i | 0 <= i < |b| ensures !Within(b[i], n) {
      assert i > 0 ==> b[0].toBlock + 1 < b[i].fromBlock;
    }
    assert Within(a[0], n) ==> Covers(a, n);
  }

  lemma RestCovers(a: seq<BlockRange>, n: int)
    requires Maximal(a) && a != []
    ensures Covers(a[1..], n) <==> Covers(a, n) && !Within(a[0], n)
  {
    if Covers(a, n) && !Within(a[0], n) {
      var i :| 0 <= i < |a| && Within(a[i], n);
      assert Within(a[1..][i - 1], n);
    }
    if Covers(a[1..], n) {
      var i :| 0 <= i < |a[1..]| && Within(a[1..][i], n);
      assert Within(a[i + 1], n);
    }
  }
}
