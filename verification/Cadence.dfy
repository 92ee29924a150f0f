/** When blocks are due: a slot every `seconds` from genesis, and every 200 ms
    from `fastFrom` on. All arithmetic is that of 64-bit unsigned integers, with
    saturation where the schedule saturates. */
module Cadence {
  import opened MachineIntegers
  import opened Wrappers

  /** Milliseconds per slot from `fastFrom` on. */
  const FAST_SLOT_MS: U64 := 200

  datatype Schedule = Schedule(genesisTime: U64, seconds: U64, firstBlock: Option<U64>, fastFrom: Option<U64>) {

    function First(): U64 {
      if firstBlock.Some? then firstBlock.value else 0
    }

    /** When a slot of the whole-second cadence starts. */
    function LegacyMs(slot: U64): U64 {
      SatMul(SatAdd(genesisTime, SatMul(SatSub(slot, First()), seconds)), 1000)
    }

    function SlotStartMs(slot: U64): U64 {
      if fastFrom.Some? && slot > fastFrom.value
      then SatAdd(LegacyMs(fastFrom.value), SatMul(slot - fastFrom.value, FAST_SLOT_MS))
      else LegacyMs(slot)
    }

    function SlotStart(slot: U64): U64 {
      SlotStartMs(slot) / 1000
    }

    /** Milliseconds from `slot`'s start to the next slot's. */
    function SlotMs(slot: U64): U64 {
      if fastFrom.Some? && slot >= fastFrom.value then FAST_SLOT_MS else SatMul(seconds, 1000)
    }

    /** The slot that starts at `timestamp`. */
    function SlotStartingAt(timestamp: U64): Option<nat>
      requires seconds > 0
    {
      if fastFrom.Some? && timestamp >= SlotStart(fastFrom.value) then None
      else if timestamp < genesisTime || (timestamp - genesisTime) % seconds != 0 then None
      else Some(First() + (timestamp - genesisTime) / seconds)
    }

    /** The slot in progress at `timestamp`. */
    function SlotAt(timestamp: U64): nat
      requires seconds > 0
    {
      if fastFrom.Some? && SatMul(timestamp, 1000) >= SlotStartMs(fastFrom.value)
      then fastFrom.value + (SatMul(timestamp, 1000) - SlotStartMs(fastFrom.value)) / FAST_SLOT_MS
      else First() + SatSub(timestamp, genesisTime) / seconds
    }

    /** The slot a header fills. */
    function HeaderSlot(number: U64, timestamp: U64): Option<nat>
      requires seconds > 0
    {
      match firstBlock
      case Some(first) => if number >= first && SlotStart(number) == timestamp then Some(number as nat) else None
      case None => SlotStartingAt(timestamp)
    }

    /** When the slot after a block's starts. */
    function NextSlotStartMs(number: U64, timestamp: U64): U64 {
      match firstBlock
      case Some(_) => SlotStartMs(SatAdd(number, 1))
      case None => SatMul(SatAdd(timestamp, seconds), 1000)
    }

    /** The regime switch lies on the schedule. */
    predicate Valid() {
      seconds > 0 && (fastFrom.Some? ==> First() <= fastFrom.value)
    }

    /** The exact start of a slot, in milliseconds of unbounded integers. */
    function Exact(slot: nat): int
      requires Valid() && First() <= slot
    {
      if fastFrom.Some? && slot > fastFrom.value
      then (genesisTime + (fastFrom.value - First()) * seconds) * 1000 + (slot - fastFrom.value) * FAST_SLOT_MS
      else (genesisTime + (slot - First()) * seconds) * 1000
    }

    /** A slot of the schedule whose start a 64-bit integer holds. */
    predicate Holds(slot: nat) {
      Valid() && First() <= slot <= U64_MAX && Exact(slot) <= U64_MAX
    }
  }

  lemma MulMonotone(a: nat, b: nat, c: nat)
    requires a <= b
    ensures a * c <= b * c
  {
  }

  lemma MulStrict(a: nat, b: nat, c: nat)
    requires a < b && c > 0
    ensures a * c + c <= b * c
  {
    MulMonotone(a + 1, b, c);
    assert (a + 1) * c == a * c + c;
  }

  lemma ExactIncreases(c: Schedule, slot: nat)
    requires c.Valid() && c.First() <= slot
    ensures c.Exact(slot + 1) - c.Exact(slot) ==
            if c.fastFrom.Some? && slot >= c.fastFrom.value then FAST_SLOT_MS else c.seconds * 1000
  {
    var k := slot - c.First();
    assert (k + 1) * c.seconds == k * c.seconds + c.seconds;
  }

  lemma {:induction false} ExactMonotone(c: Schedule, a: nat, b: nat)
    requires c.Valid() && c.First() <= a <= b
    ensures c.Exact(a) <= c.Exact(b)
    ensures a < b ==> c.Exact(a) < c.Exact(b)
    decreases b - a
  {
    if a < b {
      ExactMonotone(c, a, b - 1);
      ExactIncreases(c, b - 1);
    }
  }

  /** Where nothing exceeds 64 bits, nothing saturates. */
  lemma StartIsExact(c: Schedule, slot: U64)
    requires c.Holds(slot)
    ensures c.SlotStartMs(slot) == c.Exact(slot)
    ensures c.fastFrom.Some? && slot >= c.fastFrom.value ==> c.SlotStartMs(c.fastFrom.value) == c.Exact(c.fastFrom.value)
  {
  }

  /** Starts are strictly increasing, and `SlotMs` is their exact difference. */
  lemma StartsIncrease(c: Schedule, a: U64, b: U64)
    requires c.Holds(a) && c.Holds(b) && a < b
    ensures c.SlotStartMs(a) < c.SlotStartMs(b)
    ensures b == a + 1 ==> c.SlotStartMs(b) - c.SlotStartMs(a) == c.SlotMs(a)
  {
    StartIsExact(c, a);
    StartIsExact(c, b);
    ExactMonotone(c, a, b);
    ExactIncreases(c, a);
    if b == a + 1 && !(c.fastFrom.Some? && a >= c.fastFrom.value) {
      assert c.seconds * 1000 <= U64_MAX;
    }
  }

  lemma DivisionBound(n: nat, k: nat, d: nat)
    requires d > 0
    ensures k * d <= n <==> k <= n / d
  {
    var q, r := n / d, n % d;
    assert n == q * d + r;
    if k <= q {
      MulMonotone(k, q, d);
    } else {
      MulStrict(q, k, d);
    }
  }

  /** The slot in progress is the greatest slot that starts no later: a slot has
      started at `timestamp` exactly when it is not beyond `SlotAt`. */
  lemma SlotAtIsGreatestStarted(c: Schedule, timestamp: U64, slot: nat)
    requires c.Valid() && c.genesisTime <= timestamp && timestamp * 1000 <= U64_MAX && c.First() <= slot
    requires c.fastFrom.Some? ==> c.Holds(c.fastFrom.value)
    ensures c.First() <= c.SlotAt(timestamp)
    ensures c.Exact(slot) <= timestamp * 1000 <==> slot <= c.SlotAt(timestamp)
  {
    var since := timestamp - c.genesisTime;
    DivisionBound(since, slot - c.First(), c.seconds);
    if c.fastFrom.Some? {
      var fast := c.fastFrom.value;
      StartIsExact(c, fast);
      DivisionBound(since, fast - c.First(), c.seconds);
      if slot >= fast {
        ExactMonotone(c, fast, slot);
        if timestamp * 1000 >= c.Exact(fast) {
          DivisionBound(timestamp * 1000 - c.Exact(fast), slot - fast, FAST_SLOT_MS);
        }
      } else {
        ExactMonotone(c, slot, fast);
      }
    }
  }

  lemma Quotient(n: nat, k: nat, d: nat)
    requires d > 0
    ensures n % d == 0 && n / d == k <==> n == k * d
  {
    DivisionBound(n, k, d);
    DivisionBound(n, k + 1, d);
    assert (k + 1) * d == k * d + d;
    assert n == n / d * d + n % d;
  }

  /** Up to the switch, slots start on whole seconds. */
  lemma LegacySecond(c: Schedule, slot: U64)
    requires c.Holds(slot) && (c.fastFrom.Some? ==> slot <= c.fastFrom.value)
    ensures c.SlotStart(slot) == c.genesisTime + (slot - c.First()) * c.seconds
  {
    StartIsExact(c, slot);
  }

  lemma WholeSeconds(b: nat, n: nat)
    ensures (b * 1000 + n * 200) / 1000 == b + n / 5
  {
    var q, r := n / 5, n % 5;
    assert b * 1000 + n * 200 == (b + q) * 1000 + r * 200;
  }

  /** Past the switch, five slots to a second. */
  lemma FastSecond(c: Schedule, slot: U64)
    requires c.fastFrom.Some? && c.Holds(slot) && slot >= c.fastFrom.value
    ensures c.Holds(c.fastFrom.value)
    ensures c.SlotStart(slot) == c.SlotStart(c.fastFrom.value) + (slot - c.fastFrom.value) / 5
  {
    var fast := c.fastFrom.value;
    ExactMonotone(c, fast, slot);
    StartIsExact(c, slot);
    LegacySecond(c, fast);
    WholeSeconds(c.SlotStart(fast), slot - fast);
  }

  /** Before the fast regime the slot that starts at a second is exactly the
      inverse of when slots start; from there on there is none. */
  lemma SlotStartingAtInvertsSlotStart(c: Schedule, timestamp: U64, slot: U64)
    requires c.Holds(slot)
    requires c.fastFrom.Some? ==> c.Holds(c.fastFrom.value)
    ensures c.SlotStartingAt(timestamp) == Some(slot as nat) <==>
            c.SlotStart(slot) == timestamp && (c.fastFrom.Some? ==> slot < c.fastFrom.value)
  {
    var k := slot - c.First();
    if timestamp >= c.genesisTime {
      Quotient(timestamp - c.genesisTime, k, c.seconds);
    }
    if c.fastFrom.Some? {
      var fast := c.fastFrom.value;
      LegacySecond(c, fast);
      if slot < fast {
        LegacySecond(c, slot);
        MulStrict(k, fast - c.First(), c.seconds);
      } else {
        MulMonotone(fast - c.First(), k, c.seconds);
      }
    } else {
      LegacySecond(c, slot);
    }
  }

  /** From the fast regime on, five slots share each second: those counted from
      the second's distance to the switch. */
  lemma FiveSlotsShareASecond(c: Schedule, slot: U64, timestamp: nat)
    requires c.fastFrom.Some? && c.Holds(slot) && slot >= c.fastFrom.value && timestamp >= c.SlotStart(c.fastFrom.value)
    ensures var first := c.fastFrom.value + 5 * (timestamp - c.SlotStart(c.fastFrom.value));
            c.SlotStart(slot) == timestamp <==> first <= slot < first + 5
  {
    FastSecond(c, slot);
  }

  /** Which slot a header fills, exactly: the one that starts at its timestamp, which
      is also its number where blocks are numbered by slot; elsewhere only before
      the fast regime. */
  lemma HeaderFillsWhatStartsThen(c: Schedule, number: U64, timestamp: U64, slot: U64)
    requires c.Holds(slot) && (c.fastFrom.Some? ==> c.Holds(c.fastFrom.value))
    ensures c.HeaderSlot(number, timestamp) == Some(slot as nat) <==>
            && c.SlotStart(slot) == timestamp
            && (if c.firstBlock.Some? then number == slot else c.fastFrom.Some? ==> slot < c.fastFrom.value)
  {
    SlotStartingAtInvertsSlotStart(c, timestamp, slot);
  }

  /** A header that fills slot `slot` names as next start that of the next slot. */
  lemma NextStartFollowsHeader(c: Schedule, number: U64, timestamp: U64, slot: U64)
    requires c.Holds(slot) && c.Holds(slot + 1)
    requires c.firstBlock.None? ==> c.fastFrom.None?
    requires c.HeaderSlot(number, timestamp) == Some(slot as nat)
    ensures c.NextSlotStartMs(number, timestamp) == c.SlotStartMs(slot + 1)
    ensures c.SlotStart(slot) == timestamp
  {
    if c.firstBlock.None? {
      SlotStartingAtInvertsSlotStart(c, timestamp, slot);
      StartIsExact(c, slot);
      StartIsExact(c, slot + 1);
      assert (slot + 1) * c.seconds == slot * c.seconds + c.seconds;
    }
  }

  // ------------------------------------------------------------ op-stack chains

  datatype OpStack = OpStack(blockTime: U64, firstBlock: U64, firstBlockTime: U64, forks: seq<(string, U64)>) {

    function Activation(forks: seq<(string, U64)>, fork: string): Option<U64> {
      if forks == [] then None
      else if forks[0].0 == fork then Some(forks[0].1)
      else Activation(forks[1..], fork)
    }

    /** The first block of Base's Denim. */
    function DenimBlock(): Option<nat>
      requires blockTime > 0
    {
      match Activation(forks, "denim")
      case None => None
      case Some(denim) => Some(firstBlock + (SatSub(denim, firstBlockTime) + blockTime - 1) / blockTime)
    }

    /** When a block is due in whole-second slots. */
    function LegacyStart(block: nat): int
      requires firstBlock <= block
    {
      firstBlockTime + (block - firstBlock) * blockTime
    }

    function Cadence(): Schedule
      requires blockTime > 0 && (DenimBlock().Some? ==> DenimBlock().value <= U64_MAX)
    {
      Schedule(firstBlockTime, blockTime, Some(firstBlock),
               match DenimBlock() case None => None case Some(block) => Some(block))
    }
  }

  /** A fork activates when the first entry of its name says. */
  lemma {:induction false} ActivationIsTheFirst(op: OpStack, forks: seq<(string, U64)>, fork: string, time: U64)
    ensures op.Activation(forks, fork) == Some(time) <==>
            exists i :: 0 <= i < |forks| && forks[i] == (fork, time) && forall j | 0 <= j < i :: forks[j].0 != fork
    decreases |forks|
  {
    if forks != [] {
      ActivationIsTheFirst(op, forks[1..], fork, time);
      assert forall i | 0 < i < |forks| :: forks[i] == forks[1..][i - 1];
      if forks[0].0 != fork && op.Activation(forks[1..], fork) == Some(time) {
        var i :| 0 <= i < |forks[1..]| && forks[1..][i] == (fork, time) && forall j | 0 <= j < i :: forks[1..][j].0 != fork;
        assert forks[i + 1] == (fork, time);
      }
    }
  }

  /** Denim's first block is the least one whose whole-second slot starts at or
      after its activation, so the fast regime always starts on the schedule. */
  lemma DenimBlockIsLeast(op: OpStack, block: nat)
    requires op.blockTime > 0 && op.Activation(op.forks, "denim").Some? && op.firstBlock <= block
    ensures op.firstBlock <= op.DenimBlock().value
    ensures op.DenimBlock().value <= block <==> op.LegacyStart(block) >= op.Activation(op.forks, "denim").value
  {
    var since := SatSub(op.Activation(op.forks, "denim").value, op.firstBlockTime);
    var k := block - op.firstBlock;
    var ceil := (since + op.blockTime - 1) / op.blockTime;
    DivisionBound(since + op.blockTime - 1, k + 1, op.blockTime);
    assert (k + 1) * op.blockTime == k * op.blockTime + op.blockTime;
  }

  /** A block that is the least one due at or after `activation` is due less than
      one block time after it, unless the chain itself starts later. */
  lemma LeastBlockIsPrompt(op: OpStack, activation: U64, fast: nat)
    requires op.blockTime > 0 && op.firstBlock <= fast && op.LegacyStart(fast) >= activation
    requires fast > op.firstBlock ==> op.LegacyStart(fast - 1) < activation
    ensures activation >= op.firstBlockTime ==> activation <= op.LegacyStart(fast) < activation + op.blockTime
    ensures activation < op.firstBlockTime ==> op.LegacyStart(fast) == op.firstBlockTime
  {
    if fast > op.firstBlock {
      PreviousSlot(op, fast);
      NotBeforeFirst(op, fast - 1);
    } else {
      FirstIsOnTime(op);
    }
  }

  lemma FirstIsOnTime(op: OpStack)
    ensures op.LegacyStart(op.firstBlock) == op.firstBlockTime
  {
  }

  lemma NotBeforeFirst(op: OpStack, block: nat)
    requires op.firstBlock <= block
    ensures op.LegacyStart(block) >= op.firstBlockTime
  {
    MulMonotone(0, block - op.firstBlock, op.blockTime);
  }

  lemma SwitchSecond(op: OpStack)
    requires op.blockTime > 0 && op.DenimBlock().Some? && op.DenimBlock().value <= U64_MAX
    requires op.Cadence().Holds(op.DenimBlock().value)
    ensures op.firstBlock <= op.DenimBlock().value
    ensures op.Cadence().SlotStart(op.DenimBlock().value) == op.LegacyStart(op.DenimBlock().value)
  {
    LegacySecond(op.Cadence(), op.DenimBlock().value);
  }

  /** The first fast slot starts no earlier than Denim activates and less than
      one block time after it, unless the chain itself starts later. */
  lemma FastRegimeStartsAtDenim(op: OpStack)
    requires op.blockTime > 0 && op.Activation(op.forks, "denim").Some?
    requires op.DenimBlock().value <= U64_MAX && op.Cadence().Holds(op.DenimBlock().value)
    ensures var denim := op.Activation(op.forks, "denim").value;
            var start := op.Cadence().SlotStart(op.DenimBlock().value);
            && (denim >= op.firstBlockTime ==> denim <= start < denim + op.blockTime)
            && (denim < op.firstBlockTime ==> start == op.firstBlockTime)
  {
    var fast := op.DenimBlock().value;
    SwitchSecond(op);
    DenimBlockIsLeast(op, fast);
    if fast > op.firstBlock {
      DenimBlockIsLeast(op, fast - 1);
    }
    LeastBlockIsPrompt(op, op.Activation(op.forks, "denim").value, fast);
  }

  lemma PreviousSlot(op: OpStack, block: nat)
    requires op.firstBlock < block
    ensures op.LegacyStart(block) == op.LegacyStart(block - 1) + op.blockTime
  {
    assert (block - op.firstBlock) * op.blockTime == (block - 1 - op.firstBlock) * op.blockTime + op.blockTime;
  }

  // --------------------------------------------------------------- beacon slots

  /** Beacon slots, as the beacon schedule computes them in seconds. */
  datatype Beacon = Beacon(genesisTime: U64, secondsPerSlot: U64) {

    function SlotStart(slot: U64): U64 {
      SatAdd(genesisTime, SatMul(slot, secondsPerSlot))
    }

    function SlotStartingAt(timestamp: U64): Option<U64>
      requires secondsPerSlot > 0
    {
      if timestamp < genesisTime || (timestamp - genesisTime) % secondsPerSlot != 0 then None
      else
        DivisionBound(timestamp - genesisTime, 0, secondsPerSlot);
        assert (timestamp - genesisTime) / secondsPerSlot <= timestamp - genesisTime;
        Some((timestamp - genesisTime) / secondsPerSlot)
    }

    function SlotAt(timestamp: U64): nat
      requires secondsPerSlot > 0
    {
      SatSub(timestamp, genesisTime) / secondsPerSlot
    }

    function Cadence(): Schedule {
      Schedule(genesisTime, secondsPerSlot, None, None)
    }
  }

  /** The beacon schedule and its cadence agree on every slot and second whose
      milliseconds a 64-bit integer holds. */
  lemma BeaconAgreesWithCadence(b: Beacon, slot: U64, timestamp: U64)
    requires b.secondsPerSlot > 0
    ensures b.Cadence().Holds(slot) ==> b.SlotStart(slot) == b.Cadence().SlotStart(slot)
    ensures b.SlotAt(timestamp) == b.Cadence().SlotAt(timestamp)
    ensures b.SlotStartingAt(timestamp) == b.Cadence().SlotStartingAt(timestamp)
  {
    if b.Cadence().Holds(slot) {
      StartIsExact(b.Cadence(), slot);
      assert (b.genesisTime + slot * b.secondsPerSlot) * 1000 / 1000 == b.genesisTime + slot * b.secondsPerSlot;
    }
  }
}
