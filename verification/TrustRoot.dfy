/** Which trust root is in force: the choice of a start anchor, the verifiers that
    follow it, the anchor file that outlives a restart, and the fallback to the
    configured checkpoint. Light-client verification is a relation: `d(a, b)`
    says that `b` descends from `a` by verified steps. */
module TrustRoot {
  import opened MachineIntegers
  import opened Wrappers
  import opened FinalitySelection

  const SLOTS_PER_EPOCH: nat := 32

  type Root = nat

  type Descent = (Root, Root) -> bool

  ghost predicate Order(d: Descent) {
    && (forall a :: d(a, a))
    && (forall a, b, c :: d(a, b) && d(b, c) ==> d(a, c))
  }

  datatype Origin = Operator | LocallyVerified

  datatype Checkpoint = Checkpoint(root: Root, slot: Option<U64>, origin: Origin)

  /** A verified anchor and the checkpoint it was verified from. */
  datatype Persisted = Persisted(anchor: Anchor, checkpointRoot: Root)

  datatype File = Missing | Unreadable | Holds(persisted: Persisted)

  datatype AnchorFile = Disabled | ReadOnly | ReadWrite

  datatype Start = Start(root: Root, slot: Option<U64>, checkpointRoot: Root, persisted: bool)

  /** The age limit of a checkpoint and what it is measured against; `now` is
      `None` before the Unix epoch. */
  datatype Clock = Clock(genesisTime: U64, secondsPerSlot: U64, maxAge: U64, now: Option<U64>)

  datatype Config = Config(minimum: nat, endpoints: nat, anchorFile: AnchorFile)

  // ------------------------------------------------------- the start anchor

  predicate YoungEnough(clock: Clock, slot: U64) {
    clock.genesisTime + SatMul(slot, clock.secondsPerSlot) <= U64_MAX
    && clock.now.Some?
    && SatSub(clock.now.value, clock.genesisTime + SatMul(slot, clock.secondsPerSlot)) <= clock.maxAge
  }

  function Configured(checkpoint: Checkpoint): Start {
    Start(checkpoint.root, checkpoint.slot, checkpoint.root, false)
  }

  /** Whether a persisted anchor may stand in for the checkpoint. */
  predicate Applies(persisted: Persisted, checkpoint: Checkpoint) {
    var sameLineage := persisted.checkpointRoot == checkpoint.root || persisted.anchor.root == checkpoint.root;
    var notOlder := checkpoint.slot.None? || persisted.anchor.slot >= checkpoint.slot.value;
    var later := checkpoint.slot.Some? && persisted.anchor.slot > checkpoint.slot.value;
    (sameLineage && notOlder) || (checkpoint.origin.LocallyVerified? && later)
  }

  function ResolveStart(mode: AnchorFile, file: File, checkpoint: Checkpoint, clock: Clock): Start {
    if mode.Disabled? || !file.Holds? then Configured(checkpoint)
    else
      var p := file.persisted;
      if !Applies(p, checkpoint) || !YoungEnough(clock, p.anchor.slot) then Configured(checkpoint)
      else Start(p.anchor.root, Some(p.anchor.slot), p.checkpointRoot, true)
  }

  ghost predicate FileSound(d: Descent, file: File) {
    file.Holds? ==> d(file.persisted.checkpointRoot, file.persisted.anchor.root)
  }

  /** A start root always descends from the checkpoint it is attributed to; for
      an operator's checkpoint it also is, or descends from, that checkpoint,
      and a locally verified one is only replaced by a later anchor. */
  lemma StartIsTrusted(d: Descent, mode: AnchorFile, file: File, checkpoint: Checkpoint, clock: Clock)
    requires Order(d) && FileSound(d, file)
    ensures var start := ResolveStart(mode, file, checkpoint, clock);
            && d(start.checkpointRoot, start.root)
            && (checkpoint.origin.Operator? ==> d(checkpoint.root, start.root))
            && (!d(checkpoint.root, start.root) ==>
                  start.slot.Some? && checkpoint.slot.Some? && start.slot.value > checkpoint.slot.value)
            && (start.slot.Some? && checkpoint.slot.Some? ==> start.slot.value >= checkpoint.slot.value)
  {
  }

  // ------------------------------------------------------------ the verifiers

  datatype Verifier = Idle | Bootstrapping(root: Root) | Ready(finalized: Root)

  /** How one endpoint behaves during a poll. */
  datatype Answer =
    | Silent                      // its bootstrap is still in flight at the cutoff
    | BootstrapFails
    | Stops(reached: Root)        // bootstrapped and moved to `reached`, then failed or was cut off
    | Verifies(anchor: Anchor)

  /** The verifier once its bootstrap, if one is needed, succeeded. */
  function Bootstrapped(v: Verifier, bootstrapRoot: Root): Root {
    match v
    case Idle => bootstrapRoot
    case Bootstrapping(root) => root
    case Ready(finalized) => finalized
  }

  /** Advance one endpoint's verifier; the anchor it verified, if any. */
  function PollEndpoint(v: Verifier, bootstrapRoot: Root, answer: Answer): (Verifier, Option<Anchor>) {
    match answer
    case Silent => (if v.Idle? then Bootstrapping(bootstrapRoot) else v, None)
    case BootstrapFails => (if v.Ready? then v else Idle, None)
    case Stops(reached) => (Ready(reached), None)
    case Verifies(anchor) => (Ready(anchor.root), Some(anchor))
  }

  /** What verification guarantees: a verifier only moves to descendants. */
  ghost predicate GenuineAnswer(d: Descent, v: Verifier, bootstrapRoot: Root, answer: Answer) {
    match answer
    case Stops(reached) => d(Bootstrapped(v, bootstrapRoot), reached)
    case Verifies(anchor) => d(Bootstrapped(v, bootstrapRoot), anchor.root)
    case _ => true
  }

  // ----------------------------------------------------------------- the pool

  datatype Pool = Pool(checkpoint: Option<Checkpoint>, start: Option<Start>, newestAgreed: Option<Anchor>,
                       endpoints: seq<Verifier>)

  const EMPTY_POOL := Pool(None, None, None, [])

  function Restarted(checkpoint: Checkpoint, start: Start, endpoints: nat): Pool {
    Pool(Some(checkpoint), Some(start), None, seq(endpoints, _ => Idle))
  }

  predicate Follows(pool: Pool, root: Root) {
    pool.start.Some? && (pool.start.value.root == root || pool.start.value.checkpointRoot == root)
  }

  /** The pool following `checkpoint`, restarted when it follows another root. */
  function Followed(config: Config, pool: Pool, file: File, checkpoint: Checkpoint, clock: Clock): Pool {
    if Follows(pool, checkpoint.root) then pool
    else Restarted(checkpoint, ResolveStart(config.anchorFile, file, checkpoint, clock), config.endpoints)
  }

  /** The root an endpoint without a verifier bootstraps from. */
  function BootstrapRoot(pool: Pool): Root
    requires pool.start.Some?
  {
    match pool.newestAgreed case None => pool.start.value.root case Some(anchor) => anchor.root
  }

  function Advanced(endpoints: seq<Verifier>, bootstrapRoot: Root, answers: seq<Answer>): seq<Verifier>
    requires |answers| == |endpoints|
  {
    seq(|endpoints|, i requires 0 <= i < |endpoints| => PollEndpoint(endpoints[i], bootstrapRoot, answers[i]).0)
  }

  function ProbeOf(answer: Answer): Option<Anchor> {
    if answer.Verifies? then Some(answer.anchor) else None
  }

  /** The probes of the endpoints that completed, in the order they did. */
  function Completed(answers: seq<Answer>, order: seq<nat>): seq<Option<Anchor>>
    requires Completes(answers, order)
  {
    seq(|order|, k requires 0 <= k < |order| => ProbeOf(answers[order[k]]))
  }

  /** `order` lists endpoints that completed, each once; whoever verified did. */
  predicate Completes(answers: seq<Answer>, order: seq<nat>) {
    && (forall k | 0 <= k < |order| :: order[k] < |answers|)
    && (forall k, l | 0 <= k < l < |order| :: order[k] != order[l])
    && forall i | 0 <= i < |answers| && answers[i].Verifies? :: i in order
  }

  predicate IsBootstrapAnchor(anchor: Anchor) {
    anchor.slot % SLOTS_PER_EPOCH == 0
  }

  /** What a poll leaves behind once `report` selected among its probes. */
  function Polled(pool: Pool, answers: seq<Answer>, report: Report): Pool
    requires pool.start.Some? && |answers| == |pool.endpoints|
  {
    var newest :=
      if report.accepted && report.selected.Some? && IsBootstrapAnchor(report.selected.value)
         && (pool.newestAgreed.None? || report.selected.value.slot > pool.newestAgreed.value.slot)
      then report.selected else pool.newestAgreed;
    Pool(pool.checkpoint, pool.start, newest, Advanced(pool.endpoints, BootstrapRoot(pool), answers))
  }

  /** A poll's answers, the order the endpoints completed in, and the report
      selected from them. */
  datatype Round = Round(answers: seq<Answer>, order: seq<nat>, report: Report)

  /** The report is what the rule selects from the completed probes. */
  ghost predicate Reports(config: Config, round: Round) {
    && Completes(round.answers, round.order)
    && var anchors := Verified(Completed(round.answers, round.order));
    && Selects(anchors, config.minimum, round.report.selected)
    && (round.report.accepted <==> round.report.selected.Some? && !Conflicting(anchors))
  }

  ghost predicate GenuineRound(d: Descent, config: Config, pool: Pool, round: Round)
    requires pool.start.Some?
  {
    && |round.answers| == |pool.endpoints|
    && (forall i | 0 <= i < |pool.endpoints| :: GenuineAnswer(d, pool.endpoints[i], BootstrapRoot(pool), round.answers[i]))
    && Reports(config, round)
  }

  predicate VerifiedAny(answers: seq<Answer>) {
    exists i | 0 <= i < |answers| :: answers[i].Verifies?
  }

  /** Whether a call leaves its persisted start for the configured checkpoint:
      nothing verified from the start, and something did from the checkpoint. */
  predicate TriesCheckpoint(start: Start, first: Round) {
    !first.report.accepted && start.persisted && !VerifiedAny(first.answers)
  }

  predicate FallsBack(start: Start, first: Round, second: Round) {
    TriesCheckpoint(start, first) && (second.report.accepted || VerifiedAny(second.answers))
  }

  datatype Outcome = Outcome(pool: Pool, report: Report, start: Start)

  /** Follow `checkpoint` and poll once, or once more after a fallback. */
  function StartAndPoll(config: Config, pool: Pool, file: File, checkpoint: Checkpoint, clock: Clock, first: Round, second: Round)
    : Outcome
    requires pool.start.Some? ==> |pool.endpoints| == config.endpoints
    requires |first.answers| == |second.answers| == config.endpoints
  {
    var followed := Followed(config, pool, file, checkpoint, clock);
    var start := followed.start.value;
    if !TriesCheckpoint(start, first) then Outcome(Polled(followed, first.answers, first.report), first.report, start)
    else
      var configured := match followed.checkpoint case None => checkpoint case Some(c) => c;
      var fallback := Restarted(configured, Configured(configured), config.endpoints);
      if second.report.accepted || VerifiedAny(second.answers) then
        Outcome(Polled(fallback, second.answers, second.report), second.report, Configured(configured))
      else Outcome(Restarted(configured, start, config.endpoints), first.report, start)
  }

  // ------------------------------------------------------------ the anchor file

  /** Replace the file unless it holds an anchor at the same or a newer slot. */
  function PersistFile(file: File, write: Persisted): File {
    if file.Holds? && file.persisted.anchor.slot >= write.anchor.slot then file else Holds(write)
  }

  datatype Writer = Writer(file: File, persistedSlot: Option<U64>)

  /** How a write ends: it may fail before the file is replaced, or after. */
  datatype Io = Done | Failed | FailedAfterRename

  /** One write of the anchor writer: only to a writable file, only epoch-aligned
      anchors newer than any it remembers; it remembers a write that succeeds. */
  function PersistThrough(config: Config, w: Writer, write: Persisted, io: Io): Writer {
    if !config.anchorFile.ReadWrite? || !IsBootstrapAnchor(write.anchor)
       || (w.persistedSlot.Some? && write.anchor.slot <= w.persistedSlot.value) || io.Failed? then w
    else Writer(PersistFile(w.file, write), if io.Done? then Some(write.anchor.slot) else w.persistedSlot)
  }

  // ------------------------------------------------------------- whole lives

  /** A node: its pool, its writer, and the accepted anchors not yet written. */
  datatype System = System(pool: Pool, writer: Writer, pending: seq<Persisted>)

  datatype Event =
    | Started(checkpoint: Checkpoint, clock: Clock, first: Round, second: Round)
    | PolledAgain(round: Round)
    | Write(i: nat, io: Io)
    | Reboot
    | Damage(file: File)          // something else removes or corrupts the file

  function Queue(pending: seq<Persisted>, report: Report, start: Start): seq<Persisted> {
    if report.accepted && report.selected.Some?
    then pending + [Persisted(report.selected.value, start.checkpointRoot)] else pending
  }

  ghost predicate Possible(d: Descent, config: Config, s: System, e: Event) {
    match e
    case Started(checkpoint, clock, first, second) =>
      var followed := Followed(config, s.pool, s.writer.file, checkpoint, clock);
      && (s.pool.start.Some? ==> |s.pool.endpoints| == config.endpoints)
      && |first.answers| == |second.answers| == config.endpoints
      && followed.start.Some? && GenuineRound(d, config, followed, first)
      && var configured := match followed.checkpoint case None => checkpoint case Some(c) => c;
      && (TriesCheckpoint(followed.start.value, first) ==>
            GenuineRound(d, config, Restarted(configured, Configured(configured), config.endpoints), second))
    case PolledAgain(round) => s.pool.start.Some? && GenuineRound(d, config, s.pool, round)
    case Write(i, _) => i < |s.pending|
    case Reboot => true
    case Damage(file) => !file.Holds?
  }

  ghost function Step(d: Descent, config: Config, s: System, e: Event): System
    requires Possible(d, config, s, e)
  {
    match e
    case Started(checkpoint, clock, first, second) =>
      var o := StartAndPoll(config, s.pool, s.writer.file, checkpoint, clock, first, second);
      System(o.pool, s.writer, Queue(s.pending, o.report, o.start))
    case PolledAgain(round) =>
      System(Polled(s.pool, round.answers, round.report), s.writer, Queue(s.pending, round.report, s.pool.start.value))
    case Write(i, io) =>
      System(s.pool, PersistThrough(config, s.writer, s.pending[i], io), s.pending[..i] + s.pending[i + 1..])
    case Reboot => System(EMPTY_POOL, Writer(s.writer.file, None), [])
    case Damage(file) => s.(writer := s.writer.(file := file))
  }

  // -------------------------------------------------------------- invariants

  ghost predicate PoolSound(d: Descent, config: Config, pool: Pool) {
    pool.start.Some? ==>
      var start := pool.start.value;
      && pool.checkpoint.Some? && |pool.endpoints| == config.endpoints
      && d(start.checkpointRoot, start.root)
      && (pool.newestAgreed.Some? ==> d(start.root, pool.newestAgreed.value.root))
      && forall i | 0 <= i < |pool.endpoints| :: VerifierSound(d, start.root, pool.endpoints[i])
  }

  ghost predicate VerifierSound(d: Descent, root: Root, v: Verifier) {
    match v
    case Idle => true
    case Bootstrapping(r) => d(root, r)
    case Ready(finalized) => d(root, finalized)
  }

  ghost predicate Sound(d: Descent, config: Config, s: System) {
    && PoolSound(d, config, s.pool)
    && FileSound(d, s.writer.file)
    && forall p | p in s.pending :: d(p.checkpointRoot, p.anchor.root)
  }

  lemma {:induction false} VerifiedFromProbes(probes: seq<Option<Anchor>>, a: Anchor)
    ensures a in Verified(probes) <==> Some(a) in probes
  {
    if probes != [] {
      VerifiedFromProbes(probes[1..], a);
      assert probes == [probes[0]] + probes[1..];
    }
  }

  lemma SelectedFrom(config: Config, round: Round) returns (i: nat)
    requires Reports(config, round) && round.report.selected.Some?
    ensures i < |round.answers| && round.answers[i] == Verifies(round.report.selected.value)
  {
    var s := round.report.selected.value;
    var completed := Completed(round.answers, round.order);
    assert s in AtSlot(Verified(completed), s.slot);
    VerifiedFromProbes(completed, s);
    var k :| 0 <= k < |completed| && completed[k] == Some(s);
    i := round.order[k];
    assert ProbeOf(round.answers[i]) == Some(s);
  }

  /** Whatever a genuine poll selects descends from the pool's start root. */
  lemma SelectedDescends(d: Descent, config: Config, pool: Pool, round: Round)
    requires Order(d) && pool.start.Some? && PoolSound(d, config, pool) && GenuineRound(d, config, pool, round)
    requires round.report.selected.Some?
    ensures d(pool.start.value.root, round.report.selected.value.root)
  {
    var i := SelectedFrom(config, round);
    assert GenuineAnswer(d, pool.endpoints[i], BootstrapRoot(pool), round.answers[i]);
    assert VerifierSound(d, pool.start.value.root, pool.endpoints[i]);
  }

  lemma PolledSound(d: Descent, config: Config, pool: Pool, round: Round)
    requires Order(d) && pool.start.Some? && PoolSound(d, config, pool) && GenuineRound(d, config, pool, round)
    ensures PoolSound(d, config, Polled(pool, round.answers, round.report))
    ensures round.report.accepted ==> d(pool.start.value.checkpointRoot, round.report.selected.value.root)
  {
    if round.report.selected.Some? {
      SelectedDescends(d, config, pool, round);
    }
    var root := pool.start.value.root;
    var after := Polled(pool, round.answers, round.report);
    forall i | 0 <= i < |after.endpoints| ensures VerifierSound(d, root, after.endpoints[i]) {
      assert VerifierSound(d, root, pool.endpoints[i]);
      assert GenuineAnswer(d, pool.endpoints[i], BootstrapRoot(pool), round.answers[i]);
    }
  }

  lemma FollowedSound(d: Descent, config: Config, pool: Pool, file: File, checkpoint: Checkpoint, clock: Clock)
    requires Order(d) && PoolSound(d, config, pool) && FileSound(d, file)
    ensures var followed := Followed(config, pool, file, checkpoint, clock);
            && followed.start.Some? && PoolSound(d, config, followed)
            && (checkpoint.origin.Operator? ==> d(checkpoint.root, followed.start.value.root))
            && (!Follows(pool, checkpoint.root) ==> followed.checkpoint == Some(checkpoint))
  {
    StartIsTrusted(d, config.anchorFile, file, checkpoint, clock);
  }

  lemma StartAndPollSound(d: Descent, config: Config, s: System, e: Event)
    requires Order(d) && Sound(d, config, s) && e.Started? && Possible(d, config, s, e)
    ensures Sound(d, config, Step(d, config, s, e))
  {
    FollowedSound(d, config, s.pool, s.writer.file, e.checkpoint, e.clock);
    var followed := Followed(config, s.pool, s.writer.file, e.checkpoint, e.clock);
    PolledSound(d, config, followed, e.first);
    if TriesCheckpoint(followed.start.value, e.first) {
      var fallback := Restarted(followed.checkpoint.value, Configured(followed.checkpoint.value), config.endpoints);
      PolledSound(d, config, fallback, e.second);
    }
  }

  /** Over every run of startups, polls, writes, fallbacks, reboots and damage:
      the pool's verifiers descend from its start root, the start root from the
      checkpoint it is attributed to, and the anchor in the file, like every
      anchor on its way there, from the checkpoint root stored beside it. */
  lemma StepSound(d: Descent, config: Config, s: System, e: Event)
    requires Order(d) && Sound(d, config, s) && Possible(d, config, s, e)
    ensures Sound(d, config, Step(d, config, s, e))
  {
    match e
    case Started(_, _, _, _) => StartAndPollSound(d, config, s, e);
    case PolledAgain(round) => PolledSound(d, config, s.pool, round);
    case _ =>
  }

  /** Every startup names the operator's checkpoint root `r`. */
  ghost predicate NamesOnly(r: Root, e: Event) {
    e.Started? ==> e.checkpoint.origin.Operator? && e.checkpoint.root == r
  }

  /** The root in force is `r` or descends from it. */
  ghost predicate TrustsOnly(d: Descent, r: Root, s: System) {
    s.pool.start.Some? ==> d(r, s.pool.start.value.root) && s.pool.checkpoint.Some? && s.pool.checkpoint.value.root == r
  }

  lemma StepTrusts(d: Descent, config: Config, r: Root, s: System, e: Event)
    requires Order(d) && Sound(d, config, s) && Possible(d, config, s, e)
    requires NamesOnly(r, e) && TrustsOnly(d, r, s)
    ensures TrustsOnly(d, r, Step(d, config, s, e))
  {
    if e.Started? {
      FollowedSound(d, config, s.pool, s.writer.file, e.checkpoint, e.clock);
    }
  }

  ghost predicate Run(d: Descent, config: Config, states: seq<System>, events: seq<Event>) {
    && |states| == |events| + 1
    && states[0].pool == EMPTY_POOL && states[0].writer.persistedSlot.None? && states[0].pending == []
    && forall i | 0 <= i < |events| ::
         Possible(d, config, states[i], events[i]) && states[i + 1] == Step(d, config, states[i], events[i])
  }

  /** With one operator checkpoint, over every run from a sound file: the start
      root in force is that checkpoint or descends from it by verified steps, and
      the file's anchor always descends from its own checkpoint root. */
  lemma {:induction false} OperatorRootStaysInForce(d: Descent, config: Config, r: Root,
                                                    states: seq<System>, events: seq<Event>, n: nat)
    requires Order(d) && Run(d, config, states, events) && n <= |events|
    requires FileSound(d, states[0].writer.file)
    requires forall i | 0 <= i < |events| :: NamesOnly(r, events[i])
    ensures Sound(d, config, states[n]) && TrustsOnly(d, r, states[n])
    decreases n
  {
    if n > 0 {
      OperatorRootStaysInForce(d, config, r, states, events, n - 1);
      assert Possible(d, config, states[n - 1], events[n - 1]) && states[n] == Step(d, config, states[n - 1], events[n - 1]);
      StepSound(d, config, states[n - 1], events[n - 1]);
      StepTrusts(d, config, r, states[n - 1], events[n - 1]);
    }
  }

  // ---------------------------------------------------- the fallback, exactly

  /** When calls name different checkpoints: after one for an operator's
      checkpoint the start root is that checkpoint or descends from it, unless
      the call fell back; then it is the checkpoint the pool was started for, so
      it is trusted exactly when that one is. */
  lemma FallbackNamesThePoolsCheckpoint(d: Descent, config: Config, s: System, e: Event)
    requires Order(d) && Sound(d, config, s) && e.Started? && Possible(d, config, s, e)
    requires e.checkpoint.origin.Operator?
    ensures var followed := Followed(config, s.pool, s.writer.file, e.checkpoint, e.clock);
            var o := StartAndPoll(config, s.pool, s.writer.file, e.checkpoint, e.clock, e.first, e.second);
            d(e.checkpoint.root, o.start.root) <==>
            !FallsBack(followed.start.value, e.first, e.second) || d(e.checkpoint.root, followed.checkpoint.value.root)
  {
    FollowedSound(d, config, s.pool, s.writer.file, e.checkpoint, e.clock);
  }

  /** A subscription refuses what it cannot attribute: it goes on only when the
      start root is the requested one, or is a persisted anchor; then the start
      root is always trusted. */
  lemma SubscribedRootIsTrusted(d: Descent, config: Config, s: System, e: Event)
    requires Order(d) && Sound(d, config, s) && e.Started? && Possible(d, config, s, e)
    requires e.checkpoint.origin.Operator?
    requires var o := StartAndPoll(config, s.pool, s.writer.file, e.checkpoint, e.clock, e.first, e.second);
             e.checkpoint.root == o.start.root || o.start.persisted
    ensures var o := StartAndPoll(config, s.pool, s.writer.file, e.checkpoint, e.clock, e.first, e.second);
            d(e.checkpoint.root, o.start.root)
  {
    FollowedSound(d, config, s.pool, s.writer.file, e.checkpoint, e.clock);
  }

  /** What a caller can tell before the call: whatever the endpoints answer, the
      start root will be trusted exactly if the pool will follow a start that is
      not persisted, or the checkpoint it falls back to is trusted. */
  lemma TrustedWhateverTheAnswers(d: Descent, config: Config, s: System, checkpoint: Checkpoint, clock: Clock)
    requires Order(d) && Sound(d, config, s) && checkpoint.origin.Operator? && config.endpoints > 0
    ensures var followed := Followed(config, s.pool, s.writer.file, checkpoint, clock);
            (forall first, second | Possible(d, config, s, Started(checkpoint, clock, first, second)) ::
               d(checkpoint.root, StartAndPoll(config, s.pool, s.writer.file, checkpoint, clock, first, second).start.root))
            <==> !followed.start.value.persisted || d(checkpoint.root, followed.checkpoint.value.root)
  {
    FollowedSound(d, config, s.pool, s.writer.file, checkpoint, clock);
    var followed := Followed(config, s.pool, s.writer.file, checkpoint, clock);
    if !followed.start.value.persisted || d(checkpoint.root, followed.checkpoint.value.root) {
      forall first, second | Possible(d, config, s, Started(checkpoint, clock, first, second))
        ensures d(checkpoint.root, StartAndPoll(config, s.pool, s.writer.file, checkpoint, clock, first, second).start.root)
      {
        FallbackNamesThePoolsCheckpoint(d, config, s, Started(checkpoint, clock, first, second));
      }
    } else {
      var first := NobodyAnswers(d, config, followed);
      var second := OneVerifies(d, config, followed.checkpoint.value);
      assert Possible(d, config, s, Started(checkpoint, clock, first, second));
      assert FallsBack(followed.start.value, first, second);
    }
  }

  lemma NobodyAnswers(d: Descent, config: Config, pool: Pool) returns (round: Round)
    requires pool.start.Some? && |pool.endpoints| == config.endpoints
    ensures GenuineRound(d, config, pool, round) && !round.report.accepted && !VerifiedAny(round.answers)
  {
    round := Round(seq(config.endpoints, _ => BootstrapFails), [], Report(false, None, 0));
    assert Verified(Completed(round.answers, [])) == [];
  }

  lemma OneVerifies(d: Descent, config: Config, checkpoint: Checkpoint) returns (round: Round)
    requires Order(d) && config.endpoints > 0
    ensures GenuineRound(d, config, Restarted(checkpoint, Configured(checkpoint), config.endpoints), round)
    ensures VerifiedAny(round.answers)
  {
    var anchor := Anchor(0, checkpoint.root, 0, 0);
    var answers := seq(config.endpoints, i => if i == 0 then Verifies(anchor) else BootstrapFails);
    var selected := if config.minimum <= 1 then Some(anchor) else None;
    round := Round(answers, [0], Report(selected.Some?, selected, 0));
    assert answers[0] == Verifies(anchor);
    assert Completes(answers, [0]) && ProbeOf(answers[0]) == Some(anchor);
    assert Completed(answers, [0]) == [Some(anchor)];
    OneProbe(config, anchor, selected);
  }

  lemma OneProbe(config: Config, anchor: Anchor, selected: Option<Anchor>)
    requires selected == if config.minimum <= 1 then Some(anchor) else None
    ensures Selects(Verified([Some(anchor)]), config.minimum, selected) && !Conflicting(Verified([Some(anchor)]))
  {
    assert [Some(anchor)][1..] == [];
    assert Verified([Some(anchor)]) == [anchor];
    assert [anchor][..0] == [];
    assert CountFrom([anchor], anchor.slot) == 1;
    assert forall a | a in [anchor] :: a == anchor;
  }

  /** The untrusted case does happen: a pool started for checkpoint 0 from a
      persisted anchor 1 is asked to follow 1, finds nothing there, and falls
      back to 0, which does not descend from 1. */
  lemma FallbackCanLeaveTheRequestedRoot()
    ensures var d: Descent := (a, b) => a <= b;
            var config := Config(1, 1, ReadOnly);
            var pool := Restarted(Checkpoint(0, Some(0), Operator), Start(1, Some(32), 0, true), 1);
            var s := System(pool, Writer(Missing, None), []);
            var requested := Checkpoint(1, Some(32), Operator);
            && Order(d) && Sound(d, config, s)
            && exists first, second ::
                 && Possible(d, config, s, Started(requested, Clock(0, 12, 0, None), first, second))
                 && var o := StartAndPoll(config, pool, Missing, requested, Clock(0, 12, 0, None), first, second);
                 !d(requested.root, o.start.root)
  {
    var d: Descent := (a, b) => a <= b;
    var config := Config(1, 1, ReadOnly);
    var pool := Restarted(Checkpoint(0, Some(0), Operator), Start(1, Some(32), 0, true), 1);
    var s := System(pool, Writer(Missing, None), []);
    var requested := Checkpoint(1, Some(32), Operator);
    TrustedWhateverTheAnswers(d, config, s, requested, Clock(0, 12, 0, None));
  }

  // ------------------------------------------------------------ the file's slot

  /** What the writer remembers is never ahead of a file nobody else touches. */
  ghost predicate RemembersFile(w: Writer) {
    w.persistedSlot.Some? ==> w.file.Holds? && w.persistedSlot.value <= w.file.persisted.anchor.slot
  }

  ghost predicate FileNotBehind(before: File, after: File) {
    before.Holds? ==>
      after.Holds? && (after == before || before.persisted.anchor.slot < after.persisted.anchor.slot)
  }

  /** While nothing else damages the file, a readable anchor is only ever
      replaced by one at a later slot, through reboots as well. */
  lemma {:induction false} FileSlotNeverDecreases(d: Descent, config: Config,
                                                  states: seq<System>, events: seq<Event>, m: nat, n: nat)
    requires Run(d, config, states, events) && m <= n <= |events|
    requires forall i | 0 <= i < |events| :: !events[i].Damage?
    ensures RemembersFile(states[n].writer) && FileNotBehind(states[m].writer.file, states[n].writer.file)
    decreases n
  {
    if n > 0 {
      assert states[n] == Step(d, config, states[n - 1], events[n - 1]);
      FileSlotNeverDecreases(d, config, states, events, if m < n then m else n - 1, n - 1);
    }
  }

  /** The writer's remembered slot only saves reading the file: with it or
      without it the same anchors reach a file nobody else touches. */
  lemma RememberedSlotChangesNothing(config: Config, w: Writer, write: Persisted)
    requires RemembersFile(w)
    ensures PersistThrough(config, w, write, Done).file ==
            if config.anchorFile.ReadWrite? && IsBootstrapAnchor(write.anchor) then PersistFile(w.file, write) else w.file
    ensures forall io :: RemembersFile(PersistThrough(config, w, write, io))
  {
  }

  /** A restart resumes where the writer left off: a newer anchor verified from the
      checkpoint, once written, is the next start for that checkpoint, until it
      is too old; then it is the checkpoint itself. */
  lemma RestartResumesFromWrite(config: Config, w: Writer, write: Persisted, io: Io, checkpoint: Checkpoint, clock: Clock)
    requires !io.Failed?
    requires config.anchorFile.ReadWrite? && IsBootstrapAnchor(write.anchor) && RemembersFile(w)
    requires w.file.Holds? ==> w.file.persisted.anchor.slot < write.anchor.slot
    requires write.checkpointRoot == checkpoint.root
    requires checkpoint.slot.Some? ==> write.anchor.slot >= checkpoint.slot.value
    ensures ResolveStart(config.anchorFile, PersistThrough(config, w, write, io).file, checkpoint, clock) ==
            if YoungEnough(clock, write.anchor.slot)
            then Start(write.anchor.root, Some(write.anchor.slot), checkpoint.root, true)
            else Configured(checkpoint)
  {
  }

  /** Once something else damaged the file, the remembered slot does matter: the
      file stays damaged exactly until an anchor newer than it arrives. */
  lemma DamagedFileWaitsForNewer(config: Config, w: Writer, write: Persisted)
    requires config.anchorFile.ReadWrite? && IsBootstrapAnchor(write.anchor) && !w.file.Holds?
    ensures PersistThrough(config, w, write, Done).file.Holds? <==>
            w.persistedSlot.None? || write.anchor.slot > w.persistedSlot.value
  {
  }
}
