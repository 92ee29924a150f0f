/** What a verifier pool carries from one poll or call to the next: the start it
    follows, the newest agreed anchor, and what each endpoint has reached. */
module PoolProgress {
  import opened MachineIntegers
  import opened Wrappers
  import opened FinalitySelection
  import opened TrustRoot

  // ------------------------------------------------------------ between calls

  predicate Sized(config: Config, pool: Pool) {
    pool.start.Some? ==> |pool.endpoints| == config.endpoints
  }

  predicate Answers(config: Config, round: Round) {
    |round.answers| == config.endpoints
  }

  /** A call leaves the pool on the start it reports: the one it began with, or,
      if it fell back, the pool's checkpoint. */
  lemma CallLeavesItsStart(config: Config, pool: Pool, file: File, checkpoint: Checkpoint, clock: Clock, first: Round, second: Round)
    requires Sized(config, pool) && Answers(config, first) && Answers(config, second)
    ensures var followed := Followed(config, pool, file, checkpoint, clock);
            var o := StartAndPoll(config, pool, file, checkpoint, clock, first, second);
            && o.pool.start == Some(o.start) && Sized(config, o.pool)
            && (FallsBack(followed.start.value, first, second) <==>
                && followed.start.value.persisted && !first.report.accepted
                && (forall i | 0 <= i < |first.answers| :: !first.answers[i].Verifies?)
                && (second.report.accepted || exists i :: 0 <= i < |second.answers| && second.answers[i].Verifies?))
            && (!FallsBack(followed.start.value, first, second) ==> Some(o.start) == followed.start)
            && (FallsBack(followed.start.value, first, second) ==>
                  !o.start.persisted
                  && o.start.root == (match followed.checkpoint case None => checkpoint.root case Some(c) => c.root))
  {
  }

  /** An outage changes no start: after a call in which the endpoints verified
      nothing, neither from its persisted start nor from the checkpoint, every
      endpoint bootstraps again from the start the call began with. */
  lemma OutageKeepsTheStart(config: Config, pool: Pool, file: File, checkpoint: Checkpoint, clock: Clock, first: Round, second: Round)
    requires Sized(config, pool) && Answers(config, first) && Answers(config, second)
    requires var start := Followed(config, pool, file, checkpoint, clock).start.value;
             TriesCheckpoint(start, first) && !FallsBack(start, first, second)
    ensures var start := Followed(config, pool, file, checkpoint, clock).start.value;
            var o := StartAndPoll(config, pool, file, checkpoint, clock, first, second);
            && o.pool.start == Some(start) && BootstrapRoot(o.pool) == start.root
            && forall i | 0 <= i < |o.pool.endpoints| :: o.pool.endpoints[i] == Idle
  {
  }

  /** The start that the next call for the same checkpoint polls from is the one
      this call reports exactly when the pool still follows that checkpoint, or the
      start would be chosen again; for an operator's checkpoint and a call that did
      not fall back it always is, whatever became of the file and the clock. */
  lemma NextCallGoesOn(config: Config, pool: Pool, file: File, checkpoint: Checkpoint, clock: Clock, first: Round, second: Round,
                       file': File, clock': Clock)
    requires Sized(config, pool) && Answers(config, first) && Answers(config, second)
    ensures var began := Followed(config, pool, file, checkpoint, clock).start.value;
            var o := StartAndPoll(config, pool, file, checkpoint, clock, first, second);
            var next := Followed(config, o.pool, file', checkpoint, clock');
            && (next.start == Some(o.start) <==>
                || checkpoint.root in {o.start.root, o.start.checkpointRoot}
                || ResolveStart(config.anchorFile, file', checkpoint, clock') == o.start)
            && (checkpoint.origin.Operator? && !FallsBack(began, first, second) ==> next == o.pool && next.start == Some(began))
  {
  }

  /** So an operator's checkpoint outlives an outage: the first call in which an
      endpoint verifies something again reports the start from before it. */
  lemma OutageIsOvercome(config: Config, pool: Pool, file: File, checkpoint: Checkpoint, clock: Clock, first: Round, second: Round,
                         file': File, clock': Clock, first': Round, second': Round)
    requires Sized(config, pool) && checkpoint.origin.Operator?
    requires Answers(config, first) && Answers(config, second) && Answers(config, first') && Answers(config, second')
    requires var start := Followed(config, pool, file, checkpoint, clock).start.value;
             TriesCheckpoint(start, first) && !FallsBack(start, first, second)
    requires VerifiedAny(first'.answers)
    ensures var outage := StartAndPoll(config, pool, file, checkpoint, clock, first, second);
            var o := StartAndPoll(config, outage.pool, file', checkpoint, clock', first', second');
            Some(o.start) == Followed(config, pool, file, checkpoint, clock).start && o.report == first'.report
  {
    NextCallGoesOn(config, pool, file, checkpoint, clock, first, second, file', clock');
  }

  // ------------------------------------------------------------ between polls

  /** The pool after one poll after another. */
  function PolledAll(pool: Pool, rounds: seq<Round>): (after: Pool)
    requires pool.start.Some? && forall i | 0 <= i < |rounds| :: |rounds[i].answers| == |pool.endpoints|
    ensures after.start == pool.start && |after.endpoints| == |pool.endpoints|
    decreases |rounds|
  {
    if rounds == [] then pool else PolledAll(Polled(pool, rounds[0].answers, rounds[0].report), rounds[1..])
  }

  /** A poll that agreed on an anchor verifiers can bootstrap from. */
  predicate Agrees(round: Round) {
    round.report.accepted && round.report.selected.Some? && round.report.selected.value.slot % SLOTS_PER_EPOCH == 0
  }

  /** The pool's newest agreed anchor is the newest of all its polls agreed on, the
      first of them if several have its slot. */
  lemma {:induction false} NewestAgreedIsNewest(pool: Pool, rounds: seq<Round>)
    requires pool.start.Some? && forall i | 0 <= i < |rounds| :: |rounds[i].answers| == |pool.endpoints|
    ensures var newest := PolledAll(pool, rounds).newestAgreed;
            && (forall i | 0 <= i < |rounds| && Agrees(rounds[i]) ::
                  newest.Some? && rounds[i].report.selected.value.slot <= newest.value.slot)
            && (pool.newestAgreed.Some? ==> newest.Some? && pool.newestAgreed.value.slot <= newest.value.slot)
            && (newest == pool.newestAgreed || exists i ::
                  && 0 <= i < |rounds| && Agrees(rounds[i]) && rounds[i].report.selected == newest
                  && (pool.newestAgreed.Some? ==> pool.newestAgreed.value.slot < newest.value.slot)
                  && forall j | 0 <= j < i && Agrees(rounds[j]) :: rounds[j].report.selected.value.slot < newest.value.slot)
    decreases |rounds|
  {
    if rounds != [] {
      var next := Polled(pool, rounds[0].answers, rounds[0].report);
      NewestAgreedIsNewest(next, rounds[1..]);
      var newest := PolledAll(pool, rounds).newestAgreed;
      assert forall i | 0 < i < |rounds| :: rounds[i] == rounds[1..][i - 1];
      if newest != next.newestAgreed {
        var i :| 0 <= i < |rounds[1..]| && Agrees(rounds[1..][i]) && rounds[1..][i].report.selected == newest
          && (next.newestAgreed.Some? ==> next.newestAgreed.value.slot < newest.value.slot)
          && forall j | 0 <= j < i && Agrees(rounds[1..][j]) :: rounds[1..][j].report.selected.value.slot < newest.value.slot;
        assert rounds[i + 1] == rounds[1..][i];
      }
    }
  }

  /** The last root an endpoint's answers reached. */
  function LastReached(root: Root, rounds: seq<Round>, k: nat): Root
    requires forall i | 0 <= i < |rounds| :: k < |rounds[i].answers|
    decreases |rounds|
  {
    if rounds == [] then root
    else
      match rounds[|rounds| - 1].answers[k]
      case Stops(reached) => reached
      case Verifies(anchor) => anchor.root
      case _ => LastReached(root, rounds[..|rounds| - 1], k)
  }

  /** An endpoint bootstraps once: from then on its verifier is where its latest
      answer left it, through polls that fail. */
  lemma {:induction false} ReadyStaysReady(pool: Pool, rounds: seq<Round>, k: nat)
    requires pool.start.Some? && forall i | 0 <= i < |rounds| :: |rounds[i].answers| == |pool.endpoints|
    requires k < |pool.endpoints| && pool.endpoints[k].Ready?
    ensures PolledAll(pool, rounds).endpoints[k] == Ready(LastReached(pool.endpoints[k].finalized, rounds, k))
    decreases |rounds|
  {
    if rounds != [] {
      var next := Polled(pool, rounds[0].answers, rounds[0].report);
      ReadyStaysReady(next, rounds[1..], k);
      ReachedFirst(pool.endpoints[k].finalized, rounds, k);
    }
  }

  lemma {:induction false} ReachedFirst(root: Root, rounds: seq<Round>, k: nat)
    requires rounds != [] && forall i | 0 <= i < |rounds| :: k < |rounds[i].answers|
    ensures LastReached(root, rounds, k) == LastReached(LastReached(root, [rounds[0]], k), rounds[1..], k)
    decreases |rounds|
  {
    var init := rounds[..|rounds| - 1];
    if init != [] {
      ReachedFirst(root, init, k);
      assert init[1..] == rounds[1..][..|rounds| - 2] && init[0] == rounds[0];
    } else {
      assert rounds == [rounds[0]];
    }
  }

  /** A bootstrap still in flight is left alone: it keeps the root it began with,
      whatever is agreed meanwhile. */
  lemma {:induction false} InFlightKeepsItsRoot(pool: Pool, rounds: seq<Round>, k: nat)
    requires pool.start.Some? && forall i | 0 <= i < |rounds| :: |rounds[i].answers| == |pool.endpoints|
    requires k < |pool.endpoints| && !pool.endpoints[k].Ready? && rounds != []
    requires forall i | 0 <= i < |rounds| :: rounds[i].answers[k] == Silent
    ensures PolledAll(pool, rounds).endpoints[k] == Bootstrapping(Bootstrapped(pool.endpoints[k], BootstrapRoot(pool)))
    decreases |rounds|
  {
    var next := Polled(pool, rounds[0].answers, rounds[0].report);
    if |rounds| > 1 {
      InFlightKeepsItsRoot(next, rounds[1..], k);
    } else {
      assert rounds[1..] == [];
    }
  }

  // -------------------------------------------------- when an anchor is used

  /** A young enough anchor in the file is the start of its own lineage's
      checkpoint unless that is later, and of a locally verified checkpoint also
      whenever it is later itself; nothing else is. */
  lemma AnchorReplacesCheckpoint(mode: AnchorFile, persisted: Persisted, checkpoint: Checkpoint, clock: Clock)
    requires !mode.Disabled? && YoungEnough(clock, persisted.anchor.slot)
    ensures var start := ResolveStart(mode, Holds(persisted), checkpoint, clock);
            var own := checkpoint.root in {persisted.checkpointRoot, persisted.anchor.root};
            && (start.persisted ==> start.root == persisted.anchor.root && start.checkpointRoot == persisted.checkpointRoot)
            && (!start.persisted ==> start.root == checkpoint.root && start.checkpointRoot == checkpoint.root)
            && (checkpoint.slot.None? ==> (start.persisted <==> own))
            && (checkpoint.slot.Some? && persisted.anchor.slot < checkpoint.slot.value ==> !start.persisted)
            && (checkpoint.slot == Some(persisted.anchor.slot) ==> (start.persisted <==> own))
            && (checkpoint.slot.Some? && persisted.anchor.slot > checkpoint.slot.value ==>
                  (start.persisted <==> own || checkpoint.origin.LocallyVerified?))
  {
  }

  /** An anchor is young enough through the last second of its age, counted from
      the start of its slot, and before it; never when that start overflows the
      clock. */
  lemma YoungThroughItsAge(clock: Clock, slot: U64)
    requires clock.now.Some? && slot * clock.secondsPerSlot <= U64_MAX
    ensures YoungEnough(clock, slot) <==>
            && clock.genesisTime + slot * clock.secondsPerSlot <= U64_MAX
            && clock.now.value <= clock.genesisTime + slot * clock.secondsPerSlot + clock.maxAge
  {
  }

  // ------------------------------------------------------- on to the next start

  /** What a call or a poll accepts is on its way to the file, with the checkpoint
      its start is attributed to; nothing else is. */
  lemma AcceptedIsQueued(d: Descent, config: Config, s: System, e: Event)
    requires Possible(d, config, s, e) && (e.Started? || e.PolledAgain?)
    ensures var report, start :=
              if e.Started? then StartAndPoll(config, s.pool, s.writer.file, e.checkpoint, e.clock, e.first, e.second).report
              else e.round.report,
              if e.Started? then StartAndPoll(config, s.pool, s.writer.file, e.checkpoint, e.clock, e.first, e.second).start
              else s.pool.start.value;
            var pending := Step(d, config, s, e).pending;
            if report.accepted
            then report.selected.Some? && pending == s.pending + [Persisted(report.selected.value, start.checkpointRoot)]
            else pending == s.pending
  {
  }

  /** And once it is written, the file holds it or a newer one. */
  lemma WrittenIsHeld(d: Descent, config: Config, s: System, i: nat)
    requires i < |s.pending| && config.anchorFile.ReadWrite? && RemembersFile(s.writer)
    requires IsBootstrapAnchor(s.pending[i].anchor)
    ensures var file := Step(d, config, s, Write(i, Done)).writer.file;
            file.Holds? && file.persisted.anchor.slot >= s.pending[i].anchor.slot
            && (file.persisted == s.pending[i] || file == s.writer.file)
  {
  }
}
