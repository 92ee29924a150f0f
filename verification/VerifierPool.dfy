/** The verifier pool and the anchor writer as the objects they are: each method
    changes its fields exactly as the trust model's step prescribes. */
module VerifierPool {
  import opened MachineIntegers
  import opened Wrappers
  import opened FinalitySelection
  import opened TrustRoot

  class VerifierSet {
    var checkpoint: Option<Checkpoint>
    var start: Option<Start>
    var newestAgreed: Option<Anchor>
    var endpoints: seq<Verifier>

    ghost function Value(): Pool
      reads this
    {
      Pool(checkpoint, start, newestAgreed, endpoints)
    }

    constructor ()
      ensures Value() == EMPTY_POOL
    {
      checkpoint, start, newestAgreed, endpoints := None, None, None, [];
    }

    method Restart(checkpoint: Checkpoint, start: Start, count: nat)
      modifies this
      ensures Value() == Restarted(checkpoint, start, count)
    {
      this.checkpoint := Some(checkpoint);
      this.start := Some(start);
      newestAgreed := None;
      endpoints := seq(count, _ => Idle);
    }

    /** The pool's start anchor, restarting it from `checkpoint` when it follows
        another trust root. */
    method Follow(config: Config, file: File, checkpoint: Checkpoint, clock: Clock) returns (followed: Start)
      modifies this
      ensures Value() == Followed(config, old(Value()), file, checkpoint, clock)
      ensures start == Some(followed)
    {
      if start.Some? && (start.value.root == checkpoint.root || start.value.checkpointRoot == checkpoint.root) {
        return start.value;
      }
      followed := ResolveStart(config.anchorFile, file, checkpoint, clock);
      Restart(checkpoint, followed, config.endpoints);
    }

    /** Advance every endpoint's verifier once and select the agreed anchor among
        those that completed, in the order they did. */
    method Poll(config: Config, answers: seq<Answer>, order: seq<nat>) returns (report: Report)
      requires start.Some? && |answers| == |endpoints| && Completes(answers, order)
      modifies this
      ensures Value() == Polled(old(Value()), answers, report)
      ensures Reports(config, Round(answers, order, report))
    {
      var bootstrapRoot := if newestAgreed.Some? then newestAgreed.value.root else start.value.root;
      Advance(bootstrapRoot, answers);
      var completed := [];
      for k := 0 to |order|
        invariant completed == Completed(answers, order)[..k]
      {
        completed := completed + [ProbeOf(answers[order[k]])];
      }
      assert completed == Completed(answers, order);
      report := SelectEndpointAgreement(config.minimum, completed);
      if report.accepted && report.selected.Some? && IsBootstrapAnchor(report.selected.value)
         && (newestAgreed.None? || report.selected.value.slot > newestAgreed.value.slot) {
        newestAgreed := report.selected;
      }
    }

    method Advance(bootstrapRoot: Root, answers: seq<Answer>)
      requires |answers| == |endpoints|
      modifies `endpoints
      ensures endpoints == Advanced(old(endpoints), bootstrapRoot, answers)
    {
      ghost var before := endpoints;
      for i := 0 to |endpoints|
        invariant |endpoints| == |before|
        invariant forall j | 0 <= j < i :: endpoints[j] == PollEndpoint(before[j], bootstrapRoot, answers[j]).0
        invariant forall j | i <= j < |endpoints| :: endpoints[j] == before[j]
      {
        endpoints := endpoints[i := PollEndpoint(endpoints[i], bootstrapRoot, answers[i]).0];
      }
    }

    method AnyVerified(answers: seq<Answer>) returns (any: bool)
      ensures any == VerifiedAny(answers)
    {
      any := false;
      for i := 0 to |answers|
        invariant any <==> exists j | 0 <= j < i :: answers[j].Verifies?
      {
        if answers[i].Verifies? {
          any := true;
        }
      }
    }

    /** Follow `checkpoint` and poll every endpoint once. When no endpoint verifies
        finality from a persisted start anchor, try the checkpoint itself, and keep
        it only if it verifies anything. `first` and `second` are how the endpoints
        answer the two polls, each with the order they complete in. */
    method StartAndPoll(config: Config, file: File, checkpoint: Checkpoint, clock: Clock,
                        first: (seq<Answer>, seq<nat>), second: (seq<Answer>, seq<nat>))
      returns (report: Report, began: Start, ghost round1: Round, ghost round2: Round)
      requires start.Some? ==> |endpoints| == config.endpoints
      requires |first.0| == |second.0| == config.endpoints
      requires Completes(first.0, first.1) && Completes(second.0, second.1)
      modifies this
      ensures round1.answers == first.0 && round1.order == first.1 && Reports(config, round1)
      ensures round2.answers == second.0 && round2.order == second.1
      ensures TriesCheckpoint(Followed(config, old(Value()), file, checkpoint, clock).start.value, round1) ==>
                Reports(config, round2)
      ensures Outcome(Value(), report, began)
           == TrustRoot.StartAndPoll(config, old(Value()), file, checkpoint, clock, round1, round2)
    {
      round2 := Round(second.0, second.1, Report(false, None, 0));
      began := Follow(config, file, checkpoint, clock);
      report := Poll(config, first.0, first.1);
      round1 := Round(first.0, first.1, report);
      var any := AnyVerified(first.0);
      if !report.accepted && began.persisted && !any {
        var kept := if this.checkpoint.Some? then this.checkpoint.value else checkpoint;
        var configured := Configured(kept);
        Restart(kept, configured, config.endpoints);
        var fallback := Poll(config, second.0, second.1);
        round2 := Round(second.0, second.1, fallback);
        any := AnyVerified(second.0);
        if fallback.accepted || any {
          began := configured;
          report := fallback;
        } else {
          Restart(kept, began, config.endpoints);
        }
      }
    }
  }

  /** Persists newer epoch-aligned anchors, one write at a time. */
  class AnchorWriter {
    const config: Config
    var file: File
    var persistedSlot: Option<U64>
    var writeFailures: nat

    ghost function Value(): Writer
      reads this
    {
      Writer(file, persistedSlot)
    }

    constructor (config: Config, file: File)
      ensures this.config == config && Value() == Writer(file, None)
    {
      this.config := config;
      this.file := file;
      persistedSlot, writeFailures := None, 0;
    }

    method Persist(anchor: Anchor, checkpointRoot: Root, io: Io)
      modifies this
      ensures Value() == PersistThrough(config, old(Value()), Persisted(anchor, checkpointRoot), io)
      ensures writeFailures >= old(writeFailures)
      ensures writeFailures > old(writeFailures) <==>
                io != Done && config.anchorFile.ReadWrite? && IsBootstrapAnchor(anchor)
                && (old(persistedSlot).Some? ==> anchor.slot > old(persistedSlot).value)
    {
      if !config.anchorFile.ReadWrite? || !IsBootstrapAnchor(anchor) {
        return;
      }
      if persistedSlot.Some? && anchor.slot <= persistedSlot.value {
        return;
      }
      if io != Done {
        writeFailures := writeFailures + 1;
      }
      if io == Failed {
        return;
      }
      if !(file.Holds? && file.persisted.anchor.slot >= anchor.slot) {
        file := Holds(Persisted(anchor, checkpointRoot));
      }
      if io == Done {
        persistedSlot := Some(anchor.slot);
      }
    }
  }
}
