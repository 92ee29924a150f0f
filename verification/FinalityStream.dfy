/** The finality event stream: one poll after another, it emits what each
    accepted one newly finalizes and never moves back. */
module FinalityStream {
  import opened MachineIntegers
  import opened Wrappers
  import opened FinalitySelection

  /** What the stream waits for: a poll's report, with whether the stream was
      cancelled before the poll was over, or its cancellation. */
  datatype Poll = Polled(report: Report, cancelled: bool) | Cancel

  datatype StreamEvent = Finalized(anchor: Anchor) | Unavailable | Contradicted(slot: U64) | Cancelled

  /** `cancelled` is the stream's cancellation token: it is looked at before anything
      pending is. */
  datatype State = State(pending: Option<Anchor>, last: Option<Anchor>, terminal: bool, cancelled: bool)

  /** What becomes of a pending anchor: an older one is dropped, the emitted one
      again is dropped, another one at its slot ends the stream, and a newer one
      is emitted. */
  function Offer(s: State, anchor: Anchor): (State, seq<StreamEvent>) {
    match s.last
    case None => (State(None, Some(anchor), false, s.cancelled), [Finalized(anchor)])
    case Some(last) =>
      if anchor.slot < last.slot then (State(None, s.last, false, s.cancelled), [])
      else if anchor.slot == last.slot then
        if anchor == last then (State(None, s.last, false, s.cancelled), [])
        else (State(None, s.last, true, s.cancelled), [Contradicted(anchor.slot)])
      else (State(None, Some(anchor), false, s.cancelled), [Finalized(anchor)])
  }

  /** Everything the stream says while `polls` come in. */
  function Stream(s: State, polls: seq<Poll>): seq<StreamEvent>
    decreases |polls|, if s.pending.Some? then 1 else 0
  {
    if s.terminal then []
    else if s.cancelled then [Cancelled]
    else if s.pending.Some? then
      var (s', events) := Offer(s, s.pending.value);
      events + Stream(s', polls)
    else if polls == [] then []
    else
      match polls[0]
      case Cancel => [Cancelled]
      case Polled(report, cancelled) =>
        if !report.accepted then [Unavailable] + Stream(s.(cancelled := cancelled), polls[1..])
        else Stream(s.(pending := report.selected, cancelled := cancelled), polls[1..])
  }

  class Subscription {
    var pending: Option<Anchor>
    var lastEmitted: Option<Anchor>
    var terminal: bool
    var cancelled: bool

    ghost function Value(): State
      reads this
    {
      State(pending, lastEmitted, terminal, cancelled)
    }

    constructor (initial: Option<Anchor>, cancelled: bool)
      ensures Value() == State(initial, None, false, cancelled)
    {
      this.cancelled := cancelled;
      pending := initial;
      lastEmitted := None;
      terminal := false;
    }

    /** Emit or drop the pending anchor. */
    method TakePending() returns (event: Option<StreamEvent>)
      requires pending.Some? && !terminal
      modifies this
      ensures (Value(), match event case None => [] case Some(e) => [e]) == Offer(old(Value()), old(pending).value)
    {
      var anchor := pending.value;
      pending := None;
      if lastEmitted.Some? && anchor.slot < lastEmitted.value.slot {
        return None;
      }
      if lastEmitted.Some? && anchor.slot == lastEmitted.value.slot {
        if anchor != lastEmitted.value {
          terminal := true;
          return Some(Contradicted(anchor.slot));
        }
        return None;
      }
      lastEmitted := Some(anchor);
      return Some(Finalized(anchor));
    }

    /** The stream's next event, and the polls it did not need; no event once
        it ended or while it still waits. */
    method NextEvent(polls: seq<Poll>) returns (event: Option<StreamEvent>, rest: seq<Poll>)
      modifies this
      ensures Stream(old(Value()), polls) == (match event case None => [] case Some(e) => [e] + Stream(Value(), rest))
      ensures |rest| <= |polls| && rest == polls[|polls| - |rest|..]
      ensures event.None? ==> terminal || rest == []
    {
      rest := polls;
      if terminal {
        return None, rest;
      }
      while true
        invariant |rest| <= |polls| && rest == polls[|polls| - |rest|..]
        invariant !terminal && Stream(Value(), rest) == Stream(old(Value()), polls)
        decreases |rest|, if pending.Some? then 1 else 0
      {
        if cancelled {
          terminal := true;
          return Some(Cancelled), rest;
        }
        if pending.Some? {
          event := TakePending();
          if event.Some? {
            return;
          }
        } else {
          if rest == [] {
            return None, rest;
          }
          var poll := rest[0];
          rest := rest[1..];
          match poll {
            case Cancel =>
              terminal := true;
              return Some(Cancelled), rest;
            case Polled(report, struck) =>
              cancelled := struck;
              if !report.accepted {
                return Some(Unavailable), rest;
              }
              pending := report.selected;
          }
        }
      }
    }
  }

  // -------------------------------------------------- strict running maxima

  function FinalizedOf(events: seq<StreamEvent>): seq<Anchor> {
    if events == [] then []
    else (match events[0] case Finalized(a) => [a] case _ => []) + FinalizedOf(events[1..])
  }

  /** What a poll selects, if it is accepted. */
  function Selection(report: Report): seq<Anchor> {
    if report.accepted && report.selected.Some? then [report.selected.value] else []
  }

  /** The accepted selections, in order, until the stream is cancelled, that of a
      poll during which it was included. */
  function Accepted(polls: seq<Poll>): seq<Anchor> {
    if polls == [] || polls[0].Cancel? then []
    else Selection(polls[0].report) + if polls[0].cancelled then [] else Accepted(polls[1..])
  }

  /** The selections the stream comes to look at. */
  function Offered(polls: seq<Poll>): seq<Anchor> {
    if polls == [] || polls[0].Cancel? || polls[0].cancelled then []
    else Selection(polls[0].report) + Offered(polls[1..])
  }

  /** Whether the cancellation strikes during an accepted poll. */
  predicate StruckByPoll(polls: seq<Poll>) {
    if polls == [] || polls[0].Cancel? then false
    else if polls[0].cancelled then Selection(polls[0].report) != []
    else StruckByPoll(polls[1..])
  }

  /** A cancellation loses the one selection pending when it strikes, and no
      other. */
  lemma {:induction false} CancellationLosesThePending(polls: seq<Poll>)
    ensures Offered(polls) <= Accepted(polls) && |Accepted(polls)| <= |Offered(polls)| + 1
    ensures Offered(polls) != Accepted(polls) <==> StruckByPoll(polls)
    decreases |polls|
  {
    if polls != [] && polls[0].Polled? && !polls[0].cancelled {
      CancellationLosesThePending(polls[1..]);
      var first, offered, accepted := Selection(polls[0].report), Offered(polls[1..]), Accepted(polls[1..]);
      assert (first + offered)[|first|..] == offered && (first + accepted)[|first|..] == accepted;
    }
  }

  /** A selection above every one before it. */
  ghost predicate Record(selections: seq<Anchor>, i: nat)
    requires i < |selections|
  {
    forall j | 0 <= j < i :: selections[j].slot < selections[i].slot
  }

  /** The records among the first `n` selections. */
  ghost function Records(selections: seq<Anchor>, n: nat): seq<Anchor>
    requires n <= |selections|
  {
    if n == 0 then []
    else Records(selections, n - 1) + (if Record(selections, n - 1) then [selections[n - 1]] else [])
  }

  /** A selection at the newest record's slot that differs from it. */
  ghost predicate Contradicts(selections: seq<Anchor>, i: nat)
    requires i < |selections|
  {
    && (forall m | 0 <= m < i :: selections[m].slot <= selections[i].slot)
    && exists j | 0 <= j < i ::
         Record(selections, j) && selections[j].slot == selections[i].slot && selections[j] != selections[i]
  }

  /** Where the first contradiction from `n` on is, or the end. */
  ghost function FirstContradiction(selections: seq<Anchor>, n: nat): (i: nat)
    requires n <= |selections|
    ensures n <= i <= |selections|
    ensures forall k | n <= k < i :: !Contradicts(selections, k)
    ensures i < |selections| ==> Contradicts(selections, i)
    decreases |selections| - n
  {
    if n == |selections| || Contradicts(selections, n) then n else FirstContradiction(selections, n + 1)
  }

  /** `last` is the newest record among the first `n` selections. */
  ghost predicate IsNewest(selections: seq<Anchor>, n: nat, last: Option<Anchor>)
    requires n <= |selections|
  {
    if n == 0 then last.None?
    else
      last.Some?
      && (forall m | 0 <= m < n :: selections[m].slot <= last.value.slot)
      && exists j | 0 <= j < n :: Record(selections, j) && selections[j] == last.value
  }

  ghost function Pending(s: State): seq<Anchor> {
    match s.pending case None => [] case Some(a) => [a]
  }

  /** What a stream looks at from here on. */
  ghost function Ahead(s: State, polls: seq<Poll>): seq<Anchor> {
    if s.cancelled then [] else Pending(s) + Offered(polls)
  }

  lemma FinalizedPrepends(e: StreamEvent, rest: seq<StreamEvent>)
    ensures FinalizedOf([e] + rest) == (match e case Finalized(a) => [a] case _ => []) + FinalizedOf(rest)
  {
    assert ([e] + rest)[1..] == rest;
  }

  /** A selection is a record exactly when it is above the newest record. */
  lemma RecordIsAboveNewest(selections: seq<Anchor>, n: nat, last: Anchor)
    requires 0 < n < |selections| && IsNewest(selections, n, Some(last))
    ensures Record(selections, n) <==> last.slot < selections[n].slot
  {
    var j :| 0 <= j < n && Record(selections, j) && selections[j] == last;
  }

  /** It contradicts exactly when it is another anchor at that record's slot. */
  lemma ContradictsNewest(selections: seq<Anchor>, n: nat, last: Anchor)
    requires 0 < n < |selections| && IsNewest(selections, n, Some(last))
    ensures Contradicts(selections, n) <==> last.slot == selections[n].slot && last != selections[n]
  {
    var a := selections[n];
    var j :| 0 <= j < n && Record(selections, j) && selections[j] == last;
    if Contradicts(selections, n) {
      var k :| 0 <= k < n && Record(selections, k) && selections[k].slot == a.slot && selections[k] != a;
      assert selections[k].slot <= last.slot && selections[j].slot <= a.slot;
      // Two records at one slot are the same one.
      assert k == j;
    }
  }

  lemma NewestAfter(selections: seq<Anchor>, n: nat, last: Option<Anchor>)
    requires n < |selections| && IsNewest(selections, n, last)
    ensures Record(selections, n) ==> IsNewest(selections, n + 1, Some(selections[n]))
    ensures !Record(selections, n) ==> n > 0 && (selections[n].slot <= last.value.slot ==> IsNewest(selections, n + 1, last))
  {
  }

  /** What offering one more selection does to the records. */
  lemma OfferStep(selections: seq<Anchor>, n: nat, s: State)
    requires n < |selections| && IsNewest(selections, n, s.last)
    ensures var (s', events) := Offer(s, selections[n]);
            if Contradicts(selections, n) then s'.terminal && events == [Contradicted(selections[n].slot)]
            else
              !s'.terminal && s'.pending.None? && s'.cancelled == s.cancelled && IsNewest(selections, n + 1, s'.last)
              && events == if Record(selections, n) then [Finalized(selections[n])] else []
  {
    NewestAfter(selections, n, s.last);
    if n > 0 {
      RecordIsAboveNewest(selections, n, s.last.value);
      ContradictsNewest(selections, n, s.last.value);
    }
  }

  lemma OfferedStream(s: State, polls: seq<Poll>)
    requires s.pending.Some? && !s.terminal && !s.cancelled
    ensures var (s', events) := Offer(s, s.pending.value);
            FinalizedOf(Stream(s, polls)) == FinalizedOf(events) + FinalizedOf(Stream(s', polls))
  {
    var (s', events) := Offer(s, s.pending.value);
    OneOrNone(events, Stream(s', polls));
  }

  lemma OneOrNone(events: seq<StreamEvent>, rest: seq<StreamEvent>)
    requires |events| <= 1
    ensures FinalizedOf(events + rest) == FinalizedOf(events) + FinalizedOf(rest)
  {
    if events == [] {
      assert events + rest == rest;
    } else {
      assert events == [events[0]] + [];
      FinalizedPrepends(events[0], rest);
      FinalizedPrepends(events[0], []);
    }
  }

  lemma PolledStream(s: State, polls: seq<Poll>)
    requires s.pending.None? && !s.terminal && !s.cancelled
    ensures polls == [] || polls[0].Cancel? ==> FinalizedOf(Stream(s, polls)) == []
    ensures polls != [] && polls[0].Polled? ==>
              FinalizedOf(Stream(s, polls)) == FinalizedOf(Stream(AfterPoll(s, polls[0]), polls[1..]))
  {
    if polls != [] && polls[0].Polled? && !polls[0].report.accepted {
      FinalizedPrepends(Unavailable, Stream(s.(cancelled := polls[0].cancelled), polls[1..]));
    }
    if polls != [] && polls[0].Cancel? {
      CancelledStream();
    }
  }

  lemma CancelledStream()
    ensures FinalizedOf([Cancelled]) == []
  {
    FinalizedPrepends(Cancelled, []);
    assert [Cancelled] + [] == [Cancelled];
  }

  lemma TailOf(selections: seq<Anchor>, n: nat, a: Anchor, tail: seq<Anchor>)
    requires n <= |selections| && selections[n..] == [a] + tail
    ensures n < |selections| && selections[n] == a && selections[n + 1..] == tail
  {
    assert selections[n..][0] == a;
    assert selections[n + 1..] == selections[n..][1..];
  }

  lemma OfferFinalizes(selections: seq<Anchor>, n: nat, s: State)
    requires n < |selections| && IsNewest(selections, n, s.last)
    ensures FinalizedOf(Offer(s, selections[n]).1)
         == if !Contradicts(selections, n) && Record(selections, n) then [selections[n]] else []
  {
    OfferStep(selections, n, s);
    var events := Offer(s, selections[n]).1;
    if events != [] {
      FinalizedPrepends(events[0], []);
      assert events == [events[0]] + [];
    }
  }

  lemma RecordsAfterOffer(selections: seq<Anchor>, n: nat, emitted: seq<Anchor>, rest: seq<Anchor>)
    requires n < |selections|
    requires emitted == if !Contradicts(selections, n) && Record(selections, n) then [selections[n]] else []
    requires if Contradicts(selections, n) then rest == []
             else Records(selections, n + 1) + rest == Records(selections, FirstContradiction(selections, n + 1))
    ensures Records(selections, n) + (emitted + rest) == Records(selections, FirstContradiction(selections, n))
  {
    var before := Records(selections, n);
    assert before + (emitted + rest) == (before + emitted) + rest;
    if Contradicts(selections, n) {
      assert before + (emitted + rest) == before;
    } else {
      assert Records(selections, n + 1) == before + emitted;
    }
  }

  lemma StreamOffers(selections: seq<Anchor>, n: nat, s: State, polls: seq<Poll>)
    requires n < |selections| && IsNewest(selections, n, s.last) && !s.terminal && !s.cancelled
    requires s.pending == Some(selections[n])
    requires var s' := Offer(s, selections[n]).0;
             !Contradicts(selections, n) ==>
               Records(selections, n + 1) + FinalizedOf(Stream(s', polls)) == Records(selections, FirstContradiction(selections, n + 1))
    ensures Records(selections, n) + FinalizedOf(Stream(s, polls)) == Records(selections, FirstContradiction(selections, n))
  {
    var (s', events) := Offer(s, selections[n]);
    OfferStep(selections, n, s);
    OfferedStream(s, polls);
    OfferFinalizes(selections, n, s);
    RecordsAfterOffer(selections, n, FinalizedOf(events), FinalizedOf(Stream(s', polls)));
  }

  lemma {:induction false} StreamFrom(selections: seq<Anchor>, n: nat, s: State, polls: seq<Poll>)
    requires n <= |selections| && IsNewest(selections, n, s.last) && !s.terminal
    requires selections[n..] == Ahead(s, polls)
    ensures Records(selections, n) + FinalizedOf(Stream(s, polls)) == Records(selections, FirstContradiction(selections, n))
    decreases |polls|, if s.pending.Some? then 1 else 0
  {
    if s.cancelled {
      CancelledStream();
    } else if s.pending.Some? {
      TailOf(selections, n, s.pending.value, Offered(polls));
      OfferStep(selections, n, s);
      if !Contradicts(selections, n) {
        StreamFrom(selections, n + 1, Offer(s, s.pending.value).0, polls);
      }
      StreamOffers(selections, n, s, polls);
    } else {
      PolledStream(s, polls);
      if polls == [] || polls[0].Cancel? {
        assert n == |selections|;
      } else {
        AheadAfterPoll(s, polls);
        StreamFrom(selections, n, AfterPoll(s, polls[0]), polls[1..]);
      }
    }
  }

  function AfterPoll(s: State, poll: Poll): State
    requires poll.Polled?
  {
    if poll.report.accepted then s.(pending := poll.report.selected, cancelled := poll.cancelled)
    else s.(cancelled := poll.cancelled)
  }

  lemma AheadAfterPoll(s: State, polls: seq<Poll>)
    requires s.pending.None? && !s.terminal && !s.cancelled && polls != [] && polls[0].Polled?
    ensures Ahead(AfterPoll(s, polls[0]), polls[1..]) == Ahead(s, polls)
  {
  }

  /** Over any run of polls the stream finalizes exactly the strict running
      maxima of the accepted selections it comes to look at, until the first one
      that contradicts the newest maximum at its slot. */
  lemma StreamEmitsRunningMaxima(initial: Option<Anchor>, cancelled: bool, polls: seq<Poll>)
    ensures var s := State(initial, None, false, cancelled);
            var selections := Ahead(s, polls);
            FinalizedOf(Stream(s, polls)) == Records(selections, FirstContradiction(selections, 0))
  {
    var s := State(initial, None, false, cancelled);
    var selections := Ahead(s, polls);
    StreamFrom(selections, 0, s, polls);
    assert Records(selections, 0) + FinalizedOf(Stream(s, polls)) == FinalizedOf(Stream(s, polls));
  }

  /** Those are all of them, except exactly the one pending when the stream is
      cancelled: the initial one of a stream cancelled before its first event, or
      the selection of a poll during which it is. */
  lemma OnlyThePendingIsMissed(initial: Option<Anchor>, cancelled: bool, polls: seq<Poll>)
    ensures var s := State(initial, None, false, cancelled);
            var all := Pending(s) + if cancelled then [] else Accepted(polls);
            && Ahead(s, polls) <= all && |all| <= |Ahead(s, polls)| + 1
            && (Ahead(s, polls) != all <==> if cancelled then initial.Some? else StruckByPoll(polls))
  {
    CancellationLosesThePending(polls);
    var s := State(initial, None, false, cancelled);
    var first := Pending(s);
    assert (first + Offered(polls))[|first|..] == Offered(polls);
    assert (first + Accepted(polls))[|first|..] == Accepted(polls);
  }

  /** Finality never moves back: each event's slot is above all earlier ones'. */
  lemma {:induction false} RecordsIncrease(selections: seq<Anchor>, n: nat)
    requires n <= |selections|
    ensures forall i, j | 0 <= i < j < |Records(selections, n)| :: Records(selections, n)[i].slot < Records(selections, n)[j].slot
    ensures forall a | a in Records(selections, n) :: a in selections[..n]
    decreases n
  {
    if n > 0 {
      RecordsIncrease(selections, n - 1);
      assert selections[..n] == selections[..n - 1] + [selections[n - 1]];
      forall a | a in selections[..n - 1] && Record(selections, n - 1) ensures a.slot < selections[n - 1].slot {
        var k :| 0 <= k < n - 1 && selections[..n - 1][k] == a;
      }
    }
  }

  lemma StreamNeverMovesBack(initial: Option<Anchor>, cancelled: bool, polls: seq<Poll>, i: nat, j: nat)
    requires i < j < |FinalizedOf(Stream(State(initial, None, false, cancelled), polls))|
    ensures var finalized := FinalizedOf(Stream(State(initial, None, false, cancelled), polls));
            finalized[i].slot < finalized[j].slot
  {
    StreamEmitsRunningMaxima(initial, cancelled, polls);
    var selections := Ahead(State(initial, None, false, cancelled), polls);
    RecordsIncrease(selections, FirstContradiction(selections, 0));
  }
}
