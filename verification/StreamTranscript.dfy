/** Everything the finality stream says, event by event: what each poll adds is told
    from the selections before it, not from what the stream remembers. */
module StreamTranscript {
  import opened MachineIntegers
  import opened Wrappers
  import opened FinalitySelection
  import opened FinalityStream

  /** What looking at one selection adds. */
  ghost function Looked(selections: seq<Anchor>, n: nat): seq<StreamEvent>
    requires n < |selections|
  {
    if Contradicts(selections, n) then [Contradicted(selections[n].slot)]
    else if Record(selections, n) then [Finalized(selections[n])]
    else []
  }

  /** What `polls` add once `n` of the selections were looked at: a refused poll is
      reported, a selection is looked at, and a cancellation, of the stream or
      during a poll, or a contradiction ends the stream. */
  ghost function Told(selections: seq<Anchor>, n: nat, polls: seq<Poll>): seq<StreamEvent>
    requires n <= |selections| && selections[n..] == Offered(polls)
    decreases |polls|
  {
    if polls == [] then []
    else
      match polls[0]
      case Cancel => [Cancelled]
      case Polled(report, cancelled) =>
        var refused := if report.accepted then [] else [Unavailable];
        if cancelled then refused + [Cancelled]
        else if Selection(report) == [] then
          OfferedNone(polls);
          refused + Told(selections, n, polls[1..])
        else
          OfferedOne(selections, n, polls);
          Looked(selections, n) + if Contradicts(selections, n) then [] else Told(selections, n + 1, polls[1..])
  }

  lemma OfferedNone(polls: seq<Poll>)
    requires polls != [] && polls[0].Polled? && !polls[0].cancelled && Selection(polls[0].report) == []
    ensures Offered(polls) == Offered(polls[1..])
  {
  }

  lemma OfferedOne(selections: seq<Anchor>, n: nat, polls: seq<Poll>)
    requires n <= |selections| && selections[n..] == Offered(polls)
    requires polls != [] && polls[0].Polled? && !polls[0].cancelled && Selection(polls[0].report) != []
    ensures n < |selections| && polls[0].report.accepted && polls[0].report.selected == Some(selections[n])
    ensures selections[n + 1..] == Offered(polls[1..])
  {
    TailOf(selections, n, polls[0].report.selected.value, Offered(polls[1..]));
  }

  lemma {:induction false} StreamTells(selections: seq<Anchor>, n: nat, s: State, polls: seq<Poll>)
    requires n <= |selections| && selections[n..] == Offered(polls)
    requires IsNewest(selections, n, s.last) && s.pending.None? && !s.terminal && !s.cancelled
    ensures Stream(s, polls) == Told(selections, n, polls)
    decreases |polls|
  {
    if polls != [] && polls[0].Polled? {
      var next := AfterPoll(s, polls[0]);
      if polls[0].cancelled {
        assert Stream(next, polls[1..]) == [Cancelled];
      } else if Selection(polls[0].report) == [] {
        OfferedNone(polls);
        StreamTells(selections, n, next, polls[1..]);
      } else {
        OfferedOne(selections, n, polls);
        PendingTells(selections, n, next, polls[1..]);
        if !Contradicts(selections, n) {
          OfferStep(selections, n, next);
          StreamTells(selections, n + 1, Offer(next, selections[n]).0, polls[1..]);
        }
      }
    }
  }

  /** A pending selection is looked at before the next poll. */
  lemma PendingTells(selections: seq<Anchor>, n: nat, s: State, polls: seq<Poll>)
    requires n < |selections| && IsNewest(selections, n, s.last)
    requires s.pending == Some(selections[n]) && !s.terminal && !s.cancelled
    ensures Stream(s, polls)
         == Looked(selections, n) + if Contradicts(selections, n) then [] else Stream(Offer(s, selections[n]).0, polls)
  {
    OfferStep(selections, n, s);
  }

  /** All the stream ever says: that it was cancelled, if it was before it began;
      otherwise what its initial anchor and then its polls add. */
  lemma StreamIsItsTranscript(initial: Option<Anchor>, cancelled: bool, polls: seq<Poll>)
    ensures var s := State(initial, None, false, cancelled);
            var selections := Ahead(s, polls);
            Stream(s, polls) ==
            if cancelled then [Cancelled]
            else if initial.None? then Told(selections, 0, polls)
            else
              assert selections[1..] == Offered(polls);
              [Finalized(initial.value)] + Told(selections, 1, polls)
  {
    var s := State(initial, None, false, cancelled);
    var selections := Ahead(s, polls);
    if !cancelled {
      if initial.None? {
        assert selections[0..] == Offered(polls);
        StreamTells(selections, 0, s, polls);
      } else {
        assert selections[1..] == Offered(polls);
        PendingTells(selections, 0, s, polls);
        OfferStep(selections, 0, s);
        StreamTells(selections, 1, Offer(s, selections[0]).0, polls);
      }
    }
  }
}
