/** The durable consumer's loop as it runs: page by page, each change committed
    with its cursor before it is acknowledged. Its steps are the protocol's, so a
    consumer that stops at any point is a run of the protocol too. */
module ConsumeDurably {
  import opened Postgres
  import opened Delivery
  import opened Wrappers

  datatype Fetched = CaughtUp | More | ResetRequired

  lemma {:induction false} RunAppends(w: World, actions: seq<Action>, a: Action)
    ensures Run(w, actions + [a]) == Act(Run(w, actions), a)
    decreases |actions|
  {
    if actions == [] {
      assert (actions + [a])[1..] == [];
    } else {
      assert (actions + [a])[1..] == actions[1..] + [a];
      RunAppends(Act(w, actions[0]), actions[1..], a);
    }
  }

  /** A node whose log is in order, with nothing unacknowledged pruned. */
  ghost predicate Retains(node: Node) {
    node.pruned <= |node.log| - |After(node.log, node.acked)|
  }

  /** The page of an idle client: the changes after the acknowledged one. */
  lemma FetchedPage(node: Node, n: nat) returns (p: nat)
    requires NodeFits(node, n) && n <= |node.log|
    ensures p <= n && After(node.log, node.acked) == node.log[p..]
    ensures var (node', client) := FetchPage(node);
            && node'.log == node.log && node'.acked == node.acked
            && (client.Holding? ==>
                  && client.page != [] && client.next == 0 && !client.committed
                  && p + |client.page| <= |node.log| && client.page == node.log[p..p + |client.page|]
                  && client.page[|client.page| - 1].sequence <= node'.delivered)
            && (client.Idle? ==> p == |node.log|)
            && (client.Stopped? <==> !Retains(node))
  {
    p := AckedAt(node, n);
  }

  /** A page is as full as it gets. */
  lemma PageIsFull(node: Node)
    ensures var client := FetchPage(node).1;
            client.Holding? ==>
              client.page <= After(node.log, node.acked)
              && (|client.page| == PAGE || (|client.page| < PAGE && client.page == After(node.log, node.acked)))
  {
  }

  lemma AckedMoves(node: Node, p: nat, k: nat)
    requires Ordered(node.log) && p < k <= |node.log| && node.acked == node.log[k - 1].sequence
    ensures After(node.log, node.acked) == node.log[k..]
  {
    AfterIsRest(node.log, node.acked, k);
  }

  class Consumer {
    const destination: Destination
    const stream: string
    var node: Node
    ghost var start: World
    ghost var trace: seq<Action>

    constructor (destination: Destination, stream: string, node: Node, ghost start: World)
      requires start == World(node, destination.tables, StreamKey(destination.processor, destination.network, stream), [Stopped])
      ensures this.destination == destination && this.stream == stream && this.node == node
      ensures this.start == start && trace == [] && Tracks(Stopped)
    {
      this.destination, this.stream, this.node := destination, stream, node;
      this.start, trace := start, [];
    }

    ghost function Key(): StreamKey
      reads this
    {
      StreamKey(destination.processor, destination.network, stream)
    }

    /** The protocol's state after the steps taken is what the fields hold. */
    ghost predicate Tracks(client: Client)
      reads this, destination
    {
      Run(start, trace) == World(node, destination.tables, Key(), [client])
    }

    ghost method Take(a: Action)
      modifies `trace
      ensures trace == old(trace) + [a] && Run(start, trace) == Act(Run(start, old(trace)), a)
    {
      RunAppends(start, trace, a);
      trace := trace + [a];
    }

    /** Commit a change with its cursor, then acknowledge it. */
    method DeliverChange(change: Change, ghost page: seq<Change>, ghost next: nat) returns (acknowledged: bool)
      requires next < |page| && change == page[next] && Tracks(Holding(page, next, false))
      modifies `node, `trace, destination
      ensures old(trace) <= trace && start == old(start)
      ensures destination.tables == Deliver(old(destination.tables), Key(), change)
      ensures acknowledged <==> AcknowledgeAt(old(node), change.sequence).Some?
      ensures acknowledged ==> Some(node) == AcknowledgeAt(old(node), change.sequence)
      ensures Tracks(if acknowledged then Advance(Holding(page, next, true)) else Stopped)
    {
      destination.DeliverOne(stream, change, true);
      Take(Commit(0));
      assert Tracks(Holding(page, next, true));
      var answer := AcknowledgeAt(node, change.sequence);
      Take(Acknowledge(0, false, true));
      acknowledged := answer.Some?;
      if acknowledged {
        node := answer.value;
      }
    }

    /** Fetch the page after the acknowledged change and deliver all of it. */
    method ConsumePage(ghost n: nat) returns (fetched: Fetched)
      requires Tracks(Idle) && NodeFits(node, n) && n <= |node.log|
      modifies `node, `trace, destination
      ensures old(trace) <= trace && start == old(start) && node.log == old(node.log)
      ensures Tracks(if fetched.ResetRequired? then Stopped else Idle)
      ensures fetched.ResetRequired? <==> !Retains(old(node))
      ensures fetched.CaughtUp? ==> After(node.log, node.acked) == []
      ensures fetched.More? ==> |After(node.log, node.acked)| < |After(old(node.log), old(node.acked))|
    {
      ghost var p := FetchedPage(node, n);
      var (answered, client) := FetchPage(node);
      node := answered;
      Take(Fetch(0));
      assert Tracks(client);
      if client.Stopped? {
        return ResetRequired;
      }
      if client.Idle? {
        return CaughtUp;
      }
      DeliverPage(client.page, p);
      AckedMoves(node, p, p + |client.page|);
      return More;
    }

    /** Deliver a fetched page: none of its acknowledgements is refused. */
    method DeliverPage(page: seq<Change>, ghost p: nat)
      requires Tracks(Holding(page, 0, false)) && Fetches(node, page, p)
      modifies `node, `trace, destination
      ensures old(trace) <= trace && start == old(start) && Tracks(Idle)
      ensures node == old(node).(acked := page[|page| - 1].sequence)
    {
      for i := 0 to |page|
        invariant old(trace) <= trace && start == old(start)
        invariant node == old(node).(acked := if i == 0 then old(node).acked else page[i - 1].sequence)
        invariant Tracks(if i < |page| then Holding(page, i, false) else Idle)
      {
        NextIsAcknowledged(old(node), node, page, p, i);
        var acknowledged := DeliverChange(page[i], page, i);
        assert acknowledged;
      }
    }

    /** Deliver everything the node has: an undisturbed consumer ends with exactly
        the whole log applied and acknowledged, unless pruning overtook it. */
    method Consume(ghost n: nat) returns (ghost m: nat, fetched: Fetched)
      requires Tracks(Stopped) && Inv(start, n) && trace == []
      modifies `node, `trace, destination
      ensures start == old(start) && node.log == old(node.log) && !fetched.More?
      ensures Inv(Run(start, trace), m) && n <= m
      ensures fetched.CaughtUp? ==> HoldsPrefix(destination.tables, Key(), node.log, |node.log|)
      ensures fetched.CaughtUp? ==> node.acked == Head(node)
    {
      Take(Start(0));
      m := RowsAreAlwaysAPrefix(start, n, trace);
      fetched := More;
      while fetched.More?
        invariant start == old(start) && node.log == old(node.log)
        invariant Inv(Run(start, trace), m) && n <= m
        invariant Tracks(if fetched.ResetRequired? then Stopped else Idle)
        invariant fetched.CaughtUp? ==> After(node.log, node.acked) == []
        decreases fetched.More?, |After(node.log, node.acked)|
      {
        fetched := ConsumePage(m);
        m := RowsAreAlwaysAPrefix(start, n, trace);
      }
      if fetched.CaughtUp? {
        AllIsApplied(node, m);
      }
    }
  }

  /** `page` is the delivered changes after the acknowledged one. */
  ghost predicate Fetches(node: Node, page: seq<Change>, p: nat) {
    && Ordered(node.log) && page != [] && p + |page| <= |node.log| && page == node.log[p..p + |page|]
    && After(node.log, node.acked) == node.log[p..] && page[|page| - 1].sequence <= node.delivered
  }

  /** A page's next change is after what is acknowledged, and was delivered. */
  lemma NextIsAcknowledged(fetched: Node, node: Node, page: seq<Change>, p: nat, i: nat)
    requires Fetches(fetched, page, p) && i < |page|
    requires node == fetched.(acked := if i == 0 then fetched.acked else page[i - 1].sequence)
    ensures AcknowledgeAt(node, page[i].sequence) == Some(node.(acked := page[i].sequence))
  {
    var k := AfterSplits(node.log, fetched.acked);
    assert node.log[p..][0] == node.log[p] && node.log[k..][0] == node.log[k];
    assert page[i] == node.log[p + i];
    assert i > 0 ==> page[i - 1] == node.log[p + i - 1];
    assert page[|page| - 1] == node.log[p + |page| - 1];
  }

  lemma {:induction false} AfterSplits(log: seq<Change>, sequence: nat) returns (k: nat)
    ensures k <= |log| && After(log, sequence) == log[k..]
    ensures forall i | 0 <= i < k :: log[i].sequence <= sequence
    ensures k < |log| ==> log[k].sequence > sequence
    decreases |log|
  {
    k := 0;
    if log != [] && log[0].sequence <= sequence {
      k := AfterSplits(log[1..], sequence);
      k := k + 1;
      assert log[1..][k - 1..] == log[k..];
    }
  }

  lemma AllIsApplied(node: Node, m: nat)
    requires NodeFits(node, m) && m <= |node.log| && After(node.log, node.acked) == []
    ensures m == |node.log| && node.acked == Head(node)
  {
    var p := AckedAt(node, m);
    var k := AfterSplits(node.log, node.acked);
    assert k == |node.log|;
  }
}
