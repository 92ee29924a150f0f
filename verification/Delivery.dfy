/** Durable consumers of one change stream: they fetch a page, commit each change
    with its cursor, and only then acknowledge it. They may crash between any two
    of these steps, and several may run at once. */
module Delivery {
  import opened Postgres
  import opened Wrappers

  const PAGE: nat := 256

  /** The node's side: the changes since the consumer's start, how many of them it
      no longer retains, and the consumer's acknowledged and delivered
      sequences. */
  datatype Node = Node(start: nat, log: seq<Change>, pruned: nat, acked: nat, delivered: nat)

  datatype Client = Stopped | Idle | Holding(page: seq<Change>, next: nat, committed: bool)

  datatype World = World(node: Node, tables: Tables, key: StreamKey, clients: seq<Client>)

  datatype Action =
    | Append(change: Change)
    | Prune(count: nat)
    | Elsewhere(other: StreamKey, change: Change)      // another stream's consumer commits
    | Start(client: nat)
    | Fetch(client: nat)
    | Commit(client: nat)
    | Acknowledge(client: nat, refused: bool, heard: bool)
    | Crash(client: nat)

  function Head(node: Node): nat {
    if node.log == [] then node.start else node.log[|node.log| - 1].sequence
  }

  function After(log: seq<Change>, sequence: nat): seq<Change> {
    if log != [] && log[0].sequence <= sequence then After(log[1..], sequence) else log
  }

  function FirstPage(changes: seq<Change>): seq<Change> {
    if |changes| > PAGE then changes[..PAGE] else changes
  }

  /** The node acknowledges a sequence, unless that goes back, or past what exists
      or was delivered. */
  function AcknowledgeAt(node: Node, sequence: nat): Option<Node> {
    if sequence < node.acked then None
    else if sequence == node.acked then Some(node)
    else if sequence > Head(node) || sequence > node.delivered then None
    else Some(node.(acked := sequence))
  }

  /** The node delivers the page after the acknowledged sequence; a consumer that
      pruning overtook is told so, and throws. */
  function FetchPage(node: Node): (Node, Client) {
    var rest := After(node.log, node.acked);
    if node.pruned > |node.log| - |rest| then (node, Stopped)
    else if rest == [] then (node, Idle)
    else
      var page := FirstPage(rest);
      var last := page[|page| - 1].sequence;
      (node.(delivered := if last > node.delivered then last else node.delivered), Holding(page, 0, false))
  }

  function Advance(client: Client): Client
    requires client.Holding? && client.next < |client.page|
  {
    if client.next + 1 < |client.page| then Holding(client.page, client.next + 1, false) else Idle
  }

  function SetClient(w: World, c: nat, client: Client): World
    requires c < |w.clients|
  {
    w.(clients := w.clients[c := client])
  }

  function ActOfClient(w: World, a: Action, c: nat): World
    requires c < |w.clients|
  {
    var client := w.clients[c];
    match a
    case Start(_) => if client.Stopped? then SetClient(w, c, Idle) else w
    case Crash(_) => SetClient(w, c, Stopped)
    case Fetch(_) =>
      if !client.Idle? then w
      else var (node, next) := FetchPage(w.node); SetClient(w, c, next).(node := node)
    case Commit(_) =>
      if !client.Holding? || client.committed || client.next >= |client.page| then w
      else SetClient(w, c, client.(committed := true)).(tables := Deliver(w.tables, w.key, client.page[client.next]))
    case Acknowledge(_, refused, heard) =>
      if !client.Holding? || !client.committed || client.next >= |client.page| then w
      else
        (match AcknowledgeAt(w.node, client.page[client.next].sequence)
         case None => SetClient(w, c, Stopped)
         case Some(node) =>
           if refused then SetClient(w, c, Stopped)
           else SetClient(w, c, if heard then Advance(client) else Stopped).(node := node))
    case _ => w
  }

  function Act(w: World, a: Action): World {
    match a
    case Append(change) =>
      if change.sequence > Head(w.node) then w.(node := w.node.(log := w.node.log + [change])) else w
    case Prune(count) =>
      if w.node.pruned <= count <= |w.node.log| then w.(node := w.node.(pruned := count)) else w
    case Elsewhere(other, change) =>
      if other != w.key then w.(tables := Deliver(w.tables, other, change)) else w
    case _ => if a.client < |w.clients| then ActOfClient(w, a, a.client) else w
  }

  function Run(w: World, actions: seq<Action>): World
    decreases |actions|
  {
    if actions == [] then w else Run(Act(w, actions[0]), actions[1..])
  }

  // ------------------------------------------------------------ the invariant

  ghost predicate NodeFits(node: Node, n: nat) {
    && Ordered(node.log)
    && (forall i | 0 <= i < |node.log| :: node.start < node.log[i].sequence)
    && (node.acked == node.start || exists i :: 0 <= i < n && i < |node.log| && node.log[i].sequence == node.acked)
  }

  /** A held page is a stretch of the log, and everything before the change it
      works on is committed. */
  ghost predicate HoldsAt(node: Node, n: nat, client: Client, from: nat)
    requires client.Holding?
  {
    var page := client.page;
    && from + |page| <= |node.log| && page == node.log[from..from + |page|] && client.next < |page|
    && from + client.next + (if client.committed then 1 else 0) <= n
    && page[|page| - 1].sequence <= node.delivered
  }

  ghost predicate ClientFits(node: Node, n: nat, client: Client) {
    client.Holding? ==> exists from: nat :: HoldsAt(node, n, client, from)
  }

  /** Exactly the first `n` changes are applied, everything acknowledged is among
      them, and every client works within or right after them. */
  ghost predicate Inv(w: World, n: nat) {
    && NodeFits(w.node, n)
    && HoldsPrefix(w.tables, w.key, w.node.log, n)
    && ClientsFit(w.node, n, w.clients)
  }

  ghost predicate ClientsFit(node: Node, n: nat, clients: seq<Client>) {
    forall i | 0 <= i < |clients| :: ClientFits(node, n, clients[i])
  }

  lemma {:induction false} AfterIsRest(log: seq<Change>, sequence: nat, p: nat)
    requires p <= |log|
    requires forall i | 0 <= i < p :: log[i].sequence <= sequence
    requires p < |log| ==> log[p].sequence > sequence
    ensures After(log, sequence) == log[p..]
    decreases p
  {
    if p > 0 {
      AfterIsRest(log[1..], sequence, p - 1);
    }
  }

  /** Where the page after the acknowledged sequence begins: not past what is
      committed. */
  lemma AckedAt(node: Node, n: nat) returns (p: nat)
    requires NodeFits(node, n) && n <= |node.log|
    ensures p <= n && After(node.log, node.acked) == node.log[p..]
  {
    p := 0;
    if node.acked != node.start {
      var i :| 0 <= i < n && i < |node.log| && node.log[i].sequence == node.acked;
      p := i + 1;
    }
    AfterIsRest(node.log, node.acked, p);
  }

  lemma FetchFits(node: Node, n: nat)
    requires NodeFits(node, n) && n <= |node.log|
    ensures var (node', client) := FetchPage(node);
            && ClientFits(node', n, client) && node' == node.(delivered := node'.delivered)
            && node.delivered <= node'.delivered
  {
    var p := AckedAt(node, n);
    var (node', client) := FetchPage(node);
    if client.Holding? {
      assert client.page == node.log[p..p + |client.page|];
      assert HoldsAt(node', n, client, p);
    }
  }

  /** A held page stays a stretch of a log that grows. */
  lemma ClientStays(node: Node, n: nat, node': Node, n': nat, client: Client)
    requires ClientFits(node, n, client)
    requires node.log <= node'.log && n <= n' && node.delivered <= node'.delivered
    ensures ClientFits(node', n', client)
  {
    if client.Holding? {
      var from: nat :| HoldsAt(node, n, client, from);
      assert HoldsAt(node', n', client, from);
    }
  }

  lemma ClientsStay(w: World, n: nat, node': Node, n': nat)
    requires ClientsFit(w.node, n, w.clients)
    requires w.node.log <= node'.log && n <= n' && w.node.delivered <= node'.delivered
    ensures ClientsFit(node', n', w.clients)
  {
    forall i | 0 <= i < |w.clients| ensures ClientFits(node', n', w.clients[i]) {
      ClientStays(w.node, n, node', n', w.clients[i]);
    }
  }

  lemma NodeAppends(node: Node, n: nat, change: Change)
    requires NodeFits(node, n) && change.sequence > Head(node)
    ensures NodeFits(node.(log := node.log + [change]), n)
  {
    var log' := node.log + [change];
    assert forall i | 0 <= i < |node.log| :: log'[i] == node.log[i];
    assert Ordered(log') by {
      forall i, j | 0 <= i < j < |log'| ensures log'[i].sequence < log'[j].sequence {
        assert i < |node.log| - 1 ==> node.log[i].sequence < node.log[|node.log| - 1].sequence;
      }
    }
  }

  lemma AppendKeeps(w: World, n: nat, change: Change)
    requires Inv(w, n) && change.sequence > Head(w.node)
    ensures Inv(w.(node := w.node.(log := w.node.log + [change])), n)
  {
    NodeAppends(w.node, n, change);
    PrefixOfLongerLog(w.tables, w.key, w.node.log, n, change);
    ClientsStay(w, n, w.node.(log := w.node.log + [change]), n);
  }

  lemma ElsewhereKeeps(w: World, n: nat, other: StreamKey, change: Change)
    requires Inv(w, n) && other != w.key
    ensures Inv(w.(tables := Deliver(w.tables, other, change)), n)
  {
    var tables' := Deliver(w.tables, other, change);
    forall s: nat ensures (w.key, s) in tables'.applied <==> (w.key, s) in w.tables.applied {
      DeliverFrame(w.tables, other, change, w.key, s);
    }
  }

  lemma WorksWithin(node: Node, n: nat, client: Client) returns (i: nat)
    requires ClientFits(node, n, client)
    requires client.Holding? && !client.committed && client.next < |client.page|
    ensures i <= n && i < |node.log| && node.log[i] == client.page[client.next]
    ensures ClientFits(node, if i < n then n else n + 1, client.(committed := true))
  {
    var from: nat :| HoldsAt(node, n, client, from);
    i := from + client.next;
    assert HoldsAt(node, if i < n then n else n + 1, client.(committed := true), from);
  }

  /** The change a client works on is the next one after those committed, or one
      of them. */
  lemma CommitKeeps(w: World, n: nat, c: nat) returns (m: nat)
    requires Inv(w, n) && c < |w.clients| && w.clients[c].Holding? && !w.clients[c].committed
    requires w.clients[c].next < |w.clients[c].page|
    ensures n <= m && Inv(ActOfClient(w, Commit(c), c), m)
  {
    var i := WorksWithin(w.node, n, w.clients[c]);
    m := if i < n then n else n + 1;
    ClientsStay(w, n, w.node, m);
    CommitInto(w.tables, w.key, w.node, n, i, w.clients[c].page[w.clients[c].next], m);
  }

  lemma CommitInto(t: Tables, key: StreamKey, node: Node, n: nat, i: nat, change: Change, m: nat)
    requires NodeFits(node, n) && HoldsPrefix(t, key, node.log, n)
    requires i <= n && i < |node.log| && node.log[i] == change && m == if i < n then n else n + 1
    ensures NodeFits(node, m) && HoldsPrefix(Deliver(t, key, change), key, node.log, m)
  {
    DeliverExtends(t, key, node.log, n, i);
  }

  lemma AcknowledgedIsCommitted(node: Node, n: nat, client: Client)
    requires NodeFits(node, n) && n <= |node.log| && ClientFits(node, n, client)
    requires client.Holding? && client.committed && client.next < |client.page|
    ensures exists i :: 0 <= i < n && i < |node.log| && node.log[i].sequence == client.page[client.next].sequence
    ensures client.page[client.next].sequence <= Head(node)
    ensures client.page[client.next].sequence <= node.delivered
    ensures ClientFits(node, n, Advance(client))
  {
    var from: nat :| HoldsAt(node, n, client, from);
    var i := from + client.next;
    assert node.log[i] == client.page[client.next];
    assert node.log[from + |client.page| - 1] == client.page[|client.page| - 1];
    if client.next + 1 < |client.page| {
      assert HoldsAt(node, n, Advance(client), from);
    }
  }

  lemma NodeAcknowledges(node: Node, n: nat, sequence: nat)
    requires NodeFits(node, n) && AcknowledgeAt(node, sequence).Some?
    requires exists i :: 0 <= i < n && i < |node.log| && node.log[i].sequence == sequence
    ensures NodeFits(AcknowledgeAt(node, sequence).value, n)
  {
  }

  lemma AcknowledgeFits(w: World, n: nat, c: nat, node': Node)
    requires NodeFits(w.node, n) && ClientsFit(w.node, n, w.clients) && n <= |w.node.log|
    requires c < |w.clients| && w.clients[c].Holding? && w.clients[c].committed
    requires w.clients[c].next < |w.clients[c].page|
    requires AcknowledgeAt(w.node, w.clients[c].page[w.clients[c].next].sequence) == Some(node')
    ensures NodeFits(node', n) && node' == w.node.(acked := node'.acked)
    ensures ClientsFit(node', n, w.clients) && ClientFits(node', n, Advance(w.clients[c]))
  {
    var client := w.clients[c];
    AcknowledgedIsCommitted(w.node, n, client);
    NodeAcknowledges(w.node, n, client.page[client.next].sequence);
    ClientsStay(w, n, node', n);
    ClientStays(w.node, n, node', n, Advance(client));
  }

  lemma AcknowledgeKeeps(w: World, n: nat, c: nat, refused: bool, heard: bool)
    requires Inv(w, n) && c < |w.clients| && w.clients[c].Holding? && w.clients[c].committed
    requires w.clients[c].next < |w.clients[c].page|
    ensures Inv(ActOfClient(w, Acknowledge(c, refused, heard), c), n)
  {
    var acknowledged := AcknowledgeAt(w.node, w.clients[c].page[w.clients[c].next].sequence);
    if acknowledged.Some? {
      AcknowledgeFits(w, n, c, acknowledged.value);
    }
  }

  /** An acknowledgement fails, short of the node refusing the consumer, exactly
      when another consumer has acknowledged a later change. */
  lemma RefusedOnlyWhenOvertaken(w: World, n: nat, c: nat)
    requires Inv(w, n) && c < |w.clients| && w.clients[c].Holding? && w.clients[c].committed
    requires w.clients[c].next < |w.clients[c].page|
    ensures var sequence := w.clients[c].page[w.clients[c].next].sequence;
            AcknowledgeAt(w.node, sequence).None? <==> w.node.acked > sequence
  {
    AcknowledgedIsCommitted(w.node, n, w.clients[c]);
  }

  lemma ActKeeps(w: World, n: nat, a: Action) returns (m: nat)
    requires Inv(w, n)
    ensures n <= m && Inv(Act(w, a), m)
  {
    m := n;
    match a
    case Append(change) =>
      if change.sequence > Head(w.node) {
        AppendKeeps(w, n, change);
      }
    case Prune(count) => ClientsStay(w, n, Act(w, a).node, n);
    case Elsewhere(other, change) =>
      if other != w.key {
        ElsewhereKeeps(w, n, other, change);
      }
    case _ =>
      if a.client < |w.clients| {
        m := ClientKeeps(w, n, a, a.client);
      }
  }

  lemma FetchKeeps(w: World, n: nat, c: nat)
    requires Inv(w, n) && c < |w.clients|
    ensures Inv(ActOfClient(w, Fetch(c), c), n)
  {
    FetchFits(w.node, n);
    ClientsStay(w, n, FetchPage(w.node).0, n);
  }

  lemma ClientKeeps(w: World, n: nat, a: Action, c: nat) returns (m: nat)
    requires Inv(w, n) && c < |w.clients|
    ensures n <= m && Inv(ActOfClient(w, a, c), m)
  {
    m := n;
    var client := w.clients[c];
    var working := client.Holding? && client.next < |client.page|;
    match a
    case Fetch(_) => FetchKeeps(w, n, c);
    case Commit(_) =>
      if working && !client.committed {
        m := CommitKeeps(w, n, c);
      }
    case Acknowledge(_, refused, heard) =>
      if working && client.committed {
        AcknowledgeKeeps(w, n, c, refused, heard);
      }
    case _ =>
  }

  /** For any number of consumers of one stream, interleaved, crashed and
      restarted in any way, and whatever else is written or pruned meanwhile: the
      stream's rows are always exactly a prefix of its changes, each once, its
      cursor is that prefix's last, and what is acknowledged is applied. */
  lemma {:induction false} RowsAreAlwaysAPrefix(w: World, n: nat, actions: seq<Action>) returns (m: nat)
    requires Inv(w, n)
    ensures n <= m && Inv(Run(w, actions), m)
    decreases |actions|
  {
    m := n;
    if actions != [] {
      m := ActKeeps(w, n, actions[0]);
      m := RowsAreAlwaysAPrefix(Act(w, actions[0]), m, actions[1..]);
    }
  }

  /** A new stream: nothing delivered, nothing applied, no client working. */
  ghost predicate Fresh(w: World) {
    && NodeFits(w.node, 0)
    && (forall s :: (w.key, s) !in w.tables.applied) && w.key !in w.tables.cursors
    && forall i | 0 <= i < |w.clients| :: !w.clients[i].Holding?
  }

  /** What the prefix means for a reader of the tables: a change has a row exactly
      when the cursor has reached it, the row is the change, and every
      acknowledged change has one. */
  lemma CursorTellsRows(w: World, actions: seq<Action>, i: nat)
    requires Fresh(w) && i < |Run(w, actions).node.log|
    ensures var after := Run(w, actions);
            var change := after.node.log[i];
            && ((w.key, change.sequence) in after.tables.applied
                <==> w.key in after.tables.cursors && change.sequence <= after.tables.cursors[w.key].sequence)
            && ((w.key, change.sequence) in after.tables.applied ==> after.tables.applied[(w.key, change.sequence)] == change)
            && (change.sequence <= after.node.acked ==> (w.key, change.sequence) in after.tables.applied)
  {
    var m := RowsAreAlwaysAPrefix(w, 0, actions);
    KeyStays(w, actions);
    PrefixTellsRows(Run(w, actions), m, i);
  }

  lemma {:induction false} KeyStays(w: World, actions: seq<Action>)
    ensures Run(w, actions).key == w.key
    decreases |actions|
  {
    if actions != [] {
      KeyStays(Act(w, actions[0]), actions[1..]);
    }
  }

  lemma PrefixTellsRows(w: World, m: nat, i: nat)
    requires Inv(w, m) && i < |w.node.log|
    ensures var change := w.node.log[i];
            && ((w.key, change.sequence) in w.tables.applied
                <==> w.key in w.tables.cursors && change.sequence <= w.tables.cursors[w.key].sequence)
            && ((w.key, change.sequence) in w.tables.applied ==> w.tables.applied[(w.key, change.sequence)] == change)
            && (change.sequence <= w.node.acked ==> (w.key, change.sequence) in w.tables.applied)
  {
    var log := w.node.log;
    if i < m {
      assert (w.key, log[i].sequence) in w.tables.applied;
      assert i < m - 1 ==> log[i].sequence < log[m - 1].sequence;
    }
  }

  /** No step rewrites or drops a row, moves a cursor or the acknowledged position
      back, or touches another stream except by that stream's own commits. */
  lemma ActMovesForward(w: World, a: Action, key: StreamKey, s: nat)
    ensures var after := Act(w, a);
            && ((key, s) in w.tables.applied ==>
                  (key, s) in after.tables.applied && after.tables.applied[(key, s)] == w.tables.applied[(key, s)])
            && (key in w.tables.cursors ==>
                  key in after.tables.cursors && after.tables.cursors[key].sequence >= w.tables.cursors[key].sequence)
            && w.node.acked <= after.node.acked
            && (key != w.key && !a.Elsewhere? ==>
                  && ((key, s) in after.tables.applied <==> (key, s) in w.tables.applied)
                  && (key in after.tables.cursors <==> key in w.tables.cursors)
                  && (key in w.tables.cursors ==> after.tables.cursors[key] == w.tables.cursors[key]))
  {
    match a
    case Elsewhere(other, change) => DeliverFrame(w.tables, other, change, key, s);
    case Commit(c) =>
      if c < |w.clients| && w.clients[c].Holding? && w.clients[c].next < |w.clients[c].page| {
        DeliverFrame(w.tables, w.key, w.clients[c].page[w.clients[c].next], key, s);
      }
    case _ =>
  }
}
