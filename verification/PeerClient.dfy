/** A light client asking its consensus peers: which peer is asked next, what an
    answer leads to, and when the peer set is replaced. What the network does is
    given by an environment. */
module PeerClient {
  import opened MachineIntegers
  import opened Wrappers
  import opened ForkSchedule
  import opened PeerLog

  datatype Wake = Woken | Stopped | Cancelled

  /** What happens at each moment: who is connected or discovered, how a wait ends,
      what a peer replies, the latest slot an update may be signed in, whom other
      clients of the source ban, and which peer set loses or cannot make which
      connection. */
  datatype Environment = Environment(
    peers: set<Peer>,
    connected: nat -> set<Peer>,
    discovered: nat -> set<Peer>,
    wake: nat -> Wake,
    reply: (nat, Peer, Request) -> Reply,
    limit: nat -> U64,
    othersBan: nat -> seq<Peer>,
    losses: nat -> seq<(nat, Peer)>,
    patience: nat -> nat,          // waits until a request round's deadline
    periods: (nat, U64) -> seq<nat>,
    heads: nat -> nat,             // polls of the attested head before the next refresh
    reconnects: nat -> bool)

  datatype Found = Found(peer: Peer) | NoPeer | Interrupted

  datatype Outcome = Accepted | Retry | Fatal

  /** How far following a source came. */
  datatype End = NotConnected | NotBootstrapped | NotRefreshed | Followed

  /** Between two logs, `request` had this many rounds begun and useful answers, and
      no other request any. */
  ghost predicate Adds(before: seq<Event>, after: seq<Event>, request: Request, rounds: nat, taken: nat) {
    && (forall r :: Opened(after, r) == Opened(before, r) + if r == request then rounds else 0)
    && forall r :: Taken(after, r) == Taken(before, r) + if r == request then taken else 0
  }

  /** Each of the periods had an update taken. */
  ghost predicate AllSynced(before: seq<Event>, after: seq<Event>, periods: seq<nat>) {
    forall i | 0 <= i < |periods| :: Taken(after, Update(periods[i])) > Taken(before, Update(periods[i]))
  }

  ghost predicate AddsNothing(before: seq<Event>, after: seq<Event>) {
    && (forall r :: Opened(after, r) == Opened(before, r) && Taken(after, r) == Taken(before, r))
    && SameHeads(before, after)
  }

  ghost predicate SameHeads(before: seq<Event>, after: seq<Event>) {
    forall h :: NewHeads(after, h) == NewHeads(before, h)
  }

  /** The same but for updates of periods, which a finality round may sync first. */
  ghost predicate AddsFinality(before: seq<Event>, after: seq<Event>, rounds: nat, taken: nat) {
    && (forall r: Request | !r.Update? :: Opened(after, r) == Opened(before, r) + if r.Finality? then rounds else 0)
    && forall r: Request | !r.Update? :: Taken(after, r) == Taken(before, r) + if r.Finality? then taken else 0
  }

  /** Nothing but heads was asked for. */
  ghost predicate AddsHead(before: seq<Event>, after: seq<Event>) {
    forall r: Request | !r.Optimistic? :: Opened(after, r) == Opened(before, r) && Taken(after, r) == Taken(before, r)
  }

  /** The swarm of a peer set: the peers it dialed, and how often it has redialed
      each. */
  datatype Swarm = Swarm(peers: set<Peer>, attempts: map<Peer, nat>) {
    function Attempts(peer: Peer): nat {
      if peer in attempts then attempts[peer] else 0
    }

    predicate Redials(peer: Peer) {
      peer in peers && Attempts(peer) < MAX_PEER_REDIALS
    }

    function Redialed(peer: Peer): Swarm {
      this.(attempts := attempts[peer := Attempts(peer) + 1])
    }
  }

  /** Each swarm holds the peers its set dialed and has counted its redials. */
  ghost predicate Tracks(swarms: seq<Swarm>, log: seq<Event>) {
    && |swarms| == Sets(log)
    && (forall s | 0 <= s < |swarms| :: swarms[s].peers == DialedBy(log, s))
    && (forall s, peer | 0 <= s < |swarms| :: swarms[s].Attempts(peer) == RedialsBy(log, s, peer))
    && (forall s, peer :: RedialsBy(log, s, peer) <= MAX_PEER_REDIALS)
  }

  lemma TracksBegun(swarms: seq<Swarm>, log: seq<Event>)
    requires Safe(log) && Tracks(swarms, log)
    ensures Tracks(swarms + [Swarm({}, map[])], log + [Snapshot(|swarms|)])
  {
    NeverBegun(log, |swarms|);
    SetsAppend(log, Snapshot(|swarms|));
  }

  lemma TracksRedialed(swarms: seq<Swarm>, log: seq<Event>, id: nat, peer: Peer)
    requires Safe(log) && Tracks(swarms, log) && id < |swarms| && swarms[id].Redials(peer)
    ensures Tracks(swarms[id := swarms[id].Redialed(peer)], log + [Redial(id, peer)])
  {
    SetsAppend(log, Redial(id, peer));
  }

  ghost predicate BannedElsewhere(env: Environment, peer: Peer) {
    exists t :: peer in env.othersBan(t)
  }

  class Client {
    const env: Environment
    const rules: Rules
    ghost const honest: iset<Peer>
    var now: nat
    var rounds: nat
    var banned: set<Peer>
    var swarms: seq<Swarm>
    ghost var log: seq<Event>

    constructor (env: Environment, sha: Sha, network: Schedule)
      ensures Quiet() && log == [] && banned == {} && swarms == [] && this.env == env
      ensures honest == iset peer | AlwaysHonest(sha, network, env, peer)
    {
      this.env, rules := env, RulesOf(sha, network);
      honest := iset peer | AlwaysHonest(sha, network, env, peer);
      now, rounds, banned, swarms, log := 0, 0, {}, [], [];
      new;
      forall peer | peer in honest ensures AlwaysSpared(rules, env, peer) {
        HonestIsAlwaysSpared(sha, network, env, peer);
      }
    }

    /** The client's bans are the log's, its log is safe, its swarms' counters are
        right, the rounds not yet begun have asked nobody, and no honest peer is or
        will be banned by this client. */
    ghost predicate Valid()
      reads this
    {
      && Safe(log) && banned == BannedIn(log) && Tracks(swarms, log)
      && (forall round | round >= rounds :: PickedIn(log, round) == {})
      && (forall i | 0 <= i < |log| && log[i].Ban? :: log[i].peer !in honest)
      && (forall i | 0 <= i < |log| && log[i].OthersBan? :: BannedElsewhere(env, log[i].peer))
      && (Condemned(LastOwn(log)) ==> LastOwn(log).value.peer !in honest)
      && forall peer | peer in honest :: AlwaysSpared(rules, env, peer)
    }

    /** Nothing is left to be banned for. */
    ghost predicate Quiet()
      reads this
    {
      Valid() && !Condemned(LastOwn(log))
    }

    ghost method Note(e: Event)
      requires Valid() && Legal(log, e) && (e.Open? || e.Pick? || e.Ask? || e.Answered?) && (e.Pick? ==> e.round < rounds)
      requires Condemned(Some(e)) ==> e.peer !in honest
      modifies `log
      ensures Valid() && log == old(log) + [e]
      ensures LastOwn(log) == Some(e) && BannedAtOwn(log) == BannedIn(log)
      ensures forall round :: PickedIn(log, round) ==
                              PickedIn(old(log), round) + (if e.Pick? && e.round == round then {e.peer} else {})
      ensures forall peer, request :: AskedIn(log, peer, request) <==>
                AskedIn(old(log), peer, request) || (e.Ask? && e.peer == peer && e.request == request)
      ensures !e.Open? && !e.Answered? ==> AddsNothing(old(log), log)
      ensures e.Open? ==> Adds(old(log), log, e.request, 1, 0) && SameHeads(old(log), log)
      ensures e.Answered? ==>
                forall h :: NewHeads(log, h) == NewHeads(old(log), h) + if NewHead(e.request, e.answer, h) then 1 else 0
      ensures e.Answered? ==> Adds(old(log), log, e.request, 0, if Useful(e.request, e.answer) then 1 else 0)
    {
      Appends(log, e);
      log := log + [e];
    }

    method BanPeer(peer: Peer)
      requires Valid() && Condemned(LastOwn(log)) && LastOwn(log).value.peer == peer
      modifies `banned, `log
      ensures Quiet() && banned == old(banned) + {peer} && log == old(log) + [Ban(peer)]
      ensures AddsNothing(old(log), log)
      ensures forall round :: PickedIn(log, round) == PickedIn(old(log), round)
    {
      Appends(log, Ban(peer));
      banned := banned + {peer};
      log := log + [Ban(peer)];
    }

    /** Other clients of the source ban peers, and swarms lose connections, at any
        moment. */
    method Pass()
      requires Valid()
      modifies `now, `banned, `swarms, `log
      ensures Valid() && Unnoticed(old(log), log) && now > old(now) && |swarms| == old(|swarms|)
    {
      OthersBanPeers(env.othersBan(now));
      ConnectionsAreLost(env.losses(now));
      now := now + 1;
    }

    method OthersBanPeers(peers: seq<Peer>)
      requires Valid() && forall i | 0 <= i < |peers| :: BannedElsewhere(env, peers[i])
      modifies `banned, `log
      ensures Valid() && Unnoticed(old(log), log)
      ensures forall i | 0 <= i < |peers| :: peers[i] in banned
    {
      for i := 0 to |peers|
        invariant Valid() && Unnoticed(old(log), log)
        invariant forall j | 0 <= j < i :: peers[j] in banned
      {
        OthersBanPeer(peers[i]);
      }
    }

    method OthersBanPeer(peer: Peer)
      requires Valid() && BannedElsewhere(env, peer)
      modifies `banned, `log
      ensures Valid() && Unnoticed(old(log), log)
      ensures banned == old(banned) + {peer} && log == old(log) + [OthersBan(peer)]
    {
      HappensUnnoticed(log, OthersBan(peer));
      banned := banned + {peer};
      log := log + [OthersBan(peer)];
    }

    /** Each is dialed again, unless its peer is not of the set or was dialed again
        often enough. */
    method ConnectionsAreLost(losses: seq<(nat, Peer)>)
      requires Valid()
      modifies `swarms, `log
      ensures Valid() && Unnoticed(old(log), log) && |swarms| == old(|swarms|)
      ensures forall i | 0 <= i < |losses| :: Retried(old(log), log, losses[i].0, losses[i].1)
    {
      for i := 0 to |losses|
        invariant Valid() && Unnoticed(old(log), log) && |swarms| == old(|swarms|)
        invariant OnlyRedials(old(log), log)
        invariant forall j | 0 <= j < i :: Retried(old(log), log, losses[j].0, losses[j].1)
      {
        LoseConnection(losses[i].0, losses[i].1);
      }
    }

    /** The swarm of a peer set lost its last connection to a peer, or could not
        make one: a peer of the set is dialed again, until the swarm's own counter
        for it is used up. Bans are not looked at. */
    method LoseConnection(id: nat, peer: Peer)
      requires Valid()
      modifies `swarms, `log
      ensures Valid() && Unnoticed(old(log), log) && |swarms| == old(|swarms|)
      ensures log == old(log) + (if peer in DialedBy(old(log), id) && RedialsBy(old(log), id, peer) < MAX_PEER_REDIALS
                                 then [Redial(id, peer)] else [])
      ensures OnlyRedials(old(log), log) && Retried(old(log), log, id, peer)
    {
      if id >= |swarms| {
        NeverBegun(log, id);
      } else if swarms[id].Redials(peer) {
        TracksRedialed(swarms, log, id, peer);
        HappensUnnoticed(log, Redial(id, peer));
        SetsAppend(log, Redial(id, peer));
        swarms := swarms[id := swarms[id].Redialed(peer)];
        log := log + [Redial(id, peer)];
      }
    }

    /** The next connected peer not yet tried or banned, waiting for one until the
        deadline. */
    method NextPeer(round: nat, tried: set<Peer>, patience: nat) returns (found: Found, left: nat)
      requires Quiet() && round < rounds && tried == PickedIn(log, round)
      modifies `now, `banned, `swarms, `log
      ensures Quiet() && old(log) <= log && left <= patience && now >= old(now) && AddsNothing(old(log), log)
      ensures found.Found? ==>
                && found.peer !in tried && found.peer in env.peers
                && LastOwn(log) == Some(Pick(round, found.peer))
      ensures !found.Found? ==> env.connected(now) * env.peers <= tried + banned
      ensures forall r :: PickedIn(log, r) ==
                          PickedIn(old(log), r) + (if found.Found? && r == round then {found.peer} else {})
    {
      left := patience;
      while true
        invariant Quiet() && old(log) <= log && left <= patience && now >= old(now) && AddsNothing(old(log), log)
        invariant forall r :: PickedIn(log, r) == PickedIn(old(log), r)
        decreases left
      {
        Pass();
        var candidates := env.connected(now) * env.peers - tried - banned;
        if candidates != {} {
          var peer :| peer in candidates;
          Note(Pick(round, peer));
          return Found(peer), left;
        }
        if left == 0 {
          return NoPeer, left;
        }
        match env.wake(now) {
          case Stopped => return NoPeer, left;
          case Cancelled => return Interrupted, left;
          case Woken => left := left - 1;
        }
      }
    }

    /** Ask the next peer. */
    method AskNext(round: nat, tried: set<Peer>, patience: nat, request: Request)
      returns (found: Found, reply: Reply, left: nat)
      requires Quiet() && round < rounds && tried == PickedIn(log, round)
      modifies `now, `banned, `swarms, `log
      ensures Quiet() && old(log) <= log && left <= patience && now >= old(now) && AddsNothing(old(log), log)
      ensures found.Found? ==>
                && found.peer !in tried && found.peer in env.peers && AskedIn(log, found.peer, request)
                && reply == env.reply(now, found.peer, request)
      ensures !found.Found? ==> env.connected(now) * env.peers <= tried + banned
      ensures forall r :: PickedIn(log, r) ==
                          PickedIn(old(log), r) + (if found.Found? && r == round then {found.peer} else {})
    {
      reply := NoReply;
      found, left := NextPeer(round, tried, patience);
      if found.Found? {
        Pass();
        Note(Ask(round, found.peer, request));
        reply := env.reply(now, found.peer, request);
      }
    }

    ghost method Judge(peer: Peer, request: Request, answer: Answer)
      requires Quiet() && AskedIn(log, peer, request) && (Damning(request, answer) ==> peer !in honest)
      modifies `log
      ensures Valid() && old(log) <= log && LastOwn(log) == Some(Answered(peer, request, answer))
      ensures Adds(old(log), log, request, 0, if Useful(request, answer) then 1 else 0)
      ensures forall h :: NewHeads(log, h) == NewHeads(old(log), h) + if NewHead(request, answer, h) then 1 else 0
      ensures forall r :: PickedIn(log, r) == PickedIn(old(log), r)
    {
      Note(Answered(peer, request, answer));
    }

    method NewRound(request: Request) returns (round: nat)
      requires Quiet()
      modifies `rounds, `log
      ensures Quiet() && round == old(rounds) && rounds == round + 1 && PickedIn(log, round) == {}
      ensures old(log) <= log && LastOwn(log) == Some(Open(round, request)) && Adds(old(log), log, request, 1, 0)
      ensures SameHeads(old(log), log)
      ensures forall r :: PickedIn(log, r) == PickedIn(old(log), r)
    {
      round := rounds;
      rounds := rounds + 1;
      Note(Open(round, request));
    }

    /** Ask peers until one's material is accepted. Stale material is skipped,
        an unusable checkpoint ends the request, anything else refused bans its
        peer. */
    method RequestVerified(request: Request) returns (outcome: Outcome)
      requires Quiet() && (request.Bootstrap? || request.Update?)
      modifies this
      ensures Quiet() && old(log) <= log && rounds == old(rounds) + 1 && now >= old(now)
      ensures SameRounds(old(log), log, old(rounds))
      ensures Adds(old(log), log, request, 1, if outcome == Accepted then 1 else 0)
      ensures outcome == Retry ==> env.connected(now) * env.peers <= PickedIn(log, old(rounds)) + banned
      ensures outcome != Retry ==> EndsWith(log, request) && outcome == Ending(LastOwn(log).value.answer).value
    {
      var round := NewRound(request);
      outcome := AskUntilAccepted(round, request, env.patience(round));
    }

    method AskUntilAccepted(round: nat, request: Request, deadline: nat) returns (outcome: Outcome)
      requires Quiet() && round < rounds && PickedIn(log, round) == {} && (request.Bootstrap? || request.Update?)
      modifies `now, `banned, `swarms, `log
      ensures Quiet() && old(log) <= log && now >= old(now)
      ensures forall r | r != round :: PickedIn(log, r) == PickedIn(old(log), r)
      ensures Adds(old(log), log, request, 0, if outcome == Accepted then 1 else 0)
      ensures outcome == Retry ==> env.connected(now) * env.peers <= PickedIn(log, round) + banned
      ensures outcome != Retry ==> EndsWith(log, request) && outcome == Ending(LastOwn(log).value.answer).value
    {
      var tried: set<Peer> := {};
      var patience := deadline;
      while true
        invariant Quiet() && old(log) <= log && now >= old(now)
        invariant Adds(old(log), log, request, 0, 0)
        invariant tried == PickedIn(log, round) && tried <= env.peers
        invariant forall r | r != round :: PickedIn(log, r) == PickedIn(old(log), r)
        decreases env.peers - tried
      {
        var found, ends;
        found, ends, patience := AskAndAccept(round, tried, patience, request);
        if !found.Found? {
          return Retry;
        }
        tried := tried + {found.peer};
        if ends.Some? {
          return ends.value;
        }
      }
    }

    /** Ask the next peer and judge its answer. */
    method AskAndAccept(round: nat, tried: set<Peer>, patience: nat, request: Request)
      returns (found: Found, ends: Option<Outcome>, left: nat)
      requires Quiet() && round < rounds && tried == PickedIn(log, round) && (request.Bootstrap? || request.Update?)
      modifies `now, `banned, `swarms, `log
      ensures Quiet() && old(log) <= log && left <= patience && now >= old(now)
      ensures found.Found? ==> found.peer !in tried && found.peer in env.peers
      ensures !found.Found? ==> env.connected(now) * env.peers <= tried + banned
      ensures ends.Some? ==> found.Found? && EndsWith(log, request) && ends == Ending(LastOwn(log).value.answer)
      ensures Adds(old(log), log, request, 0, if ends == Some(Accepted) then 1 else 0)
      ensures forall r :: PickedIn(log, r) ==
                          PickedIn(old(log), r) + (if found.Found? && r == round then {found.peer} else {})
    {
      var reply;
      ends := None;
      found, reply, left := AskNext(round, tried, patience, request);
      if found.Found? {
        ends := AcceptVerified(found.peer, request, reply);
      }
    }

    method AcceptVerified(peer: Peer, request: Request, reply: Reply) returns (ends: Option<Outcome>)
      requires Quiet() && AskedIn(log, peer, request) && (request.Bootstrap? || request.Update?)
      requires reply == env.reply(now, peer, request)
      modifies `banned, `log
      ensures Quiet() && old(log) <= log
      ensures forall r :: PickedIn(log, r) == PickedIn(old(log), r)
      ensures ends == Ending(AnswerOf(rules, request, reply, env.limit(now)))
      ensures Adds(old(log), log, request, 0, if ends == Some(Accepted) then 1 else 0)
      ensures ends.Some? ==> LastOwn(log) == Some(Answered(peer, request, AnswerOf(rules, request, reply, env.limit(now))))
    {
      var answer := AnswerOf(rules, request, reply, env.limit(now));
      assert peer in honest ==> AlwaysSpared(rules, env, peer);
      Judge(peer, request, answer);
      match answer {
        case Good(_, _) => return Some(Accepted);
        case Missing =>
        case Refused(error) =>
          if error == StaleUpdate {
          } else if error == CheckpointTooOld || error == InvalidCheckpointTime {
            return Some(Fatal);
          } else {
            BanPeer(peer);
          }
        case Malformed => BanPeer(peer);
        case Different => BanPeer(peer);
      }
      return None;
    }

    /** Ask peers for the latest finality update until one verifies, syncing the
        periods its signature needs first. */
    method RefreshOnce() returns (refreshed: bool)
      requires Quiet()
      modifies this
      ensures refreshed ==> Numbered(log, Finality)
      ensures AddsFinality(old(log), log, 1, if refreshed then 1 else 0)
      ensures !refreshed && rounds == old(rounds) + 1 ==>
                env.connected(now) * env.peers <= PickedIn(log, old(rounds)) + banned
      ensures Quiet() && old(log) <= log && rounds >= old(rounds) && now >= old(now)
    {
      var round := NewRound(Finality);
      var tried: set<Peer> := {};
      var patience := env.patience(round);
      while true
        invariant Quiet() && old(log) <= log && rounds > round == old(rounds) && now >= old(now)
        invariant AddsFinality(old(log), log, 1, 0)
        invariant tried == PickedIn(log, round) && tried <= env.peers
        decreases env.peers - tried
      {
        var found, reply;
        found, reply, patience := AskNext(round, tried, patience, Finality);
        if !found.Found? {
          return false;
        }
        tried := tried + {found.peer};
        var done := TryFinality(round, found.peer, reply);
        if done.Some? {
          return done.value;
        }
      }
    }

    /** Whether the refresh ends here, and how. */
    method TryFinality(round: nat, peer: Peer, reply: Reply) returns (done: Option<bool>)
      requires Quiet() && round < rounds && AskedIn(log, peer, Finality)
      requires reply == env.reply(now, peer, Finality)
      modifies this
      ensures Quiet() && old(log) <= log && rounds >= old(rounds) && now >= old(now)
      ensures PickedIn(log, round) == PickedIn(old(log), round)
      ensures done == Some(true) ==>
                && Numbered(log, Finality) && reply.Payload? && reply.material.Some?
                && AllSynced(old(log), log, env.periods(old(now), reply.material.value.signatureSlot))
      ensures AddsFinality(old(log), log, 0, if done == Some(true) then 1 else 0)
      ensures done == Some(false) ==> rounds > old(rounds)
    {
      ghost var asked := now;
      var answer := AnswerOf(rules, Finality, reply, env.limit(now));
      if answer.Good? || answer.Refused? {
        var signed := reply.material.value;
        var synced := SyncPeriods(round, env.periods(now, signed.signatureSlot));
        if !synced {
          return Some(false);
        }
        answer := Verify(signed, env.limit(now));
      }
      assert peer in honest ==> Spared(rules, Finality, reply, env.limit(asked), env.limit(now));
      var accepted := AcceptFinality(peer, answer);
      return if accepted then Some(true) else None;
    }

    method SyncPeriods(round: nat, periods: seq<nat>) returns (synced: bool)
      requires Quiet() && round < rounds
      modifies this
      ensures !synced ==> rounds > old(rounds)
      ensures synced ==> AllSynced(old(log), log, periods)
      ensures AddsFinality(old(log), log, 0, 0)
      ensures Quiet() && old(log) <= log && rounds >= old(rounds) && now >= old(now)
      ensures PickedIn(log, round) == PickedIn(old(log), round)
      ensures forall peer, request :: AskedIn(old(log), peer, request) ==> AskedIn(log, peer, request)
    {
      for i := 0 to |periods|
        invariant Quiet() && old(log) <= log && rounds >= old(rounds) && now >= old(now)
        invariant PickedIn(log, round) == PickedIn(old(log), round) && AddsFinality(old(log), log, 0, 0)
        invariant AllSynced(old(log), log, periods[..i])
        invariant forall r :: Taken(log, r) >= Taken(old(log), r)
      {
        synced := SyncPeriod(round, periods[i]);
        if !synced {
          AskedStays(old(log), log);
          return;
        }
      }
      AskedStays(old(log), log);
      assert periods[..|periods|] == periods;
      return true;
    }

    method SyncPeriod(round: nat, period: nat) returns (synced: bool)
      requires Quiet() && round < rounds
      modifies this
      ensures rounds > old(rounds) && AddsFinality(old(log), log, 0, 0)
      ensures Quiet() && old(log) <= log && now >= old(now) && PickedIn(log, round) == PickedIn(old(log), round)
      ensures forall r :: Taken(log, r) == Taken(old(log), r) + if r == Update(period) && synced then 1 else 0
    {
      var outcome := RequestVerified(Update(period));
      synced := outcome == Accepted;
    }

    /** An update ahead of the clock by no more than an epoch, a stale one, and one
        whose block cannot be numbered are skipped. */
    method AcceptFinality(peer: Peer, answer: Answer) returns (done: bool)
      requires Quiet() && AskedIn(log, peer, Finality) && (Damning(Finality, answer) ==> peer !in honest)
      modifies `banned, `log
      ensures Quiet() && old(log) <= log
      ensures forall r :: PickedIn(log, r) == PickedIn(old(log), r)
      ensures done <==> answer.Good? && answer.numbered
      ensures Adds(old(log), log, Finality, 0, if done then 1 else 0)
      ensures done ==> LastOwn(log) == Some(Answered(peer, Finality, answer))
    {
      Judge(peer, Finality, answer);
      match answer {
        case Good(_, numbered) => return numbered;
        case Missing =>
        case Ahead(signatureSlot, limit) =>
          if ImplausiblyAhead(signatureSlot, limit) {
            BanPeer(peer);
          }
        case Refused(error) =>
          if error != StaleUpdate {
            BanPeer(peer);
          }
        case _ => BanPeer(peer);
      }
      return false;
    }

    /** Ask peers for an attested head newer than `published`. Only the first peer
        is waited for. */
    method AttestedHead(published: Option<nat>) returns (head: Option<nat>)
      requires Quiet()
      modifies this
      ensures Quiet() && old(log) <= log && rounds >= old(rounds) && now >= old(now)
      ensures head.Some? && published.Some? ==> head.value > published.value
      ensures head.Some? ==> Numbered(log, Optimistic) && LastOwn(log).value.answer.beaconSlot == head.value
      ensures head.None? ==> env.connected(now) * env.peers <= PickedIn(log, old(rounds)) + banned
      ensures AddsHead(old(log), log) && Opened(log, Optimistic) == Opened(old(log), Optimistic) + 1
      ensures NewHeads(log, published) == NewHeads(old(log), published) + if head.Some? then 1 else 0
    {
      var round := NewRound(Optimistic);
      head := AskUntilNewer(round, published, env.patience(round));
    }

    method AskUntilNewer(round: nat, published: Option<nat>, patience: nat) returns (head: Option<nat>)
      requires Quiet() && round < rounds && PickedIn(log, round) == {}
      modifies `now, `banned, `swarms, `log
      ensures Quiet() && old(log) <= log && now >= old(now)
      ensures head.Some? && published.Some? ==> head.value > published.value
      ensures head.Some? ==> Numbered(log, Optimistic) && LastOwn(log).value.answer.beaconSlot == head.value
      ensures head.None? ==> env.connected(now) * env.peers <= PickedIn(log, round) + banned
      ensures AddsHead(old(log), log) && Opened(log, Optimistic) == Opened(old(log), Optimistic)
      ensures NewHeads(log, published) == NewHeads(old(log), published) + if head.Some? then 1 else 0
    {
      var tried: set<Peer> := {};
      while true
        invariant Quiet() && old(log) <= log && now >= old(now)
        invariant AddsHead(old(log), log) && Opened(log, Optimistic) == Opened(old(log), Optimistic)
        invariant NewHeads(log, published) == NewHeads(old(log), published)
        invariant tried == PickedIn(log, round) && tried <= env.peers
        decreases env.peers - tried
      {
        var found, answer := AskForHead(round, tried, if tried == {} then patience else 0);
        if !found.Found? {
          return None;
        }
        tried := tried + {found.peer};
        if answer.Good? && !(published.Some? && answer.beaconSlot <= published.value) && answer.numbered {
          return Some(answer.beaconSlot);
        }
      }
    }

    method AskForHead(round: nat, tried: set<Peer>, patience: nat) returns (found: Found, answer: Answer)
      requires Quiet() && round < rounds && tried == PickedIn(log, round)
      modifies `now, `banned, `swarms, `log
      ensures Quiet() && old(log) <= log && now >= old(now)
      ensures found.Found? ==> found.peer !in tried && found.peer in env.peers
      ensures found.Found? && answer.Good? ==> LastOwn(log) == Some(Answered(found.peer, Optimistic, answer))
      ensures AddsHead(old(log), log) && Opened(log, Optimistic) == Opened(old(log), Optimistic)
      ensures forall h :: NewHeads(log, h) ==
                          NewHeads(old(log), h) + if found.Found? && NewHead(Optimistic, answer, h) then 1 else 0
      ensures !found.Found? ==> env.connected(now) * env.peers <= tried + banned
      ensures forall r :: PickedIn(log, r) ==
                          PickedIn(old(log), r) + (if found.Found? && r == round then {found.peer} else {})
    {
      var reply, left;
      answer := Missing;
      found, reply, left := AskNext(round, tried, patience, Optimistic);
      if found.Found? {
        answer := AcceptHead(found.peer, reply);
      }
    }

    /** A stale head and one signed by too few are skipped. */
    method AcceptHead(peer: Peer, reply: Reply) returns (answer: Answer)
      requires Quiet() && AskedIn(log, peer, Optimistic)
      requires reply == env.reply(now, peer, Optimistic)
      modifies `banned, `log
      ensures Quiet() && old(log) <= log
      ensures answer == AnswerOf(rules, Optimistic, reply, env.limit(now))
      ensures Adds(old(log), log, Optimistic, 0, if Useful(Optimistic, answer) then 1 else 0)
      ensures forall h :: NewHeads(log, h) == NewHeads(old(log), h) + if NewHead(Optimistic, answer, h) then 1 else 0
      ensures answer.Good? ==> LastOwn(log) == Some(Answered(peer, Optimistic, answer))
      ensures forall r :: PickedIn(log, r) == PickedIn(old(log), r)
    {
      answer := AnswerOf(rules, Optimistic, reply, env.limit(now));
      assert peer in honest ==> AlwaysSpared(rules, env, peer);
      Judge(peer, Optimistic, answer);
      match answer {
        case Good(_, _) =>
        case Missing =>
        case Refused(error) =>
          if error != StaleUpdate && error != InsufficientParticipation {
            BanPeer(peer);
          }
        case Malformed => BanPeer(peer);
        case Different => BanPeer(peer);
      }
    }

    /** A new peer set begins, without peers yet. */
    method Begin()
      requires Quiet()
      modifies `swarms, `log
      ensures Quiet() && log == old(log) + [Snapshot(old(|swarms|))] && |swarms| == old(|swarms|) + 1
      ensures LastOwn(log) == Some(Snapshot(old(|swarms|))) && BannedAtOwn(log) == banned
      ensures AddsNothing(old(log), log)
    {
      TracksBegun(swarms, log);
      Appends(log, Snapshot(|swarms|));
      log := log + [Snapshot(|swarms|)];
      swarms := swarms + [Swarm({}, map[])];
    }

    method Connect(id: nat, peers: set<Peer>)
      requires Quiet() && LastOwn(log) == Some(Snapshot(id)) && peers !! BannedAtOwn(log) && id < |swarms|
      modifies `swarms, `log
      ensures LastOwn(log) == Some(Dial(id, peers))
      ensures Quiet() && log == old(log) + [Dial(id, peers)] && |swarms| == old(|swarms|) && AddsNothing(old(log), log)
    {
      Appends(log, Dial(id, peers));
      swarms := swarms[id := swarms[id].(peers := swarms[id].peers + peers)];
      log := log + [Dial(id, peers)];
    }

    /** Open another peer set, without the peers banned when it begins: they are
        discovered and dialed later. */
    method Reconnect() returns (connected: bool)
      requires Quiet()
      modifies `now, `banned, `swarms, `log
      ensures Quiet() && old(log) <= log && now >= old(now)
      ensures connected == env.reconnects(now) && |swarms| == old(|swarms|) + 1 && AddsNothing(old(log), log)
      ensures LastOwn(log) == Some(Dial(old(|swarms|), env.discovered(now) - old(banned)))
    {
      var id := |swarms|;
      var snapshot := banned;
      Begin();
      Pass();
      Connect(id, env.discovered(now) - snapshot);
      connected := env.reconnects(now);
    }

    /** Refresh finality, over another peer set when the first serves none, and
        then the attested head. */
    method Refresh(published: Option<nat>) returns (refreshed: bool, head: Option<nat>)
      requires Quiet()
      modifies this
      ensures Quiet() && old(log) <= log && rounds >= old(rounds) && now >= old(now)
      ensures head.Some? ==> refreshed && (published.Some? ==> head.value > published.value)
      ensures forall r: Request | r.Bootstrap? :: Opened(log, r) == Opened(old(log), r) && Taken(log, r) == Taken(old(log), r)
      ensures Opened(old(log), Finality) + 1 <= Opened(log, Finality) <= Opened(old(log), Finality) + 2
      ensures Taken(log, Finality) == Taken(old(log), Finality) + if refreshed then 1 else 0
      ensures !refreshed ==> Sets(log) > Sets(old(log))
    {
      head := None;
      refreshed := RefreshOnce();
      if !refreshed {
        SetsStay(old(log), log);
        var connected := Reconnect();
        ghost var reconnected := log;
        if !connected {
          return;
        }
        refreshed := RefreshOnce();
        if !refreshed {
          SetsStay(reconnected, log);
          return;
        }
      }
      head := AttestedHead(published);
    }

    /** Bootstrap from `root`, over another peer set when the first serves no
        bootstrap. */
    method BootstrapClient(root: nat) returns (bootstrapped: bool)
      requires Quiet()
      modifies this
      ensures Quiet() && old(log) <= log
      ensures bootstrapped ==> EndsWith(log, Bootstrap(root)) && Ending(LastOwn(log).value.answer) == Some(Accepted)
      ensures !bootstrapped ==>
                || Sets(log) > Sets(old(log))
                || (EndsWith(log, Bootstrap(root)) && Ending(LastOwn(log).value.answer) == Some(Fatal))
      ensures Opened(old(log), Bootstrap(root)) + 1 <= Opened(log, Bootstrap(root)) <= Opened(old(log), Bootstrap(root)) + 2
      ensures Adds(old(log), log, Bootstrap(root), Opened(log, Bootstrap(root)) - Opened(old(log), Bootstrap(root)),
                   if bootstrapped then 1 else 0)
    {
      var outcome := RequestVerified(Bootstrap(root));
      if outcome == Retry {
        SetsStay(old(log), log);
        var connected := Reconnect();
        ghost var reconnected := log;
        if !connected {
          return false;
        }
        outcome := RequestVerified(Bootstrap(root));
        SetsStay(reconnected, log);
      }
      return outcome == Accepted;
    }

    method BootstrapFromEither(start: nat, persisted: bool, checkpoint: nat) returns (bootstrapped: bool)
      requires Quiet()
      modifies this
      ensures Quiet() && old(log) <= log
      ensures Bootstraps(old(log), log, start, persisted, checkpoint, bootstrapped)
      ensures forall r: Request | !r.Bootstrap? :: Opened(log, r) == Opened(old(log), r) && Taken(log, r) == Taken(old(log), r)
    {
      bootstrapped := BootstrapClient(start);
      if !bootstrapped && persisted {
        bootstrapped := BootstrapClient(checkpoint);
      }
    }

    /** Connect and bootstrap, from the checkpoint when nothing serves a persisted
        start, and verify finality once. */
    method ConnectAndSync(start: nat, persisted: bool, checkpoint: nat, published: Option<nat>)
      returns (end: End, head: Option<nat>)
      requires Quiet()
      modifies this
      ensures Quiet() && old(log) <= log
      ensures Reaches(old(log), log, start, persisted, checkpoint, end)
      ensures Opened(log, Finality) <= Opened(old(log), Finality) + 2
    {
      head := None;
      var connected := Reconnect();
      if !connected {
        return NotConnected, head;
      }
      var bootstrapped := BootstrapFromEither(start, persisted, checkpoint);
      if !bootstrapped {
        return NotBootstrapped, head;
      }
      var refreshed;
      refreshed, head := Refresh(published);
      end := if refreshed then Followed else NotRefreshed;
    }

    /** Follow a source: connect and sync, and then refresh as often as asked;
        between two, only the head. */
    method Follow(start: nat, persisted: bool, checkpoint: nat, refreshes: nat) returns (end: End)
      requires Quiet()
      modifies this
      ensures Quiet() && old(log) <= log
      ensures Reaches(old(log), log, start, persisted, checkpoint, end)
      ensures end == Followed ==> Opened(log, Finality) >= Opened(old(log), Finality) + 1 + refreshes
    {
      var published: Option<nat> := None;
      var head;
      end, head := ConnectAndSync(start, persisted, checkpoint, published);
      published := if head.Some? then head else published;
      if end != Followed {
        return;
      }
      for i := 0 to refreshes
        invariant Quiet() && old(log) <= log && Reaches(old(log), log, start, persisted, checkpoint, Followed)
        invariant Opened(log, Finality) >= Opened(old(log), Finality) + 1 + i
      {
        published := PollHeads(env.heads(now), published);
        var refreshed;
        refreshed, head := Refresh(published);
        published := if head.Some? then head else published;
      }
    }

    method PollHeads(polls: nat, published: Option<nat>) returns (newest: Option<nat>)
      requires Quiet()
      modifies this
      ensures Quiet() && old(log) <= log && AddsHead(old(log), log)
      ensures Opened(log, Optimistic) == Opened(old(log), Optimistic) + polls
      ensures published.Some? ==> newest.Some? && newest.value >= published.value
    {
      newest := published;
      for i := 0 to polls
        invariant Quiet() && old(log) <= log && AddsHead(old(log), log)
        invariant Opened(log, Optimistic) == Opened(old(log), Optimistic) + i
        invariant published.Some? ==> newest.Some? && newest.value >= published.value
      {
        var head := AttestedHead(newest);
        newest := if head.Some? then head else newest;
      }
    }
  }

  /** Bootstraps were asked for from the start and, if that is a persisted one that
      gave none, from the checkpoint, and from nowhere else; `done` tells whether one
      was taken. */
  ghost predicate Bootstraps(before: seq<Event>, after: seq<Event>, start: nat, persisted: bool, checkpoint: nat, done: bool) {
    && Opened(after, Bootstrap(start)) > Opened(before, Bootstrap(start))
    && (forall root | root != start && !(persisted && root == checkpoint) ::
          Opened(after, Bootstrap(root)) == Opened(before, Bootstrap(root)))
    && (persisted && checkpoint != start ==>
          (Opened(after, Bootstrap(checkpoint)) > Opened(before, Bootstrap(checkpoint)) <==>
           Taken(after, Bootstrap(start)) == Taken(before, Bootstrap(start))))
    && (persisted && checkpoint == start && !done ==> Opened(after, Bootstrap(start)) >= Opened(before, Bootstrap(start)) + 2)
    && (done <==> Taken(after, Bootstrap(start)) > Taken(before, Bootstrap(start))
                  || Taken(after, Bootstrap(checkpoint)) > Taken(before, Bootstrap(checkpoint)))
  }

  /** What was asked and taken by the time following a source came to `end`: nothing
      without a connection; then bootstraps; and finality only once one of those was
      taken. */
  ghost predicate Reaches(before: seq<Event>, after: seq<Event>, start: nat, persisted: bool, checkpoint: nat, end: End) {
    && (end.NotConnected? ==> AddsNothing(before, after))
    && (!end.NotConnected? ==> Bootstraps(before, after, start, persisted, checkpoint, !end.NotBootstrapped?))
    && (if end.NotConnected? || end.NotBootstrapped? then Opened(after, Finality) == Opened(before, Finality)
        else Opened(after, Finality) > Opened(before, Finality))
    && (end.Followed? <==> Taken(after, Finality) > Taken(before, Finality))
  }

  /** Over a whole run of a client: its log is safe, it never bans a peer that is
      honest whenever its replies are judged, slightly early ones included, so that
      whoever is banned was banned elsewhere or was not honest, and each of its
      swarms redials a peer at most twice, which bounds the redials of each. */
  method FollowSource(env: Environment, sha: Sha, network: Schedule, start: nat, persisted: bool, checkpoint: nat, refreshes: nat)
    returns (end: End, banned: set<Peer>, ghost log: seq<Event>)
    ensures Safe(log) && banned == BannedIn(log)
    ensures Reaches([], log, start, persisted, checkpoint, end)
    ensures end.Followed? ==> Opened(log, Finality) >= 1 + refreshes
    ensures forall i | 0 <= i < |log| && log[i].Ban? :: !AlwaysHonest(sha, network, env, log[i].peer)
    ensures forall peer | peer in banned :: BannedElsewhere(env, peer) || !AlwaysHonest(sha, network, env, peer)
    ensures forall s, peer :: RedialsBy(log, s, peer) <= MAX_PEER_REDIALS
    ensures forall peer :: RedialsOf(log, peer) <= MAX_PEER_REDIALS * Holding(log, peer, Sets(log))
  {
    var client := new Client(env, sha, network);
    end := client.Follow(start, persisted, checkpoint, refreshes);
    banned, log := client.banned, client.log;
    forall peer ensures RedialsOf(log, peer) <= MAX_PEER_REDIALS * Holding(log, peer, Sets(log)) {
      RedialsAreBounded(log, peer, MAX_PEER_REDIALS);
    }
    forall peer | peer in banned
      ensures BannedElsewhere(env, peer) || !AlwaysHonest(sha, network, env, peer)
    {
      var i := BannedBy(log, peer);
    }
  }

  ghost predicate OnlyRedials(before: seq<Event>, after: seq<Event>) {
    && (forall s :: DialedBy(after, s) == DialedBy(before, s))
    && forall s, peer :: RedialsBy(after, s, peer) >= RedialsBy(before, s, peer)
  }

  ghost predicate Retried(before: seq<Event>, after: seq<Event>, id: nat, peer: Peer) {
    peer in DialedBy(before, id) ==>
      RedialsBy(after, id, peer) > RedialsBy(before, id, peer) || RedialsBy(after, id, peer) == MAX_PEER_REDIALS
  }

  /** Nothing the client did itself has happened. */
  ghost predicate Unnoticed(before: seq<Event>, after: seq<Event>) {
    && before <= after && AddsNothing(before, after)
    && LastOwn(after) == LastOwn(before) && BannedAtOwn(after) == BannedAtOwn(before)
    && (forall round :: PickedIn(after, round) == PickedIn(before, round))
    && forall peer, request :: AskedIn(after, peer, request) <==> AskedIn(before, peer, request)
  }

  lemma HappensUnnoticed(log: seq<Event>, e: Event)
    requires Background(e)
    ensures var next := log + [e];
            && Unnoticed(log, next) && (Safe(next) <==> Safe(log) && Legal(log, e))
            && BannedIn(next) == BannedIn(log) + (if e.OthersBan? then {e.peer} else {})
            && (e.OthersBan? ==>
                  && Sets(next) == Sets(log) && (forall s :: DialedBy(next, s) == DialedBy(log, s))
                  && forall s, peer :: RedialsBy(next, s, peer) == RedialsBy(log, s, peer))
  {
    Appends(log, e);
  }

  /** A set that has not begun has dialed and redialed nobody. */
  lemma NeverBegun(log: seq<Event>, s: nat)
    requires Safe(log) && s >= Sets(log)
    ensures DialedBy(log, s) == {} && forall peer :: RedialsBy(log, s, peer) == 0
  {
    if DialedBy(log, s) != {} {
      DialedHasBegun(log, s);
    }
    forall peer ensures RedialsBy(log, s, peer) == 0 {
      RedialsDialed(log, s, peer);
    }
  }

  /** The client's latest event is verified material whose block has a number. */
  ghost predicate Numbered(log: seq<Event>, request: Request) {
    LastOwn(log).Some? && LastOwn(log).value.Answered? && LastOwn(log).value.request == request
    && LastOwn(log).value.answer.Good? && LastOwn(log).value.answer.numbered
  }

  /** What an answer to a verified request ends the round with, if anything. */
  function Ending(answer: Answer): Option<Outcome> {
    match answer
    case Good(_, _) => Some(Accepted)
    case Refused(CheckpointTooOld) => Some(Fatal)
    case Refused(InvalidCheckpointTime) => Some(Fatal)
    case _ => None
  }

  /** The client's latest event is an answer to `request` that ends its round. */
  ghost predicate EndsWith(log: seq<Event>, request: Request) {
    LastOwn(log).Some? && LastOwn(log).value.Answered? && LastOwn(log).value.request == request
    && Ending(LastOwn(log).value.answer).Some?
  }

  /** Every reply of `peer` is honest when it is judged: at its own moment, and for
      a finality update, whose periods are synced first, at any later one. */
  ghost predicate AlwaysHonest(sha: Sha, network: Schedule, env: Environment, peer: Peer) {
    && (forall t, request :: Honest(sha, network, request, env.reply(t, peer, request), env.limit(t)))
    && forall t, u | t <= u :: Honest(sha, network, Finality, env.reply(t, peer, Finality), env.limit(u))
  }

  /** Whenever a reply of `peer` is judged, it is spared. */
  ghost predicate AlwaysSpared(rules: Rules, env: Environment, peer: Peer) {
    && (forall t, request :: !Damning(request, AnswerOf(rules, request, env.reply(t, peer, request), env.limit(t))))
    && forall t, u | t <= u :: Spared(rules, Finality, env.reply(t, peer, Finality), env.limit(t), env.limit(u))
  }

  /** `reply` is sound material under its own slot's digest, signed no more than an
      epoch ahead of `limit`. */
  ghost predicate ServesEarly(sha: Sha, network: Schedule, reply: Reply, limit: U64) {
    && reply.Payload? && reply.material.Some? && Early(reply.material.value, limit)
    && reply.context == Some(EpochDigest(sha, network, reply.material.value.headerSlot / SLOTS_PER_EPOCH))
  }

  /** On a clock that does not go back, a peer that serves nothing but slightly
      early material is always honest. */
  lemma EarlyPeerIsAlwaysHonest(sha: Sha, network: Schedule, env: Environment, peer: Peer)
    requires forall t, u | t <= u :: env.limit(t) <= env.limit(u)
    requires forall t, request :: ServesEarly(sha, network, env.reply(t, peer, request), env.limit(t))
    ensures AlwaysHonest(sha, network, env, peer)
  {
    forall t, u, request | t <= u
      ensures Honest(sha, network, request, env.reply(t, peer, request), env.limit(u))
    {
      assert ServesEarly(sha, network, env.reply(t, peer, request), env.limit(t));
      EarlyIsHonest(sha, network, request, env.reply(t, peer, request).material.value, env.limit(t), env.limit(u));
    }
  }

  lemma HonestIsAlwaysSpared(sha: Sha, network: Schedule, env: Environment, peer: Peer)
    requires AlwaysHonest(sha, network, env, peer)
    ensures AlwaysSpared(RulesOf(sha, network), env, peer)
  {
    var rules := RulesOf(sha, network);
    forall t, request ensures !Damning(request, AnswerOf(rules, request, env.reply(t, peer, request), env.limit(t))) {
      HonestIsNeverDamning(sha, network, request, env.reply(t, peer, request), env.limit(t));
    }
    forall t, u | t <= u ensures Spared(rules, Finality, env.reply(t, peer, Finality), env.limit(t), env.limit(u)) {
      HonestIsSpared(sha, network, Finality, env.reply(t, peer, Finality), env.limit(t), env.limit(u));
    }
  }

  /** The rounds below `below` have asked the same peers. */
  ghost predicate SameRounds(before: seq<Event>, after: seq<Event>, below: nat) {
    forall r: nat | r < below :: PickedIn(after, r) == PickedIn(before, r)
  }

  lemma {:induction false} AskedStays(before: seq<Event>, after: seq<Event>)
    requires before <= after
    ensures forall peer, request :: AskedIn(before, peer, request) ==> AskedIn(after, peer, request)
    decreases |after|
  {
    if before != after {
      var init := after[..|after| - 1];
      AskedStays(before, init);
      assert init + [after[|after| - 1]] == after;
      Appends(init, after[|after| - 1]);
    }
  }
}
