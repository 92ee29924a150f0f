/** What a light client does with its peers, as a list of events, and which answers
    get a peer banned. */
module PeerLog {
  import opened MachineIntegers
  import opened Wrappers
  import opened ForkSchedule

  const EARLY_UPDATE_SLOTS: nat := 32
  const MAX_PEER_REDIALS: nat := 2

  type Peer = nat

  datatype Request = Bootstrap(root: nat) | Update(period: nat) | Finality | Optimistic

  // ------------------------------------------------------ judging an answer

  /** Why Helios refuses material, as far as it matters here. */
  datatype ConsensusError = NotRelevant | InvalidPeriod | InvalidTimestamp | OtherError

  datatype ApiError = StaleUpdate | InsufficientParticipation | CheckpointTooOld | InvalidCheckpointTime
                    | Verification | OtherFailure

  /** What verifying a peer's material would say. */
  datatype Check = Passes(beaconSlot: nat, numbered: bool) | Refuses(kind: Option<ConsensusError>) | Fails(error: ApiError)

  /** Decoded material: the slot of its header and of its signature, and what
      verifying it says when `limit` is the latest slot an update may be signed
      in. */
  datatype Material = Material(headerSlot: U64, signatureSlot: U64, check: U64 -> Check)

  /** A peer's reply: a failed request, material of another kind, or a payload that
      may decode. */
  datatype Reply = NoReply | OtherMaterial | Payload(context: Option<Version>, material: Option<Material>)

  /** The digests this release knows, and the digest of each slot. */
  datatype Rules = Rules(known: seq<Version>, digestAt: U64 -> Version)

  datatype Classified = Unavailable | Invalid | Decoded(material: Material)

  /** Decode a payload and check its fork context; a digest this release does not
      know comes first. */
  function Classify(rules: Rules, context: Option<Version>, material: Option<Material>): Classified {
    if context.Some? && context.value !in rules.known then Unavailable
    else if material.None? then Invalid
    else if context.None? || context.value != rules.digestAt(material.value.headerSlot) then Invalid
    else Decoded(material.value)
  }

  predicate ImplausiblyAhead(signatureSlot: U64, limit: U64) {
    signatureSlot > SatAdd(limit, EARLY_UPDATE_SLOTS)
  }

  /** The error of material that failed verification against `limit`, the latest
      slot an update may be signed in. */
  function UpdateError(kind: Option<ConsensusError>, signatureSlot: U64, limit: U64): ApiError {
    match kind
    case Some(NotRelevant) => StaleUpdate
    case Some(InvalidPeriod) => StaleUpdate
    case Some(InvalidTimestamp) =>
      if signatureSlot > limit && !ImplausiblyAhead(signatureSlot, limit) then StaleUpdate else Verification
    case _ => Verification
  }

  datatype Answer = Missing | Malformed | Different | Ahead(signatureSlot: U64, limit: U64) | Refused(error: ApiError)
                  | Good(beaconSlot: nat, numbered: bool)

  function Verify(material: Material, limit: U64): Answer {
    match material.check(limit)
    case Passes(slot, numbered) => Good(slot, numbered)
    case Refuses(kind) => Refused(UpdateError(kind, material.signatureSlot, limit))
    case Fails(error) => Refused(error)
  }

  /** The answer a reply amounts to. A finality update signed ahead of the clock
      is not verified at all. */
  function AnswerOf(rules: Rules, request: Request, reply: Reply, limit: U64): Answer {
    match reply
    case NoReply => Missing
    case OtherMaterial => Different
    case Payload(context, material) =>
      match Classify(rules, context, material)
      case Unavailable => Missing
      case Invalid => Malformed
      case Decoded(m) =>
        if request.Finality? && m.signatureSlot > limit then Ahead(m.signatureSlot, limit) else Verify(m, limit)
  }

  /** Answers no honest peer gives. */
  predicate Damning(request: Request, answer: Answer) {
    match answer
    case Missing => false
    case Malformed => true
    case Different => true
    case Ahead(signatureSlot, limit) => ImplausiblyAhead(signatureSlot, limit)
    case Good(_, _) => false
    case Refused(error) =>
      match request
      case Bootstrap(_) => error !in {StaleUpdate, CheckpointTooOld, InvalidCheckpointTime}
      case Update(_) => error !in {StaleUpdate, CheckpointTooOld, InvalidCheckpointTime}
      case Finality => error != StaleUpdate
      case Optimistic => error !in {StaleUpdate, InsufficientParticipation}
  }

  // ----------------------------------------------------------------- events

  datatype Event =
    | Snapshot(id: nat)               // a new peer set begins: the ban set is copied
    | Dial(id: nat, peers: set<Peer>)
    | Redial(id: nat, peer: Peer)     // by the swarm of a dialed peer set, on its own
    | Open(round: nat, request: Request)   // a request round begins
    | Pick(round: nat, peer: Peer)
    | Ask(round: nat, peer: Peer, request: Request)
    | Answered(peer: Peer, request: Request, answer: Answer)
    | Ban(peer: Peer)
    | OthersBan(peer: Peer)           // another client of the same source bans

  /** What happens beside the client's own steps. */
  predicate Background(e: Event) {
    e.OthersBan? || e.Redial?
  }

  /** Peer sets are never forgotten. */
  lemma {:induction false} SetsStay(before: seq<Event>, after: seq<Event>)
    requires before <= after
    ensures Sets(before) <= Sets(after)
    decreases |after|
  {
    if before != after {
      SetsStay(before, after[..|after| - 1]);
    }
  }

  predicate Bans(e: Event, peer: Peer) {
    (e.Ban? || e.OthersBan?) && e.peer == peer
  }

  ghost function BannedIn(log: seq<Event>): set<Peer> {
    if log == [] then {}
    else
      var last := log[|log| - 1];
      BannedIn(log[..|log| - 1]) + (if last.Ban? || last.OthersBan? then {last.peer} else {})
  }

  ghost function PickedIn(log: seq<Event>, round: nat): set<Peer> {
    if log == [] then {}
    else
      var last := log[|log| - 1];
      PickedIn(log[..|log| - 1], round) + (if last.Pick? && last.round == round then {last.peer} else {})
  }

  ghost predicate AskedIn(log: seq<Event>, peer: Peer, request: Request) {
    log != []
    && ((log[|log| - 1].Ask? && log[|log| - 1].peer == peer && log[|log| - 1].request == request)
        || AskedIn(log[..|log| - 1], peer, request))
  }

  /** The client's own latest event. */
  ghost function LastOwn(log: seq<Event>): Option<Event> {
    if log == [] then None
    else if Background(log[|log| - 1]) then LastOwn(log[..|log| - 1])
    else Some(log[|log| - 1])
  }

  /** The bans at the client's own latest event. */
  ghost function BannedAtOwn(log: seq<Event>): set<Peer> {
    if log == [] then {}
    else if Background(log[|log| - 1]) then BannedAtOwn(log[..|log| - 1])
    else BannedIn(log)
  }

  /** How many peer sets have begun; the next one bears this number. */
  ghost function Sets(log: seq<Event>): nat {
    if log == [] then 0 else Sets(log[..|log| - 1]) + if log[|log| - 1].Snapshot? then 1 else 0
  }

  /** The peers a peer set has dialed. */
  ghost function DialedBy(log: seq<Event>, s: nat): set<Peer> {
    if log == [] then {}
    else
      var last := log[|log| - 1];
      DialedBy(log[..|log| - 1], s) + (if last.Dial? && last.id == s then last.peers else {})
  }

  /** How often a peer set has redialed a peer. */
  ghost function RedialsBy(log: seq<Event>, s: nat, peer: Peer): nat {
    if log == [] then 0
    else RedialsBy(log[..|log| - 1], s, peer) + if log[|log| - 1] == Redial(s, peer) then 1 else 0
  }

  /** How often a peer has been redialed at all. */
  ghost function RedialsOf(log: seq<Event>, peer: Peer): nat {
    if log == [] then 0
    else
      var last := log[|log| - 1];
      RedialsOf(log[..|log| - 1], peer) + if last.Redial? && last.peer == peer then 1 else 0
  }

  /** An answer its request can use; a finality update's or head's block needs a
      number. */
  predicate Useful(request: Request, answer: Answer) {
    answer.Good? && (request.Finality? || request.Optimistic? ==> answer.numbered)
  }

  /** How many rounds of a request have begun. */
  ghost function Opened(log: seq<Event>, request: Request): nat {
    if log == [] then 0
    else
      var last := log[|log| - 1];
      Opened(log[..|log| - 1], request) + if last.Open? && last.request == request then 1 else 0
  }

  /** How many useful answers a request has had. */
  ghost function Taken(log: seq<Event>, request: Request): nat {
    if log == [] then 0
    else
      var last := log[|log| - 1];
      Taken(log[..|log| - 1], request) + if last.Answered? && last.request == request && Useful(request, last.answer) then 1 else 0
  }

  /** A head newer than the published one. */
  predicate NewHead(request: Request, answer: Answer, published: Option<nat>) {
    request.Optimistic? && Useful(request, answer) && (published.Some? ==> answer.beaconSlot > published.value)
  }

  /** How many answers gave a head newer than `published`. */
  ghost function NewHeads(log: seq<Event>, published: Option<nat>): nat {
    if log == [] then 0
    else
      var last := log[|log| - 1];
      NewHeads(log[..|log| - 1], published)
      + if last.Answered? && NewHead(last.request, last.answer, published) then 1 else 0
  }

  ghost predicate Condemned(own: Option<Event>) {
    own.Some? && own.value.Answered? && Damning(own.value.request, own.value.answer)
  }

  /** What may come next. A damning answer is followed by its ban, and nothing
      else is. */
  ghost predicate Legal(log: seq<Event>, e: Event) {
    var own := LastOwn(log);
    && (Condemned(own) && !Background(e) ==> e == Ban(own.value.peer))
    && match e
       case Snapshot(s) => s == Sets(log)
       case Dial(s, peers) => own == Some(Snapshot(s)) && peers !! BannedAtOwn(log)
       case Redial(s, peer) => peer in DialedBy(log, s)
       case Open(_, _) => true
       case Pick(round, peer) => peer !in BannedIn(log) && peer !in PickedIn(log, round)
       case Ask(round, peer, _) => own == Some(Pick(round, peer))
       case Answered(peer, request, _) => AskedIn(log, peer, request)
       case Ban(peer) => Condemned(own) && own.value.peer == peer
       case OthersBan(_) => true
  }

  ghost predicate Safe(log: seq<Event>) {
    log == [] || (Safe(log[..|log| - 1]) && Legal(log[..|log| - 1], log[|log| - 1]))
  }

  lemma Appends(log: seq<Event>, e: Event)
    ensures var next := log + [e];
            && BannedIn(next) == BannedIn(log) + (if e.Ban? || e.OthersBan? then {e.peer} else {})
            && (forall round :: PickedIn(next, round) ==
                                PickedIn(log, round) + (if e.Pick? && e.round == round then {e.peer} else {}))
            && (forall peer, request :: AskedIn(next, peer, request) <==>
                                        AskedIn(log, peer, request) || (e.Ask? && e.peer == peer && e.request == request))
            && LastOwn(next) == (if Background(e) then LastOwn(log) else Some(e))
            && BannedAtOwn(next) == (if Background(e) then BannedAtOwn(log) else BannedIn(next))
            && (Safe(next) <==> Safe(log) && Legal(log, e))
            && (forall r :: Opened(next, r) == Opened(log, r) + if e.Open? && e.request == r then 1 else 0)
            && (forall r :: Taken(next, r) == Taken(log, r) + if e.Answered? && e.request == r && Useful(r, e.answer) then 1 else 0)
            && (forall h :: NewHeads(next, h) == NewHeads(log, h) + if e.Answered? && NewHead(e.request, e.answer, h) then 1 else 0)
            && Sets(next) == Sets(log) + (if e.Snapshot? then 1 else 0)
            && (forall s :: DialedBy(next, s) == DialedBy(log, s) + (if e.Dial? && e.id == s then e.peers else {}))
            && (forall s, peer :: RedialsBy(next, s, peer) == RedialsBy(log, s, peer) + if e == Redial(s, peer) then 1 else 0)
  {
    assert (log + [e])[..|log|] == log;
  }

  lemma SetsAppend(log: seq<Event>, e: Event)
    ensures var next := log + [e];
            && Sets(next) == Sets(log) + (if e.Snapshot? then 1 else 0)
            && (forall s :: DialedBy(next, s) == DialedBy(log, s) + (if e.Dial? && e.id == s then e.peers else {}))
            && forall s, peer :: RedialsBy(next, s, peer) == RedialsBy(log, s, peer) + if e == Redial(s, peer) then 1 else 0
  {
    assert (log + [e])[..|log|] == log;
  }

  /** A log extended by a legal event. */
  lemma Extended(log: seq<Event>, e: Event) returns (next: seq<Event>)
    requires Safe(log) && Legal(log, e)
    ensures next == log + [e] && Safe(next)
    ensures BannedIn(next) == BannedIn(log) + (if e.Ban? || e.OthersBan? then {e.peer} else {})
    ensures LastOwn(next) == (if Background(e) then LastOwn(log) else Some(e))
    ensures BannedAtOwn(next) == (if Background(e) then BannedAtOwn(log) else BannedIn(next))
    ensures forall round :: PickedIn(next, round) ==
                            PickedIn(log, round) + (if e.Pick? && e.round == round then {e.peer} else {})
    ensures forall peer, request :: AskedIn(next, peer, request) <==>
                                    AskedIn(log, peer, request) || (e.Ask? && e.peer == peer && e.request == request)
    ensures Sets(next) == Sets(log) + if e.Snapshot? then 1 else 0
    ensures forall s :: DialedBy(next, s) == DialedBy(log, s) + (if e.Dial? && e.id == s then e.peers else {})
  {
    next := log + [e];
    Appends(log, e);
  }

  // --------------------------------------------------- what a safe log means

  lemma {:induction false} BanIsKept(log: seq<Event>, i: nat)
    requires i < |log| && (log[i].Ban? || log[i].OthersBan?)
    ensures log[i].peer in BannedIn(log)
    decreases |log|
  {
    if i < |log| - 1 {
      BanIsKept(log[..|log| - 1], i);
    }
  }

  lemma {:induction false} PickIsKept(log: seq<Event>, i: nat)
    requires i < |log| && log[i].Pick?
    ensures log[i].peer in PickedIn(log, log[i].round)
    decreases |log|
  {
    if i < |log| - 1 {
      PickIsKept(log[..|log| - 1], i);
    }
  }

  lemma {:induction false} SafeUpTo(log: seq<Event>, j: nat)
    requires Safe(log) && j < |log|
    ensures Safe(log[..j]) && Legal(log[..j], log[j])
    decreases |log|
  {
    if j < |log| - 1 {
      SafeUpTo(log[..|log| - 1], j);
      assert log[..|log| - 1][..j] == log[..j];
    }
  }

  /** Nobody banned is chosen again, by whoever it was banned. */
  lemma BannedIsNotChosen(log: seq<Event>, i: nat, j: nat)
    requires Safe(log) && i < j < |log| && (log[i].Ban? || log[i].OthersBan?) && log[j].Pick?
    ensures log[j].peer != log[i].peer
  {
    SafeUpTo(log, j);
    BanIsKept(log[..j], i);
  }

  lemma {:induction false} OwnBefore(log: seq<Event>) returns (k: nat)
    requires LastOwn(log).Some?
    ensures k < |log| && LastOwn(log) == Some(log[k]) && forall i | k < i < |log| :: Background(log[i])
    ensures !Background(log[k]) && BannedAtOwn(log) == BannedIn(log[..k + 1])
    decreases |log|
  {
    k := |log| - 1;
    if Background(log[k]) {
      k := OwnBefore(log[..k]);
      assert log[..|log| - 1][..k + 1] == log[..k + 1];
    } else {
      assert log[..k + 1] == log;
    }
  }

  lemma {:induction false} BannedBy(log: seq<Event>, peer: Peer) returns (i: nat)
    requires peer in BannedIn(log)
    ensures i < |log| && Bans(log[i], peer)
    decreases |log|
  {
    i := |log| - 1;
    if !Bans(log[i], peer) {
      i := BannedBy(log[..i], peer);
    }
  }

  /** A request goes to a peer banned by then exactly when another client banned it
      after this client chose it; a client alone never makes such a request. */
  lemma AskedAfterBanOnlyInRace(log: seq<Event>, j: nat) returns (k: nat)
    requires Safe(log) && j < |log| && log[j].Ask?
    ensures k < j && log[k] == Pick(log[j].round, log[j].peer)
    ensures log[j].peer in BannedIn(log[..j]) <==> exists i :: k < i < j && log[i] == OthersBan(log[j].peer)
  {
    SafeUpTo(log, j);
    k := OwnBefore(log[..j]);
    SafeUpTo(log, k);
    if log[j].peer in BannedIn(log[..j]) {
      var i := BannedBy(log[..j], log[j].peer);
      if i < k {
        BannedIsNotChosen(log, i, k);
      }
      assert log[i] == OthersBan(log[j].peer);
    }
    if i :| k < i < j && log[i] == OthersBan(log[j].peer) {
      BanIsKept(log[..j], i);
    }
  }

  /** That race is real. */
  lemma AskedAfterBanHappens(round: nat, peer: Peer, request: Request)
    ensures var log := [Pick(round, peer), OthersBan(peer), Ask(round, peer, request)];
            Safe(log) && log[2].Ask? && log[2].peer in BannedIn(log[..2])
  {
    Appends([], Pick(round, peer));
    Appends([Pick(round, peer)], OthersBan(peer));
    assert [Pick(round, peer)] + [OthersBan(peer)] == [Pick(round, peer), OthersBan(peer)];
    Appends([Pick(round, peer), OthersBan(peer)], Ask(round, peer, request));
    assert [] + [Pick(round, peer)] == [Pick(round, peer)];
    var log := [Pick(round, peer), OthersBan(peer), Ask(round, peer, request)];
    assert log == [Pick(round, peer), OthersBan(peer)] + [Ask(round, peer, request)];
    assert log[..2] == [Pick(round, peer), OthersBan(peer)];
  }

  /** A peer set begins once. */
  lemma BeginsOnce(log: seq<Event>, i: nat, j: nat)
    requires Safe(log) && i < |log| && j < |log| && log[i].Snapshot? && log[j] == log[i]
    ensures i == j
  {
    SafeUpTo(log, i);
    SafeUpTo(log, j);
    if i < j {
      SetsGrow(log, i, j);
    } else if j < i {
      SetsGrow(log, j, i);
    }
  }

  lemma {:induction false} SetsGrow(log: seq<Event>, i: nat, j: nat)
    requires i < j <= |log| && log[i].Snapshot?
    ensures Sets(log[..i]) < Sets(log[..j])
  {
    assert log[..j][..j - 1] == log[..j - 1];
    if i < j - 1 {
      SetsGrow(log, i, j - 1);
    }
  }

  /** A peer set dials after it has begun, and none of the peers banned when it
      began. */
  lemma DialedOutsideBans(log: seq<Event>, k: nat) returns (s: nat)
    requires Safe(log) && k < |log| && log[k].Dial?
    ensures s < k && log[s] == Snapshot(log[k].id) && log[k].peers !! BannedIn(log[..s + 1])
    ensures forall i | s < i < k :: Background(log[i])
  {
    SafeUpTo(log, k);
    s := OwnBefore(log[..k]);
    assert log[..k][..s + 1] == log[..s + 1];
  }

  /** A peer that was free when its set began, at `s`, is banned at a later `j`
      exactly when it was banned in between. */
  lemma BannedSince(log: seq<Event>, s: nat, j: nat, peer: Peer)
    requires s < j <= |log| && peer !in BannedIn(log[..s + 1])
    ensures peer in BannedIn(log[..j]) <==> exists i :: s < i < j && Bans(log[i], peer)
  {
    if peer in BannedIn(log[..j]) {
      var i := BannedBy(log[..j], peer);
      if i <= s {
        BanIsKept(log[..s + 1], i);
      }
      assert Bans(log[i], peer);
    }
    if i :| s < i < j && Bans(log[i], peer) {
      BanIsKept(log[..j], i);
    }
  }

  /** A new peer set dials a peer banned by then exactly when it holds a peer that
      another client banned after the ban set was copied. */
  lemma DialedAfterBanOnlyInRace(log: seq<Event>, j: nat, peer: Peer) returns (s: nat)
    requires Safe(log) && j < |log| && log[j].Dial? && peer in log[j].peers
    ensures s < j && log[s] == Snapshot(log[j].id)
    ensures peer in BannedIn(log[..j]) <==> exists i :: s < i < j && log[i] == OthersBan(peer)
  {
    s := DialedOutsideBans(log, j);
    BannedSince(log, s, j, peer);
    forall i | s < i < j && Bans(log[i], peer) ensures log[i] == OthersBan(peer) {
      assert Background(log[i]);
    }
    if i :| s < i < j && log[i] == OthersBan(peer) {
      assert Bans(log[i], peer);
    }
  }

  lemma DialedAfterBanHappens(peer: Peer)
    ensures var log := [Snapshot(0), OthersBan(peer), Dial(0, {peer})];
            Safe(log) && peer in log[2].peers && peer in BannedIn(log[..2])
  {
    var first, second: seq<Event> := [Snapshot(0)], [Snapshot(0), OthersBan(peer)];
    Appends([], Snapshot(0));
    assert [] + [Snapshot(0)] == first;
    Appends(first, OthersBan(peer));
    assert first + [OthersBan(peer)] == second;
    Appends(second, Dial(0, {peer}));
    var log := [Snapshot(0), OthersBan(peer), Dial(0, {peer})];
    assert log == second + [Dial(0, {peer})];
    assert log[..2] == second;
  }

  lemma {:induction false} DialedBefore(log: seq<Event>, s: nat, peer: Peer) returns (k: nat)
    requires peer in DialedBy(log, s)
    ensures k < |log| && log[k].Dial? && log[k].id == s && peer in log[k].peers
    decreases |log|
  {
    k := |log| - 1;
    if !(log[k].Dial? && log[k].id == s && peer in log[k].peers) {
      k := DialedBefore(log[..k], s, peer);
    }
  }

  /** A peer set redials a peer banned by then, by whichever client, exactly when
      the ban came after the set began, which it did once; it has dialed the peer
      before. */
  lemma RedialedAfterBan(log: seq<Event>, j: nat) returns (s: nat, k: nat)
    requires Safe(log) && j < |log| && log[j].Redial?
    ensures s < k < j && log[s] == Snapshot(log[j].id)
    ensures forall t | 0 <= t < |log| && log[t] == Snapshot(log[j].id) :: t == s
    ensures log[k].Dial? && log[k].id == log[j].id && log[j].peer in log[k].peers
    ensures log[j].peer in BannedIn(log[..j]) <==> exists i :: s < i < j && Bans(log[i], log[j].peer)
  {
    SafeUpTo(log, j);
    k := DialedBefore(log[..j], log[j].id, log[j].peer);
    s := DialedOutsideBans(log, k);
    BannedSince(log, s, j, log[j].peer);
    forall t | 0 <= t < |log| && log[t] == log[s] ensures t == s {
      BeginsOnce(log, s, t);
    }
  }

  /** And that happens: a peer this client banned itself is dialed again when its
      connection closes. */
  lemma BannedIsRedialed(peer: Peer)
    ensures exists log :: Safe(log) && |log| > 1 && log[|log| - 2] == Ban(peer) && log[|log| - 1] == Redial(0, peer)
  {
    var log := Condemning(peer);
    log := Extended(log, Ban(peer));
    log := Extended(log, Redial(0, peer));
  }

  lemma Condemning(peer: Peer) returns (log: seq<Event>)
    ensures Safe(log) && LastOwn(log) == Some(Answered(peer, Finality, Malformed)) && peer in DialedBy(log, 0)
  {
    log := Choosing(peer);
    log := Extended(log, Ask(0, peer, Finality));
    log := Extended(log, Answered(peer, Finality, Malformed));
  }

  lemma Choosing(peer: Peer) returns (log: seq<Event>)
    ensures Safe(log) && LastOwn(log) == Some(Pick(0, peer)) && peer in DialedBy(log, 0)
  {
    log := Extended([], Snapshot(0));
    log := Extended(log, Dial(0, {peer}));
    log := Extended(log, Pick(0, peer));
  }

  /** How many of the first `n` peer sets have dialed a peer. */
  ghost function Holding(log: seq<Event>, peer: Peer, n: nat): nat {
    if n == 0 then 0 else Holding(log, peer, n - 1) + if peer in DialedBy(log, n - 1) then 1 else 0
  }

  ghost function RedialsUpTo(log: seq<Event>, peer: Peer, n: nat): nat {
    if n == 0 then 0 else RedialsUpTo(log, peer, n - 1) + RedialsBy(log, n - 1, peer)
  }

  /** When each swarm counts its own redials of a peer up to a limit, the peer is
      redialed at most that often for every set that held it. */
  lemma RedialsAreBounded(log: seq<Event>, peer: Peer, limit: nat)
    requires Safe(log) && forall s :: RedialsBy(log, s, peer) <= limit
    ensures RedialsOf(log, peer) <= limit * Holding(log, peer, Sets(log))
  {
    RedialsAddUp(log, peer, Sets(log));
    SumIsBounded(log, peer, limit, Sets(log));
  }

  lemma {:induction false} SumIsBounded(log: seq<Event>, peer: Peer, limit: nat, n: nat)
    requires Safe(log) && forall s :: RedialsBy(log, s, peer) <= limit
    ensures RedialsUpTo(log, peer, n) <= limit * Holding(log, peer, n)
  {
    if n > 0 {
      SumIsBounded(log, peer, limit, n - 1);
      RedialsDialed(log, n - 1, peer);
      Distribute(limit, Holding(log, peer, n - 1));
    }
  }

  lemma Distribute(limit: nat, n: nat)
    ensures limit * (n + 1) == limit * n + limit
  {
  }

  /** A swarm redials only peers its set has dialed. */
  lemma {:induction false} RedialsDialed(log: seq<Event>, s: nat, peer: Peer)
    requires Safe(log)
    ensures RedialsBy(log, s, peer) > 0 ==> peer in DialedBy(log, s)
    decreases |log|
  {
    if log != [] {
      RedialsDialed(log[..|log| - 1], s, peer);
    }
  }

  lemma DialedHasBegun(log: seq<Event>, s: nat)
    requires Safe(log) && DialedBy(log, s) != {}
    ensures s < Sets(log)
  {
    var peer :| peer in DialedBy(log, s);
    var k := DialedBefore(log, s, peer);
    var b := DialedOutsideBans(log, k);
    SafeUpTo(log, b);
    SetsGrow(log, b, |log|);
    assert log[..|log|] == log;
  }

  lemma {:induction false} RedialsAddUp(log: seq<Event>, peer: Peer, n: nat)
    requires Safe(log) && n >= Sets(log)
    ensures RedialsUpTo(log, peer, n) == RedialsOf(log, peer)
    decreases |log|
  {
    if log == [] {
      NoRedials(peer, n);
    } else {
      var init, last := log[..|log| - 1], log[|log| - 1];
      RedialsAddUp(init, peer, n);
      if last.Redial? {
        DialedHasBegun(init, last.id);
      }
      OneMore(log, peer, n);
    }
  }

  lemma {:induction false} NoRedials(peer: Peer, n: nat)
    ensures RedialsUpTo([], peer, n) == 0
  {
    if n > 0 {
      NoRedials(peer, n - 1);
    }
  }

  lemma {:induction false} OneMore(log: seq<Event>, peer: Peer, n: nat)
    requires log != []
    ensures var last := log[|log| - 1];
            RedialsUpTo(log, peer, n) == RedialsUpTo(log[..|log| - 1], peer, n)
                                         + if last.Redial? && last.peer == peer && last.id < n then 1 else 0
  {
    if n > 0 {
      OneMore(log, peer, n - 1);
    }
  }

  /** A round asks a peer at most once. */
  lemma AskedOncePerRound(log: seq<Event>, i: nat, j: nat)
    requires Safe(log) && i < j < |log| && log[i].Ask? && log[j].Ask? && log[i].round == log[j].round
    ensures log[i].peer != log[j].peer
  {
    SafeUpTo(log, i);
    SafeUpTo(log, j);
    var a := OwnBefore(log[..i]);
    var b := OwnBefore(log[..j]);
    assert log[a] == Pick(log[i].round, log[i].peer) && log[b] == Pick(log[j].round, log[j].peer);
    SafeUpTo(log, b);
    PickIsKept(log[..b], a);
  }

  /** A ban answers a request to that peer with a damning reply. */
  lemma BanIsDeserved(log: seq<Event>, j: nat) returns (k: nat)
    requires Safe(log) && j < |log| && log[j].Ban?
    ensures k < j && log[k].Answered? && log[k].peer == log[j].peer && Damning(log[k].request, log[k].answer)
    ensures AskedIn(log[..k], log[k].peer, log[k].request)
  {
    SafeUpTo(log, j);
    k := OwnBefore(log[..j]);
    SafeUpTo(log, k);
  }

  /** A damning answer leaves its peer banned by the client's next own event. */
  lemma DamningIsBanned(log: seq<Event>, i: nat)
    requires Safe(log) && i < |log| && log[i].Answered? && Damning(log[i].request, log[i].answer)
    ensures (forall k | i < k < |log| :: Background(log[k])) || log[i].peer in BannedIn(log)
  {
    if k :| i < k < |log| && !Background(log[k]) {
      var first := FirstOwnAfter(log, i, k);
      SafeUpTo(log, first);
      var own := OwnBefore(log[..first]);
      assert own == i;
      BanIsKept(log, first);
    }
  }

  lemma FirstOwnAfter(log: seq<Event>, i: nat, k: nat) returns (first: nat)
    requires i < k < |log| && !Background(log[k]) && !Background(log[i])
    ensures i < first < |log| && !Background(log[first]) && forall m | i < m < first :: Background(log[m])
    ensures LastOwn(log[..first]) == Some(log[i])
    decreases k
  {
    if m :| i < m < k && !Background(log[m]) {
      first := FirstOwnAfter(log, i, m);
    } else {
      first := k;
      LastOwnIs(log[..k], i);
    }
  }

  lemma {:induction false} LastOwnIs(log: seq<Event>, i: nat)
    requires i < |log| && !Background(log[i]) && forall m | i < m < |log| :: Background(log[m])
    ensures LastOwn(log) == Some(log[i])
    decreases |log|
  {
    if i < |log| - 1 {
      LastOwnIs(log[..|log| - 1], i);
    }
  }

  // -------------------------------------------------------------- honesty

  /** A reply only a sound peer gives: nothing, material of a fork this release
      does not know, or decodable material of a known fork under the digest of its
      own slot that verifies, is stale or early, or lacks signatures a head
      needs. */
  ghost predicate Honest(sha: Sha, network: Schedule, request: Request, reply: Reply, limit: U64) {
    match reply
    case NoReply => true
    case OtherMaterial => false
    case Payload(context, material) =>
      context.Some?
      && (context.value in KnownForkDigests(sha, network) ==>
            && material.Some?
            && context.value == EpochDigest(sha, network, material.value.headerSlot / SLOTS_PER_EPOCH)
            && material.value.signatureSlot <= SatAdd(limit, EARLY_UPDATE_SLOTS)
            && match material.value.check(limit)
               case Passes(_, _) => true
               case Refuses(kind) =>
                 kind == Some(NotRelevant) || kind == Some(InvalidPeriod)
                 || (kind == Some(InvalidTimestamp) && material.value.signatureSlot > limit)
               case Fails(error) =>
                 (request.Optimistic? && error == InsufficientParticipation)
                 || (request.Bootstrap? && error in {CheckpointTooOld, InvalidCheckpointTime}))
  }

  function RulesOf(sha: Sha, network: Schedule): Rules {
    Rules(KnownForkDigests(sha, network), (slot: U64) => EpochDigest(sha, network, slot / SLOTS_PER_EPOCH))
  }

  /** No such reply gets its peer banned: not stale, under-signed, unavailable,
      unknown-fork or slightly early material. */
  lemma HonestIsNeverDamning(sha: Sha, network: Schedule, request: Request, reply: Reply, limit: U64)
    requires Honest(sha, network, request, reply, limit)
    ensures !Damning(request, AnswerOf(RulesOf(sha, network), request, reply, limit))
  {
  }

  /** A payload no honest peer sends: it names no fork, or a known one but does not
      decode, is under another digest than its own slot's, fails verification for
      another reason than being old or early, or is a finality update signed past
      any honest clock. */
  ghost predicate Forged(sha: Sha, network: Schedule, request: Request, context: Option<Version>,
                         material: Option<Material>, limit: U64) {
    && (context.Some? ==> context.value in KnownForkDigests(sha, network))
    && (context.None? || material.None?
        || context.value != EpochDigest(sha, network, material.value.headerSlot / SLOTS_PER_EPOCH)
        || (request.Finality? && ImplausiblyAhead(material.value.signatureSlot, limit))
        || (material.value.signatureSlot <= limit
            && material.value.check(limit) in {Refuses(None), Refuses(Some(InvalidTimestamp)), Refuses(Some(OtherError))}))
  }

  lemma ForgedIsDamning(sha: Sha, network: Schedule, request: Request, context: Option<Version>,
                        material: Option<Material>, limit: U64)
    requires Forged(sha, network, request, context, material, limit)
    ensures Damning(request, AnswerOf(RulesOf(sha, network), request, Payload(context, material), limit))
  {
  }

  /** Material that verification refuses, or fails on, for a reason no sound peer
      gives for this request. */
  predicate FailsBadly(request: Request, material: Material, limit: U64) {
    match material.check(limit)
    case Passes(_, _) => false
    case Refuses(Some(NotRelevant)) => false
    case Refuses(Some(InvalidPeriod)) => false
    case Refuses(Some(InvalidTimestamp)) => !(limit < material.signatureSlot <= SatAdd(limit, EARLY_UPDATE_SLOTS))
    case Refuses(_) => true
    case Fails(StaleUpdate) => false
    case Fails(CheckpointTooOld) => !(request.Bootstrap? || request.Update?)
    case Fails(InvalidCheckpointTime) => !(request.Bootstrap? || request.Update?)
    case Fails(InsufficientParticipation) => !request.Optimistic?
    case Fails(_) => true
  }

  /** Which replies get a peer banned, exactly: material of another kind, and a
      payload of a fork this release knows, or of none, that does not decode, is
      under another digest than its own slot's, is a finality update signed past
      any honest clock, or, if it is not ahead of the clock, fails badly. */
  lemma DamningExactly(sha: Sha, network: Schedule, request: Request, reply: Reply, limit: U64)
    ensures Damning(request, AnswerOf(RulesOf(sha, network), request, reply, limit)) <==>
            || reply.OtherMaterial?
            || (reply.Payload? && (reply.context.Some? ==> reply.context.value in KnownForkDigests(sha, network))
                && (reply.context.None? || reply.material.None?
                    || reply.context.value != EpochDigest(sha, network, reply.material.value.headerSlot / SLOTS_PER_EPOCH)
                    || if request.Finality? && reply.material.value.signatureSlot > limit
                       then reply.material.value.signatureSlot > SatAdd(limit, EARLY_UPDATE_SLOTS)
                       else FailsBadly(request, reply.material.value, limit)))
  {
  }

  /** Which replies are taken, exactly: material of a fork this release knows, under
      its own slot's digest, that verifies and is no finality update ahead of the
      clock. */
  lemma TakenExactly(sha: Sha, network: Schedule, request: Request, reply: Reply, limit: U64, beaconSlot: nat, numbered: bool)
    ensures AnswerOf(RulesOf(sha, network), request, reply, limit) == Good(beaconSlot, numbered) <==>
            && reply.Payload? && reply.context.Some? && reply.context.value in KnownForkDigests(sha, network)
            && reply.material.Some?
            && reply.context.value == EpochDigest(sha, network, reply.material.value.headerSlot / SLOTS_PER_EPOCH)
            && (request.Finality? ==> reply.material.value.signatureSlot <= limit)
            && reply.material.value.check(limit) == Passes(beaconSlot, numbered)
  {
  }

  /** An honest peer serves a slot of a decoded fork under the digest of that slot:
      that context is always known, and so its material is decoded. */
  lemma HonestContextIsDecoded(sha: Sha, network: Schedule, material: Material)
    requires network.forks[0].epoch == 0
    requires ForkSchedule.Decoded(network, material.headerSlot / SLOTS_PER_EPOCH)
    ensures var context := EpochDigest(sha, network, material.headerSlot / SLOTS_PER_EPOCH);
            Classify(RulesOf(sha, network), Some(context), Some(material)) == Classified.Decoded(material)
  {
    FromGenesisEverySlotIsKnown(sha, network, material.headerSlot);
  }

  /** Neither look at a reply condemns its peer: the first against `limit`, and for
      verified material a second against `later`. */
  ghost predicate Spared(rules: Rules, request: Request, reply: Reply, limit: U64, later: U64) {
    var answer := AnswerOf(rules, request, reply, limit);
    && !Damning(request, answer)
    && ((answer.Good? || answer.Refused?) ==> !Damning(request, Verify(reply.material.value, later)))
  }

  /** A reply honest at both looks is spared at both. */
  lemma HonestIsSpared(sha: Sha, network: Schedule, request: Request, reply: Reply, limit: U64, later: U64)
    requires Honest(sha, network, request, reply, limit) && Honest(sha, network, request, reply, later)
    ensures Spared(RulesOf(sha, network), request, reply, limit, later)
  {
  }

  /** Sound material that is signed no more than an epoch ahead of `limit`: it
      verifies once the clock has reached its slot, and is too early before. */
  ghost predicate Early(material: Material, limit: U64) {
    && material.signatureSlot <= SatAdd(limit, EARLY_UPDATE_SLOTS)
    && forall l: U64 ::
         if material.signatureSlot > l then material.check(l) == Refuses(Some(InvalidTimestamp))
         else material.check(l).Passes?
  }

  /** Slightly early material is honest when it is served and stays so as the clock
      moves on. */
  lemma EarlyIsHonest(sha: Sha, network: Schedule, request: Request, material: Material, limit: U64, later: U64)
    requires Early(material, limit) && limit <= later
    ensures var context := EpochDigest(sha, network, material.headerSlot / SLOTS_PER_EPOCH);
            Honest(sha, network, request, Payload(Some(context), Some(material)), later)
  {
    assert if material.signatureSlot > later then material.check(later) == Refuses(Some(InvalidTimestamp))
           else material.check(later).Passes?;
  }
}
