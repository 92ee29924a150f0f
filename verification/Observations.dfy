/** What a finalized L1 block says about the rollup: the anchor's events, read
    from the block's logs and the creation calls they belong to. */
module Observations {
  import opened MachineIntegers
  import opened Wrappers
  import opened L1Claims

  const ADDRESS_BOUND: nat := 0x1_0000_0000_0000_0000_0000_0000_0000_0000_0000_0000

  type Address = n: nat | n < ADDRESS_BOUND

  type U32 = n: nat | n < 0x1_0000_0000

  const DISPUTE_GAME_CREATED: Word := 0x5b565efe82411da98814f356d0e7bcb8f0219b8d970307c5afb4a6903a8b2e35
  const ANCHOR_UPDATED: Word := 0x474f180d74ea8751955ee261c93ff8270411b180408d1014c49f552c92a4d11e
  const ASSERTION_CONFIRMED: Word := 0xfc42829b29c259a7370ab56c8f69fce23b5f351a9ce151da453281993ec0090c
  const CONFIG_UPDATE: Word := 0x1d2b0bda21d56b8bd12d4f94ebacffdfb35f5e226f84b461103bb8beab6353be
  const UNSAFE_BLOCK_SIGNER: Word := 3
  const RESPECTED_GAME_TYPE_SET: Word := 0xcee0703b5e4bad4efededab85c9fd1aec17dee7c5f6c584330e0509b677745a2

  datatype L1Anchor =
    | DisputeGames(factory: Address, registry: Address, gameType: U32, claims: GameClaims)
    | NitroRollup(rollup: Address)

  /** What stays the same for a rollup while it is followed. */
  datatype Rollup = Rollup(keccak: Keccak, chainId: U64, systemConfig: Option<Address>)

  datatype Observation =
    | GameCreated(game: Address, l2Block: ClaimedBlock, root: nat)
    | AnchorUpdated(game: Address)
    | AssertionConfirmed(blockHash: nat)
    | SignerChanged(signer: Address)
    | GameTypeChanged(gameType: U32)

  /** A source's answer for one kind of material. */
  datatype Material<+T> = Complete(value: T) | Filtered(value: T) | Missing

  datatype Log = Log(address: Address, topics: seq<Word>, data: seq<Byte>, transactionIndex: nat)

  datatype Transaction = Transaction(index: nat, input: Option<seq<Byte>>)

  datatype BlockRef = BlockRef(number: U64, hash: Word, parentHash: Word)

  datatype Frame = Frame(block: BlockRef, logs: Material<seq<Log>>, transactions: Material<seq<Transaction>>)

  /** The address a word holds in its low twenty bytes. */
  function FromWord(w: nat): Address {
    w % ADDRESS_BOUND
  }

  function Topic(log: Log, index: nat): Option<Word> {
    if index < |log.topics| then Some(log.topics[index]) else None
  }

  /** The input of the first transaction at `index`, when the frame has it. */
  function InputAt(transactions: seq<Transaction>, index: nat): Option<seq<Byte>> {
    if transactions == [] then None
    else if transactions[0].index == index then transactions[0].input
    else InputAt(transactions[1..], index)
  }

  function Calldata(frame: Frame, index: nat): Option<seq<Byte>> {
    if frame.transactions.Missing? then None else InputAt(frame.transactions.value, index)
  }

  /** The claim of the creation call in transaction `index`, if it is readable. */
  function ClaimOf(rollup: Rollup, claims: GameClaims, frame: Frame, index: nat, claim: Word): Option<(ClaimedBlock, nat)> {
    match Calldata(frame, index)
    case None => None
    case Some(input) =>
      match ExtraData(input)
      case None => None
      case Some(extra) => Claimed(rollup.keccak, extra, claims, claim, rollup.chainId)
  }

  function ObserveLog(anchor: L1Anchor, rollup: Rollup, frame: Frame, log: Log): Option<Observation> {
    match anchor
    case DisputeGames(factory, registry, gameType, claims) =>
      if log.address == factory && Topic(log, 0) == Some(DISPUTE_GAME_CREATED) then
        if |log.topics| < 4 || log.topics[2] != gameType then None
        else
          match ClaimOf(rollup, claims, frame, log.transactionIndex, log.topics[3])
          case None => None
          case Some(claimed) => Some(GameCreated(FromWord(log.topics[1]), claimed.0, claimed.1))
      else if log.address == registry && Topic(log, 0) == Some(ANCHOR_UPDATED) then
        if |log.topics| < 2 then None else Some(AnchorUpdated(FromWord(log.topics[1])))
      else if log.address == registry && Topic(log, 0) == Some(RESPECTED_GAME_TYPE_SET) then
        if |log.data| < 32 || BigEndian(log.data[..32]) >= 0x1_0000_0000 then None
        else Some(GameTypeChanged(BigEndian(log.data[..32])))
      else if Some(log.address) == rollup.systemConfig && Topic(log, 0) == Some(CONFIG_UPDATE)
              && Topic(log, 2) == Some(UNSAFE_BLOCK_SIGNER) then
        if |log.data| < 96 then None
        else Some(SignerChanged(FromWord(BigEndian(log.data[64..96]))))
      else None
    case NitroRollup(contract) =>
      if log.address != contract || Topic(log, 0) != Some(ASSERTION_CONFIRMED) || |log.data| < 32 then None
      else Some(AssertionConfirmed(BigEndian(log.data[..32])))
  }

  function Observer(anchor: L1Anchor, rollup: Rollup, frame: Frame): Log -> Option<Observation> {
    log => ObserveLog(anchor, rollup, frame, log)
  }

  /** What `observer` sees, in order. */
  function FilterMap(observer: Log -> Option<Observation>, logs: seq<Log>): seq<Observation> {
    if logs == [] then []
    else (match observer(logs[0]) case None => [] case Some(o) => [o]) + FilterMap(observer, logs[1..])
  }

  /** The observations of one block, in log order. */
  function ObserveFrame(anchor: L1Anchor, rollup: Rollup, frame: Frame): seq<Observation> {
    if frame.logs.Missing? then [] else FilterMap(Observer(anchor, rollup, frame), frame.logs.value)
  }

  method Observe(anchor: L1Anchor, rollup: Rollup, frame: Frame) returns (observations: seq<Observation>)
    ensures observations == ObserveFrame(anchor, rollup, frame)
  {
    if frame.logs.Missing? {
      return [];
    }
    observations := CollectObserved(Observer(anchor, rollup, frame), frame.logs.value);
  }

  method CollectObserved(observer: Log -> Option<Observation>, logs: seq<Log>) returns (observations: seq<Observation>)
    ensures observations == FilterMap(observer, logs)
  {
    observations := [];
    for i := 0 to |logs|
      invariant observations + FilterMap(observer, logs[i..]) == FilterMap(observer, logs)
    {
      ghost var rest := FilterMap(observer, logs[i + 1..]);
      assert logs[i..][0] == logs[i] && logs[i..][1..] == logs[i + 1..];
      match observer(logs[i]) {
        case None =>
          assert observations + ([] + rest) == observations + rest;
        case Some(observation) =>
          assert observations + ([observation] + rest) == observations + [observation] + rest;
          observations := observations + [observation];
      }
    }
  }

  /** Every observation comes from one of the block's logs, and every readable
      log gives one. */
  lemma {:induction false} ObservedFromLog(observer: Log -> Option<Observation>, logs: seq<Log>, o: Observation)
    ensures o in FilterMap(observer, logs) <==> exists log :: log in logs && observer(log) == Some(o)
  {
    if logs != [] {
      ObservedFromLog(observer, logs[1..], o);
      assert logs == [logs[0]] + logs[1..];
    }
  }

  /** The frame's first transaction with `index` is the one at `i`, and has `input`. */
  ghost predicate FirstAt(transactions: seq<Transaction>, index: nat, input: seq<Byte>, i: int) {
    && 0 <= i < |transactions| && transactions[i] == Transaction(index, Some(input))
    && forall j | 0 <= j < i :: transactions[j].index != index
  }

  /** The calldata read is that of the first transaction with the log's index, if
      the frame has its transactions and that one its input. */
  lemma CalldataOfTransaction(frame: Frame, index: nat, input: seq<Byte>)
    ensures Calldata(frame, index) == Some(input) <==>
            !frame.transactions.Missing? && exists i :: FirstAt(frame.transactions.value, index, input, i)
  {
    if !frame.transactions.Missing? {
      InputOfFirst(frame.transactions.value, index, input);
    }
  }

  lemma {:induction false} InputOfFirst(transactions: seq<Transaction>, index: nat, input: seq<Byte>)
    ensures InputAt(transactions, index) == Some(input) <==> exists i :: FirstAt(transactions, index, input, i)
  {
    if transactions != [] {
      InputOfFirst(transactions[1..], index, input);
      assert FirstAt(transactions, index, input, 0) <==> transactions[0] == Transaction(index, Some(input));
      if transactions[0].index != index {
        forall i ensures FirstAt(transactions, index, input, i) <==> FirstAt(transactions[1..], index, input, i - 1) {
          assert forall j | 0 < j < |transactions| :: transactions[j] == transactions[1..][j - 1];
        }
        if i :| FirstAt(transactions[1..], index, input, i) {
          assert FirstAt(transactions, index, input, i + 1);
        }
      }
    }
  }

  /** The log a factory emits for a game of type `gameType`, created by the
      frame's transaction `index`. */
  ghost predicate CreationLog(anchor: L1Anchor, log: Log, game: Address, claim: Word)
    requires anchor.DisputeGames?
  {
    && log.address == anchor.factory
    && |log.topics| >= 4 && log.topics[0] == DISPUTE_GAME_CREATED && log.topics[1] == game
    && log.topics[2] == anchor.gameType && log.topics[3] == claim
  }

  /** A creation log is observed exactly as its creation call reads. */
  lemma CreationObserved(anchor: L1Anchor, rollup: Rollup, frame: Frame, log: Log, game: Address, claim: Word)
    requires anchor.DisputeGames? && CreationLog(anchor, log, game, claim)
    ensures ObserveLog(anchor, rollup, frame, log) ==
            match ClaimOf(rollup, anchor.claims, frame, log.transactionIndex, claim)
            case None => None
            case Some(claimed) => Some(GameCreated(game, claimed.0, claimed.1))
  {
  }

  lemma ClaimOfCall(rollup: Rollup, claims: GameClaims, frame: Frame, index: nat, claim: Word, claimed: (ClaimedBlock, nat))
    requires forall input :: Calldata(frame, index) == Some(input) ==> |input| <= U64_MAX
    ensures ClaimOf(rollup, claims, frame, index, claim) == Some(claimed) <==>
            exists input, extra :: Calldata(frame, index) == Some(input) && CallsWith(input, extra)
                                   && Claimed(rollup.keccak, extra, claims, claim, rollup.chainId) == Some(claimed)
  {
    match Calldata(frame, index)
    case None =>
    case Some(input) =>
      if ExtraData(input).Some? {
        ExtraDataIsThirdArgument(input, ExtraData(input).value);
      }
      forall extra | CallsWith(input, extra) ensures ExtraData(input) == Some(extra) {
        ExtraDataIsThirdArgument(input, extra);
      }
  }

  /** Reading end to end, output roots: a game of the respected type is observed
      with a block and a root exactly when its creation call's third argument
      starts with that block's number and the root is the game's claim. */
  lemma OutputRootGameObserved(anchor: L1Anchor, rollup: Rollup, frame: Frame, log: Log,
                               game: Address, claim: Word, number: U64, root: nat)
    requires anchor.DisputeGames? && anchor.claims.OutputRoots? && CreationLog(anchor, log, game, claim)
    requires forall input :: Calldata(frame, log.transactionIndex) == Some(input) ==> |input| <= U64_MAX
    ensures ObserveLog(anchor, rollup, frame, log) == Some(GameCreated(game, Number(number), root)) <==>
            exists input, extra :: Calldata(frame, log.transactionIndex) == Some(input) && CallsWith(input, extra)
                                   && root == claim && Enc(number) <= extra
  {
    CreationObserved(anchor, rollup, frame, log, game, claim);
    ClaimOfCall(rollup, anchor.claims, frame, log.transactionIndex, claim, (Number(number), root));
    forall extra
      ensures Claimed(rollup.keccak, extra, OutputRoots, claim, rollup.chainId) == Some((Number(number), root)) <==>
              root == claim && Enc(number) <= extra
    {
      ClaimedIsLeadingWord(rollup.keccak, extra, claim, rollup.chainId, number, root);
    }
  }

  /** Reading end to end, super roots: a game is observed with a time and a root
      exactly when its creation call's third argument is a preimage of its claim
      that encodes a super root of that time in which that root is the chain's. */
  lemma SuperRootGameObserved(anchor: L1Anchor, rollup: Rollup, frame: Frame, log: Log,
                              game: Address, claim: Word, time: U64, root: Word)
    requires anchor.DisputeGames? && anchor.claims.SuperRoots? && CreationLog(anchor, log, game, claim)
    requires forall input :: Calldata(frame, log.transactionIndex) == Some(input) ==> |input| <= U64_MAX
    ensures ObserveLog(anchor, rollup, frame, log) == Some(GameCreated(game, Time(time), root as nat)) <==>
            exists input, extra ::
              Calldata(frame, log.transactionIndex) == Some(input) && CallsWith(input, extra)
              && rollup.keccak(extra) == claim
              && exists outputs :: extra == EncodeSuperRoot(time, outputs) && RootOf(outputs, rollup.chainId) == Some(root)
  {
    CreationObserved(anchor, rollup, frame, log, game, claim);
    ClaimOfCall(rollup, anchor.claims, frame, log.transactionIndex, claim, (Time(time), root as nat));
    forall extra
      ensures Claimed(rollup.keccak, extra, SuperRoots, claim, rollup.chainId) == Some((Time(time), root as nat)) <==>
              rollup.keccak(extra) == claim
              && exists outputs :: extra == EncodeSuperRoot(time, outputs) && RootOf(outputs, rollup.chainId) == Some(root)
    {
      ClaimedInvertsSuperRoot(rollup.keccak, extra, claim, rollup.chainId, time, root);
    }
  }

  /** The word data begins with, by its encoding. */
  lemma LeadingWord(data: seq<Byte>, n: nat)
    requires n < WORD_BOUND
    ensures |data| >= 32 && BigEndian(data[..32]) == n <==> Enc(n) <= data
  {
    if |data| >= 32 {
      WordOf(data[..32]);
      assert Enc(n) <= data <==> data[..32] == Enc(n);
    }
  }

  /** A game type is observed exactly when the registry's event begins with its
      word; a word past 32 bits gives nothing. */
  lemma GameTypeObserved(anchor: L1Anchor, rollup: Rollup, frame: Frame, log: Log, gameType: U32)
    requires anchor.DisputeGames? && log.address == anchor.registry && Topic(log, 0) == Some(RESPECTED_GAME_TYPE_SET)
    ensures ObserveLog(anchor, rollup, frame, log) == Some(GameTypeChanged(gameType)) <==> Enc(gameType) <= log.data
  {
    LeadingWord(log.data, gameType);
  }

  /** An anchor update is observed exactly when the registry emits its event, and
      names the game in the low twenty bytes of the event's second topic. */
  lemma UpdateObserved(anchor: L1Anchor, rollup: Rollup, frame: Frame, log: Log, game: Address)
    requires anchor.DisputeGames?
    ensures ObserveLog(anchor, rollup, frame, log) == Some(AnchorUpdated(game)) <==>
            log.address == anchor.registry && Topic(log, 0) == Some(ANCHOR_UPDATED)
            && |log.topics| >= 2 && FromWord(log.topics[1]) == game
  {
  }

  /** An assertion is observed exactly when the rollup confirms it by an event that
      begins with its block hash. */
  lemma AssertionObserved(anchor: L1Anchor, rollup: Rollup, frame: Frame, log: Log, hash: Word)
    requires anchor.NitroRollup?
    ensures ObserveLog(anchor, rollup, frame, log) == Some(AssertionConfirmed(hash)) <==>
            log.address == anchor.rollup && Topic(log, 0) == Some(ASSERTION_CONFIRMED) && Enc(hash) <= log.data
  {
    LeadingWord(log.data, hash);
  }

  /** A signer is observed exactly when the event's data holds a third word whose
      low twenty bytes it is. */
  lemma SignerObserved(anchor: L1Anchor, rollup: Rollup, frame: Frame, log: Log, signer: Address)
    requires anchor.DisputeGames? && Some(log.address) == rollup.systemConfig
    requires Topic(log, 0) == Some(CONFIG_UPDATE) && Topic(log, 2) == Some(UNSAFE_BLOCK_SIGNER)
    ensures ObserveLog(anchor, rollup, frame, log) == Some(SignerChanged(signer)) <==>
            exists word: Word :: ThirdWordIs(log.data, word) && FromWord(word) == signer
  {
    if |log.data| >= 96 {
      WordOf(log.data[64..96]);
      assert ThirdWordIs(log.data, BigEndian(log.data[64..96]));
    }
  }

  ghost predicate ThirdWordIs(data: seq<Byte>, word: Word) {
    |data| >= 96 && data[64..96] == Enc(word)
  }

  /** So the ABI encoding of a `bytes` that holds one address gives that address. */
  lemma EncodedSignerObserved(anchor: L1Anchor, rollup: Rollup, frame: Frame, log: Log, signer: Address)
    requires anchor.DisputeGames? && Some(log.address) == rollup.systemConfig
    requires Topic(log, 0) == Some(CONFIG_UPDATE) && Topic(log, 2) == Some(UNSAFE_BLOCK_SIGNER)
    requires log.data == Enc(32) + EncBytes(Enc(signer))
    ensures ObserveLog(anchor, rollup, frame, log) == Some(SignerChanged(signer))
  {
    EncodedSigner(log.data, signer);
    AddressFits(signer);
    WordObserved(anchor, rollup, frame, log, signer, signer);
  }

  lemma WordObserved(anchor: L1Anchor, rollup: Rollup, frame: Frame, log: Log, word: Word, signer: Address)
    requires anchor.DisputeGames? && Some(log.address) == rollup.systemConfig
    requires Topic(log, 0) == Some(CONFIG_UPDATE) && Topic(log, 2) == Some(UNSAFE_BLOCK_SIGNER)
    requires ThirdWordIs(log.data, word) && FromWord(word) == signer
    ensures ObserveLog(anchor, rollup, frame, log) == Some(SignerChanged(signer))
  {
    WordOf(log.data[64..96]);
  }

  lemma AddressFits(a: Address)
    ensures FromWord(a) == a
  {
  }

  lemma EncodedSigner(data: seq<Byte>, signer: Address)
    requires data == Enc(32) + EncBytes(Enc(signer))
    ensures signer < WORD_BOUND && ThirdWordIs(data, signer)
  {
    OneWord(Enc(signer));
    ThirdOfThree(data, Enc(32), Enc(32), signer);
  }

  lemma OneWord(word: seq<Byte>)
    requires |word| == 32
    ensures EncBytes(word) == Enc(32) + word
  {
  }

  lemma ThirdOfThree(data: seq<Byte>, a: seq<Byte>, b: seq<Byte>, word: Word)
    requires |a| == |b| == 32 && data == a + (b + Enc(word))
    ensures ThirdWordIs(data, word)
  {
    assert data[64..96] == Enc(word);
  }
}
