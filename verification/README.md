# Leani: a verified model of finality, restarts and redelivery

This project models the parts of the Leani node that decide what is final, and the parts that
have to survive restarts, chain reorganisations and repeated delivery. Every file is one component;
each module models one source file or one object of it.

| module | what it models |
|---|---|
| `Varint` | the strict varint codec of the consensus wire and the op-stack discovery record |
| `L1Claims`, `Observations` | what a dispute game claims, read from its creation call, and what a finalized L1 block says |
| `AnchorLane`, `AnchorLaneTheorems`, `AnchorLaneProgress` | the lane that reads finalized L1 ranges, with its durable cursor |
| `SignedWindow`, `GameLedger` | the bounded window of signed blocks and the games matched against it |
| `FinalitySelection`, `FinalityStream`, `StreamTranscript` | selection among untrusted endpoints and the event stream over polls |
| `TrustRoot`, `PoolProgress`, `VerifierPool` | start anchor, anchor file, verifier pool, fallback |
| `ForkSchedule` | the fork schedule of a beacon chain and its digests |
| `PeerLog`, `PeerClient` | asking and banning consensus peers |
| `Cadence` | slot arithmetic over the whole-second and the 200 ms regime |
| `RunModel`, `RunTheorems`, `RunProgress`, `Runner` | an ad-hoc Wasm run on its own feed |
| `Postgres`, `Delivery`, `ConsumeDurably` | durable consumers and the PostgreSQL destination |
| `CoverageHoles`, `LiveSync`, `KeepInSync` | holes in the coverage and the gap requests |
| `ShippedPackages` | the packages a binary ships |
| `Carriers` | the kept gossip peers and their file |
| `Sorting`, `MachineIntegers`, `Wrappers` | shared: a stable sort, 64-bit arithmetic, results |

Objects the source updates in place are classes. Each of their methods is proved equal to a step of a
specification function on the old field values, and the theorems are about all runs of those steps.
A crash is modelled as a run that stops between any two durable effects.

What the model takes as given: Keccak-256 and SHA-256 are arbitrary functions (nothing needs them to be
injective); light-client verification is a reflexive and transitive relation "descends from"; the run's
store undoes its newest block by restoring the state before it; the node acknowledges a consumer's
sequence as `crates/store-sqlite/src/lib.rs:12964-12993` does; a codec for one multiaddress is an arbitrary
pair of functions whose writer is inverted by its reader.

## What the proofs found

- The documentation of `GameTypeChanged` says a game type is respected "from this block on"
  (`crates/l1-anchor/src/lib.rs:81`). The code reads a whole block with the type in force before it
  (`AnchorLaneTheorems.GamesHaveTheTypeBefore`) and the next one with the last type named so far
  (`AnchorLaneTheorems.NextBlockHasTheLastType`), so a game created after the change in the same block is
  not reported (`AnchorLaneTheorems.TypeChangeMissesItsOwnBlock`).
- A cursor at the last representable block number is read again by each tip that names it
  (`AnchorLaneTheorems.OnlyTheLastNumberIsReread`); every theorem about the lane holds below it.
- A game that claims a time is looked up in the window, not in the full log: the two agree exactly when no
  block was made then or the window still has the first one (`GameLedger.TimeLookupAgreesWithLog`). With
  five blocks to a second the window's edge can fall inside a second
  (`GameLedger.FirstOfSecondIsEvicted`).
- `start_and_poll` falls back to the checkpoint its pool was started for, not to the one it was called
  with. When two calls name different checkpoints the root in force may not descend from the requested
  one: `TrustRoot.FallbackNamesThePoolsCheckpoint` says exactly when it does,
  `TrustRoot.TrustedWhateverTheAnswers` what a caller can tell before the call, and
  `TrustRoot.FallbackCanLeaveTheRequestedRoot` is an instance where it does not. A subscription refuses
  that case (`crates/finality-beacon-api/src/lib.rs:1018-1036`): what it accepts is always trusted
  (`TrustRoot.SubscribedRootIsTrusted`). A probe's report does not.
- A damaged anchor file stays damaged until an anchor newer than the remembered slot arrives
  (`TrustRoot.DamagedFileWaitsForNewer`).
- A cancelled finality stream drops the selection that is pending when the cancellation strikes, and no
  other (`FinalityStream.OnlyThePendingIsMissed`).
- Undoing block 0 leaves a run with last number 0 and an empty chain, and such a run accepts no block any
  more: a replacement block 0 is skipped and the block after it ends the run
  (`RunTheorems.RevertedGenesisIsNotReplaced`). A reorg that lists block 0 twice ends the run as well
  (`RunTheorems.ReorgOfTopIsUndone`, an instance is `RunTheorems.GenesisListedTwiceFails`).
- A reorg that reaches below a run's first block undoes cleanly, skips the new block of the number below the
  first, and then ends the run exactly when another block follows that one
  (`RunTheorems.ReorgBelowFirstFails`); `RunTheorems.ReorgIsSurvived` says exactly which reorgs are survived.
- A banned peer is documented as "never asked or dialed again" (`crates/finality-consensus-p2p/src/lib.rs:181-183`).
  Bans are shared by all clients of one source, so a request to a banned peer happens exactly when another
  client bans it after this client chose it (`PeerLog.AskedAfterBanOnlyInRace`, an instance is
  `PeerLog.AskedAfterBanHappens`). A new peer set dials one exactly when another client bans it after the
  ban set was copied (`PeerLog.DialedAfterBanOnlyInRace`, `PeerLog.DialedAfterBanHappens`). And the swarm of a
  peer set redials its peers without looking at the bans at all: a redial goes to a banned peer, this
  client's own bans included, exactly when the ban came after the set began (`PeerLog.RedialedAfterBan`, an
  instance is `PeerLog.BannedIsRedialed`). Each swarm redials a peer at most twice, so a peer is redialed at
  most twice for every set that held it (`PeerLog.RedialsAreBounded`, `PeerClient.FollowSource`).
- `Carriers` reads a kept address back under the first peer id it names. An address that already ends in
  another peer's id, to which `dialable` appends, comes back under that other peer
  (`Carriers.ComesBackUnderAnother`): `Carriers.RoundTrip` and `Carriers.DialableNamesItsPeer` give the exact
  conditions. A file may so name a peer twice; then the list is no longer one of distinct peers
  (`Carriers.DuplicateStays`), and `Carriers.KeepsNewestPeersFrom` says that this is the only case.
- The order of shipped packages is open exactly when one name and version comes from two sources
  (`ShippedPackages.OrderIsDetermined`).

## Model

| member | source | states |
|---|---|---|
| `Varint.EncodeVarint` | crates/finality-consensus-p2p/src/lib.rs:1532-1544 | the loop with its or-ed continuation bits writes exactly the standard's base-128 encoding |
| `Varint.DecodeVarint` | crates/finality-consensus-p2p/src/lib.rs:1547-1563 | the reader's loop is the decoder that the codec theorems are about, with its three refusals |
| `Varint.DecodeIsStrictInverse` | crates/finality-consensus-p2p/src/lib.rs:1532-1563 | a string is accepted with value and length exactly when it begins with the encoding of a 64-bit number and these are that number and that encoding's length |
| `Varint.RoundTrip` | crates/finality-consensus-p2p/src/lib.rs:1532-1563 | every 64-bit number followed by anything decodes to itself and its length, which is 1 to 10 |
| `Varint.PrefixFree` | crates/finality-consensus-p2p/src/lib.rs:1532-1563 | two concatenations of an encoding and a rest are equal only if both parts are |
| `Varint.WriteChainEntry` | crates/finality-op-gossip/src/lib.rs:199-211 | the discovery record's writer emits the same bytes: the chain id's encoding, then version 0's |
| `Varint.ReadChainEntry` | crates/finality-op-gossip/src/lib.rs:169-182 | the lenient reader's loop is the decoder the two rows below are about |
| `Varint.LenientReadsPayload` | crates/finality-op-gossip/src/lib.rs:169-182 | it refuses exactly an input without an end within ten bytes, and reads any other one, padded or over-long included, as what its groups carry modulo 2 to the 64th |
| `Varint.LenientAgrees` | crates/finality-op-gossip/src/lib.rs:169-182 | wherever the strict reader accepts, the lenient one returns the same number |
| `Varint.ChainEntryReadsBack` | crates/finality-op-gossip/src/lib.rs:169-211 | the lenient reader reads back every chain id the writer wrote |
| `L1Claims.ExtraData` | crates/l1-anchor/src/lib.rs:217-227 | what it returns is a slice of its input after the selector |
| `L1Claims.ExtraDataIsThirdArgument` | crates/l1-anchor/src/lib.rs:217-227 | it returns some bytes exactly when the input calls a creation function whose third head word places a `bytes` argument holding them, wherever that tail lies |
| `L1Claims.CreateReadsBack` | crates/l1-anchor/src/lib.rs:217-227 | the canonical encoding of the three-argument creation call gives back its third argument |
| `L1Claims.CreateWithInitDataReadsBack` | crates/l1-anchor/src/lib.rs:217-227 | and so does that of the four-argument one |
| `L1Claims.ClaimedIsLeadingWord` | crates/l1-anchor/src/lib.rs:231-240 | an output-root claim names a number exactly when the extra data begins with that 64-bit number's word, and the root is the claim |
| `L1Claims.ClaimedInvertsSuperRoot` | crates/l1-anchor/src/lib.rs:241-263 | a time and a root are read exactly when the extra data is a preimage of the claim that encodes a super root of that time whose first entry of the chain is that root |
| `L1Claims.SuperRootInjective` | crates/l1-anchor/src/lib.rs:241-263 | two super roots with one encoding are equal |
| `Observations.Observe` | crates/l1-anchor/src/lib.rs:115-213 | the loop over a block's logs collects its observations in log order, nothing without logs |
| `Observations.CollectObserved` | crates/l1-anchor/src/lib.rs:135-213 | pushing each readable log's observation gives the readable ones in order |
| `Observations.ObservedFromLog` | crates/l1-anchor/src/lib.rs:135-213 | an observation is reported exactly when one of the logs gives it |
| `Observations.OutputRootGameObserved` | crates/l1-anchor/src/lib.rs:146-170 | a game of the respected type is observed with a number and a root exactly when its creation call's third argument begins with that number and the root is its claim |
| `Observations.SuperRootGameObserved` | crates/l1-anchor/src/lib.rs:146-170 | likewise for a claimed super root: exactly when the third argument is the claim's preimage encoding that time and the chain's root |
| `Observations.GameTypeObserved` | crates/l1-anchor/src/lib.rs:172-181 | a respected game type is observed exactly when the registry's event begins with that 32-bit type's word |
| `Observations.UpdateObserved` | crates/l1-anchor/src/lib.rs:167-171 | an anchor update is observed exactly when the registry emits its event, and names the game in the event's second topic |
| `Observations.CalldataOfTransaction` | crates/l1-anchor/src/lib.rs:125-135 | the calldata read is the input of the first transaction with the log's index, if the frame has both |
| `Observations.AssertionObserved` | crates/l1-anchor/src/lib.rs:200-208 | a confirmed assertion is observed exactly when the rollup's event begins with its block hash |
| `Observations.SignerObserved` | crates/l1-anchor/src/lib.rs:182-197 | a signer is observed exactly when the data holds a third word, and is that word's low twenty bytes |
| `Observations.EncodedSignerObserved` | crates/l1-anchor/src/lib.rs:182-197 | so the ABI encoding of a `bytes` holding one address gives that address |
| `AnchorLane.FoldSplits` | crates/l1-anchor/src/lib.rs:534-549 | reading two ranges one after another, with what was learned carried over, is reading their concatenation |
| `AnchorLane.Lane.RespectType` | crates/l1-anchor/src/lib.rs:574-591 | the anchor's game type changes only for a dispute-game anchor that follows it |
| `AnchorLane.Lane.SendAll` | crates/l1-anchor/src/lib.rs:535-548 | a block's observations are sent in order until the run dies, each first learned from |
| `AnchorLane.Lane.SendFrames` | crates/l1-anchor/src/lib.rs:534-549 | a batch sends a prefix of its fold, all of it unless the run dies |
| `AnchorLane.Lane.Take` | crates/l1-anchor/src/lib.rs:491-567 | one finality event is skipped, ends the run, dies inside its batch leaving the cursor alone, or sends its batch and moves the cursor to the tip |
| `AnchorLane.Lane.Advance` | crates/l1-anchor/src/lib.rs:491-567 | after one event the rest of the run is the run from the new cursor |
| `AnchorLane.Lane.Run` | crates/l1-anchor/src/lib.rs:475-569 | over all events, with a death between any two effects, the cursor file and the channel hold exactly what the run's specification says |
| `AnchorLaneTheorems.LifetimeIsOnePass` | crates/l1-anchor/src/lib.rs:475-569 | once a cursor exists, the batches of any number of runs, failed, died or restarted, form one pass: each follows the cursor before it by number and hash, and an uncommitted one sent only a prefix |
| `AnchorLaneTheorems.OnePassIsOneFold` | crates/l1-anchor/src/lib.rs:475-590 | one pass is one left fold over the whole contiguous, hash-linked range with the respected game type threaded through, and its cursor is where that fold ends |
| `AnchorLaneTheorems.DeliveryIsPrefixOfOneFold` | crates/l1-anchor/src/lib.rs:475-590 | at any moment what was committed followed by what the batch in progress sent is a prefix of the one fold, so a crash repeats a prefix of the unfinished batch and nothing else |
| `AnchorLaneTheorems.OnlyTheLastNumberIsReread` | crates/l1-anchor/src/lib.rs:508-514 | a tip at the cursor is read again exactly at the last 64-bit number |
| `AnchorLaneTheorems.GamesHaveTheTypeBefore` | crates/l1-anchor/src/lib.rs:534-549 | a block reports a game exactly when a readable creation of the type in force before that block says so, whatever the block changes; a readable creation is reported if and only if it has that type |
| `AnchorLaneTheorems.NextBlockHasTheLastType` | crates/l1-anchor/src/lib.rs:539-549 | after any block the type learned is the last one the block named, else the one before, and so the last one named at all; a lane that follows it reads the next block with it, and any other with its configured anchor |
| `AnchorLaneTheorems.RemembersTheLastSaid` | crates/l1-anchor/src/lib.rs:534-557 | a cursor remembers the last signer and the last game type of everything sent before it |
| `AnchorLaneTheorems.TypeChangeMissesItsOwnBlock` | crates/l1-anchor/src/lib.rs:534-549 | a game of a type that becomes respected earlier in its block is not reported, while the lane learns that type |
| `AnchorLaneProgress.RunReadsToItsReach` | crates/l1-anchor/src/lib.rs:491-569 | a run on the finalized chain with enough budget reads exactly from its cursor to its reach, the greatest tip before finality fails or a range goes unanswered; it sends all that says and leaves its cursor there |
| `AnchorLaneProgress.ReachIsTheGreatestTip` | crates/l1-anchor/src/lib.rs:491-521 | while nothing fails and every range asked for is answered, the reach is the greatest tip |
| `AnchorLaneProgress.FreshLaneReadsFromLookback` | crates/l1-anchor/src/lib.rs:508-569 | a lane without a cursor begins `lookback` blocks below its first tip and goes on from there in the same way; an unanswered first range ends it with nothing sent |
| `SignedWindow.HighestSize` | crates/l1-anchor/src/lib.rs:323-325 | the highest keys are as many as fit |
| `SignedWindow.HighestAbsorbs` | crates/l1-anchor/src/lib.rs:322-325 | trimming before an insertion does not change the trimmed result |
| `SignedWindow.NewestAbsorbs` | crates/l1-anchor/src/lib.rs:321-326 | the same for the map with its values |
| `GameLedger.Ledger.Load` | crates/l1-anchor/src/lib.rs:299-317 | a loaded ledger has the file's games and an empty window |
| `GameLedger.Ledger.RecordBlock` | crates/l1-anchor/src/lib.rs:321-326 | inserting and popping the lowest numbers is one step of the specification |
| `GameLedger.Ledger.Save` | crates/l1-anchor/src/lib.rs:377-390 | the file holds the games after a write, and is unchanged by a failed or absent one |
| `GameLedger.Ledger.Observe` | crates/l1-anchor/src/lib.rs:333-375 | one observation is one step: its new games and file, and the block it finalizes, none after a failed write |
| `GameLedger.WindowIsNewestOfLog` | crates/l1-anchor/src/lib.rs:321-326 | after any events in any order the window is the unbounded log restricted to its highest numbers, each with its latest block |
| `GameLedger.LookupAgreesWithLog` | crates/l1-anchor/src/lib.rs:340-345 | which block a lookup finds: the one of that number, or the first of that time, among the numbers the window holds |
| `GameLedger.NumberLookupAgreesWithLog` | crates/l1-anchor/src/lib.rs:340-341 | a lookup by number gives what the full log would exactly when the log lacks the number or the window has it |
| `GameLedger.TimeLookupAgreesWithLog` | crates/l1-anchor/src/lib.rs:342-345 | a lookup by time gives what the full log would exactly when no block was made then or the window has the first that was |
| `GameLedger.FirstOfSecondIsEvicted` | crates/l1-anchor/src/lib.rs:321-345 | an instance in which the first block of a second has left the window and a later one is found |
| `GameLedger.GamesAreBacked` | crates/l1-anchor/src/lib.rs:333-390 | every game in memory and in the file has a creation that matched the window then, and that no later update ended, through failed writes and restarts |
| `GameLedger.FinalBlocksWereClaimed` | crates/l1-anchor/src/lib.rs:333-372 | every finalized block had a creation of its game whose root was that block's output root in the window at that moment, with no update between them that finalized the game or a block at or above it |
| `GameLedger.LaterFinalNeedsLaterCreation` | crates/l1-anchor/src/lib.rs:361-369 | each creation finalizes at most once, and a finalization at or below an earlier number comes from a game created after that update |
| `GameLedger.GamesAreExactlyTheLive` | crates/l1-anchor/src/lib.rs:333-390 | what memory has of a game, through failed writes and restarts, is exactly a matching creation no restart lost, while whatever would have displaced it since was lost to one; the file has what a restart would bring back |
| `GameLedger.FinalizesTheLive` | crates/l1-anchor/src/lib.rs:361-372 | an update finalizes a number and hash exactly when they are its game's live creation's and its write succeeds |
| `GameLedger.LastCreationIsFinal` | crates/l1-anchor/src/lib.rs:333-372 | so the latest matching creation of a game becomes final when the anchor moves to it, unless it moved there or past its block in between |
| `FinalitySelection.SelectEndpointAgreement` | crates/finality-beacon-api/src/lib.rs:1522-1585 | it selects by the rule below, and accepts exactly when something is selected and no slot has two different anchors |
| `FinalitySelection.SelectedIsKthLargest` | crates/finality-beacon-api/src/lib.rs:1546-1554 | at least the minimum of endpoints verified the selected slot or a later one, and fewer a later one |
| `FinalitySelection.SelectedInSortedOrder` | crates/finality-beacon-api/src/lib.rs:1546-1554 | in any descending list of the verified anchors the selected slot is the entry numbered by the minimum |
| `FinalitySelection.SelectsIff` | crates/finality-beacon-api/src/lib.rs:1546-1576 | something is selected exactly when enough endpoints verified |
| `FinalitySelection.MoreEndpointsNeverLower` | crates/finality-beacon-api/src/lib.rs:1546-1554 | more verified endpoints never lower the selected slot |
| `FinalitySelection.AcceptedIsOrderIndependent` | crates/finality-beacon-api/src/lib.rs:1522-1585 | acceptance, and the accepted anchor, do not depend on the order of endpoints |
| `FinalitySelection.HeadIsNewestAndUncontested` | crates/finality-beacon-api/src/lib.rs:1592-1605 | a head is followed exactly when some endpoint verified it and every other verified head is older or the same |
| `FinalityStream.Subscription.TakePending` | crates/finality-beacon-api/src/lib.rs:1108-1141 | a pending anchor is dropped, emitted, or ends the stream as one step of the specification says |
| `FinalityStream.Subscription.NextEvent` | crates/finality-beacon-api/src/lib.rs:1098-1183 | the loop returns the stream's next event, cancellation looked at before anything pending, and leaves exactly the rest of the stream |
| `FinalityStream.StreamEmitsRunningMaxima` | crates/finality-beacon-api/src/lib.rs:1098-1183 | over any run of polls the stream finalizes exactly the strict running maxima of the accepted selections it looks at, up to the first contradiction of the newest one |
| `FinalityStream.OnlyThePendingIsMissed` | crates/finality-beacon-api/src/lib.rs:1108-1112 | it looks at all of them except exactly the one pending when the stream is cancelled, before its first event or during a poll |
| `FinalityStream.StreamNeverMovesBack` | crates/finality-beacon-api/src/lib.rs:1113-1117 | the slots of the finalized events strictly increase |
| `StreamTranscript.StreamIsItsTranscript` | crates/finality-beacon-api/src/lib.rs:1098-1183 | every event of the stream: each refused poll is reported, each selection looked at is emitted exactly if it is a new maximum, and a cancellation or a contradiction is reported and ends it |
| `TrustRoot.StartIsTrusted` | crates/finality-beacon-api/src/anchor.rs:132-187 | a start root descends from the checkpoint it is attributed to; for an operator's checkpoint it also descends from that one; only a locally verified one is replaced from elsewhere, and only by a later slot |
| `TrustRoot.SelectedDescends` | crates/finality-beacon-api/src/lib.rs:852-945 | whatever a poll selects descends from the pool's start root |
| `TrustRoot.StepSound` | crates/finality-beacon-api/src/lib.rs:770-848 | every startup, poll, write, fallback, reboot and damage keeps it so for the pool, the queued anchors and the file |
| `TrustRoot.StepTrusts` | crates/finality-beacon-api/src/lib.rs:770-825 | with one operator checkpoint every step keeps the start root at or below it |
| `TrustRoot.OperatorRootStaysInForce` | crates/finality-beacon-api/src/lib.rs:770-948 | over every run with one operator checkpoint the root in force is that checkpoint or descends from it, and the file's anchor descends from its own checkpoint root |
| `TrustRoot.FallbackNamesThePoolsCheckpoint` | crates/finality-beacon-api/src/lib.rs:779-797 | with several checkpoints the root in force descends from the requested one exactly unless the call fell back to a pool checkpoint that does not |
| `TrustRoot.TrustedWhateverTheAnswers` | crates/finality-beacon-api/src/lib.rs:770-825 | before the call: the root will be trusted whatever the endpoints answer exactly if the start followed is not persisted or the pool's checkpoint is trusted |
| `TrustRoot.SubscribedRootIsTrusted` | crates/finality-beacon-api/src/lib.rs:1008-1043 | a start root that a subscription accepts, the requested one or a persisted anchor, descends from the requested checkpoint |
| `TrustRoot.FallbackCanLeaveTheRequestedRoot` | crates/finality-beacon-api/src/lib.rs:786-793 | a sound state and a possible call after which the root in force does not descend from the requested one |
| `TrustRoot.FileSlotNeverDecreases` | crates/finality-beacon-api/src/anchor.rs:234-273 | over every undamaged run a readable file's slot never decreases |
| `TrustRoot.RememberedSlotChangesNothing` | crates/finality-beacon-api/src/anchor.rs:295-332 | while nobody else touches the file, the writer's remembered slot does not change what reaches it |
| `TrustRoot.RestartResumesFromWrite` | crates/finality-beacon-api/src/anchor.rs:132-332 | a newer anchor verified from the checkpoint, once it is in the file, is the next start for that checkpoint while it is young enough, also when the write failed after replacing the file |
| `TrustRoot.DamagedFileWaitsForNewer` | crates/finality-beacon-api/src/anchor.rs:306-323 | a damaged file is repaired exactly by an anchor newer than the remembered slot |
| `PoolProgress.CallLeavesItsStart` | crates/finality-beacon-api/src/lib.rs:770-800 | a call leaves the pool on the start it reports: the one it began with, or, exactly when nothing verified from a persisted one and something did from the checkpoint, the pool's checkpoint |
| `PoolProgress.OutageKeepsTheStart` | crates/finality-beacon-api/src/lib.rs:781-796 | after a call in which nothing verified either way, every endpoint bootstraps again from the start the call began with |
| `PoolProgress.NextCallGoesOn` | crates/finality-beacon-api/src/lib.rs:770-825 | the next call for the same checkpoint polls from the reported start exactly when the pool follows that checkpoint or the start would be chosen again; for an operator's checkpoint without a fallback always |
| `PoolProgress.OutageIsOvercome` | crates/finality-beacon-api/src/lib.rs:770-825 | so the first call in which an endpoint verifies again reports the start from before the outage |
| `PoolProgress.NewestAgreedIsNewest` | crates/finality-beacon-api/src/lib.rs:925-934 | over any polls the newest agreed anchor is the newest of all epoch-aligned anchors agreed on, the first of them at its slot |
| `PoolProgress.ReadyStaysReady` | crates/finality-beacon-api/src/lib.rs:1197-1260 | an endpoint bootstraps once: its verifier stays where its latest answer left it, through polls that fail |
| `PoolProgress.InFlightKeepsItsRoot` | crates/finality-beacon-api/src/lib.rs:1197-1260 | a bootstrap in flight keeps the root it began with, whatever is agreed meanwhile |
| `PoolProgress.AnchorReplacesCheckpoint` | crates/finality-beacon-api/src/anchor.rs:123-187 | a young enough anchor in the file is the start of its own lineage's checkpoint unless that is later, and of a locally verified one also whenever it is later itself; no other is |
| `PoolProgress.YoungThroughItsAge` | crates/finality-beacon-api/src/lib.rs:1414-1437 | an anchor is young enough through the last second of its age from its slot's start, never when that start overflows |
| `PoolProgress.AcceptedIsQueued` | crates/finality-beacon-api/src/lib.rs:839-847 | what a call or poll accepts is handed to the writer with its start's checkpoint, and nothing else is |
| `PoolProgress.WrittenIsHeld` | crates/finality-beacon-api/src/anchor.rs:295-332 | an epoch-aligned anchor once written is held by the file, unless that has one as new |
| `VerifierPool.VerifierSet.Restart` | crates/finality-beacon-api/src/lib.rs:673-679 | the pool's fields are those of a restarted pool |
| `VerifierPool.VerifierSet.Follow` | crates/finality-beacon-api/src/lib.rs:804-825 | the pool is kept or restarted as the trust model's step says, and the start returned is the one in force |
| `VerifierPool.VerifierSet.Poll` | crates/finality-beacon-api/src/lib.rs:852-948 | the endpoints advance once, the report is selected among the anchors of those that completed in the order they did, and the newest agreed anchor moves as the step says |
| `VerifierPool.VerifierSet.StartAndPoll` | crates/finality-beacon-api/src/lib.rs:770-800 | pool, report and start are those of the specification, fallback and return from it included, and each poll made reports what the rule selects from its answers |
| `VerifierPool.AnchorWriter.Persist` | crates/finality-beacon-api/src/anchor.rs:295-332 | the file and the remembered slot change as the specification's write does, a failure before and one after the file is replaced told apart; a failure is counted exactly when a write was attempted |
| `ForkSchedule.ForksFromConfig` | crates/chain/src/beacon.rs:89-119 | the loops and the sort give the scheduled forks in activation order, or an error exactly for a version without an epoch or a first fork that is not the genesis one |
| `ForkSchedule.ScheduledAtTheFirst` | crates/chain/src/beacon.rs:91-100 | a version is scheduled at the first epoch listed under its name, the genesis one at epoch 0 |
| `ForkSchedule.GenesisRule` | crates/chain/src/beacon.rs:89-119 | a configuration with a genesis version starts at epoch 0 with the first fork listed for it, sorted with ties in the order listed; it is accepted exactly when that fork is the genesis one |
| `ForkSchedule.ActiveForkIsLatest` | crates/chain/src/beacon.rs:175-181 | in activation order the fork found from the back is one that activated, and no later one has |
| `ForkSchedule.FindsTheFirst` | crates/chain/src/beacon.rs:169-171 | a fork is found by the first entry of its name |
| `ForkSchedule.ParametersInForce` | crates/chain/src/beacon.rs:191-206 | blob parameters are folded in exactly from Fulu on: the latest activated entry of an ordered schedule, or Electra's epoch and limit without one |
| `ForkSchedule.ForkDigest` | crates/chain/src/beacon.rs:185-214 | the buffers and the in-place XOR give the digest of the slot's epoch |
| `ForkSchedule.DigestConstantBetweenNamedEpochs` | crates/chain/src/beacon.rs:185-214 | digest and active fork are constant between consecutive fork and blob epochs, even when the blob schedule is unsorted |
| `ForkSchedule.EveryDecodedSlotIsKnown` | crates/finality-consensus-p2p/src/lib.rs:1145-1154 | every slot from the first named epoch on whose active fork is decoded has its digest in the list |
| `ForkSchedule.FromGenesisEverySlotIsKnown` | crates/finality-consensus-p2p/src/lib.rs:1145-1154 | a schedule from epoch 0 leaves no such slot out |
| `ForkSchedule.ConfiguredSlotIsKnown` | crates/finality-consensus-p2p/src/lib.rs:1145-1154 | and so neither does one read from a configuration with a genesis version |
| `ForkSchedule.KnownDigestsAreExact` | crates/finality-consensus-p2p/src/lib.rs:1145-1154 | and the list has nothing else |
| `PeerLog.BannedIsNotChosen` | crates/finality-consensus-p2p/src/lib.rs:1319-1339 | in a safe log nobody banned is chosen again, by whichever client it was banned |
| `PeerLog.AskedAfterBanOnlyInRace` | crates/finality-consensus-p2p/src/lib.rs:1319-1386 | a request goes to a peer banned by then exactly when another client banned it after this client chose it |
| `PeerLog.AskedAfterBanHappens` | crates/finality-consensus-p2p/src/lib.rs:1325-1341 | that race is possible |
| `PeerLog.DialedAfterBanOnlyInRace` | crates/finality-consensus-p2p/src/lib.rs:880-904 | a peer set dials a peer banned by then exactly when another client banned it after the ban set was copied |
| `PeerLog.DialedAfterBanHappens` | crates/finality-consensus-p2p/src/lib.rs:1014-1032 | that race is possible |
| `PeerLog.RedialedAfterBan` | crates/finality-consensus-p2p/src/lib.rs:1899-1935 | a peer set redials a peer banned by then, by any client, exactly when the ban came after the set began; the set has dialed that peer |
| `PeerLog.BannedIsRedialed` | crates/finality-consensus-p2p/src/lib.rs:1899-1915 | that happens: a peer this client banned is dialed again |
| `PeerLog.RedialsAreBounded` | crates/finality-consensus-p2p/src/lib.rs:1899-1935 | when each swarm redials a peer no more often than a limit, the peer's redials over all swarms are at most that limit for every set that held it |
| `PeerLog.AskedOncePerRound` | crates/finality-consensus-p2p/src/lib.rs:1319-1340 | a request round asks a peer at most once |
| `PeerLog.BanIsDeserved` | crates/finality-consensus-p2p/src/lib.rs:1391-1414 | a ban follows a damning answer of that peer to a request it was sent |
| `PeerLog.DamningIsBanned` | crates/finality-consensus-p2p/src/lib.rs:1391-1414 | and a damning answer leaves its peer banned by the client's next own step |
| `PeerLog.HonestIsNeverDamning` | crates/finality-consensus-p2p/src/lib.rs:1161-1216 | an unavailable, unknown-fork, stale, early or (for a head) under-signed reply is not damning when it is judged, nor is sound material under its own slot's digest |
| `PeerLog.ForgedIsDamning` | crates/finality-consensus-p2p/src/lib.rs:1161-1216 | undecodable material, a missing or wrong-slot digest, failed verification and a finality update signed past any honest clock are damning |
| `PeerLog.DamningExactly` | crates/finality-consensus-p2p/src/lib.rs:1161-1216 | which replies get a peer banned, exactly: other material, and a payload of a known fork or none that does not decode, has another slot's digest, is past any honest clock, or fails verification for no sound reason |
| `PeerLog.TakenExactly` | crates/finality-consensus-p2p/src/lib.rs:1161-1216 | which replies are taken, exactly: known material under its own slot's digest that verifies and, for finality, is not ahead of the clock |
| `PeerLog.HonestIsSpared` | crates/finality-beacon-api/src/lib.rs:1480-1517 | nor is it on the second look a finality update gets, if it is honest then too |
| `PeerLog.EarlyIsHonest` | crates/finality-beacon-api/src/lib.rs:1480-1517 | slightly early material is honest when served and stays so as the clock moves on |
| `PeerLog.HonestContextIsDecoded` | crates/finality-consensus-p2p/src/lib.rs:1565-1578 | material of a decoded fork under its slot's digest is always known and decoded |
| `PeerClient.Client.LoseConnection` | crates/finality-consensus-p2p/src/lib.rs:1899-1935 | a lost or failed connection is dialed again exactly when the set dialed that peer and its swarm has redialed it fewer than twice, and the swarm's counters stay the log's counts |
| `PeerClient.Client.ConnectionsAreLost` | crates/finality-consensus-p2p/src/lib.rs:1899-1935 | every lost connection to a peer of its set is retried, until the swarm has redialed it twice |
| `PeerClient.Client.NextPeer` | crates/finality-consensus-p2p/src/lib.rs:1319-1362 | the peer chosen is connected, untried and unbanned; none is left when none is returned |
| `PeerClient.Client.RequestVerified` | crates/finality-consensus-p2p/src/lib.rs:1391-1424 | the log stays safe, no peer honest when judged is banned, other rounds are untouched; one round of this request and no other is begun, and one useful answer is taken exactly when it is accepted; accepted or fatal is what the last answer says, and a retry means every connected peer was tried or banned |
| `PeerClient.Client.AcceptVerified` | crates/finality-consensus-p2p/src/lib.rs:1401-1413 | stale material is skipped, an unusable checkpoint is fatal, any other refusal bans |
| `PeerClient.Client.RefreshOnce` | crates/finality-consensus-p2p/src/lib.rs:700-777 | the same over the finality round with its nested period syncs: it begins one, and takes a numbered update exactly when it succeeds |
| `PeerClient.Client.AcceptFinality` | crates/finality-consensus-p2p/src/lib.rs:729-766 | an update up to an epoch early, a stale one and an unnumbered one are skipped; one implausibly ahead bans |
| `PeerClient.Client.SyncPeriods` | crates/finality-consensus-p2p/src/lib.rs:746-796 | the periods' rounds leave the enclosing round's tried peers alone, and success means an update was taken for each |
| `PeerClient.Client.AttestedHead` | crates/finality-consensus-p2p/src/lib.rs:637-698 | the same for the head round; a head returned is verified, numbered and newer than the published one, and one is returned exactly when an answer of the round gave one |
| `PeerClient.Client.Reconnect` | crates/finality-consensus-p2p/src/lib.rs:880-904 | the ban set is copied, peers are discovered while others ban, and exactly those not in the copy are dialed |
| `PeerClient.Client.Refresh` | crates/finality-consensus-p2p/src/lib.rs:591-612 | a refresh begins one finality round, or two over two peer sets, takes an update exactly when it succeeds, and fails only after another peer set was tried |
| `PeerClient.Client.Follow` | crates/finality-consensus-p2p/src/lib.rs:509-612 | without a connection nothing is asked; a bootstrap is asked for from the start and, exactly if that is a persisted one that gave none, from the checkpoint; finality is asked for exactly once one was taken; and after the first refresh each further one begins a finality round |
| `PeerClient.Client.BootstrapClient` | crates/finality-consensus-p2p/src/lib.rs:818-836 | a bootstrap over at most two peer sets takes one exactly when it succeeds, and fails only after another peer set was tried or at an unusable checkpoint |
| `PeerClient.FollowSource` | crates/finality-consensus-p2p/src/lib.rs:509-777 | over a whole run from a new client: it ends as the rounds and answers in its log say, the log is safe, no peer is banned by this client whose replies are honest at the moments they are judged, so that every banned peer was banned elsewhere or is not honest, each swarm redials a peer at most twice, and a peer's redials are at most twice the sets that held it |
| `PeerClient.EarlyPeerIsAlwaysHonest` | crates/finality-beacon-api/src/lib.rs:1480-1517 | on a clock that does not go back a peer that serves only slightly early material is such a peer |
| `Cadence.StartsIncrease` | crates/chain/src/lib.rs:66-94 | where nothing saturates slot starts strictly increase, and the slot length is their exact difference |
| `Cadence.SlotAtIsGreatestStarted` | crates/chain/src/lib.rs:112-125 | a slot has started by a time at or after genesis exactly when it is not beyond the slot in progress |
| `Cadence.SlotStartingAtInvertsSlotStart` | crates/chain/src/lib.rs:99-108 | before the fast regime the slot starting at a second is exactly the inverse of slot starts, from it on there is none |
| `Cadence.FiveSlotsShareASecond` | crates/chain/src/lib.rs:66-85 | from the fast regime on exactly five slots share each second |
| `Cadence.HeaderFillsWhatStartsThen` | crates/chain/src/lib.rs:128-135 | a header fills exactly the slot that starts at its timestamp, which is its number where blocks are numbered by slot, and elsewhere lies before the fast regime |
| `Cadence.NextStartFollowsHeader` | crates/chain/src/lib.rs:128-144 | the next start of a header's slot is the start of the slot after it |
| `Cadence.ActivationIsTheFirst` | crates/chain/src/op_stack.rs:152-157 | a fork activates when the first entry of its name says |
| `Cadence.DenimBlockIsLeast` | crates/chain/src/op_stack.rs:162-170 | Denim's first block is the least whose whole-second slot starts at or after activation |
| `Cadence.FastRegimeStartsAtDenim` | crates/chain/src/op_stack.rs:142-170 | the fast regime starts less than one block time after activation, never before it |
| `Cadence.BeaconAgreesWithCadence` | crates/chain/src/beacon.rs:134-166 | the beacon schedule's own slot functions agree with its cadence |
| `RunModel.ApplyFedKeeps` | crates/api/src/wasm_runs.rs:834-853 | applying a block extends the chain by it or leaves the run alone, and keeps the invariant |
| `RunModel.RevertKeeps` | crates/api/src/wasm_runs.rs:932-970 | a reorg takes blocks off the top of the chain, block 0 included, and the kept blocks stay its suffix |
| `RunTheorems.RunReplaysItsChain` | crates/api/src/wasm_runs.rs:724-808 | after any blocks, reorgs and swaps the run survives, its store is the current processor folded over the applied-and-not-undone hash-linked chain from `first` to `last`, and `kept` is a contiguous suffix of it, at most `keep` long |
| `RunTheorems.SwapRerunsKept` | crates/api/src/wasm_runs.rs:810-832 | a swap plans again exactly when nothing is kept or the newest kept block is not covered; otherwise it reruns exactly `kept` and ends at the same number and hash, failing only if the processor refuses a block |
| `RunTheorems.ReorgOfTopIsUndone` | crates/api/src/wasm_runs.rs:932-970 | reverted blocks that are the top of the chain, in any order and among blocks never applied, are undone exactly when block 0 is not listed twice |
| `RunTheorems.AppliedIsSurvived` | crates/api/src/wasm_runs.rs:834-853 | exactly when a run survives linked blocks: the first above its last names it as parent and the processor accepts them; then they are the chain's new top |
| `RunTheorems.ReorgIsSurvived` | crates/api/src/wasm_runs.rs:795-800 | the same for a whole reorg of the top of the chain |
| `RunTheorems.GenesisListedTwiceFails` | crates/api/src/wasm_runs.rs:933-970 | a run of block 0 alone survives a revert that lists it once and ends at one that lists it twice |
| `RunTheorems.ReorgBelowFirstFails` | crates/api/src/wasm_runs.rs:834-970 | a reorg that undid everything and brings another block for the number below the first ends the run when a block follows that one, and otherwise leaves the run empty |
| `RunTheorems.RevertUndoesApply` | crates/api/src/wasm_runs.rs:896-970 | reverting the block just applied restores the store, and the last number and hash, before it |
| `RunTheorems.RevertedGenesisIsNotReplaced` | crates/api/src/wasm_runs.rs:834-970 | after a reorg that reverts block 0 another block 0 is skipped and any later block ends the run |
| `RunTheorems.UndoingGenesisEmpties` | crates/api/src/wasm_runs.rs:956-961 | undoing block 0 leaves nothing but last number 0 |
| `RunTheorems.VersionsIncrease` | crates/api/src/wasm_runs.rs:345-352 | in any order of posts and takes the versions taken strictly increase, and each names the processor posted under it |
| `RunProgress.BlocksFeedTheRun` | crates/api/src/wasm_runs.rs:794-853 | over a feed of linked blocks a run goes on exactly when they join and the processor accepts them; then they are its chain's new top and the newest that fit are kept |
| `RunProgress.NewestKeepsWhatFits` | crates/api/src/wasm_runs.rs:848-851 | as many of the newest blocks are kept as fit |
| `RunProgress.InformingChangesNothing` | crates/api/src/wasm_runs.rs:801-805 | events that only inform change nothing and end nothing |
| `RunProgress.RevertTakesTheListed` | crates/api/src/wasm_runs.rs:932-970 | a run that goes on after a revert has lost exactly the listed blocks of its chain |
| `RunProgress.SurvivingRunIsPrescribed` | crates/api/src/wasm_runs.rs:768-853 | a run that survives its feed has exactly the chain, kept blocks, last number and hash, and processor that the delivered events prescribe |
| `RunProgress.TakesTheNewestPosted` | crates/api/src/wasm_runs.rs:345-352 | a run takes the newest posted processor, under its number, exactly when one was posted since it last took one |
| `Runner.Runner.Keep` | crates/api/src/wasm_runs.rs:848-851 | pushing and popping leaves the newest blocks that fit |
| `Runner.Runner.Reset` | crates/api/src/wasm_runs.rs:625-653 | a reset run has an empty store and nothing applied |
| `Runner.Runner.ApplyFed` | crates/api/src/wasm_runs.rs:834-853 | the fields change as the specification's step, its skip and its failures included |
| `Runner.Runner.Revert` | crates/api/src/wasm_runs.rs:932-970 | the retained, sorted and undone blocks are those of the specification |
| `Runner.Runner.SwapOnFeed` | crates/api/src/wasm_runs.rs:810-832 | a swap is the specification's, plan-again included |
| `Runner.Runner.RunOwnFeed` | crates/api/src/wasm_runs.rs:768-807 | the feed loop is the run's steps over the events it took, and a run that does not follow stops at the first point at or past its anchor |
| `Postgres.Transaction.Apply` | examples/sdk-postgres/index.ts:59-72 | the row is inserted unless the stream has one of its sequence |
| `Postgres.Transaction.StoreLeaniCursor` | examples/sdk-postgres/index.ts:73-87 | the cursor row is inserted or moved unless that would take it back |
| `Postgres.Destination.DeliverOne` | examples/sdk-postgres/index.ts:53-90 | a transaction writes both or neither |
| `Postgres.DeliverExtends` | examples/sdk-postgres/index.ts:53-90 | redelivering a change already held changes nothing, and delivering the next one extends the held prefix by it |
| `Postgres.DeliverFrame` | examples/sdk-postgres/index.ts:53-90 | other streams are untouched, rows are never rewritten, no cursor moves back |
| `Delivery.RowsAreAlwaysAPrefix` | examples/sdk-subscription/index.ts:67-114 | for any number of interleaved, crashed and restarted consumers the stream's rows are exactly a prefix of its changes, each once, its cursor is their last, and what is acknowledged is among them |
| `Delivery.CursorTellsRows` | examples/sdk-subscription/index.ts:67-114 | a change has a row, its own, exactly when the cursor has reached it, and every acknowledged change has one |
| `Delivery.ActMovesForward` | examples/sdk-subscription/index.ts:67-114 | no step drops a row or moves a cursor or the acknowledged position back |
| `ConsumeDurably.Consumer.DeliverChange` | examples/sdk-subscription/index.ts:100-112 | a change is committed with its cursor before it is acknowledged, and the loop goes on exactly when the node accepts that |
| `ConsumeDurably.Consumer.DeliverPage` | examples/sdk-subscription/index.ts:86-113 | every change of a page is delivered in order, and no acknowledgement of an undisturbed consumer is refused |
| `ConsumeDurably.Consumer.ConsumePage` | examples/sdk-subscription/index.ts:67-113 | a round delivers the page after the acknowledged change, finds nothing left, or is told that pruning overtook it, exactly when it did |
| `ConsumeDurably.PageIsFull` | examples/sdk-subscription/index.ts:67-73 | a page is the first changes after the acknowledged one, 256 of them or all there are |
| `ConsumeDurably.Consumer.Consume` | examples/sdk-subscription/index.ts:67-114 | the loop takes only the protocol's steps, and when it has caught up exactly the whole log is applied and acknowledged |
| `Delivery.RefusedOnlyWhenOvertaken` | crates/store-sqlite/src/lib.rs:12964-12993 | an acknowledgement is out of order exactly when another consumer has acknowledged a later change |
| `CoverageHoles.HolesOf` | examples/sdk-subscription/live-sync.ts:21-32 | for ranges sorted by start, overlapping or nested, the loop returns exactly the uncovered blocks from the start through the last processed one, as maximal ranges in order |
| `CoverageHoles.MaximalAreUnique` | examples/sdk-subscription/live-sync.ts:21-32 | there is only one such list |
| `CoverageHoles.LackedExactly` | examples/sdk-subscription/live-sync.ts:22-25 | a block is lacking from both starts on, through what was processed or else the finalized head, if no available range holds it |
| `LiveSync.NoBlockIsLost` | examples/sdk-subscription/live-sync.ts:71-147 | through any failures, reconnections and restarts every block of an acknowledged gap or a remembered hole is in a durable gap or in a range handed to `onBackfill` |
| `LiveSync.OnlyHandedIsForgotten` | examples/sdk-subscription/live-sync.ts:77-104 | a range is dropped only when a range handed over contains it |
| `LiveSync.PassEmptiesGaps` | examples/sdk-subscription/live-sync.ts:76-104 | a pass over the gaps in which no request fails leaves none |
| `LiveSync.RunKeeps` | examples/sdk-subscription/live-sync.ts:71-147 | every run keeps the invariant, in which no request lies within an earlier one of the same process |
| `KeepInSync.Keeper.RequestOne` | examples/sdk-subscription/live-sync.ts:78-103 | one gap is handed over unless in flight, then dropped, exactly when the request succeeds or it is in flight; a failure keeps it and ends the pass |
| `KeepInSync.Keeper.Request` | examples/sdk-subscription/live-sync.ts:76-104 | the pass takes only the protocol's steps and, when every request succeeds, leaves no gap |
| `KeepInSync.Keeper.Process` | examples/sdk-subscription/live-sync.ts:119-123 | a batch's gaps are all remembered and its changes applied in order before it is acknowledged |
| `KeepInSync.Keeper.Session` | examples/sdk-subscription/live-sync.ts:108-130 | a session takes only the protocol's steps; after it every batch has been received, applied and acknowledged in order, and every block its coverage lacked is a durable gap's or was handed over |
| `ShippedPackages.Reachable` | scripts/generate-third-party-licenses.py:75-84 | the worklist ends, also on cycles, with exactly the ids reached by normal and build edges, or with a reached id that has no node |
| `ShippedPackages.EdgeExactly` | scripts/generate-third-party-licenses.py:74-84 | an id leads to another exactly when its last node depends on that without a kind or for building |
| `ShippedPackages.LastPackageOfId` | scripts/generate-third-party-licenses.py:73 | a package is keyed by its id exactly as the last one listed with it |
| `ShippedPackages.ShippedPackages` | scripts/generate-third-party-licenses.py:69-86 | exactly the reached packages of a source, each once, by name and version; an error exactly when something reached is not described |
| `ShippedPackages.OrderIsDetermined` | scripts/generate-third-party-licenses.py:86 | a sorted list is the only sorted arrangement of its packages exactly when no two of them share name and version |
| `Carriers.Carriers.Record` | crates/finality-op-gossip/src/lib.rs:314-323 | the recorded peer is first and the list stays bounded; the flag says exactly whether the kept peers or their addresses changed, and without it the entries are the same |
| `Carriers.KeepsNewestPeers` | crates/finality-op-gossip/src/lib.rs:314-323 | after any history the entries are the 32 most recently recorded distinct peers, newest first, each with its latest address |
| `Carriers.KeepsNewestPeersFrom` | crates/finality-op-gossip/src/lib.rs:290-323 | a list read from a file continues as the history that would have led to it, for every history, exactly when it names no peer twice |
| `Carriers.DuplicateStays` | crates/finality-op-gossip/src/lib.rs:314-321 | of a peer named twice only the first entry is replaced |
| `Carriers.RoundTrip` | crates/finality-op-gossip/src/lib.rs:290-311 | reading the written file gives each address under the first peer it names, hence the same entries exactly when each names its own peer first |
| `Carriers.ComesBackUnderAnother` | crates/finality-op-gossip/src/lib.rs:290-340 | an address that ends in two peers' ids comes back under the first |
| `Carriers.DialableNamesItsPeer` | crates/finality-op-gossip/src/lib.rs:328-340 | what is recorded is the first public TCP address and the peer's id, and names its own peer first exactly when the listened address names no other |
| `Carriers.CanDialExactly` | crates/finality-op-gossip/src/lib.rs:330-338 | what can be dialed: TCP over IPv4 outside the private, loopback, link-local and unspecified blocks, by their numbers |

## Left out

- Light-client verification by Helios, BLS, hashes and signature recovery: parameters or the relation "descends from".
- HTTP, libp2p, discv5, Snappy, SSZ, TLS, SSE, timers and grace periods: only the order of events and arbitrary choices.
- A poll's grace period (`crates/finality-beacon-api/src/lib.rs:895-926`) as time: an endpoint that misses the cutoff is one that did not complete.
- How the consensus-network client chooses its start root (`crates/finality-consensus-p2p/src/lib.rs:518-524`): by the same start rule; `PeerClient` is given the start and the checkpoint.
- The main-lane path of Wasm runs: it skips parts of its window on purpose when the node has dropped blocks.
- The store's behaviour when a feed undoes a block that is applied but not the newest: `RunModel` ends such a run as undefined and claims nothing about it.
- Two clients of one source sharing bans are modelled from one client's side, with the other's bans and lost connections arriving at any of its steps. A swarm whose set was replaced stops when it notices; here it may go on redialing.
- A peer set that discovers too few peers dials nobody and fails (`crates/finality-consensus-p2p/src/lib.rs:1032-1044`): here it is a set that dials none.
- RunTheorems.RunReplaysItsChain: is about feeds whose blocks are what their hashes commit to, with block 0 alone naming no block as its parent, because a reorg's undone blocks are named by number and hash only.
- CoverageHoles.HolesOf: requires the available ranges in order of their starts and non-empty, as the node lists them; for others the loop can list covered blocks.
- Carriers.RoundTrip: is about at most 32 entries, which `record` and `parse` both guarantee.
- A page that mixes changes with the record that asks for a reset: the node's page holds either.
- Lease renewals and waits of the durable consumer (`examples/sdk-subscription/index.ts:76-98`): a renewal that fails ends the consumer like a crash.
- Configuration files beyond the fork sort, chain registry entries, report texts, redaction, logging and release scripts: string handling that adds only easy members.
