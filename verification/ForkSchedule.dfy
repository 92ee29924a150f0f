/** A beacon chain's schedule: which fork is active when, and the digest peers
    name it by (EIP-7892 folds the blob parameters in). SHA-256 is a parameter. */
module ForkSchedule {
  import opened MachineIntegers
  import opened Wrappers
  import opened Sorting

  const SLOTS_PER_EPOCH: nat := 32
  const FAR_FUTURE_EPOCH: nat := U64_MAX

  type Hash = s: seq<Byte> | |s| == 32 witness seq(32, _ => 0)

  type Version = s: seq<Byte> | |s| == 4 witness [0, 0, 0, 0]

  type Sha = seq<Byte> -> Hash

  datatype Fork = Fork(name: string, version: Version, epoch: U64)

  /** The part of a network its digests depend on. */
  datatype Network = Network(genesisValidatorsRoot: Hash, forks: seq<Fork>, maxBlobsElectra: U64, blobSchedule: seq<(U64, U64)>)

  type Schedule = n: Network | n.forks != [] witness Network(seq(32, _ => 0), [Fork("phase0", [0, 0, 0, 0], 0)], 0, [])

  // ------------------------------------------------- reading the configuration

  datatype ConfigError = NoEpoch(name: string) | NoGenesis

  function EpochOf(epochs: seq<(string, U64)>, name: string): Option<U64> {
    if epochs == [] then None
    else if epochs[0].0 == name then Some(epochs[0].1)
    else EpochOf(epochs[1..], name)
  }

  /** The epoch a fork version is scheduled at; the genesis version has none. */
  function ScheduledAt(epochs: seq<(string, U64)>, name: string): Option<U64> {
    if name == "genesis" then Some(0) else EpochOf(epochs, name)
  }

  /** A version is scheduled at the first epoch listed under its name; the genesis
      version at epoch 0, whatever is listed. */
  lemma {:induction false} ScheduledAtTheFirst(epochs: seq<(string, U64)>, name: string, epoch: U64)
    ensures ScheduledAt(epochs, name) == Some(epoch) <==>
            if name == "genesis" then epoch == 0
            else exists i :: 0 <= i < |epochs| && epochs[i] == (name, epoch) && forall j | 0 <= j < i :: epochs[j].0 != name
    decreases |epochs|
  {
    if name != "genesis" && epochs != [] {
      ScheduledAtTheFirst(epochs[1..], name, epoch);
      assert forall i | 0 < i < |epochs| :: epochs[i] == epochs[1..][i - 1];
      if epochs[0].0 != name && EpochOf(epochs[1..], name) == Some(epoch) {
        var i :| 0 <= i < |epochs[1..]| && epochs[1..][i] == (name, epoch) && forall j | 0 <= j < i :: epochs[1..][j].0 != name;
        assert epochs[i + 1] == (name, epoch);
      }
    }
  }

  /** The scheduled forks in the order the configuration lists them. */
  function Listed(versions: seq<(string, Version)>, epochs: seq<(string, U64)>): seq<Fork>
    requires forall v | v in versions :: ScheduledAt(epochs, v.0).Some?
  {
    if versions == [] then []
    else
      var (name, version) := versions[|versions| - 1];
      var epoch := ScheduledAt(epochs, name).value;
      Listed(versions[..|versions| - 1], epochs)
      + (if epoch == FAR_FUTURE_EPOCH then [] else [Fork(if name == "genesis" then "phase0" else name, version, epoch)])
  }

  function ForkEpoch(fork: Fork): int {
    fork.epoch
  }

  /** The forks of a configuration, in activation order. */
  method ForksFromConfig(versions: seq<(string, Version)>, epochs: seq<(string, U64)>) returns (r: Result<seq<Fork>, ConfigError>)
    ensures r.Err? && r.error.NoEpoch? ==> EpochOf(epochs, r.error.name).None? && exists v :: v in versions && v.0 == r.error.name
    ensures (exists v :: v in versions && ScheduledAt(epochs, v.0).None?) <==> r.Err? && r.error.NoEpoch?
    ensures (forall v | v in versions :: ScheduledAt(epochs, v.0).Some?) ==>
              var forks := SortBy(Listed(versions, epochs), ForkEpoch);
              r == if forks != [] && forks[0].name == "phase0" then Ok(forks) else Err(NoGenesis)
  {
    var forks: seq<Fork> := [];
    for i := 0 to |versions|
      invariant forall v | v in versions[..i] :: ScheduledAt(epochs, v.0).Some?
      invariant forks == Listed(versions[..i], epochs)
    {
      var (name, version) := versions[i];
      assert versions[i] in versions;
      assert versions[..i + 1][..i] == versions[..i];
      var epoch := 0;
      if name != "genesis" {
        var found := EpochOf(epochs, name);
        if found.None? {
          return Err(NoEpoch(name));
        }
        epoch := found.value;
      }
      if epoch != FAR_FUTURE_EPOCH {
        forks := forks + [Fork(if name == "genesis" then "phase0" else name, version, epoch)];
      }
    }
    assert versions[..|versions|] == versions;
    forks := SortBy(forks, ForkEpoch);
    if forks == [] || forks[0].name != "phase0" {
      return Err(NoGenesis);
    }
    return Ok(forks);
  }

  lemma {:induction false} ListedGenesis(versions: seq<(string, Version)>, epochs: seq<(string, U64)>, version: Version)
    requires forall v | v in versions :: ScheduledAt(epochs, v.0).Some?
    requires ("genesis", version) in versions
    ensures Fork("phase0", version, 0) in Listed(versions, epochs)
  {
    var n := |versions| - 1;
    assert versions == versions[..n] + [versions[n]];
    if versions[n] != ("genesis", version) {
      ListedGenesis(versions[..n], epochs, version);
    }
  }

  /** A configuration with a genesis version gives a schedule that starts at
      epoch 0, with the first fork listed for epoch 0, and is in activation order,
      ties in the order listed. It is therefore accepted exactly when the first
      fork listed for epoch 0 is the genesis one. */
  lemma GenesisRule(versions: seq<(string, Version)>, epochs: seq<(string, U64)>, version: Version)
    requires forall v | v in versions :: ScheduledAt(epochs, v.0).Some?
    requires ("genesis", version) in versions
    ensures var listed := Listed(versions, epochs);
            var forks := SortBy(listed, ForkEpoch);
            && forks != [] && forks[0].epoch == 0 && Ascending(forks, ForkEpoch)
            && [forks[0]] <= WithKey(listed, ForkEpoch, 0)
            && (forks[0].name == "phase0" <==> WithKey(listed, ForkEpoch, 0)[0].name == "phase0")
            && forall k :: WithKey(forks, ForkEpoch, k) == WithKey(listed, ForkEpoch, k)
  {
    var listed := Listed(versions, epochs);
    ListedGenesis(versions, epochs, version);
    SortBySorts(listed, ForkEpoch);
    SortedFirst(listed, ForkEpoch);
  }

  // ------------------------------------------------------------ active forks

  function FindFork(forks: seq<Fork>, name: string): Option<Fork> {
    if forks == [] then None else if forks[0].name == name then Some(forks[0]) else FindFork(forks[1..], name)
  }

  /** The first fork of a name. */
  lemma {:induction false} FindsTheFirst(forks: seq<Fork>, name: string, fork: Fork)
    ensures FindFork(forks, name) == Some(fork) <==>
            exists i :: 0 <= i < |forks| && forks[i] == fork && fork.name == name && forall j | 0 <= j < i :: forks[j].name != name
    decreases |forks|
  {
    if forks != [] {
      FindsTheFirst(forks[1..], name, fork);
      assert forall i | 0 < i < |forks| :: forks[i] == forks[1..][i - 1];
      if forks[0].name != name && FindFork(forks[1..], name) == Some(fork) {
        var i :| 0 <= i < |forks[1..]| && forks[1..][i] == fork && forall j | 0 <= j < i :: forks[1..][j].name != name;
        assert forks[i + 1] == fork;
      }
    }
  }

  /** The last of `forks` at or before `epoch`. */
  function LastAt(forks: seq<Fork>, epoch: nat): Option<Fork> {
    if forks == [] then None
    else if forks[|forks| - 1].epoch <= epoch then Some(forks[|forks| - 1])
    else LastAt(forks[..|forks| - 1], epoch)
  }

  function ForkAtEpoch(network: Schedule, epoch: nat): Fork {
    match LastAt(network.forks, epoch) case Some(fork) => fork case None => network.forks[0]
  }

  /** The last entry of the blob schedule at or before `epoch`. */
  function LastBlobAt(schedule: seq<(U64, U64)>, epoch: nat): Option<(U64, U64)> {
    if schedule == [] then None
    else if schedule[|schedule| - 1].0 <= epoch then Some(schedule[|schedule| - 1])
    else LastBlobAt(schedule[..|schedule| - 1], epoch)
  }

  /** In activation order the active fork is the latest one that activated. */
  lemma {:induction false} ActiveForkIsLatest(forks: seq<Fork>, epoch: nat)
    requires Ascending(forks, ForkEpoch)
    ensures match LastAt(forks, epoch)
            case None => forall f | f in forks :: f.epoch > epoch
            case Some(active) =>
              active in forks && active.epoch <= epoch && forall f | f in forks && f.epoch <= epoch :: f.epoch <= active.epoch
  {
    if forks != [] {
      var n := |forks| - 1;
      assert forks == forks[..n] + [forks[n]];
      if forks[n].epoch > epoch {
        ActiveForkIsLatest(forks[..n], epoch);
      } else {
        forall f | f in forks ensures f.epoch <= forks[n].epoch {
          var i :| 0 <= i < |forks| && forks[i] == f;
          assert i < n ==> ForkEpoch(forks[i]) <= ForkEpoch(forks[n]);
        }
      }
    }
  }

  // ----------------------------------------------------------------- digests

  function Xor(a: Byte, b: Byte): Byte {
    ((a as bv8) ^ (b as bv8)) as int
  }

  function XorAll(a: Hash, b: Hash): Hash {
    seq(32, i requires 0 <= i < 32 => Xor(a[i], b[i]))
  }

  function LittleEndian(n: nat, width: nat): (s: seq<Byte>)
    ensures |s| == width
  {
    if width == 0 then [] else [n % 256] + LittleEndian(n / 256, width - 1)
  }

  function Zeros(n: nat): (s: seq<Byte>)
    ensures |s| == n
  {
    seq(n, _ => 0)
  }

  /** The blob parameters in force at `epoch`, once Fulu is active. */
  function BlobParameters(network: Schedule, epoch: nat): Option<(U64, U64)> {
    match FindFork(network.forks, "fulu")
    case None => None
    case Some(fulu) =>
      if epoch < fulu.epoch then None
      else
        match LastBlobAt(network.blobSchedule, epoch)
        case Some(parameters) => Some(parameters)
        case None =>
          var electra := match FindFork(network.forks, "electra") case None => 0 case Some(fork) => fork.epoch;
          Some((electra, network.maxBlobsElectra))
  }

  lemma {:induction false} LastBlobIs(schedule: seq<(U64, U64)>, epoch: nat)
    ensures match LastBlobAt(schedule, epoch)
            case None => forall i | 0 <= i < |schedule| :: schedule[i].0 > epoch
            case Some(p) => exists i :: 0 <= i < |schedule| && schedule[i] == p && p.0 <= epoch
                                        && forall j | i < j < |schedule| :: schedule[j].0 > epoch
  {
    if schedule != [] {
      var n := |schedule| - 1;
      if schedule[n].0 > epoch {
        LastBlobIs(schedule[..n], epoch);
      } else {
        assert schedule[n].0 <= epoch;
      }
    }
  }

  /** Before Fulu no blob parameters are folded in. From Fulu on it is the last
      listed entry that has activated; in an ordered schedule none has activated
      later. Without one it is Electra's epoch and limit. */
  lemma ParametersInForce(network: Schedule, epoch: nat)
    ensures BlobParameters(network, epoch).Some? <==>
            FindFork(network.forks, "fulu").Some? && FindFork(network.forks, "fulu").value.epoch <= epoch
    ensures BlobParameters(network, epoch).Some? ==>
              var p, schedule := BlobParameters(network, epoch).value, network.blobSchedule;
              if exists e :: e in schedule && e.0 <= epoch then
                p in schedule && p.0 <= epoch
                && ((forall i, j | 0 <= i < j < |schedule| :: schedule[i].0 <= schedule[j].0) ==>
                      forall e | e in schedule && e.0 <= epoch :: e.0 <= p.0)
              else
                p.1 == network.maxBlobsElectra
                && p.0 == match FindFork(network.forks, "electra") case None => 0 case Some(fork) => fork.epoch
  {
    LastBlobIs(network.blobSchedule, epoch);
  }

  function DigestOf(sha: Sha, network: Schedule, fork: Fork, parameters: Option<(U64, U64)>): Version {
    var base := sha(fork.version + Zeros(28) + network.genesisValidatorsRoot);
    match parameters
    case None => base[..4]
    case Some((epoch, blobs)) => XorAll(base, sha(LittleEndian(epoch, 8) + LittleEndian(blobs, 8)))[..4]
  }

  /** The four-byte digest at an epoch, hence at every slot of it. */
  function EpochDigest(sha: Sha, network: Schedule, epoch: nat): Version {
    DigestOf(sha, network, ForkAtEpoch(network, epoch), BlobParameters(network, epoch))
  }

  method ForkDigest(sha: Sha, network: Schedule, slot: U64) returns (digest: Version)
    ensures digest == EpochDigest(sha, network, slot / SLOTS_PER_EPOCH)
  {
    var epoch := slot / SLOTS_PER_EPOCH;
    var forkData := ForkAtEpoch(network, epoch).version + Zeros(28) + network.genesisValidatorsRoot;
    var base: seq<Byte> := sha(forkData);
    var bytes := new Byte[32](i requires 0 <= i < 32 => base[i]);
    assert bytes[..] == base;
    var parameters := BlobParameters(network, epoch);
    if parameters.Some? {
      var mask: seq<Byte> := sha(LittleEndian(parameters.value.0, 8) + LittleEndian(parameters.value.1, 8));
      for i := 0 to 32
        invariant forall j | 0 <= j < i :: bytes[j] == Xor(base[j], mask[j])
        invariant forall j | i <= j < 32 :: bytes[j] == base[j]
      {
        bytes[i] := Xor(bytes[i], mask[i]);
      }
      assert bytes[..] == XorAll(base, mask);
    }
    digest := bytes[..4];
    assert bytes[..4] == bytes[..][..4];
  }

  /** The epochs a schedule names: its forks' and its blob parameters'. */
  function NamedEpochs(network: Network): seq<U64> {
    seq(|network.forks|, i requires 0 <= i < |network.forks| => network.forks[i].epoch)
    + seq(|network.blobSchedule|, i requires 0 <= i < |network.blobSchedule| => network.blobSchedule[i].0)
  }

  const DECODED_FORKS: seq<string> := ["phase0", "altair", "bellatrix", "capella", "deneb", "electra", "fulu", "gloas"]

  predicate Decoded(network: Schedule, epoch: nat) {
    ForkAtEpoch(network, epoch).name in DECODED_FORKS
  }

  function DigestsAt(sha: Sha, network: Schedule, epochs: seq<U64>): seq<Version> {
    if epochs == [] then []
    else
      (if Decoded(network, epochs[0]) then [EpochDigest(sha, network, SatMul(epochs[0], SLOTS_PER_EPOCH) / SLOTS_PER_EPOCH)]
       else [])
      + DigestsAt(sha, network, epochs[1..])
  }

  /** Every digest of the schedule through the last fork this release decodes. */
  function KnownForkDigests(sha: Sha, network: Schedule): seq<Version> {
    DigestsAt(sha, network, NamedEpochs(network))
  }

  // ---------------------------------------------------------------- coverage

  lemma {:induction false} SameLastAt(forks: seq<Fork>, a: nat, b: nat)
    requires forall f | f in forks :: f.epoch <= a <==> f.epoch <= b
    ensures LastAt(forks, a) == LastAt(forks, b)
  {
    if forks != [] {
      assert forks[|forks| - 1] in forks;
      SameLastAt(forks[..|forks| - 1], a, b);
    }
  }

  lemma {:induction false} SameLastBlobAt(schedule: seq<(U64, U64)>, a: nat, b: nat)
    requires forall p | p in schedule :: p.0 <= a <==> p.0 <= b
    ensures LastBlobAt(schedule, a) == LastBlobAt(schedule, b)
  {
    if schedule != [] {
      assert schedule[|schedule| - 1] in schedule;
      SameLastBlobAt(schedule[..|schedule| - 1], a, b);
    }
  }

  lemma {:induction false} FoundFork(forks: seq<Fork>, name: string)
    ensures FindFork(forks, name).Some? ==> FindFork(forks, name).value in forks
  {
    if forks != [] {
      FoundFork(forks[1..], name);
      assert forks == [forks[0]] + forks[1..];
    }
  }

  /** The digest only changes where the schedule names an epoch, even when the
      blob schedule is unsorted. */
  lemma DigestConstantBetweenNamedEpochs(sha: Sha, network: Schedule, a: nat, b: nat)
    requires a <= b && forall e | e in NamedEpochs(network) :: !(a < e <= b)
    ensures EpochDigest(sha, network, a) == EpochDigest(sha, network, b)
    ensures ForkAtEpoch(network, a) == ForkAtEpoch(network, b)
  {
    var named := NamedEpochs(network);
    forall f | f in network.forks ensures f.epoch <= a <==> f.epoch <= b {
      var i :| 0 <= i < |network.forks| && network.forks[i] == f;
      assert named[i] == f.epoch && named[i] in named;
    }
    forall p | p in network.blobSchedule ensures p.0 <= a <==> p.0 <= b {
      var i :| 0 <= i < |network.blobSchedule| && network.blobSchedule[i] == p;
      assert named[|network.forks| + i] == p.0 && named[|network.forks| + i] in named;
    }
    SameLastAt(network.forks, a, b);
    SameLastBlobAt(network.blobSchedule, a, b);
    FoundFork(network.forks, "fulu");
  }

  lemma {:induction false} LatestNamed(epochs: seq<U64>, epoch: nat) returns (latest: U64)
    requires exists e :: e in epochs && e <= epoch
    ensures latest in epochs && latest <= epoch
    ensures forall e | e in epochs :: !(latest < e <= epoch)
    decreases |epochs|
  {
    assert epochs == [epochs[0]] + epochs[1..];
    if exists e :: e in epochs[1..] && e <= epoch {
      latest := LatestNamed(epochs[1..], epoch);
      if latest < epochs[0] <= epoch {
        latest := epochs[0];
      }
    } else {
      latest := epochs[0];
    }
  }

  lemma {:induction false} DigestOfNamed(sha: Sha, network: Schedule, epochs: seq<U64>, epoch: U64)
    requires epoch in epochs && Decoded(network, epoch)
    ensures EpochDigest(sha, network, SatMul(epoch, SLOTS_PER_EPOCH) / SLOTS_PER_EPOCH) in DigestsAt(sha, network, epochs)
  {
    assert epochs == [epochs[0]] + epochs[1..];
    if epoch != epochs[0] {
      DigestOfNamed(sha, network, epochs[1..], epoch);
    }
  }

  /** Every slot from the first named epoch on whose active fork this release
      decodes has its digest among the known ones, and none of the slots that
      make them up overflows. */
  lemma EveryDecodedSlotIsKnown(sha: Sha, network: Schedule, slot: U64)
    requires Decoded(network, slot / SLOTS_PER_EPOCH)
    requires exists e :: e in NamedEpochs(network) && e <= slot / SLOTS_PER_EPOCH
    ensures EpochDigest(sha, network, slot / SLOTS_PER_EPOCH) in KnownForkDigests(sha, network)
  {
    var epoch := slot / SLOTS_PER_EPOCH;
    var latest := LatestNamed(NamedEpochs(network), epoch);
    DigestConstantBetweenNamedEpochs(sha, network, latest, epoch);
    assert SatMul(latest, SLOTS_PER_EPOCH) == latest * SLOTS_PER_EPOCH;
    DigestOfNamed(sha, network, NamedEpochs(network), latest);
  }

  /** A schedule whose first fork is at epoch 0, as every configuration with a
      genesis version gives, leaves no slot out. */
  lemma FromGenesisEverySlotIsKnown(sha: Sha, network: Schedule, slot: U64)
    requires network.forks[0].epoch == 0
    requires Decoded(network, slot / SLOTS_PER_EPOCH)
    ensures EpochDigest(sha, network, slot / SLOTS_PER_EPOCH) in KnownForkDigests(sha, network)
  {
    assert NamedEpochs(network)[0] == 0 && NamedEpochs(network)[0] in NamedEpochs(network);
    EveryDecodedSlotIsKnown(sha, network, slot);
  }

  /** So a configuration with a genesis version leaves no slot out: the digest of
      every decoded slot is known. */
  lemma ConfiguredSlotIsKnown(sha: Sha, versions: seq<(string, Version)>, epochs: seq<(string, U64)>, version: Version,
                              network: Schedule, slot: U64)
    requires forall v | v in versions :: ScheduledAt(epochs, v.0).Some?
    requires ("genesis", version) in versions && network.forks == SortBy(Listed(versions, epochs), ForkEpoch)
    requires Decoded(network, slot / SLOTS_PER_EPOCH)
    ensures EpochDigest(sha, network, slot / SLOTS_PER_EPOCH) in KnownForkDigests(sha, network)
  {
    GenesisRule(versions, epochs, version);
    FromGenesisEverySlotIsKnown(sha, network, slot);
  }

  lemma {:induction false} KnownDigestFromNamed(sha: Sha, network: Schedule, epochs: seq<U64>, digest: Version)
    returns (epoch: U64)
    requires digest in DigestsAt(sha, network, epochs)
    ensures epoch in epochs && Decoded(network, epoch)
    ensures digest == EpochDigest(sha, network, SatMul(epoch, SLOTS_PER_EPOCH) / SLOTS_PER_EPOCH)
  {
    assert epochs == [epochs[0]] + epochs[1..];
    if digest in DigestsAt(sha, network, epochs[1..]) {
      epoch := KnownDigestFromNamed(sha, network, epochs[1..], digest);
    } else {
      epoch := epochs[0];
    }
  }

  /** Nothing else is known: while no named epoch lies past the last slot, the
      known digests are exactly those of the decoded slots. */
  lemma KnownDigestsAreExact(sha: Sha, network: Schedule, digest: Version)
    requires network.forks[0].epoch == 0
    requires forall e | e in NamedEpochs(network) :: e * SLOTS_PER_EPOCH <= U64_MAX
    ensures digest in KnownForkDigests(sha, network) <==>
            exists slot: U64 ::
              Decoded(network, slot / SLOTS_PER_EPOCH) && EpochDigest(sha, network, slot / SLOTS_PER_EPOCH) == digest
  {
    if digest in KnownForkDigests(sha, network) {
      var epoch := KnownDigestFromNamed(sha, network, NamedEpochs(network), digest);
      var slot: U64 := epoch * SLOTS_PER_EPOCH;
      assert slot / SLOTS_PER_EPOCH == epoch;
    }
    forall slot: U64 | Decoded(network, slot / SLOTS_PER_EPOCH) && EpochDigest(sha, network, slot / SLOTS_PER_EPOCH) == digest
      ensures digest in KnownForkDigests(sha, network)
    {
      FromGenesisEverySlotIsKnown(sha, network, slot);
    }
  }
}
