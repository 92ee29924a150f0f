/** Games whose claim matched a block the sequencer signed, until the registry
    names one: that block is then final. Signed blocks are kept in memory, in a
    bounded window; matched games also in a file. */
module GameLedger {
  import opened MachineIntegers
  import opened Wrappers
  import opened L1Claims
  import opened Observations
  import opened SignedWindow

  /** A signed block's hash, output root, and time. */
  datatype Signed = Signed(hash: Word, root: nat, time: U64)

  type Window = map<U64, Signed>

  type Games = map<Address, (U64, Word)>

  /** A block an anchor update finalized, and the game it names. */
  datatype Final = Final(game: Address, number: U64, hash: Word)

  /** The ledger with its durable file; a ledger without a path saves nothing. */
  datatype State = State(signed: Window, games: Games, file: Games)

  datatype Config = Config(capacity: nat, hasPath: bool)

  function MadeAt(signed: Window, time: U64): set<U64> {
    set n | n in signed && signed[n].time == time
  }

  /** The signed block a game claims: the one of its number, or the first one
      made at its time. */
  function Lookup(signed: Window, block: ClaimedBlock): Option<U64> {
    match block
    case Number(number) => if number in signed then Some(number) else None
    case Time(time) =>
      if MadeAt(signed, time) == {} then None else Some(Least(MadeAt(signed, time)))
  }

  /** `games` once the anchor moved past `number`. */
  function Beyond(games: Games, game: Address, number: U64): Games {
    map g | g in games && g != game && games[g].0 > number :: games[g]
  }

  /** Something that happens to a ledger. `saved` tells whether a file write
      succeeds if one is made; a process that dies before its write completes
      is a failed write followed by a restart. */
  datatype Event =
    | Record(number: U64, block: Signed)
    | Observed(observation: Observation, saved: bool)
    | Restart

  function Matches(signed: Window, o: Observation): Option<(U64, Word)>
    requires o.GameCreated?
  {
    match Lookup(signed, o.l2Block)
    case None => None
    case Some(n) => if signed[n].root == o.root then Some((n, signed[n].hash)) else None
  }

  /** What an event does, and the block it finalizes. */
  function Step(config: Config, s: State, e: Event): (State, Option<Final>) {
    match e
    case Record(number, block) => (s.(signed := Newest(s.signed[number := block], config.capacity)), None)
    case Restart => (State(map[], s.file, s.file), None)
    case Observed(o, saved) =>
      if o.GameCreated? then
        match Matches(s.signed, o)
        case None => (s, None)
        case Some(block) =>
          var games := s.games[o.game := block];
          (State(s.signed, games, if config.hasPath && saved then games else s.file), None)
      else if o.AnchorUpdated? && o.game in s.games then
        var (number, hash) := s.games[o.game];
        var games := Beyond(s.games, o.game, number);
        (State(s.signed, games, if config.hasPath && saved then games else s.file),
         if config.hasPath && !saved then None else Some(Final(o.game, number, hash)))
      else (s, None)
  }

  class Ledger {
    const config: Config
    var signed: Window
    var games: Games
    var file: Games

    ghost function Value(): State
      reads this
    {
      State(signed, games, file)
    }

    constructor Load(config: Config, file: Games)
      ensures this.config == config && Value() == State(map[], file, file)
    {
      this.config := config;
      this.file := file;
      signed := map[];
      games := file;
    }

    /** Remember a signed block, dropping the lowest numbers that do not fit. */
    method RecordBlock(number: U64, block: Signed)
      modifies this`signed
      ensures Value() == Step(config, old(Value()), Record(number, block)).0
    {
      signed := signed[number := block];
      ghost var all := signed;
      while |signed.Keys| > config.capacity
        invariant Newest(signed, config.capacity) == Newest(all, config.capacity)
        decreases |signed.Keys|
      {
        var lowest := Least(signed.Keys);
        HighestWithoutLeast(signed.Keys, config.capacity);
        assert (signed - {lowest}).Keys == signed.Keys - {lowest};
        signed := signed - {lowest};
      }
      HighestOfFew(signed.Keys, config.capacity);
    }

    method Save(saved: bool) returns (ok: bool)
      modifies this`file
      ensures ok == (!config.hasPath || saved)
      ensures file == if config.hasPath && saved then games else old(file)
    {
      if config.hasPath && saved {
        file := games;
      }
      ok := !config.hasPath || saved;
    }

    /** Apply one observation; the block it finalizes, or an error when the file
        could not be written. */
    method Observe(o: Observation, saved: bool) returns (r: Result<Option<Final>, ()>)
      modifies this`games, this`file
      ensures (Value(), match r case Ok(final) => final case Err(_) => None)
           == Step(config, old(Value()), Observed(o, saved))
      ensures r.Err? ==> config.hasPath && !saved
    {
      match o {
        case GameCreated(game, l2Block, root) =>
          var found := Lookup(signed, l2Block);
          if found.Some? && signed[found.value].root == root {
            games := games[game := (found.value, signed[found.value].hash)];
            var ok := Save(saved);
            if !ok {
              return Err(());
            }
          }
          return Ok(None);
        case AnchorUpdated(game) =>
          if game !in games {
            return Ok(None);
          }
          var (number, hash) := games[game];
          games := games - {game};
          games := map g | g in games && games[g].0 > number :: games[g];
          assert games == Beyond(old(games), game, number);
          var ok := Save(saved);
          if !ok {
            return Err(());
          }
          return Ok(Some(Final(game, number, hash)));
        case _ =>
          return Ok(None);
      }
    }
  }

  // ----------------------------------------------------- the window is the log

  /** Every record of `events` since the last restart, each number with its
      latest block. */
  function LogOf(events: seq<Event>): Window {
    if events == [] then map[]
    else
      var before := LogOf(events[..|events| - 1]);
      match events[|events| - 1]
      case Record(number, block) => before[number := block]
      case Restart => map[]
      case Observed(_, _) => before
  }

  /** The ledger after `events`, from a file holding `file`. */
  function After(config: Config, file: Games, events: seq<Event>): State {
    if events == [] then State(map[], file, file)
    else Step(config, After(config, file, events[..|events| - 1]), events[|events| - 1]).0
  }

  /** The bounded window always equals the unbounded log restricted to its
      `capacity` highest numbers. */
  lemma {:induction false} WindowIsNewestOfLog(config: Config, file: Games, events: seq<Event>)
    ensures After(config, file, events).signed == Newest(LogOf(events), config.capacity)
  {
    if events != [] {
      var before := events[..|events| - 1];
      WindowIsNewestOfLog(config, file, before);
      match events[|events| - 1]
      case Record(number, block) => NewestAbsorbs(LogOf(before), number, block, config.capacity);
      case _ =>
    }
  }

  /** A lookup by number agrees with the full log exactly on the numbers of the
      window; one by time finds the first block made then that the window holds. */
  lemma LookupAgreesWithLog(config: Config, file: Games, events: seq<Event>, block: ClaimedBlock, n: U64)
    ensures var signed := After(config, file, events).signed;
            var log := LogOf(events);
            Lookup(signed, block) == Some(n) <==>
            && n in Highest(log.Keys, config.capacity)
            && match block
               case Number(number) => n == number
               case Time(time) =>
                 log[n].time == time
                 && forall m | m in Highest(log.Keys, config.capacity) && log[m].time == time :: n <= m
  {
    WindowIsNewestOfLog(config, file, events);
    var signed := After(config, file, events).signed;
    var log := LogOf(events);
    assert forall m :: m in signed <==> m in Highest(log.Keys, config.capacity);
    assert forall m | m in signed :: signed[m] == log[m];
    if block.Time? {
      LookupByTime(signed, block.time, n);
    }
  }

  /** A lookup by number in the window gives what the full log would exactly when
      the log lacks that number or the window still has it. */
  lemma NumberLookupAgreesWithLog(config: Config, file: Games, events: seq<Event>, number: U64)
    ensures var signed, log := After(config, file, events).signed, LogOf(events);
            Lookup(signed, Number(number)) == Lookup(log, Number(number)) <==>
            number !in log || number in Highest(log.Keys, config.capacity)
  {
    WindowIsNewestOfLog(config, file, events);
  }

  /** A lookup by time gives what the full log would exactly when no block was made
      then, or the window still has the first one that was. */
  lemma TimeLookupAgreesWithLog(config: Config, file: Games, events: seq<Event>, time: U64)
    ensures var signed, log := After(config, file, events).signed, LogOf(events);
            Lookup(signed, Time(time)) == Lookup(log, Time(time)) <==>
            MadeAt(log, time) == {} || Least(MadeAt(log, time)) in Highest(log.Keys, config.capacity)
  {
    WindowIsNewestOfLog(config, file, events);
    var signed, log := After(config, file, events).signed, LogOf(events);
    var kept, made := MadeAt(signed, time), MadeAt(log, time);
    assert forall n: U64 :: n in kept <==> n in made && n in Highest(log.Keys, config.capacity);
    if made != {} && Least(made) in Highest(log.Keys, config.capacity) {
      assert Least(made) in kept;
      assert Least(kept) in made;
    }
  }

  /** With five blocks to a second the window's edge can fall inside one: then the
      first block of that second is gone, and a game that claims it is compared
      with a later one. */
  lemma FirstOfSecondIsEvicted(file: Games, first: Signed, second: Signed)
    requires first.time == second.time
    ensures var events := [Record(1, first), Record(2, second)];
            && Lookup(LogOf(events), Time(first.time)) == Some(1)
            && Lookup(After(Config(1, false), file, events).signed, Time(first.time)) == Some(2)
  {
    var events := [Record(1, first), Record(2, second)];
    WindowIsNewestOfLog(Config(1, false), file, events);
    assert events[..1] == [Record(1, first)] && events[..1][..0] == [];
    var log := LogOf(events);
    assert LogOf(events[..1]) == map[1 := first];
    assert log == LogOf(events[..1])[2 := second];
    LookupByTime(log, first.time, 1);
    assert Above(log.Keys, 1) == {2} && Above(log.Keys, 2) == {};
    LookupByTime(Newest(log, 1), first.time, 2);
  }

  lemma LookupByTime(signed: Window, time: U64, n: U64)
    ensures Lookup(signed, Time(time)) == Some(n) <==>
            n in signed && signed[n].time == time && forall m | m in signed && signed[m].time == time :: n <= m
  {
    var made := MadeAt(signed, time);
    assert forall m: U64 :: m in made <==> m in signed && signed[m].time == time;
    if made != {} {
      assert forall m: U64 | m in made :: Least(made) <= m;
    }
  }

  // ------------------------------------------------------------- what is final

  function Finalizes(config: Config, file: Games, events: seq<Event>, j: nat): Option<Final>
    requires j < |events|
  {
    Step(config, After(config, file, events[..j]), events[j]).1
  }

  /** At event `i` a creation of `game` claimed, for the signed block `number`,
      the output root that block has in the window at that moment. */
  ghost predicate CreatedAt(config: Config, file: Games, events: seq<Event>, i: nat, game: Address, number: U64, hash: Word) {
    && i < |events| && events[i].Observed?
    && var o := events[i].observation;
    && var signed := After(config, file, events[..i]).signed;
    && o.GameCreated? && o.game == game
    && Lookup(signed, o.l2Block) == Some(number)
    && signed[number].root == o.root && signed[number].hash == hash
  }

  /** An anchor update that ends every creation of `game` and every creation at
      or below `number`. */
  predicate Ends(final: Option<Final>, game: Address, number: U64) {
    final.Some? && (final.value.game == game || number <= final.value.number)
  }

  /** A creation of (`game`, `number`, `hash`) that no later update ended. */
  ghost predicate Backed(config: Config, file: Games, events: seq<Event>, game: Address, number: U64, hash: Word) {
    exists i: nat ::
      CreatedAt(config, file, events, i, game, number, hash)
      && forall k | i < k < |events| :: !Ends(Finalizes(config, file, events, k), game, number)
  }

  ghost predicate AllBacked(config: Config, file: Games, events: seq<Event>, games: Games) {
    forall g | g in games :: Backed(config, file, events, g, games[g].0, games[g].1)
  }

  lemma BackedExtends(config: Config, file: Games, events: seq<Event>, e: Event, game: Address, number: U64, hash: Word)
    requires Backed(config, file, events, game, number, hash)
    requires !Ends(Step(config, After(config, file, events), e).1, game, number)
    ensures Backed(config, file, events + [e], game, number, hash)
  {
    var all := events + [e];
    var i: nat :| CreatedAt(config, file, events, i, game, number, hash)
      && forall k | i < k < |events| :: !Ends(Finalizes(config, file, events, k), game, number);
    assert all[..i] == events[..i];
    forall k | i < k < |all| ensures !Ends(Finalizes(config, file, all, k), game, number) {
      assert all[..k] == events[..k];
      if k == |events| {
        assert events[..k] == events;
      } else {
        assert Finalizes(config, file, all, k) == Finalizes(config, file, events, k);
      }
    }
    assert CreatedAt(config, file, all, i, game, number, hash);
  }

  /** Every game in memory and in the file is backed, over every run with failed
      writes and restarts. */
  lemma {:induction false} GamesAreBacked(config: Config, events: seq<Event>)
    ensures var s := After(config, map[], events);
            AllBacked(config, map[], events, s.games) && AllBacked(config, map[], events, s.file)
            && (!config.hasPath ==> s.file == map[])
  {
    if events != [] {
      var before, e := events[..|events| - 1], events[|events| - 1];
      assert events == before + [e];
      GamesAreBacked(config, before);
      var s := After(config, map[], before);
      var (s', final) := Step(config, s, e);
      forall g | g in s'.games ensures Backed(config, map[], events, g, s'.games[g].0, s'.games[g].1) {
        if e.Observed? && e.observation.GameCreated? && e.observation.game == g && Matches(s.signed, e.observation).Some? {
          assert events[..|before|] == before;
          assert CreatedAt(config, map[], events, |before|, g, s'.games[g].0, s'.games[g].1);
        } else {
          BackedExtends(config, map[], before, e, g, s'.games[g].0, s'.games[g].1);
        }
      }
      forall g | g in s'.file ensures Backed(config, map[], events, g, s'.file[g].0, s'.file[g].1) {
        if s'.file != s'.games {
          BackedExtends(config, map[], before, e, g, s'.file[g].0, s'.file[g].1);
        }
      }
    }
  }

  /** Every block an anchor update finalizes, across restarts and failed writes,
      had a creation of that game whose root equalled the output root of that
      block in the signed window at that moment, and between the two no update
      finalized that game or any block at or above it. */
  lemma FinalBlocksWereClaimed(config: Config, events: seq<Event>, j: nat)
    requires j < |events| && Finalizes(config, map[], events, j).Some?
    ensures var final := Finalizes(config, map[], events, j).value;
            exists i: nat ::
              && i < j && CreatedAt(config, map[], events, i, final.game, final.number, final.hash)
              && forall k | i < k < j :: !Ends(Finalizes(config, map[], events, k), final.game, final.number)
  {
    var final := Finalizes(config, map[], events, j).value;
    var before := events[..j];
    GamesAreBacked(config, before);
    assert Backed(config, map[], before, final.game, final.number, final.hash);
    var i: nat :| CreatedAt(config, map[], before, i, final.game, final.number, final.hash)
      && forall k | i < k < |before| :: !Ends(Finalizes(config, map[], before, k), final.game, final.number);
    assert before[..i] == events[..i];
    forall k | i < k < j ensures !Ends(Finalizes(config, map[], events, k), final.game, final.number) {
      assert before[..k] == events[..k];
      assert Finalizes(config, map[], before, k) == Finalizes(config, map[], events, k);
    }
    assert CreatedAt(config, map[], events, i, final.game, final.number, final.hash);
  }

  /** Each creation finalizes at most once, and a finalization at or below an
      earlier one's number comes from a game created after that anchor update. */
  lemma LaterFinalNeedsLaterCreation(config: Config, events: seq<Event>, j: nat, j': nat)
    requires j < j' < |events|
    requires Finalizes(config, map[], events, j).Some? && Finalizes(config, map[], events, j').Some?
    requires Ends(Finalizes(config, map[], events, j), Finalizes(config, map[], events, j').value.game,
                  Finalizes(config, map[], events, j').value.number)
    ensures var final := Finalizes(config, map[], events, j').value;
            exists i: nat :: j < i < j' && CreatedAt(config, map[], events, i, final.game, final.number, final.hash)
  {
    var final := Finalizes(config, map[], events, j').value;
    FinalBlocksWereClaimed(config, events, j');
    var i: nat :| i < j' && CreatedAt(config, map[], events, i, final.game, final.number, final.hash)
      && forall k | i < k < j' :: !Ends(Finalizes(config, map[], events, k), final.game, final.number);
    assert i != j;
  }

  // ------------------------------------------------- what stays, and for how long

  /** At event `k` the anchor moved to a game in memory, at `number`. */
  ghost predicate MovedTo(config: Config, events: seq<Event>, k: nat, game: Address, number: U64) {
    && k < |events| && events[k].Observed? && events[k].observation == AnchorUpdated(game)
    && var games := After(config, map[], events[..k]).games;
    && game in games && games[game].0 == number
  }

  /** Event `k` replaces or ends an earlier creation of `game` for `number`: it is
      another creation of the game, or moves the anchor to it or to at least that
      number. */
  ghost predicate Displaces(config: Config, events: seq<Event>, k: nat, game: Address, number: U64) {
    || (exists n, hash :: CreatedAt(config, map[], events, k, game, n, hash))
    || exists other, n :: MovedTo(config, events, k, other, n) && (other == game || number <= n)
  }

  /** Event `k` writes the games to the file, with success. */
  ghost predicate Writes(config: Config, events: seq<Event>, k: nat) {
    && k < |events| && events[k].Observed? && config.hasPath && events[k].saved
    && ((exists game, n, hash :: CreatedAt(config, map[], events, k, game, n, hash))
        || exists game, n :: MovedTo(config, events, k, game, n))
  }

  /** No restart lost what event `k` did: it had reached the file before each. */
  ghost predicate Outlives(config: Config, events: seq<Event>, k: nat) {
    forall r | k < r < |events| && events[r].Restart? :: exists d :: k <= d < r && Writes(config, events, d)
  }

  /** The creation at `i` is what memory has of `game`: no restart lost it, and
      whatever would have displaced it since was lost to one. */
  ghost predicate Live(config: Config, events: seq<Event>, i: nat, game: Address, number: U64, hash: Word) {
    && CreatedAt(config, map[], events, i, game, number, hash) && Outlives(config, events, i)
    && forall k | i < k < |events| && Displaces(config, events, k, game, number) :: !Outlives(config, events, k)
  }

  /** What the file has is what a restart would bring back. */
  ghost predicate LiveInFile(config: Config, events: seq<Event>, i: nat, game: Address, number: U64, hash: Word) {
    Live(config, events + [Restart], i, game, number, hash)
  }

  /** What an event means does not depend on later ones. */
  lemma SameSoFar(config: Config, events: seq<Event>, all: seq<Event>, k: nat)
    requires k < |events| && events <= all
    ensures && all[..k] == events[..k] && all[k] == events[k]
            && (forall game, n, hash :: CreatedAt(config, map[], all, k, game, n, hash) <==> CreatedAt(config, map[], events, k, game, n, hash))
            && (forall game, n :: MovedTo(config, all, k, game, n) <==> MovedTo(config, events, k, game, n))
            && (forall game, n :: Displaces(config, all, k, game, n) <==> Displaces(config, events, k, game, n))
            && (Writes(config, all, k) <==> Writes(config, events, k))
  {
    assert all[..k] == events[..k];
  }

  /** An event outlives one more event exactly when that is no restart, or it had
      reached the file. */
  lemma OutlivesOneMore(config: Config, events: seq<Event>, e: Event, k: nat)
    requires k < |events|
    ensures Outlives(config, events + [e], k) <==>
            Outlives(config, events, k) && (e.Restart? ==> exists d :: k <= d < |events| && Writes(config, events, d))
  {
    var all := events + [e];
    forall d | 0 <= d < |events| ensures Writes(config, all, d) <==> Writes(config, events, d) {
      SameSoFar(config, events, all, d);
    }
    if Outlives(config, all, k) {
      forall r | k < r < |events| && events[r].Restart? ensures exists d :: k <= d < r && Writes(config, events, d) {
        assert all[r].Restart?;
        var d :| k <= d < r && Writes(config, all, d);
        assert Writes(config, events, d);
      }
      if e.Restart? {
        assert all[|events|].Restart?;
        var d :| k <= d < |events| && Writes(config, all, d);
        assert Writes(config, events, d);
      }
    }
    if Outlives(config, events, k) && (e.Restart? ==> exists d :: k <= d < |events| && Writes(config, events, d)) {
      forall r | k < r < |all| && all[r].Restart? ensures exists d :: k <= d < r && Writes(config, all, d) {
        if r < |events| {
          var d :| k <= d < r && Writes(config, events, d);
          assert Writes(config, all, d);
        } else {
          var d :| k <= d < |events| && Writes(config, events, d);
          assert Writes(config, all, d);
        }
      }
    }
  }

  lemma LiveOneMore(config: Config, events: seq<Event>, e: Event, i: nat, game: Address, number: U64, hash: Word)
    requires !e.Restart? && i <= |events|
    ensures Live(config, events + [e], i, game, number, hash) <==>
            if i == |events| then CreatedAt(config, map[], events + [e], i, game, number, hash)
            else Live(config, events, i, game, number, hash) && !Displaces(config, events + [e], |events|, game, number)
  {
    var all := events + [e];
    forall k | 0 <= k < |events|
      ensures Outlives(config, all, k) <==> Outlives(config, events, k)
      ensures Displaces(config, all, k, game, number) <==> Displaces(config, events, k, game, number)
    {
      OutlivesOneMore(config, events, e, k);
      SameSoFar(config, events, all, k);
    }
    assert Outlives(config, all, |events|);
    if i < |events| {
      SameSoFar(config, events, all, i);
    }
  }

  /** A restart right now would bring back what event `k` did. */
  ghost predicate Kept(config: Config, events: seq<Event>, k: nat) {
    Outlives(config, events + [Restart], k)
  }

  lemma KeptOneMore(config: Config, events: seq<Event>, e: Event, k: nat)
    requires k <= |events|
    ensures Kept(config, events + [e], k) <==>
            if Writes(config, events + [e], |events|) then Outlives(config, events + [e], k)
            else k < |events| && Kept(config, events, k)
  {
    var all := events + [e];
    OutlivesOneMore(config, all, Restart, k);
    if k < |events| {
      OutlivesOneMore(config, events, Restart, k);
      OutlivesOneMore(config, events, e, k);
      forall d | 0 <= d < |events| ensures Writes(config, all, d) <==> Writes(config, events, d) {
        SameSoFar(config, events, all, d);
      }
      if d :| k <= d < |events| && Writes(config, events, d) {
        assert Writes(config, all, d);
      }
    }
  }

  lemma LiveInFileMeans(config: Config, events: seq<Event>, i: nat, game: Address, number: U64, hash: Word)
    requires i < |events|
    ensures LiveInFile(config, events, i, game, number, hash) <==>
            && CreatedAt(config, map[], events, i, game, number, hash) && Kept(config, events, i)
            && forall k | i < k < |events| && Displaces(config, events, k, game, number) :: !Kept(config, events, k)
  {
    var all := events + [Restart];
    SameSoFar(config, events, all, i);
    forall k | 0 <= k < |events|
      ensures Displaces(config, all, k, game, number) <==> Displaces(config, events, k, game, number)
    {
      SameSoFar(config, events, all, k);
    }
    assert !Displaces(config, all, |events|, game, number);
  }

  lemma LiveInFileOneMore(config: Config, events: seq<Event>, e: Event, i: nat, game: Address, number: U64, hash: Word)
    requires i <= |events|
    ensures LiveInFile(config, events + [e], i, game, number, hash) <==>
            if Writes(config, events + [e], |events|) then Live(config, events + [e], i, game, number, hash)
            else i < |events| && LiveInFile(config, events, i, game, number, hash)
  {
    var all := events + [e];
    LiveInFileMeans(config, all, i, game, number, hash);
    forall k | 0 <= k <= |events|
      ensures Kept(config, all, k) <==>
              if Writes(config, all, |events|) then Outlives(config, all, k) else k < |events| && Kept(config, events, k)
    {
      KeptOneMore(config, events, e, k);
    }
    if i < |events| {
      LiveInFileMeans(config, events, i, game, number, hash);
      SameSoFar(config, events, all, i);
      forall k | 0 <= k < |events|
        ensures Displaces(config, all, k, game, number) <==> Displaces(config, events, k, game, number)
      {
        SameSoFar(config, events, all, k);
      }
    }
  }

  /** What one event does to a game in memory and in the file. */
  lemma GamesStep(config: Config, events: seq<Event>, e: Event, game: Address, number: U64, hash: Word)
    requires !e.Restart?
    ensures var all := events + [e];
            var s, s' := After(config, map[], events), After(config, map[], all);
            && ((game in s'.games && s'.games[game] == (number, hash)) <==>
                || CreatedAt(config, map[], all, |events|, game, number, hash)
                || (game in s.games && s.games[game] == (number, hash) && !Displaces(config, all, |events|, game, number)))
            && s'.file == if Writes(config, all, |events|) then s'.games else s.file
  {
    var all, n := events + [e], |events|;
    assert all[..n] == events;
    var s, s' := After(config, map[], events), After(config, map[], all);
    assert s' == Step(config, s, e).0;
    if e.Observed? && e.observation.GameCreated? && Matches(s.signed, e.observation).Some? {
      var block := Matches(s.signed, e.observation).value;
      assert CreatedAt(config, map[], all, n, e.observation.game, block.0, block.1);
    } else if e.Observed? && e.observation.AnchorUpdated? && e.observation.game in s.games {
      assert MovedTo(config, all, n, e.observation.game, s.games[e.observation.game].0);
    }
  }

  ghost predicate SomeLive(config: Config, events: seq<Event>, game: Address, number: U64, hash: Word) {
    exists i: nat :: Live(config, events, i, game, number, hash)
  }

  lemma SomeLiveOneMore(config: Config, events: seq<Event>, e: Event, game: Address, number: U64, hash: Word)
    requires !e.Restart?
    ensures SomeLive(config, events + [e], game, number, hash) <==>
            || CreatedAt(config, map[], events + [e], |events|, game, number, hash)
            || (SomeLive(config, events, game, number, hash) && !Displaces(config, events + [e], |events|, game, number))
  {
    var all := events + [e];
    forall i: nat | i <= |events|
      ensures Live(config, all, i, game, number, hash) <==>
              if i == |events| then CreatedAt(config, map[], all, i, game, number, hash)
              else Live(config, events, i, game, number, hash) && !Displaces(config, all, |events|, game, number)
    {
      LiveOneMore(config, events, e, i, game, number, hash);
    }
  }

  lemma SomeLiveInFileOneMore(config: Config, events: seq<Event>, e: Event, game: Address, number: U64, hash: Word)
    ensures SomeLive(config, events + [e] + [Restart], game, number, hash) <==>
            SomeLive(config, if Writes(config, events + [e], |events|) then events + [e] else events + [Restart], game, number, hash)
  {
    var all := events + [e];
    forall i: nat | i <= |events|
      ensures Live(config, all + [Restart], i, game, number, hash) <==>
              if Writes(config, all, |events|) then Live(config, all, i, game, number, hash)
              else i < |events| && Live(config, events + [Restart], i, game, number, hash)
    {
      LiveInFileOneMore(config, events, e, i, game, number, hash);
    }
  }

  /** What memory has of a game, exactly, through failed writes and restarts: the
      number and hash of a creation that no restart lost, while whatever would
      have displaced it since was lost to one. The file has what a restart would
      bring back. */
  lemma {:induction false} GamesAreExactlyTheLive(config: Config, events: seq<Event>, game: Address, number: U64, hash: Word)
    ensures var s := After(config, map[], events);
            && (game in s.games && s.games[game] == (number, hash) <==> SomeLive(config, events, game, number, hash))
            && (game in s.file && s.file[game] == (number, hash) <==>
                SomeLive(config, events + [Restart], game, number, hash))
    decreases |events|
  {
    if events != [] {
      var before, e := events[..|events| - 1], events[|events| - 1];
      assert events == before + [e];
      GamesAreExactlyTheLive(config, before, game, number, hash);
      SomeLiveInFileOneMore(config, before, e, game, number, hash);
      if e.Restart? {
        assert !Writes(config, events, |before|);
      } else {
        GamesStep(config, before, e, game, number, hash);
        SomeLiveOneMore(config, before, e, game, number, hash);
      }
    }
  }

  /** An anchor update finalizes exactly the number and hash of its game's live
      creation, provided its own write succeeds. */
  lemma FinalizesTheLive(config: Config, events: seq<Event>, j: nat, game: Address, number: U64, hash: Word)
    requires j < |events|
    ensures Finalizes(config, map[], events, j) == Some(Final(game, number, hash)) <==>
            && events[j].Observed? && events[j].observation == AnchorUpdated(game)
            && (config.hasPath ==> events[j].saved)
            && SomeLive(config, events[..j], game, number, hash)
  {
    GamesAreExactlyTheLive(config, events[..j], game, number, hash);
  }

  /** So the latest creation of a game that matched is what an update of the anchor
      to it finalizes, when it was written or the process goes on, and the anchor
      did not move to the game or past its block in between. */
  lemma LastCreationIsFinal(config: Config, events: seq<Event>, i: nat, j: nat, game: Address, number: U64, hash: Word)
    requires i < j < |events| && CreatedAt(config, map[], events, i, game, number, hash)
    requires events[j] == Observed(AnchorUpdated(game), true)
    requires forall k | i < k < j :: !Displaces(config, events, k, game, number)
    requires (config.hasPath && events[i].saved) || forall r | i < r < j :: !events[r].Restart?
    ensures Finalizes(config, map[], events, j) == Some(Final(game, number, hash))
  {
    var before := events[..j];
    forall k | 0 <= k < j ensures Displaces(config, before, k, game, number) <==> Displaces(config, events, k, game, number) {
      SameSoFar(config, before, events, k);
    }
    SameSoFar(config, before, events, i);
    assert config.hasPath && events[i].saved ==> Writes(config, before, i);
    assert Live(config, before, i, game, number, hash);
    FinalizesTheLive(config, events, j, game, number, hash);
  }
}
