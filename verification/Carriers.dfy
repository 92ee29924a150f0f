/** The peers whose forwarded blocks the sequencer signed, newest first, and the
    file that keeps them. How one address is written and read is a parameter. */
module Carriers {
  import opened Wrappers

  const KEPT: nat := 32

  type Peer = nat

  datatype Part = Ip4(a: nat, b: nat, c: nat, d: nat) | Tcp(port: nat) | P2p(peer: Peer) | OtherPart(text: string)

  type Address = seq<Part>

  type Entry = (Peer, Address)

  // --------------------------------------------------------------- recording

  function Kept(entries: seq<Entry>): seq<Entry> {
    if |entries| > KEPT then entries[..KEPT] else entries
  }

  function IndexOf(entries: seq<Entry>, peer: Peer): Option<nat> {
    if entries == [] then None
    else if entries[0].0 == peer then Some(0)
    else match IndexOf(entries[1..], peer) case None => None case Some(i) => Some(i + 1)
  }

  lemma {:induction false} IndexIsFirst(entries: seq<Entry>, peer: Peer)
    ensures match IndexOf(entries, peer)
            case None => forall i | 0 <= i < |entries| :: entries[i].0 != peer
            case Some(k) => k < |entries| && entries[k].0 == peer && forall i | 0 <= i < k :: entries[i].0 != peer
    decreases |entries|
  {
    if entries != [] {
      IndexIsFirst(entries[1..], peer);
    }
  }

  /** `entries` with `peer` made the newest. */
  function Recorded(entries: seq<Entry>, peer: Peer, address: Address): seq<Entry> {
    var known := IndexOf(entries, peer);
    IndexIsFirst(entries, peer);
    var rest := if known.Some? then entries[..known.value] + entries[known.value + 1..] else entries;
    Kept([(peer, address)] + rest)
  }

  ghost predicate Distinct(entries: seq<Entry>) {
    forall i, j | 0 <= i < j < |entries| :: entries[i].0 != entries[j].0
  }

  class Carriers {
    var entries: seq<Entry>

    constructor ()
      ensures entries == []
    {
      entries := [];
    }

    /** Make `peer` the newest carrier. The flag tells whether the kept peers or
        their addresses changed: without it they are the same, in another order. */
    method Record(peer: Peer, address: Address) returns (changed: bool)
      modifies this
      ensures entries == Recorded(old(entries), peer, address)
      ensures Distinct(old(entries)) ==> (changed <==> (peer, address) !in old(entries))
      ensures !changed && |old(entries)| <= KEPT ==> multiset(entries) == multiset(old(entries))
    {
      IndexIsFirst(entries, peer);
      var known := IndexOf(entries, peer);
      changed := known.None? || entries[known.value].1 != address;
      if known.Some? {
        var i := known.value;
        assert entries == entries[..i] + [entries[i]] + entries[i + 1..];
        entries := entries[..i] + entries[i + 1..];
      }
      entries := [(peer, address)] + entries;
      if |entries| > KEPT {
        entries := entries[..KEPT];
      }
    }
  }

  // ------------------------------------------------------------- the history

  function RecordedAll(history: seq<Entry>): seq<Entry> {
    if history == [] then []
    else var (peer, address) := history[|history| - 1]; Recorded(RecordedAll(history[..|history| - 1]), peer, address)
  }

  /** Read back from the newest record: each peer not yet `seen`, with the address
      it was last recorded with. */
  function Newest(history: seq<Entry>, seen: set<Peer>): seq<Entry> {
    if history == [] then []
    else
      var (last, init) := (history[|history| - 1], history[..|history| - 1]);
      if last.0 in seen then Newest(init, seen) else [last] + Newest(init, seen + {last.0})
  }

  function Without(entries: seq<Entry>, peer: Peer): seq<Entry> {
    if entries == [] then []
    else if entries[0].0 == peer then Without(entries[1..], peer)
    else [entries[0]] + Without(entries[1..], peer)
  }

  lemma {:induction false} NewestUnseen(history: seq<Entry>, seen: set<Peer>)
    ensures forall i | 0 <= i < |Newest(history, seen)| :: Newest(history, seen)[i].0 !in seen
    ensures Distinct(Newest(history, seen))
    decreases |history|
  {
    if history != [] {
      var last, init := history[|history| - 1], history[..|history| - 1];
      NewestUnseen(init, seen);
      NewestUnseen(init, seen + {last.0});
    }
  }

  lemma {:induction false} WithoutAbsent(entries: seq<Entry>, peer: Peer)
    requires forall i | 0 <= i < |entries| :: entries[i].0 != peer
    ensures Without(entries, peer) == entries
    decreases |entries|
  {
    if entries != [] {
      WithoutAbsent(entries[1..], peer);
    }
  }

  lemma {:induction false} NewestSeenMore(history: seq<Entry>, seen: set<Peer>, peer: Peer)
    ensures Newest(history, seen + {peer}) == Without(Newest(history, seen), peer)
    decreases |history|
  {
    if history != [] {
      var last, init := history[|history| - 1], history[..|history| - 1];
      if last.0 in seen {
        NewestSeenMore(init, seen, peer);
      } else {
        var rest := Newest(init, seen + {last.0});
        assert ([last] + rest)[1..] == rest;
        if last.0 == peer {
          NewestUnseen(init, seen + {peer});
          WithoutAbsent(rest, peer);
        } else {
          NewestSeenMore(init, seen + {last.0}, peer);
          assert seen + {last.0} + {peer} == seen + {peer} + {last.0};
        }
      }
    }
  }

  lemma {:induction false} WithoutAt(entries: seq<Entry>, peer: Peer, k: nat)
    requires Distinct(entries) && k < |entries| && entries[k].0 == peer
    ensures Without(entries, peer) == entries[..k] + entries[k + 1..]
    decreases |entries|
  {
    if k == 0 {
      WithoutAbsent(entries[1..], peer);
    } else {
      WithoutAt(entries[1..], peer, k - 1);
      assert entries[1..][..k - 1] == entries[1..k];
      assert [entries[0]] + entries[1..k] == entries[..k];
    }
  }

  /** Recording into the newest kept is keeping the newest of the recording. */
  lemma RecordCommutes(all: seq<Entry>, peer: Peer, address: Address)
    requires Distinct(all)
    ensures Recorded(Kept(all), peer, address) == Kept([(peer, address)] + Without(all, peer))
  {
    var kept := Kept(all);
    IndexIsFirst(kept, peer);
    IndexIsFirst(all, peer);
    assert forall i | 0 <= i < |kept| :: kept[i] == all[i];
    if IndexOf(kept, peer).Some? {
      var k := IndexOf(kept, peer).value;
      WithoutAt(all, peer, k);
      KeptWithin(all, k, (peer, address));
    } else if IndexOf(all, peer).None? {
      WithoutAbsent(all, peer);
      KeptFirst(all, (peer, address));
    } else {
      var k := IndexOf(all, peer).value;
      WithoutAt(all, peer, k);
      KeptBeyond(all, k, (peer, address));
    }
  }

  lemma KeptFirst(all: seq<Entry>, e: Entry)
    ensures Kept([e] + Kept(all)) == Kept([e] + all)
  {
  }

  lemma KeptWithin(all: seq<Entry>, k: nat, e: Entry)
    requires k < |Kept(all)|
    ensures Kept([e] + (Kept(all)[..k] + Kept(all)[k + 1..])) == Kept([e] + (all[..k] + all[k + 1..]))
  {
  }

  lemma KeptBeyond(all: seq<Entry>, k: nat, e: Entry)
    requires KEPT <= k < |all|
    ensures Kept([e] + Kept(all)) == Kept([e] + (all[..k] + all[k + 1..]))
  {
  }

  /** After any records: the newest distinct peers, at most as many as are kept,
      newest first, each with the address it was last recorded with. */
  lemma {:induction false} KeepsNewestPeers(history: seq<Entry>)
    ensures RecordedAll(history) == Kept(Newest(history, {})) && Distinct(RecordedAll(history))
    decreases |history|
  {
    NewestUnseen(history, {});
    if history != [] {
      var last, init := history[|history| - 1], history[..|history| - 1];
      KeepsNewestPeers(init);
      NewestUnseen(init, {});
      NewestSeenMore(init, {}, last.0);
      RecordCommutes(Newest(init, {}), last.0, last.1);
      assert {} + {last.0} == {last.0};
    }
  }

  // ----------------------------------------------------- starting from a list

  function RecordedFrom(entries: seq<Entry>, history: seq<Entry>): seq<Entry> {
    if history == [] then entries
    else
      var (peer, address) := history[|history| - 1];
      Recorded(RecordedFrom(entries, history[..|history| - 1]), peer, address)
  }

  function Reversed(entries: seq<Entry>): (r: seq<Entry>)
    ensures |r| == |entries|
  {
    if entries == [] then [] else Reversed(entries[1..]) + [entries[0]]
  }

  /** Distinct entries, recorded from the oldest to the newest, come out as they
      are. */
  lemma {:induction false} NewestOfReversed(entries: seq<Entry>, seen: set<Peer>)
    requires Distinct(entries) && forall i | 0 <= i < |entries| :: entries[i].0 !in seen
    ensures Newest(Reversed(entries), seen) == entries
    decreases |entries|
  {
    if entries != [] {
      assert Reversed(entries)[..|entries| - 1] == Reversed(entries[1..]);
      NewestOfReversed(entries[1..], seen + {entries[0].0});
      assert entries == [entries[0]] + entries[1..];
    }
  }

  /** A list read from a file continues as the history that would have led to it,
      exactly when it names no peer twice. */
  lemma KeepsNewestPeersFrom(entries: seq<Entry>)
    requires |entries| <= KEPT
    ensures Distinct(entries) <==>
            forall history :: RecordedFrom(entries, history) == Kept(Newest(Reversed(entries) + history, {}))
  {
    if Distinct(entries) {
      forall history ensures RecordedFrom(entries, history) == Kept(Newest(Reversed(entries) + history, {})) {
        ContinuesAsHistory(entries, history);
      }
    }
    if forall history :: RecordedFrom(entries, history) == Kept(Newest(Reversed(entries) + history, {})) {
      NewestUnseen(Reversed(entries) + [], {});
      assert RecordedFrom(entries, []) == entries;
    }
  }

  lemma {:induction false} ContinuesAsHistory(entries: seq<Entry>, history: seq<Entry>)
    requires Distinct(entries) && |entries| <= KEPT
    ensures RecordedFrom(entries, history) == Kept(Newest(Reversed(entries) + history, {}))
    decreases |history|
  {
    if history == [] {
      assert Reversed(entries) + history == Reversed(entries);
      NewestOfReversed(entries, {});
    } else {
      var last, init := history[|history| - 1], history[..|history| - 1];
      var before := Reversed(entries) + init;
      assert Reversed(entries) + history == before + [last];
      assert (before + [last])[..|before|] == before;
      ContinuesAsHistory(entries, init);
      NewestUnseen(before, {});
      NewestSeenMore(before, {}, last.0);
      RecordCommutes(Newest(before, {}), last.0, last.1);
      assert {} + {last.0} == {last.0};
    }
  }

  /** Of a peer named twice only the first entry is replaced: the other stays. */
  lemma DuplicateStays(peer: Peer, first: Address, second: Address, address: Address)
    ensures Recorded([(peer, first), (peer, second)], peer, address) == [(peer, address), (peer, second)]
  {
    var entries: seq<Entry> := [(peer, first), (peer, second)];
    assert entries[..0] + entries[1..] == [(peer, second)];
  }

  // ---------------------------------------------------------------- the file

  predicate Space(c: char) {
    var n := c as int;
    9 <= n <= 13 || n == 32 || n == 0x85 || n == 0xa0 || n == 0x1680 || 0x2000 <= n <= 0x200a
    || n == 0x2028 || n == 0x2029 || n == 0x202f || n == 0x205f || n == 0x3000
  }

  function Trim(text: string): string {
    if text == [] then []
    else if Space(text[0]) then Trim(text[1..])
    else if Space(text[|text| - 1]) then Trim(text[..|text| - 1])
    else text
  }

  /** The lines of a text, each without its line end. */
  function Lines(text: string): seq<string> {
    if text == [] then []
    else
      var n := FirstBreak(text);
      if n == |text| then [text] else [text[..n]] + Lines(text[n + 1..])
  }

  /** Where the first line ends. */
  function FirstBreak(text: string): (n: nat)
    ensures n <= |text| && (n < |text| ==> text[n] == '\n') && forall i | 0 <= i < n :: text[i] != '\n'
  {
    if text == [] || text[0] == '\n' then 0 else FirstBreak(text[1..]) + 1
  }

  datatype Codec = Codec(show: Address -> string, read: string -> Option<Address>)

  /** An address is read back from its own text, which is not empty, one line, and
      neither begins nor ends with a space. */
  ghost predicate ReadsBack(codec: Codec, address: Address) {
    var text := codec.show(address);
    && codec.read(text) == Some(address) && text != [] && (forall i | 0 <= i < |text| :: text[i] != '\n')
    && !Space(text[0]) && !Space(text[|text| - 1])
  }

  /** The codec reads back every kept address. */
  ghost predicate Sound(codec: Codec, entries: seq<Entry>) {
    forall i | 0 <= i < |entries| :: ReadsBack(codec, entries[i].1)
  }

  function FirstPeer(address: Address): Option<Peer> {
    if address == [] then None else if address[0].P2p? then Some(address[0].peer) else FirstPeer(address[1..])
  }

  function ParseLine(codec: Codec, line: string): seq<Entry> {
    match codec.read(Trim(line))
    case None => []
    case Some(address) =>
      match FirstPeer(address)
      case None => []
      case Some(peer) => [(peer, address)]
  }

  function ParseLines(codec: Codec, lines: seq<string>): seq<Entry> {
    if lines == [] then [] else ParseLine(codec, lines[0]) + ParseLines(codec, lines[1..])
  }

  function Parse(codec: Codec, text: string): seq<Entry> {
    Kept(ParseLines(codec, Lines(text)))
  }

  function Render(codec: Codec, entries: seq<Entry>): string {
    if entries == [] then [] else codec.show(entries[0].1) + "\n" + Render(codec, entries[1..])
  }

  /** The entries as their addresses alone name them. */
  function Named(entries: seq<Entry>): seq<Entry> {
    if entries == [] then []
    else
      (match FirstPeer(entries[0].1) case None => [] case Some(peer) => [(peer, entries[0].1)]) + Named(entries[1..])
  }

  lemma {:induction false} RenderedLines(codec: Codec, entries: seq<Entry>)
    requires Sound(codec, entries)
    ensures ParseLines(codec, Lines(Render(codec, entries))) == Named(entries)
    decreases |entries|
  {
    if entries != [] {
      assert ReadsBack(codec, entries[0].1);
      var line, rest := codec.show(entries[0].1), Render(codec, entries[1..]);
      var text := line + "\n" + rest;
      assert Render(codec, entries) == text;
      assert FirstBreak(text) == |line| by {
        assert text[|line|] == '\n';
        forall i | 0 <= i < |line| ensures text[i] != '\n' {
          assert text[i] == line[i];
        }
      }
      assert text[..|line|] == line && text[|line| + 1..] == rest;
      assert Trim(line) == line;
      RenderedLines(codec, entries[1..]);
      assert ([line] + Lines(rest))[1..] == Lines(rest);
    }
  }

  lemma {:induction false} NamedIsShorter(entries: seq<Entry>)
    ensures |Named(entries)| <= |entries|
    ensures Named(entries) == entries <==> forall i | 0 <= i < |entries| :: FirstPeer(entries[i].1) == Some(entries[i].0)
    decreases |entries|
  {
    if entries != [] {
      var rest := entries[1..];
      NamedIsShorter(rest);
      assert entries == [entries[0]] + rest;
      if FirstPeer(entries[0].1) == Some(entries[0].0) {
        assert Named(entries)[1..] == Named(rest);
      } else if FirstPeer(entries[0].1).Some? {
        assert Named(entries)[0] != entries[0];
      }
    }
  }

  /** Reading the written file gives each kept address back under the first peer it
      names, so it gives back the kept entries exactly when every address first
      names its own peer. */
  lemma RoundTrip(codec: Codec, entries: seq<Entry>)
    requires Sound(codec, entries) && |entries| <= KEPT
    ensures Parse(codec, Render(codec, entries)) == Named(entries)
    ensures Parse(codec, Render(codec, entries)) == entries <==>
            forall i | 0 <= i < |entries| :: FirstPeer(entries[i].1) == Some(entries[i].0)
  {
    RenderedLines(codec, entries);
    NamedIsShorter(entries);
  }

  /** An address that ends in two peers' ids comes back under the first. */
  lemma ComesBackUnderAnother(listened: Address, other: Peer, peer: Peer)
    requires FirstPeer(listened) == Some(other) && other != peer
    ensures var entries := [(peer, listened + [P2p(peer)])];
            exists codec :: Sound(codec, entries) && Parse(codec, Render(codec, entries)) == [(other, entries[0].1)]
  {
    var address := listened + [P2p(peer)];
    var entries := [(peer, address)];
    var codec := Codec((a: Address) => "x", (text: string) => if text == "x" then Some(address) else None);
    FirstPeerOfWith(listened, peer);
    assert ReadsBack(codec, address);
    RoundTrip(codec, entries);
    assert entries[1..] == [];
  }

  // ----------------------------------------------------------- what is recorded

  predicate Public(part: Part) {
    part.Ip4?
    && !(part.a == 10 || (part.a == 172 && 16 <= part.b <= 31) || (part.a == 192 && part.b == 168)
         || part.a == 127 || (part.a == 169 && part.b == 254)
         || (part.a == 0 && part.b == 0 && part.c == 0 && part.d == 0))
  }

  predicate CanDial(address: Address) {
    |address| >= 2 && Public(address[0]) && address[1].Tcp?
  }

  /** An address as one number. */
  function Number(part: Part): nat
    requires part.Ip4?
  {
    ((part.a * 256 + part.b) * 256 + part.c) * 256 + part.d
  }

  predicate InBlock(n: nat, from: nat, size: nat) {
    from <= n < from + size
  }

  /** Which addresses can be dialed, by their blocks: TCP over IPv4 outside 10/8,
      172.16/12, 192.168/16, 127/8, 169.254/16, and 0.0.0.0. */
  lemma CanDialExactly(address: Address)
    requires forall part | part in address && part.Ip4? :: part.a < 256 && part.b < 256 && part.c < 256 && part.d < 256
    ensures CanDial(address) <==>
            && |address| >= 2 && address[0].Ip4? && address[1].Tcp?
            && var n := Number(address[0]);
            && !InBlock(n, 0x0a00_0000, 0x100_0000) && !InBlock(n, 0xac10_0000, 0x10_0000)
            && !InBlock(n, 0xc0a8_0000, 0x1_0000) && !InBlock(n, 0x7f00_0000, 0x100_0000)
            && !InBlock(n, 0xa9fe_0000, 0x1_0000) && n != 0
  {
    if |address| >= 2 {
      assert address[0] in address;
    }
  }

  /** The first public TCP address a peer listens on, ending in its peer id. */
  function Dialable(peer: Peer, listen: seq<Address>): (r: Option<Address>)
    ensures r.None? <==> forall address | address in listen :: !CanDial(address)
  {
    if listen == [] then None
    else
      assert listen == [listen[0]] + listen[1..];
      if CanDial(listen[0]) then Some(listen[0] + [P2p(peer)]) else Dialable(peer, listen[1..])
  }

  lemma {:induction false} FirstPeerOfWith(address: Address, peer: Peer)
    ensures FirstPeer(address + [P2p(peer)]) ==
            match FirstPeer(address) case None => Some(peer) case Some(earlier) => Some(earlier)
    decreases |address|
  {
    if address != [] {
      assert (address + [P2p(peer)])[1..] == address[1..] + [P2p(peer)];
      FirstPeerOfWith(address[1..], peer);
    }
  }

  /** What is recorded is the first public TCP address followed by the peer's id,
      so it names its own peer first exactly when the listened address names no
      other peer. */
  lemma {:induction false} DialableNamesItsPeer(peer: Peer, listen: seq<Address>) returns (i: nat)
    requires Dialable(peer, listen).Some?
    ensures i < |listen| && CanDial(listen[i]) && forall j | 0 <= j < i :: !CanDial(listen[j])
    ensures Dialable(peer, listen).value == listen[i] + [P2p(peer)]
    ensures FirstPeer(Dialable(peer, listen).value) == Some(peer) <==>
            (FirstPeer(listen[i]).None? || FirstPeer(listen[i]) == Some(peer))
    decreases |listen|
  {
    i := 0;
    if !CanDial(listen[0]) {
      i := DialableNamesItsPeer(peer, listen[1..]);
      i := i + 1;
    }
    FirstPeerOfWith(listen[i], peer);
  }
}
