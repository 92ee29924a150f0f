/** What a dispute game claims: the parsers of its creation call (Contract ABI
    Specification, "Formal Specification of the Encoding") and of the preimage of
    a claimed super root. */
module L1Claims {
  import opened MachineIntegers
  import opened Wrappers

  const WORD_BOUND: nat := 0x1_0000_0000_0000_0000_0000_0000_0000_0000_0000_0000_0000_0000_0000_0000_0000_0000

  /** A 256-bit word, by its big-endian value. */
  type Word = n: nat | n < WORD_BOUND

  type Keccak = seq<Byte> -> Word

  datatype GameClaims = OutputRoots | SuperRoots

  datatype ClaimedBlock = Number(number: U64) | Time(time: U64)

  /** `create(uint32,bytes32,bytes)` */
  const CREATE: seq<Byte> := [0x82, 0xec, 0xf2, 0xf6]

  /** `createWithInitData(uint32,bytes32,bytes,bytes)` */
  const CREATE_WITH_INIT_DATA: seq<Byte> := [0x10, 0x11, 0xf3, 0x77]

  /** The lengths of both functions' heads, where their first tails start. */
  const CREATE_HEAD: nat := 96
  const CREATE_WITH_INIT_DATA_HEAD: nat := 128

  // ------------------------------------------------------ big-endian numbers

  function Pow256(n: nat): (p: nat)
    ensures p >= 1
  {
    if n == 0 then 1 else 256 * Pow256(n - 1)
  }

  function BigEndian(s: seq<Byte>): nat {
    if s == [] then 0 else 256 * BigEndian(s[..|s| - 1]) + s[|s| - 1]
  }

  function ToBigEndian(n: nat, width: nat): (s: seq<Byte>)
    ensures |s| == width
  {
    if width == 0 then [] else ToBigEndian(n / 256, width - 1) + [n % 256]
  }

  lemma {:induction false} BigEndianBounded(s: seq<Byte>)
    ensures BigEndian(s) < Pow256(|s|)
    ensures ToBigEndian(BigEndian(s), |s|) == s
  {
    if s != [] {
      BigEndianBounded(s[..|s| - 1]);
      assert BigEndian(s) / 256 == BigEndian(s[..|s| - 1]);
    }
  }

  lemma {:induction false} BigEndianOf(n: nat, width: nat)
    requires n < Pow256(width)
    ensures BigEndian(ToBigEndian(n, width)) == n
    decreases width
  {
    if width > 0 {
      BigEndianOf(n / 256, width - 1);
      assert ToBigEndian(n, width)[..width - 1] == ToBigEndian(n / 256, width - 1);
    }
  }

  lemma {:induction false} PowAdd(m: nat, n: nat)
    ensures Pow256(m + n) == Pow256(m) * Pow256(n)
  {
    if m > 0 {
      PowAdd(m - 1, n);
      var a, b := Pow256(m - 1) as int, Pow256(n) as int;
      assert 256 * (a * b) == (256 * a) * b;
    }
  }

  lemma Widths()
    ensures Pow256(8) == U64_MAX + 1
    ensures Pow256(32) == WORD_BOUND
  {
    assert Pow256(4) == 0x1_0000_0000 by {
      assert Pow256(2) == 256 * Pow256(1) && Pow256(1) == 256 * Pow256(0) && Pow256(3) == 256 * Pow256(2);
    }
    PowAdd(4, 4);
    PowAdd(8, 8);
    PowAdd(16, 16);
  }

  // ------------------------------------------------- the creation call's data

  /** The word at `offset`, when it lies within `arguments`. */
  function WordAt(arguments: seq<Byte>, offset: U64): Option<nat> {
    if offset + 32 <= U64_MAX && offset + 32 <= |arguments|
    then Some(BigEndian(arguments[offset..offset + 32])) else None
  }

  /** A word as an index, when it fits the machine. */
  function IndexAt(arguments: seq<Byte>, offset: U64): Option<U64> {
    match WordAt(arguments, offset)
    case Some(value) => if value <= U64_MAX then Some(value) else None
    case None => None
  }

  /** The extra data of a game creation call. Whatever it returns is a slice of
      its input. */
  function ExtraData(input: seq<Byte>): (r: Option<seq<Byte>>)
    ensures r.Some? ==> exists i, j :: 4 <= i <= j <= |input| && r.value == input[i..j]
  {
    if |input| < 4 || (input[..4] != CREATE && input[..4] != CREATE_WITH_INIT_DATA) then None
    else
      var arguments := input[4..];
      match IndexAt(arguments, 64)
      case None => None
      case Some(start) =>
        match IndexAt(arguments, start)
        case None => None
        case Some(length) =>
          if start + 32 > U64_MAX || start + 32 + length > U64_MAX || start + 32 + length > |arguments| then None
          else
            assert arguments[start + 32..start + 32 + length] == input[4 + start + 32..4 + start + 32 + length];
            Some(arguments[start + 32..start + 32 + length])
  }

  /** The encoding of a word-sized value. */
  function Enc(n: nat): (s: seq<Byte>)
    ensures |s| == 32
  {
    ToBigEndian(n, 32)
  }

  function Padding(length: nat): (s: seq<Byte>)
    ensures (length + |s|) % 32 == 0 && |s| < 32
  {
    seq((32 - length % 32) % 32, _ => 0)
  }

  /** The tail of a `bytes` argument: its length, then its data padded to
      whole words. */
  function EncBytes(data: seq<Byte>): seq<Byte> {
    Enc(|data|) + data + Padding(|data|)
  }

  function EncodeCreate(gameType: nat, root: Word, extra: seq<Byte>): seq<Byte> {
    CREATE + Enc(gameType) + Enc(root) + Enc(CREATE_HEAD) + EncBytes(extra)
  }

  function EncodeCreateWithInitData(gameType: nat, root: Word, extra: seq<Byte>, init: seq<Byte>): seq<Byte> {
    CREATE_WITH_INIT_DATA + Enc(gameType) + Enc(root) + Enc(CREATE_WITH_INIT_DATA_HEAD)
    + Enc(CREATE_WITH_INIT_DATA_HEAD + |EncBytes(extra)|)
    + EncBytes(extra) + EncBytes(init)
  }

  /** The arguments' third head word places a `bytes` holding `extra` at
      `start`. */
  ghost predicate HoldsThirdAt(arguments: seq<Byte>, extra: seq<Byte>, start: nat) {
    && 96 <= |arguments| && start < WORD_BOUND && arguments[64..96] == Enc(start)
    && start + 32 + |extra| <= |arguments|
    && arguments[start..start + 32] == Enc(|extra|)
    && arguments[start + 32..start + 32 + |extra|] == extra
  }

  /** `input` calls a creation function with `extra` as its third argument,
      wherever its head places that argument's tail. */
  ghost predicate CallsWith(input: seq<Byte>, extra: seq<Byte>) {
    && 4 <= |input|
    && (input[..4] == CREATE || input[..4] == CREATE_WITH_INIT_DATA)
    && exists start: nat :: HoldsThirdAt(input[4..], extra, start)
  }

  lemma WordOf(s: seq<Byte>)
    requires |s| == 32
    ensures BigEndian(s) < WORD_BOUND && Enc(BigEndian(s)) == s
    ensures forall n: nat | n < WORD_BOUND && s == Enc(n) :: BigEndian(s) == n
  {
    Widths();
    BigEndianBounded(s);
    forall n: nat | n < WORD_BOUND && s == Enc(n) ensures BigEndian(s) == n {
      BigEndianOf(n, 32);
    }
  }

  lemma ReadsThird(input: seq<Byte>, extra: seq<Byte>, start: nat)
    requires |input| <= U64_MAX && 4 <= |input|
    requires input[..4] == CREATE || input[..4] == CREATE_WITH_INIT_DATA
    requires HoldsThirdAt(input[4..], extra, start)
    ensures ExtraData(input) == Some(extra)
  {
    var arguments := input[4..];
    WordOf(arguments[64..96]);
    WordOf(arguments[start..start + 32]);
    assert IndexAt(arguments, 64) == Some(start as U64);
    assert IndexAt(arguments, start) == Some(|extra| as U64);
  }

  /** The parser reads exactly the third argument, wherever it lies. */
  lemma ExtraDataIsThirdArgument(input: seq<Byte>, extra: seq<Byte>)
    requires |input| <= U64_MAX
    ensures ExtraData(input) == Some(extra) <==> CallsWith(input, extra)
  {
    if CallsWith(input, extra) {
      var start: nat :| HoldsThirdAt(input[4..], extra, start);
      ReadsThird(input, extra, start);
    }
    if ExtraData(input) == Some(extra) {
      var arguments := input[4..];
      var start := IndexAt(arguments, 64).value;
      WordOf(arguments[64..96]);
      WordOf(arguments[start..start + 32]);
      assert HoldsThirdAt(arguments, extra, start);
    }
  }

  lemma Middle(a: seq<Byte>, b: seq<Byte>, c: seq<Byte>)
    ensures (a + b + c)[|a|..|a| + |b|] == b
  {
  }

  /** An encoding whose third head word points just past the rest. */
  lemma ReadsBack(selector: seq<Byte>, a: seq<Byte>, b: seq<Byte>, extra: seq<Byte>, rest: seq<Byte>)
    requires selector == CREATE || selector == CREATE_WITH_INIT_DATA
    requires |a| == 64 && 96 + |b| < WORD_BOUND
    requires 4 + 96 + |b| + 32 + |extra| + |rest| <= U64_MAX
    ensures ExtraData(selector + (a + Enc(96 + |b|) + b + Enc(|extra|) + extra + rest)) == Some(extra)
  {
    var start := 96 + |b|;
    var head := a + Enc(start) + b;
    var arguments := head + Enc(|extra|) + extra + rest;
    Middle(a, Enc(start), b + Enc(|extra|) + extra + rest);
    assert a + Enc(start) + (b + Enc(|extra|) + extra + rest) == arguments;
    Middle(head, Enc(|extra|), extra + rest);
    assert head + Enc(|extra|) + (extra + rest) == arguments;
    Middle(head + Enc(|extra|), extra, rest);
    var input := selector + arguments;
    assert input[4..] == arguments && input[..4] == selector;
    ReadsThird(input, extra, start);
  }

  lemma CreateReadsBack(gameType: nat, root: Word, extra: seq<Byte>)
    requires |EncodeCreate(gameType, root, extra)| <= U64_MAX
    ensures ExtraData(EncodeCreate(gameType, root, extra)) == Some(extra)
  {
    ReadsBack(CREATE, Enc(gameType) + Enc(root), [], extra, Padding(|extra|));
    Regroup(CREATE, Enc(gameType), Enc(root), Enc(CREATE_HEAD), [], Enc(|extra|), extra, Padding(|extra|), []);
  }

  lemma CreateWithInitDataReadsBack(gameType: nat, root: Word, extra: seq<Byte>, init: seq<Byte>)
    requires |EncodeCreateWithInitData(gameType, root, extra, init)| <= U64_MAX
    ensures ExtraData(EncodeCreateWithInitData(gameType, root, extra, init)) == Some(extra)
  {
    var second := Enc(CREATE_WITH_INIT_DATA_HEAD + |EncBytes(extra)|);
    ReadsBack(CREATE_WITH_INIT_DATA, Enc(gameType) + Enc(root), second, extra, Padding(|extra|) + EncBytes(init));
    Regroup(CREATE_WITH_INIT_DATA, Enc(gameType), Enc(root), Enc(CREATE_WITH_INIT_DATA_HEAD), second,
            Enc(|extra|), extra, Padding(|extra|), EncBytes(init));
  }

  lemma Regroup(s: seq<Byte>, a: seq<Byte>, b: seq<Byte>, c: seq<Byte>, d: seq<Byte>,
                e: seq<Byte>, f: seq<Byte>, g: seq<Byte>, h: seq<Byte>)
    ensures s + a + b + c + d + (e + f + g) + h == s + ((a + b) + c + d + e + f + (g + h))
    ensures d == [] && h == [] ==> s + a + b + c + (e + f + g) == s + ((a + b) + c + d + e + f + g)
  {
    assert e + f + g + h == e + f + (g + h);
    assert s + a + b + c + d == s + ((a + b) + c + d);
    assert s + a + b + c + d + (e + f + g) + h == s + ((a + b) + c + d) + (e + f + (g + h));
  }

  // ----------------------------------------------------------- super roots

  /** A super root's preimage, version 1: its time, then each chain's id and
      output root. */
  function EncodeSuperRoot(time: U64, outputs: seq<(Word, Word)>): seq<Byte> {
    [1] + ToBigEndian(time, 8) + EncodeOutputs(outputs)
  }

  function EncodeOutputs(outputs: seq<(Word, Word)>): (s: seq<Byte>)
    ensures |s| == 64 * |outputs|
  {
    if outputs == [] then [] else Enc(outputs[0].0) + Enc(outputs[0].1) + EncodeOutputs(outputs[1..])
  }

  /** The output root of the first entry of `chainId`. */
  function RootOf(outputs: seq<(Word, Word)>, chainId: U64): Option<Word> {
    if outputs == [] then None
    else if outputs[0].0 == chainId then Some(outputs[0].1)
    else RootOf(outputs[1..], chainId)
  }

  /** The first 64-byte entry naming `chainId`, its root. */
  function FindOutput(chunks: seq<Byte>, chainId: U64): Option<nat> {
    if |chunks| < 64 then None
    else if BigEndian(chunks[..32]) == chainId then Some(BigEndian(chunks[32..64]))
    else FindOutput(chunks[64..], chainId)
  }

  /** The block a game's `extra` data names and the output root `claim` holds
      for it. */
  function Claimed(keccak: Keccak, extra: seq<Byte>, claims: GameClaims, claim: Word, chainId: U64)
    : Option<(ClaimedBlock, nat)>
  {
    match claims
    case OutputRoots =>
      if |extra| < 32 || BigEndian(extra[..32]) > U64_MAX then None
      else Some((Number(BigEndian(extra[..32])), claim as nat))
    case SuperRoots =>
      if keccak(extra) != claim || |extra| < 9 then None
      else
        var outputs := extra[9..];
        if extra[0] != 1 || |outputs| % 64 != 0 then None
        else
          match FindOutput(outputs, chainId)
          case None => None
          case Some(root) =>
            var time := BigEndian(extra[1..9]);
            Widths();
            BigEndianBounded(extra[1..9]);
            Some((Time(time), root))
  }

  /** An output-root game's extra data starts with its block number's word. */
  lemma ClaimedIsLeadingWord(keccak: Keccak, extra: seq<Byte>, claim: Word, chainId: U64, number: U64, root: nat)
    ensures Claimed(keccak, extra, OutputRoots, claim, chainId) == Some((Number(number), root)) <==>
            root == claim && Enc(number) <= extra
  {
    if |extra| >= 32 {
      WordOf(extra[..32]);
    }
  }

  lemma {:induction false} FindOutputFinds(outputs: seq<(Word, Word)>, chainId: U64)
    ensures FindOutput(EncodeOutputs(outputs), chainId) ==
            (match RootOf(outputs, chainId) case None => None case Some(root) => Some(root as nat))
  {
    if outputs != [] {
      var s := EncodeOutputs(outputs);
      assert s[..32] == Enc(outputs[0].0) && s[32..64] == Enc(outputs[0].1);
      assert s[64..] == EncodeOutputs(outputs[1..]);
      Widths();
      BigEndianOf(outputs[0].0, 32);
      BigEndianOf(outputs[0].1, 32);
      FindOutputFinds(outputs[1..], chainId);
    }
  }

  /** Any whole number of entries is the encoding of the pairs it holds. */
  lemma {:induction false} DecodeOutputs(s: seq<Byte>) returns (outputs: seq<(Word, Word)>)
    requires |s| % 64 == 0
    ensures EncodeOutputs(outputs) == s
    decreases |s|
  {
    if s == [] {
      outputs := [];
    } else {
      var rest := DecodeOutputs(s[64..]);
      Widths();
      BigEndianBounded(s[..32]);
      BigEndianBounded(s[32..64]);
      outputs := [(BigEndian(s[..32]), BigEndian(s[32..64]))] + rest;
      assert outputs[1..] == rest;
      assert s == s[..32] + s[32..64] + s[64..];
    }
  }

  lemma ClaimedOfSuperRoot(keccak: Keccak, chainId: U64, time: U64, outputs: seq<(Word, Word)>)
    ensures var extra := EncodeSuperRoot(time, outputs);
            Claimed(keccak, extra, SuperRoots, keccak(extra), chainId) ==
            match RootOf(outputs, chainId)
            case None => None
            case Some(root) => Some((Time(time), root as nat))
  {
    var extra := EncodeSuperRoot(time, outputs);
    assert extra[1..9] == ToBigEndian(time, 8);
    assert extra[9..] == EncodeOutputs(outputs);
    Widths();
    BigEndianOf(time, 8);
    FindOutputFinds(outputs, chainId);
  }

  lemma ClaimedSuperRoot(keccak: Keccak, extra: seq<Byte>, claim: Word, chainId: U64) returns (outputs: seq<(Word, Word)>)
    requires Claimed(keccak, extra, SuperRoots, claim, chainId).Some?
    ensures keccak(extra) == claim
    ensures Claimed(keccak, extra, SuperRoots, claim, chainId).value.0.Time?
    ensures extra == EncodeSuperRoot(Claimed(keccak, extra, SuperRoots, claim, chainId).value.0.time, outputs)
  {
    outputs := DecodeOutputs(extra[9..]);
    Widths();
    BigEndianBounded(extra[1..9]);
    assert extra == [extra[0]] + extra[1..9] + extra[9..];
  }

  /** The parser inverts the encoding, and accepts nothing but a preimage of the
      claim that encodes some super root. */
  lemma ClaimedInvertsSuperRoot(keccak: Keccak, extra: seq<Byte>, claim: Word, chainId: U64, time: U64, root: Word)
    ensures Claimed(keccak, extra, SuperRoots, claim, chainId) == Some((Time(time), root as nat)) <==>
            keccak(extra) == claim &&
            exists outputs :: extra == EncodeSuperRoot(time, outputs) && RootOf(outputs, chainId) == Some(root)
  {
    if Claimed(keccak, extra, SuperRoots, claim, chainId) == Some((Time(time), root as nat)) {
      var outputs := ClaimedSuperRoot(keccak, extra, claim, chainId);
      ClaimedOfSuperRoot(keccak, chainId, time, outputs);
    }
    forall outputs | extra == EncodeSuperRoot(time, outputs) && RootOf(outputs, chainId) == Some(root) && keccak(extra) == claim
      ensures Claimed(keccak, extra, SuperRoots, claim, chainId) == Some((Time(time), root as nat))
    {
      ClaimedOfSuperRoot(keccak, chainId, time, outputs);
    }
  }

  lemma {:induction false} OutputsInjective(a: seq<(Word, Word)>, b: seq<(Word, Word)>)
    requires EncodeOutputs(a) == EncodeOutputs(b)
    ensures a == b
  {
    if a != [] {
      var s := EncodeOutputs(a);
      assert s[..32] == Enc(a[0].0) == Enc(b[0].0);
      assert s[32..64] == Enc(a[0].1) == Enc(b[0].1);
      assert s[64..] == EncodeOutputs(a[1..]) == EncodeOutputs(b[1..]);
      Widths();
      BigEndianOf(a[0].0, 32);
      BigEndianOf(b[0].0, 32);
      BigEndianOf(a[0].1, 32);
      BigEndianOf(b[0].1, 32);
      OutputsInjective(a[1..], b[1..]);
      assert a == [a[0]] + a[1..] && b == [b[0]] + b[1..];
    }
  }

  /** Two super roots with the same preimage are the same. */
  lemma SuperRootInjective(time: U64, outputs: seq<(Word, Word)>, time': U64, outputs': seq<(Word, Word)>)
    requires EncodeSuperRoot(time, outputs) == EncodeSuperRoot(time', outputs')
    ensures time == time' && outputs == outputs'
  {
    var s := EncodeSuperRoot(time, outputs);
    assert s[1..9] == ToBigEndian(time, 8) == ToBigEndian(time', 8);
    assert s[9..] == EncodeOutputs(outputs) == EncodeOutputs(outputs');
    Widths();
    BigEndianOf(time, 8);
    BigEndianOf(time', 8);
    OutputsInjective(outputs, outputs');
  }
}
