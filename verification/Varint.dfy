/** Unsigned varints (Protocol Buffers encoding, "Base 128 Varints"): the strict
    codec that frames consensus payloads, and the writer and lenient reader of
    the op-stack discovery record. */
module Varint {
  import opened MachineIntegers
  import opened Wrappers

  datatype VarintError = Overflow | NotMinimal | AbsentOrTooLong

  /** What the standard prescribes: seven bits a byte, least significant group
      first, the high bit set on every byte but the last. */
  function Encode(v: nat): (s: seq<Byte>)
    ensures |s| >= 1
  {
    if v < 128 then [v] else [v % 128 + 128] + Encode(v / 128)
  }

  /** The number a group of bytes carries, continuation bits ignored. */
  function Payload(s: seq<Byte>): nat {
    if s == [] then 0 else s[0] % 128 + 128 * Payload(s[1..])
  }

  function Pow128(n: nat): (p: nat)
    ensures p >= 1
  {
    if n == 0 then 1 else 128 * Pow128(n - 1)
  }

  // ---------------------------------------------------------------- bit or

  function BitOr(a: nat, b: nat): nat
    decreases a + b
  {
    if a == 0 then b
    else if b == 0 then a
    else 2 * BitOr(a / 2, b / 2) + (if a % 2 == 1 || b % 2 == 1 then 1 else 0)
  }

  function Pow2(n: nat): (p: nat)
    ensures p >= 1
  {
    if n == 0 then 1 else 2 * Pow2(n - 1)
  }

  /** A byte's seven bits at their place in the number. */
  function Group(byte: Byte, index: nat): nat {
    (byte % 128) * Pow128(index)
  }

  /** Numbers that share no bit position are or-ed by adding them. */
  lemma {:induction false} BitOrAdds(a: nat, high: nat, k: nat)
    requires a < Pow2(k)
    ensures BitOr(a, high * Pow2(k)) == a + high * Pow2(k)
    decreases k
  {
    if k > 0 && a > 0 && high > 0 {
      var b := high * Pow2(k);
      assert b == 2 * (high * Pow2(k - 1));
      BitOrAdds(a / 2, high, k - 1);
    }
  }

  lemma {:induction false} Pow2Of7(n: nat)
    ensures Pow2(7 * n) == Pow128(n)
  {
    if n > 0 {
      Pow2Of7(n - 1);
      var k := 7 * (n - 1);
      assert Pow2(k + 7) == 2 * Pow2(k + 6) == 4 * Pow2(k + 5) == 8 * Pow2(k + 4);
      assert Pow2(k + 4) == 2 * Pow2(k + 3) == 4 * Pow2(k + 2) == 8 * Pow2(k + 1) == 16 * Pow2(k);
    }
  }

  /** `value |= group << (7 * index)` appends the group. */
  lemma OrGroup(value: nat, group: nat, index: nat)
    requires value < Pow128(index)
    ensures BitOr(value, group * Pow128(index)) == value + group * Pow128(index)
  {
    Pow2Of7(index);
    BitOrAdds(value, group, 7 * index);
  }

  /** `byte |= 0x80` on a seven-bit byte. */
  lemma OrContinuation(byte: nat)
    requires byte < 128
    ensures BitOr(byte, 0x80) == byte + 128
  {
    assert Pow2(7) == 128 by { Pow2Of7(1); }
    BitOrAdds(byte, 1, 7);
  }

  // ----------------------------------------------------------- strict codec

  method EncodeVarint(v: U64) returns (encoded: seq<Byte>)
    ensures encoded == Encode(v)
  {
    var value: nat := v;
    encoded := [];
    while true
      invariant encoded + Encode(value) == Encode(v)
      decreases value
    {
      var byte: nat := value % 128;
      ghost var before := value;
      value := value / 128;
      if value != 0 {
        OrContinuation(byte);
        byte := BitOr(byte, 0x80);
      }
      assert encoded + Encode(before) == if value == 0 then encoded + [byte] else encoded + [byte] + Encode(value);
      encoded := encoded + [byte];
      if value == 0 {
        return;
      }
    }
  }

  function DecodeFrom(bytes: seq<Byte>, index: nat, value: nat): Result<(nat, nat), VarintError>
    requires index <= |bytes| && index <= 10
    decreases 10 - index
  {
    if index == |bytes| || index == 10 then Err(AbsentOrTooLong)
    else
      var byte := bytes[index];
      if index == 9 && byte > 1 then Err(Overflow)
      else
        var value := BitOr(value, Group(byte, index));
        if byte < 128 then
          if |Encode(value)| != index + 1 then Err(NotMinimal) else Ok((value, index + 1))
        else DecodeFrom(bytes, index + 1, value)
  }

  function Decode(bytes: seq<Byte>): Result<(nat, nat), VarintError> {
    DecodeFrom(bytes, 0, 0)
  }

  method DecodeVarint(bytes: seq<Byte>) returns (r: Result<(nat, nat), VarintError>)
    ensures r == Decode(bytes)
  {
    var value: nat := 0;
    var index := 0;
    while index < |bytes| && index < 10
      invariant 0 <= index <= |bytes| && index <= 10
      invariant Decode(bytes) == DecodeFrom(bytes, index, value)
    {
      var byte := bytes[index];
      if index == 9 && byte > 1 {
        return Err(Overflow);
      }
      value := BitOr(value, Group(byte, index));
      if byte < 128 {
        var consumed := index + 1;
        var minimal := Encode(value);
        if |minimal| != consumed {
          return Err(NotMinimal);
        }
        return Ok((value, consumed));
      }
      index := index + 1;
    }
    return Err(AbsentOrTooLong);
  }

  // -------------------------------------------------------------- arithmetic

  lemma {:induction false} PayloadAppend(s: seq<Byte>, b: Byte)
    ensures Payload(s + [b]) == Payload(s) + (b % 128) * Pow128(|s|)
    ensures Payload(s) < Pow128(|s|)
    decreases |s|
  {
    if s == [] {
      assert s + [b] == [b];
      assert [b][1..] == [];
      assert Payload([b]) == b % 128 + 128 * Payload([]);
    } else {
      PayloadAppend(s[1..], b);
      assert (s + [b])[1..] == s[1..] + [b];
      var m, p := (b % 128) as int, Pow128(|s| - 1);
      assert m * (128 * p) == 128 * (m * p);
    }
  }

  lemma {:induction false} EncodedPayload(v: nat)
    ensures Payload(Encode(v)) == v
    ensures forall k :: 0 <= k < |Encode(v)| - 1 ==> Encode(v)[k] >= 128
    ensures Encode(v)[|Encode(v)| - 1] < 128
    decreases v
  {
    if v >= 128 {
      EncodedPayload(v / 128);
      assert Encode(v)[1..] == Encode(v / 128);
    } else {
      assert [v as Byte][1..] == [];
      assert Payload([v as Byte]) == v % 128 + 128 * Payload([]);
    }
  }

  /** An encoding is `n` bytes long exactly when the number has `n` groups. */
  lemma {:induction false} EncodedLength(v: nat, n: nat)
    requires n >= 1
    ensures |Encode(v)| <= n <==> v < Pow128(n)
    decreases n
  {
    if v < 128 {
      assert Pow128(n) == 128 * Pow128(n - 1);
    } else if n == 1 {
      assert Pow128(1) == 128 * Pow128(0);
    } else {
      EncodedLength(v / 128, n - 1);
    }
  }

  /** Every minimal group of bytes is the encoding of what it carries. */
  lemma {:induction false} MinimalIsEncoding(s: seq<Byte>)
    requires |s| >= 1 && s[|s| - 1] < 128
    requires forall k :: 0 <= k < |s| - 1 ==> s[k] >= 128
    ensures |Encode(Payload(s))| <= |s|
    ensures |Encode(Payload(s))| == |s| ==> Encode(Payload(s)) == s
    decreases |s|
  {
    if |s| == 1 {
      assert s[1..] == [];
      assert Payload(s) == s[0] % 128 + 128 * Payload([]);
      assert s == [s[0]];
    } else {
      MinimalIsEncoding(s[1..]);
      assert s == [s[0]] + s[1..];
    }
  }

  lemma U64Bounds()
    ensures Pow128(9) == 0x8000_0000_0000_0000 && 2 * Pow128(9) == U64_MAX + 1
    ensures Pow128(10) == 64 * (U64_MAX + 1)
  {
    assert Pow128(3) == 0x20_0000 by { assert Pow128(2) == 0x4000 by { assert Pow128(1) == 128; } }
    assert Pow128(6) == 0x20_0000 * Pow128(3) by {
      assert Pow128(6) == 128 * Pow128(5) && Pow128(5) == 128 * Pow128(4) && Pow128(4) == 128 * Pow128(3);
    }
    assert Pow128(9) == 0x20_0000 * Pow128(6) by {
      assert Pow128(9) == 128 * Pow128(8) && Pow128(8) == 128 * Pow128(7) && Pow128(7) == 128 * Pow128(6);
    }
  }

  // ------------------------------------------------------------ main results

  /** Or-ing the next group in is appending the next byte. */
  lemma AppendGroup(prefix: seq<Byte>, byte: Byte)
    ensures BitOr(Payload(prefix), Group(byte, |prefix|)) == Payload(prefix + [byte])
  {
    PayloadAppend(prefix, byte);
    OrGroup(Payload(prefix), byte % 128, |prefix|);
  }

  /** The reader's bound on the tenth byte is exactly the 64-bit bound. */
  lemma FitsU64(s: seq<Byte>)
    requires 1 <= |s| <= 10
    ensures |s| < 10 ==> Payload(s) <= U64_MAX
    ensures |s| == 10 && s[9] < 128 ==> (Payload(s) <= U64_MAX <==> s[9] <= 1)
  {
    U64Bounds();
    PayloadAppend(s, 0);
    PowMonotone(|s|, if |s| < 10 then 9 else 10);
    if |s| == 10 && s[9] < 128 {
      assert s == s[..9] + [s[9]];
      PayloadAppend(s[..9], s[9]);
      GroupBound(s[9]);
    }
  }

  lemma GroupBound(b: nat)
    ensures b <= 1 ==> b * Pow128(9) <= Pow128(9)
    ensures b >= 2 ==> b * Pow128(9) >= U64_MAX + 1
  {
    U64Bounds();
    var p: nat := Pow128(9);
    assert b >= 2 ==> b * p >= 2 * p;
  }

  lemma {:induction false} PowMonotone(m: nat, n: nat)
    requires m <= n
    ensures Pow128(m) <= Pow128(n)
    decreases n - m
  {
    if m < n {
      PowMonotone(m, n - 1);
    }
  }

  /** One step of decoding, from what the bytes before it carry. */
  lemma DecodeStep(bytes: seq<Byte>, index: nat)
    requires index < |bytes| && index < 10 && !(index == 9 && bytes[index] > 1)
    ensures var value := Payload(bytes[..index + 1]);
            DecodeFrom(bytes, index, Payload(bytes[..index])) ==
            if bytes[index] >= 128 then DecodeFrom(bytes, index + 1, value)
            else if |Encode(value)| != index + 1 then Err(NotMinimal) else Ok((value, index + 1))
  {
    assert bytes[..index + 1] == bytes[..index] + [bytes[index]];
    AppendGroup(bytes[..index], bytes[index]);
  }

  /** What decoding from an intermediate state accepts. */
  lemma {:induction false} DecodeFromSound(bytes: seq<Byte>, index: nat)
    requires index <= |bytes| && index <= 10
    requires forall k :: 0 <= k < index ==> bytes[k] >= 128
    ensures var r := DecodeFrom(bytes, index, Payload(bytes[..index]));
            r.Ok? ==> var (v, n) := r.value;
                      v <= U64_MAX && 1 <= n <= 10 && n <= |bytes| && bytes[..n] == Encode(v)
    decreases 10 - index
  {
    if index < |bytes| && index < 10 && !(index == 9 && bytes[index] > 1) {
      DecodeStep(bytes, index);
      if bytes[index] < 128 {
        MinimalIsEncoding(bytes[..index + 1]);
        FitsU64(bytes[..index + 1]);
      } else {
        DecodeFromSound(bytes, index + 1);
      }
    }
  }

  /** A byte of an encoding is not refused, and only its last one ends it. */
  lemma EncodedByte(v: U64, index: nat)
    requires index < |Encode(v)| <= 10
    ensures !(index == 9 && Encode(v)[index] > 1)
    ensures Encode(v)[index] < 128 <==> index == |Encode(v)| - 1
  {
    EncodedPayload(v);
    if index == 9 {
      FitsU64(Encode(v));
    }
  }

  lemma {:induction false} DecodeFromComplete(v: U64, bytes: seq<Byte>, index: nat)
    requires Encode(v) <= bytes && index < |Encode(v)| <= 10
    ensures DecodeFrom(bytes, index, Payload(bytes[..index])) == Ok((v as nat, |Encode(v)|))
    decreases 10 - index
  {
    EncodedByte(v, index);
    DecodeStep(bytes, index);
    if index == |Encode(v)| - 1 {
      assert bytes[..index + 1] == Encode(v);
      EncodedPayload(v);
    } else {
      DecodeFromComplete(v, bytes, index + 1);
    }
  }

  lemma EncodingLengths(v: U64)
    ensures 1 <= |Encode(v)| <= 10
  {
    U64Bounds();
    EncodedLength(v, 10);
  }

  /** The strict codec is a bijection on 64-bit numbers: the reader accepts a
      string exactly when it starts with the encoding of a 64-bit number, and
      then it returns that number and the length of that encoding. */
  lemma DecodeIsStrictInverse(bytes: seq<Byte>, v: nat, n: nat)
    ensures Decode(bytes) == Ok((v, n)) <==>
            v <= U64_MAX && n == |Encode(v)| && Encode(v) <= bytes
  {
    assert bytes[..0] == [];
    if Decode(bytes) == Ok((v, n)) {
      DecodeFromSound(bytes, 0);
    }
    if v <= U64_MAX && n == |Encode(v)| && Encode(v) <= bytes {
      EncodingLengths(v);
      DecodeFromComplete(v, bytes, 0);
    }
  }

  lemma RoundTrip(v: U64, rest: seq<Byte>)
    ensures Decode(Encode(v) + rest) == Ok((v as nat, |Encode(v)|))
    ensures 1 <= |Encode(v)| <= 10
  {
    DecodeIsStrictInverse(Encode(v) + rest, v, |Encode(v)|);
    EncodingLengths(v);
  }

  /** No encoding is a proper prefix of another, so a concatenation of
      encodings splits in one way only. */
  lemma PrefixFree(v: U64, w: U64, a: seq<Byte>, b: seq<Byte>)
    requires Encode(v) + a == Encode(w) + b
    ensures v == w && a == b
  {
    RoundTrip(v, a);
    RoundTrip(w, b);
    assert a == (Encode(v) + a)[|Encode(v)|..];
    assert b == (Encode(w) + b)[|Encode(w)|..];
  }

  // -------------------------------------------------- discovery record entry

  /** The writer of a record's `opstack` entry: the chain id, then version 0. */
  method WriteChainEntry(chainId: U64) returns (chain: seq<Byte>)
    ensures chain == Encode(chainId) + Encode(0)
  {
    chain := [];
    var values: seq<nat> := [chainId, 0];
    for i := 0 to 2
      invariant i == 0 ==> chain == []
      invariant i == 1 ==> chain == Encode(chainId)
      invariant i == 2 ==> chain == Encode(chainId) + Encode(0)
    {
      var value := values[i];
      ghost var written := chain;
      while true
        invariant chain + Encode(value) == written + Encode(values[i])
        decreases value
      {
        var byte: nat := value % 128;
        ghost var before := value;
        value := value / 128;
        if value == 0 {
          chain := chain + [byte];
          break;
        }
        OrContinuation(byte);
        assert chain + Encode(before) == chain + [byte + 128] + Encode(value);
        chain := chain + [BitOr(byte, 0x80)];
      }
    }
  }

  /** The lenient reader: a left shift of a 64-bit number drops the bits past
      its width, and neither overflow nor padding is refused. */
  function DecodeLenientFrom(bytes: seq<Byte>, index: nat, value: nat): Option<nat>
    requires index <= |bytes| && index <= 10
    decreases 10 - index
  {
    if index == |bytes| || index == 10 then None
    else
      var byte := bytes[index];
      var value := BitOr(value, Group(byte, index) % (U64_MAX + 1));
      if byte < 128 then Some(value) else DecodeLenientFrom(bytes, index + 1, value)
  }

  method ReadChainEntry(bytes: seq<Byte>) returns (r: Option<nat>)
    ensures r == DecodeLenientFrom(bytes, 0, 0)
  {
    var chainId: nat := 0;
    var index := 0;
    while index < |bytes| && index < 10
      invariant 0 <= index <= |bytes| && index <= 10
      invariant DecodeLenientFrom(bytes, 0, 0) == DecodeLenientFrom(bytes, index, chainId)
    {
      var byte := bytes[index];
      chainId := BitOr(chainId, Group(byte, index) % (U64_MAX + 1));
      if byte < 128 {
        return Some(chainId);
      }
      index := index + 1;
    }
    return None;
  }

  /** No bit of an accepted group is shifted out of the 64-bit number. */
  lemma GroupKept(byte: Byte, index: nat)
    requires index < 9 || (index == 9 && byte <= 1)
    ensures Group(byte, index) % (U64_MAX + 1) == Group(byte, index)
  {
    U64Bounds();
    PowMonotone(index + 1, if index < 9 then 9 else 10);
    var m, p := (byte % 128) as int, Pow128(index);
    assert m * p <= 127 * p;
    if index == 9 {
      GroupBound(byte);
    }
  }

  lemma {:induction false} LenientAgreesFrom(bytes: seq<Byte>, index: nat, value: nat)
    requires index <= |bytes| && index <= 10
    requires DecodeFrom(bytes, index, value).Ok?
    ensures DecodeLenientFrom(bytes, index, value) == Some(DecodeFrom(bytes, index, value).value.0)
    decreases 10 - index
  {
    var byte := bytes[index];
    GroupKept(byte, index);
    if byte >= 128 {
      LenientAgreesFrom(bytes, index + 1, BitOr(value, Group(byte, index)));
    }
  }

  /** The lenient reader returns the strict reader's number wherever the strict
      reader accepts, hence reads back what the record's writer wrote. */
  lemma LenientAgrees(bytes: seq<Byte>)
    ensures Decode(bytes).Ok? ==> DecodeLenientFrom(bytes, 0, 0) == Some(Decode(bytes).value.0)
  {
    if Decode(bytes).Ok? {
      LenientAgreesFrom(bytes, 0, 0);
    }
  }

  lemma ChainEntryReadsBack(chainId: U64)
    ensures DecodeLenientFrom(Encode(chainId) + Encode(0), 0, 0) == Some(chainId as nat)
  {
    RoundTrip(chainId, Encode(0));
    LenientAgrees(Encode(chainId) + Encode(0));
  }

  lemma ModuloU64(a: int, k: int)
    requires 0 <= a <= U64_MAX
    ensures (a + k * (U64_MAX + 1)) % (U64_MAX + 1) == a
  {
  }

  /** A tenth group keeps only its lowest bit. */
  lemma TenthGroupBit(byte: Byte)
    requires byte < 128
    ensures byte * Pow128(9) == (byte % 2) * Pow128(9) + (byte / 2) * (U64_MAX + 1)
    ensures Group(byte, 9) % (U64_MAX + 1) == (byte % 2) * Pow128(9)
  {
    U64Bounds();
    assert byte * Pow128(9) == (byte % 2) * Pow128(9) + (byte / 2) * (U64_MAX + 1);
    ModuloU64((byte % 2) * Pow128(9), byte / 2);
  }

  lemma TenthOr(value: nat, byte: Byte)
    requires value < Pow128(9) && byte < 128
    ensures BitOr(value, Group(byte, 9) % (U64_MAX + 1)) == (value + byte * Pow128(9)) % (U64_MAX + 1)
  {
    TenthGroupBit(byte);
    OrGroup(value, byte % 2, 9);
    var low := (byte % 2) * Pow128(9);
    assert value + low <= U64_MAX by {
      U64Bounds();
    }
    ModuloU64(value + low, byte / 2);
  }

  /** Before the tenth byte nothing is shifted out. */
  lemma LenientStep(bytes: seq<Byte>, index: nat)
    requires index < |bytes| && index < 9
    ensures var value := Payload(bytes[..index + 1]);
            && value <= U64_MAX
            && DecodeLenientFrom(bytes, index, Payload(bytes[..index])) ==
               if bytes[index] < 128 then Some(value) else DecodeLenientFrom(bytes, index + 1, value)
  {
    assert bytes[..index + 1] == bytes[..index] + [bytes[index]];
    GroupKept(bytes[index], index);
    AppendGroup(bytes[..index], bytes[index]);
    FitsU64(bytes[..index + 1]);
  }

  lemma LenientLast(bytes: seq<Byte>, index: nat, value: nat)
    requires index < |bytes| && index < 10 && bytes[index] < 128
    ensures DecodeLenientFrom(bytes, index, value) == Some(BitOr(value, Group(bytes[index], index) % (U64_MAX + 1)))
  {
  }

  lemma TenPayload(bytes: seq<Byte>)
    requires 9 < |bytes| && bytes[9] < 128
    ensures Payload(bytes[..9]) < Pow128(9)
    ensures Payload(bytes[..10]) == Payload(bytes[..9]) + bytes[9] * Pow128(9)
  {
    assert bytes[..10] == bytes[..9] + [bytes[9]];
    PayloadAppend(bytes[..9], bytes[9]);
  }

  lemma LenientTenth(bytes: seq<Byte>)
    requires 9 < |bytes| && bytes[9] < 128
    ensures DecodeLenientFrom(bytes, 9, Payload(bytes[..9])) == Some(Payload(bytes[..10]) % (U64_MAX + 1))
  {
    TenPayload(bytes);
    LenientLast(bytes, 9, Payload(bytes[..9]));
    TenthOr(Payload(bytes[..9]), bytes[9]);
  }

  /** The first byte without a continuation bit is the `n`-th, within the first ten. */
  predicate EndsAt(bytes: seq<Byte>, n: nat) {
    n < |bytes| && n < 10 && bytes[n] < 128 && forall k | 0 <= k < n :: bytes[k] >= 128
  }

  lemma {:induction false} LenientFrom(bytes: seq<Byte>, index: nat, n: nat)
    requires EndsAt(bytes, n) && index <= n < 9
    ensures DecodeLenientFrom(bytes, index, Payload(bytes[..index])) == Some(Payload(bytes[..n + 1]))
    ensures Payload(bytes[..n + 1]) <= U64_MAX
    decreases n - index
  {
    LenientStep(bytes, index);
    if index < n {
      LenientFrom(bytes, index + 1, n);
    }
  }

  lemma {:induction false} LenientUpToTenth(bytes: seq<Byte>, index: nat)
    requires index <= 9 < |bytes| && forall k | 0 <= k < 9 :: bytes[k] >= 128
    ensures DecodeLenientFrom(bytes, index, Payload(bytes[..index])) == DecodeLenientFrom(bytes, 9, Payload(bytes[..9]))
    decreases 9 - index
  {
    if index < 9 {
      LenientStep(bytes, index);
      LenientUpToTenth(bytes, index + 1);
    }
  }

  lemma {:induction false} LenientEnds(bytes: seq<Byte>, index: nat, value: nat)
    requires index <= |bytes| && index <= 10
    requires forall k | 0 <= k < index :: bytes[k] >= 128
    ensures DecodeLenientFrom(bytes, index, value).Some? ==> exists n :: EndsAt(bytes, n)
    decreases 10 - index
  {
    if index < |bytes| && index < 10 {
      if bytes[index] < 128 {
        assert EndsAt(bytes, index);
      } else {
        LenientEnds(bytes, index + 1, BitOr(value, Group(bytes[index], index) % (U64_MAX + 1)));
      }
    }
  }

  lemma LenientAt(bytes: seq<Byte>, n: nat)
    requires EndsAt(bytes, n)
    ensures DecodeLenientFrom(bytes, 0, 0) == Some(Payload(bytes[..n + 1]) % (U64_MAX + 1))
  {
    assert Payload(bytes[..0]) == 0;
    if n < 9 {
      LenientFrom(bytes, 0, n);
      ModuloU64(Payload(bytes[..n + 1]), 0);
    } else {
      LenientUpToTenth(bytes, 0);
      LenientTenth(bytes);
    }
  }

  /** Every input reads as what its groups carry, padding and excess bits included,
      modulo 2 to the 64th, up to the first byte without a continuation bit; it
      is refused exactly when none of the first ten lacks it. */
  lemma LenientReadsPayload(bytes: seq<Byte>)
    ensures DecodeLenientFrom(bytes, 0, 0).Some? <==> exists n :: EndsAt(bytes, n)
    ensures forall n | EndsAt(bytes, n) ::
              DecodeLenientFrom(bytes, 0, 0) == Some(Payload(bytes[..n + 1]) % (U64_MAX + 1))
  {
    forall n | EndsAt(bytes, n)
      ensures DecodeLenientFrom(bytes, 0, 0) == Some(Payload(bytes[..n + 1]) % (U64_MAX + 1))
    {
      LenientAt(bytes, n);
    }
    LenientEnds(bytes, 0, 0);
  }
}
