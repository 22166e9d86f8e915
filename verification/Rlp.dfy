/** RLP written straight into a hasher, and the block header that is hashed this way. */
module Rlp {
  import opened Numbers

  /** Bytes in a usize: 4 on the prover, 8 on the sequencer. */
  type UsizeBytes = n: nat | 4 <= n <= 8 witness 8

  const ADDRESS_ENCODING_LEN: nat := 21

  // Widths of big-endian numbers, 8 and 32 bytes; kept as names so that the byte strings stay folded.
  type WordWidth = x: nat | 7 < x < 9 witness 8
  type WideWidth = x: nat | 31 < x < 33 witness 32
  const U64_BYTES: WordWidth
  const U256_BYTES: WideWidth

  // ----- the encoding of Appendix B of the Ethereum Yellow Paper

  /** The shortest big-endian form of a number; zero is the empty string. */
  function MinimalBE(x: nat): (r: seq<byte>)
  {
    if x == 0 then [] else MinimalBE(x / 256) + [x % 256]
  }

  /** The prefix of a string (offset 128) or list (offset 192). */
  function EncodeLength(length: u64, offset: nat): (r: seq<byte>)
    requires offset == 128 || offset == 192
  {
    if length < 56 then [offset + length]
    else
      LengthOfLength(length);
      [offset + 55 + |MinimalBE(length)|] + MinimalBE(length)
  }

  function EncodeBytes(v: seq<byte>): seq<byte>
    requires |v| <= U64_MAX
  {
    if |v| == 1 && v[0] < 128 then v else EncodeLength(|v|, 128) + v
  }

  // ----- decoding

  /** A length prefix with the given offset: the length and what follows. */
  function DecodeLength(s: seq<byte>, offset: nat): Option<(nat, seq<byte>)>
    requires offset == 128 || offset == 192
  {
    if s == [] || s[0] < offset || s[0] >= offset + 64 then None
    else if s[0] < offset + 56 then Some((s[0] - offset, s[1..]))
    else
      var k := s[0] - offset - 55;
      if |s| < 1 + k then None else Some((FromBE(s[1..1 + k]), s[1 + k..]))
  }

  /** One string and what follows it. */
  function DecodeBytes(s: seq<byte>): Option<(seq<byte>, seq<byte>)>
  {
    if s != [] && s[0] < 128 then Some(([s[0]], s[1..]))
    else
      var header := DecodeLength(s, 128);
      if header.None? || |header.value.1| < header.value.0 then None
      else Some((header.value.1[..header.value.0], header.value.1[header.value.0..]))
  }

  // ----- minimal big-endian strings

  lemma {:induction false} MinimalValue(x: nat)
    ensures FromBE(MinimalBE(x)) == x
  {
    if x > 0 {
      MinimalValue(x / 256);
      assert MinimalBE(x)[..|MinimalBE(x)| - 1] == MinimalBE(x / 256);
    }
  }

  lemma {:induction false} MinimalLength(x: nat, width: nat)
    requires x < Pow256(width)
    ensures |MinimalBE(x)| <= width
  {
    if x > 0 {
      MinimalLength(x / 256, width - 1);
    }
  }

  lemma LengthOfLength(length: u64)
    ensures |MinimalBE(length)| <= 8
    ensures length > 0 ==> |MinimalBE(length)| >= 1
  {
    Pow256Values();
    MinimalLength(length, 8);
  }

  /** What `position` of the first non-zero byte and the slice behind it leave. */
  function StripZeros(v: seq<byte>): (r: seq<byte>)
    ensures |r| <= |v|
  {
    if v != [] && v[0] == 0 then StripZeros(v[1..]) else v
  }

  lemma {:induction false} StripAppend(v: seq<byte>, b: byte)
    ensures StripZeros(v + [b]) == if StripZeros(v) == [] && b == 0 then [] else StripZeros(v) + [b]
  {
    if v == [] {
      assert v + [b] == [b];
      assert [b][1..] == [];
    } else if v[0] == 0 {
      StripAppend(v[1..], b);
      assert (v + [b])[1..] == v[1..] + [b];
    }
  }

  /** The code's way to the minimal form: fixed width, then leading zeros off. */
  lemma {:induction false} StripIsMinimal(x: nat, width: nat)
    requires x < Pow256(width)
    ensures StripZeros(ToBE(x, width)) == MinimalBE(x)
  {
    if width > 0 {
      StripIsMinimal(x / 256, width - 1);
      StripAppend(ToBE(x / 256, width - 1), x % 256);
      EmptyMinimal(x / 256);
    }
  }

  lemma EmptyMinimal(x: nat)
    ensures MinimalBE(x) == [] <==> x == 0
  {
  }

  // ----- round trips

  lemma DecodeEncodedLength(length: u64, offset: nat, rest: seq<byte>)
    requires offset == 128 || offset == 192
    ensures DecodeLength(EncodeLength(length, offset) + rest, offset) == Some((length, rest))
  {
    var s := EncodeLength(length, offset) + rest;
    if length < 56 {
      assert s[1..] == rest;
    } else {
      var bytes := MinimalBE(length);
      LengthOfLength(length);
      MinimalValue(length);
      assert s[1..1 + |bytes|] == bytes && s[1 + |bytes|..] == rest;
    }
  }

  /** Decoding inverts encoding, whatever follows: the encoding is prefix-free and injective. */
  lemma DecodeEncoded(v: seq<byte>, rest: seq<byte>)
    requires |v| <= U64_MAX
    ensures DecodeBytes(EncodeBytes(v) + rest) == Some((v, rest))
  {
    if |v| == 1 && v[0] < 128 {
      assert (v + rest)[1..] == rest && v == [v[0]];
    } else {
      DecodePrefixed(EncodeLength(|v|, 128), v, rest);
    }
  }

  lemma DecodePrefixed(prefix: seq<byte>, v: seq<byte>, rest: seq<byte>)
    requires |v| <= U64_MAX && prefix == EncodeLength(|v|, 128)
    ensures DecodeBytes(prefix + v + rest) == Some((v, rest))
  {
    var s, tail := prefix + v + rest, v + rest;
    DecodeEncodedLength(|v|, 128, tail);
    assert s == prefix + tail && s[0] == prefix[0] >= 128;
    assert tail[..|v|] == v && tail[|v|..] == rest;
  }

  // ----- estimates

  function EstimateLengthEncodingLen(length: u64, n: UsizeBytes): (r: nat)
    requires length < Pow256(n)
    ensures r == |EncodeLength(length, 128)| == |EncodeLength(length, 192)|
  {
    if length < 56 then 1
    else
      StripIsMinimal(length, n);
      var nonZeroByte := n - |StripZeros(ToBE(length, n))|;
      1 + n - nonZeroByte
  }

  function EstimateBytesEncodingLen(value: seq<byte>, n: UsizeBytes): (r: nat)
    requires |value| <= U64_MAX && |value| < Pow256(n)
    ensures r == |EncodeBytes(value)|
  {
    if |value| == 1 && value[0] < 128 then 1 else EstimateLengthEncodingLen(|value|, n) + |value|
  }

  /** For a number given as `width` big-endian bytes. */
  function EstimateNumberEncodingLen(x: nat, width: nat, n: UsizeBytes): (r: nat)
    requires x < Pow256(width) && width <= U64_MAX && width < Pow256(n)
    ensures |MinimalBE(x)| <= U64_MAX && r == |EncodeBytes(MinimalBE(x))|
  {
    StripIsMinimal(x, width);
    EstimateBytesEncodingLen(StripZeros(ToBE(x, width)), n)
  }

  /** The position of the highest set bit, counted from one. */
  function BitLength(x: nat): nat { if x == 0 then 0 else 1 + BitLength(x / 2) }

  /** `leading_zeros` of a number of n bytes. */
  function LeadingZeros(x: nat, n: nat): int { 8 * n - BitLength(x) }

  lemma {:induction false} BitLengthShr(x: nat, k: nat)
    ensures BitLength(x) == if x < Pow2(k) then BitLength(x) else k + BitLength(Shr(x, k))
    ensures x < Pow2(k) ==> BitLength(x) <= k
  {
    if k > 0 && x > 0 {
      BitLengthShr(x / 2, k - 1);
    }
  }

  /** The length of the shortest form is the number of bytes the bits reach into. */
  lemma {:induction false} MinimalLengthIs(x: nat)
    ensures |MinimalBE(x)| == (BitLength(x) + 7) / 8
  {
    if x > 0 {
      assert Pow2(4) == 16 && Pow2(8) == 256;
      BitLengthShr(x, 8);
      ShrByte(x, 8);
      MinimalLengthIs(x / 256);
    }
  }

  lemma WholeZeroBytes(x: nat, n: nat)
    requires x < Pow256(n)
    ensures LeadingZeros(x, n) / 8 == n - |MinimalBE(x)|
  {
    MinimalLengthIs(x);
    MinimalLength(x, n);
  }

  /** Counting zero bits instead of zero bytes; the result is the same prefix length. */
  function EstimateEncodingLenForPayloadLength(payloadLen: u64, n: UsizeBytes): (r: nat)
    requires payloadLen < Pow256(n)
    ensures r == |EncodeLength(payloadLen, 192)|
  {
    WholeZeroBytes(payloadLen, n);
    MinimalLength(payloadLen, n);
    if payloadLen <= 55 then 1 else 1 + n - LeadingZeros(payloadLen, n) / 8
  }

  // ----- writing into the hasher

  lemma Concat3(a: seq<byte>, b: seq<byte>, c: seq<byte>)
    ensures a + b + c == a + (b + c)
  {
  }

  class Hasher {
    /** Everything fed into the hash function so far. */
    var absorbed: seq<byte>

    constructor ()
      ensures absorbed == []
    {
      absorbed := [];
    }

    method Update(bytes: seq<byte>)
      modifies this
      ensures absorbed == old(absorbed) + bytes
    {
      absorbed := absorbed + bytes;
    }
  }

  method ApplyLengthEncoding(length: u64, offset: nat, hasher: Hasher, n: UsizeBytes)
    requires (offset == 128 || offset == 192) && length < Pow256(n)
    modifies hasher
    ensures hasher.absorbed == old(hasher.absorbed) + EncodeLength(length, offset)
  {
    if length < 56 {
      hasher.Update([offset + length]);
    } else {
      StripIsMinimal(length, n);
      LengthOfLength(length);
      var bytes := StripZeros(ToBE(length, n));
      var prefix: seq<byte> := [offset + 55 + |bytes|];
      ghost var before := hasher.absorbed;
      hasher.Update(prefix);
      hasher.Update(bytes);
      Concat3(before, prefix, bytes);
    }
  }

  method ApplyBytesEncoding(value: seq<byte>, hasher: Hasher, n: UsizeBytes)
    requires |value| <= U64_MAX && |value| < Pow256(n)
    modifies hasher
    ensures hasher.absorbed == old(hasher.absorbed) + EncodeBytes(value)
  {
    if |value| == 1 && value[0] < 128 {
      hasher.Update(value);
      return;
    }
    ghost var before := hasher.absorbed;
    ApplyLengthEncoding(|value|, 128, hasher, n);
    hasher.Update(value);
    Concat3(before, EncodeLength(|value|, 128), value);
  }

  method ApplyNumberEncoding(x: nat, width: nat, hasher: Hasher, n: UsizeBytes)
    requires x < Pow256(width) && width <= U64_MAX && width < Pow256(n)
    modifies hasher
    ensures |MinimalBE(x)| <= U64_MAX && hasher.absorbed == old(hasher.absorbed) + EncodeBytes(MinimalBE(x))
  {
    StripIsMinimal(x, width);
    ApplyBytesEncoding(StripZeros(ToBE(x, width)), hasher, n);
  }

  // ----- lists of strings

  type Item = s: seq<byte> | |s| <= 256

  /** The encodings of the first k strings, one behind the other. */
  ghost function Join(f: Item -> seq<byte>, items: seq<Item>, k: nat): seq<byte>
    requires k <= |items|
  {
    if k == 0 then [] else Join(f, items, k - 1) + f(items[k - 1])
  }

  /** Reads k strings off the front. */
  ghost function Split(g: seq<byte> -> Option<(seq<byte>, seq<byte>)>, s: seq<byte>, k: nat)
    : Option<(seq<seq<byte>>, seq<byte>)>
  {
    if k == 0 then Some(([], s))
    else
      var init := Split(g, s, k - 1);
      if init.None? then None
      else
        var last := g(init.value.1);
        if last.None? then None else Some((init.value.0 + [last.value.0], last.value.1))
  }

  /** A reader of single strings reads lists of them, whatever the encoding. */
  lemma {:induction false} SplitJoin(f: Item -> seq<byte>, g: seq<byte> -> Option<(seq<byte>, seq<byte>)>,
                                     items: seq<Item>, k: nat, rest: seq<byte>)
    requires k <= |items| && forall v: Item, tail :: g(f(v) + tail) == Some((v, tail))
    ensures Split(g, Join(f, items, k) + rest, k) == Some((items[..k], rest))
  {
    if k == 0 {
      assert Join(f, items, k) + rest == rest;
    } else {
      var first, item := Join(f, items, k - 1), f(items[k - 1]);
      assert first + item + rest == first + (item + rest);
      SplitJoin(f, g, items, k - 1, item + rest);
      assert items[..k] == items[..k - 1] + [items[k - 1]];
    }
  }

  lemma {:induction false} JoinBound(f: Item -> seq<byte>, items: seq<Item>, k: nat)
    requires k <= |items| && forall v: Item :: |f(v)| <= 265
    ensures |Join(f, items, k)| <= 265 * k
  {
    if k > 0 {
      JoinBound(f, items, k - 1);
    }
  }

  const ENCODE: Item -> seq<byte> := v => EncodeBytes(v)
  const DECODE: seq<byte> -> Option<(seq<byte>, seq<byte>)> := s => DecodeBytes(s)

  ghost function EncodeFirst(items: seq<Item>, k: nat): seq<byte>
    requires k <= |items|
  {
    Join(ENCODE, items, k)
  }

  ghost function DecodeItems(s: seq<byte>, k: nat): Option<(seq<seq<byte>>, seq<byte>)> { Split(DECODE, s, k) }

  lemma EncodeNext(items: seq<Item>, k: nat)
    requires k < |items|
    ensures EncodeFirst(items, k + 1) == EncodeFirst(items, k) + EncodeBytes(items[k])
  {
  }

  ghost function EncodeItems(items: seq<Item>): seq<byte> { EncodeFirst(items, |items|) }

  ghost function EncodeList(items: seq<Item>): seq<byte>
    requires |items| <= 0x1000
  {
    EncodeFirstBound(items, |items|);
    EncodeLength(|EncodeItems(items)|, 192) + EncodeItems(items)
  }

  lemma EncodeFirstBound(items: seq<Item>, k: nat)
    requires k <= |items|
    ensures |EncodeFirst(items, k)| <= 265 * k
  {
    forall v: Item ensures |ENCODE(v)| <= 265 {
      LengthOfLength(|v|);
    }
    JoinBound(ENCODE, items, k);
  }

  lemma DecodeEncodedItems(items: seq<Item>, k: nat, rest: seq<byte>)
    requires k <= |items|
    ensures DecodeItems(EncodeFirst(items, k) + rest, k) == Some((items[..k], rest))
  {
    forall v: Item, tail ensures DECODE(ENCODE(v) + tail) == Some((v, tail)) {
      DecodeEncoded(v, tail);
    }
    SplitJoin(ENCODE, DECODE, items, k, rest);
  }

  lemma EncodeItemsInjective(a: seq<Item>, b: seq<Item>)
    requires |a| == |b| && EncodeItems(a) == EncodeItems(b)
    ensures a == b
  {
    DecodeEncodedItems(a, |a|, []);
    DecodeEncodedItems(b, |b|, []);
    assert a[..|a|] == a && b[..|b|] == b;
  }

  lemma EncodeListInjective(a: seq<Item>, b: seq<Item>)
    requires |a| == |b| <= 0x1000 && EncodeList(a) == EncodeList(b)
    ensures a == b
  {
    EncodeFirstBound(a, |a|);
    EncodeFirstBound(b, |b|);
    DecodeEncodedLength(|EncodeItems(a)|, 192, EncodeItems(a));
    DecodeEncodedLength(|EncodeItems(b)|, 192, EncodeItems(b));
    EncodeItemsInjective(a, b);
  }

  // ----- the block header

  type Hash = s: seq<byte> | |s| == 32 witness ToBE(0, 32)

  datatype BlockHeader = BlockHeader(
    parentHash: Hash, ommersHash: Hash, beneficiary: seq<byte>, stateRoot: Hash, transactionsRoot: Hash,
    receiptsRoot: Hash, logsBloom: seq<byte>, difficulty: u256, number: u64, gasLimit: u64, gasUsed: u64,
    timestamp: u64, extraData: seq<byte>, mixHash: Hash, nonce: seq<byte>, baseFeePerGas: u64)
  {
    /** The fixed sizes of the byte fields. */
    predicate Valid() { |beneficiary| == 20 && |logsBloom| == 256 && |extraData| <= 32 && |nonce| == 8 }

    /** The strings of the header's list, in order; numbers have no leading zeros. */
    function Field(i: nat): Item
      requires Valid() && i < 16
    {
      NumberSizes(difficulty, number, gasLimit, gasUsed, timestamp, baseFeePerGas);
      if i == 0 then parentHash else if i == 1 then ommersHash else if i == 2 then beneficiary
      else if i == 3 then stateRoot else if i == 4 then transactionsRoot else if i == 5 then receiptsRoot
      else if i == 6 then logsBloom else if i == 7 then MinimalBE(difficulty)
      else if i == 8 then MinimalBE(number) else if i == 9 then MinimalBE(gasLimit)
      else if i == 10 then MinimalBE(gasUsed) else if i == 11 then MinimalBE(timestamp)
      else if i == 12 then extraData else if i == 13 then mixHash else if i == 14 then nonce
      else MinimalBE(baseFeePerGas)
    }

    function Items(): (items: seq<Item>)
      requires Valid()
      ensures |items| == 16 && forall i :: 0 <= i < 16 ==> items[i] == Field(i)
    {
      seq(16, i requires 0 <= i < 16 => Field(i))
    }
  }

  lemma NumberSizes(wide: u256, a: u64, b: u64, c: u64, d: u64, e: u64)
    ensures |MinimalBE(wide)| <= 32 && |MinimalBE(a)| <= 8 && |MinimalBE(b)| <= 8 && |MinimalBE(c)| <= 8
    ensures |MinimalBE(d)| <= 8 && |MinimalBE(e)| <= 8
  {
    Pow256Values();
    MinimalLength(wide, 32);
    LengthOfLength(a);
    LengthOfLength(b);
    LengthOfLength(c);
    LengthOfLength(d);
    LengthOfLength(e);
  }

  // ----- hashing: the estimates first, then the items

  method EstimateItem(total: nat, ghost items: seq<Item>, ghost k: nat, item: Item, n: UsizeBytes)
    returns (total': nat, ghost k': nat)
    requires k < |items| && items[k] == item && total == |EncodeFirst(items, k)|
    ensures k' == k + 1 && total' == |EncodeFirst(items, k')|
  {
    UsizeRange(n);
    EncodeNext(items, k);
    total', k' := total + EstimateBytesEncodingLen(item, n), k + 1;
  }

  method EstimateNumber(total: nat, ghost items: seq<Item>, ghost k: nat, x: nat, width: nat, n: UsizeBytes)
    returns (total': nat, ghost k': nat)
    requires x < Pow256(width) && width <= 32
    requires k < |items| && items[k] == MinimalBE(x) && total == |EncodeFirst(items, k)|
    ensures k' == k + 1 && total' == |EncodeFirst(items, k')|
  {
    UsizeRange(n);
    EncodeNext(items, k);
    total', k' := total + EstimateNumberEncodingLen(x, width, n), k + 1;
  }

  method EstimateAddress(total: nat, ghost items: seq<Item>, ghost k: nat, ghost address: Item)
    returns (total': nat, ghost k': nat)
    requires |address| == 20 && k < |items| && items[k] == address && total == |EncodeFirst(items, k)|
    ensures k' == k + 1 && total' == |EncodeFirst(items, k')|
  {
    AddressLength(address);
    EncodeNext(items, k);
    total', k' := total + ADDRESS_ENCODING_LEN, k + 1;
  }

  lemma AddressLength(address: Item)
    requires |address| == 20
    ensures |EncodeBytes(address)| == ADDRESS_ENCODING_LEN
  {
  }

  method ApplyItem(hasher: Hasher, ghost prefix: seq<byte>, ghost items: seq<Item>, ghost k: nat, item: Item,
                   n: UsizeBytes)
    returns (ghost k': nat)
    requires k < |items| && items[k] == item && hasher.absorbed == prefix + EncodeFirst(items, k)
    modifies hasher
    ensures k' == k + 1 && hasher.absorbed == prefix + EncodeFirst(items, k')
  {
    UsizeRange(n);
    ghost var first, next: seq<byte> := EncodeFirst(items, k), EncodeBytes(item);
    ApplyBytesEncoding(item, hasher, n);
    Concat3(prefix, first, next);
    EncodeNext(items, k);
    k' := k + 1;
  }

  method ApplyNumber(hasher: Hasher, ghost prefix: seq<byte>, ghost items: seq<Item>, ghost k: nat, x: nat, width: nat,
                     n: UsizeBytes)
    returns (ghost k': nat)
    requires x < Pow256(width) && width <= 32
    requires k < |items| && items[k] == MinimalBE(x) && hasher.absorbed == prefix + EncodeFirst(items, k)
    modifies hasher
    ensures k' == k + 1 && hasher.absorbed == prefix + EncodeFirst(items, k')
  {
    UsizeRange(n);
    ghost var first, next: seq<byte> := EncodeFirst(items, k), EncodeBytes(items[k]);
    ApplyNumberEncoding(x, width, hasher, n);
    Concat3(prefix, first, next);
    EncodeNext(items, k);
    k' := k + 1;
  }

  lemma {:induction false} UsizeRange(n: nat)
    requires n >= 4
    ensures Pow256(n) >= 0x1_0000_0000
  {
    if n == 4 {
      Pow256Values();
    } else {
      UsizeRange(n - 1);
    }
  }

  lemma Widths()
    ensures U64_MAX < Pow256(U64_BYTES) && U256_MAX < Pow256(U256_BYTES)
  {
    Pow256Values();
    assert U64_BYTES == 8 && U256_BYTES == 32;
  }

  // The sixteen fields, four at a time.

  ghost predicate HasParents(h: BlockHeader, items: seq<Item>, k: nat)
    requires k + 4 <= |items|
  {
    && items[k] == h.parentHash && items[k + 1] == h.ommersHash
    && items[k + 2] == h.beneficiary && items[k + 3] == h.stateRoot
  }

  ghost predicate HasRoots(h: BlockHeader, items: seq<Item>, k: nat)
    requires k + 4 <= |items|
  {
    && items[k] == h.transactionsRoot && items[k + 1] == h.receiptsRoot
    && items[k + 2] == h.logsBloom && items[k + 3] == MinimalBE(h.difficulty)
  }

  ghost predicate HasNumbers(h: BlockHeader, items: seq<Item>, k: nat)
    requires k + 4 <= |items|
  {
    && items[k] == MinimalBE(h.number) && items[k + 1] == MinimalBE(h.gasLimit)
    && items[k + 2] == MinimalBE(h.gasUsed) && items[k + 3] == MinimalBE(h.timestamp)
  }

  ghost predicate HasExtras(h: BlockHeader, items: seq<Item>, k: nat)
    requires k + 4 <= |items|
  {
    && items[k] == h.extraData && items[k + 1] == h.mixHash
    && items[k + 2] == h.nonce && items[k + 3] == MinimalBE(h.baseFeePerGas)
  }

  lemma Quarters(h: BlockHeader, items: seq<Item>)
    requires h.Valid() && items == h.Items()
    ensures |items| == 16 && HasParents(h, items, 0) && HasRoots(h, items, 4) && HasNumbers(h, items, 8)
    ensures HasExtras(h, items, 12)
  {
  }

  method EstimateParents(h: BlockHeader, n: UsizeBytes, total: nat, ghost items: seq<Item>, ghost k: nat)
    returns (total': nat, ghost k': nat)
    requires h.Valid() && k + 4 <= |items| && HasParents(h, items, k) && total == |EncodeFirst(items, k)|
    ensures k' == k + 4 && total' == |EncodeFirst(items, k')|
  {
    Widths();
    total', k' := total, k;
    total', k' := EstimateItem(total', items, k', h.parentHash, n);
    total', k' := EstimateItem(total', items, k', h.ommersHash, n);
    total', k' := EstimateAddress(total', items, k', h.beneficiary);
    total', k' := EstimateItem(total', items, k', h.stateRoot, n);
  }

  method EstimateRoots(h: BlockHeader, n: UsizeBytes, total: nat, ghost items: seq<Item>, ghost k: nat)
    returns (total': nat, ghost k': nat)
    requires h.Valid() && k + 4 <= |items| && HasRoots(h, items, k) && total == |EncodeFirst(items, k)|
    ensures k' == k + 4 && total' == |EncodeFirst(items, k')|
  {
    Widths();
    total', k' := total, k;
    total', k' := EstimateItem(total', items, k', h.transactionsRoot, n);
    total', k' := EstimateItem(total', items, k', h.receiptsRoot, n);
    total', k' := EstimateItem(total', items, k', h.logsBloom, n);
    total', k' := EstimateNumber(total', items, k', h.difficulty, U256_BYTES, n);
  }

  method EstimateNumbers(h: BlockHeader, n: UsizeBytes, total: nat, ghost items: seq<Item>, ghost k: nat)
    returns (total': nat, ghost k': nat)
    requires h.Valid() && k + 4 <= |items| && HasNumbers(h, items, k) && total == |EncodeFirst(items, k)|
    ensures k' == k + 4 && total' == |EncodeFirst(items, k')|
  {
    Widths();
    total', k' := total, k;
    total', k' := EstimateNumber(total', items, k', h.number, U64_BYTES, n);
    total', k' := EstimateNumber(total', items, k', h.gasLimit, U64_BYTES, n);
    total', k' := EstimateNumber(total', items, k', h.gasUsed, U64_BYTES, n);
    total', k' := EstimateNumber(total', items, k', h.timestamp, U64_BYTES, n);
  }

  method EstimateExtras(h: BlockHeader, n: UsizeBytes, total: nat, ghost items: seq<Item>, ghost k: nat)
    returns (total': nat, ghost k': nat)
    requires h.Valid() && k + 4 <= |items| && HasExtras(h, items, k) && total == |EncodeFirst(items, k)|
    ensures k' == k + 4 && total' == |EncodeFirst(items, k')|
  {
    Widths();
    total', k' := total, k;
    total', k' := EstimateItem(total', items, k', h.extraData, n);
    total', k' := EstimateItem(total', items, k', h.mixHash, n);
    total', k' := EstimateItem(total', items, k', h.nonce, n);
    total', k' := EstimateNumber(total', items, k', h.baseFeePerGas, U64_BYTES, n);
  }

  method ApplyParents(h: BlockHeader, n: UsizeBytes, hasher: Hasher, ghost prefix: seq<byte>, ghost items: seq<Item>,
                      ghost k: nat)
    returns (ghost k': nat)
    requires h.Valid() && k + 4 <= |items| && HasParents(h, items, k)
    requires hasher.absorbed == prefix + EncodeFirst(items, k)
    modifies hasher
    ensures k' == k + 4 && hasher.absorbed == prefix + EncodeFirst(items, k')
  {
    Widths();
    k' := k;
    k' := ApplyItem(hasher, prefix, items, k', h.parentHash, n);
    k' := ApplyItem(hasher, prefix, items, k', h.ommersHash, n);
    k' := ApplyItem(hasher, prefix, items, k', h.beneficiary, n);
    k' := ApplyItem(hasher, prefix, items, k', h.stateRoot, n);
  }

  method ApplyRoots(h: BlockHeader, n: UsizeBytes, hasher: Hasher, ghost prefix: seq<byte>, ghost items: seq<Item>,
                    ghost k: nat)
    returns (ghost k': nat)
    requires h.Valid() && k + 4 <= |items| && HasRoots(h, items, k) && hasher.absorbed == prefix + EncodeFirst(items, k)
    modifies hasher
    ensures k' == k + 4 && hasher.absorbed == prefix + EncodeFirst(items, k')
  {
    Widths();
    k' := k;
    k' := ApplyItem(hasher, prefix, items, k', h.transactionsRoot, n);
    k' := ApplyItem(hasher, prefix, items, k', h.receiptsRoot, n);
    k' := ApplyItem(hasher, prefix, items, k', h.logsBloom, n);
    k' := ApplyNumber(hasher, prefix, items, k', h.difficulty, U256_BYTES, n);
  }

  method ApplyNumbers(h: BlockHeader, n: UsizeBytes, hasher: Hasher, ghost prefix: seq<byte>, ghost items: seq<Item>,
                      ghost k: nat)
    returns (ghost k': nat)
    requires h.Valid() && k + 4 <= |items| && HasNumbers(h, items, k)
    requires hasher.absorbed == prefix + EncodeFirst(items, k)
    modifies hasher
    ensures k' == k + 4 && hasher.absorbed == prefix + EncodeFirst(items, k')
  {
    Widths();
    k' := k;
    k' := ApplyNumber(hasher, prefix, items, k', h.number, U64_BYTES, n);
    k' := ApplyNumber(hasher, prefix, items, k', h.gasLimit, U64_BYTES, n);
    k' := ApplyNumber(hasher, prefix, items, k', h.gasUsed, U64_BYTES, n);
    k' := ApplyNumber(hasher, prefix, items, k', h.timestamp, U64_BYTES, n);
  }

  method ApplyExtras(h: BlockHeader, n: UsizeBytes, hasher: Hasher, ghost prefix: seq<byte>, ghost items: seq<Item>,
                     ghost k: nat)
    returns (ghost k': nat)
    requires h.Valid() && k + 4 <= |items| && HasExtras(h, items, k)
    requires hasher.absorbed == prefix + EncodeFirst(items, k)
    modifies hasher
    ensures k' == k + 4 && hasher.absorbed == prefix + EncodeFirst(items, k')
  {
    Widths();
    k' := k;
    k' := ApplyItem(hasher, prefix, items, k', h.extraData, n);
    k' := ApplyItem(hasher, prefix, items, k', h.mixHash, n);
    k' := ApplyItem(hasher, prefix, items, k', h.nonce, n);
    k' := ApplyNumber(hasher, prefix, items, k', h.baseFeePerGas, U64_BYTES, n);
  }

  /** The announced list length is the length of the sixteen encoded items. */
  method TotalListLen(h: BlockHeader, n: UsizeBytes) returns (total: nat)
    requires h.Valid()
    ensures total == |EncodeItems(h.Items())|
  {
    ghost var items, k := h.Items(), 0;
    Quarters(h, items);
    total := 0;
    total, k := EstimateParents(h, n, total, items, k);
    total, k := EstimateRoots(h, n, total, items, k);
    total, k := EstimateNumbers(h, n, total, items, k);
    total, k := EstimateExtras(h, n, total, items, k);
  }

  /** What is hashed: the RLP list of the header's items. */
  method HashHeader(h: BlockHeader, n: UsizeBytes) returns (hasher: Hasher)
    requires h.Valid()
    ensures fresh(hasher) && hasher.absorbed == EncodeList(h.Items())
  {
    UsizeRange(n);
    EncodeFirstBound(h.Items(), |h.Items()|);
    var total := TotalListLen(h, n);
    hasher := new Hasher();
    ApplyLengthEncoding(total, 192, hasher, n);
    ghost var prefix := EncodeLength(total, 192);
    assert hasher.absorbed == prefix;
    ApplyAll(h, n, hasher, prefix);
  }

  method ApplyAll(h: BlockHeader, n: UsizeBytes, hasher: Hasher, ghost prefix: seq<byte>)
    requires h.Valid() && hasher.absorbed == prefix
    modifies hasher
    ensures hasher.absorbed == prefix + EncodeItems(h.Items())
  {
    ghost var items, k := h.Items(), 0;
    Quarters(h, items);
    k := ApplyParents(h, n, hasher, prefix, items, k);
    k := ApplyRoots(h, n, hasher, prefix, items, k);
    k := ApplyNumbers(h, n, hasher, prefix, items, k);
    k := ApplyExtras(h, n, hasher, prefix, items, k);
  }

  /** Two headers are hashed from the same bytes only if they are equal. */
  lemma HeaderInjective(a: BlockHeader, b: BlockHeader)
    requires a.Valid() && b.Valid() && EncodeList(a.Items()) == EncodeList(b.Items())
    ensures a == b
  {
    EncodeListInjective(a.Items(), b.Items());
    FieldsInjective(a, b);
  }

  lemma FieldsInjective(a: BlockHeader, b: BlockHeader)
    requires a.Valid() && b.Valid() && a.Items() == b.Items()
    ensures a == b
  {
    forall i: nat | i < 16 ensures a.Field(i) == b.Field(i) {
      assert a.Items()[i] == b.Items()[i];
    }
    assert a.Field(0) == b.Field(0) && a.Field(1) == b.Field(1) && a.Field(2) == b.Field(2) && a.Field(3) == b.Field(3);
    assert a.Field(4) == b.Field(4) && a.Field(5) == b.Field(5) && a.Field(6) == b.Field(6);
    assert a.Field(12) == b.Field(12) && a.Field(13) == b.Field(13) && a.Field(14) == b.Field(14);
    NumberField(a, b, 7, a.difficulty, b.difficulty);
    NumberField(a, b, 8, a.number, b.number);
    NumberField(a, b, 9, a.gasLimit, b.gasLimit);
    NumberField(a, b, 10, a.gasUsed, b.gasUsed);
    NumberField(a, b, 11, a.timestamp, b.timestamp);
    NumberField(a, b, 15, a.baseFeePerGas, b.baseFeePerGas);
  }

  /** A number is determined by its string. */
  lemma NumberField(a: BlockHeader, b: BlockHeader, i: nat, x: nat, y: nat)
    requires a.Valid() && b.Valid() && i < 16 && a.Field(i) == MinimalBE(x) && b.Field(i) == MinimalBE(y)
    requires a.Field(i) == b.Field(i)
    ensures x == y
  {
    MinimalValue(x);
    MinimalValue(y);
  }
}
