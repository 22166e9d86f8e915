/** What the addresses of new contracts are hashed from. */
module CreateAddress {
  import opened Numbers
  import opened World
  import opened IoSubsystem
  import Rlp

  // The width of an address, 20 bytes; kept as a name so that the byte strings stay folded.
  type AddressWidth = x: nat | 19 < x < 21 witness 20
  const ADDRESS_BYTES: AddressWidth

  /** The list of address and nonce, assembled by hand. */
  function CreateQuasiRlp(address: seq<byte>, nonce: u64): seq<byte>
    requires |address| == 20
  {
    Rlp.Widths();
    Rlp.WholeZeroBytes(nonce, Rlp.U64_BYTES);
    Rlp.LengthOfLength(nonce);
    var bytes := ToBE(nonce, Rlp.U64_BYTES);
    var nonceLen := 8 - Rlp.LeadingZeros(nonce, Rlp.U64_BYTES) / 8;
    if nonceLen == 1 && bytes[7] < 128 then
      [0xc0 + (1 + 20 + 1), 0x80 + 20] + address + [bytes[7]]
    else
      [0xc0 + (1 + 20 + 1 + nonceLen), 0x80 + 20] + address + [0x80 + nonceLen] + bytes[8 - nonceLen..]
  }

  /** The last bytes of a fixed-width number are its shortest form. */
  lemma {:induction false} Suffix(x: nat, width: nat)
    requires x < Pow256(width)
    ensures |Rlp.MinimalBE(x)| <= width && ToBE(x, width)[width - |Rlp.MinimalBE(x)|..] == Rlp.MinimalBE(x)
  {
    Rlp.MinimalLength(x, width);
    if x > 0 {
      Suffix(x / 256, width - 1);
      var short, long := Rlp.MinimalBE(x / 256), ToBE(x / 256, width - 1);
      assert (long + [x % 256])[width - 1 - |short|..] == long[width - 1 - |short|..] + [x % 256];
    }
  }

  ghost function Pair(address: seq<byte>, nonce: u64): seq<Rlp.Item>
    requires |address| == 20
  {
    Rlp.LengthOfLength(nonce);
    [address, Rlp.MinimalBE(nonce)]
  }

  /** The encoding of a nonce is one small byte, or a length and the bytes. */
  lemma NonceItem(nonce: u64)
    ensures |Rlp.MinimalBE(nonce)| <= 8
    ensures Rlp.EncodeBytes(Rlp.MinimalBE(nonce))
         == if 0 < nonce < 128 then [nonce] else [0x80 + |Rlp.MinimalBE(nonce)|] + Rlp.MinimalBE(nonce)
  {
    Rlp.LengthOfLength(nonce);
    Rlp.MinimalValue(nonce);
  }

  lemma Assembled(address: seq<byte>, nonce: u64, item: seq<byte>)
    requires |address| == 20 && |Rlp.MinimalBE(nonce)| <= 8
    requires item == if 0 < nonce < 128 then [nonce] else [0x80 + |Rlp.MinimalBE(nonce)|] + Rlp.MinimalBE(nonce)
    ensures CreateQuasiRlp(address, nonce) == [0xc0 + 21 + |item|, 0x80 + 20] + address + item
  {
    Rlp.Widths();
    Rlp.WholeZeroBytes(nonce, Rlp.U64_BYTES);
    Suffix(nonce, Rlp.U64_BYTES);
    var short := Rlp.MinimalBE(nonce);
    if !(0 < nonce < 128) {
      Prepend4(0xc0 + 21 + |item|, 0x80 + 20, address, [0x80 + |short|], short);
    }
  }

  lemma ListOfTwo(items: seq<Rlp.Item>)
    requires |items| == 2 && |items[0]| == 20 && |items[1]| <= 8
    ensures
      var second := Rlp.EncodeBytes(items[1]);
      |second| <= 9 && Rlp.EncodeList(items) == [0xc0 + 21 + |second|, 0x80 + 20] + items[0] + second
  {
    var first, second := Rlp.EncodeBytes(items[0]), Rlp.EncodeBytes(items[1]);
    Rlp.EncodeNext(items, 0);
    Rlp.EncodeNext(items, 1);
    assert Rlp.EncodeItems(items) == [] + first + second == first + second;
    Prepend(0xc0 + 21 + |second|, 0x80 + 20, items[0], second);
  }

  /** It is the encoding of Appendix B of the Ethereum Yellow Paper. */
  lemma QuasiRlpIsRlp(address: seq<byte>, nonce: u64)
    requires |address| == 20
    ensures CreateQuasiRlp(address, nonce) == Rlp.EncodeList(Pair(address, nonce))
  {
    NonceItem(nonce);
    var items := Pair(address, nonce);
    ListOfTwo(items);
    Assembled(address, nonce, Rlp.EncodeBytes(items[1]));
  }

  lemma Prepend(x: byte, y: byte, a: seq<byte>, b: seq<byte>)
    ensures [x] + ([y] + a + b) == [x, y] + a + b
  {
  }

  lemma Prepend4(x: byte, y: byte, a: seq<byte>, b: seq<byte>, c: seq<byte>)
    ensures [x, y] + a + (b + c) == [x, y] + a + b + c
  {
  }

  // ----- all origins

  /** What is hashed for an origin; a salted one starts with a byte that no list of 21 to 31 bytes starts with. */
  function Preimage(keccak: seq<byte> -> u256, origin: Origin): (r: seq<byte>)
    ensures origin.FromSalt? ==>
      && |r| == 85 && r[0] == 0xff && r[1..21] == ToBE(origin.deployer, 20)
      && r[21..53] == ToBE(origin.salt, 32) && r[53..85] == ToBE(keccak(origin.initCode), 32)
  {
    match origin
    case FromNonce(deployer, nonce) => CreateQuasiRlp(ToBE(deployer, ADDRESS_BYTES), nonce)
    case FromSalt(deployer, salt, initCode) =>
      [0xff] + ToBE(deployer, ADDRESS_BYTES) + ToBE(salt, Rlp.U256_BYTES) + ToBE(keccak(initCode), Rlp.U256_BYTES)
  }

  /** The last 20 bytes of the hash. */
  function Derive(keccak: seq<byte> -> u256, origin: Origin): Address
  {
    keccak(Preimage(keccak, origin)) % ADDRESS_BOUND
  }

  /** A system that derives the addresses of new contracts in this way. */
  method NewSystem(costs: nat -> IoCost, precompiles: nat -> PrecompileAnswer, keccak: seq<byte> -> u256,
                   preimage: u256 -> seq<byte>, refundsAfter: nat -> u64, world: World)
    returns (system: System)
    ensures fresh(system) && system.world == world && system.frames == [] && system.keccak == keccak
    ensures forall origin :: system.derive(origin) == Derive(keccak, origin)
  {
    system := new System(costs, precompiles, keccak, preimage, o => Derive(keccak, o), refundsAfter, world);
  }

  /** Equal addresses of different origins are a collision of the hash, on the preimages or on the code. */
  lemma DeriveInjective(keccak: seq<byte> -> u256, a: Origin, b: Origin)
    requires Derive(keccak, a) == Derive(keccak, b) && a != b
    ensures
      || (Preimage(keccak, a) != Preimage(keccak, b)
          && keccak(Preimage(keccak, a)) % ADDRESS_BOUND == keccak(Preimage(keccak, b)) % ADDRESS_BOUND)
      || (a.FromSalt? && b.FromSalt? && a.initCode != b.initCode && keccak(a.initCode) == keccak(b.initCode))
  {
    if Preimage(keccak, a) == Preimage(keccak, b) {
      PreimageInjective(keccak, a, b);
    }
  }

  /** Two origins hash the same bytes only if they are equal, up to the hash of the initialisation code. */
  lemma PreimageInjective(keccak: seq<byte> -> u256, a: Origin, b: Origin)
    requires Preimage(keccak, a) == Preimage(keccak, b)
    ensures a.FromNonce? <==> b.FromNonce?
    ensures a.FromNonce? ==> a == b
    ensures a.FromSalt? ==> a.deployer == b.deployer && a.salt == b.salt && keccak(a.initCode) == keccak(b.initCode)
  {
    FirstByte(keccak, a);
    FirstByte(keccak, b);
    match a
    case FromNonce(_, _) => QuasiRlpInjective(a.deployer, a.nonce, b.deployer, b.nonce);
    case FromSalt(_, _, _) =>
      SaltedInjective(a.deployer, a.salt, keccak(a.initCode), b.deployer, b.salt, keccak(b.initCode));
  }

  lemma FirstByte(keccak: seq<byte> -> u256, origin: Origin)
    ensures |Preimage(keccak, origin)| > 0 && (Preimage(keccak, origin)[0] == 0xff <==> origin.FromSalt?)
  {
    if origin.FromNonce? {
      NonceItem(origin.nonce);
      Assembled(ToBE(origin.deployer, ADDRESS_BYTES), origin.nonce, Rlp.EncodeBytes(Rlp.MinimalBE(origin.nonce)));
    }
  }

  lemma QuasiRlpInjective(a: Address, m: u64, b: Address, n: u64)
    requires CreateQuasiRlp(ToBE(a, ADDRESS_BYTES), m) == CreateQuasiRlp(ToBE(b, ADDRESS_BYTES), n)
    ensures a == b && m == n
  {
    var x, y := ToBE(a, ADDRESS_BYTES), ToBE(b, ADDRESS_BYTES);
    QuasiRlpIsRlp(x, m);
    QuasiRlpIsRlp(y, n);
    Rlp.EncodeListInjective(Pair(x, m), Pair(y, n));
    assert Pair(x, m)[0] == Pair(y, n)[0] && Pair(x, m)[1] == Pair(y, n)[1];
    AddressBytes(a);
    AddressBytes(b);
    Rlp.MinimalValue(m);
    Rlp.MinimalValue(n);
  }

  lemma SaltedInjective(a: Address, s: u256, h: u256, b: Address, t: u256, g: u256)
    requires [0xff] + ToBE(a, ADDRESS_BYTES) + ToBE(s, Rlp.U256_BYTES) + ToBE(h, Rlp.U256_BYTES)
          == [0xff] + ToBE(b, ADDRESS_BYTES) + ToBE(t, Rlp.U256_BYTES) + ToBE(g, Rlp.U256_BYTES)
    ensures a == b && s == t && h == g
  {
    SameParts(0xff, ToBE(a, ADDRESS_BYTES), ToBE(s, Rlp.U256_BYTES), ToBE(h, Rlp.U256_BYTES),
              ToBE(b, ADDRESS_BYTES), ToBE(t, Rlp.U256_BYTES), ToBE(g, Rlp.U256_BYTES));
    AddressBytes(a);
    AddressBytes(b);
    Rlp.Widths();
    BERoundTrip(s, Rlp.U256_BYTES);
    BERoundTrip(t, Rlp.U256_BYTES);
    BERoundTrip(h, Rlp.U256_BYTES);
    BERoundTrip(g, Rlp.U256_BYTES);
  }

  lemma Slices(x: byte, b: seq<byte>, c: seq<byte>, d: seq<byte>)
    ensures
      var s, i, j := [x] + b + c + d, 1 + |b|, 1 + |b| + |c|;
      s[1..i] == b && s[i..j] == c && s[j..] == d
  {
  }

  lemma SameParts(x: byte, b: seq<byte>, c: seq<byte>, d: seq<byte>, b': seq<byte>, c': seq<byte>, d': seq<byte>)
    requires |b| == |b'| && |c| == |c'| && [x] + b + c + d == [x] + b' + c' + d'
    ensures b == b' && c == c' && d == d'
  {
    Slices(x, b, c, d);
    Slices(x, b', c', d');
  }

  lemma AddressBytes(a: Address)
    ensures FromBE(ToBE(a, ADDRESS_BYTES)) == a
  {
    Pow256Twenty();
    BERoundTrip(a, ADDRESS_BYTES);
  }

  lemma Pow256Twenty()
    ensures Pow256(20) == ADDRESS_BOUND
  {
    assert Pow256(4) == 0x1_00000000;
    assert Pow256(8) == 0x1_00000000_00000000;
    assert Pow256(12) == 0x1_00000000_00000000_00000000;
    assert Pow256(16) == 0x1_00000000_00000000_00000000_00000000;
  }
}
