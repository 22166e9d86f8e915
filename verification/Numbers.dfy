/** Machine integers, powers of two and big-endian byte strings shared by the other modules. */
module Numbers {

  const U32_MAX: int := 0xFFFF_FFFF
  const U64_MAX: int := 0xFFFF_FFFF_FFFF_FFFF
  const U256_MAX: int := 0xFFFFFFFFFFFFFFFF_FFFFFFFFFFFFFFFF_FFFFFFFFFFFFFFFF_FFFFFFFFFFFFFFFF

  type byte = x: int | 0 <= x < 256
  type u32 = x: int | 0 <= x <= U32_MAX
  type u64 = x: int | 0 <= x <= U64_MAX
  type u256 = x: int | 0 <= x <= U256_MAX

  datatype Option<+T> = None | Some(value: T) {
    function GetOr(default: T): T { if None? then default else value }
  }
  datatype Result<+T, +E> = Ok(value: T) | Err(error: E)

  function Min(a: int, b: int): int { if a <= b then a else b }
  function Max(a: int, b: int): int { if a <= b then b else a }

  /** `saturating_mul` of Rust's u64. */
  function SaturatingMul(a: nat, b: nat): (r: u64)
    ensures r == a * b || (r == U64_MAX && a * b > U64_MAX)
  {
    if a * b <= U64_MAX then a * b else U64_MAX
  }

  function SaturatingAdd(a: nat, b: nat): u64 { if a + b <= U64_MAX then a + b else U64_MAX }

  /** The next multiple of 32. */
  function RoundUp32(n: nat): (r: nat)
    ensures n <= r < n + 32 && r % 32 == 0
  {
    if n % 32 == 0 then n else n + (32 - n % 32)
  }

  function Zeros(n: nat): (z: seq<byte>)
    ensures |z| == n && forall i :: 0 <= i < n ==> z[i] == 0
  {
    seq(n, i => 0)
  }

  // ----- powers of two

  function Pow2(n: nat): (p: nat)
    ensures p > 0
  {
    if n == 0 then 1 else 2 * Pow2(n - 1)
  }

  lemma {:induction false} Pow2Add(a: nat, b: nat)
    ensures Pow2(a + b) == Pow2(a) * Pow2(b)
  {
    if a > 0 {
      Pow2Add(a - 1, b);
    }
  }

  lemma {:induction false} Pow2Monotone(a: nat, b: nat)
    requires a <= b
    ensures Pow2(a) <= Pow2(b)
  {
    if a < b {
      Pow2Monotone(a, b - 1);
    }
  }

  // ----- shifts

  /** `x << k` */
  function Shl(x: int, k: nat): int { if k == 0 then x else 2 * Shl(x, k - 1) }

  /** `s >> k` */
  function Shr(s: nat, k: nat): nat { if k == 0 then s else Shr(s / 2, k - 1) }

  lemma ShrByte(w: nat, b: nat)
    requires b >= 8
    ensures Shr(w, b) == Shr(w / 256, b - 8)
  {
    assert Shr(w, b) == Shr(w / 2, b - 1) == Shr(w / 4, b - 2) == Shr(w / 8, b - 3) == Shr(w / 16, b - 4);
    assert Shr(w / 16, b - 4) == Shr(w / 32, b - 5) == Shr(w / 64, b - 6) == Shr(w / 128, b - 7) == Shr(w / 256, b - 8);
  }

  // ----- division facts

  lemma SmallMultipleIsZero(k: int, d: int)
    requires d > 0 && -d < k * d < d
    ensures k == 0
  {
    if k >= 1 {
      MulMono(1, k, d);
    } else if k <= -1 {
      MulMono(k, -1, d);
    }
  }

  /** Quotient and remainder are determined by the defining equation. */
  lemma DivModUnique(x: int, d: int, q: int, r: int)
    requires d > 0 && x == q * d + r && 0 <= r < d
    ensures x / d == q && x % d == r
  {
    var q', r' := x / d, x % d;
    assert x == q' * d + r';
    assert (q' - q) * d == q' * d - q * d;
    SmallMultipleIsZero(q' - q, d);
  }

  lemma MulEq(a: int, b: int, c: int)
    requires a == b
    ensures c * a == c * b
  {
  }

  lemma MulMono(a: int, b: int, c: int)
    requires a <= b && 0 <= c
    ensures a * c <= b * c
  {
  }

  // ----- big-endian byte strings

  function FromBE(s: seq<byte>): (v: nat)
  {
    if s == [] then 0 else FromBE(s[..|s| - 1]) * 256 + s[|s| - 1]
  }

  function ToBE(v: nat, len: nat): (s: seq<byte>)
    ensures |s| == len
  {
    if len == 0 then [] else ToBE(v / 256, len - 1) + [v % 256]
  }

  function Pow256(n: nat): (p: nat)
    ensures p > 0
  {
    if n == 0 then 1 else Pow256(n - 1) * 256
  }

  lemma {:induction false} BERoundTrip(v: nat, len: nat)
    requires v < Pow256(len)
    ensures FromBE(ToBE(v, len)) == v
  {
    if len > 0 {
      BERoundTrip(v / 256, len - 1);
      var s := ToBE(v, len);
      assert s[..len - 1] == ToBE(v / 256, len - 1);
    }
  }

  lemma {:induction false} BEInverse(s: seq<byte>)
    ensures FromBE(s) < Pow256(|s|)
    ensures ToBE(FromBE(s), |s|) == s
  {
    if s != [] {
      BEInverse(s[..|s| - 1]);
      assert FromBE(s) / 256 == FromBE(s[..|s| - 1]);
    }
  }

  lemma Pow256Values()
    ensures Pow256(32) == U256_MAX + 1
    ensures Pow256(8) == U64_MAX + 1
    ensures Pow256(4) == U32_MAX + 1
  {
    assert Pow256(4) == 0x1_0000_0000;
    assert Pow256(8) == 0x1_0000_0000_0000_0000;
    assert Pow256(16) == 0x1_0000000000000000_0000000000000000;
    assert Pow256(24) == 0x1_0000000000000000_0000000000000000_0000000000000000;
  }
}
