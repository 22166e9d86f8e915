/** Bitmaps over machine words of 4 or 8 bytes, and their little-endian byte form. */
module BitMaps {
  import opened Numbers

  predicate Bit(w: nat, b: nat) { Shr(w, b) % 2 == 1 }

  /** Position `pos` of a bitmap whose words have `width` bits. */
  ghost predicate BitAt(words: seq<nat>, width: nat, pos: nat)
    requires 0 < width
    decreases |words|
  {
    words != [] && if pos < width then Bit(words[0], pos) else BitAt(words[1..], width, pos - width)
  }

  /** The word and the bit inside it. */
  lemma {:induction false} BitAtIndex(words: seq<nat>, width: nat, pos: nat, q: nat, r: nat)
    requires r < width && pos == q * width + r
    ensures BitAt(words, width, pos) <==> q < |words| && Bit(words[q], r)
    decreases q
  {
    if q > 0 {
      assert q * width == (q - 1) * width + width;
      MulMono(1, q, width);
      if words != [] {
        BitAtIndex(words[1..], width, pos - width, q - 1, r);
      }
    }
  }

  // ----- setting a bit

  /** `w | (1 << b)` */
  function WithBit(w: nat, b: nat): nat
  {
    if Bit(w, b) then w else w + Pow2(b)
  }

  lemma {:induction false} WithBitIs(w: nat, b: nat, c: nat)
    ensures Bit(WithBit(w, b), c) <==> c == b || Bit(w, c)
  {
    if !Bit(w, b) {
      AddedBit(w, b, c);
    }
  }

  lemma {:induction false} AddedBit(w: nat, b: nat, c: nat)
    requires !Bit(w, b)
    ensures Bit(w + Pow2(b), c) <==> c == b || Bit(w, c)
    decreases b
  {
    if b == 0 {
      assert (w + 1) / 2 == w / 2;
    } else {
      assert (w + Pow2(b)) / 2 == w / 2 + Pow2(b - 1);
      assert (w + Pow2(b)) % 2 == w % 2;
      if c > 0 {
        AddedBit(w / 2, b - 1, c - 1);
      }
    }
  }

  lemma {:induction false} ZeroBit(b: nat)
    ensures !Bit(0, b)
  {
    if b > 0 {
      ZeroBit(b - 1);
    }
  }

  // ----- little-endian bytes

  function ToLE(w: nat, n: nat): (bytes: seq<byte>)
    ensures |bytes| == n
  {
    if n == 0 then [] else [w % 256] + ToLE(w / 256, n - 1)
  }

  function FromLE(bytes: seq<byte>): nat
  {
    if bytes == [] then 0 else bytes[0] + 256 * FromLE(bytes[1..])
  }

  lemma {:induction false} ToFromLE(bytes: seq<byte>)
    ensures ToLE(FromLE(bytes), |bytes|) == bytes
  {
    if bytes != [] {
      var w, rest := FromLE(bytes), FromLE(bytes[1..]);
      ToFromLE(bytes[1..]);
      assert w == bytes[0] + 256 * rest && w % 256 == bytes[0] && w / 256 == rest;
      assert bytes == [bytes[0]] + bytes[1..];
    }
  }

  /** The words of a bitmap as they lie in memory. */
  function Serialize(words: seq<nat>, n: nat): (bytes: seq<byte>)
    ensures |bytes| == |words| * n
  {
    if words == [] then [] else ToLE(words[0], n) + Serialize(words[1..], n)
  }

  /** The same memory read as words of n bytes. */
  function Deserialize(bytes: seq<byte>, n: nat): (words: seq<nat>)
    requires n > 0 && |bytes| % n == 0
  {
    if |bytes| < n then [] else DropWord(|bytes|, n); [FromLE(bytes[..n])] + Deserialize(bytes[n..], n)
  }

  lemma DropWord(len: nat, n: nat)
    requires n > 0 && n <= len && len % n == 0
    ensures (len - n) % n == 0
  {
    var q := len / n;
    assert (q - 1) * n == q * n - n;
    DivModUnique(len - n, n, q - 1, 0);
  }

  lemma {:induction false} SerializeDeserialize(bytes: seq<byte>, n: nat)
    requires n > 0 && |bytes| % n == 0
    ensures Serialize(Deserialize(bytes, n), n) == bytes
    decreases |bytes|
  {
    if |bytes| < n {
      DivModUnique(|bytes|, n, 0, |bytes|);
    } else {
      DropWord(|bytes|, n);
      SerializeDeserialize(bytes[n..], n);
      ToFromLE(bytes[..n]);
      assert Deserialize(bytes, n)[1..] == Deserialize(bytes[n..], n);
      assert bytes == bytes[..n] + bytes[n..];
    }
  }

  // ----- a bitmap is the same in bytes and in words of any size

  lemma {:induction false} LowByteBit(w: nat, q: nat, b: nat, k: nat)
    requires b < k <= 8
    ensures Bit(w + Pow2(k) * q, b) <==> Bit(w, b)
  {
    var p := Pow2(k - 1);
    assert Pow2(k) * q == 2 * (p * q);
    assert (w + 2 * (p * q)) / 2 == w / 2 + p * q;
    if b > 0 {
      LowByteBit(w / 2, q, b - 1, k - 1);
    }
  }

  /** Bit b of a word is bit b % 8 of byte b / 8. */
  lemma {:induction false} WordBytes(w: nat, n: nat, b: nat)
    requires b < 8 * n
    ensures BitAt(ToLE(w, n), 8, b) <==> Bit(w, b)
    decreases n
  {
    if b < 8 {
      assert Pow2(8) == 256;
      LowByteBit(w % 256, w / 256, b, 8);
      assert w % 256 + 256 * (w / 256) == w;
    } else {
      ShrByte(w, b);
      WordBytes(w / 256, n - 1, b - 8);
      assert ToLE(w, n)[1..] == ToLE(w / 256, n - 1);
    }
  }

  lemma {:induction false} BitAtConcat(a: seq<nat>, c: seq<nat>, pos: nat)
    ensures BitAt(a + c, 8, pos) <==> if pos < 8 * |a| then BitAt(a, 8, pos) else BitAt(c, 8, pos - 8 * |a|)
  {
    if a == [] {
      assert a + c == c;
    } else {
      assert (a + c)[1..] == a[1..] + c;
      if pos >= 8 {
        BitAtConcat(a[1..], c, pos - 8);
      }
    }
  }

  /** A bitmap of n-byte words has the bits of its bytes. */
  lemma {:induction false} SerializedBits(words: seq<nat>, n: nat, pos: nat)
    requires n > 0
    ensures BitAt(Serialize(words, n), 8, pos) <==> BitAt(words, 8 * n, pos)
    decreases |words|
  {
    if words != [] {
      BitAtConcat(ToLE(words[0], n), Serialize(words[1..], n), pos);
      if pos < 8 * n {
        WordBytes(words[0], n, pos);
      } else {
        SerializedBits(words[1..], n, pos - 8 * n);
      }
    }
  }

  /** Rereading a bitmap with words of another size answers the same. */
  lemma Reread(words: seq<nat>, n: nat, n': nat, pos: nat)
    requires n > 0 && n' > 0 && |Serialize(words, n)| % n' == 0
    ensures BitAt(Deserialize(Serialize(words, n), n'), 8 * n', pos) <==> BitAt(words, 8 * n, pos)
  {
    var bytes := Serialize(words, n);
    SerializedBits(words, n, pos);
    SerializedBits(Deserialize(bytes, n'), n', pos);
    SerializeDeserialize(bytes, n');
  }

  // ----- the owned bitmap

  /** A machine word: 4 bytes on the prover, 8 on the sequencer. */
  type WordSize = n: nat | n == 4 || n == 8 witness 4

  class BitMapOwned {
    const n: WordSize
    const inner: array<nat>

    constructor (capacity: nat, n: WordSize)
      ensures this.n == n && fresh(inner) && inner.Length * n == (capacity + 63) / 64 * 8
      ensures forall pos: nat :: !Get(pos)
    {
      this.n := n;
      var wide := (capacity + 63) / 64;
      var words := if n == 8 then wide else wide * 2;
      inner := new nat[words](_ => 0);
      new;
      forall pos: nat ensures !Get(pos) {
        Index(pos);
        if pos / (8 * n) < inner.Length {
          ZeroBit(pos % (8 * n));
        }
      }
    }

    ghost predicate Get(pos: nat)
      reads inner
    {
      BitAt(inner[..], 8 * n, pos)
    }

    lemma Index(pos: nat)
      ensures Get(pos) <==> pos / (8 * n) < inner.Length && Bit(inner[pos / (8 * n)], pos % (8 * n))
    {
      if n == 4 {
        BitAtIndex(inner[..], 32, pos, pos / 32, pos % 32);
      } else {
        BitAtIndex(inner[..], 64, pos, pos / 64, pos % 64);
      }
    }

    method SetBitOn(pos: nat)
      requires pos / (8 * n) < inner.Length
      modifies inner
      ensures forall p: nat :: Get(p) <==> p == pos || old(Get(p))
    {
      var wordIdx, bitIdx := pos / (8 * n), pos % (8 * n);
      ghost var before := inner[..];
      inner[wordIdx] := WithBit(inner[wordIdx], bitIdx);
      forall p: nat ensures Get(p) <==> p == pos || old(Get(p)) {
        SetAt(before, inner[..], pos, p, n);
      }
    }
  }

  lemma SetAt(before: seq<nat>, after: seq<nat>, pos: nat, p: nat, n: WordSize)
    requires pos / (8 * n) < |before| && after == before[pos / (8 * n) := WithBit(before[pos / (8 * n)], pos % (8 * n))]
    ensures BitAt(after, 8 * n, p) <==> p == pos || BitAt(before, 8 * n, p)
  {
    if n == 4 {
      SetAtIndex(before, after, 32, pos, pos / 32, pos % 32, p, p / 32, p % 32);
    } else {
      SetAtIndex(before, after, 64, pos, pos / 64, pos % 64, p, p / 64, p % 64);
    }
  }

  lemma SetAtIndex(before: seq<nat>, after: seq<nat>, width: nat, pos: nat, word: nat, bit: nat, p: nat, q: nat, r: nat)
    requires word < |before| && after == before[word := WithBit(before[word], bit)]
    requires bit < width && r < width && pos == word * width + bit && p == q * width + r
    ensures BitAt(after, width, p) <==> p == pos || BitAt(before, width, p)
  {
    if p == pos {
      DivModUnique(p, width, q, r);
      DivModUnique(p, width, word, bit);
    }
    BitAtIndex(before, width, p, q, r);
    BitAtIndex(after, width, p, q, r);
    WithBitIs(before[word], bit, r);
  }
}
