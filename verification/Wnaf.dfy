/** Windowed non-adjacent form of scalars: the recoding loop of both secp256 curves. */
module Wnaf {
  import opened Numbers

  type i32 = x: int | -0x8000_0000 <= x <= 0x7FFF_FFFF

  /** Two's complement wrap-around of 32-bit signed arithmetic. */
  function Wrap32(x: int): (r: i32)
    ensures (r - x) % 0x1_0000_0000 == 0
  {
    var m := x % 0x1_0000_0000;
    if m < 0x8000_0000 then m else m - 0x1_0000_0000
  }

  /** `s & ((1 << k) - 1)` */
  function LowBits(s: nat, k: nat): (b: nat)
    ensures b < Pow2(k)
  {
    if k == 0 then 0 else s % 2 + 2 * LowBits(s / 2, k - 1)
  }

  /** `count` bits of s from position `offset`. */
  function Bits(s: nat, offset: nat, count: nat): (b: nat)
    ensures b < Pow2(count)
  {
    LowBits(Shr(s, offset), count)
  }

  /** The number that digits d[0], d[1], ... with weights 1, 2, 4, ... stand for. */
  ghost function Eval(d: seq<int>): int
  {
    if d == [] then 0 else d[0] + 2 * Eval(d[1..])
  }

  // ----- facts about digit strings

  lemma {:induction false} EvalAppend(d: seq<int>, e: seq<int>)
    ensures Eval(d + e) == Eval(d) + Shl(Eval(e), |d|)
  {
    if d == [] {
      assert d + e == e;
    } else {
      EvalAppend(d[1..], e);
      assert (d + e)[1..] == d[1..] + e;
    }
  }

  lemma {:induction false} EvalZeros(d: seq<int>)
    requires forall j :: 0 <= j < |d| ==> d[j] == 0
    ensures Eval(d) == 0
  {
    if d != [] {
      EvalZeros(d[1..]);
    }
  }

  /** Writing one digit at position |d| and leaving the rest zero. */
  lemma {:induction false} EvalDigit(d: seq<int>, digit: int, rest: seq<int>)
    requires forall j :: 0 <= j < |rest| ==> rest[j] == 0
    ensures Eval(d + ([digit] + rest)) == Eval(d) + Shl(digit, |d|)
  {
    var tail := [digit] + rest;
    assert tail[1..] == rest;
    EvalZeros(rest);
    assert Eval(tail) == digit;
    EvalAppend(d, tail);
  }

  // ----- facts about bits

  lemma {:induction false} ShlSum(x: int, y: int, k: nat)
    ensures Shl(x + y, k) == Shl(x, k) + Shl(y, k)
    ensures Shl(x - y, k) == Shl(x, k) - Shl(y, k)
  {
    if k > 0 {
      ShlSum(x, y, k - 1);
    }
  }

  lemma {:induction false} ShlShl(x: int, j: nat, k: nat)
    ensures Shl(Shl(x, j), k) == Shl(x, j + k)
  {
    if k > 0 {
      ShlShl(x, j, k - 1);
    }
  }

  lemma {:induction false} ShlBit(carry: nat, k: nat)
    requires carry <= 1
    ensures Shl(carry, k) == if carry == 0 then 0 else Pow2(k)
  {
    if k > 0 {
      ShlBit(carry, k - 1);
    }
  }

  /** The low i+k bits are the low i bits and the k bits above them. */
  lemma {:induction false} LowBitsSplit(s: nat, i: nat, k: nat)
    ensures LowBits(s, i + k) == LowBits(s, i) + Shl(Bits(s, i, k), i)
  {
    if i > 0 {
      LowBitsSplit(s / 2, i - 1, k);
    }
  }

  lemma {:induction false} ShrBelow(s: nat, i: nat, k: nat)
    requires s < Pow2(i + k)
    ensures Shr(s, i) < Pow2(k)
  {
    if i > 0 {
      ShrBelow(s / 2, i - 1, k);
    }
  }

  lemma {:induction false} LowBitsAll(s: nat, k: nat)
    requires s < Pow2(k)
    ensures LowBits(s, k) == s
  {
    if k > 0 {
      LowBitsAll(s / 2, k - 1);
    }
  }

  lemma {:induction false} TopBit(s: nat, k: nat)
    requires s < 2 * Pow2(k)
    ensures Shr(s, k) == if s < Pow2(k) then 0 else 1
  {
    if k > 0 {
      TopBit(s / 2, k - 1);
    }
  }

  // ----- one digit

  /** `(word >> (window - 1)) & 1` */
  function CarryOut(word: nat, window: nat): (c: nat)
    requires window >= 1
    ensures c <= 1
  {
    Shr(word, window - 1) % 2
  }

  /** `word - (carry << window)` in wrapping 32-bit arithmetic. */
  function Digit(word: nat, carry: nat, window: nat): i32 { Wrap32(word - Wrap32(Shl(carry, window))) }

  /** A non-zero digit for the window: odd and below 2^(window - 1) in absolute value. */
  ghost predicate IsDigit(d: int, window: nat)
    requires window >= 1
  {
    d % 2 == 1 && d < Pow2(window - 1) && 0 < d + Pow2(window - 1)
  }

  lemma {:induction false} WindowPowers(window: nat)
    requires 2 <= window <= 31
    ensures Pow2(window) == 2 * Pow2(window - 1) && Pow2(window - 1) % 2 == 0
    ensures Pow2(window) <= 0x8000_0000
    ensures Pow2(window) == 0x8000_0000 <==> window == 31
  {
    assert Pow2(8) == 0x100;
    assert Pow2(16) == 0x1_0000;
    assert Pow2(24) == 0x100_0000;
    assert Pow2(30) == 0x4000_0000;
    if window < 31 {
      Pow2Monotone(window, 30);
    }
  }

  lemma {:induction false} CarryOutIs(word: nat, window: nat)
    requires 2 <= window <= 31 && word < Pow2(window)
    ensures CarryOut(word, window) == if word < Pow2(window - 1) then 0 else 1
  {
    TopBit(word, window - 1);
  }

  /** An odd word that fits the window splits into a digit and a carry. */
  lemma {:induction false} DigitOf(word: nat, carry: nat, window: nat)
    requires 2 <= window <= 31 && word % 2 == 1 && word < Pow2(window) && carry == CarryOut(word, window)
    ensures Digit(word, carry, window) == word - Shl(carry, window)
    ensures IsDigit(Digit(word, carry, window), window)
  {
    WindowPowers(window);
    CarryOutIs(word, window);
    ShlBit(carry, window);
    WrappedDigit(word, Shl(carry, window), Pow2(window - 1));
  }

  lemma WrappedDigit(word: nat, shifted: nat, half: nat)
    requires word < 2 * half <= 0x8000_0000 && half % 2 == 0 && word % 2 == 1
    requires shifted == if word < half then 0 else 2 * half
    ensures var d := Wrap32(word - Wrap32(shifted)); d == word - shifted && d % 2 == 1 && d < half && 0 < d + half
  {
    WrapOnce(shifted);
    WrapOnce(word - Wrap32(shifted));
    Parity(word, if word < half then 0 else half);
  }

  lemma Parity(word: nat, t: nat)
    requires word % 2 == 1
    ensures (word - 2 * t) % 2 == 1
  {
  }

  /** Values at most one turn away from the range. */
  lemma WrapOnce(x: int)
    requires -0x8000_0000 <= x < 0x1_8000_0000
    ensures Wrap32(x) == if x <= 0x7FFF_FFFF then x else x - 0x1_0000_0000
  {
  }

  /**
   * In checked arithmetic the subtraction overflows exactly for the window of 31 with a
   * carry, where `1 << 31` is already negative; wrapped around, the digit is right.
   */
  lemma {:induction false} SubtractionOverflow(word: nat, carry: nat, window: nat)
    requires 2 <= window <= 31 && word % 2 == 1 && word < Pow2(window) && carry == CarryOut(word, window)
    ensures word - Wrap32(Shl(carry, window)) > 0x7FFF_FFFF <==> window == 31 && carry == 1
  {
    WindowPowers(window);
    CarryOutIs(word, window);
    ShlBit(carry, window);
  }

  /** A scalar of 31 ones overflows at its first word with window 31. */
  lemma {:induction false} OnesOverflow()
    ensures var word := Bits(0x7FFF_FFFF, 0, 31);
      && word == 0x7FFF_FFFF && CarryOut(word, 31) == 1
      && word - Wrap32(Shl(CarryOut(word, 31), 31)) > 0x7FFF_FFFF
  {
    WindowPowers(31);
    LowBitsAll(0x7FFF_FFFF, 31);
    CarryOutIs(0x7FFF_FFFF, 31);
    SubtractionOverflow(0x7FFF_FFFF, 1, 31);
  }

  /** The windows of the two curves, like all below 31, never overflow. */
  lemma {:induction false} SmallWindowsNeverOverflow(word: nat, window: nat)
    requires 2 <= window <= 30 && word % 2 == 1 && word < Pow2(window)
    ensures word - Wrap32(Shl(CarryOut(word, window), window)) <= 0x7FFF_FFFF
  {
    SubtractionOverflow(word, CarryOut(word, window), window);
  }

  /** The next word is odd and fits its window ... */
  lemma {:induction false} NextWord(s: nat, bit: nat, now: nat, carry: nat)
    requires 0 < now && carry <= 1 && Bits(s, bit, 1) != carry
    ensures var word := Bits(s, bit, now) + carry; word % 2 == 1 && word < Pow2(now)
  {
    LowestBit(Shr(s, bit), 1);
    LowestBit(Shr(s, bit), now);
    OddBelow(Bits(s, bit, now), carry, Pow2(now - 1));
  }

  lemma {:induction false} LowestBit(x: nat, k: nat)
    requires k > 0
    ensures LowBits(x, k) % 2 == x % 2
    ensures k == 1 ==> LowBits(x, k) == x % 2
  {
    assert LowBits(x, k) == x % 2 + 2 * LowBits(x / 2, k - 1);
  }

  lemma OddBelow(b: nat, carry: nat, half: nat)
    requires b < 2 * half && carry <= 1 && b % 2 != carry
    ensures (b + carry) % 2 == 1 && b + carry < 2 * half
  {
  }

  /** ... and at the end of the string it leaves no carry. */
  lemma {:induction false} LastWord(s: nat, bit: nat, now: nat, carry: nat, window: nat, len: nat)
    requires 2 <= window <= 31 && bit < len && s < Pow2(len - 1) && carry <= 1
    requires now == Min(window, len - bit) && Bits(s, bit, 1) != carry
    requires now < window || bit + now == len
    ensures Bits(s, bit, now) + carry < Pow2(window - 1)
  {
    NextWord(s, bit, now, carry);
    if now < window {
      Pow2Monotone(now, window - 1);
    } else {
      WindowPowers(window);
      ShrBelow(s, bit, window - 1);
      LowBitsAll(Shr(s, bit), window);
    }
  }

  /** What the digits so far stand for when a digit of weight 2^bit is added. */
  lemma {:induction false} ValueStep(s: nat, bit: nat, now: nat, carry: nat, carry': nat, digit: int, window: nat)
    requires now == window || carry' == 0
    requires digit == Bits(s, bit, now) + carry - Shl(carry', window)
    ensures LowPart(s, bit + now, carry') == LowPart(s, bit, carry) + Shl(digit, bit)
  {
    LowBitsSplit(s, bit, now);
    ShiftedDigit(Bits(s, bit, now), carry, carry', bit, window);
    if carry' == 0 {
      ShlBit(0, bit + now);
      ShlBit(0, bit + window);
    }
  }

  lemma {:induction false} ShiftedDigit(b: int, carry: int, carry': int, bit: nat, window: nat)
    ensures Shl(b + carry - Shl(carry', window), bit) == Shl(b, bit) + Shl(carry, bit) - Shl(carry', bit + window)
  {
    ShlSum(b, carry, bit);
    ShlSum(b + carry, Shl(carry', window), bit);
    ShlShl(carry', window, bit);
  }

  // ----- the recoding loop

  /** Digits of the window, non-zero ones at least `window` apart, all at positions below `bits`. */
  ghost predicate IsWnaf(d: seq<int>, window: nat, bits: int)
    requires window >= 1
  {
    && 0 <= bits <= |d|
    && (bits > 0 ==> d[bits - 1] != 0)
    && (forall j :: bits <= j < |d| ==> d[j] == 0)
    && (forall j :: 0 <= j < |d| && d[j] != 0 ==> IsDigit(d[j], window))
    && (forall i, j :: 0 <= i < j < |d| && d[i] != 0 && d[j] != 0 ==> i + window <= j)
  }

  /** The absolute value that is recoded: scalars with the top bit set are negated modulo the order. */
  function Magnitude(s: nat, order: nat, width: nat): (m: nat)
    requires s < order && width > 0
  {
    if s < Pow2(width - 1) then s else order - s
  }

  /** With one digit per bit of the scalar, every scalar below the order can be recoded. */
  lemma FullWidth(s: nat, order: nat, width: nat)
    requires width > 0 && s < order < Pow2(width)
    ensures Magnitude(s, order, width) < Pow2(width - 1)
  {
  }

  function Signed(sign: int, x: int): int { if sign == 1 then x else -x }

  lemma SignTimes(sign: int, x: int)
    requires sign == 1 || sign == -1
    ensures sign * x == Signed(sign, x)
  {
  }

  /** What the digits below `bit` must stand for: the low bits of s, less the carry still to come. */
  ghost function LowPart(s: nat, bit: nat, carry: nat): int { LowBits(s, bit) - Shl(carry, bit) }

  /**
   * Fills a zeroed digit array for a scalar of `width` bits (256 in both curves). The digits
   * stand for the scalar, or for the scalar minus the group order when its top bit is set.
   */
  method Recode(wnaf: array<i32>, scalar: nat, order: nat, width: nat, window: nat) returns (bits: int)
    requires 2 <= window <= 31 && 0 < wnaf.Length <= width
    requires forall j :: 0 <= j < wnaf.Length ==> wnaf[j] == 0
    requires scalar < order <= Pow2(width) && Magnitude(scalar, order, width) < Pow2(wnaf.Length - 1)
    modifies wnaf
    ensures IsWnaf(wnaf[..], window, bits)
    ensures Eval(wnaf[..]) == if scalar < Pow2(width - 1) then scalar else scalar - order
  {
    TopBit(scalar, width - 1);
    var s, sign: int := scalar, 1;
    if Bits(s, width - 1, 1) > 0 {
      s := order - s;
      sign := -1;
    }
    bits := FillDigits(wnaf, s, sign, window);
  }

  /** The loop over the bits of s. */
  method FillDigits(wnaf: array<i32>, s: nat, sign: int, window: nat) returns (bits: int)
    requires 2 <= window <= 31 && 0 < wnaf.Length && (sign == 1 || sign == -1)
    requires forall j :: 0 <= j < wnaf.Length ==> wnaf[j] == 0
    requires s < Pow2(wnaf.Length - 1)
    modifies wnaf
    ensures IsWnaf(wnaf[..], window, bits)
    ensures Eval(wnaf[..]) == Signed(sign, s)
  {
    var bit, carry, last := 0, 0, -1;
    while bit < wnaf.Length
      invariant Progress(wnaf[..], s, sign, bit, carry, last, window)
    {
      if Bits(s, bit, 1) == carry {
        SkipProgress(wnaf[..], s, sign, bit, carry, last, window);
        bit := bit + 1;
      } else {
        var now := window;
        if now > wnaf.Length - bit {
          now := wnaf.Length - bit;
        }
        carry := WriteDigit(wnaf, s, sign, bit, now, carry, last, window);
        last := bit;
        bit := bit + now;
      }
    }
    Finished(wnaf[..], s, sign, bit, carry, last, window);
    bits := last + 1;
  }

  method WriteDigit(wnaf: array<i32>, s: nat, sign: int, bit: nat, now: nat, carry: nat, ghost last: int, window: nat)
    returns (carry': nat)
    requires Progress(wnaf[..], s, sign, bit, carry, last, window)
    requires bit < wnaf.Length && Bits(s, bit, 1) != carry && now == Min(window, wnaf.Length - bit)
    modifies wnaf
    ensures Progress(wnaf[..], s, sign, bit + now, carry', bit, window)
  {
    ghost var before: seq<int> := wnaf[..];
    var entry;
    ghost var digit;
    carry', entry, digit := NextDigit(s, sign, bit, now, carry, window, wnaf.Length);
    DigitProgress(before, s, sign, bit, now, carry, carry', digit, last, window);
    wnaf[bit] := entry;
    assert wnaf[..] == before[bit := entry];
  }

  /** The digit at `bit` and the carry it leaves; none at the end of the string. */
  method NextDigit(s: nat, sign: int, bit: nat, now: nat, carry: nat, window: nat, ghost len: nat)
    returns (carry': nat, entry: i32, ghost digit: int)
    requires sign == 1 || sign == -1
    requires 2 <= window <= 31 && bit < len && s < Pow2(len - 1) && carry <= 1 && Bits(s, bit, 1) != carry
    requires now == Min(window, len - bit)
    ensures carry' <= 1 && (now < window || bit + now == len ==> carry' == 0)
    ensures digit == Bits(s, bit, now) + carry - Shl(carry', window)
    ensures IsDigit(digit, window) && entry == Signed(sign, digit)
  {
    WindowPowers(window);
    var word := Bits(s, bit, now) + carry;
    carry' := CarryOut(word, window);
    WordStep(s, bit, now, carry, word, carry', window, len);
    DigitOf(word, carry', window);
    digit := Digit(word, carry', window);
    SignTimes(sign, digit);
    entry := sign * Digit(word, carry', window);
  }

  /** What holds between two iterations: the shape of the digits written so far and their value. */
  ghost predicate Progress(d: seq<int>, s: nat, sign: int, bit: int, carry: int, last: int, window: nat)
  {
    && 2 <= window <= 31 && (sign == 1 || sign == -1)
    && |d| > 0 && s < Pow2(|d| - 1)
    && 0 <= bit <= |d| && 0 <= carry <= 1 && (bit == |d| ==> carry == 0)
    && Eval(d[..bit]) == Signed(sign, LowPart(s, bit, carry))
    && Shape(d, bit, last, window)
  }

  ghost predicate Shape(d: seq<int>, bit: int, last: int, window: nat)
    requires window >= 1
  {
    && -1 <= last < bit <= |d|
    && (last >= 0 ==> last + window <= bit || bit == |d|)
    && IsWnaf(d, window, last + 1)
  }

  lemma {:induction false} SkipProgress(d: seq<int>, s: nat, sign: int, bit: nat, carry: nat, last: int, window: nat)
    requires Progress(d, s, sign, bit, carry, last, window) && bit < |d| && Bits(s, bit, 1) == carry
    ensures Progress(d, s, sign, bit + 1, carry, last, window)
  {
    LowBitsSplit(s, bit, 1);
    ShlShl(carry, 1, bit);
    ShlSum(carry, carry, bit);
    ShlBit(0, bit);
    EvalDigit(d[..bit], 0, []);
    assert d[..bit + 1] == d[..bit] + ([0] + []);
    if bit + 1 == |d| {
      ShrBelow(s, bit, 0);
    }
  }

  lemma {:induction false} DigitProgress(d: seq<int>, s: nat, sign: int, bit: nat, now: nat, carry: nat, carry': nat,
                                         digit: int,
                      last: int, window: nat)
    requires Progress(d, s, sign, bit, carry, last, window) && bit < |d| && now == Min(window, |d| - bit)
    requires carry' <= 1 && (now < window || bit + now == |d| ==> carry' == 0)
    requires digit == Bits(s, bit, now) + carry - Shl(carry', window) && IsDigit(digit, window)
    ensures Progress(d[bit := Signed(sign, digit)], s, sign, bit + now, carry', bit, window)
  {
    var entry := Signed(sign, digit);
    SignedDigit(sign, digit, window);
    ShapeStep(d, entry, bit, now, last, window);
    ValueProgress(d, s, sign, bit, now, carry, carry', digit, window);
    assert |d[bit := entry]| == |d|;
  }

  lemma SignedDigit(sign: int, digit: int, window: nat)
    requires window >= 1 && IsDigit(digit, window)
    ensures IsDigit(Signed(sign, digit), window) && Signed(sign, digit) != 0
  {
  }

  lemma {:induction false} ValueProgress(d: seq<int>, s: nat, sign: int, bit: nat, now: nat, carry: nat, carry': nat,
                                         digit: int, window: nat)
    requires 0 < now && bit + now <= |d| && forall j :: bit <= j < |d| ==> d[j] == 0
    requires now == window || carry' == 0
    requires digit == Bits(s, bit, now) + carry - Shl(carry', window)
    requires Eval(d[..bit]) == Signed(sign, LowPart(s, bit, carry))
    ensures Eval(d[bit := Signed(sign, digit)][..bit + now]) == Signed(sign, LowPart(s, bit + now, carry'))
  {
    ValueStep(s, bit, now, carry, carry', digit, window);
    ShlSum(0, digit, bit);
    ShlBit(0, bit);
    DigitStep(d, Signed(sign, digit), bit, now);
  }

  /** The next word, and the carry it leaves at the end of the string. */
  lemma {:induction false} WordStep(s: nat, bit: nat, now: nat, carry: nat, word: nat, carry': nat, window: nat,
                                    len: nat)
    requires 2 <= window <= 31 && bit < len && s < Pow2(len - 1) && carry <= 1 && Bits(s, bit, 1) != carry
    requires now == Min(window, len - bit) && word == Bits(s, bit, now) + carry && carry' == CarryOut(word, window)
    ensures word % 2 == 1 && word < Pow2(window)
    ensures now < window || bit + now == len ==> carry' == 0
  {
    NextWord(s, bit, now, carry);
    Pow2Monotone(now, window);
    if now < window || bit + now == len {
      LastWord(s, bit, now, carry, window, len);
      CarryOutIs(word, window);
    }
  }

  lemma {:induction false} DigitStep(d: seq<int>, digit: int, bit: nat, now: nat)
    requires 0 < now && bit + now <= |d| && forall j :: bit <= j < |d| ==> d[j] == 0
    ensures Eval(d[bit := digit][..bit + now]) == Eval(d[..bit]) + Shl(digit, bit)
  {
    var rest := d[bit + 1..bit + now];
    assert d[bit := digit][..bit + now] == d[..bit] + ([digit] + rest);
    EvalDigit(d[..bit], digit, rest);
  }

  lemma {:induction false} ShapeStep(d: seq<int>, digit: int, bit: nat, now: nat, last: int, window: nat)
    requires window >= 1 && Shape(d, bit, last, window) && bit < |d| && now == Min(window, |d| - bit)
    requires IsDigit(digit, window) && digit != 0
    ensures Shape(d[bit := digit], bit + now, bit, window)
  {
  }

  lemma {:induction false} Finished(d: seq<int>, s: nat, sign: int, bit: nat, carry: nat, last: int, window: nat)
    requires Progress(d, s, sign, bit, carry, last, window) && bit == |d|
    ensures Eval(d) == Signed(sign, s)
  {
    assert d[..bit] == d;
    Pow2Monotone(bit - 1, bit);
    LowBitsAll(s, bit);
    ShlBit(0, bit);
  }
}
