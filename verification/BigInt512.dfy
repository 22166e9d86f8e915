/** Two-limb modular arithmetic on delegated 256-bit cells. */
module BigInt512 {
  import opened Numbers
  import opened BigIntDelegation
  import opened BigInt256

  /** A 512-bit number in two cells. */
  datatype Wide = Wide(low: Cell, high: Cell)

  ghost function Value(w: Wide): (v: nat)
    reads w.low, w.high
  {
    w.high.v * R + w.low.v
  }

  /** The static cells of the module. */
  class WideStatics {
    const mul0: Cell
    const mul1: Cell
    const mul2: Cell
    const mul3: Cell
    const mul4: Cell
    const mul5: Cell
    const copy: Wide
    const lowWord: Cell
    const one: Cell
    const zero: Cell
    const scratch: Cell

    constructor ()
      ensures Valid()
    {
      mul0 := new Cell(Static(Mul0), 0);
      mul1 := new Cell(Static(Mul1), 0);
      mul2 := new Cell(Static(Mul2), 0);
      mul3 := new Cell(Static(Mul3), 0);
      mul4 := new Cell(Static(Mul4), 0);
      mul5 := new Cell(Static(Mul5), 0);
      var low := new Cell(Static(CopyLow), 0);
      var high := new Cell(Static(CopyHigh), 0);
      copy := Wide(low, high);
      lowWord := new Cell(Static(LowWord), 0);
      one := new Cell(Static(One), 1);
      zero := new Cell(Static(Zero), 0);
      scratch := new Cell(Static(Scratch), 0);
    }

    /** The upper limbs of the low-word cell stay zero: only its lowest limb is ever written. */
    ghost predicate Valid()
      reads one, zero, lowWord
    {
      && mul0.place == Static(Mul0) && mul1.place == Static(Mul1) && mul2.place == Static(Mul2)
      && mul3.place == Static(Mul3) && mul4.place == Static(Mul4) && mul5.place == Static(Mul5)
      && copy.low.place == Static(CopyLow) && copy.high.place == Static(CopyHigh)
      && lowWord.place == Static(LowWord) && scratch.place == Static(Scratch)
      && one.place == Static(One) && zero.place == Static(Zero)
      && one.v == 1 && zero.v == 0 && lowWord.v < LIMB
    }

    /** Neither half is one of the static cells, and the halves are different cells. */
    ghost predicate Outside(w: Wide) { !w.low.place.Static? && !w.high.place.Static? && w.low != w.high }

    ghost predicate Owned(w: Wide) { w.low.place.Ram? && w.high.place.Ram? && w.low != w.high }
  }

  ghost predicate Apart(a: Wide, b: Wide)
  {
    a.low != b.low && a.low != b.high && a.high != b.low && a.high != b.high
  }

  /** Overwrites the lowest limb of a cell and keeps the others. */
  method SetLowLimb(c: Cell, x: nat)
    requires x < LIMB && c.v < LIMB
    modifies c
    ensures c.v == x
  {
    c.v := (c.v / LIMB) * LIMB + x;
  }

  // ----- sums and differences

  method AddWide(st: WideStatics, a: Wide, b: Wide) returns (carry: bool)
    requires st.Valid() && st.Owned(a) && Apart(a, b) && (st.Outside(b) || b == st.copy)
    modifies a.low, a.high, st.scratch
    ensures Value(a) + (if carry then R * R else 0) == old(Value(a)) + old(Value(b))
  {
    ghost var l, h, l', h' := a.low.v, a.high.v, b.low.v, b.high.v;
    var b0 := CopyIfNeeded(b.low, st.scratch);
    var carry0 := Add(a.low, b0);
    var b1 := CopyIfNeeded(b.high, st.scratch);
    carry := AddWithCarry(a.high, b1, carry0);
    SumOfLimbs(l, h, l', h', a.low.v, a.high.v, carry0, carry);
  }

  lemma SumOfLimbs(l: int, h: int, l': int, h': int, low: int, high: int, carry0: bool, carry: bool)
    requires low + Overflow(carry0) == l + l' && high + Overflow(carry) == h + h' + Bit(carry0)
    ensures high * R + low + (if carry then R * R else 0) == (h * R + l) + (h' * R + l')
  {
    MulEq(high + Overflow(carry), h + h' + Bit(carry0), R);
  }

  method SubWide(st: WideStatics, a: Wide, b: Wide) returns (borrow: bool)
    requires st.Valid() && st.Owned(a) && Apart(a, b) && (st.Outside(b) || b == st.copy)
    modifies a.low, a.high, st.scratch
    ensures Value(a) == old(Value(a)) - old(Value(b)) + (if borrow then R * R else 0)
  {
    ghost var l, h, l', h' := a.low.v, a.high.v, b.low.v, b.high.v;
    var b0 := CopyIfNeeded(b.low, st.scratch);
    var borrow0 := Sub(a.low, b0);
    var b1 := CopyIfNeeded(b.high, st.scratch);
    borrow := SubWithCarry(a.high, b1, borrow0);
    SumOfLimbs(a.low.v, a.high.v, l', h', l, h, borrow0, borrow);
  }

  /** The value of two limbs. */
  lemma WideBound(high: U256, low: U256)
    ensures 0 <= high * R + low < R * R
  {
    MulMono(high, R - 1, R);
  }

  /** Brings a value below twice the modulus into range; `carry` is its bit 512. */
  method SubModWithCarry(st: WideStatics, a: Wide, modulus: Wide, carry: bool)
    requires st.Valid() && st.Owned(a) && st.Owned(modulus) && Apart(a, modulus)
    requires Value(a) + (if carry then R * R else 0) < 2 * Value(modulus)
    modifies a.low, a.high, st.scratch
    ensures Value(a) == OnceReduced(old(Value(a)) + (if carry then R * R else 0), Value(modulus)) < Value(modulus)
  {
    WideBound(modulus.high.v, modulus.low.v);
    WideBound(a.high.v, a.low.v);
    var borrow := SubWide(st, a, modulus);
    WideBound(a.high.v, a.low.v);
    if borrow && !carry {
      var of := AddWide(st, a, modulus);
      WideBound(a.high.v, a.low.v);
    }
  }

  method AddModAssign(st: WideStatics, a: Wide, b: Wide, modulus: Wide)
    requires st.Valid() && st.Owned(a) && st.Owned(modulus) && Apart(a, modulus) && Apart(a, b)
    requires st.Outside(b) || b == st.copy
    requires Value(a) + Value(b) < 2 * Value(modulus)
    modifies a.low, a.high, st.scratch
    ensures Value(a) == (old(Value(a)) + old(Value(b))) % Value(modulus)
  {
    OnceReducedIsResidue(Value(a) + Value(b), Value(modulus));
    var carry := AddWide(st, a, b);
    SubModWithCarry(st, a, modulus, carry);
  }

  method SubModAssign(st: WideStatics, a: Wide, b: Wide, modulus: Wide)
    requires st.Valid() && st.Owned(a) && st.Owned(modulus) && Apart(a, modulus) && Apart(a, b) && st.Outside(b)
    requires Value(a) < Value(modulus) && Value(b) < Value(modulus)
    modifies a.low, a.high, st.scratch
    ensures Value(a) == (old(Value(a)) - old(Value(b))) % Value(modulus)
  {
    ghost var difference, m := Value(a) - Value(b), Value(modulus);
    var borrow := SubWide(st, a, b);
    WideBound(a.high.v, a.low.v);
    WideBound(modulus.high.v, modulus.low.v);
    if borrow {
      var of := AddWide(st, a, modulus);
      WideBound(a.high.v, a.low.v);
    }
    DivModUnique(difference, m, if difference < 0 then -1 else 0, Value(a));
  }

  method CopyWide(dst: Wide, src: Wide)
    requires dst.low.InRam() && dst.high.InRam() && src.low.InRam() && src.high.InRam()
    requires Apart(dst, src) && dst.low != dst.high
    modifies dst.low, dst.high
    ensures dst.low.v == src.low.v && dst.high.v == src.high.v
  {
    MemCpy(dst.low, src.low);
    MemCpy(dst.high, src.high);
  }

  method DoubleModAssign(st: WideStatics, a: Wide, modulus: Wide)
    requires st.Valid() && st.Owned(a) && st.Owned(modulus) && Apart(a, modulus)
    requires Value(a) < Value(modulus)
    modifies a.low, a.high, st.copy.low, st.copy.high, st.scratch
    ensures Value(a) == (2 * old(Value(a))) % Value(modulus)
  {
    CopyWide(st.copy, a);
    AddModAssign(st, a, st.copy, modulus);
  }

  // ----- negation

  /** What the code computes: it negates only when both halves are non-zero. */
  ghost function Negated(low: U256, high: U256, m: nat): int
  {
    if low != 0 && high != 0 then m - (high * R + low) else high * R + low
  }

  method NegModAssign(st: WideStatics, a: Wide, modulus: Wide)
    requires st.Valid() && st.Owned(a) && st.Owned(modulus) && Apart(a, modulus)
    requires Value(a) < Value(modulus)
    modifies a.low, a.high
    ensures Value(a) == Negated(old(a.low.v), old(a.high.v), Value(modulus))
  {
    var isLowZero := Eq(a.low, st.zero);
    var isHighZero := Eq(a.high, st.zero);
    if !isLowZero && !isHighZero {
      ghost var x, m := Value(a), Value(modulus);
      ghost var l, h := a.low.v, a.high.v;
      var borrow0 := SubAndNegateWithCarry(a.low, modulus.low, false);
      var borrow := SubAndNegateWithCarry(a.high, modulus.high, borrow0);
      SumOfLimbs(a.low.v, a.high.v, l, h, modulus.low.v, modulus.high.v, borrow0, borrow);
      WideBound(a.high.v, a.low.v);
    }
  }

  /**
   * It is the negation modulo m exactly for zero, for values with both halves non-zero, and
   * for half of an even m, which is its own negation.
   */
  lemma NegatedExactly(low: U256, high: U256, m: nat)
    requires high * R + low < m
    ensures Negated(low, high, m) == (0 - (high * R + low)) % m
       <==> (low == 0 && high == 0) || (low != 0 && high != 0) || 2 * (high * R + low) == m
  {
    var x := high * R + low;
    MulMono(0, high, R);
    if high > 0 {
      MulMono(1, high, R);
    }
    assert x == 0 <==> low == 0 && high == 0;
    DivModUnique(0 - x, m, if x == 0 then 0 else -1, if x == 0 then 0 else m - x);
  }

  lemma NegatedFailsOnOne()
    ensures Negated(1, 0, 3) == 1 && (0 - 1) % 3 == 2
  {
  }

  // ----- Montgomery multiplication

  /** lo, hi := the halves of x*y + c. */
  method Accumulate(st: WideStatics, lo: Cell, hi: Cell, x: Cell, y: Cell, c: Cell)
    requires st.Valid() && Operands(lo, hi) && Operands(lo, x) && Operands(lo, y) && Operands(lo, c)
    requires hi != x && hi != y && hi != c && hi != st.one && lo != st.one
    modifies lo, hi
    ensures hi.v * R + lo.v == x.v * y.v + c.v
  {
    MemCpy(lo, x);
    MemCpy(hi, lo);
    ghost var q := MulLow(lo, y);
    ghost var low := lo.v;
    var of := Add(lo, c);
    ghost var low' := MulHigh(hi, y);
    SameSplit(low, q, hi.v, low');
    if of {
      var of' := Add(hi, st.one);
    }
  }

  /** lo := x*y + c + d modulo R; the product's quotient and both carries are owed to the high half. */
  method AccumulateLow(lo: Cell, x: Cell, y: Cell, c: Cell, d: Cell)
    returns (of0: bool, of1: bool, ghost q: nat, ghost low: U256)
    requires Operands(lo, x) && Operands(lo, y) && Operands(lo, c) && Operands(lo, d)
    modifies lo
    ensures low + q * R == x.v * y.v
    ensures lo.v + Overflow(of0) + Overflow(of1) == low + c.v + d.v
    ensures of0 && of1 ==> low >= 2
  {
    MemCpy(lo, x);
    q := MulLow(lo, y);
    low := lo.v;
    of0 := Add(lo, c);
    of1 := Add(lo, d);
  }

  /** hi := the high half belonging to AccumulateLow; hi holds x on entry. No carry is lost. */
  method AccumulateHigh(st: WideStatics, hi: Cell, y: Cell, of0: bool, of1: bool, ghost q: nat, ghost low: U256)
    requires st.Valid() && Operands(hi, y) && hi != st.lowWord && hi != st.one && hi != st.zero && y != st.lowWord
    requires low + q * R == hi.v * y.v && (of0 && of1 ==> low >= 2)
    modifies hi, st.lowWord
    ensures st.Valid()
    ensures hi.v == q + Bit(of0) + Bit(of1)
  {
    ghost var x := hi.v;
    ghost var low' := MulHigh(hi, y);
    SameSplit(low, q, hi.v, low');
    ProductBound(x, y.v, hi.v, low');
    if of0 || of1 {
      SetLowLimb(st.lowWord, Bit(of0) + Bit(of1));
      var of := Add(hi, st.lowWord);
    }
  }

  /** What the two halves add up to. */
  lemma Accumulated(hi: int, lo: int, p: int, q: int, low: int, c: int, d: int, of0: bool, of1: bool)
    requires low + q * R == p
    requires lo + Overflow(of0) + Overflow(of1) == low + c + d
    requires hi == q + Bit(of0) + Bit(of1)
    ensures hi * R + lo == p + c + d
  {
    MulEq(hi, q + Bit(of0) + Bit(of1), R);
  }

  /** carry := (r0 + k*m0) / R exactly, where m0 is the low half of the modulus; `low` ends at zero. */
  method CancelLow(st: WideStatics, low: Cell, carry: Cell, m0: Cell, k: Cell, r0: Cell, ghost q: int)
    requires st.Valid() && Operands(low, m0) && Operands(low, k) && Operands(low, r0) && Operands(carry, m0)
    requires Operands(carry, k)
    requires carry != low && low != st.one && carry != st.one
    requires r0.v + m0.v * k.v == q * R
    modifies low, carry
    ensures carry.v == q && low.v == 0
  {
    ghost var r := r0.v;
    MemCpy(low, m0);
    ghost var high := MulLow(low, k);
    ghost var l := low.v;
    var of := Add(low, r0);
    MemCpy(carry, m0);
    ghost var l' := MulHigh(carry, k);
    SameSplit(l, high, carry.v, l');
    CancelledLow(r, carry.v, l, q);
    if of {
      var of' := Add(carry, st.one);
    }
  }

  /** k := the factor for which r0 + m0*k is a multiple of R. */
  method ReductionFactor(k: Cell, r0: Cell, modulus: Wide, reductionConst: Cell, ghost rInv: nat) returns (ghost q: int)
    requires Operands(k, r0) && Operands(k, reductionConst) && k != modulus.low && k != modulus.high
    requires IsReductionConst(reductionConst.v, Value(modulus), rInv)
    modifies k
    ensures r0.v + modulus.low.v * k.v == q * R
  {
    MemCpy(k, r0);
    ghost var dropped := MulLow(k, reductionConst);
    q := ClearsLow(r0.v, reductionConst.v, modulus.low.v, modulus.high.v, rInv, k.v, dropped);
  }

  lemma ClearsLow(r0: nat, rc: nat, m0: nat, m1: nat, rInv: nat, k: nat, dropped: nat) returns (q: int)
    requires IsReductionConst(rc, m1 * R + m0, rInv) && k + dropped * R == r0 * rc
    ensures r0 + m0 * k == q * R
  {
    var m := m1 * R + m0;
    ReductionClearsLow(r0, rc, m, rInv, k, dropped);
    q := r0 * rInv - dropped * m - m1 * k;
    assert k * m == m0 * k + m1 * k * R;
  }

  /** A cell that the rounds read but do not write. */
  ghost predicate Factor(st: WideStatics, b: Cell)
  {
    b.place.Ram? || b == st.scratch || b == st.copy.low || b == st.copy.high
  }

  /** carry := (r0 + k*m0) / R for the factor k that makes it exact; k is left in its cell. */
  method ReduceLow(st: WideStatics, r0: Cell, k: Cell, low: Cell, carry: Cell, modulus: Wide, reductionConst: Cell,
                   ghost rInv: nat)
    requires st.Valid() && Operands(k, r0) && Operands(k, reductionConst)
    requires Operands(low, modulus.low) && Operands(low, k) && Operands(low, r0) && Operands(carry, modulus.low)
    requires Operands(carry, k)
    requires carry != low && low != st.one && carry != st.one && k != st.one && carry != r0
    requires k != modulus.low && k != modulus.high && k != st.zero && k != st.lowWord
    requires IsReductionConst(reductionConst.v, Value(modulus), rInv)
    modifies k, low, carry
    ensures carry.v * R == r0.v + k.v * modulus.low.v
  {
    ghost var q := ReductionFactor(k, r0, modulus, reductionConst, rInv);
    CancelLow(st, low, carry, modulus.low, k, r0, q);
  }

  /** The low limbs of round one: what is carried into the high limbs, and the reduction factor in mul2. */
  method FirstLow(st: WideStatics, a0: Cell, b0: Cell, modulus: Wide, reductionConst: Cell, ghost rInv: nat)
    requires st.Valid() && st.Owned(modulus) && Factor(st, a0) && Factor(st, b0) && Factor(st, reductionConst)
    requires IsReductionConst(reductionConst.v, Value(modulus), rInv)
    modifies st.mul0, st.mul1, st.mul2, st.mul3, st.mul4
    ensures (st.mul1.v + st.mul4.v) * R == a0.v * b0.v + st.mul2.v * modulus.low.v
  {
    MemCpy(st.mul0, a0);
    MemCpy(st.mul1, st.mul0);
    WideProduct(st.mul0, st.mul1, b0);
    ReduceLow(st, st.mul0, st.mul2, st.mul3, st.mul4, modulus, reductionConst, rInv);
    Regroup(a0.v, b0.v, st.mul1.v, st.mul0.v, st.mul4.v, st.mul2.v, modulus.low.v);
  }

  /** lo, hi := the halves of x*y + c + hi. */
  method AccumulateOver(st: WideStatics, lo: Cell, hi: Cell, x: Cell, y: Cell, c: Cell)
    requires st.Valid() && Operands(lo, x) && Operands(lo, y) && Operands(lo, c) && Operands(lo, hi)
    requires Operands(hi, x) && Operands(hi, y) && y != st.lowWord && x != st.lowWord
    requires hi != st.lowWord && hi != st.one && hi != st.zero && lo != st.lowWord && lo != st.one && lo != st.zero
    modifies lo, hi, st.lowWord
    ensures st.Valid()
    ensures hi.v * R + lo.v == x.v * y.v + old(c.v) + old(hi.v)
  {
    ghost var c', d := c.v, hi.v;
    var of0, of1;
    ghost var q, low;
    of0, of1, q, low := AccumulateLow(lo, x, y, c, hi);
    MemCpy(hi, x);
    AccumulateHigh(st, hi, y, of0, of1, q, low);
    Accumulated(hi.v, lo.v, x.v * y.v, q, low, c', d, of0, of1);
  }

  /** The high limbs of round one, still in two pieces: mul5 + mul4 and mul1. */
  method FirstHigh(st: WideStatics, a1: Cell, b0: Cell, m1: Cell)
    requires st.Valid() && Factor(st, a1) && Factor(st, b0) && Factor(st, m1)
    modifies st.mul1, st.mul3, st.mul4, st.mul5, st.lowWord
    ensures st.Valid()
    ensures (st.mul5.v + st.mul4.v) * R + st.mul1.v == a1.v * b0.v + m1.v * st.mul2.v + old(st.mul1.v) + old(st.mul4.v)
  {
    Accumulate(st, st.mul3, st.mul5, a1, b0, st.mul1);
    AccumulateOver(st, st.mul1, st.mul4, m1, st.mul2, st.mul3);
  }

  /** An addition that cannot overflow. */
  method AddWithoutCarry(a: Cell, b: Cell)
    requires Operands(a, b) && a.v + b.v < R
    modifies a
    ensures a.v == old(a.v) + b.v
  {
    var of := Add(a, b);
  }

  /** All limbs of round one, with what the low ones carry and the sum before its last addition. */
  method FirstLimbs(st: WideStatics, a: Wide, b0: Cell, modulus: Wide, reductionConst: Cell, ghost rInv: nat)
    returns (ghost k: U256, ghost carries: nat)
    requires st.Valid() && st.Owned(a) && st.Owned(modulus) && Factor(st, b0) && Factor(st, reductionConst)
    requires IsReductionConst(reductionConst.v, Value(modulus), rInv)
    modifies st.mul0, st.mul1, st.mul2, st.mul3, st.mul4, st.mul5, st.lowWord
    ensures st.Valid()
    ensures carries * R == a.low.v * b0.v + k * modulus.low.v
    ensures (st.mul5.v + st.mul4.v) * R + st.mul1.v == a.high.v * b0.v + modulus.high.v * k + carries
  {
    FirstLow(st, a.low, b0, modulus, reductionConst, rInv);
    k, carries := st.mul2.v, st.mul1.v + st.mul4.v;
    FirstHigh(st, a.high, b0, modulus.high);
  }

  /** Round one: mul5, mul1 := (a*b0 + k*m) / R, exactly; below h*R its high limb stays below 2*h. */
  method FirstRound(st: WideStatics, a: Wide, b0: Cell, modulus: Wide, reductionConst: Cell, ghost rInv: nat,
                    ghost h: nat)
    returns (ghost k: U256, ghost r: nat)
    requires st.Valid() && st.Owned(a) && st.Owned(modulus) && Factor(st, b0) && Factor(st, reductionConst)
    requires IsReductionConst(reductionConst.v, Value(modulus), rInv)
    requires 0 < Value(a) + Value(modulus) <= R * R
    modifies st.mul0, st.mul1, st.mul2, st.mul3, st.mul4, st.mul5, st.lowWord
    ensures st.Valid()
    ensures st.mul5.v * R + st.mul1.v == r < Value(a) + Value(modulus)
    ensures r * R == Value(a) * b0.v + k * Value(modulus)
    ensures Fits(Value(a), h) && Fits(Value(modulus), h) ==> st.mul5.v < 2 * h
  {
    ghost var carries;
    k, carries := FirstLimbs(st, a, b0, modulus, reductionConst, rInv);
    ghost var high, low := st.mul5.v + st.mul4.v, st.mul1.v;
    Round(Value(a), a.low.v, a.high.v, b0.v, Value(modulus), modulus.low.v, modulus.high.v, k, carries, 0, 0,
          high, low, h);
    AddWithoutCarry(st.mul5, st.mul4);
    r := Value(Wide(st.mul1, st.mul5));
  }

  /**
   * The limbs of a round put together: it adds r = r1*R + r0 to the product and the
   * multiple of m, and divides by R. The result stays below a + m, so it fits two limbs.
   */
  lemma Round(a: nat, a0: nat, a1: nat, b: U256, m: nat, m0: nat, m1: nat, k: U256, carries: nat, r0: nat, r1: nat,
              high: nat, low: U256, h: nat)
    requires a == a1 * R + a0 && m == m1 * R + m0 && r1 * R + r0 < a + m <= R * R
    requires carries * R == a0 * b + k * m0 + r0
    requires high * R + low == a1 * b + m1 * k + carries + r1
    ensures (high * R + low) * R == a * b + k * m + (r1 * R + r0)
    ensures high < R && high * R + low < a + m
    ensures Fits(a, h) && Fits(m, h) ==> high < 2 * h
  {
    RoundIdentity(a, a0, a1, b, m, m0, m1, k, carries, r0, r1, high * R + low);
    RoundBelow(a, b, m, k, r1 * R + r0, high * R + low);
    HighBelow(high, low, R);
    if Fits(a, h) && Fits(m, h) {
      TopHalfStaysEmpty(a, m, h, high, low);
    }
  }

  /** Below h times the radix. */
  ghost predicate Fits(x: nat, h: nat) { x < h * R }

  lemma RoundIdentity(a: nat, a0: nat, a1: nat, b: nat, m: nat, m0: nat, m1: nat, k: nat, carries: nat, r0: nat,
                      r1: nat, v: nat)
    requires a == a1 * R + a0 && m == m1 * R + m0
    requires carries * R == a0 * b + k * m0 + r0
    requires v == a1 * b + m1 * k + carries + r1
    ensures v * R == a * b + k * m + (r1 * R + r0)
  {
    var p, s := a1 * b, m1 * k;
    assert v * R == p * R + s * R + carries * R + r1 * R;
    assert a * b == p * R + a0 * b by { MulEq(a, a1 * R + a0, b); }
    assert k * m == s * R + k * m0 by { MulEq(m, m1 * R + m0, k); }
  }

  lemma RoundBelow(a: nat, b: U256, m: nat, k: U256, r: nat, v: nat)
    requires v * R == a * b + k * m + r && r < a + m
    ensures v < a + m
  {
    MulMono(b, R - 1, a);
    MulMono(k, R - 1, m);
    if v >= a + m {
      MulMono(a + m, v, R);
    }
  }

  /** With a and m below h*R, the high limb of either round is below 2*h; on the machine h is 2^127. */
  lemma TopHalfStaysEmpty(a: nat, m: nat, h: nat, high: nat, low: U256)
    requires Fits(a, h) && Fits(m, h) && high * R + low < a + m
    ensures high < 2 * h
  {
    HighBelow(high, low, 2 * h);
  }

  /** The low limbs of round two; the reduction factor is left in mul1. */
  method SecondLow(st: WideStatics, a0: Cell, b1: Cell, modulus: Wide, reductionConst: Cell, ghost rInv: nat)
    requires st.Valid() && st.Owned(modulus) && Factor(st, a0) && Factor(st, b1) && Factor(st, reductionConst)
    requires IsReductionConst(reductionConst.v, Value(modulus), rInv)
    modifies st.mul0, st.mul1, st.mul2, st.mul3, st.mul4
    ensures (st.mul2.v + st.mul4.v) * R == a0.v * b1.v + st.mul1.v * modulus.low.v + old(st.mul1.v)
  {
    ghost var r0 := st.mul1.v;
    Accumulate(st, st.mul0, st.mul2, a0, b1, st.mul1);
    ghost var high, low := st.mul2.v, st.mul0.v;
    ReduceLow(st, st.mul0, st.mul1, st.mul3, st.mul4, modulus, reductionConst, rInv);
    RegroupWith(a0.v, b1.v, r0, high, low, st.mul4.v, st.mul1.v, modulus.low.v);
  }

  lemma RegroupWith(x: nat, y: nat, r: nat, high: nat, low: nat, q: nat, k: nat, m: nat)
    requires high * R + low == x * y + r && q * R == low + k * m
    ensures (high + q) * R == x * y + k * m + r
  {
  }

  /** The high limbs of round two, written over a: a.high + mul4 and a.low. */
  method SecondHigh(st: WideStatics, a: Wide, b1: Cell, m1: Cell)
    requires st.Valid() && st.Owned(a) && Factor(st, b1) && Factor(st, m1) && Apart(a, Wide(b1, m1))
    modifies st.mul3, st.mul4, st.lowWord, a.low, a.high
    ensures st.Valid()
    ensures (a.high.v + st.mul4.v) * R + a.low.v
         == old(a.high.v) * b1.v + m1.v * st.mul1.v + (st.mul2.v + old(st.mul4.v)) + st.mul5.v
  {
    MultiplyOver(st, st.mul3, a.high, b1, st.mul2, st.mul5);
    AccumulateOver(st, a.low, st.mul4, m1, st.mul1, st.mul3);
  }

  /** lo, hi := the halves of hi*y + c + d. */
  method MultiplyOver(st: WideStatics, lo: Cell, hi: Cell, y: Cell, c: Cell, d: Cell)
    requires st.Valid() && Operands(lo, hi) && Operands(lo, y) && Operands(lo, c) && Operands(lo, d)
    requires Operands(hi, y) && y != st.lowWord
    requires hi != st.lowWord && hi != st.one && hi != st.zero && lo != st.lowWord && lo != st.one && lo != st.zero
    modifies lo, hi, st.lowWord
    ensures st.Valid()
    ensures hi.v * R + lo.v == old(hi.v) * y.v + old(c.v) + old(d.v)
  {
    ghost var x, c', d' := hi.v, c.v, d.v;
    var of0, of1;
    ghost var q, low;
    of0, of1, q, low := AccumulateLow(lo, hi, y, c, d);
    AccumulateHigh(st, hi, y, of0, of1, q, low);
    Accumulated(hi.v, lo.v, x * y.v, q, low, c', d', of0, of1);
  }

  /** Round two: a := (a*b1 + k*m + r) / R, exactly, for r in mul5, mul1. */
  method SecondRound(st: WideStatics, a: Wide, b1: Cell, modulus: Wide, reductionConst: Cell, ghost rInv: nat,
                     ghost r: nat, ghost h: nat)
    returns (ghost k: U256)
    requires st.Valid() && st.Owned(a) && st.Owned(modulus) && Factor(st, b1) && Factor(st, reductionConst)
    requires Apart(a, modulus) && Apart(a, Wide(b1, reductionConst))
    requires IsReductionConst(reductionConst.v, Value(modulus), rInv)
    requires st.mul5.v * R + st.mul1.v == r < Value(a) + Value(modulus) <= R * R
    modifies st.mul0, st.mul1, st.mul2, st.mul3, st.mul4, st.lowWord, a.low, a.high
    ensures st.Valid()
    ensures Value(a) * R == old(Value(a)) * b1.v + k * Value(modulus) + r
    ensures Fits(old(Value(a)), h) && Fits(Value(modulus), h) ==> a.high.v < 2 * h
  {
    ghost var r0 := st.mul1.v;
    ghost var x, x0, x1 := Value(a), a.low.v, a.high.v;
    SecondLow(st, a.low, b1, modulus, reductionConst, rInv);
    k := st.mul1.v;
    ghost var carries := st.mul2.v + st.mul4.v;
    SecondHigh(st, a, b1, modulus.high);
    ghost var high, low := a.high.v + st.mul4.v, a.low.v;
    Round(x, x0, x1, b1.v, Value(modulus), modulus.low.v, modulus.high.v, k, carries, r0, st.mul5.v, high, low, h);
    AddWithoutCarry(a.high, st.mul4);
  }

  /** Congruent to x * y / R^2 modulo m, and below m + x * y / R^2 and x + m. */
  ghost predicate IsProduct(v: nat, x: nat, y: nat, m: nat, rInv: nat)
    requires m > 0
  {
    v % m == (x * y * rInv * rInv) % m && v * (R * R) < x * y + m * (R * R) && v < x + m
  }

  /** The two rounds, one for each limb of b. */
  method BothRounds(st: WideStatics, a: Wide, b: Wide, modulus: Wide, reductionConst: Cell, ghost rInv: nat,
                    ghost h: nat)
    returns (ghost k0: U256, ghost k1: U256, ghost r: nat)
    requires st.Valid() && st.Owned(a) && st.Owned(modulus) && reductionConst.place.Ram?
    requires Apart(a, modulus) && Apart(a, b) && Apart(a, Wide(reductionConst, reductionConst))
    requires st.Outside(b) || b == st.copy
    requires Value(modulus) > 0 && IsReductionConst(reductionConst.v, Value(modulus), rInv)
    requires Value(a) + Value(modulus) <= R * R
    modifies st.mul0, st.mul1, st.mul2, st.mul3, st.mul4, st.mul5, st.lowWord, st.scratch, a.low, a.high
    ensures st.Valid() && r < old(Value(a)) + Value(modulus)
    ensures r * R == old(Value(a)) * old(b.low.v) + k0 * Value(modulus)
    ensures Value(a) * R == old(Value(a)) * old(b.high.v) + k1 * Value(modulus) + r
    ensures Fits(old(Value(a)), h) && Fits(Value(modulus), h) ==> a.high.v < 2 * h
  {
    var b0 := CopyIfNeeded(b.low, st.scratch);
    k0, r := FirstRound(st, a, b0, modulus, reductionConst, rInv, h);
    var b1 := CopyIfNeeded(b.high, st.scratch);
    k1 := SecondRound(st, a, b1, modulus, reductionConst, rInv, r, h);
  }

  /**
   * a := a * b / R^2 modulo m, below m + a*b / R^2, for every a and m with a + m <= R^2;
   * on the machine that includes all values below 2^511. With a and m below h*R, as the code
   * asserts for h = 2^127, the high limb of the result stays below 2*h.
   */
  method MulAssignMontgomery(st: WideStatics, a: Wide, b: Wide, modulus: Wide, reductionConst: Cell, ghost rInv: nat,
                             ghost h: nat)
    requires st.Valid() && st.Owned(a) && st.Owned(modulus) && reductionConst.place.Ram?
    requires Apart(a, modulus) && Apart(a, b) && Apart(a, Wide(reductionConst, reductionConst))
    requires st.Outside(b) || b == st.copy
    requires Value(modulus) > 0 && IsReductionConst(reductionConst.v, Value(modulus), rInv)
    requires Value(a) + Value(modulus) <= R * R
    modifies st.mul0, st.mul1, st.mul2, st.mul3, st.mul4, st.mul5, st.lowWord, st.scratch, a.low, a.high
    ensures st.Valid()
    ensures IsProduct(Value(a), old(Value(a)), old(Value(b)), Value(modulus), rInv)
    ensures Fits(old(Value(a)), h) && Fits(Value(modulus), h) ==> a.high.v < 2 * h
  {
    ghost var x, y, y0, y1, m := Value(a), Value(b), b.low.v, b.high.v, Value(modulus);
    ghost var k0, k1, r := BothRounds(st, a, b, modulus, reductionConst, rInv, h);
    TwoRounds(x, y, y0, y1, m, k0, k1, r, Value(a), reductionConst.v, rInv);
  }

  lemma TwoRounds(x: nat, y: nat, y0: U256, y1: U256, m: nat, k0: U256, k1: U256, r: nat, v: nat, rc: nat, rInv: nat)
    requires m > 0 && IsReductionConst(rc, m, rInv)
    requires y == y1 * R + y0 && r < x + m
    requires r * R == x * y0 + k0 * m
    requires v * R == x * y1 + k1 * m + r
    ensures IsProduct(v, x, y, m, rInv)
  {
    RoundBelow(x, y1, m, k1, r, v);
    WideBound(k1, k0);
    var k: nat := k1 * R + k0;
    TwoRoundsIdentity(x, y, y0, y1, m, k0, k1, k, r, v);
    TwoRoundsBound(v, x * y, k, m);
    DividedTwice(v, x * y, k, rc, m, rInv);
  }

  lemma TwoRoundsBound(v: nat, p: nat, k: nat, m: nat)
    requires v * R * R == p + k * m && k < R * R && m > 0
    ensures v * (R * R) < p + m * (R * R)
  {
    MulMono(k, R * R - 1, m);
    assert v * (R * R) == v * R * R;
  }

  lemma TwoRoundsIdentity(x: nat, y: nat, y0: nat, y1: nat, m: nat, k0: nat, k1: nat, k: nat, r: nat, v: nat)
    requires y == y1 * R + y0 && k == k1 * R + k0
    requires r * R == x * y0 + k0 * m
    requires v * R == x * y1 + k1 * m + r
    ensures v * R * R == x * y + k * m
  {
    MulEq(v * R, x * y1 + k1 * m + r, R);
    MulEq(y, y1 * R + y0, x);
    MulEq(k, k1 * R + k0, m);
  }

  /** Dividing by R multiplies by its inverse, modulo m. */
  lemma Divided(x: nat, y: nat, q: int, rc: nat, m: nat, rInv: nat) returns (t: int)
    requires IsReductionConst(rc, m, rInv) && x * R == y + q * m
    ensures x == y * rInv + t * m
  {
    MulEq(rInv * R, rc * m + 1, x);
    MulEq(x * R, y + q * m, rInv);
    t := q * rInv - x * rc;
  }

  lemma DividedTwice(x: nat, y: nat, q: int, rc: nat, m: nat, rInv: nat)
    requires m > 0 && IsReductionConst(rc, m, rInv) && x * R * R == y + q * m
    ensures x % m == (y * rInv * rInv) % m
  {
    var t := Divided(x * R, y, q, rc, m, rInv);
    var t' := Divided(x, y * rInv, t, rc, m, rInv);
    Congruent(x, y * rInv * rInv, t', m);
  }

  lemma Congruent(x: int, z: int, t: int, m: nat)
    requires m > 0 && x == z + t * m
    ensures x % m == z % m
  {
    assert x == (z / m + t) * m + z % m;
    DivModUnique(x, m, z / m + t, z % m);
  }

  method SquareAssignMontgomery(st: WideStatics, a: Wide, modulus: Wide, reductionConst: Cell, ghost rInv: nat,
                                ghost h: nat)
    requires st.Valid() && st.Owned(a) && st.Owned(modulus) && reductionConst.place.Ram?
    requires Apart(a, modulus) && Apart(a, Wide(reductionConst, reductionConst))
    requires Value(modulus) > 0 && IsReductionConst(reductionConst.v, Value(modulus), rInv)
    requires Value(a) + Value(modulus) <= R * R
    modifies st.mul0, st.mul1, st.mul2, st.mul3, st.mul4, st.mul5, st.lowWord, st.scratch, a.low, a.high
    modifies st.copy.low, st.copy.high
    ensures st.Valid()
    ensures IsProduct(Value(a), old(Value(a)), old(Value(a)), Value(modulus), rInv)
    ensures Fits(old(Value(a)), h) && Fits(Value(modulus), h) ==> a.high.v < 2 * h
  {
    CopyWide(st.copy, a);
    MulAssignMontgomery(st, a, st.copy, modulus, reductionConst, rInv, h);
  }
}
