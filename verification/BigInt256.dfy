/** One-limb modular arithmetic on delegated 256-bit cells. */
module BigInt256 {
  import opened Numbers
  import opened BigIntDelegation

  /** The static cells of the module. */
  class Statics {
    const copy0: Cell
    const copy1: Cell
    const copy2: Cell
    const copy3: Cell
    const one: Cell
    const zero: Cell
    const scratch: Cell

    constructor ()
      ensures Valid()
    {
      copy0 := new Cell(Static(Copy0), 0);
      copy1 := new Cell(Static(Copy1), 0);
      copy2 := new Cell(Static(Copy2), 0);
      copy3 := new Cell(Static(Copy3), 0);
      one := new Cell(Static(One), 1);
      zero := new Cell(Static(Zero), 0);
      scratch := new Cell(Static(Scratch), 0);
    }

    ghost predicate Valid()
      reads one, zero
    {
      && copy0.place == Static(Copy0) && copy1.place == Static(Copy1)
      && copy2.place == Static(Copy2) && copy3.place == Static(Copy3)
      && one.place == Static(One) && zero.place == Static(Zero) && scratch.place == Static(Scratch)
      && one.v == 1 && zero.v == 0
    }

    /** Not one of the static cells. */
    ghost predicate Outside(c: Cell) { !c.place.Static? }

    /** A cell the callers own and the delegation may write. */
    ghost predicate Owned(c: Cell) { c.place.Ram? }
  }

  // ----- sums and differences

  /** Brings a value below twice the modulus into range; `carry` is its bit 256. */
  method SubModWithCarry(a: Cell, modulus: Cell, carry: bool)
    requires Operands(a, modulus)
    requires a.v + Overflow(carry) < 2 * modulus.v
    modifies a
    ensures a.v == OnceReduced(old(a.v) + Overflow(carry), modulus.v) < modulus.v
  {
    var borrow := Sub(a, modulus);
    if borrow && !carry {
      var of := Add(a, modulus);
    }
  }

  function OnceReduced(x: int, m: int): int { if x < m then x else x - m }

  lemma OnceReducedIsResidue(x: nat, m: nat)
    requires x < 2 * m
    ensures OnceReduced(x, m) == x % m
  {
    DivModUnique(x, m, if x < m then 0 else 1, OnceReduced(x, m));
  }

  method AddModAssign(st: Statics, a: Cell, b: Cell, modulus: Cell)
    requires st.Valid() && st.Owned(a) && st.Owned(modulus) && a != modulus && a != b
    requires st.Outside(b) || b == st.copy0
    requires a.v + b.v < 2 * modulus.v
    modifies a, st.scratch
    ensures a.v == (old(a.v) + old(b.v)) % modulus.v
  {
    OnceReducedIsResidue(a.v + b.v, modulus.v);
    var b' := CopyIfNeeded(b, st.scratch);
    var carry := Add(a, b');
    SubModWithCarry(a, modulus, carry);
  }

  method DoubleModAssign(st: Statics, a: Cell, modulus: Cell)
    requires st.Valid() && st.Owned(a) && st.Owned(modulus) && a != modulus
    requires a.v < modulus.v
    modifies a, st.copy0
    ensures a.v == (2 * old(a.v)) % modulus.v
  {
    OnceReducedIsResidue(2 * a.v, modulus.v);
    MemCpy(st.copy0, a);
    var carry := Add(a, st.copy0);
    SubModWithCarry(a, modulus, carry);
  }

  method SubModAssign(st: Statics, a: Cell, b: Cell, modulus: Cell)
    requires st.Valid() && st.Owned(a) && st.Owned(modulus) && a != modulus && a != b && st.Outside(b)
    requires a.v < modulus.v && b.v < modulus.v
    modifies a, st.scratch
    ensures a.v == (old(a.v) - old(b.v)) % modulus.v
  {
    ghost var difference := a.v - b.v;
    var b' := CopyIfNeeded(b, st.scratch);
    var borrow := Sub(a, b');
    if borrow {
      var of := Add(a, modulus);
    }
    DivModUnique(difference, modulus.v, if difference < 0 then -1 else 0, a.v);
  }

  method NegModAssign(st: Statics, a: Cell, modulus: Cell)
    requires st.Valid() && st.Owned(a) && st.Owned(modulus) && a != modulus
    requires a.v < modulus.v
    modifies a
    ensures a.v == (0 - old(a.v)) % modulus.v
  {
    ghost var negated: int := 0 - a.v;
    var isZero := Eq(a, st.zero);
    if !isZero {
      var of := SubAndNegateWithCarry(a, modulus, false);
    }
    DivModUnique(negated, modulus.v, if negated < 0 then -1 else 0, a.v);
  }

  /** Equality of residues; the operands may be one modulus too large. */
  method EqMod(st: Statics, a: Cell, b: Cell, modulus: Cell) returns (equal: bool)
    requires st.Valid() && st.Owned(a) && st.Owned(modulus) && st.Outside(b)
    requires a.v < 2 * modulus.v && b.v < 2 * modulus.v
    modifies st.copy0, st.copy1, st.scratch
    ensures equal <==> old(a.v) % modulus.v == old(b.v) % modulus.v
    ensures a.v == old(a.v) && b.v == old(b.v)
  {
    MemCpy(st.copy0, a);
    var b' := CopyIfNeeded(b, st.scratch);
    equal := Eq(st.copy0, b');
    if !equal {
      MemCpy(st.copy1, b');
      OnceReducedIsResidue(a.v, modulus.v);
      OnceReducedIsResidue(b.v, modulus.v);
      SubModWithCarry(st.copy0, modulus, false);
      SubModWithCarry(st.copy1, modulus, false);
      equal := Eq(st.copy0, st.copy1);
    }
  }

  // ----- Barrett multiplication

  /** A modulus m = R - c close to R; on the machine every c below 2^128 qualifies. */
  ghost predicate NearRadix(m: nat, c: nat) { m + c == R && 0 < c && c * c + c < R }

  /**
   * Folding twice with c = R - m: from A*B = hi*R + lo and hi*c + lo = t*R + a1, the
   * value a1 + t*c is congruent to the product ...
   */
  lemma BarrettIdentity(product: nat, m: nat, c: nat, hi: nat, lo: nat, t: nat, a1: nat)
    requires m + c == R
    requires product == hi * R + lo
    requires hi * c + lo == t * R + a1
    ensures product == (hi + t) * m + (a1 + t * c)
  {
    MulEq(m + c, R, hi);
    MulEq(m + c, R, t);
  }

  /** ... and small enough for a single subtraction. */
  lemma BarrettBounds(m: nat, c: nat, hi: nat, lo: nat, t: nat, a1: nat)
    requires NearRadix(m, c)
    requires hi <= R - 2 && lo < R
    requires hi * c + lo == t * R + a1 && a1 < R
    ensures t <= c && t * c < R
    ensures a1 + t * c < 2 * m
  {
    SecondFoldBound(c, hi, lo, t, a1);
    if t < c {
      MulMono(t, c - 1, c);
    }
  }

  lemma SecondFoldBound(c: nat, hi: nat, lo: nat, t: nat, a1: nat)
    requires hi <= R - 2 && lo < R && 0 < c
    requires hi * c + lo == t * R + a1 && a1 < R
    ensures t <= c
    ensures t == c ==> a1 + 2 * c < R
  {
    MulMono(hi, R - 2, c);
    if c < t {
      MulMono(c + 1, t, R);
    }
  }

  /** a := a * b mod m for a modulus near R. */
  method MulAssignBarrett(st: Statics, a: Cell, b: Cell, modulus: Cell, negModulus: Cell)
    requires st.Valid() && st.Owned(a) && st.Owned(modulus) && st.Owned(negModulus)
    requires a != modulus && a != negModulus && a != b
    requires st.Outside(b) || b == st.copy0
    requires NearRadix(modulus.v, negModulus.v)
    modifies a, st.copy1, st.copy2, st.scratch
    ensures a.v == (old(a.v) * old(b.v)) % modulus.v
  {
    ghost var product, m := a.v * b.v, modulus.v;
    var b' := CopyIfNeeded(b, st.scratch);
    var carry;
    ghost var q;
    carry, q := FoldTwice(st, a, b', negModulus, m);
    FinishBarrett(product, q, a.v + Overflow(carry), m);
    SubModWithCarry(a, modulus, carry);
  }

  /** The product, folded twice: congruent to it and below twice the modulus. */
  method FoldTwice(st: Statics, a: Cell, b: Cell, negModulus: Cell, ghost m: nat) returns (carry: bool, ghost q: nat)
    requires st.Valid() && st.Owned(a) && st.Owned(negModulus) && a != negModulus
    requires Operands(a, b) && b != st.copy1 && b != st.copy2
    requires NearRadix(m, negModulus.v)
    modifies a, st.copy1, st.copy2
    ensures a.v + Overflow(carry) < 2 * m
    ensures old(a.v) * old(b.v) == q * m + (a.v + Overflow(carry))
  {
    ghost var product: int, c := a.v * b.v, negModulus.v;
    var temp0, temp1 := st.copy1, st.copy2;
    MemCpy(temp0, a);
    WideProduct(a, temp0, b);
    ghost var hi, lo := temp0.v, a.v;
    FoldHigh(st, a, temp0, temp1, negModulus);
    ghost var t: nat, a1 := temp0.v, a.v;
    BarrettBounds(m, c, hi, lo, t, a1);
    BarrettIdentity(product, m, c, hi, lo, t, a1);
    q := hi + t;
    ghost var dropped := MulLow(temp0, negModulus);
    SameSplit(temp0.v, dropped, 0, t * c);
    carry := Add(a, temp0);
  }

  /** Replaces the high part hi by hi * c, added to the low part, with its own high part. */
  method FoldHigh(st: Statics, a: Cell, temp0: Cell, temp1: Cell, negModulus: Cell)
    requires st.Valid() && st.Owned(a) && st.Owned(negModulus) && a != negModulus
    requires temp0 == st.copy1 && temp1 == st.copy2
    modifies a, temp0, temp1
    ensures temp0.v * R + a.v == old(temp0.v) * negModulus.v + old(a.v)
  {
    MemCpy(temp1, temp0);
    WideProduct(temp1, temp0, negModulus);
    var carry := Add(a, temp1);
    if carry {
      var of := Add(temp0, st.one);
    }
  }

  lemma FinishBarrett(product: nat, q: nat, value: nat, m: nat)
    requires product == q * m + value && value < 2 * m
    ensures OnceReduced(value, m) == product % m
  {
    var q' := if value < m then q else q + 1;
    assert (q + 1) * m == q * m + m;
    DivModUnique(product, m, q', OnceReduced(value, m));
  }

  method SquareAssignBarrett(st: Statics, a: Cell, modulus: Cell, negModulus: Cell)
    requires st.Valid() && st.Owned(a) && st.Owned(modulus) && st.Owned(negModulus)
    requires a != modulus && a != negModulus
    requires NearRadix(modulus.v, negModulus.v)
    modifies a, st.copy0, st.copy1, st.copy2, st.scratch
    ensures a.v == (old(a.v) * old(a.v)) % modulus.v
  {
    MemCpy(st.copy0, a);
    MulAssignBarrett(st, a, st.copy0, modulus, negModulus);
  }

  // ----- Montgomery multiplication

  /** rc = -1/m mod R, with the inverse of R modulo m that comes with it. */
  ghost predicate IsReductionConst(rc: nat, m: nat, rInv: nat) { rInv * R == rc * m + 1 }

  /** Adding k*m with k = low*rc mod R clears the low limb. */
  lemma ReductionClearsLow(low: nat, rc: nat, m: nat, rInv: nat, k: nat, dropped: nat)
    requires IsReductionConst(rc, m, rInv) && k + dropped * R == low * rc
    ensures low + k * m == (low * rInv - dropped * m) * R
  {
    MulEq(k + dropped * R, low * rc, m);
    MulEq(rInv * R, rc * m + 1, low);
  }

  /** From x*R = y + q*m follows x = y * R^-1 mod m, for x in range. */
  lemma DivideByR(x: nat, y: nat, q: int, rc: nat, m: nat, rInv: nat)
    requires IsReductionConst(rc, m, rInv) && 0 <= x < m && x * R == y + q * m
    ensures x == (y * rInv) % m
  {
    MulEq(rInv * R, rc * m + 1, x);
    MulEq(x * R, y + q * m, rInv);
    assert y * rInv == (x * rc - q * rInv) * m + x;
    DivModUnique(y * rInv, m, x * rc - q * rInv, x);
  }

  /** a := a * b / R mod m. */
  method MulAssignMontgomery(st: Statics, a: Cell, b: Cell, modulus: Cell, reductionConst: Cell, ghost rInv: nat)
    requires st.Valid() && st.Owned(a) && st.Owned(modulus) && st.Owned(reductionConst)
    requires a != modulus && a != reductionConst && a != b
    requires st.Outside(b) || b == st.copy0
    requires IsReductionConst(reductionConst.v, modulus.v, rInv)
    requires a.v * b.v < modulus.v * R
    modifies a, st.copy1, st.copy2, st.copy3, st.scratch
    ensures a.v < modulus.v
    ensures a.v == (old(a.v) * old(b.v) * rInv) % modulus.v
  {
    ghost var x, y := a.v, b.v;
    var b' := CopyIfNeeded(b, st.scratch);
    var carry;
    ghost var k;
    carry, k := Reduce(st, a, b', modulus, reductionConst, rInv);
    FinishMontgomery(x, y, k, modulus.v, reductionConst.v, rInv, a.v + Overflow(carry));
    SubModWithCarry(a, modulus, carry);
  }

  /** (a * b + k * m) / R, with its bit 256 as carry. */
  method Reduce(st: Statics, a: Cell, b: Cell, modulus: Cell, reductionConst: Cell, ghost rInv: nat)
    returns (carry: bool, ghost k: U256)
    requires st.Valid() && st.Owned(a) && st.Owned(modulus) && st.Owned(reductionConst)
    requires a != modulus && a != reductionConst
    requires Operands(a, b) && b != st.copy1 && b != st.copy2 && b != st.copy3
    requires IsReductionConst(reductionConst.v, modulus.v, rInv)
    modifies a, st.copy1, st.copy2, st.copy3
    ensures (a.v + Overflow(carry)) * R == old(a.v) * old(b.v) + k * modulus.v
  {
    var temp0, temp1, temp2 := st.copy1, st.copy2, st.copy3;
    MemCpy(temp0, a);
    WideProduct(temp0, a, b);
    ghost var x, y, high, low := old(a.v), b.v, a.v, temp0.v;
    k := ReduceLow(st, temp0, temp1, temp2, modulus, reductionConst, rInv);
    carry := Add(a, temp1);
    Regroup(x, y, high, low, temp1.v, k, modulus.v);
  }

  lemma Regroup(x: nat, y: nat, high: nat, low: nat, q: nat, k: nat, m: nat)
    requires high * R + low == x * y && q * R == low + k * m
    ensures (high + q) * R == x * y + k * m
  {
  }

  /** temp1 := (temp0 + k * m) / R, exactly. */
  method ReduceLow(st: Statics, temp0: Cell, temp1: Cell, temp2: Cell, modulus: Cell, reductionConst: Cell,
                   ghost rInv: nat) returns (ghost k: U256)
    requires st.Valid() && st.Owned(modulus) && st.Owned(reductionConst)
    requires temp0 == st.copy1 && temp1 == st.copy2 && temp2 == st.copy3
    requires IsReductionConst(reductionConst.v, modulus.v, rInv)
    modifies temp1, temp2
    ensures temp1.v * R == temp0.v + k * modulus.v
  {
    ghost var q := ReductionFactor(temp0, temp1, modulus, reductionConst, rInv);
    k := temp1.v;
    Cancel(st, temp0, temp1, temp2, modulus, q);
  }

  /** temp1 := the k for which temp0 + k*m is a multiple of R. */
  method ReductionFactor(temp0: Cell, temp1: Cell, modulus: Cell, reductionConst: Cell, ghost rInv: nat)
    returns (ghost q: int)
    requires Operands(temp1, temp0) && Operands(temp1, reductionConst) && temp1 != modulus
    requires IsReductionConst(reductionConst.v, modulus.v, rInv)
    modifies temp1
    ensures temp0.v + temp1.v * modulus.v == q * R
  {
    MemCpy(temp1, temp0);
    ghost var dropped := MulLow(temp1, reductionConst);
    ReductionClearsLow(temp0.v, reductionConst.v, modulus.v, rInv, temp1.v, dropped);
    q := temp0.v * rInv - dropped * modulus.v;
  }

  /** temp1 := (temp0 + temp1 * m) / R; the low limb cancels to zero. */
  method Cancel(st: Statics, temp0: Cell, temp1: Cell, temp2: Cell, modulus: Cell, ghost q: int)
    requires st.Valid() && st.Owned(modulus)
    requires temp0 == st.copy1 && temp1 == st.copy2 && temp2 == st.copy3
    requires temp0.v + temp1.v * modulus.v == q * R
    modifies temp1, temp2
    ensures temp1.v == q && temp2.v == 0
  {
    MemCpy(temp2, temp1);
    WideProduct(temp2, temp1, modulus);
    CancelledLow(temp0.v, temp1.v, temp2.v, q);
    var carry := Add(temp2, temp0);
    if carry {
      var of := Add(temp1, st.one);
    }
  }

  /** Two limbs whose sum is a multiple of R: zero, or exactly R. */
  lemma CancelledLow(low: U256, high: U256, low': U256, q: int)
    requires low + high * R + low' == q * R
    ensures low + low' == if low == 0 then 0 else R
    ensures q == high + (if low == 0 then 0 else 1)
  {
    assert (q - high) * R == low + low';
    if low == 0 {
      SmallMultipleIsZero(q - high, R);
    } else {
      SmallMultipleIsZero(q - high - 1, R);
    }
  }

  lemma FinishMontgomery(x: nat, y: nat, k: U256, m: nat, rc: nat, rInv: nat, value: nat)
    requires IsReductionConst(rc, m, rInv) && x * y < m * R && value * R == x * y + k * m
    ensures value < 2 * m
    ensures OnceReduced(value, m) == (x * y * rInv) % m
  {
    ReducedBelowTwice(x * y, k, m, value);
    SettleMontgomery(x * y, k, m, rc, rInv, value);
  }

  lemma ReducedBelowTwice(p: nat, k: U256, m: nat, value: nat)
    requires p < m * R && value * R == p + k * m
    ensures value < 2 * m
  {
    MulMono(k, R, m);
    if 2 * m <= value {
      MulMono(2 * m, value, R);
    }
  }

  lemma SettleMontgomery(p: nat, k: nat, m: nat, rc: nat, rInv: nat, value: nat)
    requires IsReductionConst(rc, m, rInv) && value < 2 * m && value * R == p + k * m
    ensures OnceReduced(value, m) == (p * rInv) % m
  {
    var q := if value < m then k else k - R;
    assert q * m == if value < m then k * m else k * m - R * m;
    DivideByR(OnceReduced(value, m), p, q, rc, m, rInv);
  }

  method SquareAssignMontgomery(st: Statics, a: Cell, modulus: Cell, reductionConst: Cell, ghost rInv: nat)
    requires st.Valid() && st.Owned(a) && st.Owned(modulus) && st.Owned(reductionConst)
    requires a != modulus && a != reductionConst
    requires IsReductionConst(reductionConst.v, modulus.v, rInv)
    requires a.v * a.v < modulus.v * R
    modifies a, st.copy0, st.copy1, st.copy2, st.copy3, st.scratch
    ensures a.v == (old(a.v) * old(a.v) * rInv) % modulus.v
  {
    MemCpy(st.copy0, a);
    MulAssignMontgomery(st, a, st.copy0, modulus, reductionConst, rInv);
  }
}
