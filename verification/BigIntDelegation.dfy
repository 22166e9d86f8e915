/** 256-bit cells and the delegated operations that work on them in place. */
module BigIntDelegation {
  import opened Numbers

  const LIMB: nat := 0x1_0000_0000_0000_0000

  /**
   * A cell holds a number below R. On the machine R is 2^256; the constant is left open
   * because the arithmetic below holds for every radix with room for one 64-bit limb.
   */
  type Radix = r: int | r > LIMB witness LIMB + 1
  const R: Radix

  type U256 = x: int | 0 <= x < R

  /** The static scratch cells of the arithmetic modules. */
  datatype Slot = Scratch | One | Zero | Copy0 | Copy1 | Copy2 | Copy3
                | Mul0 | Mul1 | Mul2 | Mul3 | Mul4 | Mul5 | CopyLow | CopyHigh | LowWord

  /** Where a cell lies: read-only memory, which the delegation cannot access, a static, or other RAM. */
  datatype Place = Rom | Ram | Static(slot: Slot)

  class Cell {
    const place: Place
    var v: U256

    constructor (place: Place, v: U256)
      ensures this.place == place && this.v == v
    {
      this.place, this.v := place, v;
    }

    predicate InRam() { !place.Rom? }
  }

  function Bit(b: bool): nat { if b then 1 else 0 }

  /** The weight of a carry or borrow out of a cell. */
  function Overflow(of: bool): nat { if of then R else 0 }

  /** The delegation reads and writes RAM, and its two operands must not coincide. */
  predicate Operands(a: Cell, b: Cell) { a != b && a.InRam() && b.InRam() }

  // ----- wrapping arithmetic

  function WrappingAdd(x: U256, y: U256): (r: (U256, bool))
    ensures r.0 + Overflow(r.1) == x + y
  {
    if x + y < R then (x + y, false) else (x + y - R, true)
  }

  function WrappingSub(x: U256, y: U256): (r: (U256, bool))
    ensures r.0 == x - y + Overflow(r.1)
  {
    if y <= x then (x - y, false) else (x - y + R, true)
  }

  // ----- the delegated operations

  method AddWithCarry(a: Cell, b: Cell, carry: bool) returns (of: bool)
    requires Operands(a, b)
    modifies a
    ensures a.v + Overflow(of) == old(a.v) + b.v + Bit(carry)
  {
    var (t, of0) := WrappingAdd(a.v, b.v);
    var (t', of1) := WrappingAdd(t, Bit(carry));
    a.v := t';
    of := of0 || of1;
  }

  method Add(a: Cell, b: Cell) returns (of: bool)
    requires Operands(a, b)
    modifies a
    ensures a.v + Overflow(of) == old(a.v) + b.v
  {
    of := AddWithCarry(a, b, false);
  }

  method SubWithCarry(a: Cell, b: Cell, carry: bool) returns (of: bool)
    requires Operands(a, b)
    modifies a
    ensures a.v == old(a.v) - b.v - Bit(carry) + Overflow(of)
  {
    var (t, of0) := WrappingSub(a.v, b.v);
    var (t', of1) := WrappingSub(t, Bit(carry));
    a.v := t';
    of := of0 || of1;
  }

  method Sub(a: Cell, b: Cell) returns (of: bool)
    requires Operands(a, b)
    modifies a
    ensures a.v == old(a.v) - b.v + Overflow(of)
  {
    of := SubWithCarry(a, b, false);
  }

  /** a := b - a */
  method SubAndNegateWithCarry(a: Cell, b: Cell, carry: bool) returns (of: bool)
    requires Operands(a, b)
    modifies a
    ensures a.v == b.v - old(a.v) - Bit(carry) + Overflow(of)
  {
    var (t, of0) := WrappingSub(b.v, a.v);
    var (t', of1) := WrappingSub(t, Bit(carry));
    a.v := t';
    of := of0 || of1;
  }

  /** The product modulo R; `q` is the part that is dropped. */
  method MulLow(a: Cell, b: Cell) returns (ghost q: nat)
    requires Operands(a, b)
    modifies a
    ensures a.v + q * R == old(a.v) * b.v
  {
    ghost var p: nat := a.v * b.v;
    q := p / R;
    a.v := (a.v * b.v) % R;
    assert a.v == p % R;
  }

  /** The product divided by R; `low` is the part that is dropped. */
  method MulHigh(a: Cell, b: Cell) returns (ghost low: U256)
    requires Operands(a, b)
    modifies a
    ensures a.v * R + low == old(a.v) * b.v
    ensures a.v <= R - 2
  {
    low := (a.v * b.v) % R;
    ProductBound(a.v, b.v, (a.v * b.v) / R, low);
    a.v := (a.v * b.v) / R;
  }

  method Eq(a: Cell, b: Cell) returns (equal: bool)
    requires Operands(a, b)
    ensures equal <==> a.v == b.v
  {
    equal := a.v == b.v;
  }

  method MemCpy(a: Cell, b: Cell)
    requires Operands(a, b)
    modifies a
    ensures a.v == b.v
  {
    a.v := b.v;
  }

  /** An operand in read-only memory is first copied to the scratch cell. */
  method CopyIfNeeded(operand: Cell, scratch: Cell) returns (c: Cell)
    requires scratch.InRam()
    modifies scratch
    ensures c == if operand.InRam() then operand else scratch
    ensures c.v == old(operand.v) && c.InRam()
    ensures operand.InRam() ==> scratch.v == old(scratch.v)
  {
    if operand.InRam() {
      c := operand;
    } else {
      scratch.v := operand.v;
      c := scratch;
    }
  }

  /** A product of two cells is at most (R - 2) * R + 1. */
  lemma ProductBound(x: U256, y: U256, high: int, low: U256)
    requires high * R + low == x * y
    ensures 0 <= high <= R - 2
    ensures high == R - 2 ==> low <= 1
  {
    MulMono(x, R - 1, y);
    MulMono(y, R - 1, R - 1);
    HighBelow(high, low, R - 1);
  }

  /** A number from zero up to b*R has a high half below b. */
  lemma HighBelow(high: int, low: U256, b: nat)
    requires 0 <= high * R + low < b * R
    ensures 0 <= high < b
  {
    if high >= b {
      MulMono(b, high, R);
    } else if high <= -1 {
      MulMono(high, -1, R);
    }
  }

  /** The two delegated multiplications return the halves of one number. */
  lemma SameSplit(low: U256, q: int, high: int, low': U256)
    requires low + q * R == high * R + low'
    ensures q == high && low == low'
  {
    assert (q - high) * R == low' - low;
    SmallMultipleIsZero(q - high, R);
  }

  /** `low` and `high` both hold x: they get the two halves of x * y. */
  method WideProduct(low: Cell, high: Cell, y: Cell)
    requires Operands(low, high) && Operands(low, y) && Operands(high, y)
    requires low.v == high.v
    modifies low, high
    ensures high.v * R + low.v == old(low.v) * y.v
    ensures high.v <= R - 2
  {
    ghost var q, l;
    q := MulLow(low, y);
    l := MulHigh(high, y);
    SameSplit(low.v, q, high.v, l);
  }
}
