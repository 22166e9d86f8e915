/** The interpreter's memory: growth, its price, and the instructions that copy into it. */
module Memory {
  import opened Numbers
  import opened Resources

  const MEMORY: nat := 3
  const VERYLOW: nat := 3
  const COPY: nat := 3
  const HEAP_EXPANSION_BASE_NATIVE_COST: nat := 35
  const HEAP_EXPANSION_PER_BYTE_NATIVE_COST: nat := 1
  const MEMORY_NATIVE_COST: nat := 250
  const COPY_BASE_NATIVE_COST: nat := 80
  const COPY_BYTE_NATIVE_COST: nat := 1
  const MAX_OFFSET: nat := U32_MAX - 31

  datatype ExitCode = OutOfGas | OutOfNativeResources | MemoryLimitOOG | MemoryOOG | InvalidOperandOOG

  // ----- sizes and prices

  /** C_mem of Appendix H of the Ethereum Yellow Paper, in words. */
  function MemoryCost(words: nat): nat { MEMORY * words + words * words / 512 }

  lemma MemoryCostMonotone(a: nat, b: nat)
    requires a <= b
    ensures MemoryCost(a) <= MemoryCost(b)
  {
    MulMono(a, b, a);
    MulMono(a, b, b);
  }

  /** The price as the code computes it, in saturating 64-bit arithmetic. */
  function EndCost(words: nat): u64
  {
    SaturatingAdd(SaturatingMul(MEMORY, words), SaturatingMul(words, words) / 512)
  }

  /** No heap is large enough for the price to saturate. */
  lemma EndCostExact(words: nat)
    requires 32 * words <= U32_MAX + 1
    ensures EndCost(words) == MemoryCost(words) <= 0x4000_0000_0000
  {
    MulMono(words, 0x800_0000, words);
  }

  /** Enough gas and native for growing from one size to a larger one. */
  predicate Affords(resources: Resources, size: nat, newSize: nat)
  {
    && ERGS_PER_GAS * (MemoryCost(newSize / 32) - MemoryCost(size / 32)) <= resources.ergs
    && HEAP_EXPANSION_BASE_NATIVE_COST + HEAP_EXPANSION_PER_BYTE_NATIVE_COST * (newSize - size) <= resources.native
  }

  /** An access up to `end`: within the limit, and already covered or payable and within capacity. */
  predicate ReachesFrom(res: Resources, capacity: nat, size: nat, end: nat)
  {
    && end <= MAX_OFFSET
    && (RoundUp32(end) <= size || (RoundUp32(end) <= capacity && Affords(res, size, RoundUp32(end))))
  }

  /** Native for growing from one size to another. */
  function GrowthNative(size: nat, newSize: nat): nat
  {
    if newSize > size
    then HEAP_EXPANSION_BASE_NATIVE_COST + HEAP_EXPANSION_PER_BYTE_NATIVE_COST * (newSize - size)
    else 0
  }

  /**
   * Whether two accesses in a row are possible: the gas is that of the larger size alone,
   * the native is paid for each step of growth.
   */
  predicate CoversBoth(res: Resources, capacity: nat, size: nat, first: nat, second: nat)
  {
    var middle := Max(size, RoundUp32(first));
    var last := Max(middle, RoundUp32(second));
    && first <= MAX_OFFSET && second <= MAX_OFFSET && (last == size || last <= capacity)
    && ERGS_PER_GAS * (MemoryCost(last / 32) - MemoryCost(size / 32)) <= res.ergs
    && GrowthNative(size, middle) + GrowthNative(middle, last) <= res.native
  }

  /** Growing twice costs the gas of growing once. */
  lemma TwoGrowths(res: Resources, capacity: nat, size: nat, first: nat, second: nat)
    ensures
      var middle := Max(size, RoundUp32(first));
      var ergs := ERGS_PER_GAS * (MemoryCost(middle / 32) - MemoryCost(size / 32));
      CoversBoth(res, capacity, size, first, second) <==>
        && ReachesFrom(res, capacity, size, first)
        && 0 <= ergs <= res.ergs && GrowthNative(size, middle) <= res.native
        && ReachesFrom(Resources(res.ergs - ergs, res.native - GrowthNative(size, middle)), capacity, middle, second)
  {
    var middle := Max(size, RoundUp32(first));
    MemoryCostMonotone(size / 32, middle / 32);
    MemoryCostMonotone(middle / 32, Max(middle, RoundUp32(second)) / 32);
  }

  // ----- contents

  /** The heap grown to a size with zeros. */
  function Grown(heap: seq<byte>, size: nat): (h: seq<byte>)
    ensures |h| == Max(|heap|, size)
  {
    if size > |heap| then heap + Zeros(size - |heap|) else heap
  }

  function Overwritten(heap: seq<byte>, at: nat, bytes: seq<byte>): (h: seq<byte>)
    requires at + |bytes| <= |heap|
    ensures |h| == |heap|
  {
    heap[..at] + bytes + heap[at + |bytes|..]
  }

  /** Two accesses took place: the heap and the resources before and after. */
  predicate Covered(before: seq<byte>, had: Resources, after: seq<byte>, left: Resources, first: nat, second: nat)
  {
    var middle := Max(|before|, RoundUp32(first));
    && after == Grown(before, Max(RoundUp32(first), RoundUp32(second)))
    && had.ergs - left.ergs == ERGS_PER_GAS * (MemoryCost(|after| / 32) - MemoryCost(|before| / 32))
    && had.native - left.native == GrowthNative(|before|, middle) + GrowthNative(middle, |after|)
  }

  /** What is left after paying, when that much is there. */
  function Minus(res: Resources, gas: nat, native: nat): (r: Option<Resources>)
  {
    if ERGS_PER_GAS * gas <= res.ergs && native <= res.native then
      Some(Resources(res.ergs - ERGS_PER_GAS * gas, res.native - native))
    else None
  }

  class EvmMemory {
    var heap: seq<byte>
    var paidForGrowth: u64
    var resources: Resources
    /** Where the returndata of a pending call goes. */
    var returnStart: nat
    var returnEnd: nat
    /** What the buffer behind the heap can hold. */
    const capacity: nat
    const usizeMax: nat

    constructor (resources: Resources, capacity: nat, usizeMax: nat)
      requires usizeMax == U32_MAX || usizeMax == U64_MAX
      ensures Valid() && heap == [] && this.resources == resources
    {
      heap, paidForGrowth, this.resources, returnStart, returnEnd := [], 0, resources, 0, 0;
      this.capacity, this.usizeMax := capacity, usizeMax;
    }

    /** What every continuing state keeps. */
    ghost predicate Valid()
      reads this
    {
      && (usizeMax == U32_MAX || usizeMax == U64_MAX)
      && |heap| % 32 == 0 && |heap| <= U32_MAX
      && paidForGrowth == MemoryCost(|heap| / 32)
      && returnStart <= returnEnd && (returnStart == returnEnd || returnEnd <= |heap|)
    }

    /** The resources left after paying for growth between two sizes: the difference of the two prices. */
    ghost predicate PaidGrowth(before: Resources, sizeBefore: nat)
      reads this
    {
      && before.ergs - resources.ergs == ERGS_PER_GAS * (MemoryCost(|heap| / 32) - MemoryCost(sizeBefore / 32))
      && before.native - resources.native == GrowthNative(sizeBefore, |heap|)
    }

    /** Whether an access up to `end` is possible. */
    ghost predicate Reaches(res: Resources, end: nat)
      reads this
    {
      ReachesFrom(res, capacity, |heap|, end)
    }

    /** The same after paying for the instruction itself. */
    ghost predicate CanAccess(gas: nat, native: nat, end: nat)
      reads this
    {
      var paid := Minus(resources, gas, native);
      paid.Some? && Reaches(paid.value, end)
    }

    method SpendGasAndNative(gas: nat, native: u64) returns (exit: Option<ExitCode>)
      modifies `resources
      ensures exit.None? <==> Minus(old(resources), gas, native).Some?
      ensures exit.None? ==> Some(resources) == Minus(old(resources), gas, native)
      ensures exit.Some? ==> exit.value.OutOfGas? || exit.value.OutOfNativeResources?
    {
      if gas * ERGS_PER_GAS > U64_MAX {
        return Some(OutOfGas);
      }
      var r := resources.Charge(Resources(gas * ERGS_PER_GAS, native));
      resources := r.0;
      exit := if r.1.None? then None else if r.1.value.OutOfErgs? then Some(OutOfGas) else Some(OutOfNativeResources);
    }

    method PayForMemoryGrowth(newSize: nat) returns (exit: Option<ExitCode>)
      requires Valid() && |heap| < newSize <= U32_MAX && newSize % 32 == 0
      modifies `resources, `paidForGrowth
      ensures exit.None? <==> Affords(old(resources), |heap|, newSize)
      ensures exit.Some? ==> exit.value.OutOfGas? || exit.value.OutOfNativeResources?
      ensures exit.None? ==>
        && paidForGrowth == MemoryCost(newSize / 32)
        && old(resources).ergs - resources.ergs == ERGS_PER_GAS * (MemoryCost(newSize / 32) - MemoryCost(|heap| / 32))
        && old(resources).native - resources.native
           == HEAP_EXPANSION_BASE_NATIVE_COST + HEAP_EXPANSION_PER_BYTE_NATIVE_COST * (newSize - |heap|)
    {
      var words := newSize / 32;
      EndCostExact(words);
      MemoryCostMonotone(|heap| / 32, words);
      var endCost := EndCost(words);
      var netGas := endCost - paidForGrowth;
      var netNative := SaturatingAdd(HEAP_EXPANSION_BASE_NATIVE_COST,
                                     SaturatingMul(HEAP_EXPANSION_PER_BYTE_NATIVE_COST, newSize - |heap|));
      exit := SpendGasAndNative(netGas, netNative);
      if exit.None? {
        paidForGrowth := endCost;
      }
    }

    /** Grows the heap over a range; in a continuing state the price paid is that of the size reached. */
    method ResizeHeap(offset: nat, len: nat) returns (exit: Option<ExitCode>)
      requires Valid() && offset <= usizeMax && len <= usizeMax
      modifies `heap, `paidForGrowth, `resources
      ensures exit == Some(MemoryLimitOOG) <==> offset + len > MAX_OFFSET
      ensures exit.None? <==> old(Reaches(resources, offset + len))
      ensures exit.None? ==>
        && Valid() && heap == Grown(old(heap), RoundUp32(offset + len)) && offset + len <= |heap|
        && PaidGrowth(old(resources), |old(heap)|)
    {
      var maxOffset := Min(offset + len, usizeMax);
      if maxOffset > MAX_OFFSET {
        return Some(MemoryLimitOOG);
      }
      var newSize := RoundUp32(maxOffset);
      if newSize > |heap| {
        exit := PayForMemoryGrowth(newSize);
        if exit.Some? {
          return;
        }
        if newSize > capacity {
          return Some(MemoryOOG);
        }
        heap := Grown(heap, newSize);
      }
      exit := None;
    }

    /** ResizeHeap for a run of accesses: only the gas, which does not depend on how the run is split. */
    method Cover(offset: nat, len: nat) returns (exit: Option<ExitCode>)
      requires Valid() && offset <= usizeMax && len <= usizeMax
      modifies `heap, `paidForGrowth, `resources
      ensures exit.None? ==>
        && Valid() && heap == Grown(old(heap), RoundUp32(offset + len)) && offset + len <= |heap|
        && old(resources).ergs - resources.ergs == ERGS_PER_GAS * (paidForGrowth - old(paidForGrowth))
    {
      exit := ResizeHeap(offset, len);
    }

    function CastToUsize(x: u256): Option<nat> { if x <= usizeMax then Some(x) else None }

    method MLoad(index: u256) returns (r: Result<u256, ExitCode>)
      requires Valid()
      modifies this
      ensures r.Ok? <==> old(CanAccess(VERYLOW, MEMORY_NATIVE_COST, index + 32))
      ensures r.Ok? ==>
        && Valid() && heap == Grown(old(heap), RoundUp32(index + 32))
        && index + 32 <= |heap| && r.value == FromBE(heap[index..index + 32])
        && PaidGrowth(Minus(old(resources), VERYLOW, MEMORY_NATIVE_COST).value, |old(heap)|)
    {
      var exit := SpendGasAndNative(VERYLOW, MEMORY_NATIVE_COST);
      if exit.Some? {
        return Err(exit.value);
      }
      if CastToUsize(index).None? {
        return Err(InvalidOperandOOG);
      }
      exit := ResizeHeap(index, 32);
      if exit.Some? {
        return Err(exit.value);
      }
      WordFits(heap[index..index + 32]);
      r := Ok(FromBE(heap[index..index + 32]));
    }

    method MStore(index: u256, value: u256) returns (exit: Option<ExitCode>)
      requires Valid()
      modifies this
      ensures exit.None? <==> old(CanAccess(VERYLOW, MEMORY_NATIVE_COST, index + 32))
      ensures exit.None? ==>
        var grown := Grown(old(heap), RoundUp32(index + 32));
        && Valid() && heap == Overwritten(grown, index, ToBE(value, 32))
        && PaidGrowth(Minus(old(resources), VERYLOW, MEMORY_NATIVE_COST).value, |old(heap)|)
    {
      exit := SpendGasAndNative(VERYLOW, MEMORY_NATIVE_COST);
      if exit.Some? {
        return;
      }
      if CastToUsize(index).None? {
        return Some(InvalidOperandOOG);
      }
      exit := ResizeHeap(index, 32);
      if exit.None? {
        heap := Overwritten(heap, index, ToBE(value, 32));
      }
    }

    method MStore8(index: u256, value: u256) returns (exit: Option<ExitCode>)
      requires Valid()
      modifies this
      ensures exit.None? <==> old(CanAccess(VERYLOW, MEMORY_NATIVE_COST, index + 1))
      ensures exit.None? ==>
        && Valid() && heap == Overwritten(Grown(old(heap), RoundUp32(index + 1)), index, [value % 256])
        && PaidGrowth(Minus(old(resources), VERYLOW, MEMORY_NATIVE_COST).value, |old(heap)|)
    {
      exit := SpendGasAndNative(VERYLOW, MEMORY_NATIVE_COST);
      if exit.Some? {
        return;
      }
      if CastToUsize(index).None? {
        return Some(InvalidOperandOOG);
      }
      exit := ResizeHeap(index, 1);
      if exit.None? {
        heap := Overwritten(heap, index, [value % 256]);
      }
    }

    /** Copies within memory, overlapping or not; an empty copy ignores its offsets. */
    method MCopy(dst: u256, src: u256, len: u256) returns (exit: Option<ExitCode>)
      requires Valid()
      modifies this
      ensures exit.None? && len == 0 ==> Valid() && heap == old(heap)
      ensures exit.None? && len > 0 ==>
        var grown := Grown(old(heap), RoundUp32(Max(dst, src) + len));
        && Valid() && src + len <= |grown| && dst + len <= |grown|
        && heap == Overwritten(grown, dst, grown[src..src + len])
      ensures var paid := Minus(old(resources), COPY * (RoundUp32(len) / 32) + VERYLOW, len + COPY_BASE_NATIVE_COST);
        && (exit.None? <==> paid.Some? && (len == 0 || old(Reaches(paid.value, Max(dst, src) + len))))
        && (exit.None? ==> PaidGrowth(paid.value, |old(heap)|))
    {
      if CastToUsize(len).None? {
        return Some(InvalidOperandOOG);
      }
      var cost := CopyCostPlusVeryLow(len);
      if cost.None? {
        return Some(OutOfGas);
      }
      exit := SpendGasAndNative(cost.value.0, cost.value.1);
      if exit.Some? || len == 0 {
        return;
      }
      if CastToUsize(dst).None? || CastToUsize(src).None? {
        return Some(InvalidOperandOOG);
      }
      exit := ResizeHeap(Max(dst, src), len);
      if exit.None? {
        heap := Overwritten(heap, dst, heap[src..src + len]);
      }
    }

    /** The memory side of a call: covers input and output, and remembers where the output goes. */
    method PrepareCall(inOffset: u256, inLen: u256, outOffset: u256, outLen: u256)
      returns (r: Result<seq<byte>, ExitCode>)
      requires Valid()
      modifies this
      ensures
        var inEnd, outEnd := RangeEnd(inOffset, inLen), RangeEnd(outOffset, outLen);
        && (r.Ok? <==> CoversBoth(old(resources), capacity, |old(heap)|, inEnd, outEnd))
        && (r.Ok? ==> Covered(old(heap), old(resources), heap, resources, inEnd, outEnd))
      ensures r.Ok? ==>
        && Valid() && RangeEnd(inOffset, inLen) <= |heap|
        && r.value == (if inLen == 0 then [] else heap[inOffset..inOffset + inLen])
        && returnStart == (if outLen == 0 then 0 else outOffset) && returnEnd == returnStart + outLen
    {
      var input, output := CastOffsetAndLen(inOffset, inLen), CastOffsetAndLen(outOffset, outLen);
      if input.None? || output.None? {
        return Err(InvalidOperandOOG);
      }
      var (inStart, inSize) := input.value;
      var (outStart, outSize) := output.value;
      var exit := CoverBoth(inStart, inSize, outStart, outSize);
      if exit.Some? {
        return Err(exit.value);
      }
      returnStart, returnEnd := outStart, outStart + outSize;
      var calldata := heap[inStart..inStart + inSize];
      assert inSize == 0 ==> calldata == [];
      r := Ok(calldata);
    }

    /** An offset matters only for a non-empty range. */
    function CastOffsetAndLen(offset: u256, len: u256): (r: Option<(nat, nat)>)
      ensures r.Some? ==> r.value.0 + r.value.1 == RangeEnd(offset, len) && r.value.1 == len
      ensures r.None? ==> RangeEnd(offset, len) > usizeMax
    {
      if len == 0 then Some((0, 0))
      else if CastToUsize(offset).None? || CastToUsize(len).None? then None
      else Some((offset, len))
    }

    function RangeEnd(offset: u256, len: u256): nat { if len == 0 then 0 else offset + len }

    method CoverBoth(inStart: nat, inLen: nat, outStart: nat, outLen: nat) returns (exit: Option<ExitCode>)
      requires Valid() && inStart <= usizeMax && inLen <= usizeMax && outStart <= usizeMax && outLen <= usizeMax
      modifies `heap, `paidForGrowth, `resources
      ensures exit.None? <==> CoversBoth(old(resources), capacity, |old(heap)|, inStart + inLen, outStart + outLen)
      ensures exit.None? ==>
        && Valid() && inStart + inLen <= |heap| && outStart + outLen <= |heap|
        && Covered(old(heap), old(resources), heap, resources, inStart + inLen, outStart + outLen)
    {
      TwoGrowths(resources, capacity, |heap|, inStart + inLen, outStart + outLen);
      exit := ResizeHeap(inStart, inLen);
      if exit.None? {
        exit := ResizeHeap(outStart, outLen);
        GrownTwice(old(heap), RoundUp32(inStart + inLen), RoundUp32(outStart + outLen));
      }
    }

    /** Copies as much of the returndata as the call made room for; the heap does not change size. */
    method CopyReturndataToHeap(returndata: seq<byte>)
      requires Valid()
      modifies `heap
      ensures Valid() && |heap| == |old(heap)|
      ensures returnStart < returnEnd ==>
        heap == Overwritten(old(heap), returnStart, returndata[..Min(|returndata|, returnEnd - returnStart)])
      ensures returnStart == returnEnd ==> heap == old(heap)
    {
      if returnStart != returnEnd {
        var toCopy := Min(|returndata|, returnEnd - returnStart);
        heap := Overwritten(heap, returnStart, returndata[..toCopy]);
      }
    }

    /** A run of accesses: size and price depend only on the size reached, not on the way there. */
    method Touch(accesses: seq<(nat, nat)>) returns (exit: Option<ExitCode>)
      requires Valid()
      requires forall i :: 0 <= i < |accesses| ==> accesses[i].0 <= usizeMax && accesses[i].1 <= usizeMax
      modifies `heap, `paidForGrowth, `resources
      ensures exit.None? ==>
        && Valid() && heap == Grown(old(heap), SizeAfter(|old(heap)|, accesses))
        && old(resources).ergs - resources.ergs
           == ERGS_PER_GAS * (MemoryCost(|heap| / 32) - MemoryCost(|old(heap)| / 32))
    {
      exit := None;
      var i := 0;
      while i < |accesses|
        invariant 0 <= i <= |accesses| && Valid()
        invariant heap == Grown(old(heap), SizeAfter(|old(heap)|, accesses[..i]))
        invariant old(resources).ergs - resources.ergs == ERGS_PER_GAS * (paidForGrowth - old(paidForGrowth))
      {
        exit := Cover(accesses[i].0, accesses[i].1);
        if exit.Some? {
          return;
        }
        GrownNext(old(heap), accesses, i);
        i := i + 1;
      }
      assert accesses[..i] == accesses;
      exit := None;
    }
  }

  /**
   * Gas and native cost of a copy; the sums are checked. Beyond the base the gas pays for
   * the least number of words that hold the bytes, and only the native sum can overflow.
   */
  function CopyCostPlusVeryLow(len: nat): (r: Option<(nat, u64)>)
    ensures r.Some? <==> len <= U64_MAX - COPY_BASE_NATIVE_COST
    ensures r.Some? ==>
      var words := (r.value.0 - VERYLOW) / COPY;
      && r.value.0 == COPY * words + VERYLOW && 32 * words - 32 < len <= 32 * words
      && r.value.1 - len == COPY_BASE_NATIVE_COST
  {
    var rounded := RoundUp32(len);
    if rounded > U64_MAX then None
    else
      var gas := COPY * (rounded / 32);
      var native := COPY_BYTE_NATIVE_COST * len + COPY_BASE_NATIVE_COST;
      if gas > U64_MAX || native > U64_MAX || gas + VERYLOW > U64_MAX then None else Some((gas + VERYLOW, native))
  }

  /** Copying in two pieces never costs less, and at most one word more. */
  lemma CopyInPieces(a: nat, b: nat)
    requires a + b <= U64_MAX - COPY_BASE_NATIVE_COST
    ensures
      var whole := CopyCostPlusVeryLow(a + b).value;
      var first, second := CopyCostPlusVeryLow(a).value, CopyCostPlusVeryLow(b).value;
      && whole.0 + VERYLOW <= first.0 + second.0 <= whole.0 + VERYLOW + COPY
      && whole.1 + COPY_BASE_NATIVE_COST == first.1 + second.1
  {
  }

  lemma WordFits(bytes: seq<byte>)
    requires |bytes| == 32
    ensures FromBE(bytes) <= U256_MAX
  {
    BEInverse(bytes);
    Pow256Values();
  }

  lemma GrownTwice(heap: seq<byte>, a: nat, b: nat)
    ensures Grown(Grown(heap, a), b) == Grown(heap, Max(a, b))
  {
  }

  /** The heap size after a run of accesses. */
  function SizeAfter(size: nat, accesses: seq<(nat, nat)>): nat
  {
    if accesses == [] then size
    else
      var n := |accesses| - 1;
      Max(SizeAfter(size, accesses[..n]), RoundUp32(accesses[n].0 + accesses[n].1))
  }

  lemma {:induction false} GrownNext(heap: seq<byte>, accesses: seq<(nat, nat)>, i: nat)
    requires i < |accesses|
    ensures Grown(heap, SizeAfter(|heap|, accesses[..i + 1]))
         == Grown(Grown(heap, SizeAfter(|heap|, accesses[..i])), RoundUp32(accesses[i].0 + accesses[i].1))
  {
    assert accesses[..i + 1][..i] == accesses[..i];
    GrownTwice(heap, SizeAfter(|heap|, accesses[..i]), RoundUp32(accesses[i].0 + accesses[i].1));
  }

  /** It is the least multiple of 32 that covers the old size and every access, in whatever order they come. */
  lemma {:induction false} SizeAfterIsLeast(size: nat, accesses: seq<(nat, nat)>, bound: nat)
    requires size % 32 == 0 && bound % 32 == 0
    ensures SizeAfter(size, accesses) % 32 == 0
    ensures SizeAfter(size, accesses) <= bound
        <==> size <= bound && forall i :: 0 <= i < |accesses| ==> accesses[i].0 + accesses[i].1 <= bound
  {
    if accesses != [] {
      var n := |accesses| - 1;
      SizeAfterIsLeast(size, accesses[..n], bound);
      assert forall i :: 0 <= i < n ==> accesses[..n][i] == accesses[i];
      RoundUpBound(accesses[n].0 + accesses[n].1, bound);
    }
  }

  lemma RoundUpBound(x: nat, bound: nat)
    requires bound % 32 == 0
    ensures RoundUp32(x) <= bound <==> x <= bound
  {
  }

  /** A stored word is read back, and words apart from it are not touched. */
  lemma LoadAfterStore(heap: seq<byte>, at: nat, value: u256, from: nat)
    requires at + 32 <= |heap| && from + 32 <= |heap|
    requires from == at || from + 32 <= at || at + 32 <= from
    ensures FromBE(Overwritten(heap, at, ToBE(value, 32))[from..from + 32])
         == if from == at then value else FromBE(heap[from..from + 32])
  {
    var h := Overwritten(heap, at, ToBE(value, 32));
    if from == at {
      assert h[at..at + 32] == ToBE(value, 32);
      Pow256Values();
      BERoundTrip(value, 32);
    } else {
      assert h[from..from + 32] == heap[from..from + 32];
    }
  }
}
