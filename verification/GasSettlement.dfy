/** How a transaction's gas becomes resources, and how what is left becomes a refund. */
module GasSettlement {
  import opened Numbers
  import opened Resources

  const MAX_NATIVE_COMPUTATIONAL: nat := 0x10_0000_0000
  const CALLDATA_ZERO_BYTE_GAS_COST: nat := 4
  const CALLDATA_NON_ZERO_BYTE_GAS_COST: nat := 16
  const COPY_BYTE_NATIVE_COST: nat := 1

  datatype TxError =
    | InternalError
    | OutOfNativeResourcesDuringValidation
    | OutOfGasDuringValidation

  datatype ResourcesForTx = ResourcesForTx(main: Resources, withheld: Resources, intrinsicNative: u64)

  function Saturated(x: u256): u64 { if x <= U64_MAX then x else U64_MAX }

  function ZeroBytes(data: seq<byte>): (n: nat)
    ensures n <= |data|
  {
    if data == [] then 0 else (if data[0] == 0 then 1 else 0) + ZeroBytes(data[1..])
  }

  /** Gas and native price of the calldata. */
  function CostForCalldata(data: seq<byte>): (r: Result<(u64, u64), TxError>)
    ensures r.Ok? ==> CALLDATA_ZERO_BYTE_GAS_COST * |data| <= r.value.0 <= CALLDATA_NON_ZERO_BYTE_GAS_COST * |data|
    ensures r.Ok? ==> r.value.1 == |data|
  {
    var zeroCost := ZeroBytes(data) * CALLDATA_ZERO_BYTE_GAS_COST;
    var nonZeroCost := (|data| - ZeroBytes(data)) * CALLDATA_NON_ZERO_BYTE_GAS_COST;
    if zeroCost > U64_MAX || nonZeroCost > U64_MAX || zeroCost + nonZeroCost > U64_MAX then Err(InternalError) else
    if |data| * COPY_BYTE_NATIVE_COST > U64_MAX then Err(InternalError) else
    Ok((zeroCost + nonZeroCost, |data| * COPY_BYTE_NATIVE_COST))
  }

  lemma {:induction false} ZeroBytesAppend(data: seq<byte>, b: byte)
    ensures ZeroBytes(data + [b]) == ZeroBytes(data) + (if b == 0 then 1 else 0)
  {
    if data != [] {
      ZeroBytesAppend(data[1..], b);
      assert (data + [b])[1..] == data[1..] + [b];
    }
  }

  /** The price is that of the bytes one by one: 4 gas for a zero, 16 for any other, one native each. */
  lemma CalldataCostPerByte(data: seq<byte>, b: byte)
    requires CostForCalldata(data + [b]).Ok?
    ensures CostForCalldata([]) == Ok((0, 0)) && CostForCalldata(data).Ok?
    ensures
      var before, after := CostForCalldata(data).value, CostForCalldata(data + [b]).value;
      after.0 == before.0 + (if b == 0 then 4 else 16) && after.1 == before.1 + 1
  {
    ZeroBytesAppend(data, b);
  }

  /** All native a transaction can ever pay for. */
  function FullNativeLimit(gasLimit: u64, nativePerGas: u256): u64
  {
    SaturatingMul(gasLimit, Saturated(nativePerGas))
  }

  /** The native limit covers the intrinsic pubdata, and what is left below the cap the intrinsic computation. */
  predicate PaysNative(gasLimit: u64, nativePerPubdata: u256, nativePerGas: u256, calldataLen: nat,
                       intrinsicPubdata: u64, intrinsicNative: u64)
  {
    var left := FullNativeLimit(gasLimit, nativePerGas) - Saturated(nativePerPubdata) * intrinsicPubdata;
    calldataLen * COPY_BYTE_NATIVE_COST + intrinsicNative <= Min(left, MAX_NATIVE_COMPUTATIONAL)
  }

  /** The gas limit covers calldata and intrinsic gas, and the rest fits a word as ergs. */
  predicate PaysGas(gasLimit: u64, calldata: seq<byte>, intrinsicGas: u64)
  {
    var cost := CostForCalldata(calldata);
    cost.Ok? && 0 <= (gasLimit - cost.value.0 - intrinsicGas) * ERGS_PER_GAS <= U64_MAX
  }

  /**
   * Splits the full native limit: the intrinsic pubdata first, then everything above the
   * computational cap is withheld, then the intrinsic computation.
   */
  function GetResourcesForTx(gasLimit: u64, nativePerPubdata: u256, nativePerGas: u256, calldata: seq<byte>,
                             intrinsicGas: u64, intrinsicPubdata: u64, intrinsicNative: u64)
    : (r: Result<ResourcesForTx, TxError>)
    ensures r.Ok? <==>
      && PaysNative(gasLimit, nativePerPubdata, nativePerGas, |calldata|, intrinsicPubdata, intrinsicNative)
      && PaysGas(gasLimit, calldata, intrinsicGas)
    ensures r == Err(OutOfNativeResourcesDuringValidation) ==>
      !PaysNative(gasLimit, nativePerPubdata, nativePerGas, |calldata|, intrinsicPubdata, intrinsicNative)
    ensures r == Err(OutOfGasDuringValidation) ==>
      CostForCalldata(calldata).Ok? && CostForCalldata(calldata).value.0 + intrinsicGas > gasLimit
    ensures r.Ok? ==>
      var cost := CostForCalldata(calldata);
      && cost.Ok?
      && r.value.intrinsicNative == cost.value.1 + intrinsicNative
      && FullNativeLimit(gasLimit, nativePerGas)
         == Saturated(nativePerPubdata) * intrinsicPubdata + r.value.intrinsicNative
            + r.value.main.native + r.value.withheld.native
      && r.value.main.ergs == (gasLimit - cost.value.0 - intrinsicGas) * ERGS_PER_GAS
      && r.value.withheld.ergs == 0
      && r.value.main.native + r.value.intrinsicNative <= MAX_NATIVE_COMPUTATIONAL
      && (r.value.withheld.native > 0 ==> r.value.main.native + r.value.intrinsicNative == MAX_NATIVE_COMPUTATIONAL)
  {
    var nativeLimit := FullNativeLimit(gasLimit, nativePerGas);
    MulMono(0, Saturated(nativePerPubdata), intrinsicPubdata);
    var pubdataOverhead := Saturated(nativePerPubdata) * intrinsicPubdata;
    if pubdataOverhead > U64_MAX then Err(InternalError) else
    if nativeLimit < pubdataOverhead then Err(OutOfNativeResourcesDuringValidation) else
    var afterPubdata := nativeLimit - pubdataOverhead;
    var capped := Min(afterPubdata, MAX_NATIVE_COMPUTATIONAL);
    var withheld := Resources(0, afterPubdata - capped);
    var cost := CostForCalldata(calldata);
    if cost.Err? then Err(cost.error) else
    if cost.value.1 + intrinsicNative > U64_MAX then Err(OutOfNativeResourcesDuringValidation) else
    var intrinsic := cost.value.1 + intrinsicNative;
    if capped < intrinsic then Err(OutOfNativeResourcesDuringValidation) else
    if cost.value.0 + intrinsicGas > U64_MAX then Err(InternalError) else
    if cost.value.0 + intrinsicGas > gasLimit then Err(OutOfGasDuringValidation) else
    var ergs := (gasLimit - cost.value.0 - intrinsicGas) * ERGS_PER_GAS;
    if ergs > U64_MAX then Err(InternalError) else
    Ok(ResourcesForTx(Resources(ergs, capped - intrinsic), withheld, intrinsic))
  }

  lemma QuotientBound(a: nat, b: nat, d: nat)
    requires d > 0 && a <= b * d
    ensures a / d <= b
  {
    if b < a / d {
      MulMono(b + 1, a / d, d);
    }
  }

  /** The difference of two amounts of gas, as the code takes it: both cast to i64, wrapping. */
  function Delta(asGas: u64, used: u64): int64 { ToI64(ToI64(asGas) - ToI64(used)) }

  /** Wrap-around of values less than 2^64 away from zero. */
  function ToI64(x: int): int64
    requires -TWO_TO_64 < x < TWO_TO_64
  {
    if x >= TWO_TO_64 / 2 then x - TWO_TO_64 else if x < -TWO_TO_64 / 2 then x + TWO_TO_64 else x
  }

  const TWO_TO_64: int := U64_MAX + 1

  /** Two amounts less than 2^63 apart, as all below 2^63 are. */
  predicate Comparable(asGas: u64, used: u64)
  {
    -0x8000_0000_0000_0000 <= asGas - used < 0x8000_0000_0000_0000
  }

  /** The amount raised by the difference, if that is positive. */
  function Raised(gasUsed: u64, asGas: u64): (r: u64)
    ensures r == if Comparable(asGas, gasUsed) then Max(gasUsed, asGas) else Min(gasUsed, asGas)
  {
    var delta := Delta(asGas, gasUsed);
    if delta <= 0 then gasUsed
    else if gasUsed + delta < TWO_TO_64 then gasUsed + delta
    else gasUsed + delta - TWO_TO_64
  }

  /**
   * Consumes extra gas when the native spent is worth more. The result is the larger of the
   * two amounts if and only if they are comparable; otherwise it is the smaller one.
   */
  method RaiseToNative(gasUsed: u64, gasLimit: u64, nativePerGas: u256, fullNativeLimit: u64, nativeLeft: u64)
    returns (raised: u64)
    requires gasUsed <= gasLimit
    requires fullNativeLimit == FullNativeLimit(gasLimit, nativePerGas) && nativeLeft <= fullNativeLimit
    ensures raised <= gasLimit
    ensures
      var asGas := NativeInGas(fullNativeLimit - nativeLeft, nativePerGas);
      && asGas <= U64_MAX && raised == Raised(gasUsed, asGas)
      && raised == if Comparable(asGas, gasUsed) then Max(gasUsed, asGas) else Min(gasUsed, asGas)
  {
    NativeWorthBounded(gasLimit, nativePerGas, fullNativeLimit - nativeLeft);
    // worth no gas at all when native has no price
    raised := Raised(gasUsed, NativeInGas(fullNativeLimit - nativeLeft, nativePerGas));
  }

  lemma NativeWorthBounded(gasLimit: u64, nativePerGas: u256, native: nat)
    requires native <= FullNativeLimit(gasLimit, nativePerGas)
    ensures NativeInGas(native, nativePerGas) <= gasLimit
  {
    if nativePerGas != 0 {
      QuotientBound(native, gasLimit, Saturated(nativePerGas));
    }
  }

  /** Refunded for state changes: what was counted, but at most a fifth of the gas spent. */
  function EvmRefund(gasLimit: u64, refundCounter: Option<u64>, ergs: u64): nat
    requires ergs / ERGS_PER_GAS <= gasLimit
  {
    Min(refundCounter.GetOr(0) / ERGS_PER_GAS, (gasLimit - ergs / ERGS_PER_GAS) / 5)
  }

  /**
   * The gas used when this is left of a transaction's resources: the gas spent less the refund, or
   * the minimum, or what the native spent is worth, whichever is most.
   */
  function GasUsed(gasLimit: u64, minimalGasUsed: u64, nativePerGas: u256, refundCounter: Option<u64>, left: Resources)
    : nat
    requires left.ergs / ERGS_PER_GAS <= gasLimit && left.native <= FullNativeLimit(gasLimit, nativePerGas)
  {
    var spent := gasLimit - left.ergs / ERGS_PER_GAS;
    var charged := Max(spent - EvmRefund(gasLimit, refundCounter, left.ergs), minimalGasUsed);
    var asGas := NativeInGas(FullNativeLimit(gasLimit, nativePerGas) - left.native, nativePerGas);
    // the difference of the two is taken in 64 bits
    if charged - asGas <= 0x8000_0000_0000_0000 then Max(charged, asGas) else asGas
  }

  /**
   * Gas used and refunded. Native that costs more than the gas spent raises the gas used.
   * The requires are what the code relies on without checking: the pubdata charge was
   * checked before, and nothing spent was ever given back beyond the limits.
   */
  method ComputeGasRefund(toCharge: Resources, gasLimit: u64, minimalGasUsed: u64, nativePerGas: u256,
                          refundCounter: Option<u64>, resources: Resources)
    returns (gasRefund: u64, gasUsed: u64, evmRefund: u64, left: Resources)
    requires resources.HasEnough(toCharge) && toCharge.ergs == 0
    requires resources.ergs / ERGS_PER_GAS <= gasLimit && resources.native <= FullNativeLimit(gasLimit, nativePerGas)
    requires minimalGasUsed <= gasLimit
    ensures gasRefund + gasUsed == gasLimit && left == Resources(0, resources.native - toCharge.native)
    ensures evmRefund == EvmRefund(gasLimit, refundCounter, resources.ergs)
    ensures gasUsed ==
            GasUsed(gasLimit, minimalGasUsed, nativePerGas, refundCounter, Resources(resources.ergs, left.native))
    ensures gasLimit < 0x8000_0000_0000_0000 ==>
      && minimalGasUsed <= gasUsed
      && (nativePerGas > 0 ==>
            FullNativeLimit(gasLimit, nativePerGas) - left.native < (gasUsed + 1) * Saturated(nativePerGas))
  {
    left := resources.ChargeUnchecked(toCharge);
    evmRefund, gasUsed := GasBeforeNative(left.ergs, gasLimit, minimalGasUsed, refundCounter);
    left := left.(ergs := 0);
    NativeWorthBounded(gasLimit, nativePerGas, FullNativeLimit(gasLimit, nativePerGas) - left.native);
    NeverFarAhead(gasLimit, resources.ergs, evmRefund, gasUsed,
                  NativeInGas(FullNativeLimit(gasLimit, nativePerGas) - left.native, nativePerGas));
    gasUsed := ChargeForNative(gasUsed, gasLimit, nativePerGas, left.native);
    gasRefund := gasLimit - gasUsed;
  }

  /** Charges for the native if that is worth more gas. */
  method ChargeForNative(charged: u64, gasLimit: u64, nativePerGas: u256, nativeLeft: u64) returns (gasUsed: u64)
    requires charged <= gasLimit && nativeLeft <= FullNativeLimit(gasLimit, nativePerGas)
    requires NativeInGas(FullNativeLimit(gasLimit, nativePerGas) - nativeLeft, nativePerGas) - charged
             < 0x8000_0000_0000_0000
    ensures gasUsed <= gasLimit
    ensures
      var asGas := NativeInGas(FullNativeLimit(gasLimit, nativePerGas) - nativeLeft, nativePerGas);
      gasUsed == if charged - asGas <= 0x8000_0000_0000_0000 then Max(charged, asGas) else asGas
    ensures gasLimit < 0x8000_0000_0000_0000 ==>
      && charged <= gasUsed
      && (nativePerGas > 0 ==>
            FullNativeLimit(gasLimit, nativePerGas) - nativeLeft < (gasUsed + 1) * Saturated(nativePerGas))
  {
    var fullNativeLimit := FullNativeLimit(gasLimit, nativePerGas);
    NativeWorthBounded(gasLimit, nativePerGas, fullNativeLimit - nativeLeft);
    RaisedWraps(charged, NativeInGas(fullNativeLimit - nativeLeft, nativePerGas));
    gasUsed := RaiseToNative(charged, gasLimit, nativePerGas, fullNativeLimit, nativeLeft);
    if nativePerGas > 0 && gasLimit < 0x8000_0000_0000_0000 {
      ChargedGasPaysForNative(fullNativeLimit - nativeLeft, nativePerGas, gasUsed);
    }
  }

  /** The gas spent, less the refund of the state changes, which is at most a fifth of it. */
  method GasBeforeNative(ergs: u64, gasLimit: u64, minimalGasUsed: u64, refundCounter: Option<u64>)
    returns (evmRefund: u64, charged: u64)
    requires ergs / ERGS_PER_GAS <= gasLimit && minimalGasUsed <= gasLimit
    ensures evmRefund == EvmRefund(gasLimit, refundCounter, ergs)
    ensures charged == Max(gasLimit - ergs / ERGS_PER_GAS - evmRefund, minimalGasUsed) <= gasLimit
  {
    charged := gasLimit - ergs / ERGS_PER_GAS;
    evmRefund := Min(refundCounter.GetOr(0) / ERGS_PER_GAS, charged / 5);
    charged := Max(charged - evmRefund, minimalGasUsed);
  }

  /** The one way in which the difference can wrap around. */
  lemma RaisedWraps(charged: u64, asGas: u64)
    requires asGas - charged < 0x8000_0000_0000_0000
    ensures Raised(charged, asGas) ==
            if charged - asGas <= 0x8000_0000_0000_0000 then Max(charged, asGas) else asGas
  {
  }

  /** What the native is worth is never so far above the gas charged that the difference wraps around. */
  lemma NeverFarAhead(gasLimit: u64, ergs: u64, evmRefund: nat, charged: nat, asGas: nat)
    requires ergs / ERGS_PER_GAS <= gasLimit && asGas <= gasLimit
    requires evmRefund <= (gasLimit - ergs / ERGS_PER_GAS) / 5
    requires charged >= gasLimit - ergs / ERGS_PER_GAS - evmRefund
    ensures asGas - charged < 0x8000_0000_0000_0000
  {
  }

  /** Above a gas limit of 2^63 all of the gas can be spent and none of it charged, if no native was used. */
  method HugeLimitIsFree() returns (gasRefund: u64, gasUsed: u64)
    ensures gasUsed == 0 && gasRefund == 0x8000_0000_0000_0001
  {
    var limit := 0x8000_0000_0000_0001;
    var evmRefund, left;
    gasRefund, gasUsed, evmRefund, left := ComputeGasRefund(EMPTY, limit, 0, 1, None, Resources(0, limit));
  }

  type int64 = x: int | -0x8000_0000_0000_0000 <= x < 0x8000_0000_0000_0000

  function NativeInGas(native: nat, nativePerGas: u256): nat
  {
    if nativePerGas == 0 then 0 else native / Saturated(nativePerGas)
  }

  /** What native is worth in gas is rounded down; it is worth nothing if it has no price. */
  lemma NativeInGasRoundsDown(native: nat, nativePerGas: u256)
    ensures
      var r, d := NativeInGas(native, nativePerGas), Saturated(nativePerGas);
      if nativePerGas == 0 then r == 0 else r * d <= native < (r + 1) * d
  {
    if nativePerGas > 0 {
      QuotientRoundsDown(native, Saturated(nativePerGas));
    }
  }

  lemma QuotientRoundsDown(a: nat, d: nat)
    requires d > 0
    ensures a / d >= 0 && a / d * d <= a < (a / d + 1) * d
  {
    assert a == a / d * d + a % d;
    assert (a / d + 1) * d == a / d * d + d;
  }

  /** The gas charged pays, up to less than one gas, for all native spent, also when the limit saturates. */
  lemma ChargedGasPaysForNative(native: nat, nativePerGas: u256, gasUsed: nat)
    requires nativePerGas > 0 && gasUsed >= NativeInGas(native, nativePerGas)
    ensures native < (gasUsed + 1) * Saturated(nativePerGas)
  {
    var d := Saturated(nativePerGas);
    MulMono(native / d + 1, gasUsed + 1, d);
    assert (native / d + 1) * d == native / d * d + d;
    assert native == native / d * d + native % d;
  }
}
