/** Transactions that come from L1: deposits, execution, fee and refund. */
module L1Transaction {
  import opened Numbers
  import opened World
  import opened Resources
  import opened IoSubsystem
  import opened Calls
  import opened Opcodes
  import opened Semantics
  import opened Trees
  import opened Interpreter
  import opened Runner
  import GasSettlement

  const L1_TX_INTRINSIC_L2_GAS: u64 := 11000
  const L1_TX_INTRINSIC_PUBDATA: u64 := 88
  const L1_TX_INTRINSIC_NATIVE_COST: u64 := 10_000
  const L1_TX_NATIVE_PRICE: nat := 10
  const SIMULATION_NATIVE_PER_GAS: u256 := 100
  const UPGRADE_TX_NATIVE_PER_GAS: u256 := 10_000
  const MAX_TX_LEN_BYTES: nat := 0x80_0000
  const U128_MAX: nat := 0xFFFFFFFF_FFFFFFFF_FFFFFFFF_FFFFFFFF
  const BOOTLOADER_FORMAL_ADDRESS: Address := 0x8001

  type u128 = x: int | 0 <= x <= U128_MAX

  datatype L1Tx = L1Tx(
    gasLimit: u64,
    gasPrice: u128,
    gasPerPubdata: u32,
    from: Address,
    to: Address,
    value: u256,
    totalDeposited: u256,
    refundRecipient: Address,
    calldata: seq<byte>,
    hash: u256
  )

  /** `Underflow` stands for the two checked subtractions on the deposit. */
  datatype TxError =
    | InternalError
    | OutOfNativeResourcesDuringValidation
    | OutOfGasDuringValidation
    | UpgradeTxFailed
    | MintingBalanceOverflow
    | Underflow
    | RunFailed(error: RunError)

  function ToTxError(e: GasSettlement.TxError): TxError
  {
    match e
    case InternalError => TxError.InternalError
    case OutOfNativeResourcesDuringValidation => TxError.OutOfNativeResourcesDuringValidation
    case OutOfGasDuringValidation => TxError.OutOfGasDuringValidation
  }

  /** Pubdata of a state relative to the state at the start of the transaction. */
  type PubdataMeter = f: (World, World) -> u64 | forall w :: f(w, w) == 0 witness (a, b) => 0

  /** Which of the ways through the transaction was taken. */
  datatype Fate = Rejected | PreparationRanOut | RunRanOut | Ended(success: bool)
  {
    predicate Died() { PreparationRanOut? || RunRanOut? }
  }

  datatype TxResult = TxResult(success: bool, gasUsed: u64)

  datatype Pricing = Pricing(nativePerGas: u256, nativePerPubdata: u256, budget: GasSettlement.ResourcesForTx)

  /** Ceiling of the gas price in units of the fixed native price. */
  function NativePerGas(tx: L1Tx, isPriorityOp: bool, onlySimulate: bool): (r: u256)
    ensures isPriorityOp && !onlySimulate ==> L1_TX_NATIVE_PRICE * (r - 1) < tx.gasPrice <= L1_TX_NATIVE_PRICE * r
    ensures !isPriorityOp ==> r == 10_000
    ensures isPriorityOp && onlySimulate ==> r == 100
  {
    if !isPriorityOp then UPGRADE_TX_NATIVE_PER_GAS
    else if onlySimulate then SIMULATION_NATIVE_PER_GAS
    else (tx.gasPrice + L1_TX_NATIVE_PRICE - 1) / L1_TX_NATIVE_PRICE
  }

  /** Everything the transaction may spend, the withheld part included, stays below its limits. */
  predicate WithinLimits(b: GasSettlement.ResourcesForTx, gasLimit: u64, fullNativeLimit: u64)
  {
    && b.main.ergs / ERGS_PER_GAS <= gasLimit < 0x8000_0000_0000_0000
    && b.withheld.ergs == 0
    && b.main.native + b.withheld.native <= fullNativeLimit
  }

  lemma BudgetFits(gasLimit: u64, nativePerPubdata: u256, nativePerGas: u256, calldata: seq<byte>,
                   b: GasSettlement.ResourcesForTx)
    requires |calldata| <= MAX_TX_LEN_BYTES
    requires GasSettlement.GetResourcesForTx(gasLimit, nativePerPubdata, nativePerGas, calldata,
      L1_TX_INTRINSIC_L2_GAS, L1_TX_INTRINSIC_PUBDATA, L1_TX_INTRINSIC_NATIVE_COST) == Ok(b)
    ensures WithinLimits(b, gasLimit, GasSettlement.FullNativeLimit(gasLimit, nativePerGas))
  {
    var cost := GasSettlement.CostForCalldata(calldata).value.0;
    assert b.main.ergs == (gasLimit - cost - L1_TX_INTRINSIC_L2_GAS) * ERGS_PER_GAS;
  }

  /** The resources a transaction can buy, if its price for pubdata fits a word. */
  function Budget(tx: L1Tx, isPriorityOp: bool, onlySimulate: bool)
    : Result<GasSettlement.ResourcesForTx, GasSettlement.TxError>
  {
    var nativePerGas := NativePerGas(tx, isPriorityOp, onlySimulate);
    MulMono(0, tx.gasPerPubdata, nativePerGas);
    if tx.gasPerPubdata * nativePerGas > U256_MAX then Err(GasSettlement.InternalError)
    else
      GasSettlement.GetResourcesForTx(tx.gasLimit, tx.gasPerPubdata * nativePerGas, nativePerGas, tx.calldata,
        L1_TX_INTRINSIC_L2_GAS, L1_TX_INTRINSIC_PUBDATA, L1_TX_INTRINSIC_NATIVE_COST)
  }

  predicate Accepted(tx: L1Tx, isPriorityOp: bool, onlySimulate: bool)
  {
    && Budget(tx, isPriorityOp, onlySimulate).Ok?
    && tx.gasPrice * tx.gasLimit <= U128_MAX && tx.value + tx.gasPrice * tx.gasLimit <= tx.totalDeposited
  }

  function NativePerPubdata(tx: L1Tx, isPriorityOp: bool, onlySimulate: bool): u256
    requires Accepted(tx, isPriorityOp, onlySimulate)
  {
    MulMono(0, tx.gasPerPubdata, NativePerGas(tx, isPriorityOp, onlySimulate));
    tx.gasPerPubdata * NativePerGas(tx, isPriorityOp, onlySimulate)
  }

  /** The resources of the transaction, and the check that the deposit covers value and fee. */
  method PriceTransaction(tx: L1Tx, isPriorityOp: bool, onlySimulate: bool) returns (r: Result<Pricing, TxError>)
    requires |tx.calldata| <= MAX_TX_LEN_BYTES
    ensures r.Ok? ==> tx.value + tx.gasPrice * tx.gasLimit <= tx.totalDeposited
    ensures r.Ok? <==> Accepted(tx, isPriorityOp, onlySimulate)
    ensures r.Ok? ==>
      && r.value.budget == Budget(tx, isPriorityOp, onlySimulate).value
      && r.value.nativePerGas == NativePerGas(tx, isPriorityOp, onlySimulate)
      && r.value.nativePerPubdata == NativePerPubdata(tx, isPriorityOp, onlySimulate)
      && WithinLimits(r.value.budget, tx.gasLimit, GasSettlement.FullNativeLimit(tx.gasLimit, r.value.nativePerGas))
    ensures r.Err? ==> !r.error.Underflow? && !r.error.RunFailed? && !r.error.UpgradeTxFailed?
  {
    var budget := Budget(tx, isPriorityOp, onlySimulate);
    if budget.Err? {
      return Err(ToTxError(budget.error));
    }
    var nativePerGas := NativePerGas(tx, isPriorityOp, onlySimulate);
    var nativePerPubdata: u256 := tx.gasPerPubdata * nativePerGas;
    BudgetFits(tx.gasLimit, nativePerPubdata, nativePerGas, tx.calldata, budget.value);
    var covered := DepositCovers(tx);
    if !covered {
      return Err(TxError.InternalError);
    }
    r := Ok(Pricing(nativePerGas, nativePerPubdata, budget.value));
  }

  /** The fee is computed in 128 bits, the sum in 256; an overflow counts as not covered. */
  method DepositCovers(tx: L1Tx) returns (covered: bool)
    ensures covered <==>
      tx.gasPrice * tx.gasLimit <= U128_MAX && tx.value + tx.gasPrice * tx.gasLimit <= tx.totalDeposited
  {
    if tx.gasPrice * tx.gasLimit > U128_MAX {
      return false;
    }
    var internalCost: u128 := tx.gasPrice * tx.gasLimit;
    if tx.value + internalCost > U256_MAX {
      return false;
    }
    covered := tx.totalDeposited >= tx.value + internalCost;
  }

  /** A mint out of unlimited resources; two of them never run short. */
  method MintFromInfinite(system: System, v: u256, to: Address, res: Resources)
    returns (left: Resources, error: Option<TxError>)
    requires res.ergs >= MAX_IO && res.native >= MAX_IO
    modifies system`services, system`world
    ensures error.None? ==>
      && old(system.world).Balance(to) + v <= U256_MAX
      && system.world == Credit(old(system.world), to, v)
      && Accounted(system.world) == Accounted(old(system.world)) + v
      && res.ergs - MAX_IO <= left.ergs && res.native - MAX_IO <= left.native
    ensures error.Some? ==> error.value.MintingBalanceOverflow? && Accounted(old(system.world)) + v > U256_MAX
  {
    var e;
    left, e := system.AddBalance(res, to, v);
    if e.None? {
      error := None;
      CreditAdds(old(system.world), to, v);
    } else {
      error := Some(MintingBalanceOverflow);
      BalanceIsAccounted(old(system.world), to);
    }
  }

  lemma BalanceIsAccounted(w: World, a: Address)
    ensures w.Balance(a) <= Accounted(w)
  {
    if a in w.balances {
      SupplyBoundsBalance(w.balances, a);
    }
  }

  /** Native to pay for the pubdata of the state changes made so far. */
  function PubdataCharge(pubdata: u64, nativePerPubdata: u256): (r: Option<Resources>)
    ensures r.Some? ==> r.value.ergs == 0
    ensures pubdata == 0 ==> r == Some(EMPTY)
  {
    MulMono(0, pubdata, GasSettlement.Saturated(nativePerPubdata));
    var native := pubdata * GasSettlement.Saturated(nativePerPubdata);
    if native > U64_MAX then None else Some(Resources(0, native))
  }

  /** Each byte costs its price, until the sum no longer fits 64 bits. */
  lemma PubdataChargePerByte(pubdata: u64, nativePerPubdata: u256)
    requires pubdata < U64_MAX
    ensures
      var before, after := PubdataCharge(pubdata, nativePerPubdata), PubdataCharge(pubdata + 1, nativePerPubdata);
      var price := GasSettlement.Saturated(nativePerPubdata);
      && (after.Some? <==> before.Some? && before.value.native + price <= U64_MAX)
      && (after.Some? ==> after.value == Resources(0, before.value.native + price))
  {
    var price := GasSettlement.Saturated(nativePerPubdata);
    assert (pubdata + 1) * price == pubdata * price + price;
  }

  /** The call that a transaction asks for, whatever it may cost. */
  function PayloadCall(tx: L1Tx): ExternalCallRequest
  {
    ExternalCallRequest(EMPTY, 0, tx.from, tx.to, 0, NoModifier, tx.calldata, tx.value)
  }

  ghost predicate CanMint(w: World, tx: L1Tx) { w.Balance(tx.from) + tx.value <= U256_MAX }

  /** The world in which that call starts: its sender has been given the value. */
  ghost function Minted(w: World, tx: L1Tx): World
  {
    if tx.value > 0 && CanMint(w, tx) then Credit(w, tx.from, tx.value) else w
  }

  /** How that call went: its trace, its result, where it led, what was left, and what its pubdata cost. */
  datatype Payload = Payload(
    course: Course,
    result: CallResult,
    after: World,
    steps: nat,
    left: Resources,
    due: Resources
  )

  class Transactions {
    const system: System
    const program: Program
    const hooked: set<Address>
    const returnMemory: nat
    const pubdata: PubdataMeter
    /** The execution environment of an account, as its version byte says. */
    const environment: (World, Address) -> ExecutionEnvironment

    constructor (system: System, program: Program, hooked: set<Address>, returnMemory: nat, pubdata: PubdataMeter,
                 environment: (World, Address) -> ExecutionEnvironment)
      ensures this.system == system && this.program == program
    {
      this.system, this.program, this.hooked := system, program, hooked;
      this.returnMemory, this.pubdata, this.environment := returnMemory, pubdata, environment;
    }

    ghost function Setting(): Rules
    {
      Rules(program.ops, system.keccak, system.preimage, system.derive, hooked)
    }

    /** The call of the transaction was run on the world with the value minted, and its pubdata was priced. */
    ghost predicate Delivers(tx: L1Tx, start: World, at: nat, nativePerPubdata: u256, p: Payload)
    {
      && (tx.value > 0 ==> CanMint(start, tx))
      && CallDone(Setting(), 0, Minted(start, tx), at, PayloadCall(tx), p.course, p.after, p.result, p.steps)
      && PubdataCharge(pubdata(start, if p.result.Successful? then p.after else start), nativePerPubdata) == Some(p.due)
    }

    /** The call succeeded, and what was left of the resources paid for its pubdata. */
    ghost predicate Stays(p: Payload) { p.result.Successful? && p.left.HasEnough(p.due) }

    /** The gas used follows from what the call left, and from the pubdata if it stays. */
    ghost predicate Uses(tx: L1Tx, nativePerGas: u256, refunds: u64, p: Payload, gasUsed: u64)
    {
      var native := p.left.native - if Stays(p) then p.due.native else 0;
      && p.left.ergs / ERGS_PER_GAS <= tx.gasLimit && native <= GasSettlement.FullNativeLimit(tx.gasLimit, nativePerGas)
      && gasUsed == GasSettlement.GasUsed(tx.gasLimit, 0, nativePerGas, Some(refunds), Resources(p.left.ergs, native))
    }

    /** A transaction adds its value to the tokens accounted for, and keeps messages genuine. */
    lemma DeliveryKeeps(tx: L1Tx, start: World, at: nat, nativePerPubdata: u256, p: Payload)
      requires Delivers(tx, start, at, nativePerPubdata, p)
      ensures p.result.Successful? ==> Accounted(p.after) == Accounted(start) + tx.value
      ensures tx.from != L2_BASE_TOKEN_ADDRESS && Genuine(start.messages) && !Forges(tx, start, p) ==>
        Genuine(p.after.messages)
    {
      if tx.value > 0 {
        CreditAdds(start, tx.from, tx.value);
      }
      CallKeeps(Setting(), 0, Minted(start, tx), at, PayloadCall(tx), p.course, p.after, p.result, p.steps);
    }

    ghost predicate Forges(tx: L1Tx, start: World, p: Payload)
    {
      CallImpersonates(Setting(), Minted(start, tx), PayloadCall(tx), p.course)
    }

    /**
     * Whole transaction. When it goes through, exactly the deposit is added to the tokens
     * accounted for: the fee and the refund always, the value only when execution succeeds.
     */
    method ProcessL1Transaction(tx: L1Tx, isPriorityOp: bool, onlySimulate: bool)
      returns (r: Result<TxResult, TxError>, ghost executed: World, ghost fate: Fate, ghost payload: Payload)
      requires |tx.calldata| <= MAX_TX_LEN_BYTES
      modifies system, program
      ensures r.Ok? ==> system.frames == old(system.frames)
      ensures r.Ok? ==> Accounted(system.world) == Accounted(old(system.world)) + tx.totalDeposited
      ensures r.Ok? ==> r.value.gasUsed <= tx.gasLimit
      ensures r.Ok? ==> Settled(executed, system.world, tx, r.value.gasUsed, r.value.success)
      ensures r.Ok? && r.value.success ==> Accounted(executed) == Accounted(old(system.world)) + tx.value
      ensures r.Ok? && !r.value.success ==> isPriorityOp && executed == old(system.world)
      ensures r.Ok? ==> fate == Ended(r.value.success) || (fate.Died() && !r.value.success)
      ensures r.Ok? && fate.Ended? ==>
        && Accepted(tx, isPriorityOp, onlySimulate)
        && Delivers(tx, old(system.world), old(program.steps), NativePerPubdata(tx, isPriorityOp, onlySimulate),
                    payload)
        && (r.value.success <==> Stays(payload))
        && Uses(tx, NativePerGas(tx, isPriorityOp, onlySimulate), executed.refunds, payload, r.value.gasUsed)
      ensures r.Ok? && r.value.success ==> executed == payload.after
      ensures fate.PreparationRanOut? <==>
        && Accepted(tx, isPriorityOp, onlySimulate)
        && Budget(tx, isPriorityOp, onlySimulate).value.main.Charge(old(system.costs(system.services))).1.Some?
      ensures fate.PreparationRanOut? && isPriorityOp
              && Accounted(old(system.world)) + tx.totalDeposited <= U256_MAX ==>
        r.Ok?
      ensures r.Ok? && fate.Died() && old(system.world).refunds < ERGS_PER_GAS ==> r.value.gasUsed == tx.gasLimit
      ensures r.Ok? && tx.from != L2_BASE_TOKEN_ADDRESS && Genuine(old(system.world).messages)
              && !Forges(tx, old(system.world), payload) ==>
        Genuine(system.world.messages)
      ensures r.Err? ==> !r.error.Underflow?
      ensures r == Err(RunFailed(TopLevelInsufficientBalance)) ==>
        Accounted(old(system.world)) + tx.value > U256_MAX
      ensures r == Err(RunFailed(RunError.Internal)) ==> Accounted(old(system.world)) + tx.value > U256_MAX
    {
      executed, fate := system.world, Rejected;
      payload := Payload(NotStarted, CallFailedToExecute, system.world, 0, EMPTY, EMPTY);
      var pricing := PriceTransaction(tx, isPriorityOp, onlySimulate);
      if pricing.Err? {
        return Err(pricing.error), executed, fate, payload;
      }
      var Pricing(nativePerGas, nativePerPubdata, budget) := pricing.value;
      var outcome;
      outcome, fate, payload := PrepareAndExecute(tx, nativePerPubdata, budget);
      if outcome.Err? {
        return Err(outcome.error), executed, fate, payload;
      }
      var (success, resources, charge) := outcome.value;
      executed := system.world;
      r := SettleGas(tx, isPriorityOp, success, nativePerGas, resources, charge, fate, payload);
    }

    /** What is left of the resources decides the gas used, which decides fee and refund. */
    method SettleGas(tx: L1Tx, isPriorityOp: bool, success: bool, nativePerGas: u256, resources: Resources,
                     charge: Resources, ghost fate: Fate, ghost payload: Payload)
      returns (r: Result<TxResult, TxError>)
      requires fate.Ended? ==> resources == payload.left && charge == if Stays(payload) then payload.due else EMPTY
      requires tx.gasLimit < 0x8000_0000_0000_0000 && tx.value + tx.gasPrice * tx.gasLimit <= tx.totalDeposited
      requires resources.HasEnough(charge) && charge.ergs == 0 && resources.ergs / ERGS_PER_GAS <= tx.gasLimit
      requires resources.native <= GasSettlement.FullNativeLimit(tx.gasLimit, nativePerGas)
      modifies system`services, system`world
      ensures r.Ok? ==> r.value.success == success && r.value.gasUsed <= tx.gasLimit
      ensures r.Ok? && fate.Ended? ==> Uses(tx, nativePerGas, old(system.world).refunds, payload, r.value.gasUsed)
      ensures r.Ok? && resources.ergs == 0 && old(system.world).refunds < ERGS_PER_GAS ==>
        r.value.gasUsed == tx.gasLimit
      ensures r.Ok? ==>
        Accounted(system.world) == Accounted(old(system.world)) + tx.totalDeposited - (if success then tx.value else 0)
      ensures r.Ok? ==>
        Settled(old(system.world), system.world, tx, r.value.gasUsed, success) && (success || isPriorityOp)
      ensures r.Err? ==> !r.error.Underflow? && !r.error.RunFailed?
      ensures (success || isPriorityOp) && Accounted(old(system.world)) + tx.totalDeposited <= U256_MAX ==> r.Ok?
    {
      var gasUsed := GasFor(tx, nativePerGas, resources, charge, fate, payload);
      r := Settle(tx, isPriorityOp, success, gasUsed);
    }

    method GasFor(tx: L1Tx, nativePerGas: u256, resources: Resources, charge: Resources, ghost fate: Fate,
                  ghost payload: Payload)
      returns (gasUsed: u64)
      requires fate.Ended? ==> resources == payload.left && charge == if Stays(payload) then payload.due else EMPTY
      requires tx.gasLimit < 0x8000_0000_0000_0000
      requires resources.HasEnough(charge) && charge.ergs == 0 && resources.ergs / ERGS_PER_GAS <= tx.gasLimit
      requires resources.native <= GasSettlement.FullNativeLimit(tx.gasLimit, nativePerGas)
      ensures gasUsed <= tx.gasLimit
      ensures fate.Ended? ==> Uses(tx, nativePerGas, system.world.refunds, payload, gasUsed)
      ensures resources.ergs == 0 && system.world.refunds < ERGS_PER_GAS ==> gasUsed == tx.gasLimit
    {
      var gasRefund, evmRefund, left;
      gasRefund, gasUsed, evmRefund, left := GasSettlement.ComputeGasRefund(
        charge, tx.gasLimit, 0, nativePerGas, Some(system.world.refunds), resources);
    }

    /** Hashes the transaction and, if its resources pay for that, executes it. */
    method PrepareAndExecute(tx: L1Tx, nativePerPubdata: u256, budget: GasSettlement.ResourcesForTx)
      returns (r: Result<(bool, Resources, Resources), TxError>, ghost fate: Fate, ghost payload: Payload)
      requires budget.withheld.ergs == 0 && budget.main.native + budget.withheld.native <= U64_MAX
      modifies system, program
      ensures r.Ok? ==> fate == Ended(r.value.0) || (fate.Died() && !r.value.0)
      ensures r.Ok? && fate.Ended? ==>
        && Delivers(tx, old(system.world), old(program.steps), nativePerPubdata, payload)
        && (r.value.0 <==> Stays(payload)) && (r.value.0 ==> system.world == payload.after)
        && r.value.1 == payload.left && r.value.2 == (if r.value.0 then payload.due else EMPTY)
      ensures fate.PreparationRanOut? <==> budget.main.Charge(old(system.costs(system.services))).1.Some?
      ensures fate.PreparationRanOut? ==> r.Ok?
      ensures r.Ok? && fate.Died() ==> r.value.1.ergs == 0
      ensures r.Ok? ==> system.frames == old(system.frames)
      ensures r.Ok? ==>
        && r.value.1.ergs <= budget.main.ergs
        && r.value.1.native <= budget.main.native + budget.withheld.native
      ensures r.Ok? ==> r.value.1.HasEnough(r.value.2) && r.value.2.ergs == 0
      ensures r.Ok? && !r.value.0 ==> system.world == old(system.world)
      ensures r.Ok? && r.value.0 ==> Accounted(system.world) == Accounted(old(system.world)) + tx.value
      ensures r.Ok? && tx.from != L2_BASE_TOKEN_ADDRESS && Genuine(old(system.world).messages)
              && !Forges(tx, old(system.world), payload) ==>
        Genuine(system.world.messages)
      ensures r.Err? ==> !r.error.Underflow?
      ensures r == Err(RunFailed(TopLevelInsufficientBalance)) ==>
        Accounted(old(system.world)) + tx.value > U256_MAX
      ensures r == Err(RunFailed(RunError.Internal)) ==> Accounted(old(system.world)) + tx.value > U256_MAX
    {
      var resources, e := system.ChargeService(budget.main);
      if e.Some? {
        payload := Payload(NotStarted, CallFailedToExecute, system.world, 0, EMPTY, EMPTY);
        return Ok((false, resources.(ergs := 0), EMPTY)), PreparationRanOut, payload;
      }
      ghost var ended;
      r, fate, ended, payload := ExecuteInFrame(tx, nativePerPubdata, resources, budget.withheld);
      if r.Ok? && r.value.0 {
        DeliveryKeeps(tx, old(system.world), old(program.steps), nativePerPubdata, payload);
      }
    }

    /** What settling adds to the state after execution: fee, refund of the rest of the deposit, log. */
    ghost predicate Settled(before: World, after: World, tx: L1Tx, gasUsed: u64, success: bool)
    {
      var fee := gasUsed * tx.gasPrice;
      var owed := if success then tx.value + fee else fee;
      && owed <= tx.totalDeposited
      && before.Balance(BOOTLOADER_FORMAL_ADDRESS) + fee <= U256_MAX
      && var paid := Credit(before, BOOTLOADER_FORMAL_ADDRESS, fee);
         var refund := tx.totalDeposited - owed;
         && (refund > 0 ==> paid.Balance(tx.refundRecipient) + refund <= U256_MAX)
         && var refunded := if refund > 0 then Credit(paid, tx.refundRecipient, refund) else paid;
            after == refunded.(l1TxLogs := before.l1TxLogs + [(tx.hash, success)])
    }

    /**
     * Execution inside a frame of its own. A revert, a shortage of pubdata or a run that
     * dies for lack of native all lead back to the state at the start.
     */
    method ExecuteInFrame(tx: L1Tx, nativePerPubdata: u256, resources: Resources, withheld: Resources)
      returns (r: Result<(bool, Resources, Resources), TxError>, ghost fate: Fate,
               ghost ended: Result<(bool, Resources, Resources), TxError>, ghost payload: Payload)
      requires withheld.ergs == 0 && resources.native + withheld.native <= U64_MAX
      modifies system, program
      ensures r.Ok? ==> fate == Ended(r.value.0) || (fate.RunRanOut? && !r.value.0)
      ensures r.Ok? && fate.Ended? ==>
        && Delivers(tx, old(system.world), old(program.steps), nativePerPubdata, payload)
        && (r.value.0 <==> Stays(payload)) && (r.value.0 ==> system.world == payload.after)
        && r.value.1 == payload.left && r.value.2 == (if r.value.0 then payload.due else EMPTY)
      ensures !fate.PreparationRanOut? && (fate.RunRanOut? <==> ended == Err(RunFailed(RunError.OutOfNative)))
      ensures r.Ok? && fate.RunRanOut? ==> r.value.1.ergs == 0
      ensures r.Ok? ==> system.frames == old(system.frames)
      ensures r.Ok? ==> r.value.1.ergs <= resources.ergs && r.value.1.native <= resources.native + withheld.native
      ensures r.Ok? ==> r.value.1.HasEnough(r.value.2) && r.value.2.ergs == 0
      ensures r.Ok? && !r.value.0 ==> system.world == old(system.world)
      ensures r.Err? ==> !r.error.Underflow?
      ensures r == Err(RunFailed(TopLevelInsufficientBalance)) ==>
        Accounted(old(system.world)) + tx.value > U256_MAX
      ensures r == Err(RunFailed(RunError.Internal)) ==> Accounted(old(system.world)) + tx.value > U256_MAX
    {
      var start := system.world;
      fate := Rejected;
      var handle := system.StartGlobalFrame();
      var afterMint, executed;
      afterMint, executed, payload := ExecuteAndNotify(tx, start, nativePerPubdata, resources, withheld);
      ended := executed;
      if executed.Err? {
        if executed.error != RunFailed(RunError.OutOfNative) {
          return Err(executed.error), fate, ended, payload;
        }
        system.RollbackGlobalFrame(handle);
        r, fate := Ok((false, afterMint.(ergs := 0), EMPTY)), RunRanOut;
      } else if executed.value.0 {
        system.FinishGlobalFrame();
        r, fate := Ok(executed.value), Ended(true);
      } else {
        system.RollbackGlobalFrame(handle);
        var charge := PubdataCharge(pubdata(start, system.world), nativePerPubdata);
        r, fate := Ok((false, executed.value.1, charge.value)), Ended(false);
      }
    }

    /**
     * Mints the value, runs the call, and checks that what is left pays for the pubdata.
     * `afterMint` is what the caller still holds when the run dies.
     */
    method ExecuteAndNotify(tx: L1Tx, start: World, nativePerPubdata: u256, resources: Resources, withheld: Resources)
      returns (afterMint: Resources, r: Result<(bool, Resources, Resources), TxError>, ghost payload: Payload)
      requires withheld.ergs == 0 && resources.native + withheld.native <= U64_MAX
      requires |system.frames| > 0 && start == system.world
      modifies system, program
      ensures afterMint.Within(resources)
      ensures r.Ok? ==>
        && Delivers(tx, start, old(program.steps), nativePerPubdata, payload)
        && payload.left == r.value.1 && payload.due == r.value.2 && (r.value.0 <==> Stays(payload))
        && system.world == if payload.result.Successful? then payload.after else start
      ensures r.Ok? ==> system.frames == old(system.frames)
      ensures r.Err? ==> old(system.frames) <= system.frames
      ensures r.Ok? ==> r.value.1.ergs <= resources.ergs && r.value.1.native <= resources.native + withheld.native
      ensures r.Ok? && r.value.0 ==> r.value.1.HasEnough(r.value.2) && r.value.2.ergs == 0
      ensures r.Err? ==> !r.error.Underflow?
      ensures r == Err(RunFailed(TopLevelInsufficientBalance)) ==>
        Accounted(old(system.world)) + tx.value > U256_MAX
      ensures r == Err(RunFailed(RunError.Internal)) ==> Accounted(old(system.world)) + tx.value > U256_MAX
    {
      afterMint := resources;
      payload := Payload(NotStarted, CallFailedToExecute, system.world, 0, EMPTY, EMPTY);
      var handle := system.StartGlobalFrame();
      var done; ghost var course, result;
      afterMint, done, course, result := MintAndRun(tx, resources);
      if done.Err? {
        return afterMint, Err(done.error), payload;
      }
      var (left, success) := done.value;
      ghost var after := system.world;
      if success {
        system.FinishGlobalFrame();
      } else {
        system.RollbackGlobalFrame(handle);
      }
      left := left.(native := left.native + withheld.native);
      var charge := PubdataCharge(pubdata(start, system.world), nativePerPubdata);
      if charge.None? {
        return afterMint, Err(TxError.InternalError), payload;
      }
      payload := Payload(course, result, after, program.steps, left, charge.value);
      r := Ok((success && left.HasEnough(charge.value), left, charge.value));
    }

    /** The call of the transaction, once its sender has the value. */
    method MintAndRun(tx: L1Tx, resources: Resources)
      returns (afterMint: Resources, r: Result<(Resources, bool), TxError>, ghost course: Course,
               ghost result: CallResult)
      modifies system, program
      ensures afterMint.Within(resources)
      ensures r.Ok? ==>
        && (tx.value > 0 ==> CanMint(old(system.world), tx))
        && CallDone(Setting(), 0, Minted(old(system.world), tx), old(program.steps), PayloadCall(tx), course,
                    system.world, result, program.steps)
        && (r.value.1 <==> result.Successful?)
      ensures r.Ok? ==> r.value.0.Within(resources) && system.frames == old(system.frames)
      ensures r.Err? ==> old(system.frames) <= system.frames && !r.error.Underflow?
      ensures r == Err(RunFailed(TopLevelInsufficientBalance)) ==>
        Accounted(old(system.world)) + tx.value > U256_MAX
      ensures r == Err(RunFailed(RunError.Internal)) ==> Accounted(old(system.world)) + tx.value > U256_MAX
    {
      course, result := NotStarted, CallFailedToExecute;
      var minted;
      afterMint, minted := MintValue(tx, resources);
      if minted.Some? {
        return afterMint, Err(minted.value), course, result;
      }
      var done;
      done, course, result := RunSingleInteraction(tx, afterMint);
      r := if done.Ok? then Ok(done.value) else Err(RunFailed(done.error));
    }

    /** The value, minted to the sender with unlimited ergs. */
    method MintValue(tx: L1Tx, resources: Resources) returns (left: Resources, error: Option<TxError>)
      modifies system`services, system`world
      ensures left.Within(resources)
      ensures error.None? ==>
        && Accounted(system.world) == Accounted(old(system.world)) + tx.value
        && system.world.messages == old(system.world).messages
      ensures error.None? ==> system.world == Minted(old(system.world), tx)
      ensures error.None? && tx.value > 0 ==>
        old(system.world).Balance(tx.from) + tx.value <= U256_MAX
        && system.world == Credit(old(system.world), tx.from, tx.value)
      ensures error.Some? ==> error.value.MintingBalanceOverflow? || error.value == RunFailed(RunError.OutOfNative)
    {
      left, error := resources, None;
      if tx.value > 0 {
        var inf, e := system.AddBalance(resources.(ergs := U64_MAX), tx.from, tx.value);
        left := inf.(ergs := resources.ergs);
        if e == Some(IoError.OutOfNative) {
          return left, Some(RunFailed(RunError.OutOfNative));
        }
        if e.Some? {
          return left, Some(MintingBalanceOverflow);
        }
        CreditAdds(old(system.world), tx.from, tx.value);
      }
    }

    /** The call itself, in the environment of the sender. */
    method RunSingleInteraction(tx: L1Tx, resources: Resources)
      returns (r: Result<(Resources, bool), RunError>, ghost course: Course, ghost result: CallResult)
      modifies system, program
      ensures r.Ok? ==>
        && CallDone(Setting(), 0, old(system.world), old(program.steps), PayloadCall(tx), course, system.world, result,
                    program.steps)
        && (r.value.1 <==> result.Successful?)
      ensures
        var foretold := Expected(Setting(), 0, old(system.world), PayloadCall(tx), old(program.ops(program.steps)));
        && foretold.Some? && |Brought(foretold.value)| <= returnMemory
        && (foretold.value.NotPaid? ==> environment(old(system.world), tx.from).EVM?)
        && Plenty(resources, 9, old(system.world).CodeAt(tx.to), old(program.ops(program.steps))) ==>
          && r.Ok? && course == foretold.value
          && (tx.to >= SPECIAL_ADDRESS_BOUND || tx.to !in hooked ==>
                RestIsBack(r.value.0, resources, 5, old(system.world).CodeAt(tx.to), old(program.ops(program.steps))))
      ensures r.Ok? ==> r.value.0.Within(resources) && system.frames == old(system.frames)
      ensures r.Ok? ==> Accounted(system.world) == Accounted(old(system.world))
      ensures r.Ok? && !r.value.1 ==> system.world == old(system.world)
      ensures r.Ok? && tx.from != L2_BASE_TOKEN_ADDRESS && Genuine(old(system.world).messages)
              && !CallImpersonates(Setting(), old(system.world), PayloadCall(tx), course) ==>
        Genuine(system.world.messages)
      ensures r.Err? ==> old(system.frames) <= system.frames
      ensures r.Err? && r.error.Internal? ==> Accounted(old(system.world)) > U256_MAX
      ensures r.Err? && r.error.TopLevelInsufficientBalance? ==>
        Accounted(old(system.world)) <= U256_MAX ==> old(system.world).Balance(tx.from) < tx.value
    {
      course, result := NotStarted, CallFailedToExecute;
      // reading the sender's execution environment
      var inf, e := system.ChargeService(resources.(ergs := U64_MAX));
      if e.Some? {
        return Err(RunError.OutOfNative), course, result;
      }
      var run := new Run(system, program, hooked, returnMemory);
      var call :=
        ExternalCallRequest(inf.(ergs := resources.ergs), 0, tx.from, tx.to, 0, NoModifier, tx.calldata, tx.value);
      var done; ghost var tree;
      done, tree := run.RunTillCompletion(environment(system.world, tx.from), RequestedExternalCall(call));
      if done.Err? {
        return Err(done.error), course, result;
      }
      course := tree.course;
      result := CallOutcome(Setting(), old(system.world), PayloadCall(tx), course).1;
      r := Ok((done.value.0, !done.value.1.reverted));
    }

    /** Fee to the operator, the rest of the deposit to the refund recipient, and the log. */
    method Settle(tx: L1Tx, isPriorityOp: bool, success: bool, gasUsed: u64) returns (r: Result<TxResult, TxError>)
      requires gasUsed <= tx.gasLimit && tx.value + tx.gasPrice * tx.gasLimit <= tx.totalDeposited
      modifies system`services, system`world
      ensures r.Ok? ==> r.value == TxResult(success, gasUsed)
      ensures r.Ok? ==>
        Accounted(system.world) == Accounted(old(system.world)) + tx.totalDeposited - (if success then tx.value else 0)
      ensures r.Ok? ==> Settled(old(system.world), system.world, tx, gasUsed, success) && (success || isPriorityOp)
      ensures r.Err? ==> !r.error.Underflow? && !r.error.RunFailed?
      ensures (success || isPriorityOp) && Accounted(old(system.world)) + tx.totalDeposited <= U256_MAX ==> r.Ok?
    {
      MulMono(gasUsed, tx.gasLimit, tx.gasPrice);
      var fee: u256 := gasUsed * tx.gasPrice;
      var inf, error := MintFromInfinite(system, fee, BOOTLOADER_FORMAL_ADDRESS, FORMAL_INFINITE);
      if error.Some? {
        return Err(error.value);
      }
      if !success && !isPriorityOp {
        return Err(UpgradeTxFailed);
      }
      var owed := if success then tx.value + fee else fee;
      if tx.totalDeposited < owed {
        return Err(Underflow);
      }
      var refund: u256 := tx.totalDeposited - owed;
      if refund > 0 {
        inf, error := MintFromInfinite(system, refund, tx.refundRecipient, inf);
        if error.Some? {
          return Err(error.value);
        }
      }
      var left, e := system.EmitL1TxLog(FORMAL_INFINITE, tx.hash, success);
      r := Ok(TxResult(success, gasUsed));
    }
  }

  lemma StarvedBudget(tx: L1Tx)
    requires tx == L1Tx(1_000_000, 10, 0, 1, 2, 0, 10_000_000, 3, [], 0)
    ensures Accepted(tx, true, false)
    ensures Budget(tx, true, false) == Ok(GasSettlement.ResourcesForTx(Resources(253_184_000, 990_000), EMPTY, 10_000))
  {
  }

  /** A transaction that cannot pay for its own hash: it fails, and all its gas is charged. */
  method StarvedTransaction() returns (r: Result<TxResult, TxError>)
    ensures r == Ok(TxResult(false, 1_000_000))
  {
    var tx := L1Tx(1_000_000, 10, 0, 1, 2, 0, 10_000_000, 3, [], 0);
    var world := World(map[], map[], map[], map[], map[], [], [], [], {}, {}, 0, 0);
    var system := new System(n => Resources(0, MAX_IO - 1), n => PrecompileAnswer(EMPTY, false, []), s => 0, h => [],
                             o => 0, n => 0, world);
    var program := new Program(n => Stop);
    var transactions := new Transactions(system, program, {}, 0, (a, b) => 0, (w, a) => NoEE);
    StarvedBudget(tx);
    ghost var executed, fate, payload;
    r, executed, fate, payload := transactions.ProcessL1Transaction(tx, true, false);
  }
}
