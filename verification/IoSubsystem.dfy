/** The system: chain state, rollback frames and the state-changing services offered to the rest. */
module IoSubsystem {
  import opened Numbers
  import opened World
  import opened Resources

  /** What a service charges; a single service never asks for 2^60 ergs or native. */
  const MAX_IO: nat := 0x1000_0000_0000_0000

  /** Resources that pay for some number of services, whatever they cost. */
  predicate Ample(res: Resources, services: nat) { res.ergs >= services * MAX_IO && res.native >= services * MAX_IO }

  type IoCost = c: Resources | c.ergs < MAX_IO && c.native < MAX_IO witness Resources(0, 0)

  datatype PrecompileAnswer = PrecompileAnswer(cost: Resources, accepted: bool, output: seq<byte>)

  /** What the address of a new contract is derived from. */
  datatype Origin =
    | FromNonce(deployer: Address, nonce: u64)
    | FromSalt(deployer: Address, salt: u256, initCode: seq<byte>)

  datatype IoError = OutOfErgs | OutOfNative | InsufficientBalance | BalanceOverflow | NonceOverflow

  function ToIoError(e: ChargeError): IoError
  {
    match e
    case OutOfErgs => IoError.OutOfErgs
    case OutOfNative => IoError.OutOfNative
  }

  // ----- the effect of each service on the state

  /** First the sender is debited, then the receiver is credited, also when they coincide. */
  function Debit(w: World, a: Address, v: u256): World
    requires v <= w.Balance(a)
  {
    w.(balances := w.balances[a := w.Balance(a) - v])
  }

  function Credit(w: World, a: Address, v: u256): World
    requires w.Balance(a) + v <= U256_MAX
  {
    w.(balances := w.balances[a := w.Balance(a) + v])
  }

  predicate CanTransfer(w: World, from: Address, to: Address, v: u256)
  {
    v <= w.Balance(from) && Debit(w, from, v).Balance(to) + v <= U256_MAX
  }

  function Transfer(w: World, from: Address, to: Address, v: u256): World
    requires CanTransfer(w, from, to, v)
  {
    Credit(Debit(w, from, v), to, v)
  }

  function IncrementNonce(w: World, a: Address): World
    requires w.Nonce(a) < U64_MAX
  {
    w.(nonces := w.nonces[a := w.Nonce(a) + 1])
  }

  /** Only a write to permanent storage touches the refund counter. */
  function Written(w: World, transient: bool, a: Address, key: u256, value: u256, refunds: u64): World
  {
    if transient then w.(transient := w.transient[(a, key) := value])
    else w.(storage := w.storage[(a, key) := value], refunds := refunds)
  }

  /** Burning by destroying oneself in one's own favour. */
  function DestroySelf(w: World, a: Address): World
  {
    w.(balances := w.balances[a := 0], destroyed := w.destroyed + w.Balance(a))
  }

  /** Destroying `a`: doomed only within the transaction that created it; the balance moves or is burnt. */
  function Deconstructed(w: World, a: Address, beneficiary: Address, inConstructor: bool): World
    requires a != beneficiary ==> CanTransfer(w, a, beneficiary, w.Balance(a))
  {
    var doom := a in w.deployedInTx || inConstructor;
    var w' := if doom then w.(doomed := w.doomed + {a}) else w;
    if a != beneficiary then Transfer(w', a, beneficiary, w.Balance(a))
    else if doom then DestroySelf(w', a)
    else w'
  }

  /**
   * Whose account goes, and where its balance: to the beneficiary, or away for good if an account
   * that goes named itself. An account that stays and names itself keeps everything.
   */
  lemma DeconstructedIs(w: World, a: Address, beneficiary: Address, inConstructor: bool)
    requires a != beneficiary ==> CanTransfer(w, a, beneficiary, w.Balance(a))
    ensures
      var w' := Deconstructed(w, a, beneficiary, inConstructor);
      var isNew := a in w.deployedInTx || inConstructor;
      && (forall b: Address :: b in w'.doomed <==> b in w.doomed || (b == a && isNew))
      && w'.destroyed == w.destroyed + (if a == beneficiary && isNew then w.Balance(a) else 0)
      && w'.Balance(a) == (if a == beneficiary && !isNew then w.Balance(a) else 0)
      && (a != beneficiary ==> w'.Balance(beneficiary) == w.Balance(beneficiary) + w.Balance(a))
      && (forall b: Address :: b != a && b != beneficiary ==> w'.Balance(b) == w.Balance(b))
      && w'.(balances := w.balances, doomed := w.doomed, destroyed := w.destroyed) == w
  {
  }

  lemma TransferConserves(w: World, from: Address, to: Address, v: u256)
    requires CanTransfer(w, from, to, v)
    ensures Supply(Transfer(w, from, to, v).balances) == Supply(w.balances)
    ensures Accounted(Transfer(w, from, to, v)) == Accounted(w)
  {
    DebitRemoves(w, from, v);
    CreditAdds(Debit(w, from, v), to, v);
  }

  /** A positive transfer to oneself leaves the whole state as it is. */
  lemma SelfTransferIsIdentity(w: World, a: Address, v: u256)
    requires 0 < v <= w.Balance(a)
    ensures CanTransfer(w, a, a, v) && Transfer(w, a, a, v) == w
  {
    assert Transfer(w, a, a, v).balances == w.balances;
  }

  /** A credit can only overflow when more than 2^256 - 1 tokens exist. */
  lemma OverflowNeedsHugeSupply(w: World, from: Address, to: Address, v: u256)
    requires v <= w.Balance(from) && !CanTransfer(w, from, to, v)
    ensures Supply(w.balances) > U256_MAX
  {
    assert from != to;
    SupplyUpdate(w.balances, from, w.Balance(from) - v);
    SupplyBoundsBalance(Debit(w, from, v).balances, to);
  }

  lemma CreditAdds(w: World, a: Address, v: u256)
    requires w.Balance(a) + v <= U256_MAX
    ensures Accounted(Credit(w, a, v)) == Accounted(w) + v
  {
    SupplyUpdate(w.balances, a, w.Balance(a) + v);
  }

  lemma DebitRemoves(w: World, a: Address, v: u256)
    requires v <= w.Balance(a)
    ensures Accounted(Debit(w, a, v)) == Accounted(w) - v
  {
    SupplyUpdate(w.balances, a, w.Balance(a) - v);
  }

  lemma DestroySelfConserves(w: World, a: Address)
    ensures Accounted(DestroySelf(w, a)) == Accounted(w)
  {
    SupplyUpdate(w.balances, a, 0);
  }

  // ----- the system object

  /**
   * `costs` is the sequence of prices the storage model asks for its services (warm or
   * cold access, preimage sizes, ...), `precompiles` what the precompiled contracts
   * answer, `keccak` and `preimage` the hash function and the code behind a hash: arbitrary
   * inputs of a run. `frames` holds the state saved by each frame that is still open,
   * innermost last.
   */
  class System {
    const costs: nat -> IoCost
    const precompiles: nat -> PrecompileAnswer
    const keccak: seq<byte> -> u256
    const preimage: u256 -> seq<byte>
    const derive: Origin -> Address
    /** The refund counter after a storage write. */
    const refundsAfter: nat -> u64
    var services: nat
    var world: World
    var frames: seq<World>

    constructor (costs: nat -> IoCost, precompiles: nat -> PrecompileAnswer,
                 keccak: seq<byte> -> u256, preimage: u256 -> seq<byte>, derive: Origin -> Address,
                 refundsAfter: nat -> u64, world: World)
      ensures this.world == world && frames == [] && services == 0
      ensures this.costs == costs && this.precompiles == precompiles && this.keccak == keccak
      ensures this.preimage == preimage && this.derive == derive && this.refundsAfter == refundsAfter
    {
      this.costs, this.precompiles, this.keccak, this.preimage := costs, precompiles, keccak, preimage;
      this.derive, this.refundsAfter := derive, refundsAfter;
      this.world := world;
      services, frames := 0, [];
    }

    /** Opens a frame; the handle is its position on the stack of frames. */
    method StartGlobalFrame() returns (handle: nat)
      modifies `frames
      ensures handle == |old(frames)| && frames == old(frames) + [world]
    {
      handle := |frames|;
      frames := frames + [world];
    }

    /** Closes the innermost frame and keeps its changes. */
    method FinishGlobalFrame()
      requires |frames| > 0
      modifies `frames
      ensures frames == old(frames)[..|old(frames)| - 1]
    {
      frames := frames[..|frames| - 1];
    }

    /**
     * Closes the frame of `handle` and undoes everything since it was opened, also when
     * frames opened inside it were abandoned without being closed.
     */
    method RollbackGlobalFrame(handle: nat)
      requires handle < |frames|
      modifies `frames, `world
      ensures world == old(frames[handle]) && frames == old(frames)[..handle]
    {
      world, frames := frames[handle], frames[..handle];
    }

    /** Charges the price of the next service. */
    method ChargeService(res: Resources) returns (left: Resources, error: Option<ChargeError>)
      modifies `services
      ensures (left, error) == res.Charge(old(costs(services)))
      ensures left.Within(res)
      ensures res.ergs >= MAX_IO ==> error != Some(ChargeError.OutOfErgs)
      ensures res.ergs - MAX_IO <= left.ergs || error.Some?
      ensures res.native >= MAX_IO ==> error != Some(ChargeError.OutOfNative)
      ensures res.native - MAX_IO <= left.native || error.Some?
    {
      var r := res.Charge(costs(services));
      left, error := r.0, r.1;
      services := services + 1;
    }

    /** `update_account_nominal_token_balance`, downwards. */
    method SubtractBalance(res: Resources, a: Address, v: u256)
      returns (left: Resources, error: Option<IoError>)
      modifies `services, `world
      ensures left.Within(res)
      ensures error.Some? ==> world == old(world)
      ensures error.None? ==> v <= old(world).Balance(a) && world == Debit(old(world), a, v)
      ensures error == Some(InsufficientBalance) ==> v > old(world).Balance(a)
      ensures error.Some? ==> error.value in {IoError.OutOfErgs, IoError.OutOfNative, InsufficientBalance}
      ensures res.ergs >= MAX_IO ==> error != Some(IoError.OutOfErgs)
      ensures res.ergs - MAX_IO <= left.ergs || error.Some?
      ensures res.native >= MAX_IO ==> error != Some(IoError.OutOfNative)
      ensures res.native - MAX_IO <= left.native
              || error == Some(IoError.OutOfErgs) || error == Some(IoError.OutOfNative)
    {
      var e;
      left, e := ChargeService(res);
      if e.Some? {
        error := Some(ToIoError(e.value));
      } else if world.Balance(a) < v {
        error := Some(InsufficientBalance);
      } else {
        error := None;
        world := Debit(world, a, v);
      }
    }

    /** `update_account_nominal_token_balance`, upwards. */
    method AddBalance(res: Resources, a: Address, v: u256)
      returns (left: Resources, error: Option<IoError>)
      modifies `services, `world
      ensures left.Within(res)
      ensures error.Some? ==> world == old(world)
      ensures error.None? ==> old(world).Balance(a) + v <= U256_MAX && world == Credit(old(world), a, v)
      ensures error == Some(BalanceOverflow) ==> old(world).Balance(a) + v > U256_MAX
      ensures error.Some? ==> error.value in {IoError.OutOfErgs, IoError.OutOfNative, BalanceOverflow}
      ensures res.ergs >= MAX_IO ==> error != Some(IoError.OutOfErgs)
      ensures res.native >= MAX_IO ==> error != Some(IoError.OutOfNative)
      ensures (res.ergs - MAX_IO <= left.ergs && res.native - MAX_IO <= left.native)
              || error == Some(IoError.OutOfErgs) || error == Some(IoError.OutOfNative)
    {
      var e;
      left, e := ChargeService(res);
      if e.Some? {
        error := Some(ToIoError(e.value));
      } else if world.Balance(a) + v > U256_MAX {
        error := Some(BalanceOverflow);
      } else {
        error := None;
        world := Credit(world, a, v);
      }
    }

    /**
     * Debit, then credit. When the second half fails the debit has already happened; the
     * caller has to roll the frame back.
     */
    method TransferValue(res: Resources, from: Address, to: Address, v: u256)
      returns (left: Resources, error: Option<IoError>)
      modifies `services, `world
      ensures left.Within(res)
      ensures error.None? ==> CanTransfer(old(world), from, to, v) && world == Transfer(old(world), from, to, v)
      ensures error == Some(InsufficientBalance) ==> world == old(world) && v > old(world).Balance(from)
      ensures error == Some(BalanceOverflow) ==> Supply(old(world).balances) > U256_MAX
      ensures error.Some? ==> error.value != NonceOverflow
      ensures res.ergs >= 2 * MAX_IO ==> error != Some(IoError.OutOfErgs)
      ensures res.native >= 2 * MAX_IO ==> error != Some(IoError.OutOfNative)
      ensures CanTransfer(old(world), from, to, v) ==>
        error.None? || error.value == IoError.OutOfErgs || error.value == IoError.OutOfNative
      ensures res.ergs - 2 * MAX_IO <= left.ergs || error.Some?
      ensures res.native - 2 * MAX_IO <= left.native
              || error == Some(IoError.OutOfErgs) || error == Some(IoError.OutOfNative)
    {
      left, error := SubtractBalance(res, from, v);
      if error.None? {
        left, error := AddBalance(left, to, v);
        if error == Some(BalanceOverflow) {
          OverflowNeedsHugeSupply(old(world), from, to, v);
        }
      }
    }

    method IncrementNonceOf(res: Resources, a: Address)
      returns (left: Resources, error: Option<IoError>)
      modifies `services, `world
      ensures left.Within(res)
      ensures error.Some? ==> world == old(world)
      ensures error.None? ==> old(world).Nonce(a) < U64_MAX && world == IncrementNonce(old(world), a)
      ensures error == Some(NonceOverflow) ==> old(world).Nonce(a) == U64_MAX
      ensures error.Some? ==> error.value in {IoError.OutOfErgs, IoError.OutOfNative, NonceOverflow}
      ensures res.ergs >= MAX_IO ==> error != Some(IoError.OutOfErgs)
      ensures res.native >= MAX_IO ==> error != Some(IoError.OutOfNative)
      ensures res.native - MAX_IO <= left.native || error.Some?
    {
      var e;
      left, e := ChargeService(res);
      if e.Some? {
        error := Some(ToIoError(e.value));
      } else if world.Nonce(a) == U64_MAX {
        error := Some(NonceOverflow);
      } else {
        error := None;
        world := IncrementNonce(world, a);
      }
    }

    method StorageWrite(res: Resources, transient: bool, a: Address, key: u256, value: u256)
      returns (left: Resources, error: Option<ChargeError>)
      modifies `services, `world
      ensures left.Within(res)
      ensures error.Some? ==> world == old(world)
      ensures error.None? ==>
        world == Written(old(world), transient, a, key, value, old(refundsAfter(services)))
      ensures Ample(res, 1) ==> error.None?
    {
      var refunds := refundsAfter(services);
      left, error := ChargeService(res);
      if error.None? {
        world := Written(world, transient, a, key, value, refunds);
      }
    }

    method EmitEvent(res: Resources, event: Event) returns (left: Resources, error: Option<ChargeError>)
      modifies `services, `world
      ensures left.Within(res)
      ensures error.Some? ==> world == old(world)
      ensures error.None? ==> world == old(world).(events := old(world).events + [event])
      ensures Ample(res, 1) ==> error.None?
    {
      left, error := ChargeService(res);
      if error.None? {
        world := world.(events := world.events + [event]);
      }
    }

    method EmitL1Message(res: Resources, msg: Message)
      returns (left: Resources, error: Option<ChargeError>, hash: u256)
      modifies `services, `world
      ensures left.Within(res) && hash == keccak(msg.data)
      ensures error.Some? ==> world == old(world)
      ensures error.None? ==> world == old(world).(messages := old(world).messages + [msg])
      ensures Ample(res, 1) ==> error.None?
      ensures (res.ergs - MAX_IO <= left.ergs && res.native - MAX_IO <= left.native) || error.Some?
    {
      hash := keccak(msg.data);
      left, error := ChargeService(res);
      if error.None? {
        world := world.(messages := world.messages + [msg]);
      }
    }

    /** `emit_l1_l2_tx_log`: records the outcome of a transaction that came from L1. */
    method EmitL1TxLog(res: Resources, txHash: u256, success: bool)
      returns (left: Resources, error: Option<ChargeError>)
      modifies `services, `world
      ensures left.Within(res)
      ensures error.Some? ==> world == old(world)
      ensures error.None? ==> world == old(world).(l1TxLogs := old(world).l1TxLogs + [(txHash, success)])
      ensures Ample(res, 1) ==> error.None?
    {
      left, error := ChargeService(res);
      if error.None? {
        world := world.(l1TxLogs := world.l1TxLogs + [(txHash, success)]);
      }
    }

    /**
     * `mark_for_deconstruction`: an account deployed in this transaction, or still in its
     * constructor, is doomed. The balance goes to the beneficiary; when that is the account
     * itself and the account is doomed, the balance is burnt.
     */
    method MarkForDeconstruction(res: Resources, a: Address, beneficiary: Address, inConstructor: bool)
      returns (left: Resources, error: Option<IoError>)
      modifies `services, `world
      ensures left.Within(res)
      ensures error.None? && a != beneficiary ==> CanTransfer(old(world), a, beneficiary, old(world).Balance(a))
      ensures error.None? ==> world == Deconstructed(old(world), a, beneficiary, inConstructor)
      ensures error.None? ==> Accounted(world) == Accounted(old(world))
      ensures error.Some? ==> error.value != InsufficientBalance && error.value != NonceOverflow
      ensures error == Some(BalanceOverflow) ==> Supply(old(world).balances) > U256_MAX
      ensures Ample(res, 4) && (a != beneficiary ==> CanTransfer(old(world), a, beneficiary, old(world).Balance(a))) ==>
        error.None?
    {
      var e;
      left, e := ChargeService(res);
      if e.Some? {
        error := Some(ToIoError(e.value));
        return;
      }
      var amount := world.Balance(a);
      var doom := a in world.deployedInTx || inConstructor;
      if doom {
        world := world.(doomed := world.doomed + {a});
      }
      error := None;
      if a != beneficiary {
        ghost var before := world;
        left, error := TransferValue(left, a, beneficiary, amount);
        if error.None? {
          TransferConserves(before, a, beneficiary, amount);
        }
      } else if doom {
        DestroySelfConserves(world, a);
        world := DestroySelf(world, a);
      }
      if error.None? && amount != 0 {
        // the extra charge for a transfer that brings the beneficiary to life
        left, e := ChargeService(left);
        if e.Some? {
          error := Some(ToIoError(e.value));
        }
      }
    }

    /** `deploy_code`; the stored code carries its jump bitmap. */
    method DeployCode(res: Resources, a: Address, code: seq<byte>)
      returns (left: Resources, error: Option<ChargeError>)
      modifies `services, `world
      ensures left.Within(res)
      ensures error.Some? ==> world == old(world)
      ensures error.None? ==>
        world == old(world).(code := old(world).code[a := Code(code, true)],
                             deployedInTx := old(world).deployedInTx + {a})
      ensures Ample(res, 1) ==> error.None?
      ensures (res.ergs - MAX_IO <= left.ergs && res.native - MAX_IO <= left.native) || error.Some?
    {
      left, error := ChargeService(res);
      if error.None? {
        world := world.(code := world.code[a := Code(code, true)], deployedInTx := world.deployedInTx + {a});
      }
    }
  }
}
