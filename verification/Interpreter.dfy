/** One EVM frame: what its opcodes may charge, write, request and return. */
module Interpreter {
  import opened Numbers
  import opened World
  import opened Resources
  import opened IoSubsystem
  import opened Calls
  import opened Opcodes
  import opened Semantics

  const CALLVALUE: nat := 9000
  const NEWACCOUNT: nat := 25000
  const BYTECODE_PREPROCESSING_BYTE_NATIVE_COST: nat := 6

  /** What the opcodes of a run amounted to so far: the bytes they returned, and the longest calldata they sent. */
  datatype Seen = Seen(returned: nat, longest: nat)
  {
    predicate Grows(later: Seen)
    {
      returned <= later.returned && longest <= later.longest
    }

    function After(op: Op): Seen
    {
      match op
      case Return(data, _) => this.(returned := returned + |data|)
      case Revert(data, _) => this.(returned := returned + |data|)
      case CallOp(_, _, _, _, calldata, _) => this.(longest := Max(longest, |calldata|))
      case _ => this
    }
  }

  /** The opcodes executed by a run, over all its frames; an arbitrary input. */
  class Program {
    const ops: nat -> Op
    var steps: nat
    ghost var seen: Seen

    constructor (ops: nat -> Op)
      ensures steps == 0 && this.ops == ops && seen == Seen(0, 0)
    {
      this.ops, steps, seen := ops, 0, Seen(0, 0);
    }
  }

  datatype Exit =
    | ExitStop
    | ExitReturn(data: seq<byte>)
    | ExitSelfDestruct
    | ExitRevert(data: seq<byte>)
    | ExitError
    | ExitFatal(error: RunError)
    | ExitCall(call: ExternalCallRequest)
    | ExitCreate(deployment: DeploymentRequest)
  {
    /** The frame stops or suspends and keeps what it did so far. */
    predicate Keeps() { !ExitRevert? && !ExitError? && !ExitFatal? }

    predicate IsError() { ExitError? || ExitFatal? }
  }

  datatype Preemption =
    | SpawnCall(call: ExternalCallRequest)
    | SpawnDeployment(deployment: DeploymentRequest)
    | EndExecution(left: Resources, reverted: bool, returndata: seq<byte>)
    | EndDeployment(left: Resources, result: DeploymentResult)
  {
    /** The resources handed over at this point. */
    function Pool(): Resources
    {
      match this
      case SpawnCall(c) => c.resources
      case SpawnDeployment(d) => d.resources
      case EndExecution(left, _, _) => left
      case EndDeployment(left, _) => left
    }

    predicate IsSpawn() { SpawnCall? || SpawnDeployment? }

    /** Bytes of return data that the caller still has to copy. */
    function ReturnSize(): nat
    {
      match this
      case EndExecution(_, _, returndata) => |returndata|
      case EndDeployment(_, DeploymentFailed(returndata, _)) => |returndata|
      case _ => 0
    }

    /** What the frame returns or sends was seen since `before`. */
    predicate Reported(before: Seen, after: Seen)
    {
      && before.Grows(after) && before.returned + ReturnSize() <= after.returned
      && (SpawnCall? ==> |call.calldata| <= after.longest)
    }

    /** The frame is over and its changes have to be undone. */
    predicate IsFailure()
    {
      (EndExecution? && reverted) || (EndDeployment? && result.DeploymentFailed?)
    }
  }

  function GasCost(gas: nat, native: u64): Resources
    requires gas * ERGS_PER_GAS <= U64_MAX
  {
    Resources(gas * ERGS_PER_GAS, native)
  }

  /** Opcodes that keep what they did send no messages and create or destroy no tokens. */
  ghost predicate Undisturbed(before: World, after: World)
  {
    Accounted(after) == Accounted(before) && after.messages == before.messages
  }

  /** A run of opcodes paid for them: each one costs at least the step price. */
  predicate PaidFor(stepsBefore: nat, stepsAfter: nat, nativeBefore: nat, nativeAfter: nat)
  {
    stepsBefore <= stepsAfter
    && STEP_NATIVE_COST * (stepsAfter - stepsBefore) <= nativeBefore - nativeAfter
  }

  /** The run died for lack of native: at most one opcode was not paid for. */
  predicate DiedPaying(stepsBefore: nat, stepsAfter: nat, nativeBefore: nat)
  {
    stepsBefore <= stepsAfter
    && STEP_NATIVE_COST * (stepsAfter - stepsBefore) <= nativeBefore + STEP_NATIVE_COST
  }

  /** What each opcode does to the world, and what it asks for, when it does not fail. */
  ghost predicate Executed(f: Frame, op: Op, before: World, after: World, exit: Option<Exit>)
  {
    if exit.Some? && exit.value.IsError() then op.Stop? ==> exit.value.ExitFatal?
    else
      && Allowed(f, op)
      && match op
         case SelfDestruct(beneficiary) =>
           && exit == Some(ExitSelfDestruct) && CanDestroy(f, before, beneficiary)
           && after == Final(f, before, op)
         case CreateOp(_, _, _, _) =>
           && exit.Some? && exit.value.ExitCreate? && after == before
           && BareDeployment(exit.value.deployment) == DeploymentBy(f, op)
         case CallOp(_, _, _, _, _, _) => exit == Some(ExitCall(CallBy(f, op))) && after == before
         case Stop => exit == Some(ExitStop) && after == before
         case Return(data, _) => exit == Some(ExitReturn(data)) && after == before
         case Revert(data, _) => exit == Some(ExitRevert(data)) && after == before
         case _ => exit.None? && after == Effect(f, before, op, after.refunds)
  }

  /** Enough resources, and nothing else that stands in an opcode's way. */
  ghost predicate Unhindered(f: Frame, op: Op, w: World, res: Resources)
  {
    && Allowed(f, op)
    && (op.SStore? ==> res.ergs / ERGS_PER_GAS > CALL_STIPEND)
    && (op.SelfDestruct? ==> CanDestroy(f, w, op.beneficiary))
    && op.ErgsCost() + op.Services() * MAX_IO <= res.ergs
    && op.NativeCost() + op.Services() * MAX_IO <= res.native
  }

  /** A frame that can go on: its steps led to the present world and position in the program. */
  ghost predicate Stands(g: Progress, f: Frame, ops: nat -> Op, w: World, steps: nat)
  {
    g.Valid() && !Stuck(g.trace) && g.frame == f && g.rules.ops == ops && g.Now() == w && g.Steps() == steps
  }

  /** The next opcode was executed and left the loop. */
  ghost predicate Left(g: Progress, f: Frame, exit: Exit, w: World, steps: nat)
  {
    && g.Valid() && !Stuck(g.trace) && g.frame == f && g.Steps() + 1 == steps
    && Executed(f, g.NextOp(), g.Now(), w, Some(exit))
  }

  /** The end of a frame as its ending demands, up to resources. */
  ghost predicate EndsWith(f: Frame, p: Preemption, ending: Ending)
  {
    var data := DataOf(ending);
    if !f.isConstructor then p.EndExecution? && p.reverted == !ending.Halted? && p.returndata == data
    else
      && p.EndDeployment?
      && p.result == (if !ending.Halted? then DeploymentFailed(data, true)
                      else if !ValidCode(data) then DeploymentFailed(data, false)
                      else DeploymentSuccessful(data, f.address))
  }

  /** What a frame hands over is what its last opcode asked for, or how its trace ended. */
  ghost predicate Yields(g: Progress, ending: Ending, p: Preemption, w: World, steps: nat)
  {
    && g.Valid()
    && match p
       case SpawnCall(call) =>
         && !Stuck(g.trace) && g.Now() == w && steps == g.Steps() + 1
         && Allowed(g.frame, g.NextOp()) && g.NextOp().CallOp? && Bare(call) == CallBy(g.frame, g.NextOp())
       case SpawnDeployment(d) =>
         && !Stuck(g.trace) && g.Now() == w && steps == g.Steps() + 1
         && Allowed(g.frame, g.NextOp()) && g.NextOp().CreateOp?
         && BareDeployment(d) == DeploymentBy(g.frame, g.NextOp())
       case _ =>
         && Ends(g.rules, g.frame, g.Now(), g.trace, ending, g.Steps()) && steps == g.Steps() + EndingSize(ending)
         && EndsWith(g.frame, p, ending) && (ending.Halted? ==> w == Final(g.frame, g.Now(), ending.op))
  }

  /** A frame that does not ask for anything any more is done. */
  lemma YieldedLast(g: Progress, ending: Ending, p: Preemption, w: World, steps: nat)
    requires Yields(g, ending, p, w, steps) && !p.IsSpawn()
    ensures FrameDone(g.rules, g.height, g.frame, g.start, g.at, g.trace, ending, steps)
    ensures EndsWith(g.frame, p, ending)
    ensures ending.Halted? ==> w == Final(g.frame, After(g.rules, g.frame, g.start, g.trace), ending.op)
  {
  }

  /** How a frame ended that left the loop for good. */
  ghost function EndingFor(op: Op, exit: Exit): Ending
  {
    match exit
    case ExitRevert(_) => Reverted(op)
    case ExitError => Broke(op)
    case _ => Halted(op)
  }

  function ExitData(exit: Exit): seq<byte>
  {
    match exit
    case ExitReturn(data) => data
    case ExitRevert(data) => data
    case _ => []
  }

  /** A frame that left the loop hands over what it left the loop with. */
  lemma LeftYields(g: Progress, exit: Exit, p: Preemption, w: World, steps: nat)
    requires Left(g, g.frame, exit, w, steps) && !exit.ExitFatal?
    requires match exit
      case ExitCall(call) => p.SpawnCall? && Bare(p.call) == Bare(call)
      case ExitCreate(d) => p == SpawnDeployment(d)
      case _ =>
        && !p.IsSpawn()
        && (DataOf(EndingFor(g.NextOp(), exit)) == ExitData(exit) ==>
              EndsWith(g.frame, p, EndingFor(g.NextOp(), exit)))
    ensures Yields(g, EndingFor(g.NextOp(), exit), p, w, steps)
  {
  }

  class Interpreter {
    var resources: Resources
    var address: Address
    var caller: Address
    var callValue: u256
    var isStatic: bool
    var isConstructor: bool

    constructor ()
      ensures resources == EMPTY
    {
      resources := EMPTY;
      address, caller, callValue, isStatic, isConstructor := 0, 0, 0, false, false;
    }

    ghost function Context(): Frame
      reads this
    {
      Frame(address, caller, callValue, isStatic, isConstructor)
    }

    /** Charges the frame; a failure is an exit. */
    method Spend(cost: Resources) returns (exit: Option<Exit>)
      modifies `resources
      ensures resources.Within(old(resources))
      ensures exit.None? ==>
        resources.native + cost.native == old(resources).native && resources.ergs + cost.ergs == old(resources).ergs
      ensures exit == Some(ExitFatal(RunError.OutOfNative)) <==> cost.native > old(resources).native
      ensures exit == Some(ExitError) <==> cost.native <= old(resources).native && cost.ergs > old(resources).ergs
      ensures exit.Some? ==> exit.value == ExitError || exit.value == ExitFatal(RunError.OutOfNative)
    {
      var r := resources.Charge(cost);
      resources := r.0;
      exit := ExitFor(r.1);
    }

    /** Executes the next opcode of the program. */
    method Step(system: System, program: Program) returns (exit: Option<Exit>)
      modifies `resources, system`world, system`services, program
      ensures program.steps == old(program.steps) + 1
      ensures program.seen == old(program.seen).After(program.ops(old(program.steps)))
      ensures exit.Some? ==> match exit.value
        case ExitReturn(data) => program.seen.returned == old(program.seen).returned + |data|
        case ExitRevert(data) => program.seen.returned == old(program.seen).returned + |data|
        case ExitCall(call) => |call.calldata| <= program.seen.longest
        case _ => true
      ensures exit.None? || !exit.value.ExitCreate? ==> resources.Within(old(resources))
      ensures exit != Some(ExitFatal(RunError.OutOfNative)) && (exit.None? || !exit.value.ExitCreate?) ==>
        resources.native + STEP_NATIVE_COST <= old(resources).native
      ensures isStatic ==> system.world == old(system.world)
      ensures exit.None? || exit.value.Keeps() ==> Undisturbed(old(system.world), system.world)
      ensures exit.Some? && exit.value.ExitFatal? ==>
        exit.value.error.OutOfNative? || (exit.value.error.Internal? && Accounted(old(system.world)) > U256_MAX)
      ensures exit.Some? && exit.value.ExitCall? ==> RequestFits(exit.value.call)
      ensures exit.Some? && exit.value.ExitCreate? ==>
        && !isStatic && resources == EMPTY
        && DeploymentFits(exit.value.deployment)
        && exit.value.deployment.resources.Within(old(resources))
        && exit.value.deployment.resources.native + STEP_NATIVE_COST <= old(resources).native
      ensures Executed(Context(), program.ops(old(program.steps)), old(system.world), system.world, exit)
      ensures
        var op := program.ops(old(program.steps));
        && (Unhindered(Context(), op, old(system.world), old(resources)) ==> exit.None? || !exit.value.IsError())
        && (exit.None? || !exit.value.IsError() ==>
              op.ErgsCost() <= old(resources).ergs && op.NativeCost() <= old(resources).native)
        && (op.Halts() && !exit.value.IsError() ==>
              resources == Resources(old(resources).ergs - op.ErgsCost(), old(resources).native - op.NativeCost()))
    {
      var op := program.ops(program.steps);
      program.steps := program.steps + 1;
      program.seen := program.seen.After(op);
      exit := Spend(Resources(0, STEP_NATIVE_COST));
      if exit.Some? {
        return;
      }
      if op.Services() > 0 {
        exit := WriteState(system, op);
      } else {
        exit := Proceed(op);
        assert Executed(Context(), op, system.world, system.world, exit);
      }
    }

    /** The resources an opcode needs after its step was paid, and has paid when it is done. */
    ghost predicate Charged(op: Op, before: Resources, exit: Option<Exit>)
      reads this
    {
      exit.None? || !exit.value.IsError() ==>
        && op.ErgsCost() <= before.ergs && op.NativeCost() <= before.native + STEP_NATIVE_COST
        && (op.Halts() ==>
              resources.ergs == before.ergs - op.ErgsCost()
              && resources.native == before.native + STEP_NATIVE_COST - op.NativeCost())
    }

    /** Opcodes that write to the state of the chain. */
    method WriteState(system: System, op: Op) returns (exit: Option<Exit>)
      requires op.Services() > 0
      modifies `resources, system`world, system`services
      ensures resources.Within(old(resources))
      ensures isStatic ==> system.world == old(system.world)
      ensures exit.None? || exit.value.Keeps() ==> Undisturbed(old(system.world), system.world)
      ensures exit.Some? && exit.value.ExitFatal? ==>
        exit.value.error.OutOfNative? || (exit.value.error.Internal? && Accounted(old(system.world)) > U256_MAX)
      ensures Executed(Context(), op, old(system.world), system.world, exit)
      ensures Charged(op, old(resources), exit)
      ensures old(resources).native + STEP_NATIVE_COST <= U64_MAX ==>
        Unhindered(Context(), op, old(system.world),
                   Resources(old(resources).ergs, old(resources).native + STEP_NATIVE_COST)) ==>
        exit.None? || !exit.value.IsError()
    {
      match op
      case SStore(key, value) =>
        exit := Store(system, false, key, value);
      case TStore(key, value) =>
        exit := Store(system, true, key, value);
      case Log(topics, data, cost) =>
        exit := EmitLog(system, topics, data, cost);
      case SelfDestruct(beneficiary) =>
        exit := DestroyInFavourOf(system, beneficiary);
    }

    /** All other opcodes: they go on, ask for a call or a deployment, or end the frame. */
    method Proceed(op: Op) returns (exit: Option<Exit>)
      requires op.Services() == 0
      modifies `resources
      ensures exit.None? || !exit.value.ExitCreate? ==> resources.Within(old(resources))
      ensures exit.Some? && exit.value.ExitFatal? ==> exit.value.error.OutOfNative?
      ensures exit.Some? && exit.value.ExitCreate? ==>
        resources == EMPTY && exit.value.deployment.resources.Within(old(resources))
      ensures forall w :: Executed(Context(), op, w, w, exit)
      ensures Charged(op, old(resources), exit)
      ensures exit.None? || !exit.value.IsError() <==>
        && Allowed(Context(), op) && op.ErgsCost() <= old(resources).ergs
        && op.NativeCost() <= old(resources).native + STEP_NATIVE_COST
    {
      match op
      case Local(cost) =>
        exit := Spend(cost);
      case Faulting(cost) =>
        exit := Spend(cost);
        if exit.None? {
          exit := Some(ExitError);
        }
      case CreateOp(scheme, value, initCode, cost) =>
        exit := RequestCreate(scheme, value, initCode, cost);
      case CallOp(scheme, gas, to, value, calldata, cost) =>
        exit := RequestCall(scheme, gas, to, value, calldata, cost);
      case Stop =>
        exit := Some(ExitStop);
      case Return(data, cost) =>
        exit := Spend(cost);
        if exit.None? {
          exit := Some(ExitReturn(data));
        }
      case Revert(data, cost) =>
        exit := Spend(cost);
        if exit.None? {
          exit := Some(ExitRevert(data));
        }
    }

    /** SSTORE and TSTORE. Only SSTORE needs more gas left than the call stipend. */
    method Store(system: System, transient: bool, key: u256, value: u256) returns (exit: Option<Exit>)
      modifies `resources, system`world, system`services
      ensures resources.Within(old(resources))
      ensures isStatic ==> exit.Some? && system.world == old(system.world)
      ensures exit.None? ==> Undisturbed(old(system.world), system.world)
      ensures exit.Some? ==> exit.value.ExitError? || exit.value == ExitFatal(RunError.OutOfNative)
      ensures exit.None? ==>
        && system.world == Written(old(system.world), transient, address, key, value, system.world.refunds)
        && 100 <= old(resources).native
      ensures !isStatic && (transient || old(resources).ergs / ERGS_PER_GAS > CALL_STIPEND)
              && MAX_IO <= old(resources).ergs && 100 + MAX_IO <= old(resources).native ==>
        exit.None?
    {
      exit := Spend(Resources(0, 100));
      if exit.Some? {
        return;
      }
      if isStatic {
        return Some(ExitError);
      }
      if !transient && resources.ergs / ERGS_PER_GAS <= CALL_STIPEND {
        return Some(ExitError);
      }
      var left, e := system.StorageWrite(resources, transient, address, key, value);
      resources := left;
      exit := ExitFor(e);
    }

    method EmitLog(system: System, topics: seq<u256>, data: seq<byte>, cost: Resources) returns (exit: Option<Exit>)
      modifies `resources, system`world, system`services
      ensures resources.Within(old(resources))
      ensures isStatic ==> exit.Some? && system.world == old(system.world)
      ensures exit.None? ==> Undisturbed(old(system.world), system.world)
      ensures exit.Some? ==> exit.value.ExitError? || exit.value == ExitFatal(RunError.OutOfNative)
      ensures exit.None? ==>
        && system.world == old(system.world).(events := old(system.world).events + [Event(address, topics, data)])
        && cost.ergs <= old(resources).ergs && 50 + cost.native <= old(resources).native
      ensures !isStatic && cost.ergs + MAX_IO <= old(resources).ergs
              && 50 + cost.native + MAX_IO <= old(resources).native ==>
        exit.None?
    {
      exit := Spend(Resources(0, 50));
      if exit.Some? {
        return;
      }
      if isStatic {
        return Some(ExitError);
      }
      exit := Spend(cost);
      if exit.Some? {
        return;
      }
      var left, e := system.EmitEvent(resources, Event(address, topics, data));
      resources := left;
      exit := ExitFor(e);
    }

    method DestroyInFavourOf(system: System, beneficiary: Address) returns (exit: Option<Exit>)
      modifies `resources, system`world, system`services
      ensures resources.Within(old(resources))
      ensures isStatic ==> system.world == old(system.world)
      ensures exit.Some? && (isStatic ==> !exit.value.ExitSelfDestruct?)
      ensures exit.value.ExitSelfDestruct? ==> Undisturbed(old(system.world), system.world)
      ensures exit.value.ExitSelfDestruct? ==>
        && (address != beneficiary ==>
              CanTransfer(old(system.world), address, beneficiary, old(system.world).Balance(address)))
        && system.world == Deconstructed(old(system.world), address, beneficiary, isConstructor)
        && SELFDESTRUCT * ERGS_PER_GAS <= old(resources).ergs && 100 <= old(resources).native
      ensures !isStatic && CanDestroy(Context(), old(system.world), beneficiary)
              && SELFDESTRUCT * ERGS_PER_GAS + 4 * MAX_IO <= old(resources).ergs
              && 100 + 4 * MAX_IO <= old(resources).native ==>
        exit.value.ExitSelfDestruct?
      ensures exit.value.ExitSelfDestruct? || exit.value.ExitError? || exit.value.ExitFatal?
      ensures exit.value.ExitFatal? ==>
        exit.value.error.OutOfNative? || (exit.value.error.Internal? && Accounted(old(system.world)) > U256_MAX)
    {
      exit := Spend(GasCost(SELFDESTRUCT, 100));
      if exit.Some? {
        return;
      }
      if isStatic {
        return Some(ExitError);
      }
      var left, e := system.MarkForDeconstruction(resources, address, beneficiary, isConstructor);
      resources := left;
      match e
      case None => exit := Some(ExitSelfDestruct);
      case Some(OutOfErgs) => exit := Some(ExitError);
      case Some(OutOfNative) => exit := Some(ExitFatal(RunError.OutOfNative));
      case Some(_) => exit := Some(ExitFatal(Internal));
    }

    /** CREATE and CREATE2: the frame hands over all it has. */
    method RequestCreate(scheme: CreateScheme, value: u256, initCode: seq<byte>, cost: Resources)
      returns (exit: Option<Exit>)
      modifies `resources
      ensures resources.Within(old(resources))
      ensures exit.Some? ==>
        exit.value.ExitError? || exit.value == ExitFatal(RunError.OutOfNative) || exit.value.ExitCreate?
      ensures exit.Some? && !(isStatic && exit.value.ExitCreate?)
      ensures exit.value.ExitCreate? ==>
        && resources == EMPTY && exit.value.deployment.resources.Within(old(resources))
        && DeploymentFits(exit.value.deployment)
        && exit.value.deployment.scheme == scheme
        && exit.value.deployment.value == value && exit.value.deployment.initCode == initCode
        && |initCode| <= MAX_INITCODE_SIZE
        && exit.value.deployment.resources.native + 25_000 + cost.native == old(resources).native
      ensures
        var op := CreateOp(scheme, value, initCode, cost);
        && (exit.value.ExitCreate? <==>
              Allowed(Context(), op) && op.ErgsCost() <= old(resources).ergs
              && op.NativeCost() - STEP_NATIVE_COST <= old(resources).native)
        && (exit.value.ExitCreate? ==> BareDeployment(exit.value.deployment) == DeploymentBy(Context(), op))
    {
      exit := Spend(GasCost(CREATE, 25_000));
      if exit.Some? {
        return;
      }
      if isStatic {
        return Some(ExitError);
      }
      exit := Spend(cost);
      if exit.Some? {
        return;
      }
      if |initCode| > MAX_INITCODE_SIZE {
        return Some(ExitError);
      }
      var perWord := if scheme.Create2? then INITCODE_WORD_COST + SHA3WORD else INITCODE_WORD_COST;
      exit := Spend(GasCost(perWord * ((|initCode| + 31) / 32), 0));
      if exit.Some? {
        return;
      }
      exit := Some(ExitCreate(DeploymentRequest(resources, address, scheme, initCode, value, None)));
      resources := EMPTY;
    }

    /** The four call opcodes; the frame still holds its resources afterwards. */
    method RequestCall(scheme: CallScheme, gas: u64, to: Address, value: u256, calldata: seq<byte>, cost: Resources)
      returns (exit: Option<Exit>)
      modifies `resources
      ensures resources.Within(old(resources))
      ensures exit.Some?
      ensures exit.value.ExitError? || exit.value == ExitFatal(RunError.OutOfNative) || exit.value.ExitCall?
      ensures exit.value.ExitCall? ==> RequestFits(exit.value.call)
      ensures exit.value.ExitCall? ==>
        && resources.native + 1500 + cost.native == old(resources).native
        && exit.value.call.value == (match scheme case DelegateCall => callValue case StaticCall => 0 case _ => value)
        && exit.value.call.callee == to && exit.value.call.callersCaller == caller
        && exit.value.call.calldata == calldata
        && exit.value.call.modifier == ModifierFor(scheme, isStatic)
        && exit.value.call.ergsToPass == SaturatingMul(gas, ERGS_PER_GAS)
      ensures isStatic && scheme.Call? && value != 0 ==> !exit.value.ExitCall?
      ensures
        var op := CallOp(scheme, gas, to, value, calldata, cost);
        && (exit.value.ExitCall? <==>
              Allowed(Context(), op) && cost.ergs <= old(resources).ergs
              && 1500 + cost.native <= old(resources).native)
        && (exit.value.ExitCall? ==> exit.value.call == CallBy(Context(), op))
    {
      exit := Spend(Resources(0, 1500));
      if exit.Some? {
        return;
      }
      if scheme.Call? && isStatic && value != 0 {
        return Some(ExitError);
      }
      var passed :=
        match scheme
        case DelegateCall => callValue
        case StaticCall => 0
        case _ => value;
      exit := Spend(cost);
      if exit.Some? {
        return;
      }
      exit := Some(ExitCall(ExternalCallRequest(EMPTY, SaturatingMul(gas, ERGS_PER_GAS), address, to, caller,
                                                ModifierFor(scheme, isStatic), calldata, passed)));
    }

    /**
     * A call request this frame may make: from its own address, static when the frame is,
     * and never moving value out of a static frame except to itself.
     */
    ghost predicate RequestFits(call: ExternalCallRequest)
      reads this
    {
      && call.caller == address
      && (isStatic ==> IsStaticModifier(call.modifier))
      && !call.modifier.Constructor? && !call.modifier.ZKVMSystem? && !call.modifier.ZKVMSystemStatic?
    }

    ghost predicate DeploymentFits(d: DeploymentRequest)
      reads this
    {
      d.deployer == address && d.deployerNonce.None?
    }

    /** A point where the frame hands control back, with all its resources. */
    ghost predicate PreemptionFits(p: Preemption)
      reads this
    {
      && resources == EMPTY
      && (p.SpawnCall? ==> RequestFits(p.call))
      && (p.SpawnDeployment? ==> DeploymentFits(p.deployment) && !isStatic)
      && (p.EndExecution? ==> !isConstructor)
      && (p.EndDeployment? ==> isConstructor)
      && (p.EndDeployment? && p.result.DeploymentSuccessful? ==> p.result.deployedAt == address)
    }

    /** One round of the loop: an opcode, and the step it adds to the trace. */
    method Advance(system: System, program: Program, ghost g: Progress) returns (exit: Option<Exit>, ghost g': Progress)
      requires Stands(g, Context(), program.ops, system.world, program.steps)
      modifies `resources, system`world, system`services, program
      ensures g.Continues(g')
      ensures exit.None? ==> Stands(g', Context(), program.ops, system.world, program.steps)
      ensures exit.Some? ==> g' == g && Left(g', Context(), exit.value, system.world, program.steps)
      ensures g.NextOp().Halts() ==> exit.Some?
      ensures program.steps == old(program.steps) + 1
      ensures program.seen == old(program.seen).After(program.ops(old(program.steps)))
      ensures exit.Some? ==> match exit.value
        case ExitReturn(data) => program.seen.returned == old(program.seen).returned + |data|
        case ExitRevert(data) => program.seen.returned == old(program.seen).returned + |data|
        case ExitCall(call) => |call.calldata| <= program.seen.longest
        case _ => true
      ensures exit.None? || !exit.value.ExitCreate? ==> resources.Within(old(resources))
      ensures exit != Some(ExitFatal(RunError.OutOfNative)) && (exit.None? || !exit.value.ExitCreate?) ==>
        resources.native + STEP_NATIVE_COST <= old(resources).native
      ensures isStatic ==> system.world == old(system.world)
      ensures exit.None? || exit.value.Keeps() ==> Undisturbed(old(system.world), system.world)
      ensures exit.Some? && exit.value.ExitFatal? ==>
        exit.value.error.OutOfNative? || (exit.value.error.Internal? && Accounted(old(system.world)) > U256_MAX)
      ensures exit.Some? && exit.value.ExitCall? ==> RequestFits(exit.value.call)
      ensures exit.Some? && exit.value.ExitCreate? ==>
        && !isStatic && resources == EMPTY
        && DeploymentFits(exit.value.deployment)
        && exit.value.deployment.resources.Within(old(resources))
        && exit.value.deployment.resources.native + STEP_NATIVE_COST <= old(resources).native
      ensures HaltsAtOnce(g, old(resources)) ==>
        exit.Some? && !exit.value.IsError() && resources == LeftAfter(g, old(resources))
    {
      exit := Step(system, program);
      g' := g;
      if exit.None? {
        DoStep(g, system.world.refunds);
        g' := g.Doing(g.NextOp(), system.world.refunds);
      }
    }

    /** Executes opcodes until one leaves the loop. */
    method RunOpcodes(system: System, program: Program, ghost g: Progress) returns (exit: Exit, ghost g': Progress)
      requires Stands(g, Context(), program.ops, system.world, program.steps)
      modifies `resources, system`world, system`services, program
      ensures g.Continues(g') && Left(g', Context(), exit, system.world, program.steps)
      ensures exit.Keeps() ==> Undisturbed(old(system.world), system.world)
      ensures old(program.seen).Grows(program.seen) && program.steps > old(program.steps)
      ensures match exit
        case ExitReturn(data) => old(program.seen).returned + |data| <= program.seen.returned
        case ExitRevert(data) => old(program.seen).returned + |data| <= program.seen.returned
        case ExitCall(call) => |call.calldata| <= program.seen.longest
        case _ => true
      ensures isStatic ==> system.world == old(system.world)
      ensures exit.ExitFatal? ==>
        && DiedPaying(old(program.steps), program.steps, old(resources).native)
        && (exit.error.OutOfNative? || (exit.error.Internal? && Accounted(old(system.world)) > U256_MAX))
      ensures exit.ExitCall? ==> RequestFits(exit.call)
      ensures exit.ExitCreate? ==>
        && !isStatic && resources == EMPTY && DeploymentFits(exit.deployment)
        && exit.deployment.resources.Within(old(resources))
        && PaidFor(old(program.steps), program.steps, old(resources).native, exit.deployment.resources.native)
      ensures !exit.ExitFatal? && !exit.ExitCreate? ==>
        && resources.Within(old(resources))
        && PaidFor(old(program.steps), program.steps, old(resources).native, resources.native)
      ensures HaltsAtOnce(g, old(resources)) ==>
        g' == g && !exit.IsError() && resources == LeftAfter(g, old(resources))
    {
      ghost var total := Accounted(system.world);
      g' := g;
      var next: Option<Exit> := None;
      while next.None?
        invariant g.Continues(g')
        invariant next.None? ==> Stands(g', Context(), program.ops, system.world, program.steps)
        invariant next.Some? ==> Left(g', Context(), next.value, system.world, program.steps)
        invariant resources.Within(old(resources)) || next.Some?
        invariant next.None? ==> PaidFor(old(program.steps), program.steps, old(resources).native, resources.native)
        invariant next.None? || next.value.Keeps() ==> Undisturbed(old(system.world), system.world)
        invariant old(program.seen).Grows(program.seen)
        invariant next.Some? ==> match next.value
          case ExitReturn(data) => old(program.seen).returned + |data| <= program.seen.returned
          case ExitRevert(data) => old(program.seen).returned + |data| <= program.seen.returned
          case ExitCall(call) => |call.calldata| <= program.seen.longest
          case _ => true
        invariant isStatic ==> system.world == old(system.world)
        invariant next.Some? ==> program.steps > old(program.steps)
        invariant next.Some? && next.value.ExitFatal? ==>
          && DiedPaying(old(program.steps), program.steps, old(resources).native)
          && (next.value.error.OutOfNative? || (next.value.error.Internal? && total > U256_MAX))
        invariant next.Some? && next.value.ExitCall? ==> RequestFits(next.value.call)
        invariant next.Some? && next.value.ExitCreate? ==>
          && !isStatic && resources == EMPTY && DeploymentFits(next.value.deployment)
          && next.value.deployment.resources.Within(old(resources))
          && PaidFor(old(program.steps), program.steps, old(resources).native, next.value.deployment.resources.native)
        invariant next.Some? && !next.value.ExitFatal? && !next.value.ExitCreate? ==>
          && resources.Within(old(resources))
          && PaidFor(old(program.steps), program.steps, old(resources).native, resources.native)
        invariant HaltsAtOnce(g, old(resources)) ==>
          && g' == g
          && (if next.None? then resources == old(resources)
              else !next.value.IsError() && resources == LeftAfter(g, old(resources)))
        decreases next.None?, resources.native
      {
        next, g' := Advance(system, program, g');
      }
      exit := next.value;
    }

    /** Executes opcodes up to a call, a deployment, or the end of the frame. */
    method ExecuteTillYieldPoint(system: System, program: Program, ghost g: Progress)
      returns (p: Result<Preemption, RunError>, ghost g': Progress, ghost ending: Ending)
      requires Stands(g, Context(), program.ops, system.world, program.steps)
      modifies `resources, system`world, system`services, program
      ensures p.Ok? ==> g.Continues(g') && Yields(g', ending, p.value, system.world, program.steps)
      ensures p.Ok? ==> PreemptionFits(p.value)
      ensures p.Ok? ==> p.value.Pool().Within(old(resources))
      ensures p.Ok? ==>
        PaidFor(old(program.steps), program.steps, old(resources).native, p.value.Pool().native)
        && program.steps > old(program.steps)
      ensures p.Ok? && !p.value.IsFailure() ==> Undisturbed(old(system.world), system.world)
      ensures p.Err? ==> DiedPaying(old(program.steps), program.steps, old(resources).native)
      ensures p.Err? ==> p.error.OutOfNative? || (p.error.Internal? && Accounted(old(system.world)) > U256_MAX)
      ensures isStatic ==> system.world == old(system.world)
      ensures old(program.seen).Grows(program.seen) && (p.Ok? ==> p.value.Reported(old(program.seen), program.seen))
      ensures HaltsAtOnce(g, old(resources)) ==>
        && p.Ok? && !p.value.IsSpawn() && g' == g && ending == HaltBy(g.NextOp())
        && (!isConstructor || ValidCode(DataOf(ending)) ==> p.value.Pool() == LeftAfter(g, old(resources)))
    {
      var exit;
      exit, g' := RunOpcodes(system, program, g);
      ending := EndingFor(g'.NextOp(), exit);
      if exit.ExitFatal? {
        return Err(exit.error), g', ending;
      }
      p := Ok(HandOver(exit));
      resources := EMPTY;
      LeftYields(g', exit, p.value, system.world, program.steps);
    }

    /** What leaves the frame with the exit of the loop. */
    function HandOver(exit: Exit): (p: Preemption)
      requires !exit.ExitFatal?
      reads this
      ensures exit.ExitCall? ==> p == SpawnCall(exit.call.(resources := resources))
      ensures exit.ExitCreate? ==> p == SpawnDeployment(exit.deployment)
      ensures !exit.ExitCall? && !exit.ExitCreate? ==>
        && !p.IsSpawn() && p.Pool().Within(resources) && p.Pool().native == resources.native
        && p.ReturnSize() <= |ExitData(exit)| && (!exit.Keeps() ==> p.IsFailure())
        && (forall op :: DataOf(EndingFor(op, exit)) == ExitData(exit) ==>
                         EndsWith(Context(), p, EndingFor(op, exit)))
        && (!exit.IsError() && (!isConstructor || ValidCode(ExitData(exit))) ==> p.Pool() == resources)
    {
      if exit.ExitCall? then SpawnCall(exit.call.(resources := resources))
      else if exit.ExitCreate? then SpawnDeployment(exit.deployment)
      else CreateImmediateReturnState(ExitData(exit), !exit.Keeps(), exit.ExitError?)
    }

    /** The frame's next opcode ends it, and can be paid for. */
    ghost predicate HaltsAtOnce(g: Progress, res: Resources)
    {
      var op := g.NextOp();
      op.Halts() && op.ErgsCost() <= res.ergs && op.NativeCost() <= res.native
    }

    ghost function LeftAfter(g: Progress, res: Resources): Resources
      requires HaltsAtOnce(g, res)
    {
      Resources(res.ergs - g.NextOp().ErgsCost(), res.native - g.NextOp().NativeCost())
    }

    /** The end of a frame; errors and rejected code cost all remaining ergs. */
    function CreateImmediateReturnState(data: seq<byte>, reverted: bool, isError: bool): (p: Preemption)
      reads this
      ensures isConstructor ==> p.EndDeployment?
      ensures !isConstructor ==> p.EndExecution? && p.reverted == reverted && p.returndata == data
      ensures p.Pool().Within(resources) && p.Pool().native == resources.native
      ensures reverted ==> p.IsFailure()
      ensures p.ReturnSize() <= |data|
      ensures isConstructor ==>
        p.result == if reverted then DeploymentFailed(data, true)
                    else if !ValidCode(data) then DeploymentFailed(data, false)
                    else DeploymentSuccessful(data, address)
      ensures !isError && (!isConstructor || reverted || ValidCode(data)) ==> p.Pool() == resources
      ensures p.EndDeployment? && p.result.DeploymentSuccessful? ==>
        p.result.code == data && p.result.deployedAt == address
        && |data| <= MAX_CODE_SIZE && (data != [] ==> data[0] != 0xEF)
    {
      ReturnState(resources, data, reverted, isError)
    }

    function ReturnState(available: Resources, data: seq<byte>, reverted: bool, isError: bool): Preemption
      reads `isConstructor, `address
    {
      var left := if isError then available.(ergs := 0) else available;
      if !isConstructor then EndExecution(left, reverted, data)
      else if reverted then EndDeployment(left, DeploymentFailed(data, true))
      else if (|data| >= 1 && data[0] == 0xEF) || |data| > MAX_CODE_SIZE then
        EndDeployment(left.(ergs := 0), DeploymentFailed(data, false))
      else EndDeployment(left, DeploymentSuccessful(data, address))
    }

    /**
     * Binds the frame to a call. Delegate and callcode calls run in the caller's name; code
     * whose jump bitmap is not stored has to be preprocessed first.
     */
    method StartExecutingFrame(system: System, program: Program, call: ExternalCallRequest, code: Code,
                               ghost rules: Rules, ghost height: nat)
      returns (p: Result<Preemption, RunError>, ghost g: Progress, ghost ending: Ending)
      requires resources == EMPTY && rules.ops == program.ops
      modifies this, system`world, system`services, program
      ensures isStatic <==> IsStaticModifier(call.modifier) && !call.modifier.ZKVMSystemStatic?
      ensures isConstructor <==> call.modifier.Constructor?
      ensures address == if call.IsDelegate() || call.IsCallcode() then call.caller else call.callee
      ensures Context() == FrameOf(call)
      ensures p.Ok? ==>
        && Progress(rules, height, FrameOf(call), old(system.world), old(program.steps), Begin).Continues(g)
        && Yields(g, ending, p.value, system.world, program.steps)
      ensures StartsAndHalts(call, code, program.ops(old(program.steps))) ==>
        && p.Ok? && !p.value.IsSpawn() && g.trace == Begin && ending == HaltBy(program.ops(old(program.steps)))
        && (!isConstructor || ValidCode(DataOf(ending)) ==>
              p.value.Pool() == Remainder(call, code, program.ops(old(program.steps))))
      ensures p.Ok? ==> PreemptionFits(p.value) && p.value.Pool().Within(call.resources)
      ensures p.Ok? ==> !call.modifier.ZKVMSystem? && !call.modifier.ZKVMSystemStatic?
      ensures p.Ok? ==>
        PaidFor(old(program.steps), program.steps, call.resources.native, p.value.Pool().native)
        && program.steps > old(program.steps)
      ensures p.Ok? && !p.value.IsFailure() ==> Undisturbed(old(system.world), system.world)
      ensures p.Err? ==> DiedPaying(old(program.steps), program.steps, call.resources.native)
      ensures p.Err? ==>
        || p.error.OutOfNative? || (p.error.Internal? && Accounted(old(system.world)) > U256_MAX)
        || (p.error.UnexpectedModifier? && (call.modifier.ZKVMSystem? || call.modifier.ZKVMSystemStatic?))
      ensures isStatic ==> system.world == old(system.world)
      ensures old(program.seen).Grows(program.seen) && (p.Ok? ==> p.value.Reported(old(program.seen), program.seen))
    {
      Bind(call);
      g, ending := Progress(rules, height, Context(), system.world, program.steps, Begin), CalleeNotStarted;
      if call.modifier.ZKVMSystem? || call.modifier.ZKVMSystemStatic? {
        return Err(UnexpectedModifier), g, ending;
      }
      var available := call.resources;
      if !code.cached {
        var cost := Resources(0, SaturatingMul(BYTECODE_PREPROCESSING_BYTE_NATIVE_COST, |code.bytes|));
        var charged := available.Charge(cost);
        if charged.1.Some? {
          return Err(RunError.OutOfNative), g, ending;
        }
        available := charged.0;
      }
      resources := available;
      p, g, ending := ExecuteTillYieldPoint(system, program, g);
    }

    /** In whose name, for whom and with which value the frame runs. */
    method Bind(call: ExternalCallRequest)
      modifies this
      ensures Context() == FrameOf(call) && resources == old(resources)
    {
      isStatic := IsStaticModifier(call.modifier) && !call.modifier.ZKVMSystemStatic?;
      isConstructor := call.modifier.Constructor?;
      caller := if call.IsDelegate() then call.callersCaller else call.caller;
      address := if call.IsDelegate() || call.IsCallcode() then call.caller else call.callee;
      callValue := call.value;
    }

    /** Native for code whose jump bitmap is not stored. */
    static function Preprocessing(code: Code): nat
    {
      if code.cached then 0 else SaturatingMul(BYTECODE_PREPROCESSING_BYTE_NATIVE_COST, |code.bytes|)
    }

    /** A frame that can be started, and is over with its first opcode. */
    static ghost predicate StartsAndHalts(call: ExternalCallRequest, code: Code, op: Op)
    {
      && !call.modifier.ZKVMSystem? && !call.modifier.ZKVMSystemStatic? && op.Halts()
      && op.ErgsCost() <= call.resources.ergs && Preprocessing(code) + op.NativeCost() <= call.resources.native
    }

    static ghost function Remainder(call: ExternalCallRequest, code: Code, op: Op): Resources
      requires StartsAndHalts(call, code, op)
    {
      Resources(call.resources.ergs - op.ErgsCost(), call.resources.native - Preprocessing(code) - op.NativeCost())
    }

    /** Resumes with what a callee left. No native is left here, so handing it back merges nothing. */
    method Resume(system: System, program: Program, returned: Resources, ghost g: Progress)
      returns (p: Result<Preemption, RunError>, ghost g': Progress, ghost ending: Ending)
      requires resources == EMPTY && Stands(g, Context(), program.ops, system.world, program.steps)
      modifies `resources, system`world, system`services, program
      ensures p.Ok? ==> g.Continues(g') && Yields(g', ending, p.value, system.world, program.steps)
      ensures p.Ok? ==> PreemptionFits(p.value) && p.value.Pool().Within(returned)
      ensures p.Ok? ==> PaidFor(old(program.steps), program.steps, returned.native, p.value.Pool().native)
      ensures p.Ok? ==> program.steps > old(program.steps)
      ensures p.Ok? && !p.value.IsFailure() ==> Undisturbed(old(system.world), system.world)
      ensures p.Err? ==> DiedPaying(old(program.steps), program.steps, returned.native)
      ensures p.Err? ==> p.error.OutOfNative? || (p.error.Internal? && Accounted(old(system.world)) > U256_MAX)
      ensures isStatic ==> system.world == old(system.world)
      ensures old(program.seen).Grows(program.seen) && (p.Ok? ==> p.value.Reported(old(program.seen), program.seen))
      ensures HaltsAtOnce(g, returned) ==>
        && p.Ok? && !p.value.IsSpawn() && g' == g && ending == HaltBy(g.NextOp())
        && (!isConstructor || ValidCode(DataOf(ending)) ==> p.value.Pool() == LeftAfter(g, returned))
    {
      resources := resources.Reclaim(returned);
      p, g', ending := ExecuteTillYieldPoint(system, program, g);
    }

    /** Ends the frame as reverted, with what a callee left. */
    function FailWith(returned: Resources): (p: Preemption)
      requires resources == EMPTY
      reads this
      ensures PreemptionFits(p) && p.Pool() == returned
      ensures p.IsFailure() && !p.IsSpawn() && p.ReturnSize() == 0 && EndsWith(Context(), p, CalleeNotStarted)
    {
      ReturnState(resources.Reclaim(returned), [], true, false)
    }

    /** A call that could not even start ends the calling frame too. */
    method ContinueAfterExternalCall(system: System, program: Program, returned: Resources, result: CallResult,
                                     ghost g: Progress)
      returns (p: Result<Preemption, RunError>, ghost g': Progress, ghost ending: Ending)
      requires resources == EMPTY && (result.CallFailedToExecute? <==> Stuck(g.trace))
      requires g.Valid() && g.frame == Context() && g.rules.ops == program.ops
      requires g.Now() == system.world && g.Steps() == program.steps
      modifies `resources, system`world, system`services, program
      ensures p.Ok? ==> g.Continues(g') && Yields(g', ending, p.value, system.world, program.steps)
      ensures p.Ok? ==> PreemptionFits(p.value) && p.value.Pool().Within(returned)
      ensures p.Ok? ==> PaidFor(old(program.steps), program.steps, returned.native, p.value.Pool().native)
      ensures p.Ok? && p.value.IsSpawn() ==> program.steps > old(program.steps)
      ensures p.Ok? && !p.value.IsFailure() ==> Undisturbed(old(system.world), system.world)
      ensures p.Err? ==> DiedPaying(old(program.steps), program.steps, returned.native)
      ensures p.Err? ==> p.error.OutOfNative? || (p.error.Internal? && Accounted(old(system.world)) > U256_MAX)
      ensures isStatic ==> system.world == old(system.world)
      ensures old(program.seen).Grows(program.seen) && (p.Ok? ==> p.value.Reported(old(program.seen), program.seen))
      ensures !result.CallFailedToExecute? && HaltsAtOnce(g, returned) ==>
        && p.Ok? && !p.value.IsSpawn() && g' == g && ending == HaltBy(g.NextOp())
        && (!isConstructor || ValidCode(DataOf(ending)) ==> p.value.Pool() == LeftAfter(g, returned))
      ensures result.CallFailedToExecute? ==> p.Ok? && p.value.Pool() == returned && ending.CalleeNotStarted?
    {
      if result.CallFailedToExecute? {
        p, g', ending := Ok(FailWith(returned)), g, CalleeNotStarted;
      } else {
        p, g', ending := Resume(system, program, returned, g);
      }
    }

    method ContinueAfterDeployment(system: System, program: Program, returned: Resources, ghost g: Progress)
      returns (p: Result<Preemption, RunError>, ghost g': Progress, ghost ending: Ending)
      requires resources == EMPTY && Stands(g, Context(), program.ops, system.world, program.steps)
      modifies `resources, system`world, system`services, program
      ensures p.Ok? ==> g.Continues(g') && Yields(g', ending, p.value, system.world, program.steps)
      ensures p.Ok? ==> PreemptionFits(p.value) && p.value.Pool().Within(returned)
      ensures p.Ok? ==> PaidFor(old(program.steps), program.steps, returned.native, p.value.Pool().native)
      ensures p.Ok? ==> program.steps > old(program.steps)
      ensures p.Ok? && !p.value.IsFailure() ==> Undisturbed(old(system.world), system.world)
      ensures p.Err? ==> DiedPaying(old(program.steps), program.steps, returned.native)
      ensures p.Err? ==> p.error.OutOfNative? || (p.error.Internal? && Accounted(old(system.world)) > U256_MAX)
      ensures isStatic ==> system.world == old(system.world)
      ensures old(program.seen).Grows(program.seen) && (p.Ok? ==> p.value.Reported(old(program.seen), program.seen))
      ensures HaltsAtOnce(g, returned) ==>
        && p.Ok? && !p.value.IsSpawn() && g' == g && ending == HaltBy(g.NextOp())
        && (!isConstructor || ValidCode(DataOf(ending)) ==> p.value.Pool() == LeftAfter(g, returned))
    {
      p, g', ending := Resume(system, program, returned, g);
    }
  }

  function ExitFor(e: Option<ChargeError>): (exit: Option<Exit>)
    ensures exit.None? <==> e.None?
  {
    match e
    case None => None
    case Some(OutOfErgs) => Some(ExitError)
    case Some(OutOfNative) => Some(ExitFatal(RunError.OutOfNative))
  }

  /** What a call costs before anything is passed on: the surcharges on value and on a new account. */
  function CallFees(call: ExternalCallRequest, calleeIsEmpty: bool): nat
  {
    if call.value == 0 || call.IsDelegate() then 0
    else (CALLVALUE + (if calleeIsEmpty && !call.IsCallcode() then NEWACCOUNT else 0)) * ERGS_PER_GAS
  }

  function Stipend(call: ExternalCallRequest): nat
  {
    if call.value == 0 || call.IsDelegate() then 0 else CALL_STIPEND * ERGS_PER_GAS
  }

  /**
   * `calculate_resources_passed_in_external_call`: what the caller keeps and what the
   * callee gets. A short caller ends the call with its ergs emptied. The callee's stipend is
   * paid for by the surcharge on value, so nothing is created.
   */
  function ResourcesPassed(res: Resources, call: ExternalCallRequest, calleeIsEmpty: bool)
    : (r: (Resources, Option<Resources>))
    ensures r.0.native == res.native
    ensures r.1.Some? <==> CallFees(call, calleeIsEmpty) <= res.ergs
    ensures r.1.None? ==> r.0.ergs == 0
    ensures r.1.Some? ==>
      var payable := res.ergs - CallFees(call, calleeIsEmpty);
      var passed := Min(call.ergsToPass, Apply63Of64(payable));
      && r.0.ergs == payable - passed
      && r.1.value == Resources(passed + Stipend(call), 0)
      && r.0.ergs + r.1.value.ergs <= res.ergs
  {
    var paysValue := !call.IsDelegate() && call.value != 0;
    var afterValue := if paysValue then res.Charge(GasCost(CALLVALUE, 0)) else (res, None);
    if afterValue.1.Some? then (afterValue.0, None) else
    var createsCallee := !call.IsCallcode() && !call.IsDelegate() && call.value != 0 && calleeIsEmpty;
    var afterCreation := if createsCallee then afterValue.0.Charge(GasCost(NEWACCOUNT, 0)) else afterValue;
    if afterCreation.1.Some? then (afterCreation.0, None) else
    var caller := afterCreation.0;
    var passed := Min(call.ergsToPass, Apply63Of64(caller.ergs));
    var kept := caller.ChargeUnchecked(Resources(passed, 0));
    (kept, Some(Resources(passed, 0).AddErgs(if paysValue then CALL_STIPEND * ERGS_PER_GAS else 0)))
  }
}
