/** The bootloader's main loop: frames calling frames, each with its rollback point. */
module Runner {
  import opened Numbers
  import opened World
  import opened Resources
  import opened IoSubsystem
  import opened Calls
  import opened Opcodes
  import opened SystemHooks
  import opened Semantics
  import opened Trees
  import opened Interpreter

  datatype Preparation =
    | PreparationFailed(inCaller: Resources)
    | Prepared(inCaller: Resources, inCallee: Resources, transferTo: Option<Address>, code: Code)

  /** The transfer goes to the callee, as a debug assertion says, unless a callcode with value names another account. */
  lemma TransferGoesToCallee(call: ExternalCallRequest)
    requires TransferTarget(call).Some?
    ensures TransferTarget(call).value == call.callee <==> !call.IsCallcode() || call.caller == call.callee
  {
  }

  /** Account 1 running the code of account 2 with one unit of value: allowed, and paid to account 1. */
  lemma CallcodePaysCaller(resources: Resources, ergsToPass: u64, calldata: seq<byte>)
    ensures
      var call := ExternalCallRequest(resources, ergsToPass, 1, 2, 0, EVMCallcode, calldata, 1);
      call.IsTransferAllowed() && TransferTarget(call) == Some(1) && call.callee == 2
  {
  }

  /** With value, a static call only ever pays itself. */
  lemma StaticTransferIsSelfTransfer(call: ExternalCallRequest)
    requires IsStaticModifier(call.modifier) && call.IsTransferAllowed() && TransferTarget(call).Some?
    ensures TransferTarget(call).value == call.caller
  {
  }

  /** A call that was served takes the frame that asked for it one step further. */
  lemma {:induction false} ServedCall(rules: Rules, height: nat, g: Progress, ending: Ending, call: ExternalCallRequest,
                                      w: World, steps: nat, course: Course, w': World, result: CallResult, steps': nat)
    requires g.rules == rules && g.height + 1 == height && Yields(g, ending, SpawnCall(call), w, steps)
    requires CallDone(rules, height, w, steps, Bare(call), course, w', result, steps')
    ensures
      var g' := g.Calling(course);
      && g.Continues(g') && g'.Valid() && g'.Now() == w' && g'.Steps() == steps'
      && (result.CallFailedToExecute? <==> Stuck(g'.trace))
  {
    CallStep(g, course);
  }

  lemma {:induction false} ServedDeployment(rules: Rules, height: nat, g: Progress, ending: Ending,
                                            d: DeploymentRequest, w: World, steps: nat, creation: Creation, w': World,
                                            result: DeploymentResult, steps': nat)
    requires g.rules == rules && g.height + 1 == height && Yields(g, ending, SpawnDeployment(d), w, steps)
    requires CreationDone(rules, height, w, steps, BareDeployment(d), creation, w', result, steps')
    ensures
      var g' := g.Deploying(creation);
      g.Continues(g') && g'.Valid() && g'.Now() == w' && g'.Steps() == steps' && !Stuck(g'.trace)
  {
    DeployStep(g, creation);
  }

  /** Enough for a number of services, for preparing the code, and for the opcode. */
  ghost predicate Plenty(res: Resources, services: nat, code: Code, op: Op)
  {
    && res.ergs >= services * MAX_IO + op.ErgsCost()
    && res.native >= services * MAX_IO + Interpreter.Preprocessing(code) + op.NativeCost()
  }

  /** No more is gone than a number of services, preparing the code and the opcode can have cost. */
  ghost predicate RestIsBack(left: Resources, res: Resources, services: nat, code: Code, op: Op)
  {
    && left.ergs + services * MAX_IO + op.ErgsCost() >= res.ergs
    && left.native + services * MAX_IO + Interpreter.Preprocessing(code) + op.NativeCost() >= res.native
  }

  /** The same for a whole call, which passes on what its caller allows. */
  ghost predicate Affords(isEntry: bool, call: ExternalCallRequest, code: Code, op: Op)
  {
    && Plenty(call.resources, 8, code, op)
    && (isEntry || (call.resources.ergs >= 9 * MAX_IO + 2 * op.ErgsCost()
                    && call.ergsToPass >= 6 * MAX_IO + op.ErgsCost()))
  }

  /** What reaches the callee is enough again. */
  lemma PlentyReachesCallee(isEntry: bool, call: ExternalCallRequest, code: Code, op: Op, inCallee: Resources)
    requires Affords(isEntry, call, code, op) && inCallee.native >= call.resources.native - MAX_IO
    requires if isEntry then inCallee.ergs == call.resources.ergs
             else inCallee.ergs >= call.ergsToPass || 64 * inCallee.ergs >= 63 * (call.resources.ergs - 2 * MAX_IO)
    ensures Plenty(inCallee, 6, code, op)
  {
  }

  /** Between them, caller and callee have all but the costs of preparing the call. */
  ghost predicate Shared(call: ExternalCallRequest, inCaller: Resources, inCallee: Resources)
  {
    && inCallee.native >= call.resources.native - MAX_IO
    && inCaller.ergs + inCallee.ergs + 2 * MAX_IO >= call.resources.ergs
  }

  /** What comes back to the caller, with what it kept, is all but the costs again. */
  lemma RestReachesCaller(call: ExternalCallRequest, inCaller: Resources, inCallee: Resources, back: Resources,
                          code: Code, op: Op)
    requires inCaller.native == 0 && inCaller.ergs + back.ergs <= U64_MAX
    ensures Shared(call, inCaller, inCallee) && RestIsBack(back, inCallee, 2, code, op) ==>
      RestIsBack(inCaller.Reclaim(back), call.resources, 4, code, op)
  {
  }

  /** What a deployment makes of the end of its constructor. */
  lemma {:induction false} BuiltFrom(g: Progress, ending: Ending, p: Preemption, w: World, steps: nat, stored: bool,
                                     w': World, result: DeploymentResult)
    requires g.frame.isConstructor && !p.IsSpawn() && Yields(g, ending, p, w, steps) && p.EndDeployment?
    requires if p.result.DeploymentFailed? || stored then result == p.result else result == DeploymentFailed([], false)
    requires p.result.DeploymentFailed? ==> stored
    requires result.DeploymentSuccessful? ==> w' == WithCode(w, g.frame.address, result.code)
    ensures Built(g.rules, g.height, g.frame, g.start, g.at, g.trace, ending, stored, w', result, steps)
  {
  }

  class Run {
    const system: System
    const program: Program
    const hooked: set<Address>
    var callstackHeight: nat
    var returnMemory: nat
    /** Bytes that hooks returned so far. */
    ghost var hookBytes: nat

    constructor (system: System, program: Program, hooked: set<Address>, returnMemory: nat)
      ensures this.system == system && this.program == program && this.hooked == hooked && callstackHeight == 0
      ensures this.returnMemory == returnMemory && hookBytes == 0
    {
      this.system, this.program, this.hooked := system, program, hooked;
      callstackHeight := 0;
      this.returnMemory, hookBytes := returnMemory, 0;
    }

    /** What the run takes as given. */
    ghost function Setting(): Rules
    {
      Rules(program.ops, system.keccak, system.preimage, system.derive, hooked)
    }

    /** The opcode that would be executed next. */
    ghost function NextOp(): Op
      reads program
    {
      program.ops(program.steps)
    }

    /** Return data is kept in a buffer that only shrinks. */
    method CopyIntoReturnMemory(len: nat) returns (ok: bool)
      modifies `returnMemory
      ensures ok <==> len <= old(returnMemory)
      ensures ok ==> returnMemory == old(returnMemory) - len
    {
      ok := len <= returnMemory;
      returnMemory := if ok then returnMemory - len else 0;
    }

    /** Bytes that frames and hooks returned so far, and the same with the room that is left. */
    ghost function Bytes(): nat
      reads this, program
    {
      program.seen.returned + hookBytes
    }

    ghost function Room(): nat
      reads this, program
    {
      returnMemory + Bytes()
    }

    /**
     * Why a run can end with an error the code takes for impossible: more tokens than fit in
     * 256 bits, more bytes returned than there was room for, or calldata of 4 gigabytes.
     */
    ghost predicate Explained(e: RunError, accounted: nat, room: nat, longest: nat)
      reads this, program
    {
      && (e.Internal? ==> accounted > U256_MAX)
      && (e.OutOfReturnMemory? ==> Bytes() > room)
      && (e.OversizedCalldata? ==> Max(longest, program.seen.longest) > MAX_ADDITIONAL_DATA)
    }

    // ----- calls

    ghost predicate IsHooked(call: ExternalCallRequest)
    {
      call.callee < SPECIAL_ADDRESS_BOUND && call.callee in hooked
    }

    /** The course of a call that has all it needs, if the present state decides it. */
    ghost function Foretold(call: ExternalCallRequest): Option<Course>
      reads this, system, program
    {
      Expected(Setting(), callstackHeight, system.world, Bare(call), NextOp())
    }

    /** There is room for what it brings back. A call from outside that cannot pay has no course. */
    ghost predicate Foreseen(ee: ExecutionEnvironment, call: ExternalCallRequest)
      reads this, system, program
    {
      var course := Foretold(call);
      course.Some? && |Brought(course.value)| <= returnMemory && (course.value.NotPaid? ==> ee.EVM?)
    }

    method HandleRequestedExternalCall(isEntry: bool, ee: ExecutionEnvironment, call: ExternalCallRequest)
      returns (r: Result<(Resources, CallResult), RunError>, ghost course: Course)
      requires callstackHeight <= MAX_GLOBAL_CALLS_STACK_DEPTH + 1
      requires !call.modifier.Constructor?
      requires !isEntry ==> ee.EVM?
      modifies this, system, program
      ensures r.Ok? ==>
        CallDone(Setting(), old(callstackHeight), old(system.world), old(program.steps), Bare(call), course,
                 system.world, r.value.1, program.steps)
      ensures old(Foreseen(ee, call))
              && Affords(isEntry, call, old(system.world).CodeAt(call.callee), old(NextOp())) ==>
        && r.Ok? && Some(course) == old(Foretold(call))
        && (!IsHooked(call) && MayPay(call) ==>
              RestIsBack(r.value.0, call.resources, 4, old(system.world).CodeAt(call.callee), old(NextOp())))
      ensures r.Ok? ==> r.value.0.Within(call.resources)
      ensures r.Ok? ==> callstackHeight == old(callstackHeight) && system.frames == old(system.frames)
      ensures r.Ok? && !r.value.1.Successful? ==> system.world == old(system.world)
      ensures r.Ok? && IsStaticModifier(call.modifier) ==> system.world == old(system.world)
      ensures r.Ok? && r.value.1.Successful? && call.callee >= SPECIAL_ADDRESS_BOUND
              && old(system.world).CodeAt(call.callee).bytes == [] ==>
        ValueMoved(old(system.world), system.world, call)
      ensures r.Ok? ==> Accounted(system.world) == Accounted(old(system.world))
      ensures r.Ok? && call.caller != L2_BASE_TOKEN_ADDRESS && Genuine(old(system.world).messages)
              && !CallImpersonates(Setting(), old(system.world), Bare(call), course) ==>
        Genuine(system.world.messages)
      ensures old(program.seen).Grows(program.seen) && (r.Ok? ==> old(Room()) <= Room())
      ensures r.Ok? ==> PaidFor(old(program.steps), program.steps, call.resources.native, r.value.0.native)
      ensures r.Err? ==> old(system.frames) <= system.frames
      ensures r.Err? ==> DiedPaying(old(program.steps), program.steps, call.resources.native)
      ensures r.Err? ==> Explained(r.error, Accounted(old(system.world)), old(Room()), |call.calldata|)
      ensures r.Err? && r.error.TopLevelInsufficientBalance? ==>
        ee.NoEE? && (Accounted(old(system.world)) <= U256_MAX ==> old(system.world).Balance(call.caller) < call.value)
      ensures r.Err? && r.error.UnexpectedModifier? ==> call.modifier.ZKVMSystem? || call.modifier.ZKVMSystemStatic?
      decreases call.resources.native, 4, 1
    {
      r, course := PrepareAndRun(isEntry, ee, call);
      if r.Ok? {
        BareValueMoved(old(system.world), system.world, call);
        CallKeeps(Setting(), callstackHeight, old(system.world), old(program.steps), Bare(call), course, system.world,
                  r.value.1, program.steps);
      }
    }

    method PrepareAndRun(isEntry: bool, ee: ExecutionEnvironment, call: ExternalCallRequest)
      returns (r: Result<(Resources, CallResult), RunError>, ghost course: Course)
      requires callstackHeight <= MAX_GLOBAL_CALLS_STACK_DEPTH + 1
      requires !call.modifier.Constructor?
      requires !isEntry ==> ee.EVM?
      modifies this, system, program
      ensures r.Ok? ==>
        CallDone(Setting(), old(callstackHeight), old(system.world), old(program.steps), Bare(call), course,
                 system.world, r.value.1, program.steps)
      ensures old(Foreseen(ee, call))
              && Affords(isEntry, call, old(system.world).CodeAt(call.callee), old(NextOp())) ==>
        && r.Ok? && Some(course) == old(Foretold(call))
        && (!IsHooked(call) && MayPay(call) ==>
              RestIsBack(r.value.0, call.resources, 4, old(system.world).CodeAt(call.callee), old(NextOp())))
      ensures r.Ok? ==> r.value.0.Within(call.resources)
      ensures r.Ok? ==> callstackHeight == old(callstackHeight) && system.frames == old(system.frames)
      ensures old(program.seen).Grows(program.seen) && (r.Ok? ==> old(Room()) <= Room())
      ensures r.Ok? ==> PaidFor(old(program.steps), program.steps, call.resources.native, r.value.0.native)
      ensures r.Err? ==> old(system.frames) <= system.frames
      ensures r.Err? ==> DiedPaying(old(program.steps), program.steps, call.resources.native)
      ensures r.Err? ==> Explained(r.error, Accounted(old(system.world)), old(Room()), |call.calldata|)
      ensures r.Err? && r.error.TopLevelInsufficientBalance? ==>
        ee.NoEE? && (Accounted(old(system.world)) <= U256_MAX ==> old(system.world).Balance(call.caller) < call.value)
      ensures r.Err? && r.error.UnexpectedModifier? ==> call.modifier.ZKVMSystem? || call.modifier.ZKVMSystemStatic?
      decreases call.resources.native, 4, 0
    {
      course := NotStarted;
      var prepared := PrepareCall(isEntry, ee, call);
      if prepared.Err? {
        return Err(prepared.error), course;
      }
      if prepared.value.PreparationFailed? {
        return Ok((prepared.value.inCaller, CallFailedToExecute)), course;
      }
      var Prepared(inCaller, inCallee, transferTo, code) := prepared.value;
      var done;
      done, course := RunPreparedCall(call.(resources := inCallee), transferTo, ee, code);
      if done.Err? {
        return Err(done.error), course;
      }
      RestReachesCaller(call, inCaller, inCallee, done.value.0, code, old(NextOp()));
      r := Ok((inCaller.Reclaim(done.value.0), done.value.1));
    }

    /** Prepared with plenty, a call still has plenty. */
    method PrepareCall(isEntry: bool, ee: ExecutionEnvironment, call: ExternalCallRequest)
      returns (r: Result<Preparation, RunError>)
      requires !isEntry ==> ee.EVM?
      modifies system`services
      ensures r.Err? ==> r.error.OutOfNative?
      ensures r.Ok? ==> r.value.inCaller.Within(call.resources)
      ensures r.Ok? && r.value.Prepared? ==>
        && r.value.inCaller.ergs + r.value.inCallee.ergs <= call.resources.ergs
        && r.value.inCaller.native == 0 && r.value.inCallee.native <= call.resources.native
        && r.value.transferTo == TransferTarget(call)
        && (r.value.transferTo.Some? ==> call.IsTransferAllowed())
        && r.value.code == system.world.CodeAt(call.callee)
      ensures Affords(isEntry, call, system.world.CodeAt(call.callee), NextOp()) ==>
        && r.Ok? && (r.value.Prepared? <==> MayPay(call))
        && (r.value.Prepared? ==>
              && Plenty(r.value.inCallee, 6, r.value.code, NextOp())
              && Shared(call, r.value.inCaller, r.value.inCallee))
    {
      r := RunCallPreparation(isEntry, ee, call);
      ghost var code := system.world.CodeAt(call.callee);
      if Affords(isEntry, call, code, NextOp()) && r.value.Prepared? {
        PlentyReachesCallee(isEntry, call, code, NextOp(), r.value.inCallee);
      }
    }

    /** The call in a frame of its own, which is kept on success and rolled back otherwise. */
    method RunPreparedCall(call: ExternalCallRequest, transferTo: Option<Address>, ee: ExecutionEnvironment, code: Code)
      returns (r: Result<(Resources, CallResult), RunError>, ghost course: Course)
      requires callstackHeight <= MAX_GLOBAL_CALLS_STACK_DEPTH + 1
      requires !call.modifier.Constructor? && code == system.world.CodeAt(call.callee)
      requires transferTo == TransferTarget(call) && (transferTo.Some? ==> call.IsTransferAllowed())
      modifies this, system, program
      ensures r.Ok? ==>
        CallDone(Setting(), old(callstackHeight), old(system.world), old(program.steps), Bare(call), course,
                 system.world, r.value.1, program.steps)
      ensures r.Ok? ==> !course.NotStarted?
      ensures old(Foreseen(ee, call)) && Plenty(call.resources, 6, code, old(NextOp())) ==>
        && r.Ok? && Some(course) == old(Foretold(call))
        && (!IsHooked(call) ==> RestIsBack(r.value.0, call.resources, 2, code, old(NextOp())))
      ensures r.Ok? ==> r.value.0.Within(call.resources)
      ensures r.Ok? ==> callstackHeight == old(callstackHeight) && system.frames == old(system.frames)
      ensures old(program.seen).Grows(program.seen) && (r.Ok? ==> old(Room()) <= Room())
      ensures r.Ok? ==> PaidFor(old(program.steps), program.steps, call.resources.native, r.value.0.native)
      ensures r.Err? ==> old(system.frames) <= system.frames
      ensures r.Err? ==> DiedPaying(old(program.steps), program.steps, call.resources.native)
      ensures r.Err? ==> Explained(r.error, Accounted(old(system.world)), old(Room()), |call.calldata|)
      ensures r.Err? && r.error.TopLevelInsufficientBalance? ==>
        ee.NoEE? && (Accounted(old(system.world)) <= U256_MAX ==> old(system.world).Balance(call.caller) < call.value)
      ensures r.Err? && r.error.UnexpectedModifier? ==> call.modifier.ZKVMSystem? || call.modifier.ZKVMSystemStatic?
      decreases call.resources.native, 3
    {
      var left, handle, early;
      left, handle, early, course := BeginCall(call, transferTo, ee, code);
      if early.Err? {
        return Err(early.error), course;
      }
      if early.value.Some? {
        r := Ok((left, early.value.value));
      } else {
        r, course := RunPaidCall(call.(resources := left), code, handle);
      }
    }

    /** Opens the frame of a call, and closes it again if nothing has to run. */
    method BeginCall(call: ExternalCallRequest, transferTo: Option<Address>, ee: ExecutionEnvironment, code: Code)
      returns (left: Resources, handle: nat, r: Result<Option<CallResult>, RunError>, ghost course: Course)
      requires !call.modifier.Constructor? && code == system.world.CodeAt(call.callee)
      requires transferTo == TransferTarget(call) && (transferTo.Some? ==> call.IsTransferAllowed())
      modifies system
      ensures left.ergs == call.resources.ergs && left.native <= call.resources.native
      ensures r.Ok? && r.value.Some? ==>
        && CallDone(Setting(), callstackHeight, old(system.world), program.steps, Bare(call), course, system.world,
                    r.value.value, program.steps)
        && !course.NotStarted? && system.frames == old(system.frames)
        && left.native >= call.resources.native - 2 * MAX_IO
      ensures r.Ok? && r.value.None? ==>
        && handle == |old(system.frames)| && system.frames == old(system.frames) + [old(system.world)]
        && CanPay(old(system.world), call) && system.world == Paid(old(system.world), call)
        && (call.callee >= SPECIAL_ADDRESS_BOUND ==> code.bytes != [])
        && callstackHeight <= MAX_GLOBAL_CALLS_STACK_DEPTH
        && Accounted(system.world) == Accounted(old(system.world))
        && left.native >= call.resources.native - 2 * MAX_IO
      ensures old(Foreseen(ee, call)) && call.resources.native >= 2 * MAX_IO ==>
        && r.Ok?
        && (if r.value.Some? then Some(course) == old(Foretold(call))
            else old(Foretold(call)) == ExpectedRun(Setting(), system.world, Bare(call), NextOp()))
      ensures r.Err? ==> old(system.frames) <= system.frames
      ensures r.Err? ==> r.error.OutOfNative? || r.error.TopLevelInsufficientBalance?
      ensures r.Err? && r.error.TopLevelInsufficientBalance? ==>
        ee.NoEE? && (Accounted(old(system.world)) <= U256_MAX ==> old(system.world).Balance(call.caller) < call.value)
    {
      ghost var before := system.world;
      var isSpecial := call.callee < SPECIAL_ADDRESS_BOUND;
      handle := system.StartGlobalFrame();
      left, r := CheckIfReturnsEarly(call, transferTo, ee, isSpecial, code);
      BareCall(before, call);
      course := if !CanPay(before, call) then NotPaid else if !isSpecial && code.bytes == [] then NoCode else TooDeep;
      if r.Ok? && r.value.Some? {
        if r.value.value.Successful? {
          system.FinishGlobalFrame();
        } else {
          system.RollbackGlobalFrame(handle);
        }
        EarlyDone(Setting(), callstackHeight, before, program.steps, Bare(call), course);
      }
    }

    /** The value is moved and the depth is fine: a hook or the callee's code takes over. */
    method RunPaidCall(call: ExternalCallRequest, code: Code, handle: nat)
      returns (r: Result<(Resources, CallResult), RunError>, ghost course: Course)
      requires callstackHeight <= MAX_GLOBAL_CALLS_STACK_DEPTH
      requires !call.modifier.Constructor? && MayPay(call) && handle + 1 == |system.frames|
      requires CanPay(system.frames[handle], call) && system.world == Paid(system.frames[handle], call)
      requires code == system.frames[handle].CodeAt(call.callee)
      requires call.callee >= SPECIAL_ADDRESS_BOUND ==> code.bytes != []
      modifies this, system, program
      ensures r.Ok? ==>
        CallDone(Setting(), old(callstackHeight), old(system.frames[handle]), old(program.steps), Bare(call), course,
                 system.world, r.value.1, program.steps)
      ensures r.Ok? ==> !course.NotStarted? && !r.value.1.CallFailedToExecute?
      ensures
        var foretold := ExpectedRun(Setting(), old(system.world), Bare(call), old(NextOp()));
        && foretold.Some? && |Brought(foretold.value)| <= old(returnMemory)
        && Plenty(call.resources, 4, code, old(NextOp())) ==>
          && r.Ok? && course == foretold.value
          && (!IsHooked(call) ==> RestIsBack(r.value.0, call.resources, 0, code, old(NextOp())))
      ensures r.Ok? ==> r.value.0.Within(call.resources)
      ensures r.Ok? ==> callstackHeight == old(callstackHeight) && system.frames == old(system.frames)[..handle]
      ensures old(program.seen).Grows(program.seen) && (r.Ok? ==> old(Room()) <= Room())
      ensures r.Ok? ==> PaidFor(old(program.steps), program.steps, call.resources.native, r.value.0.native)
      ensures r.Err? ==> old(system.frames)[..handle] <= system.frames
      ensures r.Err? ==> DiedPaying(old(program.steps), program.steps, call.resources.native)
      ensures r.Err? ==> Explained(r.error, Accounted(old(system.world)), old(Room()), |call.calldata|)
      ensures r.Err? ==> !r.error.TopLevelInsufficientBalance?
      ensures r.Err? && r.error.UnexpectedModifier? ==> call.modifier.ZKVMSystem? || call.modifier.ZKVMSystemStatic?
      decreases call.resources.native, 2, 1
    {
      ghost var before, at := system.frames[handle], program.steps;
      course := NotPaid;
      BareCall(before, call);
      if call.callee < SPECIAL_ADDRESS_BOUND {
        r := CallToSpecialAddress(call, handle);
        if r.Ok? {
          course := Kernel(!r.value.1.Successful?, r.value.1.returndata);
          KernelDone(Setting(), callstackHeight, before, at, Bare(call), course, system.world, r.value.1);
        }
      } else {
        ghost var body, ending;
        r, body, ending := CallExecuteCalleeFrame(call, code, handle);
        course := Ran(body, ending);
        if r.Ok? {
          RanDone(Setting(), callstackHeight, before, at, Bare(call), body, ending, system.world, r.value.1,
                  program.steps);
        }
      }
    }

    /**
     * Reads the callee, checks the transfer and splits the resources. The surcharge on value
     * is taken before the read and put back after it; an entry frame passes everything on.
     */
    method RunCallPreparation(isEntry: bool, ee: ExecutionEnvironment, call: ExternalCallRequest)
      returns (r: Result<Preparation, RunError>)
      requires !isEntry ==> ee.EVM?
      modifies system`services
      ensures r.Err? ==> r.error.OutOfNative?
      ensures r.Ok? ==> r.value.inCaller.Within(call.resources)
      ensures r.Ok? && r.value.Prepared? ==>
        && r.value.inCaller.ergs + r.value.inCallee.ergs <= call.resources.ergs
        && r.value.inCaller.native == 0 && r.value.inCallee.native <= call.resources.native
        && r.value.transferTo == TransferTarget(call)
        && (r.value.transferTo.Some? ==> call.IsTransferAllowed())
        && r.value.code == system.world.CodeAt(call.callee)
      ensures call.resources.native >= MAX_IO && (isEntry || call.resources.ergs >= 2 * MAX_IO) ==>
        && r.Ok? && (r.value.Prepared? <==> MayPay(call))
        && (r.value.Prepared? ==>
              && r.value.inCallee.native >= call.resources.native - MAX_IO
              && r.value.inCaller.ergs + r.value.inCallee.ergs + 2 * MAX_IO >= call.resources.ergs
              && (if isEntry then r.value.inCallee.ergs == call.resources.ergs
                  else r.value.inCallee.ergs >= call.ergsToPass
                       || 64 * r.value.inCallee.ergs >= 63 * (call.resources.ergs - 2 * MAX_IO)))
    {
      var isTransfer := call.value != 0 && !call.IsDelegate();
      var inCaller, e := ReadCallee(isEntry, isTransfer, call.resources);
      match e {
        case Some(OutOfErgs) => return Ok(PreparationFailed(inCaller));
        case Some(OutOfNative) => return Err(RunError.OutOfNative);
        case None =>
      }
      var world := system.world;
      if isTransfer && !call.IsTransferAllowed() {
        return Ok(PreparationFailed(inCaller));
      }
      var inCallee;
      if isEntry {
        inCallee, inCaller := inCaller, EMPTY;
      } else {
        if isTransfer {
          inCaller := inCaller.AddErgs(GasCost(CALLVALUE, 0).ergs);
        }
        var calleeIsEmpty :=
          world.Nonce(call.callee) == 0 && world.CodeAt(call.callee).bytes == [] && world.Balance(call.callee) == 0;
        var split := ResourcesPassed(inCaller, call, calleeIsEmpty);
        inCaller := split.0;
        if split.1.None? {
          return Ok(PreparationFailed(inCaller));
        }
        inCallee := split.1.value.(native := inCaller.native);
        inCaller := inCaller.(native := 0);
      }
      r := Ok(Prepared(inCaller, inCallee, TransferTarget(call), world.CodeAt(call.callee)));
    }

    /** An entry frame reads with unlimited ergs; any other has to have the surcharge on value left at that point. */
    method ReadCallee(isEntry: bool, isTransfer: bool, res: Resources) returns (left: Resources, e: Option<ChargeError>)
      modifies system`services
      ensures left.Within(res)
      ensures isEntry ==> left.ergs == res.ergs && e != Some(ChargeError.OutOfErgs)
      ensures !isEntry && isTransfer && e.None? ==> left.ergs + GasCost(CALLVALUE, 0).ergs <= res.ergs
      ensures res.native >= MAX_IO && (isEntry || res.ergs >= 2 * MAX_IO) ==>
        && e.None? && left.native >= res.native - MAX_IO
        && left.ergs >= res.ergs - MAX_IO - (if isTransfer && !isEntry then GasCost(CALLVALUE, 0).ergs else 0)
    {
      left := res;
      if isEntry {
        var inf;
        inf, e := system.ChargeService(res.(ergs := U64_MAX));
        left := inf.(ergs := res.ergs);
      } else {
        if isTransfer {
          var charged := res.Charge(GasCost(CALLVALUE, 0));
          left := charged.0;
          if charged.1.Some? {
            return left, charged.1;
          }
        }
        left, e := system.ChargeService(left);
      }
    }

    /**
     * Performs the transfer with unlimited ergs, then decides whether there is code to run.
     * A call that is too deep fails only here, after its transfer.
     */
    method CheckIfReturnsEarly(call: ExternalCallRequest, transferTo: Option<Address>, ee: ExecutionEnvironment,
                               isSpecial: bool, code: Code)
      returns (left: Resources, r: Result<Option<CallResult>, RunError>)
      requires transferTo == TransferTarget(call) && (transferTo.Some? ==> call.IsTransferAllowed())
      modifies system`services, system`world
      ensures left.ergs == call.resources.ergs && left.native <= call.resources.native
      ensures r.Err? ==> r.error.OutOfNative? || r.error.TopLevelInsufficientBalance?
      ensures r.Err? && r.error.TopLevelInsufficientBalance? ==>
        ee.NoEE? && (Accounted(old(system.world)) <= U256_MAX ==> old(system.world).Balance(call.caller) < call.value)
      ensures r.Ok? && (r.value.None? || r.value.value.Successful?) ==>
        && ValueMoved(old(system.world), system.world, call)
        && Accounted(system.world) == Accounted(old(system.world))
        && system.world.messages == old(system.world).messages
        && (IsStaticModifier(call.modifier) ==> system.world == old(system.world))
      ensures r.Ok? && !CanPay(old(system.world), call) ==> r.value == Some(Failed([]))
      ensures r.Ok? && CanPay(old(system.world), call) ==>
        && system.world == Paid(old(system.world), call)
        && r.value == if !isSpecial && code.bytes == [] then Some(Successful([]))
                      else if callstackHeight > MAX_GLOBAL_CALLS_STACK_DEPTH then Some(Failed([]))
                      else None
      ensures left.native >= call.resources.native - 2 * MAX_IO || r.Err?
      ensures call.resources.native >= 2 * MAX_IO && (CanPay(old(system.world), call) || ee.EVM?) ==> r.Ok?
      ensures r.Ok? && r.value.None? ==> isSpecial || code.bytes != []
      ensures r.Ok? && r.value.None? ==> callstackHeight <= MAX_GLOBAL_CALLS_STACK_DEPTH
      ensures r.Ok? && r.value.Some? ==> !r.value.value.CallFailedToExecute?
    {
      left := call.resources;
      if transferTo.Some? {
        ghost var before := system.world;
        var inf, e := system.TransferValue(left.(ergs := U64_MAX), call.caller, transferTo.value, call.value);
        left := inf.(ergs := left.ergs);
        if e == Some(IoError.OutOfNative) {
          return left, Err(RunError.OutOfNative);
        } else if e.Some? {
          if ee.NoEE? {
            return left, Err(TopLevelInsufficientBalance);
          }
          return left, Ok(Some(Failed([])));
        }
        TransferConserves(before, call.caller, transferTo.value, call.value);
        if IsStaticModifier(call.modifier) {
          StaticTransferIsSelfTransfer(call);
          SelfTransferIsIdentity(before, call.caller, call.value);
        }
      }
      if !isSpecial && code.bytes == [] {
        return left, Ok(Some(Successful([])));
      }
      if callstackHeight > MAX_GLOBAL_CALLS_STACK_DEPTH {
        return left, Ok(Some(Failed([])));
      }
      r := Ok(None);
    }

    /** Runs the callee's code to its end; nested requests are served in between. */
    method CallExecuteCalleeFrame(call: ExternalCallRequest, code: Code, handle: nat)
      returns (r: Result<(Resources, CallResult), RunError>, ghost body: Trace, ghost ending: Ending)
      requires callstackHeight <= MAX_GLOBAL_CALLS_STACK_DEPTH
      requires call.callee >= SPECIAL_ADDRESS_BOUND && !call.modifier.Constructor?
      requires handle + 1 == |system.frames|
      modifies this, system, program
      ensures r.Ok? ==>
        && FrameDone(Setting(), old(callstackHeight), FrameOf(call), old(system.world), old(program.steps), body,
                     ending, program.steps)
        && !IsSystemCall(call)
        && r.value.1 == (if ending.Halted? then Successful(DataOf(ending)) else Failed(DataOf(ending)))
        && (ending.Halted? ==>
              system.world == Final(FrameOf(call), After(Setting(), FrameOf(call), old(system.world), body), ending.op))
      ensures Interpreter.StartsAndHalts(call, code, old(NextOp()))
              && |DataOf(HaltBy(old(NextOp())))| <= old(returnMemory) ==>
        && r.Ok? && body == Begin && ending == HaltBy(old(NextOp()))
        && r.value.0 == Interpreter.Remainder(call, code, old(NextOp()))
      ensures r.Ok? ==> r.value.0.Within(call.resources) && !r.value.1.CallFailedToExecute?
      ensures r.Ok? ==> callstackHeight == old(callstackHeight) && system.frames == old(system.frames)[..handle]
      ensures r.Ok? && !r.value.1.Successful? ==> system.world == old(system.frames[handle])
      ensures old(program.seen).Grows(program.seen) && (r.Ok? ==> old(Room()) <= Room())
      ensures r.Ok? ==> PaidFor(old(program.steps), program.steps, call.resources.native, r.value.0.native)
      ensures r.Err? ==> old(system.frames)[..handle] <= system.frames
      ensures r.Err? ==> DiedPaying(old(program.steps), program.steps, call.resources.native)
      ensures r.Err? ==> Explained(r.error, Accounted(old(system.world)), old(Room()), 0)
      ensures r.Err? ==> !r.error.TopLevelInsufficientBalance?
      ensures r.Err? && r.error.UnexpectedModifier? ==> call.modifier.ZKVMSystem? || call.modifier.ZKVMSystemStatic?
      decreases call.resources.native, 2, 0
    {
      var last;
      last, body, ending := RunFrame(call, code);
      if last.Err? {
        return Err(last.error), body, ending;
      }
      YieldedLast(Progress(Setting(), old(callstackHeight), FrameOf(call), old(system.world), old(program.steps), body),
                  ending, last.value, system.world, program.steps);
      var EndExecution(left, reverted, returndata) := last.value;
      if reverted {
        system.RollbackGlobalFrame(handle);
      } else {
        system.FinishGlobalFrame();
      }
      var fits := CopyIntoReturnMemory(|returndata|);
      if !fits {
        return Err(OutOfReturnMemory), body, ending;
      }
      r := Ok((left, if reverted then Failed(returndata) else Successful(returndata)));
    }

    /** A frame from its first opcode to its end, for calls and constructors alike. */
    method RunFrame(call: ExternalCallRequest, code: Code)
      returns (r: Result<Preemption, RunError>, ghost body: Trace, ghost ending: Ending)
      requires callstackHeight <= MAX_GLOBAL_CALLS_STACK_DEPTH
      modifies this, system, program
      ensures r.Ok? ==>
        Yields(Progress(Setting(), old(callstackHeight), FrameOf(call), old(system.world), old(program.steps), body),
               ending, r.value, system.world, program.steps)
      ensures r.Ok? ==> !IsSystemCall(call) && !r.value.IsSpawn()
      ensures Interpreter.StartsAndHalts(call, code, old(NextOp())) ==>
        && r.Ok? && body == Begin && ending == HaltBy(old(NextOp())) && returnMemory == old(returnMemory)
        && (!call.modifier.Constructor? || ValidCode(DataOf(ending)) ==>
              r.value.Pool() == Interpreter.Remainder(call, code, old(NextOp())))
      ensures r.Ok? ==> if call.modifier.Constructor? then r.value.EndDeployment? else r.value.EndExecution?
      ensures r.Ok? && r.value.EndDeployment? && r.value.result.DeploymentSuccessful? ==>
        r.value.result.deployedAt == call.callee
      ensures r.Ok? ==> r.value.Pool().Within(call.resources)
      ensures r.Ok? ==> callstackHeight == old(callstackHeight) && system.frames == old(system.frames)
      ensures old(program.seen).Grows(program.seen) && (r.Ok? ==> old(Room()) + r.value.ReturnSize() <= Room())
      ensures r.Ok? ==> PaidFor(old(program.steps), program.steps, call.resources.native, r.value.Pool().native)
      ensures r.Err? ==> old(system.frames) <= system.frames
      ensures r.Err? ==> DiedPaying(old(program.steps), program.steps, call.resources.native)
      ensures r.Err? ==> Explained(r.error, Accounted(old(system.world)), old(Room()), 0)
      ensures r.Err? ==> !r.error.TopLevelInsufficientBalance?
      ensures r.Err? && r.error.UnexpectedModifier? ==> call.modifier.ZKVMSystem? || call.modifier.ZKVMSystemStatic?
      decreases call.resources.native, 1
    {
      var vm := new Interpreter();
      var p; ghost var g;
      p, g, ending := vm.StartExecutingFrame(system, program, call, code, Setting(), callstackHeight);
      if p.Err? {
        return Err(p.error), Begin, ending;
      }
      TraceConserves(g.rules, g.frame, g.start, g.trace);
      r, g, ending := RunToEnd(vm, p.value, call.resources.native, g, ending);
      body := g.trace;
    }

    /**
     * The loop both kinds of frame share: serve spawn requests until the frame ends. The
     * native left, which every opcode reduces, bounds the number of rounds.
     */
    method RunToEnd(vm: Interpreter, start: Preemption, ghost native: nat, ghost g: Progress, ghost ending: Ending)
      returns (r: Result<Preemption, RunError>, ghost g': Progress, ghost ending': Ending)
      requires callstackHeight <= MAX_GLOBAL_CALLS_STACK_DEPTH
      requires vm.PreemptionFits(start) && (start.SpawnCall? ==> |start.call.calldata| <= program.seen.longest)
      requires start.Pool().native + STEP_NATIVE_COST <= native
      requires Follows(g, vm) && Yields(g, ending, start, system.world, program.steps)
      modifies this, system, program, vm`resources
      ensures r.Ok? ==> g.Continues(g') && Yields(g', ending', r.value, system.world, program.steps)
      ensures !start.IsSpawn() ==> g' == g && ending' == ending && returnMemory == old(returnMemory)
      ensures r.Ok? ==> !r.value.IsSpawn() && vm.PreemptionFits(r.value) && r.value.Pool().Within(start.Pool())
      ensures r.Ok? ==> callstackHeight == old(callstackHeight) && system.frames == old(system.frames)
      ensures old(program.seen).Grows(program.seen)
      ensures r.Ok? ==> old(Room()) + r.value.ReturnSize() <= Room() + start.ReturnSize()
      ensures !start.IsSpawn() ==> r == Ok(start) && system.world == old(system.world)
      ensures r.Ok? ==> PaidFor(old(program.steps), program.steps, start.Pool().native, r.value.Pool().native)
      ensures r.Err? ==> old(system.frames) <= system.frames
      ensures r.Err? ==> DiedPaying(old(program.steps), program.steps, start.Pool().native)
      ensures r.Err? ==> Explained(r.error, Accounted(old(system.world)), old(Room()), 0)
      ensures r.Err? ==> !r.error.TopLevelInsufficientBalance? && !r.error.UnexpectedModifier?
      decreases native, 0
    {
      var p := start;
      g', ending' := g, ending;
      TraceConserves(g.rules, g.frame, g.start, g.trace);
      while p.IsSpawn()
        invariant g.Continues(g') && Yields(g', ending', p, system.world, program.steps)
        invariant !start.IsSpawn() ==> g' == g && ending' == ending && returnMemory == old(returnMemory)
        invariant callstackHeight == old(callstackHeight) && system.frames == old(system.frames)
        invariant vm.PreemptionFits(p) && p.Pool().Within(start.Pool())
        invariant p.Pool().native < native
        invariant !start.IsSpawn() ==> p == start && system.world == old(system.world)
        invariant old(program.seen).Grows(program.seen) && (p.SpawnCall? ==> |p.call.calldata| <= program.seen.longest)
        invariant old(Room()) + p.ReturnSize() <= Room() + start.ReturnSize()
        invariant PaidFor(old(program.steps), program.steps, start.Pool().native, p.Pool().native)
        decreases p.IsSpawn(), p.Pool().native
      {
        TraceConserves(g'.rules, g'.frame, g'.start, g'.trace);
        var next;
        next, g', ending' := HandleSpawn(vm, p, native, g', ending');
        if next.Err? {
          return Err(next.error), g', ending';
        }
        p := next.value;
      }
      r := Ok(p);
    }

    /** The progress is that of the frame of `vm` at the present height. */
    ghost predicate Follows(g: Progress, vm: Interpreter)
      reads this, vm
    {
      g.rules == Setting() && g.height == callstackHeight && g.frame == vm.Context()
    }

    /** Serves one request of `vm` one level deeper and resumes it with what comes back. */
    method HandleSpawn(vm: Interpreter, p: Preemption, ghost native: nat, ghost g: Progress, ghost last: Ending)
      returns (r: Result<Preemption, RunError>, ghost g': Progress, ghost ending: Ending)
      requires callstackHeight <= MAX_GLOBAL_CALLS_STACK_DEPTH
      requires p.IsSpawn() && vm.PreemptionFits(p) && (p.SpawnCall? ==> |p.call.calldata| <= program.seen.longest)
      requires p.Pool().native < native
      requires Follows(g, vm) && Yields(g, last, p, system.world, program.steps)
      modifies this, system, program, vm`resources
      ensures r.Ok? ==> g.Continues(g') && Yields(g', ending, r.value, system.world, program.steps)
      ensures r.Ok? ==> vm.PreemptionFits(r.value) && r.value.Pool().Within(p.Pool())
      ensures r.Ok? && r.value.IsSpawn() ==> r.value.Pool().native < p.Pool().native
      ensures r.Ok? ==> callstackHeight == old(callstackHeight) && system.frames == old(system.frames)
      ensures old(program.seen).Grows(program.seen)
      ensures r.Ok? ==> old(Room()) + r.value.ReturnSize() <= Room()
      ensures r.Ok? && r.value.SpawnCall? ==> |r.value.call.calldata| <= program.seen.longest
      ensures r.Ok? ==> PaidFor(old(program.steps), program.steps, p.Pool().native, r.value.Pool().native)
      ensures r.Err? ==> old(system.frames) <= system.frames
      ensures r.Err? ==> DiedPaying(old(program.steps), program.steps, p.Pool().native)
      ensures r.Err? ==> Explained(r.error, Accounted(old(system.world)), old(Room()), 0)
      ensures r.Err? ==> !r.error.TopLevelInsufficientBalance? && !r.error.UnexpectedModifier?
      decreases p.Pool().native, 6
    {
      if p.SpawnCall? {
        var done, served := ServeCall(p.call, g, last);
        if done.Err? {
          return Err(done.error), g, last;
        }
        r, g', ending := vm.ContinueAfterExternalCall(system, program, done.value.0, done.value.1, served);
      } else {
        var done, served := ServeDeployment(p.deployment, g, last);
        if done.Err? {
          return Err(done.error), g, last;
        }
        r, g', ending := vm.ContinueAfterDeployment(system, program, done.value.0, served);
      }
    }

    method ServeCall(call: ExternalCallRequest, ghost g: Progress, ghost last: Ending)
      returns (r: Result<(Resources, CallResult), RunError>, ghost g': Progress)
      requires callstackHeight <= MAX_GLOBAL_CALLS_STACK_DEPTH
      requires !call.modifier.Constructor? && !IsSystemCall(call) && |call.calldata| <= program.seen.longest
      requires g.rules == Setting() && g.height == callstackHeight
      requires Yields(g, last, SpawnCall(call), system.world, program.steps)
      modifies this, system, program
      ensures r.Ok? ==>
        && g.Continues(g') && g'.Valid() && g'.Now() == system.world && g'.Steps() == program.steps
        && (Stuck(g'.trace) <==> r.value.1.CallFailedToExecute?)
      ensures r.Ok? ==> r.value.0.Within(call.resources) && Accounted(system.world) == Accounted(old(system.world))
      ensures r.Ok? ==> callstackHeight == old(callstackHeight) && system.frames == old(system.frames)
      ensures old(program.seen).Grows(program.seen) && (r.Ok? ==> old(Room()) <= Room())
      ensures r.Ok? ==> PaidFor(old(program.steps), program.steps, call.resources.native, r.value.0.native)
      ensures r.Err? ==> old(system.frames) <= system.frames
      ensures r.Err? ==> DiedPaying(old(program.steps), program.steps, call.resources.native)
      ensures r.Err? ==> Explained(r.error, Accounted(old(system.world)), old(Room()), 0)
      ensures r.Err? ==> !r.error.TopLevelInsufficientBalance? && !r.error.UnexpectedModifier?
      decreases call.resources.native, 5
    {
      ghost var w, steps := system.world, program.steps;
      g' := g;
      callstackHeight := callstackHeight + 1;
      ghost var course;
      r, course := HandleRequestedExternalCall(false, EVM, call);
      if r.Ok? {
        ServedCall(Setting(), callstackHeight, g, last, call, w, steps, course, system.world, r.value.1, program.steps);
        g' := g.Calling(course);
        callstackHeight := callstackHeight - 1;
      }
    }

    method ServeDeployment(d: DeploymentRequest, ghost g: Progress, ghost last: Ending)
      returns (r: Result<(Resources, DeploymentResult), RunError>, ghost g': Progress)
      requires callstackHeight <= MAX_GLOBAL_CALLS_STACK_DEPTH
      requires g.rules == Setting() && g.height == callstackHeight
      requires Yields(g, last, SpawnDeployment(d), system.world, program.steps)
      modifies this, system, program
      ensures r.Ok? ==>
        && g.Continues(g') && g'.Valid() && g'.Now() == system.world && g'.Steps() == program.steps
        && !Stuck(g'.trace)
      ensures r.Ok? ==> r.value.0.Within(d.resources) && Accounted(system.world) == Accounted(old(system.world))
      ensures r.Ok? ==> callstackHeight == old(callstackHeight) && system.frames == old(system.frames)
      ensures old(program.seen).Grows(program.seen) && (r.Ok? ==> old(Room()) <= Room())
      ensures r.Ok? ==> PaidFor(old(program.steps), program.steps, d.resources.native, r.value.0.native)
      ensures r.Err? ==> old(system.frames) <= system.frames
      ensures r.Err? ==> DiedPaying(old(program.steps), program.steps, d.resources.native)
      ensures r.Err? ==> Explained(r.error, Accounted(old(system.world)), old(Room()), 0)
      ensures r.Err? ==> !r.error.TopLevelInsufficientBalance? && !r.error.UnexpectedModifier?
      decreases d.resources.native, 5
    {
      ghost var w, steps := system.world, program.steps;
      g' := g;
      callstackHeight := callstackHeight + 1;
      ghost var creation;
      r, creation := HandleRequestedDeployment(false, EVM, d);
      if r.Ok? {
        ServedDeployment(Setting(), callstackHeight, g, last, d, w, steps, creation, system.world, r.value.1,
                         program.steps);
        g' := g.Deploying(creation);
        callstackHeight := callstackHeight - 1;
      }
    }

    // ----- calls into the kernel space

    method CallToSpecialAddress(call: ExternalCallRequest, handle: nat)
      returns (r: Result<(Resources, CallResult), RunError>)
      requires call.callee < SPECIAL_ADDRESS_BOUND && !call.modifier.Constructor?
      requires handle + 1 == |system.frames|
      requires TransferTarget(call) == Some(call.callee) ==> call.value <= system.world.Balance(call.callee)
      modifies `returnMemory, `hookBytes, system
      ensures r.Ok? ==> r.value.0.Within(call.resources) && !r.value.1.CallFailedToExecute?
      ensures r.Ok? ==>
        Answers(Setting(), old(system.world), Bare(call), !r.value.1.Successful?, r.value.1.returndata)
      ensures r.Ok? && r.value.1.Successful? ==> system.world == HookEffect(Setting(), old(system.world), Bare(call))
      ensures
        var course := ExpectedAnswer(Setting(), old(system.world), Bare(call));
        course.Some? && |course.value.returndata| <= old(returnMemory) && Ample(call.resources, 4) ==>
          r.Ok? && r.value.1 == Successful(course.value.returndata)
      ensures call.callee !in hooked ==> r == Ok((call.resources, Successful([])))
      ensures r.Ok? ==> system.frames == old(system.frames)[..handle]
      ensures r.Ok? && !r.value.1.Successful? ==> system.world == old(system.frames[handle])
      ensures r.Ok? ==> old(Room()) <= Room()
      ensures r.Err? ==> old(system.frames) <= system.frames
      ensures r.Err? ==> r.error.OutOfNative? || r.error.OversizedCalldata? || r.error.OutOfReturnMemory?
      ensures r.Err? ==> Explained(r.error, 0, old(Room()), |call.calldata|)
    {
      if call.callee !in hooked {
        system.FinishGlobalFrame();
        return Ok((call.resources, Successful([])));
      }
      var done := InvokeHook(call);
      if done.Err? {
        return Err(done.error);
      }
      var HookResult(left, reverted, returndata) := done.value;
      hookBytes := hookBytes + |returndata|;
      var fits := CopyIntoReturnMemory(|returndata|);
      if !fits {
        return Err(OutOfReturnMemory);
      }
      if reverted {
        system.RollbackGlobalFrame(handle);
      } else {
        system.FinishGlobalFrame();
      }
      r := Ok((left, if reverted then Failed(returndata) else Successful(returndata)));
    }

    method InvokeHook(call: ExternalCallRequest) returns (done: Result<HookResult, RunError>)
      requires !call.modifier.Constructor?
      requires TransferTarget(call) == Some(call.callee) ==> call.value <= system.world.Balance(call.callee)
      modifies system`services, system`world
      ensures Bounded(call, done)
      ensures done.Ok? && call.callee in hooked ==>
        && Answers(Setting(), old(system.world), Bare(call), done.value.reverted, done.value.returndata)
        && (!done.value.reverted ==> system.world == HookEffect(Setting(), old(system.world), Bare(call)))
      ensures ExpectedAnswer(Setting(), old(system.world), Bare(call)).Some? && call.callee in hooked
              && Ample(call.resources, 4) ==>
        done.Ok? && !done.value.reverted
      ensures done.Ok? && IsPrecompile(call.callee) ==>
        var answer := old(system.precompiles(system.services));
        && (done.value.reverted <==> !answer.accepted || call.resources.ergs < answer.cost.ergs)
        && done.value.returndata == if done.value.reverted then [] else answer.output
    {
      BareHooks(system.world, call);
      if call.callee == L1_MESSENGER_ADDRESS {
        done := CallMessenger(system, call);
      } else if call.callee == L2_BASE_TOKEN_ADDRESS {
        done := CallBaseToken(system, call);
      } else if call.callee == CONTRACT_DEPLOYER_ADDRESS {
        done := CallContractDeployer(system, call);
      } else {
        done := CallPrecompile(system, call);
      }
    }

    // ----- deployments

    /** The state a deployment leaves when it fails: at most the deployer's nonce has moved, by one. */
    static ghost predicate OnlyNonceMoved(before: World, after: World, d: DeploymentRequest)
    {
      after == before || (d.deployerNonce.None? && before.Nonce(d.deployer) < U64_MAX
                          && after == IncrementNonce(before, d.deployer))
    }

    /** The address a deployment leads to. */
    ghost function AddressFor(d: DeploymentRequest, w: World): Address
    {
      system.derive(d.OriginAt(w.Nonce(d.deployer)))
    }

    method HandleRequestedDeployment(isEntry: bool, ee: ExecutionEnvironment, d: DeploymentRequest)
      returns (r: Result<(Resources, DeploymentResult), RunError>, ghost creation: Creation)
      requires callstackHeight <= MAX_GLOBAL_CALLS_STACK_DEPTH + 1
      modifies this, system, program
      ensures r.Ok? ==>
        CreationDone(Setting(), old(callstackHeight), old(system.world), old(program.steps), BareDeployment(d),
                     creation, system.world, r.value.1, program.steps)
      ensures r.Ok? && r.value.1.DeploymentSuccessful? ==> system.world.Nonce(r.value.1.deployedAt) >= 1
      ensures
        var foretold := ExpectedCreation(Setting(), old(callstackHeight), old(system.world), BareDeployment(d),
                                         old(NextOp()));
        && foretold.Some? && Plenty(d.resources, 8, Code(d.initCode, false), old(NextOp()))
        && d.resources.ergs >= 2 * (4 * MAX_IO + old(NextOp()).ErgsCost())
        && |BroughtBy(foretold.value)| <= old(returnMemory) ==>
          && r.Ok? && creation == foretold.value
          && (creation.Constructed? && ValidCode(BroughtBy(creation)) ==>
                RestIsBack(r.value.0, d.resources, 8, Code(d.initCode, false), old(NextOp())))
      ensures r.Ok? ==> r.value.0.Within(d.resources)
      ensures r.Ok? ==> callstackHeight == old(callstackHeight) && system.frames == old(system.frames)
      ensures r.Ok? && r.value.1.DeploymentFailed? ==> OnlyNonceMoved(old(system.world), system.world, d)
      ensures r.Ok? && r.value.1.DeploymentSuccessful? ==>
        && r.value.1.deployedAt == AddressFor(d, old(system.world))
        && system.world.CodeAt(r.value.1.deployedAt) == Code(r.value.1.code, true)
      ensures r.Ok? ==> Accounted(system.world) == Accounted(old(system.world))
      ensures r.Ok? && Genuine(old(system.world).messages)
              && !CreationImpersonates(Setting(), old(system.world), BareDeployment(d), creation) ==>
        Genuine(system.world.messages)
      ensures old(program.seen).Grows(program.seen) && (r.Ok? ==> old(Room()) <= Room())
      ensures r.Ok? ==> PaidFor(old(program.steps), program.steps, d.resources.native, r.value.0.native)
      ensures r.Err? ==> old(system.frames) <= system.frames
      ensures r.Err? ==> DiedPaying(old(program.steps), program.steps, d.resources.native)
      ensures r.Err? ==> Explained(r.error, Accounted(old(system.world)), old(Room()), 0)
      ensures r.Err? ==> !r.error.TopLevelInsufficientBalance? && !r.error.UnexpectedModifier?
      decreases d.resources.native, 4, 1
    {
      BareDeploymentIsSame(Setting(), system.world, d);
      r, creation := PrepareAndDeploy(isEntry, d);
      if r.Ok? {
        CreationKeeps(Setting(), callstackHeight, old(system.world), old(program.steps), BareDeployment(d), creation,
                      system.world, r.value.1, program.steps);
      }
    }

    method PrepareAndDeploy(isEntry: bool, d: DeploymentRequest)
      returns (r: Result<(Resources, DeploymentResult), RunError>, ghost creation: Creation)
      requires callstackHeight <= MAX_GLOBAL_CALLS_STACK_DEPTH + 1
      modifies this, system, program
      ensures r.Ok? ==>
        CreationDone(Setting(), old(callstackHeight), old(system.world), old(program.steps), BareDeployment(d),
                     creation, system.world, r.value.1, program.steps)
      ensures
        var foretold := ExpectedCreation(Setting(), old(callstackHeight), old(system.world), BareDeployment(d),
                                         old(NextOp()));
        && foretold.Some? && Plenty(d.resources, 8, Code(d.initCode, false), old(NextOp()))
        && d.resources.ergs >= 2 * (4 * MAX_IO + old(NextOp()).ErgsCost())
        && |BroughtBy(foretold.value)| <= old(returnMemory) ==>
          && r.Ok? && creation == foretold.value
          && (creation.Constructed? && ValidCode(BroughtBy(creation)) ==>
                RestIsBack(r.value.0, d.resources, 8, Code(d.initCode, false), old(NextOp())))
      ensures r.Ok? ==> r.value.0.Within(d.resources)
      ensures r.Ok? ==> callstackHeight == old(callstackHeight) && system.frames == old(system.frames)
      ensures old(program.seen).Grows(program.seen) && (r.Ok? ==> old(Room()) <= Room())
      ensures r.Ok? ==> PaidFor(old(program.steps), program.steps, d.resources.native, r.value.0.native)
      ensures r.Err? ==> old(system.frames) <= system.frames
      ensures r.Err? ==> DiedPaying(old(program.steps), program.steps, d.resources.native)
      ensures r.Err? ==> Explained(r.error, Accounted(old(system.world)), old(Room()), 0)
      ensures r.Err? ==> !r.error.TopLevelInsufficientBalance? && !r.error.UnexpectedModifier?
      decreases d.resources.native, 4, 0
    {
      ghost var before := system.world;
      creation := Refused;
      BareDeploymentIsSame(Setting(), before, d);
      var prepared := PrepareForDeployment(d);
      if prepared.Err? {
        return Err(prepared.error), creation;
      }
      var (forDeployer, launch) := prepared.value;
      if launch.None? {
        return Ok((forDeployer, DeploymentFailed([], false))), creation;
      }
      var call := launch.value;
      if isEntry {
        call := call.(resources := call.resources.Reclaim(forDeployer));
        forDeployer := EMPTY;
      }
      var done;
      done, creation := LaunchDeployment(d, call, before);
      if done.Err? {
        return Err(done.error), creation;
      }
      r := Ok((done.value.0.Reclaim(forDeployer), done.value.1));
    }

    /** Nothing but the depth is in the way of the constructor any more. */
    method LaunchDeployment(d: DeploymentRequest, call: ExternalCallRequest, ghost before: World)
      returns (r: Result<(Resources, DeploymentResult), RunError>, ghost creation: Creation)
      requires callstackHeight <= MAX_GLOBAL_CALLS_STACK_DEPTH + 1
      requires IsFree(Setting(), before, d) && system.world == Numbered(before, d)
      requires call.modifier.Constructor? && call.caller == d.deployer && call.value == d.value
      requires call.callee == AddressFor(d, before) && FrameOf(call) == ConstructorFrame(Setting(), before, d)
      modifies this, system, program
      ensures r.Ok? ==>
        CreationDone(Setting(), old(callstackHeight), before, old(program.steps), BareDeployment(d), creation,
                     system.world, r.value.1, program.steps)
      ensures
        var foretold := ExpectedCreation(Setting(), old(callstackHeight), before, BareDeployment(d), old(NextOp()));
        && foretold.Some? && Plenty(call.resources, 4, Code(d.initCode, false), old(NextOp()))
        && |BroughtBy(foretold.value)| <= old(returnMemory) ==>
          && r.Ok? && creation == foretold.value
          && (ValidCode(BroughtBy(creation)) ==>
                RestIsBack(r.value.0, call.resources, 4, Code(d.initCode, false), old(NextOp())))
      ensures r.Ok? ==> r.value.0.Within(call.resources)
      ensures r.Ok? ==> callstackHeight == old(callstackHeight) && system.frames == old(system.frames)
      ensures old(program.seen).Grows(program.seen) && (r.Ok? ==> old(Room()) <= Room())
      ensures r.Ok? ==> PaidFor(old(program.steps), program.steps, call.resources.native, r.value.0.native)
      ensures r.Err? ==> old(system.frames) <= system.frames
      ensures r.Err? ==> DiedPaying(old(program.steps), program.steps, call.resources.native)
      ensures r.Err? ==> Explained(r.error, Accounted(old(system.world)), old(Room()), 0)
      ensures r.Err? ==> !r.error.TopLevelInsufficientBalance? && !r.error.UnexpectedModifier?
      decreases call.resources.native, 3, 1
    {
      ghost var at := program.steps;
      creation := Refused;
      BareDeploymentIsSame(Setting(), before, d);
      if callstackHeight > MAX_GLOBAL_CALLS_STACK_DEPTH {
        return Ok((call.resources, DeploymentFailed([], false))), creation;
      }
      ghost var body, ending, stored;
      r, body, ending, stored := RunDeploymentFrame(call, d.initCode);
      creation := Constructed(body, ending, stored);
      if r.Ok? {
        ConstructedDone(Setting(), callstackHeight, before, at, BareDeployment(d), body, ending, stored, system.world,
                        r.value.1, program.steps);
      }
    }

    /** A frame of its own around the new account and its constructor. */
    method RunDeploymentFrame(call: ExternalCallRequest, initCode: seq<byte>)
      returns (r: Result<(Resources, DeploymentResult), RunError>, ghost body: Trace, ghost ending: Ending,
               ghost stored: bool)
      requires callstackHeight <= MAX_GLOBAL_CALLS_STACK_DEPTH
      requires call.modifier.Constructor?
      requires call.value <= system.world.Balance(call.caller) && system.world.Nonce(call.callee) == 0
      modifies this, system, program
      ensures r.Ok? ==>
        && CanEndow(old(system.world), call.caller, call.callee, call.value)
        && Built(Setting(), old(callstackHeight), FrameOf(call),
                 Endowed(old(system.world), call.caller, call.callee, call.value), old(program.steps), body, ending,
                 stored, system.world, r.value.1, program.steps)
      ensures old(NextOp()).Halts() && |DataOf(HaltBy(old(NextOp())))| <= old(returnMemory)
              && CanEndow(old(system.world), call.caller, call.callee, call.value)
              && Plenty(call.resources, 4, Code(initCode, false), old(NextOp())) ==>
        && r.Ok? && body == Begin && ending == HaltBy(old(NextOp())) && stored
        && (ValidCode(DataOf(ending)) ==>
              RestIsBack(r.value.0, call.resources, 4, Code(initCode, false), old(NextOp())))
      ensures r.Ok? ==> r.value.0.Within(call.resources)
      ensures r.Ok? ==> callstackHeight == old(callstackHeight) && system.frames == old(system.frames)
      ensures r.Ok? && r.value.1.DeploymentFailed? ==> system.world == old(system.world)
      ensures old(program.seen).Grows(program.seen) && (r.Ok? ==> old(Room()) <= Room())
      ensures r.Ok? ==> PaidFor(old(program.steps), program.steps, call.resources.native, r.value.0.native)
      ensures r.Err? ==> old(system.frames) <= system.frames
      ensures r.Err? ==> DiedPaying(old(program.steps), program.steps, call.resources.native)
      ensures r.Err? ==> Explained(r.error, Accounted(old(system.world)), old(Room()), 0)
      ensures r.Err? ==> !r.error.TopLevelInsufficientBalance? && !r.error.UnexpectedModifier?
      decreases call.resources.native, 3, 0
    {
      var handle := system.StartGlobalFrame();
      r, body, ending, stored := BuildAccount(call, initCode);
      if r.Ok? {
        if r.value.1.DeploymentSuccessful? {
          system.FinishGlobalFrame();
        } else {
          system.RollbackGlobalFrame(handle);
        }
      }
    }

    /** The new account and its constructor. */
    method BuildAccount(call: ExternalCallRequest, initCode: seq<byte>)
      returns (r: Result<(Resources, DeploymentResult), RunError>, ghost body: Trace, ghost ending: Ending,
               ghost stored: bool)
      requires callstackHeight <= MAX_GLOBAL_CALLS_STACK_DEPTH && call.modifier.Constructor?
      requires call.value <= system.world.Balance(call.caller) && system.world.Nonce(call.callee) == 0
      modifies this, system, program
      ensures r.Ok? ==>
        && CanEndow(old(system.world), call.caller, call.callee, call.value)
        && Built(Setting(), old(callstackHeight), FrameOf(call),
                 Endowed(old(system.world), call.caller, call.callee, call.value), old(program.steps), body, ending,
                 stored, system.world, r.value.1, program.steps)
      ensures old(NextOp()).Halts() && |DataOf(HaltBy(old(NextOp())))| <= old(returnMemory)
              && CanEndow(old(system.world), call.caller, call.callee, call.value)
              && Plenty(call.resources, 4, Code(initCode, false), old(NextOp())) ==>
        && r.Ok? && body == Begin && ending == HaltBy(old(NextOp())) && stored
        && (ValidCode(DataOf(ending)) ==>
              RestIsBack(r.value.0, call.resources, 4, Code(initCode, false), old(NextOp())))
      ensures r.Ok? ==> r.value.0.Within(call.resources)
      ensures r.Ok? ==> callstackHeight == old(callstackHeight) && system.frames == old(system.frames)
      ensures old(program.seen).Grows(program.seen) && (r.Ok? ==> old(Room()) <= Room())
      ensures r.Ok? ==> PaidFor(old(program.steps), program.steps, call.resources.native, r.value.0.native)
      ensures r.Err? ==> old(system.frames) <= system.frames
      ensures r.Err? ==> DiedPaying(old(program.steps), program.steps, call.resources.native)
      ensures r.Err? ==> Explained(r.error, Accounted(old(system.world)), old(Room()), 0)
      ensures r.Err? ==> !r.error.TopLevelInsufficientBalance? && !r.error.UnexpectedModifier?
      decreases call.resources.native, 2, 1
    {
      body, ending, stored := Begin, CalleeNotStarted, true;
      var funded := OpenAccount(call);
      if funded.Err? {
        return Err(funded.error), body, ending, stored;
      }
      r, body, ending, stored := ExecuteConstructorFrame(call.(resources := funded.value), initCode);
    }

    /** Gives the new account nonce 1 and the value of the deployment, with unlimited ergs. */
    method OpenAccount(call: ExternalCallRequest) returns (r: Result<Resources, RunError>)
      requires call.value <= system.world.Balance(call.caller) && system.world.Nonce(call.callee) == 0
      modifies system`services, system`world
      ensures r.Ok? ==> r.value.ergs == call.resources.ergs && r.value.native <= call.resources.native
      ensures r.Ok? ==>
        && CanEndow(old(system.world), call.caller, call.callee, call.value)
        && system.world == Endowed(old(system.world), call.caller, call.callee, call.value)
        && Accounted(system.world) == Accounted(old(system.world))
        && system.world.messages == old(system.world).messages
      ensures r.Err? ==> r.error.OutOfNative? || (r.error.Internal? && Accounted(old(system.world)) > U256_MAX)
      ensures CanEndow(old(system.world), call.caller, call.callee, call.value)
              && call.resources.native >= 3 * MAX_IO ==>
        r.Ok? && r.value.native >= call.resources.native - 3 * MAX_IO
    {
      var inf, e := system.IncrementNonceOf(call.resources.(ergs := U64_MAX), call.callee);
      if e.Some? {
        return Err(if e.value.OutOfNative? then RunError.OutOfNative else Internal);
      }
      if call.value != 0 {
        ghost var before := system.world;
        inf, e := system.TransferValue(inf.(ergs := U64_MAX), call.caller, call.callee, call.value);
        if e.Some? {
          return Err(if e.value.OutOfNative? then RunError.OutOfNative else Internal);
        }
        TransferConserves(before, call.caller, call.callee, call.value);
      }
      r := Ok(inf.(ergs := call.resources.ergs));
    }

    /** Checks the deployer's balance and takes its nonce, unless one was given. */
    method TakeNonce(d: DeploymentRequest) returns (r: Result<(Resources, Option<u64>), RunError>)
      modifies system`services, system`world
      ensures r.Err? ==> r.error.OutOfNative? && system.world == old(system.world)
      ensures r.Ok? ==>
        && r.value.0.ergs == d.resources.ergs && r.value.0.native <= d.resources.native
        && system.world == Numbered(old(system.world), d)
        && r.value.1 == (if HasFunds(old(system.world), d)
                            && (d.deployerNonce.None? ==> old(system.world).Nonce(d.deployer) < U64_MAX)
                         then Some(d.deployerNonce.GetOr(old(system.world).Nonce(d.deployer))) else None)
      ensures d.resources.native >= 2 * MAX_IO ==>
        r.Ok? && (r.value.1.Some? ==> r.value.0.native >= d.resources.native - 2 * MAX_IO)
    {
      var inf, e := system.ChargeService(d.resources.(ergs := U64_MAX));
      if e.Some? {
        return Err(RunError.OutOfNative);
      }
      if d.value != 0 && system.world.Balance(d.deployer) < d.value {
        return Ok((inf.(ergs := d.resources.ergs), None));
      }
      var nonce := d.deployerNonce.GetOr(system.world.Nonce(d.deployer));
      if d.deployerNonce.None? {
        var inf', e' := system.IncrementNonceOf(inf.(ergs := U64_MAX), d.deployer);
        inf := inf';
        if e' == Some(NonceOverflow) {
          return Ok((inf.(ergs := d.resources.ergs), None));
        }
        if e'.Some? {
          return Err(RunError.OutOfNative);
        }
      }
      r := Ok((inf.(ergs := d.resources.ergs), Some(nonce)));
    }

    /**
     * Checks that the deployment can be paid for and numbered, and that the address is free. The
     * constructor gets 63/64 of the gas; on a collision that share is lost.
     */
    method PrepareForDeployment(d: DeploymentRequest)
      returns (r: Result<(Resources, Option<ExternalCallRequest>), RunError>)
      modifies system`services, system`world
      ensures r.Err? ==> r.error.OutOfNative?
      ensures OnlyNonceMoved(old(system.world), system.world, d)
      ensures Undisturbed(old(system.world), system.world)
      ensures r.Ok? ==> system.world == Numbered(old(system.world), d)
      ensures r.Ok? ==> (r.value.1.Some? <==> IsFree(Setting(), old(system.world), d))
      ensures d.resources.native >= 4 * MAX_IO ==>
        && r.Ok?
        && (r.value.1.Some? ==>
              && r.value.1.value.resources.ergs == Apply63Of64(d.resources.ergs)
              && r.value.0.ergs + r.value.1.value.resources.ergs == d.resources.ergs
              && r.value.1.value.resources.native >= d.resources.native - 4 * MAX_IO)
      ensures r.Ok? ==> r.value.0.Within(d.resources)
      ensures r.Ok? && r.value.1.Some? ==>
        var call := r.value.1.value;
        && r.value.0.native == 0 && call.resources.native <= d.resources.native
        && r.value.0.ergs + call.resources.ergs <= d.resources.ergs
        && call.caller == d.deployer && call.callee == AddressFor(d, old(system.world)) && call.value == d.value
        && call.modifier.Constructor? && FrameOf(call) == ConstructorFrame(Setting(), old(system.world), d)
        && d.value <= system.world.Balance(d.deployer)
        && system.world.Nonce(call.callee) == 0 && system.world.CodeAt(call.callee).bytes == []
    {
      var taken := TakeNonce(d);
      if taken.Err? {
        return Err(taken.error);
      }
      var (res, nonce) := taken.value;
      if nonce.None? {
        return Ok((res, None));
      }
      var inf, e;
      if d.scheme.Create2? {
        // hashing the initialisation code
        inf, e := system.ChargeService(res.(ergs := U64_MAX));
        res := inf.(ergs := res.ergs);
        if e.Some? {
          return Err(RunError.OutOfNative);
        }
      }
      var deployedAt := system.derive(d.OriginAt(nonce.value));
      var forConstructor := Apply63Of64(res.ergs);
      var remaining := res.ChargeUnchecked(Resources(forConstructor, 0));
      inf, e := system.ChargeService(remaining.(ergs := U64_MAX));
      remaining := inf.(ergs := remaining.ergs);
      if e.Some? {
        return Err(RunError.OutOfNative);
      }
      if system.world.CodeAt(deployedAt).bytes != [] || system.world.Nonce(deployedAt) != 0 {
        return Ok((remaining, None));
      }
      var call := ExternalCallRequest(Resources(forConstructor, remaining.native), 0, d.deployer, deployedAt, 0,
                                      Constructor, [], d.value);
      r := Ok((remaining.(native := 0), Some(call)));
    }

    /** Runs the constructor and stores the code it returns. */
    method ExecuteConstructorFrame(call: ExternalCallRequest, initCode: seq<byte>)
      returns (r: Result<(Resources, DeploymentResult), RunError>, ghost body: Trace, ghost ending: Ending,
               ghost stored: bool)
      requires callstackHeight <= MAX_GLOBAL_CALLS_STACK_DEPTH
      requires call.modifier.Constructor?
      modifies this, system, program
      ensures r.Ok? ==>
        Built(Setting(), old(callstackHeight), FrameOf(call), old(system.world), old(program.steps), body, ending,
              stored, system.world, r.value.1, program.steps)
      ensures old(NextOp()).Halts() && |DataOf(HaltBy(old(NextOp())))| <= old(returnMemory)
              && Plenty(call.resources, 1, Code(initCode, false), old(NextOp())) ==>
        && r.Ok? && body == Begin && ending == HaltBy(old(NextOp())) && stored
        && (ValidCode(DataOf(ending)) ==>
              RestIsBack(r.value.0, call.resources, 1, Code(initCode, false), old(NextOp())))
      ensures r.Ok? ==> r.value.0.Within(call.resources)
      ensures r.Ok? ==> callstackHeight == old(callstackHeight) && system.frames == old(system.frames)
      ensures old(program.seen).Grows(program.seen) && (r.Ok? ==> old(Room()) <= Room())
      ensures r.Ok? ==> PaidFor(old(program.steps), program.steps, call.resources.native, r.value.0.native)
      ensures r.Err? ==> old(system.frames) <= system.frames
      ensures r.Err? ==> DiedPaying(old(program.steps), program.steps, call.resources.native)
      ensures r.Err? ==> Explained(r.error, Accounted(old(system.world)), old(Room()), 0)
      ensures r.Err? ==> !r.error.TopLevelInsufficientBalance? && !r.error.UnexpectedModifier?
      decreases call.resources.native, 2, 0
    {
      var last;
      last, body, ending := RunFrame(call, Code(initCode, false));
      stored := true;
      if last.Err? {
        return Err(last.error), body, ending, stored;
      }
      ghost var g :=
        Progress(Setting(), old(callstackHeight), FrameOf(call), old(system.world), old(program.steps), body);
      ghost var w := system.world;
      var EndDeployment(left, result) := last.value;
      r, stored := StoreCode(left, result);
      if r.Err? {
        return;
      }
      BuiltFrom(g, ending, last.value, w, program.steps, stored, system.world, r.value.1);
    }

    /** Code that was returned is stored, for a price; whatever else a failed constructor returned is kept. */
    method StoreCode(left: Resources, result: DeploymentResult)
      returns (r: Result<(Resources, DeploymentResult), RunError>, ghost stored: bool)
      modifies `returnMemory, system`services, system`world
      ensures r.Ok? ==> r.value.0.Within(left)
      ensures r.Ok? ==> r.value.1 == if stored then result else DeploymentFailed([], false)
      ensures r.Ok? && r.value.1.DeploymentSuccessful? ==>
        system.world == WithCode(old(system.world), result.deployedAt, result.code)
      ensures r.Ok? && (result.DeploymentFailed? || stored) ==>
        r.value.0.ergs + MAX_IO >= left.ergs && r.value.0.native + MAX_IO >= left.native
      ensures result.DeploymentFailed? ==>
        && stored && (r.Ok? <==> |result.returndata| <= old(returnMemory))
        && (r.Ok? ==> returnMemory == old(returnMemory) - |result.returndata|)
      ensures result.DeploymentSuccessful? ==> returnMemory == old(returnMemory) && (Ample(left, 1) ==> r.Ok? && stored)
      ensures r.Err? ==> r.error == if result.DeploymentFailed? then OutOfReturnMemory else RunError.OutOfNative
    {
      stored := true;
      match result
      case DeploymentSuccessful(code, deployedAt) =>
        var left', e := system.DeployCode(left, deployedAt, code);
        match e {
          case None => r := Ok((left', result));
          case Some(OutOfErgs) => r, stored := Ok((left', DeploymentFailed([], false))), false;
          case Some(OutOfNative) => r := Err(RunError.OutOfNative);
        }
      case DeploymentFailed(returndata, _) =>
        var fits := CopyIntoReturnMemory(|returndata|);
        r := if fits then Ok((left, result)) else Err(OutOfReturnMemory);
    }

    // ----- whole runs

    /** Entry point of a transaction's payload; the caller owns the outermost frame. */
    method RunTillCompletion(ee: ExecutionEnvironment, request: SpawnRequest)
      returns (r: Result<(Resources, EndPoint), RunError>, ghost tree: Tree)
      requires callstackHeight == 0 && (request.RequestedExternalCall? ==> !request.call.modifier.Constructor?)
      modifies this, system, program
      ensures program.steps - old(program.steps) <= request.Resources().native / STEP_NATIVE_COST + 1
      ensures r.Ok? ==>
        program.steps - old(program.steps) <= (request.Resources().native - r.value.0.native) / STEP_NATIVE_COST
      ensures r.Ok? ==> r.value.0.Within(request.Resources())
      ensures r.Ok? ==> callstackHeight == 0 && system.frames == old(system.frames)
      ensures r.Ok? ==> Accounted(system.world) == Accounted(old(system.world))
      ensures r.Ok? && (request.RequestedExternalCall? ==> request.call.caller != L2_BASE_TOKEN_ADDRESS)
              && Genuine(old(system.world).messages)
              && !TreeImpersonates(Setting(), old(system.world), request, tree) ==>
        Genuine(system.world.messages)
      ensures r.Ok? && request.RequestedExternalCall? ==>
        r.value.1.CompletedExecution? && (r.value.1.reverted ==> system.world == old(system.world))
      ensures r.Ok? && request.RequestedExternalCall? ==>
        && tree.CallTree?
        && var result := CallOutcome(Setting(), old(system.world), Bare(request.call), tree.course).1;
           && CallDone(Setting(), 0, old(system.world), old(program.steps), Bare(request.call), tree.course,
                       system.world, result, program.steps)
           && (r.value.1.reverted <==> !result.Successful?)
           && r.value.1.returndata == (if result.CallFailedToExecute? then [] else result.returndata)
      ensures r.Ok? && request.RequestedDeployment? ==>
        && tree.CreationTree? && r.value.1.CompletedDeployment?
        && CreationDone(Setting(), 0, old(system.world), old(program.steps), BareDeployment(request.deployment),
                        tree.creation, system.world, r.value.1.result, program.steps)
        && (r.value.1.result.DeploymentSuccessful? ==> system.world.Nonce(r.value.1.result.deployedAt) >= 1)
      ensures request.RequestedExternalCall? && old(Foreseen(ee, request.call))
              && Affords(true, request.call, old(system.world).CodeAt(request.call.callee), old(NextOp())) ==>
        && r.Ok? && tree.CallTree? && Some(tree.course) == old(Foretold(request.call))
        && (!IsHooked(request.call) && MayPay(request.call) ==>
              RestIsBack(r.value.0, request.call.resources, 4, old(system.world).CodeAt(request.call.callee),
                         old(NextOp())))
      ensures r.Ok? && request.RequestedDeployment? ==>
        && r.value.1.CompletedDeployment?
        && (r.value.1.result.DeploymentFailed? ==> OnlyNonceMoved(old(system.world), system.world, request.deployment))
      ensures r.Err? ==> old(system.frames) <= system.frames
      ensures r.Err? ==> Explained(r.error, Accounted(old(system.world)), old(Room()),
                                   if request.RequestedExternalCall? then |request.call.calldata| else 0)
      ensures r.Err? && r.error.TopLevelInsufficientBalance? ==>
        && request.RequestedExternalCall?
        && (Accounted(old(system.world)) <= U256_MAX ==>
              old(system.world).Balance(request.call.caller) < request.call.value)
      ensures r.Err? && r.error.UnexpectedModifier? ==>
        && request.RequestedExternalCall?
        && (request.call.modifier.ZKVMSystem? || request.call.modifier.ZKVMSystemStatic?)
    {
      match request
      case RequestedExternalCall(call) =>
        var done; ghost var course;
        done, course := HandleRequestedExternalCall(true, ee, call);
        tree := CallTree(course);
        if done.Err? {
          return Err(done.error), tree;
        }
        var (left, result) := done.value;
        r := Ok((left, match result
                       case CallFailedToExecute => CompletedExecution(true, [])
                       case Failed(returndata) => CompletedExecution(true, returndata)
                       case Successful(returndata) => CompletedExecution(false, returndata)));
      case RequestedDeployment(d) =>
        var done; ghost var creation;
        done, creation := HandleRequestedDeployment(true, ee, d);
        tree := CreationTree(creation);
        if done.Err? {
          return Err(done.error), tree;
        }
        r := Ok((done.value.0, CompletedDeployment(done.value.1)));
    }
  }
}
