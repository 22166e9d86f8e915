/**
 * What calls and deployments mean for the state, whatever they cost: a big-step semantics of
 * whole call trees. A trace tells which way a run took; the world and the answer follow from it.
 */
module Semantics {
  import opened Numbers
  import opened World
  import opened Resources
  import opened IoSubsystem
  import opened Calls
  import opened Opcodes
  import opened SystemHooks

  /** The inputs a run never changes: its opcodes, the hash functions, and the addresses with a hook. */
  datatype Rules = Rules(
    ops: nat -> Op,
    keccak: seq<byte> -> u256,
    preimage: u256 -> seq<byte>,
    derive: Origin -> Address,
    hooked: set<Address>
  )

  /** In whose name and how a frame runs. */
  datatype Frame = Frame(address: Address, caller: Address, callValue: u256, isStatic: bool, isConstructor: bool)

  // ----- traces

  /** The steps of a frame so far, oldest innermost; calls and deployments carry their own trace. */
  datatype Trace =
    | Begin
    | Did(before: Trace, op: Op, refunds: u64)
    | Called(before: Trace, op: Op, course: Course)
    | Deployed(before: Trace, op: Op, creation: Creation)

  /** How a frame ended: by an opcode, or because a call it made could not start. */
  datatype Ending = Halted(op: Op) | Reverted(op: Op) | Broke(op: Op) | CalleeNotStarted

  datatype Course =
    | NotStarted
    | NotPaid
    | NoCode
    | TooDeep
    | Kernel(reverted: bool, returndata: seq<byte>)
    | Ran(body: Trace, ending: Ending)

  /** `stored` tells whether the code that was returned could be paid for. */
  datatype Creation =
    | Refused
    | Constructed(body: Trace, ending: Ending, stored: bool)

  /** Number of opcodes. */
  ghost function Size(t: Trace): nat
  {
    match t
    case Begin => 0
    case Did(before, _, _) => Size(before) + 1
    case Called(before, _, course) => Size(before) + 1 + CourseSize(course)
    case Deployed(before, _, creation) => Size(before) + 1 + CreationSize(creation)
  }

  ghost function CourseSize(course: Course): nat
  {
    if course.Ran? then Size(course.body) + EndingSize(course.ending) else 0
  }

  ghost function CreationSize(creation: Creation): nat
  {
    if creation.Constructed? then Size(creation.body) + EndingSize(creation.ending) else 0
  }

  ghost function EndingSize(e: Ending): nat { if e.CalleeNotStarted? then 0 else 1 }

  // ----- requests

  ghost function Bare(call: ExternalCallRequest): ExternalCallRequest { call.(resources := EMPTY) }

  ghost function BareDeployment(d: DeploymentRequest): DeploymentRequest { d.(resources := EMPTY) }

  /** The call that an opcode asks for. */
  ghost function CallBy(f: Frame, op: Op): ExternalCallRequest
    requires op.CallOp?
  {
    ExternalCallRequest(
      EMPTY, SaturatingMul(op.gas, ERGS_PER_GAS), f.address, op.to, f.caller, ModifierFor(op.scheme, f.isStatic),
      op.calldata, match op.scheme case DelegateCall => f.callValue case StaticCall => 0 case _ => op.callValue)
  }

  ghost function DeploymentBy(f: Frame, op: Op): DeploymentRequest
    requires op.CreateOp?
  {
    DeploymentRequest(EMPTY, f.address, op.createScheme, op.initCode, op.callValue, None)
  }

  /** The account in whose name a call runs. */
  function ActingAccount(call: ExternalCallRequest): Address
  {
    if call.IsDelegate() || call.IsCallcode() then call.caller else call.callee
  }

  function FrameOf(call: ExternalCallRequest): Frame
  {
    Frame(ActingAccount(call), if call.IsDelegate() then call.callersCaller else call.caller, call.value,
          IsStaticModifier(call.modifier) && !call.modifier.ZKVMSystemStatic?, call.modifier.Constructor?)
  }

  // ----- single steps

  /** Opcodes that go through at once, and what a static frame may not do. */
  predicate Allowed(f: Frame, op: Op)
  {
    match op
    case SStore(_, _) => !f.isStatic
    case TStore(_, _) => !f.isStatic
    case Log(_, _, _) => !f.isStatic
    case SelfDestruct(_) => !f.isStatic
    case CreateOp(_, _, initCode, _) => !f.isStatic && |initCode| <= MAX_INITCODE_SIZE
    case CallOp(scheme, _, _, value, _, _) => !(f.isStatic && scheme.Call? && value != 0)
    case Faulting(_) => false
    case _ => true
  }

  ghost function Effect(f: Frame, w: World, op: Op, refunds: u64): World
  {
    match op
    case SStore(key, value) => Written(w, false, f.address, key, value, refunds)
    case TStore(key, value) => Written(w, true, f.address, key, value, refunds)
    case Log(topics, data, _) => w.(events := w.events + [Event(f.address, topics, data)])
    case _ => w
  }

  /** Whether an account can hand over all it has. */
  ghost predicate CanDestroy(f: Frame, w: World, beneficiary: Address)
  {
    f.address != beneficiary ==> CanTransfer(w, f.address, beneficiary, w.Balance(f.address))
  }

  /** The world after the last opcode of a frame that did not fail. */
  ghost function Final(f: Frame, w: World, op: Op): World
  {
    if op.SelfDestruct? && CanDestroy(f, w, op.beneficiary)
    then Deconstructed(w, f.address, op.beneficiary, f.isConstructor)
    else w
  }

  ghost function DataOf(e: Ending): seq<byte>
  {
    match e
    case Halted(Return(data, _)) => data
    case Reverted(Revert(data, _)) => data
    case _ => []
  }

  // ----- calls

  ghost predicate CanPay(w: World, call: ExternalCallRequest)
  {
    var target := TransferTarget(call);
    target.Some? ==> CanTransfer(w, call.caller, target.value, call.value)
  }

  /** The state right after the value of a call was moved. */
  ghost function Paid(w: World, call: ExternalCallRequest): World
  {
    var target := TransferTarget(call);
    if target.Some? && CanPay(w, call) then Transfer(w, call.caller, target.value, call.value) else w
  }

  /** Exactly the value of a call was moved. */
  ghost predicate ValueMoved(before: World, after: World, call: ExternalCallRequest)
  {
    match TransferTarget(call)
    case None => after == before
    case Some(target) =>
      CanTransfer(before, call.caller, target, call.value)
      && after == Transfer(before, call.caller, target, call.value)
  }

  ghost function CallOutcome(rules: Rules, w: World, call: ExternalCallRequest, course: Course): (World, CallResult)
    decreases course
  {
    match course
    case NotStarted => (w, CallFailedToExecute)
    case NotPaid => (w, Failed([]))
    case TooDeep => (w, Failed([]))
    case NoCode => (Paid(w, call), Successful([]))
    case Kernel(reverted, data) =>
      if reverted then (w, Failed(data)) else (HookEffect(rules, Paid(w, call), call), Successful(data))
    case Ran(body, ending) =>
      if ending.Halted?
      then (Final(FrameOf(call), After(rules, FrameOf(call), Paid(w, call), body), ending.op),
            Successful(DataOf(ending)))
      else (w, Failed(DataOf(ending)))
  }

  // ----- the kernel space

  predicate IsPrecompile(a: Address)
  {
    a != L1_MESSENGER_ADDRESS && a != L2_BASE_TOKEN_ADDRESS && a != CONTRACT_DEPLOYER_ADDRESS
  }

  /** Whether the hook of an address has anything to do for a call. */
  ghost predicate WellFormed(w: World, call: ExternalCallRequest)
  {
    if call.callee == L1_MESSENGER_ADDRESS then SentMessage(call).Some?
    else if call.callee == L2_BASE_TOKEN_ADDRESS then
      WithdrawalData(call).Some? && call.value <= w.Balance(L2_BASE_TOKEN_ADDRESS)
    else if call.callee == CONTRACT_DEPLOYER_ADDRESS then DeployerOrder(call).Some?
    else true
  }

  ghost function HookEffect(rules: Rules, w: World, call: ExternalCallRequest): World
  {
    if call.callee !in rules.hooked || !WellFormed(w, call) || IsPrecompile(call.callee) then w
    else if call.callee == L1_MESSENGER_ADDRESS then
      var msg := SentMessage(call).value;
      Sent(w, Message(call.caller, msg, false), rules.keccak(msg), call.calldata[4..])
    else if call.callee == L2_BASE_TOKEN_ADDRESS then
      var data := WithdrawalData(call).value;
      Sent(Debit(w, L2_BASE_TOKEN_ADDRESS, call.value), Message(L2_BASE_TOKEN_ADDRESS, data, true), rules.keccak(data),
           AbiEncode(data))
    else
      var (a, hash) := DeployerOrder(call).value;
      WithCode(w, a, rules.preimage(hash))
  }

  function WithCode(w: World, a: Address, code: seq<byte>): World
  {
    w.(code := w.code[a := Code(code, true)], deployedInTx := w.deployedInTx + {a})
  }

  /** What a hook answers; only precompiles are free in what they return. */
  ghost predicate Answers(rules: Rules, w: World, call: ExternalCallRequest, reverted: bool, returndata: seq<byte>)
  {
    if call.callee !in rules.hooked then !reverted && returndata == []
    else if reverted then returndata == []
    else if IsPrecompile(call.callee) then true
    else
      && WellFormed(w, call)
      && returndata == (if call.callee == L1_MESSENGER_ADDRESS then ToBE(rules.keccak(SentMessage(call).value), 32)
                        else [])
  }

  // ----- deployments

  ghost function AddressOf(rules: Rules, d: DeploymentRequest, w: World): Address
  {
    rules.derive(d.OriginAt(w.Nonce(d.deployer)))
  }

  ghost predicate HasFunds(w: World, d: DeploymentRequest) { d.value <= w.Balance(d.deployer) }

  /** The deployer's nonce moves unless it was given, is used up, or the value is not there. */
  ghost function Numbered(w: World, d: DeploymentRequest): World
  {
    if HasFunds(w, d) && d.deployerNonce.None? && w.Nonce(d.deployer) < U64_MAX
    then IncrementNonce(w, d.deployer) else w
  }

  /** Nothing but the depth stands in the way of a deployment. */
  ghost predicate IsFree(rules: Rules, w: World, d: DeploymentRequest)
  {
    var a := AddressOf(rules, d, w);
    && HasFunds(w, d) && (d.deployerNonce.None? ==> w.Nonce(d.deployer) < U64_MAX)
    && Numbered(w, d).CodeAt(a).bytes == [] && Numbered(w, d).Nonce(a) == 0
  }

  ghost predicate Launches(rules: Rules, height: nat, w: World, d: DeploymentRequest)
  {
    IsFree(rules, w, d) && height <= MAX_GLOBAL_CALLS_STACK_DEPTH
  }

  /** The new account with nonce one, before the value is there. */
  ghost function Opened(w: World, a: Address): World
  {
    if w.Nonce(a) < U64_MAX then IncrementNonce(w, a) else w
  }

  ghost predicate CanEndow(w: World, deployer: Address, a: Address, value: u256)
  {
    value != 0 ==> CanTransfer(Opened(w, a), deployer, a, value)
  }

  /** The new account with nonce one and its value: the world in which a constructor starts. */
  ghost function Endowed(w: World, deployer: Address, a: Address, value: u256): World
  {
    if value != 0 && CanEndow(w, deployer, a, value) then Transfer(Opened(w, a), deployer, a, value) else Opened(w, a)
  }

  lemma EndowedIs(w: World, deployer: Address, a: Address, value: u256)
    requires w.Nonce(a) == 0 && CanEndow(w, deployer, a, value)
    ensures
      var w' := Endowed(w, deployer, a, value);
      && w'.Nonce(a) == 1 && (forall b: Address :: b != a ==> w'.Nonce(b) == w.Nonce(b))
      && (deployer != a ==>
            w'.Balance(a) == w.Balance(a) + value && w'.Balance(deployer) == w.Balance(deployer) - value)
      && (forall b: Address :: b != a && b != deployer ==> w'.Balance(b) == w.Balance(b))
      && w'.storage == w.storage && w'.code == w.code && w'.messages == w.messages
  {
  }

  /** Opening an account touches its nonce and two balances. */
  lemma EndowedTouches(w: World, deployer: Address, a: Address, value: u256)
    ensures
      var w' := Endowed(w, deployer, a, value);
      w' == w.(nonces := w'.nonces, balances := w'.balances) && w'.nonces == Opened(w, a).nonces
  {
  }

  ghost function ConstructorFrame(rules: Rules, w: World, d: DeploymentRequest): Frame
  {
    Frame(AddressOf(rules, d, w), d.deployer, d.value, false, true)
  }

  ghost function Start(rules: Rules, w: World, d: DeploymentRequest): World
  {
    Endowed(Numbered(w, d), d.deployer, AddressOf(rules, d, w), d.value)
  }

  predicate ValidCode(code: seq<byte>) { |code| <= MAX_CODE_SIZE && (code != [] ==> code[0] != 0xEF) }

  /** What a deployment comes to once its constructor is through. */
  ghost function ConstructorResult(f: Frame, ending: Ending, stored: bool): (r: DeploymentResult)
    ensures r.DeploymentSuccessful? <==> ending.Halted? && ValidCode(DataOf(ending)) && stored
  {
    var data := DataOf(ending);
    if !ending.Halted? then DeploymentFailed(data, true)
    else if !ValidCode(data) then DeploymentFailed(data, false)
    else if !stored then DeploymentFailed([], false)
    else DeploymentSuccessful(data, f.address)
  }

  ghost function CreationOutcome(rules: Rules, w: World, d: DeploymentRequest, creation: Creation)
    : (World, DeploymentResult)
    decreases creation
  {
    match creation
    case Refused => (Numbered(w, d), DeploymentFailed([], false))
    case Constructed(body, ending, stored) =>
      var f := ConstructorFrame(rules, w, d);
      var result := ConstructorResult(f, ending, stored);
      (if result.DeploymentSuccessful?
       then WithCode(Final(f, After(rules, f, Start(rules, w, d), body), ending.op), f.address, DataOf(ending))
       else Numbered(w, d), result)
  }

  // ----- whole frames

  /** The world after the steps of a frame. */
  ghost function After(rules: Rules, f: Frame, w: World, t: Trace): World
    decreases t
  {
    match t
    case Begin => w
    case Did(before, op, refunds) => Effect(f, After(rules, f, w, before), op, refunds)
    case Called(before, op, course) =>
      if op.CallOp? then CallOutcome(rules, After(rules, f, w, before), CallBy(f, op), course).0 else w
    case Deployed(before, op, creation) =>
      if op.CreateOp? then CreationOutcome(rules, After(rules, f, w, before), DeploymentBy(f, op), creation).0 else w
  }

  /** A frame whose last call could not start does nothing more. */
  predicate Stuck(t: Trace) { t.Called? && t.course.NotStarted? }

  /** The trace is one that a frame at this height can have, taking its opcodes from `at` on. */
  ghost predicate Runs(rules: Rules, height: nat, f: Frame, w: World, t: Trace, at: nat)
    decreases t
  {
    match t
    case Begin => true
    case Did(before, op, _) =>
      && Runs(rules, height, f, w, before, at) && !Stuck(before) && op == rules.ops(at + Size(before))
      && Allowed(f, op) && (op.Local? || op.SStore? || op.TStore? || op.Log?)
    case Called(before, op, course) =>
      && Runs(rules, height, f, w, before, at) && !Stuck(before) && op == rules.ops(at + Size(before))
      && Allowed(f, op) && op.CallOp?
      && CallRuns(rules, height + 1, After(rules, f, w, before), CallBy(f, op), course, at + Size(before) + 1)
    case Deployed(before, op, creation) =>
      && Runs(rules, height, f, w, before, at) && !Stuck(before) && op == rules.ops(at + Size(before))
      && Allowed(f, op) && op.CreateOp?
      && CreationRuns(rules, height + 1, After(rules, f, w, before), DeploymentBy(f, op), creation,
                      at + Size(before) + 1)
  }

  /** How a frame with these steps can end. */
  ghost predicate Ends(rules: Rules, f: Frame, w: World, t: Trace, ending: Ending, at: nat)
  {
    match ending
    case Halted(op) =>
      && !Stuck(t) && op == rules.ops(at) && Allowed(f, op)
      && (op.Stop? || op.Return? || (op.SelfDestruct? && CanDestroy(f, w, op.beneficiary)))
    case Reverted(op) => !Stuck(t) && op == rules.ops(at) && op.Revert?
    case Broke(op) => !Stuck(t) && op == rules.ops(at) && !op.Stop?
    case CalleeNotStarted => Stuck(t)
  }

  /** Except for calls that cannot be paid for, which way a call goes is decided by the world and the depth. */
  ghost predicate CallRuns(rules: Rules, height: nat, w: World, call: ExternalCallRequest, course: Course, at: nat)
    decreases course
  {
    var isSpecial := call.callee < SPECIAL_ADDRESS_BOUND;
    var isEmpty := w.CodeAt(call.callee).bytes == [];
    var isDeep := height > MAX_GLOBAL_CALLS_STACK_DEPTH;
    match course
    case NotStarted => true
    case NotPaid => MayPay(call) && !CanPay(w, call)
    case NoCode => MayPay(call) && CanPay(w, call) && !isSpecial && isEmpty
    case TooDeep => MayPay(call) && CanPay(w, call) && (isSpecial || !isEmpty) && isDeep
    case Kernel(reverted, data) =>
      && MayPay(call) && CanPay(w, call) && isSpecial && !isDeep
      && Answers(rules, Paid(w, call), call, reverted, data)
    case Ran(body, ending) =>
      && MayPay(call) && CanPay(w, call) && !isSpecial && !isEmpty && !isDeep && !IsSystemCall(call)
      && Runs(rules, height, FrameOf(call), Paid(w, call), body, at)
      && Ends(rules, FrameOf(call), After(rules, FrameOf(call), Paid(w, call), body), body, ending, at + Size(body))
  }

  /** Modifiers that the interpreter does not know. */
  predicate IsSystemCall(call: ExternalCallRequest) { call.modifier.ZKVMSystem? || call.modifier.ZKVMSystemStatic? }

  predicate MayPay(call: ExternalCallRequest) { TransferTarget(call).Some? ==> call.IsTransferAllowed() }

  /** Which way a deployment goes is decided by the world and the depth. */
  ghost predicate CreationRuns(rules: Rules, height: nat, w: World, d: DeploymentRequest, creation: Creation, at: nat)
    decreases creation
  {
    match creation
    case Refused => !Launches(rules, height, w, d)
    case Constructed(body, ending, _) =>
      var f := ConstructorFrame(rules, w, d);
      && Launches(rules, height, w, d) && CanEndow(Numbered(w, d), d.deployer, f.address, d.value)
      && Runs(rules, height, f, Start(rules, w, d), body, at)
      && Ends(rules, f, After(rules, f, Start(rules, w, d), body), body, ending, at + Size(body))
  }

  // ----- what runs come to

  /** A whole frame took these steps and ended this way. */
  ghost predicate FrameDone(rules: Rules, height: nat, f: Frame, w: World, at: nat, body: Trace, ending: Ending,
                            steps: nat)
  {
    && Runs(rules, height, f, w, body, at)
    && Ends(rules, f, After(rules, f, w, body), body, ending, at + Size(body))
    && steps == at + Size(body) + EndingSize(ending)
  }

  /** A call took this course, and led to this world and this result. */
  ghost predicate CallDone(rules: Rules, height: nat, w: World, at: nat, call: ExternalCallRequest, course: Course,
                           w': World, result: CallResult, steps: nat)
  {
    && CallRuns(rules, height, w, call, course, at) && (w', result) == CallOutcome(rules, w, call, course)
    && steps == at + CourseSize(course)
  }

  ghost predicate CreationDone(rules: Rules, height: nat, w: World, at: nat, d: DeploymentRequest, creation: Creation,
                               w': World, result: DeploymentResult, steps: nat)
  {
    && CreationRuns(rules, height, w, d, creation, at) && (w', result) == CreationOutcome(rules, w, d, creation)
    && steps == at + CreationSize(creation)
  }

  /** The whole of a transaction's payload. */
  datatype Tree = CallTree(course: Course) | CreationTree(creation: Creation)

  /** Hooks do not look at resources. */
  lemma BareHooks(w: World, call: ExternalCallRequest)
    ensures SentMessage(Bare(call)) == SentMessage(call) && WithdrawalData(Bare(call)) == WithdrawalData(call)
    ensures DeployerOrder(Bare(call)) == DeployerOrder(call) && WellFormed(w, Bare(call)) == WellFormed(w, call)
  {
  }

  /** A call that ended before anything ran. */
  lemma EarlyDone(rules: Rules, height: nat, w: World, at: nat, call: ExternalCallRequest, course: Course)
    requires course.NotPaid? || course.NoCode? || course.TooDeep?
    requires CallRuns(rules, height, w, call, course, at)
    ensures var (w', result) := CallOutcome(rules, w, call, course);
            CallDone(rules, height, w, at, call, course, w', result, at)
  {
  }

  /** Nor does anything else but the running itself. */
  lemma BareCall(w: World, call: ExternalCallRequest)
    ensures FrameOf(Bare(call)) == FrameOf(call) && MayPay(Bare(call)) == MayPay(call)
    ensures CanPay(w, Bare(call)) == CanPay(w, call) && Paid(w, Bare(call)) == Paid(w, call)
  {
  }

  lemma BareValueMoved(w: World, w': World, call: ExternalCallRequest)
    ensures ValueMoved(w, w', Bare(call)) == ValueMoved(w, w', call)
  {
  }

  /** A call whose callee's frame is over. */
  lemma {:induction false} RanDone(rules: Rules, height: nat, w: World, at: nat, call: ExternalCallRequest, body: Trace,
                                   ending: Ending, w': World, result: CallResult, steps: nat)
    requires MayPay(call) && CanPay(w, call) && call.callee >= SPECIAL_ADDRESS_BOUND && !IsSystemCall(call)
    requires w.CodeAt(call.callee).bytes != [] && height <= MAX_GLOBAL_CALLS_STACK_DEPTH
    requires FrameDone(rules, height, FrameOf(call), Paid(w, call), at, body, ending, steps)
    requires w' == if ending.Halted?
                   then Final(FrameOf(call), After(rules, FrameOf(call), Paid(w, call), body), ending.op) else w
    requires result == if ending.Halted? then Successful(DataOf(ending)) else Failed(DataOf(ending))
    ensures CallDone(rules, height, w, at, call, Ran(body, ending), w', result, steps)
  {
  }

  /** A call into the kernel space. */
  lemma KernelDone(rules: Rules, height: nat, w: World, at: nat, call: ExternalCallRequest, course: Course, w': World,
                   result: CallResult)
    requires MayPay(call) && CanPay(w, call) && call.callee < SPECIAL_ADDRESS_BOUND
    requires height <= MAX_GLOBAL_CALLS_STACK_DEPTH && course.Kernel?
    requires Answers(rules, Paid(w, call), call, course.reverted, course.returndata)
    requires w' == if course.reverted then w else HookEffect(rules, Paid(w, call), call)
    requires result == if course.reverted then Failed(course.returndata) else Successful(course.returndata)
    ensures CallDone(rules, height, w, at, call, course, w', result, at)
  {
  }

  lemma BareDeploymentIsSame(rules: Rules, w: World, d: DeploymentRequest)
    ensures IsFree(rules, w, BareDeployment(d)) == IsFree(rules, w, d)
    ensures Numbered(w, BareDeployment(d)) == Numbered(w, d)
    ensures AddressOf(rules, BareDeployment(d), w) == AddressOf(rules, d, w)
    ensures ConstructorFrame(rules, w, BareDeployment(d)) == ConstructorFrame(rules, w, d)
    ensures Start(rules, w, BareDeployment(d)) == Start(rules, w, d)
  {
  }

  /** A constructor ran from `start` on, and this is what a deployment makes of it. */
  ghost predicate Built(rules: Rules, height: nat, f: Frame, start: World, at: nat, body: Trace, ending: Ending,
                        stored: bool, w': World, result: DeploymentResult, steps: nat)
  {
    && FrameDone(rules, height, f, start, at, body, ending, steps)
    && result == ConstructorResult(f, ending, stored)
    && (result.DeploymentSuccessful? ==>
          w' == WithCode(Final(f, After(rules, f, start, body), ending.op), f.address, DataOf(ending)))
  }

  /** A deployment whose constructor is through. */
  lemma {:induction false} ConstructedDone(rules: Rules, height: nat, w: World, at: nat, d: DeploymentRequest,
                                           body: Trace, ending: Ending, stored: bool, w': World,
                                           result: DeploymentResult, steps: nat)
    requires Launches(rules, height, w, d)
    requires CanEndow(Numbered(w, d), d.deployer, AddressOf(rules, d, w), d.value)
    requires Built(rules, height, ConstructorFrame(rules, w, d), Start(rules, w, d), at, body, ending, stored, w',
                   result, steps)
    requires result.DeploymentFailed? ==> w' == Numbered(w, d)
    ensures CreationDone(rules, height, w, at, d, Constructed(body, ending, stored), w', result, steps)
  {
  }

  // ----- what can be foreseen

  /**
   * The course of a call that has all the resources it needs, as far as the world, the depth and
   * the first opcode of the callee decide it.
   */
  ghost function Expected(rules: Rules, height: nat, w: World, call: ExternalCallRequest, op: Op): Option<Course>
  {
    var isSpecial := call.callee < SPECIAL_ADDRESS_BOUND;
    if !MayPay(call) then Some(NotStarted)
    else if !CanPay(w, call) then Some(NotPaid)
    else if !isSpecial && w.CodeAt(call.callee).bytes == [] then Some(NoCode)
    else if height > MAX_GLOBAL_CALLS_STACK_DEPTH then Some(TooDeep)
    else ExpectedRun(rules, Paid(w, call), call, op)
  }

  /** The same once the value of the call is paid. */
  ghost function ExpectedRun(rules: Rules, w: World, call: ExternalCallRequest, op: Op): (r: Option<Course>)
    ensures r.Some? ==> r.value.Kernel? || r.value.Ran?
  {
    if call.callee < SPECIAL_ADDRESS_BOUND then ExpectedAnswer(rules, w, call)
    else if op.Halts() && !IsSystemCall(call) then Some(Ran(Begin, HaltBy(op)))
    else None
  }

  /** Addresses without a hook answer nothing; hooks other than precompiles do what they are asked for. */
  ghost function ExpectedAnswer(rules: Rules, w: World, call: ExternalCallRequest): (r: Option<Course>)
    ensures r.Some? ==> r.value.Kernel? && !r.value.reverted
  {
    if call.callee !in rules.hooked then Some(Kernel(false, []))
    else if IsPrecompile(call.callee) || !WellFormed(w, call) then None
    else if call.callee == L1_MESSENGER_ADDRESS then
      Some(Kernel(false, ToBE(rules.keccak(SentMessage(call).value), 32)))
    else Some(Kernel(false, []))
  }

  ghost function ExpectedCreation(rules: Rules, height: nat, w: World, d: DeploymentRequest, op: Op): Option<Creation>
  {
    if !Launches(rules, height, w, d) then Some(Refused)
    else if op.Halts() && CanEndow(Numbered(w, d), d.deployer, AddressOf(rules, d, w), d.value)
    then Some(Constructed(Begin, HaltBy(op), true))
    else None
  }

  /** How an opcode that halts by itself ends its frame. */
  ghost function HaltBy(op: Op): Ending
    requires op.Halts()
  {
    if op.Revert? then Reverted(op) else Halted(op)
  }

  /** The bytes that a course brings back. */
  ghost function Brought(course: Course): seq<byte>
  {
    match course
    case Kernel(_, data) => data
    case Ran(_, ending) => DataOf(ending)
    case _ => []
  }

  ghost function BroughtBy(creation: Creation): seq<byte>
  {
    if creation.Constructed? then DataOf(creation.ending) else []
  }

  // ----- a frame on its way

  /** A frame with the world and the position in the program where it started, and its steps so far. */
  datatype Progress = Progress(rules: Rules, height: nat, frame: Frame, start: World, at: nat, trace: Trace) {
    ghost predicate Valid() { Runs(rules, height, frame, start, trace, at) }

    ghost function Now(): World { After(rules, frame, start, trace) }

    ghost function Steps(): nat { at + Size(trace) }

    ghost function NextOp(): Op { rules.ops(Steps()) }

    /** The same frame, later. */
    ghost predicate Continues(later: Progress) { later == this.(trace := later.trace) }

    ghost function Doing(op: Op, refunds: u64): Progress { this.(trace := Did(trace, op, refunds)) }

    ghost function Calling(course: Course): Progress { this.(trace := Called(trace, NextOp(), course)) }

    ghost function Deploying(creation: Creation): Progress { this.(trace := Deployed(trace, NextOp(), creation)) }
  }

  /** An opcode that goes through at once takes a frame one step further. */
  lemma {:induction false} DoStep(g: Progress, refunds: u64)
    requires g.Valid() && !Stuck(g.trace) && Allowed(g.frame, g.NextOp())
    requires var op := g.NextOp(); op.Local? || op.SStore? || op.TStore? || op.Log?
    ensures
      var g' := g.Doing(g.NextOp(), refunds);
      g'.Valid() && g'.Now() == Effect(g.frame, g.Now(), g.NextOp(), refunds) && g'.Steps() == g.Steps() + 1
  {
  }

  lemma {:induction false} CallStep(g: Progress, course: Course)
    requires g.Valid() && !Stuck(g.trace) && Allowed(g.frame, g.NextOp()) && g.NextOp().CallOp?
    requires CallRuns(g.rules, g.height + 1, g.Now(), CallBy(g.frame, g.NextOp()), course, g.Steps() + 1)
    ensures
      var g' := g.Calling(course);
      && g'.Valid() && g'.Now() == CallOutcome(g.rules, g.Now(), CallBy(g.frame, g.NextOp()), course).0
      && g'.Steps() == g.Steps() + 1 + CourseSize(course)
  {
  }

  lemma {:induction false} DeployStep(g: Progress, creation: Creation)
    requires g.Valid() && !Stuck(g.trace) && Allowed(g.frame, g.NextOp()) && g.NextOp().CreateOp?
    requires CreationRuns(g.rules, g.height + 1, g.Now(), DeploymentBy(g.frame, g.NextOp()), creation, g.Steps() + 1)
    ensures
      var g' := g.Deploying(creation);
      && g'.Valid() && g'.Now() == CreationOutcome(g.rules, g.Now(), DeploymentBy(g.frame, g.NextOp()), creation).0
      && g'.Steps() == g.Steps() + 1 + CreationSize(creation)
  {
  }
}
