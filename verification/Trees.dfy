/** What holds of every call tree, whatever it costs: theorems over the traces of whole runs. */
module Trees {
  import opened Numbers
  import opened World
  import opened IoSubsystem
  import opened Calls
  import opened Opcodes
  import opened SystemHooks
  import opened Semantics

  // ----- nonces

  /** No step of a frame, no call and no deployment ever lowers a nonce. */
  lemma {:induction false} NoncesNeverFall(rules: Rules, f: Frame, w: World, t: Trace, a: Address)
    ensures After(rules, f, w, t).Nonce(a) >= w.Nonce(a)
    decreases t
  {
    match t
    case Begin =>
    case Did(before, _, _) => NoncesNeverFall(rules, f, w, before, a);
    case Called(before, op, course) =>
      NoncesNeverFall(rules, f, w, before, a);
      if op.CallOp? {
        CallKeepsNonces(rules, After(rules, f, w, before), CallBy(f, op), course, a);
      }
    case Deployed(before, op, creation) =>
      NoncesNeverFall(rules, f, w, before, a);
      if op.CreateOp? {
        CreationKeepsNonces(rules, After(rules, f, w, before), DeploymentBy(f, op), creation, a);
      }
  }

  /** Whatever a call does by itself leaves the nonces as they are. */
  lemma CallsHaveNoNonces(rules: Rules, w: World, call: ExternalCallRequest)
    ensures Paid(w, call).nonces == w.nonces && HookEffect(rules, w, call).nonces == w.nonces
  {
  }

  lemma EndsHaveNoNonces(f: Frame, w: World, op: Op)
    ensures Final(f, w, op).nonces == w.nonces
  {
    if op.SelfDestruct? && CanDestroy(f, w, op.beneficiary) {
      DeconstructedIs(w, f.address, op.beneficiary, f.isConstructor);
    }
  }

  lemma DeploymentsRaiseNonces(rules: Rules, w: World, d: DeploymentRequest, a: Address)
    ensures Start(rules, w, d).Nonce(a) >= Numbered(w, d).Nonce(a) >= w.Nonce(a)
  {
    EndowedTouches(Numbered(w, d), d.deployer, AddressOf(rules, d, w), d.value);
  }

  lemma {:induction false} CallKeepsNonces(rules: Rules, w: World, call: ExternalCallRequest, course: Course,
                                           a: Address)
    ensures CallOutcome(rules, w, call, course).0.Nonce(a) >= w.Nonce(a)
    decreases course
  {
    var paid := Paid(w, call);
    CallsHaveNoNonces(rules, w, call);
    match course
    case Ran(body, ending) =>
      NoncesNeverFall(rules, FrameOf(call), paid, body, a);
      if ending.Halted? {
        EndsHaveNoNonces(FrameOf(call), After(rules, FrameOf(call), paid, body), ending.op);
      }
    case Kernel(_, _) => CallsHaveNoNonces(rules, paid, call);
    case _ =>
  }

  lemma {:induction false} CreationKeepsNonces(rules: Rules, w: World, d: DeploymentRequest, creation: Creation,
                                               a: Address)
    ensures CreationOutcome(rules, w, d, creation).0.Nonce(a) >= w.Nonce(a)
    decreases creation
  {
    DeploymentsRaiseNonces(rules, w, d, a);
    if creation.Constructed? {
      var f, start := ConstructorFrame(rules, w, d), Start(rules, w, d);
      NoncesNeverFall(rules, f, start, creation.body, a);
      if creation.ending.Halted? {
        var last := After(rules, f, start, creation.body);
        EndsHaveNoNonces(f, last, creation.ending.op);
        CodeHasNoNonces(Final(f, last, creation.ending.op), f.address, DataOf(creation.ending));
      }
    }
  }

  lemma CodeHasNoNonces(w: World, a: Address, code: seq<byte>)
    ensures WithCode(w, a, code).nonces == w.nonces
  {
  }

  /** A new contract never has nonce zero, whatever its constructor did. */
  lemma {:induction false} NewContractHasNonce(rules: Rules, height: nat, w: World, at: nat, d: DeploymentRequest,
                                               creation: Creation, w': World, result: DeploymentResult, steps: nat)
    requires CreationDone(rules, height, w, at, d, creation, w', result, steps) && result.DeploymentSuccessful?
    ensures w'.Nonce(result.deployedAt) >= 1 && Start(rules, w, d).Nonce(result.deployedAt) == 1
  {
    var a := AddressOf(rules, d, w);
    EndowedIs(Numbered(w, d), d.deployer, a, d.value);
    NoncesNeverFall(rules, ConstructorFrame(rules, w, d), Start(rules, w, d), creation.body, a);
  }

  // ----- conservation

  lemma PaymentConserves(w: World, call: ExternalCallRequest)
    ensures Accounted(Paid(w, call)) == Accounted(w)
  {
    var target := TransferTarget(call);
    if target.Some? && CanPay(w, call) {
      TransferConserves(w, call.caller, target.value, call.value);
    }
  }

  lemma WithdrawalConserves(rules: Rules, w: World, call: ExternalCallRequest)
    requires call.callee == L2_BASE_TOKEN_ADDRESS && WellFormed(w, call)
    ensures Accounted(HookEffect(rules, w, call)) == Accounted(w)
  {
    if call.callee in rules.hooked {
      var data := WithdrawalData(call).value;
      var receiver := call.calldata[16..36];
      var tail := data[56..];
      assert data == WithdrawalMessage(receiver, call.value) + tail;
      WithdrawalAnnouncesValue(receiver, call.value, tail);
      DebitRemoves(w, L2_BASE_TOKEN_ADDRESS, call.value);
      SentAnnounces(Debit(w, L2_BASE_TOKEN_ADDRESS, call.value), Message(L2_BASE_TOKEN_ADDRESS, data, true),
                    rules.keccak(data), AbiEncode(data));
    }
  }

  lemma HookConserves(rules: Rules, w: World, call: ExternalCallRequest)
    ensures Accounted(HookEffect(rules, w, call)) == Accounted(w)
  {
    if call.callee == L2_BASE_TOKEN_ADDRESS && WellFormed(w, call) {
      WithdrawalConserves(rules, w, call);
    } else if call.callee == L1_MESSENGER_ADDRESS && WellFormed(w, call) {
      var msg := SentMessage(call).value;
      SentAnnounces(w, Message(call.caller, msg, false), rules.keccak(msg), call.calldata[4..]);
    }
  }

  lemma EndConserves(f: Frame, w: World, op: Op)
    ensures Accounted(Final(f, w, op)) == Accounted(w)
  {
    if op.SelfDestruct? && CanDestroy(f, w, op.beneficiary) {
      DeconstructionConserves(w, f.address, op.beneficiary, f.isConstructor);
    }
  }

  lemma DeconstructionConserves(w: World, a: Address, beneficiary: Address, inConstructor: bool)
    requires a != beneficiary ==> CanTransfer(w, a, beneficiary, w.Balance(a))
    ensures Accounted(Deconstructed(w, a, beneficiary, inConstructor)) == Accounted(w)
  {
    var isNew := a in w.deployedInTx || inConstructor;
    var w' := if isNew then w.(doomed := w.doomed + {a}) else w;
    assert Accounted(w') == Accounted(w);
    if a != beneficiary {
      TransferConserves(w', a, beneficiary, w.Balance(a));
    } else if isNew {
      DestroySelfConserves(w', a);
    }
  }

  lemma StartConserves(rules: Rules, w: World, d: DeploymentRequest)
    ensures Accounted(Start(rules, w, d)) == Accounted(Numbered(w, d)) == Accounted(w)
  {
    var w', a := Numbered(w, d), AddressOf(rules, d, w);
    if d.value != 0 && CanEndow(w', d.deployer, a, d.value) {
      TransferConserves(Opened(w', a), d.deployer, a, d.value);
    }
  }

  /** No run creates or loses a token: what it destroys and what it announces to L1 is accounted for. */
  lemma {:induction false} TraceConserves(rules: Rules, f: Frame, w: World, t: Trace)
    ensures Accounted(After(rules, f, w, t)) == Accounted(w)
    decreases t
  {
    match t
    case Begin =>
    case Did(before, _, _) => TraceConserves(rules, f, w, before);
    case Called(before, op, course) =>
      TraceConserves(rules, f, w, before);
      if op.CallOp? {
        CallConserves(rules, After(rules, f, w, before), CallBy(f, op), course);
      }
    case Deployed(before, op, creation) =>
      TraceConserves(rules, f, w, before);
      if op.CreateOp? {
        CreationConserves(rules, After(rules, f, w, before), DeploymentBy(f, op), creation);
      }
  }

  lemma {:induction false} CallConserves(rules: Rules, w: World, call: ExternalCallRequest, course: Course)
    ensures Accounted(CallOutcome(rules, w, call, course).0) == Accounted(w)
    decreases course
  {
    var paid := Paid(w, call);
    PaymentConserves(w, call);
    match course
    case Ran(body, ending) =>
      TraceConserves(rules, FrameOf(call), paid, body);
      if ending.Halted? {
        EndConserves(FrameOf(call), After(rules, FrameOf(call), paid, body), ending.op);
      }
    case Kernel(_, _) => HookConserves(rules, paid, call);
    case _ =>
  }

  lemma {:induction false} CreationConserves(rules: Rules, w: World, d: DeploymentRequest, creation: Creation)
    ensures Accounted(CreationOutcome(rules, w, d, creation).0) == Accounted(w)
    decreases creation
  {
    StartConserves(rules, w, d);
    if creation.Constructed? {
      var f, start := ConstructorFrame(rules, w, d), Start(rules, w, d);
      TraceConserves(rules, f, start, creation.body);
      if creation.ending.Halted? {
        EndConserves(f, After(rules, f, start, creation.body), creation.ending.op);
      }
    }
  }

  // ----- static calls

  lemma StaticPaymentIsNothing(w: World, call: ExternalCallRequest)
    requires IsStaticModifier(call.modifier) && MayPay(call)
    ensures Paid(w, call) == w
  {
    if TransferTarget(call).Some? && CanPay(w, call) {
      SelfTransferIsIdentity(w, call.caller, call.value);
    }
  }

  /** A static frame leaves the world as it is, through all the calls it makes. */
  lemma {:induction false} StaticFrameKeeps(rules: Rules, height: nat, f: Frame, w: World, t: Trace, at: nat)
    requires f.isStatic && Runs(rules, height, f, w, t, at)
    ensures After(rules, f, w, t) == w
    decreases t
  {
    match t
    case Begin =>
    case Did(before, _, _) => StaticFrameKeeps(rules, height, f, w, before, at);
    case Called(before, op, course) =>
      StaticFrameKeeps(rules, height, f, w, before, at);
      StaticCallKeeps(rules, height + 1, w, CallBy(f, op), course, at + Size(before) + 1);
  }

  lemma {:induction false} StaticCallKeeps(rules: Rules, height: nat, w: World, call: ExternalCallRequest,
                                           course: Course, at: nat)
    requires IsStaticModifier(call.modifier) && CallRuns(rules, height, w, call, course, at)
    ensures CallOutcome(rules, w, call, course).0 == w
    decreases course
  {
    if !course.NotStarted? {
      StaticPaymentIsNothing(w, call);
      if course.Ran? {
        StaticFrameKeeps(rules, height, FrameOf(call), w, course.body, at);
      }
    }
  }

  // ----- messages in the base token's name

  /** A contract was created at the address of the base token. */
  ghost predicate Impersonates(rules: Rules, f: Frame, w: World, t: Trace)
    decreases t
  {
    match t
    case Begin => false
    case Did(before, _, _) => Impersonates(rules, f, w, before)
    case Called(before, op, course) =>
      || Impersonates(rules, f, w, before)
      || (op.CallOp? && CallImpersonates(rules, After(rules, f, w, before), CallBy(f, op), course))
    case Deployed(before, op, creation) =>
      || Impersonates(rules, f, w, before)
      || (op.CreateOp? && CreationImpersonates(rules, After(rules, f, w, before), DeploymentBy(f, op), creation))
  }

  ghost predicate CallImpersonates(rules: Rules, w: World, call: ExternalCallRequest, course: Course)
    decreases course
  {
    course.Ran? && Impersonates(rules, FrameOf(call), Paid(w, call), course.body)
  }

  ghost predicate CreationImpersonates(rules: Rules, w: World, d: DeploymentRequest, creation: Creation)
    decreases creation
  {
    && creation.Constructed?
    && (|| AddressOf(rules, d, w) == L2_BASE_TOKEN_ADDRESS
        || Impersonates(rules, ConstructorFrame(rules, w, d), Start(rules, w, d), creation.body))
  }

  ghost predicate TreeImpersonates(rules: Rules, w: World, request: SpawnRequest, tree: Tree)
  {
    match request
    case RequestedExternalCall(call) => tree.CallTree? && CallImpersonates(rules, w, Bare(call), tree.course)
    case RequestedDeployment(d) =>
      tree.CreationTree? && CreationImpersonates(rules, w, BareDeployment(d), tree.creation)
  }

  lemma HookIsGenuine(rules: Rules, w: World, call: ExternalCallRequest)
    requires Genuine(w.messages) && call.caller != L2_BASE_TOKEN_ADDRESS
    ensures Genuine(HookEffect(rules, w, call).messages)
  {
    if call.callee in rules.hooked && WellFormed(w, call) {
      if call.callee == L2_BASE_TOKEN_ADDRESS {
        var data := WithdrawalData(call).value;
        SentIsGenuine(Debit(w, L2_BASE_TOKEN_ADDRESS, call.value), Message(L2_BASE_TOKEN_ADDRESS, data, true),
                      rules.keccak(data), AbiEncode(data));
      } else if call.callee == L1_MESSENGER_ADDRESS {
        var msg := SentMessage(call).value;
        SentIsGenuine(w, Message(call.caller, msg, false), rules.keccak(msg), call.calldata[4..]);
      }
    }
  }

  lemma StartSendsNothing(rules: Rules, w: World, d: DeploymentRequest)
    ensures Start(rules, w, d).messages == Numbered(w, d).messages == w.messages
  {
    EndowedTouches(Numbered(w, d), d.deployer, AddressOf(rules, d, w), d.value);
  }

  lemma EndSendsNothing(f: Frame, w: World, op: Op)
    ensures Final(f, w, op).messages == w.messages
  {
    if op.SelfDestruct? && CanDestroy(f, w, op.beneficiary) {
      DeconstructedIs(w, f.address, op.beneficiary, f.isConstructor);
    }
  }

  /** Without a contract in its place, no message in the base token's name lacks the tokens it announces. */
  lemma {:induction false} TraceIsGenuine(rules: Rules, height: nat, f: Frame, w: World, t: Trace, at: nat)
    requires Runs(rules, height, f, w, t, at) && !Impersonates(rules, f, w, t)
    requires Genuine(w.messages) && f.address != L2_BASE_TOKEN_ADDRESS
    ensures Genuine(After(rules, f, w, t).messages)
    decreases t
  {
    match t
    case Begin =>
    case Did(before, _, _) => TraceIsGenuine(rules, height, f, w, before, at);
    case Called(before, op, course) =>
      TraceIsGenuine(rules, height, f, w, before, at);
      CallIsGenuine(rules, height + 1, After(rules, f, w, before), CallBy(f, op), course, at + Size(before) + 1);
    case Deployed(before, op, creation) =>
      TraceIsGenuine(rules, height, f, w, before, at);
      CreationIsGenuine(rules, height + 1, After(rules, f, w, before), DeploymentBy(f, op), creation,
                        at + Size(before) + 1);
  }

  lemma {:induction false} CallIsGenuine(rules: Rules, height: nat, w: World, call: ExternalCallRequest, course: Course,
                                         at: nat)
    requires CallRuns(rules, height, w, call, course, at) && !CallImpersonates(rules, w, call, course)
    requires Genuine(w.messages) && call.caller != L2_BASE_TOKEN_ADDRESS
    ensures Genuine(CallOutcome(rules, w, call, course).0.messages)
    decreases course
  {
    var paid := Paid(w, call);
    assert paid.messages == w.messages;
    match course
    case Ran(body, ending) =>
      TraceIsGenuine(rules, height, FrameOf(call), paid, body, at);
      if ending.Halted? {
        EndSendsNothing(FrameOf(call), After(rules, FrameOf(call), paid, body), ending.op);
      }
    case Kernel(_, _) => HookIsGenuine(rules, paid, call);
    case _ =>
  }

  lemma {:induction false} CreationIsGenuine(rules: Rules, height: nat, w: World, d: DeploymentRequest,
                                             creation: Creation, at: nat)
    requires CreationRuns(rules, height, w, d, creation, at) && !CreationImpersonates(rules, w, d, creation)
    requires Genuine(w.messages)
    ensures Genuine(CreationOutcome(rules, w, d, creation).0.messages)
    decreases creation
  {
    var f, start := ConstructorFrame(rules, w, d), Start(rules, w, d);
    StartSendsNothing(rules, w, d);
    if creation.Constructed? {
      TraceIsGenuine(rules, height, f, start, creation.body, at);
      if creation.ending.Halted? {
        EndSendsNothing(f, After(rules, f, start, creation.body), creation.ending.op);
      }
    }
  }

  // ----- all of it, for calls and deployments that are done

  lemma CallKeeps(rules: Rules, height: nat, w: World, at: nat, call: ExternalCallRequest, course: Course, w': World,
                  result: CallResult, steps: nat)
    requires CallDone(rules, height, w, at, call, course, w', result, steps)
    ensures Accounted(w') == Accounted(w)
    ensures !result.Successful? || IsStaticModifier(call.modifier) ==> w' == w
    ensures result.Successful? && call.callee >= SPECIAL_ADDRESS_BOUND && w.CodeAt(call.callee).bytes == [] ==>
      ValueMoved(w, w', call)
    ensures call.caller != L2_BASE_TOKEN_ADDRESS && !CallImpersonates(rules, w, call, course) && Genuine(w.messages) ==>
      Genuine(w'.messages)
  {
    CallConserves(rules, w, call, course);
    if IsStaticModifier(call.modifier) {
      StaticCallKeeps(rules, height, w, call, course, at);
    }
    if call.caller != L2_BASE_TOKEN_ADDRESS && !CallImpersonates(rules, w, call, course) && Genuine(w.messages) {
      CallIsGenuine(rules, height, w, call, course, at);
    }
  }

  lemma CreationKeeps(rules: Rules, height: nat, w: World, at: nat, d: DeploymentRequest, creation: Creation, w': World,
                      result: DeploymentResult, steps: nat)
    requires CreationDone(rules, height, w, at, d, creation, w', result, steps)
    ensures Accounted(w') == Accounted(w)
    ensures result.DeploymentFailed? ==> w' == Numbered(w, d)
    ensures result.DeploymentSuccessful? ==>
      && result.deployedAt == AddressOf(rules, d, w) && w'.CodeAt(result.deployedAt) == Code(result.code, true)
      && w'.Nonce(result.deployedAt) >= 1
    ensures !CreationImpersonates(rules, w, d, creation) && Genuine(w.messages) ==> Genuine(w'.messages)
  {
    CreationConserves(rules, w, d, creation);
    if result.DeploymentSuccessful? {
      NewContractHasNonce(rules, height, w, at, d, creation, w', result, steps);
    }
    if !CreationImpersonates(rules, w, d, creation) && Genuine(w.messages) {
      CreationIsGenuine(rules, height, w, d, creation, at);
    }
  }
}
