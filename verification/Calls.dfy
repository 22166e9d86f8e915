/** Requests and results that pass between the bootloader, the interpreter and the hooks. */
module Calls {
  import opened Numbers
  import opened World
  import opened Resources
  import opened IoSubsystem

  const MAX_GLOBAL_CALLS_STACK_DEPTH: nat := 1024
  const MAX_CODE_SIZE: nat := 0x6000

  datatype ExecutionEnvironment = NoEE | EVM

  datatype CallModifier =
    | NoModifier | Constructor | Delegate | Static | DelegateStatic
    | ZKVMSystem | ZKVMSystemStatic | EVMCallcode | EVMCallcodeStatic

  predicate IsStaticModifier(m: CallModifier)
  {
    m.Static? || m.DelegateStatic? || m.ZKVMSystemStatic? || m.EVMCallcodeStatic?
  }

  datatype ExternalCallRequest = ExternalCallRequest(
    resources: Resources,
    ergsToPass: u64,
    caller: Address,
    callee: Address,
    callersCaller: Address,
    modifier: CallModifier,
    calldata: seq<byte>,
    value: u256
  ) {
    predicate IsTransferAllowed()
    {
      modifier.NoModifier? || modifier.Constructor? || modifier.ZKVMSystem?
      || modifier.EVMCallcode? || modifier.EVMCallcodeStatic?
    }

    predicate IsDelegate() { modifier.Delegate? || modifier.DelegateStatic? }

    predicate IsCallcode() { modifier.EVMCallcode? || modifier.EVMCallcodeStatic? }
  }

  /** Whose account a call moves value to: callcode pays the caller itself. */
  function TransferTarget(call: ExternalCallRequest): Option<Address>
  {
    if call.value == 0 || call.IsDelegate() then None
    else Some(if call.IsCallcode() then call.caller else call.callee)
  }

  datatype CreateScheme = Create | Create2(salt: u256)

  datatype DeploymentRequest = DeploymentRequest(
    resources: Resources,
    deployer: Address,
    scheme: CreateScheme,
    initCode: seq<byte>,
    value: u256,
    deployerNonce: Option<u64>
  ) {
    /** What the address is derived from, given the deployer's nonce before the deployment. */
    function OriginAt(nonce: u64): Origin
    {
      match scheme
      case Create => FromNonce(deployer, deployerNonce.GetOr(nonce))
      case Create2(salt) => FromSalt(deployer, salt, initCode)
    }
  }

  /** What the bootloader is asked to run, and what comes of it. */
  datatype SpawnRequest =
    | RequestedExternalCall(call: ExternalCallRequest)
    | RequestedDeployment(deployment: DeploymentRequest)
  {
    function Resources(): Resources
    {
      match this
      case RequestedExternalCall(c) => c.resources
      case RequestedDeployment(d) => d.resources
    }
  }

  datatype EndPoint =
    | CompletedExecution(reverted: bool, returndata: seq<byte>)
    | CompletedDeployment(result: DeploymentResult)

  datatype CallResult =
    | CallFailedToExecute
    | Failed(returndata: seq<byte>)
    | Successful(returndata: seq<byte>)

  datatype DeploymentResult =
    | DeploymentFailed(returndata: seq<byte>, executionReverted: bool)
    | DeploymentSuccessful(code: seq<byte>, deployedAt: Address)

  /**
   * Errors that end the whole run. `OversizedCalldata` stands for the conversions to u32
   * that the hooks assume to succeed, `Internal` for states the code calls impossible.
   */
  datatype RunError =
    | OutOfNative
    | TopLevelInsufficientBalance
    | OutOfReturnMemory
    | UnexpectedModifier
    | OversizedCalldata
    | Internal
}
