/** The opcodes that matter outside their own frame. */
module Opcodes {
  import opened Numbers
  import opened World
  import opened Resources
  import opened Calls

  const STEP_NATIVE_COST: nat := 20
  const CALL_STIPEND: nat := 2300
  const CREATE: nat := 32000
  const SELFDESTRUCT: nat := 5000
  const INITCODE_WORD_COST: nat := 2
  const SHA3WORD: nat := 6
  const MAX_INITCODE_SIZE: nat := 0xC000
  const SPECIAL_ADDRESS_BOUND: nat := 0x10000

  datatype CallScheme = Call | CallCode | DelegateCall | StaticCall

  /**
   * One executed opcode with the operands it found on the stack and in memory. `cost` is
   * what its stack, memory and read-only parts charge. `Faulting` is any opcode whose
   * operands are rejected (stack limits, jump targets, memory limits, unknown opcodes).
   */
  datatype Op =
    | Local(cost: Resources)
    | Faulting(cost: Resources)
    | SStore(key: u256, value: u256)
    | TStore(key: u256, value: u256)
    | Log(topics: seq<u256>, data: seq<byte>, cost: Resources)
    | SelfDestruct(beneficiary: Address)
    | CreateOp(createScheme: CreateScheme, callValue: u256, initCode: seq<byte>, cost: Resources)
    | CallOp(scheme: CallScheme, gas: u64, to: Address, callValue: u256, calldata: seq<byte>, cost: Resources)
    | Stop
    | Return(data: seq<byte>, cost: Resources)
    | Revert(data: seq<byte>, cost: Resources)
  {
    /** What the opcode charges by itself, on top of what the services it uses charge. */
    function ErgsCost(): nat
    {
      match this
      case SelfDestruct(_) => SELFDESTRUCT * ERGS_PER_GAS
      case CreateOp(scheme, _, initCode, cost) =>
        CREATE * ERGS_PER_GAS + cost.ergs
        + (if scheme.Create2? then INITCODE_WORD_COST + SHA3WORD else INITCODE_WORD_COST)
          * ((|initCode| + 31) / 32) * ERGS_PER_GAS
      case SStore(_, _) => 0
      case TStore(_, _) => 0
      case Stop => 0
      case _ => cost.ergs
    }

    function NativeCost(): nat
    {
      STEP_NATIVE_COST +
      match this
      case SelfDestruct(_) => 100
      case CreateOp(_, _, _, cost) => 25_000 + cost.native
      case CallOp(_, _, _, _, _, cost) => 1500 + cost.native
      case Log(_, _, cost) => 50 + cost.native
      case SStore(_, _) => 100
      case TStore(_, _) => 100
      case Stop => 0
      case _ => cost.native
    }

    /** The largest number of services the opcode uses. */
    function Services(): nat
    {
      match this
      case SStore(_, _) => 1
      case TStore(_, _) => 1
      case Log(_, _, _) => 1
      case SelfDestruct(_) => 4
      case _ => 0
    }

    /** Opcodes that end a frame by themselves. */
    predicate Halts() { Stop? || Return? || Revert? }
  }

  /** Static-ness is inherited: the modifier of a call made by `scheme`. */
  function ModifierFor(scheme: CallScheme, isStatic: bool): (m: CallModifier)
    ensures IsStaticModifier(m) <==> isStatic || scheme.StaticCall?
    ensures m.Delegate? || m.DelegateStatic? <==> scheme.DelegateCall?
    ensures m.EVMCallcode? || m.EVMCallcodeStatic? <==> scheme.CallCode?
    ensures !m.Constructor? && !m.ZKVMSystem? && !m.ZKVMSystemStatic?
  {
    if isStatic || scheme.StaticCall? then
      match scheme
      case DelegateCall => DelegateStatic
      case CallCode => EVMCallcodeStatic
      case _ => Static
    else
      match scheme
      case Call => NoModifier
      case DelegateCall => Delegate
      case CallCode => EVMCallcode
  }
}
