# ZKsync OS: a Dafny model of the call machine, settlement and proving primitives

ZKsync OS is the kernel that runs blocks of EVM transactions inside a provable RISC-V
machine. This project models its hardest parts and proves what each of them is for.

| files | part of the system |
|---|---|
| `World`, `Resources`, `IoSubsystem`, `Calls` | the state a block changes, the two meters (ergs and native), frames and the services that write state |
| `SystemHooks` | the kernel contracts: L1 messenger, base token, contract deployer, precompiles |
| `Opcodes`, `Semantics`, `Trees` | what opcodes, calls and deployments mean for the state: a big-step semantics of whole call trees, and theorems about all of them |
| `Interpreter`, `Runner`, `CreateAddress` | an EVM frame between two preemption points, the recursive machine that runs calls and deployments, and where new contracts go |
| `GasSettlement`, `L1Transaction` | budgets, refunds, and the processing of a transaction that came from L1 |
| `HistoryMap`, `Journal` | the map with snapshots behind every rollback, and the frames of the system on top of it |
| `BigIntDelegation`, `BigInt256`, `BigInt512` | modular arithmetic in place on 256-bit cells with static scratch cells |
| `Wnaf`, `AbelianGroup`, `EcMult` | signed-digit recoding and double-scalar multiplication on secp256r1 and secp256k1 |
| `Oracle` | the word-by-word protocol between the 32-bit guest and the 64-bit host |
| `BitMaps`, `JumpAnalysis`, `Memory` | jump analysis against the instruction pointer, and memory pricing |
| `Blake2s`, `Rlp` | streaming hash and header encoding |

`dafny verify dfyconfig.toml` checks everything.

## Main results

* **The machine runs the semantics.** `Semantics` says, without resources, what a call tree means:
  a trace tells which opcodes were executed, which calls and deployments they led to and how each
  frame ended; the world and the answer are functions of it. `Runner` is the recursive machine
  itself, over an arbitrary stream of opcodes, service costs and precompile answers. Every run of
  it, of a call or a deployment, follows a trace that takes its opcodes from that stream one by
  one, and leads to exactly the world and the result of that trace. A call into code is successful
  exactly if the last opcode of the callee's frame was a STOP, a RETURN or a SELFDESTRUCT that went
  through, and returns its data; a call into the kernel space does exactly what its hook is for.
* **What a call comes to.** A call with plenty of resources goes exactly the way that the world,
  the depth and the callee's first opcode foretell (`Semantics.Expected`): not started, not paid,
  no code, too deep, the answer of a hook, or the end of a frame that halts at once; and all it
  did not use comes back. The same holds for a deployment and for the call of an L1 transaction.
* **Whole call trees.** For every trace: a static call leaves the world exactly as it was, at every
  depth; a call that does not succeed leaves the world as it was before the call, and a failed
  deployment moves at most the deployer's nonce, by one; no nonce ever falls, so that a contract
  that was created has one. For every run: the resources handed back never exceed those given,
  stipends and 63/64 splits included; every opcode is paid with native, which is the termination
  measure of the whole recursion and bounds the number of opcodes by N/20 + 1; the frame stack and
  the call depth are restored.
* **What ends a run.** Apart from native running out, a first transfer without funds and a first
  call with a modifier the EVM does not know, a run ends early only for these reasons: `Internal`
  (a failed transfer, nonce or self-destruction that the code takes for impossible) only if more
  value exists than 256 bits can count; `OutOfReturnMemory` only if frames and hooks returned more
  bytes than the return buffer held; `OversizedCalldata` only if some calldata of the run was
  longer than 2^32 - 172 bytes.
* **Conservation of value.** `Accounted` is the sum of all balances, of everything announced to
  L1 by the withdrawals of the base token's hook, and of what self-destruction burnt. Every trace
  of a frame, a call or a deployment keeps it, and an L1 transaction raises it by exactly its
  deposit on every path: success, revert, success undone for lack of pubdata, and a run that died
  with inner frames still open. No other message is ever sent in the base token's name, unless
  the run was started in its name or a contract was created at its address.
* **Settlement.** An L1 transaction succeeds exactly if its call, run on the world with its value
  minted, is successful and what is left pays for the pubdata of that world. When native runs out,
  while the transaction is prepared or while it runs, the code gives up all its ergs, so that all
  of its gas is charged. In general the gas used is exactly the larger of the gas charged (after
  the refund, and at least the minimum) and the gas the native is worth (`GasSettlement.GasUsed`).
* **Frames are snapshots.** The system remembers a whole world per frame; the code keeps a map
  with snapshots. `Journal` proves that the second refines the first, for storage, balances, nonces
  and code, also for frames abandoned inside the one rolled back.
* **Arithmetic in place.** Barrett, one-limb and two-limb Montgomery multiplication return the
  stated residues with the stated bounds. Cells are heap objects, so the proofs cover aliasing
  with the scratch cells, ROM operands and squaring.
* **Recoding and multiplication.** The digits of every scalar evaluate to it and are a wNAF, and
  both curves' interleaved loops return na*A + ng*G over any abelian group.
* **Protocol refinement.** Any session of oracle queries, each read to the end or
  abandoned, delivers to the responder the packed input and to the guest its own answer.
* **Agreement.** Cached jump bitmaps answer as fresh ones do across word sizes, so that no
  contract, from its analysis to its run, has an immediate byte executed, the price of memory
  depends only on the size reached, streaming BLAKE2s equals section 3.3 of RFC 7693, and header hashing and the derivation of addresses are
  injective up to the hash function.

## Where the code does less than one would expect

* `BigInt512.NegatedExactly`: negation modulo m is right exactly for zero, for values with both
  halves non-zero, and for m/2; `NegatedFailsOnOne` gives the value 1 modulo 3.
* `SystemHooks.EncodedLength`: the 32-bit length of an extended withdrawal overflows exactly
  when the additional data is longer than 2^32 - 172 bytes; `LongestDataOverflows` gives
  calldata that is accepted and overflows. The model turns the overflow into an error.
* `Oracle.FullQuery`: the announced length is exact, and the host idle after reading it, exactly
  when the response has fewer than 2^31 words; `LongAnswerIsLost` gives one that is announced as empty.
* `Wnaf.SubtractionOverflow`: the 32-bit subtraction overflows exactly for window 31 with a carry,
  as in `OnesOverflow`; the wrapped digit is still right, and the windows of the curves never get
  there (`SmallWindowsNeverOverflow`).
* `GasSettlement.ComputeGasRefund`: the gas charged and the worth of the native are compared as
  i64. The worth is never too far above (`NeverFarAhead`), so the larger of them is charged exactly
  if the gas charged is at most 2^63 above the worth; otherwise only the worth is. `HugeLimitIsFree`
  gives a limit of 2^63 + 1 of which all is spent and nothing charged. A limit whose ergs fit 64
  bits never gets there (`L1Transaction.BudgetFits`).
* `Runner.TransferGoesToCallee`: the debug assertion on the transfer target fails exactly for a
  callcode with value that names another account, as in `CallcodePaysCaller`.
* `HistoryMap.AbandonedSnapshot`: after a rollback, a snapshot taken later still shows its own
  value of a key exactly if the two snapshots agreed on it; `AbandonedSnapshotIsLost` gives a
  journal where they did not, and where a rollback to the lost snapshot is still accepted.
* `Oracle.RawQuery`: a disconnected host ignores a query if and only if none of its words is the
  ID of the console query (`TracelessExactly`); such a word, even inside another query, it takes for
  the start of one. `ConsoleIdIsNotIgnored` gives a query that leaves the host waiting for the rest
  of a console query nobody sent.

## Model

| member | source | states |
|---|---|---|
| World.SupplyUpdate | basic_system/src/system_implementation/flat_storage_model/account_cache.rs:255-293 | writing one balance changes the sum of all balances by exactly the difference |
| World.SupplyBoundsBalance | basic_system/src/system_implementation/flat_storage_model/account_cache.rs:255-293 | no balance exceeds the sum of all |
| World.AnnouncedAppend | system_hooks/src/l2_base_token.rs:108-349 | a further message announces exactly the value in its bytes 24 to 56 if the base token's hook sent it, and nothing otherwise |
| Resources.Resources.Charge | zk_ee/src/reference_implementations/mod.rs:100-110 | succeeds exactly when both meters suffice and then removes exactly the cost; short native wins over short ergs; never increases a meter |
| Resources.Apply63Of64 | evm_interpreter/src/gas.rs:150-154 | what is kept back is whole gas, at most a 64th, and less than a 64th by under one gas |
| IoSubsystem.TransferConserves | basic_system/src/system_implementation/flat_storage_model/account_cache.rs:295-342 | a transfer between any two accounts, equal or not, keeps the sum of balances and the accounted value |
| IoSubsystem.DeconstructedIs | basic_system/src/system_implementation/flat_storage_model/account_cache.rs:1121-1150 | exactly accounts new in this transaction or under construction become doomed; the balance goes to the beneficiary, is burnt if a doomed account names itself, and stays if another does; nothing else changes |
| IoSubsystem.SelfTransferIsIdentity | basic_system/src/system_implementation/flat_storage_model/account_cache.rs:295-342 | paying oneself leaves the world as it was |
| IoSubsystem.OverflowNeedsHugeSupply | basic_system/src/system_implementation/flat_storage_model/account_cache.rs:295-342 | a credit can overflow only if the sum of balances exceeds 256 bits |
| IoSubsystem.CreditAdds | basic_system/src/system_implementation/flat_storage_model/account_cache.rs:255-293 | a mint raises the accounted value by exactly its amount |
| IoSubsystem.DebitRemoves | basic_system/src/system_implementation/flat_storage_model/account_cache.rs:255-293 | a burn lowers the accounted value by exactly its amount |
| IoSubsystem.DestroySelfConserves | basic_system/src/system_implementation/flat_storage_model/account_cache.rs:1086-1185 | the balance a self-destructing account burns is counted as destroyed |
| IoSubsystem.System.StartGlobalFrame | basic_system/src/system_implementation/system/basic_storage_model.rs:365-377 | opens a frame that remembers the present world |
| IoSubsystem.System.FinishGlobalFrame | basic_system/src/system_implementation/system/basic_storage_model.rs:379-392 | closes the innermost frame and keeps the world |
| IoSubsystem.System.RollbackGlobalFrame | basic_system/src/system_implementation/system/basic_storage_model.rs:379-392 | restores the world of the frame with this handle and drops every frame opened since, closed or not |
| IoSubsystem.System.SubtractBalance | basic_system/src/system_implementation/system/basic_storage_model.rs:650-676 | with enough resources fails exactly for too small a balance; a failure changes nothing; success debits exactly the amount |
| IoSubsystem.System.AddBalance | basic_system/src/system_implementation/system/basic_storage_model.rs:650-676 | with enough resources fails exactly on overflow; a failure changes nothing; success credits exactly the amount |
| IoSubsystem.System.TransferValue | basic_system/src/system_implementation/flat_storage_model/account_cache.rs:295-342 | success is exactly the transfer; too small a balance changes nothing; overflow needs a supply beyond 256 bits |
| IoSubsystem.System.IncrementNonceOf | basic_system/src/system_implementation/flat_storage_model/account_cache.rs:616-656 | success adds one to the nonce; only the largest nonce overflows; a failure changes nothing |
| IoSubsystem.System.StorageWrite | basic_system/src/system_implementation/system/basic_storage_model.rs:119-153 | success writes one slot of the right storage; a failure changes nothing |
| IoSubsystem.System.EmitEvent | basic_system/src/system_implementation/system/basic_storage_model.rs:155-188 | success appends the event; a failure changes nothing |
| IoSubsystem.System.EmitL1Message | basic_system/src/system_implementation/system/basic_storage_model.rs:190-232 | success appends the message and returns its hash; a failure changes nothing |
| IoSubsystem.System.EmitL1TxLog | basic_system/src/system_implementation/system/basic_storage_model.rs:638-648 | success appends hash and outcome; a failure changes nothing |
| IoSubsystem.System.MarkForDeconstruction | basic_system/src/system_implementation/flat_storage_model/account_cache.rs:1086-1185 | success moves the balance to the beneficiary, dooms accounts deployed in this transaction or under construction, burns a doomed account's payment to itself, and keeps the accounted value |
| IoSubsystem.System.DeployCode | basic_system/src/system_implementation/flat_storage_model/account_cache.rs:732-854 | success sets the code with its jump bitmap and records the deployment; a failure changes nothing |
| SystemHooks.ParseAccepts | system_hooks/src/l1_messenger.rs:160-273 | exactly the strict encodings are accepted, and exactly their message is extracted |
| SystemHooks.ParseEncoded | system_hooks/src/l1_messenger.rs:160-273 | parsing an encoding gives the message back |
| SystemHooks.BuildWithdrawal | system_hooks/src/l2_base_token.rs:143-209 | the bytes assembled piece by piece are the encoding of selector, receiver and value |
| SystemHooks.EncodedLength | system_hooks/src/l2_base_token.rs:210-346 | the padded length, overflowing 32 bits exactly when the data exceeds 2^32 - 172 bytes |
| SystemHooks.BuildExtendedWithdrawal | system_hooks/src/l2_base_token.rs:210-346 | the bytes assembled are the encoding of selector, receiver, value, sender and data, unless the length overflows |
| SystemHooks.WithdrawalAnnouncesValue | system_hooks/src/l2_base_token.rs:143-346 | a withdrawal message announces exactly its value, whatever follows it |
| SystemHooks.ParseWithdrawWithMessage | system_hooks/src/l2_base_token.rs:210-346 | what is accepted lies inside the calldata, is as long as its length word says, and follows a clean receiver |
| SystemHooks.ParsesExactly | system_hooks/src/l2_base_token.rs:210-346 | accepted is exactly calldata with a clean receiver whose offset and length stay inside it |
| SystemHooks.ParsesPlainCalldata | system_hooks/src/l2_base_token.rs:210-346 | the plain encoding of receiver and data is accepted and gives the data back |
| SystemHooks.LongestDataOverflows | system_hooks/src/l2_base_token.rs:210-346 | the longest calldata is accepted and then overflows the 32-bit length |
| SystemHooks.SentAnnounces | system_hooks/src/l1_messenger.rs:160-273 | sending raises the accounted value by what the message announces |
| SystemHooks.SendToL1 | system_hooks/src/l1_messenger.rs:160-273 | without revert the parsed message and its event are emitted, both; with enough resources well-formed input is never refused |
| SystemHooks.L1MessengerHook | system_hooks/src/l1_messenger.rs:21-153 | succeeds only for a plain call of the selector, then sends exactly the message in the name of the caller and returns its hash; keeps the accounted value; forges no message unless the caller is the base token |
| SystemHooks.Withdraw | system_hooks/src/l2_base_token.rs:143-209 | burns exactly the value and sends exactly one message with receiver and value |
| SystemHooks.WithdrawWithMessage | system_hooks/src/l2_base_token.rs:210-346 | burns exactly the value and sends exactly one message with receiver, value, sender and data |
| SystemHooks.L2BaseTokenHook | system_hooks/src/l2_base_token.rs:17-349 | every call that is not reverted burns exactly what it announces and changes nothing else; nothing is returned; with enough resources every well-formed withdrawal succeeds |
| SystemHooks.WithdrawBySelector | system_hooks/src/l2_base_token.rs:140-349 | the selector decides which withdrawal is made; static calls and other selectors revert |
| SystemHooks.BurnBaseToken | system_hooks/src/l2_base_token.rs:143-209 | debits the base token's own account by exactly the value |
| SystemHooks.ContractDeployerHook | system_hooks/src/contract_deployer.rs:15-198 | only the upgrader, by a plain call, sets code, at the address given and with the preimage of the hash given; such a call with enough resources succeeds |
| SystemHooks.PrecompileHook | system_hooks/src/precompiles.rs:51-109 | touches no state; fails for good exactly when native is short; a refusal burns all ergs, an answer costs exactly its price |
| SystemHooks.SentIsGenuine | system_hooks/src/l1_messenger.rs:160-273 | a sent message keeps the list free of forgeries exactly if it is not in the base token's name or was backed by a burn |
| SystemHooks.CallMessenger | system_hooks/src/l1_messenger.rs:21-153 | without revert exactly the message of the call was sent in its caller's name and its hash returned; well-formed calls with enough resources are not reverted; it dies only of native or oversized calldata |
| SystemHooks.CallBaseToken | system_hooks/src/l2_base_token.rs:17-349 | without revert exactly the withdrawal of the call was made; well-formed calls with enough resources are not reverted; it dies only of native or oversized calldata |
| SystemHooks.CallContractDeployer | system_hooks/src/contract_deployer.rs:15-198 | without revert exactly the code of the call was set; well-formed calls with enough resources are not reverted; it dies only of native or oversized calldata |
| SystemHooks.CallPrecompile | system_hooks/src/precompiles.rs:51-109 | touches no state; reverts exactly if the precompile refuses or ergs are short, and otherwise returns its answer |
| Opcodes.ModifierFor | evm_interpreter/src/instructions/host.rs:385-462 | a call is static exactly if the frame or the opcode is, and delegate or callcode exactly if the opcode is |
| Semantics.DoStep | evm_interpreter/src/interpreter.rs:162-376 | an opcode that goes through at once takes a frame one step further, with exactly its effect |
| Semantics.CallStep | basic_bootloader/src/bootloader/runner.rs:120-174 | a call that took a possible course takes its frame one step further, to the world of that course |
| Semantics.DeployStep | basic_bootloader/src/bootloader/runner.rs:120-174 | the same for a deployment |
| Semantics.EndowedIs | basic_bootloader/src/bootloader/runner.rs:684-729 | a constructor starts with nonce one and exactly the value at the new account; nothing else moved |
| Semantics.RanDone | basic_bootloader/src/bootloader/runner.rs:455-525 | a frame that is done decides the call: its last opcode the result and its steps the world |
| Semantics.KernelDone | basic_bootloader/src/bootloader/runner.rs:527-606 | the answer of a hook decides the call |
| Semantics.ConstructedDone | basic_bootloader/src/bootloader/runner.rs:608-761 | a constructor that is through decides the deployment, with its code at the new account |
| Trees.NoncesNeverFall | basic_system/src/system_implementation/flat_storage_model/account_cache.rs:616-656 | no nonce is lower after the steps of a frame, whatever calls and deployments they led to |
| Trees.CallKeepsNonces | basic_system/src/system_implementation/flat_storage_model/account_cache.rs:616-656 | the same for a call |
| Trees.CreationKeepsNonces | basic_system/src/system_implementation/flat_storage_model/account_cache.rs:616-656 | the same for a deployment |
| Trees.NewContractHasNonce | basic_bootloader/src/bootloader/runner.rs:684-729 | a contract that was created has a nonce, whatever its constructor did |
| Trees.TraceConserves | basic_bootloader/src/bootloader/runner.rs:194-344 | the steps of a frame, with all calls and deployments below it, keep the accounted value |
| Trees.CallConserves | basic_bootloader/src/bootloader/runner.rs:194-344 | the same for a call |
| Trees.CreationConserves | basic_bootloader/src/bootloader/runner.rs:608-761 | the same for a deployment |
| Trees.WithdrawalConserves | system_hooks/src/l2_base_token.rs:143-346 | a withdrawal burns what it announces |
| Trees.HookConserves | basic_bootloader/src/bootloader/runner.rs:527-606 | the same for every hook: what it burns it announces |
| Trees.DeconstructionConserves | basic_system/src/system_implementation/flat_storage_model/account_cache.rs:1086-1185 | what a self-destruction does not move it books as destroyed |
| Trees.StaticFrameKeeps | evm_interpreter/src/interpreter.rs:162-376 | the steps of a static frame leave the world as it was, through all calls below it |
| Trees.StaticCallKeeps | basic_bootloader/src/bootloader/runner.rs:194-344 | a static call leaves the world as it was, whatever course it took |
| Trees.TraceIsGenuine | system_hooks/src/l1_messenger.rs:21-153 | unless a contract is created at the base token's address, a frame leads to no message in its name that lacks the tokens it announces |
| Trees.CallIsGenuine | system_hooks/src/l1_messenger.rs:21-153 | the same for a call not made in the base token's name |
| Trees.CreationIsGenuine | system_hooks/src/l1_messenger.rs:21-153 | the same for a deployment |
| Trees.CallKeeps | basic_bootloader/src/bootloader/runner.rs:194-344 | atomicity, static safety, conservation, genuine messages and exact payment of accounts without code, from the trace of a call |
| Trees.CreationKeeps | basic_bootloader/src/bootloader/runner.rs:608-761 | a failed deployment leaves at most the nonce moved; a successful one leaves its code and a nonce at the derived address |
| Interpreter.ResourcesPassed | evm_interpreter/src/ee_trait_impl.rs:309-360 | the callee gets the requested ergs or 63/64, plus the stipend, the caller keeps the rest, both together never more than there was; fails exactly if the fees are not covered |
| Interpreter.Interpreter.Spend | evm_interpreter/src/gas.rs:77-88 | removes exactly the cost; short native ends the run, short ergs alone end the frame |
| Interpreter.Interpreter.Store | evm_interpreter/src/instructions/host.rs:162-225 | a static frame refuses; otherwise writes exactly one slot of the frame's own account |
| Interpreter.Interpreter.EmitLog | evm_interpreter/src/instructions/host.rs:227-262 | a static frame refuses; otherwise appends exactly the event of the frame's own account |
| Interpreter.Interpreter.DestroyInFavourOf | evm_interpreter/src/instructions/host.rs:264-286 | a static frame refuses; otherwise the balance moves or burns as for the account itself, and the accounted value is kept |
| Interpreter.Interpreter.RequestCreate | evm_interpreter/src/instructions/host.rs:288-358 | never from a static frame; init code within its limit; the frame's whole pool goes into the request, which carries the scheme |
| Interpreter.Interpreter.RequestCall | evm_interpreter/src/instructions/host.rs:385-462 | the request carries the right value, callee, caller and modifier for its scheme; a static frame never asks for a paying CALL |
| Interpreter.Interpreter.Step | evm_interpreter/src/interpreter.rs:162-376 | one opcode does to the world, and leaves the loop with, exactly what is meant by it, or fails; it never fails with enough resources if nothing forbids it; it pays its native step cost; a static frame never changes the world |
| Interpreter.Interpreter.WriteState | evm_interpreter/src/instructions/host.rs:162-286 | the opcodes that write state: slot, event or destruction exactly as their operands say |
| Interpreter.Interpreter.Proceed | evm_interpreter/src/interpreter.rs:162-376 | the opcodes that do not: what they ask for or return is exactly what their operands say |
| Interpreter.Interpreter.RunOpcodes | evm_interpreter/src/interpreter.rs:20-97 | the opcodes executed are those of the program, in order; the world is that of their effects folded together, and the last one left the loop |
| Interpreter.Interpreter.ExecuteTillYieldPoint | evm_interpreter/src/interpreter.rs:20-97 | what is handed over is exactly what the last opcode asked for or how it ended the frame, after the folded effects of all opcodes before; resources only shrink, native pays for each opcode; a next opcode that halts and can be paid for ends the frame with exactly its price spent |
| Interpreter.Interpreter.CreateImmediateReturnState | evm_interpreter/src/interpreter.rs:378-443 | a constructor's code is accepted exactly within the size limit and without the reserved first byte; what a frame hands over is exactly its data; only errors and rejected code cost the remaining ergs; native is handed on whole |
| Interpreter.Interpreter.StartExecutingFrame | evm_interpreter/src/ee_trait_impl.rs:82-220 | the frame runs in the account, for the caller, with the value and as static as the modifier demands, from its first opcode on; one that halts at once costs exactly its opcode and the preparation of its code |
| Interpreter.Interpreter.Resume | evm_interpreter/src/ee_trait_impl.rs:222-298 | the frame goes on where it stood, with exactly what was returned |
| Interpreter.Interpreter.ContinueAfterExternalCall | evm_interpreter/src/ee_trait_impl.rs:222-255 | resuming finds an empty pool, takes back exactly what was returned and goes on where the frame stood; a call that could not start ends the frame, with all that was returned |
| Interpreter.Interpreter.ContinueAfterDeployment | evm_interpreter/src/ee_trait_impl.rs:257-298 | resuming finds an empty pool, takes back exactly what was returned and goes on where the frame stood |
| Runner.TransferGoesToCallee | basic_bootloader/src/bootloader/runner.rs:369-370 | the transfer goes to the callee exactly unless a callcode with value names another account |
| Runner.CallcodePaysCaller | basic_bootloader/src/bootloader/runner.rs:369-370 | a callcode of account 1 into account 2 with value is allowed and pays account 1 |
| Runner.StaticTransferIsSelfTransfer | basic_bootloader/src/bootloader/runner.rs:942-964 | a static call that may move value pays only itself |
| Runner.Run.CopyIntoReturnMemory | basic_bootloader/src/bootloader/runner.rs:177-192 | succeeds exactly if the data fits and consumes exactly that much |
| Runner.Run.RunCallPreparation | basic_bootloader/src/bootloader/runner.rs:890-1039 | ergs of caller and callee together stay within the call's; native goes to the callee whole; with plenty of ergs only a disallowed transfer stops the call, and what the two have together is all but the fees |
| Runner.Run.ReadCallee | basic_bootloader/src/bootloader/runner.rs:890-1039 | an entry frame reads with unlimited ergs, any other with the surcharge on value already taken |
| Runner.Run.PrepareCall | basic_bootloader/src/bootloader/runner.rs:890-1039 | prepared with plenty, the callee still has plenty |
| Runner.Run.CheckIfReturnsEarly | basic_bootloader/src/bootloader/runner.rs:347-453 | goes on exactly if the value could be paid, there is code or a special address, and the depth is within its limit; the result otherwise is the right one of failure and success; the value has moved exactly |
| Runner.Run.CallExecuteCalleeFrame | basic_bootloader/src/bootloader/runner.rs:455-525 | the result is success exactly if the last opcode of the callee's frame was a STOP, RETURN or SELFDESTRUCT that went through, with its data, in the world its steps led to; failure restores the world of the frame; one that halts at once gives back exactly the rest |
| Runner.Run.RunFrame | basic_bootloader/src/bootloader/runner.rs:455-525 | a frame from its first opcode to its end, for calls and constructors alike, follows a trace and hands over how that trace ends; resources, and why it can die |
| Runner.Run.RunToEnd | basic_bootloader/src/bootloader/runner.rs:485-514 | drives a frame through all its spawns to its end, its trace growing by each, by native as measure; no return data goes uncounted |
| Runner.Run.HandleSpawn | basic_bootloader/src/bootloader/runner.rs:120-174 | a spawn is served and the parent resumed one step further in its trace, with strictly less native if it spawns again |
| Runner.Run.ServeCall | basic_bootloader/src/bootloader/runner.rs:120-174 | a call is served one level deeper and extends the trace of its caller; it counts as not started exactly if it was not |
| Runner.Run.ServeDeployment | basic_bootloader/src/bootloader/runner.rs:120-174 | the same for a deployment |
| Runner.Run.CallToSpecialAddress | basic_bootloader/src/bootloader/runner.rs:527-606 | the answer and the world are those of the hook of the address; a hook that reverts leaves the world of the frame; without a hook the call succeeds with no data and all its resources; well-formed calls with plenty of resources succeed |
| Runner.Run.InvokeHook | basic_bootloader/src/bootloader/runner.rs:527-606 | by address: the messenger sends exactly the message and returns its hash, the base token makes exactly the withdrawal, the deployer sets exactly the code, a precompile answers and changes nothing; well-formed calls with enough resources are not reverted |
| Runner.Run.RunPreparedCall | basic_bootloader/src/bootloader/runner.rs:279-344 | a prepared call in a frame of its own takes a possible course and leads to its outcome; with plenty of resources the course is the expected one and the rest comes back |
| Runner.Run.BeginCall | basic_bootloader/src/bootloader/runner.rs:279-344 | a call that needs nothing to run is over with its frame closed or rolled back; any other has its value paid and its frame open |
| Runner.Run.RunPaidCall | basic_bootloader/src/bootloader/runner.rs:279-344 | a hook or the callee's code decides a call whose value is paid |
| Runner.Run.HandleRequestedExternalCall | basic_bootloader/src/bootloader/runner.rs:194-344 | one whole call: its trace, world and result are those of the semantics; with plenty of resources its course is the expected one and the rest comes back; atomicity, static safety, conservation, resource bounds, frame and depth discipline, no forged withdrawals, exact value transfer to accounts without code |
| Runner.Run.PrepareAndRun | basic_bootloader/src/bootloader/runner.rs:194-344 | the same as far as trace, outcome, resources and errors go |
| Runner.ServedCall | basic_bootloader/src/bootloader/runner.rs:120-174 | the outcome of a call is the next world of the frame that made it |
| Runner.ServedDeployment | basic_bootloader/src/bootloader/runner.rs:120-174 | the outcome of a deployment is the next world of the frame that made it |
| Runner.Run.PrepareForDeployment | evm_interpreter/src/ee_trait_impl.rs:363-563 | launches exactly if the deployer has the funds and a nonce to use and the derived address has neither nonce nor code; the world is the old one with exactly the nonce moved; the constructor gets 63/64 of the ergs and the deployer keeps the rest |
| Runner.Run.TakeNonce | evm_interpreter/src/ee_trait_impl.rs:363-444 | the nonce is taken exactly if the funds are there and it is not used up |
| Runner.Run.OpenAccount | basic_bootloader/src/bootloader/runner.rs:684-729 | the new account gets nonce one and exactly the value; with enough native that fails only if the transfer cannot be made |
| Runner.Run.ExecuteConstructorFrame | basic_bootloader/src/bootloader/runner.rs:763-874 | the constructor's last opcode decides the result, and success leaves exactly its code on top of the world its steps led to |
| Runner.Run.StoreCode | basic_bootloader/src/bootloader/runner.rs:763-874 | code is stored exactly at its address, and only failed for want of ergs; other return data takes room |
| Runner.Run.BuildAccount | basic_bootloader/src/bootloader/runner.rs:673-760 | the constructor starts in the world with nonce one and exactly the value at the new account |
| Runner.Run.RunDeploymentFrame | basic_bootloader/src/bootloader/runner.rs:673-760 | the constructor starts in the world with nonce one and exactly the value at the new account, and its end decides the deployment; a failed constructor leaves the world as before the frame; one that halts at once with plenty of resources is not refused |
| Runner.Run.HandleRequestedDeployment | basic_bootloader/src/bootloader/runner.rs:608-761 | one whole deployment: its trace, world and result are those of the semantics; a contract that was created is at the derived address, with its code and a nonce; failure moves at most the deployer's nonce; with plenty of resources a constructor that returns at once leaves exactly the expected world |
| Runner.Run.PrepareAndDeploy | basic_bootloader/src/bootloader/runner.rs:608-761 | the same as far as trace, outcome, resources and errors go |
| Runner.Run.LaunchDeployment | basic_bootloader/src/bootloader/runner.rs:660-761 | with a free address only the depth can still refuse |
| Runner.Run.RunTillCompletion | basic_bootloader/src/bootloader/runner.rs:30-88 | for every run from the root, call or deployment: its trace and outcome, reverted exactly if the call's result is not a success; at most N/20 + 1 opcodes, conservation, atomicity, no forged withdrawals, and what each error means |
| GasSettlement.CalldataCostPerByte | basic_bootloader/src/bootloader/gas_helpers.rs:139-155 | every further byte costs 4 or 16 gas and one native, starting from nothing |
| GasSettlement.GetResourcesForTx | basic_bootloader/src/bootloader/gas_helpers.rs:36-135 | a budget is granted exactly if the native limit covers the intrinsic parts below the cap and the gas limit the intrinsic gas, with ergs that fit 64 bits; then full native limit = intrinsic pubdata + intrinsic computation + main + withheld, and withholding starts only at the cap |
| GasSettlement.NativeWorthBounded | basic_bootloader/src/bootloader/process_transaction.rs:50-143 | native within the limit is never worth more gas than the limit, saturated or not |
| GasSettlement.NativeInGasRoundsDown | basic_bootloader/src/bootloader/process_transaction.rs:112-116 | native is worth its quotient by the price, rounded down, and nothing without a price |
| GasSettlement.GasBeforeNative | basic_bootloader/src/bootloader/process_transaction.rs:64-101 | the gas spent less the refund, which is at most a fifth, and at least the minimum |
| GasSettlement.ChargeForNative | basic_bootloader/src/bootloader/process_transaction.rs:102-128 | the larger of gas charged and native worth unless the charge is more than 2^63 above; below 2^63 the gas used pays for the native |
| GasSettlement.RaisedWraps | basic_bootloader/src/bootloader/process_transaction.rs:112-121 | the one way in which the difference of the two wraps around |
| GasSettlement.RaiseToNative | basic_bootloader/src/bootloader/process_transaction.rs:50-143 | the larger of the gas used and the gas the native is worth if their difference fits an i64, and the smaller one otherwise; within the limit |
| GasSettlement.NeverFarAhead | basic_bootloader/src/bootloader/process_transaction.rs:50-143 | the worth of the native is less than 2^63 above the gas charged |
| GasSettlement.HugeLimitIsFree | basic_bootloader/src/bootloader/process_transaction.rs:50-143 | with a limit of 2^63 + 1, all spent as ergs and no native used, no gas is charged |
| GasSettlement.ComputeGasRefund | basic_bootloader/src/bootloader/process_transaction.rs:50-143 | refund and use add up to the limit; use is exactly the larger of the charged gas and the native worth, unless the charged gas is more than 2^63 above it; for limits below 2^63 it respects the minimum and pays for the native |
| GasSettlement.ChargedGasPaysForNative | basic_bootloader/src/bootloader/process_transaction.rs:50-143 | the gas charged pays for the native actually used, up to one unit of rounding |
| L1Transaction.BudgetFits | basic_bootloader/src/bootloader/gas_helpers.rs:36-135 | a budget keeps ergs within the gas limit and main plus withheld native within the full limit |
| L1Transaction.NativePerGas | basic_bootloader/src/bootloader/process_l1_transaction.rs:60-73 | the price of gas in native, rounded up, or the fixed ones of simulations and upgrades |
| L1Transaction.PriceTransaction | basic_bootloader/src/bootloader/process_l1_transaction.rs:34-143 | accepts exactly transactions whose budget can be bought and whose deposit covers value and largest fee, and returns that budget |
| L1Transaction.DepositCovers | basic_bootloader/src/bootloader/process_l1_transaction.rs:92-104 | the checked arithmetic accepts exactly deposits that cover value and fee |
| L1Transaction.MintFromInfinite | basic_bootloader/src/bootloader/run_single_interaction.rs:17-54 | credits exactly the amount, and fails only if more value would exist than 256 bits can count |
| L1Transaction.PubdataChargePerByte | basic_bootloader/src/bootloader/gas_helpers.rs:164-178 | every further byte costs its price, until the sum no longer fits 64 bits |
| L1Transaction.Transactions.MintValue | basic_bootloader/src/bootloader/process_l1_transaction.rs:345-362 | the sender gets exactly the value; fails only by overflow or for native |
| L1Transaction.Transactions.RunSingleInteraction | basic_bootloader/src/bootloader/run_single_interaction.rs:61-163 | the call of the transaction, from its sender to its target with its data and value: its trace and outcome, success exactly if its result is; with plenty of resources the expected course, and the rest comes back; conservation, atomicity, and what its errors mean |
| L1Transaction.Transactions.MintAndRun | basic_bootloader/src/bootloader/process_l1_transaction.rs:345-390 | that call runs in the world with exactly the value minted to the sender |
| L1Transaction.Transactions.ExecuteAndNotify | basic_bootloader/src/bootloader/process_l1_transaction.rs:319-425 | the call runs in the world with the value minted; success exactly if its result is and what is left, the withheld part included, pays for the pubdata; frames are intact on every return |
| L1Transaction.Transactions.DeliveryKeeps | basic_bootloader/src/bootloader/process_l1_transaction.rs:319-425 | a call that succeeded raised the accounted value by exactly the value of the transaction, and forged nothing |
| L1Transaction.Transactions.PrepareAndExecute | basic_bootloader/src/bootloader/process_l1_transaction.rs:109-216 | the execution is reached exactly if the budget pays for the hash; otherwise nothing changes and no ergs are left |
| L1Transaction.Transactions.ExecuteInFrame | basic_bootloader/src/bootloader/process_l1_transaction.rs:144-216 | success exactly if the call's result is and its pubdata is paid for, and then the world is that of the call; anything else, and a run that died with inner frames open, leaves the world as before; it counts as run out exactly if native ended it, and then no ergs are left |
| L1Transaction.Transactions.Settle | basic_bootloader/src/bootloader/process_l1_transaction.rs:217-316 | operator and refund recipient get exactly the fee and the rest of the deposit, and the outcome is logged; no subtraction underflows; while all value fits 256 bits it never fails |
| L1Transaction.Transactions.GasFor | basic_bootloader/src/bootloader/process_transaction.rs:50-143 | the gas used is that of what the call left, less the pubdata if it stays; all of it if no ergs are left |
| L1Transaction.Transactions.SettleGas | basic_bootloader/src/bootloader/process_l1_transaction.rs:217-316 | that gas is what fee and refund are computed from |
| L1Transaction.Transactions.ProcessL1Transaction | basic_bootloader/src/bootloader/process_l1_transaction.rs:34-316 | success exactly if the result of its call is and its pubdata is paid for; the world is that of the call with fee, refund and log on top; the gas used is that of what the call left; on every accepted path the accounted value grows by exactly the deposit; failure changes only the settlement; when native ran out, in preparation or in the run, all gas is charged; preparation runs out exactly if the budget does not pay for the hash; the checked subtractions never fail |
| L1Transaction.StarvedTransaction | basic_bootloader/src/bootloader/process_l1_transaction.rs:109-137 | one transaction that cannot pay for its hash: it fails and all its gas is charged |
| BigIntDelegation.AddWithCarry | crypto/src/bigint_delegation/delegation.rs:125-204 | sum with carry in and out, exactly |
| BigIntDelegation.SubWithCarry | crypto/src/bigint_delegation/delegation.rs:125-204 | difference with borrow in and out, exactly |
| BigIntDelegation.SubAndNegateWithCarry | crypto/src/bigint_delegation/delegation.rs:125-204 | reversed difference with borrow in and out, exactly |
| BigIntDelegation.MulLow | crypto/src/bigint_delegation/delegation.rs:125-204 | the low half of the product |
| BigIntDelegation.MulHigh | crypto/src/bigint_delegation/delegation.rs:125-204 | the high half of the product, which leaves room for one more |
| BigIntDelegation.Eq | crypto/src/bigint_delegation/delegation.rs:125-204 | equality |
| BigIntDelegation.MemCpy | crypto/src/bigint_delegation/delegation.rs:125-204 | copy |
| BigIntDelegation.CopyIfNeeded | crypto/src/bigint_delegation/delegation.rs:14-30 | an operand in ROM is copied to the scratch cell, any other is used as it is; either way the value is the operand's |
| BigIntDelegation.WideProduct | crypto/src/bigint_delegation/u256.rs:105-118 | both halves of the product |
| BigInt256.SubModWithCarry | crypto/src/bigint_delegation/u256.rs:147-153 | one subtraction brings anything below twice the modulus into range, carry included |
| BigInt256.AddModAssign | crypto/src/bigint_delegation/u256.rs:160-164 | sum modulo m |
| BigInt256.DoubleModAssign | crypto/src/bigint_delegation/u256.rs:184-189 | double modulo m |
| BigInt256.SubModAssign | crypto/src/bigint_delegation/u256.rs:171-177 | difference modulo m |
| BigInt256.NegModAssign | crypto/src/bigint_delegation/u256.rs:196-202 | negation modulo m |
| BigInt256.EqMod | crypto/src/bigint_delegation/u256.rs:246-263 | equality modulo m of values below 2m, leaving both as they were |
| BigInt256.BarrettIdentity | crypto/src/bigint_delegation/u256.rs:290-319 | folding twice keeps the residue |
| BigInt256.BarrettBounds | crypto/src/bigint_delegation/u256.rs:290-319 | after two folds the value is below 2m, so one correction is enough |
| BigInt256.MulAssignBarrett | crypto/src/bigint_delegation/u256.rs:290-319 | the product's residue in [0, m) for all operands, with no scratch cell corrupting a live value |
| BigInt256.SquareAssignBarrett | crypto/src/bigint_delegation/u256.rs:325-330 | the square's residue, although the copy of the operand is itself a static cell |
| BigInt256.ReductionClearsLow | crypto/src/bigint_delegation/u256.rs:348-380 | the multiple of m that is added clears the low limb |
| BigInt256.DivideByR | crypto/src/bigint_delegation/u256.rs:348-380 | what is left is the residue times the inverse of the radix |
| BigInt256.MulAssignMontgomery | crypto/src/bigint_delegation/u256.rs:348-380 | a*b/R modulo m in [0, m) whenever a*b < m*R |
| BigInt256.SquareAssignMontgomery | crypto/src/bigint_delegation/u256.rs:336-341 | a*a/R modulo m |
| BigInt512.SubModWithCarry | crypto/src/bigint_delegation/u512.rs:83-93 | one subtraction brings anything below twice the modulus into range |
| BigInt512.AddModAssign | crypto/src/bigint_delegation/u512.rs:99-106 | sum modulo m |
| BigInt512.SubModAssign | crypto/src/bigint_delegation/u512.rs:112-122 | difference modulo m |
| BigInt512.DoubleModAssign | crypto/src/bigint_delegation/u512.rs:128-132 | double modulo m |
| BigInt512.NegModAssign | crypto/src/bigint_delegation/u512.rs:138-149 | what the guard lets it compute |
| BigInt512.NegatedExactly | crypto/src/bigint_delegation/u512.rs:138-149 | it is the negation if and only if the value is zero, has both halves non-zero, or is half the modulus |
| BigInt512.NegatedFailsOnOne | crypto/src/bigint_delegation/u512.rs:138-149 | 1 modulo 3 is returned unchanged |
| BigInt512.AccumulateHigh | crypto/src/bigint_delegation/u512.rs:157-323 | both carries reach the high half through the low word cell, whose upper limbs stay zero |
| BigInt512.FirstRound | crypto/src/bigint_delegation/u512.rs:157-323 | r*R = a*b0 + k*m with r below a + m, held in two cells; for operands below h*R the high cell stays below 2h, as the code asserts |
| BigInt512.SecondRound | crypto/src/bigint_delegation/u512.rs:157-323 | the second round adds a*b1 + k*m to it and divides again, in place in a; the same bound on the high cell |
| BigInt512.Round | crypto/src/bigint_delegation/u512.rs:157-323 | in each round the dropped carry is zero |
| BigInt512.TopHalfStaysEmpty | crypto/src/bigint_delegation/u512.rs:157-323 | operands and modulus below h*R keep the high half below 2h |
| BigInt512.BothRounds | crypto/src/bigint_delegation/u512.rs:157-323 | one round per limb of b, each exact, with operands in ROM going through the one scratch cell in turn |
| BigInt512.TwoRounds | crypto/src/bigint_delegation/u512.rs:157-323 | two rounds give the residue of a*b/R^2 and the bound m + ab/R^2 |
| BigInt512.MulAssignMontgomery | crypto/src/bigint_delegation/u512.rs:157-323 | congruent to a*b/R^2 modulo m and below m + ab/R^2, for all a with a + m <= R^2; the scratch cells keep their invariant; the top half stays empty where the code asserts it |
| BigInt512.SquareAssignMontgomery | crypto/src/bigint_delegation/u512.rs:331-335 | the same for squares, through the copy cell |
| Wnaf.DigitOf | crypto/src/secp256r1/wnaf.rs:25-73 | the wrapped 32-bit digit is the word minus the carry's weight: odd and below half the window |
| Wnaf.SubtractionOverflow | crypto/src/secp256r1/wnaf.rs:25-73 | the subtraction leaves 32 bits if and only if the window is 31 and a carry goes out |
| Wnaf.OnesOverflow | crypto/src/secp256r1/wnaf.rs:25-73 | a scalar of 31 ones overflows at its first word with window 31 |
| Wnaf.SmallWindowsNeverOverflow | crypto/src/secp256r1/wnaf.rs:25-73 | windows up to 30, among them 5 and 10 of the curves, never overflow |
| Wnaf.FullWidth | crypto/src/secp256r1/wnaf.rs:25-73 | after the sign flip the top bit is clear |
| Wnaf.NextDigit | crypto/src/secp256r1/wnaf.rs:25-73 | each word yields a valid digit and a carry that is zero at the end |
| Wnaf.FillDigits | crypto/src/secp256k1/recover.rs:282-332 | the digits evaluate to the scalar with its sign and form a wNAF |
| Wnaf.Recode | crypto/src/secp256k1/recover.rs:282-332 | for every scalar and window 2 to 31: digits evaluate to the scalar, or to it minus the order; odd, small, at least a window apart, zero from the returned length on |
| AbelianGroup.TimesAdd | crypto/src/secp256r1/verify.rs:38-67 | multiples add up over all integers |
| AbelianGroup.TimesTimes | crypto/src/secp256k1/recover.rs:83-187 | a multiple of a multiple is the product's multiple |
| AbelianGroup.Killed | crypto/src/secp256r1/verify.rs:38-67 | multiples depend on the scalar only modulo the order |
| EcMult.FillOddMultiples | crypto/src/secp256r1/context.rs:29-41 | entry i is (2i+1) times the base |
| EcMult.TableGetIs | crypto/src/secp256r1/verify.rs:96-102 | for every valid digit, the index is inside the table and the entry is the digit's multiple, sign included |
| EcMult.WnafDigits.New | crypto/src/secp256r1/wnaf.rs:25-73 | a full-width array of digits that evaluates to the scalar modulo the order |
| EcMult.StreamOf | crypto/src/secp256r1/verify.rs:38-67 | digits and table for one point, also when the point is neutral or the scalar zero |
| EcMult.CombineStep | crypto/src/secp256r1/verify.rs:38-67 | doubling and adding both digits moves both evaluations one position down |
| EcMult.Interleave | crypto/src/secp256r1/verify.rs:38-67 | the loop returns both evaluations times their points |
| EcMult.EcMult | crypto/src/secp256r1/verify.rs:38-67 | na*A + ng*G for all scalars below the order |
| EcMult.Initialize | crypto/src/secp256k1/context.rs:61-72 | both precomputed tables are the odd multiples of G and of 2^128*G |
| EcMult.MapTable | crypto/src/secp256k1/recover.rs:83-187 | the auxiliary table is the odd multiples of lambda*A |
| EcMult.StreamsA | crypto/src/secp256k1/recover.rs:83-187 | the two streams of A sum to na*A |
| EcMult.StreamsG | crypto/src/secp256k1/recover.rs:83-187 | the two streams of G sum to ng*G |
| EcMult.Decompose128 | crypto/src/secp256k1/scalars/scalar64.rs:108-115 | the halves recombine to the scalar and are short enough for the digit array |
| EcMult.Combine4Step | crypto/src/secp256k1/recover.rs:83-187 | one double and four additions move all four evaluations one position down |
| EcMult.Interleave4 | crypto/src/secp256k1/recover.rs:83-187 | the loop returns the four evaluations times their points |
| EcMult.EcMultSplit | crypto/src/secp256k1/recover.rs:83-187 | na*A + ng*G, given a decomposition of na along the endomorphism |
| Oracle.PackUnpack | oracle_provider/src/lib.rs:107-177 | packing the unpacked words gives the response back |
| Oracle.UnpackPack | oracle_provider/src/lib.rs:107-177 | unpacking gives the words back, with a zero after an odd tail |
| Oracle.PackAppend | oracle_provider/src/lib.rs:282-307 | a further word fills the low half of a new word or the high half of the last |
| Oracle.ReceivingStep | oracle_provider/src/lib.rs:282-307 | a buffer that holds the packing of the words received holds, after one more, the packing with it, and is complete exactly when none is missing |
| Oracle.Host.constructor | oracle_provider/src/lib.rs:73-105 | starts idle, serves exactly the queries of its responders, and is connected exactly if it has one |
| Oracle.Host.Read | oracle_provider/src/lib.rs:139-177 | delivers exactly the next pending word; nothing else changes |
| Oracle.Host.Write | oracle_provider/src/lib.rs:179-219 | a new identifier discards what was left of the last answer; the last word of a query triggers its processing |
| Oracle.Host.ProcessBufferedQuery | oracle_provider/src/lib.rs:107-135 | the responder gets exactly the packed words, and what can be read is the length followed by the unpacked answer |
| Oracle.Host.DrainedIsIdle | oracle_provider/src/lib.rs:139-177 | with nothing left to read the host is idle |
| Oracle.OracleIterator.Next | proof_running_system/src/io_oracle/mod.rs:24-31 | yields the next word and counts down, or ends |
| Oracle.TracelessExactly | oracle_provider/src/lib.rs:179-219 | words sent to a disconnected host leave no trace if and only if none is the console ID |
| Oracle.IgnoredExactly | oracle_provider/src/lib.rs:179-219 | a disconnected host that did not panic is idle and has answered nothing if and only if none of the words was the console ID |
| Oracle.SendWords | proof_running_system/src/io_oracle/mod.rs:60-90 | writing the words one by one delivers exactly their packing, or exactly what a disconnected host makes of them |
| Oracle.SendQuery | proof_running_system/src/io_oracle/mod.rs:60-90 | the ID, the length and the words lead to the answer of the packed query; a disconnected host is left exactly as listening for console queries among them leaves it |
| Oracle.RawQuery | proof_running_system/src/io_oracle/mod.rs:60-90 | after any earlier session state, the responder gets the packed input and the guest is left with exactly this answer; only an unserved query panics; disconnecting and disconnected hosts give empty answers, and a disconnected one ignores the query if and only if no word is the console ID |
| Oracle.ConsoleIdIsNotIgnored | proof_running_system/src/io_oracle/mod.rs:60-90 | a one-word query with the console ID leaves a disconnected host in the middle of a console query |
| Oracle.Take | proof_running_system/src/io_oracle/mod.rs:24-31 | reading some words yields exactly that prefix and leaves the rest |
| Oracle.LengthExact | oracle_provider/src/lib.rs:107-135 | the 32-bit length is exact if and only if the response is shorter than 2^31 words |
| Oracle.LongAnswerIsLost | oracle_provider/src/lib.rs:107-135 | an answer of 2^31 words is announced as empty and none of it is read |
| Oracle.FullQuery | proof_running_system/src/io_oracle/mod.rs:60-90 | reading to the end yields the whole unpacked answer and an idle host, if and only if it is shorter than 2^31 words |
| Oracle.PartialQuery | proof_running_system/src/io_oracle/mod.rs:60-90 | an answer abandoned anywhere leaves the host ready |
| Oracle.Session | proof_running_system/src/io_oracle/mod.rs:60-90 | for any sequence of queries, fully or partly read, every reading is a prefix of its own answer and the responder saw exactly the packed inputs in order |
| BitMaps.WithBitIs | evm_interpreter/src/lib.rs:290-294 | setting a bit changes that bit only |
| BitMaps.SerializedBits | evm_interpreter/src/lib.rs:256-261 | the bytes hold the same bits at the same positions |
| BitMaps.SerializeDeserialize | evm_interpreter/src/lib.rs:349-355 | reading bytes as words and writing them back gives the bytes |
| BitMaps.Reread | evm_interpreter/src/lib.rs:349-363 | words of one size, stored and read with another, hold the same bits |
| BitMaps.BitMapOwned.constructor | evm_interpreter/src/lib.rs:274-281 | room for the capacity, all bits clear |
| BitMaps.BitMapOwned.SetBitOn | evm_interpreter/src/lib.rs:290-294 | exactly this bit becomes set |
| JumpAnalysis.NextBoundary | evm_interpreter/src/lib.rs:305-326 | the next boundary follows the immediates and none lies between |
| JumpAnalysis.Analyze | evm_interpreter/src/lib.rs:305-326 | the bit is set exactly at JUMPDEST bytes that start an instruction of the linear scan |
| JumpAnalysis.ParseStored | evm_interpreter/src/lib.rs:186-206 | parsing a stored bytecode with any padding yields the code and its bitmap |
| JumpAnalysis.CachedAnalysisAgrees | evm_interpreter/src/lib.rs:171-206 | a bitmap stored with one word size behind any padding and read with another answers as a fresh analysis |
| JumpAnalysis.Execution.Jump | evm_interpreter/src/instructions/control_flow.rs:5-31 | succeeds exactly for a valid destination that fits a machine word |
| JumpAnalysis.Execution.Step | evm_interpreter/src/instructions/stack.rs:19-49 | where the pointer goes after each instruction, and exactly when the run stops |
| JumpAnalysis.Execution.TraceOnBoundaries | evm_interpreter/src/interpreter.rs:155-195 | every position of every run is an instruction boundary or past the code |
| JumpAnalysis.Execution.Run | evm_interpreter/src/interpreter.rs:155-195 | the loop visits exactly that trace |
| JumpAnalysis.ImmediatesNeverRun | evm_interpreter/src/interpreter.rs:155-195 | an immediate byte is never taken as an opcode |
| JumpAnalysis.DeployAndRun | evm_interpreter/src/lib.rs:171-206 | a contract analysed, stored, parsed with another word size and run visits the trace of its code and executes no immediate byte |
| Memory.MemoryCostMonotone | evm_interpreter/src/gas.rs:92-114 | the price grows with the size, so no subtraction underflows |
| Memory.EndCostExact | evm_interpreter/src/gas.rs:92-114 | within the limit the saturating price is 3w + floor(w*w/512) of the Ethereum Yellow Paper |
| Memory.EvmMemory.SpendGasAndNative | evm_interpreter/src/gas.rs:77-88 | succeeds exactly when both meters suffice and removes exactly the cost |
| Memory.EvmMemory.PayForMemoryGrowth | evm_interpreter/src/gas.rs:92-114 | succeeds exactly when the price difference is affordable and then pays exactly it |
| Memory.EvmMemory.ResizeHeap | evm_interpreter/src/utils.rs:73-94 | succeeds exactly within limit, capacity and means; the heap is the old one with zeros up to the rounded end; paid is the price of the size reached |
| Memory.TwoGrowths | evm_interpreter/src/utils.rs:73-94 | growing twice is possible exactly if the larger size is affordable in gas and both steps in native |
| Memory.EvmMemory.MLoad | evm_interpreter/src/instructions/heap.rs:9-32 | exactly when possible, and then the big-endian word at the index, at the exact price |
| Memory.EvmMemory.MStore | evm_interpreter/src/instructions/heap.rs:34-58 | exactly when possible, and then only these 32 bytes change, at the exact price |
| Memory.EvmMemory.MStore8 | evm_interpreter/src/instructions/heap.rs:60-78 | exactly when possible, and then only this byte changes, at the exact price |
| Memory.EvmMemory.MCopy | evm_interpreter/src/instructions/heap.rs:88-110 | exactly when possible, and then the old source bytes are at the destination, overlapping or not; an empty copy ignores its offsets |
| Memory.EvmMemory.PrepareCall | evm_interpreter/src/instructions/host.rs:414-450 | succeeds exactly if both ranges can be covered; the gas is that of the larger size alone, the native that of each step; the input is the heap's, and the output range is inside the heap |
| Memory.EvmMemory.CopyReturndataToHeap | evm_interpreter/src/interpreter.rs:445-459 | writes at most the room made for it, inside the heap, whose size does not change |
| Memory.EvmMemory.Touch | evm_interpreter/src/utils.rs:73-94 | over any run of accesses the gas paid is the price difference between the first and the last size |
| Memory.SizeAfterIsLeast | evm_interpreter/src/utils.rs:73-94 | that size is the least multiple of 32 covering every access, in whatever order |
| Memory.CopyCostPlusVeryLow | evm_interpreter/src/gas.rs:124-145 | overflows exactly when length and base native exceed 64 bits; otherwise the gas pays for the least number of words that hold the bytes |
| Memory.CopyInPieces | evm_interpreter/src/gas.rs:124-145 | copying in two pieces costs at least as much gas as at once, and at most one word more |
| Memory.LoadAfterStore | evm_interpreter/src/instructions/heap.rs:9-58 | a stored word is read back, and disjoint words are untouched |
| Blake2s.AbsorbAppend | crypto/src/blake2s/delegated_extended.rs:33-57 | absorbing in two pieces is absorbing their concatenation |
| Blake2s.AbsorbIsRfc | crypto/src/blake2s/delegated_extended.rs:33-83 | absorbing and finishing is section 3.3 of RFC 7693: full blocks, a last block never empty unless the input is, the running length and the last flag |
| Blake2s.Blake2s256.constructor | crypto/src/blake2s/delegated_extended.rs:17-24 | a new hasher has absorbed nothing |
| Blake2s.Blake2s256.RunRoundFunction | crypto/src/blake2s/delegated_extended.rs:33-83 | one compression of the buffer with the running length and the flag |
| Blake2s.Blake2s256.CopyIn | crypto/src/blake2s/delegated_extended.rs:148-163 | the bytes land behind the filled part of the buffer |
| Blake2s.Blake2s256.Update | crypto/src/blake2s/delegated_extended.rs:33-57 | what was absorbed grows by exactly the data, whatever its length |
| Blake2s.Blake2s256.FillBlock | crypto/src/blake2s/delegated_extended.rs:33-57 | the buffer takes what fits, and all is there or left over |
| Blake2s.Blake2s256.CompressFull | crypto/src/blake2s/delegated_extended.rs:33-57 | a full buffer is compressed only when more input follows |
| Blake2s.Blake2s256.Finish | crypto/src/blake2s/delegated_extended.rs:60-83 | the digest is that of RFC 7693 on the input |
| Blake2s.Blake2s256.FinalizeReset | crypto/src/blake2s/delegated_extended.rs:86-115 | the same digest, and the hasher is as new |
| Blake2s.HashChunks | crypto/src/blake2s/delegated_extended.rs:33-115 | for any splitting of any input the digest is that of the concatenation |
| Rlp.StripIsMinimal | basic_bootloader/src/bootloader/rlp.rs:73-80 | stripping zeros from a fixed-width number leaves its shortest big-endian form |
| Rlp.DecodeEncodedLength | basic_bootloader/src/bootloader/rlp.rs:108-117 | a length prefix decodes to its length and leaves the rest |
| Rlp.DecodeEncoded | basic_bootloader/src/bootloader/rlp.rs:85-93 | an encoded string decodes to itself and leaves the rest |
| Rlp.EstimateLengthEncodingLen | basic_bootloader/src/bootloader/rlp.rs:58-66 | equals the length of the prefix emitted |
| Rlp.EstimateBytesEncodingLen | basic_bootloader/src/bootloader/rlp.rs:45-51 | equals the length of the string encoding emitted |
| Rlp.EstimateNumberEncodingLen | basic_bootloader/src/bootloader/rlp.rs:23-29 | equals the length of the number encoding emitted |
| Rlp.EstimateEncodingLenForPayloadLength | basic_bootloader/src/bootloader/rlp.rs:34-40 | counting zero bits gives the length of the list prefix emitted |
| Rlp.WholeZeroBytes | basic_bootloader/src/bootloader/rlp.rs:34-40 | the whole zero bytes of a number are what its shortest form leaves off |
| Rlp.ApplyLengthEncoding | basic_bootloader/src/bootloader/rlp.rs:108-117 | feeds exactly the prefix, on 32-bit and 64-bit machines alike |
| Rlp.ApplyBytesEncoding | basic_bootloader/src/bootloader/rlp.rs:85-93 | feeds exactly the string encoding |
| Rlp.ApplyNumberEncoding | basic_bootloader/src/bootloader/rlp.rs:73-80 | feeds exactly the encoding of the shortest form |
| Rlp.DecodeEncodedItems | basic_bootloader/src/bootloader/block_header.rs:122-162 | a list of items decodes to itself |
| Rlp.EncodeItemsInjective | basic_bootloader/src/bootloader/block_header.rs:122-162 | equal encodings come from equal items |
| Rlp.EncodeListInjective | basic_bootloader/src/bootloader/block_header.rs:122-162 | equal list encodings come from equal lists |
| Rlp.TotalListLen | basic_bootloader/src/bootloader/block_header.rs:122-162 | the declared length is the length of the payload |
| Rlp.HashHeader | basic_bootloader/src/bootloader/block_header.rs:122-162 | the hasher is fed exactly the list encoding of the sixteen fields |
| Rlp.HeaderInjective | basic_bootloader/src/bootloader/block_header.rs:122-162 | two headers feed the same bytes only if they are equal |
| HistoryMap.TouchedIs | zk_ee/src/common_structs/history_map/mod.rs:350-380 | an update appends a record, or overwrites the one of the present snapshot, and changes no earlier view |
| HistoryMap.RollbackElement | zk_ee/src/common_structs/history_map/element_with_history.rs:67-114 | drops exactly the records newer than the snapshot |
| HistoryMap.PrefixValue | zk_ee/src/common_structs/history_map/element_with_history.rs:67-114 | what is left shows the same values at every snapshot up to there |
| HistoryMap.CommitElement | zk_ee/src/common_structs/history_map/element_with_history.rs:127-153 | keeps the initial and the last record and nothing between them |
| HistoryMap.UndoNewer | zk_ee/src/common_structs/history_map/mod.rs:134-174 | undoing the pending list from its end restores every key |
| HistoryMap.HistoryMap.Snapshot | zk_ee/src/common_structs/history_map/mod.rs:126-130 | the snapshot shows the present value of every key |
| HistoryMap.HistoryMap.Load | zk_ee/src/common_structs/history_map/mod.rs:97-123 | inserts the stored value for a new key only |
| HistoryMap.HistoryMap.Update | zk_ee/src/common_structs/history_map/mod.rs:350-380 | changes this key only, and no earlier view |
| HistoryMap.HistoryMap.Rollback | zk_ee/src/common_structs/history_map/mod.rs:134-174 | accepts exactly the snapshots since the last commit; every key then shows its value at the snapshot, at this and every later snapshot, and older views are unchanged |
| HistoryMap.AbandonedSnapshot | zk_ee/src/common_structs/history_map/mod.rs:134-174 | a later snapshot still shows its own value of a key if and only if the two snapshots agreed on it before the rollback |
| HistoryMap.AbandonedSnapshotIsLost | zk_ee/src/common_structs/history_map/mod.rs:134-174 | a snapshot of a write shows the old value after a rollback to before the write |
| HistoryMap.HistoryMap.Commit | zk_ee/src/common_structs/history_map/mod.rs:178-193 | keeps initial and present values and freezes all earlier snapshots |
| HistoryMap.Execute | zk_ee/src/common_structs/history_map/mod.rs:126-174 | for every tree of nested frames the map shows exactly the writes of the frames that were not reverted |
| HistoryMap.RunFrame | zk_ee/src/common_structs/history_map/mod.rs:126-174 | a reverted frame leaves what was written before it, a finished one its own outcome |
| HistoryMap.Revert | zk_ee/src/common_structs/history_map/mod.rs:134-174 | rolling back to the snapshot of a frame, past inner frames that were abandoned, shows what was written before it |
| HistoryMap.RevertedFrame | zk_ee/src/common_structs/history_map/mod.rs:134-174 | every key loaded inside a reverted frame shows its stored value again |
| Journal.Journaled.constructor | zk_ee/src/common_structs/history_map/mod.rs:65-77 | a component of the state in a map with snapshots, with nothing written yet |
| Journal.Journaled.Start | basic_system/src/system_implementation/cache_structs/storage_values.rs:165-171 | a frame is a snapshot, which shows the present state |
| Journal.Journaled.Finish | basic_system/src/system_implementation/cache_structs/storage_values.rs:175-186 | closing a frame keeps the state |
| Journal.Journaled.Rollback | basic_system/src/system_implementation/cache_structs/storage_values.rs:175-186 | rolling the map back to the snapshot of a frame gives the state the frame remembers, and drops the frames inside |
| Journal.Journaled.Write | basic_system/src/system_implementation/cache_structs/storage_values.rs:310-388 | a write changes the state at this key and what no open frame remembers |
| Journal.Journaled.Read | basic_system/src/system_implementation/cache_structs/storage_values.rs:284-308 | a read shows the value last written, or the stored one |
| Journal.HoldsNext | basic_system/src/system_implementation/flat_storage_model/account_cache.rs:255-293 | writing the one account that changed makes the journal tell what the new world does |
| Journal.JournaledState.constructor | zk_ee/src/common_structs/history_map/mod.rs:65-77 | empty journals over storage and accounts of a system without open frames agree with it |
| Journal.JournaledState.Start | basic_system/src/system_implementation/flat_storage_model/mod.rs:565-575 | system and journals agree after a frame was opened in all |
| Journal.JournaledState.Finish | basic_system/src/system_implementation/flat_storage_model/mod.rs:577-590 | system and journals agree after a frame was closed in all |
| Journal.JournaledState.Rollback | basic_system/src/system_implementation/flat_storage_model/mod.rs:577-590 | storage and accounts of the system after a rollback are what the journals show |
| Journal.JournaledState.Write | basic_system/src/system_implementation/cache_structs/storage_values.rs:310-388 | system and journals agree after a storage write |
| Journal.JournaledState.Read | basic_system/src/system_implementation/cache_structs/storage_values.rs:284-308 | reads through the journal see the storage of the system |
| Journal.JournaledState.ReadAccount | basic_system/src/system_implementation/flat_storage_model/account_cache.rs:486-614 | reads through the journal see balance, nonce and code of the system |
| Journal.JournaledState.SubtractBalance | basic_system/src/system_implementation/flat_storage_model/account_cache.rs:255-293 | system and journals agree after a debit |
| Journal.JournaledState.AddBalance | basic_system/src/system_implementation/flat_storage_model/account_cache.rs:255-293 | system and journals agree after a credit |
| Journal.JournaledState.TransferValue | basic_system/src/system_implementation/flat_storage_model/account_cache.rs:295-342 | a transfer through the journal is exactly the system's, keeps the accounted value, and the journals agree, also when it fails half-way |
| Journal.JournaledState.IncrementNonceOf | basic_system/src/system_implementation/flat_storage_model/account_cache.rs:616-656 | system and journals agree after a nonce moved |
| Journal.JournaledState.DeployCode | basic_system/src/system_implementation/flat_storage_model/account_cache.rs:732-854 | system and journals agree after code was set |
| CreateAddress.QuasiRlpIsRlp | evm_interpreter/src/utils.rs:108-162 | the bytes assembled by hand are the list encoding of address and nonce |
| CreateAddress.QuasiRlpInjective | evm_interpreter/src/utils.rs:108-162 | no two pairs of address and nonce give the same bytes |
| CreateAddress.Preimage | evm_interpreter/src/ee_trait_impl.rs:486-492 | for a salted deployment the byte 0xff, then deployer, salt and code hash in this order |
| CreateAddress.PreimageInjective | evm_interpreter/src/ee_trait_impl.rs:447-500 | two deployments hash the same bytes only if they agree on scheme, deployer and nonce, or on deployer, salt and code hash |
| CreateAddress.NewSystem | evm_interpreter/src/ee_trait_impl.rs:447-500 | a system that derives every address from the last 20 bytes of the hash |
| CreateAddress.DeriveInjective | evm_interpreter/src/ee_trait_impl.rs:447-500 | two origins share an address only by a collision of the hash, on the bytes hashed or on the code |

## Left out

- Opcodes other than those that touch shared state, call, create or end a frame are arbitrary inputs with arbitrary costs: stack contents, per-opcode arithmetic and exact opcode prices do not bear on the guarantees of a call tree.
- Runner.Run.HandleRequestedExternalCall: which opcodes a call executes before it halts is told by its trace, and whether it can pay for all of them is not foretold; what is, is a callee that halts at once.
- Execution environments other than the EVM, and delegation designators of EIP-7702: one code lookup per call is modelled.
- Costs of state services and precompiles are arbitrary inputs below 2^60 ergs and native each; warm and cold accesses and the storage trees behind them are not modelled, and the refund counter after a storage write is an input.
- IoSubsystem.System.DeployCode: the hashes, version bytes and padding stored with the code are not modelled, since no guarantee of a run reads them; the bitmap behind the code is in `JumpAnalysis`.
- SystemHooks.ContractDeployerHook: the observable hash and length recorded beside the code are not modelled, for the same reason.
- Transactions that start on L2: their validation and fee payment; the settlement arithmetic they share is in `GasSettlement`.
- Return-data pointers and heap slices across frames: return data is a value, return memory is counted; memory contents are modelled frame by frame in `Memory`.
- Hash and compression functions, bytecode preimages and elliptic-curve point formulas are parameters; curve points form any abelian group. `Runner` holds for any derivation of the addresses of new contracts, among them that of `CreateAddress.NewSystem`.
- The GLV decomposition of a secp256k1 scalar and the endomorphism are parameters of `EcMult.EcMultSplit` with the relation the loop relies on; bit extraction from scalar limbs is taken as shift and mask.
- Word sizes as parameters: the radix of the big-integer cells is any value above 2^64, the BLAKE2s block any positive size and scalars any width, so the results hold for 256, 64 and 256 in particular.
- BigIntDelegation.MulLow: the discarded half is returned as a ghost value, so that later proofs need no division.
- Comparisons, zero tests and byte conversions of the big-integer files: the modular operations do not use them.
- Records of the journal are sequences instead of linked nodes, so the reuse of their memory is not modelled; update callbacks that fail are not modelled either. `Journal` treats storage slots and accounts, of the latter balance, nonce and code; transient storage, events and messages are kept in structures of their own.
- L1Transaction.Transactions.ProcessL1Transaction: says nothing about the world after a rejected transaction, which the caller discards; calldata is within the 2^23 bytes of a transaction; that all gas is charged when native ran out is stated for a refund counter below one gas, as every transaction starts with.
- Oracle.RawQuery: queries that read guest memory are modelled as far as the protocol words go.
- Rlp.EstimateNumberEncodingLen: numbers are given by value and width instead of as byte slices.
- Blake2s.Blake2s256.Update: the running length is kept by the round-function library outside the repository; the compression function receives it unbounded and may reduce it.
- Trap handling of unaligned accesses, hint-assisted signature recovery and diagnostics.
