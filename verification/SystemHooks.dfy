/** System hooks: the L1 messenger, the base token with its withdrawals, and the precompiles. */
module SystemHooks {
  import opened Numbers
  import opened World
  import opened Resources
  import opened IoSubsystem
  import opened Calls

  // ----- ABI encoding of one `bytes` argument

  /** Offset word, length word, the message, and zeros up to a multiple of 32 bytes. */
  function AbiEncode(msg: seq<byte>): (abi: seq<byte>)
    ensures |abi| == RoundUp32(64 + |msg|)
  {
    ToBE(32, 32) + ToBE(|msg|, 32) + msg + Zeros(RoundUp32(64 + |msg|) - 64 - |msg|)
  }

  /** A 256-bit word that must fit in 32 bits. */
  function WordToU32(s: seq<byte>): (r: Option<u32>)
    requires |s| == 32
  {
    if FromBE(s) <= U32_MAX then Some(FromBE(s)) else None
  }

  datatype ParseError = Malformed | Oversized

  /** The checks of `send_to_l1_inner`, in order; the result is the message to emit. */
  function ParseSendToL1(abi: seq<byte>): (r: Result<seq<byte>, ParseError>)
    ensures r.Ok? ==> 64 + |r.value| <= |abi| <= U32_MAX && |abi| % 32 == 0
    ensures r == Err(Oversized) <==> |abi| > U32_MAX
  {
    if |abi| > U32_MAX then Err(Oversized) else
    if |abi| < 32 then Err(Malformed) else
    var offset := WordToU32(abi[..32]);
    if offset.None? || offset.value != 32 then Err(Malformed) else
    if |abi| < 64 then Err(Malformed) else
    var length := WordToU32(abi[32..64]);
    if length.None? then Err(Malformed) else
    if 64 + length.value > U32_MAX then Err(Malformed) else
    if |abi| < 64 + length.value then Err(Malformed) else
    if |abi| % 32 != 0 then Err(Malformed) else
    Ok(abi[64..64 + length.value])
  }

  /** `abi` starts with the encoding of `msg` and is padded to a multiple of 32 bytes. */
  predicate Encodes(abi: seq<byte>, msg: seq<byte>)
  {
    |abi| % 32 == 0 && 64 + |msg| <= |abi|
    && abi[..32] == ToBE(32, 32) && abi[32..64] == ToBE(|msg|, 32) && abi[64..64 + |msg|] == msg
  }

  /** Exactly the strict encodings are accepted. */
  lemma ParseAccepts(abi: seq<byte>, msg: seq<byte>)
    requires |abi| <= U32_MAX
    ensures ParseSendToL1(abi) == Ok(msg) <==> Encodes(abi, msg)
  {
    Pow256Values();
    if Encodes(abi, msg) {
      BERoundTrip(32, 32);
      BERoundTrip(|msg|, 32);
    } else if ParseSendToL1(abi) == Ok(msg) {
      BEInverse(abi[..32]);
      BEInverse(abi[32..64]);
    }
  }

  /** Whatever is encoded is accepted and comes back unchanged. */
  lemma ParseEncoded(msg: seq<byte>)
    requires RoundUp32(64 + |msg|) <= U32_MAX
    ensures ParseSendToL1(AbiEncode(msg)) == Ok(msg)
  {
    var abi := AbiEncode(msg);
    assert abi[..32] == ToBE(32, 32) && abi[32..64] == ToBE(|msg|, 32) && abi[64..64 + |msg|] == msg;
    ParseAccepts(abi, msg);
  }

  // ----- withdrawal messages

  const WITHDRAW_SELECTOR: seq<byte> := [0x51, 0xcf, 0xf8, 0xd9]
  const WITHDRAW_WITH_MESSAGE_SELECTOR: seq<byte> := [0x84, 0xbc, 0x3e, 0xb0]
  const FINALIZE_ETH_WITHDRAWAL_SELECTOR: seq<byte> := [0x6c, 0x09, 0x60, 0xf9]
  const L1_MESSAGE_SENT_TOPIC: u256 := 0x3a36e47291f4201faf137fab081d92295bce2d53be2c6ca68ba82c7faa9ce241
  const SEND_TO_L1_SELECTOR: seq<byte> := [0x62, 0xf8, 0x4b, 0x24]

  function WithdrawalMessage(receiver: seq<byte>, value: u256): (m: seq<byte>)
    requires |receiver| == 20
    ensures |m| == 56
  {
    FINALIZE_ETH_WITHDRAWAL_SELECTOR + receiver + ToBE(value, 32)
  }

  function ExtendedWithdrawalMessage(receiver: seq<byte>, value: u256, sender: Address, data: seq<byte>): (m: seq<byte>)
    requires |receiver| == 20
    ensures |m| == 76 + |data|
  {
    WithdrawalMessage(receiver, value) + ToBE(sender, 20) + data
  }

  /** Both kinds of message announce exactly the value that was burnt. */
  lemma WithdrawalAnnouncesValue(receiver: seq<byte>, value: u256, tail: seq<byte>)
    requires |receiver| == 20
    ensures AnnouncedBy(Message(L2_BASE_TOKEN_ADDRESS, WithdrawalMessage(receiver, value) + tail, true)) == value
  {
    var m := WithdrawalMessage(receiver, value) + tail;
    assert m[24..56] == ToBE(value, 32);
    Pow256Values();
    BERoundTrip(value, 32);
  }

  /** The 128-byte buffer that `withdraw` fills in place. */
  method BuildWithdrawal(receiver: seq<byte>, value: u256) returns (abi: seq<byte>)
    requires |receiver| == 20
    ensures abi == AbiEncode(WithdrawalMessage(receiver, value))
  {
    var buffer := new byte[128](i => 0);
    buffer[31] := 32;
    buffer[63] := 56;
    var valueBytes := ToBE(value, 32);
    forall i | 64 <= i < 68 { buffer[i] := FINALIZE_ETH_WITHDRAWAL_SELECTOR[i - 64]; }
    forall i | 68 <= i < 88 { buffer[i] := receiver[i - 68]; }
    forall i | 88 <= i < 120 { buffer[i] := valueBytes[i - 88]; }
    abi := buffer[..];
    SmallWord(32);
    SmallWord(56);
    ghost var expected := AbiEncode(WithdrawalMessage(receiver, value));
    assert |expected| == 128;
    assert forall i :: 0 <= i < 128 ==> abi[i] == expected[i];
  }

  /** A number below 256 is 31 zero bytes and itself. */
  lemma SmallWord(v: byte)
    ensures ToBE(v, 32) == Zeros(31) + [v]
  {
    ZeroBE(31);
    assert v / 256 == 0;
  }

  lemma {:induction false} ZeroBE(len: nat)
    ensures ToBE(0, len) == Zeros(len)
  {
    if len > 0 {
      ZeroBE(len - 1);
      assert Zeros(len - 1) + [0] == Zeros(len);
    }
  }

  /** The longest additional data whose encoded length fits 32 bits. */
  const MAX_ADDITIONAL_DATA: nat := U32_MAX - 171

  /** The lengths are computed in 32 bits; `None` is the overflow of that arithmetic. */
  method EncodedLength(length: u32) returns (total: Option<u32>)
    ensures total.None? <==> length > MAX_ADDITIONAL_DATA
    ensures total.Some? ==> total.value == RoundUp32(64 + (76 + length))
  {
    if 76 + length > U32_MAX {
      return None;
    }
    var messageLength: u32 := 76 + length;
    if 32 + 32 + messageLength > U32_MAX {
      return None;
    }
    var encodedLength: u32 := 32 + 32 + messageLength;
    if encodedLength % 32 != 0 {
      if encodedLength + (32 - encodedLength % 32) > U32_MAX {
        return None;
      }
      encodedLength := encodedLength + (32 - encodedLength % 32);
    }
    total := Some(encodedLength);
  }

  /** The vector that `withdrawWithMessage` extends piece by piece. */
  method BuildExtendedWithdrawal(receiver: seq<byte>, value: u256, sender: Address, data: seq<byte>)
    returns (abi: Option<seq<byte>>)
    requires |receiver| == 20 && |data| <= U32_MAX
    ensures abi.None? <==> |data| > MAX_ADDITIONAL_DATA
    ensures abi.Some? ==> abi.value == AbiEncode(ExtendedWithdrawalMessage(receiver, value, sender, data))
  {
    var total := EncodedLength(|data|);
    if total.None? {
      return None;
    }
    var message: seq<byte> := Zeros(64);
    message := message[31 := 32];
    OffsetWord();
    message := message[..32] + ToBE(76 + |data|, 32);
    ghost var head := message;
    message := message + FINALIZE_ETH_WITHDRAWAL_SELECTOR;
    message := message + receiver;
    message := message + ToBE(value, 32);
    message := message + ToBE(sender, 20);
    message := message + data;
    message := message + Zeros(total.value - |message|);
    ConcatPieces(head, FINALIZE_ETH_WITHDRAWAL_SELECTOR, receiver, ToBE(value, 32), ToBE(sender, 20), data,
                 Zeros(total.value - 140 - |data|));
    abi := Some(message);
  }

  lemma OffsetWord()
    ensures Zeros(64)[31 := 32][..32] == ToBE(32, 32)
  {
    SmallWord(32);
  }

  /** Appending one by one builds the same string as the nested concatenation. */
  lemma ConcatPieces<T>(head: seq<T>, c: seq<T>, d: seq<T>, e: seq<T>, f: seq<T>, g: seq<T>, h: seq<T>)
    ensures head + c + d + e + f + g + h == head + (c + d + e + f + g) + h
  {
    assert head + c + d + e + f + g == head + (c + d + e + f + g);
  }

  /** The additional data carried by the calldata of `withdrawWithMessage(address,bytes)`. */
  function ParseWithdrawWithMessage(calldata: seq<byte>): (r: Option<seq<byte>>)
    requires |calldata| <= U32_MAX
    ensures r.Some? ==> |calldata| >= 68 && calldata[4..16] == Zeros(12)
    ensures r.Some? ==>
      var offset := FromBE(calldata[36..68]);
      4 + offset + 32 + |r.value| <= |calldata|
      && FromBE(calldata[4 + offset..4 + offset + 32]) == |r.value|
      && calldata[4 + offset + 32..4 + offset + 32 + |r.value|] == r.value
  {
    if |calldata| < 68 then None else
    var offset := WordToU32(calldata[36..68]);
    if offset.None? || offset.value + 36 > U32_MAX then None else
    var lengthEnd := offset.value + 36;
    if |calldata| < lengthEnd then None else
    var length := WordToU32(calldata[lengthEnd - 32..lengthEnd]);
    if length.None? || lengthEnd + length.value > U32_MAX then None else
    if |calldata| < lengthEnd + length.value then None else
    if calldata[4..16] != Zeros(12) then None else
    Some(calldata[lengthEnd..lengthEnd + length.value])
  }

  /** Accepted is exactly calldata with a clean receiver whose offset and length stay inside. */
  lemma ParsesExactly(calldata: seq<byte>)
    requires |calldata| <= U32_MAX
    ensures ParseWithdrawWithMessage(calldata).Some? <==>
      && |calldata| >= 68 && calldata[4..16] == Zeros(12)
      && var offset := FromBE(calldata[36..68]);
         && 4 + offset + 32 <= |calldata|
         && 4 + offset + 32 + FromBE(calldata[4 + offset..4 + offset + 32]) <= |calldata|
  {
    if |calldata| >= 68 {
      var offset := FromBE(calldata[36..68]);
      if 4 + offset + 32 <= |calldata| {
        var lengthEnd := offset + 36;
        assert calldata[lengthEnd - 32..lengthEnd] == calldata[4 + offset..4 + offset + 32];
      }
    }
  }

  /** Plain calldata of `withdrawWithMessage`: the receiver, the offset, the length and the data. */
  function WithdrawWithMessageCalldata(receiver: seq<byte>, data: seq<byte>): (calldata: seq<byte>)
    requires |receiver| == 20
    ensures |calldata| == 100 + |data|
  {
    WITHDRAW_WITH_MESSAGE_SELECTOR + Zeros(12) + receiver + ToBE(64, 32) + ToBE(|data|, 32) + data
  }

  lemma ParsesPlainCalldata(receiver: seq<byte>, data: seq<byte>)
    requires |receiver| == 20 && 100 + |data| <= U32_MAX
    ensures ParseWithdrawWithMessage(WithdrawWithMessageCalldata(receiver, data)) == Some(data)
  {
    var calldata := WithdrawWithMessageCalldata(receiver, data);
    Pow256Values();
    BERoundTrip(64, 32);
    BERoundTrip(|data|, 32);
    assert calldata[4..16] == Zeros(12);
    assert calldata[36..68] == ToBE(64, 32);
    assert calldata[68..100] == ToBE(|data|, 32);
    ParsesExactly(calldata);
    assert calldata[4 + 64 + 32..4 + 64 + 32 + |data|] == data;
  }

  /** The longest plain calldata is accepted, and then the length of its message overflows 32 bits. */
  method LongestDataOverflows(receiver: seq<byte>, value: u256, sender: Address)
    returns (calldata: seq<byte>, abi: Option<seq<byte>>)
    requires |receiver| == 20
    ensures |calldata| == U32_MAX && ParseWithdrawWithMessage(calldata).Some? && abi.None?
  {
    var data := Zeros(U32_MAX - 100);
    calldata := WithdrawWithMessageCalldata(receiver, data);
    ParsesPlainCalldata(receiver, data);
    abi := BuildExtendedWithdrawal(receiver, value, sender, data);
  }

  // ----- the hooks

  datatype HookResult = HookResult(resources: Resources, reverted: bool, returndata: seq<byte>)

  function ErrorReturn(res: Resources): HookResult { HookResult(res, true, []) }

  /** A charge that failed inside a hook: short ergs revert the call, short native ends the run. */
  function OnChargeError(res: Resources, e: ChargeError): Result<HookResult, RunError>
  {
    match e
    case OutOfErgs => Ok(ErrorReturn(res))
    case OutOfNative => Err(RunError.OutOfNative)
  }

  const STEP_COST := Resources(10, 0)

  /** The state after a message and its event were emitted. */
  function Sent(w: World, msg: Message, hash: u256, abi: seq<byte>): World
  {
    w.(messages := w.messages + [msg],
       events := w.events + [Event(L1_MESSENGER_ADDRESS, [L1_MESSAGE_SENT_TOPIC, msg.sender, hash], abi)])
  }

  lemma SentAnnounces(w: World, msg: Message, hash: u256, abi: seq<byte>)
    ensures Accounted(Sent(w, msg, hash, abi)) == Accounted(w) + AnnouncedBy(msg)
  {
    AnnouncedAppend(w.messages, msg);
  }

  lemma SentIsGenuine(w: World, msg: Message, hash: u256, abi: seq<byte>)
    ensures Genuine(Sent(w, msg, hash, abi).messages) <==>
      Genuine(w.messages) && (msg.sender == L2_BASE_TOKEN_ADDRESS ==> msg.backed)
  {
    var msgs := Sent(w, msg, hash, abi).messages;
    assert msgs[|w.messages|] == msg;
    assert forall i :: 0 <= i < |w.messages| ==> msgs[i] == w.messages[i];
  }

  /**
   * Emits the message carried by `abi` and its event. Either both are emitted, or the hook
   * reports an error and the caller's frame is rolled back.
   */
  method SendToL1(system: System, abi: seq<byte>, res: Resources, caller: Address, backed: bool)
    returns (result: Result<HookResult, RunError>)
    modifies system`services, system`world
    ensures result.Ok? ==> result.value.resources.Within(res)
    ensures result.Err? ==> result.error == RunError.OutOfNative || (result.error.OversizedCalldata? && |abi| > U32_MAX)
    ensures result.Ok? && !result.value.reverted ==>
      var msg := ParseSendToL1(abi);
      && msg.Ok?
      && system.world == Sent(old(system.world), Message(caller, msg.value, backed), system.keccak(msg.value), abi)
      && result.value.returndata == ToBE(system.keccak(msg.value), 32)
    ensures result.Ok? && result.value.reverted ==> result.value.returndata == []
    ensures ParseSendToL1(abi).Ok? && Ample(res, 2) ==> result.Ok? && !result.value.reverted
  {
    var parsed := ParseSendToL1(abi);
    match parsed
    case Err(Oversized) => result := Err(OversizedCalldata);
    case Err(Malformed) => result := Ok(ErrorReturn(res));
    case Ok(msg) => result := EmitMessageAndEvent(system, Message(caller, msg, backed), abi, res);
  }

  method EmitMessageAndEvent(system: System, msg: Message, abi: seq<byte>, res: Resources)
    returns (result: Result<HookResult, RunError>)
    modifies system`services, system`world
    ensures result.Ok? ==> result.value.resources.Within(res)
    ensures result.Err? ==> result.error == RunError.OutOfNative
    ensures result.Ok? && !result.value.reverted ==>
      && system.world == Sent(old(system.world), msg, system.keccak(msg.data), abi)
      && result.value.returndata == ToBE(system.keccak(msg.data), 32)
    ensures result.Ok? && result.value.reverted ==> result.value.returndata == []
    ensures Ample(res, 2) ==> result.Ok? && !result.value.reverted
  {
    var left, e, hash := system.EmitL1Message(res, msg);
    if e.Some? {
      return OnChargeError(left, e.value);
    }
    left, e := system.EmitEvent(left, Event(L1_MESSENGER_ADDRESS, [L1_MESSAGE_SENT_TOPIC, msg.sender, hash], abi));
    if e.Some? {
      return OnChargeError(left, e.value);
    }
    result := Ok(HookResult(left, false, ToBE(hash, 32)));
  }

  /** The message a call to the messenger asks to send: none unless it is a plain call of `sendToL1`. */
  ghost function SentMessage(request: ExternalCallRequest): Option<seq<byte>>
  {
    if !(request.modifier.NoModifier? || request.modifier.ZKVMSystem?) || request.value != 0
       || |request.calldata| < 4 || request.calldata[..4] != SEND_TO_L1_SELECTOR then None else
    var parsed := ParseSendToL1(request.calldata[4..]);
    if parsed.Ok? then Some(parsed.value) else None
  }

  /** The message of a call was sent in its caller's name, and its hash was returned. */
  ghost predicate Delivered(keccak: seq<byte> -> u256, before: World, after: World, request: ExternalCallRequest,
                            answer: seq<byte>)
  {
    && SentMessage(request).Some?
    && var msg := SentMessage(request).value;
       && after == Sent(before, Message(request.caller, msg, false), keccak(msg), request.calldata[4..])
       && answer == ToBE(keccak(msg), 32)
  }

  method L1MessengerHook(system: System, request: ExternalCallRequest)
    returns (result: Result<HookResult, RunError>)
    modifies system`services, system`world
    ensures result.Ok? ==> result.value.resources.Within(request.resources)
    ensures result.Err? ==>
      result.error == RunError.OutOfNative || (result.error.OversizedCalldata? && |request.calldata| > U32_MAX)
      || (result.error.Internal? && request.modifier.Constructor?)
    ensures result.Ok? && !result.value.reverted ==>
      request.modifier.NoModifier? || request.modifier.ZKVMSystem?
    ensures result.Ok? && !result.value.reverted ==>
      && Accounted(system.world) == Accounted(old(system.world))
      && (request.caller != L2_BASE_TOKEN_ADDRESS && Genuine(old(system.world).messages) ==>
            Genuine(system.world.messages))
    ensures result.Ok? && !result.value.reverted ==>
      Delivered(system.keccak, old(system.world), system.world, request, result.value.returndata)
    ensures result.Ok? && result.value.reverted ==> result.value.returndata == []
    ensures SentMessage(request).Some? && Ample(request.resources, 3) ==> result.Ok? && !result.value.reverted
  {
    if request.modifier.Constructor? {
      return Err(Internal);
    }
    if request.value != 0 || request.IsDelegate() || request.IsCallcode() {
      return Ok(ErrorReturn(request.resources));
    }
    var charged := request.resources.Charge(STEP_COST);
    if charged.1.Some? {
      return OnChargeError(charged.0, charged.1.value);
    }
    var calldata := request.calldata;
    if |calldata| < 4 || calldata[..4] != SEND_TO_L1_SELECTOR || IsStaticModifier(request.modifier) {
      return Ok(ErrorReturn(charged.0));
    }
    var abi := calldata[4..];
    result := SendToL1(system, abi, charged.0, request.caller, false);
    if result.Ok? && !result.value.reverted {
      ghost var msg := ParseSendToL1(abi).value;
      SentAnnounces(old(system.world), Message(request.caller, msg, false), system.keccak(msg), abi);
      SentIsGenuine(old(system.world), Message(request.caller, msg, false), system.keccak(msg), abi);
    }
  }

  /** The message that a call to the base token sends: none unless it is a plain, well-formed withdrawal. */
  ghost function WithdrawalData(request: ExternalCallRequest): Option<seq<byte>>
  {
    var calldata := request.calldata;
    if !(request.modifier.NoModifier? || request.modifier.ZKVMSystem?) || !(4 <= |calldata| <= U32_MAX) then None
    else if calldata[..4] == WITHDRAW_SELECTOR then
      if |calldata| < 36 || calldata[4..16] != Zeros(12) then None
      else Some(WithdrawalMessage(calldata[16..36], request.value))
    else if calldata[..4] == WITHDRAW_WITH_MESSAGE_SELECTOR then
      var data := ParseWithdrawWithMessage(calldata);
      if data.None? || |data.value| > MAX_ADDITIONAL_DATA then None
      else Some(ExtendedWithdrawalMessage(calldata[16..36], request.value, request.caller, data.value))
    else None
  }

  /** Exactly `value` was burnt, and exactly that value was announced to L1, by this one message. */
  ghost predicate Withdrawn(system: System, before: World, value: u256, data: seq<byte>)
    reads system`world
  {
    && value <= before.Balance(L2_BASE_TOKEN_ADDRESS)
    && system.world == Sent(Debit(before, L2_BASE_TOKEN_ADDRESS, value), Message(L2_BASE_TOKEN_ADDRESS, data, true),
                            system.keccak(data), AbiEncode(data))
    && Supply(system.world.balances) == Supply(before.balances) - value
    && Announced(system.world.messages) == Announced(before.messages) + value
    && Accounted(system.world) == Accounted(before)
  }

  /**
   * `withdraw` and `withdrawWithMessage`. A call that is not reverted burns exactly the
   * value of the call and announces exactly that value to L1.
   */
  method L2BaseTokenHook(system: System, request: ExternalCallRequest)
    returns (result: Result<HookResult, RunError>)
    requires request.modifier.NoModifier? || request.modifier.ZKVMSystem? ==>
      request.value <= system.world.Balance(L2_BASE_TOKEN_ADDRESS)
    modifies system`services, system`world
    ensures result.Ok? ==> result.value.resources.Within(request.resources)
    ensures result.Err? ==>
      || result.error == RunError.OutOfNative
      || (result.error.OversizedCalldata? && |request.calldata| > MAX_ADDITIONAL_DATA)
      || (result.error.Internal? && request.modifier.Constructor?)
    ensures result.Ok? && !result.value.reverted ==>
      request.modifier.NoModifier? || request.modifier.ZKVMSystem?
    ensures result.Ok? && !result.value.reverted ==>
      && WithdrawalData(request).Some?
      && Withdrawn(system, old(system.world), request.value, WithdrawalData(request).value)
    ensures result.Ok? ==> result.value.returndata == []
    ensures WithdrawalData(request).Some? && Ample(request.resources, 4) ==> result.Ok? && !result.value.reverted
  {
    if request.modifier.Constructor? {
      return Err(Internal);
    }
    if request.IsDelegate() || request.IsCallcode() {
      return Ok(ErrorReturn(request.resources));
    }
    var charged := request.resources.Charge(STEP_COST);
    if charged.1.Some? {
      return OnChargeError(charged.0, charged.1.value);
    }
    if |request.calldata| < 4 {
      return Ok(ErrorReturn(charged.0));
    }
    if |request.calldata| > U32_MAX {
      return Err(OversizedCalldata);
    }
    result := WithdrawBySelector(system, request, charged.0);
  }

  method WithdrawBySelector(system: System, request: ExternalCallRequest, res: Resources)
    returns (result: Result<HookResult, RunError>)
    requires 4 <= |request.calldata| <= U32_MAX
    requires !request.modifier.Constructor? && !request.IsDelegate() && !request.IsCallcode()
    requires request.modifier.NoModifier? || request.modifier.ZKVMSystem? ==>
      request.value <= system.world.Balance(L2_BASE_TOKEN_ADDRESS)
    modifies system`services, system`world
    ensures result.Ok? ==> result.value.resources.Within(res) && result.value.returndata == []
    ensures result.Err? ==>
      || result.error == RunError.OutOfNative
      || (result.error.OversizedCalldata? && |request.calldata| > MAX_ADDITIONAL_DATA)
    ensures result.Ok? && !result.value.reverted ==>
      && (request.modifier.NoModifier? || request.modifier.ZKVMSystem?)
      && WithdrawalData(request).Some?
      && Withdrawn(system, old(system.world), request.value, WithdrawalData(request).value)
    ensures WithdrawalData(request).Some? && Ample(res, 3) ==> result.Ok? && !result.value.reverted
  {
    var calldata := request.calldata;
    if calldata[..4] == WITHDRAW_SELECTOR {
      if IsStaticModifier(request.modifier) || |calldata| < 36 {
        return Ok(ErrorReturn(res));
      }
      result := Withdraw(system, request, res);
    } else if calldata[..4] == WITHDRAW_WITH_MESSAGE_SELECTOR {
      if IsStaticModifier(request.modifier) {
        return Ok(ErrorReturn(res));
      }
      result := WithdrawWithMessage(system, request, res);
    } else {
      result := Ok(ErrorReturn(res));
    }
  }

  /** The tokens are burnt before the receiver's padding is looked at. */
  method Withdraw(system: System, request: ExternalCallRequest, res: Resources)
    returns (result: Result<HookResult, RunError>)
    requires 36 <= |request.calldata| <= U32_MAX
    requires request.value <= system.world.Balance(L2_BASE_TOKEN_ADDRESS)
    modifies system`services, system`world
    ensures result.Ok? ==> result.value.resources.Within(res)
    ensures result.Err? ==> result.error == RunError.OutOfNative
    ensures result.Ok? && !result.value.reverted ==>
      && request.calldata[4..16] == Zeros(12)
      && Withdrawn(system, old(system.world), request.value, WithdrawalMessage(request.calldata[16..36], request.value))
    ensures result.Ok? ==> result.value.returndata == []
    ensures request.calldata[4..16] == Zeros(12) && Ample(res, 3) ==> result.Ok? && !result.value.reverted
  {
    var left := BurnBaseToken(system, request.value, res);
    if left.Err? {
      return left;
    }
    if left.value.reverted {
      return left;
    }
    if request.calldata[4..16] != Zeros(12) {
      return left.(value := ErrorReturn(left.value.resources));
    }
    var receiver := request.calldata[16..36];
    var abi := BuildWithdrawal(receiver, request.value);
    ghost var msg := WithdrawalMessage(receiver, request.value);
    assert msg + [] == msg;
    result := Announce(system, abi, left.value.resources, receiver, request.value, [], msg, old(system.world));
  }

  method WithdrawWithMessage(system: System, request: ExternalCallRequest, res: Resources)
    returns (result: Result<HookResult, RunError>)
    requires |request.calldata| <= U32_MAX
    requires request.value <= system.world.Balance(L2_BASE_TOKEN_ADDRESS)
    modifies system`services, system`world
    ensures result.Ok? ==> result.value.resources.Within(res)
    ensures result.Err? ==>
      || result.error == RunError.OutOfNative
      || (result.error.OversizedCalldata? && |request.calldata| > MAX_ADDITIONAL_DATA)
    ensures result.Ok? && !result.value.reverted ==>
      var data := ParseWithdrawWithMessage(request.calldata);
      && data.Some? && |data.value| <= MAX_ADDITIONAL_DATA
      && Withdrawn(system, old(system.world), request.value,
                   ExtendedWithdrawalMessage(request.calldata[16..36], request.value, request.caller, data.value))
    ensures result.Ok? ==> result.value.returndata == []
    ensures
      var data := ParseWithdrawWithMessage(request.calldata);
      data.Some? && |data.value| <= MAX_ADDITIONAL_DATA && Ample(res, 3) ==> result.Ok? && !result.value.reverted
  {
    var data := ParseWithdrawWithMessage(request.calldata);
    if data.None? {
      return Ok(ErrorReturn(res));
    }
    var left := BurnBaseToken(system, request.value, res);
    if left.Err? {
      return left;
    }
    if left.value.reverted {
      return left;
    }
    var receiver := request.calldata[16..36];
    var abi := BuildExtendedWithdrawal(receiver, request.value, request.caller, data.value);
    if abi.None? {
      return Err(OversizedCalldata);
    }
    ghost var tail := ToBE(request.caller, 20) + data.value;
    ghost var msg := ExtendedWithdrawalMessage(receiver, request.value, request.caller, data.value);
    assert msg == WithdrawalMessage(receiver, request.value) + tail;
    result := Announce(system, abi.value, left.value.resources, receiver, request.value, tail, msg, old(system.world));
  }

  /** Sends the encoded withdrawal of tokens already burnt since `before`. */
  method Announce(system: System, abi: seq<byte>, res: Resources, ghost receiver: seq<byte>,
                  ghost value: u256, ghost tail: seq<byte>, ghost data: seq<byte>, ghost before: World)
    returns (result: Result<HookResult, RunError>)
    requires |receiver| == 20 && |abi| <= U32_MAX
    requires data == WithdrawalMessage(receiver, value) + tail && abi == AbiEncode(data)
    requires value <= before.Balance(L2_BASE_TOKEN_ADDRESS)
    requires system.world == Debit(before, L2_BASE_TOKEN_ADDRESS, value)
    modifies system`services, system`world
    ensures result.Ok? ==> result.value.resources.Within(res)
    ensures result.Err? ==> result.error == RunError.OutOfNative
    ensures result.Ok? && !result.value.reverted ==> Withdrawn(system, before, value, data)
    ensures result.Ok? ==> result.value.returndata == []
    ensures Ample(res, 2) ==> result.Ok? && !result.value.reverted
  {
    ParseEncoded(data);
    DebitRemoves(before, L2_BASE_TOKEN_ADDRESS, value);
    WithdrawalAnnouncesValue(receiver, value, tail);
    AnnouncedAppend(before.messages, Message(L2_BASE_TOKEN_ADDRESS, data, true));
    SentAnnounces(system.world, Message(L2_BASE_TOKEN_ADDRESS, data, true), system.keccak(data), abi);
    result := SendToL1(system, abi, res, L2_BASE_TOKEN_ADDRESS, true);
    if result.Ok? {
      result := Ok(result.value.(returndata := []));
    }
  }

  method BurnBaseToken(system: System, value: u256, res: Resources)
    returns (result: Result<HookResult, RunError>)
    requires value <= system.world.Balance(L2_BASE_TOKEN_ADDRESS)
    modifies system`services, system`world
    ensures result.Ok? ==> result.value.resources.Within(res)
    ensures result.Err? ==> result.error == RunError.OutOfNative
    ensures result.Ok? && !result.value.reverted ==>
      system.world == Debit(old(system.world), L2_BASE_TOKEN_ADDRESS, value)
    ensures result.Ok? ==> result.value.returndata == []
    ensures Ample(res, 1) ==>
      && result.Ok? && !result.value.reverted
      && res.ergs - MAX_IO <= result.value.resources.ergs && res.native - MAX_IO <= result.value.resources.native
  {
    var left, e := system.SubtractBalance(res, L2_BASE_TOKEN_ADDRESS, value);
    match e
    case Some(OutOfErgs) => result := Ok(ErrorReturn(left));
    case Some(OutOfNative) => result := Err(RunError.OutOfNative);
    case Some(_) => result := Err(Internal);
    case None => result := Ok(HookResult(left, false, []));
  }

  const CONTRACT_DEPLOYER_ADDRESS: Address := 0x8006
  const COMPLEX_UPGRADER_ADDRESS: Address := 0x800f
  const SET_EVM_BYTECODE_DETAILS: seq<byte> := [0xf6, 0xec, 0xa0, 0xb0]

  /** Address and bytecode hash of `setBytecodeDetailsEVM(address,bytes32,uint32,bytes32)`. */
  function ParseBytecodeDetails(args: seq<byte>): (r: Option<(Address, u256)>)
    ensures r.Some? ==> |args| >= 128 && FromBE(args[64..96]) <= MAX_CODE_SIZE
    ensures r.Some? ==> r.value == (FromBE(args[12..32]), FromBE(args[32..64]))
  {
    if |args| < 128 || args[..12] != Zeros(12) then None else
    var length := WordToU32(args[64..96]);
    if length.None? || length.value > MAX_CODE_SIZE then None else
    BEInverse(args[12..32]);
    Pow256Address();
    BEInverse(args[32..64]);
    Pow256Values();
    Some((FromBE(args[12..32]), FromBE(args[32..64])))
  }

  /** `setBytecodeDetailsEVM`, reserved to the upgrader. */
  method ContractDeployerHook(system: System, request: ExternalCallRequest)
    returns (result: Result<HookResult, RunError>)
    modifies system`services, system`world
    ensures result.Ok? ==> result.value.resources.Within(request.resources)
    ensures result.Err? ==>
      result.error == RunError.OutOfNative || (result.error.Internal? && request.modifier.Constructor?)
    ensures result.Ok? && !result.value.reverted ==>
      (request.modifier.NoModifier? || request.modifier.ZKVMSystem?) && request.caller == COMPLEX_UPGRADER_ADDRESS
    ensures result.Ok? && !result.value.reverted ==>
      && |request.calldata| >= 4 && request.calldata[..4] == SET_EVM_BYTECODE_DETAILS
      && var details := ParseBytecodeDetails(request.calldata[4..]);
         && details.Some?
         && var (a, hash) := details.value;
            system.world == old(system.world).(code := old(system.world).code[a := Code(system.preimage(hash), true)],
                                               deployedInTx := old(system.world).deployedInTx + {a})
    ensures result.Ok? && !result.value.reverted ==> request.value == 0
    ensures result.Ok? ==> result.value.returndata == []
    ensures (request.modifier.NoModifier? || request.modifier.ZKVMSystem?) && request.caller == COMPLEX_UPGRADER_ADDRESS
            && request.value == 0 && |request.calldata| >= 4 && request.calldata[..4] == SET_EVM_BYTECODE_DETAILS
            && ParseBytecodeDetails(request.calldata[4..]).Some? && Ample(request.resources, 2) ==>
      result.Ok? && !result.value.reverted
  {
    if request.modifier.Constructor? {
      return Err(Internal);
    }
    if request.value != 0 || request.IsDelegate() || request.IsCallcode() {
      return Ok(ErrorReturn(request.resources));
    }
    var charged := request.resources.Charge(STEP_COST);
    if charged.1.Some? {
      return OnChargeError(charged.0, charged.1.value);
    }
    var res, calldata := charged.0, request.calldata;
    if |calldata| < 4 || calldata[..4] != SET_EVM_BYTECODE_DETAILS || IsStaticModifier(request.modifier)
       || request.caller != COMPLEX_UPGRADER_ADDRESS {
      return Ok(ErrorReturn(res));
    }
    var parsed := ParseBytecodeDetails(calldata[4..]);
    if parsed.None? {
      return Ok(ErrorReturn(res));
    }
    var left, e := system.DeployCode(res, parsed.value.0, system.preimage(parsed.value.1));
    if e.Some? {
      return OnChargeError(left, e.value);
    }
    result := Ok(HookResult(left, false, []));
  }

  lemma Pow256Address()
    ensures Pow256(20) == ADDRESS_BOUND
  {
    Pow256Values();
    assert Pow256(12) == 0x1_00000000_00000000_00000000;
    assert Pow256(16) == 0x1_00000000_00000000_00000000_00000000;
  }

  /** A precompiled contract: no effect on the state; a failure costs all remaining ergs. */
  method PrecompileHook(system: System, request: ExternalCallRequest)
    returns (result: Result<HookResult, RunError>)
    modifies system`services
    ensures result.Ok? ==> result.value.resources.Within(request.resources)
    ensures result.Err? <==>
      request.modifier.Constructor? || request.resources.native < old(system.precompiles(system.services)).cost.native
    ensures result.Err? ==> result.error == if request.modifier.Constructor? then Internal else RunError.OutOfNative
    ensures result.Ok? ==>
      var answer := old(system.precompiles(system.services));
      && (result.value.reverted <==> !answer.accepted || request.resources.ergs < answer.cost.ergs)
      && (result.value.reverted ==> result.value.resources.ergs == 0 && result.value.returndata == [])
      && (!result.value.reverted ==>
            && result.value.returndata == answer.output
            && result.value.resources.ergs + answer.cost.ergs == request.resources.ergs
            && result.value.resources.native + answer.cost.native == request.resources.native)
  {
    if request.modifier.Constructor? {
      return Err(Internal);
    }
    var answer := system.precompiles(system.services);
    system.services := system.services + 1;
    var charged := request.resources.Charge(answer.cost);
    if charged.1 == Some(ChargeError.OutOfNative) {
      return Err(RunError.OutOfNative);
    }
    if charged.1.Some? || !answer.accepted {
      return Ok(ErrorReturn(charged.0.(ergs := 0)));
    }
    result := Ok(HookResult(charged.0, false, answer.output));
  }

  // ----- what all hooks have in common

  /** What any call to a hook may cost, and how it may die. */
  ghost predicate Bounded(request: ExternalCallRequest, done: Result<HookResult, RunError>)
  {
    && (done.Ok? ==> done.value.resources.Within(request.resources))
    && (done.Err? ==>
          done.error.OutOfNative? || (done.error.OversizedCalldata? && |request.calldata| > MAX_ADDITIONAL_DATA))
  }

  method CallMessenger(system: System, request: ExternalCallRequest) returns (done: Result<HookResult, RunError>)
    requires !request.modifier.Constructor?
    modifies system`services, system`world
    ensures Bounded(request, done)
    ensures done.Ok? && done.value.reverted ==> done.value.returndata == []
    ensures done.Ok? && !done.value.reverted ==>
      Delivered(system.keccak, old(system.world), system.world, request, done.value.returndata)
    ensures SentMessage(request).Some? && Ample(request.resources, 3) ==> done.Ok? && !done.value.reverted
  {
    done := L1MessengerHook(system, request);
  }

  method CallBaseToken(system: System, request: ExternalCallRequest) returns (done: Result<HookResult, RunError>)
    requires !request.modifier.Constructor?
    requires request.modifier.NoModifier? || request.modifier.ZKVMSystem? ==>
      request.value <= system.world.Balance(L2_BASE_TOKEN_ADDRESS)
    modifies system`services, system`world
    ensures Bounded(request, done)
    ensures done.Ok? ==> done.value.returndata == []
    ensures done.Ok? && !done.value.reverted ==>
      && WithdrawalData(request).Some?
      && Withdrawn(system, old(system.world), request.value, WithdrawalData(request).value)
    ensures WithdrawalData(request).Some? && Ample(request.resources, 4) ==> done.Ok? && !done.value.reverted
  {
    done := L2BaseTokenHook(system, request);
  }

  /** The account and the hash of the code that a call to the contract deployer sets. */
  ghost function DeployerOrder(call: ExternalCallRequest): Option<(Address, u256)>
  {
    if !(call.modifier.NoModifier? || call.modifier.ZKVMSystem?) || call.caller != COMPLEX_UPGRADER_ADDRESS
       || call.value != 0 || |call.calldata| < 4 || call.calldata[..4] != SET_EVM_BYTECODE_DETAILS then None
    else ParseBytecodeDetails(call.calldata[4..])
  }

  method CallContractDeployer(system: System, request: ExternalCallRequest) returns (done: Result<HookResult, RunError>)
    requires !request.modifier.Constructor?
    modifies system`services, system`world
    ensures Bounded(request, done)
    ensures done.Ok? ==> done.value.returndata == []
    ensures done.Ok? && !done.value.reverted ==>
      && DeployerOrder(request).Some?
      && var (a, hash) := DeployerOrder(request).value;
         system.world == old(system.world).(code := old(system.world).code[a := Code(system.preimage(hash), true)],
                                            deployedInTx := old(system.world).deployedInTx + {a})
    ensures DeployerOrder(request).Some? && Ample(request.resources, 2) ==> done.Ok? && !done.value.reverted
  {
    done := ContractDeployerHook(system, request);
  }

  method CallPrecompile(system: System, request: ExternalCallRequest) returns (done: Result<HookResult, RunError>)
    requires !request.modifier.Constructor?
    modifies system`services
    ensures Bounded(request, done)
    ensures done.Ok? ==>
      var answer := old(system.precompiles(system.services));
      && (done.value.reverted <==> !answer.accepted || request.resources.ergs < answer.cost.ergs)
      && done.value.returndata == if done.value.reverted then [] else answer.output
  {
    done := PrecompileHook(system, request);
  }
}
