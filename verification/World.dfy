/** The part of the chain state that execution can change, and the token supply it holds. */
module World {
  import opened Numbers

  const ADDRESS_BOUND: int := 0x1_00000000_00000000_00000000_00000000_00000000
  type Address = a: int | 0 <= a < ADDRESS_BOUND
  type Slot = (Address, u256)

  /** Contract code; `cached` tells whether the jump bitmap is stored behind it. */
  datatype Code = Code(bytes: seq<byte>, cached: bool)

  datatype Event = Event(address: Address, topics: seq<u256>, data: seq<byte>)

  /** `backed` is bookkeeping of the model: the base token's hook sent the message, after burning its value. */
  datatype Message = Message(sender: Address, data: seq<byte>, backed: bool)

  /**
   * `refunds` is the counter of refunds for storage writes, in ergs. `destroyed` is
   * bookkeeping of the model: the tokens burnt so far by accounts that destroy themselves in
   * favour of themselves.
   */
  datatype World = World(
    balances: map<Address, u256>,
    nonces: map<Address, u64>,
    code: map<Address, Code>,
    storage: map<Slot, u256>,
    transient: map<Slot, u256>,
    events: seq<Event>,
    messages: seq<Message>,
    l1TxLogs: seq<(u256, bool)>,
    deployedInTx: set<Address>,
    doomed: set<Address>,
    refunds: u64,
    destroyed: nat
  ) {
    function Balance(a: Address): u256 { if a in balances then balances[a] else 0 }
    function Nonce(a: Address): u64 { if a in nonces then nonces[a] else 0 }
    function CodeAt(a: Address): Code { if a in code then code[a] else Code([], false) }
  }

  const L2_BASE_TOKEN_ADDRESS: Address := 0x800a
  const L1_MESSENGER_ADDRESS: Address := 0x8008

  // ----- supply

  /** Sum of all balances. */
  ghost function Supply(m: map<Address, u256>): (s: nat)
  {
    if m == map[] then 0 else
    var a :| a in m;
    m[a] + Supply(m - {a})
  }

  /** The order in which the balances are added does not matter. */
  lemma {:induction false} SupplyRemove(m: map<Address, u256>, a: Address)
    requires a in m
    ensures Supply(m) == m[a] + Supply(m - {a})
    decreases |m|
  {
    var b :| b in m && Supply(m) == m[b] + Supply(m - {b});
    if a != b {
      SupplyRemove(m - {b}, a);
      SupplyRemove(m - {a}, b);
      assert m - {a} - {b} == m - {b} - {a};
    }
  }

  lemma SupplyUpdate(m: map<Address, u256>, a: Address, v: u256)
    ensures Supply(m[a := v]) == Supply(m) - (if a in m then m[a] else 0) + v
  {
    SupplyRemove(m[a := v], a);
    if a in m {
      SupplyRemove(m, a);
      assert m[a := v] - {a} == m - {a};
    } else {
      assert m[a := v] - {a} == m;
    }
  }

  lemma SupplyBoundsBalance(m: map<Address, u256>, a: Address)
    requires a in m
    ensures m[a] <= Supply(m)
  {
    SupplyRemove(m, a);
  }

  // ----- withdrawals announced to L1

  /**
   * The value a withdrawal announces: the 32 bytes behind the 4-byte selector and the 20-byte
   * receiver. Other messages announce nothing.
   */
  function AnnouncedBy(msg: Message): (v: nat)
  {
    if msg.backed && msg.sender == L2_BASE_TOKEN_ADDRESS && |msg.data| >= 56 then FromBE(msg.data[24..56]) else 0
  }

  function Announced(msgs: seq<Message>): (v: nat)
  {
    if msgs == [] then 0 else Announced(msgs[..|msgs| - 1]) + AnnouncedBy(msgs[|msgs| - 1])
  }

  lemma AnnouncedAppend(msgs: seq<Message>, msg: Message)
    ensures Announced(msgs + [msg]) == Announced(msgs) + AnnouncedBy(msg)
  {
    assert (msgs + [msg])[..|msgs|] == msgs;
  }

  /** No message in the base token's name was sent without burning what it announces. */
  ghost predicate Genuine(msgs: seq<Message>)
  {
    forall i :: 0 <= i < |msgs| && msgs[i].sender == L2_BASE_TOKEN_ADDRESS ==> msgs[i].backed
  }

  /** Every token that exists, was announced as withdrawn, or was destroyed. */
  ghost function Accounted(w: World): (t: nat)
  {
    Supply(w.balances) + Announced(w.messages) + w.destroyed
  }
}
