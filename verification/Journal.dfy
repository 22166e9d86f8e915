/** The frames of the system on top of the map with snapshots: what the one promises, the other delivers. */
module Journal {
  import opened Numbers
  import opened World
  import opened Resources
  import opened HistoryMap
  import opened IoSubsystem

  /** At a snapshot, the map shows a set of written values over the stored ones. */
  ghost predicate View<K(!new), V>(btree: map<K, History<V>>, id: nat, written: map<K, V>)
  {
    && (forall k :: k in written ==> k in btree)
    && (forall k :: k in btree && |btree[k]| > 0 ==>
          ValueAt(btree[k], id) == if k in written then written[k] else btree[k][0].value)
  }

  /** Every open frame has its snapshot, in order of time, and the snapshot still shows the state of then. */
  ghost predicate Represents<K(!new), V>(btree: map<K, History<V>>, ids: seq<nat>, frames: seq<map<K, V>>, next: nat)
  {
    && |ids| == |frames|
    && (forall i, j :: 0 <= i < j < |ids| ==> ids[i] < ids[j])
    && (forall i :: 0 <= i < |ids| ==> ids[i] < next && View(btree, ids[i], frames[i]))
  }

  lemma {:induction false} ViewKept<K(!new), V>(before: map<K, History<V>>, after: map<K, History<V>>, below: nat,
                                                id: nat,
                                                written: map<K, V>)
    requires Keeps(before, after, below) && id < below && View(before, id, written)
    requires forall k :: k in before ==> |before[k]| > 0
    ensures View(after, id, written)
  {
    forall k | k in after && |after[k]| > 0
      ensures ValueAt(after[k], id) == if k in written then written[k] else after[k][0].value
    {
      assert KeepsElement(k, before, after[k], below);
    }
  }

  lemma {:induction false} RepresentsKept<K(!new), V>(before: map<K, History<V>>, after: map<K, History<V>>, below: nat,
                                                      ids: seq<nat>, frames: seq<map<K, V>>, next: nat)
    requires Keeps(before, after, below) && Represents(before, ids, frames, next)
    requires forall k :: k in before ==> |before[k]| > 0
    requires below <= next && forall i :: 0 <= i < |ids| ==> ids[i] < below
    ensures Represents(after, ids, frames, next)
  {
    forall i | 0 <= i < |ids| ensures View(after, ids[i], frames[i]) {
      ViewKept(before, after, below, ids[i], frames[i]);
    }
  }

  lemma {:induction false} RolledBackShows<K(!new), V>(before: map<K, History<V>>, after: map<K, History<V>>, id: nat,
                                                       written: map<K, V>)
    requires View(before, id, written) && Keeps(before, after, id + 1) && before.Keys == after.Keys
    requires forall k :: k in before ==> |before[k]| > 0
    requires forall k :: k in after ==> Last(after[k]) == ValueAt(before[k], id)
    ensures Shows(after, written)
  {
    forall k | k in after && |after[k]| > 0
      ensures Last(after[k]) == if k in written then written[k] else after[k][0].value
    {
      assert KeepsElement(k, before, after[k], id + 1);
    }
  }

  lemma {:induction false} StartRepresents<K(!new), V>(btree: map<K, History<V>>, ids: seq<nat>, frames: seq<map<K, V>>,
                                                       next: nat, written: map<K, V>)
    requires Histories(btree, next) && Shows(btree, written) && Represents(btree, ids, frames, next)
    ensures Represents(btree, ids + [next], frames + [written], next + 1)
  {
    forall k | k in btree && |btree[k]| > 0 ensures ValueAt(btree[k], next) == Last(btree[k]) {
      FlatAbove(btree[k], next, next);
    }
    assert View(btree, next, written);
  }

  /** The first record of every loaded key holds its stored value. */
  ghost predicate Based<K(!new), V>(btree: map<K, History<V>>, base: map<K, V>, absent: V)
  {
    forall k :: k in btree && |btree[k]| > 0 ==> btree[k][0].value == Stored(base, absent, k)
  }

  function Stored<K, V>(base: map<K, V>, absent: V, k: K): V { if k in base then base[k] else absent }

  lemma {:induction false} BasedKept<K(!new), V>(before: map<K, History<V>>, after: map<K, History<V>>, below: nat,
                                                 base: map<K, V>, absent: V)
    requires Based(before, base, absent) && Keeps(before, after, below)
    requires forall k :: k in before ==> |before[k]| > 0
    requires forall k :: k in after && k !in before && |after[k]| > 0 ==> after[k][0].value == Stored(base, absent, k)
    ensures Based(after, base, absent)
  {
    forall k | k in after && |after[k]| > 0 ensures after[k][0].value == Stored(base, absent, k) {
      assert KeepsElement(k, before, after[k], below);
    }
  }

  lemma HistoriesNonEmpty<K(!new), V>(btree: map<K, History<V>>, next: nat)
    requires Histories(btree, next)
    ensures forall k :: k in btree ==> |btree[k]| > 0
  {
  }

  /** The map shows the written values now, and what each open frame remembers at its snapshot. */
  ghost predicate Journals<K(!new), V>(btree: map<K, History<V>>, next: nat, base: map<K, V>, absent: V,
                                       written: map<K, V>, ids: seq<nat>, frames: seq<map<K, V>>)
  {
    Shows(btree, written) && Based(btree, base, absent) && Represents(btree, ids, frames, next)
  }

  lemma {:induction false} RollbackJournals<K(!new), V>(before: map<K, History<V>>, after: map<K, History<V>>,
                                                        next: nat, base: map<K, V>, absent: V, written: map<K, V>,
                                                        ids: seq<nat>, frames: seq<map<K, V>>, handle: nat)
    requires Histories(before, next) && Journals(before, next, base, absent, written, ids, frames)
    requires handle < |frames| && Keeps(before, after, ids[handle] + 1) && before.Keys == after.Keys
    requires forall k :: k in after ==> |after[k]| > 0 && Last(after[k]) == ValueAt(before[k], ids[handle])
    ensures Journals(after, next, base, absent, frames[handle], ids[..handle], frames[..handle])
  {
    var id := ids[handle];
    HistoriesNonEmpty(before, next);
    RolledBackShows(before, after, id, frames[handle]);
    assert Represents(before, ids[..handle], frames[..handle], next);
    RepresentsKept(before, after, id + 1, ids[..handle], frames[..handle], next);
    BasedKept(before, after, id + 1, base, absent);
  }

  lemma {:induction false} LoadJournals<K(!new), V>(before: map<K, History<V>>, next: nat, base: map<K, V>, absent: V,
                                                    written: map<K, V>, ids: seq<nat>, frames: seq<map<K, V>>, key: K)
    requires Histories(before, next) && Journals(before, next, base, absent, written, ids, frames)
    ensures
      var after := Loaded(before, key, Stored(base, absent, key));
      && Journals(after, next, base, absent, written, ids, frames)
      && |after[key]| > 0 && Last(after[key]) == Stored(base + written, absent, key)
  {
    HistoriesNonEmpty(before, next);
    LoadShows(before, next, key, written, base, absent);
    RepresentsKept(before, Loaded(before, key, Stored(base, absent, key)), next, ids, frames, next);
  }

  /**
   * A component of the state kept in a map with snapshots. `written` and `frames` are the
   * component of the world and of the worlds the open frames remember.
   */
  class Journaled<K(==, !new), V> {
    const values: HistoryMap<K, V>
    /** What is stored below the journal, and the value of keys that are not. */
    const base: map<K, V>
    const absent: V
    var ids: seq<nat>
    ghost var written: map<K, V>
    ghost var frames: seq<map<K, V>>

    constructor (base: map<K, V>, absent: V)
      ensures Valid() && fresh(values) && written == map[] && frames == []
      ensures this.base == base && this.absent == absent
    {
      values := new HistoryMap();
      this.base, this.absent := base, absent;
      ids, written, frames := [], map[], [];
    }

    ghost predicate Valid()
      reads this, values
    {
      && values.Valid() && Journals(values.btree, values.nextSnapshot, base, absent, written, ids, frames)
      && forall i :: 0 <= i < |ids| ==> values.frozenSnapshot <= ids[i]
    }

    method Start() returns (handle: nat)
      requires Valid()
      modifies this, values
      ensures Valid() && handle == |old(frames)| && frames == old(frames) + [written] && written == old(written)
    {
      handle := |ids|;
      var id := values.Snapshot();
      StartRepresents(values.btree, ids, frames, id, written);
      ids := ids + [id];
      frames := frames + [written];
    }

    method Finish()
      requires Valid() && |frames| > 0
      modifies this
      ensures Valid() && frames == old(frames)[..|old(frames)| - 1] && written == old(written)
    {
      ids, frames := ids[..|ids| - 1], frames[..|frames| - 1];
    }

    method Rollback(handle: nat)
      requires Valid() && handle < |frames|
      modifies this, values
      ensures Valid() && written == old(frames[handle]) && frames == old(frames)[..handle]
    {
      ghost var before := values.btree;
      var ok := values.Rollback(ids[handle]);
      RollbackJournals(before, values.btree, values.nextSnapshot, base, absent, written, ids, frames, handle);
      ids, written, frames := ids[..handle], frames[handle], frames[..handle];
    }

    method Write(key: K, value: V)
      requires Valid()
      modifies this, values
      ensures Valid() && written == old(written)[key := value] && frames == old(frames)
    {
      ghost var before := values.btree;
      HistoriesNonEmpty(before, values.nextSnapshot);
      WriteKey(values, key, Stored(base, absent, key), value, written);
      RepresentsKept(before, values.btree, values.nextSnapshot, ids, frames, values.nextSnapshot);
      BasedKept(before, values.btree, values.nextSnapshot, base, absent);
      written := written[key := value];
    }

    /** A read: the last record of the key, which is loaded if need be. */
    method Read(key: K) returns (v: V)
      requires Valid()
      modifies this, values
      ensures Valid() && written == old(written) && frames == old(frames)
      ensures v == Stored(base + written, absent, key)
    {
      LoadJournals(values.btree, values.nextSnapshot, base, absent, written, ids, frames, key);
      values.Load(key, Stored(base, absent, key));
      var h := values.btree[key];
      v := h[|h| - 1].value;
    }
  }

  /** Loading a key shows nothing new, and its last record is what one sees through the written values. */
  lemma {:induction false} LoadShows<K(!new), V>(before: map<K, History<V>>, next: nat, key: K, written: map<K, V>,
                                                 base: map<K, V>, absent: V)
    requires Histories(before, next) && Shows(before, written) && Based(before, base, absent)
    ensures
      var after := Loaded(before, key, Stored(base, absent, key));
      && Shows(after, written) && Based(after, base, absent) && Keeps(before, after, next)
      && |after[key]| > 0 && Last(after[key]) == Stored(base + written, absent, key)
  {
    LoadKeeps(before, next, key, Stored(base, absent, key));
  }

  lemma Overlay<K, V>(base: map<K, V>, written: map<K, V>, k: K, v: V)
    ensures base + written[k := v] == (base + written)[k := v]
  {
  }

  // ----- storage and accounts

  /** What the system keeps about an account in one place. */
  datatype Account = Account(balance: u256, nonce: u64, code: Code)

  const NO_ACCOUNT: Account := Account(0, 0, Code([], false))

  function AccountOf(w: World, a: Address): Account { Account(w.Balance(a), w.Nonce(a), w.CodeAt(a)) }

  /** A map of accounts tells what the world does about every address. */
  ghost predicate Holds(accounts: map<Address, Account>, w: World)
  {
    forall a: Address :: Stored(accounts, NO_ACCOUNT, a) == AccountOf(w, a)
  }

  function AccountsIn(w: World): (m: map<Address, Account>)
    ensures Holds(m, w)
  {
    map a | a in w.balances.Keys + w.nonces.Keys + w.code.Keys :: AccountOf(w, a)
  }

  /** One account differs, and is written. */
  lemma HoldsNext(base: map<Address, Account>, written: map<Address, Account>, w: World, w': World, a: Address)
    requires Holds(base + written, w)
    requires forall b: Address :: b != a ==> AccountOf(w', b) == AccountOf(w, b)
    ensures Holds(base + written[a := AccountOf(w', a)], w')
  {
    Overlay(base, written, a, AccountOf(w', a));
    forall b: Address
      ensures Stored(base + written[a := AccountOf(w', a)], NO_ACCOUNT, b) == AccountOf(w', b)
    {
      if b != a {
        assert Stored(base + written, NO_ACCOUNT, b) == AccountOf(w, b);
      }
    }
  }

  /**
   * Storage and accounts of the system, each kept in a journal: both agree with the system on
   * the state and on every open frame.
   */
  class JournaledState {
    const system: System
    const slots: Journaled<Slot, u256>
    const accounts: Journaled<Address, Account>

    constructor (system: System)
      requires system.frames == []
      ensures this.system == system && fresh(slots) && fresh(slots.values) && fresh(accounts) && fresh(accounts.values)
      ensures Agrees()
    {
      this.system := system;
      slots := new Journaled(system.world.storage, 0);
      accounts := new Journaled(AccountsIn(system.world), NO_ACCOUNT);
      new;
      assert accounts.base + map[] == accounts.base;
    }

    ghost predicate SlotsAgree()
      reads system, slots, slots.values
    {
      && slots.Valid() && slots.absent == 0 && system.world.storage == slots.base + slots.written
      && |slots.frames| == |system.frames|
      && forall i :: 0 <= i < |system.frames| ==> system.frames[i].storage == slots.base + slots.frames[i]
    }

    ghost predicate AccountsAgree()
      reads system, accounts, accounts.values
    {
      && accounts.Valid() && accounts.absent == NO_ACCOUNT && Holds(accounts.base + accounts.written, system.world)
      && |accounts.frames| == |system.frames|
      && forall i :: 0 <= i < |system.frames| ==> Holds(accounts.base + accounts.frames[i], system.frames[i])
    }

    ghost predicate Agrees()
      reads system, slots, slots.values, accounts, accounts.values
    {
      && slots as object != accounts && slots.values as object != accounts.values
      && SlotsAgree() && AccountsAgree()
    }

    method Start() returns (handle: nat)
      requires Agrees()
      modifies system, slots, slots.values, accounts, accounts.values
      ensures Agrees() && handle == |old(system.frames)| && system.frames == old(system.frames) + [system.world]
      ensures system.world == old(system.world)
    {
      handle := system.StartGlobalFrame();
      var h := slots.Start();
      h := accounts.Start();
    }

    method Finish()
      requires Agrees() && |system.frames| > 0
      modifies system, slots, slots.values, accounts, accounts.values
      ensures Agrees() && system.frames == old(system.frames)[..|old(system.frames)| - 1]
      ensures system.world == old(system.world)
    {
      system.FinishGlobalFrame();
      slots.Finish();
      accounts.Finish();
    }

    /** Rolling the journals back to the snapshots of a frame gives the storage and the accounts it remembers. */
    method Rollback(handle: nat)
      requires Agrees() && handle < |system.frames|
      modifies system, slots, slots.values, accounts, accounts.values
      ensures Agrees() && system.world == old(system.frames[handle]) && system.frames == old(system.frames)[..handle]
    {
      system.RollbackGlobalFrame(handle);
      slots.Rollback(handle);
      accounts.Rollback(handle);
    }

    method Write(res: Resources, a: Address, key: u256, value: u256)
      returns (left: Resources, error: Option<ChargeError>)
      requires Agrees()
      modifies system, slots, slots.values
      ensures Agrees() && system.frames == old(system.frames)
      ensures error.Some? ==> system.world == old(system.world)
      ensures error.None? ==>
        system.world == Written(old(system.world), false, a, key, value, old(system.refundsAfter(system.services)))
    {
      left, error := system.StorageWrite(res, false, a, key, value);
      if error.None? {
        SameAccounts(accounts.base + accounts.written, old(system.world), system.world);
        Overlay(slots.base, slots.written, (a, key), value);
        slots.Write((a, key), value);
      }
    }

    /** Reads through the journal see the storage of the system. */
    method Read(a: Address, key: u256) returns (v: u256)
      requires Agrees()
      modifies slots, slots.values
      ensures Agrees() && v == Stored(system.world.storage, 0, (a, key))
    {
      v := slots.Read((a, key));
    }

    /** Reads through the journal see the accounts of the system. */
    method ReadAccount(a: Address) returns (account: Account)
      requires Agrees()
      modifies accounts, accounts.values
      ensures Agrees() && account == AccountOf(system.world, a)
    {
      account := accounts.Read(a);
    }

    /** Brings the journal up to date with a service that changed one account. */
    method Record(a: Address, ghost before: World)
      requires slots as object != accounts && slots.values as object != accounts.values && SlotsAgree()
      requires accounts.Valid() && accounts.absent == NO_ACCOUNT && Holds(accounts.base + accounts.written, before)
      requires |accounts.frames| == |system.frames|
      requires forall i :: 0 <= i < |system.frames| ==> Holds(accounts.base + accounts.frames[i], system.frames[i])
      requires forall b: Address :: b != a ==> AccountOf(system.world, b) == AccountOf(before, b)
      modifies accounts, accounts.values
      ensures Agrees()
    {
      HoldsNext(accounts.base, accounts.written, before, system.world, a);
      accounts.Write(a, AccountOf(system.world, a));
    }

    method SubtractBalance(res: Resources, a: Address, v: u256) returns (left: Resources, error: Option<IoError>)
      requires Agrees()
      modifies system, accounts, accounts.values
      ensures Agrees() && system.frames == old(system.frames)
      ensures error.Some? ==> system.world == old(system.world)
      ensures error.None? ==> v <= old(system.world).Balance(a) && system.world == Debit(old(system.world), a, v)
    {
      left, error := system.SubtractBalance(res, a, v);
      if error.None? {
        Record(a, old(system.world));
      }
    }

    method AddBalance(res: Resources, a: Address, v: u256) returns (left: Resources, error: Option<IoError>)
      requires Agrees()
      modifies system, accounts, accounts.values
      ensures Agrees() && system.frames == old(system.frames)
      ensures error.Some? ==> system.world == old(system.world)
      ensures error.None? ==>
        old(system.world).Balance(a) + v <= U256_MAX && system.world == Credit(old(system.world), a, v)
    {
      left, error := system.AddBalance(res, a, v);
      if error.None? {
        Record(a, old(system.world));
      }
    }

    /** A transfer through the journal keeps the accounted value, and the journal shows it. */
    method TransferValue(res: Resources, from: Address, to: Address, v: u256)
      returns (left: Resources, error: Option<IoError>)
      requires Agrees()
      modifies system, accounts, accounts.values
      ensures Agrees() && system.frames == old(system.frames)
      ensures error.None? ==>
        && CanTransfer(old(system.world), from, to, v) && system.world == Transfer(old(system.world), from, to, v)
        && Accounted(system.world) == Accounted(old(system.world))
    {
      left, error := SubtractBalance(res, from, v);
      if error.None? {
        left, error := AddBalance(left, to, v);
        if error.None? {
          TransferConserves(old(system.world), from, to, v);
        }
      }
    }

    method IncrementNonceOf(res: Resources, a: Address) returns (left: Resources, error: Option<IoError>)
      requires Agrees()
      modifies system, accounts, accounts.values
      ensures Agrees() && system.frames == old(system.frames)
      ensures error.Some? ==> system.world == old(system.world)
      ensures error.None? ==>
        old(system.world).Nonce(a) < U64_MAX && system.world == IncrementNonce(old(system.world), a)
    {
      left, error := system.IncrementNonceOf(res, a);
      if error.None? {
        Record(a, old(system.world));
      }
    }

    method DeployCode(res: Resources, a: Address, code: seq<byte>)
      returns (left: Resources, error: Option<ChargeError>)
      requires Agrees()
      modifies system, accounts, accounts.values
      ensures Agrees() && system.frames == old(system.frames)
      ensures error.Some? ==> system.world == old(system.world)
      ensures error.None? ==>
        system.world == old(system.world).(code := old(system.world).code[a := Code(code, true)],
                                           deployedInTx := old(system.world).deployedInTx + {a})
    {
      left, error := system.DeployCode(res, a, code);
      if error.None? {
        Record(a, old(system.world));
      }
    }
  }

  lemma SameAccounts(m: map<Address, Account>, w: World, w': World)
    requires Holds(m, w) && w.balances == w'.balances && w.nonces == w'.nonces && w.code == w'.code
    ensures Holds(m, w')
  {
    forall a: Address ensures Stored(m, NO_ACCOUNT, a) == AccountOf(w', a) {
      assert Stored(m, NO_ACCOUNT, a) == AccountOf(w, a);
    }
  }
}
