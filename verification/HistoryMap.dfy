/** The key-value map with snapshots on which frame rollback rests. */
module HistoryMap {
  import opened Numbers

  datatype Record<V> = Record(touch: nat, value: V)

  /** The history of one element, oldest record first; the initial one belongs to snapshot 0. */
  type History<V> = seq<Record<V>>

  ghost predicate IsHistory<V>(h: History<V>)
  {
    |h| > 0 && if |h| == 1 then h[0].touch == 0 else IsHistory(h[..|h| - 1]) && h[|h| - 2].touch < h[|h| - 1].touch
  }

  ghost function Newest<V>(h: History<V>): nat
    requires |h| > 0
  {
    h[|h| - 1].touch
  }

  ghost function Last<V>(h: History<V>): V
    requires |h| > 0
  {
    h[|h| - 1].value
  }

  /** Records are in order of time. */
  lemma {:induction false} Ordered<V>(h: History<V>, i: nat)
    requires IsHistory(h) && i < |h|
    ensures h[0].touch == 0 && h[i].touch <= Newest(h)
  {
    if |h| > 1 {
      Ordered(h[..|h| - 1], if i < |h| - 1 then i else 0);
    }
  }

  /** The value at a snapshot: that of the latest record not newer than it. */
  ghost function ValueAt<V>(h: History<V>, id: nat): V
    requires |h| > 0
  {
    if |h| == 1 || Newest(h) <= id then h[|h| - 1].value else ValueAt(h[..|h| - 1], id)
  }

  // ----- one element

  /** A new value in the current snapshot: over the record of this snapshot, or in a new one. */
  function Touched<V>(h: History<V>, next: nat, v: V): (r: History<V>)
    requires |h| > 0
    ensures |r| > 0 && r[|r| - 1] == Record(next, v)
  {
    if h[|h| - 1].touch == next then h[..|h| - 1] + [Record(next, v)] else h + [Record(next, v)]
  }

  lemma {:induction false} TouchedIs<V>(h: History<V>, next: nat, v: V)
    requires IsHistory(h) && 0 < next && Newest(h) <= next
    ensures IsHistory(Touched(h, next, v)) && Touched(h, next, v)[0] == h[0]
    ensures forall i :: 0 <= i < |Touched(h, next, v)| - 1 ==> i < |h| && Touched(h, next, v)[i] == h[i]
    ensures forall id: nat :: id < next ==> ValueAt(Touched(h, next, v), id) == ValueAt(h, id)
  {
    var r := Touched(h, next, v);
    Ordered(h, 0);
    if h[|h| - 1].touch == next {
      assert r[..|r| - 1] == h[..|h| - 1];
    } else {
      assert r[..|r| - 1] == h;
    }
  }

  /** Some of the records newer than a snapshot are gone, all others are in place. */
  ghost predicate Shortened<V>(before: History<V>, after: History<V>, id: nat)
  {
    0 < |after| <= |before| && after <= before && forall j :: |after| <= j < |before| ==> before[j].touch > id
  }

  /** Drops the records newer than the snapshot. */
  method RollbackElement<V>(h: History<V>, id: nat) returns (r: History<V>)
    requires IsHistory(h)
    ensures IsHistory(r) && Newest(r) <= id && Shortened(h, r, id)
  {
    var kept := |h|;
    assert h[..kept] == h;
    while h[kept - 1].touch > id
      invariant 0 < kept <= |h| && IsHistory(h[..kept])
      invariant forall j :: kept <= j < |h| ==> h[j].touch > id
    {
      assert h[..kept][..kept - 1] == h[..kept - 1];
      kept := kept - 1;
    }
    r := h[..kept];
  }

  /** A prefix that holds all records up to a snapshot shows the same values there. */
  lemma {:induction false} PrefixValue<V>(h: History<V>, r: History<V>, id: nat, at: nat)
    requires Shortened(h, r, id) && at <= id
    ensures ValueAt(h, at) == ValueAt(r, at)
    decreases |h|
  {
    if |h| > |r| {
      PrefixValue(h[..|h| - 1], r, id, at);
    } else {
      assert h == r;
    }
  }

  /** From a snapshot on that nothing is newer than, every snapshot shows the last value. */
  lemma FlatAbove<V>(h: History<V>, id: nat, at: nat)
    requires |h| > 0 && Newest(h) <= id <= at
    ensures ValueAt(h, at) == Last(h)
  {
  }

  /** What a commit keeps: the initial and the latest record. */
  function CommitElement<V>(h: History<V>): (r: History<V>)
    requires |h| > 0
    ensures 0 < |r| <= 2 && r[|r| - 1] == h[|h| - 1] && r[0] == h[0]
    ensures |r| == 1 <==> |h| == 1
  {
    if |h| <= 2 then h else [h[0], h[|h| - 1]]
  }

  lemma {:induction false} CommittedIs<V>(h: History<V>)
    requires IsHistory(h)
    ensures IsHistory(CommitElement(h))
  {
    if |h| > 2 {
      Ordered(h[..|h| - 1], 0);
      assert CommitElement(h)[..1] == [h[0]];
    }
  }

  // ----- the whole map

  ghost predicate Histories<K(!new), V>(btree: map<K, History<V>>, next: nat)
  {
    forall k :: k in btree ==> IsHistory(btree[k]) && Newest(btree[k]) <= next
  }

  /** The log of updates is in order of time. */
  ghost predicate Chronological<K>(pending: seq<(K, nat)>)
  {
    |pending| <= 1 || (Chronological(pending[..|pending| - 1]) && pending[|pending| - 2].1 <= pending[|pending| - 1].1)
  }

  lemma {:induction false} LatestLast<K>(pending: seq<(K, nat)>, i: nat)
    requires Chronological(pending) && i < |pending|
    ensures pending[i].1 <= pending[|pending| - 1].1
  {
    if |pending| > 1 && i < |pending| - 1 {
      LatestLast(pending[..|pending| - 1], i);
    }
  }

  /** Its entries are of loaded keys and lie between the frozen and the next snapshot. */
  ghost predicate InRange<K(!new), V>(pending: seq<(K, nat)>, btree: map<K, History<V>>, frozen: nat, next: nat)
  {
    forall p :: p in pending ==> p.0 in btree && frozen < p.1 <= next
  }

  /** The log covers the records of one history that can still be rolled back. */
  ghost predicate Covers<K, V>(pending: seq<(K, nat)>, k: K, h: History<V>, frozen: nat)
  {
    forall i :: 0 <= i < |h| && h[i].touch > frozen ==> (k, h[i].touch) in pending
  }

  ghost predicate Logged<K(!new), V>(btree: map<K, History<V>>, pending: seq<(K, nat)>, frozen: nat)
  {
    forall k :: k in btree ==> Covers(pending, k, btree[k], frozen)
  }

  ghost predicate Consistent<K(!new), V>(btree: map<K, History<V>>, pending: seq<(K, nat)>, frozen: nat, next: nat)
  {
    && frozen < next && Histories(btree, next) && Chronological(pending)
    && InRange(pending, btree, frozen, next) && Logged(btree, pending, frozen)
  }

  /** Exchanging or adding one history, with the log entries that go with it. */
  lemma {:induction false} ReplaceConsistent<K(!new), V>(btree: map<K, History<V>>, pending: seq<(K, nat)>,
                                                         frozen: nat, next: nat,
                                                         k: K, h: History<V>, pending': seq<(K, nat)>)
    requires Consistent(btree, pending, frozen, next)
    requires IsHistory(h) && Newest(h) <= next && Covers(pending', k, h, frozen)
    requires Chronological(pending') && InRange(pending', btree[k := h], frozen, next)
    requires forall p :: p in pending && p.0 != k ==> p in pending'
    ensures Consistent(btree[k := h], pending', frozen, next)
  {
  }

  /** The log after an update. */
  function Extended<K, V>(pending: seq<(K, nat)>, k: K, h: History<V>, next: nat): (r: seq<(K, nat)>)
    requires |h| > 0
  {
    if h[|h| - 1].touch == next then pending else pending + [(k, next)]
  }

  lemma {:induction false} ExtendedCovers<K(!new), V>(pending: seq<(K, nat)>, k: K, h: History<V>, frozen: nat,
                                                      next: nat, v: V)
    requires IsHistory(h) && frozen < next && Newest(h) <= next && Covers(pending, k, h, frozen)
    ensures Covers(Extended(pending, k, h, next), k, Touched(h, next, v), frozen)
    ensures forall p :: p in pending ==> p in Extended(pending, k, h, next)
  {
    var r, pending' := Touched(h, next, v), Extended(pending, k, h, next);
    TouchedIs(h, next, v);
    if Newest(h) != next {
      assert pending'[|pending|] == (k, next);
    }
    forall i | 0 <= i < |r| && r[i].touch > frozen ensures (k, r[i].touch) in pending' {
      if i < |r| - 1 {
        assert (k, h[i].touch) in pending;
      } else if Newest(h) == next {
        assert (k, h[|h| - 1].touch) in pending;
      }
    }
  }

  lemma {:induction false} ExtendedChronological<K(!new), V>(pending: seq<(K, nat)>, btree: map<K, History<V>>, k: K,
                                                             frozen: nat, next: nat)
    requires Chronological(pending) && InRange(pending, btree, frozen, next) && frozen < next && k in btree
    ensures Chronological(pending + [(k, next)]) && InRange(pending + [(k, next)], btree, frozen, next)
  {
    var r := pending + [(k, next)];
    assert r[..|r| - 1] == pending;
    if pending != [] {
      assert pending[|pending| - 1] in pending;
    }
  }

  lemma {:induction false} SetConsistent<K(!new), V>(btree: map<K, History<V>>, pending: seq<(K, nat)>, frozen: nat,
                                                     next: nat, k: K, v: V)
    requires Consistent(btree, pending, frozen, next) && k in btree
    ensures IsHistory(btree[k])
    ensures Consistent(btree[k := Touched(btree[k], next, v)], Extended(pending, k, btree[k], next), frozen, next)
  {
    var h := btree[k];
    var r, pending' := Touched(h, next, v), Extended(pending, k, h, next);
    var btree' := btree[k := r];
    TouchedIs(h, next, v);
    ExtendedCovers(pending, k, h, frozen, next, v);
    ExtendedChronological(pending, btree', k, frozen, next);
    ReplaceConsistent(btree, pending, frozen, next, k, r, pending');
  }

  /** Records newer than the snapshot may be gone, the others are in place. */
  ghost predicate RolledBack<K(!new), V>(before: map<K, History<V>>, after: map<K, History<V>>, id: nat)
  {
    before.Keys == after.Keys && forall k :: k in after ==> Shortened(before[k], after[k], id)
  }

  lemma {:induction false} PopConsistent<K(!new), V>(btree: map<K, History<V>>, pending: seq<(K, nat)>, frozen: nat,
                                                     next: nat, id: nat, key: K, h: History<V>)
    requires Consistent(btree, pending, frozen, next) && key in btree
    requires pending != [] && pending[|pending| - 1].0 == key && pending[|pending| - 1].1 > id
    requires IsHistory(h) && Shortened(btree[key], h, id) && Newest(h) <= id
    ensures Consistent(btree[key := h], pending[..|pending| - 1], frozen, next)
  {
    var rest := pending[..|pending| - 1];
    assert pending == rest + [pending[|pending| - 1]];
    forall i | 0 <= i < |h| && h[i].touch > frozen ensures (key, h[i].touch) in rest {
      Ordered(h, i);
      assert btree[key][i] == h[i];
      assert (key, btree[key][i].touch) in pending;
    }
    Ordered(btree[key], |h| - 1);
    ReplaceConsistent(btree, pending, frozen, next, key, h, rest);
  }

  lemma {:induction false} PopRolledBack<K(!new), V>(btree: map<K, History<V>>, next: nat, id: nat, key: K,
                                                     h: History<V>)
    requires Histories(btree, next) && key in btree && Shortened(btree[key], h, id)
    ensures RolledBack(btree, btree[key := h], id)
  {
    forall k | k in btree && k != key ensures Shortened(btree[k], btree[k], id) {
      assert IsHistory(btree[k]);
    }
  }

  lemma {:induction false} NothingDropped<K(!new), V>(btree: map<K, History<V>>, next: nat, id: nat)
    requires Histories(btree, next)
    ensures RolledBack(btree, btree, id)
  {
    forall k | k in btree ensures Shortened(btree[k], btree[k], id) {
      assert IsHistory(btree[k]);
    }
  }

  lemma {:induction false} RolledBackTwice<K(!new), V>(a: map<K, History<V>>, b: map<K, History<V>>,
                                                       c: map<K, History<V>>, id: nat)
    requires RolledBack(a, b, id) && RolledBack(b, c, id)
    ensures RolledBack(a, c, id)
  {
    forall k | k in c ensures Shortened(a[k], c[k], id) {
      assert Shortened(a[k], b[k], id) && Shortened(b[k], c[k], id);
    }
  }

  lemma {:induction false} RolledBackKeeps<K(!new), V>(before: map<K, History<V>>, after: map<K, History<V>>, id: nat)
    requires RolledBack(before, after, id) && Histories(after, id)
    ensures forall k :: k in after ==> after[k][|after[k]| - 1].value == ValueAt(before[k], id)
    ensures Keeps(before, after, id + 1)
  {
    forall k | k in after ensures KeepsElement(k, before, after[k], id + 1) {
      assert Shortened(before[k], after[k], id);
      forall at: nat | at <= id ensures ValueAt(after[k], at) == ValueAt(before[k], at) {
        PrefixValue(before[k], after[k], id, at);
      }
    }
    forall k | k in after ensures after[k][|after[k]| - 1].value == ValueAt(before[k], id) {
      assert KeepsElement(k, before, after[k], id + 1);
      assert ValueAt(after[k], id) == after[k][|after[k]| - 1].value;
    }
  }

  lemma {:induction false} SetKeeps<K(!new), V>(btree: map<K, History<V>>, next: nat, k: K, v: V)
    requires Histories(btree, next) && 0 < next && k in btree && IsHistory(btree[k])
    ensures Keeps(btree, btree[k := Touched(btree[k], next, v)], next)
  {
    var h := Touched(btree[k], next, v);
    TouchedIs(btree[k], next, v);
    assert KeepsElement(k, btree, h, next);
  }

  /** One key has a new last value, all others have theirs. */
  ghost predicate Sets<K(!new), V>(before: map<K, History<V>>, after: map<K, History<V>>, key: K, v: V)
  {
    && before.Keys == after.Keys
    && forall k :: k in after ==>
         |before[k]| > 0 && |after[k]| > 0 && Last(after[k]) == if k == key then v else Last(before[k])
  }

  lemma {:induction false} SetCurrent<K(!new), V>(btree: map<K, History<V>>, next: nat, k: K, v: V)
    requires Histories(btree, next) && k in btree && |btree[k]| > 0
    ensures Sets(btree, btree[k := Touched(btree[k], next, v)], k, v)
  {
  }

  /** An empty log, or one without entries newer than the snapshot, leaves nothing newer in the map. */
  lemma {:induction false} NothingNewer<K(!new), V>(btree: map<K, History<V>>, pending: seq<(K, nat)>, frozen: nat,
                                                    next: nat, id: nat)
    requires Consistent(btree, pending, frozen, next) && frozen <= id
    requires pending == [] || pending[|pending| - 1].1 <= id
    ensures Histories(btree, id)
  {
    forall p | p in pending ensures p.1 <= id {
      var i :| 0 <= i < |pending| && pending[i] == p;
      LatestLast(pending, i);
    }
    forall k | k in btree ensures Newest(btree[k]) <= id {
      assert Covers(pending, k, btree[k], frozen);
      assert Newest(btree[k]) > frozen ==> (k, Newest(btree[k])) in pending;
    }
  }

  /** A map shows a set of written values over the stored ones. */
  ghost predicate Shows<K(!new), V>(btree: map<K, History<V>>, written: map<K, V>)
  {
    && (forall k :: k in written ==> k in btree)
    && (forall k :: k in btree && |btree[k]| > 0 ==>
          btree[k][|btree[k]| - 1].value == if k in written then written[k] else btree[k][0].value)
  }

  /** Snapshots below an ID are as they were, and keys loaded since show their stored value there. */
  ghost predicate Keeps<K(!new), V>(before: map<K, History<V>>, after: map<K, History<V>>, below: nat)
  {
    && (forall k :: k in before ==> k in after)
    && (forall k :: k in after ==> |after[k]| > 0 && KeepsElement(k, before, after[k], below))
  }

  ghost predicate KeepsElement<K(!new), V>(k: K, before: map<K, History<V>>, h: History<V>, below: nat)
    requires |h| > 0
  {
    && (k in before && |before[k]| > 0 ==> h[0] == before[k][0])
    && (forall id: nat :: id < below ==>
          ValueAt(h, id) == if k in before && |before[k]| > 0 then ValueAt(before[k], id) else h[0].value)
  }

  lemma {:induction false} KeepsLess<K(!new), V>(before: map<K, History<V>>, after: map<K, History<V>>, below: nat,
                                                 below': nat)
    requires Keeps(before, after, below) && below' <= below
    ensures Keeps(before, after, below')
  {
    forall k | k in after ensures |after[k]| > 0 && KeepsElement(k, before, after[k], below') {
      assert KeepsElement(k, before, after[k], below);
    }
  }

  lemma {:induction false} KeepsTwice<K(!new), V>(a: map<K, History<V>>, b: map<K, History<V>>, c: map<K, History<V>>,
                                                  below: nat, below': nat)
    requires Keeps(a, b, below) && Keeps(b, c, below') && below <= below'
    ensures Keeps(a, c, below)
  {
    forall k | k in c ensures |c[k]| > 0 && KeepsElement(k, a, c[k], below) {
      assert KeepsElement(k, b, c[k], below');
      if k in b {
        assert KeepsElement(k, a, b[k], below);
      }
    }
  }

  /** Takes the top entry off the log and rolls its element back. */
  method PopUpdate<K(==, !new), V>(btree: map<K, History<V>>, pending: seq<(K, nat)>, ghost frozen: nat,
                                   ghost next: nat, id: nat)
    returns (btree': map<K, History<V>>, pending': seq<(K, nat)>)
    requires Consistent(btree, pending, frozen, next) && pending != [] && pending[|pending| - 1].1 > id
    ensures Consistent(btree', pending', frozen, next) && RolledBack(btree, btree', id)
    ensures pending' == pending[..|pending| - 1]
  {
    var (key, _) := pending[|pending| - 1];
    var h := RollbackElement(btree[key], id);
    PopConsistent(btree, pending, frozen, next, id, key, h);
    PopRolledBack(btree, next, id, key, h);
    btree', pending' := btree[key := h], pending[..|pending| - 1];
  }

  /** Works through the log from its end until no entry is newer than the snapshot. */
  method UndoNewer<K(==, !new), V>(btree: map<K, History<V>>, pending: seq<(K, nat)>, ghost frozen: nat,
                                   ghost next: nat, id: nat)
    returns (btree': map<K, History<V>>, pending': seq<(K, nat)>)
    requires Consistent(btree, pending, frozen, next) && frozen <= id
    ensures Consistent(btree', pending', frozen, next) && btree'.Keys == btree.Keys && Histories(btree', id)
    ensures forall k :: k in btree' ==> btree'[k][|btree'[k]| - 1].value == ValueAt(btree[k], id)
    ensures Keeps(btree, btree', id + 1)
  {
    btree', pending' := btree, pending;
    NothingDropped(btree, next, id);
    while pending' != [] && pending'[|pending'| - 1].1 > id
      invariant Consistent(btree', pending', frozen, next) && RolledBack(btree, btree', id)
      decreases |pending'|
    {
      ghost var middle := btree';
      btree', pending' := PopUpdate(btree', pending', frozen, next, id);
      RolledBackTwice(btree, middle, btree', id);
    }
    NothingNewer(btree', pending', frozen, next, id);
    RolledBackKeeps(btree, btree', id);
  }

  class HistoryMap<K(==, !new), V> {
    var btree: map<K, History<V>>
    var nextSnapshot: nat
    var frozenSnapshot: nat
    /** Updates since the last commit, oldest first: the end of the sequence is the top of the stack. */
    var pending: seq<(K, nat)>

    constructor ()
      ensures Valid() && btree == map[]
    {
      btree, nextSnapshot, frozenSnapshot, pending := map[], 1, 0, [];
    }

    ghost predicate Valid()
      reads this
    {
      Consistent(btree, pending, frozenSnapshot, nextSnapshot)
    }

    /** The value a loaded key has now. */
    ghost function Current(k: K): V
      requires k in btree && IsHistory(btree[k])
      reads this
    {
      Last(btree[k])
    }

    method Snapshot() returns (id: nat)
      requires Valid()
      modifies `nextSnapshot
      ensures Valid() && id == old(nextSnapshot) && nextSnapshot == id + 1
      ensures forall k :: k in btree ==> ValueAt(btree[k], id) == Current(k)
    {
      id := nextSnapshot;
      LaterConsistent(btree, pending, frozenSnapshot, id);
      nextSnapshot := nextSnapshot + 1;
    }

    /** Makes sure the key has a history, starting from its stored value. */
    method Load(k: K, stored: V)
      requires Valid()
      modifies `btree
      ensures Valid() && btree == Loaded(old(btree), k, stored)
    {
      if k !in btree {
        var h := [Record(0, stored)];
        ReplaceConsistent(btree, pending, frozenSnapshot, nextSnapshot, k, h, pending);
        btree := btree[k := h];
      }
    }

    /** Sets a loaded key; earlier snapshots do not see the new value. */
    method Update(k: K, v: V)
      requires Valid() && k in btree
      modifies `btree, `pending
      ensures Valid() && Sets(old(btree), btree, k, v) && Keeps(old(btree), btree, nextSnapshot)
    {
      SetConsistent(btree, pending, frozenSnapshot, nextSnapshot, k, v);
      SetKeeps(btree, nextSnapshot, k, v);
      SetCurrent(btree, nextSnapshot, k, v);
      btree, pending := btree[k := Touched(btree[k], nextSnapshot, v)], Extended(pending, k, btree[k], nextSnapshot);
    }

    /** Back to a snapshot that exists and is not below the frozen one: every key has its value of then. */
    method Rollback(id: nat) returns (ok: bool)
      requires Valid()
      modifies `btree, `pending
      ensures Valid() && (ok <==> frozenSnapshot <= id < nextSnapshot)
      ensures btree.Keys == old(btree).Keys
      ensures !ok ==> btree == old(btree)
      ensures ok ==> forall k :: k in btree ==> Current(k) == ValueAt(old(btree)[k], id)
      ensures ok ==> Keeps(old(btree), btree, id + 1)
      ensures ok ==> forall k, at: nat :: k in btree && id <= at ==> ValueAt(btree[k], at) == ValueAt(old(btree)[k], id)
    {
      if id < frozenSnapshot || id >= nextSnapshot {
        return false;
      }
      ok := true;
      btree, pending := UndoNewer(btree, pending, frozenSnapshot, nextSnapshot, id);
      forall k, at: nat | k in btree && id <= at ensures ValueAt(btree[k], at) == ValueAt(old(btree)[k], id) {
        FlatAbove(btree[k], id, at);
      }
    }

    /** Keeps the current values; snapshots taken before can no longer be rolled back to. */
    method Commit()
      requires Valid()
      modifies this
      ensures Valid() && frozenSnapshot == old(nextSnapshot) && nextSnapshot == old(nextSnapshot) + 1
      ensures btree.Keys == old(btree).Keys
      ensures forall k :: k in btree ==> btree[k][0] == old(btree)[k][0] && Current(k) == old(Current(k))
    {
      frozenSnapshot := nextSnapshot;
      nextSnapshot := nextSnapshot + 1;
      var i := 0;
      while i < |pending|
        invariant 0 <= i <= |pending| && pending == old(pending)
        invariant frozenSnapshot == old(nextSnapshot) && nextSnapshot == frozenSnapshot + 1
        invariant Committed(old(btree), btree, frozenSnapshot)
      {
        var key := pending[i].0;
        CommitStep(old(btree), btree, frozenSnapshot, key);
        btree := btree[key := CommitElement(btree[key])];
        i := i + 1;
      }
      pending := [];
      CommitConsistent(btree, frozenSnapshot);
    }
  }

  lemma {:induction false} CommitStep<K(!new), V>(before: map<K, History<V>>, btree: map<K, History<V>>, frozen: nat,
                                                  key: K)
    requires Committed(before, btree, frozen) && key in btree && IsHistory(btree[key])
    ensures Committed(before, btree[key := CommitElement(btree[key])], frozen)
  {
    CommittedIs(btree[key]);
  }

  lemma {:induction false} CommitConsistent<K(!new), V>(btree: map<K, History<V>>, frozen: nat)
    requires Histories(btree, frozen)
    ensures Consistent(btree, [], frozen, frozen + 1)
  {
    forall k | k in btree ensures Covers([], k, btree[k], frozen) {
      forall j | 0 <= j < |btree[k]| ensures btree[k][j].touch <= frozen {
        Ordered(btree[k], j);
      }
    }
  }

  ghost predicate Committed<K(!new), V>(before: map<K, History<V>>, after: map<K, History<V>>, frozen: nat)
  {
    && before.Keys == after.Keys && Histories(after, frozen)
    && forall k :: k in after && |before[k]| > 0 ==>
         after[k][0] == before[k][0] && after[k][|after[k]| - 1] == before[k][|before[k]| - 1]
  }

  lemma {:induction false} LaterConsistent<K(!new), V>(btree: map<K, History<V>>, pending: seq<(K, nat)>, frozen: nat,
                                                       next: nat)
    requires Consistent(btree, pending, frozen, next)
    ensures Consistent(btree, pending, frozen, next + 1)
  {
  }

  // ----- abandoned snapshots

  /**
   * After a rollback to `id`, a later snapshot still shows its own value of a key if and only
   * if the two snapshots agreed on the key before.
   */
  method AbandonedSnapshot<K(==, !new), V>(m: HistoryMap<K, V>, id: nat, at: nat) returns (ok: bool)
    requires m.Valid() && id <= at
    modifies m
    ensures m.Valid() && m.btree.Keys == old(m.btree).Keys && (ok <==> m.frozenSnapshot <= id < m.nextSnapshot)
    ensures ok ==> forall k :: k in m.btree ==>
      (ValueAt(m.btree[k], at) == ValueAt(old(m.btree)[k], at)
       <==> ValueAt(old(m.btree)[k], at) == ValueAt(old(m.btree)[k], id))
  {
    ok := m.Rollback(id);
  }

  /** A write between two snapshots: they show different values. */
  method WriteBetween(m: HistoryMap<nat, nat>) returns (outer: nat, inner: nat)
    requires m.Valid() && m.btree == map[0 := [Record(0, 0)]]
    modifies m
    ensures m.Valid() && m.frozenSnapshot == old(m.frozenSnapshot) && m.frozenSnapshot < outer < inner < m.nextSnapshot
    ensures 0 in m.btree && |m.btree[0]| > 0 && ValueAt(m.btree[0], outer) == 0 && ValueAt(m.btree[0], inner) == 7
  {
    outer := m.Snapshot();
    ghost var before := m.btree;
    m.Update(0, 7);
    assert KeepsElement(0, before, m.btree[0], m.nextSnapshot);
    inner := m.Snapshot();
  }

  /**
   * A snapshot that loses its view: a rollback to before the write leaves it showing the old
   * value, although a rollback to it would still be accepted.
   */
  method AbandonedSnapshotIsLost() returns (m: HistoryMap<nat, nat>, inner: nat, ghost shown: nat)
    ensures fresh(m) && m.Valid() && m.frozenSnapshot <= inner < m.nextSnapshot
    ensures 0 in m.btree && |m.btree[0]| > 0 && shown == 7 && ValueAt(m.btree[0], inner) == 0
  {
    m := new HistoryMap();
    m.Load(0, 0);
    var outer;
    outer, inner := WriteBetween(m);
    shown := ValueAt(m.btree[0], inner);
    var ok := m.Rollback(outer);
  }

  // ----- nested frames

  /** What a transaction does to the map: writes, and frames that are kept or reverted. */
  datatype Actions<K, V> =
    | Done
    | Write(key: K, stored: V, value: V, rest: Actions<K, V>)
    | Frame(body: Actions<K, V>, reverts: bool, rest: Actions<K, V>)

  /** The meaning of a run: the values written by frames that were not reverted. */
  ghost function Outcome<K, V>(written: map<K, V>, actions: Actions<K, V>): map<K, V>
    decreases actions
  {
    match actions
    case Done => written
    case Write(key, _, value, rest) => Outcome(written[key := value], rest)
    case Frame(body, reverts, rest) => Outcome(if reverts then written else Outcome(written, body), rest)
  }

  ghost function Loaded<K, V>(btree: map<K, History<V>>, k: K, stored: V): map<K, History<V>>
  {
    if k in btree then btree else btree[k := [Record(0, stored)]]
  }

  /** What a write leaves behind, whether or not the key was loaded before. */
  ghost predicate Wrote<K(!new), V>(before: map<K, History<V>>, after: map<K, History<V>>, written: map<K, V>,
                                    next: nat,
                                    key: K, stored: V, value: V)
  {
    && Shows(after, written[key := value]) && Keeps(before, after, next) && after.Keys == before.Keys + {key}
    && (key !in before ==> |after[key]| > 0 && after[key][0].value == stored)
  }

  method WriteKey<K(==, !new), V>(m: HistoryMap<K, V>, key: K, stored: V, value: V, ghost written: map<K, V>)
    requires m.Valid() && Shows(m.btree, written)
    modifies m
    ensures m.Valid() && m.frozenSnapshot == old(m.frozenSnapshot) && m.nextSnapshot == old(m.nextSnapshot)
    ensures Wrote(old(m.btree), m.btree, written, m.nextSnapshot, key, stored, value)
  {
    ghost var before := m.btree;
    m.Load(key, stored);
    m.Update(key, value);
    UpdateShows(before, m.btree, written, m.nextSnapshot, key, stored, value);
  }

  lemma {:induction false} LoadKeeps<K(!new), V>(before: map<K, History<V>>, next: nat, key: K, stored: V)
    requires Histories(before, next)
    ensures Keeps(before, Loaded(before, key, stored), next)
  {
  }

  lemma {:induction false} UpdateShows<K(!new), V>(before: map<K, History<V>>, after: map<K, History<V>>,
                                                   written: map<K, V>, next: nat, key: K, stored: V, value: V)
    requires Histories(before, next) && Shows(before, written)
    requires Sets(Loaded(before, key, stored), after, key, value) && Keeps(Loaded(before, key, stored), after, next)
    ensures Wrote(before, after, written, next, key, stored, value)
  {
    var loaded := Loaded(before, key, stored);
    LoadKeeps(before, next, key, stored);
    KeepsTwice(before, loaded, after, next, next);
    forall k | k in after ensures after[k][0] == loaded[k][0] {
      assert KeepsElement(k, loaded, after[k], next);
    }
  }

  /** Runs any nesting of frames: the map ends up showing exactly the outcome of the run. */
  method Execute<K(==, !new), V>(m: HistoryMap<K, V>, actions: Actions<K, V>, ghost written: map<K, V>)
    requires m.Valid() && Shows(m.btree, written)
    modifies m
    ensures m.Valid() && m.frozenSnapshot == old(m.frozenSnapshot) && m.nextSnapshot >= old(m.nextSnapshot)
    ensures Shows(m.btree, Outcome(written, actions)) && Keeps(old(m.btree), m.btree, old(m.nextSnapshot))
    decreases actions, 0
  {
    ghost var before, below := m.btree, m.nextSnapshot;
    match actions {
      case Done =>
      case Write(key, stored, value, rest) =>
        WriteKey(m, key, stored, value, written);
        ghost var middle := m.btree;
        Execute(m, rest, written[key := value]);
        KeepsTwice(before, middle, m.btree, below, below);
      case Frame(body, reverts, rest) =>
        ghost var after := RunFrame(m, body, reverts, written);
        ghost var middle, below' := m.btree, m.nextSnapshot;
        Execute(m, rest, after);
        KeepsTwice(before, middle, m.btree, below, below');
    }
  }

  /** One frame: its body, and a rollback to its snapshot if it reverts. */
  method RunFrame<K(==, !new), V>(m: HistoryMap<K, V>, body: Actions<K, V>, reverts: bool, ghost written: map<K, V>)
    returns (ghost after: map<K, V>)
    requires m.Valid() && Shows(m.btree, written)
    modifies m
    ensures after == if reverts then written else Outcome(written, body)
    ensures m.Valid() && m.frozenSnapshot == old(m.frozenSnapshot) && m.nextSnapshot > old(m.nextSnapshot)
    ensures Shows(m.btree, after) && Keeps(old(m.btree), m.btree, old(m.nextSnapshot))
    decreases body, 1
  {
    ghost var before := m.btree;
    var id := m.Snapshot();
    Execute(m, body, written);
    after := Outcome(written, body);
    KeepsLess(before, m.btree, id + 1, id);
    if reverts {
      Revert(m, id, before, written);
      after := written;
    }
  }

  /** Undoes a frame whose snapshot was taken in the state `before`. */
  method Revert<K(==, !new), V>(m: HistoryMap<K, V>, id: nat, ghost before: map<K, History<V>>,
                                ghost written: map<K, V>)
    requires m.Valid() && m.frozenSnapshot <= id < m.nextSnapshot
    requires Histories(before, id) && Shows(before, written) && Keeps(before, m.btree, id + 1)
    modifies m
    ensures m.Valid() && m.frozenSnapshot == old(m.frozenSnapshot) && m.nextSnapshot == old(m.nextSnapshot)
    ensures Shows(m.btree, written) && Keeps(before, m.btree, id)
  {
    ghost var middle := m.btree;
    var ok := m.Rollback(id);
    RevertedFrame(before, middle, m.btree, written, id);
  }

  /** A frame rolled back to its snapshot shows what was written before it. */
  lemma {:induction false} RevertedFrame<K(!new), V>(before: map<K, History<V>>, middle: map<K, History<V>>,
                                                     after: map<K, History<V>>, written: map<K, V>, id: nat)
    requires Histories(before, id) && Shows(before, written) && Keeps(before, middle, id + 1)
    requires after.Keys == middle.Keys && Keeps(middle, after, id + 1)
    requires forall k :: k in after ==> |after[k]| > 0 && |middle[k]| > 0
    requires forall k :: k in after ==> after[k][|after[k]| - 1].value == ValueAt(middle[k], id)
    ensures Shows(after, written) && Keeps(before, after, id)
  {
    KeepsTwice(before, middle, after, id + 1, id + 1);
    forall k | k in after
      ensures after[k][|after[k]| - 1].value == if k in written then written[k] else after[k][0].value
    {
      assert KeepsElement(k, before, middle[k], id + 1);
      assert KeepsElement(k, middle, after[k], id + 1);
    }
    KeepsLess(before, after, id + 1, id);
  }
}
