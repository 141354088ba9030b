/**
  Scanning a slot from cursor to cursor, with other operations on the index in between.
*/
module Scanning {
  import opened Keys
  import opened Words
  import opened Cursor
  import opened Slots
  import opened SlotIndexes
  import DictSpec
  import HashTable

  /** The keys of a slot. */
  ghost function SlotKeys(keys: set<Key>, slot: nat, size: nat): set<Key>
    requires size > 0
  {
    set k | k in keys && SlotOf(k, size) == slot
  }

  /** Two scan calls in a row cover together what lies between the first cursor and the last. */
  lemma ScansJoin(keys: set<Key>, hash: HashTable.Hash, slot: nat, size: nat,
                  u: Word, a: seq<Key>, v: Word, b: seq<Key>, w: Word)
    requires size > 0 && v != Zero()
    requires SlotScan(keys, hash, slot, size, u, a, v) && SlotScan(keys, hash, slot, size, v, b, w)
    ensures SlotScan(keys, hash, slot, size, u, a + b, w)
  {
    hide Pos, Zero, SlotOf;
    forall k | k in keys && SlotOf(k, size) == slot && Between(u, w, hash(k))
      ensures k in a + b
    {
      assert Between(u, v, hash(k)) || Between(v, w, hash(k));
    }
  }

  /** How many calls a scan may make: ten times the count, as a `long`. */
  function Rounds(count: nat): int
  {
    var n := count * 10 % DictSpec.UINT64;
    if n <= HashTable.LONG_MAX then n else n - DictSpec.UINT64
  }

  /** It is ten times the count exactly as long as that is a `long`. */
  lemma RoundsExact(count: nat)
    ensures Rounds(count) == 10 * count <==> 10 * count <= HashTable.LONG_MAX
  {
    assert Rounds(count) <= HashTable.LONG_MAX;
  }

  /** The first count for which it is not: the number is then negative. */
  lemma OneRound()
    ensures Rounds(922_337_203_685_477_581) < 0 && Rounds(922_337_203_685_477_580) == 9_223_372_036_854_775_800
  {}

  /** `SlotsMGRT_Scan`: scan until the slot is through, `count` keys are there, or as many calls were made as it may make;
      and no longer: before the last of the `calls`, made at cursor `mid`, only `before` keys were there. */
  method ScanKeys(d: DbInfo, slot: nat, count: nat, cursor0: Word)
    returns (emitted: seq<Key>, cursor: Word, ghost calls: nat, ghost before: nat, ghost mid: Word)
    requires d.Valid() && slot < d.size == |d.tables|
    ensures SlotScan(d.Keys, d.tables[slot].hash, slot, d.size, cursor0, emitted, cursor)
    ensures cursor == Zero() || |emitted| >= count || calls >= Rounds(count)
    ensures cursor == Zero() || Pos(cursor) >= Pos(cursor0) + calls
    ensures calls > 0 && before <= |emitted|
    ensures SlotScan(d.Keys, d.tables[slot].hash, slot, d.size, mid, emitted[before..], cursor)
    ensures if calls == 1 then before == 0 && mid == cursor0 else mid != Zero() && before < count && calls <= Rounds(count)
    ensures (forall k :: k in d.Keys ==> SlotOf(k, d.size) != slot) ==> emitted == [] && cursor == Zero() && calls == 1
  {
    hide DbInfo.Valid, SlotScan, Pos, Zero, SlotOf, Rounds;
    var loops := Rounds(count);
    emitted, cursor := d.ScanSlot(slot, cursor0);
    calls, before, mid := 1, 0, cursor0;
    Advanced(d.Keys, d.tables[slot].hash, slot, d.size, cursor0, emitted, cursor);
    assert emitted[before..] == emitted;
    loops := loops - 1;
    while cursor != Zero() && loops > 0 && |emitted| < count
      invariant SlotScan(d.Keys, d.tables[slot].hash, slot, d.size, cursor0, emitted, cursor)
      invariant loops == Rounds(count) - calls && calls > 0 && before <= |emitted|
      invariant cursor == Zero() || Pos(cursor) >= Pos(cursor0) + calls
      invariant SlotScan(d.Keys, d.tables[slot].hash, slot, d.size, mid, emitted[before..], cursor)
      invariant if calls == 1 then before == 0 && mid == cursor0 else mid != Zero() && before < count && calls <= Rounds(count)
      invariant (forall k :: k in d.Keys ==> SlotOf(k, d.size) != slot) ==> emitted == [] && cursor == Zero() && calls == 1
    {
      var more, next := d.ScanSlot(slot, cursor);
      Advanced(d.Keys, d.tables[slot].hash, slot, d.size, cursor, more, next);
      ScansJoin(d.Keys, d.tables[slot].hash, slot, d.size, cursor0, emitted, cursor, more, next);
      calls, before, mid := calls + 1, |emitted|, cursor;
      emitted, cursor := emitted + more, next;
      assert emitted[before..] == more;
      loops := loops - 1;
    }
  }

  lemma Advanced(keys: set<Key>, hash: HashTable.Hash, slot: nat, size: nat, v: Word, emitted: seq<Key>, v': Word)
    requires size > 0 && SlotScan(keys, hash, slot, size, v, emitted, v')
    ensures v' == Zero() || Pos(v') >= Pos(v) + 1
  {}

  // ---------------------------------------------------------------- whole scans

  /** What may happen to the index between two calls: keys come and go, a random key is asked for, the database is flushed,
      and the cron shrinks or rehashes a table. */
  datatype Op =
    | AddKey(key: Key, canResize: bool)
    | DelKey(key: Key)
    | AskRandom(slot: nat)
    | FlushKeys
    | Cron(slot: nat, canResize: bool, rounds: nat)

  function AfterOp(keys: set<Key>, op: Op): set<Key>
  {
    match op
    case AddKey(key, _) => keys + {key}
    case DelKey(key) => keys - {key}
    case FlushKeys => {}
    case _ => keys
  }

  function AfterOps(keys: set<Key>, ops: seq<Op>): set<Key>
  {
    if ops == [] then keys else AfterOp(AfterOps(keys, ops[..|ops| - 1]), ops[|ops| - 1])
  }

  /** The keys of the index at call number `i`, when the operations of `gaps[j]` follow call number `j`. */
  function KeysAt(keys: set<Key>, gaps: seq<seq<Op>>, i: nat): set<Key>
    requires i <= |gaps|
  {
    if i == 0 then keys else AfterOps(KeysAt(keys, gaps, i - 1), gaps[i - 1])
  }

  /** The keys that are there at each of the first `n` calls. */
  ghost predicate AtEach(keys: set<Key>, gaps: seq<seq<Op>>, n: nat, k: Key)
    requires n <= |gaps| + 1
  {
    forall i :: 0 <= i < n ==> k in KeysAt(keys, gaps, i)
  }

  /** The keys that are there at one of them. */
  ghost predicate AtSome(keys: set<Key>, gaps: seq<seq<Op>>, n: nat, k: Key)
    requires n <= |gaps| + 1
  {
    exists i :: 0 <= i < n && k in KeysAt(keys, gaps, i)
  }

  /** The operations are about existing slots, and there is room for the keys that they add. */
  ghost predicate Possible(ops: seq<Op>, size: nat)
  {
    forall i :: 0 <= i < |ops| ==> (ops[i].AskRandom? || ops[i].Cron? ==> ops[i].slot < size)
  }

  method Apply(d: DbInfo, op: Op)
    requires d.Valid() && |d.Keys| <= HashTable.LONG_MAX && Possible([op], d.size)
    modifies d, d.owner.Keys
    ensures d.Valid() && forall o :: o in d.owner ==> o in old(d.owner) || fresh(o)
    ensures d.Keys == AfterOp(old(d.Keys), op)
  {
    hide DbInfo.Valid;
    assert [op][0] == op;
    match op {
      case AddKey(key, canResize) => d.Add(key, canResize);
      case DelKey(key) => d.Del(key);
      case AskRandom(slot) => var _ := d.RandomKey(slot);
      case FlushKeys => d.Flush();
      case Cron(slot, canResize, rounds) => d.TendSlot(slot, canResize, rounds);
    }
  }

  method ApplyAll(d: DbInfo, ops: seq<Op>)
    requires d.Valid() && |d.Keys| + |ops| <= HashTable.LONG_MAX && Possible(ops, d.size)
    modifies d, d.owner.Keys
    ensures d.Valid() && forall o :: o in d.owner ==> o in old(d.owner) || fresh(o)
    ensures d.Keys == AfterOps(old(d.Keys), ops) && |d.Keys| <= |old(d.Keys)| + |ops|
  {
    hide DbInfo.Valid, AfterOp, SlotOf;
    ghost var keys, objects := d.Keys, d.owner.Keys;
    var i := 0;
    while i < |ops|
      invariant i <= |ops| && d.Valid() && d.Keys == AfterOps(keys, ops[..i]) && |d.Keys| <= |keys| + i
      invariant forall o :: o in d.owner ==> o in objects || fresh(o)
    {
      assert ops[..i + 1][..i] == ops[..i];
      OneMoreKey(d.Keys, ops[i]);
      Apply(d, ops[i]);
      i := i + 1;
    }
    assert ops[..i] == ops;
  }

  lemma OneMoreKey(keys: set<Key>, op: Op)
    ensures |AfterOp(keys, op)| <= |keys| + 1
  {}

  function TotalLength(gaps: seq<seq<Op>>): nat
  {
    if gaps == [] then 0 else TotalLength(gaps[..|gaps| - 1]) + |gaps[|gaps| - 1]|
  }

  lemma {:induction false} PartLength(gaps: seq<seq<Op>>, i: nat)
    requires i <= |gaps|
    ensures TotalLength(gaps[..i]) <= TotalLength(gaps)
  {
    if i < |gaps| {
      PartLength(gaps[..|gaps| - 1], i);
      assert gaps[..|gaps| - 1][..i] == gaps[..i];
    } else {
      assert gaps[..i] == gaps;
    }
  }

  /** Where a scan call has come to. */
  ghost function ComeTo(cursor: Word): nat
  {
    if cursor == Zero() then End() else Pos(cursor)
  }

  /** What the first `n` calls have emitted: keys of the slot that were there at some call, and all of those before position
      `bound` that were there at each. */
  ghost predicate Emitted(keys: set<Key>, gaps: seq<seq<Op>>, n: nat, hash: HashTable.Hash, slot: nat, size: nat,
                          emitted: seq<Key>, bound: nat)
    requires size > 0 && n <= |gaps| + 1
  {
    && (forall k :: k in emitted ==> SlotOf(k, size) == slot && AtSome(keys, gaps, n, k))
    && (forall k :: SlotOf(k, size) == slot && AtEach(keys, gaps, n, k) && Pos(hash(k)) < bound ==> k in emitted)
  }

  lemma FirstCall(keys: set<Key>, gaps: seq<seq<Op>>, hash: HashTable.Hash, slot: nat, size: nat)
    requires size > 0
    ensures Emitted(keys, gaps, 0, hash, slot, size, [], Pos(Zero()))
  {
    hide Pos, Zero;
    PosZero();
  }

  lemma NextCall(keys: set<Key>, gaps: seq<seq<Op>>, n: nat, hash: HashTable.Hash, slot: nat, size: nat,
                 emitted: seq<Key>, v: Word, more: seq<Key>, v': Word)
    requires size > 0 && n <= |gaps| && Emitted(keys, gaps, n, hash, slot, size, emitted, Pos(v))
    requires SlotScan(KeysAt(keys, gaps, n), hash, slot, size, v, more, v')
    ensures Emitted(keys, gaps, n + 1, hash, slot, size, emitted + more, ComeTo(v'))
    ensures v' == Zero() || Pos(v') >= Pos(v) + 1
  {
    hide Pos, Zero, SlotOf, KeysAt;
    forall k | k in emitted + more
      ensures SlotOf(k, size) == slot && AtSome(keys, gaps, n + 1, k)
    {
      if k in emitted { assert AtSome(keys, gaps, n, k); }
    }
    forall k | SlotOf(k, size) == slot && AtEach(keys, gaps, n + 1, k) && Pos(hash(k)) < ComeTo(v')
      ensures k in emitted + more
    {
      assert AtEach(keys, gaps, n, k) && k in KeysAt(keys, gaps, n);
      assert Pos(hash(k)) < Pos(v) || Between(v, v', hash(k));
    }
  }

  lemma AllCalled(keys: set<Key>, gaps: seq<seq<Op>>, n: nat, hash: HashTable.Hash, slot: nat, size: nat,
                  emitted: seq<Key>)
    requires size > 0 && n <= |gaps| + 1 && Emitted(keys, gaps, n, hash, slot, size, emitted, ComeTo(Zero()))
    ensures forall k :: SlotOf(k, size) == slot && AtEach(keys, gaps, n, k) ==> k in emitted
  {
    hide Pos, SlotOf, AtEach;
    forall k
      ensures Pos(hash(k)) < End()
    {
      PosBound(hash(k));
    }
  }

  /** `SLOTSSCAN` from cursor zero on, each call with the cursor that the one before gave, and other operations between the
      calls. Once a call gives cursor zero again, every key of the slot that was there at each call has been emitted, and
      no key that was there at none. Each call moves the cursor on, so that this comes. */
  method ScanAll(d: DbInfo, slot: nat, count: nat, gaps: seq<seq<Op>>) returns (emitted: seq<Key>, cursor: Word, calls: nat)
    requires d.Valid() && slot < d.size == |d.tables| && forall i :: 0 <= i < |gaps| ==> Possible(gaps[i], d.size)
    requires |d.Keys| + TotalLength(gaps) <= HashTable.LONG_MAX
    modifies d, d.owner.Keys
    ensures d.Valid() && 1 <= calls <= |gaps| + 1 && d.Keys == KeysAt(old(d.Keys), gaps, calls - 1)
    ensures forall k :: k in emitted ==> SlotOf(k, d.size) == slot && AtSome(old(d.Keys), gaps, calls, k)
    ensures cursor == Zero() ==>
      forall k :: SlotOf(k, d.size) == slot && AtEach(old(d.Keys), gaps, calls, k) ==> k in emitted
    ensures cursor != Zero() ==> calls == |gaps| + 1 && calls <= Pos(cursor) < End()
  {
    hide DbInfo.Valid, SlotOf, Pos, Zero, Emitted, SlotScan, AtEach, AtSome, AfterOps;
    ghost var keys, objects, hash := d.Keys, d.owner.Keys, d.tables[slot].hash;
    FirstCall(keys, gaps, hash, slot, d.size);
    emitted, cursor, calls := [], Zero(), 0;
    PartLength(gaps, 0);
    while true
      invariant calls <= |gaps| && d.Valid() && d.Keys == KeysAt(keys, gaps, calls)
      invariant |d.Keys| <= |keys| + TotalLength(gaps[..calls])
      invariant Emitted(keys, gaps, calls, hash, slot, d.size, emitted, Pos(cursor)) && calls <= Pos(cursor)
      invariant forall o :: o in d.owner ==> o in objects || fresh(o)
      decreases |gaps| - calls
    {
      var more, next, _, _, _ := ScanKeys(d, slot, count, cursor);
      NextCall(keys, gaps, calls, hash, slot, d.size, emitted, cursor, more, next);
      emitted, cursor, calls := emitted + more, next, calls + 1;
      if cursor == Zero() || calls == |gaps| + 1 {
        break;
      }
      PartLength(gaps, calls);
      assert gaps[..calls][..calls - 1] == gaps[..calls - 1];
      ApplyAll(d, gaps[calls - 1]);
    }
    EmittedMeans(keys, gaps, calls, hash, slot, d.size, emitted, cursor);
  }

  lemma EmittedMeans(keys: set<Key>, gaps: seq<seq<Op>>, n: nat, hash: HashTable.Hash, slot: nat, size: nat,
                     emitted: seq<Key>, cursor: Word)
    requires size > 0 && n <= |gaps| + 1 && Emitted(keys, gaps, n, hash, slot, size, emitted, ComeTo(cursor))
    ensures forall k :: k in emitted ==> SlotOf(k, size) == slot && AtSome(keys, gaps, n, k)
    ensures cursor == Zero() ==> forall k :: SlotOf(k, size) == slot && AtEach(keys, gaps, n, k) ==> k in emitted
    ensures Pos(cursor) < End()
  {
    PosBound(cursor);
    hide Pos, SlotOf, AtEach;
    if cursor == Zero() { AllCalled(keys, gaps, n, hash, slot, size, emitted); }
  }
}
