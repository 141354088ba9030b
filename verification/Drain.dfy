/**
  Emptying slots: `SLOTSDEL`, which scans a slot and deletes what it finds, and slot migration, which moves
  one key or one tag group after the other.
*/
module Draining {
  import opened Keys
  import opened Words
  import opened Cursor
  import opened Slots
  import opened SlotIndexes
  import opened Scanning
  import opened Wrappers
  import opened Decimal
  import opened Migration
  import opened KeyMigration
  import DictSpec
  import HashTable
  import Dictionary

  /** Keys of the index that the server does not hold, as after an eviction, of which the index is not told. */
  ghost function Stale(keys: set<Key>, source: Store): set<Key>
  {
    keys - source.Keys
  }

  /** No key of the slot is left before the cursor, but for those excused. */
  ghost predicate ClearedBefore(keys: set<Key>, hash: HashTable.Hash, slot: nat, size: nat, v: Word, excused: set<Key>)
    requires size > 0
  {
    forall k :: k in keys && SlotOf(k, size) == slot && Pos(hash(k)) < Pos(v) ==> k in excused
  }

  /** The index and the server have lost the same keys, all of them in `keys`. */
  ghost predicate SameGone(before: set<Key>, after: set<Key>, source: Store, source': Store, keys: set<Key>)
  {
    after <= before <= after + keys && before - after <= source.Keys && source' == source - (before - after)
  }

  lemma SameGoneJoin(a: set<Key>, b: set<Key>, c: set<Key>, source: Store, source': Store, source'': Store, keys: set<Key>)
    requires SameGone(a, b, source, source', keys) && SameGone(b, c, source', source'', keys)
    ensures SameGone(a, c, source, source'', keys)
  {
    assert a - c == (a - b) + (b - c);
  }

  lemma SameGoneMore(a: set<Key>, b: set<Key>, source: Store, source': Store, keys: set<Key>, more: set<Key>)
    requires SameGone(a, b, source, source', keys) && keys <= more
    ensures SameGone(a, b, source, source', more)
  {}

  lemma NoneGone(a: set<Key>, source: Store, keys: set<Key>)
    ensures SameGone(a, a, source, source, keys)
  {
    assert source - (a - a) == source;
  }

  /** Stale keys stay: no deletion takes one out of the index, and none makes one. */
  lemma StaleStay(before: set<Key>, after: set<Key>, source: Store, source': Store, keys: set<Key>)
    requires SameGone(before, after, source, source', keys)
    ensures Stale(after, source') == Stale(before, source) <= after
  {}

  /** `delKeys` of one key, with its delete event if there is one; `ok` is false when the deletion fails. */
  method DeleteOne(d: DbInfo, w: World, key: Key) returns (ok: bool)
    requires d.Valid() && w !in d.owner && (key in d.Keys || key !in w.source)
    modifies d, d.owner.Keys, w`source, w`history, w`skipped, w`passes, w`failures
    ensures d.Valid() && forall o :: o in d.owner ==> o in old(d.owner) || fresh(o)
    ensures SameGone(old(d.Keys), d.Keys, old(w.source), w.source, {key})
    ensures ok && key in d.Keys ==> key in w.skipped || key !in w.source
    ensures old(w.skipped) <= w.skipped && w.failures == old(w.failures) + if ok then 0 else 1
  {
    hide DbInfo.Valid, OnlyDeleted;
    ghost var source, keys := w.source, d.Keys;
    var ret, gone;
    ghost var answered;
    ret, gone, answered := DelKeys(w, [key]);
    assert forall k :: k in [key] <==> k == key;
    assert key in gone <==> |gone| > 0 by { if |gone| > 0 { assert gone[0] in gone; } }
    assert w.source == if |gone| > 0 then source - {key} else source;
    if |gone| > 0 {
      d.Del(key);
      assert keys - d.Keys == {key};
    } else {
      NoneGone(keys, source, {key});
    }
    ok := ret != ERR;
    assert key in [key];
  }

  /** The queue of `SLOTSDEL` is deleted key by key; `ok` is false when a deletion fails. */
  method DeleteAll(d: DbInfo, w: World, emitted: seq<Key>) returns (ok: bool)
    requires d.Valid() && w !in d.owner && forall k :: k in emitted ==> k in d.Keys
    modifies d, d.owner.Keys, w`source, w`history, w`skipped, w`passes, w`failures
    ensures d.Valid() && forall o :: o in d.owner ==> o in old(d.owner) || fresh(o)
    ensures SameGone(old(d.Keys), d.Keys, old(w.source), w.source, set k | k in emitted)
    ensures ok ==> forall k :: k in emitted && k in d.Keys ==> k in w.skipped || k !in w.source
    ensures old(w.skipped) <= w.skipped && w.failures == old(w.failures) + if ok then 0 else 1
  {
    hide DbInfo.Valid;
    ghost var keys, source, skipped, objects := d.Keys, w.source, w.skipped, d.owner.Keys;
    var queue := emitted;
    NoneGone(keys, source, set k | k in emitted);
    ghost var n := 0;
    while queue != []
      invariant d.Valid() && n + |queue| == |emitted| && queue == emitted[n..]
      invariant SameGone(keys, d.Keys, source, w.source, set k | k in emitted)
      invariant forall k :: k in emitted[..n] && k in d.Keys ==> k in w.skipped || k !in w.source
      invariant skipped <= w.skipped && w.failures == old(w.failures)
      invariant forall o :: o in d.owner ==> o in objects || fresh(o)
      decreases |queue|
    {
      ghost var before, sourceBefore := d.Keys, w.source;
      assert queue[0] in emitted;
      var deleted := DeleteOne(d, w, queue[0]);
      SameGoneMore(before, d.Keys, sourceBefore, w.source, {queue[0]}, set k | k in emitted);
      SameGoneJoin(keys, before, d.Keys, source, sourceBefore, w.source, set k | k in emitted);
      if !deleted {
        return false;
      }
      assert emitted[..n + 1] == emitted[..n] + [queue[0]];
      queue := queue[1..];
      n := n + 1;
    }
    assert emitted[..n] == emitted;
    return true;
  }

  /** One scan call followed by the deletion of what it emitted clears up to the new cursor. */
  lemma ScanClears(keys: set<Key>, hash: HashTable.Hash, slot: nat, size: nat, v: Word, emitted: seq<Key>, v': Word,
                   rest: set<Key>, skipped: set<Key>, skipped': set<Key>)
    requires size > 0 && SlotScan(keys, hash, slot, size, v, emitted, v')
    requires ClearedBefore(keys, hash, slot, size, v, skipped) && rest <= keys && skipped <= skipped'
    requires forall k :: k in emitted && k in rest ==> k in skipped'
    ensures v' != Zero() ==> ClearedBefore(rest, hash, slot, size, v', skipped')
    ensures v' == Zero() ==> SlotKeys(rest, slot, size) <= skipped'
  {
    hide Pos, Zero, SlotOf;
    forall k | k in rest && SlotOf(k, size) == slot && k !in skipped'
      ensures v' != Zero() && Pos(v') <= Pos(hash(k))
    {
      assert k !in emitted;
      assert !Between(v, v', hash(k));
    }
  }

  /** The loop of `SlotsMGRT_DelSlotKeys` over one slot: what is left of the slot are keys that were passed over, and stale
      ones. */
  method DeleteSlot(d: DbInfo, w: World, slot: nat) returns (ok: bool)
    requires d.Valid() && w !in d.owner && slot < d.size == |d.tables|
    modifies d, d.owner.Keys, w`source, w`history, w`skipped, w`passes, w`failures
    ensures d.Valid() && forall o :: o in d.owner ==> o in old(d.owner) || fresh(o)
    ensures SameGone(old(d.Keys), d.Keys, old(w.source), w.source, SlotKeys(old(d.Keys), slot, d.size))
    ensures ok ==> SlotKeys(d.Keys, slot, d.size) <= w.skipped + Stale(d.Keys, w.source)
    ensures old(w.skipped) <= w.skipped && w.failures == old(w.failures) + if ok then 0 else 1
  {
    hide DbInfo.Valid, SlotKeys, Pos, Zero, SlotScan, ClearedBefore, SameGone, Stale;
    ghost var keys, source, skipped, objects := d.Keys, w.source, w.skipped, d.owner.Keys;
    ghost var stale := Stale(keys, source);
    StartCleared(d, slot, skipped + stale);
    NoneGone(keys, source, SlotKeys(keys, slot, d.size));
    var cursor := Zero();
    while true
      invariant d.Valid() && ClearedBefore(d.Keys, d.tables[slot].hash, slot, d.size, cursor, w.skipped + stale)
      invariant SameGone(keys, d.Keys, source, w.source, SlotKeys(keys, slot, d.size))
      invariant skipped <= w.skipped && w.failures == old(w.failures)
      invariant forall o :: o in d.owner ==> o in objects || fresh(o)
      decreases End() - Pos(cursor)
    {
      var emitted, next := d.ScanSlot(slot, cursor);
      ghost var before, sourceBefore, skippedBefore := d.Keys, w.source, w.skipped;
      ScanProgress(keys, before, source, sourceBefore, d.tables[slot].hash, slot, d.size, cursor, emitted, next);
      var deleted := DeleteAll(d, w, emitted);
      SameGoneMore(before, d.Keys, sourceBefore, w.source, (set k | k in emitted), SlotKeys(keys, slot, d.size));
      SameGoneJoin(keys, before, d.Keys, source, sourceBefore, w.source, SlotKeys(keys, slot, d.size));
      if !deleted {
        return false;
      }
      OnlyTaken(before, d.Keys, sourceBefore, w.source, set k | k in emitted);
      StaleStay(keys, d.Keys, source, w.source, SlotKeys(keys, slot, d.size));
      LeftExcused(d.Keys, w.source, emitted, w.skipped);
      ScanClears(before, d.tables[slot].hash, slot, d.size, cursor, emitted, next, d.Keys, skippedBefore + stale,
                 w.skipped + stale);
      cursor := next;
      if cursor == Zero() {
        return true;
      }
    }
  }

  lemma LeftExcused(keys: set<Key>, source: Store, emitted: seq<Key>, skipped: set<Key>)
    requires forall k :: k in emitted && k in keys ==> k in skipped || k !in source
    ensures forall k :: k in emitted && k in keys ==> k in skipped + Stale(keys, source)
  {}

  lemma OnlyTaken(a: set<Key>, b: set<Key>, source: Store, source': Store, keys: set<Key>)
    requires SameGone(a, b, source, source', keys)
    ensures b <= a <= b + keys
  {}

  lemma StartCleared(d: DbInfo, slot: nat, excused: set<Key>)
    requires d.Valid() && slot < d.size == |d.tables|
    ensures ClearedBefore(d.Keys, d.tables[slot].hash, slot, d.size, Zero(), excused)
  {
    hide Pos, Zero;
    PosZero();
  }

  lemma ScanProgress(all: set<Key>, keys: set<Key>, source: Store, source': Store, hash: HashTable.Hash, slot: nat, size: nat,
                     v: Word, emitted: seq<Key>, v': Word)
    requires size > 0 && SlotScan(keys, hash, slot, size, v, emitted, v')
    requires SameGone(all, keys, source, source', SlotKeys(all, slot, size))
    ensures v' == Zero() || Pos(v) < Pos(v') < End()
    ensures (forall k :: k in emitted ==> k in keys) && (set k | k in emitted) <= SlotKeys(all, slot, size)
  {
    hide Pos, Zero;
    PosBound(v');
  }

  // ---------------------------------------------------------------- several slots

  /** The keys of several slots. */
  ghost function SlotsKeys(keys: set<Key>, slots: seq<nat>, size: nat): set<Key>
    requires size > 0
  {
    set k | k in keys && SlotOf(k, size) in slots
  }

  /** Whether the number of keys of a slot is zero as an `int`. */
  ghost predicate LooksEmpty(keys: set<Key>, slot: nat, size: nat)
    requires size > 0
  {
    DictSpec.ToInt32(|SlotKeys(keys, slot, size)|) == 0
  }

  lemma LooksEmptyExact(keys: set<Key>, slot: nat, size: nat)
    requires size > 0
    ensures LooksEmpty(keys, slot, size) <==> |SlotKeys(keys, slot, size)| % 0x1_0000_0000 == 0
  {}

  /** The keys of those named slots that look empty. */
  ghost function Overlooked(keys: set<Key>, slots: seq<nat>, size: nat): set<Key>
    requires size > 0
  {
    set k | k in keys && SlotOf(k, size) in slots && LooksEmpty(keys, SlotOf(k, size), size)
  }

  /** What the first `i` rounds have done: nothing is gone but keys of their slots, what is left of these is excused, and
      what was overlooked is there. */
  ghost predicate RoundsDone(keys: set<Key>, now: set<Key>, source: Store, source': Store, skipped: set<Key>,
                             slots: seq<nat>, i: nat, size: nat)
    requires size > 0 && i <= |slots|
  {
    && SameGone(keys, now, source, source', SlotsKeys(keys, slots[..i], size))
    && SlotsKeys(now, slots[..i], size) <= skipped + Stale(keys, source) + Overlooked(keys, slots, size)
    && Overlooked(keys, slots, size) <= now
  }

  lemma NoRounds(keys: set<Key>, source: Store, skipped: set<Key>, slots: seq<nat>, size: nat)
    requires size > 0
    ensures RoundsDone(keys, keys, source, source, skipped, slots, 0, size)
  {
    NoneGone(keys, source, SlotsKeys(keys, slots[..0], size));
  }

  /** A slot that was overlooked at the start still looks empty. */
  lemma StillOverlooked(keys: set<Key>, now: set<Key>, slots: seq<nat>, slot: nat, size: nat)
    requires size > 0 && now <= keys && Overlooked(keys, slots, size) <= now && slot in slots
    ensures LooksEmpty(keys, slot, size) ==> LooksEmpty(now, slot, size)
  {
    hide SlotOf;
    if LooksEmpty(keys, slot, size) {
      forall k | k in SlotKeys(keys, slot, size)
        ensures k in SlotKeys(now, slot, size)
      {
        assert k in Overlooked(keys, slots, size);
      }
      assert SlotKeys(now, slot, size) == SlotKeys(keys, slot, size);
    }
  }

  /** What one round may have done to its slot. */
  ghost predicate RoundOf(before: set<Key>, now: set<Key>, source: Store, source': Store, skipped: set<Key>, slot: nat,
                          size: nat, ok: bool)
    requires size > 0
  {
    && SameGone(before, now, source, source', SlotKeys(before, slot, size))
    && (LooksEmpty(before, slot, size) ==> ok && now == before)
    && (ok && !LooksEmpty(before, slot, size) ==> SlotKeys(now, slot, size) <= skipped + Stale(now, source'))
  }

  lemma NextRound(keys: set<Key>, before: set<Key>, now: set<Key>, source: Store, mid: Store, source': Store,
                  skipped: set<Key>, skipped': set<Key>, slots: seq<nat>, i: nat, size: nat, ok: bool)
    requires size > 0 && i < |slots| && skipped <= skipped'
    requires RoundsDone(keys, before, source, mid, skipped, slots, i, size)
    requires RoundOf(before, now, mid, source', skipped', slots[i], size, ok)
    ensures ok ==> RoundsDone(keys, now, source, source', skipped', slots, i + 1, size)
    ensures SameGone(keys, now, source, source', SlotsKeys(keys, slots[..i + 1], size))
    ensures Overlooked(keys, slots, size) <= now
  {
    hide SlotOf, SlotKeys, SlotsKeys, LooksEmpty, Stale, Overlooked, SameGone;
    var slot := slots[i];
    OnlyTaken(keys, before, source, mid, SlotsKeys(keys, slots[..i], size));
    SlotsJoin(keys, before, slots, i, size);
    SameGoneMore(keys, before, source, mid, SlotsKeys(keys, slots[..i], size), SlotsKeys(keys, slots[..i + 1], size));
    SameGoneMore(before, now, mid, source', SlotKeys(before, slot, size), SlotsKeys(keys, slots[..i + 1], size));
    SameGoneJoin(keys, before, now, source, mid, source', SlotsKeys(keys, slots[..i + 1], size));
    StaleStay(keys, now, source, source', SlotsKeys(keys, slots[..i + 1], size));
    StillOverlooked(keys, before, slots, slot, size);
    OverlookedKept(keys, before, now, source, mid, source', skipped', slots, i, size, ok);
    if ok { LeftOfSlots(keys, before, now, source, mid, source', skipped, skipped', slots, i, size); }
  }

  lemma SlotsJoin(keys: set<Key>, before: set<Key>, slots: seq<nat>, i: nat, size: nat)
    requires size > 0 && i < |slots| && before <= keys
    ensures SlotsKeys(keys, slots[..i + 1], size) == SlotsKeys(keys, slots[..i], size) + SlotKeys(keys, slots[i], size)
    ensures SlotKeys(before, slots[i], size) <= SlotsKeys(keys, slots[..i + 1], size)
  {
    hide SlotOf;
    assert slots[..i + 1] == slots[..i] + [slots[i]];
  }

  lemma OverlookedKept(keys: set<Key>, before: set<Key>, now: set<Key>, source: Store, mid: Store, source': Store,
                       skipped: set<Key>, slots: seq<nat>, i: nat, size: nat, ok: bool)
    requires size > 0 && i < |slots| && before <= keys && Overlooked(keys, slots, size) <= before
    requires LooksEmpty(keys, slots[i], size) ==> LooksEmpty(before, slots[i], size)
    requires RoundOf(before, now, mid, source', skipped, slots[i], size, ok)
    ensures Overlooked(keys, slots, size) <= now
  {
    hide SlotOf, LooksEmpty;
    forall k | k in Overlooked(keys, slots, size)
      ensures k in now
    {}
  }

  lemma LeftOfSlots(keys: set<Key>, before: set<Key>, now: set<Key>, source: Store, mid: Store, source': Store,
                    skipped: set<Key>, skipped': set<Key>, slots: seq<nat>, i: nat, size: nat)
    requires size > 0 && i < |slots| && skipped <= skipped'
    requires RoundsDone(keys, before, source, mid, skipped, slots, i, size)
    requires RoundOf(before, now, mid, source', skipped', slots[i], size, true)
    requires Stale(now, source') == Stale(keys, source)
    ensures SlotsKeys(now, slots[..i + 1], size) <= skipped' + Stale(keys, source) + Overlooked(keys, slots, size)
  {
    hide SlotOf, LooksEmpty, Stale;
    var slot := slots[i];
    assert slots[..i + 1] == slots[..i] + [slot];
    forall k | k in SlotsKeys(now, slots[..i + 1], size)
      ensures k in skipped' + Stale(keys, source) + Overlooked(keys, slots, size)
    {
      if SlotOf(k, size) in slots[..i] {
        assert k in SlotsKeys(before, slots[..i], size);
      } else if LooksEmpty(before, slot, size) {
        Untouched(keys, before, source, mid, slots, i, size);
        assert SlotOf(k, size) == slot && slot in slots;
      } else {
        assert k in SlotKeys(now, slot, size);
      }
    }
  }

  /** A slot that was not named before has all its keys. */
  lemma Untouched(keys: set<Key>, before: set<Key>, source: Store, mid: Store, slots: seq<nat>, i: nat, size: nat)
    requires size > 0 && i < |slots| && slots[i] !in slots[..i]
    requires SameGone(keys, before, source, mid, SlotsKeys(keys, slots[..i], size))
    ensures SlotKeys(before, slots[i], size) == SlotKeys(keys, slots[i], size)
    ensures LooksEmpty(before, slots[i], size) <==> LooksEmpty(keys, slots[i], size)
  {
    hide SlotOf;
  }

  /** `SlotsMGRT_DelSlotKeys`: with no key added meanwhile, the index and the server lose the same keys, all of the named
      slots. What is left of these on success are keys whose deletion had no reply, keys that the server did not hold, and
      those of slots whose number of keys is zero as an `int`. With nothing passed over, the slots are empty exactly when
      the server held all their keys and no slot with keys looked empty. */
  method DelSlotKeys(d: DbInfo, w: World, slots: seq<nat>) returns (ok: bool)
    requires d.Valid() && w !in d.owner && d.size == |d.tables| > 0 && forall i :: 0 <= i < |slots| ==> slots[i] < d.size
    modifies d, d.owner.Keys, w`source, w`history, w`skipped, w`passes, w`failures
    ensures d.Valid() && forall o :: o in d.owner ==> o in old(d.owner) || fresh(o)
    ensures SameGone(old(d.Keys), d.Keys, old(w.source), w.source, SlotsKeys(old(d.Keys), slots, d.size))
    ensures Overlooked(old(d.Keys), slots, d.size) <= d.Keys && w.failures == old(w.failures) + if ok then 0 else 1
    ensures ok ==>
      SlotsKeys(d.Keys, slots, d.size) <=
        w.skipped + Stale(old(d.Keys), old(w.source)) + Overlooked(old(d.Keys), slots, d.size)
    ensures ok && w.skipped !! SlotsKeys(old(d.Keys), slots, d.size) ==>
      (SlotsKeys(d.Keys, slots, d.size) == {} <==>
        && SlotsKeys(old(d.Keys), slots, d.size) <= old(w.source).Keys
        && Overlooked(old(d.Keys), slots, d.size) == {})
  {
    hide *;
    ghost var keys, source, objects := d.Keys, w.source, d.owner.Keys;
    NoRounds(keys, source, w.skipped, slots, d.size);
    var i := 0;
    while i < |slots|
      invariant i <= |slots| && d.Valid() && w.failures == old(w.failures)
      invariant RoundsDone(keys, d.Keys, source, w.source, w.skipped, slots, i, d.size)
      invariant w !in d.owner && forall o :: o in d.owner ==> o in objects || fresh(o)
    {
      ghost var before, mid, skipped := d.Keys, w.source, w.skipped;
      var deleted := DeleteSlotUnlessEmpty(d, w, slots[i]);
      NextRound(keys, before, d.Keys, source, mid, w.source, skipped, w.skipped, slots, i, d.size, deleted);
      if !deleted {
        FirstSlots(keys, slots, i + 1, d.size);
        SameGoneMore(keys, d.Keys, source, w.source, SlotsKeys(keys, slots[..i + 1], d.size), SlotsKeys(keys, slots, d.size));
        return false;
      }
      i := i + 1;
    }
    assert slots[..i] == slots;
    AllRounds(keys, d.Keys, source, w.source, w.skipped, slots, d.size);
    return true;
  }

  lemma FirstSlots(keys: set<Key>, slots: seq<nat>, i: nat, size: nat)
    requires size > 0 && i <= |slots|
    ensures SlotsKeys(keys, slots[..i], size) <= SlotsKeys(keys, slots, size)
  {
    hide SlotOf;
  }

  lemma AllRounds(keys: set<Key>, now: set<Key>, source: Store, source': Store, skipped: set<Key>, slots: seq<nat>,
                  size: nat)
    requires size > 0 && RoundsDone(keys, now, source, source', skipped, slots, |slots|, size)
    ensures SameGone(keys, now, source, source', SlotsKeys(keys, slots, size))
    ensures SlotsKeys(now, slots, size) <= skipped + Stale(keys, source) + Overlooked(keys, slots, size)
    ensures Overlooked(keys, slots, size) <= now
    ensures skipped !! SlotsKeys(keys, slots, size) ==>
      (SlotsKeys(now, slots, size) == {} <==>
        SlotsKeys(keys, slots, size) <= source.Keys && Overlooked(keys, slots, size) == {})
  {
    assert slots[..|slots|] == slots;
    hide SlotOf, LooksEmpty;
    StaleStay(keys, now, source, source', SlotsKeys(keys, slots, size));
    assert Overlooked(keys, slots, size) <= SlotsKeys(now, slots, size);
    forall k | k in SlotsKeys(keys, slots, size) && k !in source
      ensures k in SlotsKeys(now, slots, size)
    {
      assert k in Stale(keys, source);
    }
  }

  /** One stale key: whatever a successful `SLOTSDEL` of its slot does, the key stays in the index. */
  lemma StaleKeyStays(key: Key, size: nat, now: set<Key>, source': Store)
    requires size > 0 && SameGone({key}, now, map[], source', SlotsKeys({key}, [SlotOf(key, size)], size))
    ensures SlotsKeys(now, [SlotOf(key, size)], size) == {key}
  {
    hide SlotOf;
    StaleStay({key}, now, map[], source', SlotsKeys({key}, [SlotOf(key, size)], size));
    assert key in Stale({key}, map[]);
  }

  method DeleteSlotUnlessEmpty(d: DbInfo, w: World, slot: nat) returns (ok: bool)
    requires d.Valid() && w !in d.owner && slot < d.size == |d.tables|
    modifies d, d.owner.Keys, w`source, w`history, w`skipped, w`passes, w`failures
    ensures d.Valid() && forall o :: o in d.owner ==> o in old(d.owner) || fresh(o)
    ensures RoundOf(old(d.Keys), d.Keys, old(w.source), w.source, w.skipped, slot, d.size, ok)
    ensures old(w.skipped) <= w.skipped && w.failures == old(w.failures) + if ok then 0 else 1
  {
    hide DbInfo.Valid, SlotKeys, SameGone, LooksEmpty, Stale;
    var empty := SlotIsEmpty(d, slot);
    if empty {
      NoneGone(d.Keys, w.source, SlotKeys(d.Keys, slot, d.size));
      return true;
    }
    ok := DeleteSlot(d, w, slot);
  }

  /** Whether the size of the table of a slot is zero as an `int`. */
  method SlotIsEmpty(d: DbInfo, slot: nat) returns (empty: bool)
    requires d.Valid() && slot < d.size == |d.tables|
    ensures empty <==> LooksEmpty(d.Keys, slot, d.size)
  {
    d.Parts(slot);
    hide DbInfo.Valid, SlotOf, Dictionary.Dict.Valid, TableAgrees, SlotKeys, DictSpec.ToInt32;
    var n := SizeOf(d.tables[slot]);
    var s := DictSpec.ToInt32(n);
    empty := s == 0;
    TableHolds(d.tables[slot].Contents, d.Keys, slot, d.size);
  }

  lemma TableHolds(contents: map<Key, Dictionary.Value>, keys: set<Key>, slot: nat, size: nat)
    requires size > 0 && TableAgrees(contents, keys, slot, size)
    ensures |contents| == |SlotKeys(keys, slot, size)|
  {
    hide SlotOf;
    assert contents.Keys == SlotKeys(keys, slot, size);
  }

  // ---------------------------------------------------------------- slot migration

  /** The tagged keys with the CRC of a tagged key. */
  ghost function Group(keys: set<Key>, key: Key): set<Key>
  {
    set k | k in keys && HasTag(k) && CrcOf(k) == CrcOf(key)
  }

  /** The keys that one migration step takes: a key, or the whole group of a tagged key. */
  ghost function Taken(keys: set<Key>, key: Key, group: bool): set<Key>
  {
    if group && HasTag(key) then Group(keys, key) else {key}
  }

  /** Remove migrated keys from the index, as their delete events do. */
  method Forget(d: DbInfo, keys: seq<Key>)
    requires d.Valid()
    modifies d, d.owner.Keys
    ensures d.Valid() && forall o :: o in d.owner ==> o in old(d.owner) || fresh(o)
    ensures d.Keys == old(d.Keys) - set k | k in keys
  {
    hide DbInfo.Valid;
    ghost var before, objects := d.Keys, d.owner.Keys;
    var i := 0;
    while i < |keys|
      invariant i <= |keys| && d.Valid() && d.Keys == before - set k | k in keys[..i]
      invariant forall o :: o in d.owner ==> o in objects || fresh(o)
    {
      d.Del(keys[i]);
      i := i + 1;
    }
    assert keys[..i] == keys;
  }

  /** The keys that a step migrates: one of the slot, or its group. */
  method StepKeys(d: DbInfo, slot: nat, group: bool) returns (found: bool, keys: seq<Key>, ghost key: Key)
    requires d.Valid() && slot < d.size == |d.tables|
    modifies d, d.owner.Keys
    ensures d.Valid() && d.Keys == old(d.Keys) && forall o :: o in d.owner ==> o in old(d.owner) || fresh(o)
    ensures !found ==> SlotKeys(d.Keys, slot, d.size) == {}
    ensures found ==>
      key in d.Keys && SlotOf(key, d.size) == slot && Ascending(keys) && (set k | k in keys) == Taken(d.Keys, key, group)
    ensures found ==>
      (set k | k in keys) ==
        if group && Tag(key).Some? then set k | k in d.Keys && Tag(k).Some? && CrcOf(k) == CrcOf(key) else {key}
  {
    hide DbInfo.Valid, SlotOf, CrcOf, HasTag, KeyLess;
    var random := d.RandomKey(slot);
    key := [];
    if random == None {
      return false, [], key;
    }
    found, keys, key := true, [random.value], random.value;
    var tag := SlotsTag(random.value);
    TagMeans(key);
    TakenIs(d.Keys, key, group);
    if group && tag.Some? {
      keys := d.TagGroup(random.value);
    }
  }

  lemma TagMeans(key: Key)
    ensures HasTag(key) <==> Tag(key).Some?
  {}

  lemma TakenIs(keys: set<Key>, key: Key, group: bool)
    ensures Taken(keys, key, group) ==
      if group && Tag(key).Some? then set k | k in keys && Tag(k).Some? && CrcOf(k) == CrcOf(key) else {key}
  {
    hide Tag, CrcOf;
  }

  lemma AscendingDistinct(keys: seq<Key>)
    requires Ascending(keys)
    ensures Distinct(keys)
  {
    hide KeyLess;
    forall i, j | 0 <= i < j < |keys|
      ensures keys[i] != keys[j]
    {
      KeyLessTotal(keys[i], keys[j]);
    }
  }

  lemma {:induction false} SetSize(keys: seq<Key>)
    requires Distinct(keys)
    ensures |set k | k in keys| == |keys|
  {
    if keys != [] {
      var front, last := keys[..|keys| - 1], keys[|keys| - 1];
      SetSize(front);
      assert (set k | k in keys) == (set k | k in front) + {last};
      assert last !in front;
    }
  }

  /** In each tag group, the keys that the server holds come before those that it does not. */
  ghost predicate Unbroken(keys: set<Key>, source: Store)
  {
    forall a, b :: a in keys && b in keys && HasTag(a) && HasTag(b) && CrcOf(a) == CrcOf(b) && KeyLess(a, b) ==>
      (b in source ==> a in source)
  }

  lemma UnbrokenStays(before: set<Key>, after: set<Key>, source: Store, source': Store, keys: set<Key>)
    requires Unbroken(before, source) && SameGone(before, after, source, source', keys)
    ensures Unbroken(after, source')
  {
    hide HasTag, CrcOf, KeyLess;
  }

  /** `SlotsMGRT_SlotOneKey`, or `SlotsMGRT_TagSlotKeys` when `group` is set. `taken` is the keys that the step is about,
      `answered` those whose `UNLINK` had an integer as reply, and `moved` how many fired a delete event. Whether the step
      succeeds or fails halfway, the index and the server have lost the same keys. If no key has a zero byte or no time
      left, none is lost at any moment. Keys that have moved without zero bytes are in the index of the destination. */
  method MigrateStep(d: DbInfo, w: World, slot: nat, group: bool, pooled: bool)
    returns (ret: int, moved: nat, found: bool, ghost key: Key, ghost taken: set<Key>, ghost answered: set<Key>)
    requires d.Valid() && slot < d.size == |d.tables| && w !in d.owner && (group ==> Unbroken(d.Keys, w.source))
    modifies d, d.owner.Keys, w
    ensures d.Valid() && forall o :: o in d.owner ==> o in old(d.owner) || fresh(o)
    ensures if found then key in old(d.Keys) && SlotOf(key, d.size) == slot && taken == Taken(old(d.Keys), key, group)
      else ret == 0 && taken == {} && SlotKeys(d.Keys, slot, d.size) == {}
    ensures found ==>
      taken == if group && Tag(key).Some? then set k | k in old(d.Keys) && Tag(k).Some? && CrcOf(k) == CrcOf(key) else {key}
    ensures SameGone(old(d.Keys), d.Keys, old(w.source), w.source, taken) && moved == |old(d.Keys) - d.Keys|
    ensures answered <= taken && answered * old(w.source).Keys == old(d.Keys) - d.Keys
    ensures ret == ERR || ret == |answered|
    ensures (ret == ERR <==> w.failures > old(w.failures)) && w.failures >= old(w.failures) && w.passes >= old(w.passes)
    ensures w.failures == old(w.failures) && w.passes == old(w.passes) ==>
      old(d.Keys) - d.Keys == taken * old(w.source).Keys
    ensures ret != ERR ==> d.Keys * taken <= w.skipped + Stale(d.Keys, w.source)
    ensures old(w.history) <= w.history && old(w.indexed) <= w.indexed
    ensures forall k :: k in old(d.Keys) && k !in d.Keys && NUL !in k ==> k in w.indexed
    ensures Movable(old(w.source), taken) ==>
      && Safe(old(w.Now()), w.Now(), taken * old(w.source).Keys)
      && AllSafe(old(w.Now()), w.history, |old(w.history)|, taken * old(w.source).Keys)
  {
    hide DbInfo.Valid, SlotOf, Taken, Movable, Safe, AllSafe, NeverLost, Within, Distinct, Sent, AllHeld, Dumps, Unbroken,
      Notified, PresentFirst, Ascending;
    ghost var before, start, history, objects := d.Keys, w.Now(), w.history, d.owner.Keys;
    var keys;
    found, keys, key := StepKeys(d, slot, group);
    if !found {
      NothingTaken(before, start, history);
      return 0, 0, false, key, {}, {};
    }
    taken := Taken(before, key, group);
    TakenPresent(before, start.source, key, group, keys);
    var gone;
    ghost var integers, sent, done;
    ret, gone, integers, sent, done := MigrateKeys(w, keys, pooled);
    answered := set k | k in integers;
    SetSize(integers);
    SetSize(gone);
    moved := |gone|;
    Forget(d, gone);
    GoneTaken(before, d.Keys, start.source, w.source, keys, gone, integers);
    if w.failures == old(w.failures) && w.passes == old(w.passes) {
      AllTaken(before, d.Keys, start.source, keys, gone, taken);
    }
    StaleStay(before, d.Keys, start.source, w.source, taken);
    IndexedExact(start.source, keys, start.dest);
  }

  lemma AllTaken(before: set<Key>, after: set<Key>, source: Store, keys: seq<Key>, gone: seq<Key>, taken: set<Key>)
    requires before - after == (set k | k in gone) && before - after <= taken * source.Keys
    requires There(source, keys) <= (set k | k in gone) && There(source, keys) == taken * source.Keys
    ensures before - after == taken * source.Keys
  {}

  lemma NothingTaken(keys: set<Key>, m: Moment, history: seq<Moment>)
    ensures SameGone(keys, keys, m.source, m.source, {}) && |keys - keys| == 0
    ensures Safe(m, m, {} * m.source.Keys) && AllSafe(m, history, |history|, {} * m.source.Keys)
  {
    NoneGone(keys, m.source, {});
  }

  lemma TakenPresent(indexed: set<Key>, source: Store, key: Key, group: bool, keys: seq<Key>)
    requires key in indexed && (group ==> Unbroken(indexed, source))
    requires (set k | k in keys) == Taken(indexed, key, group) && Ascending(keys)
    ensures PresentFirst(source, keys) && Distinct(keys)
    ensures There(source, keys) == Taken(indexed, key, group) * source.Keys && Taken(indexed, key, group) <= indexed
    ensures Movable(source, Taken(indexed, key, group)) ==> Movable(source, There(source, keys))
  {
    AscendingDistinct(keys);
    hide HasTag, CrcOf, KeyLess;
    assert forall k :: k in keys <==> k in Taken(indexed, key, group);
    forall i, j | 0 <= i < j < |keys| && keys[j] in source
      ensures keys[i] in source
    {
      assert keys[i] in Taken(indexed, key, group) && keys[j] in Taken(indexed, key, group);
      assert KeyLess(keys[i], keys[j]);
    }
  }

  lemma GoneTaken(before: set<Key>, after: set<Key>, source: Store, source': Store, keys: seq<Key>, gone: seq<Key>,
                  answered: seq<Key>)
    requires (set k | k in keys) <= before && forall k :: k in answered ==> k in keys
    requires forall k :: k in gone <==> k in answered && k in source
    requires after == before - (set k | k in gone) && source' == source - (set k | k in answered)
    ensures SameGone(before, after, source, source', set k | k in keys)
    ensures before - after == (set k | k in gone) == (set k | k in answered) * source.Keys
  {
    assert forall k :: k in answered ==> k in (set x | x in keys);
    assert before - after == (set k | k in gone);
  }

  /** What a step takes is of its slot alone. */
  lemma TakenInSlot(keys: set<Key>, key: Key, group: bool, slot: nat, size: nat)
    requires size > 0 && key in keys && SlotOf(key, size) == slot
    ensures Taken(keys, key, group) <= SlotKeys(keys, slot, size)
  {
    hide HasTag, CrcOf, BitAnd;
  }

  /** A step that moves a key strictly shrinks what of its slot the server holds, and no step touches another slot. */
  lemma StepShrinks(before: set<Key>, after: set<Key>, source: Store, source': Store, key: Key, group: bool, slot: nat,
                    size: nat)
    requires size > 0 && key in before && SlotOf(key, size) == slot
    requires SameGone(before, after, source, source', Taken(before, key, group))
    ensures |before - after| > 0 ==>
      |SlotKeys(after, slot, size) * source'.Keys| < |SlotKeys(before, slot, size) * source.Keys|
    ensures |SlotKeys(after, slot, size) * source'.Keys| <= |SlotKeys(before, slot, size) * source.Keys|
    ensures forall k :: k in before && SlotOf(k, size) != slot ==> k in after
  {
    TakenInSlot(before, key, group, slot, size);
    HeldSplit(before, after, source, source', Taken(before, key, group), slot, size);
    InSlotOnly(before, after, source, source', Taken(before, key, group), slot, size);
    hide Taken, SlotOf, SlotKeys, SameGone;
    var held := SlotKeys(after, slot, size) * source'.Keys;
    assert |held + (before - after)| == |held| + |before - after|;
  }

  lemma HeldSplit(before: set<Key>, after: set<Key>, source: Store, source': Store, keys: set<Key>, slot: nat, size: nat)
    requires size > 0 && SameGone(before, after, source, source', keys) && keys <= SlotKeys(before, slot, size)
    ensures var held := SlotKeys(after, slot, size) * source'.Keys;
      SlotKeys(before, slot, size) * source.Keys == held + (before - after) && held !! before - after
  {
    hide SlotOf;
  }

  lemma InSlotOnly(before: set<Key>, after: set<Key>, source: Store, source': Store, keys: set<Key>, slot: nat, size: nat)
    requires size > 0 && SameGone(before, after, source, source', keys) && keys <= SlotKeys(before, slot, size)
    ensures forall k :: k in before && SlotOf(k, size) != slot ==> k in after
  {
    hide SlotOf;
  }

  /** What several attempts have done to the keys of a slot since moment `start`: nothing is gone but keys of the slot, from
      the index and from the server alike; what has moved without zero bytes is in the index of the destination; and if no
      key of the slot has a zero byte or no time left, nothing was lost at any moment. */
  ghost predicate Drained(slotKeys: set<Key>, before: set<Key>, after: set<Key>, start: Moment, m: Moment,
                          history: seq<Moment>, n: nat)
  {
    && SameGone(before, after, start.source, m.source, slotKeys) && start.indexed <= m.indexed
    && (forall k :: k in before && k !in after && NUL !in k ==> k in m.indexed)
    && (Movable(start.source, slotKeys) ==> NoLoss(start.source, m) && NeverLost(start.source, history, n))
  }

  lemma NotDrained(keys: set<Key>, slot: nat, size: nat, m: Moment, history: seq<Moment>)
    requires size > 0
    ensures Drained(SlotKeys(keys, slot, size), keys, keys, m, m, history, |history|)
  {
    NoneGone(keys, m.source, SlotKeys(keys, slot, size));
  }

  /** One more attempt. */
  lemma DrainedMore(slotKeys: set<Key>, all: set<Key>, before: set<Key>, after: set<Key>, start: Moment, mid: Moment,
                    now: Moment, middle: seq<Moment>, history: seq<Moment>, n: nat, taken: set<Key>)
    requires taken <= slotKeys && Drained(slotKeys, all, before, start, mid, middle, n)
    requires SameGone(before, after, mid.source, now.source, taken) && middle <= history && mid.indexed <= now.indexed
    requires forall k :: k in before && k !in after && NUL !in k ==> k in now.indexed
    requires Movable(mid.source, taken) ==>
      Safe(mid, now, taken * mid.source.Keys) && AllSafe(mid, history, |middle|, taken * mid.source.Keys)
    ensures Drained(slotKeys, all, after, start, now, history, n)
  {
    hide NoLoss, Safe, AllSafe, NeverLost;
    SameGoneMore(before, after, mid.source, now.source, taken, slotKeys);
    SameGoneJoin(all, before, after, start.source, mid.source, now.source, slotKeys);
    if Movable(start.source, slotKeys) {
      NoLossComposes(start.source, mid, now, taken * mid.source.Keys);
      NeverLostComposes(start.source, mid, middle, history, n, taken * mid.source.Keys);
    }
  }

  /** A slot that is empty in the end had no stale keys, has arrived as a whole if its keys can move, and is in the index of
      the destination, in the same slot, but for keys with zero bytes. */
  lemma AllMoved(all: set<Key>, after: set<Key>, start: Moment, now: Moment, history: seq<Moment>, n: nat, slot: nat,
                 size: nat)
    requires size > 0 && SlotKeys(after, slot, size) == {}
    requires Drained(SlotKeys(all, slot, size), all, after, start, now, history, n)
    ensures SlotKeys(all, slot, size) <= start.source.Keys
    ensures Movable(start.source, SlotKeys(all, slot, size)) ==>
      && AllHeld(now.dest, start.source, SlotKeys(all, slot, size))
      && SlotKeys(all, slot, size) <= SlotKeys(now.indexed, slot, size)
  {
    hide SlotOf, Holds, NeverLost;
    StaleStay(all, after, start.source, now.source, SlotKeys(all, slot, size));
    forall k | k in SlotKeys(all, slot, size)
      ensures k in start.source && k !in after && k !in now.source
    {
      assert k !in SlotKeys(after, slot, size);
      assert k !in Stale(all, start.source);
    }
  }

  /** Migrating a slot attempt by attempt, however the kinds of step are mixed and whatever fails halfway. An attempt that
      moves no key of those it found is a failure; with more attempts than failures and keys of the slot that the server
      holds, the slot is empty, and then the server held all its keys. At every moment each key of the slot is still here or
      at the destination with its value and time to live, if none has a zero byte or no time left; when the slot is empty,
      they are all at the destination, and in the same slot of its index. */
  method Drain(d: DbInfo, w: World, slot: nat, groups: seq<bool>, pooled: bool) returns (empty: bool, failures: nat)
    requires d.Valid() && slot < d.size == |d.tables| && w !in d.owner && (true in groups ==> Unbroken(d.Keys, w.source))
    modifies d, d.owner.Keys, w
    ensures d.Valid()
    ensures SameGone(old(d.Keys), d.Keys, old(w.source), w.source, SlotKeys(old(d.Keys), slot, d.size))
    ensures empty ==>
      SlotKeys(d.Keys, slot, d.size) == {} && SlotKeys(old(d.Keys), slot, d.size) <= old(w.source).Keys
    ensures !empty ==> |groups| <= failures + |SlotKeys(old(d.Keys), slot, d.size) * old(w.source).Keys|
    ensures w.failures >= old(w.failures) && w.passes >= old(w.passes)
    ensures SlotKeys(old(d.Keys), slot, d.size) <= old(w.source).Keys ==>
      failures <= (w.failures - old(w.failures)) + (w.passes - old(w.passes))
    ensures forall k :: k in old(d.Keys) && k !in d.Keys && NUL !in k ==> k in w.indexed
    ensures old(w.history) <= w.history
    ensures Movable(old(w.source), SlotKeys(old(d.Keys), slot, d.size)) ==>
      NoLoss(old(w.source), w.Now()) && NeverLost(old(w.source), w.history, |old(w.history)|)
    ensures Movable(old(w.source), SlotKeys(old(d.Keys), slot, d.size)) && empty ==>
      && AllHeld(w.dest, old(w.source), SlotKeys(old(d.Keys), slot, d.size))
      && SlotKeys(old(d.Keys), slot, d.size) <= SlotKeys(w.indexed, slot, d.size)
  {
    hide DbInfo.Valid, SlotKeys, SlotOf, Drained, SameGone, Unbroken, Movable, NoLoss, NeverLost, Safe, AllSafe, AllHeld, Taken,
      Stale;
    ghost var keys, start, history, objects := d.Keys, w.Now(), w.history, d.owner.Keys;
    ghost var successes, slotKeys := 0, SlotKeys(keys, slot, d.size);
    NotDrained(keys, slot, d.size, start, history);
    var i := 0;
    failures, empty := 0, false;
    while i < |groups| && !empty
      invariant d.Valid() && w !in d.owner && forall o :: o in d.owner ==> o in objects || fresh(o)
      invariant i == failures + successes <= |groups| && (true in groups ==> Unbroken(d.Keys, w.source))
      invariant history <= w.history && Drained(slotKeys, keys, d.Keys, start, w.Now(), w.history, |history|)
      invariant |SlotKeys(d.Keys, slot, d.size) * w.source.Keys| + successes <= |slotKeys * start.source.Keys|
      invariant empty ==> SlotKeys(d.Keys, slot, d.size) == {}
      invariant w.failures >= old(w.failures) && w.passes >= old(w.passes)
      invariant slotKeys <= start.source.Keys ==>
        failures <= (w.failures - old(w.failures)) + (w.passes - old(w.passes))
      decreases |groups| - i, !empty
    {
      ghost var before, mid, middle := d.Keys, w.Now(), w.history;
      var ret, moved, found;
      ghost var key, taken, answered;
      ret, moved, found, key, taken, answered := MigrateStep(d, w, slot, groups[i], pooled);
      if found { TakenInSlot(before, key, groups[i], slot, d.size); }
      SlotShrinks(keys, before, slotKeys, start, mid, middle, |history|, slot, d.size);
      DrainedMore(slotKeys, keys, before, d.Keys, start, mid, w.Now(), middle, w.history, |history|, taken);
      if true in groups { UnbrokenStays(before, d.Keys, mid.source, w.source, taken); }
      if !found {
        empty := true;
        NoneLeft(d.Keys, w.source, slot, d.size);
      } else {
        StepShrinks(before, d.Keys, mid.source, w.source, key, groups[i], slot, d.size);
        if slotKeys <= start.source.Keys {
          KeyHeld(keys, before, slotKeys, start, mid, middle, |history|, key, groups[i], slot, d.size);
        }
        if moved > 0 {
          successes := successes + 1;
        } else {
          failures := failures + 1;
        }
        i := i + 1;
      }
    }
    DrainedMeans(slotKeys, keys, d.Keys, start, w.Now(), w.history, |history|);
    if empty { AllMoved(keys, d.Keys, start, w.Now(), w.history, |history|, slot, d.size); }
  }

  lemma SlotShrinks(all: set<Key>, before: set<Key>, slotKeys: set<Key>, start: Moment, mid: Moment, history: seq<Moment>,
                    n: nat, slot: nat, size: nat)
    requires size > 0 && slotKeys == SlotKeys(all, slot, size)
    requires Drained(slotKeys, all, before, start, mid, history, n)
    ensures SlotKeys(before, slot, size) <= slotKeys
  {
    hide NoLoss, NeverLost, SlotOf;
  }

  /** When the server held all keys of the slot, it holds the key that a step has found. */
  lemma KeyHeld(all: set<Key>, before: set<Key>, slotKeys: set<Key>, start: Moment, mid: Moment, history: seq<Moment>, n: nat,
                key: Key, group: bool, slot: nat, size: nat)
    requires size > 0 && slotKeys == SlotKeys(all, slot, size) && slotKeys <= start.source.Keys
    requires Drained(slotKeys, all, before, start, mid, history, n) && key in before && SlotOf(key, size) == slot
    ensures key in mid.source && key in Taken(before, key, group) && |Taken(before, key, group) * mid.source.Keys| > 0
  {
    hide NoLoss, NeverLost, SlotOf, CrcOf;
    StaleStay(all, before, start.source, mid.source, slotKeys);
    assert key in slotKeys && key !in Stale(before, mid.source);
    assert key in Taken(before, key, group) * mid.source.Keys;
  }

  lemma NoneLeft(keys: set<Key>, source: Store, slot: nat, size: nat)
    requires size > 0 && SlotKeys(keys, slot, size) == {}
    ensures |SlotKeys(keys, slot, size) * source.Keys| == 0
  {}

  lemma DrainedMeans(slotKeys: set<Key>, before: set<Key>, after: set<Key>, start: Moment, m: Moment, history: seq<Moment>,
                     n: nat)
    requires Drained(slotKeys, before, after, start, m, history, n)
    ensures SameGone(before, after, start.source, m.source, slotKeys)
    ensures forall k :: k in before && k !in after && NUL !in k ==> k in m.indexed
    ensures Movable(start.source, slotKeys) ==> NoLoss(start.source, m) && NeverLost(start.source, history, n)
  {}
}
