/**
  Migrating keys: dump them, send them with or without the pool of threads, and delete them here
  once all have arrived. What is lost, and when.
*/
module KeyMigration {
  import opened Wrappers
  import opened Keys
  import opened Decimal
  import opened Wire
  import opened Migration
  import Slots
  import Pool

  // ---------------------------------------------------------------- dumping

  function ObjOf(source: Store, key: Key): Obj
    requires key in source
  {
    Obj(key, source[key].ttlms, source[key].val)
  }

  /** The objects of the keys that are there. */
  function Dumps(source: Store, keys: seq<Key>): (objs: seq<Obj>)
    ensures |objs| <= |keys|
  {
    if keys == [] then []
    else
      var key := keys[|keys| - 1];
      Dumps(source, keys[..|keys| - 1]) + if key in source then [ObjOf(source, key)] else []
  }

  lemma {:induction false} DumpsAre(source: Store, keys: seq<Key>, o: Obj)
    ensures o in Dumps(source, keys) <==> o.key in keys && o.key in source && o == ObjOf(source, o.key)
  {
    if keys != [] {
      DumpsAre(source, keys[..|keys| - 1], o);
      assert o.key in keys <==> o.key in keys[..|keys| - 1] || o.key == keys[|keys| - 1];
    }
  }

  /** `getRdbDumpObjs`: a key that is not there leaves a hole among the objects. */
  method DumpAll(w: World, keys: seq<Key>) returns (ret: int, slots: seq<Option<Obj>>)
    modifies w`failures
    ensures ret == ERR || ret == |Dumps(w.source, keys)|
    ensures w.failures == old(w.failures) + if ret == ERR then 1 else 0
    ensures ret != ERR ==> |slots| == |keys| && forall i :: 0 <= i < |keys| ==>
      slots[i] == if keys[i] in w.source then Some(ObjOf(w.source, keys[i])) else None
  {
    ret, slots := 0, [];
    var i := 0;
    while i < |keys|
      invariant |slots| == i <= |keys| && ret == |Dumps(w.source, keys[..i])| && w.failures == old(w.failures)
      invariant forall j :: 0 <= j < i ==>
        slots[j] == if keys[j] in w.source then Some(ObjOf(w.source, keys[j])) else None
    {
      assert keys[..i + 1][..i] == keys[..i];
      var r := w.Dump(keys[i]);
      if r == Failed {
        return ERR, [];
      }
      if r.Object? {
        slots := slots + [Some(r.obj)];
        ret := ret + 1;
      } else {
        slots := slots + [None];
      }
      i := i + 1;
    }
    assert keys[..i] == keys;
  }

  /** The keys that are there come first. */
  ghost predicate PresentFirst(source: Store, keys: seq<Key>)
  {
    forall i, j :: 0 <= i < j < |keys| && keys[j] in source ==> keys[i] in source
  }

  /** How many keys are there, when the first `m` are, or when no others are. */
  lemma {:induction false} HowMany(source: Store, keys: seq<Key>, m: nat)
    requires m <= |keys|
    ensures (forall i :: 0 <= i < m ==> keys[i] in source) ==>
      |Dumps(source, keys)| >= m && (forall i :: m <= i < |keys| && keys[i] in source ==> |Dumps(source, keys)| > m)
    ensures (forall i :: m <= i < |keys| ==> keys[i] !in source) ==> |Dumps(source, keys)| <= m
  {
    if keys != [] {
      HowMany(source, keys[..|keys| - 1], if m == |keys| then m - 1 else m);
      assert forall i :: 0 <= i < |keys| - 1 ==> keys[..|keys| - 1][i] == keys[i];
    }
  }

  /** The first places, as many as keys are there, have no hole exactly when the keys that are there come first. */
  lemma NoHoles(source: Store, keys: seq<Key>)
    ensures PresentFirst(source, keys) <==> forall i :: 0 <= i < |Dumps(source, keys)| ==> keys[i] in source
  {
    HowMany(source, keys, |Dumps(source, keys)|);
    if i :| 0 <= i < |Dumps(source, keys)| && keys[i] !in source {
      HowMany(source, keys, i);
    }
  }

  /** Such a hole: of two keys only the second is there, and the object in the first place was never written. */
  lemma HoleFirst(a: Key, b: Key, v: Stored)
    requires a != b
    ensures |Dumps(map[b := v], [a, b])| == 1 && a !in map[b := v] && !PresentFirst(map[b := v], [a, b])
  {
    assert [a, b][..1] == [a] && [a][..0] == [];
    assert [a, b][1] in map[b := v] && [a, b][0] !in map[b := v];
  }

  /** Then the places hold the objects of all keys that are there. */
  lemma {:induction false} FirstDumps(source: Store, keys: seq<Key>)
    requires PresentFirst(source, keys)
    ensures forall i :: 0 <= i < |Dumps(source, keys)| ==>
      keys[i] in source && Dumps(source, keys)[i] == ObjOf(source, keys[i])
  {
    NoHoles(source, keys);
    if keys != [] {
      var front := keys[..|keys| - 1];
      FirstDumps(source, front);
      if keys[|keys| - 1] in source { HowMany(source, front, |front|); }
    }
  }

  // ---------------------------------------------------------------- what arrives

  /** The keys that are there. */
  function There(source: Store, keys: seq<Key>): set<Key>
  {
    set k | k in keys && k in source
  }

  /** No key has a zero byte. */
  ghost predicate NulFree(keys: set<Key>)
  {
    forall k :: k in keys ==> NUL !in k
  }

  /** No key has a zero byte, or no time left. */
  ghost predicate Movable(source: Store, keys: set<Key>)
  {
    NulFree(keys) && forall k :: k in keys && k in source ==> source[k].ttlms != 0
  }

  ghost predicate AllHeld(dest: Store, source: Store, keys: set<Key>)
  {
    forall k :: k in keys ==> k in source && Holds(dest, k, source[k])
  }

  /** The objects arrived in some order. */
  ghost predicate Sent(before: Store, after: Store, objs: seq<Obj>, done: seq<Obj>)
  {
    Permuted(done, objs) && after == Restored(before, done)
  }

  lemma ArrivalExpires(o: Obj)
    ensures Arrival(o).ttlms != 0
    ensures o.ttlms > 0 || o.ttlms == -1 ==> Arrival(o).ttlms == o.ttlms
  {}

  /** What is left under a key of the source. */
  lemma ArrivesAt(source: Store, keys: seq<Key>, before: Store, done: seq<Obj>, k: Key)
    requires Permuted(done, Dumps(source, keys)) && k in There(source, keys)
    ensures Movable(source, There(source, keys)) ==> Holds(Restored(before, done), k, source[k])
    ensures NUL in k && k in Restored(before, done) ==> k in before
    ensures k in Restored(before, done) && k !in before ==> Restored(before, done)[k].ttlms != 0
  {
    hide Slots.CString, Restored, Dumps;
    RestoredAt(before, done, k);
    var o, i := ObjOf(source, k), Writer(done, k);
    DumpsAre(source, keys, o);
    CStringNulFree(k);
    assert o in multiset(done) && o in done;
    var n :| 0 <= n < |done| && done[n] == o;
    if i >= 0 {
      assert done[i] in multiset(done);
      DumpsAre(source, keys, done[i]);
      CStringNulFree(done[i].key);
      ArrivalExpires(done[i]);
    }
  }

  /** Into a server that holds none of the keys, all keys arrive with their values and times to live exactly when none has a
      zero byte or no time left. */
  lemma ArrivalExact(source: Store, keys: seq<Key>, before: Store, done: seq<Obj>)
    requires Permuted(done, Dumps(source, keys))
    ensures Movable(source, There(source, keys)) ==> AllHeld(Restored(before, done), source, There(source, keys))
    ensures There(source, keys) !! before.Keys ==>
      (AllHeld(Restored(before, done), source, There(source, keys)) <==> Movable(source, There(source, keys)))
  {
    hide Restored, Dumps, Permuted;
    forall k | k in There(source, keys)
      ensures Movable(source, There(source, keys)) ==> Holds(Restored(before, done), k, source[k])
      ensures NUL in k && k in Restored(before, done) ==> k in before
      ensures k in Restored(before, done) && k !in before ==> Restored(before, done)[k].ttlms != 0
    {
      ArrivesAt(source, keys, before, done, k);
    }
  }

  /** Then, once the keys are deleted here, nothing is lost exactly under that condition. */
  lemma LossExact(start: Store, keys: seq<Key>, m: Moment, done: seq<Obj>)
    requires Permuted(done, Dumps(start, keys)) && There(start, keys) !! m.dest.Keys
    ensures NoLoss(start, Received(m, done).(source := start - (set k | k in keys))) <==> Movable(start, There(start, keys))
  {
    ReceivedIs(m, done);
    hide Restored, Dumps, Permuted, Movable, Holds, Received, Notified;
    ArrivalExact(start, keys, m.dest, done);
    var now := Received(m, done).(source := start - (set k | k in keys));
    if NoLoss(start, now) {
      forall k | k in There(start, keys)
        ensures Holds(now.dest, k, start[k])
      {
        assert k !in now.source;
      }
    }
  }

  /** The index of the destination gains exactly the keys without zero bytes. */
  lemma IndexedExact(source: Store, keys: seq<Key>, before: Store)
    ensures forall k :: k in There(source, keys) && NUL !in k ==> k in Notified(before, Dumps(source, keys))
    ensures There(source, keys) !! before.Keys ==>
      Notified(before, Dumps(source, keys)) == set k | k in There(source, keys) && NUL !in k
  {
    hide Dumps;
    var objs := Dumps(source, keys);
    forall k | k in There(source, keys)
      ensures ObjOf(source, k) in objs
    {
      DumpsAre(source, keys, ObjOf(source, k));
    }
    forall o | o in objs
      ensures o.key in There(source, keys)
    {
      DumpsAre(source, keys, o);
    }
  }

  /** A single key arrives under its C string. */
  lemma OneKey(key: Key, v: Stored)
    ensures Restored(map[], Dumps(map[key := v], [key])) == map[Slots.CString(key) := Arrival(Obj(key, v.ttlms, v.val))]
  {
    hide Slots.CString, Arrival;
    var o := Obj(key, v.ttlms, v.val);
    assert Dumps(map[key := v], [key]) == [o] by { assert [key][..0] == []; }
    assert [o][..0] == [];
  }

  /** A key with a zero byte is cut there. */
  lemma Cut(a: Key, b: Key)
    requires NUL !in a
    ensures Slots.CString(a + [NUL] + b) == a
  {
    var key := a + [NUL] + b;
    assert key[|a|] == NUL && forall k :: 0 <= k < |a| ==> key[k] == a[k];
  }

  /** Such a loss: a key with a zero byte is restored under the part before it, and deleted. */
  lemma ZeroByteLost(a: Key, b: Key, v: Stored, indexed: set<Key>)
    requires NUL !in a
    ensures var key := a + [NUL] + b; var start: Store := map[key := v];
      && Restored(map[], Dumps(start, [key])).Keys == {a}
      && !NoLoss(start, Moment(start - {key}, Restored(map[], Dumps(start, [key])), indexed))
  {
    hide Restored, Dumps, Slots.CString;
    var key := a + [NUL] + b;
    var start: Store := map[key := v];
    Cut(a, b);
    OneKey(key, v);
    assert |key| > |a| && key in start;
  }

  /** Another one: a key with less than a millisecond left is restored as one that does not expire. */
  lemma ExpiryLost(key: Key, val: Bytes, indexed: set<Key>)
    requires NUL !in key
    ensures var start: Store := map[key := Stored(0, val)];
      && Restored(map[], Dumps(start, [key])) == map[key := Stored(-1, val)]
      && !NoLoss(start, Moment(start - {key}, Restored(map[], Dumps(start, [key])), indexed))
  {
    hide Restored, Dumps, Slots.CString;
    var start: Store := map[key := Stored(0, val)];
    CStringNulFree(key);
    OneKey(key, Stored(0, val));
    assert key in start;
  }

  // ---------------------------------------------------------------- sending

  /** `MGRT` */
  method Mgrt(w: World, objs: seq<Obj>, pooled: bool) returns (ret: int, ghost done: seq<Obj>)
    requires |objs| > 0
    modifies w`dest, w`indexed, w`history, w`failures
    ensures ret == ERR || (ret == |objs| && Permuted(done, objs) && w.Now() == Received(old(w.Now()), done))
    ensures (ret == ERR <==> w.failures > old(w.failures)) && w.failures >= old(w.failures)
    ensures Partly(old(w.Now()), w.Now(), objs)
    ensures old(w.history) <= w.history && Sending(w.history, |old(w.history)|, old(w.Now()), objs)
  {
    hide Received, Sending, Partly, Compatible, IsSplit;
    ghost var start := w.Now();
    NothingRestored(start, objs, 0, w.history);
    if pooled {
      ghost var split, lost;
      ret, done, split, lost := Pool.BatchSendWithThreadPool(w, objs);
      return;
    }
    var reached := w.Reach();
    if !reached {
      return ERR, [];
    }
    ghost var m, cuts;
    ret, m, cuts := BatchSend(w, objs);
    PartlyReceived(start, start, objs, objs[..m]);
    assert objs[..|objs|] == objs;
    done := objs;
  }

  // ---------------------------------------------------------------- deleting

  /** All that is gone are some of the keys. */
  ghost predicate OnlyGone(before: Store, after: Store, keys: seq<Key>)
  {
    forall k :: k in before ==> k in keys || (k in after && after[k] == before[k])
  }

  /** In all moments from place `n` on the destination was `dest`, and only some of the keys were gone from the source. */
  ghost predicate OnlyDeleted(history: seq<Moment>, n: nat, source: Store, keys: seq<Key>, dest: Store)
  {
    n <= |history| && forall i :: n <= i < |history| ==>
      history[i].dest == dest && OnlyGone(source, history[i].source, keys)
  }

  ghost predicate Distinct(keys: seq<Key>)
  {
    forall i, j :: 0 <= i < j < |keys| ==> keys[i] != keys[j]
  }

  lemma NoKeys()
    ensures Distinct([])
  {}

  lemma DistinctNext(keys: seq<Key>, answered: seq<Key>, i: nat)
    requires i < |keys| && forall k :: k in answered ==> k in keys[..i]
    ensures Distinct(keys) && Distinct(answered) ==> Distinct(answered + [keys[i]])
  {
    assert Distinct(keys) ==> keys[i] !in keys[..i];
  }

  /** `delKeys`; `gone` is the keys that fired a delete event, `answered` those whose reply was an integer, also when they
      were not there. A key whose `UNLINK` has no reply is passed over. */
  method DelKeys(w: World, keys: seq<Key>) returns (ret: int, gone: seq<Key>, ghost answered: seq<Key>)
    modifies w`source, w`history, w`skipped, w`passes, w`failures
    ensures w.source == old(w.source) - (set k | k in answered) && (forall k :: k in answered ==> k in keys)
    ensures Distinct(gone) && forall k :: k in gone <==> k in answered && k in old(w.source)
    ensures ret == ERR || ret == |answered|
    ensures w.failures == old(w.failures) + if ret == ERR then 1 else 0
    ensures w.passes >= old(w.passes) && (w.passes == old(w.passes) ==> w.skipped == old(w.skipped))
    ensures var replies := |answered| + (w.passes - old(w.passes));
      && (if ret == ERR then replies < |keys| else replies == |keys|) && forall k :: k in answered ==> k in keys[..replies]
    ensures ret != ERR ==> forall k :: k in keys ==> k in answered || k in w.skipped
    ensures ret == |keys| ==> answered == keys
    ensures Distinct(keys) ==> Distinct(answered)
    ensures old(w.skipped) <= w.skipped <= old(w.skipped) + (set k | k in keys)
    ensures old(w.history) <= w.history && OnlyDeleted(w.history, |old(w.history)|, old(w.source), keys, w.dest)
  {
    hide Distinct;
    NoKeys();
    ghost var source, before, passed := w.source, w.history, w.skipped;
    ret, gone, answered := 0, [], [];
    var i := 0;
    while i < |keys|
      invariant i <= |keys| && ret == |answered| <= i && (|answered| == i ==> answered == keys[..i])
      invariant w.source == source - (set k | k in answered) && forall k :: k in answered ==> k in keys[..i]
      invariant Distinct(gone) && forall k :: k in gone <==> k in answered && k in source
      invariant w.failures == old(w.failures) && w.passes >= old(w.passes) && |answered| + (w.passes - old(w.passes)) == i
      invariant w.passes == old(w.passes) ==> w.skipped == old(w.skipped)
      invariant forall k :: k in keys[..i] ==> k in answered || k in w.skipped
      invariant Distinct(keys) ==> Distinct(answered)
      invariant passed <= w.skipped <= passed + (set k | k in keys)
      invariant before <= w.history && OnlyDeleted(w.history, |before|, source, keys, w.dest)
    {
      var r := w.Unlink(keys[i]);
      if r == Refused {
        return ERR, gone, answered;
      }
      assert keys[..i + 1] == keys[..i] + [keys[i]];
      if r == Gone {
        OneMoreGone(gone, keys[i]);
        gone := gone + [keys[i]];
      }
      if r != Skipped {
        DistinctNext(keys, answered, i);
        answered := answered + [keys[i]];
        ret := ret + 1;
      }
      i := i + 1;
    }
    assert keys[..i] == keys;
  }

  lemma OneMoreGone(gone: seq<Key>, key: Key)
    requires Distinct(gone) && key !in gone
    ensures Distinct(gone + [key])
  {}

  // ---------------------------------------------------------------- migrating

  /** The destination still holds what it held under other keys. */
  ghost predicate KeptOutside(before: Store, after: Store, keys: set<Key>)
  {
    forall k :: k in before && k !in keys ==> k in after && after[k] == before[k]
  }

  lemma OthersKept(before: Store, after: Store, source: Store, keys: seq<Key>)
    requires Within(before, after, Dumps(source, keys)) && NulFree(There(source, keys))
    ensures KeptOutside(before, after, There(source, keys))
  {
    hide Dumps, Slots.CString;
    var objs := Dumps(source, keys);
    forall i | 0 <= i < |objs|
      ensures Target(objs[i]) in There(source, keys)
    {
      DumpsAre(source, keys, objs[i]);
      CStringNulFree(objs[i].key);
    }
    forall k | k in before && k !in There(source, keys)
      ensures Unchanged(before, after, k)
    {
      assert Unchanged(before, after, k) || Arrived(after, k, objs);
    }
  }

  /** No moment from place `n` on has lost anything. */
  ghost predicate NeverLost(start: Store, history: seq<Moment>, n: nat)
  {
    n <= |history| && forall i :: n <= i < |history| ==> NoLoss(start, history[i])
  }

  /** Nothing is lost, and the destination still holds what it held under keys other than `keys`. */
  ghost predicate Safe(start: Moment, m: Moment, keys: set<Key>)
  {
    NoLoss(start.source, m) && KeptOutside(start.dest, m.dest, keys)
  }

  /** All moments from place `n` on are safe. */
  ghost predicate AllSafe(start: Moment, history: seq<Moment>, n: nat, keys: set<Key>)
  {
    n <= |history| && forall i :: n <= i < |history| ==> Safe(start, history[i], keys)
  }

  lemma SafeMeans(start: Moment, history: seq<Moment>, n: nat, keys: set<Key>)
    requires AllSafe(start, history, n, keys)
    ensures NeverLost(start.source, history, n)
  {
    hide NoLoss;
  }

  /** While objects are sent, the source keeps everything. */
  lemma SendingIsSafe(start: Moment, m: Moment, keys: seq<Key>)
    requires Partly(start, m, Dumps(start.source, keys)) && NulFree(There(start.source, keys))
    ensures Safe(start, m, There(start.source, keys))
  {
    OthersKept(start.dest, m.dest, start.source, keys);
  }

  lemma AllSendingSafe(start: Moment, history: seq<Moment>, n: nat, keys: seq<Key>)
    requires Sending(history, n, start, Dumps(start.source, keys)) && NulFree(There(start.source, keys))
    ensures AllSafe(start, history, n, There(start.source, keys))
  {
    hide Partly, Safe, Dumps;
    forall i | n <= i < |history|
      ensures Safe(start, history[i], There(start.source, keys))
    {
      SendingIsSafe(start, history[i], keys);
    }
  }

  /** Once all objects have arrived, deleting keys here loses nothing. */
  lemma SafeToDelete(start: Moment, keys: seq<Key>, done: seq<Obj>, m: Moment)
    requires Permuted(done, Dumps(start.source, keys)) && Movable(start.source, There(start.source, keys))
    requires OnlyGone(start.source, m.source, keys) && m.dest == Restored(start.dest, done)
    ensures Safe(start, m, There(start.source, keys))
  {
    hide Restored, Dumps, NulFree, Holds, Within;
    ArrivalExact(start.source, keys, start.dest, done);
    forall o | o in done
      ensures o in Dumps(start.source, keys)
    {
      assert o in multiset(done);
    }
    WithinRefl(start.dest, Dumps(start.source, keys));
    RestoredWithin(start.dest, start.dest, Dumps(start.source, keys), done);
    OthersKept(start.dest, m.dest, start.source, keys);
  }

  lemma DeletingIsSafe(start: Moment, keys: seq<Key>, done: seq<Obj>, history: seq<Moment>, n: nat)
    requires Permuted(done, Dumps(start.source, keys)) && Movable(start.source, There(start.source, keys))
    requires OnlyDeleted(history, n, start.source, keys, Restored(start.dest, done))
    ensures AllSafe(start, history, n, There(start.source, keys))
  {
    hide Restored, Safe, Permuted, Movable, OnlyGone, Dumps;
    forall i | n <= i < |history|
      ensures Safe(start, history[i], There(start.source, keys))
    {
      SafeToDelete(start, keys, done, history[i]);
    }
  }

  lemma HistoriesJoin(start: Moment, before: nat, now: seq<Moment>, after: seq<Moment>, keys: set<Key>)
    requires AllSafe(start, now, before, keys) && now <= after && AllSafe(start, after, |now|, keys)
    ensures AllSafe(start, after, before, keys)
  {
    hide Safe;
  }

  /** The objects in the first places. */
  method FirstObjs(slots: seq<Option<Obj>>, n: nat, ghost source: Store, ghost keys: seq<Key>) returns (objs: seq<Obj>)
    requires n == |Dumps(source, keys)| && |slots| == |keys| && PresentFirst(source, keys)
    requires forall i :: 0 <= i < |keys| ==> slots[i] == if keys[i] in source then Some(ObjOf(source, keys[i])) else None
    ensures objs == Dumps(source, keys)
  {
    FirstDumps(source, keys);
    hide Dumps;
    objs := seq(n, i requires 0 <= i < n => slots[i].value);
  }

  /** `migrateKeys`, with or without the pool of threads; `gone` is the keys that fired a delete event, `answered` those
      whose `UNLINK` had an integer as reply. The keys that are there come first, as otherwise the objects to send have
      holes. `sent` is whether all objects arrived, in the order `done`. If no key has a zero byte or no time left, each key
      is at every moment held by the source or by the destination. */
  method MigrateKeys(w: World, keys: seq<Key>, pooled: bool)
    returns (ret: int, gone: seq<Key>, ghost answered: seq<Key>, ghost sent: bool, ghost done: seq<Obj>)
    requires PresentFirst(w.source, keys)
    modifies w
    ensures ret == ERR || ret == |answered|
    ensures (ret == ERR <==> w.failures > old(w.failures)) && w.failures >= old(w.failures) && w.passes >= old(w.passes)
    ensures w.failures == old(w.failures) && w.passes == old(w.passes) ==>
      sent && w.source == old(w.source) - (set k | k in keys) && There(old(w.source), keys) <= set k | k in gone
    ensures sent && Movable(old(w.source), There(old(w.source), keys)) ==>
      AllHeld(w.dest, old(w.source), There(old(w.source), keys))
    ensures w.source == old(w.source) - (set k | k in answered) && forall k :: k in answered ==> k in keys
    ensures Distinct(gone) && forall k :: k in gone <==> k in answered && k in old(w.source)
    ensures Distinct(keys) ==> Distinct(answered)
    ensures Within(old(w.dest), w.dest, Dumps(old(w.source), keys)) && old(w.indexed) <= w.indexed
    ensures if sent then
        && Sent(old(w.dest), w.dest, Dumps(old(w.source), keys), done)
        && w.indexed == old(w.indexed) + Notified(old(w.dest), Dumps(old(w.source), keys))
      else answered == [] && ret == ERR
    ensures ret != ERR ==> forall k :: k in keys && k in w.source ==> k in w.skipped
    ensures old(w.skipped) <= w.skipped <= old(w.skipped) + (set k | k in keys)
    ensures old(w.history) <= w.history
    ensures Movable(old(w.source), There(old(w.source), keys)) ==>
      && Safe(old(w.Now()), w.Now(), There(old(w.source), keys))
      && AllSafe(old(w.Now()), w.history, |old(w.history)|, There(old(w.source), keys))
      && NeverLost(old(w.source), w.history, |old(w.history)|)
    ensures sent && There(old(w.source), keys) !! old(w.dest).Keys ==>
      (AllHeld(w.dest, old(w.source), There(old(w.source), keys)) <==>
        Movable(old(w.source), There(old(w.source), keys)))
    ensures ret == |keys| && sent && There(old(w.source), keys) !! old(w.dest).Keys ==>
      (NoLoss(old(w.source), w.Now()) <==> Movable(old(w.source), There(old(w.source), keys)))
  {
    hide Restored, Received, NoLoss, Sending, Partly, OnlyDeleted, OnlyGone, Distinct, Movable, NeverLost, Permuted, AllHeld,
      There, PresentFirst, Safe, AllSafe, Dumps, Notified;
    ghost var start, before, all := w.Now(), w.history, Dumps(w.source, keys);
    ghost var there := There(w.source, keys);
    NothingRestored(start, all, 0, before);
    KeysSent(start, start, before, |before|, keys);
    NoKeys();
    gone, answered, sent, done := [], [], false, [];
    assert start.source - (set k | k in []) == start.source;
    var slots;
    ret, slots := DumpAll(w, keys);
    if ret == ERR {
      return;
    }
    if ret == 0 {
      NothingSent(start, keys);
      sent := true;
      return;
    }
    var objs := FirstObjs(slots, ret, start.source, keys);
    var mRet;
    mRet, done := Mgrt(w, objs, pooled);
    ghost var mid, now := w.Now(), w.history;
    KeysSent(start, mid, now, |before|, keys);
    if mRet == ERR {
      return ERR, [], [], false, done;
    }
    sent := true;
    AllSent(start, keys, done);
    ghost var passes := w.passes;
    ret, gone, answered := DelKeys(w, keys);
    if ret != ERR && w.passes == passes { assert answered == keys; }
    SomeGone(start.source, keys, answered);
    ThereGone(start.source, keys, gone, answered);
    if Movable(start.source, there) {
      DeletingIsSafe(start, keys, done, w.history, |now|);
      SafeToDelete(start, keys, done, w.Now());
      HistoriesJoin(start, |before|, now, w.history, there);
      SafeMeans(start, w.history, |before|, there);
    }
    ArrivalExact(start.source, keys, start.dest, done);
    if there !! start.dest.Keys { LossExact(start.source, keys, start, done); }
  }

  /** What holds while the objects are sent. */
  lemma KeysSent(start: Moment, m: Moment, history: seq<Moment>, n: nat, keys: seq<Key>)
    requires Sending(history, n, start, Dumps(start.source, keys)) && Partly(start, m, Dumps(start.source, keys))
    ensures Within(start.dest, m.dest, Dumps(start.source, keys)) && start.indexed <= m.indexed && m.source == start.source
    ensures Movable(start.source, There(start.source, keys)) ==>
      && Safe(start, m, There(start.source, keys)) && AllSafe(start, history, n, There(start.source, keys))
      && NeverLost(start.source, history, n)
  {
    hide Safe, AllSafe, Dumps, Sending, NeverLost;
    if Movable(start.source, There(start.source, keys)) {
      SendingIsSafe(start, m, keys);
      AllSendingSafe(start, history, n, keys);
      SafeMeans(start, history, n, There(start.source, keys));
    }
  }

  /** The destination once all objects have arrived. */
  lemma AllSent(start: Moment, keys: seq<Key>, done: seq<Obj>)
    requires Permuted(done, Dumps(start.source, keys))
    ensures var m := Received(start, done);
      && m.source == start.source && m.dest == Restored(start.dest, done)
      && m.indexed == start.indexed + Notified(start.dest, Dumps(start.source, keys))
    ensures Sent(start.dest, Received(start, done).dest, Dumps(start.source, keys), done)
  {
    ReceivedIs(start, done);
    hide Restored, Dumps, Received;
    forall o
      ensures o in done <==> o in Dumps(start.source, keys)
    {
      assert o in multiset(done) <==> o in multiset(Dumps(start.source, keys));
    }
  }

  lemma NothingSent(start: Moment, keys: seq<Key>)
    requires Dumps(start.source, keys) == []
    ensures Sent(start.dest, start.dest, Dumps(start.source, keys), []) && There(start.source, keys) == {}
    ensures start.indexed == start.indexed + Notified(start.dest, Dumps(start.source, keys))
    ensures forall k :: k in keys ==> k !in start.source
    ensures start.source - (set k | k in keys) == start.source
    ensures AllHeld(start.dest, start.source, {}) && Movable(start.source, {}) && NoLoss(start.source, start)
  {
    hide Dumps;
    forall k | k in keys
      ensures k !in start.source
    {
      if k in start.source { DumpsAre(start.source, keys, ObjOf(start.source, k)); }
    }
  }

  lemma ThereGone(source: Store, keys: seq<Key>, gone: seq<Key>, answered: seq<Key>)
    requires forall k :: k in gone <==> k in answered && k in source
    ensures answered == keys ==> There(source, keys) <= set k | k in gone
  {}

  lemma SomeGone(start: Store, keys: seq<Key>, gone: seq<Key>)
    requires forall k :: k in gone ==> k in keys
    ensures OnlyGone(start, start - (set k | k in gone), keys)
  {}

  /** Without zero bytes, objects for the same key bring the same, so that their order does not matter. */
  lemma NulFreeCompatible(source: Store, keys: seq<Key>)
    requires NulFree(There(source, keys))
    ensures Compatible(Dumps(source, keys))
  {
    hide Dumps, Slots.CString;
    var objs := Dumps(source, keys);
    forall a, b | a in objs && b in objs && Target(a) == Target(b)
      ensures a == b
    {
      DumpsAre(source, keys, a);
      DumpsAre(source, keys, b);
      CStringNulFree(a.key);
      CStringNulFree(b.key);
    }
  }

  // ---------------------------------------------------------------- trying again

  /** The keys that are still at the source. */
  function Left(source: Store, keys: seq<Key>): (r: seq<Key>)
    ensures forall k :: k in r <==> k in keys && k in source
  {
    if keys == [] then []
    else
      assert forall k :: k in keys <==> k in keys[..|keys| - 1] || k == keys[|keys| - 1];
      Left(source, keys[..|keys| - 1]) + if keys[|keys| - 1] in source then [keys[|keys| - 1]] else []
  }

  /** The source holds nothing that it did not hold before. */
  ghost predicate Fewer(before: Store, after: Store)
  {
    forall k :: k in after ==> k in before && before[k] == after[k]
  }

  /** Objects that arrive again leave the destination as if all had arrived once: either all have arrived before, or some
      have, and all arrive again. */
  lemma ArrivesOnce(before: Store, now: Store, all: seq<Obj>, again: seq<Obj>)
    requires Compatible(all) && forall o :: o in again ==> o in all
    requires now == Restored(before, all) || (Within(before, now, all) && forall o :: o in all ==> o in again)
    ensures Restored(now, again) == Restored(before, all)
  {
    hide Restored, Target, Arrival, Compatible;
    if now != Restored(before, all) { RestoredAgain(before, now, all); }
    var r, r' := Restored(before, all), Restored(now, again);
    forall k
      ensures k in r <==> k in r'
      ensures k in r ==> r[k] == r'[k]
    {
      if now == r { RestoredWriter(before, all, again, k); } else { SameWriter(now, all, again, k); }
    }
  }

  lemma RestoredWriter(before: Store, all: seq<Obj>, part: seq<Obj>, k: Key)
    requires Compatible(all) && forall o :: o in part ==> o in all
    ensures var r := Restored(before, all); (k in r <==> k in Restored(r, part)) && (k in r ==> r[k] == Restored(r, part)[k])
  {
    hide Restored, Target, Arrival;
    RestoredAt(before, all, k);
    RestoredAt(Restored(before, all), part, k);
    var j := Writer(part, k);
    if j >= 0 {
      assert part[j] in all;
      var n :| 0 <= n < |all| && all[n] == part[j];
    }
  }

  /** What a second attempt dumps was dumped by the first; all of it, unless keys are gone. */
  lemma DumpedAgain(start: Store, now: Store, keys: seq<Key>, o: Obj)
    requires Fewer(start, now)
    ensures o in Dumps(now, Left(now, keys)) ==> o in Dumps(start, keys)
    ensures now == start ==> (o in Dumps(start, keys) ==> o in Dumps(now, Left(now, keys)))
  {
    DumpsAre(start, keys, o);
    DumpsAre(now, Left(now, keys), o);
  }

  /** What two attempts leave at the destination, whatever part of the first one was done. */
  lemma RetryArrives(before: Store, mid: Store, after: Store, start: Store, now: Store, keys: seq<Key>, sent: bool,
                     first: seq<Obj>, second: seq<Obj>)
    requires Fewer(start, now) && Compatible(Dumps(start, keys)) && Within(before, mid, Dumps(start, keys))
    requires if sent then Sent(before, mid, Dumps(start, keys), first) else now == start
    requires Sent(mid, after, Dumps(now, Left(now, keys)), second)
    ensures after == Restored(before, Dumps(start, keys))
  {
    hide Restored, Within, Compatible, Fewer, Dumps;
    var all := Dumps(start, keys);
    if sent { OrderFree(before, all, first); }
    forall o
      ensures o in second ==> o in all
      ensures now == start ==> (o in all ==> o in second)
    {
      DumpedAgain(start, now, keys, o);
      assert o in multiset(second) <==> o in multiset(Dumps(now, Left(now, keys)));
    }
    ArrivesOnce(before, mid, all, second);
  }

  /** Two attempts that lose nothing lose nothing together: the second leaves alone what the first has moved. */
  lemma NoLossComposes(start: Store, mid: Moment, after: Moment, keys: set<Key>)
    requires NoLoss(start, mid) && Safe(mid, after, keys) && Fewer(start, mid.source) && keys <= mid.source.Keys
    ensures NoLoss(start, after)
  {}

  /** At no moment of either. */
  lemma NeverLostComposes(start: Store, mid: Moment, now: seq<Moment>, after: seq<Moment>, n: nat, keys: set<Key>)
    requires NoLoss(start, mid) && Fewer(start, mid.source) && keys <= mid.source.Keys
    requires NeverLost(start, now, n) && now <= after && AllSafe(mid, after, |now|, keys)
    ensures NeverLost(start, after, n)
  {
    hide NoLoss, Safe;
    forall i | |now| <= i < |after|
      ensures NoLoss(start, after[i])
    {
      NoLossComposes(start, mid, after[i], keys);
    }
  }

  /** After a failure, migrate the keys that are still here. When that succeeds, both servers hold what they would hold had
      the first attempt succeeded. */
  method MigrateWithRetry(w: World, keys: seq<Key>, pooled: bool, again: bool) returns (ret: int)
    requires PresentFirst(w.source, keys)
    modifies w
    ensures Fewer(old(w.source), w.source) && OnlyGone(old(w.source), w.source, keys)
    ensures ret != ERR ==> forall k :: k in keys && k in w.source ==> k in w.skipped
    ensures ret == ERR ==> w.failures >= old(w.failures) + 2
    ensures old(w.history) <= w.history
    ensures Movable(old(w.source), There(old(w.source), keys)) ==>
      NoLoss(old(w.source), w.Now()) && NeverLost(old(w.source), w.history, |old(w.history)|)
    ensures ret != ERR && Compatible(Dumps(old(w.source), keys)) ==>
      w.dest == Restored(old(w.dest), Dumps(old(w.source), keys))
    ensures ret != ERR ==> forall k :: k in There(old(w.source), keys) && NUL !in k ==> k in w.indexed
  {
    hide Restored, NoLoss, KeptOutside, Within, Sent, NeverLost, AllSafe, AllHeld, Compatible, Movable, Dumps, Left, Notified,
      There, Fewer, OnlyGone, PresentFirst, Distinct;
    ghost var start, before, all := w.Now(), w.history, Dumps(w.source, keys);
    var gone;
    ghost var answered, sent, done;
    ret, gone, answered, sent, done := MigrateKeys(w, keys, pooled);
    ghost var mid, now, first := w.Now(), w.history, answered;
    IndexedExact(start.source, keys, start.dest);
    FewerLeft(start.source, mid.source, keys, first);
    if ret != ERR {
      if Compatible(all) { SentIsRestored(start.dest, w.dest, all, done); }
      return;
    }
    var rest := Left(w.source, keys);
    LeftAre(mid.source, keys);
    ghost var again', second;
    ret, gone, answered, again', second := MigrateKeys(w, rest, again);
    FewerLeft(mid.source, w.source, rest, answered);
    FewerFurther(start.source, mid.source, w.source, keys, rest);
    IndexedExact(mid.source, rest, mid.dest);
    if Movable(start.source, There(start.source, keys)) {
      LeftMovable(start.source, mid.source, keys);
      NoLossComposes(start.source, mid, w.Now(), There(mid.source, rest));
      NeverLostComposes(start.source, mid, now, w.history, |before|, There(mid.source, rest));
    }
    if ret != ERR {
      LeftSent(start.source, mid.source, keys, first, sent);
      if Compatible(all) {
        RetryArrives(start.dest, mid.dest, w.dest, start.source, mid.source, keys, sent, done, second);
      }
    }
  }

  lemma FewerLeft(start: Store, now: Store, keys: seq<Key>, gone: seq<Key>)
    requires now == start - (set k | k in gone) && forall k :: k in gone ==> k in keys
    ensures Fewer(start, now) && OnlyGone(start, now, keys)
  {}

  lemma FewerFurther(start: Store, mid: Store, now: Store, keys: seq<Key>, rest: seq<Key>)
    requires Fewer(start, mid) && OnlyGone(start, mid, keys) && Fewer(mid, now) && OnlyGone(mid, now, rest)
    requires forall k :: k in rest ==> k in keys
    ensures Fewer(start, now) && OnlyGone(start, now, keys)
  {}

  lemma SentIsRestored(before: Store, after: Store, objs: seq<Obj>, done: seq<Obj>)
    requires Compatible(objs) && Sent(before, after, objs, done)
    ensures after == Restored(before, objs)
  {
    OrderFree(before, objs, done);
  }

  /** Before anything is sent, all keys are left. */
  lemma LeftSent(start: Store, mid: Store, keys: seq<Key>, first: seq<Key>, sent: bool)
    requires mid == start - (set k | k in first) && (sent || first == [])
    ensures !sent ==> mid == start && There(mid, Left(mid, keys)) == There(start, keys)
  {
    if !sent { assert start - (set k | k in []) == start; }
  }

  lemma LeftAre(source: Store, keys: seq<Key>)
    ensures forall k :: k in Left(source, keys) <==> k in keys && k in source
    ensures PresentFirst(source, Left(source, keys))
  {}

  lemma LeftMovable(start: Store, now: Store, keys: seq<Key>)
    requires Movable(start, There(start, keys)) && Fewer(start, now)
    ensures Movable(now, There(now, Left(now, keys))) && There(now, Left(now, keys)) <= now.Keys
  {}
}
