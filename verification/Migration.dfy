/**
  Two servers, and objects on their way from one to the other: the receiver restores them, the
  sender splits them into commands. Every step that talks to a server may fail.
*/
module Migration {
  import opened Wrappers
  import opened Keys
  import opened Decimal
  import opened Wire
  import Slots

  /** The milliseconds that a key has left, -1 when it does not expire. */
  type Ttl = v: int | -1 <= v <= LLONG_MAX

  /** What a server holds for a key. */
  datatype Stored = Stored(ttlms: Ttl, val: Bytes)

  type Store = map<Key, Stored>

  /** What the two servers hold, and the keys in the slot index of the destination. */
  datatype Moment = Moment(source: Store, dest: Store, indexed: set<Key>)

  const ERR: int := -1

  // ---------------------------------------------------------------- effects, on values

  /** The key that an object is restored under: the key of an object is passed as a C string. */
  function Target(o: Obj): Key
  {
    Slots.CString(o.key)
  }

  /** What `RESTORE ... REPLACE` stores for an object: a key restored with time 0 does not expire. */
  function Arrival(o: Obj): Stored
  {
    Stored(if o.ttlms > 0 then o.ttlms else -1, o.val)
  }

  /** The destination after the objects were restored one after the other. */
  function Restored(dest: Store, objs: seq<Obj>): Store
  {
    if objs == [] then dest
    else Restored(dest, objs[..|objs| - 1])[Target(objs[|objs| - 1]) := Arrival(objs[|objs| - 1])]
  }

  /** The last object that is restored under `k`, or -1. */
  function Writer(objs: seq<Obj>, k: Key): (i: int)
    ensures -1 <= i < |objs| && (i >= 0 ==> Target(objs[i]) == k)
    ensures forall j :: i < j < |objs| ==> Target(objs[j]) != k
  {
    if objs == [] then -1 else if Target(objs[|objs| - 1]) == k then |objs| - 1 else Writer(objs[..|objs| - 1], k)
  }

  /** Under each key stands what the last object for it brought, or what was there before. */
  lemma {:induction false} RestoredAt(dest: Store, objs: seq<Obj>, k: Key)
    ensures k in Restored(dest, objs) <==> k in dest || Writer(objs, k) >= 0
    ensures k in Restored(dest, objs) ==>
      Restored(dest, objs)[k] == if Writer(objs, k) >= 0 then Arrival(objs[Writer(objs, k)]) else dest[k]
  {
    hide Target, Arrival;
    if objs != [] { RestoredAt(dest, objs[..|objs| - 1], k); }
  }

  /** Objects for the same key bring the same. */
  ghost predicate Compatible(objs: seq<Obj>)
  {
    forall a, b :: a in objs && b in objs && Target(a) == Target(b) ==> Arrival(a) == Arrival(b)
  }

  ghost predicate Permuted(a: seq<Obj>, b: seq<Obj>)
  {
    multiset(a) == multiset(b)
  }

  /** The same compatible objects leave the same under a key. */
  lemma SameWriter(dest: Store, objs: seq<Obj>, objs': seq<Obj>, k: Key)
    requires Compatible(objs) && forall o :: o in objs <==> o in objs'
    ensures k in Restored(dest, objs) <==> k in Restored(dest, objs')
    ensures k in Restored(dest, objs) ==> Restored(dest, objs)[k] == Restored(dest, objs')[k]
  {
    hide Target, Arrival, Restored;
    RestoredAt(dest, objs, k);
    RestoredAt(dest, objs', k);
    var i, j := Writer(objs, k), Writer(objs', k);
    if i >= 0 {
      assert objs[i] in objs';
      var n :| 0 <= n < |objs'| && objs'[n] == objs[i];
    }
    if j >= 0 {
      assert objs'[j] in objs;
      var n :| 0 <= n < |objs| && objs[n] == objs'[j];
    }
  }

  lemma OrderFree(dest: Store, objs: seq<Obj>, objs': seq<Obj>)
    requires Compatible(objs) && Permuted(objs', objs)
    ensures Restored(dest, objs') == Restored(dest, objs)
  {
    hide Compatible, Restored;
    forall o
      ensures o in objs <==> o in objs'
    {
      assert o in multiset(objs) <==> o in multiset(objs');
    }
    forall k
      ensures k in Restored(dest, objs) <==> k in Restored(dest, objs')
      ensures k in Restored(dest, objs) ==> Restored(dest, objs)[k] == Restored(dest, objs')[k]
    {
      SameWriter(dest, objs, objs', k);
    }
  }

  /** The objects in an order that ends with number `i`. */
  function EndingWith(objs: seq<Obj>, i: nat): (r: seq<Obj>)
    requires i < |objs|
    ensures r != [] && r[|r| - 1] == objs[i]
  {
    objs[..i] + objs[i + 1..] + [objs[i]]
  }

  lemma EndingPermuted(dest: Store, objs: seq<Obj>, i: nat)
    requires i < |objs|
    ensures Permuted(EndingWith(objs, i), objs)
    ensures Target(objs[i]) in Restored(dest, EndingWith(objs, i))
    ensures Restored(dest, EndingWith(objs, i))[Target(objs[i])] == Arrival(objs[i])
  {
    hide Target, Arrival;
    assert objs == objs[..i] + [objs[i]] + objs[i + 1..];
  }

  /** The order of the objects does not matter exactly when objects for the same key bring the same. */
  lemma OrderIrrelevant(dest: Store, objs: seq<Obj>)
    ensures Compatible(objs) <==> forall objs' :: Permuted(objs', objs) ==> Restored(dest, objs') == Restored(dest, objs)
  {
    hide Restored, Permuted, Target, Arrival, EndingWith;
    if Compatible(objs) {
      forall objs' | Permuted(objs', objs)
        ensures Restored(dest, objs') == Restored(dest, objs)
      {
        OrderFree(dest, objs, objs');
      }
    } else {
      var a, b :| a in objs && b in objs && Target(a) == Target(b) && Arrival(a) != Arrival(b);
      var i :| 0 <= i < |objs| && objs[i] == a;
      var j :| 0 <= j < |objs| && objs[j] == b;
      EndingPermuted(dest, objs, i);
      EndingPermuted(dest, objs, j);
      assert Restored(dest, EndingWith(objs, i)) != Restored(dest, EndingWith(objs, j));
    }
  }

  /** The destination holds what it held, except that some of the objects have arrived. */
  ghost predicate Within(before: Store, after: Store, objs: seq<Obj>)
  {
    && (forall k :: k in before ==> k in after)
    && (forall k :: k in after ==> Unchanged(before, after, k) || Arrived(after, k, objs))
  }

  ghost predicate Unchanged(before: Store, after: Store, k: Key)
  {
    k in before && k in after && after[k] == before[k]
  }

  ghost predicate Arrived(after: Store, k: Key, objs: seq<Obj>)
  {
    k in after && exists i :: 0 <= i < |objs| && Target(objs[i]) == k && after[k] == Arrival(objs[i])
  }

  lemma WithinRefl(dest: Store, objs: seq<Obj>)
    ensures Within(dest, dest, objs)
  {
    forall k | k in dest
      ensures Unchanged(dest, dest, k)
    {}
  }

  /** Restoring a part of the objects stays within. */
  lemma {:induction false} RestoredWithin(before: Store, now: Store, objs: seq<Obj>, part: seq<Obj>)
    requires Within(before, now, objs) && forall o :: o in part ==> o in objs
    ensures Within(before, Restored(now, part), objs)
  {
    hide Target, Arrival;
    if part != [] {
      var front, last := part[..|part| - 1], part[|part| - 1];
      RestoredWithin(before, now, objs, front);
      var mid, after := Restored(now, front), Restored(now, part);
      assert last in objs;
      forall k | k in after
        ensures Unchanged(before, after, k) || Arrived(after, k, objs)
      {
        if k != Target(last) { assert Unchanged(before, mid, k) || Arrived(mid, k, objs); }
      }
    }
  }

  /** Restoring everything after a part of it has arrived, in whatever order and however often, is restoring once. */
  lemma RestoredAgain(before: Store, now: Store, objs: seq<Obj>)
    requires Within(before, now, objs)
    ensures Restored(now, objs) == Restored(before, objs)
  {
    hide Target, Arrival, Restored;
    forall k
      ensures k in Restored(now, objs) <==> k in Restored(before, objs)
      ensures k in Restored(now, objs) ==> Restored(now, objs)[k] == Restored(before, objs)[k]
    {
      RestoredAt(now, objs, k);
      RestoredAt(before, objs, k);
      if k in now { assert Unchanged(before, now, k) || Arrived(now, k, objs); }
    }
  }

  // ---------------------------------------------------------------- effects with the index

  /** The moment after one object was restored: `notifyOne` opens the whole key, and adds it to the index if it is there. */
  function ReceivedOne(m: Moment, o: Obj): Moment
  {
    var dest := m.dest[Target(o) := Arrival(o)];
    Moment(m.source, dest, if o.key in dest then m.indexed + {o.key} else m.indexed)
  }

  /** The moment after the objects were restored one after the other. */
  function Received(m: Moment, objs: seq<Obj>): Moment
  {
    if objs == [] then m else ReceivedOne(Received(m, objs[..|objs| - 1]), objs[|objs| - 1])
  }

  lemma {:induction false} ReceivedCat(m: Moment, a: seq<Obj>, b: seq<Obj>)
    ensures Received(m, a + b) == Received(Received(m, a), b)
  {
    hide ReceivedOne;
    if b == [] {
      assert a + b == a;
    } else {
      ReceivedCat(m, a, b[..|b| - 1]);
      assert (a + b)[..|a + b| - 1] == a + b[..|b| - 1];
    }
  }

  lemma {:induction false} ReceivedClamped(m: Moment, objs: seq<Obj>)
    ensures Received(m, ClampedAll(objs)) == Received(m, objs)
  {
    if objs != [] {
      ReceivedClamped(m, objs[..|objs| - 1]);
      assert ClampedAll(objs)[..|objs| - 1] == ClampedAll(objs[..|objs| - 1]);
    }
  }

  /** The keys that the index gains: those without zero bytes, and those that the destination holds whole already. */
  function Notified(dest: Store, objs: seq<Obj>): set<Key>
  {
    set o | o in objs && (NUL !in o.key || o.key in dest) :: o.key
  }

  lemma CStringNulFree(key: Key)
    ensures NUL !in Slots.CString(key) && (NUL !in key <==> Slots.CString(key) == key)
  {}

  /** A key with a zero byte is never restored under its own name. */
  lemma {:induction false} NulNotRestored(dest: Store, objs: seq<Obj>, k: Key)
    requires NUL in k
    ensures k in Restored(dest, objs) <==> k in dest
  {
    hide Slots.CString, Arrival;
    if objs != [] {
      CStringNulFree(objs[|objs| - 1].key);
      NulNotRestored(dest, objs[..|objs| - 1], k);
    }
  }

  lemma {:induction false} ReceivedIs(m: Moment, objs: seq<Obj>)
    ensures Received(m, objs) == Moment(m.source, Restored(m.dest, objs), m.indexed + Notified(m.dest, objs))
  {
    hide Slots.CString, Arrival;
    if objs != [] {
      var front, o := objs[..|objs| - 1], objs[|objs| - 1];
      ReceivedIs(m, front);
      CStringNulFree(o.key);
      if NUL in o.key { NulNotRestored(m.dest, front, o.key); }
      assert forall x :: x in objs <==> x in front || x == o;
      assert Notified(m.dest, objs) ==
        Notified(m.dest, front) + if NUL !in o.key || o.key in m.dest then {o.key} else {};
    }
  }

  /** Between the two moments only some of the objects have arrived. */
  ghost predicate Partly(m: Moment, m': Moment, objs: seq<Obj>)
  {
    && m'.source == m.source && Within(m.dest, m'.dest, objs)
    && m.indexed <= m'.indexed <= m.indexed + Notified(m.dest, objs)
  }

  lemma PartlyRefl(m: Moment, objs: seq<Obj>)
    ensures Partly(m, m, objs)
  {
    WithinRefl(m.dest, objs);
  }

  lemma PartlyReceived(m: Moment, now: Moment, objs: seq<Obj>, part: seq<Obj>)
    requires Partly(m, now, objs) && forall o :: o in part ==> o in objs
    ensures Partly(m, Received(now, part), objs)
  {
    ReceivedIs(now, part);
    RestoredWithin(m.dest, now.dest, objs, part);
    NotifiedWithin(m.dest, now.dest, objs, part);
    hide Restored, Within, Notified;
  }

  lemma NotifiedWithin(before: Store, now: Store, objs: seq<Obj>, part: seq<Obj>)
    requires Within(before, now, objs) && forall o :: o in part ==> o in objs
    ensures Notified(now, part) <= Notified(before, objs)
  {
    hide Slots.CString, Arrival;
    forall o | o in part && o.key in now && NUL in o.key
      ensures o.key in before
    {
      assert Unchanged(before, now, o.key) || Arrived(now, o.key, objs);
      if i :| 0 <= i < |objs| && Target(objs[i]) == o.key {
        CStringNulFree(objs[i].key);
        assert false;
      }
    }
  }

  lemma PartlyFurther(m: Moment, now: Moment, m': Moment, objs: seq<Obj>)
    requires Partly(m, now, objs) && Partly(now, m', objs)
    ensures Partly(m, m', objs)
  {
    NotifiedWithin(m.dest, now.dest, objs, objs);
    hide Notified, Target, Arrival;
    forall k | k in m'.dest
      ensures Unchanged(m.dest, m'.dest, k) || Arrived(m'.dest, k, objs)
    {
      assert Unchanged(now.dest, m'.dest, k) || Arrived(m'.dest, k, objs);
      if Unchanged(now.dest, m'.dest, k) {
        assert Unchanged(m.dest, now.dest, k) || Arrived(now.dest, k, objs);
      }
    }
  }

  /** What arrives of a part, as the receiver sees it, arrives of all objects. */
  lemma PartlyClamped(m: Moment, m': Moment, objs: seq<Obj>, start: nat, end: nat)
    requires start <= end <= |objs| && Partly(m, m', ClampedAll(objs[start..end]))
    ensures Partly(m, m', objs)
  {
    var part := ClampedAll(objs[start..end]);
    forall i | 0 <= i < |part|
      ensures objs[start + i] in objs && part[i] == Clamped(objs[start + i])
    {}
    hide ClampedAll, Target;
    forall k | k in m'.dest
      ensures Unchanged(m.dest, m'.dest, k) || Arrived(m'.dest, k, objs)
    {
      assert Unchanged(m.dest, m'.dest, k) || Arrived(m'.dest, k, part);
      if i :| 0 <= i < |part| && Target(part[i]) == k && m'.dest[k] == Arrival(part[i]) {
        SameClamped(objs[start + i]);
      }
    }
  }

  lemma SameClamped(o: Obj)
    ensures Target(Clamped(o)) == Target(o) && Arrival(Clamped(o)) == Arrival(o)
  {}

  /** Each key of the source at the start is still there as it was, or at the destination. */
  ghost predicate NoLoss(start: Store, m: Moment)
  {
    forall k :: k in start ==> (k in m.source && m.source[k] == start[k]) || Holds(m.dest, k, start[k])
  }

  /** The destination holds a key with its value and its time to live. */
  ghost predicate Holds(dest: Store, k: Key, v: Stored)
  {
    k in dest && dest[k] == v
  }

  // ---------------------------------------------------------------- the two servers

  /** What a call of `DUMP` and `PTTL` gives. */
  datatype Dumped = Nothing | Failed | Object(obj: Obj)

  /** What a call of `UNLINK` gives: the integer 1 with a delete event, the integer 0 without one for a key that is not
      there, no reply or a null one, or anything else. */
  datatype Unlinked = Gone | Absent | Skipped | Refused

  /** The two servers, the slot index of the destination, every moment that they went through, the keys whose `UNLINK`
      had no reply, how many calls had none, and how many calls and connections failed. */
  class World {
    var source: Store
    var dest: Store
    var indexed: set<Key>
    ghost var history: seq<Moment>
    ghost var skipped: set<Key>
    ghost var passes: nat
    ghost var failures: nat

    constructor (source: Store, dest: Store, indexed: set<Key>)
      ensures Now() == Moment(source, dest, indexed) && history == [] && skipped == {} && passes == failures == 0
    {
      this.source, this.dest, this.indexed, history, skipped, passes, failures := source, dest, indexed, [], {}, 0, 0;
    }

    ghost function Now(): Moment
      reads this`source, this`dest, this`indexed
    {
      Moment(source, dest, indexed)
    }

    /** A connection is made, or a reply comes over it, or not. */
    method Reach() returns (ok: bool)
      modifies this`failures
      ensures failures == old(failures) + if ok then 0 else 1
    {
      ok := *;
      if !ok {
        failures := failures + 1;
      }
    }

    /** `dumpObj` */
    method Dump(key: Key) returns (r: Dumped)
      modifies this`failures
      ensures key !in source ==> r == Nothing || r == Failed
      ensures key in source ==> r == Failed || r == Object(Obj(key, source[key].ttlms, source[key].val))
      ensures failures == old(failures) + if r == Failed then 1 else 0
    {
      var ok := Reach();
      if !ok {
        return Failed;
      }
      if key !in source {
        return Nothing;
      }
      return Object(Obj(key, source[key].ttlms, source[key].val));
    }

    /** `restoreOneWithReplace`: the key is passed to `RESTORE` as a C string, and whole to `notifyOne`. */
    method RestoreOne(o: Obj) returns (ok: bool)
      modifies this`dest, this`indexed, this`history, this`failures
      ensures Now() == if ok then ReceivedOne(old(Now()), o) else old(Now())
      ensures failures == old(failures) + if ok then 0 else 1
      ensures history == if ok then old(history) + [Now()] else old(history)
    {
      ok := Reach();
      if !ok {
        return;
      }
      dest := dest[Target(o) := Arrival(o)];
      if o.key in dest {
        indexed := indexed + {o.key};
      }
      history := history + [Now()];
      return true;
    }

    /** `UNLINK` of one key. */
    method Unlink(key: Key) returns (r: Unlinked)
      modifies this`source, this`history, this`skipped, this`passes, this`failures
      ensures source == if r == Gone then old(source) - {key} else old(source)
      ensures (r == Gone ==> key in old(source)) && (r == Absent ==> key !in old(source))
      ensures history == if r == Gone then old(history) + [Now()] else old(history)
      ensures skipped == if r == Skipped then old(skipped) + {key} else old(skipped)
      ensures passes == old(passes) + (if r == Skipped then 1 else 0)
      ensures failures == old(failures) + (if r == Refused then 1 else 0)
    {
      var ok := Reach();
      if !ok {
        return Refused;
      }
      if * {
        skipped, passes := skipped + {key}, passes + 1;
        return Skipped;
      }
      if key !in source {
        return Absent;
      }
      source := source - {key};
      history := history + [Now()];
      return Gone;
    }
  }

  /** In all moments from place `n` on, only some of the objects had arrived since moment `m`. */
  ghost predicate Sending(history: seq<Moment>, n: nat, m: Moment, objs: seq<Obj>)
  {
    n <= |history| && forall i :: n <= i < |history| ==> Partly(m, history[i], objs)
  }

  // ---------------------------------------------------------------- the receiver

  /** `restoreMutli`: how many objects were restored before an error, if any. */
  method RestoreMulti(w: World, objs: seq<Obj>) returns (ret: int, ghost m: nat)
    modifies w`dest, w`indexed, w`history, w`failures
    ensures m <= |objs| && w.Now() == Received(old(w.Now()), objs[..m])
    ensures if ret == ERR then m < |objs| else ret == |objs| && m == |objs|
    ensures w.failures == old(w.failures) + if ret == ERR then 1 else 0
    ensures old(w.history) <= w.history && Sending(w.history, |old(w.history)|, old(w.Now()), objs)
  {
    hide ReceivedOne, Partly;
    ghost var start := w.Now();
    PartlyRefl(start, objs);
    var i := 0;
    while i < |objs|
      invariant i <= |objs| && w.Now() == Received(start, objs[..i]) && w.failures == old(w.failures)
      invariant old(w.history) <= w.history && Sending(w.history, |old(w.history)|, start, objs)
    {
      var ok := w.RestoreOne(objs[i]);
      if !ok {
        return ERR, i;
      }
      assert objs[..i + 1][..i] == objs[..i];
      PartlyReceived(start, start, objs, objs[..i + 1]);
      i := i + 1;
    }
    return |objs|, i;
  }

  /** The parsing loop of `slotsRestoreCmd`. */
  method ParseAll(argv: seq<Bytes>) returns (r: Option<seq<Obj>>)
    requires |argv| > 0 && (|argv| - 1) % 3 == 0
    ensures r == ParseTriples(argv[1..])
  {
    var n := (|argv| - 1) / 3;
    ghost var args := argv[1..];
    var objs := [];
    var i := 0;
    while i < n
      invariant i <= n && ParseTriples(args[..3 * i]) == Some(objs)
    {
      assert args[..3 * (i + 1)][..3 * i] == args[..3 * i];
      var ok, ttlms := String2ll(argv[i * 3 + 2]);
      if !ok {
        NoParse(args, i + 1);
        return None;
      }
      objs := objs + [Obj(argv[i * 3 + 1], ttlms, argv[i * 3 + 3])];
      i := i + 1;
    }
    assert args[..3 * i] == args;
    return Some(objs);
  }

  /** Arguments that do not parse spoil every longer vector. */
  lemma {:induction false} NoParse(args: seq<Bytes>, i: nat)
    requires |args| % 3 == 0 && 3 * i <= |args| && ParseTriples(args[..3 * i]) == None
    ensures ParseTriples(args) == None
    decreases |args|
  {
    if 3 * i == |args| {
      assert args[..3 * i] == args;
    } else {
      assert args[..|args| - 3][..3 * i] == args[..3 * i];
      NoParse(args[..|args| - 3], i);
    }
  }

  /** `slotsRestoreCmd`: nothing is restored unless all arguments parse. */
  method SlotsRestoreCmd(w: World, argv: seq<Bytes>) returns (ret: int, ghost m: nat)
    requires |argv| > 0 && (|argv| - 1) % 3 == 0
    modifies w`dest, w`indexed, w`history, w`failures
    ensures ParseTriples(argv[1..]) == None ==> ret == ERR && w.Now() == old(w.Now()) && w.history == old(w.history)
    ensures ParseTriples(argv[1..]) == None ==> w.failures == old(w.failures)
    ensures ParseTriples(argv[1..]).Some? ==>
      var objs := ParseTriples(argv[1..]).value;
      && m <= |objs| && w.Now() == Received(old(w.Now()), objs[..m])
      && (if ret == ERR then m < |objs| else ret == |objs| && m == |objs|)
      && w.failures == old(w.failures) + (if ret == ERR then 1 else 0)
      && Sending(w.history, |old(w.history)|, old(w.Now()), objs)
    ensures old(w.history) <= w.history
  {
    hide Received, Sending;
    var objs := ParseAll(argv);
    if objs == None {
      return ERR, 0;
    }
    ret, m := RestoreMulti(w, objs.value);
  }

  // ---------------------------------------------------------------- the sender

  const COMMAND: Bytes := [83, 76, 79, 84, 83, 82, 69, 83, 84, 79, 82, 69]
  const LONGSTR_SIZE: nat := 42

  /** The decimal form of a time to live, printed into a buffer of 42 bytes. */
  method TtlText(ttlms: int64) returns (text: Bytes)
    ensures text == Print(ttlms)
  {
    var buf := new byte[LONGSTR_SIZE];
    ShortEnough(ttlms);
    var length := Ll2string(buf, LONGSTR_SIZE, ttlms);
    text := buf[..length];
  }

  lemma ShortEnough(v: int)
    requires InRange(v)
    ensures |Print(v)| <= 20
  {
    var u: nat := if v < 0 then -v else v;
    if u > 0 && |Digits(u)| > 19 {
      DigitBounds(u);
      SmallPowers();
      Pow10Sum(12, 7);
      Pow10Sum(19, |Digits(u)| - 20);
      assert Pow10(19) * 1 <= Pow10(19) * Pow10(|Digits(u)| - 20);
    }
  }

  lemma NothingRestored(m: Moment, objs: seq<Obj>, start: nat, history: seq<Moment>)
    requires start <= |objs|
    ensures Received(m, objs[start..start]) == m && Partly(m, m, objs) && Sending(history, |history|, m, objs)
  {
    PartlyRefl(m, objs);
  }

  lemma SendingFurther(before: nat, now: seq<Moment>, after: seq<Moment>, m: Moment, m': Moment, objs: seq<Obj>)
    requires Sending(now, before, m, objs) && Partly(m, m', objs)
    requires now <= after && Sending(after, |now|, m', objs)
    ensures Sending(after, before, m, objs)
  {
    hide Partly;
    forall i | |now| <= i < |after|
      ensures Partly(m, after[i], objs)
    {
      PartlyFurther(m, m', after[i], objs);
    }
  }

  lemma SendingClamped(history: seq<Moment>, n: nat, m: Moment, objs: seq<Obj>, start: nat, end: nat)
    requires start <= end <= |objs| && Sending(history, n, m, ClampedAll(objs[start..end]))
    ensures Sending(history, n, m, objs)
  {
    hide Partly, ClampedAll;
    forall i | n <= i < |history|
      ensures Partly(m, history[i], objs)
    {
      PartlyClamped(m, history[i], objs, start, end);
    }
  }

  lemma PrefixReceived(now: Moment, objs: seq<Obj>, start: nat, end: nat, m: nat)
    requires start <= end <= |objs| && m <= end - start
    ensures |ClampedAll(objs[start..end])| == end - start
    ensures Received(now, ClampedAll(objs[start..end])[..m]) == Received(now, objs[start..start + m])
  {
    ReceivedClamped(now, objs[start..start + m]);
    assert ClampedAll(objs[start..end])[..m] == ClampedAll(objs[start..start + m]);
  }

  lemma ArgsNext(objs: seq<Obj>, i: nat)
    requires i < |objs|
    ensures Args(objs[..i + 1]) == Args(objs[..i]) + Triple(objs[i])
    ensures |Args(objs[..i])| == 3 * i
  {
    assert objs[..i + 1][..i] == objs[..i];
  }

  lemma BatchStart(objs: seq<Obj>)
    ensures SplitSoFar(objs, [0], 0, 0) && TotalSize(objs[0..0]) == 0
    ensures Args(objs[..0]) == []
  {}

  /** `doSplitRestoreCommand`: send one command. The connection may fail before the command arrives or before its reply
      does, and the receiver may answer with an error; `m` is how many objects were restored all the same. */
  method SendPart(w: World, argv: seq<Bytes>, start: nat, end: nat, ghost objs: seq<Obj>) returns (ret: int, ghost m: nat)
    requires start <= end <= |objs|
    requires 3 * end <= |argv| && argv[3 * start..3 * end] == Args(objs[start..end])
    modifies w`dest, w`indexed, w`history, w`failures
    ensures m <= end - start && w.Now() == Received(old(w.Now()), objs[start..start + m])
    ensures ret == ERR || (ret == end - start && m == end - start)
    ensures ret == ERR <==> w.failures > old(w.failures)
    ensures w.failures >= old(w.failures)
    ensures old(w.history) <= w.history && Sending(w.history, |old(w.history)|, old(w.Now()), objs)
  {
    hide Args, ParseTriples, Received, Sending, ClampedAll;
    ghost var before, history := w.Now(), w.history;
    NothingRestored(before, objs, start, history);
    var objCn := end - start;
    if objCn <= 0 {
      return 0, 0;
    }
    var subArgv := [COMMAND] + argv[3 * start..3 * end];
    assert subArgv[1..] == Args(objs[start..end]);
    ParseArgs(objs[start..end]);
    var reached := w.Reach();
    if !reached {
      return ERR, 0;
    }
    var reply;
    reply, m := SlotsRestoreCmd(w, subArgv);
    PrefixReceived(before, objs, start, end, m);
    SendingClamped(w.history, |history|, before, objs, start, end);
    var answered := w.Reach();
    if !answered {
      return ERR, m;
    }
    if reply == ERR {
      return ERR, m;
    }
    return objCn, m;
  }

  /** `BatchSend_SlotsRestore`: a command is sent whenever the arguments collected so far exceed the limit; the first error
      ends the batch. */
  method BatchSend(w: World, objs: seq<Obj>) returns (ret: int, ghost m: nat, ghost cuts: seq<nat>)
    modifies w`dest, w`indexed, w`history, w`failures
    ensures m <= |objs| && w.Now() == Received(old(w.Now()), objs[..m])
    ensures ret == ERR || (ret == |objs| && m == |objs| && (|objs| > 0 ==> IsSplit(objs, cuts)))
    ensures (ret == ERR <==> w.failures > old(w.failures)) && w.failures >= old(w.failures)
    ensures old(w.history) <= w.history && Sending(w.history, |old(w.history)|, old(w.Now()), objs)
  {
    hide Args, Received, Sending, SplitSoFar, TotalSize, IsSplit, Print, Partly;
    var argv: seq<Bytes> := [];
    var cmdSize, startPos := 0, 0;
    ghost var before, now := w.history, w.Now();
    cuts := [0];
    BatchStart(objs);
    NothingRestored(now, objs, 0, before);
    var i := 0;
    while i < |objs|
      invariant startPos <= i <= |objs| && argv == Args(objs[..i]) && |argv| == 3 * i
      invariant cmdSize == TotalSize(objs[startPos..i]) && SplitSoFar(objs, cuts, startPos, i)
      invariant w.Now() == Received(now, objs[..startPos]) && w.failures == old(w.failures)
      invariant before <= w.history && Sending(w.history, |before|, now, objs)
    {
      if cmdSize > CMD_PARAMS_SIZE {
        ret, m := SendNext(w, argv, startPos, i, objs, now, before);
        if ret == ERR {
          return;
        }
        CutHere(objs, cuts, startPos, i);
        cmdSize, startPos := 0, i;
        cuts := cuts + [i];
      } else {
        OneMoreObject(objs, cuts, startPos, i);
      }
      ArgsNext(objs, i);
      var text := ObjText(objs, i);
      argv := argv + [objs[i].key, text, objs[i].val];
      cmdSize := cmdSize + |objs[i].key| + |text| + |objs[i].val|;
      i := i + 1;
    }
    assert objs[..i] == objs;
    ret, m := SendNext(w, argv, startPos, i, objs, now, before);
    if |objs| > 0 { LastCut(objs, cuts, startPos); }
    cuts := cuts + [|objs|];
    if ret != ERR {
      ret := |objs|;
    }
  }

  /** The time to live of an object as it is sent. */
  method ObjText(objs: seq<Obj>, i: nat) returns (text: Bytes)
    requires i < |objs|
    ensures text == Print(Max0(objs[i].ttlms))
  {
    var ttlms: int64 := if objs[i].ttlms > 0 then objs[i].ttlms else 0;
    text := TtlText(ttlms);
  }

  /** Send the objects from `start` to `i - 1`, those before being restored. */
  method SendNext(w: World, argv: seq<Bytes>, start: nat, i: nat, ghost objs: seq<Obj>, ghost m0: Moment,
                  ghost before: seq<Moment>)
    returns (ret: int, ghost m: nat)
    requires start <= i <= |objs| && argv == Args(objs[..i])
    requires w.Now() == Received(m0, objs[..start])
    requires before <= w.history && Sending(w.history, |before|, m0, objs)
    modifies w`dest, w`indexed, w`history, w`failures
    ensures m <= i && w.Now() == Received(m0, objs[..m])
    ensures ret == ERR || (ret == i - start && m == i)
    ensures (ret == ERR <==> w.failures > old(w.failures)) && w.failures >= old(w.failures)
    ensures before <= w.history && Sending(w.history, |before|, m0, objs)
  {
    hide Received, Sending, Partly;
    PartOfArgs(objs, start, i);
    ghost var history, now, k := w.history, w.Now(), 0;
    ret, k := SendPart(w, argv, start, i, objs);
    ReceivedParts(m0, objs, start, start + k);
    PartlyRefl(m0, objs);
    PartlyReceived(m0, m0, objs, objs[..start]);
    SendingFurther(|before|, history, w.history, m0, now, objs);
    m := start + k;
  }

  lemma PartOfArgs(objs: seq<Obj>, start: nat, i: nat)
    requires start <= i <= |objs|
    ensures Args(objs[..i])[3 * start..3 * i] == Args(objs[start..i])
  {
    ArgsSlice(objs[..i], start, i);
    assert objs[..i][start..i] == objs[start..i];
  }

  lemma ReceivedParts(m: Moment, objs: seq<Obj>, a: nat, b: nat)
    requires a <= b <= |objs|
    ensures Received(Received(m, objs[..a]), objs[a..b]) == Received(m, objs[..b])
  {
    ReceivedCat(m, objs[..a], objs[a..b]);
    assert objs[..a] + objs[a..b] == objs[..b];
  }
}
