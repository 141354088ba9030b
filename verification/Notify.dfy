/**
  The slot index of all databases, kept by keyspace events: type changes, deletions, flushes, and
  the paired halves of renames and moves.
*/
module Notifications {
  import opened Wrappers
  import opened Keys
  import opened SlotIndexes
  import HashTable
  import Crc32
  import Dictionary
  import SkipLists

  // ---------------------------------------------------------------- the events and their plain meaning

  datatype Event =
    | TypeChange(db: nat, key: Key)
    | Deleted(db: nat, key: Key)
    | Expired(db: nat, key: Key)
    | RenameFrom(db: nat, key: Key)
    | RenameTo(db: nat, key: Key)
    | MoveFrom(db: nat, key: Key)
    | MoveTo(db: nat, key: Key)
    | OtherGeneric(db: nat, key: Key)
    | FlushOne(db: nat)
    | FlushAll
    | FlushEnd

  /** The plain set of (db, key): one set of keys for each database. */
  type Keyspace = seq<set<Key>>

  /** What is remembered between events: the key of a rename that waits for its second half, and the database that a key
      was last moved from, at first database 0. */
  datatype Pending = Pending(rename: Option<Key>, moveDb: nat)

  /** The event is about an existing database, and the second half of a rename has a first half to go with. */
  predicate Allowed(dbs: nat, p: Pending, e: Event)
  {
    p.moveDb < dbs && (e.RenameTo? ==> p.rename.Some?) && (e.FlushAll? || e.FlushEnd? || e.db < dbs)
  }

  /** The events of `NotifyGenericCallback`. */
  predicate IsGeneric(e: Event)
  {
    !(e.TypeChange? || e.FlushOne? || e.FlushAll? || e.FlushEnd?)
  }

  function With(s: Keyspace, db: nat, key: Key): Keyspace
    requires db < |s|
  {
    s[db := s[db] + {key}]
  }

  function Without(s: Keyspace, db: nat, key: Key): Keyspace
    requires db < |s|
  {
    s[db := s[db] - {key}]
  }

  function Moved(s: Keyspace, fromDb: nat, oldKey: Key, toDb: nat, newKey: Key): Keyspace
    requires fromDb < |s| && toDb < |s|
  {
    With(Without(s, fromDb, oldKey), toDb, newKey)
  }

  /** What an event does to the plain set: a rename or a move takes effect at its second half. */
  function Effect(s: Keyspace, p: Pending, e: Event): Keyspace
    requires Allowed(|s|, p, e)
  {
    match e
    case TypeChange(db, key) => With(s, db, key)
    case Deleted(db, key) => Without(s, db, key)
    case Expired(db, key) => Without(s, db, key)
    case RenameTo(db, key) => Moved(s, db, p.rename.value, db, key)
    case MoveTo(db, key) => Moved(s, p.moveDb, key, db, key)
    case FlushOne(db) => s[db := {}]
    case FlushAll => seq(|s|, i => {})
    case _ => s
  }

  /** What the events that are no halves do, in plain terms. */
  ghost predicate PlainEffect(before: Keyspace, after: Keyspace, e: Event)
  {
    && |after| == |before|
    && (e.TypeChange? ==> e.db < |before| && after == before[e.db := before[e.db] + {e.key}])
    && (e.Deleted? || e.Expired? ==> e.db < |before| && after == before[e.db := before[e.db] - {e.key}])
    && (e.FlushOne? ==> e.db < |before| && after == before[e.db := {}])
    && (e.FlushAll? ==> forall i :: 0 <= i < |after| ==> after[i] == {})
    && (e.FlushEnd? || e.OtherGeneric? || e.RenameFrom? || e.MoveFrom? ==> after == before)
  }

  /** An event adds at most one key to a database. */
  lemma OneMoreKey(s: Keyspace, p: Pending, e: Event)
    requires Allowed(|s|, p, e)
    ensures |Effect(s, p, e)| == |s|
    ensures forall i :: 0 <= i < |s| ==> |Effect(s, p, e)[i]| <= |s[i]| + 1
  {}

  function Awaited(p: Pending, e: Event): Pending
  {
    match e
    case RenameFrom(db, key) => p.(rename := Some(key))
    case RenameTo(_, _) => p.(rename := None)
    case MoveFrom(db, key) => p.(moveDb := db)
    case _ => p
  }

  /** All events of a run are allowed. */
  predicate AllowedRun(dbs: nat, p: Pending, events: seq<Event>)
    decreases |events|
  {
    events == [] || (Allowed(dbs, p, events[0]) && AllowedRun(dbs, Awaited(p, events[0]), events[1..]))
  }

  function EffectOfRun(s: Keyspace, p: Pending, events: seq<Event>): (r: Keyspace)
    requires AllowedRun(|s|, p, events)
    ensures |r| == |s|
    decreases |events|
  {
    if events == [] then s else EffectOfRun(Effect(s, p, events[0]), Awaited(p, events[0]), events[1..])
  }

  function AwaitedAfter(p: Pending, events: seq<Event>): Pending
    decreases |events|
  {
    if events == [] then p else AwaitedAfter(Awaited(p, events[0]), events[1..])
  }

  lemma {:induction false} RunsJoin(s: Keyspace, p: Pending, a: seq<Event>, b: seq<Event>)
    ensures AllowedRun(|s|, p, a + b) <==> AllowedRun(|s|, p, a) && AllowedRun(|s|, AwaitedAfter(p, a), b)
    ensures AllowedRun(|s|, p, a + b) ==>
      EffectOfRun(s, p, a + b) == EffectOfRun(EffectOfRun(s, p, a), AwaitedAfter(p, a), b)
    ensures AwaitedAfter(p, a + b) == AwaitedAfter(AwaitedAfter(p, a), b)
    decreases |a|
  {
    hide Allowed, Effect, Awaited;
    if a == [] {
      assert a + b == b;
    } else {
      assert (a + b)[1..] == a[1..] + b;
      if Allowed(|s|, p, a[0]) {
        SameDatabases(s, p, a[0]);
        RunsJoin(Effect(s, p, a[0]), Awaited(p, a[0]), a[1..], b);
      } else {
        NextAwaited(p, a, b);
      }
    }
  }

  lemma SameDatabases(s: Keyspace, p: Pending, e: Event)
    requires Allowed(|s|, p, e)
    ensures |Effect(s, p, e)| == |s|
  {}

  lemma {:induction false} NextAwaited(p: Pending, a: seq<Event>, b: seq<Event>)
    ensures AwaitedAfter(p, a + b) == AwaitedAfter(AwaitedAfter(p, a), b)
    decreases |a|
  {
    hide Awaited;
    if a == [] {
      assert a + b == b;
    } else {
      assert (a + b)[1..] == a[1..] + b;
      NextAwaited(Awaited(p, a[0]), a[1..], b);
    }
  }

  /** No half of a rename. */
  predicate NoRename(events: seq<Event>)
  {
    forall i :: 0 <= i < |events| ==> !events[i].RenameFrom? && !events[i].RenameTo?
  }

  /** No first half of a move. */
  predicate NoMoveFrom(events: seq<Event>)
  {
    forall i :: 0 <= i < |events| ==> !events[i].MoveFrom?
  }

  /** Events that are no half of a rename do not see whether one waits; those that are no first half of a move leave the
      database of the last one. */
  lemma {:induction false} OtherEvents(s: Keyspace, p: Pending, p': Pending, events: seq<Event>)
    requires p'.moveDb == p.moveDb
    ensures NoRename(events) ==> AwaitedAfter(p, events).rename == p.rename
    ensures NoRename(events) ==> (AllowedRun(|s|, p, events) <==> AllowedRun(|s|, p', events))
    ensures NoRename(events) && AllowedRun(|s|, p, events) ==> EffectOfRun(s, p, events) == EffectOfRun(s, p', events)
    ensures NoMoveFrom(events) ==> AwaitedAfter(p, events).moveDb == p.moveDb
    decreases |events|
  {
    if events != [] {
      var e := events[0];
      var s' := if Allowed(|s|, p, e) then Effect(s, p, e) else s;
      OtherEvents(s', Awaited(p, e), Awaited(p', e), events[1..]);
    }
  }

  /** A rename whose halves are in one database has its plain effect at the second half, whatever other events come in
      between, moves included, and whatever halves came before. */
  lemma RenameWhole(s: Keyspace, p: Pending, db: nat, from: Key, to: Key, between: seq<Event>)
    requires NoRename(between) && AllowedRun(|s|, p, [RenameFrom(db, from)] + between + [RenameTo(db, to)])
    ensures AllowedRun(|s|, p, between)
    ensures EffectOfRun(s, p, [RenameFrom(db, from)] + between + [RenameTo(db, to)]) ==
      Moved(EffectOfRun(s, p, between), db, from, db, to)
  {
    hide Moved;
    var first, p', last := RenameFrom(db, from), p.(rename := Some(from)), RenameTo(db, to);
    Alone(s, p, first);
    RunsJoin(s, p, [first] + between, [last]);
    RunsJoin(s, p, [first], between);
    OtherEvents(s, p', p, between);
    Alone(EffectOfRun(s, p', between), AwaitedAfter(p', between), last);
  }

  /** So has a move, at its second half, when no other move starts in between. */
  lemma MoveWhole(s: Keyspace, p: Pending, fromDb: nat, toDb: nat, key: Key, between: seq<Event>)
    requires NoMoveFrom(between) && AllowedRun(|s|, p, [MoveFrom(fromDb, key)] + between + [MoveTo(toDb, key)])
    ensures AllowedRun(|s|, p.(moveDb := fromDb), between) && fromDb < |s| && toDb < |s|
    ensures EffectOfRun(s, p, [MoveFrom(fromDb, key)] + between + [MoveTo(toDb, key)]) ==
      Moved(EffectOfRun(s, p.(moveDb := fromDb), between), fromDb, key, toDb, key)
  {
    hide Moved;
    var first, p', last := MoveFrom(fromDb, key), p.(moveDb := fromDb), MoveTo(toDb, key);
    Alone(s, p, first);
    RunsJoin(s, p, [first] + between, [last]);
    RunsJoin(s, p, [first], between);
    OtherEvents(s, p', p', between);
    Alone(EffectOfRun(s, p', between), AwaitedAfter(p', between), last);
  }

  lemma Alone(s: Keyspace, p: Pending, e: Event)
    ensures AllowedRun(|s|, p, [e]) <==> Allowed(|s|, p, e)
    ensures Allowed(|s|, p, e) ==> EffectOfRun(s, p, [e]) == Effect(s, p, e)
    ensures AwaitedAfter(p, [e]) == Awaited(p, e)
  {
    assert [e][1..] == [];
  }

  // ---------------------------------------------------------------- the last event decides

  /** The key of the last first half of a rename before event `i` that waits for its second half. */
  function LastRename(events: seq<Event>, i: nat, start: Option<Key>): Option<Key>
    requires i <= |events|
  {
    if i == 0 then start
    else if events[i - 1].RenameFrom? then Some(events[i - 1].key)
    else if events[i - 1].RenameTo? then None
    else LastRename(events, i - 1, start)
  }

  /** The database of the last first half of a move before event `i`. */
  function LastMove(events: seq<Event>, i: nat, start: nat): nat
    requires i <= |events|
  {
    if i == 0 then start
    else if events[i - 1].MoveFrom? then events[i - 1].db
    else LastMove(events, i - 1, start)
  }

  /** Event `i` puts key `k` into database `db`. */
  predicate Puts(events: seq<Event>, i: nat, db: nat, k: Key)
    requires i < |events|
  {
    events[i] == TypeChange(db, k) || events[i] == RenameTo(db, k) || events[i] == MoveTo(db, k)
  }

  /** Event `i` takes key `k` out of database `db`. */
  predicate Takes(p: Pending, events: seq<Event>, i: nat, db: nat, k: Key)
    requires i < |events|
  {
    var e := events[i];
    || e == Deleted(db, k) || e == Expired(db, k) || e == FlushOne(db) || e == FlushAll
    || (e.RenameTo? && e.db == db && e.key != k && LastRename(events, i, p.rename) == Some(k))
    || (e.MoveTo? && e.key == k && e.db != db && LastMove(events, i, p.moveDb) == db)
  }

  /** Key `k` was put into database `db`, or was there before, and nothing has taken it out since. */
  ghost predicate Indexed(s: Keyspace, p: Pending, events: seq<Event>, db: nat, k: Key)
    requires db < |s|
  {
    || (k in s[db] && forall j :: 0 <= j < |events| ==> !Takes(p, events, j, db, k))
    || exists i :: PutLast(p, events, i, db, k)
  }

  ghost predicate PutLast(p: Pending, events: seq<Event>, i: int, db: nat, k: Key)
  {
    && 0 <= i < |events| && Puts(events, i, db, k)
    && forall j :: i < j < |events| ==> !Takes(p, events, j, db, k)
  }

  lemma {:induction false} AwaitedIs(p: Pending, events: seq<Event>)
    ensures AwaitedAfter(p, events) == Pending(LastRename(events, |events|, p.rename), LastMove(events, |events|, p.moveDb))
    decreases |events|
  {
    if events != [] {
      var front, e := events[..|events| - 1], events[|events| - 1];
      AwaitedIs(p, front);
      assert events == front + [e];
      NextAwaited(p, front, [e]);
      AwaitedOne(AwaitedAfter(p, front), e);
      PrefixLast(events, front, |front|, p);
    }
  }

  lemma AwaitedOne(p: Pending, e: Event)
    ensures AwaitedAfter(p, [e]) == Awaited(p, e)
  {
    assert [e][1..] == [];
  }

  lemma {:induction false} PrefixLast(events: seq<Event>, front: seq<Event>, i: nat, p: Pending)
    requires i <= |front| <= |events| && front == events[..|front|]
    ensures LastRename(events, i, p.rename) == LastRename(front, i, p.rename)
    ensures LastMove(events, i, p.moveDb) == LastMove(front, i, p.moveDb)
  {
    if i > 0 { PrefixLast(events, front, i - 1, p); }
  }

  lemma PrefixSame(p: Pending, events: seq<Event>, front: seq<Event>, i: nat, db: nat, k: Key)
    requires i < |front| <= |events| && front == events[..|front|]
    ensures Puts(events, i, db, k) == Puts(front, i, db, k) && Takes(p, events, i, db, k) == Takes(p, front, i, db, k)
  {
    PrefixLast(events, front, i, p);
    hide LastRename, LastMove;
  }

  /** One more event: whether a key is indexed changes only as the event puts it there or takes it out. */
  lemma IndexedNext(s: Keyspace, p: Pending, front: seq<Event>, e: Event, db: nat, k: Key)
    requires db < |s|
    ensures var events := front + [e]; var n := |front|;
      Indexed(s, p, events, db, k) <==>
        Puts(events, n, db, k) || (Indexed(s, p, front, db, k) && !Takes(p, events, n, db, k))
  {
    var events, n := front + [e], |front|;
    assert front == events[..n];
    forall i: nat | i < n
      ensures Puts(events, i, db, k) == Puts(front, i, db, k) && Takes(p, events, i, db, k) == Takes(p, front, i, db, k)
    {
      PrefixSame(p, events, front, i, db, k);
    }
    hide Puts, Takes;
    if Puts(events, n, db, k) { assert PutLast(p, events, n, db, k); }
    if i :| PutLast(p, events, i, db, k) {
      if i < n {
        assert !Takes(p, events, n, db, k);
        assert PutLast(p, front, i, db, k);
      }
    }
    if i :| PutLast(p, front, i, db, k) {
      if !Takes(p, events, n, db, k) { assert PutLast(p, events, i, db, k); }
    }
    if k in s[db] && forall j :: 0 <= j < |events| ==> !Takes(p, events, j, db, k) {
      assert !Takes(p, events, n, db, k);
      assert forall j :: 0 <= j < |front| ==> Takes(p, events, j, db, k) == Takes(p, front, j, db, k);
    }
  }

  /** What an event does to one key of one database. */
  lemma EffectOnKey(s: Keyspace, p: Pending, events: seq<Event>, n: nat, q: Pending, db: nat, k: Key)
    requires n < |events| && db < |s| && Allowed(|s|, q, events[n])
    requires q == Pending(LastRename(events, n, p.rename), LastMove(events, n, p.moveDb))
    ensures k in Effect(s, q, events[n])[db] <==> Puts(events, n, db, k) || (k in s[db] && !Takes(p, events, n, db, k))
  {
    hide LastRename, LastMove;
  }

  /** After a run, a key is indexed in a database exactly when the last event that concerns it put it there, or when none
      does and it was there before. */
  lemma {:induction false} LastEventDecides(s: Keyspace, p: Pending, events: seq<Event>, db: nat, k: Key)
    requires AllowedRun(|s|, p, events) && db < |s|
    ensures k in EffectOfRun(s, p, events)[db] <==> Indexed(s, p, events, db, k)
    decreases |events|
  {
    if events != [] {
      var front, e := events[..|events| - 1], events[|events| - 1];
      assert events == front + [e];
      RunsJoin(s, p, front, [e]);
      LastEventDecides(s, p, front, db, k);
      var s', q := EffectOfRun(s, p, front), AwaitedAfter(p, front);
      Alone(s', q, e);
      AwaitedIs(p, front);
      PrefixLast(events, front, |front|, p);
      hide Puts, Takes, Indexed, Effect, EffectOfRun, AwaitedAfter, LastRename, LastMove, Allowed, AllowedRun;
      EffectOnKey(s', p, events, |front|, q, db, k);
      IndexedNext(s, p, front, e, db, k);
    }
  }

  // ---------------------------------------------------------------- all databases

  /** The objects of one database. */
  ghost function InfoRepr(info: DbInfo): set<object>
    reads info
  {
    {info, info.list} + (set t: Dict | t in info.tables) + info.owner.Keys
  }

  ghost predicate InfosOwned(infos: seq<DbInfo>, owner: map<object, int>)
    reads infos
  {
    forall i :: 0 <= i < |infos| ==> OwnedBy(InfoRepr(infos[i]), owner, i)
  }

  ghost predicate InfosValid(infos: seq<DbInfo>, owner: map<object, int>, tab: array<bv32>)
    reads infos, owner.Keys, tab
  {
    InfosOwned(infos, owner) && tab !in owner
    && forall i :: 0 <= i < |infos| ==> infos[i].tab == tab && infos[i].Valid()
  }

  ghost function KeysOf(infos: seq<DbInfo>): (s: Keyspace)
    reads infos`Keys
    ensures |s| == |infos| && forall i :: 0 <= i < |infos| ==> s[i] == infos[i].Keys
  {
    if infos == [] then [] else KeysOf(infos[..|infos| - 1]) + [infos[|infos| - 1].Keys]
  }

  /** Other databases share no object with database `db`. */
  lemma OtherInfosApart(infos: seq<DbInfo>, owner: map<object, int>, db: nat)
    requires InfosOwned(infos, owner) && db < |infos|
    ensures forall i :: 0 <= i < |infos| && i != db ==> InfoRepr(infos[i]) !! InfoRepr(infos[db])
  {
    forall i | 0 <= i < |infos| && i != db
      ensures InfoRepr(infos[i]) !! InfoRepr(infos[db])
    {
      DisjointOwned(owner, InfoRepr(infos[i]), InfoRepr(infos[db]), i, db);
    }
  }

  lemma StillOwnsInfos(infos: seq<DbInfo>, owner: map<object, int>, db: nat, before: set<object>)
    requires db < |infos| && OwnedBy(before, owner, db)
    requires forall i :: 0 <= i < |infos| && i != db ==> OwnedBy(InfoRepr(infos[i]), owner, i)
    requires forall o :: o in InfoRepr(infos[db]) ==> o in before || o !in owner
    ensures InfosOwned(infos, Claim(owner, InfoRepr(infos[db]), db))
  {
    hide OwnedBy, Claim, InfoRepr;
    ClaimOwned(owner, before, InfoRepr(infos[db]), db);
    forall i | 0 <= i < |infos| && i != db
      ensures OwnedBy(InfoRepr(infos[i]), Claim(owner, InfoRepr(infos[db]), db), i)
    {
      OthersOwned(owner, InfoRepr(infos[i]), i, before, InfoRepr(infos[db]), db);
    }
  }

  /** What an object set of a valid database is made of. */
  lemma ReprKnown(info: DbInfo)
    requires info.Valid()
    ensures InfoRepr(info) == {info} + info.owner.Keys && info !in info.owner
  {
    hide Dictionary.Dict.Valid, SkipLists.SkipList.Valid, SkipLists.SkipList.Items;
  }

  /** `Slots_Add` in one of the databases. */
  method AddIn(infos: seq<DbInfo>, db: nat, key: Key, canResize: bool, tab: array<bv32>, ghost owner: map<object, int>)
    returns (ghost owner': map<object, int>)
    requires InfosValid(infos, owner, tab) && db < |infos| && |infos[db].Keys| <= HashTable.LONG_MAX
    modifies InfoRepr(infos[db])
    ensures InfosValid(infos, owner', tab) && KeysOf(infos) == With(old(KeysOf(infos)), db, key)
    ensures Extends(owner, owner') && forall o :: o in owner' ==> o in owner || fresh(o)
  {
    hide DbInfo.Valid, OwnedBy, Claim, Extends;
    ghost var before := InfoRepr(infos[db]);
    OtherInfosApart(infos, owner, db);
    OwnedKeys(owner, before, db);
    ReprKnown(infos[db]);
    infos[db].Add(key, canResize);
    ReprKnown(infos[db]);
    StillOwnsInfos(infos, owner, db, before);
    ClaimExtends(owner, before, InfoRepr(infos[db]), db);
    owner' := Claim(owner, InfoRepr(infos[db]), db);
  }

  /** `Slots_Del` in one of the databases. */
  method DelIn(infos: seq<DbInfo>, db: nat, key: Key, tab: array<bv32>, ghost owner: map<object, int>)
    returns (ghost owner': map<object, int>)
    requires InfosValid(infos, owner, tab) && db < |infos|
    modifies InfoRepr(infos[db])
    ensures InfosValid(infos, owner', tab) && KeysOf(infos) == Without(old(KeysOf(infos)), db, key)
    ensures Extends(owner, owner') && forall o :: o in owner' ==> o in owner || fresh(o)
  {
    hide DbInfo.Valid, OwnedBy, Claim, Extends;
    ghost var before := InfoRepr(infos[db]);
    OtherInfosApart(infos, owner, db);
    OwnedKeys(owner, before, db);
    ReprKnown(infos[db]);
    infos[db].Del(key);
    ReprKnown(infos[db]);
    StillOwnsInfos(infos, owner, db, before);
    ClaimExtends(owner, before, InfoRepr(infos[db]), db);
    owner' := Claim(owner, InfoRepr(infos[db]), db);
  }

  /** The body of `FlushdbCallback` for one database. */
  method FlushIn(infos: seq<DbInfo>, db: nat, tab: array<bv32>, ghost owner: map<object, int>)
    returns (ghost owner': map<object, int>)
    requires InfosValid(infos, owner, tab) && db < |infos|
    modifies InfoRepr(infos[db])
    ensures InfosValid(infos, owner', tab) && KeysOf(infos) == old(KeysOf(infos))[db := {}]
    ensures Extends(owner, owner') && forall o :: o in owner' ==> o in owner || fresh(o)
  {
    hide DbInfo.Valid, OwnedBy, Claim, Extends;
    ghost var before := InfoRepr(infos[db]);
    OtherInfosApart(infos, owner, db);
    OwnedKeys(owner, before, db);
    ReprKnown(infos[db]);
    infos[db].Flush();
    ReprKnown(infos[db]);
    StillOwnsInfos(infos, owner, db, before);
    ClaimExtends(owner, before, InfoRepr(infos[db]), db);
    owner' := Claim(owner, InfoRepr(infos[db]), db);
  }

  // ---------------------------------------------------------------- the callbacks

  datatype CmdFlag = CMD_NONE | CMD_RENAME | CMD_MOVE

  /** `db_slot_infos` and the static variables of `NotifyGenericCallback`. */
  class Index {
    const tab: array<bv32>
    const infos: seq<DbInfo>
    const canResize: bool

    var fromKey: Option<Key>
    var toKey: Option<Key>
    var fromDbid: nat
    var toDbid: nat
    var cmdFlag: CmdFlag

    ghost var owner: map<object, int>

    ghost predicate Sound()
      reads this`owner, infos, owner.Keys, tab
    {
      this !in owner && InfosValid(infos, owner, tab)
    }

    /** What the static variables remember. */
    function Remembered(): Pending
      reads this`fromKey, this`fromDbid
    {
      Pending(fromKey, fromDbid)
    }

    ghost predicate Valid()
      reads this, infos, owner.Keys, tab
    {
      Sound() && cmdFlag == CMD_NONE
    }

    ghost function Keyspace(): Keyspace
      reads infos`Keys
    {
      KeysOf(infos)
    }

    constructor (tab: array<bv32>, infos: seq<DbInfo>, canResize: bool, ghost owner: map<object, int>)
      requires InfosValid(infos, owner, tab)
      ensures Valid() && this.infos == infos && Remembered() == Pending(None, 0)
    {
      hide DbInfo.Valid, InfosOwned;
      this.tab, this.infos, this.canResize, this.owner := tab, infos, canResize, owner;
      fromKey, toKey, fromDbid, toDbid, cmdFlag := None, None, 0, 0, CMD_NONE;
    }

    /** `Slots_Add` */
    method Add(db: nat, key: Key)
      requires Sound() && db < |infos| && |Keyspace()[db]| <= HashTable.LONG_MAX
      modifies this`owner, owner.Keys
      ensures Sound() && Keyspace() == With(old(Keyspace()), db, key)
      ensures forall o :: o in owner ==> o in old(owner) || fresh(o)
      ensures unchanged(`fromKey, `toKey, `fromDbid, `toDbid, `cmdFlag)
    {
      hide DbInfo.Valid, OwnedBy, KeysOf, Extends;
      OwnedKeys(owner, InfoRepr(infos[db]), db);
      owner := AddIn(infos, db, key, canResize, tab, owner);
    }

    /** `Slots_Del` */
    method Del(db: nat, key: Key)
      requires Sound() && db < |infos|
      modifies this`owner, owner.Keys
      ensures Sound() && Keyspace() == Without(old(Keyspace()), db, key)
      ensures forall o :: o in owner ==> o in old(owner) || fresh(o)
      ensures unchanged(`fromKey, `toKey, `fromDbid, `toDbid, `cmdFlag)
    {
      hide DbInfo.Valid, OwnedBy, KeysOf, Extends;
      OwnedKeys(owner, InfoRepr(infos[db]), db);
      owner := DelIn(infos, db, key, tab, owner);
    }

    /** One database of `FlushdbCallback`. */
    method FlushDb(db: nat)
      requires Sound() && db < |infos|
      modifies this`owner, owner.Keys
      ensures Sound() && Keyspace() == old(Keyspace())[db := {}]
      ensures forall o :: o in owner ==> o in old(owner) || fresh(o)
      ensures unchanged(`fromKey, `toKey, `fromDbid, `toDbid, `cmdFlag)
    {
      hide DbInfo.Valid, OwnedBy, KeysOf, Extends;
      OwnedKeys(owner, InfoRepr(infos[db]), db);
      owner := FlushIn(infos, db, tab, owner);
    }

    /** `FlushdbCallback`; `start` is whether the event announces the start of a flush, and `dbnum` is -1 for all. */
    method Flushdb(start: bool, dbnum: int)
      requires Sound() && -1 <= dbnum < |infos|
      modifies this`owner, owner.Keys
      ensures Sound()
      ensures Keyspace() == if !start then old(Keyspace())
                            else if dbnum == -1 then seq(|infos|, i => {}) else old(Keyspace())[dbnum := {}]
      ensures forall o :: o in owner ==> o in old(owner) || fresh(o)
      ensures unchanged(`fromKey, `toKey, `fromDbid, `toDbid, `cmdFlag)
    {
      if !start {
        return;
      }
      hide Sound;
      if dbnum != -1 {
        FlushDb(dbnum);
        return;
      }
      FlushEvery();
    }

    /** The loop of `FlushdbCallback` over the databases. */
    method FlushEvery()
      requires Sound()
      modifies this`owner, owner.Keys
      ensures Sound() && Keyspace() == seq(|infos|, i => {})
      ensures forall o :: o in owner ==> o in old(owner) || fresh(o)
      ensures unchanged(`fromKey, `toKey, `fromDbid, `toDbid, `cmdFlag)
    {
      hide Sound, KeysOf;
      ghost var objects := owner;
      var db := 0;
      while db < |infos|
        invariant Sound() && db <= |infos| == |Keyspace()|
        invariant forall i :: 0 <= i < db ==> Keyspace()[i] == {}
        invariant forall o :: o in owner ==> o in objects || fresh(o)
        invariant unchanged(`fromKey, `toKey, `fromDbid, `toDbid, `cmdFlag)
      {
        FlushDb(db);
        db := db + 1;
      }
    }

    /** `NotifyTypeChangeCallback` */
    method NotifyTypeChange(db: nat, key: Key)
      requires Valid() && db < |infos| && |Keyspace()[db]| <= HashTable.LONG_MAX
      modifies this`owner, owner.Keys
      ensures Valid() && Keyspace() == With(old(Keyspace()), db, key)
      ensures forall o :: o in owner ==> o in old(owner) || fresh(o)
      ensures unchanged(`fromKey, `toKey, `fromDbid, `toDbid, `cmdFlag)
    {
      hide Sound;
      Add(db, key);
    }

    /** The second half of a rename or a move, with `cmdFlag` set: `Slots_Del` of the old place, `Slots_Add` of the new. */
    method MoveKey(fromDb: nat, oldKey: Key, toDb: nat, newKey: Key)
      requires Sound() && fromDb < |infos| && toDb < |infos| && |Keyspace()[toDb]| <= HashTable.LONG_MAX
      modifies this`owner, owner.Keys
      ensures Sound() && Keyspace() == Moved(old(Keyspace()), fromDb, oldKey, toDb, newKey)
      ensures forall o :: o in owner ==> o in old(owner) || fresh(o)
      ensures unchanged(`fromKey, `toKey, `fromDbid, `toDbid, `cmdFlag)
    {
      hide Sound, KeysOf;
      FewerAfterRemoval(Keyspace()[toDb], oldKey);
      Del(fromDb, oldKey);
      Add(toDb, newKey);
    }

    lemma FewerAfterRemoval(keys: set<Key>, key: Key)
      ensures |keys - {key}| <= |keys|
    {}

    /** `NotifyGenericCallback` */
    method NotifyGeneric(e: Event)
      requires Valid() && IsGeneric(e) && Allowed(|infos|, Remembered(), e)
      requires e.db < |infos| && |Keyspace()[e.db]| <= HashTable.LONG_MAX
      modifies this, owner.Keys
      ensures Valid() && Remembered() == Awaited(old(Remembered()), e)
      ensures Keyspace() == Effect(old(Keyspace()), old(Remembered()), e)
      ensures PlainEffect(old(Keyspace()), Keyspace(), e)
      ensures forall o :: o in owner ==> o in old(owner) || fresh(o)
    {
      hide KeysOf, Sound, Moved;
      NotOwned();
      var dbid, key := e.db, e.key;
      if e.Deleted? || e.Expired? {
        Del(dbid, key);
        return;
      }
      SaveHalf(e);
      if cmdFlag != CMD_NONE {
        FireHalf(dbid, key);
      }
    }

    lemma NotOwned()
      requires Sound()
      ensures this !in owner
    {}

    /** The part of `NotifyGenericCallback` that remembers a half. */
    method SaveHalf(e: Event)
      requires IsGeneric(e) && cmdFlag == CMD_NONE
      modifies `fromKey, `toKey, `fromDbid, `toDbid, `cmdFlag
      ensures fromKey == if e.RenameFrom? then Some(e.key) else old(fromKey)
      ensures toKey == if e.RenameTo? then Some(e.key) else old(toKey)
      ensures fromDbid == if e.MoveFrom? then e.db else old(fromDbid)
      ensures toDbid == if e.MoveTo? then e.db else old(toDbid)
      ensures cmdFlag == if e.RenameTo? then CMD_RENAME else if e.MoveTo? then CMD_MOVE else CMD_NONE
    {
      if e.RenameFrom? {
        fromKey := Some(e.key);
      } else if e.RenameTo? {
        toKey := Some(e.key);
        cmdFlag := CMD_RENAME;
      } else if e.MoveFrom? {
        fromDbid := e.db;
      } else if e.MoveTo? {
        toDbid := e.db;
        cmdFlag := CMD_MOVE;
      }
    }

    /** The part of `NotifyGenericCallback` after a second half. */
    method FireHalf(dbid: nat, key: Key)
      requires Sound() && cmdFlag != CMD_NONE && dbid < |infos|
      requires cmdFlag == CMD_RENAME ==> fromKey.Some? && toKey.Some? && |Keyspace()[dbid]| <= HashTable.LONG_MAX
      requires cmdFlag == CMD_MOVE ==>
        fromDbid < |infos| && toDbid < |infos| && |Keyspace()[toDbid]| <= HashTable.LONG_MAX
      modifies this, owner.Keys
      ensures Sound() && cmdFlag == CMD_NONE && unchanged(`fromDbid)
      ensures fromKey == if old(cmdFlag) == CMD_RENAME then None else old(fromKey)
      ensures old(cmdFlag) == CMD_RENAME ==>
        Keyspace() == Moved(old(Keyspace()), dbid, old(fromKey.value), dbid, old(toKey.value))
      ensures old(cmdFlag) == CMD_MOVE ==> Keyspace() == Moved(old(Keyspace()), old(fromDbid), key, old(toDbid), key)
      ensures forall o :: o in owner ==> o in old(owner) || fresh(o)
    {
      hide KeysOf, Sound, Moved;
      var localFromKey, localToKey, localFromDbid, localToDbid;
      if cmdFlag == CMD_RENAME {
        localFromKey, localToKey := fromKey.value, toKey.value;
        localFromDbid, localToDbid := dbid, dbid;
      } else {
        localFromKey, localToKey := key, key;
        localFromDbid, localToDbid := fromDbid, toDbid;
      }
      MoveKey(localFromDbid, localFromKey, localToDbid, localToKey);
      NotOwned();
      if cmdFlag == CMD_RENAME {
        toKey := None;
        fromKey := None;
      }
      cmdFlag := CMD_NONE;
    }

    /** One handled event. */
    method Handle(e: Event)
      requires Valid() && Allowed(|infos|, Remembered(), e)
      requires forall i :: 0 <= i < |infos| ==> |Keyspace()[i]| <= HashTable.LONG_MAX
      modifies this, owner.Keys
      ensures Valid() && Remembered() == Awaited(old(Remembered()), e)
      ensures Keyspace() == Effect(old(Keyspace()), old(Remembered()), e)
      ensures PlainEffect(old(Keyspace()), Keyspace(), e)
      ensures forall o :: o in owner ==> o in old(owner) || fresh(o)
    {
      hide Sound, KeysOf;
      match e {
        case TypeChange(db, key) => NotifyTypeChange(db, key);
        case FlushOne(db) => Flushdb(true, db);
        case FlushAll => Flushdb(true, -1);
        case FlushEnd => Flushdb(false, -1);
        case _ => NotifyGeneric(e);
      }
    }

    /** Every run of allowed events keeps the index in agreement with the plain set of (db, key). */
    method Run(events: seq<Event>)
      requires Valid() && AllowedRun(|infos|, Remembered(), events)
      requires forall i :: 0 <= i < |infos| ==> |Keyspace()[i]| + |events| <= HashTable.LONG_MAX
      modifies this, owner.Keys
      ensures Valid() && Keyspace() == EffectOfRun(old(Keyspace()), old(Remembered()), events)
      ensures Remembered() == AwaitedAfter(old(Remembered()), events)
      ensures forall db: nat, k: Key :: db < |infos| ==>
        (k in Keyspace()[db] <==> Indexed(old(Keyspace()), old(Remembered()), events, db, k))
    {
      hide Sound, KeysOf;
      ghost var objects, goal := owner, EffectOfRun(Keyspace(), Remembered(), events);
      ghost var last, s0, p0 := AwaitedAfter(Remembered(), events), Keyspace(), Remembered();
      var i := 0;
      while i < |events|
        invariant i <= |events| && Valid() && AllowedRun(|infos|, Remembered(), events[i..])
        invariant |Keyspace()| == |infos| && EffectOfRun(Keyspace(), Remembered(), events[i..]) == goal
        invariant AwaitedAfter(Remembered(), events[i..]) == last
        invariant forall j :: 0 <= j < |infos| ==> |Keyspace()[j]| + (|events| - i) <= HashTable.LONG_MAX
        invariant forall o :: o in owner ==> o in objects || fresh(o)
      {
        assert events[i..][1..] == events[i + 1..];
        OneMoreKey(Keyspace(), Remembered(), events[i]);
        Handle(events[i]);
        i := i + 1;
      }
      forall db: nat, k: Key | db < |infos|
        ensures k in Keyspace()[db] <==> Indexed(s0, p0, events, db, k)
      {
        LastEventDecides(s0, p0, events, db, k);
      }
    }
  }

  /** What `Slots_Init` sets up: the table of the checksum, and an empty index for each database. */
  method NewIndex(databases: nat, size: nat, hash: HashTable.Hash, canResize: bool) returns (index: Index)
    requires databases > 0 && size > 0
    ensures fresh(index) && index.Valid() && |index.infos| == databases && index.Remembered() == Pending(None, 0)
    ensures index.Keyspace() == seq(databases, i => {})
    ensures forall i :: 0 <= i < databases ==> index.infos[i].size == size
  {
    hide DbInfo.Valid, OwnedBy, Claim, Crc32.IsTable, InfoRepr, InfosOwned;
    var tab := new bv32[256];
    Crc32.TabInit(tab);
    var infos: seq<DbInfo>, db := [], 0;
    ghost var owner: map<object, int> := map[];
    NoInfos(owner);
    while db < databases
      invariant db == |infos| <= databases && InfosValid(infos, owner, tab)
      invariant tab.Length == 256 && Crc32.IsTable(tab[..])
      invariant forall o :: o in owner ==> fresh(o)
      invariant forall i :: 0 <= i < db ==> fresh(infos[i]) && infos[i].Keys == {} && infos[i].size == size
    {
      infos, owner := OneMoreInfo(tab, size, hash, infos, owner);
      db := db + 1;
    }
    index := new Index(tab, infos, canResize, owner);
  }

  lemma NoInfos(owner: map<object, int>)
    ensures InfosOwned([], owner)
  {}

  /** One round of the loop of `Slots_Init`. */
  method OneMoreInfo(tab: array<bv32>, size: nat, hash: HashTable.Hash, infos: seq<DbInfo>, ghost owner: map<object, int>)
    returns (infos': seq<DbInfo>, ghost owner': map<object, int>)
    requires tab.Length == 256 && Crc32.IsTable(tab[..]) && size > 0 && InfosValid(infos, owner, tab)
    ensures InfosValid(infos', owner', tab) && forall o :: o in owner' ==> o in owner || fresh(o)
    ensures |infos'| == |infos| + 1 && infos'[..|infos|] == infos && fresh(infos'[|infos|])
    ensures infos'[|infos|].Keys == {} && infos'[|infos|].size == size
  {
    hide DbInfo.Valid, OwnedBy, Claim, Crc32.IsTable, InfoRepr, InfosOwned;
    var info := NewDbInfo(tab, size, hash);
    ReprKnown(info);
    NewInfoOwned(infos, owner, info);
    owner' := Claim(owner, InfoRepr(info), |infos|);
    infos' := infos + [info];
  }

  lemma NewInfoOwned(infos: seq<DbInfo>, owner: map<object, int>, info: DbInfo)
    requires InfosOwned(infos, owner) && forall o :: o in InfoRepr(info) ==> o !in owner
    ensures InfosOwned(infos + [info], Claim(owner, InfoRepr(info), |infos|))
    ensures Claim(owner, InfoRepr(info), |infos|).Keys == owner.Keys + InfoRepr(info)
  {
    hide InfoRepr;
    var owner' := Claim(owner, InfoRepr(info), |infos|);
    assert OwnedBy({}, owner, |infos|);
    ClaimOwned(owner, {}, InfoRepr(info), |infos|);
    forall i | 0 <= i < |infos|
      ensures OwnedBy(InfoRepr(infos[i]), owner', i)
    {
      OthersOwned(owner, InfoRepr(infos[i]), i, {}, InfoRepr(info), |infos|);
    }
  }
}
