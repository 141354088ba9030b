/**
  The slot index of one database: a hash table for every slot, and the tagged keys in a skip list
  ordered by tag CRC. Together they agree with the plain set of keys.
*/
module SlotIndexes {
  import opened Wrappers
  import opened Keys
  import opened Slots
  import opened SkipItems
  import opened Words
  import opened Cursor
  import DictSpec
  import DictScan
  import DictRehash
  import DictGrowth
  import HashTable
  import Dictionary
  import SkipLists
  import SkipLinks
  import LinkedLists
  import Crc32
  import Decimal

  type Value = Dictionary.Value
  type Dict = Dictionary.Dict
  type SkipList = SkipLists.SkipList

  // ---------------------------------------------------------------- agreement, on values

  type Maps = seq<map<Key, Value>>

  /** The table of a slot holds the keys of that slot, each with its CRC in decimal. */
  ghost predicate TableAgrees(contents: map<Key, Value>, keys: set<Key>, slot: nat, size: nat)
    requires size > 0
  {
    && (forall k :: k in contents <==> k in keys && SlotOf(k, size) == slot)
    && (forall k :: k in contents ==> contents[k] == Decimal.Print(CrcOf(k)))
  }

  /** The skip list holds the tagged keys, each with its CRC as score. */
  ghost predicate ListAgrees(items: seq<Item>, keys: set<Key>)
  {
    && Sorted(items)
    && forall x :: x in items <==> x.member in keys && HasTag(x.member) && x.score == CrcOf(x.member)
  }

  ghost predicate TablesAgree(maps: Maps, keys: set<Key>)
    requires |maps| > 0
  {
    forall s :: 0 <= s < |maps| ==> TableAgrees(maps[s], keys, s, |maps|)
  }

  /** Adding a key to the table that its slot selects adds it to the set. */
  lemma TableAdds(maps: Maps, keys: set<Key>, key: Key)
    requires |maps| > 0 && TablesAgree(maps, keys)
    ensures var s := SlotOf(key, |maps|);
      && s < |maps| && (key in maps[s] <==> key in keys)
      && TablesAgree(maps[s := maps[s][key := Decimal.Print(CrcOf(key))]], keys + {key})
  {
    SlotBelowSize(key, |maps|);
    var s := SlotOf(key, |maps|);
    var maps' := maps[s := maps[s][key := Decimal.Print(CrcOf(key))]];
    forall t | 0 <= t < |maps|
      ensures TableAgrees(maps'[t], keys + {key}, t, |maps|)
    {
      assert TableAgrees(maps[t], keys, t, |maps|);
    }
  }

  lemma AfterAdd(maps: Maps, keys: set<Key>, key: Key, ok: bool, maps': Maps)
    requires |maps| > 0 && TablesAgree(maps, keys)
    requires var s := SlotOf(key, |maps|);
      && s < |maps| && ok == (key !in maps[s])
      && maps' == if ok then maps[s := maps[s][key := Decimal.Print(CrcOf(key))]] else maps
    ensures |maps'| > 0 && TablesAgree(maps', keys + {key}) && ok == (key !in keys)
  {
    hide TablesAgree, SlotOf, CrcOf, Decimal.Print;
    TableAdds(maps, keys, key);
    if !ok { assert keys + {key} == keys; }
  }

  lemma TableDrops(maps: Maps, keys: set<Key>, key: Key)
    requires |maps| > 0 && TablesAgree(maps, keys)
    ensures var s := SlotOf(key, |maps|);
      && s < |maps| && (key in maps[s] <==> key in keys)
      && TablesAgree(maps[s := maps[s] - {key}], keys - {key})
  {
    SlotBelowSize(key, |maps|);
    var s := SlotOf(key, |maps|);
    var maps' := maps[s := maps[s] - {key}];
    forall t | 0 <= t < |maps|
      ensures TableAgrees(maps'[t], keys - {key}, t, |maps|)
    {
      hide SlotOf, HasTag, CrcOf, Decimal.Print;
      assert TableAgrees(maps[t], keys, t, |maps|);
    }
  }

  lemma ListAdds(items: seq<Item>, keys: set<Key>, key: Key)
    requires ListAgrees(items, keys) && key !in keys
    ensures var x := Item(CrcOf(key), key);
      if HasTag(key) then x !in items && ListAgrees(InsertItem(items, x), keys + {key})
      else ListAgrees(items, keys + {key})
  {
    var x := Item(CrcOf(key), key);
    if HasTag(key) {
      InsertSorted(items, x);
      InsertAdds(items, x);
    }
  }

  lemma ListDrops(items: seq<Item>, keys: set<Key>, key: Key)
    requires ListAgrees(items, keys)
    ensures var x := Item(CrcOf(key), key);
      && ListAgrees(RemoveItem(items, x), keys - {key})
      && (!HasTag(key) ==> ListAgrees(items, keys - {key}))
  {
    RemoveTakes(items, Item(CrcOf(key), key));
  }

  /** The tables determine the set. */
  lemma AgreementDetermines(maps: Maps, keys: set<Key>, keys': set<Key>)
    requires |maps| > 0 && TablesAgree(maps, keys) && TablesAgree(maps, keys')
    ensures keys == keys'
  {
    forall k
      ensures k in keys <==> k in keys'
    {
      var s := SlotOf(k, |maps|);
      SlotBelowSize(k, |maps|);
      assert TableAgrees(maps[s], keys, s, |maps|) && TableAgrees(maps[s], keys', s, |maps|);
    }
  }

  lemma TableSize(maps: Maps, keys: set<Key>, s: nat)
    requires |maps| > 0 && TablesAgree(maps, keys) && s < |maps|
    ensures |maps[s]| <= |keys|
  {
    assert TableAgrees(maps[s], keys, s, |maps|);
    assert maps[s].Keys <= keys;
    assert keys == maps[s].Keys + (keys - maps[s].Keys);
  }

  // ---------------------------------------------------------------- one table as a map

  /** `dictSize` */
  method SizeOf(d: Dict) returns (n: nat)
    requires d.Valid()
    ensures n == |d.Contents|
  {
    DictSpec.SizeCountsKeys(d.hash, d.S(), d.Contents.Keys);
    n := d.ht0.used + d.ht1.used;
  }

  /** `m_dictAdd` as an operation on the map. */
  method AddTo(d: Dict, k: Key, v: Value, canResize: bool) returns (ok: bool)
    requires d.Valid() && |d.Contents| <= HashTable.LONG_MAX
    modifies d.Repr
    ensures d.Valid() && fresh(d.Repr - old(d.Repr))
    ensures ok == (k !in old(d.Contents))
    ensures d.Contents == if ok then old(d.Contents)[k := v] else old(d.Contents)
  {
    DictSpec.SizeCountsKeys(d.hash, d.S(), d.Contents.Keys);
    DictSpec.StepKeeps(d.hash, d.S());
    ok := d.Add(k, v, canResize);
  }

  /** `m_dictDelete` as an operation on the map. */
  method DeleteFrom(d: Dict, k: Key) returns (ok: bool)
    requires d.Valid()
    modifies d.Repr
    ensures d.Valid() && fresh(d.Repr - old(d.Repr))
    ensures ok == (k in old(d.Contents)) && d.Contents == old(d.Contents) - {k}
  {
    var he := d.GenericDelete(k);
    ok := he != null;
  }

  /** `m_dictGetRandomKey`: some key of the table, unless it is empty. */
  method RandomFrom(d: Dict) returns (key: Option<Key>)
    requires d.Valid()
    modifies d.Repr
    ensures d.Valid() && fresh(d.Repr - old(d.Repr)) && d.Contents == old(d.Contents)
    ensures key.None? <==> d.Contents == map[]
    ensures key.Some? ==> key.value in d.Contents
  {
    var he := d.GetRandomKey();
    key := if he == null then None else Some(he.key);
  }

  const MIN_FILL: nat := 10

  /** `tryResizeDbSlotHashTables`: a table of more than four buckets, less than a tenth of them filled, starts to shrink to the
      smallest size, if it may. */
  method ShrinkIfSparse(d: Dict, canResize: bool)
    requires d.Valid()
    modifies d.Repr
    ensures d.Valid() && fresh(d.Repr - old(d.Repr)) && d.Contents == old(d.Contents)
    ensures var size, used := old(d.ht0.table.Length + d.ht1.table.Length), old(d.ht0.used + d.ht1.used);
      if size > 4 && used * 100 / size < 10 && canResize && old(d.rehashidx) == -1 && used < 0x8000_0000
        && !DictGrowth.SmallestSize(size, used)
      then d.rehashidx == 0 && DictGrowth.SmallestSize(d.ht1.table.Length, used)
      else d.S() == old(d.S())
  {
    InRepr(d);
    OneTable(d);
    hide Dictionary.Dict.Valid, DictGrowth.SmallestSize;
    var size, used := d.ht0.table.Length + d.ht1.table.Length, d.ht0.used + d.ht1.used;
    if size > HashTable.INITIAL_SIZE && used * 100 / size < MIN_FILL {
      var _ := d.Resize(canResize);
    }
  }

  lemma OneTable(d: Dict)
    requires d.Valid()
    ensures d.rehashidx == -1 ==> d.ht1.table.Length == 0 && d.ht1.used == 0
  {}

  /** `incrementallyDbSlotRehash`; `rounds` is how often `m_dictRehashMilliseconds` comes around in its time. What is not over
      then has come past a hundred buckets a round. */
  method RehashForAWhile(d: Dict, rounds: nat)
    requires d.Valid()
    modifies d.Repr
    ensures d.Valid() && fresh(d.Repr - old(d.Repr)) && d.Contents == old(d.Contents)
    ensures old(d.rehashidx) == -1 ==> d.S() == old(d.S())
    ensures d.rehashidx != -1 ==> d.rehashidx >= old(d.rehashidx) + 100 * rounds
  {
    hide Dictionary.Dict.Valid, DictRehash.Rehashed;
    var more, n := d.rehashidx != -1, 0;
    while more && n < rounds
      invariant d.Valid() && fresh(d.Repr - old(d.Repr)) && d.Contents == old(d.Contents)
      invariant more == (d.rehashidx != -1) && n <= rounds
      invariant old(d.rehashidx) == -1 ==> d.S() == old(d.S())
      invariant more ==> d.rehashidx >= old(d.rehashidx) + 100 * n
    {
      ghost var before := d.S();
      more := d.Rehash(100);
      if more { DictRehash.CameFar(before, 100, d.S()); }
      n := n + 1;
    }
  }

  /** What the cron does to one table. */
  method Tend(d: Dict, canResize: bool, rounds: nat)
    requires d.Valid()
    modifies d.Repr
    ensures d.Valid() && fresh(d.Repr - old(d.Repr)) && d.Contents == old(d.Contents)
    ensures d.rehashidx != -1 ==> d.rehashidx >= 100 * rounds + if old(d.rehashidx) == -1 then 0 else old(d.rehashidx)
  {
    hide Dictionary.Dict.Valid, DictGrowth.SmallestSize;
    ShrinkIfSparse(d, canResize);
    RehashForAWhile(d, rounds);
  }

  /** The position of a hash lies from the old cursor on and before the new one. */
  ghost predicate Between(v: Word, v': Word, h: Word)
  {
    Pos(v) <= Pos(h) && (v' == Zero() || Pos(h) < Pos(v'))
  }

  /** What one call of `m_dictScan` gives: every key whose position lies between the old and the new cursor. */
  ghost predicate ScanStep(contents: map<Key, Value>, hash: HashTable.Hash, v: Word, emitted: seq<Key>, v': Word)
  {
    && (forall k :: k in emitted ==> k in contents)
    && (forall k :: k in contents && Between(v, v', hash(k)) ==> k in emitted)
    && (v' == Zero() || Pos(v) < Pos(v'))
  }

  lemma ScanSteps(contents: map<Key, Value>, hash: HashTable.Hash, s: DictSpec.State, v: Word)
    requires DictSpec.Inv(hash, s) && Dictionary.Describes(contents, hash, s)
    ensures var (emitted, v') := DictScan.Scan(hash, s, v); ScanStep(contents, hash, v, emitted, v')
  {
    if DictSpec.Size(s) == 0 {
      DictSpec.EmptyHoldsNothing(hash, s);
    } else {
      DictScan.ScanCovers(hash, s, v);
      PosZero();
      hide Pos, DictScan.Scan, DictScan.ScanEnd, DictSpec.Inv, DictSpec.Contains, End, Floor, DictScan.SmallLog, Zero;
      var (emitted, v') := DictScan.Scan(hash, s, v);
      forall k | k in contents
        ensures Pos(hash(k)) < End()
      {
        PosBound(hash(k));
      }
    }
  }

  /** The same for the keys of one slot. */
  ghost predicate SlotScan(keys: set<Key>, hash: HashTable.Hash, slot: nat, size: nat, v: Word, emitted: seq<Key>, v': Word)
    requires size > 0
  {
    && (forall k :: k in emitted ==> k in keys && SlotOf(k, size) == slot)
    && (forall k :: k in keys && SlotOf(k, size) == slot && Between(v, v', hash(k)) ==> k in emitted)
    && (v' == Zero() || Pos(v) < Pos(v'))
  }

  lemma EmptyTableOf(contents: map<Key, Value>, keys: set<Key>, slot: nat, size: nat)
    requires size > 0 && TableAgrees(contents, keys, slot, size)
    ensures (forall k :: k in keys ==> SlotOf(k, size) != slot) ==> contents == map[]
  {
    hide SlotOf, CrcOf;
    if k :| k in contents { assert k in keys && SlotOf(k, size) == slot; }
  }

  method ScanTable(d: Dict, v: Word) returns (emitted: seq<Key>, v': Word)
    requires d.Valid()
    ensures ScanStep(d.Contents, d.hash, v, emitted, v') && (d.Contents == map[] ==> emitted == [] && v' == Zero())
    ensures (emitted, v') == DictScan.Scan(d.hash, d.S(), v)
  {
    emitted, v' := d.Scan(v);
    ScanSteps(d.Contents, d.hash, d.S(), v);
  }

  lemma InRepr(d: Dict)
    requires d.Valid()
    ensures d in d.Repr
  {}

  // ---------------------------------------------------------------- all tables

  /** All these objects belong to table `s`. */
  ghost predicate OwnedBy(objects: set<object>, owner: map<object, int>, s: int)
  {
    forall o :: o in objects ==> o in owner && owner[o] == s
  }

  /** Table `s` owns the objects of its footprint, so that no two tables share any. */
  ghost predicate Owns(tables: seq<Dict>, owner: map<object, int>)
    reads tables
  {
    forall s :: 0 <= s < |tables| ==> tables[s] in tables[s].Repr && OwnedBy(tables[s].Repr, owner, s)
  }

  ghost predicate AllValid(tables: seq<Dict>, owner: map<object, int>)
    reads tables, owner.Keys
  {
    Owns(tables, owner) && forall s :: 0 <= s < |tables| ==> tables[s].Valid()
  }

  ghost function MapsOf(tables: seq<Dict>): (maps: Maps)
    reads tables`Contents
    ensures |maps| == |tables| && forall s :: 0 <= s < |tables| ==> maps[s] == tables[s].Contents
  {
    if tables == [] then [] else MapsOf(tables[..|tables| - 1]) + [tables[|tables| - 1].Contents]
  }

  /** The owners after an operation on table `slot`, which may have new objects. */
  ghost function Claim(owner: map<object, int>, objects: set<object>, slot: int): (r: map<object, int>)
    ensures r.Keys == owner.Keys + objects
    ensures forall o :: o in r ==> r[o] == if o in objects then slot else owner[o]
  {
    owner + map o | o in objects :: slot
  }

  lemma ClaimOwned(owner: map<object, int>, before: set<object>, after: set<object>, slot: int)
    requires OwnedBy(before, owner, slot)
    ensures var owner' := Claim(owner, after, slot);
      OwnedBy(after, owner', slot) && owner'.Keys - owner.Keys <= after - before
  {}

  lemma OthersOwned(owner: map<object, int>, objects: set<object>, s: int, before: set<object>, after: set<object>,
                    slot: int)
    requires OwnedBy(objects, owner, s) && OwnedBy(before, owner, slot) && s != slot
    requires forall o :: o in after - before ==> o !in owner
    ensures OwnedBy(objects, Claim(owner, after, slot), s) && objects !! before && objects !! after
  {}

  /** Every object keeps its owner. */
  ghost predicate Extends(owner: map<object, int>, owner': map<object, int>)
  {
    forall o :: o in owner ==> o in owner' && owner'[o] == owner[o]
  }

  lemma OwnedExtends(objects: set<object>, owner: map<object, int>, owner': map<object, int>, s: int)
    requires OwnedBy(objects, owner, s) && Extends(owner, owner')
    ensures OwnedBy(objects, owner', s) && owner.Keys <= owner'.Keys
  {}

  lemma ClaimExtends(owner: map<object, int>, before: set<object>, after: set<object>, slot: int)
    requires OwnedBy(before, owner, slot) && forall o :: o in after - before ==> o !in owner
    ensures Extends(owner, Claim(owner, after, slot))
    ensures Claim(owner, after, slot).Keys - owner.Keys <= after - before
  {}

  lemma OwnedKeys(owner: map<object, int>, objects: set<object>, s: int)
    requires OwnedBy(objects, owner, s)
    ensures objects <= owner.Keys
  {}

  lemma DisjointOwned(owner: map<object, int>, a: set<object>, b: set<object>, s: int, t: int)
    requires OwnedBy(a, owner, s) && OwnedBy(b, owner, t) && s != t
    ensures a !! b
  {}

  /** No other table shares an object with table `slot`. */
  lemma OthersApart(tables: seq<Dict>, owner: map<object, int>, slot: nat)
    requires Owns(tables, owner) && slot < |tables|
    ensures forall s :: 0 <= s < |tables| && s != slot ==> tables[s].Repr !! tables[slot].Repr
  {
    forall s | 0 <= s < |tables| && s != slot
      ensures tables[s].Repr !! tables[slot].Repr
    {
      DisjointOwned(owner, tables[s].Repr, tables[slot].Repr, s, slot);
    }
  }

  /** Ownership after table `slot`, whose footprint was `before`, took new objects. */
  lemma StillOwns(tables: seq<Dict>, owner: map<object, int>, slot: nat, before: set<object>)
    requires slot < |tables| && OwnedBy(before, owner, slot) && tables[slot] in tables[slot].Repr
    requires forall s :: 0 <= s < |tables| && s != slot ==> tables[s] in tables[s].Repr && OwnedBy(tables[s].Repr, owner, s)
    requires forall o :: o in tables[slot].Repr - before ==> o !in owner
    ensures Owns(tables, Claim(owner, tables[slot].Repr, slot))
  {
    hide OwnedBy, Claim;
    ClaimOwned(owner, before, tables[slot].Repr, slot);
    forall s | 0 <= s < |tables| && s != slot
      ensures OwnedBy(tables[s].Repr, Claim(owner, tables[slot].Repr, slot), s)
    {
      OthersOwned(owner, tables[s].Repr, s, before, tables[slot].Repr, slot);
    }
  }

  /** `m_dictAdd` on the table of a slot. */
  method AddToTable(tables: seq<Dict>, slot: nat, k: Key, v: Value, canResize: bool, ghost owner: map<object, int>)
    returns (ok: bool, ghost owner': map<object, int>)
    requires AllValid(tables, owner) && slot < |tables| && |tables[slot].Contents| <= HashTable.LONG_MAX
    modifies tables[slot].Repr
    ensures AllValid(tables, owner') && Extends(owner, owner') && (forall o :: o in owner' ==> o in owner || fresh(o))
    ensures ok == (k !in old(tables[slot].Contents))
    ensures var maps := old(MapsOf(tables));
      MapsOf(tables) == if ok then maps[slot := maps[slot][k := v]] else maps
  {
    hide Dictionary.Dict.Valid, OwnedBy, Claim, MapsOf, Extends;
    ghost var before := tables[slot].Repr;
    OthersApart(tables, owner, slot);
    ok := AddTo(tables[slot], k, v, canResize);
    InRepr(tables[slot]);
    StillOwns(tables, owner, slot, before);
    ClaimExtends(owner, before, tables[slot].Repr, slot);
    owner' := Claim(owner, tables[slot].Repr, slot);
  }

  /** `m_dictDelete` on the table of a slot. */
  method DeleteFromTable(tables: seq<Dict>, slot: nat, k: Key, ghost owner: map<object, int>)
    returns (ok: bool, ghost owner': map<object, int>)
    requires AllValid(tables, owner) && slot < |tables|
    modifies tables[slot].Repr
    ensures AllValid(tables, owner') && Extends(owner, owner') && (forall o :: o in owner' ==> o in owner || fresh(o))
    ensures ok == (k in old(tables[slot].Contents))
    ensures MapsOf(tables) == old(MapsOf(tables))[slot := old(tables[slot].Contents) - {k}]
  {
    hide Dictionary.Dict.Valid, OwnedBy, Claim, MapsOf, Extends;
    ghost var before := tables[slot].Repr;
    OthersApart(tables, owner, slot);
    ok := DeleteFrom(tables[slot], k);
    InRepr(tables[slot]);
    StillOwns(tables, owner, slot, before);
    ClaimExtends(owner, before, tables[slot].Repr, slot);
    owner' := Claim(owner, tables[slot].Repr, slot);
  }

  /** `m_dictGetRandomKey` on the table of a slot. */
  method RandomFromTable(tables: seq<Dict>, slot: nat, ghost owner: map<object, int>)
    returns (key: Option<Key>, ghost owner': map<object, int>)
    requires AllValid(tables, owner) && slot < |tables|
    modifies tables[slot].Repr
    ensures AllValid(tables, owner') && Extends(owner, owner') && (forall o :: o in owner' ==> o in owner || fresh(o))
    ensures MapsOf(tables) == old(MapsOf(tables))
    ensures key.None? <==> tables[slot].Contents == map[]
    ensures key.Some? ==> key.value in tables[slot].Contents
  {
    hide Dictionary.Dict.Valid, OwnedBy, Claim, MapsOf, Extends;
    ghost var before := tables[slot].Repr;
    OthersApart(tables, owner, slot);
    key := RandomFrom(tables[slot]);
    InRepr(tables[slot]);
    StillOwns(tables, owner, slot, before);
    ClaimExtends(owner, before, tables[slot].Repr, slot);
    owner' := Claim(owner, tables[slot].Repr, slot);
  }

  /** What the cron does to the table of a slot. */
  method TendTable(tables: seq<Dict>, slot: nat, canResize: bool, rounds: nat, ghost owner: map<object, int>)
    returns (ghost owner': map<object, int>)
    requires AllValid(tables, owner) && slot < |tables|
    modifies tables[slot].Repr
    ensures AllValid(tables, owner') && Extends(owner, owner') && (forall o :: o in owner' ==> o in owner || fresh(o))
    ensures MapsOf(tables) == old(MapsOf(tables))
    ensures var d := tables[slot];
      d.rehashidx != -1 ==> d.rehashidx >= 100 * rounds + if old(d.rehashidx) == -1 then 0 else old(d.rehashidx)
  {
    hide Dictionary.Dict.Valid, OwnedBy, Claim, MapsOf, Extends;
    ghost var before := tables[slot].Repr;
    OthersApart(tables, owner, slot);
    Tend(tables[slot], canResize, rounds);
    InRepr(tables[slot]);
    StillOwns(tables, owner, slot, before);
    ClaimExtends(owner, before, tables[slot].Repr, slot);
    owner' := Claim(owner, tables[slot].Repr, slot);
  }

  method Clear(d: Dict)
    requires d.Valid()
    modifies d.Repr
    ensures d.Valid() && fresh(d.Repr - old(d.Repr)) && d.Contents == map[]
  {
    var n := SizeOf(d);
    if n == 0 {
      return;
    }
    InRepr(d);
    d.Empty();
  }

  /** `m_dictEmpty` on the table of a slot, unless it is empty. */
  method EmptyTable(tables: seq<Dict>, slot: nat, ghost owner: map<object, int>) returns (ghost owner': map<object, int>)
    requires AllValid(tables, owner) && slot < |tables|
    modifies tables[slot].Repr
    ensures AllValid(tables, owner') && Extends(owner, owner') && (forall o :: o in owner' ==> o in owner || fresh(o))
    ensures MapsOf(tables) == old(MapsOf(tables))[slot := map[]]
  {
    hide Dictionary.Dict.Valid, OwnedBy, Claim, MapsOf, Extends;
    ghost var before := tables[slot].Repr;
    OthersApart(tables, owner, slot);
    Clear(tables[slot]);
    InRepr(tables[slot]);
    StillOwns(tables, owner, slot, before);
    ClaimExtends(owner, before, tables[slot].Repr, slot);
    owner' := Claim(owner, tables[slot].Repr, slot);
  }

  /** The objects of tables. */
  ghost function Tabled(owner: map<object, int>): set<object>
  {
    set o | o in owner && owner[o] >= 0
  }

  lemma OwnedTabled(owner: map<object, int>, objects: set<object>, s: int)
    requires OwnedBy(objects, owner, s) && s >= 0
    ensures objects <= Tabled(owner)
  {}

  lemma TabledGrows(owner: map<object, int>, owner': map<object, int>)
    requires Extends(owner, owner')
    ensures Tabled(owner') <= Tabled(owner) + (owner'.Keys - owner.Keys)
  {}

  lemma ExtendsFurther(a: map<object, int>, b: map<object, int>, c: map<object, int>)
    requires Extends(a, b) && Extends(b, c)
    ensures Extends(a, c) && c.Keys - a.Keys == (c.Keys - b.Keys) + (b.Keys - a.Keys)
  {}

  /** The loop of `FlushdbCallback` over the slots. */
  method EmptyTables(tables: seq<Dict>, ghost owner: map<object, int>) returns (ghost owner': map<object, int>)
    requires AllValid(tables, owner)
    modifies Tabled(owner)
    ensures AllValid(tables, owner') && Extends(owner, owner') && (forall o :: o in owner' ==> o in owner || fresh(o))
    ensures forall s :: 0 <= s < |tables| ==> MapsOf(tables)[s] == map[]
  {
    owner' := owner;
    var slot := 0;
    hide Dictionary.Dict.Valid, OwnedBy, Extends, Owns, Tabled, AllValid;
    assert Extends(owner, owner) by { ExtendsSelf(owner); }
    while slot < |tables|
      invariant slot <= |tables| && AllValid(tables, owner') && Extends(owner, owner')
      invariant (forall o :: o in owner' ==> o in owner || fresh(o))
      invariant forall s :: 0 <= s < slot ==> MapsOf(tables)[s] == map[]
    {
      ghost var owner1 := owner';
      ReprTabled(tables, owner1, slot);
      TabledGrows(owner, owner1);
      owner' := EmptyTable(tables, slot, owner');
      ExtendsFurther(owner, owner1, owner');
      slot := slot + 1;
    }
  }

  lemma ExtendsSelf(owner: map<object, int>)
    ensures Extends(owner, owner)
  {}

  lemma ReprTabled(tables: seq<Dict>, owner: map<object, int>, slot: nat)
    requires AllValid(tables, owner) && slot < |tables|
    ensures tables[slot].Repr <= Tabled(owner)
  {
    OwnedTabled(owner, tables[slot].Repr, slot);
  }

  /** `size` empty tables. */
  method NewTables(size: nat, hash: HashTable.Hash) returns (tables: seq<Dict>, ghost owner: map<object, int>)
    ensures |tables| == size && AllValid(tables, owner) && fresh(owner.Keys)
    ensures forall s :: 0 <= s < size ==> tables[s].Contents == map[]
  {
    hide Dictionary.Dict.Valid, OwnedBy, Claim;
    tables, owner := [], map[];
    var i := 0;
    while i < size
      invariant i == |tables| <= size && AllValid(tables, owner) && fresh(owner.Keys)
      invariant forall s :: 0 <= s < i ==> tables[s].Contents == map[]
    {
      var d := new Dictionary.Dict(hash);
      InRepr(d);
      ghost var owner' := Claim(owner, d.Repr, i);
      NewOwned(tables, owner, d);
      tables, owner := tables + [d], owner';
      i := i + 1;
    }
  }

  lemma NewOwned(tables: seq<Dict>, owner: map<object, int>, d: Dict)
    requires Owns(tables, owner) && d in d.Repr && forall o :: o in d.Repr ==> o !in owner
    ensures Owns(tables + [d], Claim(owner, d.Repr, |tables|))
    ensures Claim(owner, d.Repr, |tables|).Keys == owner.Keys + d.Repr
  {
    var owner' := Claim(owner, d.Repr, |tables|);
    assert OwnedBy({}, owner, |tables|);
    ClaimOwned(owner, {}, d.Repr, |tables|);
    forall s | 0 <= s < |tables|
      ensures OwnedBy(tables[s].Repr, owner', s)
    {
      OthersOwned(owner, tables[s].Repr, s, {}, d.Repr, |tables|);
    }
  }

  // ---------------------------------------------------------------- tag groups

  ghost function Members(items: seq<Item>): (keys: seq<Key>)
    ensures |keys| == |items| && forall i :: 0 <= i < |items| ==> keys[i] == items[i].member
  {
    if items == [] then [] else Members(items[..|items| - 1]) + [items[|items| - 1].member]
  }

  /** The items of places `a` to `b - 1` are those with score `crc`. */
  ghost predicate IsGroup(items: seq<Item>, crc: int, a: nat, b: nat)
  {
    a <= b <= |items| && forall i :: 0 <= i < |items| ==> (items[i].score == crc <==> a <= i < b)
  }

  /** Keys in strictly ascending order, so that none is there twice. */
  ghost predicate Ascending(keys: seq<Key>)
  {
    forall i, j :: 0 <= i < j < |keys| ==> KeyLess(keys[i], keys[j])
  }

  /** Members with one score are in order. */
  lemma GroupAscending(items: seq<Item>, crc: int, a: nat, b: nat)
    requires Sorted(items) && IsGroup(items, crc, a, b)
    ensures Ascending(Members(items[a..b]))
  {
    hide KeyLess;
    var ms := Members(items[a..b]);
    forall i, j | 0 <= i < j < |ms|
      ensures KeyLess(ms[i], ms[j])
    {
      assert Precedes(items[a + i], items[a + j]);
    }
  }

  /** In an agreeing skip list, the members with one score are the tagged keys with that CRC. */
  lemma GroupMembers(items: seq<Item>, keys: set<Key>, crc: nat, a: nat, b: nat)
    requires ListAgrees(items, keys) && IsGroup(items, crc, a, b)
    ensures Ascending(Members(items[a..b]))
    ensures forall k :: k in Members(items[a..b]) <==> k in keys && HasTag(k) && CrcOf(k) == crc
  {
    GroupAscending(items, crc, a, b);
    hide Ascending, Sorted, HasTag, CrcOf;
    var ms := Members(items[a..b]);
    forall k | k in ms
      ensures k in keys && HasTag(k) && CrcOf(k) == crc
    {
      var i :| 0 <= i < |ms| && ms[i] == k;
      assert items[a + i] in items;
    }
    forall k | k in keys && HasTag(k) && CrcOf(k) == crc
      ensures k in ms
    {
      assert Item(crc, k) in items;
      var i :| 0 <= i < |items| && items[i] == Item(crc, k);
      assert ms[i - a] == k;
    }
  }

  /** The node at place `b` of a skip list, if there is one. */
  ghost predicate IsAt(list: SkipList, node: SkipLinks.Node?, b: nat)
    reads list, list.nodes
  {
    list.Valid() && b <= |list.Items()| && node == if b < |list.Items()| then list.nodes[b + 1] else null
  }

  lemma AtPlace(list: SkipList, node: SkipLinks.Node, b: nat)
    requires IsAt(list, node, b)
    ensures b < |list.Items()| && SkipLists.ItemOf(node) == list.Items()[b]
    ensures node.level != [] && IsAt(list, node.level[0].forward, b + 1)
  {
    hide SkipLinks.Linked, SkipLinks.Distinct, SkipLists.RowsOf, SkipLists.BackwardOk;
    list.Neighbours(node, b);
  }

  /** The first node with score `crc`, at place `a`. */
  method FirstOfGroup(list: SkipList, crc: int) returns (node: SkipLinks.Node?, ghost a: nat)
    requires list.Valid()
    ensures IsAt(list, node, a) && forall j :: 0 <= j < a ==> list.Items()[j].score != crc
    ensures node != null ==> node.score == crc
  {
    hide SkipLinks.Linked, SkipLinks.Distinct, SkipLists.RowsOf, SkipLists.BackwardOk;
    ghost var items := list.Items();
    var range := Range(crc, crc, false, false);
    node := list.FirstInRange(range);
    if node == null {
      a := |items|;
      assert forall i :: 0 <= i < |items| ==> !InRange(list.Items()[i], range);
    } else {
      a :| 0 <= a < |list.Items()| && node == list.nodes[a + 1] && InRange(list.Items()[a], range)
           && forall j :: 0 <= j < a ==> !InRange(list.Items()[j], range);
    }
  }

  ghost function QueueRepr(l: LinkedLists.List<Key>): set<object>
    reads l
  {
    {l} + set n: LinkedLists.Node<Key> | n in l.nodes
  }

  /** One step of the walk. */
  method CollectOne(list: SkipList, node: SkipLinks.Node, l: LinkedLists.List<Key>, ghost b: nat, ghost member: Key)
    returns (next: SkipLinks.Node?)
    requires IsAt(list, node, b) && node.member == member && l.Valid() && QueueRepr(l) !! ListRepr(list)
    modifies QueueRepr(l)
    ensures IsAt(list, next, b + 1) && list.Items() == old(list.Items())
    ensures l.Valid() && l.Contents() == old(l.Contents()) + [member]
    ensures QueueRepr(l) !! ListRepr(list)
    ensures forall o :: o in QueueRepr(l) ==> o in old(QueueRepr(l)) || fresh(o)
  {
    hide SkipLists.SkipList.Valid, LinkedLists.List.Valid, LinkedLists.ValuesOf, Sorted, SkipLists.ItemsOf;
    AtPlace(list, node, b);
    l.AddNodeTail(node.member);
    next := node.level[0].forward;
  }

  /** The queue holds the members of the items from place `a` to place `b - 1`, all with score `crc`. */
  ghost predicate Gathered(items: seq<Item>, crc: int, a: nat, b: nat, queue: seq<Key>)
  {
    && a <= b <= |items| && queue == Members(items[a..b])
    && forall i :: a <= i < b ==> items[i].score == crc
  }

  lemma GatherNext(items: seq<Item>, crc: int, a: nat, b: nat, queue: seq<Key>)
    requires Gathered(items, crc, a, b, queue) && b < |items| && items[b].score == crc
    ensures Gathered(items, crc, a, b + 1, queue + [items[b].member])
  {
    assert items[a..b + 1] == items[a..b] + [items[b]];
    MembersNext(items[a..b], items[b]);
  }

  lemma MembersNext(items: seq<Item>, item: Item)
    ensures Members(items + [item]) == Members(items) + [item.member]
  {
    assert (items + [item])[..|items|] == items;
  }

  /** The walk of `SlotsMGRT_TagKeys` over the nodes with score `crc`, from the node at place `a`. */
  method CollectFrom(list: SkipList, node0: SkipLinks.Node?, l: LinkedLists.List<Key>, crc: int, ghost a: nat)
    returns (node: SkipLinks.Node?, ghost b: nat)
    requires IsAt(list, node0, a) && l.Valid() && QueueRepr(l) !! ListRepr(list) && l.Contents() == []
    modifies QueueRepr(l)
    ensures IsAt(list, node, b) && list.nodes != [] && list.Items() == old(list.Items()) && l.Valid()
    ensures Gathered(list.Items(), crc, a, b, l.Contents()) && (node != null ==> node.score != crc)
    ensures a == b ==> node == node0
    ensures forall o :: o in QueueRepr(l) ==> o in old(QueueRepr(l)) || fresh(o)
  {
    ghost var items, qr := list.Items(), QueueRepr(l);
    assert Gathered(items, crc, a, a, []);
    assert list.nodes != [];
    hide SkipLists.SkipList.Valid, LinkedLists.List.Valid, IsAt, QueueRepr, ListRepr, LinkedLists.List.Contents,
      SkipLists.SkipList.Items, Gathered;
    node := node0;
    b := a;
    while node != null && node.score == crc
      invariant l.Valid() && QueueRepr(l) !! ListRepr(list)
      invariant forall o :: o in QueueRepr(l) ==> o in qr || fresh(o)
      invariant list.nodes != [] && list.Items() == items && IsAt(list, node, b) && Gathered(items, crc, a, b, l.Contents())
      invariant a <= b && (a == b ==> node == node0)
      decreases |items| - b
    {
      AtPlace(list, node, b);
      GatherNext(items, crc, a, b, l.Contents());
      ghost var c := b + 1;
      node := CollectOne(list, node, l, b, items[b].member);
      assert IsAt(list, node, c) && Gathered(items, crc, a, c, l.Contents());
      b := c;
    }
  }

  /** The keys with score `crc`, in a queue. */
  method CollectGroup(list: SkipList, crc: int) returns (l: LinkedLists.List<Key>, ghost a: nat, ghost b: nat)
    requires list.Valid()
    ensures l.Valid() && forall o :: o in QueueRepr(l) ==> fresh(o)
    ensures IsGroup(list.Items(), crc, a, b) && l.Contents() == Members(list.Items()[a..b])
  {
    hide SkipLists.SkipList.Valid, LinkedLists.List.Valid, IsAt, LinkedLists.List.Contents, SkipLists.SkipList.Items,
      QueueRepr, ListRepr, Gathered, IsGroup;
    var node;
    node, a := FirstOfGroup(list, crc);
    l := NewQueue(list);
    var last;
    last, b := CollectFrom(list, node, l, crc, a);
    WhatGathered(list.Items(), crc, a, b, l.Contents());
    GroupEnds(list, last, crc, a, b);
  }

  lemma WhatGathered(items: seq<Item>, crc: int, a: nat, b: nat, queue: seq<Key>)
    requires Gathered(items, crc, a, b, queue)
    ensures a <= b <= |items| && queue == Members(items[a..b])
    ensures forall i :: a <= i < b ==> items[i].score == crc
  {}

  /** `m_listCreate` */
  method NewQueue(list: SkipList) returns (l: LinkedLists.List<Key>)
    ensures l.Valid() && l.Contents() == [] && QueueRepr(l) !! ListRepr(list) && forall o :: o in QueueRepr(l) ==> fresh(o)
  {
    l := new LinkedLists.List<Key>();
    hide LinkedLists.List.Valid, LinkedLists.List.Contents;
    assert QueueRepr(l) == {l};
  }

  lemma FirstOfQueue(l: LinkedLists.List<Key>)
    requires l.Valid() && l.Contents() != []
    ensures l.nodes != [] && l.head == l.nodes[0] && l.Contents() == [l.nodes[0].value] + l.Contents()[1..]
  {}

  /** `listFirst` and `m_listDelNode`: the first key of a queue that is not empty. */
  method TakeFirst(l: LinkedLists.List<Key>) returns (key: Key)
    requires l.Valid() && l.Contents() != []
    modifies QueueRepr(l)
    ensures l.Valid() && old(l.Contents()) == [key] + l.Contents()
    ensures forall o :: o in QueueRepr(l) ==> o in old(QueueRepr(l))
  {
    FirstOfQueue(l);
    hide LinkedLists.List.Valid, LinkedLists.List.Contents;
    var head := l.head;
    key := head.value;
    ghost var before := l.nodes;
    l.DelNode(head, 0);
    assert l.nodes == before[1..];
  }

  /** The loop of `SlotsMGRT_TagKeys` that moves the queue into an array of keys. */
  method TakeAll(l: LinkedLists.List<Key>) returns (keys: seq<Key>)
    requires l.Valid()
    modifies QueueRepr(l)
    ensures keys == old(l.Contents()) && l.Contents() == []
  {
    ghost var contents, qr := l.Contents(), QueueRepr(l);
    assert l.len == |contents|;
    hide LinkedLists.List.Valid, LinkedLists.List.Contents, QueueRepr;
    var max := l.len;
    keys := [];
    var i := 0;
    while i < max
      invariant i <= max == |contents| && l.Valid() && forall o :: o in QueueRepr(l) ==> o in qr
      invariant contents == keys + l.Contents() && |keys| == i
    {
      ghost var rest := l.Contents();
      var k := TakeFirst(l);
      OneMoved(contents, keys, k, rest, l.Contents());
      keys := keys + [k];
      i := i + 1;
    }
  }

  lemma OneMoved(contents: seq<Key>, keys: seq<Key>, k: Key, rest: seq<Key>, rest': seq<Key>)
    requires contents == keys + rest && rest == [k] + rest'
    ensures contents == keys + [k] + rest'
  {}

  lemma GroupEnds(list: SkipList, node: SkipLinks.Node?, crc: int, a: nat, b: nat)
    requires IsAt(list, node, b) && a <= b && (node != null ==> node.score != crc)
    requires forall j :: 0 <= j < a ==> list.Items()[j].score != crc
    requires forall i :: a <= i < b ==> list.Items()[i].score == crc
    requires a == b ==> node == null
    ensures IsGroup(list.Items(), crc, a, b)
  {
    var items := list.Items();
    hide SkipLinks.Linked, SkipLinks.Distinct, SkipLists.RowsOf, SkipLists.BackwardOk;
    if node != null {
      assert SkipLists.ItemOf(node) == items[b];
      assert forall i :: b < i < |items| ==> Precedes(items[b - 1], items[b]) && Precedes(items[b], items[i]);
    }
  }

  // ---------------------------------------------------------------- one database

  ghost function ListRepr(l: SkipList): set<object>
    reads l
  {
    {l} + set n: SkipLinks.Node | n in l.nodes
  }

  /** `db_slot_info` */
  class DbInfo {
    const tab: array<bv32>
    const size: nat
    const tables: seq<Dict>
    var list: SkipList

    /** The keys that the index holds. */
    ghost var Keys: set<Key>

    /** The objects of the index: those of table `s` belong to `s`, those of the skip list to -1. */
    ghost var owner: map<object, int>

    /** The tables agree with `tabled`, the skip list with `listed`. */
    ghost predicate Sound(tabled: set<Key>, listed: set<Key>)
      reads `list, `owner, list, tables, owner.Keys, tab
    {
      && this !in owner && tab !in owner && OwnedBy(ListRepr(list), owner, -1)
      && tab.Length == 256 && Crc32.IsTable(tab[..]) && |tables| == size > 0
      && AllValid(tables, owner) && TablesAgree(MapsOf(tables), tabled)
      && list.Valid() && ListAgrees(list.Items(), listed)
    }

    ghost predicate Valid()
      reads this, list, tables, owner.Keys, tab
    {
      Sound(Keys, Keys)
    }

    constructor (tab: array<bv32>, tables: seq<Dict>, list: SkipList, ghost owner: map<object, int>)
      requires tab.Length == 256 && Crc32.IsTable(tab[..]) && tab !in owner && |tables| > 0
      requires AllValid(tables, owner) && TablesAgree(MapsOf(tables), {})
      requires OwnedBy(ListRepr(list), owner, -1) && list.Valid() && ListAgrees(list.Items(), {})
      ensures Valid() && Keys == {} && this.tab == tab && size == |tables| && this.tables == tables && this.list == list
      ensures this.owner == owner
    {
      hide Dictionary.Dict.Valid, SkipLists.SkipList.Valid, SkipLists.SkipList.Items, OwnedBy, Claim, MapsOf, TablesAgree,
        ListAgrees, Crc32.IsTable;
      this.tab, this.size, this.tables, this.list, Keys := tab, |tables|, tables, list, {};
      this.owner := owner;
    }

    /** The skip list shares no object with the tables. */
    lemma ListApart(tabled: set<Key>, listed: set<Key>)
      requires Sound(tabled, listed)
      ensures forall s :: 0 <= s < |tables| ==> tables[s].Repr !! ListRepr(list)
      ensures ListRepr(list) <= owner.Keys
    {
      hide OwnedBy, Dictionary.Dict.Valid, SkipLists.SkipList.Valid, SkipLists.SkipList.Items, TablesAgree, ListAgrees;
      forall s | 0 <= s < |tables|
        ensures tables[s].Repr !! ListRepr(list)
      {
        DisjointOwned(owner, tables[s].Repr, ListRepr(list), s, -1);
      }
      OwnedKeys(owner, ListRepr(list), -1);
    }

    /** The part of `Slots_Add` on the table of the slot. */
    method AddKeyToTable(slot: nat, key: Key, crc: nat, canResize: bool) returns (ok: bool)
      requires Valid() && |Keys| <= HashTable.LONG_MAX && slot == SlotOf(key, size) && crc == CrcOf(key)
      modifies this`owner, owner.Keys
      ensures Sound(Keys + {key}, Keys) && ok == (key !in Keys)
      ensures (forall o :: o in owner ==> o in old(owner) || fresh(o)) && Keys == old(Keys)
    {
      hide Decimal.Print, CrcOf, SlotOf, Dictionary.Dict.Valid, SkipLists.SkipList.Valid, SkipLists.SkipList.Items, OwnedBy,
        Claim, TablesAgree, ListAgrees, Crc32.IsTable, Extends;
      ListApart(Keys, Keys);
      SlotBelowSize(key, size);
      ghost var maps, owner0 := MapsOf(tables), owner;
      TableSize(maps, Keys, slot);
      OwnedKeys(owner, tables[slot].Repr, slot);
      ok, owner := AddToTable(tables, slot, key, Decimal.Print(crc), canResize, owner);
      OwnedExtends(ListRepr(list), owner0, owner, -1);
      AfterAdd(maps, Keys, key, ok, MapsOf(tables));
    }

    /** The part of `Slots_Add` on the skip list. */
    method AddKeyToList(key: Key, crc: nat)
      requires Sound(Keys + {key}, Keys) && key !in Keys && HasTag(key) && crc == CrcOf(key)
      modifies this`owner, owner.Keys
      ensures Sound(Keys + {key}, Keys + {key})
      ensures (forall o :: o in owner ==> o in old(owner) || fresh(o)) && Keys == old(Keys)
    {
      hide Decimal.Print, CrcOf, SlotOf, Dictionary.Dict.Valid, SkipLists.SkipList.Valid, OwnedBy, Claim, TablesAgree,
        ListAgrees, Crc32.IsTable, Extends, MapsOf, InsertItem, HasTag;
      ListApart(Keys + {key}, Keys);
      ListAdds(list.Items(), Keys, key);
      ghost var before := ListRepr(list);
      var h: nat :| 1 <= h <= SkipLinks.MAXLEVEL;
      var _ := list.Insert(crc, key, h);
      ListGrew(before);
      owner := Claim(owner, ListRepr(list), -1);
    }

    /** The skip list kept its nodes or took new ones. */
    lemma ListGrew(before: set<object>)
      requires Owns(tables, owner) && OwnedBy(before, owner, -1)
      requires forall o :: o in ListRepr(list) - before ==> o !in owner
      ensures var owner' := Claim(owner, ListRepr(list), -1);
        && Owns(tables, owner') && OwnedBy(ListRepr(list), owner', -1)
        && owner'.Keys == owner.Keys + ListRepr(list)
    {
      ClaimList(tables, owner, list);
    }

    lemma TabOk()
      requires Valid()
      ensures tab.Length == 256 && Crc32.IsTable(tab[..]) && size == |tables| > 0
    {}

    lemma NotOwned(tabled: set<Key>, listed: set<Key>)
      requires Sound(tabled, listed)
      ensures this !in owner
    {}

    lemma UntaggedAdded(key: Key)
      requires Sound(Keys + {key}, Keys) && key !in Keys && !HasTag(key)
      ensures Sound(Keys + {key}, Keys + {key})
    {
      hide Dictionary.Dict.Valid, SkipLists.SkipList.Valid, OwnedBy, TablesAgree, Crc32.IsTable, MapsOf;
      ListAdds(list.Items(), Keys, key);
    }

    lemma UntaggedDeleted(key: Key)
      requires Sound(Keys - {key}, Keys) && !HasTag(key)
      ensures Sound(Keys - {key}, Keys - {key})
    {
      hide Dictionary.Dict.Valid, SkipLists.SkipList.Valid, OwnedBy, TablesAgree, Crc32.IsTable, MapsOf;
      ListDrops(list.Items(), Keys, key);
    }

    /** `Slots_Add` */
    method Add(key: Key, canResize: bool)
      requires Valid() && |Keys| <= HashTable.LONG_MAX
      modifies this, owner.Keys
      ensures Valid() && (forall o :: o in owner ==> o in old(owner) || fresh(o)) && Keys == old(Keys) + {key}
    {
      hide CrcOf, SlotOf, HasTag, Sound, Crc32.IsTable;
      TabOk();
      var slot, crc, hastag := SlotsNum(tab, key, size);
      var r := AddKeyToTable(slot, key, crc, canResize);
      if !r {
        assert Keys + {key} == Keys;
        return;
      }
      if hastag {
        AddKeyToList(key, crc);
      } else {
        UntaggedAdded(key);
      }
      NotOwned(Keys + {key}, Keys + {key});
      Keys := Keys + {key};
    }

    /** The part of `Slots_Del` on the table of the slot. */
    method DeleteKeyFromTable(slot: nat, key: Key) returns (ok: bool)
      requires Valid() && slot == SlotOf(key, size)
      modifies this`owner, owner.Keys
      ensures Sound(Keys - {key}, Keys) && ok == (key in Keys)
      ensures (forall o :: o in owner ==> o in old(owner) || fresh(o)) && Keys == old(Keys)
    {
      hide Decimal.Print, CrcOf, SlotOf, Dictionary.Dict.Valid, SkipLists.SkipList.Valid, SkipLists.SkipList.Items, OwnedBy,
        Claim, TablesAgree, ListAgrees, Crc32.IsTable, Extends;
      ListApart(Keys, Keys);
      SlotBelowSize(key, size);
      TableDrops(MapsOf(tables), Keys, key);
      OwnedKeys(owner, tables[slot].Repr, slot);
      ghost var owner0 := owner;
      ok, owner := DeleteFromTable(tables, slot, key, owner);
      OwnedExtends(ListRepr(list), owner0, owner, -1);
    }

    /** The part of `Slots_Del` on the skip list. */
    method DeleteKeyFromList(key: Key, crc: nat)
      requires Sound(Keys - {key}, Keys) && crc == CrcOf(key)
      modifies this`owner, owner.Keys
      ensures Sound(Keys - {key}, Keys - {key})
      ensures (forall o :: o in owner ==> o in old(owner) || fresh(o)) && Keys == old(Keys)
    {
      hide Decimal.Print, CrcOf, SlotOf, Dictionary.Dict.Valid, SkipLists.SkipList.Valid, OwnedBy, Claim, TablesAgree,
        ListAgrees, Crc32.IsTable, Extends, MapsOf, RemoveItem, HasTag;
      ListApart(Keys - {key}, Keys);
      ListDrops(list.Items(), Keys, key);
      ghost var before := ListRepr(list);
      var _, _ := list.Delete(crc, key);
      ListGrew(before);
      owner := Claim(owner, ListRepr(list), -1);
    }

    /** `Slots_Del` */
    method Del(key: Key)
      requires Valid()
      modifies this, owner.Keys
      ensures Valid() && (forall o :: o in owner ==> o in old(owner) || fresh(o)) && Keys == old(Keys) - {key}
    {
      hide CrcOf, SlotOf, HasTag, Sound, Crc32.IsTable;
      TabOk();
      var slot, crc, hastag := SlotsNum(tab, key, size);
      var r := DeleteKeyFromTable(slot, key);
      if !r {
        assert Keys - {key} == Keys;
        return;
      }
      if hastag {
        DeleteKeyFromList(key, crc);
      } else {
        UntaggedDeleted(key);
      }
      NotOwned(Keys - {key}, Keys - {key});
      Keys := Keys - {key};
    }

    /** A random key of a slot. */
    method RandomKey(slot: nat) returns (key: Option<Key>)
      requires Valid() && slot < size
      modifies this`owner, owner.Keys
      ensures Valid() && Keys == old(Keys)
      ensures (forall o :: o in owner ==> o in old(owner) || fresh(o))
      ensures key.None? <==> forall k :: k in Keys ==> SlotOf(k, size) != slot
      ensures key.Some? ==> key.value in Keys && SlotOf(key.value, size) == slot
    {
      hide Decimal.Print, CrcOf, SlotOf, Dictionary.Dict.Valid, SkipLists.SkipList.Valid, SkipLists.SkipList.Items, OwnedBy,
        Claim, TablesAgree, ListAgrees, Crc32.IsTable, Extends;
      ListApart(Keys, Keys);
      OwnedKeys(owner, tables[slot].Repr, slot);
      ghost var owner0 := owner;
      key, owner := RandomFromTable(tables, slot, owner);
      OwnedExtends(ListRepr(list), owner0, owner, -1);
      Parts(slot);
    }

    /** What the cron does to the table of a slot: the keys of the index stay. */
    method TendSlot(slot: nat, canResize: bool, rounds: nat)
      requires Valid() && slot < size
      modifies this`owner, owner.Keys
      ensures Valid() && Keys == old(Keys)
      ensures (forall o :: o in owner ==> o in old(owner) || fresh(o))
      ensures var d := tables[slot];
        d.rehashidx != -1 ==> d.rehashidx >= 100 * rounds + if old(d.rehashidx) == -1 then 0 else old(d.rehashidx)
    {
      hide Decimal.Print, CrcOf, SlotOf, Dictionary.Dict.Valid, SkipLists.SkipList.Valid, SkipLists.SkipList.Items, OwnedBy,
        Claim, TablesAgree, ListAgrees, Crc32.IsTable, Extends;
      ListApart(Keys, Keys);
      OwnedKeys(owner, tables[slot].Repr, slot);
      ghost var owner0 := owner;
      owner := TendTable(tables, slot, canResize, rounds, owner);
      OwnedExtends(ListRepr(list), owner0, owner, -1);
    }

    /** `m_dictScan` on the table of a slot. */
    method ScanSlot(slot: nat, v: Word) returns (emitted: seq<Key>, v': Word)
      requires Valid() && slot < size
      ensures tables[slot].Valid() && (emitted, v') == DictScan.Scan(tables[slot].hash, tables[slot].S(), v)
      ensures SlotScan(Keys, tables[slot].hash, slot, size, v, emitted, v')
      ensures (forall k :: k in Keys ==> SlotOf(k, size) != slot) ==> emitted == [] && v' == Zero()
    {
      hide Sound, CrcOf, SlotOf, Dictionary.Dict.Valid, Pos, Zero;
      TabOk();
      Parts(slot);
      EmptyTableOf(tables[slot].Contents, Keys, slot, size);
      emitted, v' := ScanTable(tables[slot], v);
    }

    /** The keys that `SlotsMGRT_TagKeys` migrates with a tagged key: all tagged keys with the same CRC, in member
        order. */
    method TagGroup(key: Key) returns (keys: seq<Key>)
      requires Valid() && HasTag(key)
      ensures Ascending(keys)
      ensures forall k :: k in keys <==> k in Keys && HasTag(k) && CrcOf(k) == CrcOf(key)
      ensures forall k :: k in keys ==> SlotOf(k, size) == SlotOf(key, size)
    {
      hide CrcOf, HasTag, Sound, Crc32.IsTable, SkipLists.SkipList.Valid, SkipLists.SkipList.Items, Members, IsGroup,
        Dictionary.Dict.Valid;
      TabOk();
      var slot, crc, hastag := SlotsNum(tab, key, size);
      SlotBelowSize(key, size);
      Parts(slot);
      var s := SizeOf(tables[slot]);
      if s == 0 {
        return [];
      }
      ghost var items := list.Items();
      var l, a, b := CollectGroup(list, crc);
      GroupMembers(items, Keys, crc, a, b);
      keys := TakeAll(l);
    }

    lemma Parts(slot: nat)
      requires Valid() && slot < |tables|
      ensures tables[slot].Valid() && TableAgrees(tables[slot].Contents, Keys, slot, size)
      ensures list.Valid() && list.nodes != [] && ListAgrees(list.Items(), Keys)
    {
      assert tables[slot].Contents == MapsOf(tables)[slot];
    }

    /** The part of `FlushdbCallback` on one database. */
    method Flush()
      requires Valid()
      modifies this, owner.Keys
      ensures Valid() && (forall o :: o in owner ==> o in old(owner) || fresh(o)) && Keys == {}
    {
      hide Sound;
      FlushTables();
      FlushList();
      NotOwned({}, {});
      Keys := {};
    }

    method FlushTables()
      requires Valid()
      modifies this`owner, owner.Keys
      ensures Sound({}, Keys)
      ensures (forall o :: o in owner ==> o in old(owner) || fresh(o)) && Keys == old(Keys)
    {
      hide Dictionary.Dict.Valid, SkipLists.SkipList.Valid, SkipLists.SkipList.Items, OwnedBy, Claim, TablesAgree,
        ListAgrees, Crc32.IsTable, Extends, MapsOf;
      ghost var owner0 := owner;
      ListUntabled();
      owner := EmptyTables(tables, owner);
      OwnedExtends(ListRepr(list), owner0, owner, -1);
      NoneAgree(tables);
    }

    lemma ListUntabled()
      requires OwnedBy(ListRepr(list), owner, -1)
      ensures ListRepr(list) !! Tabled(owner) && Tabled(owner) <= owner.Keys
    {}

    method FlushList()
      requires Sound({}, Keys)
      modifies this`owner, this`list, owner.Keys
      ensures Sound({}, {})
      ensures (forall o :: o in owner ==> o in old(owner) || fresh(o)) && Keys == old(Keys)
    {
      hide Dictionary.Dict.Valid, SkipLists.SkipList.Valid, SkipLists.SkipList.Items, OwnedBy, Claim, TablesAgree,
        Crc32.IsTable, Extends, MapsOf, ListAgrees;
      ghost var before := ListRepr(list);
      OwnedKeys(owner, before, -1);
      list := EmptyList(list);
      ListGrew(before);
      owner := Claim(owner, ListRepr(list), -1);
      NothingListed();
    }
  }

  lemma NothingListed()
    ensures ListAgrees([], {})
  {}

  /** A new list, unless this one is empty. */
  method EmptyList(l: SkipList) returns (r: SkipList)
    requires l.Valid()
    ensures r.Valid() && r.Items() == [] && (r == l || fresh(ListRepr(r)))
  {
    if l.length != 0 {
      r := new SkipLists.SkipList();
    } else {
      r := l;
    }
  }

  /** What `Slots_Init` sets up for one database. */
  method NewDbInfo(tab: array<bv32>, size: nat, hash: HashTable.Hash) returns (info: DbInfo)
    requires tab.Length == 256 && Crc32.IsTable(tab[..]) && size > 0
    ensures info.Valid() && fresh(info) && fresh(info.owner.Keys) && info.Keys == {} && info.tab == tab && info.size == size
  {
    var tables, owner := NewTables(size, hash);
    var list := new SkipLists.SkipList();
    hide Dictionary.Dict.Valid, SkipLists.SkipList.Valid, SkipLists.SkipList.Items, OwnedBy, Claim, MapsOf, TablesAgree,
      ListAgrees, Crc32.IsTable, DbInfo.Sound;
    ClaimList(tables, owner, list);
    NoneAgree(tables);
    info := new DbInfo(tab, tables, list, Claim(owner, ListRepr(list), -1));
  }

  lemma NoneAgree(tables: seq<Dict>)
    requires |tables| > 0 && forall s :: 0 <= s < |tables| ==> MapsOf(tables)[s] == map[]
    ensures |MapsOf(tables)| == |tables| && TablesAgree(MapsOf(tables), {}) && ListAgrees([], {})
  {}

  /** The skip list takes new objects; the tables keep theirs. */
  lemma ClaimList(tables: seq<Dict>, owner: map<object, int>, l: SkipList)
    requires Owns(tables, owner) && forall o :: o in ListRepr(l) && o in owner ==> owner[o] == -1
    ensures Owns(tables, Claim(owner, ListRepr(l), -1)) && OwnedBy(ListRepr(l), Claim(owner, ListRepr(l), -1), -1)
    ensures Claim(owner, ListRepr(l), -1).Keys == owner.Keys + ListRepr(l)
  {
    forall s | 0 <= s < |tables|
      ensures OwnedBy(tables[s].Repr, Claim(owner, ListRepr(l), -1), s)
    {}
  }
}
