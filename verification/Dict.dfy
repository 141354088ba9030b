/**
  The dictionary itself: tables of linked entries that are updated in place.
*/
module Dictionary {
  import opened Keys
  import opened Words
  import opened HashTable
  import opened DictSpec
  import opened Cursor
  import DictScan
  import DictRehash
  import DictGrowth

  type Value = seq<byte>

  /** `m_dictEntry` */
  class Entry {
    const key: Key
    var val: Value
    var next: Entry?

    constructor (key: Key, next: Entry?)
      ensures this.key == key && this.next == next
    {
      this.key := key;
      this.val := [];
      this.next := next;
    }
  }

  /** `dictht`: a `NULL` table is one without buckets. */
  datatype Ht = Ht(table: array<Entry?>, sizemask: Word, used: nat)

  // ---------------------------------------------------------------- chains of entries

  type Nodes = seq<seq<Entry>>

  ghost function ChainKeys(chain: seq<Entry>): (keys: seq<Key>)
    ensures |keys| == |chain|
  {
    seq(|chain|, j requires 0 <= j < |chain| => chain[j].key)
  }

  ghost function KeysOf(nodes: Nodes): (c: Chains)
    ensures |c| == |nodes|
    ensures forall b :: 0 <= b < |c| ==> c[b] == ChainKeys(nodes[b])
  {
    seq(|nodes|, b requires 0 <= b < |nodes| => ChainKeys(nodes[b]))
  }

  ghost function First(chain: seq<Entry>): Entry?
  {
    if chain == [] then null else chain[0]
  }

  ghost function After(chain: seq<Entry>, j: nat): Entry?
    requires j < |chain|
  {
    if j + 1 < |chain| then chain[j + 1] else null
  }

  ghost predicate AllIn(nodes: Nodes, entries: set<Entry>)
  {
    forall b, j :: 0 <= b < |nodes| && 0 <= j < |nodes[b]| ==> nodes[b][j] in entries
  }

  ghost predicate Absent(e: Entry, nodes: Nodes)
  {
    forall b, j :: 0 <= b < |nodes| && 0 <= j < |nodes[b]| ==> nodes[b][j] != e
  }

  /** The `next` fields of the entries are those of the chains. */
  ghost predicate ChainsLinked(nodes: Nodes, entries: set<Entry>)
    requires AllIn(nodes, entries)
    reads entries`next
  {
    forall b, j {:trigger nodes[b][j].next} ::
      0 <= b < |nodes| && 0 <= j < |nodes[b]| ==> nodes[b][j].next == After(nodes[b], j)
  }

  ghost predicate HeadsLinked(table: array<Entry?>, nodes: Nodes)
    reads table
  {
    table.Length == |nodes| && forall b :: 0 <= b < |nodes| ==> table[b] == First(nodes[b])
  }

  /** The values of the entries are those of the map. */
  ghost predicate ValuesStored(entries: set<Entry>, contents: map<Key, Value>)
    reads entries`val
  {
    forall e :: e in entries ==> e.key in contents && contents[e.key] == e.val
  }

  ghost predicate OneEntryPerKey(entries: set<Entry>)
  {
    forall e, f :: e in entries && f in entries && e.key == f.key ==> e == f
  }

  /** The map has exactly the keys of the tables. */
  ghost predicate Describes(contents: map<Key, Value>, hash: Hash, s: State)
  {
    forall k :: k in contents <==> Contains(hash, s, k)
  }

  lemma LinkDescribes(contents: map<Key, Value>, hash: Hash, s: State, k: Key, v: Value)
    requires Inv(hash, s) && |s.ht0.chains| > 0 && !Contains(hash, s, k) && Describes(contents, hash, s)
    ensures Inv(hash, Link(hash, s, k)) && Describes(contents[k := v], hash, Link(hash, s, k))
  {
    LinkAdds(hash, s, k);
  }

  lemma EmptyDescribes(hash: Hash)
    ensures Inv(hash, DictSpec.Empty()) && Describes(map[], hash, DictSpec.Empty())
    ensures DictSpec.Empty() == State(Table(KeysOf([]), 0), Table(KeysOf([]), 0), -1, 0)
  {}

  lemma UpdateTwice(m: map<Key, Value>, k: Key, a: Value, b: Value)
    ensures m[k := a][k := b] == m[k := b]
  {}

  lemma EnterValue(entries: set<Entry>, contents: map<Key, Value>, e: Entry)
    requires ValuesStored(entries, contents) && e.key !in contents && OneEntryPerKey(entries)
    ensures ValuesStored(entries + {e}, contents[e.key := e.val]) && OneEntryPerKey(entries + {e})
  {}

  lemma RemovedDescribes(contents: map<Key, Value>, hash: Hash, s: State, k: Key)
    requires Inv(hash, s) && Contains(hash, s, k) && Describes(contents, hash, s)
    ensures Inv(hash, Removed(hash, s, k)) && Describes(contents - {k}, hash, Removed(hash, s, k))
  {
    RemovedKeeps(hash, s, k);
  }

  ghost predicate MaskOk(h: Ht)
  {
    h.table.Length > 0 ==> h.sizemask == FromNat(h.table.Length - 1)
  }

  // ---------------------------------------------------------------- steps on one table

  lemma KeysOfUpdate(nodes: Nodes, b: nat, chain: seq<Entry>)
    requires b < |nodes|
    ensures KeysOf(nodes[b := chain]) == KeysOf(nodes)[b := ChainKeys(chain)]
  {}

  /** No entry of the chains has the key `k`, so none of them is `e`. */
  lemma NotAmong(hash: Hash, nodes: Nodes, e: Entry)
    requires WellPlaced(hash, KeysOf(nodes)) && !Holds(hash, KeysOf(nodes), e.key)
    ensures Absent(e, nodes)
  {
    forall b, j | 0 <= b < |nodes| && 0 <= j < |nodes[b]|
      ensures nodes[b][j] != e
    {
      assert KeysOf(nodes)[b][j] == nodes[b][j].key;
      InSomeChain(hash, KeysOf(nodes), b, nodes[b][j].key);
    }
  }

  /** Put `e` at the head of chain `index`. */
  method LinkHead(table: array<Entry?>, ghost nodes: Nodes, e: Entry, index: nat, ghost entries: set<Entry>)
    requires AllIn(nodes, entries) && e in entries && index < |nodes|
    requires HeadsLinked(table, nodes) && ChainsLinked(nodes, entries)
    requires Absent(e, nodes)
    modifies table, e`next
    ensures var nodes' := nodes[index := [e] + nodes[index]];
      AllIn(nodes', entries) && HeadsLinked(table, nodes') && ChainsLinked(nodes', entries)
  {
    e.next := table[index];
    table[index] := e;
  }

  /** Walk the chain that the hash selects. */
  method Search(hash: Hash, h: Ht, k: Key, ghost nodes: Nodes, ghost entries: set<Entry>)
    returns (e: Entry?, ghost b: nat, ghost j: nat)
    requires h.table.Length > 0 && MaskOk(h)
    requires AllIn(nodes, entries) && HeadsLinked(h.table, nodes) && ChainsLinked(nodes, entries)
    requires WellPlaced(hash, KeysOf(nodes))
    ensures e == null <==> !Holds(hash, KeysOf(nodes), k)
    ensures e != null ==>
      && b == Index(hash(k), |nodes|) < |nodes| && j < |nodes[b]| && nodes[b][j] == e && e.key == k
      && k in KeysOf(nodes)[b] && j == Place(KeysOf(nodes)[b], k)
  {
    IndexIsBucket(hash(k), |nodes|);
    var idx := Num(And(hash(k), h.sizemask));
    b, j := idx, 0;
    e := h.table[idx];
    while e != null
      invariant j <= |nodes[b]|
      invariant e == if j < |nodes[b]| then nodes[b][j] else null
      invariant forall i :: 0 <= i < j ==> KeysOf(nodes)[b][i] != k
      decreases |nodes[b]| - j
    {
      if e.key == k {
        assert KeysOf(nodes)[b][j] == k;
        PlaceIsFirst(KeysOf(nodes)[b], k, j);
        return;
      }
      e := e.next;
      j := j + 1;
    }
  }

  lemma {:induction false} PlaceIsFirst(chain: seq<Key>, k: Key, j: nat)
    requires j < |chain| && chain[j] == k && forall i :: 0 <= i < j ==> chain[i] != k
    ensures Place(chain, k) == j
  {
    if j > 0 {
      assert chain[0] != k;
      PlaceIsFirst(chain[1..], k, j - 1);
    }
  }

  // ---------------------------------------------------------------- moving a chain

  /** The entries of `rest` are in no chain of either table, and their keys are new to the second one. */
  ghost predicate Loose(hash: Hash, rest: seq<Entry>, nodes0: Nodes, nodes1: Nodes)
  {
    && (forall j :: 0 <= j < |rest| ==> Absent(rest[j], nodes0))
    && NoDuplicates(ChainKeys(rest))
    && WellPlaced(hash, KeysOf(nodes1)) && |nodes1| > 0
    && (forall j :: 0 <= j < |rest| ==> !Holds(hash, KeysOf(nodes1), rest[j].key))
  }

  /** Taking one chain out leaves the others, and itself, linked as they are. */
  lemma ChainRest(nodes: Nodes, r: nat, entries: set<Entry>)
    requires AllIn(nodes, entries) && ChainsLinked(nodes, entries) && r < |nodes|
    ensures AllIn(nodes[r := []], entries) && ChainsLinked(nodes[r := []], entries)
    ensures AllIn([nodes[r]], entries) && ChainsLinked([nodes[r]], entries)
  {}

  lemma LooseStart(hash: Hash, nodes0: Nodes, nodes1: Nodes, r: nat)
    requires WellPlaced(hash, KeysOf(nodes0)) && WellPlaced(hash, KeysOf(nodes1))
    requires Apart(hash, KeysOf(nodes0), KeysOf(nodes1)) && r < |nodes0| && |nodes1| > 0
    ensures Loose(hash, nodes0[r], nodes0[r := []], nodes1)
  {
    var c := KeysOf(nodes0);
    forall j | 0 <= j < |nodes0[r]|
      ensures Absent(nodes0[r][j], nodes0[r := []]) && !Holds(hash, KeysOf(nodes1), nodes0[r][j].key)
    {
      assert c[r][j] == nodes0[r][j].key;
      InSomeChain(hash, c, r, nodes0[r][j].key);
      forall b, i | 0 <= b < |nodes0| && b != r && 0 <= i < |nodes0[b]|
        ensures nodes0[b][i] != nodes0[r][j]
      {
        assert c[b][i] == nodes0[b][i].key;
      }
    }
  }

  lemma LooseStep(hash: Hash, rest: seq<Entry>, nodes0: Nodes, nodes1: Nodes)
    requires Loose(hash, rest, nodes0, nodes1) && rest != []
    ensures Absent(rest[0], nodes0) && Absent(rest[0], nodes1) && Absent(rest[0], [rest[1..]])
    ensures var h := Index(hash(rest[0].key), |nodes1|);
      && h < |nodes1| && IsSize(|nodes1|)
      && var nodes1' := nodes1[h := [rest[0]] + nodes1[h]];
        && Loose(hash, rest[1..], nodes0, nodes1')
        && MoveChain(hash, ChainKeys(rest), KeysOf(nodes1)) == MoveChain(hash, ChainKeys(rest[1..]), KeysOf(nodes1'))
  {
    var e := rest[0];
    var h := Index(hash(e.key), |nodes1|);
    IndexIsBucket(hash(e.key), |nodes1|);
    NotAmong(hash, nodes1, e);
    PushPlaces(hash, KeysOf(nodes1), e.key);
    KeysOfUpdate(nodes1, h, [e] + nodes1[h]);
    assert ChainKeys([e] + nodes1[h]) == [e.key] + KeysOf(nodes1)[h];
    assert ChainKeys(rest)[1..] == ChainKeys(rest[1..]);
    forall j | 0 <= j < |rest[1..]|
      ensures rest[1..][j].key != e.key
    {
      assert ChainKeys(rest)[j + 1] != ChainKeys(rest)[0];
    }
  }

  // ---------------------------------------------------------------- taking an entry out of a chain

  /** Different places of the chains hold different entries. */
  lemma DistinctPlaces(hash: Hash, nodes: Nodes, b: nat, j: nat)
    requires WellPlaced(hash, KeysOf(nodes)) && b < |nodes| && j < |nodes[b]|
    ensures forall c, i :: 0 <= c < |nodes| && 0 <= i < |nodes[c]| && (c != b || i != j) ==> nodes[c][i] != nodes[b][j]
  {
    forall c, i | 0 <= c < |nodes| && 0 <= i < |nodes[c]| && (c != b || i != j)
      ensures nodes[c][i] != nodes[b][j]
    {
      DistinctKeys(hash, KeysOf(nodes), b, j, c, i);
      assert KeysOf(nodes)[b][j] == nodes[b][j].key && KeysOf(nodes)[c][i] == nodes[c][i].key;
    }
  }

  lemma DistinctKeys(hash: Hash, keys: Chains, b: nat, j: nat, c: nat, i: nat)
    requires WellPlaced(hash, keys) && b < |keys| && j < |keys[b]| && c < |keys| && i < |keys[c]|
    requires c != b || i != j
    ensures keys[c][i] != keys[b][j]
  {
    assert keys[c][i] in keys[c] && keys[b][j] in keys[b];
    assert Index(hash(keys[c][i]), |keys|) == c && Index(hash(keys[b][j]), |keys|) == b;
    assert NoDuplicates(keys[b]);
  }

  /** Walk the chain that the hash selects, remembering the entry before. */
  method SearchWithPrevious(hash: Hash, h: Ht, k: Key, ghost nodes: Nodes, ghost entries: set<Entry>)
    returns (he: Entry?, prevHe: Entry?, idx: nat, ghost j: nat)
    requires h.table.Length > 0 && MaskOk(h)
    requires AllIn(nodes, entries) && HeadsLinked(h.table, nodes) && ChainsLinked(nodes, entries)
    requires WellPlaced(hash, KeysOf(nodes))
    ensures he == null <==> !Holds(hash, KeysOf(nodes), k)
    ensures idx == Index(hash(k), |nodes|) < |nodes|
    ensures he != null ==>
      && j < |nodes[idx]| && nodes[idx][j] == he && he.key == k
      && k in KeysOf(nodes)[idx] && j == Place(KeysOf(nodes)[idx], k)
      && prevHe == if j == 0 then null else nodes[idx][j - 1]
  {
    IndexIsBucket(hash(k), |nodes|);
    idx := Num(And(hash(k), h.sizemask));
    j := 0;
    he := h.table[idx];
    prevHe := null;
    while he != null
      invariant j <= |nodes[idx]|
      invariant he == if j < |nodes[idx]| then nodes[idx][j] else null
      invariant prevHe == if j == 0 then null else nodes[idx][j - 1]
      invariant forall i :: 0 <= i < j ==> KeysOf(nodes)[idx][i] != k
      decreases |nodes[idx]| - j
    {
      if he.key == k {
        assert KeysOf(nodes)[idx][j] == k;
        PlaceIsFirst(KeysOf(nodes)[idx], k, j);
        return;
      }
      prevHe := he;
      he := he.next;
      j := j + 1;
    }
  }

  /** The chains without the entry at place `j` of chain `b`. */
  ghost function Without(nodes: Nodes, b: nat, j: nat): (r: Nodes)
    requires b < |nodes| && j < |nodes[b]|
    ensures |r| == |nodes|
  {
    nodes[b := nodes[b][..j] + nodes[b][j + 1..]]
  }

  lemma WithoutKeys(nodes: Nodes, b: nat, j: nat)
    requires b < |nodes| && j < |nodes[b]|
    ensures KeysOf(Without(nodes, b, j)) == Unlink(KeysOf(nodes), b, j)
  {
    KeysOfUpdate(nodes, b, nodes[b][..j] + nodes[b][j + 1..]);
    var keys := KeysOf(nodes)[b];
    assert ChainKeys(nodes[b][..j] + nodes[b][j + 1..]) == keys[..j] + keys[j + 1..];
  }

  lemma WithoutAbsent(hash: Hash, nodes: Nodes, b: nat, j: nat, entries: set<Entry>)
    requires WellPlaced(hash, KeysOf(nodes)) && b < |nodes| && j < |nodes[b]| && AllIn(nodes, entries)
    ensures AllIn(Without(nodes, b, j), entries - {nodes[b][j]})
  {
    DistinctPlaces(hash, nodes, b, j);
  }

  /** Take an entry out of its chain: `prev`, if not null, is the one before it. */
  method UnlinkEntry(table: array<Entry?>, ghost nodes: Nodes, b: nat, ghost j: nat, prev: Entry?, he: Entry,
                     ghost entries: set<Entry>)
    requires AllIn(nodes, entries) && HeadsLinked(table, nodes) && ChainsLinked(nodes, entries)
    requires b < |nodes| && j < |nodes[b]| && he == nodes[b][j]
    requires prev == (if j == 0 then null else nodes[b][j - 1])
    requires forall c, i :: 0 <= c < |nodes| && 0 <= i < |nodes[c]| && (c != b || i != j - 1) ==> nodes[c][i] != prev
    modifies table, entries`next
    ensures AllIn(Without(nodes, b, j), entries)
    ensures HeadsLinked(table, Without(nodes, b, j)) && ChainsLinked(Without(nodes, b, j), entries)
    ensures forall e :: e in entries && e != prev ==> e.next == old(e.next)
  {
    if prev != null {
      prev.next := he.next;
    } else {
      table[b] := he.next;
    }
  }

  class Dict {
    const hash: Hash
    var ht0: Ht
    var ht1: Ht
    var rehashidx: int
    var iterators: nat

    ghost var nodes0: Nodes
    ghost var nodes1: Nodes
    ghost var entries: set<Entry>
    ghost var Contents: map<Key, Value>
    ghost var Repr: set<object>

    /** The abstract state. */
    ghost function S(): State
      reads this
    {
      State(Table(KeysOf(nodes0), ht0.used), Table(KeysOf(nodes1), ht1.used), rehashidx, iterators)
    }

    ghost predicate Shape()
      reads this, Repr
    {
      && this in Repr && ht0.table in Repr && ht1.table in Repr && ht0.table != ht1.table
      && entries <= Repr && AllIn(nodes0, entries) && AllIn(nodes1, entries)
      && HeadsLinked(ht0.table, nodes0) && HeadsLinked(ht1.table, nodes1)
      && ChainsLinked(nodes0, entries) && ChainsLinked(nodes1, entries)
      && MaskOk(ht0) && MaskOk(ht1)
    }

    ghost predicate Valid()
      reads this, Repr
    {
      && Shape()
      && Inv(hash, S())
      && Describes(Contents, hash, S())
      && ValuesStored(entries, Contents) && OneEntryPerKey(entries)
    }

    /** `m_dictCreate` */
    constructor (hash: Hash)
      ensures Valid() && fresh(Repr)
      ensures this.hash == hash && S() == DictSpec.Empty() && Contents == map[]
      ensures ht0.table.Length == 0 && ht1.table.Length == 0 && rehashidx == -1 && iterators == 0
    {
      this.hash := hash;
      var t0 := new Entry?[0];
      var t1 := new Entry?[0];
      ht0 := Ht(t0, Zero(), 0);
      ht1 := Ht(t1, Zero(), 0);
      rehashidx := -1;
      iterators := 0;
      nodes0 := [];
      nodes1 := [];
      entries := {};
      Contents := map[];
      Repr := {this, t0, t1};
    }

    // -------------------------------------------------------------- sizes

    /** `_dictNextPower` */
    static method NextPowerOf(size: nat) returns (i: nat)
      ensures i == NextPower(size)
    {
      if size >= LONG_MAX {
        return LONG_MAX + 1;
      }
      i := INITIAL_SIZE;
      while i < size
        invariant i > 0
        invariant DoubleUntil(i, size) == DoubleUntil(INITIAL_SIZE, size)
      {
        i := i * 2;
      }
    }

    static method NewTable(size: nat) returns (h: Ht)
      requires size > 0
      ensures fresh(h.table) && h.table.Length == size && MaskOk(h) && h.used == 0
      ensures HeadsLinked(h.table, seq(size, i => []))
    {
      var t := new Entry?[size](i => null);
      h := Ht(t, FromNat(size - 1), 0);
    }

    /** `m_dictExpand` */
    method Expand(size: nat) returns (ok: bool)
      requires Valid()
      modifies this
      ensures Valid() && fresh(Repr - old(Repr)) && Contents == old(Contents) && entries == old(entries)
      ensures (S(), ok) == DictSpec.Expand(old(S()), size)
    {
      if rehashidx != -1 || ht0.used > size {
        return false;
      }
      var realsize := NextPowerOf(size);
      if realsize == ht0.table.Length {
        return false;
      }
      ExpandKeeps(hash, S(), size);
      NextPowerIsSize(size);
      var n := NewTable(realsize);
      Install(n, size);
      return true;
    }

    /** The last part of `m_dictExpand`: the new table becomes the first one, or the target of a migration. */
    method Install(n: Ht, ghost size: nat)
      requires Valid() && DictSpec.Expand(S(), size).1 && NextPower(size) == n.table.Length > 0
      requires n.table !in Repr && MaskOk(n) && n.used == 0
      requires HeadsLinked(n.table, seq(n.table.Length, i => []))
      modifies this
      ensures Valid() && Repr == old(Repr) + {n.table} && Contents == old(Contents) && entries == old(entries)
      ensures S() == DictSpec.Expand(old(S()), size).0
    {
      hide NextPower, WellPlaced, Holds, Num, FromNat, ChainKeys, Inv;
      ExpandKeeps(hash, S(), size);
      ghost var none: Nodes := seq(n.table.Length, i => []);
      assert KeysOf(none) == NoChains(n.table.Length);
      Repr := Repr + {n.table};
      if ht0.table.Length == 0 {
        ht0 := n;
        nodes0 := none;
      } else {
        ht1 := n;
        nodes1 := none;
        rehashidx := 0;
      }
      assert S() == DictSpec.Expand(old(S()), size).0;
    }

    /** `m_dictResize` */
    method Resize(canResize: bool) returns (ok: bool)
      requires Valid()
      modifies this
      ensures Valid() && fresh(Repr - old(Repr)) && Contents == old(Contents) && entries == old(entries)
      ensures (S(), ok) == DictSpec.Resize(old(S()), canResize)
      ensures ok <==>
        canResize && old(rehashidx) == -1 && old(ht0.used) < 0x8000_0000 &&
        !DictGrowth.SmallestSize(old(ht0.table.Length), old(ht0.used))
      ensures !ok ==> S() == old(S())
      ensures ok && old(ht0.table.Length) > 0 ==>
        rehashidx == 0 && DictGrowth.SmallestSize(ht1.table.Length, old(ht0.used))
    {
      DictGrowth.ResizeExact(hash, S(), canResize);
      if !canResize || rehashidx != -1 {
        return false;
      }
      var minimal := ToInt32(ht0.used);
      if minimal < INITIAL_SIZE {
        minimal := INITIAL_SIZE;
      }
      ok := Expand(minimal);
    }

    // -------------------------------------------------------------- rehashing

    /** While bucket `r` of the first table is being moved: `rest` is what is left of its chain, reached from
        nowhere but the moving loop; `nodes0[r]` is already empty although `table[r]` is not. */
    ghost predicate Moving(r: nat, rest: seq<Entry>)
      reads this, Repr
    {
      && this in Repr && ht0.table in Repr && ht1.table in Repr && ht0.table != ht1.table
      && entries <= Repr && AllIn(nodes0, entries) && AllIn(nodes1, entries) && AllIn([rest], entries)
      && r < |nodes0| == ht0.table.Length && nodes0[r] == []
      && (forall b :: 0 <= b < |nodes0| && b != r ==> ht0.table[b] == First(nodes0[b]))
      && HeadsLinked(ht1.table, nodes1)
      && ChainsLinked(nodes0, entries) && ChainsLinked(nodes1, entries) && ChainsLinked([rest], entries)
      && MaskOk(ht0) && MaskOk(ht1)
    }

    /** The body of the loop that moves a chain. */
    method MoveEntry(de: Entry, ghost r: nat, ghost rest: seq<Entry>) returns (nextde: Entry?)
      requires rest != [] && de == rest[0] && Moving(r, rest)
      requires Absent(de, nodes0) && Absent(de, nodes1) && Absent(de, [rest[1..]])
      requires |nodes1| > 0 && Index(hash(de.key), |nodes1|) < |nodes1|
      requires ht0.used > 0
      modifies this, ht1.table, de`next
      ensures nextde == First(rest[1..])
      ensures Repr == old(Repr) && Contents == old(Contents) && entries == old(entries) && nodes0 == old(nodes0)
      ensures rehashidx == old(rehashidx) && iterators == old(iterators)
      ensures Moving(r, rest[1..])
      ensures |nodes1| == |old(nodes1)| > 0
      ensures var h := Index(hash(de.key), |nodes1|);
        h < |nodes1| && nodes1 == old(nodes1)[h := [de] + old(nodes1)[h]]
      ensures ht0 == old(ht0).(used := old(ht0.used) - 1) && ht1 == old(ht1).(used := old(ht1.used) + 1)
    {
      nextde := de.next;
      assert [rest][0] == rest;
      var h := Num(And(hash(de.key), ht1.sizemask));
      LinkHead(ht1.table, nodes1, de, h, entries);
      nodes1 := nodes1[h := [de] + nodes1[h]];
      ht0 := ht0.(used := ht0.used - 1);
      ht1 := ht1.(used := ht1.used + 1);
    }

    /** The loop that moves a chain. */
    method MoveEntries(de0: Entry?, ghost r: nat, ghost chain: seq<Entry>)
      requires de0 == First(chain) && Moving(r, chain) && Loose(hash, chain, nodes0, nodes1)
      requires ht0.used >= |chain|
      modifies this, ht1.table, chain
      ensures Repr == old(Repr) && Contents == old(Contents) && entries == old(entries) && nodes0 == old(nodes0)
      ensures rehashidx == old(rehashidx) && iterators == old(iterators)
      ensures Moving(r, [])
      ensures forall e :: e in chain ==> e.val == old(e.val)
      ensures IsSize(|old(nodes1)|) && KeysOf(nodes1) == MoveChain(hash, ChainKeys(chain), old(KeysOf(nodes1)))
      ensures ht0 == old(ht0).(used := old(ht0.used) - |chain|) && ht1 == old(ht1).(used := old(ht1.used) + |chain|)
    {
      hide Holds, NoDuplicates, Absent, ChainsLinked, HeadsLinked, AllIn;
      var de := de0;
      ghost var rest := chain;
      ghost var goal := MoveChain(hash, ChainKeys(chain), KeysOf(nodes1));
      while de != null
        invariant Repr == old(Repr) && Contents == old(Contents) && entries == old(entries) && nodes0 == old(nodes0)
        invariant rehashidx == old(rehashidx) && iterators == old(iterators)
        invariant |rest| <= |chain| && rest == chain[|chain| - |rest|..] && de == First(rest)
        invariant forall e :: e in chain ==> e.val == old(e.val)
        invariant Moving(r, rest) && Loose(hash, rest, nodes0, nodes1)
        invariant MoveChain(hash, ChainKeys(rest), KeysOf(nodes1)) == goal
        invariant ht0 == old(ht0).(used := old(ht0.used) - (|chain| - |rest|))
        invariant ht1 == old(ht1).(used := old(ht1.used) + (|chain| - |rest|))
        decreases |rest|
      {
        LooseStep(hash, rest, nodes0, nodes1);
        de := MoveEntry(de, r, rest);
        rest := rest[1..];
      }
      assert rest == [];
    }

    /** Move every entry of bucket `rehashidx`, which is not empty, to the second table. */
    method MoveChainAt()
      requires Shape() && ValuesStored(entries, Contents) && Loop(hash, S()) && rehashidx < |nodes0|
      modifies Repr
      ensures Shape() && Repr == old(Repr) && Contents == old(Contents)
      ensures ValuesStored(entries, Contents) && entries == old(entries)
      ensures iterators == old(iterators) && rehashidx == old(rehashidx) + 1
      ensures 0 <= old(rehashidx) < |old(nodes0)| && nodes0 == old(nodes0)[old(rehashidx) := []]
      ensures IsSize(|old(nodes1)|)
      ensures KeysOf(nodes1) == MoveChain(hash, ChainKeys(old(nodes0)[old(rehashidx)]), KeysOf(old(nodes1)))
      ensures ht0.used == old(ht0.used) - |old(nodes0)[old(rehashidx)]|
      ensures ht1.used == old(ht1.used) + |old(nodes0)[old(rehashidx)]|
    {
      var r: nat := rehashidx;
      ghost var chain := nodes0[r];
      assert |chain| <= ht0.used && IsSize(|nodes1|) by { MoveBucketMoves(hash, S(), r); }
      assert Loose(hash, chain, nodes0[r := []], nodes1) by { LooseStart(hash, nodes0, nodes1, r); }
      ChainRest(nodes0, r, entries);
      var de := ht0.table[r];
      nodes0 := nodes0[r := []];
      MoveEntries(de, r, chain);
      ClearBucket(r);
    }

    method ClearBucket(r: nat)
      requires Moving(r, [])
      modifies this`rehashidx, ht0.table
      ensures Shape() && rehashidx == r + 1
    {
      ht0.table[r] := null;
      rehashidx := r + 1;
    }

    /** The inner loop of `m_dictRehash`: pass over empty buckets while the budget lasts. */
    method SkipEmpty(budget: nat) returns (left: nat)
      requires HeadsLinked(ht0.table, nodes0)
      requires rehashidx >= 0 && SomeFrom(KeysOf(nodes0), rehashidx) && budget > 0
      modifies this`rehashidx
      ensures rehashidx >= 0 && (rehashidx, left) == Skip(KeysOf(nodes0), old(rehashidx), budget)
    {
      left := budget;
      while ht0.table[rehashidx] == null
        invariant rehashidx >= 0 && SomeFrom(KeysOf(nodes0), rehashidx) && left > 0
        invariant Skip(KeysOf(nodes0), rehashidx, left) == Skip(KeysOf(nodes0), old(rehashidx), budget)
        decreases ht0.table.Length - rehashidx
      {
        rehashidx := rehashidx + 1;
        left := left - 1;
        if left == 0 {
          return;
        }
      }
    }

    lemma MovedState(s: State, nodes0': Nodes, nodes1': Nodes)
      requires Loop(hash, s) && s.rehashidx < |s.ht0.chains| == |nodes0'|
      requires KeysOf(nodes0') == s.ht0.chains[s.rehashidx := []]
      requires KeysOf(nodes1') == MoveChain(hash, s.ht0.chains[s.rehashidx], s.ht1.chains)
      ensures |s.ht0.chains[s.rehashidx]| <= s.ht0.used
      ensures var n := |s.ht0.chains[s.rehashidx]|;
        State(Table(KeysOf(nodes0'), s.ht0.used - n), Table(KeysOf(nodes1'), s.ht1.used + n), s.rehashidx + 1, s.iterators)
          == MoveBucket(hash, s, s.rehashidx)
    {
      MoveBucketMoves(hash, s, s.rehashidx);
    }

    method MigrateBucket()
      requires Shape() && ValuesStored(entries, Contents) && Loop(hash, S()) && rehashidx < |nodes0|
      modifies Repr
      ensures Shape() && Repr == old(Repr) && Contents == old(Contents)
      ensures ValuesStored(entries, Contents) && entries == old(entries)
      ensures 0 <= old(rehashidx) < |old(nodes0)| && |old(nodes0)[old(rehashidx)]| <= old(ht0.used)
      ensures IsSize(|old(nodes1)|)
      ensures S() == MoveBucket(hash, old(S()), old(rehashidx))
    {
      ghost var s := S();
      KeysOfUpdate(nodes0, rehashidx, []);
      MoveChainAt();
      MovedState(s, nodes0, nodes1);
    }

    lemma RoundFrom(s: State, budget: nat)
      requires Loop(hash, s) && s.ht0.used > 0 && budget > 0
      ensures SomeFrom(s.ht0.chains, s.rehashidx)
      ensures var (i, left) := Skip(s.ht0.chains, s.rehashidx, budget);
        && i < |s.ht0.chains| && |s.ht0.chains[i]| <= s.ht0.used
        && Round(hash, s, budget)
          == (if left == 0 then s.(rehashidx := i) else MoveBucket(hash, s.(rehashidx := i), i), left)
    {
      SkipKeepsLoop(hash, s, budget);
    }

    /** One round of the outer loop of `m_dictRehash`. */
    method MoveNext(budget: nat) returns (left: nat)
      requires Shape() && ValuesStored(entries, Contents) && Loop(hash, S()) && ht0.used > 0 && budget > 0
      modifies Repr
      ensures Shape() && Repr == old(Repr) && Contents == old(Contents)
      ensures ValuesStored(entries, Contents) && entries == old(entries)
      ensures (S(), left) == Round(hash, old(S()), budget)
    {
      ghost var s := S();
      SkipKeepsLoop(hash, s, budget);
      left := SkipEmpty(budget);
      ghost var t := s.(rehashidx := rehashidx);
      assert S() == t;
      RoundFrom(s, budget);
      if left > 0 {
        MigrateBucket();
      }
    }

    /** The outer loop of `m_dictRehash`. */
    method RehashRounds(n0: nat, ghost s0: State) returns (gaveUp: bool, ghost n: nat, ghost budget: nat)
      requires Shape() && ValuesStored(entries, Contents) && S() == s0 && Loop(hash, s0)
      modifies Repr
      ensures Shape() && Repr == old(Repr) && Contents == old(Contents)
      ensures ValuesStored(entries, Contents) && entries == old(entries)
      ensures Loop(hash, S())
      ensures if gaveUp then RehashLoop(hash, s0, n0, n0 * 10) == (S(), true)
        else AfterRounds(hash, s0, n0, n0 * 10, S(), n, budget) && (S().ht0.used == 0 || n == 0)
    {
      hide ChainsLinked, HeadsLinked, AllIn, MaskOk, KeysOf, WellPlaced, RehashLoop, ValuesStored;
      var m: nat := n0;
      var left: nat := n0 * 10;
      ghost var s := s0;
      gaveUp := false;
      while m > 0 && ht0.used != 0
        invariant Shape() && Repr == old(Repr) && Contents == old(Contents)
        invariant ValuesStored(entries, Contents) && entries == old(entries)
        invariant S() == s && Loop(hash, s) && (m > 0 ==> left > 0)
        invariant AfterRounds(hash, s0, n0, n0 * 10, s, m, left)
        decreases m
      {
        OneMoreRound(hash, s0, n0, n0 * 10, s, m, left);
        s := Round(hash, s, left).0;
        left := MoveNext(left);
        if left == 0 {
          return true, 0, 0;
        }
        m := m - 1;
      }
      n, budget := m, left;
    }

    /** The outer loop of `m_dictRehash`, and the swap of the tables after the last bucket. */
    method RehashBuckets(n: nat) returns (more: bool)
      requires Shape() && ValuesStored(entries, Contents) && Loop(hash, S())
      modifies Repr
      ensures Shape() && fresh(Repr - old(Repr)) && Contents == old(Contents)
      ensures ValuesStored(entries, Contents) && entries == old(entries)
      ensures (S(), more) == RehashLoop(hash, old(S()), n, n * 10)
    {
      ghost var s := S();
      ghost var m, left;
      var gaveUp;
      gaveUp, m, left := RehashRounds(n, s);
      if gaveUp {
        return true;
      }
      LastRound(hash, s, n, n * 10, S(), m, left);
      if ht0.used == 0 {
        SwapTables();
        return false;
      }
      return true;
    }

    /** The second table becomes the first, and a new one without buckets the second. */
    method SwapTables()
      requires Shape() && ValuesStored(entries, Contents)
      modifies this
      ensures Shape() && fresh(Repr - old(Repr)) && Contents == old(Contents)
      ensures ValuesStored(entries, Contents) && entries == old(entries)
      ensures S() == State(old(S()).ht1, RESET, -1, old(iterators))
    {
      var t := new Entry?[0];
      ht0 := ht1;
      nodes0 := nodes1;
      ht1 := Ht(t, Zero(), 0);
      nodes1 := [];
      rehashidx := -1;
      Repr := Repr + {t};
    }

    /** `m_dictRehash` */
    method Rehash(n: nat) returns (more: bool)
      requires Valid()
      modifies Repr
      ensures Valid() && fresh(Repr - old(Repr)) && Contents == old(Contents) && entries == old(entries)
      ensures (S(), more) == DictSpec.Rehash(hash, old(S()), n)
      ensures if old(rehashidx) != -1 then DictRehash.Rehashed(old(S()), n, S()) else S() == old(S())
      ensures more == (rehashidx != -1)
    {
      RehashKeeps(hash, S(), n);
      if rehashidx == -1 {
        return false;
      }
      DictRehash.RehashExact(hash, S(), n);
      more := RehashBuckets(n);
    }

    /** `_dictRehashStep` */
    method RehashStep()
      requires Valid()
      modifies Repr
      ensures Valid() && fresh(Repr - old(Repr)) && Contents == old(Contents) && entries == old(entries)
      ensures S() == Step(hash, old(S())) && DictRehash.Stepped(old(S()), S())
    {
      DictRehash.StepExact(hash, S());
      if rehashidx != -1 && iterators == 0 {
        var _ := Rehash(1);
      }
    }

    /** `_dictExpandIfNeeded` */
    method ExpandIfNeeded(canResize: bool) returns (ok: bool)
      requires Valid()
      modifies this
      ensures Valid() && fresh(Repr - old(Repr)) && Contents == old(Contents) && entries == old(entries)
      ensures (S(), ok) == DictSpec.ExpandIfNeeded(old(S()), canResize)
    {
      if rehashidx != -1 {
        return true;
      }
      if ht0.table.Length == 0 {
        ok := Expand(INITIAL_SIZE);
        return;
      }
      if ht0.used >= ht0.table.Length && (canResize || ht0.used / ht0.table.Length > FORCE_RESIZE_RATIO) {
        ok := Expand(ht0.used * 2 % UINT64);
        return;
      }
      return true;
    }

    // -------------------------------------------------------------- lookup

    /** The entry of a key, in whichever table holds it. */
    method SearchBoth(k: Key) returns (e: Entry?)
      requires Valid() && ht0.table.Length > 0
      ensures e == null <==> k !in Contents
      ensures e != null ==> e in entries && e.key == k && e.val == Contents[k]
    {
      ghost var b, j;
      e, b, j := Search(hash, ht0, k, nodes0, entries);
      if e != null || rehashidx == -1 {
        return;
      }
      e, b, j := Search(hash, ht1, k, nodes1, entries);
    }

    /** `m_dictFind` */
    method Find(k: Key) returns (e: Entry?)
      requires Valid()
      modifies Repr
      ensures Valid() && fresh(Repr - old(Repr)) && Contents == old(Contents)
      ensures S() == DictSpec.Find(hash, old(S()))
      ensures if old(ht0.used + ht1.used) > 0 then DictRehash.Stepped(old(S()), S()) else S() == old(S())
      ensures e == null <==> k !in Contents
      ensures e != null ==> e in entries && e.key == k && e.val == Contents[k]
    {
      if ht0.used + ht1.used == 0 {
        EmptyHoldsNothing(hash, S());
        return null;
      }
      StepKeeps(hash, S());
      RehashStep();
      DictScan.NonEmptyTable(hash, S());
      e := SearchBoth(k);
    }

    // -------------------------------------------------------------- insertion

    lemma LinkedState(s: State, k: Key, nodes: Nodes)
      requires Inv(hash, s) && |s.ht0.chains| > 0
      requires var c := if IsRehashing(s) then s.ht1.chains else s.ht0.chains;
        Index(hash(k), |c|) < |c| && KeysOf(nodes) == Push(hash, c, k)
      ensures Link(hash, s, k) ==
        if IsRehashing(s) then s.(ht1 := Table(KeysOf(nodes), s.ht1.used + 1))
        else s.(ht0 := Table(KeysOf(nodes), s.ht0.used + 1))
    {}

    /** Allocate an entry for `k` and make it the head of its chain in one table. */
    method NewHead(ht: Ht, k: Key, ghost nodes: Nodes, ghost es: set<Entry>) returns (e: Entry, ghost nodes': Nodes)
      requires AllIn(nodes, es) && HeadsLinked(ht.table, nodes) && ChainsLinked(nodes, es)
      requires MaskOk(ht) && IsSize(|nodes|)
      modifies ht.table
      ensures fresh(e) && e.key == k
      ensures AllIn(nodes', es + {e}) && HeadsLinked(ht.table, nodes') && ChainsLinked(nodes', es + {e})
      ensures |nodes'| == |nodes| > 0 && Index(hash(k), |nodes|) < |nodes|
      ensures KeysOf(nodes') == Push(hash, KeysOf(nodes), k)
    {
      IndexIsBucket(hash(k), |nodes|);
      var index := Num(And(hash(k), ht.sizemask));
      e := new Entry(k, null);
      assert Absent(e, nodes);
      LinkHead(ht.table, nodes, e, index, es + {e});
      nodes' := nodes[index := [e] + nodes[index]];
      KeysOfUpdate(nodes, index, [e] + nodes[index]);
      assert ChainKeys([e] + nodes[index]) == [k] + KeysOf(nodes)[index];
    }

    /** Put a new entry for `k` into the table that takes insertions. */
    method AttachHead(k: Key) returns (e: Entry)
      requires Shape() && Inv(hash, S()) && ht0.table.Length > 0
      modifies this`ht0, this`ht1, this`nodes0, this`nodes1, ht0.table, ht1.table
      ensures fresh(e) && e.key == k
      ensures ht0.table == old(ht0.table) && ht1.table == old(ht1.table)
      ensures AllIn(nodes0, entries + {e}) && AllIn(nodes1, entries + {e})
      ensures HeadsLinked(ht0.table, nodes0) && HeadsLinked(ht1.table, nodes1)
      ensures ChainsLinked(nodes0, entries + {e}) && ChainsLinked(nodes1, entries + {e})
      ensures MaskOk(ht0) && MaskOk(ht1)
      ensures S() == Link(hash, old(S()), k)
    {
      hide Link, Push, Holds, NoDuplicates;
      ghost var s := S();
      ghost var nodes;
      if rehashidx != -1 {
        e, nodes := NewHead(ht1, k, nodes1, entries);
        ht1 := ht1.(used := ht1.used + 1);
        nodes1 := nodes;
      } else {
        e, nodes := NewHead(ht0, k, nodes0, entries);
        ht0 := ht0.(used := ht0.used + 1);
        nodes0 := nodes;
      }
      LinkedState(s, k, nodes);
    }

    method Attach(k: Key) returns (e: Entry)
      requires Shape() && Inv(hash, S()) && ht0.table.Length > 0
      modifies this, ht0.table, ht1.table
      ensures Shape() && fresh(e) && e.key == k
      ensures entries == old(entries) + {e} && Repr == old(Repr) + {e} && Contents == old(Contents)
      ensures S() == Link(hash, old(S()), k)
    {
      e := AttachHead(k);
      entries := entries + {e};
      Repr := Repr + {e};
    }

    /** Link a new entry. */
    method LinkNew(k: Key) returns (e: Entry)
      requires Valid() && ht0.table.Length > 0 && k !in Contents
      modifies this, ht0.table, ht1.table
      ensures Valid() && fresh(Repr - old(Repr)) && Contents == old(Contents)[k := e.val]
      ensures S() == Link(hash, old(S()), k)
      ensures e in entries && e.key == k && fresh(e) && entries == old(entries) + {e}
    {
      hide ChainKeys, ChainsLinked, AllIn, Inv, Link, ValuesStored, OneEntryPerKey;
      ghost var s, es := S(), entries;
      e := Attach(k);
      LinkDescribes(Contents, hash, s, k, e.val);
      EnterValue(es, Contents, e);
      Contents := Contents[k := e.val];
    }

    method PrepareAdd(canResize: bool) returns (ok: bool)
      requires Valid()
      modifies Repr
      ensures Valid() && fresh(Repr - old(Repr)) && Contents == old(Contents) && entries == old(entries)
      ensures (S(), ok) == Prepare(hash, old(S()), canResize)
    {
      RehashStep();
      ok := ExpandIfNeeded(canResize);
    }

    /** `m_dictAddRaw`: the new entry, or the existing one. */
    method AddRaw(k: Key, canResize: bool) returns (e: Entry?, existing: Entry?)
      requires Valid() && Size(S()) < UINT64
      modifies Repr
      ensures Valid() && fresh(Repr - old(Repr))
      ensures (S(), e != null) == DictSpec.AddRaw(hash, old(S()), k, canResize)
      ensures e != null ==> k !in old(Contents) && e in entries && e.key == k && Contents == old(Contents)[k := e.val]
      ensures e == null ==> Contents == old(Contents)
      ensures existing != null ==> k in Contents && existing in entries && existing.key == k && e == null
      ensures e == null && !DoublingOverflows(Step(hash, old(S())), canResize) ==> existing != null
    {
      hide ChainKeys, ChainsLinked, AllIn, OneEntryPerKey, ValuesStored, Link, MaskOk;
      PrepareKeeps(hash, S(), canResize);
      var ok := PrepareAdd(canResize);
      if !ok {
        return null, null;
      }
      existing := SearchBoth(k);
      if existing != null {
        return null, existing;
      }
      e := LinkNew(k);
    }

    /** `dictSetVal` */
    method SetVal(e: Entry, v: Value)
      requires Valid() && e in entries
      modifies this`Contents, e`val
      ensures Valid() && Contents == old(Contents)[e.key := v] && S() == old(S())
    {
      hide Inv, ChainsLinked, HeadsLinked, AllIn, KeysOf, Contains;
      e.val := v;
      Contents := Contents[e.key := v];
    }

    /** `m_dictAdd`: whether the key was added. */
    method Add(k: Key, v: Value, canResize: bool) returns (ok: bool)
      requires Valid() && Size(S()) < UINT64
      modifies Repr
      ensures Valid() && fresh(Repr - old(Repr))
      ensures (S(), ok) == DictSpec.AddRaw(hash, old(S()), k, canResize)
      ensures Contents == if ok then old(Contents)[k := v] else old(Contents)
      ensures ok <==> k !in old(Contents) && !DoublingOverflows(Step(hash, old(S())), canResize)
    {
      hide KeysOf, ChainsLinked, HeadsLinked, AllIn, Inv, OneEntryPerKey, ValuesStored;
      AddRawFails(hash, S(), k, canResize);
      var e, _ := AddRaw(k, canResize);
      if e == null {
        return false;
      }
      SetVal(e, v);
      return true;
    }

    /** `m_dictAddOrFind`: the entry of `k`, and whether it is new. */
    method AddOrFind(k: Key, canResize: bool) returns (e: Entry, added: bool)
      requires Valid() && Size(S()) < UINT64 && !DoublingOverflows(Step(hash, S()), canResize)
      modifies Repr
      ensures Valid() && fresh(Repr - old(Repr)) && e in entries && e.key == k
      ensures (S(), added) == DictSpec.AddRaw(hash, old(S()), k, canResize)
      ensures added <==> k !in old(Contents)
      ensures Contents == if added then old(Contents)[k := e.val] else old(Contents)
    {
      var entry, existing := AddRaw(k, canResize);
      added := entry != null;
      e := if entry != null then entry else existing;
    }

    /** `m_dictReplace`: whether the key is new. */
    method Replace(k: Key, v: Value, canResize: bool) returns (added: bool)
      requires Valid() && Size(S()) < UINT64 && !DoublingOverflows(Step(hash, S()), canResize)
      modifies Repr
      ensures Valid() && fresh(Repr - old(Repr))
      ensures (S(), added) == DictSpec.AddRaw(hash, old(S()), k, canResize)
      ensures Contents == old(Contents)[k := v] && (added <==> k !in old(Contents))
    {
      hide ChainKeys, ChainsLinked, HeadsLinked, AllIn, Inv, KeysOf, Describes;
      var e;
      e, added := AddOrFind(k, canResize);
      UpdateTwice(old(Contents), k, e.val, v);
      SetVal(e, v);
    }

    // -------------------------------------------------------------- deletion

    /** The entries of one table are not in the other one. */
    lemma NotInBoth(nodes: Nodes, others: Nodes)
      requires WellPlaced(hash, KeysOf(nodes)) && WellPlaced(hash, KeysOf(others))
      requires forall k :: Holds(hash, KeysOf(others), k) ==> !Holds(hash, KeysOf(nodes), k)
      ensures forall b, j :: 0 <= b < |others| && 0 <= j < |others[b]| ==> Absent(others[b][j], nodes)
    {
      forall b, j | 0 <= b < |others| && 0 <= j < |others[b]|
        ensures Absent(others[b][j], nodes)
      {
        assert KeysOf(others)[b][j] == others[b][j].key;
        InSomeChain(hash, KeysOf(others), b, others[b][j].key);
        NotAmong(hash, nodes, others[b][j]);
      }
    }

    lemma OtherTable(nodes: Nodes, he: Entry, es: set<Entry>)
      requires WellPlaced(hash, KeysOf(nodes)) && !Holds(hash, KeysOf(nodes), he.key) && AllIn(nodes, es)
      ensures AllIn(nodes, es - {he})
    {
      NotAmong(hash, nodes, he);
    }

    /** Look for a key in one table and unlink its entry; `others` are the chains of the other table. */
    method RemoveIn(h: Ht, k: Key, ghost nodes: Nodes, ghost others: Nodes) returns (he: Entry?, ghost nodes': Nodes)
      requires h.table.Length > 0 && MaskOk(h) && WellPlaced(hash, KeysOf(nodes))
      requires AllIn(nodes, entries) && HeadsLinked(h.table, nodes) && ChainsLinked(nodes, entries)
      requires AllIn(others, entries) && ChainsLinked(others, entries)
      requires WellPlaced(hash, KeysOf(others))
      requires forall x :: Holds(hash, KeysOf(others), x) ==> !Holds(hash, KeysOf(nodes), x)
      modifies h.table, entries`next
      ensures AllIn(nodes', entries) && HeadsLinked(h.table, nodes') && ChainsLinked(nodes', entries)
      ensures ChainsLinked(others, entries)
      ensures he == null ==> !Holds(hash, KeysOf(nodes), k) && nodes' == nodes
      ensures he != null ==>
        && he in entries && he.key == k && Holds(hash, KeysOf(nodes), k)
        && AllIn(nodes', entries - {he}) && AllIn(others, entries - {he})
        && var b := Index(hash(k), |nodes|); KeysOf(nodes') == Unlink(KeysOf(nodes), b, Place(KeysOf(nodes)[b], k))
    {
      var prevHe, idx;
      ghost var j;
      NotInBoth(nodes, others);
      he, prevHe, idx, j := SearchWithPrevious(hash, h, k, nodes, entries);
      nodes' := nodes;
      if he != null {
        if j > 0 { DistinctPlaces(hash, nodes, idx, j - 1); }
        WithoutKeys(nodes, idx, j);
        WithoutAbsent(hash, nodes, idx, j, entries);
        OtherTable(others, he, entries);
        UnlinkEntry(h.table, nodes, idx, j, prevHe, he, entries);
        nodes' := Without(nodes, idx, j);
      }
    }

    lemma Stay(k: Key, s: State)
      requires Shape() && Inv(hash, s) && S() == s && Describes(Contents, hash, s) && !Contains(hash, s, k)
      requires ValuesStored(entries, Contents) && OneEntryPerKey(entries)
      ensures Valid() && Contents == Contents - {k}
    {}

    /** The bookkeeping after `he` was unlinked from one of the tables. */
    ghost method Leave(he: Entry, s: State)
      requires Inv(hash, s) && Describes(Contents, hash, s) && Contains(hash, s, he.key)
      requires S() == Removed(hash, s, he.key)
      requires Shape() && he in entries && AllIn(nodes0, entries - {he}) && AllIn(nodes1, entries - {he})
      requires ValuesStored(entries, Contents) && OneEntryPerKey(entries)
      modifies this`entries, this`Contents
      ensures Valid() && entries == old(entries) - {he} && Contents == old(Contents) - {he.key}
    {
      hide KeysOf, HeadsLinked, Inv, Removed, Describes;
      RemovedDescribes(Contents, hash, s, he.key);
      Contents := Contents - {he.key};
      entries := entries - {he};
    }

    /** The search of `dictGenericDelete` in the first table. */
    method RemoveFirst(k: Key) returns (he: Entry?)
      requires Shape() && ht0.table.Length > 0
      requires WellPlaced(hash, KeysOf(nodes0)) && WellPlaced(hash, KeysOf(nodes1))
      requires forall x :: Holds(hash, KeysOf(nodes1), x) ==> !Holds(hash, KeysOf(nodes0), x)
      requires Holds(hash, KeysOf(nodes0), k) ==> ht0.used > 0
      modifies this`ht0, this`nodes0, ht0.table, entries`next
      ensures Shape()
      ensures he == null ==> nodes0 == old(nodes0) && ht0 == old(ht0) && !Holds(hash, KeysOf(nodes0), k)
      ensures he != null ==>
        && he in entries && he.key == k && AllIn(nodes0, entries - {he}) && AllIn(nodes1, entries - {he})
        && Holds(hash, old(KeysOf(nodes0)), k) && ht0.used == old(ht0.used) - 1
        && var c := old(KeysOf(nodes0));
           var b := Index(hash(k), |c|);
           KeysOf(nodes0) == Unlink(c, b, Place(c[b], k))
    {
      hide KeysOf, ChainsLinked, HeadsLinked, WellPlaced, Holds, Unlink, Index, Place;
      he, nodes0 := RemoveIn(ht0, k, nodes0, nodes1);
      if he != null {
        ht0 := ht0.(used := ht0.used - 1);
      }
    }

    /** The search of `dictGenericDelete` in the second table. */
    method RemoveSecond(k: Key) returns (he: Entry?)
      requires Shape() && ht1.table.Length > 0
      requires WellPlaced(hash, KeysOf(nodes1)) && WellPlaced(hash, KeysOf(nodes0))
      requires forall x :: Holds(hash, KeysOf(nodes0), x) ==> !Holds(hash, KeysOf(nodes1), x)
      requires Holds(hash, KeysOf(nodes1), k) ==> ht1.used > 0
      modifies this`ht1, this`nodes1, ht1.table, entries`next
      ensures Shape()
      ensures he == null ==> nodes1 == old(nodes1) && ht1 == old(ht1) && !Holds(hash, KeysOf(nodes1), k)
      ensures he != null ==>
        && he in entries && he.key == k && AllIn(nodes0, entries - {he}) && AllIn(nodes1, entries - {he})
        && Holds(hash, old(KeysOf(nodes1)), k) && ht1.used == old(ht1.used) - 1
        && var c := old(KeysOf(nodes1));
           var b := Index(hash(k), |c|);
           KeysOf(nodes1) == Unlink(c, b, Place(c[b], k))
    {
      hide KeysOf, ChainsLinked, HeadsLinked, WellPlaced, Holds, Unlink, Index, Place;
      he, nodes1 := RemoveIn(ht1, k, nodes1, nodes0);
      if he != null {
        ht1 := ht1.(used := ht1.used - 1);
      }
    }

    /** The search of `dictGenericDelete`, first table first. */
    method RemoveKey(k: Key) returns (he: Entry?)
      requires Shape() && Inv(hash, S()) && ht0.table.Length > 0
      modifies this`ht0, this`ht1, this`nodes0, this`nodes1, ht0.table, ht1.table, entries`next
      ensures Shape()
      ensures he == null ==> S() == old(S()) && !Contains(hash, S(), k)
      ensures he != null ==> he in entries && he.key == k && AllIn(nodes0, entries - {he}) && AllIn(nodes1, entries - {he})
      ensures he != null ==> Contains(hash, old(S()), k) && S() == Removed(hash, old(S()), k)
    {
      ghost var s := S();
      HeldIsCounted(hash, s, k);
      he := RemoveFirst(k);
      if he == null && rehashidx != -1 {
        he := RemoveSecond(k);
      }
      if he != null {
        RemovedState(s, S(), k);
      }
    }

    lemma RemovedState(s: State, t: State, k: Key)
      requires Inv(hash, s) && s.rehashidx == t.rehashidx && s.iterators == t.iterators && Contains(hash, s, k)
      requires if Holds(hash, s.ht0.chains, k) then
        && t.ht1 == s.ht1 && t.ht0.used == s.ht0.used - 1
        && var c := s.ht0.chains; var b := Index(hash(k), |c|); t.ht0.chains == Unlink(c, b, Place(c[b], k))
        else
        && t.ht0 == s.ht0 && t.ht1.used == s.ht1.used - 1
        && var c := s.ht1.chains; var b := Index(hash(k), |c|); t.ht1.chains == Unlink(c, b, Place(c[b], k))
      ensures t == Removed(hash, s, k)
    {
      RemoveFromRemoves(hash, if Holds(hash, s.ht0.chains, k) then s.ht0 else s.ht1, k);
    }

    /** `dictGenericDelete` after its rehashing step. */
    method DeleteNow(k: Key) returns (he: Entry?)
      requires Valid() && ht0.table.Length > 0
      modifies Repr
      ensures Valid() && Repr == old(Repr)
      ensures he != null <==> Contains(hash, old(S()), k)
      ensures S() == if he != null then Removed(hash, old(S()), k) else old(S())
      ensures Contents == old(Contents) - {k}
      ensures he != null ==> he.key == k && k in old(Contents) && he.val == old(Contents)[k]
    {
      hide KeysOf, ChainsLinked, HeadsLinked, AllIn, Inv, Removed, OneEntryPerKey;
      ghost var s := S();
      he := RemoveKey(k);
      if he != null {
        Leave(he, s);
      } else {
        Stay(k, s);
      }
    }

    /** `dictGenericDelete`: the entry that was unlinked, if any. */
    method GenericDelete(k: Key) returns (he: Entry?)
      requires Valid()
      modifies Repr
      ensures Valid() && fresh(Repr - old(Repr))
      ensures (S(), he != null) == Delete(hash, old(S()), k)
      ensures (he != null <==> k in old(Contents)) && Contents == old(Contents) - {k}
      ensures he != null ==> he.key == k && he.val == old(Contents)[k]
    {
      if ht0.used == 0 && ht1.used == 0 {
        EmptyHoldsNothing(hash, S());
        assert Contents == Contents - {k};
        return null;
      }
      StepKeeps(hash, S());
      RehashStep();
      DictScan.NonEmptyTable(hash, S());
      he := DeleteNow(k);
    }

    /** `m_dictEmpty` */
    method Empty()
      requires Valid()
      modifies this
      ensures Valid() && fresh(Repr - old(Repr)) && Contents == map[] && S() == DictSpec.Empty()
      ensures ht0.table.Length == 0 && ht1.table.Length == 0 && rehashidx == -1 && iterators == 0
    {
      hide Inv, Describes, KeysOf, DictSpec.Empty;
      EmptyDescribes(hash);
      var t0 := new Entry?[0];
      var t1 := new Entry?[0];
      ht0 := Ht(t0, Zero(), 0);
      ht1 := Ht(t1, Zero(), 0);
      rehashidx := -1;
      iterators := 0;
      nodes0 := [];
      nodes1 := [];
      entries := {};
      Contents := map[];
      Repr := Repr + {t0, t1};
    }

    // -------------------------------------------------------------- scanning

    /** Give every key of a chain to the callback, which appends it to a list. */
    static method EmitChain(head: Entry?, ghost chain: seq<Entry>) returns (keys: seq<Key>)
      requires head == First(chain) && forall j :: 0 <= j < |chain| ==> chain[j].next == After(chain, j)
      ensures keys == ChainKeys(chain)
    {
      var de := head;
      keys := [];
      while de != null
        invariant |keys| <= |chain| && keys == ChainKeys(chain)[..|keys|]
        invariant de == if |keys| < |chain| then chain[|keys|] else null
        decreases |chain| - |keys|
      {
        keys := keys + [de.key];
        de := de.next;
      }
    }

    /** The reversed increment of a cursor. */
    static method Advance(v0: Word, sizemask: Word, ghost size: nat) returns (v: Word)
      requires IsSize(size) && sizemask == FromNat(size - 1)
      ensures v == Next(v0, Log2(size))
    {
      SizeMask(Log2(size));
      v := Or(v0, Not(sizemask));
      v := Reverse(v);
      v := Increment(v);
      v := Reverse(v);
    }

    /** The keys of the bucket that `v` selects. */
    static method EmitBucket(h: Ht, v: Word, ghost nodes: Nodes, ghost es: set<Entry>) returns (keys: seq<Key>)
      requires IsSize(h.table.Length) && MaskOk(h)
      requires AllIn(nodes, es) && HeadsLinked(h.table, nodes) && ChainsLinked(nodes, es)
      ensures keys == KeysOf(nodes)[Bucket(v, Log2(|nodes|))]
    {
      IndexIsBucket(v, |nodes|);
      var idx := Num(And(v, h.sizemask));
      keys := EmitChain(h.table[idx], nodes[idx]);
    }

    /** The body of the loop over the larger table. */
    static method EmitExpansion(h0: Ht, h1: Ht, v: Word, ghost nodes1: Nodes, ghost es: set<Entry>)
      returns (chain: seq<Key>, next: Word, more: bool)
      requires IsSize(h0.table.Length) && IsSize(h1.table.Length) && MaskOk(h0) && MaskOk(h1)
      requires AllIn(nodes1, es) && HeadsLinked(h1.table, nodes1) && ChainsLinked(nodes1, es)
      ensures var k0, k1 := Log2(h0.table.Length), Log2(h1.table.Length);
        && chain == KeysOf(nodes1)[Bucket(v, k1)]
        && next == Next(v, k1) && more == MoreInLarger(next, k0, k1)
    {
      SizeMask(Log2(h0.table.Length));
      SizeMask(Log2(h1.table.Length));
      chain := EmitBucket(h1, v, nodes1, es);
      next := Advance(v, h1.sizemask, h1.table.Length);
      more := And(next, Xor(h0.sizemask, h1.sizemask)) != Zero();
    }

    /** The loop over the expansions of the cursor in the larger table. */
    static method EmitLarger(h0: Ht, h1: Ht, v0: Word, ghost nodes1: Nodes, ghost es: set<Entry>)
      returns (keys: seq<Key>, v: Word)
      requires IsSize(h0.table.Length) && IsSize(h1.table.Length) && h0.table.Length < h1.table.Length
      requires MaskOk(h0) && MaskOk(h1)
      requires AllIn(nodes1, es) && HeadsLinked(h1.table, nodes1) && ChainsLinked(nodes1, es)
      ensures Log2(h0.table.Length) <= Log2(h1.table.Length) <= WIDTH
      ensures (keys, v) == DictScan.WalkLarger(KeysOf(nodes1), v0, Log2(h0.table.Length), Log2(h1.table.Length))
    {
      ghost var k0, k1 := Log2(h0.table.Length), Log2(h1.table.Length);
      DictScan.OrderedLogs(h0.table.Length, h1.table.Length);
      ghost var c := KeysOf(nodes1);
      ghost var goal := DictScan.WalkLarger(c, v0, k0, k1);
      CeilingBound(v0, k1);
      v := v0;
      keys := [];
      var more := true;
      while more
        invariant more ==> goal.0 == keys + DictScan.WalkLarger(c, v, k0, k1).0
        invariant more ==> goal.1 == DictScan.WalkLarger(c, v, k0, k1).1
        invariant more ==> Floor(v, k1) <= End()
        invariant !more ==> goal == (keys, v)
        decreases more, End() - Floor(v, k1)
      {
        DictScan.WalkLargerStep(c, v, k0, k1);
        var chain;
        chain, v, more := EmitExpansion(h0, h1, v, nodes1, es);
        keys := keys + chain;
      }
    }

    /** `m_dictScan` */
    method Scan(v0: Word) returns (emitted: seq<Key>, v: Word)
      requires Valid()
      ensures (emitted, v) == DictScan.Scan(hash, S(), v0)
      ensures Contents == map[] ==> emitted == [] && v == Zero()
    {
      hide Inv, Shape, Describes, ValuesStored, OneEntryPerKey, Zero;
      EmptyMeans();
      if ht0.used + ht1.used == 0 {
        return [], Zero();
      }
      emitted, v := ScanTables(v0);
    }

    lemma EmptyMeans()
      requires Valid()
      ensures ht0.used + ht1.used == 0 <==> Contents == map[]
    {
      SizeCountsKeys(hash, S(), Contents.Keys);
    }

    /** The scan of a dictionary with entries. */
    method ScanTables(v0: Word) returns (emitted: seq<Key>, v: Word)
      requires Valid() && ht0.used + ht1.used > 0
      ensures (emitted, v) == DictScan.Scan(hash, S(), v0)
    {
      DictScan.NonEmptyTable(hash, S());
      if rehashidx == -1 {
        emitted := EmitBucket(ht0, v0, nodes0, entries);
        v := Advance(v0, ht0.sizemask, ht0.table.Length);
      } else if ht0.table.Length > ht1.table.Length {
        emitted := EmitBucket(ht1, v0, nodes1, entries);
        var rest;
        rest, v := EmitLarger(ht1, ht0, v0, nodes0, entries);
        emitted := emitted + rest;
      } else {
        emitted := EmitBucket(ht0, v0, nodes0, entries);
        var rest;
        rest, v := EmitLarger(ht0, ht1, v0, nodes1, entries);
        emitted := emitted + rest;
      }
    }

    // -------------------------------------------------------------- random key

    lemma SomeHead(nodes: Nodes, used: nat)
      requires used > 0 && used == Count(KeysOf(nodes))
      ensures exists b :: 0 <= b < |nodes| && nodes[b] != []
    {
      CountZero(KeysOf(nodes));
      var b :| 0 <= b < |nodes| && KeysOf(nodes)[b] != [];
      assert nodes[b] != [];
    }

    /** `m_dictGetRandomKey`, any of whose random choices may be made: a bucket that is not empty, and an entry of
        its chain. */
    method GetRandomKey() returns (he: Entry?)
      requires Valid()
      modifies Repr
      ensures Valid() && fresh(Repr - old(Repr)) && Contents == old(Contents)
      ensures S() == DictSpec.Find(hash, old(S()))
      ensures if old(ht0.used + ht1.used) > 0 then DictRehash.Stepped(old(S()), S()) else S() == old(S())
      ensures he == null <==> Contents == map[]
      ensures he != null ==> he.key in Contents
    {
      if ht0.used + ht1.used == 0 {
        EmptyHoldsNothing(hash, S());
        return null;
      }
      StepKeeps(hash, S());
      RehashStep();
      he := PickEntry();
    }

    /** The head of bucket `h`, the buckets of the second table being numbered after those of the first. */
    function HeadAt(h: int): Entry?
      requires 0 <= h < ht0.table.Length + ht1.table.Length
      reads this, ht0.table, ht1.table
    {
      if h >= ht0.table.Length then ht1.table[h - ht0.table.Length] else ht0.table[h]
    }

    /** Some bucket at or after `rehashidx` is not empty. */
    lemma SomeBucket() returns (h: int)
      requires HeadsLinked(ht0.table, nodes0) && HeadsLinked(ht1.table, nodes1) && ht0.used + ht1.used > 0
      requires ht0.used == Count(KeysOf(nodes0)) && ht1.used == Count(KeysOf(nodes1)) && rehashidx <= |nodes0|
      requires forall b :: 0 <= b < rehashidx ==> KeysOf(nodes0)[b] == []
      ensures 0 <= h < ht0.table.Length + ht1.table.Length && rehashidx <= h && HeadAt(h) != null
    {
      if ht0.used > 0 {
        SomeHead(nodes0, ht0.used);
        h :| 0 <= h < |nodes0| && nodes0[h] != [];
        assert KeysOf(nodes0)[h] != [];
      } else {
        SomeHead(nodes1, ht1.used);
        var b :| 0 <= b < |nodes1| && nodes1[b] != [];
        h := b + ht0.table.Length;
      }
    }

    lemma HeadIs(h: int)
      requires Valid() && 0 <= h < ht0.table.Length + ht1.table.Length
      ensures |nodes0| == ht0.table.Length && |nodes1| == ht1.table.Length
      ensures HeadAt(h) == First(if h >= |nodes0| then nodes1[h - |nodes0|] else nodes0[h])
    {
      hide ChainsLinked, ValuesStored, AllIn, Count;
    }

    /** The random choices of `m_dictGetRandomKey`. */
    method PickEntry() returns (he: Entry)
      requires Valid() && ht0.used + ht1.used > 0
      ensures he.key in Contents
    {
      ghost var some := SomeBucket();
      hide *;
      var h: int :| 0 <= h < ht0.table.Length + ht1.table.Length && rehashidx <= h && HeadAt(h) != null;
      HeadIs(h);
      var orighe := HeadAt(h);
      if h >= ht0.table.Length {
        he := PickFromChain(orighe, nodes1[h - |nodes0|]);
      } else {
        he := PickFromChain(orighe, nodes0[h]);
      }
    }

    method PickFromChain(orighe: Entry, ghost chain: seq<Entry>) returns (entry: Entry)
      requires Valid() && chain in nodes0 + nodes1 && orighe == First(chain)
      ensures entry.key in Contents
    {
      ChainOk(chain);
      hide Valid;
      entry := PickFrom(orighe, chain);
    }

    lemma ChainOk(chain: seq<Entry>)
      requires Valid() && chain in nodes0 + nodes1
      ensures forall j :: 0 <= j < |chain| ==> chain[j].next == After(chain, j) && chain[j].key in Contents
    {
      hide HeadsLinked, Count;
    }

    static method PickFrom(orighe: Entry, ghost chain: seq<Entry>) returns (entry: Entry)
      requires chain != [] && orighe == chain[0] && forall j :: 0 <= j < |chain| ==> chain[j].next == After(chain, j)
      ensures entry in chain
    {
      var listlen: nat := 0;
      var he: Entry? := orighe;
      while he != null
        invariant listlen <= |chain| && he == if listlen < |chain| then chain[listlen] else null
        decreases |chain| - listlen
      {
        he := he.next;
        listlen := listlen + 1;
      }
      var listele: nat :| listele < listlen;
      ghost var j := 0;
      entry := orighe;
      while listele > 0
        invariant j + listele < |chain| && entry == chain[j]
      {
        entry := entry.next;
        listele := listele - 1;
        j := j + 1;
      }
    }
  }
}
