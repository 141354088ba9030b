/**
  The skip list itself: nodes with forward links and spans at every level, backward links, tail,
  length and top level, all updated in place.
*/
module SkipLists {
  import opened Keys
  import opened SkipItems
  import opened SkipLinks

  ghost function RowsOf(nodes: seq<Node>): (rows: Rows)
    reads nodes`level
    ensures |rows| == |nodes| && forall k :: 0 <= k < |nodes| ==> rows[k] == nodes[k].level
  {
    if nodes == [] then [] else RowsOf(nodes[..|nodes| - 1]) + [nodes[|nodes| - 1].level]
  }

  ghost function ItemOf(x: Node): Item
    reads x`score, x`member
  {
    Item(x.score, x.member)
  }

  /** The items of the nodes after the header. */
  ghost function ItemsOf(nodes: seq<Node>): (items: seq<Item>)
    requires nodes != []
    reads nodes`score, nodes`member
    ensures |items| == |nodes| - 1 && forall i :: 0 <= i < |items| ==> items[i] == ItemOf(nodes[i + 1])
  {
    if |nodes| == 1 then [] else ItemsOf(nodes[..|nodes| - 1]) + [ItemOf(nodes[|nodes| - 1])]
  }

  ghost predicate BackwardOk(nodes: seq<Node>)
    reads nodes`backward
  {
    && nodes != [] && nodes[0].backward == null
    && forall i :: 0 < i < |nodes| ==> nodes[i].backward == if i < 2 then null else nodes[i - 1]
  }

  class SkipList {
    var header: Node
    var tail: Node?
    var length: nat
    var level: nat

    /** The header and the nodes behind it. */
    ghost var nodes: seq<Node>

    ghost predicate Shape()
      reads this, nodes
    {
      && |nodes| == length + 1 && nodes[0] == header && Distinct(nodes)
      && Linked(nodes, RowsOf(nodes), level)
    }

    ghost predicate Valid()
      reads this, nodes
    {
      && Shape()
      && (level > 1 ==> header.level[level - 1].forward != null)
      && BackwardOk(nodes) && tail == (if length == 0 then null else nodes[length])
      && Sorted(ItemsOf(nodes))
    }

    /** The abstract value. */
    ghost function Items(): seq<Item>
      requires nodes != []
      reads this, nodes
    {
      ItemsOf(nodes)
    }

    /** `m_zslCreate` */
    constructor ()
      ensures Valid() && fresh(nodes) && Items() == []
    {
      var h := new Node(MAXLEVEL, 0, []);
      header := h;
      tail := null;
      length := 0;
      level := 1;
      nodes := [h];
    }

    /** Node `r` and level `l` of the search path to `p`: nothing in between reaches the level. */
    lemma PathPoint(r: nat, p: nat, l: nat)
      requires Shape() && r <= p < |nodes| && l < level && l < |nodes[r].level|
      requires var f := nodes[r].level[l]; f.forward == null || r + f.span > p
      ensures IsLast(RowsOf(nodes), p, l, r)
    {
      assert LinkOk(nodes, RowsOf(nodes), r, l, RowsOf(nodes)[r][l]);
    }

    /** Where the link `f` at level `l` of the node of rank `r` leads, if anywhere. */
    ghost predicate Leads(r: nat, l: nat, f: Level)
      requires |nodes| == length + 1
      reads this, nodes
    {
      f.forward != null ==>
        && r < r + f.span <= length && f.forward == nodes[r + f.span] && l < |f.forward.level|
        && Item(f.forward.score, f.forward.member) == ItemsOf(nodes)[r + f.span - 1]
    }

    lemma Follow(r: nat, l: nat)
      requires Shape() && r < |nodes| && l < level && l < |nodes[r].level|
      ensures LinkOk(nodes, RowsOf(nodes), r, l, nodes[r].level[l]) && Leads(r, l, nodes[r].level[l])
    {
      assert LinkOk(nodes, RowsOf(nodes), r, l, RowsOf(nodes)[r][l]);
    }

    /** Whether `pass` holds of exactly the first `p` items; it may look at an item and at its rank. */
    ghost predicate Splits(pass: (Item, nat) -> bool, p: nat)
      requires nodes != []
      reads this, nodes
    {
      p < |nodes| && forall i :: 0 <= i < |nodes| - 1 ==> (pass(ItemsOf(nodes)[i], i + 1) <==> i < p)
    }

    /** `update` and `rank` are the search path to node `p`. */
    ghost predicate Path(update: seq<Node>, rank: seq<nat>, p: nat)
      reads this, nodes
    {
      && p < |nodes| && IsPath(RowsOf(nodes), p, level, rank)
      && |update| == MAXLEVEL && forall l :: 0 <= l < level ==> update[l] == nodes[rank[l]]
    }

    /** The inner search loop, at level `i`. */
    method Forward(pass: (Item, nat) -> bool, x0: Node, r0: nat, i: nat, ghost p: nat) returns (x: Node, r: nat)
      requires Shape() && Splits(pass, p) && r0 <= p && x0 == nodes[r0] && i < level && i < |x0.level|
      ensures r <= p && x == nodes[r] && i < |x.level| && IsLast(RowsOf(nodes), p, i, r)
    {
      hide Linked, Distinct, RowsOf, IsLast, LinkOk;
      x, r := x0, r0;
      Follow(r, i);
      while x.level[i].forward != null
            && pass(Item(x.level[i].forward.score, x.level[i].forward.member), r + x.level[i].span)
        invariant r <= p && x == nodes[r] && i < |x.level|
        invariant Leads(r, i, x.level[i])
        decreases p - r
      {
        Follow(r, i);
        r := r + x.level[i].span;
        x := x.level[i].forward;
        Follow(r, i);
      }
      Follow(r, i);
      PathPoint(r, p, i);
    }

    /** The search loop shared by insertion, deletion, score update and the ranges: go forward at each level while the
        next node is one to pass. `p` is the number of nodes to pass. */
    method Descend(pass: (Item, nat) -> bool, ghost p: nat) returns (update: seq<Node>, rank: seq<nat>)
      requires Shape() && Splits(pass, p)
      ensures Path(update, rank, p)
    {
      var x := header;
      var r := 0;
      update := seq(MAXLEVEL, i => x);
      rank := seq(MAXLEVEL, i => 0);
      var i := level;
      while i > 0
        invariant 0 <= i <= level && 0 <= r <= p && x == nodes[r] && (i > 0 ==> i - 1 < |x.level|)
        invariant |update| == MAXLEVEL == |rank|
        invariant forall l :: i <= l < level ==> IsLast(RowsOf(nodes), p, l, rank[l]) && update[l] == nodes[rank[l]]
      {
        i := i - 1;
        x, r := Forward(pass, x, r, i, p);
        rank := rank[i := r];
        update := update[i := x];
      }
    }

    // -------------------------------------------------------------- insertion

    lemma RaisedPath(nodes: seq<Node>, rows: Rows, p: nat, top: nat, h: nat, rank0: seq<nat>, rank: seq<nat>)
      requires Linked(nodes, rows, top) && IsPath(rows, p, top, rank0) && top <= h <= MAXLEVEL && p < |rows|
      requires |rank| == MAXLEVEL && forall l :: 0 <= l < top ==> rank[l] == rank0[l]
      requires forall l :: top <= l < h ==> rank[l] == 0
      ensures IsPath(rows[0 := Raise(rows[0], top, h, |rows| - 1)], p, h, rank)
    {
      var raised := rows[0 := Raise(rows[0], top, h, |rows| - 1)];
      forall l | 0 <= l < h
        ensures IsLast(raised, p, l, rank[l])
      {
        if l < top { assert IsLast(rows, p, l, rank0[l]); }
      }
    }

    /** The loop over the new levels. */
    method RaiseHeader(h: nat, update0: seq<Node>, rank0: seq<nat>) returns (update: seq<Node>, rank: seq<nat>)
      requires level <= h <= MAXLEVEL == |header.level| == |update0| == |rank0|
      modifies header`level
      ensures header.level == Raise(old(header.level), level, h, length)
      ensures |rank| == MAXLEVEL == |update|
      ensures forall l :: 0 <= l < level ==> rank[l] == rank0[l] && update[l] == update0[l]
      ensures forall l :: level <= l < h ==> rank[l] == 0 && update[l] == header
    {
      update, rank := update0, rank0;
      var i := level;
      while i < h
        invariant level <= i <= h && |rank| == MAXLEVEL == |update|
        invariant header.level == Raise(old(header.level), level, i, length)
        invariant forall l :: 0 <= l < level ==> rank[l] == rank0[l] && update[l] == update0[l]
        invariant forall l :: level <= l < i ==> rank[l] == 0 && update[l] == header
      {
        rank := rank[i := 0];
        update := update[i := header];
        header.level := header.level[i := header.level[i].(span := length)];
        i := i + 1;
      }
    }

    /** Raise the top level to the height of a new node; the header spans the whole list at the new levels. */
    method RaiseLevel(h: nat, update0: seq<Node>, rank0: seq<nat>, ghost p: nat)
      returns (update: seq<Node>, rank: seq<nat>)
      requires Shape() && level < h <= MAXLEVEL
      requires Path(update0, rank0, p)
      modifies this`level, header`level
      ensures Shape() && level == h
      ensures Path(update, rank, p)
    {
      hide LinkOk, IsLast, Raise;
      ghost var rows, top := RowsOf(nodes), level;
      RaiseKeepsLinks(nodes, rows, top, h);
      assert forall k :: 1 <= k < |nodes| ==> nodes[0] != nodes[k];
      update, rank := RaiseHeader(h, update0, rank0);
      RaisedPath(nodes, rows, p, top, h, rank0, rank);
      level := h;
      assert RowsOf(nodes) == rows[0 := Raise(rows[0], top, h, length)];
    }

    /** The first node of the search path is node `p` itself, and each link of the path reaches past `p`. */
    lemma PathReaches(rank: seq<nat>, p: nat, l: nat)
      requires Shape() && p < |nodes| && IsPath(RowsOf(nodes), p, level, rank) && l < level
      ensures rank[0] == p && rank[l] <= p && l < |nodes[rank[l]].level|
      ensures nodes[rank[l]].level[l].span >= p - rank[l]
    {
      var rows := RowsOf(nodes);
      assert IsLast(rows, p, 0, rank[0]) && IsLast(rows, p, l, rank[l]);
      assert p == 0 || 1 <= |rows[p]|;
      assert LinkOk(nodes, rows, rank[l], l, rows[rank[l]][l]);
    }

    /** Each link of the search path to `p` is there and reaches past `p`. */
    ghost predicate Reaching(rows: Rows, update: seq<Node>, rank: seq<nat>, p: nat, top: nat)
      requires top <= MAXLEVEL
      reads this
    {
      && |rows| == |nodes| && |rank| == |update| == MAXLEVEL
      && forall l :: 0 <= l < top ==>
        && rank[l] <= p < |rows| && update[l] == nodes[rank[l]]
        && l < |rows[rank[l]]| && rows[rank[l]][l].span >= p - rank[l]
    }

    lemma PathReachesAll(update: seq<Node>, rank: seq<nat>, p: nat)
      requires Shape() && Path(update, rank, p)
      ensures level <= MAXLEVEL && Reaching(RowsOf(nodes), update, rank, p, level) && rank[0] == p
    {
      forall l | 0 <= l < level
        ensures rank[l] <= p && l < |nodes[rank[l]].level| && nodes[rank[l]].level[l].span >= p - rank[l]
      {
        PathReaches(rank, p, l);
      }
      PathReaches(rank, p, 0);
    }

    /** Put node `x` into the link of `u` at level `i`, and divide the span. */
    static method SplitLink(x: Node, i: nat, u: Node, passed: nat)
      requires u != x && i < |u.level| && i < |x.level| && passed <= u.level[i].span
      modifies x`level, u`level
      ensures x.level == old(x.level)[i := Level(old(u.level[i].forward), old(u.level[i].span) - passed)]
      ensures u.level == old(u.level)[i := Level(x, passed + 1)]
    {
      x.level := x.level[i := Level(u.level[i].forward, u.level[i].span - passed)];
      u.level := u.level[i := Level(x, passed + 1)];
    }

    lemma RowBeforeStep(row: seq<Level>, k: nat, p: nat, x: Node, h: nat, rank: seq<nat>, i: nat)
      requires |rank| == MAXLEVEL && i < MAXLEVEL && k <= p
      ensures RowBefore(row, k, p, x, h, rank, i + 1) ==
        if rank[i] == k && i < |row| then
          RowBefore(row, k, p, x, h, rank, i)[i :=
            if i < h then Level(x, p + 1 - k) else Level(row[i].forward, row[i].span + 1)]
        else RowBefore(row, k, p, x, h, rank, i)
    {}

    /** The rows of the nodes after levels below `done` were handled for a new node `x` of height `h` behind `p`. */
    ghost predicate RowsAt(rows: Rows, p: nat, x: Node, h: nat, rank: seq<nat>, done: nat)
      requires |rank| == MAXLEVEL && done <= MAXLEVEL
      reads this, nodes
    {
      && p < |nodes| == |rows|
      && (forall k :: 0 <= k <= p ==> nodes[k].level == RowBefore(rows[k], k, p, x, h, rank, done))
      && (forall k :: p < k < |nodes| ==> nodes[k].level == rows[k])
    }

    lemma RowsAtStart(p: nat, x: Node, h: nat, rank: seq<nat>)
      requires |rank| == MAXLEVEL && p < |nodes|
      ensures RowsAt(RowsOf(nodes), p, x, h, rank, 0)
    {}

    /** One round of the loop over the levels of a new node. */
    method SplitLevel(x: Node, i: nat, u: Node, passed: nat, ghost rows: Rows, ghost p: nat, ghost h: nat,
                      ghost rank: seq<nat>)
      requires Distinct(nodes) && |rank| == MAXLEVEL && i < MAXLEVEL && RowsAt(rows, p, x, h, rank, i)
      requires rank[i] <= p && u == nodes[rank[i]] && u != x && i < |rows[rank[i]]|
      requires passed == p - rank[i] <= rows[rank[i]][i].span && i < |x.level| && i < h
      modifies x`level, u`level
      ensures x !in nodes ==> RowsAt(rows, p, x, h, rank, i + 1)
      ensures x.level == old(x.level)[i := Level(rows[rank[i]][i].forward, rows[rank[i]][i].span - passed)]
    {
      SplitLink(x, i, u, passed);
      forall k | 0 <= k <= p
        ensures x !in nodes ==> nodes[k].level == RowBefore(rows[k], k, p, x, h, rank, i + 1)
      {
        RowBeforeStep(rows[k], k, p, x, h, rank, i);
      }
    }

    /** The first loop over the levels of a new node `x`: each link of the search path that spans the insertion point
        is split at `x`. */
    method SplitLinks(x: Node, h: nat, update: seq<Node>, rank: seq<nat>, ghost p: nat)
      requires Shape() && Path(update, rank, p) && 1 <= h <= level
      requires x !in nodes && |x.level| == h
      modifies x`level, nodes`level
      ensures RowsAt(old(RowsOf(nodes)), p, x, h, rank, h)
      ensures IsNewRow(old(RowsOf(nodes)), p, h, rank, x.level)
    {
      hide Linked, IsPath, Path, RowsAt;
      ghost var rows: Rows := RowsOf(nodes);
      PathReachesAll(update, rank, p);
      RowsAtStart(p, x, h, rank);
      var i := 0;
      while i < h
        invariant i <= h && |x.level| == h && RowsAt(rows, p, x, h, rank, i)
        invariant forall l :: 0 <= l < i ==>
          x.level[l] == Level(rows[rank[l]][l].forward, rows[rank[l]][l].span - (p - rank[l]))
      {
        SplitLevel(x, i, update[i], rank[0] - rank[i], rows, p, h, rank);
        i := i + 1;
      }
    }

    method BumpSpan(i: nat, u: Node, ghost rows: Rows, ghost p: nat, ghost x: Node, ghost h: nat, ghost rank: seq<nat>)
      requires Distinct(nodes) && |rank| == MAXLEVEL && h <= i < MAXLEVEL && RowsAt(rows, p, x, h, rank, i)
      requires rank[i] <= p && u == nodes[rank[i]] && i < |rows[rank[i]]|
      modifies u`level
      ensures RowsAt(rows, p, x, h, rank, i + 1)
    {
      u.level := u.level[i := u.level[i].(span := u.level[i].span + 1)];
      forall k | 0 <= k <= p
        ensures nodes[k].level == RowBefore(rows[k], k, p, x, h, rank, i + 1)
      {
        RowBeforeStep(rows[k], k, p, x, h, rank, i);
      }
    }

    /** The second loop: the links of the search path above the new node get one longer. */
    method BumpSpans(h: nat, update: seq<Node>, rank: seq<nat>, ghost rows: Rows, ghost p: nat, ghost x: Node)
      requires Distinct(nodes) && h <= level && |nodes| > 0
      requires IsPath(rows, p, level, rank) && RowsAt(rows, p, x, h, rank, h)
      requires |update| == MAXLEVEL && forall l :: 0 <= l < level ==> update[l] == nodes[rank[l]]
      modifies nodes`level
      ensures RowsAt(rows, p, x, h, rank, level)
    {
      var i := h;
      while i < level
        invariant h <= i <= level && RowsAt(rows, p, x, h, rank, i)
      {
        assert IsLast(rows, p, i, rank[i]);
        BumpSpan(i, update[i], rows, p, x, h, rank);
        i := i + 1;
      }
    }

    /** The last part of `m_zslInsert`: backward links, tail and length. */
    method LinkBack(x: Node, prev: Node, ghost p: nat)
      requires BackwardOk(nodes) && p < |nodes| == length + 1 && x !in nodes && Distinct(nodes)
      requires prev == nodes[p] && header == nodes[0] && x.level != []
      requires x.level[0].forward == if p < length then nodes[p + 1] else null
      requires tail == if length == 0 then null else nodes[length]
      modifies this`tail, this`length, this`nodes, x`backward, nodes`backward
      ensures nodes == InsertNode(old(nodes), p, x) && length == old(length) + 1
      ensures BackwardOk(nodes) && tail == nodes[length]
    {
      ghost var before := nodes;
      DistinctFrom(before, 0);
      if p < length { DistinctFrom(before, p + 1); }
      x.backward := if prev == header then null else prev;
      if x.level[0].forward != null {
        x.level[0].forward.backward := x;
      } else {
        tail := x;
      }
      length := length + 1;
      nodes := InsertNode(nodes, p, x);
      assert forall i :: 0 <= i <= p ==> nodes[i] == before[i];
      assert forall i :: p + 1 < i < |nodes| ==> nodes[i] == before[i - 1];
    }

    lemma DistinctFrom(s: seq<Node>, j: nat)
      requires Distinct(s) && j < |s|
      ensures forall k :: 0 <= k < |s| && k != j ==> s[k] != s[j]
    {
      forall k | 0 <= k < |s| && k != j { DistinctAt(s, k, j); }
    }

    lemma DistinctAt(s: seq<Node>, i: nat, j: nat)
      requires Distinct(s) && i < |s| && j < |s| && i != j
      ensures s[i] != s[j]
    {
      if i < j { assert s[i] != s[j]; } else { assert s[j] != s[i]; }
    }

    lemma InsertedRows(rows: Rows, p: nat, x: Node, rank: seq<nat>)
      requires |rank| == MAXLEVEL && level <= MAXLEVEL && |x.level| <= MAXLEVEL && x !in nodes
      requires RowsAt(rows, p, x, |x.level|, rank, level)
      ensures RowsOf(InsertNode(nodes, p, x)) == Inserted(rows, p, x, x.level, rank, level)
    {}

    lemma InsertedItems(items: seq<Item>, p: nat, x: Node)
      requires p < |nodes| && items == ItemsOf(nodes)
      ensures ItemsOf(InsertNode(nodes, p, x)) == items[..p] + [ItemOf(x)] + items[p..]
    {}

    lemma InsertedDistinct(p: nat, x: Node)
      requires Distinct(nodes) && x !in nodes && p < |nodes|
      ensures Distinct(InsertNode(nodes, p, x))
    {}

    lemma InsertedTop(rows: Rows, p: nat, x: Node, rank: seq<nat>, top: nat)
      requires Linked(nodes, rows, top) && p < |rows| && IsPath(rows, p, top, rank) && 1 <= |x.level| <= top
      requires IsNewRow(rows, p, |x.level|, rank, x.level)
      requires |x.level| == top || top == 1 || rows[0][top - 1].forward != null
      ensures Linked(InsertNode(nodes, p, x), Inserted(rows, p, x, x.level, rank, top), top)
      ensures top > 1 ==> Inserted(rows, p, x, x.level, rank, top)[0][top - 1].forward != null
    {
      var rows' := Inserted(rows, p, x, x.level, rank, top);
      InsertKeepsLinks(nodes, rows, top, p, x, x.level, rank);
      TopLink(InsertNode(nodes, p, x), rows', top);
      if |x.level| == top {
        assert rows'[p + 1] == x.level;
      } else if top > 1 {
        TopLink(nodes, rows, top);
        var k :| 1 <= k < |rows| && |rows[k]| == top;
        assert |rows'[if k <= p then k else k + 1]| == top;
      }
    }

    /** Nodes, search path and new node just before the node is entered in the backward links. */
    ghost predicate Spliced(x: Node, rank: seq<nat>, rows: Rows, p: nat)
      reads this, nodes, x
    {
      && Linked(nodes, rows, level) && Distinct(nodes) && x !in nodes && p < |nodes| == length + 1 && header == nodes[0]
      && IsPath(rows, p, level, rank) && 1 <= |x.level| <= level
      && (|x.level| == level || level == 1 || rows[0][level - 1].forward != null)
      && RowsAt(rows, p, x, |x.level|, rank, level) && IsNewRow(rows, p, |x.level|, rank, x.level)
      && BackwardOk(nodes) && tail == (if length == 0 then null else nodes[length])
      && Sorted(ItemsOf(nodes)) && ItemOf(x) !in ItemsOf(nodes) && p == Position(ItemsOf(nodes), ItemOf(x))
    }

    lemma SplicedFirst(x: Node, rank: seq<nat>, rows: Rows, p: nat)
      requires Spliced(x, rank, rows, p)
      ensures rank[0] == p && x.level[0].forward == if p < length then nodes[p + 1] else null
    {
      assert IsLast(rows, p, 0, rank[0]);
      assert p == 0 || 1 <= |rows[p]|;
      assert LinkOk(nodes, rows, p, 0, rows[p][0]);
      assert p == length || 1 <= |rows[p + 1]|;
    }

    lemma SplicedShape(x: Node, rank: seq<nat>, rows: Rows, p: nat)
      requires Spliced(x, rank, rows, p)
      ensures var nodes' := InsertNode(nodes, p, x);
        && Distinct(nodes') && Linked(nodes', RowsOf(nodes'), level)
        && (level > 1 ==> nodes'[0].level[level - 1].forward != null)
    {
      InsertedTop(rows, p, x, rank, level);
      InsertedDistinct(p, x);
      InsertedRows(rows, p, x, rank);
    }

    lemma SplicedItems(x: Node, rank: seq<nat>, rows: Rows, p: nat)
      requires Spliced(x, rank, rows, p)
      ensures var items := ItemsOf(InsertNode(nodes, p, x));
        items == InsertItem(ItemsOf(nodes), ItemOf(x)) && Sorted(items)
    {
      InsertSorted(ItemsOf(nodes), ItemOf(x));
      InsertedItems(ItemsOf(nodes), p, x);
    }

    /** All that validity asks of the nodes `ns`, apart from the backward links. */
    ghost predicate Ordered(ns: seq<Node>)
      reads this`level, ns`level, ns`score, ns`member
    {
      && ns != [] && Distinct(ns) && Linked(ns, RowsOf(ns), level)
      && (level > 1 ==> ns[0].level[level - 1].forward != null)
      && Sorted(ItemsOf(ns))
    }

    lemma SplicedOrdered(x: Node, rank: seq<nat>, rows: Rows, p: nat)
      requires Spliced(x, rank, rows, p)
      ensures Ordered(InsertNode(nodes, p, x))
      ensures ItemsOf(InsertNode(nodes, p, x)) == InsertItem(ItemsOf(nodes), ItemOf(x))
      ensures rank[0] == p && x.level != [] && x.level[0].forward == if p < length then nodes[p + 1] else null
    {
      SplicedFirst(x, rank, rows, p);
      SplicedShape(x, rank, rows, p);
      SplicedItems(x, rank, rows, p);
    }

    /** The end of the insertion. */
    method FinishInsert(x: Node, prev: Node, ghost p: nat)
      requires BackwardOk(nodes) && p < |nodes| == length + 1 && x !in nodes && Distinct(nodes)
      requires prev == nodes[p] && header == nodes[0] && x.level != []
      requires x.level[0].forward == if p < length then nodes[p + 1] else null
      requires tail == if length == 0 then null else nodes[length]
      requires Ordered(InsertNode(nodes, p, x))
      modifies this`tail, this`length, this`nodes, x`backward, nodes`backward
      ensures Valid() && nodes == InsertNode(old(nodes), p, x) && Items() == old(ItemsOf(InsertNode(nodes, p, x)))
    {
      hide Linked, Sorted, Distinct, RowsOf, ItemsOf, BackwardOk;
      ghost var nodes' := InsertNode(nodes, p, x);
      LinkBack(x, prev, p);
      assert Ordered(nodes');
    }

    /** The loops of the insertion. */
    method Splice(x: Node, h: nat, update: seq<Node>, rank: seq<nat>, ghost p: nat)
      requires Shape() && Path(update, rank, p) && 1 <= h <= level
      requires x !in nodes && |x.level| == h
      modifies x`level, nodes`level
      ensures RowsAt(old(RowsOf(nodes)), p, x, h, rank, level)
      ensures IsNewRow(old(RowsOf(nodes)), p, h, rank, x.level)
    {
      ghost var rows := RowsOf(nodes);
      SplitLinks(x, h, update, rank, p);
      BumpSpans(h, update, rank, rows, p, x);
    }

    /** A new node of height `h` for `item` can be linked in behind node `p`. */
    ghost predicate Ready(item: Item, h: nat, update: seq<Node>, rank: seq<nat>, p: nat)
      reads this, nodes
    {
      && Shape() && BackwardOk(nodes) && tail == (if length == 0 then null else nodes[length])
      && Sorted(ItemsOf(nodes)) && item !in ItemsOf(nodes) && p == Position(ItemsOf(nodes), item)
      && Path(update, rank, p)
      && 1 <= h <= level && (h == level || level == 1 || RowsOf(nodes)[0][level - 1].forward != null)
    }

    /** Descend to the place of an item, and raise the top level if the new node needs it. */
    method FindPlace(item: Item, h: nat, ghost p: nat) returns (update: seq<Node>, rank: seq<nat>)
      requires Valid() && 1 <= h <= MAXLEVEL && p == Position(Items(), item) && item !in Items()
      modifies this`level, header`level
      ensures Ready(item, h, update, rank, p)
    {
      hide Linked, Distinct, RowsOf, IsPath, Gap, LinkOk, Precedes;
      PositionSplits(Items(), item);
      update, rank := Descend((it, r) => Precedes(it, item), p);
      if h > level {
        update, rank := RaiseLevel(h, update, rank, p);
      }
    }

    /** Link the new node `x` in. */
    method Enter(x: Node, update: seq<Node>, rank: seq<nat>, ghost p: nat)
      requires x !in nodes && Ready(ItemOf(x), |x.level|, update, rank, p)
      modifies this`tail, this`length, this`nodes, x`level, x`backward, nodes`level, nodes`backward
      ensures Valid() && nodes == InsertNode(old(nodes), p, x)
      ensures Items() == InsertItem(old(Items()), old(ItemOf(x)))
      ensures x in nodes && forall n :: n in nodes ==> n in old(nodes) || n == x
    {
      hide Linked, Sorted, Distinct, RowsOf, ItemsOf, BackwardOk, IsPath, RowsAt, IsNewRow;
      ghost var rows := RowsOf(nodes);
      Splice(x, |x.level|, update, rank, p);
      SplicedOrdered(x, rank, rows, p);
      FinishInsert(x, update[0], p);
    }

    /** `m_zslInsert`; `h` is the random level. */
    method Insert(score: int, member: Key, h: nat) returns (x: Node)
      requires Valid() && 1 <= h <= MAXLEVEL && Item(score, member) !in Items()
      modifies this, nodes
      ensures Valid() && Items() == InsertItem(old(Items()), Item(score, member))
      ensures fresh(x) && x in nodes && ItemOf(x) == Item(score, member)
      ensures forall n :: n in nodes ==> n in old(nodes) || n == x
    {
      hide Linked, Sorted, Distinct, RowsOf, ItemsOf, BackwardOk, IsPath, Ready, InsertNode, InsertItem, Position;
      ghost var p := Position(Items(), Item(score, member));
      var update, rank := FindPlace(Item(score, member), h, p);
      x := new Node(h, score, member);
      Enter(x, update, rank, p);
    }

    // -------------------------------------------------------------- deletion

    lemma RowBypassedStep(row: seq<Level>, k: nat, x: Node, xrow: seq<Level>, rank: seq<nat>, i: nat)
      requires |rank| == MAXLEVEL && i < MAXLEVEL
      ensures RowBypassed(row, k, x, xrow, rank, i + 1) ==
        if rank[i] == k && i < |row| && row[i].span >= 1 then
          RowBypassed(row, k, x, xrow, rank, i)[i := Bypass(row[i], x, xrow, i)]
        else RowBypassed(row, k, x, xrow, rank, i)
    {}

    /** The rows of the nodes after levels below `done` were handled for the deletion of node `p + 1`. */
    ghost predicate RowsCut(rows: Rows, p: nat, rank: seq<nat>, done: nat)
      requires |rank| == MAXLEVEL && done <= MAXLEVEL
      reads this, nodes
    {
      && p + 1 < |nodes| == |rows|
      && (forall k :: 0 <= k <= p ==> nodes[k].level == RowBypassed(rows[k], k, nodes[p + 1], rows[p + 1], rank, done))
      && (forall k :: p < k < |nodes| ==> nodes[k].level == rows[k])
    }

    static method BypassLink(u: Node, x: Node, i: nat)
      requires u != x && i < |u.level| && u.level[i].span >= 1 && (u.level[i].forward == x ==> i < |x.level|)
      modifies u`level
      ensures u.level == old(u.level)[i := Bypass(old(u.level[i]), x, x.level, i)]
    {
      if u.level[i].forward == x {
        u.level := u.level[i := u.level[i].(span := u.level[i].span + x.level[i].span - 1)];
        u.level := u.level[i := u.level[i].(forward := x.level[i].forward)];
      } else {
        u.level := u.level[i := u.level[i].(span := u.level[i].span - 1)];
      }
    }

    /** One round of the loop of `m_zslDeleteNode`. */
    method BypassLevel(x: Node, i: nat, u: Node, ghost rows: Rows, ghost p: nat, ghost rank: seq<nat>)
      requires Distinct(nodes) && |rank| == MAXLEVEL && i < MAXLEVEL && RowsCut(rows, p, rank, i) && x == nodes[p + 1]
      requires rank[i] <= p && u == nodes[rank[i]] && i < |rows[rank[i]]| && rows[rank[i]][i].span >= 1
      requires rows[rank[i]][i].forward == x ==> i < |rows[p + 1]|
      modifies u`level
      ensures RowsCut(rows, p, rank, i + 1)
    {
      BypassLink(u, x, i);
      forall k | 0 <= k <= p
        ensures nodes[k].level == RowBypassed(rows[k], k, x, rows[p + 1], rank, i + 1)
      {
        RowBypassedStep(rows[k], k, x, rows[p + 1], rank, i);
      }
    }

    /** The loop of `m_zslDeleteNode`. */
    method BypassLinks(x: Node, update: seq<Node>, ghost rank: seq<nat>, ghost p: nat)
      requires Shape() && p + 1 < |nodes| && x == nodes[p + 1] && Path(update, rank, p)
      modifies nodes`level
      ensures RowsCut(old(RowsOf(nodes)), p, rank, level)
    {
      ghost var rows: Rows := RowsOf(nodes);
      forall l | 0 <= l < level
        ensures rank[l] <= p && l < |rows[rank[l]]| && rows[rank[l]][l].span >= 1
        ensures rows[rank[l]][l].forward == x <==> l < |rows[p + 1]|
      {
        PathLink(nodes, rows, level, p, rank, l);
      }
      var i := 0;
      while i < level
        invariant i <= level && RowsCut(rows, p, rank, i)
      {
        BypassLevel(x, i, update[i], rows, p, rank);
        i := i + 1;
      }
    }

    /** Nodes and search path once node `p + 1` is bypassed at all levels. */
    ghost predicate Severed(rank: seq<nat>, rows: Rows, p: nat)
      reads this, nodes
    {
      && Linked(nodes, rows, level) && Distinct(nodes) && p + 1 < |nodes| == length + 1 && header == nodes[0]
      && IsPath(rows, p, level, rank) && RowsCut(rows, p, rank, level)
      && BackwardOk(nodes) && tail == nodes[length] && Sorted(ItemsOf(nodes))
    }

    lemma SeveredNext(rank: seq<nat>, rows: Rows, p: nat)
      requires Severed(rank, rows, p)
      ensures var x := nodes[p + 1]; x.level != [] && x.level[0].forward == if p + 1 < length then nodes[p + 2] else null
    {
      assert LinkOk(nodes, rows, p + 1, 0, rows[p + 1][0]);
      assert p + 1 == length || 1 <= |rows[p + 2]|;
    }

    lemma DeletedRows(rows: Rows, p: nat, rank: seq<nat>)
      requires |rank| == MAXLEVEL && level <= MAXLEVEL && RowsCut(rows, p, rank, level)
      ensures RowsOf(RemoveNode(nodes, p)) == Deleted(nodes, rows, p, rank, level)
    {}

    lemma DeletedItems(p: nat)
      requires p + 1 < |nodes|
      ensures ItemsOf(RemoveNode(nodes, p)) == Cut(ItemsOf(nodes), p, p + 1)
    {}

    lemma SeveredRest(rank: seq<nat>, rows: Rows, p: nat)
      requires Severed(rank, rows, p)
      ensures var rest := RemoveNode(nodes, p);
        && rest != [] && Distinct(rest) && Linked(rest, RowsOf(rest), level) && IsPath(RowsOf(rest), p, level, rank)
        && ItemsOf(rest) == Cut(ItemsOf(nodes), p, p + 1) && Sorted(ItemsOf(rest))
    {
      DeleteKeepsLinks(nodes, rows, p, rank, level);
      DeleteKeepsPath(nodes, rows, p, rank, level);
      DeletedRows(rows, p, rank);
      DeletedItems(p);
    }

    /** Backward link and tail. */
    method UnlinkBack(x: Node, ghost p: nat)
      requires BackwardOk(nodes) && p + 1 < |nodes| == length + 1 && x == nodes[p + 1] && Distinct(nodes)
      requires x.level != [] && x.level[0].forward == if p + 1 < length then nodes[p + 2] else null
      requires tail == nodes[length]
      modifies this`tail, this`nodes, nodes`backward
      ensures nodes == RemoveNode(old(nodes), p)
      ensures BackwardOk(nodes) && tail == if length == 1 then null else nodes[length - 1]
    {
      ghost var before := nodes;
      if p + 1 < length { DistinctFrom(before, p + 2); }
      if x.level[0].forward != null {
        x.level[0].forward.backward := x.backward;
      } else {
        tail := x.backward;
      }
      nodes := RemoveNode(nodes, p);
      assert forall i :: 0 <= i <= p ==> nodes[i] == before[i];
      assert forall i :: p < i < |nodes| ==> nodes[i] == before[i + 1];
    }

    /** The loop that lowers the top level. */
    method LowerLevel()
      requires nodes != [] && header == nodes[0] && Linked(nodes, RowsOf(nodes), level)
      modifies this`level
      ensures Linked(nodes, RowsOf(nodes), level) && level <= old(level)
      ensures level > 1 ==> header.level[level - 1].forward != null
    {
      while level > 1 && header.level[level - 1].forward == null
        invariant Linked(nodes, RowsOf(nodes), level) && level <= old(level)
        decreases level
      {
        LowerKeepsLinks(nodes, RowsOf(nodes), level);
        level := level - 1;
      }
    }

    /** What is left of `m_zslDeleteNode` after its first loop. */
    method FinishDelete(x: Node, ghost rank: seq<nat>, ghost p: nat)
      requires BackwardOk(nodes) && p + 1 < |nodes| == length + 1 && x == nodes[p + 1] && Distinct(nodes)
      requires header == nodes[0] && tail == nodes[length]
      requires x.level != [] && x.level[0].forward == if p + 1 < length then nodes[p + 2] else null
      requires var rest := RemoveNode(nodes, p);
        && rest != [] && Distinct(rest) && Linked(rest, RowsOf(rest), level) && IsPath(RowsOf(rest), p, level, rank)
        && Sorted(ItemsOf(rest))
      modifies this`tail, this`length, this`nodes, this`level, nodes`backward
      ensures Valid() && nodes == RemoveNode(old(nodes), p) && Items() == old(ItemsOf(RemoveNode(nodes, p)))
      ensures level <= old(level) && IsPath(RowsOf(nodes), p, level, rank)
    {
      hide Linked, Sorted, Distinct, RowsOf, ItemsOf, BackwardOk, IsLast;
      ghost var rest := RemoveNode(nodes, p);
      UnlinkBack(x, p);
      assert nodes == rest;
      LowerLevel();
      length := length - 1;
    }

    /** `m_zslDeleteNode` */
    method DeleteNode(x: Node, update: seq<Node>, ghost rank: seq<nat>, ghost p: nat)
      requires Valid() && p < length && x == nodes[p + 1] && Path(update, rank, p)
      modifies this`tail, this`length, this`nodes, this`level, nodes`level, nodes`backward
      ensures Valid() && nodes == RemoveNode(old(nodes), p) && Items() == Cut(old(Items()), p, p + 1)
      ensures Path(update, rank, p)
    {
      hide Linked, Sorted, Distinct, RowsOf, ItemsOf, BackwardOk;
      ghost var rows := RowsOf(nodes);
      BypassLinks(x, update, rank, p);
      SeveredNext(rank, rows, p);
      SeveredRest(rank, rows, p);
      FinishDelete(x, rank, p);
      assert forall l :: 0 <= l < level ==> IsLast(RowsOf(nodes), p, l, rank[l]);
    }

    /** The node that a search stops before. */
    lemma SearchEnd(update: seq<Node>, rank: seq<nat>, p: nat)
      requires Shape() && Path(update, rank, p)
      ensures rank[0] == p && update[0] == nodes[p] && level > 0 && update[0].level != []
      ensures update[0].level[0].forward == if p < length then nodes[p + 1] else null
    {
      PathReaches(rank, p, 0);
      assert LinkOk(nodes, RowsOf(nodes), p, 0, RowsOf(nodes)[p][0]);
      assert p == length || 1 <= |RowsOf(nodes)[p + 1]|;
    }

    /** The search for an item: the path to its place, and the node there. */
    method Seek(item: Item, ghost p: nat) returns (update: seq<Node>, ghost rank: seq<nat>, x: Node?)
      requires Valid() && p == Position(Items(), item)
      ensures Path(update, rank, p)
      ensures x == if p < length then nodes[p + 1] else null
    {
      hide Linked, Sorted, Distinct, RowsOf, BackwardOk, IsLast, Position;
      PositionSplits(Items(), item);
      update, rank := Descend((it, r) => Precedes(it, item), p);
      SearchEnd(update, rank, p);
      x := update[0].level[0].forward;
    }

    /** `m_zslDelete` */
    method Delete(score: int, member: Key) returns (found: bool, x: Node?)
      requires Valid()
      modifies this`tail, this`length, this`nodes, this`level, nodes`level, nodes`backward
      ensures Valid() && found == (Item(score, member) in old(Items()))
      ensures forall n :: n in nodes ==> n in old(nodes)
      ensures found ==> x != null && x in old(nodes) && ItemOf(x) == Item(score, member)
      ensures Sorted(old(Items())) && Items() == RemoveItem(old(Items()), Item(score, member))
    {
      hide Linked, Sorted, Distinct, RowsOf, BackwardOk, Path, Position;
      ghost var p := Position(Items(), Item(score, member));
      FoundAtPosition(Items(), Item(score, member));
      var update; ghost var rank;
      update, rank, x := Seek(Item(score, member), p);
      found := x != null && score == x.score && x.member == member;
      if found {
        DeleteNode(x, update, rank, p);
      } else {
        x := null;
      }
    }

    /** The links at the bottom level and backwards of the node at place `p` of the items. */
    lemma Neighbours(x: Node, p: nat)
      requires Valid() && p < length && x == nodes[p + 1]
      ensures x.backward == (if p == 0 then null else nodes[p])
      ensures p > 0 ==> nodes[p].score == Items()[p - 1].score
      ensures x.level != [] && x.level[0].forward == (if p + 1 < length then nodes[p + 2] else null)
      ensures p + 1 < length ==> nodes[p + 2].score == Items()[p + 1].score
    {
      assert LinkOk(nodes, RowsOf(nodes), p + 1, 0, RowsOf(nodes)[p + 1][0]);
      assert p + 1 == length || 1 <= |RowsOf(nodes)[p + 2]|;
    }

    /** Give a node another score in place. */
    method Rescore(x: Node, score: int, ghost p: nat)
      requires Valid() && p < length && x == nodes[p + 1]
      requires Sorted(Items()[p := Item(score, x.member)])
      modifies x`score
      ensures Valid() && x.score == score && Items() == old(Items())[p := Item(score, x.member)]
    {
      hide Linked, Sorted, RowsOf, BackwardOk;
      ghost var items := Items()[p := Item(score, x.member)];
      DistinctFrom(nodes, p + 1);
      x.score := score;
      assert Items() == items;
    }

    /** No way to reuse the old node: it is taken out and a new one inserted. */
    method Reinsert(x: Node, update: seq<Node>, ghost rank: seq<nat>, ghost p: nat, score: int, h: nat) returns (n: Node)
      requires Valid() && p < length && x == nodes[p + 1] && Path(update, rank, p)
      requires 1 <= h <= MAXLEVEL && Item(score, x.member) !in Cut(Items(), p, p + 1)
      modifies this, nodes
      ensures Valid() && fresh(n) && n in nodes && ItemOf(n) == Item(score, old(x.member))
      ensures Items() == InsertItem(Cut(old(Items()), p, p + 1), Item(score, old(x.member)))
    {
      hide Linked, Sorted, Distinct, RowsOf, ItemsOf, BackwardOk, Path, InsertItem, Cut;
      DeleteNode(x, update, rank, p);
      n := Insert(score, x.member, h);
    }

    /** Whether the item at place `p` stays strictly between its neighbours with another score. */
    ghost predicate StaysAt(items: seq<Item>, p: int, score: int)
    {
      && 0 <= p < |items| && (p == 0 || items[p - 1].score < score)
      && (p + 1 == |items| || score < items[p + 1].score)
    }

    lemma StaysBetween(items: seq<Item>, p: nat, score: int)
      requires StaysAt(items, p, score)
      ensures p < |items| && (p > 0 ==> items[p - 1].score < score) && (p + 1 < |items| ==> score < items[p + 1].score)
    {}

    /** The test of `m_zslUpdateScore` on the neighbours of a node. */
    method Stays(x: Node, score: int, ghost p: nat) returns (r: bool)
      requires Valid() && p < length && x == nodes[p + 1]
      ensures r == StaysAt(Items(), p, score)
    {
      hide Linked, Sorted, Distinct, RowsOf, BackwardOk;
      Neighbours(x, p);
      r := && (x.backward == null || x.backward.score < score)
           && (x.level[0].forward == null || x.level[0].forward.score > score);
    }

    /** `m_zslUpdateScore`; `h` is the random level of a new node. The node is kept exactly when its item stays where it is. */
    method UpdateScore(curscore: int, member: Key, newscore: int, h: nat) returns (n: Node, ghost p: nat)
      requires Valid() && 1 <= h <= MAXLEVEL && Item(curscore, member) in Items()
      requires newscore == curscore || Item(newscore, member) !in Items()
      modifies this, nodes
      ensures Valid() && n in nodes && ItemOf(n) == Item(newscore, member)
      ensures Sorted(old(Items()))
      ensures Items() == InsertItem(RemoveItem(old(Items()), Item(curscore, member)), Item(newscore, member))
      ensures p < |old(Items())| && old(Items())[p] == Item(curscore, member)
      ensures if StaysAt(old(Items()), p, newscore) then n == old(nodes)[p + 1] && nodes == old(nodes) else fresh(n)
    {
      hide Linked, Sorted, Distinct, RowsOf, BackwardOk, Path, Position, InsertItem, Cut;
      ghost var item, items := Item(curscore, member), Items();
      p := Position(items, item);
      RemovedAt(items, item);
      RemoveTakes(items, item);
      hide RemoveItem;
      var update, rank, x := Seek(Item(curscore, member), p);
      assert ItemOf(x) == item;
      var stays := Stays(x, newscore, p);
      hide StaysAt;
      if stays {
        StaysBetween(items, p, newscore);
        RescoredInPlace(items, p, newscore);
        Rescore(x, newscore, p);
        n := x;
      } else {
        n := Reinsert(x, update, rank, p, newscore, h);
      }
    }

    // -------------------------------------------------------------- ranges

    /** `zslIsInRange` */
    method IsInRange(range: Range) returns (r: bool)
      requires Valid()
      ensures r == MayMeet(Items(), range)
    {
      hide Linked, Sorted, Distinct, RowsOf, BackwardOk;
      if range.min > range.max || (range.min == range.max && (range.minex || range.maxex)) {
        return false;
      }
      var x := tail;
      if x == null || !GteMin(x.score, range) {
        return false;
      }
      Bottom();
      x := header.level[0].forward;
      if x == null || !LteMax(x.score, range) {
        return false;
      }
      return true;
    }

    /** The header's link at the bottom level. */
    lemma Bottom()
      requires Shape()
      ensures level > 0 && |header.level| > 0
      ensures header.level[0].forward == if length > 0 then nodes[1] else null
    {
      assert LinkOk(nodes, RowsOf(nodes), 0, 0, RowsOf(nodes)[0][0]);
      assert length == 0 || 1 <= |RowsOf(nodes)[1]|;
    }

    /** `m_zslFirstInRange` */
    method FirstInRange(range: Range) returns (x: Node?)
      requires Valid()
      ensures x == null <==> forall i :: 0 <= i < |Items()| ==> !InRange(Items()[i], range)
      ensures x != null ==>
        exists i :: 0 <= i < |Items()| && x == nodes[i + 1] && InRange(Items()[i], range)
                    && forall j :: 0 <= j < i ==> !InRange(Items()[j], range)
    {
      hide Linked, Sorted, Distinct, RowsOf, BackwardOk, Path, MayMeet, Below, Through;
      ghost var items := Items();
      ghost var p := Below(items, range);
      RangeIsSlice(items, range);
      BelowSplits(items, range);
      var meets := IsInRange(range);
      if !meets {
        return null;
      }
      var update, rank := Descend((it: Item, r) => !GteMin(it.score, range), p);
      SearchEnd(update, rank, p);
      x := update[0].level[0].forward;
      assert x == nodes[p + 1] && ItemOf(x) == items[p];
      if !LteMax(x.score, range) {
        ThroughSplits(items, range);
        return null;
      }
    }

    /** `m_zslLastInRange` */
    method LastInRange(range: Range) returns (x: Node?)
      requires Valid()
      ensures x == null <==> forall i :: 0 <= i < |Items()| ==> !InRange(Items()[i], range)
      ensures x != null ==>
        exists i :: 0 <= i < |Items()| && x == nodes[i + 1] && InRange(Items()[i], range)
                    && forall j :: i < j < |Items()| ==> !InRange(Items()[j], range)
    {
      hide Linked, Sorted, Distinct, RowsOf, BackwardOk, Path, MayMeet, Below, Through;
      ghost var items := Items();
      ghost var p := Through(items, range);
      RangeIsSlice(items, range);
      ThroughSplits(items, range);
      var meets := IsInRange(range);
      if !meets {
        return null;
      }
      var update, rank := Descend((it: Item, r) => LteMax(it.score, range), p);
      SearchEnd(update, rank, p);
      x := update[0];
      assert x == nodes[p] && ItemOf(x) == items[p - 1];
      if !GteMin(x.score, range) {
        BelowSplits(items, range);
        return null;
      }
    }

    /** A range deletion after `removed` items, from place `p` on, were deleted; `x` is the node to look at next. */
    ghost predicate Running(x: Node?, update: seq<Node>, rank: seq<nat>, p: nat, items: seq<Item>, removed: nat)
      reads this, nodes
    {
      && Valid() && Path(update, rank, p)
      && p + removed <= |items| && Items() == Cut(items, p, p + removed)
      && p <= length && x == if p < length then nodes[p + 1] else null
    }

    lemma RunningAt(x: Node?, update: seq<Node>, rank: seq<nat>, p: nat, items: seq<Item>, removed: nat)
      requires Running(x, update, rank, p, items, removed)
      ensures Valid() && p + removed <= |items| && Items() == Cut(items, p, p + removed)
      ensures x == null <==> p + removed == |items|
      ensures x != null ==> ItemOf(x) == items[p + removed]
    {
      hide Linked, Sorted, Distinct, RowsOf, BackwardOk, Path;
      assert x != null ==> ItemOf(x) == Items()[p];
    }

    /** Delete one node of a range and step to the next. */
    method DeleteStep(x: Node, update: seq<Node>, ghost rank: seq<nat>, ghost p: nat, ghost items: seq<Item>,
                      ghost removed: nat)
      returns (next: Node?)
      requires Running(x, update, rank, p, items, removed)
      modifies this`tail, this`length, this`nodes, this`level, nodes`level, nodes`backward
      ensures Running(next, update, rank, p, items, removed + 1)
      ensures forall n :: n in nodes ==> n in old(nodes)
      ensures length < old(length)
    {
      hide Linked, Sorted, Distinct, RowsOf, BackwardOk, Path;
      RunningAt(x, update, rank, p, items, removed);
      CutMore(items, p, removed);
      Neighbours(x, p);
      next := x.level[0].forward;
      DeleteNode(x, update, rank, p);
    }

    /** Where a range deletion starts. */
    method Start(pass: (Item, nat) -> bool, ghost p: nat)
      returns (x: Node?, update: seq<Node>, ghost rank: seq<nat>, before: nat)
      requires Valid() && Splits(pass, p)
      ensures Running(x, update, rank, p, Items(), 0) && before == p
    {
      hide Linked, Sorted, Distinct, RowsOf, BackwardOk, IsLast;
      var ranks;
      update, ranks := Descend(pass, p);
      SearchEnd(update, ranks, p);
      rank, x, before := ranks, update[0].level[0].forward, ranks[0];
      CutNothing(Items(), p);
    }

    /** The loop of `m_zslDeleteRangeByScore`. */
    method DeleteScores(x0: Node?, update: seq<Node>, ghost rank: seq<nat>, ghost p: nat, ghost items: seq<Item>,
                        range: Range)
      returns (removed: nat, ghost x: Node?)
      requires Running(x0, update, rank, p, items, 0)
      modifies this, nodes
      ensures Running(x, update, rank, p, items, removed) && p + removed <= |items|
      ensures forall i :: p <= i < p + removed ==> LteMax(items[i].score, range)
      ensures p + removed < |items| ==> !LteMax(items[p + removed].score, range)
    {
      hide Valid, Running;
      ghost var nodes0 := nodes;
      var y := x0;
      removed := 0;
      RunningAt(y, update, rank, p, items, removed);
      while y != null && LteMax(y.score, range)
        invariant Running(y, update, rank, p, items, removed) && p + removed <= |items|
        invariant forall i :: p <= i < p + removed ==> LteMax(items[i].score, range)
        invariant forall n :: n in nodes ==> n in nodes0
        decreases length
      {
        RunningAt(y, update, rank, p, items, removed);
        assert forall i :: 0 <= i < |nodes| ==> nodes[i] in nodes0;
        y := DeleteStep(y, update, rank, p, items, removed);
        removed := removed + 1;
        RunningAt(y, update, rank, p, items, removed);
      }
      RunningAt(y, update, rank, p, items, removed);
      x := y;
    }

    /** `m_zslDeleteRangeByScore` */
    method DeleteRangeByScore(range: Range) returns (removed: nat)
      requires Valid()
      modifies this, nodes
      ensures Valid() && Items() == Outside(old(Items()), range) && removed == |old(Items())| - |Items()|
    {
      hide Linked, Sorted, Distinct, RowsOf, BackwardOk, Path, Below, Outside, Running;
      ghost var items := Items();
      ghost var p := Below(items, range);
      BelowSplits(items, range);
      var x, update, rank, before := Start((it: Item, r) => !GteMin(it.score, range), p);
      ghost var last;
      removed, last := DeleteScores(x, update, rank, p, items, range);
      RunningAt(last, update, rank, p, items, removed);
      ScoresCut(items, range, removed);
    }

    lemma ScoresCut(items: seq<Item>, range: Range, removed: nat)
      requires Sorted(items)
      requires var p := Below(items, range);
        && p + removed <= |items|
        && (forall i :: p <= i < p + removed ==> LteMax(items[i].score, range))
        && (p + removed < |items| ==> !LteMax(items[p + removed].score, range))
      ensures var p := Below(items, range); Outside(items, range) == Cut(items, p, p + removed)
    {
      hide Below, Through, Outside, Sorted;
      BelowSplits(items, range);
      ThroughSplits(items, range);
      OutsideIsCut(items, range, Below(items, range), Below(items, range) + removed);
    }

    /** The loop of `m_zslDeleteRangeByRank`. */
    method DeleteRanks(x0: Node?, update: seq<Node>, ghost rank: seq<nat>, ghost p: nat, ghost items: seq<Item>,
                       traversed0: nat, end: nat)
      returns (removed: nat, ghost x: Node?)
      requires Running(x0, update, rank, p, items, 0) && traversed0 == p + 1
      modifies this, nodes
      ensures Running(x, update, rank, p, items, removed)
      ensures removed > 0 ==> p + removed <= end
      ensures x == null || p + removed + 1 > end
    {
      hide Valid, Running;
      ghost var nodes0 := nodes;
      var y, traversed := x0, traversed0;
      removed := 0;
      while y != null && traversed <= end
        invariant Running(y, update, rank, p, items, removed)
        invariant traversed == p + removed + 1 && (removed > 0 ==> p + removed <= end)
        invariant forall n :: n in nodes ==> n in nodes0
        decreases length
      {
        assert forall i :: 0 <= i < |nodes| ==> nodes[i] in nodes0;
        y := DeleteStep(y, update, rank, p, items, removed);
        removed := removed + 1;
        traversed := traversed + 1;
      }
      x := y;
    }

    /** `m_zslDeleteRangeByRank`; ranks count from 1. */
    method DeleteRangeByRank(start: nat, end: nat) returns (removed: nat)
      requires Valid()
      modifies this, nodes
      ensures Valid() && removed == |old(Items())| - |Items()|
      ensures var n := |old(Items())|;
        var p := if start == 0 then 0 else if start <= n then start - 1 else n;
        var q := if end < p then p else if end <= n then end else n;
        p <= q <= n && Items() == Cut(old(Items()), p, q)
    {
      hide Linked, Sorted, Distinct, RowsOf, BackwardOk, Path, Running;
      ghost var items := Items();
      ghost var p := if start == 0 then 0 else if start <= length then start - 1 else length;
      var x, update, rank, traversed := Start((it, r) => r < start, p);
      ghost var last;
      removed, last := DeleteRanks(x, update, rank, p, items, traversed + 1, end);
      RunningAt(last, update, rank, p, items, removed);
    }

    /** `m_zslGetElementByRank`: ranks count from 1, and rank 0 is the header. */
    method GetElementByRank(rank: nat) returns (x: Node?)
      requires Valid()
      ensures x == if rank <= length then nodes[rank] else null
    {
      hide Linked, Sorted, Distinct, RowsOf, BackwardOk;
      ghost var p := if rank <= length then rank else length;
      var y := header;
      var traversed := 0;
      var i := level;
      LevelBound();
      while i > 0
        invariant 0 <= i <= level && 0 <= traversed <= p && y == nodes[traversed] && (i > 0 ==> i - 1 < |y.level|)
        invariant traversed != rank || i == level
        invariant i == 0 ==> traversed == p
      {
        i := i - 1;
        y, traversed := Forward((it, r) => r <= rank, y, traversed, i, p);
        if traversed == rank {
          return y;
        }
        LastAtBottom(p, traversed, i);
      }
      return null;
    }

    lemma LevelBound()
      requires Shape()
      ensures 1 <= level <= |header.level|
    {}

    lemma LastAtBottom(p: nat, r: nat, l: nat)
      requires Shape() && p < |nodes| && IsLast(RowsOf(nodes), p, l, r)
      ensures l == 0 ==> r == p
    {
      assert p == 0 || 1 <= |RowsOf(nodes)[p]|;
    }
  }
}
