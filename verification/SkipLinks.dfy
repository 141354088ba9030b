/**
  The links of the skip list as values: what `forward` and `span` must be at every level, and how
  insertion and deletion of a node keep them so.
*/
module SkipLinks {
  import opened Keys

  const MAXLEVEL: nat := 64

  /** `m_zskiplistNode` */
  class Node {
    var member: Key
    var score: int
    var backward: Node?
    var level: seq<Level>

    constructor (levels: nat, score: int, member: Key)
      ensures this.score == score && this.member == member && backward == null
      ensures |level| == levels && forall l :: 0 <= l < levels ==> level[l] == Level(null, 0)
    {
      this.score := score;
      this.member := member;
      backward := null;
      level := seq(levels, i => Level(null, 0));
    }
  }

  /** `zskiplistLevel` */
  datatype Level = Level(forward: Node?, span: nat)

  /** The `level` arrays of the nodes, the header's first. */
  type Rows = seq<seq<Level>>

  /** No node strictly between `i` and `j` reaches level `l`. */
  ghost predicate Gap(rows: Rows, i: int, j: int, l: nat)
  {
    forall m :: i < m < j && 0 <= m < |rows| ==> |rows[m]| <= l
  }

  /** A link leads to the next node that reaches its level, and its span is the distance in ranks; a link to `NULL`
      has the distance to the last node as its span. */
  ghost predicate LinkOk(nodes: seq<Node>, rows: Rows, k: nat, l: nat, link: Level)
    requires |rows| == |nodes|
  {
    var j := k + link.span;
    if link.forward == null then
      j == |rows| - 1 && Gap(rows, k, |rows|, l)
    else
      k < j < |rows| && nodes[j] == link.forward && l < |rows[j]| && Gap(rows, k, j, l)
  }

  /** All links below level `top` are right; above it the header has none. */
  ghost predicate Linked(nodes: seq<Node>, rows: Rows, top: nat)
  {
    && |rows| == |nodes| > 0
    && 1 <= top <= MAXLEVEL == |rows[0]|
    && (forall k :: 1 <= k < |rows| ==> 1 <= |rows[k]| <= top)
    && (forall k, l :: 0 <= k < |rows| && 0 <= l < top && l < |rows[k]| ==> LinkOk(nodes, rows, k, l, rows[k][l]))
    && (forall l :: top <= l < MAXLEVEL ==> rows[0][l].forward == null)
  }

  /** `r` is the last of the nodes `0..p` that reaches level `l`. */
  ghost predicate IsLast(rows: Rows, p: nat, l: nat, r: nat)
  {
    r <= p < |rows| && l < |rows[r]| && Gap(rows, r, p + 1, l)
  }

  /** `rank` lists the last nodes at or before `p` for the levels below `top`: the search path to `p`. */
  ghost predicate IsPath(rows: Rows, p: nat, top: nat, rank: seq<nat>)
  {
    |rank| == MAXLEVEL && top <= MAXLEVEL && forall l :: 0 <= l < top ==> IsLast(rows, p, l, rank[l])
  }

  /** The header has a link at the top level exactly when some node reaches it. */
  lemma TopLink(nodes: seq<Node>, rows: Rows, top: nat)
    requires Linked(nodes, rows, top)
    ensures rows[0][top - 1].forward != null <==> exists k :: 1 <= k < |rows| && |rows[k]| == top
  {
    assert LinkOk(nodes, rows, 0, top - 1, rows[0][top - 1]);
  }

  // ---------------------------------------------------------------- insertion

  /** Before the new node is linked, the header's rows up to its height get the whole length as span. */
  function Raise(row: seq<Level>, top: nat, h: nat, length: nat): seq<Level>
  {
    seq(|row|, l requires 0 <= l < |row| => if top <= l < h then Level(row[l].forward, length) else row[l])
  }

  lemma RaiseKeepsLinks(nodes: seq<Node>, rows: Rows, top: nat, h: nat)
    requires Linked(nodes, rows, top) && top <= h <= MAXLEVEL
    ensures Linked(nodes, rows[0 := Raise(rows[0], top, h, |rows| - 1)], h)
  {
    var raised := rows[0 := Raise(rows[0], top, h, |rows| - 1)];
    forall k, l | 0 <= k < |raised| && 0 <= l < h && l < |raised[k]|
      ensures LinkOk(nodes, raised, k, l, raised[k][l])
    {
      if l < top {
        assert LinkOk(nodes, rows, k, l, rows[k][l]);
        assert raised[k][l] == rows[k][l];
      }
    }
  }

  /** Row `k`, at or before the insertion point `p`, after levels below `done` were handled: the link that spans the
      insertion point now leads to `x`, or one further above the height `h` of `x`. */
  function RowBefore(row: seq<Level>, k: nat, p: nat, x: Node, h: nat, rank: seq<nat>, done: nat): (r: seq<Level>)
    requires |rank| == MAXLEVEL && done <= MAXLEVEL && k <= p
    ensures |r| == |row|
  {
    seq(|row|, l requires 0 <= l < |row| =>
      if l < done && rank[l] == k then
        if l < h then Level(x, p + 1 - k) else Level(row[l].forward, row[l].span + 1)
      else row[l])
  }

  /** The row of the new node: what is left of the links that it interrupts. */
  ghost predicate IsNewRow(rows: Rows, p: nat, h: nat, rank: seq<nat>, row: seq<Level>)
    requires |rank| == MAXLEVEL
  {
    |row| == h <= MAXLEVEL && forall l :: 0 <= l < h ==>
      && rank[l] <= p && rank[l] < |rows| && l < |rows[rank[l]]|
      && row[l].forward == rows[rank[l]][l].forward
      && row[l].span == rows[rank[l]][l].span - (p - rank[l])
  }

  ghost function RowsBefore(rows: Rows, p: nat, x: Node, h: nat, rank: seq<nat>, done: nat): (r: Rows)
    requires |rank| == MAXLEVEL && done <= MAXLEVEL && p < |rows|
    ensures |r| == p + 1
    ensures forall k :: 0 <= k <= p ==> r[k] == RowBefore(rows[k], k, p, x, h, rank, done)
  {
    seq(p + 1, k requires 0 <= k < p + 1 => RowBefore(rows[k], k, p, x, h, rank, done))
  }

  /** The rows after the insertion of `x`, with row `row`, behind node `p`. */
  ghost function Inserted(rows: Rows, p: nat, x: Node, row: seq<Level>, rank: seq<nat>, top: nat): (r: Rows)
    requires |rank| == MAXLEVEL && top <= MAXLEVEL && p < |rows|
    ensures |r| == |rows| + 1
  {
    RowsBefore(rows, p, x, |row|, rank, top) + [row] + rows[p + 1..]
  }

  ghost function InsertNode(nodes: seq<Node>, p: nat, x: Node): seq<Node>
    requires p < |nodes|
  {
    nodes[..p + 1] + [x] + nodes[p + 1..]
  }

  lemma InsertedGap(rows: Rows, p: nat, x: Node, row: seq<Level>, rank: seq<nat>, top: nat, i: int, j: int, l: nat)
    requires |rank| == MAXLEVEL && top <= MAXLEVEL && p < |rows| && -1 <= i && j <= |rows|
    ensures j <= p + 1 && Gap(rows, i, j, l) ==> Gap(Inserted(rows, p, x, row, rank, top), i, j, l)
    ensures i >= p && Gap(rows, i, j, l) ==> Gap(Inserted(rows, p, x, row, rank, top), i + 1, j + 1, l)
    ensures i <= p < j && Gap(rows, i, j, l) && |row| <= l ==> Gap(Inserted(rows, p, x, row, rank, top), i, j + 1, l)
  {
    var rows' := Inserted(rows, p, x, row, rank, top);
    assert forall m :: 0 <= m <= p ==> |rows'[m]| == |rows[m]|;
    assert forall m :: p + 2 <= m < |rows'| ==> rows'[m] == rows[m - 1];
  }

  lemma InsertedPathLink(nodes: seq<Node>, rows: Rows, top: nat, p: nat, x: Node, row: seq<Level>, rank: seq<nat>,
                     k: nat, l: nat)
    requires Linked(nodes, rows, top) && p < |rows| && IsPath(rows, p, top, rank)
    requires 1 <= |row| <= top && IsNewRow(rows, p, |row|, rank, row)
    requires l < top && k == rank[l]
    ensures LinkOk(InsertNode(nodes, p, x), Inserted(rows, p, x, row, rank, top), k, l,
                   Inserted(rows, p, x, row, rank, top)[k][l])
  {
    var r := rank[l];
    assert IsLast(rows, p, l, r) && LinkOk(nodes, rows, r, l, rows[r][l]);
    InsertedGap(rows, p, x, row, rank, top, r, p + 1, l);
    InsertedGap(rows, p, x, row, rank, top, r, if rows[r][l].forward == null then |rows| else r + rows[r][l].span, l);
  }

  lemma InsertedEarlierLink(nodes: seq<Node>, rows: Rows, top: nat, p: nat, x: Node, row: seq<Level>, rank: seq<nat>,
                     k: nat, l: nat)
    requires Linked(nodes, rows, top) && p < |rows| && IsPath(rows, p, top, rank)
    requires 1 <= |row| <= top && IsNewRow(rows, p, |row|, rank, row)
    requires k <= p && l < top && l < |rows[k]| && k != rank[l]
    ensures LinkOk(InsertNode(nodes, p, x), Inserted(rows, p, x, row, rank, top), k, l,
                   Inserted(rows, p, x, row, rank, top)[k][l])
  {
    assert IsLast(rows, p, l, rank[l]) && LinkOk(nodes, rows, k, l, rows[k][l]);
    InsertedGap(rows, p, x, row, rank, top, k, k + rows[k][l].span, l);
  }

  lemma InsertedNewLink(nodes: seq<Node>, rows: Rows, top: nat, p: nat, x: Node, row: seq<Level>, rank: seq<nat>,
                     k: nat, l: nat)
    requires Linked(nodes, rows, top) && p < |rows| && IsPath(rows, p, top, rank)
    requires 1 <= |row| <= top && IsNewRow(rows, p, |row|, rank, row)
    requires k == p + 1 && l < |row|
    ensures LinkOk(InsertNode(nodes, p, x), Inserted(rows, p, x, row, rank, top), k, l,
                   Inserted(rows, p, x, row, rank, top)[k][l])
  {
    var r := rank[l];
    assert IsLast(rows, p, l, r) && LinkOk(nodes, rows, r, l, rows[r][l]);
    InsertedGap(rows, p, x, row, rank, top, p, if rows[r][l].forward == null then |rows| else r + rows[r][l].span, l);
  }

  lemma InsertedLaterLink(nodes: seq<Node>, rows: Rows, top: nat, p: nat, x: Node, row: seq<Level>, rank: seq<nat>,
                     k: nat, l: nat)
    requires Linked(nodes, rows, top) && p < |rows| && IsPath(rows, p, top, rank)
    requires 1 <= |row| <= top && IsNewRow(rows, p, |row|, rank, row)
    requires p + 1 < k <= |rows| && l < top && l < |rows[k - 1]|
    ensures LinkOk(InsertNode(nodes, p, x), Inserted(rows, p, x, row, rank, top), k, l,
                   Inserted(rows, p, x, row, rank, top)[k][l])
  {
    var i := k - 1;
    assert LinkOk(nodes, rows, i, l, rows[i][l]);
    InsertedGap(rows, p, x, row, rank, top, i, if rows[i][l].forward == null then |rows| else i + rows[i][l].span, l);
  }

  /** Insertion keeps every link right. */
  lemma InsertKeepsLinks(nodes: seq<Node>, rows: Rows, top: nat, p: nat, x: Node, row: seq<Level>, rank: seq<nat>)
    requires Linked(nodes, rows, top) && p < |rows| && IsPath(rows, p, top, rank)
    requires 1 <= |row| <= top && IsNewRow(rows, p, |row|, rank, row)
    ensures Linked(InsertNode(nodes, p, x), Inserted(rows, p, x, row, rank, top), top)
  {
    var rows' := Inserted(rows, p, x, row, rank, top);
    forall k, l | 0 <= k < |rows'| && 0 <= l < top && l < |rows'[k]|
      ensures LinkOk(InsertNode(nodes, p, x), rows', k, l, rows'[k][l])
    {
      if k == p + 1 {
        InsertedNewLink(nodes, rows, top, p, x, row, rank, k, l);
      } else if k > p {
        InsertedLaterLink(nodes, rows, top, p, x, row, rank, k, l);
      } else if k == rank[l] {
        InsertedPathLink(nodes, rows, top, p, x, row, rank, k, l);
      } else {
        InsertedEarlierLink(nodes, rows, top, p, x, row, rank, k, l);
      }
    }
    assert forall k :: p + 2 <= k < |rows'| ==> rows'[k] == rows[k - 1];
  }

  // ---------------------------------------------------------------- deletion

  ghost predicate Distinct(nodes: seq<Node>)
  {
    forall i, j :: 0 <= i < j < |nodes| ==> nodes[i] != nodes[j]
  }

  /** On the search path, a link leads to the node after `p` exactly when that node reaches the link's level. */
  lemma PathLink(nodes: seq<Node>, rows: Rows, top: nat, p: nat, rank: seq<nat>, l: nat)
    requires Linked(nodes, rows, top) && Distinct(nodes) && p + 1 < |rows| && IsPath(rows, p, top, rank) && l < top
    ensures IsLast(rows, p, l, rank[l]) && LinkOk(nodes, rows, rank[l], l, rows[rank[l]][l])
    ensures rows[rank[l]][l].forward == nodes[p + 1] <==> l < |rows[p + 1]|
    ensures l < |rows[p + 1]| ==> rank[l] + rows[rank[l]][l].span == p + 1
    ensures rows[rank[l]][l].span >= 1
  {
    var r := rank[l];
    assert IsLast(rows, p, l, r);
    assert LinkOk(nodes, rows, r, l, rows[r][l]);
  }

  /** The link of the search path at level `l` once `x`, whose row is `xrow`, is taken out behind it. */
  function Bypass(link: Level, x: Node, xrow: seq<Level>, l: nat): Level
    requires link.span >= 1
  {
    if link.forward == x && l < |xrow| then Level(xrow[l].forward, link.span + xrow[l].span - 1)
    else Level(link.forward, link.span - 1)
  }

  /** Row `k`, before the deleted node, after levels below `done` were handled. */
  function RowBypassed(row: seq<Level>, k: nat, x: Node, xrow: seq<Level>, rank: seq<nat>, done: nat): (r: seq<Level>)
    requires |rank| == MAXLEVEL && done <= MAXLEVEL
    ensures |r| == |row|
  {
    seq(|row|, l requires 0 <= l < |row| =>
      if l < done && rank[l] == k && row[l].span >= 1 then Bypass(row[l], x, xrow, l) else row[l])
  }

  ghost function RowsBypassed(rows: Rows, p: nat, x: Node, rank: seq<nat>, top: nat): (r: Rows)
    requires |rank| == MAXLEVEL && top <= MAXLEVEL && p + 1 < |rows|
    ensures |r| == p + 1
    ensures forall k :: 0 <= k <= p ==> |r[k]| == |rows[k]|
  {
    seq(p + 1, k requires 0 <= k < p + 1 => RowBypassed(rows[k], k, x, rows[p + 1], rank, top))
  }

  /** The rows after the deletion of node `p + 1`. */
  ghost function Deleted(nodes: seq<Node>, rows: Rows, p: nat, rank: seq<nat>, top: nat): (r: Rows)
    requires |rank| == MAXLEVEL && top <= MAXLEVEL && p + 1 < |rows| == |nodes|
    ensures |r| == |rows| - 1
    ensures forall k :: 0 <= k <= p ==> |r[k]| == |rows[k]|
    ensures forall k :: p < k < |r| ==> r[k] == rows[k + 1]
  {
    RowsBypassed(rows, p, nodes[p + 1], rank, top) + rows[p + 2..]
  }

  ghost function RemoveNode(nodes: seq<Node>, p: nat): seq<Node>
    requires p + 1 < |nodes|
  {
    nodes[..p + 1] + nodes[p + 2..]
  }

  lemma DeletedGap(nodes: seq<Node>, rows: Rows, p: nat, rank: seq<nat>, top: nat, i: int, j: int, l: nat)
    requires |rank| == MAXLEVEL && top <= MAXLEVEL && p + 1 < |rows| == |nodes|
    requires -1 <= i && j <= |rows|
    ensures j <= p + 1 && Gap(rows, i, j, l) ==> Gap(Deleted(nodes, rows, p, rank, top), i, j, l)
    ensures i > p && Gap(rows, i, j, l) ==> Gap(Deleted(nodes, rows, p, rank, top), i - 1, j - 1, l)
    ensures i <= p && j > p + 1 && Gap(rows, i, p + 1, l) && Gap(rows, p + 1, j, l) ==>
      Gap(Deleted(nodes, rows, p, rank, top), i, j - 1, l)
  {}

  lemma DeletedPathLink(nodes: seq<Node>, rows: Rows, p: nat, rank: seq<nat>, top: nat, k: nat, l: nat)
    requires Linked(nodes, rows, top) && Distinct(nodes) && p + 1 < |rows| && IsPath(rows, p, top, rank)
    requires l < top && k == rank[l]
    ensures k <= p && l < |Deleted(nodes, rows, p, rank, top)[k]|
    ensures LinkOk(RemoveNode(nodes, p), Deleted(nodes, rows, p, rank, top), k, l,
                   Deleted(nodes, rows, p, rank, top)[k][l])
  {
    PathLink(nodes, rows, top, p, rank, l);
    var link := rows[k][l];
    if l < |rows[p + 1]| {
      var next := rows[p + 1][l];
      assert LinkOk(nodes, rows, p + 1, l, next);
      DeletedGap(nodes, rows, p, rank, top, k, if next.forward == null then |rows| else p + 1 + next.span, l);
    } else {
      DeletedGap(nodes, rows, p, rank, top, k, if link.forward == null then |rows| else k + link.span, l);
    }
  }

  lemma DeletedEarlierLink(nodes: seq<Node>, rows: Rows, p: nat, rank: seq<nat>, top: nat, k: nat, l: nat)
    requires Linked(nodes, rows, top) && Distinct(nodes) && p + 1 < |rows| && IsPath(rows, p, top, rank)
    requires k <= p && l < top && l < |rows[k]| && k != rank[l]
    ensures l < |Deleted(nodes, rows, p, rank, top)[k]|
    ensures LinkOk(RemoveNode(nodes, p), Deleted(nodes, rows, p, rank, top), k, l,
                   Deleted(nodes, rows, p, rank, top)[k][l])
  {
    assert IsLast(rows, p, l, rank[l]) && LinkOk(nodes, rows, k, l, rows[k][l]);
    DeletedGap(nodes, rows, p, rank, top, k, k + rows[k][l].span, l);
  }

  lemma DeletedLaterLink(nodes: seq<Node>, rows: Rows, p: nat, rank: seq<nat>, top: nat, k: nat, l: nat)
    requires Linked(nodes, rows, top) && Distinct(nodes) && p + 1 < |rows| && IsPath(rows, p, top, rank)
    requires p < k < |rows| - 1 && l < top && l < |rows[k + 1]|
    ensures LinkOk(RemoveNode(nodes, p), Deleted(nodes, rows, p, rank, top), k, l,
                   Deleted(nodes, rows, p, rank, top)[k][l])
  {
    var link := rows[k + 1][l];
    assert LinkOk(nodes, rows, k + 1, l, link);
    DeletedGap(nodes, rows, p, rank, top, k + 1, if link.forward == null then |rows| else k + 1 + link.span, l);
  }

  /** Deletion keeps every link right. */
  lemma DeleteKeepsLinks(nodes: seq<Node>, rows: Rows, p: nat, rank: seq<nat>, top: nat)
    requires Linked(nodes, rows, top) && Distinct(nodes) && p + 1 < |rows| && IsPath(rows, p, top, rank)
    ensures Linked(RemoveNode(nodes, p), Deleted(nodes, rows, p, rank, top), top)
  {
    var rows' := Deleted(nodes, rows, p, rank, top);
    forall k, l | 0 <= k < |rows'| && 0 <= l < top && l < |rows'[k]|
      ensures LinkOk(RemoveNode(nodes, p), rows', k, l, rows'[k][l])
    {
      if k > p {
        DeletedLaterLink(nodes, rows, p, rank, top, k, l);
      } else if k == rank[l] {
        DeletedPathLink(nodes, rows, p, rank, top, k, l);
      } else {
        DeletedEarlierLink(nodes, rows, p, rank, top, k, l);
      }
    }
    forall l | top <= l < MAXLEVEL
      ensures rows'[0][l].forward == null
    {
      assert rows'[0] == RowBypassed(rows[0], 0, nodes[p + 1], rows[p + 1], rank, top);
    }
  }

  /** The search path to `p` stays one after the deletion of node `p + 1`, so it can serve for the next deletion. */
  lemma DeleteKeepsPath(nodes: seq<Node>, rows: Rows, p: nat, rank: seq<nat>, top: nat)
    requires |rows| == |nodes| && p + 1 < |rows| && IsPath(rows, p, top, rank)
    ensures IsPath(Deleted(nodes, rows, p, rank, top), p, top, rank)
  {
    var rows' := Deleted(nodes, rows, p, rank, top);
    forall l | 0 <= l < top
      ensures IsLast(rows', p, l, rank[l])
    {
      assert IsLast(rows, p, l, rank[l]);
    }
  }

  /** The top level can be lowered as long as the header has no link there. */
  lemma LowerKeepsLinks(nodes: seq<Node>, rows: Rows, top: nat)
    requires Linked(nodes, rows, top) && top > 1 && rows[0][top - 1].forward == null
    ensures Linked(nodes, rows, top - 1)
  {
    TopLink(nodes, rows, top);
  }
}
