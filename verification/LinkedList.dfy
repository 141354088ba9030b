/**
  The doubly linked list that carries keys from a scan or a tag walk to the deletion or migration
  of those keys. It is the sequence of its values; `len`, `prev` and `next` agree with it.
*/
module LinkedLists {

  /** `m_listNode` */
  class Node<T> {
    var value: T
    var prev: Node?<T>
    var next: Node?<T>

    constructor (value: T)
      ensures this.value == value && prev == null && next == null
    {
      this.value := value;
      prev, next := null, null;
    }
  }

  ghost function ValuesOf<T>(nodes: seq<Node<T>>): (values: seq<T>)
    reads nodes`value
    ensures |values| == |nodes| && forall i :: 0 <= i < |nodes| ==> values[i] == nodes[i].value
  {
    if nodes == [] then [] else ValuesOf(nodes[..|nodes| - 1]) + [nodes[|nodes| - 1].value]
  }

  ghost predicate Distinct<T>(nodes: seq<Node<T>>)
  {
    forall i, j :: 0 <= i < j < |nodes| ==> nodes[i] != nodes[j]
  }

  ghost function First<T>(nodes: seq<Node<T>>): Node?<T>
  {
    if nodes == [] then null else nodes[0]
  }

  ghost function Last<T>(nodes: seq<Node<T>>): Node?<T>
  {
    if nodes == [] then null else nodes[|nodes| - 1]
  }

  ghost predicate NextOk<T>(nodes: seq<Node<T>>)
    reads nodes`next
  {
    forall i {:trigger nodes[i].next} ::
      0 <= i < |nodes| ==> nodes[i].next == if i + 1 < |nodes| then nodes[i + 1] else null
  }

  ghost predicate PrevOk<T>(nodes: seq<Node<T>>)
    reads nodes`prev
  {
    forall i {:trigger nodes[i].prev} :: 0 <= i < |nodes| ==> nodes[i].prev == if i > 0 then nodes[i - 1] else null
  }

  ghost function Reverse<T>(s: seq<T>): (r: seq<T>)
    ensures |r| == |s| && forall i :: 0 <= i < |s| ==> r[i] == s[|s| - 1 - i]
  {
    if s == [] then [] else Reverse(s[1..]) + [s[0]]
  }

  lemma ValuesCat<T>(a: seq<Node<T>>, b: seq<Node<T>>)
    ensures ValuesOf(a + b) == ValuesOf(a) + ValuesOf(b)
  {}

  lemma ValuesWithout<T>(nodes: seq<Node<T>>, i: nat)
    requires i < |nodes|
    ensures |ValuesOf(nodes)| == |nodes|
    ensures ValuesOf(nodes[..i] + nodes[i + 1..]) == ValuesOf(nodes)[..i] + ValuesOf(nodes)[i + 1..]
  {
    var rest := nodes[..i] + nodes[i + 1..];
    var r, v := ValuesOf(rest), ValuesOf(nodes);
    forall k | 0 <= k < i
      ensures r[k] == v[k]
    {
      assert rest[k] == nodes[k];
    }
    forall k | i <= k < |r|
      ensures r[k] == v[k + 1]
    {
      assert rest[k] == nodes[k + 1];
    }
    SkipOne(v, r, i);
  }

  lemma SkipOne<T>(v: seq<T>, r: seq<T>, i: nat)
    requires i < |v| && |r| == |v| - 1
    requires forall k :: 0 <= k < i ==> r[k] == v[k]
    requires forall k :: i <= k < |r| ==> r[k] == v[k + 1]
    ensures r == v[..i] + v[i + 1..]
  {}

  lemma LastOfSum<T>(a: seq<Node<T>>, b: seq<Node<T>>)
    ensures Last(a + b) == if b == [] then Last(a) else Last(b)
  {}

  lemma OneValue<T>(node: Node<T>)
    ensures ValuesOf([node]) == [node.value]
  {}

  lemma AppendDistinct<T>(nodes: seq<Node<T>>, node: Node<T>)
    requires Distinct(nodes) && node !in nodes
    ensures Distinct(nodes + [node])
  {}

  lemma DistinctFrom<T>(s: seq<Node<T>>, j: int)
    requires Distinct(s)
    ensures 0 <= j < |s| ==> forall k :: 0 <= k < |s| && k != j ==> s[k] != s[j]
  {
    if 0 <= j < |s| {
      forall k | 0 <= k < |s| && k != j
        ensures s[k] != s[j]
      {
        if k < j { assert s[k] != s[j]; } else { assert s[j] != s[k]; }
      }
    }
  }

  class List<T> {
    var head: Node?<T>
    var tail: Node?<T>
    var len: nat

    ghost var nodes: seq<Node<T>>

    ghost predicate Valid()
      reads this, nodes
    {
      && head == First(nodes) && tail == Last(nodes) && len == |nodes|
      && Distinct(nodes) && NextOk(nodes) && PrevOk(nodes)
    }

    ghost function Contents(): seq<T>
      reads this, nodes
    {
      ValuesOf(nodes)
    }

    /** `m_listCreate` */
    constructor ()
      ensures Valid() && nodes == [] && Contents() == []
    {
      head, tail, len, nodes := null, null, 0, [];
    }

    /** The links of a new first node. */
    method Prepend(node: Node<T>)
      requires Valid() && node !in nodes && node.prev == null && node.next == null
      modifies this, nodes`prev, node`prev, node`next
      ensures Valid() && nodes == [node] + old(nodes) && head == node
    {
      DistinctFrom(nodes, 0);
      if len == 0 {
        head, tail := node, node;
      } else {
        node.prev := null;
        node.next := head;
        head.prev := node;
        head := node;
      }
      len := len + 1;
      nodes := [node] + nodes;
    }

    /** `m_listAddNodeHead` */
    method AddNodeHead(value: T)
      requires Valid()
      modifies this, nodes`prev
      ensures Valid() && Contents() == [value] + old(Contents())
      ensures head != null && fresh(head) && nodes == [head] + old(nodes)
    {
      var node := new Node(value);
      ghost var before := nodes;
      hide ValuesOf, Valid;
      Prepend(node);
      ValuesCat([node], before);
      OneValue(node);
    }

    /** The links of a new last node. */
    method Append(node: Node<T>)
      requires Valid() && node !in nodes && node.prev == null && node.next == null
      modifies this, nodes`next, node`prev, node`next
      ensures Valid() && nodes == old(nodes) + [node] && tail == node
    {
      DistinctFrom(nodes, len - 1);
      AppendDistinct(nodes, node);
      if len == 0 {
        head, tail := node, node;
      } else {
        node.prev := tail;
        node.next := null;
        tail.next := node;
        tail := node;
      }
      len := len + 1;
      nodes := nodes + [node];
    }

    /** `m_listAddNodeTail` */
    method AddNodeTail(value: T)
      requires Valid()
      modifies this, nodes`next
      ensures Valid() && Contents() == old(Contents()) + [value]
      ensures tail != null && fresh(tail) && nodes == old(nodes) + [tail]
    {
      var node := new Node(value);
      ghost var before := nodes;
      hide ValuesOf, Valid;
      Append(node);
      ValuesCat(before, [node]);
      OneValue(node);
    }

    /** The nodes with `node` put in at place `p`. */
    ghost function Put(node: Node<T>, p: nat): seq<Node<T>>
      requires p <= |nodes|
      reads this
    {
      nodes[..p] + [node] + nodes[p..]
    }

    lemma PutDistinct(node: Node<T>, p: nat)
      requires p <= |nodes| && Distinct(nodes) && node !in nodes
      ensures Distinct(Put(node, p))
    {}

    lemma PutValues(node: Node<T>, p: nat)
      requires p <= |nodes|
      ensures ValuesOf(Put(node, p)) == ValuesOf(nodes)[..p] + [node.value] + ValuesOf(nodes)[p..]
    {}

    lemma PutEnds(node: Node<T>, p: nat)
      requires p <= |nodes|
      ensures |Put(node, p)| == |nodes| + 1
      ensures First(Put(node, p)) == if p == 0 then node else First(nodes)
      ensures Last(Put(node, p)) == if p == |nodes| then node else Last(nodes)
    {}

    lemma PlaceOf(i: nat)
      requires Valid() && i < |nodes|
      ensures nodes[i].next == if i + 1 < |nodes| then nodes[i + 1] else null
      ensures nodes[i].prev == if i > 0 then nodes[i - 1] else null
      ensures (head == nodes[i] <==> i == 0) && (tail == nodes[i] <==> i == len - 1)
    {
      DistinctFrom(nodes, i);
    }

    /** Make the neighbours of `node` point to it. */
    method LinkIn(node: Node<T>, ghost p: nat)
      requires p <= |nodes| && Distinct(nodes) && NextOk(nodes) && PrevOk(nodes) && node !in nodes
      requires node.prev == if p > 0 then nodes[p - 1] else null
      requires node.next == if p < |nodes| then nodes[p] else null
      modifies nodes`prev, nodes`next
      ensures NextOk(Put(node, p)) && PrevOk(Put(node, p))
    {
      ghost var after := Put(node, p);
      assert forall k :: 0 <= k < p ==> after[k] == nodes[k];
      assert forall k :: p < k < |after| ==> after[k] == nodes[k - 1];
      DistinctFrom(nodes, p);
      DistinctFrom(nodes, p - 1);
      if node.prev != null {
        node.prev.next := node;
      }
      if node.next != null {
        node.next.prev := node;
      }
    }

    /** The links of a new node next to `oldNode`, and the ends of the list. */
    method PlaceNode(oldNode: Node<T>, node: Node<T>, after: bool, ghost i: nat)
      requires Valid() && i < |nodes| && nodes[i] == oldNode && node !in nodes
      modifies `head, `tail, node`prev, node`next
      ensures var p := if after then i + 1 else i;
        && node.prev == (if p > 0 then nodes[p - 1] else null) && node.next == (if p < |nodes| then nodes[p] else null)
        && head == (if p == 0 then node else old(head)) && tail == (if p == |nodes| then node else old(tail))
    {
      PlaceOf(i);
      hide ValuesOf, NextOk, PrevOk, Distinct;
      if after {
        node.prev := oldNode;
        node.next := oldNode.next;
        if tail == oldNode {
          tail := node;
        }
      } else {
        node.next := oldNode;
        node.prev := oldNode.prev;
        if head == oldNode {
          head := node;
        }
      }
    }

    /** `m_listInsertNode`, before or after the node at place `i`. */
    method InsertNode(oldNode: Node<T>, value: T, after: bool, ghost i: nat)
      requires Valid() && i < |nodes| && nodes[i] == oldNode
      modifies this, nodes`prev, nodes`next
      ensures Valid()
      ensures var p := if after then i + 1 else i;
        Contents() == old(Contents())[..p] + [value] + old(Contents())[p..]
    {
      hide ValuesOf, NextOk, PrevOk, Distinct, Put;
      ghost var p := if after then i + 1 else i;
      var node := new Node(value);
      PlaceNode(oldNode, node, after, i);
      LinkIn(node, p);
      PutEnds(node, p);
      PutDistinct(node, p);
      PutValues(node, p);
      ghost var longer := Put(node, p);
      len, nodes := len + 1, longer;
    }

    /** Make the neighbours of a node, or the ends of the list, pass it by. */
    method Unlink(node: Node<T>, ghost i: nat)
      requires Valid() && i < |nodes| && nodes[i] == node
      modifies this, nodes`prev, nodes`next
      ensures Valid() && nodes == old(nodes)[..i] + old(nodes)[i + 1..]
    {
      ghost var before, after := nodes, nodes[..i] + nodes[i + 1..];
      assert forall k :: 0 <= k < i ==> after[k] == before[k];
      assert forall k :: i <= k < |after| ==> after[k] == before[k + 1];
      DistinctFrom(nodes, i + 1);
      DistinctFrom(nodes, i - 1);
      if node.prev != null {
        node.prev.next := node.next;
      } else {
        head := node.next;
      }
      if node.next != null {
        node.next.prev := node.prev;
      } else {
        tail := node.prev;
      }
      len := len - 1;
      nodes := after;
    }

    /** `m_listDelNode` of the node at place `i`. */
    method DelNode(node: Node<T>, ghost i: nat)
      requires Valid() && i < |nodes| && nodes[i] == node
      modifies this, nodes`prev, nodes`next
      ensures Valid() && Contents() == old(Contents())[..i] + old(Contents())[i + 1..]
      ensures nodes == old(nodes)[..i] + old(nodes)[i + 1..]
    {
      ghost var before := nodes;
      hide ValuesOf, Valid;
      Unlink(node, i);
      ValuesWithout(before, i);
    }

    /** `m_listIndex`: from the head for 0, 1, ..., from the tail for -1, -2, ... */
    method Index(index0: int) returns (n: Node?<T>)
      requires Valid()
      ensures n == if 0 <= index0 < len then nodes[index0]
                   else if index0 < 0 && 0 <= len + index0 then nodes[len + index0] else null
    {
      var index: int := index0;
      if index < 0 {
        index := -index - 1;
        n := tail;
        while index > 0 && n != null
          invariant 0 <= index < -index0
          invariant var k := -index0 - 1 - index; n == if k < len then nodes[len - 1 - k] else null
        {
          n := n.prev;
          index := index - 1;
        }
      } else {
        n := head;
        while index > 0 && n != null
          invariant 0 <= index <= index0
          invariant var k := index0 - index; n == if k < len then nodes[k] else null
        {
          n := n.next;
          index := index - 1;
        }
      }
    }

    /** Detach the current tail. */
    method DetachTail()
      requires Valid() && len > 1
      modifies this`tail, nodes`next
      ensures tail == nodes[len - 2] && NextOk(nodes[..len - 1])
    {
      DistinctFrom(nodes, len - 2);
      tail := tail.prev;
      tail.next := null;
    }

    /** Move `t` before the nodes of `rest`. */
    method MoveToHead(t: Node<T>, ghost rest: seq<Node<T>>)
      requires rest != [] && head == rest[0] && NextOk(rest) && PrevOk(rest) && t !in rest && Distinct(rest)
      modifies this`head, head`prev, t`prev, t`next
      ensures head == t && NextOk([t] + rest) && PrevOk([t] + rest)
    {
      DistinctFrom(rest, 0);
      head.prev := t;
      t.prev := null;
      t.next := head;
      head := t;
    }

    lemma TailIsLast()
      requires Valid() && len > 1
      ensures len == |nodes| && tail == nodes[len - 1] && head == nodes[0]
    {
      hide NextOk, PrevOk, Distinct;
    }

    method MoveTail()
      requires Valid() && len > 1
      modifies this`head, this`tail, this`nodes, nodes`prev, nodes`next
      ensures Valid() && nodes == [old(tail)] + old(nodes)[..len - 1]
    {
      var t := tail;
      ghost var rest := nodes[..len - 1];
      RotatedNodes();
      hide Valid, NextOk, PrevOk, Distinct, First, ValuesOf;
      assert t == nodes[len - 1] && rest[0] == nodes[0] == head by { TailIsLast(); }
      DetachTail();
      assert tail == Last(rest);
      hide Last;
      MoveToHead(t, rest);
      nodes := [t] + rest;
      assert Valid() by { RotatedValid(rest, t); }
    }

    /** `m_listRotate`: the last value becomes the first. */
    method Rotate()
      requires Valid()
      modifies this, nodes`prev, nodes`next
      ensures Valid()
      ensures Contents() == if old(len) <= 1 then old(Contents())
                            else [old(Contents())[old(len) - 1]] + old(Contents())[..old(len) - 1]
    {
      hide NextOk, PrevOk, Distinct, ValuesOf;
      if len <= 1 {
        return;
      }
      RotatedNodes();
      MoveTail();
    }

    lemma RotatedValid(rest: seq<Node<T>>, t: Node<T>)
      requires nodes == [t] + rest && rest != [] && head == t && tail == Last(rest) && len == |nodes|
      requires Distinct(nodes) && NextOk(nodes) && PrevOk(nodes)
      ensures Valid()
    {}

    lemma RotatedNodes()
      requires Valid() && len > 1
      ensures var rest := nodes[..len - 1];
        && tail !in rest && Distinct(rest) && PrevOk(rest) && Distinct([tail] + rest)
        && ValuesOf([tail] + rest) == [ValuesOf(nodes)[len - 1]] + ValuesOf(nodes)[..len - 1]
    {
      DistinctFrom(nodes, len - 1);
    }

    /** The links and ends of both lists. */
    method JoinLinks(o: List<T>)
      requires Valid() && o.Valid() && o != this && forall n :: n in nodes ==> n !in o.nodes
      modifies this, o, nodes`next, o.nodes`prev
      ensures Valid() && o.Valid() && nodes == old(nodes) + old(o.nodes) && o.nodes == []
    {
      hide ValuesOf, Distinct, NextOk, PrevOk;
      LastOfSum(nodes, o.nodes);
      LinkEnds(o);
      ghost var after := nodes + o.nodes;
      if o.tail != null {
        tail := o.tail;
      }
      len := len + o.len;
      o.head, o.tail, o.len := null, null, 0;
      nodes := after;
      o.nodes := [];
      Nothing<T>();
    }

    /** `m_listJoin`: all of `o` moves to the end. */
    method Join(o: List<T>)
      requires Valid() && o.Valid() && o != this && forall n :: n in nodes ==> n !in o.nodes
      modifies this, o, nodes`next, o.nodes`prev
      ensures Valid() && Contents() == old(Contents()) + old(o.Contents())
      ensures o.Valid() && o.Contents() == []
      ensures nodes == old(nodes) + old(o.nodes) && o.nodes == []
    {
      ghost var before, others := nodes, o.nodes;
      hide ValuesOf, Valid;
      JoinLinks(o);
      ValuesCat(before, others);
      Nothing<T>();
    }

    lemma Nothing<U>()
      ensures NextOk<U>([]) && PrevOk<U>([]) && Distinct<U>([]) && ValuesOf<U>([]) == []
    {}

    /** Link the last node of this list with the first of `o`. */
    method LinkEnds(o: List<T>)
      requires Valid() && o.Valid() && o != this && forall n :: n in nodes ==> n !in o.nodes
      modifies this`head, nodes`next, o.nodes`prev
      ensures NextOk(nodes + o.nodes) && PrevOk(nodes + o.nodes) && Distinct(nodes + o.nodes)
      ensures head == First(nodes + o.nodes)
    {
      ghost var after := nodes + o.nodes;
      assert forall i, j :: 0 <= i < |nodes| && 0 <= j < |o.nodes| ==> nodes[i] != o.nodes[j] by {
        forall i, j | 0 <= i < |nodes| && 0 <= j < |o.nodes|
          ensures nodes[i] != o.nodes[j]
        {
          assert nodes[i] in nodes;
        }
      }
      assert Distinct(after);
      DistinctFrom(after, len);
      DistinctFrom(after, len - 1);
      if o.head != null {
        o.head.prev := tail;
      }
      if tail != null {
        tail.next := o.head;
      } else {
        head := o.head;
      }
    }

    /** Following `next` from the head and `prev` from the tail meets the same values, in opposite orders. */
    method Walk() returns (forward: seq<T>, backward: seq<T>)
      requires Valid()
      ensures forward == Contents() && backward == Reverse(Contents()) && len == |Contents()|
    {
      forward, backward := [], [];
      var n, i := head, 0;
      while n != null
        invariant 0 <= i <= len && n == (if i < len then nodes[i] else null)
        invariant forward == Contents()[..i]
        decreases len - i
      {
        forward := forward + [n.value];
        n, i := n.next, i + 1;
      }
      n, i := tail, 0;
      while n != null
        invariant 0 <= i <= len && n == (if i < len then nodes[len - 1 - i] else null)
        invariant backward == Reverse(Contents())[..i]
        decreases len - i
      {
        backward := backward + [n.value];
        n, i := n.prev, i + 1;
      }
    }
  }
}
