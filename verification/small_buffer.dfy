/**
  A sequential model of `SmallBuffer`: a chain of nodes of sixteen cells.
  `nodes[0]` is the inline head and `nodes[k + 1]` is the node that
  `nodes[k].next` points to.  Only the head's `last_free_slot` counts
  pushed elements; element number `i` lives in cell `i % 16` of node
  `i / 16`.  A cell is `None` while it holds no element (never written, or
  already moved out by a drain).
*/
module SmallBuffer {
  import opened Wrappers

  /** Cells per node. */
  const NodeSize: nat := 16

  /**
    One node: its cells, its `last_free_slot` counter and its
    `unallocated_next` flag (`next` itself is the following list entry).
  */
  datatype Node<T> = Node(buf: seq<Option<T>>, lastFreeSlot: nat, unallocatedNext: bool)

  datatype Buffer<T> = Buffer(nodes: seq<Node<T>>)

  function Max(a: nat, b: nat): nat {
    if a < b then b else a
  }

  /** `SmallBuffer::new` for one node: empty cells, count 0, no next node yet. */
  function EmptyNode<T>(): Node<T> {
    Node(seq(NodeSize, _ => None), 0, true)
  }

  /** The cell holding element number `i`; `None` past the end of the chain. */
  function CellAt<T>(nodes: seq<Node<T>>, i: nat): Option<T> {
    if i / NodeSize < |nodes| && i % NodeSize < |nodes[i / NodeSize].buf| then
      nodes[i / NodeSize].buf[i % NodeSize]
    else None
  }

  /**
    The chain's shape: sixteen cells per node, `unallocated_next` set
    exactly on the last node (whose `next` is null), and only the head
    counting elements.
  */
  ghost predicate WellFormed<T>(nodes: seq<Node<T>>) {
    && |nodes| >= 1
    && (forall k :: 0 <= k < |nodes| ==> |nodes[k].buf| == NodeSize)
    && (forall k :: 0 <= k < |nodes| ==> (nodes[k].unallocatedNext <==> k == |nodes| - 1))
    && (forall k :: 1 <= k < |nodes| ==> nodes[k].lastFreeSlot == 0)
  }

  function Count<T>(b: Buffer<T>): nat
    requires |b.nodes| >= 1
  {
    b.nodes[0].lastFreeSlot
  }

  /** A buffer at rest: exactly the cells below the count hold elements. */
  ghost predicate Valid<T>(b: Buffer<T>) {
    && WellFormed(b.nodes)
    && Count(b) <= NodeSize * |b.nodes|
    && (forall i: nat :: CellAt(b.nodes, i).Some? <==> i < Count(b))
  }

  /** The pushed elements, in index order across the chain. */
  function Contents<T>(b: Buffer<T>): (r: seq<T>)
    requires Valid(b)
    ensures |r| == Count(b)
  {
    seq(Count(b), i requires 0 <= i && CellAt(b.nodes, i).Some? => CellAt(b.nodes, i).value)
  }

  /** Nodes needed to hold `n` elements (the head always exists). */
  function NodesFor(n: nat): nat {
    if n == 0 then 1 else (n - 1) / NodeSize + 1
  }

  lemma NodesForMonotone(a: nat, b: nat)
    requires a <= b
    ensures NodesFor(a) <= NodesFor(b)
  {
  }

  lemma CellOfNode<T>(nodes: seq<Node<T>>, k: nat, j: nat)
    requires WellFormed(nodes) && k < |nodes| && j < NodeSize
    ensures CellAt(nodes, NodeSize * k + j) == nodes[k].buf[j]
  {
    var i := NodeSize * k + j;
    assert i / NodeSize == k && i % NodeSize == j;
  }

  /** Replaces cell `j` of node `k`; every other cell and every counter and flag stay. */
  function SetCell<T>(nodes: seq<Node<T>>, k: nat, j: nat, c: Option<T>): (r: seq<Node<T>>)
    requires WellFormed(nodes) && k < |nodes| && j < NodeSize
    ensures WellFormed(r) && |r| == |nodes|
    ensures forall q :: 0 <= q < |r| ==>
              r[q].lastFreeSlot == nodes[q].lastFreeSlot && r[q].unallocatedNext == nodes[q].unallocatedNext
    ensures forall i: nat :: CellAt(r, i) == if i == NodeSize * k + j then c else CellAt(nodes, i)
  {
    var r := nodes[k := nodes[k].(buf := nodes[k].buf[j := c])];
    forall i: nat ensures CellAt(r, i) == if i == NodeSize * k + j then c else CellAt(nodes, i) {
      if i / NodeSize == k && i % NodeSize == j {
        assert i == NodeSize * k + j;
      }
    }
    r
  }

  /** Sets the counter of node `k`; no cell changes. */
  function SetCount<T>(nodes: seq<Node<T>>, k: nat, n: nat): (r: seq<Node<T>>)
    requires k < |nodes|
    ensures |r| == |nodes| && r[k].lastFreeSlot == n
    ensures forall q :: 0 <= q < |r| && q != k ==> r[q] == nodes[q]
    ensures forall q :: 0 <= q < |r| ==> r[q].buf == nodes[q].buf && r[q].unallocatedNext == nodes[q].unallocatedNext
    ensures forall i: nat :: CellAt(r, i) == CellAt(nodes, i)
  {
    nodes[k := nodes[k].(lastFreeSlot := n)]
  }

  /**
    The locked branch of `insert_at_index` when `next` is null and the flag
    is still set: clear the flag and link a fresh empty node.
  */
  function AllocateNext<T>(nodes: seq<Node<T>>): (r: seq<Node<T>>)
    requires WellFormed(nodes)
    ensures WellFormed(r) && |r| == |nodes| + 1
    ensures !r[|nodes| - 1].unallocatedNext && r[|nodes|] == EmptyNode()
    ensures forall q :: 0 <= q < |nodes| ==> r[q].lastFreeSlot == nodes[q].lastFreeSlot
    ensures forall i: nat :: CellAt(r, i) == CellAt(nodes, i)
  {
    var k := |nodes| - 1;
    var r := nodes[k := nodes[k].(unallocatedNext := false)] + [EmptyNode()];
    forall i: nat ensures CellAt(r, i) == CellAt(nodes, i) {
      if i / NodeSize < |nodes| {
        assert r[i / NodeSize].buf == nodes[i / NodeSize].buf;
      } else if i / NodeSize == |nodes| {
        assert CellAt(r, i) == EmptyNode<T>().buf[i % NodeSize];
      }
    }
    r
  }

  /**
    `insert_at_index` called on node `k`: an index below sixteen is written
    into this node; a larger one is passed, less sixteen, to the next node,
    which is allocated first when `next` is null.  The element lands in
    cell `16 * k + index` of the whole chain, no other cell changes, no
    counter changes, and the chain grows only as far as needed.
  */
  function InsertAtIndex<T>(nodes: seq<Node<T>>, k: nat, item: T, index: nat): (r: seq<Node<T>>)
    requires WellFormed(nodes) && k < |nodes|
    ensures WellFormed(r)
    ensures |r| == Max(|nodes|, k + index / NodeSize + 1)
    ensures CellAt(r, NodeSize * k + index) == Some(item)
    ensures forall i: nat :: i != NodeSize * k + index ==> CellAt(r, i) == CellAt(nodes, i)
    ensures forall q :: 0 <= q < |nodes| ==> r[q].lastFreeSlot == nodes[q].lastFreeSlot
    decreases index
  {
    if index < NodeSize then
      CellOfNode(nodes, k, index);
      SetCell(nodes, k, index, Some(item))
    else if k + 1 < |nodes| then
      InsertAtIndex(nodes, k + 1, item, index - NodeSize)
    else if nodes[k].unallocatedNext then
      InsertAtIndex(AllocateNext(nodes), k + 1, item, index - NodeSize)
    else
      assert false;
      nodes
  }

  /**
    Allocation happens at most once per node: a node whose flag is clear
    keeps it clear, and a flag is cleared exactly when a node is linked
    behind it.
  */
  lemma InsertAllocatesOnce<T>(nodes: seq<Node<T>>, k: nat, item: T, index: nat, q: nat)
    requires WellFormed(nodes) && k < |nodes| && q < |nodes|
    ensures var r := InsertAtIndex(nodes, k, item, index);
            && (!nodes[q].unallocatedNext ==> !r[q].unallocatedNext)
            && (r[q].unallocatedNext <==> q + 1 == |r|)
            && (nodes[q].unallocatedNext && !r[q].unallocatedNext <==> q + 1 == |nodes| < |r|)
  {
  }

  /** An index below sixteen only writes the head's inline cell. */
  lemma InlineInsert<T>(nodes: seq<Node<T>>, item: T, index: nat)
    requires WellFormed(nodes) && index < NodeSize
    ensures var r := InsertAtIndex(nodes, 0, item, index);
            && r[0].buf == nodes[0].buf[index := Some(item)]
            && r[0].lastFreeSlot == nodes[0].lastFreeSlot
            && r[1..] == nodes[1..]
  {
  }

  /** `SmallBuffer::new`. */
  function New<T>(): (b: Buffer<T>)
    ensures Valid(b) && Count(b) == 0 && |b.nodes| == 1 && Contents(b) == []
  {
    Buffer([EmptyNode()])
  }

  /**
    `push`: claims the next index with the head's counter and inserts the
    item there.  The item becomes the last element and the chain grows by
    at most one node.
  */
  function Push<T>(b: Buffer<T>, item: T): (r: Buffer<T>)
    requires Valid(b)
    ensures Valid(r)
    ensures Count(r) == Count(b) + 1
    ensures Contents(r) == Contents(b) + [item]
    ensures |r.nodes| == Max(|b.nodes|, NodesFor(Count(r)))
  {
    var index := Count(b);
    var claimed := SetCount(b.nodes, 0, index + 1);
    var r := Buffer(InsertAtIndex(claimed, 0, item, index));
    AppendedContents(b, r, item);
    r
  }

  /** A valid buffer that keeps the cells of `b` and adds `item` after them holds one more element. */
  lemma AppendedContents<T>(b: Buffer<T>, r: Buffer<T>, item: T)
    requires Valid(b) && Valid(r) && Count(r) == Count(b) + 1
    requires CellAt(r.nodes, Count(b)) == Some(item)
    requires forall i: nat :: i < Count(b) ==> CellAt(r.nodes, i) == CellAt(b.nodes, i)
    ensures Contents(r) == Contents(b) + [item]
  {
    forall i | 0 <= i < Count(r) ensures Contents(r)[i] == (Contents(b) + [item])[i] {
      if i < Count(b) {
        assert CellAt(r.nodes, i) == CellAt(b.nodes, i);
      }
    }
  }

  /**
    Pushes each element of `xs` in turn: the count advances by exactly
    `|xs|` and exactly the pushed elements are appended, in order.
  */
  function PushAll<T>(b: Buffer<T>, xs: seq<T>): (r: Buffer<T>)
    requires Valid(b)
    ensures Valid(r)
    ensures Count(r) == Count(b) + |xs|
    ensures Contents(r) == Contents(b) + xs
    decreases |xs|
  {
    if xs == [] then b
    else
      var r := PushAll(Push(b, xs[0]), xs[1..]);
      assert [xs[0]] + xs[1..] == xs;
      r
  }

  /** Pushes grow the chain only to the nodes the new count needs. */
  lemma {:induction false} PushAllNodes<T>(b: Buffer<T>, xs: seq<T>)
    requires Valid(b)
    ensures |PushAll(b, xs).nodes| == Max(|b.nodes|, NodesFor(Count(b) + |xs|))
    decreases |xs|
  {
    if xs != [] {
      var b1 := Push(b, xs[0]);
      PushAllNodes(b1, xs[1..]);
      NodesForMonotone(Count(b1), Count(b) + |xs|);
    }
  }

  /** Element number `i` is stored in node `i / 16`, cell `i % 16`. */
  lemma PushedElementPlacement<T>(xs: seq<T>, i: nat)
    requires i < |xs|
    ensures var b := PushAll(New(), xs);
            && i / NodeSize < |b.nodes|
            && b.nodes[i / NodeSize].buf[i % NodeSize] == Some(xs[i])
  {
    var b := PushAll(New(), xs);
    assert Contents(b)[i] == xs[i];
    assert NodeSize * (i / NodeSize) + i % NodeSize == i;
    CellOfNode(b.nodes, i / NodeSize, i % NodeSize);
  }

  // ---------------------------------------------------------------------
  // Draining
  // ---------------------------------------------------------------------

  /**
    The `Drain` iterator: the node it reads (`sb`), the next cell of that
    node, and the remaining length measured from that node's start.
  */
  datatype Drain = Drain(node: nat, nextIndex: nat, len: nat)

  /** Global index of the next element to read. */
  function Position(d: Drain): nat {
    NodeSize * d.node + d.nextIndex
  }

  /** Global index one past the last element to read. */
  function End(d: Drain): nat {
    NodeSize * d.node + d.len
  }

  /**
    A drain in progress: the unread cells are exactly those from the
    position to the end, and the head counter still holds the original
    count only while the first node is being read.
  */
  ghost predicate DrainValid<T>(b: Buffer<T>, d: Drain) {
    && WellFormed(b.nodes)
    && d.node < |b.nodes|
    && d.nextIndex <= d.len
    && (d.nextIndex < NodeSize || d.nextIndex == d.len)
    && End(d) <= NodeSize * |b.nodes|
    && (forall i: nat :: CellAt(b.nodes, i).Some? <==> Position(d) <= i < End(d))
    && Count(b) == (if d.node == 0 && d.nextIndex < d.len then d.len else 0)
  }

  /** The elements the drain has yet to yield, in order. */
  function Remaining<T>(b: Buffer<T>, d: Drain): (r: seq<T>)
    requires DrainValid(b, d)
    ensures |r| == End(d) - Position(d)
  {
    seq(End(d) - Position(d),
        i requires 0 <= i && CellAt(b.nodes, Position(d) + i).Some? => CellAt(b.nodes, Position(d) + i).value)
  }

  /** `SmallBuffer::drain`: a drain over the current count, from element 0. */
  function StartDrain<T>(b: Buffer<T>): (d: Drain)
    requires Valid(b)
    ensures DrainValid(b, d) && Remaining(b, d) == Contents(b)
  {
    Drain(0, 0, Count(b))
  }

  /**
    The state `Drain::next` leaves after reading cell `nextIndex` of the
    current node.  After the last element, or on leaving a full node for
    the next one, the current node's counter is cleared.
  */
  function Advance<T>(b: Buffer<T>, d: Drain): (r: (Buffer<T>, Drain))
    requires WellFormed(b.nodes) && d.node < |b.nodes| && d.nextIndex < NodeSize
    ensures |r.0.nodes| == |b.nodes|
  {
    var k := d.node;
    var taken := SetCell(b.nodes, k, d.nextIndex, None);
    var next := d.nextIndex + 1;
    if next >= d.len then
      (Buffer(SetCount(taken, k, 0)), Drain(k, next, d.len))
    else if next >= NodeSize then
      (Buffer(SetCount(taken, k, 0)), Drain(k + 1, next - NodeSize, d.len - NodeSize))
    else
      (Buffer(taken), Drain(k, next, d.len))
  }

  /**
    One read moves out exactly the cell at the drain's position and steps
    the position by one; the end of the drain stays where it was.
  */
  lemma AdvanceCells<T>(b: Buffer<T>, d: Drain)
    requires DrainValid(b, d) && d.nextIndex < d.len
    ensures Position(Advance(b, d).1) == Position(d) + 1 && End(Advance(b, d).1) == End(d)
    ensures forall i: nat :: CellAt(Advance(b, d).0.nodes, i) == if i == Position(d) then None else CellAt(b.nodes, i)
    ensures WellFormed(Advance(b, d).0.nodes)
  {
  }

  lemma AdvanceValid<T>(b: Buffer<T>, d: Drain)
    requires DrainValid(b, d) && d.nextIndex < d.len
    ensures DrainValid(Advance(b, d).0, Advance(b, d).1)
  {
    AdvanceCells(b, d);
    var (b', d') := Advance(b, d);
    assert Count(b') == (if d'.node == 0 && d'.nextIndex < d'.len then d'.len else 0) by {
      if d.node == 0 && d.nextIndex + 1 < d.len && d.nextIndex + 1 < NodeSize {
        assert b'.nodes[0] == b.nodes[0].(buf := b'.nodes[0].buf);
      }
    }
  }

  lemma AdvanceRemaining<T>(b: Buffer<T>, d: Drain)
    requires DrainValid(b, d) && d.nextIndex < d.len
    ensures DrainValid(Advance(b, d).0, Advance(b, d).1)
    ensures Remaining(Advance(b, d).0, Advance(b, d).1) == Remaining(b, d)[1..]
  {
    AdvanceValid(b, d);
    AdvanceCells(b, d);
    var (b', d') := Advance(b, d);
    forall i | 0 <= i < End(d) - Position(d) - 1
      ensures Remaining(b', d')[i] == Remaining(b, d)[i + 1]
    {
      assert CellAt(b'.nodes, Position(d') + i) == CellAt(b.nodes, Position(d) + 1 + i);
    }
  }

  /**
    `Drain::next`: yields the next element and moves it out of its cell,
    or yields nothing once the drain is exhausted.
  */
  function Next<T>(b: Buffer<T>, d: Drain): (r: (Buffer<T>, Drain, Option<T>))
    requires DrainValid(b, d)
    ensures DrainValid(r.0, r.1) && |r.0.nodes| == |b.nodes|
    ensures r.2.None? <==> Remaining(b, d) == []
    ensures r.2.Some? ==> r.2.value == Remaining(b, d)[0] && Remaining(r.0, r.1) == Remaining(b, d)[1..]
    ensures r.2.None? ==> r.0 == b && r.1 == d
  {
    if d.nextIndex >= d.len then (b, d, None)
    else
      CellOfNode(b.nodes, d.node, d.nextIndex);
      AdvanceRemaining(b, d);
      var item := b.nodes[d.node].buf[d.nextIndex].value;
      var (b', d') := Advance(b, d);
      (b', d', Some(item))
  }

  /** One `next` moves one element from the remaining ones to the yielded ones. */
  lemma NextExtends<T>(b: Buffer<T>, d: Drain, yielded: seq<T>, all: seq<T>)
    requires DrainValid(b, d) && Next(b, d).2.Some?
    requires yielded + Remaining(b, d) == all
    ensures yielded + [Next(b, d).2.value] + Remaining(Next(b, d).0, Next(b, d).1) == all
  {
    var rest := Remaining(b, d);
    assert [rest[0]] + rest[1..] == rest;
    assert yielded + [rest[0]] + rest[1..] == yielded + rest;
  }

  /** A drain with nothing left to yield leaves an empty buffer at rest. */
  lemma ExhaustedDrainIsEmpty<T>(b: Buffer<T>, d: Drain)
    requires DrainValid(b, d) && Remaining(b, d) == []
    ensures Valid(b) && Count(b) == 0
  {
  }

  /**
    Dropping a `Drain` (or running it to the end, as `count()` does):
    `next` is called until it yields nothing.  The dropped elements are the
    remaining ones in order, and the buffer is left empty with every node
    still in place.
  */
  method DropDrain<T>(b: Buffer<T>, d: Drain) returns (dropped: seq<T>, b': Buffer<T>)
    requires DrainValid(b, d)
    ensures dropped == Remaining(b, d)
    ensures Valid(b') && Count(b') == 0 && |b'.nodes| == |b.nodes|
  {
    b' := b;
    dropped := [];
    var cur := d;
    var (nb, nd, item) := Next(b', cur);
    while item.Some?
      invariant DrainValid(b', cur) && |b'.nodes| == |b.nodes|
      invariant (nb, nd, item) == Next(b', cur)
      invariant dropped + Remaining(b', cur) == Remaining(b, d)
      decreases |Remaining(b', cur)|
    {
      NextExtends(b', cur, dropped, Remaining(b, d));
      dropped := dropped + [item.value];
      b', cur := nb, nd;
      var (nb', nd', item') := Next(b', cur);
      nb, nd, item := nb', nd', item';
    }
    ExhaustedDrainIsEmpty(b', cur);
  }

  /**
    `drain()` run to the end: yields exactly the pushed elements in push
    order and leaves the count at zero without freeing a node.
  */
  method DrainAll<T>(b: Buffer<T>) returns (items: seq<T>, b': Buffer<T>)
    requires Valid(b)
    ensures items == Contents(b) && |items| == Count(b)
    ensures Valid(b') && Count(b') == 0 && Contents(b') == [] && |b'.nodes| == |b.nodes|
  {
    items, b' := DropDrain(b, StartDrain(b));
  }

  /**
    Two rounds of pushes separated by a drain: each drain yields exactly
    its round's elements, and the second round reuses the nodes of the
    first.
  */
  method RefillAfterDrain<T>(xs: seq<T>, ys: seq<T>) returns (first: seq<T>, second: seq<T>, b: Buffer<T>)
    ensures first == xs && second == ys
    ensures Valid(b) && Count(b) == 0
    ensures |b.nodes| == Max(NodesFor(|xs|), NodesFor(|ys|))
  {
    PushAllNodes(New(), xs);
    var b1 := PushAll(New(), xs);
    var drained1;
    first, drained1 := DrainAll(b1);
    PushAllNodes(drained1, ys);
    var b2 := PushAll(drained1, ys);
    second, b := DrainAll(b2);
  }

  /**
    Every cell of the chain, in chain order: the cells the drop glues of the
    nodes' `buf: [T; 16]` fields visit.  The glue runs last node first,
    because each node's `Box` is dropped inside the `Drop::drop` of the node
    before it; the order does not matter for which cells are visited.
    Cell `i` of the result is cell `i % 16` of node `i / 16`.
  */
  function Flatten<T>(nodes: seq<Node<T>>): (r: seq<Option<T>>)
    requires forall k :: 0 <= k < |nodes| ==> |nodes[k].buf| == NodeSize
    ensures |r| == NodeSize * |nodes|
    ensures forall i :: 0 <= i < |r| ==> r[i] == CellAt(nodes, i)
  {
    if nodes == [] then []
    else
      var rest := Flatten(nodes[1..]);
      forall i | NodeSize <= i < NodeSize * |nodes|
        ensures rest[i - NodeSize] == CellAt(nodes, i)
      {
        ShiftedCell(nodes, i);
      }
      nodes[0].buf + rest
  }

  lemma ShiftedCell<T>(nodes: seq<Node<T>>, i: nat)
    requires |nodes| >= 1 && NodeSize <= i
    ensures CellAt(nodes[1..], i - NodeSize) == CellAt(nodes, i)
  {
    assert (i - NodeSize) / NodeSize == i / NodeSize - 1;
    assert (i - NodeSize) % NodeSize == i % NodeSize;
  }

  /**
    `SmallBuffer`'s `Drop` as written: drains the elements when the count
    is not zero and frees the nodes behind the head; then, because `buf`
    is a plain `[T; 16]`, the drop glue drops all sixteen cells of every
    node.  None of those cells holds an element any more: each was either
    never written or already moved out by the drain.
  */
  method DropBufferAsWritten<T>(b: Buffer<T>) returns (dropped: seq<T>, glue: seq<Option<T>>, freedNodes: nat)
    requires Valid(b)
    ensures dropped == Contents(b)
    ensures freedNodes == |b.nodes| - 1
    ensures |glue| == NodeSize * |b.nodes| && |glue| >= NodeSize
    ensures forall i :: 0 <= i < |glue| ==> glue[i].None?
  {
    var rest := b;
    if Count(b) != 0 {
      dropped, rest := DrainAll(b);
    } else {
      dropped := [];
    }
    glue := Flatten(rest.nodes);
    freedNodes := |b.nodes| - 1;
  }

  /**
    `SmallBuffer`'s `Drop` as intended: drains the elements when the count
    is not zero, then frees every node behind the inline head, and the
    cells' glue drops only cells that still hold an element.  Each pushed
    element is dropped exactly once, in push order, and nothing else is:
    the drain has left no cell holding an element, so the glue drops none.
  */
  method DropBuffer<T>(b: Buffer<T>) returns (dropped: seq<T>, glue: seq<T>, freedNodes: nat)
    requires Valid(b)
    ensures dropped == Contents(b)
    ensures glue == []
    ensures freedNodes == |b.nodes| - 1
  {
    var rest := b;
    if Count(b) != 0 {
      dropped, rest := DrainAll(b);
    } else {
      dropped := [];
    }
    glue := Held(Flatten(rest.nodes));
    freedNodes := |b.nodes| - 1;
  }

  /**
    The elements a run of cells still holds, in order: what a drop glue
    that skips empty cells drops.  A run of empty cells holds nothing.
  */
  function Held<T>(cells: seq<Option<T>>): (r: seq<T>)
    ensures |r| <= |cells|
    ensures r == [] <==> forall i :: 0 <= i < |cells| ==> cells[i].None?
  {
    if cells == [] then []
    else (if cells[0].Some? then [cells[0].value] else []) + Held(cells[1..])
  }
}
