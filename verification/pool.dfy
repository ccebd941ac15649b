/**
  A sequential model of the batch pool: a `Manager` owns an append-only list
  of blocks of `batch` slots each and a FIFO queue of vacant slots; an
  `Object` is the owning handle of one occupied slot.

  Slots are named by (block, index) pairs instead of raw addresses; the byte
  offset of a slot inside its block is `index * elemSize`.  Every operation
  is one atomic step: atomics, the growth mutex and reference counting are
  not modelled.
*/
module Pool {
  import opened Wrappers

  /** Cache-line width the pool rounds to when `align_to_cache` is set. */
  const CacheLineSize: nat := 64

  /** `r` is the least multiple of the cache line that is at least `n`. */
  ghost predicate IsLineRounding(n: nat, r: nat) {
    r % CacheLineSize == 0 && n <= r < n + CacheLineSize
  }

  /** `((n - 1) / 64 + 1) * 64`, defined only where `n - 1` does not underflow. */
  function RoundUpToLine(n: nat): (r: nat)
    requires n >= 1
    ensures IsLineRounding(n, r)
  {
    ((n - 1) / CacheLineSize + 1) * CacheLineSize
  }

  /** No smaller multiple of the cache line covers `n`. */
  lemma RoundUpIsLeast(n: nat, m: nat)
    requires n >= 1
    requires m % CacheLineSize == 0 && n <= m
    ensures RoundUpToLine(n) <= m
  {
    var r := RoundUpToLine(n);
    assert r == CacheLineSize * (r / CacheLineSize);
    assert m == CacheLineSize * (m / CacheLineSize);
  }

  /** A size that is already a multiple of the cache line is left unchanged. */
  lemma RoundUpKeepsMultiples(n: nat)
    requires n >= 1 && n % CacheLineSize == 0
    ensures RoundUpToLine(n) == n
  {
    RoundUpIsLeast(n, n);
  }

  // ---------------------------------------------------------------------
  // Layout
  // ---------------------------------------------------------------------

  /** Per-manager sizes: `memorySize` bytes per block of `batch` elements. */
  datatype Layout = Layout(batch: nat, align: nat, elemSize: nat, memorySize: nat)

  datatype LayoutError =
    | SizeUnderflow  // `elem_size - 1` underflows for a zero-sized element type
    | ZeroBatch      // a block of zero slots (refused only by the corrected constructor)

  /**
    The arithmetic of `Manager::new`: with `alignToCache` both the element
    size and the alignment are rounded up to the cache line; the block size
    is the element size times the batch.  `align` is at least one for every
    Rust type.
  */
  function ComputeLayout(alignToCache: bool, batch: nat, size: nat, align: nat): (r: Result<Layout, LayoutError>)
    requires align >= 1
    ensures r.Failure? <==> alignToCache && size == 0
    ensures r.Success? ==> r.value.batch == batch && r.value.memorySize == r.value.elemSize * batch
    ensures r.Success? && alignToCache ==>
              IsLineRounding(size, r.value.elemSize) && IsLineRounding(align, r.value.align)
    ensures r.Success? && !alignToCache ==> r.value.elemSize == size && r.value.align == align
  {
    if alignToCache then
      if size == 0 then Failure(SizeUnderflow)
      else
        var elemSize := RoundUpToLine(size);
        Success(Layout(batch, RoundUpToLine(align), elemSize, elemSize * batch))
    else
      Success(Layout(batch, align, size, size * batch))
  }

  /** Byte offset of slot number `index` from the start of its block. */
  function Offset(l: Layout, index: nat): nat {
    index * l.elemSize
  }

  /**
    The slots `expand` carves out of a block lie inside the block and do
    not overlap: slot `i` occupies `[i * elemSize, (i + 1) * elemSize)`.
  */
  lemma SlotsTileBlock(l: Layout, i: nat, j: nat)
    requires l.memorySize == l.elemSize * l.batch
    requires i < j < l.batch
    ensures Offset(l, i) + l.elemSize <= Offset(l, j)
    ensures Offset(l, j) + l.elemSize <= l.memorySize
  {
    assert Offset(l, j) - Offset(l, i) == (j - i) * l.elemSize;
    assert (j - i) * l.elemSize >= l.elemSize by {
      assert j - i >= 1;
    }
    assert l.memorySize - Offset(l, j) == (l.batch - j) * l.elemSize;
    assert (l.batch - j) * l.elemSize >= l.elemSize by {
      assert l.batch - j >= 1;
    }
  }


  // ---------------------------------------------------------------------
  // State
  // ---------------------------------------------------------------------

  /** A slot: element number `index` of block number `block`. */
  datatype Slot = Slot(block: nat, index: nat)

  /** The owning handle returned by `add`; `id` tells handles apart. */
  datatype Object = Object(id: nat, slot: Slot)

  /** A block's cells; `None` is uninitialised memory. */
  type Block<T> = seq<Option<T>>

  /**
    The manager: the block list (`data`), the free-slot queue (`free`),
    and, for each occupied slot, the id of the handle that owns it.
  */
  datatype Manager<T> = Manager(
    layout: Layout,
    blocks: seq<Block<T>>,
    free: seq<Slot>,
    owners: map<Slot, nat>,
    nextId: nat)

  ghost predicate ValidSlot<T>(m: Manager<T>, s: Slot) {
    s.block < |m.blocks| && s.index < m.layout.batch
  }

  /** The content of a cell; `None` outside the blocks. */
  function Cell<T>(blocks: seq<Block<T>>, s: Slot): Option<T> {
    if s.block < |blocks| && s.index < |blocks[s.block]| then blocks[s.block][s.index] else None
  }

  /** Overwrites one cell and leaves every other cell and the block sizes alone. */
  function WriteCell<T>(blocks: seq<Block<T>>, s: Slot, c: Option<T>): (r: seq<Block<T>>)
    requires s.block < |blocks| && s.index < |blocks[s.block]|
    ensures |r| == |blocks|
    ensures forall b :: 0 <= b < |r| ==> |r[b]| == |blocks[b]|
    ensures forall t :: Cell(r, t) == if t == s then c else Cell(blocks, t)
  {
    blocks[s.block := blocks[s.block][s.index := c]]
  }

  /**
    `a * b` as repeated addition.  The slot count is stated with it so that
    the solver unfolds the product one block at a time instead of reasoning
    about products of unknowns.
  */
  function Times(a: nat, b: nat): nat
    decreases b
  {
    if b == 0 then 0 else Times(a, b - 1) + a
  }

  lemma {:induction false} TimesIsProduct(a: nat, b: nat)
    ensures Times(a, b) == a * b
    decreases b
  {
    if b > 0 {
      TimesIsProduct(a, b - 1);
    }
  }

  /** `o` is a live handle of `m`: it is the recorded owner of its slot. */
  ghost predicate Live<T>(m: Manager<T>, o: Object) {
    o.slot in m.owners && m.owners[o.slot] == o.id
  }

  /** Shape facts that hold in every reachable state, even mid-step. */
  ghost predicate Structure<T>(m: Manager<T>) {
    && m.layout.batch >= 1
    && m.layout.memorySize == m.layout.elemSize * m.layout.batch
    && (forall b :: 0 <= b < |m.blocks| ==> |m.blocks[b]| == m.layout.batch)
    && (forall i :: 0 <= i < |m.free| ==> ValidSlot(m, m.free[i]))
    && (forall i, j :: 0 <= i < j < |m.free| ==> m.free[i] != m.free[j])
    && (forall s :: s in m.owners ==> ValidSlot(m, s) && m.owners[s] < m.nextId)
  }

  /**
    The pool invariant: every slot of every block is either queued as free
    or owned by a live handle, never both; a cell is initialised exactly
    when its slot is owned; free slots plus live handles account for every
    slot.
  */
  ghost predicate Inv<T>(m: Manager<T>) {
    && Structure(m)
    && (forall s :: ValidSlot(m, s) ==> (s in m.free <==> s !in m.owners))
    && (forall s :: ValidSlot(m, s) ==> (Cell(m.blocks, s).Some? <==> s in m.owners))
    && |m.free| + |m.owners| == Times(m.layout.batch, |m.blocks|)
  }

  /**
    The invariant while slot `s` is between the queue and a handle (just
    popped or grown, or just vacated): `s` is neither free nor owned and
    its cell is uninitialised; every other slot is as in `Inv`.
  */
  ghost predicate InTransit<T>(m: Manager<T>, s: Slot) {
    && Structure(m)
    && ValidSlot(m, s)
    && s !in m.free
    && s !in m.owners
    && Cell(m.blocks, s).None?
    && (forall t :: ValidSlot(m, t) && t != s ==> (t in m.free <==> t !in m.owners))
    && (forall t :: ValidSlot(m, t) && t != s ==> (Cell(m.blocks, t).Some? <==> t in m.owners))
    && |m.free| + |m.owners| + 1 == Times(m.layout.batch, |m.blocks|)
  }

  // ---------------------------------------------------------------------
  // Construction
  // ---------------------------------------------------------------------

  /**
    `Manager::new` as written: no block, an empty queue, no handle.  The
    batch is taken as given, including zero.
  */
  function NewManager<T>(alignToCache: bool, batch: nat, size: nat, align: nat): (r: Result<Manager<T>, LayoutError>)
    requires align >= 1
    ensures r.Failure? <==> alignToCache && size == 0
    ensures r.Success? ==>
              && r.value.blocks == [] && r.value.free == [] && r.value.owners == map[]
              && r.value.layout.batch == batch
              && r.value.layout.memorySize == r.value.layout.elemSize * batch
    ensures r.Success? && batch >= 1 ==> Inv(r.value)
  {
    match ComputeLayout(alignToCache, batch, size, align)
    case Failure(e) => Failure(e)
    case Success(l) => Success(Manager(l, [], [], map[], 0))
  }

  /**
    The corrected constructor: a zero batch can hold no object, so it is
    refused.  Every manager it builds satisfies the pool invariant.
  */
  function NewCheckedManager<T>(alignToCache: bool, batch: nat, size: nat, align: nat): (r: Result<Manager<T>, LayoutError>)
    requires align >= 1
    ensures r.Failure? <==> batch == 0 || (alignToCache && size == 0)
    ensures r.Success? ==> Inv(r.value) && r.value.layout.batch == batch && |r.value.blocks| == 0
  {
    if batch == 0 then Failure(ZeroBatch) else NewManager(alignToCache, batch, size, align)
  }

  // ---------------------------------------------------------------------
  // Growth and acquisition
  // ---------------------------------------------------------------------

  /** Slots 1 .. batch-1 of block `block`, in the order `expand` queues them. */
  function TailSlots(block: nat, batch: nat): (r: seq<Slot>)
    ensures |r| == if batch == 0 then 0 else batch - 1
    ensures forall i :: 0 <= i < |r| ==> r[i] == Slot(block, i + 1)
  {
    if batch == 0 then [] else seq(batch - 1, (i: nat) => Slot(block, i + 1))
  }

  /**
    `Manager::expand`: appends one uninitialised block, queues its slots
    1 .. batch-1 behind the existing free slots and hands out its slot 0.
  */
  function Expand<T>(m: Manager<T>): (r: (Manager<T>, Slot))
    ensures |r.0.blocks| == |m.blocks| + 1
    ensures r.1 == Slot(|m.blocks|, 0)
    ensures m.layout.batch >= 1 ==> |r.0.free| == |m.free| + m.layout.batch - 1
    ensures r.0.layout == m.layout && r.0.owners == m.owners && r.0.nextId == m.nextId
  {
    var n := |m.blocks|;
    var block: Block<T> := seq(m.layout.batch, _ => None);
    (m.(blocks := m.blocks + [block], free := m.free + TailSlots(n, m.layout.batch)), Slot(n, 0))
  }

  /**
    What `expand` does to the state: the old blocks stay, the new block has
    `batch` uninitialised cells, and the queue keeps its old entries in
    front of slots 1 .. batch-1 of the new block, in index order.
  */
  lemma ExpandShape<T>(m: Manager<T>)
    ensures Expand(m).0.blocks[..|m.blocks|] == m.blocks
    ensures |Expand(m).0.blocks[|m.blocks|]| == m.layout.batch
    ensures forall i :: 0 <= i < m.layout.batch ==> Expand(m).0.blocks[|m.blocks|][i] == None
    ensures |Expand(m).0.free| >= |m.free| && Expand(m).0.free[..|m.free|] == m.free
    ensures forall i :: 1 <= i < m.layout.batch ==> Expand(m).0.free[|m.free| + i - 1] == Slot(|m.blocks|, i)
  {
    var m' := Expand(m).0;
    var tail := TailSlots(|m.blocks|, m.layout.batch);
    assert m'.free == m.free + tail;
    forall i | 1 <= i < m.layout.batch ensures m'.free[|m.free| + i - 1] == Slot(|m.blocks|, i) {
      assert m'.free[|m.free| + i - 1] == tail[i - 1];
    }
  }

  lemma ExpandStructure<T>(m: Manager<T>)
    requires Inv(m)
    ensures Structure(Expand(m).0)
  {
    var m' := Expand(m).0;
    var tail := TailSlots(|m.blocks|, m.layout.batch);
    assert m'.free == m.free + tail;
    forall i, j | 0 <= i < j < |m'.free|
      ensures m'.free[i] != m'.free[j]
    {
      if j >= |m.free| && i < |m.free| {
        assert ValidSlot(m, m'.free[i]);
      }
    }
  }

  lemma ExpandPartition<T>(m: Manager<T>, t: Slot)
    requires Inv(m)
    requires ValidSlot(Expand(m).0, t) && t != Expand(m).1
    ensures t in Expand(m).0.free <==> t !in Expand(m).0.owners
    ensures Cell(Expand(m).0.blocks, t).Some? <==> t in Expand(m).0.owners
  {
    var m' := Expand(m).0;
    var n := |m.blocks|;
    var tail := TailSlots(n, m.layout.batch);
    assert m'.free == m.free + tail;
    if t.block == n {
      assert !ValidSlot(m, t);
      assert tail[t.index - 1] == t;
      assert Cell(m'.blocks, t) == m'.blocks[n][t.index];
    } else {
      assert ValidSlot(m, t);
      assert t !in tail;
      assert Cell(m'.blocks, t) == Cell(m.blocks, t);
    }
  }

  lemma ExpandedSlotIsNew<T>(m: Manager<T>)
    requires Inv(m)
    ensures Expand(m).1 !in Expand(m).0.free
    ensures Expand(m).1 !in Expand(m).0.owners
    ensures Cell(Expand(m).0.blocks, Expand(m).1).None?
  {
    var (m', s) := Expand(m);
    var tail := TailSlots(|m.blocks|, m.layout.batch);
    assert m'.free == m.free + tail;
    forall i | 0 <= i < |m.free| ensures m.free[i] != s {
      assert ValidSlot(m, m.free[i]);
    }
    assert s !in tail;
    assert !ValidSlot(m, s);
    assert Cell(m'.blocks, s) == m'.blocks[|m.blocks|][0];
  }

  /** Growing adds only uninitialised cells. */
  lemma ExpandKeepsCells<T>(m: Manager<T>)
    ensures forall t :: Cell(Expand(m).0.blocks, t) == Cell(m.blocks, t)
  {
    var m' := Expand(m).0;
    var n := |m.blocks|;
    forall t ensures Cell(m'.blocks, t) == Cell(m.blocks, t) {
      if t.block < n {
        assert m'.blocks[t.block] == m.blocks[t.block];
      }
    }
  }

  lemma ExpandPartitionAll<T>(m: Manager<T>)
    requires Inv(m)
    ensures forall t :: ValidSlot(Expand(m).0, t) && t != Expand(m).1 ==>
              (t in Expand(m).0.free <==> t !in Expand(m).0.owners)
    ensures forall t :: ValidSlot(Expand(m).0, t) && t != Expand(m).1 ==>
              (Cell(Expand(m).0.blocks, t).Some? <==> t in Expand(m).0.owners)
  {
    forall t | ValidSlot(Expand(m).0, t) && t != Expand(m).1
      ensures t in Expand(m).0.free <==> t !in Expand(m).0.owners
      ensures Cell(Expand(m).0.blocks, t).Some? <==> t in Expand(m).0.owners
    {
      ExpandPartition(m, t);
    }
  }

  lemma ExpandCount<T>(m: Manager<T>)
    requires Inv(m)
    ensures |Expand(m).0.free| + |Expand(m).0.owners| + 1 == Times(m.layout.batch, |Expand(m).0.blocks|)
  {
  }

  lemma ExpandInTransit<T>(m: Manager<T>)
    requires Inv(m)
    ensures InTransit(Expand(m).0, Expand(m).1)
  {
    ExpandStructure(m);
    ExpandedSlotIsNew(m);
    ExpandPartitionAll(m);
    ExpandCount(m);
  }

  lemma PopInTransit<T>(m: Manager<T>)
    requires Inv(m) && |m.free| > 0
    ensures InTransit(m.(free := m.free[1..]), m.free[0])
  {
    var m' := m.(free := m.free[1..]);
    var s := m.free[0];
    assert ValidSlot(m, s);
    assert m.free == [s] + m'.free;
    forall i | 0 <= i < |m'.free| ensures m'.free[i] != s {
      assert m'.free[i] == m.free[i + 1];
    }
  }

  /** The state after writing `v` into slot `s` and giving it to a fresh handle. */
  function WithOwner<T>(m: Manager<T>, s: Slot, v: T): Manager<T>
    requires s.block < |m.blocks| && s.index < |m.blocks[s.block]|
  {
    m.(blocks := WriteCell(m.blocks, s, Some(v)), owners := m.owners[s := m.nextId], nextId := m.nextId + 1)
  }

  lemma OccupyInv<T>(m: Manager<T>, s: Slot, v: T)
    requires InTransit(m, s)
    ensures Inv(WithOwner(m, s, v))
  {
    var m' := WithOwner(m, s, v);
    assert forall t :: ValidSlot(m', t) ==> ValidSlot(m, t);
    assert |m'.owners| == |m.owners| + 1;
  }

  /**
    Writes `v` into the in-transit slot `s` and hands it to a fresh
    handle.
  */
  function Occupy<T>(m: Manager<T>, s: Slot, v: T): (r: (Manager<T>, Object))
    requires InTransit(m, s)
    ensures Inv(r.0)
    ensures r.1 == Object(m.nextId, s) && r.0.nextId == m.nextId + 1
    ensures r.0.owners == m.owners[s := r.1.id]
    ensures r.0.free == m.free && |r.0.blocks| == |m.blocks| && r.0.layout == m.layout
    ensures forall t :: Cell(r.0.blocks, t) == if t == s then Some(v) else Cell(m.blocks, t)
  {
    OccupyInv(m, s, v);
    (WithOwner(m, s, v), Object(m.nextId, s))
  }

  /**
    The slot `add` writes to: the oldest queued slot when `try_pop`
    succeeds, otherwise slot 0 of a newly expanded block.
  */
  function Acquire<T>(m: Manager<T>): (r: (Manager<T>, Slot))
    requires Inv(m)
    ensures InTransit(r.0, r.1)
    ensures r.1 !in m.owners && r.0.owners == m.owners
    ensures r.0.nextId == m.nextId && r.0.layout == m.layout
    ensures forall t :: Cell(r.0.blocks, t) == Cell(m.blocks, t)
    ensures |m.free| > 0 ==>
              && |r.0.blocks| == |m.blocks|
              && r.1 == m.free[0]
              && r.0.free == m.free[1..]
    ensures |m.free| == 0 ==>
              && |r.0.blocks| == |m.blocks| + 1
              && r.1 == Slot(|m.blocks|, 0)
              && |r.0.free| == m.layout.batch - 1
  {
    if |m.free| > 0 then
      PopInTransit(m);
      (m.(free := m.free[1..]), m.free[0])
    else
      ExpandInTransit(m);
      ExpandKeepsCells(m);
      Expand(m)
  }

  /**
    `Manager::add`: acquires a slot, writes `v` into it and returns the
    handle.  The pool grows (by one block) only when the queue is empty,
    and the slot was owned by no handle before.
  */
  function Add<T>(m: Manager<T>, v: T): (r: (Manager<T>, Object))
    requires Inv(m)
    ensures Inv(r.0)
    ensures Live(r.0, r.1) && r.1.slot !in m.owners
    ensures r.1.id == m.nextId && r.0.nextId == m.nextId + 1
    ensures r.0.owners == m.owners[r.1.slot := r.1.id]
    ensures Cell(r.0.blocks, r.1.slot) == Some(v)
    ensures forall t :: t != r.1.slot ==> Cell(r.0.blocks, t) == Cell(m.blocks, t)
    ensures |m.free| > 0 ==>
              && |r.0.blocks| == |m.blocks|
              && r.1.slot == m.free[0]
              && r.0.free == m.free[1..]
    ensures |m.free| == 0 ==>
              && |r.0.blocks| == |m.blocks| + 1
              && r.1.slot == Slot(|m.blocks|, 0)
              && |r.0.free| == m.layout.batch - 1
    ensures r.0.layout == m.layout
  {
    var (m1, s) := Acquire(m);
    Occupy(m1, s, v)
  }

  /**
    `Deref::deref`: the value a live handle reads.  The handle's cell is
    initialised, and the value is the one stored there.
  */
  function Deref<T>(m: Manager<T>, o: Object): (r: T)
    requires Inv(m) && Live(m, o)
    ensures Cell(m.blocks, o.slot) == Some(r)
  {
    assert ValidSlot(m, o.slot);
    Cell(m.blocks, o.slot).value
  }

  /** `DerefMut` followed by an assignment of `w` through the handle. */
  function Write<T>(m: Manager<T>, o: Object, w: T): (r: Manager<T>)
    requires Inv(m) && Live(m, o)
    ensures Inv(r) && Live(r, o) && Deref(r, o) == w
    ensures forall o' :: Live(m, o') && o' != o ==> Live(r, o') && Deref(r, o') == Deref(m, o')
    ensures r.free == m.free && r.owners == m.owners && |r.blocks| == |m.blocks|
  {
    assert ValidSlot(m, o.slot);
    var r := m.(blocks := WriteCell(m.blocks, o.slot, Some(w)));
    assert forall t :: ValidSlot(r, t) ==> ValidSlot(m, t);
    r
  }

  // ---------------------------------------------------------------------
  // Release
  // ---------------------------------------------------------------------

  /** The `ptr::read` half of dropping a handle: the cell is moved out. */
  function Vacate<T>(m: Manager<T>, o: Object): (r: Manager<T>)
    requires Inv(m) && Live(m, o)
    ensures InTransit(r, o.slot)
    ensures r.owners == m.owners - {o.slot} && r.free == m.free && |r.blocks| == |m.blocks|
    ensures forall t :: t != o.slot ==> Cell(r.blocks, t) == Cell(m.blocks, t)
  {
    assert ValidSlot(m, o.slot);
    var r := m.(blocks := WriteCell(m.blocks, o.slot, None), owners := m.owners - {o.slot});
    assert |r.owners| == |m.owners| - 1;
    r
  }

  /** `Manager::ret_ptr`: queues a slot at the back of the free queue. */
  function RetPtr<T>(m: Manager<T>, s: Slot): (r: Manager<T>)
    requires InTransit(m, s)
    ensures Inv(r)
    ensures r.free == m.free + [s] && r.blocks == m.blocks && r.owners == m.owners
  {
    var r := m.(free := m.free + [s]);
    assert forall i :: 0 <= i < |m.free| ==> r.free[i] == m.free[i];
    r
  }

  /**
    Dropping an `Object`: its value is moved out (and dropped by the
    caller) and exactly its own slot is queued again; no block goes away.
  */
  function DropObject<T>(m: Manager<T>, o: Object): (r: (Manager<T>, T))
    requires Inv(m) && Live(m, o)
    ensures Inv(r.0)
    ensures r.1 == Deref(m, o)
    ensures r.0.free == m.free + [o.slot]
    ensures r.0.owners == m.owners - {o.slot} && !Live(r.0, o)
    ensures |r.0.blocks| == |m.blocks|
    ensures forall t :: t != o.slot ==> Cell(r.0.blocks, t) == Cell(m.blocks, t)
  {
    var v := Deref(m, o);
    (RetPtr(Vacate(m, o), o.slot), v)
  }

  // ---------------------------------------------------------------------
  // Properties relating several steps
  // ---------------------------------------------------------------------

  /**
    Two live handles with different ids never share a slot.  This is a
    fact of the representation (`owners` maps a slot to one id); the
    uniqueness the pool guarantees is stated by `AddKeepsOthers` and
    `AddAllDistinctSlots`.
  */
  lemma NoSharedSlot<T>(m: Manager<T>, o1: Object, o2: Object)
    requires Live(m, o1) && Live(m, o2) && o1.id != o2.id
    ensures o1.slot != o2.slot
  {
  }

  /**
    Add leaves every handle that was live in place, still reading what it
    read, and gives the new handle a slot none of them holds.
  */
  lemma AddKeepsOthers<T>(m: Manager<T>, v: T, o': Object)
    requires Inv(m) && Live(m, o')
    ensures Live(Add(m, v).0, o') && Deref(Add(m, v).0, o') == Deref(m, o')
    ensures Add(m, v).1.slot != o'.slot && Add(m, v).1.id != o'.id
  {
  }

  /**
    Dropping one handle leaves every other live handle in place, still
    reading what it read.
  */
  lemma DropKeepsOthers<T>(m: Manager<T>, o: Object, o': Object)
    requires Inv(m) && Live(m, o) && Live(m, o') && o' != o
    ensures Live(DropObject(m, o).0, o') && Deref(DropObject(m, o).0, o') == Deref(m, o')
  {
  }

  /** Round trip: the value dropped with a fresh handle is the value added. */
  lemma AddThenDrop<T>(m: Manager<T>, v: T)
    requires Inv(m)
    ensures var r := Add(m, v);
            var d := DropObject(r.0, r.1);
            && d.1 == v
            && d.0.owners == m.owners
            && d.0.free == r.0.free + [r.1.slot]
  {
    var r := Add(m, v);
    assert r.0.owners - {r.1.slot} == m.owners;
  }

  /** Reading after a write through the same handle gives the written value. */
  lemma WriteThenRead<T>(m: Manager<T>, v: T, w: T)
    requires Inv(m)
    ensures var (m1, o) := Add(m, v);
            Deref(m1, o) == v && Deref(Write(m1, o, w), o) == w
  {
  }

  /** `o` is live in `m`, has id `id`, and its cell holds `v`. */
  ghost predicate Holds<T>(m: Manager<T>, o: Object, v: T, id: nat) {
    Live(m, o) && Cell(m.blocks, o.slot) == Some(v) && o.id == id
  }

  /**
    `k` adds in a row, in order.  The `i`-th handle is live, has the `i`-th
    fresh id and holds `vs[i]`; every handle that was live before is still
    live and reads what it read.
  */
  function AddAll<T>(m: Manager<T>, vs: seq<T>): (r: (Manager<T>, seq<Object>))
    requires Inv(m)
    ensures Inv(r.0) && |r.1| == |vs| && r.0.layout == m.layout
    ensures |r.0.blocks| >= |m.blocks| && r.0.nextId == m.nextId + |vs|
    ensures forall i :: 0 <= i < |vs| ==> Holds(r.0, r.1[i], vs[i], m.nextId + i)
    ensures forall o :: Live(m, o) ==> Live(r.0, o) && Cell(r.0.blocks, o.slot) == Cell(m.blocks, o.slot)
    decreases |vs|
  {
    if vs == [] then (m, [])
    else
      var (m1, o) := Add(m, vs[0]);
      var (m2, os) := AddAll(m1, vs[1..]);
      AddKeepsAllOthers(m, vs[0]);
      RunStep(m, m1, m2, o, os, vs, m.nextId);
      (m2, [o] + os)
  }

  /** The property `AddAll` promises about earlier handles, for a single add. */
  lemma AddKeepsAllOthers<T>(m: Manager<T>, v: T)
    requires Inv(m)
    ensures forall o' :: Live(m, o') ==>
              Live(Add(m, v).0, o') && Cell(Add(m, v).0.blocks, o'.slot) == Cell(m.blocks, o'.slot)
  {
  }

  /**
    Composes one add (handle `o` in `m1`) with a run of adds (handles `os`
    in `m2`): the combined run satisfies the contract of `AddAll`.
  */
  lemma RunStep<T>(m: Manager<T>, m1: Manager<T>, m2: Manager<T>, o: Object, os: seq<Object>, vs: seq<T>, id: nat)
    requires |vs| > 0 && |os| == |vs| - 1
    requires Holds(m1, o, vs[0], id)
    requires forall o' :: Live(m, o') ==> Live(m1, o') && Cell(m1.blocks, o'.slot) == Cell(m.blocks, o'.slot)
    requires forall i :: 0 <= i < |os| ==> Holds(m2, os[i], vs[1..][i], id + 1 + i)
    requires forall o' :: Live(m1, o') ==> Live(m2, o') && Cell(m2.blocks, o'.slot) == Cell(m1.blocks, o'.slot)
    ensures forall i :: 0 <= i < |vs| ==> Holds(m2, ([o] + os)[i], vs[i], id + i)
    ensures forall o' :: Live(m, o') ==> Live(m2, o') && Cell(m2.blocks, o'.slot) == Cell(m.blocks, o'.slot)
  {
    forall i | 0 <= i < |vs| ensures Holds(m2, ([o] + os)[i], vs[i], id + i) {
      if i > 0 {
        assert ([o] + os)[i] == os[i - 1];
        assert vs[1..][i - 1] == vs[i];
      }
    }
  }

  /** Handles handed out by a run of adds never share a slot. */
  lemma AddAllDistinctSlots<T>(m: Manager<T>, vs: seq<T>, i: nat, j: nat)
    requires Inv(m) && i < j < |vs|
    ensures AddAll(m, vs).1[i].slot != AddAll(m, vs).1[j].slot
  {
    var (m', os) := AddAll(m, vs);
    assert Holds(m', os[i], vs[i], m.nextId + i) && Holds(m', os[j], vs[j], m.nextId + j);
    NoSharedSlot(m', os[i], os[j]);
  }

  lemma {:induction false} AddAllSplit<T>(m: Manager<T>, a: seq<T>, b: seq<T>)
    requires Inv(m)
    ensures AddAll(m, a + b).0 == AddAll(AddAll(m, a).0, b).0
    decreases |a|
  {
    if a == [] {
      assert a + b == b;
    } else {
      var m1 := Add(m, a[0]).0;
      assert (a + b)[0] == a[0];
      assert (a + b)[1..] == a[1..] + b;
      AddAllSplit(m1, a[1..], b);
    }
  }

  /**
    Adds served from the queue never grow the pool: `k` adds with at least
    `k` queued slots consume the `k` oldest ones.
  */
  lemma {:induction false} AddsFromQueue<T>(m: Manager<T>, vs: seq<T>)
    requires Inv(m) && |vs| <= |m.free|
    ensures |AddAll(m, vs).0.blocks| == |m.blocks|
    ensures AddAll(m, vs).0.free == m.free[|vs|..]
    decreases |vs|
  {
    if vs != [] {
      var m1 := Add(m, vs[0]).0;
      AddsFromQueue(m1, vs[1..]);
      assert m1.free[|vs| - 1..] == m.free[|vs|..];
    }
  }

  /**
    With the queue empty, between 1 and `batch` adds grow the pool by
    exactly one block and leave `batch - k` slots queued.
  */
  lemma {:induction false} AddsIntoEmptyQueue<T>(m: Manager<T>, vs: seq<T>)
    requires Inv(m) && |m.free| == 0
    requires 1 <= |vs| <= m.layout.batch
    ensures |AddAll(m, vs).0.blocks| == |m.blocks| + 1
    ensures |AddAll(m, vs).0.free| == m.layout.batch - |vs|
  {
    var m1 := Add(m, vs[0]).0;
    AddsFromQueue(m1, vs[1..]);
  }

  /**
    Growth threshold: `batch + 1` adds on an empty queue allocate exactly
    two blocks and leave `batch - 1` slots queued.
  */
  lemma GrowthThreshold<T>(m: Manager<T>, vs: seq<T>)
    requires Inv(m) && |m.free| == 0
    requires |vs| == m.layout.batch + 1
    ensures |AddAll(m, vs).0.blocks| == |m.blocks| + 2
    ensures |AddAll(m, vs).0.free| == m.layout.batch - 1
    ensures |AddAll(m, vs).0.owners| == |m.owners| + m.layout.batch + 1
  {
    var batch := m.layout.batch;
    var a, b := vs[..batch], vs[batch..];
    assert vs == a + b;
    AddAllSplit(m, a, b);
    AddsIntoEmptyQueue(m, a);
    AddsIntoEmptyQueue(AddAll(m, a).0, b);
  }

  // ---------------------------------------------------------------------
  // Debug summary
  // ---------------------------------------------------------------------

  /**
    The numbers the `Debug` output of `Pool` and `Manager` reports:
    live objects (`strong_count - 1`), blocks, bytes and element capacity.
  */
  datatype Summary = Summary(objects: nat, blocks: nat, bytes: nat, capacity: nat)

  /**
    The summary of a pool in a consistent state agrees with its slot
    accounting: every slot is either free or held by a live object, and
    the byte count is the element stride times the capacity.
  */
  function Describe<T>(m: Manager<T>): (r: Summary)
    ensures Inv(m) ==> r.objects + |m.free| == r.capacity
    ensures Inv(m) ==> r.bytes == m.layout.elemSize * r.capacity
  {
    var len := |m.blocks|;
    TimesIsProduct(m.layout.batch, len);
    BytesOfBlocks(m.layout.elemSize, m.layout.batch, m.layout.memorySize, len);
    Summary(|m.owners|, len, m.layout.memorySize * len, m.layout.batch * len)
  }

  lemma BytesOfBlocks(elemSize: nat, batch: nat, memorySize: nat, len: nat)
    ensures memorySize == elemSize * batch ==> memorySize * len == elemSize * (batch * len)
  {
  }

  // ---------------------------------------------------------------------
  // A zero batch
  // ---------------------------------------------------------------------

  /**
    `Manager::new` accepts a batch of zero; the first `add` then grows the
    pool by an empty block and hands out slot 0 of it, which lies outside
    the block (and outside its zero-byte allocation).
  */
  lemma ZeroBatchSlotOutsideBlock<T>(alignToCache: bool, size: nat, align: nat)
    requires align >= 1 && (alignToCache ==> size >= 1)
    ensures NewManager<T>(alignToCache, 0, size, align).Success?
    ensures var m := NewManager<T>(alignToCache, 0, size, align).value;
            && |Expand(m).0.blocks[0]| == 0
            && Expand(m).0.layout.memorySize == 0
            && !ValidSlot(Expand(m).0, Expand(m).1)
  {
  }
}
