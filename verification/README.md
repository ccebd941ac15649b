# VeryFast pool and SmallBuffer, modelled in Dafny

This project models two containers of the VeryFast Rust crate.

- **The batch pool** (`src/pool.rs`). A `Manager` grows by whole blocks
  of `batch` slots. It never moves or frees a block while it lives, and it
  keeps vacant slots in a FIFO queue (`MsQueue`). `add` takes the oldest
  queued slot, or expands by one block when the queue is empty, and writes
  the value there. The `Object` it returns owns that slot. Dropping the
  `Object` moves the value out and queues the slot again.
- **`SmallBuffer`** (`src/small_buffer.rs`). It is a chain of nodes of 16
  cells each; the first node is inline. `push` claims the next index from
  the head's counter and writes element `i` into cell `i % 16` of node
  `i / 16`. It links a new node the first time an index reaches past the
  end of the chain. `drain` moves the elements out in push order and
  leaves the counter at zero. Nodes are kept for the next round.

Modelling choices:

- Both containers are modelled as immutable datatypes with pure
  functions. Every operation is one atomic step.
- A slot is a `(block, index)` pair rather than an address. Its byte
  offset `index * elemSize` appears only in `Pool.SlotsTileBlock`.
- A cell is an `Option`: `None` means it is uninitialised or its value
  has been moved out.
- Handles carry an id so that two handles can be told apart. The
  `owners` map records which handle owns which slot.

The pool's invariant (`Pool.Inv`):

- every slot of every block is either queued or owned, never both;
- a cell holds a value exactly when its slot is owned;
- the queue has no duplicates;
- queued plus owned slots add up to `batch` times the block count.

`Pool.InTransit` is the same invariant for the moment a slot is between
the queue and a handle.

The buffer's invariant (`SmallBuffer.Valid`):

- exactly the cells below the head counter hold elements;
- only the last node has its `unallocated_next` flag set.

`SmallBuffer.DrainValid` is the invariant of a drain in progress.

Facts about the code that the model follows:

- The free slots form a FIFO queue (`MsQueue`), not a stack. After a
  release, the next insertion reuses the oldest queued slot, which is not
  necessarily the one just released.
- `Manager::new` does not reject a zero batch. A zero batch can hold no
  object, so the corrected constructor refuses it. See Findings.
- `Object` has no operation that takes the value back out
  (`impl Object {}` is empty). Its value leaves only when it is dropped.
- With `align_to_cache` and a zero-sized type, `elem_size - 1`
  underflows `usize` (a panic in debug builds). This is modelled as the
  error `SizeUnderflow`.

## Model

| member | source | states |
|---|---|---|
| `Pool.RoundUpToLine` | src/pool.rs:96-98 | the rounded value is a multiple of 64, at least the input and less than the input plus 64 |
| `Pool.RoundUpIsLeast` | src/pool.rs:96-98 | no multiple of 64 that covers the input is smaller than the rounded value |
| `Pool.RoundUpKeepsMultiples` | src/pool.rs:96-98 | a size or alignment already a multiple of 64 is left unchanged |
| `Pool.ComputeLayout` | src/pool.rs:92-100 | fails exactly when aligning a zero-sized type; otherwise size and alignment are cache-line rounded when `align_to_cache` is set and unchanged when not, and `memory_size == elem_size * batch` |
| `Pool.SlotsTileBlock` | src/pool.rs:118-121 | the slots at offsets `i * elem_size` do not overlap and lie inside the `memory_size` bytes of the block |
| `Pool.NewManager` | src/pool.rs:92-109 | construction as written: any batch, no block, empty queue, no handle; the invariant holds when the batch is at least one |
| `Pool.NewCheckedManager` | src/pool.rs:92-109 | a zero batch is refused; every manager built satisfies the pool invariant |
| `Pool.Expand` | src/pool.rs:112-124 | one block is appended, its slot 0 is returned, the queue grows by `batch - 1` and no handle changes |
| `Pool.ExpandShape` | src/pool.rs:118-123 | old blocks are kept, the new block is uninitialised, and the queue keeps its old entries ahead of slots 1 .. batch-1 of the new block in index order |
| `Pool.ExpandKeepsCells` | src/pool.rs:112-124 | growing changes no existing cell |
| `Pool.ExpandInTransit` | src/pool.rs:112-124 | the slot `expand` returns is neither queued nor owned and is uninitialised; every other slot keeps the partition |
| `Pool.PopInTransit` | src/pool.rs:129-130 | the slot popped from the queue head is neither queued nor owned and is uninitialised; every other slot keeps the partition |
| `Pool.Acquire` | src/pool.rs:129-132 | the slot comes from the queue head when the queue is non-empty, with no growth; otherwise it is slot 0 of one new block; it is owned by no handle |
| `Pool.Occupy` | src/pool.rs:133-140 | writing the value into an in-transit slot and handing it to a fresh handle restores the invariant and changes no other cell |
| `Pool.Add` | src/pool.rs:128-141 | the invariant is preserved; the new handle is live with a fresh id and reads the value; other cells are unchanged; the pool grows by one block exactly when the queue was empty |
| `Pool.Deref` | src/pool.rs:176-183 | a live handle's cell is initialised, and `deref` reads the value stored in it |
| `Pool.Write` | src/pool.rs:185-190 | after assigning through `deref_mut`, the handle reads the new value, every other live handle reads what it read, and queue and owners are unchanged |
| `Pool.WriteThenRead` | src/pool.rs:244-253 | a fresh handle reads the value added, and after a write it reads the value written |
| `Pool.Vacate` | src/pool.rs:169-171 | moving the value out leaves the slot in transit, removes its owner and touches no other cell |
| `Pool.RetPtr` | src/pool.rs:144-146 | queuing an in-transit slot at the back restores the invariant and changes nothing else |
| `Pool.DropObject` | src/pool.rs:166-173 | the value returned is the handle's value; exactly its slot is queued at the back; the handle is no longer live; no block goes away; other cells are unchanged |
| `Pool.AddKeepsOthers` | src/pool.rs:128-141 | an add leaves every live handle live and reading the same value, and the new handle differs from it in slot and id |
| `Pool.DropKeepsOthers` | src/pool.rs:166-173 | dropping one handle leaves every other live handle live and reading the same value |
| `Pool.AddThenDrop` | src/pool.rs:128-146 | dropping a fresh handle gives back the value added, restores the owners and queues the slot at the back |
| `Pool.AddKeepsAllOthers` | src/pool.rs:128-141 | every handle live before an add is live after it, with its cell unchanged |
| `Pool.AddAll` | src/pool.rs:24-27 | over a run of adds, the `i`-th handle is live, has the `i`-th fresh id and holds the `i`-th value; earlier handles stay live and unchanged; the invariant is kept |
| `Pool.AddAllDistinctSlots` | src/pool.rs:24-27 | the handles of a run of adds occupy pairwise different slots |
| `Pool.AddAllSplit` | src/pool.rs:24-27 | a run of adds over `a + b` ends in the same state as the run over `a` followed by the run over `b` |
| `Pool.AddsFromQueue` | src/pool.rs:129-130 | `k` adds with at least `k` queued slots add no block and consume the `k` oldest queued slots |
| `Pool.AddsIntoEmptyQueue` | src/pool.rs:128-132 | on an empty queue, between 1 and `batch` adds add exactly one block and leave `batch - k` queued slots |
| `Pool.GrowthThreshold` | src/pool.rs:128-132 | `batch + 1` adds on an empty queue add exactly two blocks, leave `batch - 1` queued slots and `batch + 1` more owners |
| `Pool.Describe` | src/pool.rs:200-219 | the Debug numbers agree: live objects plus queued slots equal the element capacity `batch * len`, and the bytes `memory_size * len` equal `elem_size` times the capacity |
| `Pool.ZeroBatchSlotOutsideBlock` | src/pool.rs:112-123 | with a zero batch, the first expansion appends an empty zero-byte block and hands out a slot outside it |
| `SmallBuffer.New` | src/small_buffer.rs:30-38 | one empty node at rest, count zero, no elements |
| `SmallBuffer.AllocateNext` | src/small_buffer.rs:57-62 | the locked branch clears the last node's flag and links one empty node with its flag set; no cell and no counter changes |
| `SmallBuffer.InsertAtIndex` | src/small_buffer.rs:46-69 | the item lands in cell `16 * k + index` of the chain; no other cell and no counter changes; the chain grows only to the node the index needs |
| `SmallBuffer.InsertAllocatesOnce` | src/small_buffer.rs:57-62 | a cleared flag stays cleared; a flag is set exactly on the last node; it is cleared exactly when a node is linked behind it |
| `SmallBuffer.InlineInsert` | src/small_buffer.rs:47-49 | an index below 16 writes only the head's inline cell and leaves every other node as it was |
| `SmallBuffer.Push` | src/small_buffer.rs:41-44 | the count grows by one, the contents gain the item at the end, and the chain has exactly the nodes the new count needs, or more if it had them before |
| `SmallBuffer.PushAll` | src/small_buffer.rs:41-44 | a run of pushes adds exactly its length to the count and appends exactly the pushed items, in order |
| `SmallBuffer.PushAllNodes` | src/small_buffer.rs:46-69 | after a run of pushes the chain has exactly the nodes the count needs, or more if it had them before |
| `SmallBuffer.PushedElementPlacement` | src/small_buffer.rs:46-55 | the `i`-th pushed element is stored in node `i / 16`, cell `i % 16` |
| `SmallBuffer.StartDrain` | src/small_buffer.rs:72-79 | a new drain is consistent with the buffer and has exactly the buffer's contents still to yield |
| `SmallBuffer.AdvanceCells` | src/small_buffer.rs:110-122 | reading one cell (`Advance`) moves out exactly the current element's cell, steps the position by one and keeps the end of the drain |
| `SmallBuffer.AdvanceRemaining` | src/small_buffer.rs:114-122 | after reading one cell, the drain stays consistent and has the remaining elements minus the first still to yield |
| `SmallBuffer.Next` | src/small_buffer.rs:106-124 | `next` yields nothing exactly when nothing remains, changing nothing then; otherwise it yields the first remaining element and the rest remain |
| `SmallBuffer.ExhaustedDrainIsEmpty` | src/small_buffer.rs:115-118 | a drain with nothing left leaves the buffer at rest with count zero |
| `SmallBuffer.DropDrain` | src/small_buffer.rs:127-131 | dropping a drain yields exactly the remaining elements in order and leaves the buffer at rest, empty, with every node in place |
| `SmallBuffer.DrainAll` | src/small_buffer.rs:71-79 | a full drain yields exactly the pushed elements in push order, sets the count to zero and keeps every node |
| `SmallBuffer.RefillAfterDrain` | src/small_buffer.rs:139-161 | two rounds of pushes, each followed by a drain, yield exactly their own elements, and the second round reuses the first round's nodes |
| `SmallBuffer.Flatten` | src/small_buffer.rs:21-22 | the cells of all nodes in chain order: cell `i` is element cell `i` of the buffer |
| `SmallBuffer.DropBufferAsWritten` | src/small_buffer.rs:82-91 | dropping as written drops the elements in order and frees the nodes behind the head; the drop glue of `buf` then drops `16 * nodes` cells, none of which holds an element |
| `SmallBuffer.DropBuffer` | src/small_buffer.rs:82-91 | dropping the buffer drops each pushed element exactly once, in push order, frees every node behind the head, and its cell glue drops nothing, since no cell holds an element after the drain |

## Left out

- Concurrency is not modelled. That covers the atomics and memory
  orderings, the growth mutex, `MsQueue`'s lock-free behaviour, the `Arc`
  reference count and `Send`/`Sync`. Every operation is one sequential
  step.
- Raw memory is not modelled: `heap::allocate`/`deallocate`, pointer
  arithmetic, `ptr::read`/`write` and `mem::uninitialized`. Slots are
  indices into a sequence of blocks.
- The "out of memory" panic of `expand` is not modelled. The allocator is
  outside the model.
- `Manager`'s `Drop`, which frees the blocks, is not modelled. It is plain
  deallocation.
- `Pool::new` and `Pool::add` only forward to the `Manager`. They are
  modelled by `NewManager` and `Add`.
- The commented-out `Debug`/`Display` for `Object` is not modelled, and
  neither is the text formatting of `Debug`. Only its numbers are
  (`Describe`).
- Pool.Describe takes the object count (`strong_count - 1`) to be the
  number of live handles. It assumes no other clone of the manager's
  `Arc` exists, which holds because `Pool` is not `Clone`.
- `src/tiny_buffer.rs` and `src/lib.rs` are not part of this model.
- The order in which freed slots are reused is not stated beyond
  `Add`'s "the oldest queued slot". Concurrent pushes and pops could
  interleave differently.
- Pool.ComputeLayout: `elem_size * batch` is unbounded here. A product
  above `usize::MAX` (a panic in debug builds, a wrap in release builds)
  is not modelled. With `align_to_cache` and a zero-sized type, only the
  debug-build panic is modelled (as `SizeUnderflow`). In a release build
  `((0 - 1) / 64 + 1) * 64` wraps to 0, so construction succeeds with
  `elem_size == 0`. Without `align_to_cache`, a zero-sized type also has
  `elem_size == 0`. In both cases `memory_size` is 0: every slot of a
  block has the same address and `expand` asks the allocator for zero
  bytes. The model's slots stay distinct `(block, index)` pairs.
- Pool.Add: handle ids are unbounded. They exist only in the model.
- SmallBuffer.Push: the counter is unbounded. The wrap of `fetch_add`
  at `usize::MAX` is not modelled.

## Findings

| source | as written | input that shows it | evidently intended | confidence | as-written member | corrected member |
|---|---|---|---|---|---|---|
| src/pool.rs:92-123 | `Manager::new` accepts `batch == 0`. `expand` then allocates zero bytes, queues nothing and returns the block's start as slot 0. | `Pool::new(false, 0)` then `add(x)`: `x` is written to slot 0 of an empty block | a batch of zero is a construction error, so every returned slot lies inside its block | not executed | `Pool.ZeroBatchSlotOutsideBlock` | `Pool.NewCheckedManager` |
| src/small_buffer.rs:82-91 | `buf` is a plain `[T; 16]`. After `Drop::drop` has drained the elements, the drop glue drops all 16 cells of every node again. Those cells were never written or have already been moved out. | push one `String`, then drop the buffer: the drain drops it; the glue then drops cell 0 a second time and cells 1 to 15 uninitialised | each pushed element is dropped exactly once, and cells without an element are never dropped | not executed | `SmallBuffer.DropBufferAsWritten` | `SmallBuffer.DropBuffer` |
