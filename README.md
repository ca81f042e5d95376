# vec-arena in Dafny

A model of the Rust crate `vec-arena`, with proofs about it. `VecArena<T>` is an allocator of objects of one type. It keeps them in a growing buffer and hands out `usize` indices. Which slots are occupied is tracked by a `Bitmap`.

- The bitmap groups slots in blocks of 64 (`bits()`).
- Each block has an occupancy mask and `next` and `prev` links.
- Every block that is not fully occupied, except the last one, is on a doubly linked free list that starts at `head`. Only such blocks are on it, though the last block can be as well once `release` has put it there. This makes `acquire` and `release` O(1).

Modules:

- `Bits` (bits.dfy): the 64-bit masks as `bv64`, which bit `1 << k` is, and `trailing_zeros`. `TakeLowest` is the bit work of `acquire` (the lowest zero bit of a mask, then set). `Toggle` is the bit work of `release`.
- `Blocks` (blocks.dfy): `blocks_for` and the bitmap's invariant on sequence values. The invariant is `Coherent`, sealed as `Consistent`. It states:
  - the array sizes;
  - each mask records exactly the occupied slots of its block;
  - `count` is the number of occupied slots;
  - no slot at or above `len` is occupied;
  - the free list `list` is a duplicate-free sequence of blocks;
  - `head` is its first block;
  - `next` and `prev` link it both ways;
  - a block on the list is not full and lies wholly below `len`, and every block that is not full, except the last one, is on the list;
  - blocks off the list have `prev == !0`.
  
  One step lemma per bitmap operation proves that the operation keeps the invariant.
- `Packing` (packing.dfy): the state that `acquire` alone produces from an empty bitmap:
  - slots `0 .. count - 1` are occupied;
  - the list ascends from the block of slot `count`.

  `acquire` keeps this state and hands out slot `count`. `resize` of a full bitmap keeps it when the length fills whole blocks or the block count does not change.
- `Bitmap` (bitmap.dfy): `class Bitmap`, with arrays `masks`, `next` and `prev` and fields `len`, `count` and `head`. Ghost fields hold the occupied set and the list. `class Iter` models the bitmap's iterator.
- `Arena` (arena.dfy): `class VecArena<T>`. It holds a buffer `elems: array<T>` as long as the bitmap, and the bitmap itself. Ghost `contents: map<nat, T>` are the objects by index. Operations that panic on a vacant index return `Outcome.Panic` and change nothing. `InsertSequence` is the crate's `it_works` test: `n` inserts into a new arena return `0, 1, ..., n - 1`.
- `SplayTree` (splay.dfy): the crate's example client, a splay tree whose nodes live in an arena (examples/splay_tree.rs). `class Splay` keeps the nodes as `nodes: seq<Node>` and the index `root`. A ghost `tree` is the binary tree the `parent` and child links describe. The class invariant (`Shaped`, sealed as `Tidy`) states:
  - the links from `root` describe `tree`, and each child's `parent` points back;
  - every node of the arena is in the tree exactly once;
  - the tree is a search tree on the values.

  `rotate`, `splay` and `insert` keep the invariant and the in-order walk. `insert` adds its node where the search-tree descent puts it, and `splay` brings a node to the root.

## Model

| member | source | states |
|---|---|---|
| Bits.TrailingZeros | src/bitmap.rs:113 | The result is at most 64. Every bit below it is clear. When it is below 64, that bit is set. It is 64 exactly when the value is 0. |
| Bits.LowestVacant | src/bitmap.rs:111-114 | For a mask that is not full, `(!m).trailing_zeros()` is below 64. The slot at that offset is vacant, and every lower slot of the block is occupied. |
| Bits.TakeLowest | src/bitmap.rs:113-122 | Returns the lowest vacant offset of a non-full mask, and the mask with exactly that bit set (`m ^ 1 << offset`). |
| Bits.Toggle | src/bitmap.rs:162 | Bit `off` of the result is the opposite of bit `off` of `m`, and every other bit equals the same bit of `m`. |
| Blocks.BlocksFor | src/bitmap.rs:17-20 | Gives the least number of 64-slot blocks that covers `len` slots, which is below `!0`. |
| Blocks.BlocksForMonotone | src/bitmap.rs:173-174 | More slots never need fewer blocks; this is the assertion `old_blocks <= new_blocks` of `resize`. |
| Blocks.EmptyConsistent | src/bitmap.rs:65-78 | The empty bitmap (no blocks, `head == !0`) satisfies the invariant. |
| Blocks.ConsistentCount | src/bitmap.rs:53-57 | Under the invariant, `count` is the number of occupied slots and every occupied slot is below `len`. |
| Blocks.AcquireStep | src/bitmap.rs:97-136 | The slot `acquire` picks is valid: it is vacant and below `len`, and every lower slot of its block is occupied. Its block is `head`, or the last block when the list is empty. The head block leaves the list exactly when it becomes full. The invariant holds afterwards with the slot occupied and `count + 1`. |
| Blocks.ReleaseStep | src/bitmap.rs:143-164 | `release` of an occupied slot pushes its block onto the front of the list exactly when it was full. The invariant holds afterwards with the slot vacant and `count - 1`. |
| Blocks.ResizeCoherent | src/bitmap.rs:166-223 | Takes the links after the splice and after growing as given. The old last block is spliced onto the front when it is neither full nor already linked. When two or more blocks are added, all the new blocks except the last are chained in ascending order in front of the list. The resulting values satisfy the invariant for the new length, with the new masks zero. |
| Blocks.ResizeShape | src/bitmap.rs:181-221 | The links after the splice and the chaining form a well-shaped doubly linked list: the new blocks except the last, then the spliced old list. |
| Blocks.ResizeSame | src/bitmap.rs:176-179 | A resize within the same number of blocks only changes `len`, and the invariant still holds. |
| Blocks.ScanYield | src/bitmap.rs:294-301 | If the iterator yields the first occupied slot past its cursor, it has still yielded, in ascending order, exactly the occupied slots below the new cursor. |
| Blocks.ScanSkip | src/bitmap.rs:287-296 | Skipping vacant slots or empty blocks keeps that property. |
| Packing.EmptyPacked | src/bitmap.rs:65-78 | The new bitmap is packed. |
| Packing.AcquirePacked | src/bitmap.rs:97-136 | On a packed bitmap, `acquire` returns exactly slot `count`, and the bitmap stays packed with one more slot. |
| Packing.ResizePacked | src/bitmap.rs:166-223 | Resizing a packed bitmap whose slots are all occupied keeps it packed, when the old length fills whole blocks or the block count does not change. |
| Packing.FullTail | src/bitmap.rs:181 | When all `len` slots are occupied and `len` fills whole blocks, the last mask is `!0`, so `resize` does not splice it. |
| Bitmap.CopyGrow | src/bitmap.rs:187-202 | The new array holds the old one as a prefix, and the fill value after it. |
| Bitmap.ThreadBlocks | src/bitmap.rs:206-221 | The two loops set `next[b] = b + 1` and `prev[b] = b - 1` along the new blocks. `next` of the last chained block is the old head, and `prev` of the old head is that block. Nothing else changes. |
| Bitmap.Bitmap.constructor | src/bitmap.rs:65-78 | `new`: no slots, no occupied slot, an empty list; the invariant holds and the bitmap is packed. |
| Bitmap.Bitmap.Len | src/bitmap.rs:82-84 | The number of reserved slots, above every occupied slot. |
| Bitmap.Bitmap.Count | src/bitmap.rs:88-90 | The number of occupied slots, at most `len`. |
| Bitmap.Bitmap.IsOccupied | src/bitmap.rs:226-232 | Reading bit `index % 64` of mask `index / 64` is true exactly when the slot is occupied. |
| Bitmap.Bitmap.OccupiedBit | src/bitmap.rs:29 | A slot is occupied exactly when its mask bit is set. |
| Bitmap.Bitmap.EmptyBlock | src/bitmap.rs:290-292 | A zero mask means no slot of its block is occupied, so the iterator can skip it. |
| Bitmap.Bitmap.PackedOccupied | src/bitmap.rs:97-136 | In a packed bitmap, the occupied slots are `0 .. count - 1`. |
| Bitmap.Bitmap.LinkBlocks | src/bitmap.rs:243-246 | `next[a] := b` unless `a` is `!0`, and `prev[b] := a` unless `b` is `!0`. |
| Bitmap.Bitmap.StoreAcquired | src/bitmap.rs:122-130 | The writes of `acquire`: the new mask, and when the head block became full, unlinking it and advancing `head`. |
| Bitmap.Bitmap.StoreReleased | src/bitmap.rs:153-162 | The writes of `release`: pushing a full block onto the front of the list, and the new mask. |
| Bitmap.Bitmap.PushFront | src/bitmap.rs:154-157 | `link_blocks(!0, b); link_blocks(b, head); head = b`: the list becomes `[b] + list`. |
| Bitmap.Bitmap.Acquire | src/bitmap.rs:97-136 | Requires a vacant slot. Returns a vacant index below `len` and marks it occupied; `count` increases by 1 and the invariant is kept. The index comes from the head block, or the last block when the list is empty. On a packed bitmap the index is `count` and the bitmap stays packed. |
| Bitmap.Bitmap.Release | src/bitmap.rs:143-164 | Requires an occupied index below `len` and marks it vacant. The block joins the front of the list exactly when it was full. The invariant is kept. |
| Bitmap.Bitmap.GrowArrays | src/bitmap.rs:187-202 | Moves to fresh arrays of the new block count. The old entries are kept, and the new masks are zero. |
| Bitmap.Bitmap.SpliceTail | src/bitmap.rs:181-185 | When the old last block is neither full nor already on the list, it becomes the list's head. Otherwise nothing changes. |
| Bitmap.Bitmap.LinkNewBlocks | src/bitmap.rs:206-221 | The new blocks `lo .. hi - 1` are chained in ascending order in front of the list; `head` becomes `lo`. |
| Bitmap.Bitmap.Grow | src/bitmap.rs:181-221 | Growing to more blocks keeps the masks and adds zero ones. The list becomes the new blocks except the last, in ascending order, followed by the old list with the old last block spliced in front when it is not full. The invariant is kept. |
| Bitmap.Bitmap.Extend | src/bitmap.rs:187-221 | Moves to arrays of `n` blocks with zero new masks. When two or more blocks are added, all but the last are chained in front of the list, with `head` the first new block. |
| Bitmap.Bitmap.Resize | src/bitmap.rs:166-223 | Requires `len <= new_len`. Sets `len`, keeps the occupied slots and `count`, and gives `blocks_for(new_len)` blocks with the new masks zero. The list is as in `Grow`, or unchanged within the same block count. The invariant is kept, and so is packing of a full bitmap as in `Packing.ResizePacked`. |
| Bitmap.Bitmap.Iter | src/bitmap.rs:234-240 | A fresh iterator at block 0, bit 0, which has yielded nothing. |
| Bitmap.Iter.constructor | src/bitmap.rs:234-240 | The cursor starts before slot 0. |
| Bitmap.Iter.Next | src/bitmap.rs:286-306 | Returns the least occupied slot at or above the cursor and moves the cursor past it. It returns `None` only when every occupied slot has been yielded. So the iterator yields exactly the occupied slots in ascending order. |
| Arena.DoubledAligned | src/lib.rs:153-168 | Growing by `double` from 0 goes through 4, 8, 16, 32 and then multiples of 64. Below 64 the block count stays the same. |
| Arena.VecArena.constructor | src/lib.rs:46-58 | `new`: an empty arena with capacity 0, dense. |
| Arena.VecArena.WithCapacity | src/lib.rs:64-68 | An empty arena with capacity exactly `cap`. |
| Arena.VecArena.Capacity | src/lib.rs:71-73 | The bitmap's length, which is the buffer length and lies above every index in use. |
| Arena.VecArena.Len | src/lib.rs:76-78 | The number of objects in the arena, at most the capacity. |
| Arena.VecArena.ValidateIndex | src/lib.rs:186-189 | True exactly when the arena holds an object at `index`; the callers panic otherwise. |
| Arena.VecArena.Index | src/lib.rs:206-215 | Returns the object at `index`, or a panic exactly when there is none. |
| Arena.VecArena.IndexMut | src/lib.rs:217-224 | Replaces the object at an occupied `index`, or panics when the index is vacant. No other index changes. |
| Arena.VecArena.Insert | src/lib.rs:82-92 | Stores the value at an index that was vacant; no other index changes. The capacity doubles (0 becomes 4) exactly when the arena was full. On a dense arena the index is `len()` and the arena stays dense. |
| Arena.VecArena.Occupy | src/lib.rs:87-91 | After any doubling, acquires a slot and writes the value there. |
| Arena.VecArena.Remove | src/lib.rs:95-101 | Returns the object at `index` and removes only that one. It panics, changing nothing, exactly when there is no object there. The capacity is unchanged. |
| Arena.VecArena.InsertRemove | src/lib.rs:82-101 | `remove(insert(v))` gives `v` back and leaves the arena's objects as they were. |
| Arena.VecArena.Reserve | src/lib.rs:109-115 | Keeps the objects. Afterwards there is room for at least `additional` more objects, and the capacity has at least doubled when doubling does not overflow. |
| Arena.VecArena.ReserveExact | src/lib.rs:124-130 | Keeps the objects, and the capacity grows by exactly `additional`. |
| Arena.VecArena.Regrow | src/lib.rs:124-130 | Resizes the bitmap, then reallocates; the objects are kept. |
| Arena.VecArena.Reallocate | src/lib.rs:133-148 | A fresh buffer as long as the bitmap, holding the first `old_len` elements of the old one. |
| Arena.VecArena.Double | src/lib.rs:153-168 | The capacity becomes 4 from 0, and twice itself otherwise. The objects are kept. A full dense arena stays dense. |
| Arena.InsertSequence | src/lib.rs:237-246 | From `new`, `n` inserts return `0, 1, ..., n - 1` in turn. Afterwards every one of those indices holds its object. |
| SplayTree.Splay.constructor | examples/splay_tree.rs:27-32 | `new`: no nodes, `root == !0` and the empty tree; the invariant holds. |
| SplayTree.EmptyTidy | examples/splay_tree.rs:27-32 | The empty arena with no root satisfies the invariant. |
| SplayTree.Splay.Rewire | examples/splay_tree.rs:36-55 | The writes of `rotate(a, b)`, given that `a`, `b`, the inner child `t` and the parent `p` are distinct. `a` takes `t` on side `dir` and hangs below `b`. `b` takes `a` on the other side and hangs below `p`. `t` hangs below `a`, and `p` points to `b` where it pointed to `a`. No other node changes, and `root` becomes `b` exactly when `p` is `!0`. |
| SplayTree.RotateSetup | examples/splay_tree.rs:36-39 | Under the invariant, the nodes `rotate` reads are distinct and in range. `p` is `!0` exactly when `a` is the root. |
| SplayTree.RotateLinks | examples/splay_tree.rs:41-55 | After those writes, the links from `b` describe the rotated subtree, whose parent is `p`. |
| SplayTree.RotatedFacts | examples/splay_tree.rs:35-56 | A rotation keeps the subtree's nodes, their distinctness, its in-order walk and its search-tree order, and puts the lifted child on top. |
| SplayTree.RewiredValues | examples/splay_tree.rs:41-55 | The writes of `rotate` change links only, never a value. |
| SplayTree.RotateStep | examples/splay_tree.rs:35-56 | After the writes of `rotate(a, b)`, the invariant holds of the tree with the subtree at `a` rotated. The nodes and the in-order walk are those of the old tree, `b` is at the depth `a` had, and `b` is the new root exactly when `a` was the root. |
| SplayTree.Splay.Rotate | examples/splay_tree.rs:35-56 | `rotate(a, b)` for a child `b` of `a` keeps the invariant, the values and the in-order walk. `b` rises to the depth of `a`, and becomes the root exactly when `a` was the root. |
| SplayTree.ParentFacts | examples/splay_tree.rs:60-66 | Under the invariant, a node's `parent` is `!0` exactly at the root. Otherwise it is a node one level up that has this node as a child. |
| SplayTree.ChildFacts | examples/splay_tree.rs:71-72 | Under the invariant, a child link that is not `!0` leads to a node one level down, different from the other child. |
| SplayTree.Splay.Splay | examples/splay_tree.rs:58-82 | `splay(a)` ends with `a` the root and its `parent == !0`. It keeps the invariant, the values and the in-order walk. The loop terminates because the depth of `a` falls at every step. |
| SplayTree.Splay.SplayStep | examples/splay_tree.rs:71-80 | A zig-zig or zig-zag step, with `a` below `b` below `c`: `a` rises two levels, and the invariant, the values and the in-order walk are kept. |
| SplayTree.Splay.ZigZig | examples/splay_tree.rs:74-76 | When `a` and `b` are children on the same side, `rotate(c, b)` and then `rotate(b, a)` lift `a` two levels. |
| SplayTree.Splay.ZigZag | examples/splay_tree.rs:77-80 | Otherwise `rotate(b, a)` puts `a` below `c`, and `rotate(c, a)` lifts it once more: two levels in all. |
| SplayTree.TidyRoot | examples/splay_tree.rs:87 | Under the invariant, `root == !0` exactly when the tree is empty, and then the arena is empty too. |
| SplayTree.FirstNode | examples/splay_tree.rs:85-88 | The first node inserted becomes the root of a one-node tree, and the invariant holds. |
| SplayTree.AppendNode | examples/splay_tree.rs:85 | A node appended to the arena is not yet in the tree. The tree's links and order are unaffected, and the arena's indices are the tree's plus the new one. |
| SplayTree.DescendStep | examples/splay_tree.rs:92-101 | One step of the descent goes from `curr` to its child on side `dir`, one level down. The tree the insert builds is the same whether it is seen from `curr` or from that child. |
| SplayTree.AttachLeaf | examples/splay_tree.rs:95-97 | When the descent finds side `dir` of `curr` empty, hanging the new node there gives a state that satisfies the invariant for the tree with the node inserted. The values are unchanged. |
| SplayTree.AttachKeys | examples/splay_tree.rs:84-105 | Inserting adds exactly the new node and keeps the nodes distinct. |
| SplayTree.AttachOrdered | examples/splay_tree.rs:92 | Inserting left when the value is below the node's, and right otherwise, keeps the search-tree order. |
| SplayTree.AttachInOrder | examples/splay_tree.rs:84-105 | Inserting adds the new node exactly once to the in-order walk, which is otherwise unchanged as a multiset. |
| SplayTree.Splay.Hang | examples/splay_tree.rs:95-98 | The end of `insert`: the node hangs on the empty side of `curr` and is splayed. It ends as the root, with the invariant kept and the in-order walk of the tree with the node inserted. |
| SplayTree.Inserted | examples/splay_tree.rs:84-105 | After `insert(value)`, the new node holds `value` and the old values are kept. The in-order walk is the old tree's with the node inserted, as a multiset the old walk plus the node, and its values never decrease. |
| SplayTree.Splay.Insert | examples/splay_tree.rs:84-105 | `insert(value)` adds one node holding `value` and makes it the root. The in-order walk is the old tree's with the node inserted where the search-tree descent ends, and its values never decrease. The invariant is kept. |
| SplayTree.OrderedSorted | examples/splay_tree.rs:107-113 | The in-order walk that `print` does visits nondecreasing values in a search tree. |
| SplayTree.TidySorted | examples/splay_tree.rs:107-113 | Under the invariant, the in-order walk visits nondecreasing values. |
| Findings.SpliceOutOfBounds | src/bitmap.rs:171-184 | The splice as written runs after `len = new_len`, so it writes `prev` of the old last block at or past the end of the old `3 * old_blocks`-word buffer, every time it runs. |
| Findings.SpliceOutOfBoundsExample | src/bitmap.rs:171-184 | Going from one block to two, `next(0)` hits the old `prev[0]` word and `prev(0)` hits word 4 of a 3-word buffer. |
| Findings.IntendedSpliceWords | src/bitmap.rs:181-184 | At the old layout's addresses, the splice writes exactly `next` and `prev` of the old last block. |
| Findings.RelinkDuplicates | src/bitmap.rs:181 | Takes the condition at line 181 with the old layout's addresses, which is the text once the first finding is fixed. When the old last block is already on the list, the list that results has that block twice. |
| Findings.ReleasedTail | src/bitmap.rs:143-158 | A reachable state: 64 slots all acquired, then slot 0 released. Block 0 is the head and not full. With the old layout's addresses, the condition at line 181 makes `next[0] == 0` and a list with a repeat; the corrected splice keeps the list. On the text as written, a resize of this state to two blocks writes outside the old buffer instead. |
| Findings.FilledBlock | src/bitmap.rs:97-136 | `resize(64)` then 64 acquires leave a packed bitmap with every slot occupied. |
| Findings.FullBlock | src/bitmap.rs:33-35 | That bitmap's one mask is `!0` and its list is empty. |

## Left out

- Raw memory: `data: *mut usize`, `Vec::with_capacity`, `mem::forget`, `Vec::from_raw_parts` and `Drop` for both types are not modelled. Dafny arrays are garbage collected. The bitmap keeps three arrays instead of one buffer holding masks, `next` and `prev` in turn. The `mask`, `next` and `prev` accessors are therefore plain array indexing.
- `get_unchecked` and `get_unchecked_mut`: unchecked reads of the buffer. `Index` and `IndexMut` model the checked paths that guard them.
- `IndexMut` returns a mutable reference in Rust. The model assigns the new value through it instead.
- Panics are modelled in one of two ways:
  - The panic of `validate_index` (reached from `remove`, `index` and `index_mut`) is `Outcome.Panic` with the state unchanged.
  - The assertions of `acquire`, `release` and `resize` are preconditions (`count < len`, `index < len` with the slot occupied, `len <= new_len`).
- `usize` overflow (`len + bits() - 1` in `blocks_for`, the `checked_mul` of `double`, the new capacity of `reserve`) is the precondition `n + 63 <= 2^64 - 1` on the length the bitmap grows to.
- Bits.BITS: the block width is fixed at 64 and `USIZE_MAX` at `2^64 - 1`, which is a 64-bit `usize`. The source's `bits()` (src/bitmap.rs:11-13) is `size_of::<usize>() * 8`, so a 32-bit target is not modelled.
- Arena.VecArena: the class is declared `VecArena<T(0)>`, which asks `T` to have a default value. Dafny needs one to allocate the buffer; the source asks nothing of `T` and leaves vacant slots uninitialised.
- Bitmap.Bitmap.Resize: the splice of the old last block at src/bitmap.rs:181-185 is modelled as its comments intend; see Findings. The splice happens only when the block is neither full nor already on the list. It re-points the old head's `prev`, and it uses the old block count for the addresses. The new blocks' `next` and `prev` entries start as `!0`, where the source leaves them uninitialised.
- Arena.VecArena.Len: `len()` calls `bitmap.occupied()`, which the bitmap does not define. It is taken to mean `count()`.
- Arena.VecArena.ReserveExact: `bitmap.reserve_exact(k)` is not defined by the bitmap. It is taken to be `resize(len + k)`.
- Arena.VecArena.Reserve: `bitmap.reserve(k)` is not defined either. It is taken to grow to `2 * len` when that is more than `len + k` and does not overflow, and to `len + k` otherwise.
- Arena.VecArena.Double: the `size_of::<T>().checked_mul(4)` test, which picks a first capacity of 1 only for types of enormous size, is left out. The first capacity is always 4.
- Arena.VecArena.ValidateIndex: it checks `index < len` explicitly. `is_occupied` reads the mask without a bounds check, which is undefined behaviour out of bounds rather than the panic its comment claims.
- `check_invariants` (empty in the source) and `Default` (the same as `new`) have no members of their own; `Bitmap.Bitmap.Valid` is the invariant.
- SplayTree: the example's `VecArena<Node<T>>` is the sequence `nodes`. The example never removes a node, so its arena stays dense, and `insert` on a dense arena returns `len()` (`Arena.VecArena.Insert`). The new node is therefore `|nodes|`. The arena's index panics cannot occur: every index the example reads is proved in range.
- SplayTree: the value type `T: Ord` is `int`, and `children: [usize; 2]` is the pair of fields `left` and `right`, read by `Node.Child(dir)`.
- SplayTree.Splay.Insert: requires `|nodes| < !0`, so that the new node's index is not `!0`, the null link.
- `print` (examples/splay_tree.rs:107-113) writes to standard output and is not modelled. The order it prints is the in-order walk of `SplayTree.OrderedSorted`. `main` (examples/splay_tree.rs:116-125), with its `wrapping_mul` number sequence, is not modelled either.
- Arena.InsertSequence: the test's `arena[i] == ()` is stated as "`arena[i]` does not panic"; `()` is the only value of its type.

## Findings

| source | as written | input that shows it | evidently intended | confidence | as-written member | corrected member |
|---|---|---|---|---|---|---|
| src/bitmap.rs:171-185 | The splice of the old last block runs after `self.len = new_len`. `next()` and `prev()` then compute addresses for the new block count inside the old buffer. | `with_capacity(3)` then `reserve_exact(100)`: one block growing to two. `next(0)` overwrites the old `prev[0]` word, and `prev(0)` writes word 4 of a 3-word buffer. The block's real `next` keeps its uninitialised value, and `acquire` follows it once the block fills. | The splice runs with the old layout's addresses (before `len` changes, or on the new buffer after the copy). | not executed; high | Findings.SpliceWordsAsWritten (Findings.SpliceOutOfBounds, Findings.SpliceOutOfBoundsExample) | Findings.SpliceWordsIntended (Findings.IntendedSpliceWords); Bitmap.Bitmap.SpliceTail on the three arrays |
| src/bitmap.rs:181 | The old last block is spliced whenever its mask is not `!0`, even when `release` already put it on the list. This happens when the block was full and had all 64 slots. | `with_capacity(64)`, 64 inserts, `remove(0)`, then `reserve_exact(1)`. On the text as written, this input meets the first finding first: `next(0)` writes the old `prev[0]` word and `prev(0)` writes outside the buffer. This defect shows once the addresses are those of the old layout. Then block 0 is the head, and the splice sets `next(0) = head = 0`. Once block 0 refills, `head` stays 0 with a full mask, and the next `acquire` computes offset 64. | Splice only a block that is not on the list. | not executed; medium (it is hidden by the first finding until that is fixed) | Findings.SplicedAsWritten and Findings.SpliceNextAsWritten: the condition at line 181 with the old layout's addresses (Findings.RelinkDuplicates, Findings.ReleasedTail) | Blocks.Spliced, used by Bitmap.Bitmap.SpliceTail and Bitmap.Bitmap.Resize (Blocks.ResizeCoherent) |
