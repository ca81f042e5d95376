/** Occupancy bitmap of the arena: which slot indices are occupied.

    Slots are grouped in blocks of BITS slots. Each block has an occupancy
    mask, a `next` link and a `prev` link; every block that is not fully
    occupied, except the last one, sits on a doubly linked free list that
    starts at `head`. */
module Bitmap {
  import opened Bits
  import opened Blocks
  import Packing

  /** Copies `a` into a fresh array of `n` elements whose tail holds `fill`: the
      `ptr::copy_nonoverlapping` of a sequence into the reallocated buffer. */
  method CopyGrow<T>(a: array<T>, n: nat, fill: T) returns (r: array<T>)
    requires a.Length <= n
    ensures fresh(r) && r.Length == n
    ensures r[..] == a[..] + Fill(n - a.Length, fill)
  {
    r := new T[n](_ => fill);
    for k := 0 to a.Length
      invariant forall j :: 0 <= j < k ==> r[j] == a[j]
      invariant forall j :: a.Length <= j < n ==> r[j] == fill
    {
      r[k] := a[k];
    }
  }

  /** The loops of `resize` on the link arrays: `nx[b] = b + 1` for the new blocks
      `lo .. hi - 2`, `nx[hi - 1] = head`, `pv[b] = b - 1` for `lo + 1 .. hi - 1`,
      `pv[lo] = !0` and, when there is a head, `pv[head] = hi - 1`. */
  method ThreadBlocks(nx: array<nat>, pv: array<nat>, head: nat, lo: nat, hi: nat)
    requires nx != pv && nx.Length == pv.Length && lo < hi <= nx.Length < NIL
    requires head == NIL || head < lo
    modifies nx, pv
    ensures nx[..] == ChainedNext(old(nx[..]), head, lo, hi)
    ensures pv[..] == ChainedPrev(old(pv[..]), head, lo, hi)
  {
    for b := lo to hi - 1
      invariant forall c :: 0 <= c < nx.Length ==> nx[c] == if lo <= c < b then c + 1 else old(nx[c])
      invariant pv[..] == old(pv[..])
    {
      nx[b] := b + 1;
    }
    nx[hi - 1] := head;
    for b := lo + 1 to hi
      invariant forall c :: 0 <= c < pv.Length ==> pv[c] == if lo + 1 <= c < b then c - 1 else old(pv[c])
      invariant nx[..] == ChainedNext(old(nx[..]), head, lo, hi)
    {
      pv[b] := b - 1;
    }
    pv[lo] := NIL;
    if head != NIL {
      pv[head] := hi - 1;
    }
    forall c | 0 <= c < pv.Length
      ensures pv[c] == ChainPrev(old(pv[..]), head, lo, hi, c)
    {
    }
    assert pv[..] == ChainedPrev(old(pv[..]), head, lo, hi);
  }

  /** Occupancy metadata of an arena: which of its `len` slots hold an object. */
  class Bitmap {
    /** Bit masks of the blocks: bit `j` of `masks[b]` is set when slot `b * BITS + j` is occupied. */
    var masks: array<bv64>
    /** Successor of each block in the list, or NIL. */
    var next: array<nat>
    /** Predecessor of each block in the list, or NIL. */
    var prev: array<nat>
    /** Number of reserved slots. */
    var len: nat
    /** Number of occupied slots. */
    var count: nat
    /** First block of the list, or NIL when the list is empty. */
    var head: nat

    /** The occupied slots. */
    ghost var occupied: set<nat>
    /** The blocks on the list, from `head` on. */
    ghost var list: seq<nat>
    ghost var Repr: set<object>

    ghost predicate Valid()
      reads this, Repr
    {
      Repr == {this, masks, next, prev} &&
      masks as object != next && masks as object != prev && next != prev &&
      Consistent(masks[..], next[..], prev[..], len, occupied, count, head, list)
    }

    /** `Bitmap::new`: no slots, no blocks, an empty list. */
    constructor ()
      ensures Valid() && fresh(Repr)
      ensures len == 0 && occupied == {} && list == [] && Packed()
    {
      masks := new bv64[0];
      next := new nat[0];
      prev := new nat[0];
      len := 0;
      count := 0;
      head := NIL;
      occupied := {};
      list := [];
      new;
      Repr := {this, masks, next, prev};
      EmptyConsistent();
      Packing.EmptyPacked();
      assert masks[..] == [] && next[..] == [] && prev[..] == [];
    }

    /** The bitmap is as `acquire` alone leaves it: slots `0 .. count - 1` are occupied and
        the list runs in ascending order from the block of slot `count`. */
    ghost predicate Packed()
      reads this
    {
      Packing.SealedPacked(count + 1, occupied, count, list, masks.Length)
    }

    /** In a packed bitmap the occupied slots are `0 .. count - 1`. */
    lemma PackedOccupied()
      requires Packed()
      ensures occupied == RangeSet(count)
    {
      Packing.SealedPackedAny(count + 1, occupied, count, list, masks.Length);
    }

    /** The number of reserved slots, above every occupied one. */
    function Len(): (r: nat)
      requires Valid()
      reads Repr
      ensures r == len
      ensures forall x :: x in occupied ==> x < r
    {
      ConsistentCount(masks[..], next[..], prev[..], len, occupied, count, head, list);
      len
    }

    /** The number of occupied slots, which never exceeds `len`. */
    function Count(): (r: nat)
      requires Valid()
      reads Repr
      ensures r == |occupied| && r <= len
    {
      ConsistentCount(masks[..], next[..], prev[..], len, occupied, count, head, list);
      count
    }

    /** Whether slot `index` is occupied; the block of `index` must exist. */
    function IsOccupied(index: nat): (r: bool)
      requires Valid() && index / BITS < masks.Length
      reads Repr
      ensures r <==> index in occupied
    {
      ConsistentSlot(masks[..], next[..], prev[..], len, occupied, count, head, list, index);
      Bit(masks[index / BITS], index % BITS)
    }

    /** `link_blocks(a, b)`: `b` follows `a`, either of which may be NIL. */
    method LinkBlocks(a: nat, b: nat)
      requires next != prev && next.Length == prev.Length
      requires a == NIL || a < next.Length
      requires b == NIL || b < prev.Length
      modifies next, prev
      ensures next[..] == LinkNext(old(next[..]), a, b)
      ensures prev[..] == LinkPrev(old(prev[..]), a, b)
    {
      if a != NIL {
        next[a] := b;
      }
      if b != NIL {
        prev[b] := a;
      }
    }

    /** The writes of `acquire`: mask `m1` goes to block `block`, and when `pop` the head
        block leaves the list. */
    method StoreAcquired(block: nat, m1: bv64, pop: bool)
      requires masks as object != next && masks as object != prev && next != prev
      requires block < masks.Length && next.Length == prev.Length == masks.Length
      requires pop ==> head < next.Length && |list| > 0 && (next[head] == NIL || next[head] < prev.Length)
      modifies masks, next, prev, this
      ensures masks == old(masks) && next == old(next) && prev == old(prev) && Repr == old(Repr)
      ensures len == old(len) && count == old(count) && occupied == old(occupied)
      ensures masks[..] == old(masks[..])[block := m1] && next[..] == old(next[..])
      ensures prev[..] == if pop then LinkPrev(old(prev[..]), NIL, old(next[head])) else old(prev[..])
      ensures head == (if pop then old(next[head]) else old(head))
      ensures list == if pop then old(list)[1..] else old(list)
    {
      masks[block] := m1;
      if pop {
        var nxt := next[head];
        LinkBlocks(NIL, nxt);
        head := nxt;
        list := list[1..];
      }
    }

    /** `acquire`: occupies the lowest vacant slot of the head block, or of the last block
        when the list is empty, and returns its index. */
    method Acquire() returns (index: nat)
      requires Valid() && count < len
      modifies Repr
      ensures Valid() && Repr == old(Repr) && len == old(len)
      ensures masks == old(masks) && next == old(next) && prev == old(prev)
      ensures index < len && index !in old(occupied)
      ensures occupied == old(occupied) + {index}
      ensures var block := if old(head) == NIL then masks.Length - 1 else old(head);
        block * BITS <= index < block * BITS + BITS &&
        forall x :: block * BITS <= x < index ==> x in old(occupied)
      ensures list == if old(head) != NIL && masks[old(head)] == FULL then old(list)[1..] else old(list)
      ensures old(Packed()) ==> index == old(count) && Packed()
    {
      var numBlocks := BlocksFor(len);
      var block := if head == NIL then numBlocks - 1 else head;
      AcquireChoice(masks[..], next[..], prev[..], len, occupied, count, head, list, block);
      var offset, m1 := TakeLowest(masks[block]);
      ghost var pv1, occ1, head1, list1 := AcquireStep(masks[..], next[..], prev[..], len, occupied, count, head, list, block, masks[block], offset, m1);
      Packing.AcquirePacked(masks[..], next[..], prev[..], len, occupied, count, head, list, block, offset, m1, pv1, head1, list1);
      index := block * BITS + offset;
      StoreAcquired(block, m1, block == head && m1 == FULL);
      count := count + 1;
      occupied := occupied + {index};
    }
 
    /** The writes of `release`: when `push` the block `block` is linked in front of the
        list (`link_blocks(!0, block)`, `link_blocks(block, head)`, `head = block`), then
        mask `m1` goes to it. */
    method StoreReleased(block: nat, m1: bv64, push: bool)
      requires masks as object != next && masks as object != prev && next != prev
      requires block < masks.Length && next.Length == prev.Length == masks.Length
      requires push ==> head == NIL || head < prev.Length
      modifies masks, next, prev, this
      ensures masks == old(masks) && next == old(next) && prev == old(prev) && Repr == old(Repr)
      ensures len == old(len) && count == old(count) && occupied == old(occupied)
      ensures masks[..] == old(masks[..])[block := m1]
      ensures next[..] == if push then LinkNext(old(next[..]), block, old(head)) else old(next[..])
      ensures prev[..] == if push then LinkPrev(LinkPrev(old(prev[..]), NIL, block), block, old(head)) else old(prev[..])
      ensures head == (if push then block else old(head))
      ensures list == if push then [block] + old(list) else old(list)
    {
      if push {
        PushFront(block);
      }
      masks[block] := m1;
    }

    /** Links block `b` in front of the list: `link_blocks(!0, b)`, `link_blocks(b, head)`,
        `head = b`. */
    method PushFront(b: nat)
      requires masks as object != next && masks as object != prev && next != prev
      requires b < next.Length && next.Length == prev.Length
      requires head == NIL || head < prev.Length
      modifies next, prev, this
      ensures masks == old(masks) && next == old(next) && prev == old(prev) && Repr == old(Repr)
      ensures len == old(len) && count == old(count) && occupied == old(occupied)
      ensures next[..] == LinkNext(old(next[..]), b, old(head))
      ensures prev[..] == LinkPrev(LinkPrev(old(prev[..]), NIL, b), b, old(head))
      ensures head == b && list == [b] + old(list)
    {
      var h := head;
      LinkBlocks(NIL, b);
      LinkBlocks(b, h);
      head := b;
      list := [b] + list;
    }

    /** The reallocation of `resize`: the masks, `next` and `prev` links move to fresh
        arrays of `n` blocks; the new masks are empty and the new blocks unlinked. */
    method GrowArrays(n: nat)
      requires masks.Length <= n && next.Length <= n && prev.Length <= n
      modifies this
      ensures fresh(masks) && fresh(next) && fresh(prev)
      ensures masks as object != next && masks as object != prev && next != prev
      ensures Repr == {this, masks, next, prev}
      ensures len == old(len) && count == old(count) && occupied == old(occupied)
      ensures head == old(head) && list == old(list)
      ensures masks[..] == old(masks[..]) + Fill(n - old(masks.Length), 0)
      ensures next[..] == old(next[..]) + Fill(n - old(next.Length), NIL)
      ensures prev[..] == old(prev[..]) + Fill(n - old(prev.Length), NIL)
    {
      masks := CopyGrow(masks, n, 0);
      next := CopyGrow(next, n, NIL);
      prev := CopyGrow(prev, n, NIL);
      Repr := {this, masks, next, prev};
    }

    /** The loops of `resize` that thread the new blocks `lo .. hi - 1` in ascending order
        in front of the list, the last of them followed by the old head. */
    method LinkNewBlocks(lo: nat, hi: nat)
      requires next != prev && next.Length == prev.Length && lo < hi < next.Length < NIL
      requires head == NIL || head < lo
      modifies next, prev, this
      ensures masks == old(masks) && next == old(next) && prev == old(prev) && Repr == old(Repr)
      ensures len == old(len) && count == old(count) && occupied == old(occupied)
      ensures next[..] == ChainedNext(old(next[..]), old(head), lo, hi)
      ensures prev[..] == ChainedPrev(old(prev[..]), old(head), lo, hi)
      ensures head == lo && list == Range(lo, hi) + old(list)
    {
      ThreadBlocks(next, prev, head, lo, hi);
      head := lo;
      list := Range(lo, hi) + list;
    }

    /** The splice of `resize`: the old last block goes to the front of the list when it
        has a vacant slot and is not linked yet, that is, it is neither the head nor has a
        predecessor. */
    method SpliceTail()
      requires masks as object != next && masks as object != prev && next != prev
      requires next.Length == prev.Length == masks.Length
      requires head == NIL || head < prev.Length
      modifies next, prev, this
      ensures masks == old(masks) && next == old(next) && prev == old(prev) && Repr == old(Repr)
      ensures len == old(len) && count == old(count) && occupied == old(occupied)
      ensures SpliceWanted(masks[..], old(prev[..]), old(head)) ==>
        next[..] == LinkNext(old(next[..]), masks.Length - 1, old(head)) &&
        prev[..] == LinkPrev(LinkPrev(old(prev[..]), NIL, masks.Length - 1), masks.Length - 1, old(head)) &&
        head == masks.Length - 1 && list == [masks.Length - 1] + old(list)
      ensures !SpliceWanted(masks[..], old(prev[..]), old(head)) ==>
        next[..] == old(next[..]) && prev[..] == old(prev[..]) && head == old(head) && list == old(list)
    {
      var last := masks.Length - 1;
      if masks.Length > 0 && masks[last] != FULL && last != head && prev[last] == NIL {
        PushFront(last);
      }
    }

    /** `resize`: grows the bitmap to `newLen` slots. New blocks have empty masks; when
        blocks are added, the old last block is spliced onto the list if it has a vacant slot
        and is not linked yet, and all new blocks but the last are threaded in front of the
        list in ascending order. */
    method Resize(newLen: nat)
      requires Valid() && len <= newLen && newLen + BITS - 1 <= USIZE_MAX
      modifies Repr
      ensures Valid() && fresh(Repr - old(Repr))
      ensures len == newLen && count == old(count) && occupied == old(occupied)
      ensures masks.Length == BlocksFor(newLen)
      ensures masks[..] == old(masks[..]) + Fill(masks.Length - old(masks.Length), 0)
      ensures list == if masks.Length == old(masks.Length) then old(list)
        else Range(old(masks.Length), masks.Length - 1) + Spliced(old(masks[..]), old(list))
      ensures old(Packed()) && old(count) == old(len) && (old(len) % BITS == 0 || masks.Length == old(masks.Length)) ==>
        Packed()
    {
      var oldBlocks := BlocksFor(len);
      BlocksForMonotone(len, newLen);
      var newBlocks := BlocksFor(newLen);
      ghost var list1 := if newBlocks == oldBlocks then list
        else Range(oldBlocks, newBlocks - 1) + Spliced(masks[..], list);
      Packing.ResizePacked(masks[..], next[..], prev[..], len, occupied, count, head, list, newLen, list1);
      var diff := newBlocks - oldBlocks;
      if diff == 0 {
        ResizeSame(masks[..], next[..], prev[..], len, occupied, count, head, list, newLen);
        len := newLen;
        return;
      }
      Grow(newLen);
    }

    /** The part of `resize` that adds blocks. */
    method Grow(newLen: nat)
      requires Valid() && len <= newLen && newLen + BITS - 1 <= USIZE_MAX && masks.Length < BlocksFor(newLen)
      modifies Repr
      ensures Valid() && fresh(Repr - old(Repr))
      ensures len == newLen && count == old(count) && occupied == old(occupied)
      ensures masks.Length == BlocksFor(newLen)
      ensures masks[..] == old(masks[..]) + Fill(masks.Length - old(masks.Length), 0)
      ensures list == Range(old(masks.Length), masks.Length - 1) + Spliced(old(masks[..]), old(list))
    {
      var newBlocks := BlocksFor(newLen);
      ghost var ms, nx, pv, oldLen, oldHead, oldList := masks[..], next[..], prev[..], len, head, list;
      SpliceTail();
      ghost var nxS, pvS, headS, listS := next[..], prev[..], head, list;
      len := newLen;
      Extend(newBlocks);
      ResizeCoherent(ms, nx, pv, oldLen, occupied, count, oldHead, oldList, newLen, nxS, pvS, headS, next[..], prev[..], head);
    }

    /** The part of `resize` that moves the bitmap to arrays of `n` blocks: the new masks
        are zero, and when two or more blocks are added, all of them but the last are
        threaded in front of the list. */
    method Extend(n: nat)
      requires masks as object != next && masks as object != prev && next != prev
      requires next.Length == prev.Length == masks.Length < n < NIL
      requires head == NIL || head < masks.Length
      modifies this
      ensures fresh(masks) && fresh(next) && fresh(prev)
      ensures masks as object != next && masks as object != prev && next != prev
      ensures Repr == {this, masks, next, prev}
      ensures len == old(len) && count == old(count) && occupied == old(occupied)
      ensures masks[..] == old(masks[..]) + Fill(n - old(masks.Length), 0)
      ensures var m, d := old(masks.Length), n - old(masks.Length);
        if d >= 2 then
          next[..] == ChainedNext(old(next[..]) + Fill(d, NIL), old(head), m, n - 1) &&
          prev[..] == ChainedPrev(old(prev[..]) + Fill(d, NIL), old(head), m, n - 1) &&
          head == m
        else
          next[..] == old(next[..]) + Fill(d, NIL) && prev[..] == old(prev[..]) + Fill(d, NIL) &&
          head == old(head)
      ensures list == Range(old(masks.Length), n - 1) + old(list)
    {
      var oldBlocks := masks.Length;
      GrowArrays(n);
      if n - oldBlocks >= 2 {
        LinkNewBlocks(oldBlocks, n - 1);
      } else {
        RangeEmpty(oldBlocks);
      }
    }

    /** `release`: vacates the occupied slot `index`; its block, if it was full, goes to the
        front of the list. */
    method Release(index: nat)
      requires Valid() && index < len && index in occupied
      modifies Repr
      ensures Valid() && Repr == old(Repr) && len == old(len)
      ensures masks == old(masks) && next == old(next) && prev == old(prev)
      ensures occupied == old(occupied) - {index}
      ensures index / BITS < masks.Length
      ensures list == if old(masks[index / BITS]) == FULL then [index / BITS] + old(list) else old(list)
    {
      ReleaseChoice(masks[..], next[..], prev[..], len, occupied, count, head, list, index);
      var block := index / BITS;
      var offset := index % BITS;
      var m := masks[block];
      var m1 := Toggle(m, offset);
      ghost var nx1, pv1, occ1, head1, list1 := ReleaseStep(masks[..], next[..], prev[..], len, occupied, count, head, list, index, m, m1);
      count := count - 1;
      StoreReleased(block, m1, m == FULL);
      occupied := occupied - {index};
    }
 
    /** Bit `j` of block `b`'s mask is set exactly when slot `b * BITS + j` is occupied. */
    lemma OccupiedBit(b: nat, j: nat)
      requires Valid() && b < masks.Length && j < BITS
      ensures b * BITS + j in occupied <==> Bit(masks[b], j)
    {
      SlotJoin(b, j);
      ConsistentSlot(masks[..], next[..], prev[..], len, occupied, count, head, list, b * BITS + j);
    }

    /** A block whose mask is zero has no occupied slot. */
    lemma EmptyBlock(b: nat)
      requires Valid() && b < masks.Length && masks[b] == 0
      ensures forall x :: b * BITS <= x < b * BITS + BITS ==> x !in occupied
    {
      forall x | b * BITS <= x < b * BITS + BITS
        ensures x !in occupied
      {
        OccupiedBit(b, x - b * BITS);
        ZeroBit(x - b * BITS);
      }
    }

    /** `iter`: an iterator over the occupied slots, from slot 0. */
    method Iter() returns (it: Iter)
      requires Valid()
      ensures fresh(it) && it.Valid() && it.bitmap == this && it.b == 0 && it.i == 0 && it.yielded == []
    {
      it := new Iter(this);
    }
  }

  /** Iterator over the occupied slots of a bitmap in ascending order. The bitmap does not
      change while the iterator lives. */
  class Iter {
    const bitmap: Bitmap
    /** Block being scanned. */
    var b: nat
    /** Next bit of block `b` to look at. */
    var i: nat
    /** The slots yielded so far. */
    ghost var yielded: seq<nat>

    /** The first slot not yet scanned. */
    ghost function Cursor(): nat
      reads this
    {
      b * BITS + i
    }

    /** The iterator has yielded, in strictly ascending order, exactly the occupied slots
        below its cursor. */
    ghost predicate Valid()
      reads this, bitmap, bitmap.Repr
    {
      bitmap.Valid() && i <= BITS && Scanned(bitmap.occupied, yielded, b * BITS + i)
    }

    constructor (bm: Bitmap)
      requires bm.Valid()
      ensures Valid() && bitmap == bm && b == 0 && i == 0 && yielded == []
    {
      bitmap := bm;
      b := 0;
      i := 0;
      yielded := [];
    }

    /** `Iter::next`: the least occupied slot at or above the cursor, after which the cursor
        moves past it, or None when no occupied slot is left. */
    method Next() returns (r: Option<nat>)
      requires Valid()
      modifies this
      ensures Valid()
      ensures r.None? ==> yielded == old(yielded) && forall x :: x in bitmap.occupied ==> x in yielded
      ensures r.Some? ==>
        yielded == old(yielded) + [r.value] && r.value in bitmap.occupied && old(Cursor()) <= r.value &&
        forall x :: old(Cursor()) <= x < r.value ==> x !in bitmap.occupied
    {
      ghost var start := Cursor();
      ghost var occ := bitmap.occupied;
      var n := BlocksFor(bitmap.len);
      var bb: nat, ii: nat := b, i;
      while bb < n
        invariant ii <= BITS && start <= bb * BITS + ii && yielded == old(yielded)
        invariant forall x :: start <= x < bb * BITS + ii ==> x !in occ
        decreases n - bb, BITS - ii
      {
        var mask := bitmap.masks[bb];
        if ii == BITS || mask == 0 {
          if mask == 0 {
            bitmap.EmptyBlock(bb);
          }
          bb, ii := bb + 1, 0;
        } else {
          while ii < BITS && !Bit(mask, ii)
            invariant ii <= BITS && start <= bb * BITS + ii && yielded == old(yielded)
            invariant forall x :: start <= x < bb * BITS + ii ==> x !in occ
            decreases BITS - ii
          {
            bitmap.OccupiedBit(bb, ii);
            ii := ii + 1;
          }
          if ii < BITS {
            bitmap.OccupiedBit(bb, ii);
            var index := bb * BITS + ii;
            ScanYield(occ, yielded, start, index);
            b, i := bb, ii + 1;
            yielded := yielded + [index];
            return Some(index);
          }
        }
      }
      ConsistentCount(bitmap.masks[..], bitmap.next[..], bitmap.prev[..], bitmap.len, bitmap.occupied,
                      bitmap.count, bitmap.head, bitmap.list);
      ScanSkip(occ, yielded, start, bb * BITS + ii);
      b, i := bb, ii;
      return None;
    }
  }
}
