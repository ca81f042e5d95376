/** A bitmap filled by `acquire` alone: the occupied slots are exactly `0 .. count - 1` and
    the list runs, in ascending order, from the block of slot `count` up to but excluding the
    last block. In this state `acquire` hands out slot `count`, which is why an arena that
    is only ever inserted into returns the indices 0, 1, 2, ... in turn. */
module Packing {
  import opened Bits
  import opened Blocks

  /** The list of a bitmap with `nb` blocks whose slots `0 .. k - 1` are occupied. */
  function PackedList(k: nat, nb: nat): seq<nat>
  {
    if k / BITS + 1 < nb then Range(k / BITS, nb - 1) else []
  }

  ghost predicate Packed(occ: set<nat>, count: nat, list: seq<nat>, nb: nat)
  {
    occ == RangeSet(count) && list == PackedList(count, nb)
  }

  /** `Packed`, reached through `depth` unfoldings; at the depth `count + 1`, which is not a
      literal, the verifier does not unfold it unaided (`SealedPackedAny` opens it). */
  ghost predicate SealedPacked(depth: nat, occ: set<nat>, count: nat, list: seq<nat>, nb: nat)
    decreases depth
  {
    if depth == 0 then Packed(occ, count, list, nb) else SealedPacked(depth - 1, occ, count, list, nb)
  }

  lemma SealedPackedAny(depth: nat, occ: set<nat>, count: nat, list: seq<nat>, nb: nat)
    ensures SealedPacked(depth, occ, count, list, nb) == Packed(occ, count, list, nb)
    decreases depth
  {
    if depth > 0 {
      SealedPackedAny(depth - 1, occ, count, list, nb);
    }
  }

  /** An empty bitmap is packed. */
  lemma EmptyPacked()
    ensures SealedPacked(1, {}, 0, [], 0)
  {
    assert RangeSet(0) == {};
  }

  /** With slots `0 .. k` occupied, the mask of the block holding slot `k` is full exactly
      when `k` is the block's last slot. */
  lemma PackedFull(m1: bv64, b: nat, k: nat)
    requires BlockAgrees(m1, b, RangeSet(k + 1)) && b * BITS <= k < b * BITS + BITS
    ensures m1 == FULL <==> k + 1 == b * BITS + BITS
  {
    FullIff(m1);
    if m1 == FULL {
      assert Bit(m1, BITS - 1);
    } else {
      var j :| 0 <= j < BITS && !Bit(m1, j);
      assert b * BITS + j !in RangeSet(k + 1);
    }
  }

  /** The head of a consistent bitmap's list is its first block. */
  lemma ConsistentHead(ms: seq<bv64>, nx: seq<nat>, pv: seq<nat>, len: nat, occ: set<nat>, count: nat,
                       head: nat, list: seq<nat>)
    requires Consistent(ms, nx, pv, len, occ, count, head, list)
    ensures |list| > 0 ==> head == list[0]
  {
    Unseal(ms, nx, pv, len, occ, count, head, list);
  }

  /** Each mask of a consistent bitmap records the occupied slots of its block. */
  lemma ConsistentBlock(ms: seq<bv64>, nx: seq<nat>, pv: seq<nat>, len: nat, occ: set<nat>, count: nat,
                        head: nat, list: seq<nat>, b: nat)
    requires Consistent(ms, nx, pv, len, occ, count, head, list) && b < |ms|
    ensures BlockAgrees(ms[b], b, occ)
  {
    Unseal(ms, nx, pv, len, occ, count, head, list);
  }

  /** `acquire` on a packed bitmap: the chosen slot, the lowest vacant one of the chosen
      block, is `count`, and the bitmap it leaves is packed with one more slot. */
  lemma AcquirePacked(ms: seq<bv64>, nx: seq<nat>, pv: seq<nat>, len: nat, occ: set<nat>, count: nat,
                      head: nat, list: seq<nat>, block: nat, off: nat, m1: bv64,
                      pv1: seq<nat>, head1: nat, list1: seq<nat>)
    requires Consistent(ms, nx, pv, len, occ, count, head, list) && count < len
    requires block == if head == NIL then |ms| - 1 else head
    requires block < |ms| && off < BITS && block * BITS + off !in occ
    requires forall x :: block * BITS <= x < block * BITS + off ==> x in occ
    requires Consistent(ms[block := m1], nx, pv1, len, occ + {block * BITS + off}, count + 1, head1, list1)
    requires list1 == if block == head && m1 == FULL then list[1..] else list
    ensures SealedPacked(count + 1, occ, count, list, |ms|) ==>
      block * BITS + off == count && SealedPacked(count + 2, occ + {block * BITS + off}, count + 1, list1, |ms|)
  {
    if SealedPacked(count + 1, occ, count, list, |ms|) {
      AcquirePackedStep(ms, nx, pv, len, occ, count, head, list, block, off, m1, pv1, head1, list1);
    }
  }

  lemma AcquirePackedStep(ms: seq<bv64>, nx: seq<nat>, pv: seq<nat>, len: nat, occ: set<nat>, count: nat,
                          head: nat, list: seq<nat>, block: nat, off: nat, m1: bv64,
                          pv1: seq<nat>, head1: nat, list1: seq<nat>)
    requires Consistent(ms, nx, pv, len, occ, count, head, list) && count < len
    requires SealedPacked(count + 1, occ, count, list, |ms|)
    requires block == if head == NIL then |ms| - 1 else head
    requires block < |ms| && off < BITS && block * BITS + off !in occ
    requires forall x :: block * BITS <= x < block * BITS + off ==> x in occ
    requires Consistent(ms[block := m1], nx, pv1, len, occ + {block * BITS + off}, count + 1, head1, list1)
    requires list1 == if block == head && m1 == FULL then list[1..] else list
    ensures block * BITS + off == count
    ensures SealedPacked(count + 2, occ + {block * BITS + off}, count + 1, list1, |ms|)
  {
    SealedPackedAny(count + 1, occ, count, list, |ms|);
    ConsistentHead(ms, nx, pv, len, occ, count, head, list);
    PackedSlot(occ, count, list, |ms|, head, block, off);
    var occ1 := occ + {count};
    assert occ1 == RangeSet(count + 1);
    ConsistentBlock(ms[block := m1], nx, pv1, len, occ1, count + 1, head1, list1, block);
    PackedFull(m1, block, count);
    PackedNext(count, |ms|, list, head, block, m1 == FULL, list1);
    SealedPackedAny(count + 2, occ1, count + 1, list1, |ms|);
  }

  /** In a packed bitmap the block `acquire` picks starts at or below slot `count`, so the
      lowest vacant slot of that block is `count` itself. */
  lemma PackedSlot(occ: set<nat>, count: nat, list: seq<nat>, nb: nat, head: nat, block: nat, off: nat)
    requires Packed(occ, count, list, nb) && (|list| > 0 ==> head == list[0]) && (head == NIL <==> |list| == 0)
    requires block == if head == NIL then nb - 1 else head
    requires off < BITS && block * BITS + off !in occ
    requires forall x :: block * BITS <= x < block * BITS + off ==> x in occ
    ensures block * BITS + off == count && block * BITS <= count < block * BITS + BITS
    ensures head != NIL ==> block == count / BITS && block + 1 < nb
    ensures head == NIL ==> nb <= count / BITS + 1
  {
    assert block <= count / BITS;
    assert count !in occ;
    assert !(block * BITS <= count < block * BITS + off);
  }

  /** The list after `acquire` on a packed bitmap, which drops the head block once it is full,
      is the packed list with one more slot. */
  lemma PackedNext(count: nat, nb: nat, list: seq<nat>, head: nat, block: nat, full: bool, list1: seq<nat>)
    requires list == PackedList(count, nb) && (head == NIL <==> |list| == 0)
    requires (|list| > 0 ==> head == list[0]) && block != NIL
    requires head != NIL ==> block == count / BITS && block + 1 < nb
    requires head == NIL ==> nb <= count / BITS + 1
    requires block * BITS <= count < block * BITS + BITS
    requires full <==> count + 1 == block * BITS + BITS
    requires list1 == if block == head && full then list[1..] else list
    ensures list1 == PackedList(count + 1, nb)
  {
    if head != NIL {
      assert list[0] == count / BITS;
      if full {
        assert (count + 1) / BITS == block + 1;
      } else {
        assert (count + 1) / BITS == block;
      }
    }
  }

  /** The last block of a bitmap whose `len` slots are all occupied is full when `len` fills
      whole blocks. */
  lemma FullTail(ms: seq<bv64>, len: nat, occ: set<nat>)
    requires Sized(ms, len) && SlotsAgree(ms, occ, len) && occ == RangeSet(len)
    requires len % BITS == 0 && |ms| > 0
    ensures ms[|ms| - 1] == FULL
  {
    var b := |ms| - 1;
    assert BlockAgrees(ms[b], b, occ);
    assert (b + 1) * BITS == len;
    forall j | 0 <= j < BITS
      ensures Bit(ms[b], j)
    {
      assert b * BITS + j < len;
    }
    FullIff(ms[b]);
  }

  /** `resize` of a packed bitmap whose slots are all occupied stays packed, provided `len`
      fills whole blocks or the number of blocks does not change: the new blocks but the
      last are linked in ascending order and the full old tail is not spliced. */
  lemma ResizePacked(ms: seq<bv64>, nx: seq<nat>, pv: seq<nat>, len: nat, occ: set<nat>, count: nat,
                     head: nat, list: seq<nat>, newLen: nat, list1: seq<nat>)
    requires Consistent(ms, nx, pv, len, occ, count, head, list)
    requires len <= newLen && newLen + BITS - 1 <= USIZE_MAX && |ms| <= BlocksFor(newLen)
    requires list1 == if BlocksFor(newLen) == |ms| then list
                      else Range(|ms|, BlocksFor(newLen) - 1) + Spliced(ms, list)
    ensures SealedPacked(count + 1, occ, count, list, |ms|) && count == len && (len % BITS == 0 || BlocksFor(newLen) == |ms|) ==>
      SealedPacked(count + 1, occ, count, list1, BlocksFor(newLen))
  {
    var nb := BlocksFor(newLen);
    SealedPackedAny(count + 1, occ, count, list, |ms|);
    SealedPackedAny(count + 1, occ, count, list1, nb);
    if Packed(occ, count, list, |ms|) && count == len && nb != |ms| && len % BITS == 0 {
      Unseal(ms, nx, pv, len, occ, count, head, list);
      assert |ms| == len / BITS;
      assert list == [];
      if |ms| > 0 {
        FullTail(ms, len, occ);
      }
      assert Spliced(ms, list) == [];
      assert list1 == Range(|ms|, nb - 1);
    }
  }
}
