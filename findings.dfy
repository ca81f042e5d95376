/** Two defects of the splice in `resize` (src/bitmap.rs:181-185), each modelled next to the
    corrected version that the rest of the model uses. The first is the code as written: the
    splice writes at the wrong addresses. The second is the condition at src/bitmap.rs:181
    taken with the old layout's addresses, that is, once the first is fixed; on the text as
    written the first defect comes first and the second is not reached. */
module Findings {
  import opened Bits
  import opened Blocks
  import Bitmap
  import Packing

  /** The source keeps a bitmap of `nb` blocks in one buffer of `3 * nb` words: the masks,
      then the `next` links, then the `prev` links. */
  function Words(ms: seq<bv64>, nx: seq<nat>, pv: seq<nat>): (r: seq<nat>)
    ensures |r| == |ms| + |nx| + |pv|
  {
    seq(|ms|, i requires 0 <= i < |ms| => ms[i] as nat) + nx + pv
  }

  /** The word that `next(b)` addresses when the bitmap has `nb` blocks. */
  function NextAddr(nb: nat, b: nat): nat
  {
    nb + b
  }

  /** The word that `prev(b)` addresses when the bitmap has `nb` blocks. */
  function PrevAddr(nb: nat, b: nat): nat
  {
    2 * nb + b
  }

  /** The splice writes as written. `len` is already `new_len` when they run, so `next` and
      `prev` compute their addresses for `newBlocks` blocks, while `data` still has the old
      layout. The result is None when a write falls outside the buffer. */
  function SpliceWordsAsWritten(data: seq<nat>, oldBlocks: nat, newBlocks: nat, head: nat): Option<seq<nat>>
    requires oldBlocks > 0
  {
    var b := oldBlocks - 1;
    var na := NextAddr(newBlocks, b);
    var pa := PrevAddr(newBlocks, b);
    if na < |data| && pa < |data| then Some(data[na := head][pa := NIL]) else None
  }

  /** Every splice that the source reaches writes outside the old buffer. */
  lemma SpliceOutOfBounds(ms: seq<bv64>, nx: seq<nat>, pv: seq<nat>, newBlocks: nat, head: nat)
    requires 0 < |ms| < newBlocks && |nx| == |ms| && |pv| == |ms|
    ensures PrevAddr(newBlocks, |ms| - 1) >= |Words(ms, nx, pv)|
    ensures SpliceWordsAsWritten(Words(ms, nx, pv), |ms|, newBlocks, head) == None
  {
  }

  /** One block growing to two: `next(0)` lands on word 2, which is the old `prev[0]`, and
      `prev(0)` lands on word 4 of a 3-word buffer. */
  lemma SpliceOutOfBoundsExample()
    ensures NextAddr(2, 0) == PrevAddr(1, 0) && PrevAddr(2, 0) == 4
    ensures SpliceWordsAsWritten(Words([0], [NIL], [NIL]), 1, 2, NIL) == None
  {
  }

  /** The splice writes at the addresses of the old layout. */
  function SpliceWordsIntended(data: seq<nat>, oldBlocks: nat, head: nat): seq<nat>
    requires 0 < oldBlocks && |data| == 3 * oldBlocks
  {
    var b := oldBlocks - 1;
    data[NextAddr(oldBlocks, b) := head][PrevAddr(oldBlocks, b) := NIL]
  }

  /** With the old layout's addresses, the splice writes exactly `next` and `prev` of the old
      last block and nothing else. This is what `Bitmap.Bitmap.SpliceTail` does on arrays. */
  lemma IntendedSpliceWords(ms: seq<bv64>, nx: seq<nat>, pv: seq<nat>, head: nat)
    requires 0 < |ms| && |nx| == |ms| && |pv| == |ms|
    ensures SpliceWordsIntended(Words(ms, nx, pv), |ms|, head) ==
            Words(ms, nx[|ms| - 1 := head], pv[|ms| - 1 := NIL])
  {
    var n := |ms|;
    var lhs := SpliceWordsIntended(Words(ms, nx, pv), n, head);
    var rhs := Words(ms, nx[n - 1 := head], pv[n - 1 := NIL]);
    forall i | 0 <= i < 3 * n
      ensures lhs[i] == rhs[i]
    {
      if i < n {
      } else if i < 2 * n {
        assert rhs[i] == nx[n - 1 := head][i - n];
      } else {
        assert rhs[i] == pv[n - 1 := NIL][i - 2 * n];
      }
    }
  }

  /** The list of blocks left by the condition of src/bitmap.rs:181 with the old layout's
      addresses: the old last block goes to the front whenever it has a vacant slot, even
      when it is on the list already. */
  ghost function SplicedAsWritten(ms: seq<bv64>, list: seq<nat>): seq<nat>
  {
    if |ms| > 0 && ms[|ms| - 1] != FULL then [|ms| - 1] + list else list
  }

  /** `next` after the splice with the condition of src/bitmap.rs:181 and the old layout's
      addresses. */
  function SpliceNextAsWritten(ms: seq<bv64>, nx: seq<nat>, head: nat): seq<nat>
    requires |nx| == |ms|
  {
    if |ms| > 0 && ms[|ms| - 1] != FULL then nx[|ms| - 1 := head] else nx
  }

  /** When the old last block is on the list already, the condition of src/bitmap.rs:181 with
      the old layout's addresses puts it on twice. */
  lemma RelinkDuplicates(ms: seq<bv64>, list: seq<nat>)
    requires |ms| > 0 && ms[|ms| - 1] != FULL && |ms| - 1 in list
    ensures !Distinct(SplicedAsWritten(ms, list))
  {
    var k :| 0 <= k < |list| && list[k] == |ms| - 1;
    var s := SplicedAsWritten(ms, list);
    assert s[0] == s[k + 1];
  }

  /** A reachable bitmap where that happens: 64 slots, all acquired, then slot 0 released.
      Block 0 was full, so `release` put it on the list. It is also the last block and not
      full, so the condition of src/bitmap.rs:181 with the old layout's addresses links it
      again, and `next[0]` becomes 0. The corrected splice leaves the list as it is. On the
      text as written, a resize of this bitmap to two blocks writes `prev` of block 0 outside
      the old buffer instead (the first defect), so the duplicate does not arise there. */
  method ReleasedTail() returns (bm: Bitmap.Bitmap)
    ensures bm.Valid() && bm.len == 64 && bm.masks.Length == 1
    ensures bm.masks[0] != FULL && bm.list == [0] && bm.head == 0
    ensures !Distinct(SplicedAsWritten(bm.masks[..], bm.list))
    ensures SpliceNextAsWritten(bm.masks[..], bm.next[..], bm.head)[0] == 0
    ensures Spliced(bm.masks[..], bm.list) == bm.list
    ensures SpliceWordsAsWritten(Words(bm.masks[..], bm.next[..], bm.prev[..]), 1, 2, bm.head) == None
  {
    bm := FilledBlock();
    FullBlock(bm);
    bm.Release(0);
    bm.OccupiedBit(0, 0);
    FullBit(0);
    Packing.ConsistentHead(bm.masks[..], bm.next[..], bm.prev[..], bm.len, bm.occupied, bm.count, bm.head, bm.list);
    RelinkDuplicates(bm.masks[..], bm.list);
    SpliceOutOfBounds(bm.masks[..], bm.next[..], bm.prev[..], 2, bm.head);
  }

  /** A bitmap of 64 slots, all acquired from `new` after `resize(64)`. */
  method FilledBlock() returns (bm: Bitmap.Bitmap)
    ensures bm.Valid() && fresh(bm.Repr) && bm.Packed()
    ensures bm.Count() == 64 && bm.len == 64 && bm.masks.Length == 1
  {
    bm := new Bitmap.Bitmap();
    bm.Resize(64);
    var i := 0;
    while i < 64
      invariant bm.Valid() && fresh(bm.Repr) && bm.Packed()
      invariant i <= 64 && bm.Count() == i && bm.len == 64 && bm.masks.Length == 1
    {
      var index := bm.Acquire();
      i := i + 1;
    }
  }

  /** The one mask of a packed bitmap with all 64 slots occupied is full, and its list is
      empty. */
  lemma FullBlock(bm: Bitmap.Bitmap)
    requires bm.Valid() && bm.Packed() && bm.Count() == 64 && bm.len == 64 && bm.masks.Length == 1
    ensures bm.masks[0] == FULL && bm.list == [] && 0 in bm.occupied
  {
    bm.PackedOccupied();
    Packing.SealedPackedAny(bm.count + 1, bm.occupied, bm.count, bm.list, bm.masks.Length);
    Unseal(bm.masks[..], bm.next[..], bm.prev[..], bm.len, bm.occupied, bm.count, bm.head, bm.list);
    Packing.FullTail(bm.masks[..], bm.len, bm.occupied);
  }
}
