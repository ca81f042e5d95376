/** The bitmap's state as values: which slots the block masks mark occupied, the doubly
    linked list of blocks that still have a vacant slot, and how acquiring, releasing and
    resizing keep both consistent. */
module Blocks {
  import opened Bits

  /** Number of 64-bit words a value `len` of 64 bits or less needs: `blocks_for(len)`. */
  function BlocksFor(len: nat): (r: nat)
    requires len + BITS - 1 <= USIZE_MAX
    ensures len <= r * BITS
    ensures r > 0 ==> (r - 1) * BITS < len
    ensures r < NIL
  {
    (len + BITS - 1) / BITS
  }

  /** More slots never need fewer blocks, which is what `resize` asserts. */
  lemma BlocksForMonotone(a: nat, b: nat)
    requires a <= b && b + BITS - 1 <= USIZE_MAX
    ensures BlocksFor(a) <= BlocksFor(b)
  {
  }

  /** `d` copies of `x`: the links or masks given to new blocks. */
  function Fill<T>(d: nat, x: T): (r: seq<T>)
    ensures |r| == d && forall i :: 0 <= i < d ==> r[i] == x
  {
    seq(d, _ => x)
  }

  datatype Option<T> = None | Some(value: T)

  /** The block indices `lo, lo + 1, ..., hi - 1` in order. */
  function Range(lo: nat, hi: nat): (r: seq<nat>)
    requires lo <= hi
    ensures |r| == hi - lo
    ensures forall i :: 0 <= i < |r| ==> r[i] == lo + i
  {
    seq(hi - lo, i => lo + i)
  }

  lemma RangeEmpty(n: nat)
    ensures Range(n, n) == []
  {
  }

  ghost predicate Distinct(s: seq<nat>)
  {
    forall i, k :: 0 <= i < k < |s| ==> s[i] != s[k]
  }

  lemma DistinctCons(b: nat, list: seq<nat>)
    requires Distinct(list) && b !in list
    ensures Distinct([b] + list)
  {
    var list1 := [b] + list;
    forall i, k | 0 <= i < k < |list1|
      ensures list1[i] != list1[k]
    {
      assert list1[k] == list[k - 1];
      if i > 0 {
        assert list1[i] == list[i - 1];
      }
    }
  }

  /** `ms` holds exactly the blocks `len` slots need. */
  ghost predicate Sized(ms: seq<bv64>, len: nat)
  {
    len + BITS - 1 <= USIZE_MAX && |ms| == BlocksFor(len)
  }

  /** Mask `m` of block `b` records exactly the occupied slots `occ` of that block: bit `j`
      is set exactly when slot `b * BITS + j` is occupied. */
  ghost predicate BlockAgrees(m: bv64, b: nat, occ: set<nat>)
  {
    forall j :: 0 <= j < BITS ==> (Bit(m, j) <==> b * BITS + j in occ)
  }

  /** The masks `ms` record exactly the occupied slots `occ`, all of which lie below `len`. */
  ghost predicate SlotsAgree(ms: seq<bv64>, occ: set<nat>, len: nat)
  {
    (forall x :: x in occ ==> x < len) &&
    (forall b :: 0 <= b < |ms| ==> BlockAgrees(ms[b], b, occ))
  }

  /** The element after position `i` of `list`, or NIL at the end. */
  function Succ(list: seq<nat>, i: nat): nat
    requires i < |list|
  {
    if i + 1 < |list| then list[i + 1] else NIL
  }

  /** The element before position `i` of `list`, or NIL at the front. */
  function Pred(list: seq<nat>, i: nat): nat
    requires i < |list|
  {
    if i == 0 then NIL else list[i - 1]
  }

  /** Every element of `list` is a block index below `n`. */
  ghost predicate Bounded(list: seq<nat>, n: nat)
  {
    forall i :: 0 <= i < |list| ==> list[i] < n
  }

  /** The successor link of every listed block is the next listed block, or NIL at the end. */
  ghost predicate NextLinks(nx: seq<nat>, list: seq<nat>)
    requires Bounded(list, |nx|)
  {
    forall i {:trigger nx[list[i]]} :: 0 <= i < |list| ==> nx[list[i]] == Succ(list, i)
  }

  /** The predecessor link of every listed block is the previous listed block, or NIL. */
  ghost predicate PrevLinks(pv: seq<nat>, list: seq<nat>)
    requires Bounded(list, |pv|)
  {
    forall i {:trigger pv[list[i]]} :: 0 <= i < |list| ==> pv[list[i]] == Pred(list, i)
  }

  /** Blocks off the list have no predecessor. */
  ghost predicate OffListUnlinked(pv: seq<nat>, list: seq<nat>)
  {
    forall b :: 0 <= b < |pv| && b !in list ==> pv[b] == NIL
  }

  /** The `next`/`prev` links `nx`/`pv` and `head` form a doubly linked list through the
      distinct blocks of `list`, in order; blocks off the list have no predecessor. */
  ghost predicate ListShape(nx: seq<nat>, pv: seq<nat>, head: nat, list: seq<nat>)
  {
    |pv| == |nx| && |nx| < NIL &&
    (if |list| == 0 then head == NIL else head == list[0]) &&
    Bounded(list, |nx|) && Distinct(list) &&
    NextLinks(nx, list) && PrevLinks(pv, list) && OffListUnlinked(pv, list)
  }

  /** The list holds only blocks that are not full and lie wholly below `len`, and it holds
      every block that is not full except possibly the last one. */
  ghost predicate ListMembers(ms: seq<bv64>, len: nat, list: seq<nat>)
  {
    (forall i :: 0 <= i < |list| ==> list[i] < |ms| && ms[list[i]] != FULL && (list[i] + 1) * BITS <= len) &&
    (forall b :: 0 <= b < |ms| - 1 && ms[b] != FULL ==> b in list)
  }

  /** `link_blocks(a, b)` on the `next` links: `a`'s successor becomes `b`. */
  function LinkNext(nx: seq<nat>, a: nat, b: nat): seq<nat>
    requires a == NIL || a < |nx|
  {
    if a != NIL then nx[a := b] else nx
  }

  /** `link_blocks(a, b)` on the `prev` links: `b`'s predecessor becomes `a`. */
  function LinkPrev(pv: seq<nat>, a: nat, b: nat): seq<nat>
    requires b == NIL || b < |pv|
  {
    if b != NIL then pv[b := a] else pv
  }

  lemma SlotSplit(x: nat)
    ensures x == x / BITS * BITS + x % BITS && x % BITS < BITS
  {
  }

  lemma SlotJoin(b: nat, j: nat)
    requires j < BITS
    ensures (b * BITS + j) / BITS == b && (b * BITS + j) % BITS == j
  {
  }

  /** Slot `x` is occupied exactly when its block exists and its bit is set. */
  lemma SlotAt(ms: seq<bv64>, occ: set<nat>, len: nat, x: nat)
    requires Sized(ms, len) && SlotsAgree(ms, occ, len)
    ensures x in occ <==> x / BITS < |ms| && Bit(ms[x / BITS], x % BITS)
  {
    SlotSplit(x);
    if x / BITS < |ms| {
      assert BlockAgrees(ms[x / BITS], x / BITS, occ);
    }
  }

  /** A block is on the list exactly when it is the head or has a predecessor. */
  lemma LinkedIff(nx: seq<nat>, pv: seq<nat>, head: nat, list: seq<nat>, b: nat)
    requires ListShape(nx, pv, head, list) && b < |nx|
    ensures b in list <==> b == head || pv[b] != NIL
  {
    if b in list {
      var i :| 0 <= i < |list| && list[i] == b;
      if i > 0 {
        assert pv[b] == list[i - 1] < |nx|;
      }
    }
  }

  /** Unlinking the head block (`link_blocks(!0, next)`, then `head = next`) leaves the rest. */
  lemma PopFrontShape(nx: seq<nat>, pv: seq<nat>, head: nat, list: seq<nat>)
    requires ListShape(nx, pv, head, list) && |list| > 0
    ensures nx[head] == NIL || nx[head] < |pv|
    ensures ListShape(nx, LinkPrev(pv, NIL, nx[head]), nx[head], list[1..])
  {
    var nxt := nx[list[0]];
    assert nxt == Succ(list, 0);
    var pv1 := LinkPrev(pv, NIL, nxt);
    var rest := list[1..];
    assert forall i :: 0 <= i < |rest| ==> rest[i] == list[i + 1];
    forall b | 0 <= b < |nx| && b !in rest
      ensures pv1[b] == NIL
    {
      if b != list[0] {
        assert b !in list;
      }
    }
    forall i | 0 <= i < |rest|
      ensures pv1[rest[i]] == Pred(rest, i)
    {
      if i > 0 {
        assert rest[i] != list[1];
      }
    }
    forall i | 0 <= i < |rest|
      ensures nx[rest[i]] == Succ(rest, i)
    {
      assert nx[list[i + 1]] == Succ(list, i + 1);
    }
  }

  lemma PushNextLinks(nx: seq<nat>, list: seq<nat>, b: nat, head: nat)
    requires Bounded(list, |nx|) && NextLinks(nx, list) && b < |nx| && b !in list
    requires if |list| == 0 then head == NIL else head == list[0]
    ensures Bounded([b] + list, |nx|) && NextLinks(nx[b := head], [b] + list)
  {
    var list1 := [b] + list;
    forall i | 0 <= i < |list1|
      ensures nx[b := head][list1[i]] == Succ(list1, i)
    {
      if i > 0 {
        assert list1[i] == list[i - 1];
        assert nx[list[i - 1]] == Succ(list, i - 1);
      }
    }
  }

  lemma PushPrevAt(pv: seq<nat>, list: seq<nat>, b: nat, head: nat, i: nat)
    requires Bounded(list, |pv|) && PrevLinks(pv, list) && Distinct(list) && b < |pv| < NIL && b !in list
    requires if |list| == 0 then head == NIL else head == list[0]
    requires i < |list| + 1
    ensures var pv1 := if head != NIL then pv[b := NIL][head := b] else pv[b := NIL];
      ([b] + list)[i] < |pv1| && pv1[([b] + list)[i]] == Pred([b] + list, i)
  {
    var list1 := [b] + list;
    if i == 0 {
      assert list1[0] == b;
      assert b != head by {
        if |list| > 0 {
          assert list[0] in list;
        }
      }
    } else {
      var x := list[i - 1];
      assert list1[i] == x;
      assert x < |pv|;
      assert x != b;
      if i == 1 {
        assert x == head;
      } else {
        assert x != list[0];
        assert pv[x] == Pred(list, i - 1);
      }
    }
  }

  lemma PushPrevLinks(pv: seq<nat>, list: seq<nat>, b: nat, head: nat)
    requires Bounded(list, |pv|) && PrevLinks(pv, list) && Distinct(list) && b < |pv| < NIL && b !in list
    requires if |list| == 0 then head == NIL else head == list[0]
    ensures Bounded([b] + list, |pv|)
    ensures PrevLinks(if head != NIL then pv[b := NIL][head := b] else pv[b := NIL], [b] + list)
  {
    var pv1 := if head != NIL then pv[b := NIL][head := b] else pv[b := NIL];
    var list1 := [b] + list;
    forall i | 0 <= i < |list1|
      ensures pv1[list1[i]] == Pred(list1, i)
    {
      PushPrevAt(pv, list, b, head, i);
    }
  }

  lemma PushOffList(pv: seq<nat>, list: seq<nat>, b: nat, head: nat)
    requires OffListUnlinked(pv, list) && b < |pv|
    requires head == NIL || (head in list && head < |pv|)
    ensures OffListUnlinked(if head != NIL then pv[b := NIL][head := b] else pv[b := NIL], [b] + list)
  {
  }

  /** Linking a block in front of the list (`link_blocks(!0, b)`, `link_blocks(b, head)`,
      then `head = b`) makes it the new first element. */
  lemma PushFrontShape(nx: seq<nat>, pv: seq<nat>, head: nat, list: seq<nat>, b: nat)
    requires ListShape(nx, pv, head, list) && b < |nx| && b !in list
    ensures head == NIL || head < |pv|
    ensures ListShape(LinkNext(nx, b, head), LinkPrev(LinkPrev(pv, NIL, b), b, head), b, [b] + list)
  {
    assert LinkNext(nx, b, head) == nx[b := head];
    assert LinkPrev(LinkPrev(pv, NIL, b), b, head) == if head != NIL then pv[b := NIL][head := b] else pv[b := NIL];
    DistinctCons(b, list);
    PushNextLinks(nx, list, b, head);
    PushPrevLinks(pv, list, b, head);
    PushOffList(pv, list, b, head);
  }

  /** Growing the link arrays with unlinked blocks keeps the list. */
  lemma GrowShape(nx: seq<nat>, pv: seq<nat>, head: nat, list: seq<nat>, d: nat)
    requires ListShape(nx, pv, head, list) && |nx| + d < NIL
    ensures ListShape(nx + Fill(d, NIL), pv + Fill(d, NIL), head, list)
  {
  }

  /** Shape of the list after `resize` threads the new blocks `lo .. hi - 1` in front of it. */
  function ChainNext(nx: seq<nat>, head: nat, lo: nat, hi: nat, c: nat): nat
    requires c < |nx|
  {
    if lo <= c < hi then (if c + 1 < hi then c + 1 else head) else nx[c]
  }

  function ChainPrev(pv: seq<nat>, head: nat, lo: nat, hi: nat, c: nat): nat
    requires c < |pv| && lo < hi
  {
    if lo <= c < hi then (if c == lo then NIL else c - 1) else if c == head then hi - 1 else pv[c]
  }

  /** All the `next` links after `resize` threads blocks `lo .. hi - 1` in front of the list. */
  function ChainedNext(nx: seq<nat>, head: nat, lo: nat, hi: nat): (r: seq<nat>)
    ensures |r| == |nx| && forall c :: 0 <= c < |nx| ==> r[c] == ChainNext(nx, head, lo, hi, c)
  {
    seq(|nx|, c requires 0 <= c < |nx| => ChainNext(nx, head, lo, hi, c))
  }

  /** All the `prev` links after `resize` threads blocks `lo .. hi - 1` in front of the list. */
  function ChainedPrev(pv: seq<nat>, head: nat, lo: nat, hi: nat): (r: seq<nat>)
    requires lo < hi
    ensures |r| == |pv| && forall c :: 0 <= c < |pv| ==> r[c] == ChainPrev(pv, head, lo, hi, c)
  {
    seq(|pv|, c requires 0 <= c < |pv| => ChainPrev(pv, head, lo, hi, c))
  }

  lemma ChainDistinct(list: seq<nat>, lo: nat, hi: nat)
    requires Distinct(list) && Bounded(list, lo) && lo <= hi
    ensures Distinct(Range(lo, hi) + list)
  {
    var l1 := Range(lo, hi) + list;
    var k := hi - lo;
    forall i, j | 0 <= i < j < |l1|
      ensures l1[i] != l1[j]
    {
      if j >= k {
        assert l1[j] == list[j - k];
        if i >= k {
          assert l1[i] == list[i - k];
        }
      }
    }
  }

  lemma ChainNextAt(nx: seq<nat>, nx1: seq<nat>, head: nat, list: seq<nat>, lo: nat, hi: nat, i: nat)
    requires Bounded(list, lo) && lo < hi <= |nx| && NextLinks(nx, list)
    requires if |list| == 0 then head == NIL else head == list[0]
    requires |nx1| == |nx| && forall c :: 0 <= c < |nx| ==> nx1[c] == ChainNext(nx, head, lo, hi, c)
    requires i < hi - lo + |list|
    ensures var l1 := Range(lo, hi) + list; l1[i] < |nx1| && nx1[l1[i]] == Succ(l1, i)
  {
    var l1 := Range(lo, hi) + list;
    var k := hi - lo;
    if i < k {
      assert l1[i] == lo + i;
      if i + 1 == k && |list| > 0 {
        assert l1[i + 1] == list[0];
      }
    } else {
      assert l1[i] == list[i - k];
      assert nx[list[i - k]] == Succ(list, i - k);
      if i + 1 < |l1| {
        assert l1[i + 1] == list[i + 1 - k];
      }
    }
  }

  lemma ChainPrevAt(pv: seq<nat>, pv1: seq<nat>, head: nat, list: seq<nat>, lo: nat, hi: nat, i: nat)
    requires Bounded(list, lo) && lo < hi <= |pv| < NIL && PrevLinks(pv, list) && Distinct(list)
    requires if |list| == 0 then head == NIL else head == list[0]
    requires |pv1| == |pv| && forall c :: 0 <= c < |pv| ==> pv1[c] == ChainPrev(pv, head, lo, hi, c)
    requires i < hi - lo + |list|
    ensures var l1 := Range(lo, hi) + list; l1[i] < |pv1| && pv1[l1[i]] == Pred(l1, i)
  {
    var l1 := Range(lo, hi) + list;
    var k := hi - lo;
    if i < k {
      assert l1[i] == lo + i;
      if i > 0 {
        assert l1[i - 1] == lo + i - 1;
      }
    } else {
      assert l1[i] == list[i - k];
      assert l1[i - 1] == if i == k then hi - 1 else list[i - 1 - k];
      if i > k {
        assert list[i - k] != list[0];
        assert pv[list[i - k]] == Pred(list, i - k);
      }
    }
  }

  lemma ChainMember(list: seq<nat>, lo: nat, hi: nat, c: nat)
    requires lo <= hi
    ensures c in Range(lo, hi) + list <==> lo <= c < hi || c in list
  {
    var l1 := Range(lo, hi) + list;
    if lo <= c < hi {
      assert l1[c - lo] == c;
    } else if c in list {
      var i :| 0 <= i < |list| && list[i] == c;
      assert l1[i + (hi - lo)] == c;
    }
  }

  /** The block chain `resize` builds: blocks `lo .. hi - 1` linked in order, followed by the
      old list, with the old head's predecessor set to the last new block. */
  lemma ChainShape(nx: seq<nat>, pv: seq<nat>, head: nat, list: seq<nat>, lo: nat, hi: nat,
                   nx1: seq<nat>, pv1: seq<nat>)
    requires ListShape(nx, pv, head, list) && lo < hi <= |nx| && Bounded(list, lo)
    requires |nx1| == |nx| && forall c :: 0 <= c < |nx| ==> nx1[c] == ChainNext(nx, head, lo, hi, c)
    requires |pv1| == |pv| && forall c :: 0 <= c < |pv| ==> pv1[c] == ChainPrev(pv, head, lo, hi, c)
    ensures ListShape(nx1, pv1, lo, Range(lo, hi) + list)
  {
    var l1 := Range(lo, hi) + list;
    ChainDistinct(list, lo, hi);
    assert Bounded(l1, |nx1|) by {
      forall i | 0 <= i < |l1|
        ensures l1[i] < |nx1|
      {
        if i >= hi - lo {
          assert l1[i] == list[i - (hi - lo)];
        }
      }
    }
    forall i | 0 <= i < |l1|
      ensures nx1[l1[i]] == Succ(l1, i)
    {
      ChainNextAt(nx, nx1, head, list, lo, hi, i);
    }
    forall i | 0 <= i < |l1|
      ensures pv1[l1[i]] == Pred(l1, i)
    {
      ChainPrevAt(pv, pv1, head, list, lo, hi, i);
    }
    forall c | 0 <= c < |pv1| && c !in l1
      ensures pv1[c] == NIL
    {
      ChainMember(list, lo, hi, c);
      if |list| > 0 {
        assert list[0] in list;
      }
    }
  }

  lemma SlotsApart(c: nat, k: nat, b: nat, j: nat)
    requires k < BITS && j < BITS && (c != b || k != j)
    ensures c * BITS + k != b * BITS + j
  {
  }

  /** Toggling a vacant bit of a block's mask occupies exactly that slot. */
  lemma SetBlock(m: bv64, b: nat, j: nat, occ: set<nat>)
    requires BlockAgrees(m, b, occ) && j < BITS && !Bit(m, j)
    ensures b * BITS + j !in occ
    ensures BlockAgrees(m ^ Single(j), b, occ + {b * BITS + j})
  {
    var m1 := m ^ Single(j);
    forall k | 0 <= k < BITS
      ensures Bit(m1, k) <==> b * BITS + k in occ + {b * BITS + j}
    {
      FlipBit(m, j, k);
      if k != j {
        SlotsApart(b, k, b, j);
      }
    }
  }

  /** Toggling a set bit of a block's mask vacates exactly that slot. */
  lemma ClearBlock(m: bv64, b: nat, j: nat, occ: set<nat>)
    requires BlockAgrees(m, b, occ) && j < BITS && Bit(m, j)
    ensures b * BITS + j in occ
    ensures BlockAgrees(m ^ Single(j), b, occ - {b * BITS + j})
  {
    var m1 := m ^ Single(j);
    forall k | 0 <= k < BITS
      ensures Bit(m1, k) <==> b * BITS + k in occ - {b * BITS + j}
    {
      FlipBit(m, j, k);
      if k != j {
        SlotsApart(b, k, b, j);
      }
    }
  }

  /** Occupying or vacating a slot of another block leaves a block's agreement intact. */
  lemma KeepBlock(m: bv64, c: nat, occ: set<nat>, b: nat, j: nat)
    requires BlockAgrees(m, c, occ) && c != b && j < BITS
    ensures BlockAgrees(m, c, occ + {b * BITS + j})
    ensures BlockAgrees(m, c, occ - {b * BITS + j})
  {
    forall k | 0 <= k < BITS
      ensures Bit(m, k) <==> c * BITS + k in occ + {b * BITS + j}
      ensures Bit(m, k) <==> c * BITS + k in occ - {b * BITS + j}
    {
      SlotsApart(c, k, b, j);
    }
  }

  /** Installing the new mask `m1` of block `b`, which records slot `b * BITS + j` as
      occupied, records that slot in the whole bitmap. */
  lemma SetSlot(ms: seq<bv64>, occ: set<nat>, len: nat, b: nat, j: nat, m1: bv64)
    requires SlotsAgree(ms, occ, len) && b < |ms| && j < BITS && b * BITS + j < len
    requires BlockAgrees(m1, b, occ + {b * BITS + j})
    ensures SlotsAgree(ms[b := m1], occ + {b * BITS + j}, len)
  {
    var ms1 := ms[b := m1];
    forall c | 0 <= c < |ms| && c != b
      ensures BlockAgrees(ms1[c], c, occ + {b * BITS + j})
    {
      KeepBlock(ms[c], c, occ, b, j);
    }
  }

  /** Installing the new mask `m1` of block `b`, which records slot `b * BITS + j` as
      vacant, removes that slot from the whole bitmap. */
  lemma ClearSlot(ms: seq<bv64>, occ: set<nat>, len: nat, b: nat, j: nat, m1: bv64)
    requires SlotsAgree(ms, occ, len) && b < |ms| && j < BITS
    requires BlockAgrees(m1, b, occ - {b * BITS + j})
    ensures SlotsAgree(ms[b := m1], occ - {b * BITS + j}, len)
  {
    var ms1 := ms[b := m1];
    forall c | 0 <= c < |ms| && c != b
      ensures BlockAgrees(ms1[c], c, occ - {b * BITS + j})
    {
      KeepBlock(ms[c], c, occ, b, j);
    }
  }

  /** A block wholly at or above `len` has an all-zero mask in agreement with `occ`. */
  lemma ZeroBlock(c: nat, occ: set<nat>, len: nat)
    requires (forall x :: x in occ ==> x < len) && len <= c * BITS
    ensures BlockAgrees(0, c, occ)
  {
    forall k | 0 <= k < BITS
      ensures !Bit(0, k)
    {
      ZeroBit(k);
    }
  }

  /** New blocks come with all-zero masks: growing the bitmap occupies nothing. */
  lemma GrowSlots(ms: seq<bv64>, occ: set<nat>, len: nat, newLen: nat, d: nat)
    requires SlotsAgree(ms, occ, len) && len <= newLen && len <= |ms| * BITS
    ensures SlotsAgree(ms + Fill(d, 0), occ, newLen)
  {
    var ms1 := ms + Fill(d, 0);
    forall c | 0 <= c < |ms1|
      ensures BlockAgrees(ms1[c], c, occ)
    {
      if c >= |ms| {
        assert c * BITS >= |ms| * BITS;
        ZeroBlock(c, occ, len);
      } else {
        assert ms1[c] == ms[c];
      }
    }
  }

  /** Every slot of a full block is occupied. */
  lemma FullBlockSlot(m: bv64, b: nat, occ: set<nat>, j: nat)
    requires BlockAgrees(m, b, occ) && m == FULL && j < BITS
    ensures b * BITS + j in occ
  {
    FullBit(j);
  }

  /** The slot indices `0 .. n - 1`. */
  function RangeSet(n: nat): (r: set<nat>)
    ensures |r| == n
    ensures forall x: nat :: x in r <==> x < n
  {
    if n == 0 then {} else RangeSet(n - 1) + {n - 1}
  }

  /** With the list empty and a slot vacant, the vacancy is in the last block. */
  lemma LastBlockVacancy(ms: seq<bv64>, occ: set<nat>, len: nat) returns (j: nat)
    requires Sized(ms, len) && SlotsAgree(ms, occ, len) && ListMembers(ms, len, []) && |occ| < len
    ensures |ms| > 0 && j < BITS && (|ms| - 1) * BITS + j < len && !Bit(ms[|ms| - 1], j)
  {
    var last := |ms| - 1;
    var m := ms[last];
    if forall k :: 0 <= k < BITS && last * BITS + k < len ==> Bit(m, k) {
      var all := RangeSet(len);
      forall x | x in all
        ensures x in occ
      {
        SlotSplit(x);
        var b := x / BITS;
        assert BlockAgrees(ms[b], b, occ);
        if b < last {
          assert ms[b] == FULL;
          FullBlockSlot(ms[b], b, occ, x % BITS);
        } else {
          assert Bit(m, x % BITS);
        }
      }
      SubsetSize(all, occ);
      assert false;
    }
    j :| 0 <= j < BITS && last * BITS + j < len && !Bit(m, j);
  }

  lemma {:induction false} SubsetSize(a: set<nat>, b: set<nat>)
    requires a <= b
    ensures |a| <= |b|
    decreases |a|
  {
    if a != {} {
      var x :| x in a;
      SubsetSize(a - {x}, b - {x});
    }
  }

  /** A vacant bit `j` bounds the lowest vacant bit from above. */
  lemma LowestVacantBelow(m: bv64, j: nat)
    requires j < BITS && !Bit(m, j)
    ensures m != FULL && TrailingZeros(!m) <= j
  {
    FullBit(j);
    ComplementBit(m, j);
  }

  /** The block `acquire` takes a slot from: the head block, or the last block when the list
      is empty. Whenever a slot is vacant that block exists and is not full. */
  lemma AcquireChoice(ms: seq<bv64>, nx: seq<nat>, pv: seq<nat>, len: nat, occ: set<nat>, count: nat,
                      head: nat, list: seq<nat>, block: nat)
    requires Consistent(ms, nx, pv, len, occ, count, head, list) && count < len
    requires block == if head == NIL then |ms| - 1 else head
    ensures block < |ms| && |nx| == |ms| && |pv| == |ms| && ms[block] != FULL
    ensures block == head ==> |list| > 0 && (nx[head] == NIL || nx[head] < |pv|)
  {
    Unseal(ms, nx, pv, len, occ, count, head, list);
    if block == head {
      assert nx[head] == Succ(list, 0);
    }
    if |list| == 0 {
      var j := LastBlockVacancy(ms, occ, len);
      FullBit(j);
    }
  }

  /** After `acquire` stores the new mask `m1` of the chosen block, the list still holds
      exactly the blocks it should once a block that became full is unlinked from the front. */
  lemma AcquireMembers(ms: seq<bv64>, len: nat, list: seq<nat>, block: nat, m1: bv64)
    requires ListMembers(ms, len, list) && Distinct(list) && block < |ms|
    requires if |list| == 0 then block == |ms| - 1 else block == list[0]
    ensures ListMembers(ms[block := m1], len, if |list| > 0 && m1 == FULL then list[1..] else list)
  {
    var ms1 := ms[block := m1];
    var list1 := if |list| > 0 && m1 == FULL then list[1..] else list;
    forall i | 0 <= i < |list1|
      ensures list1[i] < |ms1| && ms1[list1[i]] != FULL && (list1[i] + 1) * BITS <= len
    {
      if list1 != list {
        assert list1[i] == list[i + 1] != list[0];
      }
    }
    forall b | 0 <= b < |ms1| - 1 && ms1[b] != FULL
      ensures b in list1
    {
      if b != block {
        assert b in list;
        var i :| 0 <= i < |list| && list[i] == b;
        if list1 != list {
          assert list1[i - 1] == b;
        }
      } else {
        assert list[0] in list;
      }
    }
  }

  /** After `release` clears a bit of block `b`, leaving it with mask `m1`, the list holds
      exactly the blocks it should once a block that was full is linked in front. */
  lemma ReleaseMembers(ms: seq<bv64>, len: nat, list: seq<nat>, b: nat, m1: bv64)
    requires ListMembers(ms, len, list) && b < |ms| && m1 != FULL
    requires ms[b] == FULL ==> (b + 1) * BITS <= len
    ensures ms[b] == FULL ==> b !in list
    ensures ListMembers(ms[b := m1], len, if ms[b] == FULL then [b] + list else list)
  {
    var ms1 := ms[b := m1];
    var list1 := if ms[b] == FULL then [b] + list else list;
    forall i | 0 <= i < |list1|
      ensures list1[i] < |ms1| && ms1[list1[i]] != FULL && (list1[i] + 1) * BITS <= len
    {
      if list1 != list && i > 0 {
        assert list1[i] == list[i - 1];
      }
    }
    forall c | 0 <= c < |ms1| - 1 && ms1[c] != FULL
      ensures c in list1
    {
      if c != b {
        assert c in list;
      }
    }
  }

  /** The block `resize` splices onto the list: the old last block, when it is not full and
      not on the list already. */
  ghost function Spliced(ms: seq<bv64>, list: seq<nat>): seq<nat>
  {
    if |ms| > 0 && ms[|ms| - 1] != FULL && |ms| - 1 !in list then [|ms| - 1] + list else list
  }

  /** After `resize` adds `d` blocks, the list (the new blocks but the last, the spliced old
      tail, the old list) holds exactly the blocks it should. */
  lemma ResizeMembers(ms: seq<bv64>, len: nat, list: seq<nat>, newLen: nat, d: nat)
    requires ListMembers(ms, len, list) && len <= newLen && d >= 1 && (|ms| + d - 1) * BITS < newLen
    ensures ListMembers(ms + Fill(d, 0), newLen, Range(|ms|, |ms| + d - 1) + Spliced(ms, list))
  {
    var n := |ms|;
    var ms1 := ms + Fill(d, 0);
    var sp := Spliced(ms, list);
    var list1 := Range(n, n + d - 1) + sp;
    forall i | 0 <= i < |list1|
      ensures list1[i] < |ms1| && ms1[list1[i]] != FULL && (list1[i] + 1) * BITS <= newLen
    {
      if i < d - 1 {
        assert list1[i] == n + i;
        assert (n + i + 1) * BITS <= (n + d - 1) * BITS;
      } else {
        var x := sp[i - (d - 1)];
        assert list1[i] == x;
        if sp != list && i == d - 1 {
          assert x == n - 1;
        } else {
          var k := if sp == list then i - (d - 1) else i - d;
          assert x == list[k];
        }
        assert ms1[x] == ms[x];
      }
    }
    forall c | 0 <= c < |ms1| - 1 && ms1[c] != FULL
      ensures c in list1
    {
      ChainMember(sp, n, n + d - 1, c);
      if c < n {
        assert ms1[c] == ms[c];
        if c < n - 1 {
          assert c in list;
        }
        if c in list && sp != list {
          var i :| 0 <= i < |list| && list[i] == c;
          assert sp[i + 1] == c;
        }
        if c == n - 1 && sp != list {
          assert sp[0] == c;
        }
      }
    }
  }

  /** The invariant of a bitmap, on the values of its fields: the masks cover `len` slots
      and record exactly the occupied ones, `count` counts them, and the links thread
      exactly the blocks of `list`, which are the blocks with a vacant slot. */
  ghost predicate Coherent(ms: seq<bv64>, nx: seq<nat>, pv: seq<nat>, len: nat,
                             occ: set<nat>, count: nat, head: nat, list: seq<nat>)
  {
    Sized(ms, len) && SlotsAgree(ms, occ, len) && count == |occ| && |nx| == |ms| &&
    ListShape(nx, pv, head, list) && ListMembers(ms, len, list)
  }

  /** `Coherent`, reached through `depth` unfoldings. It equals `Coherent` at every depth
      (`SealedAny`); at a depth that is not a literal the verifier does not unfold it unaided,
      so proofs about the bitmap's fields handle the invariant as one fact and open it only
      through `Unseal`. */
  ghost predicate Sealed(depth: nat, ms: seq<bv64>, nx: seq<nat>, pv: seq<nat>, len: nat,
                         occ: set<nat>, count: nat, head: nat, list: seq<nat>)
    decreases depth
  {
    if depth == 0 then Coherent(ms, nx, pv, len, occ, count, head, list) else Sealed(depth - 1, ms, nx, pv, len, occ, count, head, list)
  }

  /** The invariant of a bitmap as its class states it: the sizes and the head of the list in
      the open, and `Coherent` sealed at depth `len`. */
  ghost predicate Consistent(ms: seq<bv64>, nx: seq<nat>, pv: seq<nat>, len: nat,
                      occ: set<nat>, count: nat, head: nat, list: seq<nat>)
  {
    Sized(ms, len) && |nx| == |ms| && |pv| == |ms| &&
    (head == NIL <==> |list| == 0) && (head != NIL ==> head < |ms|) &&
    Sealed(len, ms, nx, pv, len, occ, count, head, list)
  }

  lemma SealedAny(depth: nat, ms: seq<bv64>, nx: seq<nat>, pv: seq<nat>, len: nat,
                      occ: set<nat>, count: nat, head: nat, list: seq<nat>)
    ensures Sealed(depth, ms, nx, pv, len, occ, count, head, list) == Coherent(ms, nx, pv, len, occ, count, head, list)
    decreases depth
  {
    if depth > 0 {
      SealedAny(depth - 1, ms, nx, pv, len, occ, count, head, list);
    }
  }

  lemma Unseal(ms: seq<bv64>, nx: seq<nat>, pv: seq<nat>, len: nat,
                      occ: set<nat>, count: nat, head: nat, list: seq<nat>)
    requires Consistent(ms, nx, pv, len, occ, count, head, list)
    ensures Coherent(ms, nx, pv, len, occ, count, head, list)
  {
    SealedAny(len, ms, nx, pv, len, occ, count, head, list);
  }

  lemma Seal(ms: seq<bv64>, nx: seq<nat>, pv: seq<nat>, len: nat,
                      occ: set<nat>, count: nat, head: nat, list: seq<nat>)
    requires Coherent(ms, nx, pv, len, occ, count, head, list)
    ensures Consistent(ms, nx, pv, len, occ, count, head, list)
  {
    SealedAny(len, ms, nx, pv, len, occ, count, head, list);
  }

  /** Every occupied slot is below `len`, and `count` counts them, so it is at most `len`. */
  lemma ConsistentCount(ms: seq<bv64>, nx: seq<nat>, pv: seq<nat>, len: nat,
                      occ: set<nat>, count: nat, head: nat, list: seq<nat>)
    requires Consistent(ms, nx, pv, len, occ, count, head, list)
    ensures forall x :: x in occ ==> x < len
    ensures count == |occ| && count <= len
  {
    Unseal(ms, nx, pv, len, occ, count, head, list);
    OccupiedBound(occ, len);
  }

  /** Slot `x` is occupied exactly when its block exists and its bit is set. */
  lemma ConsistentSlot(ms: seq<bv64>, nx: seq<nat>, pv: seq<nat>, len: nat,
                      occ: set<nat>, count: nat, head: nat, list: seq<nat>, x: nat)
    requires Consistent(ms, nx, pv, len, occ, count, head, list)
    ensures x in occ <==> x / BITS < |ms| && Bit(ms[x / BITS], x % BITS)
  {
    Unseal(ms, nx, pv, len, occ, count, head, list);
    SlotAt(ms, occ, len, x);
  }

  /** A bitmap without slots is consistent. */
  lemma EmptyConsistent()
    ensures Consistent([], [], [], 0, {}, 0, NIL, [])
  {
    Seal([], [], [], 0, {}, 0, NIL, []);
  }

  /** A bitmap never records more occupied slots than it has. */
  lemma OccupiedBound(occ: set<nat>, len: nat)
    requires forall x :: x in occ ==> x < len
    ensures |occ| <= len
  {
    SubsetSize(occ, RangeSet(len));
  }

  /** The slot `acquire` takes: with `m` the mask of `block` and `off` its lowest vacant
      bit, slot `block * BITS + off` is vacant and below `len`, every slot of the block below
      it is occupied, and setting the bit records the slot as occupied. */
  lemma AcquireSlot(ms: seq<bv64>, nx: seq<nat>, pv: seq<nat>, len: nat, occ: set<nat>, count: nat,
                    head: nat, list: seq<nat>, block: nat, m: bv64, off: nat, m1: bv64)
    requires Consistent(ms, nx, pv, len, occ, count, head, list) && count < len
    requires block == if head == NIL then |ms| - 1 else head
    requires block < |ms| && m == ms[block]
    requires SealedLowest(off, m, off, m1)
    ensures block * BITS + off < len && block * BITS + off !in occ
    ensures forall x :: block * BITS <= x < block * BITS + off ==> x in occ
    ensures BlockAgrees(m1, block, occ + {block * BITS + off})
  {
    Unseal(ms, nx, pv, len, occ, count, head, list);
    SealedLowestAny(off, m, off, m1);
    if |list| == 0 {
      var j := LastBlockVacancy(ms, occ, len);
      assert off <= j by {
        if j < off {
          assert false;
        }
      }
    } else {
      assert list[0] < |ms| && (list[0] + 1) * BITS <= len;
    }
    assert BlockAgrees(ms[block], block, occ);
    SetBlock(m, block, off, occ);
    forall x | block * BITS <= x < block * BITS + off
      ensures x in occ
    {
      assert Bit(m, x - block * BITS);
    }
  }

  /** The values after `acquire` stores mask `m1`, which records slot `slot` as occupied,
      in `block` and unlinks the head block if it became full are consistent. */
  lemma AcquireCoherent(ms: seq<bv64>, nx: seq<nat>, pv: seq<nat>, len: nat, occ: set<nat>, count: nat,
                        head: nat, list: seq<nat>, block: nat, slot: nat, m1: bv64,
                        pv1: seq<nat>, head1: nat, list1: seq<nat>)
    requires Consistent(ms, nx, pv, len, occ, count, head, list)
    requires block == if head == NIL then |ms| - 1 else head
    requires block < |ms| && block * BITS <= slot < block * BITS + BITS && slot < len && slot !in occ
    requires BlockAgrees(m1, block, occ + {slot})
    requires block == head && m1 == FULL ==>
      head < |nx| && (nx[head] == NIL || nx[head] < |pv|) && pv1 == LinkPrev(pv, NIL, nx[head]) && head1 == nx[head] && list1 == list[1..]
    requires !(block == head && m1 == FULL) ==> pv1 == pv && head1 == head && list1 == list
    ensures Consistent(ms[block := m1], nx, pv1, len, occ + {slot}, count + 1, head1, list1)
  {
    Unseal(ms, nx, pv, len, occ, count, head, list);
    if block == head {
      assert nx[head] == Succ(list, 0);
    }
    SetSlot(ms, occ, len, block, slot - block * BITS, m1);
    AcquireMembers(ms, len, list, block, m1);
    if block == head && m1 == FULL {
      PopFrontShape(nx, pv, head, list);
    }
    Seal(ms[block := m1], nx, pv1, len, occ + {slot}, count + 1, head1, list1);
  }

  /** One `acquire` on consistent values: `block` is the head block, or the last block when
      the list is empty, `m` is its mask and `off` its lowest vacant bit. Slot
      `block * BITS + off` is vacant and below `len`, and storing `m1` (the mask with that
      bit set) in the block, then unlinking the head block if it became full, gives
      consistent values again. */
  lemma AcquireStep(ms: seq<bv64>, nx: seq<nat>, pv: seq<nat>, len: nat, occ: set<nat>, count: nat,
                    head: nat, list: seq<nat>, block: nat, m: bv64, off: nat, m1: bv64)
    returns (pv1: seq<nat>, occ1: set<nat>, head1: nat, list1: seq<nat>)
    requires Consistent(ms, nx, pv, len, occ, count, head, list) && count < len
    requires block == if head == NIL then |ms| - 1 else head
    requires block < |ms| ==> m == ms[block]
    requires off < BITS && SealedLowest(off, m, off, m1)
    ensures block < |ms| && block * BITS + off < len && block * BITS + off !in occ
    ensures forall x :: block * BITS <= x < block * BITS + off ==> x in occ
    ensures occ1 == occ + {block * BITS + off}
    ensures block == head ==> head < |nx| && |list| > 0
    ensures block == head && m1 == FULL ==>
      (nx[head] == NIL || nx[head] < |pv|) && pv1 == LinkPrev(pv, NIL, nx[head]) &&
      head1 == nx[head] && list1 == list[1..]
    ensures !(block == head && m1 == FULL) ==> pv1 == pv && head1 == head && list1 == list
    ensures Consistent(ms[block := m1], nx, pv1, len, occ1, count + 1, head1, list1)
  {
    AcquireChoice(ms, nx, pv, len, occ, count, head, list, block);
    AcquireSlot(ms, nx, pv, len, occ, count, head, list, block, m, off, m1);
    var slot := block * BITS + off;
    var popped := block == head && m1 == FULL;
    pv1 := if popped then LinkPrev(pv, NIL, nx[head]) else pv;
    occ1 := occ + {slot};
    head1 := if popped then nx[head] else head;
    list1 := if popped then list[1..] else list;
    AcquireCoherent(ms, nx, pv, len, occ, count, head, list, block, slot, m1, pv1, head1, list1);
  }

  /** The slot `release` vacates is below `len`, so its block exists, and the bitmap counts
      at least that one occupied slot. */
  lemma ReleaseChoice(ms: seq<bv64>, nx: seq<nat>, pv: seq<nat>, len: nat, occ: set<nat>, count: nat,
                      head: nat, list: seq<nat>, index: nat)
    requires Consistent(ms, nx, pv, len, occ, count, head, list) && index in occ
    ensures index < len && index / BITS < |ms| && |nx| == |ms| && |pv| == |ms| && count > 0
  {
    Unseal(ms, nx, pv, len, occ, count, head, list);
    SlotAt(ms, occ, len, index);
  }

  /** Toggling the bit of an occupied slot, whose mask is `m`, vacates exactly that slot and
      leaves a mask that is not full; a block that was full lies wholly below `len`. */
  lemma ReleaseSlot(ms: seq<bv64>, nx: seq<nat>, pv: seq<nat>, len: nat, occ: set<nat>, count: nat,
                    head: nat, list: seq<nat>, index: nat, m: bv64, m1: bv64)
    requires Consistent(ms, nx, pv, len, occ, count, head, list) && index in occ
    requires index / BITS < |ms| && m == ms[index / BITS]
    requires SealedToggle(index % BITS, m, index % BITS, m1)
    ensures m1 != FULL
    ensures BlockAgrees(m1, index / BITS, occ - {index})
    ensures m == FULL ==> (index / BITS + 1) * BITS <= len
  {
    Unseal(ms, nx, pv, len, occ, count, head, list);
    SlotSplit(index);
    var b, j := index / BITS, index % BITS;
    assert BlockAgrees(ms[b], b, occ);
    VacateBlock(m, b, j, occ, m1);
  }

  /** Toggling the set bit `j` of mask `m`, which agrees with `occ` on block `b`, vacates
      exactly slot `b * BITS + j`; the result is not full, and a block that was full has
      its last slot occupied. */
  lemma VacateBlock(m: bv64, b: nat, j: nat, occ: set<nat>, m1: bv64)
    requires BlockAgrees(m, b, occ) && b * BITS + j in occ && SealedToggle(j, m, j, m1)
    ensures m1 != FULL && BlockAgrees(m1, b, occ - {b * BITS + j})
    ensures m == FULL ==> b * BITS + (BITS - 1) in occ
  {
    SealedToggleAny(j, m, j, m1);
    ClearBlock(m, b, j, occ);
    FlipBit(m, j, j);
    FullBit(j);
    if m == FULL {
      FullBlockSlot(m, b, occ, BITS - 1);
    }
  }

  /** The values after `release` links a block that was full in front of the list and
      stores its new mask `m1`, which records slot `index` as vacant, are consistent. */
  lemma ReleaseCoherent(ms: seq<bv64>, nx: seq<nat>, pv: seq<nat>, len: nat, occ: set<nat>, count: nat,
                        head: nat, list: seq<nat>, index: nat, m1: bv64,
                        nx1: seq<nat>, pv1: seq<nat>, head1: nat, list1: seq<nat>)
    requires Consistent(ms, nx, pv, len, occ, count, head, list) && index in occ && count > 0
    requires index / BITS < |ms| && m1 != FULL && BlockAgrees(m1, index / BITS, occ - {index})
    requires ms[index / BITS] == FULL ==> (index / BITS + 1) * BITS <= len
    requires var b := index / BITS; ms[b] == FULL ==>
      (head == NIL || head < |pv|) &&
      nx1 == LinkNext(nx, b, head) && pv1 == LinkPrev(LinkPrev(pv, NIL, b), b, head) &&
      head1 == b && list1 == [b] + list
    requires ms[index / BITS] != FULL ==> nx1 == nx && pv1 == pv && head1 == head && list1 == list
    ensures Consistent(ms[index / BITS := m1], nx1, pv1, len, occ - {index}, count - 1, head1, list1)
  {
    Unseal(ms, nx, pv, len, occ, count, head, list);
    SlotSplit(index);
    var b, j := index / BITS, index % BITS;
    ClearSlot(ms, occ, len, b, j, m1);
    ReleaseMembers(ms, len, list, b, m1);
    if ms[b] == FULL {
      PushFrontShape(nx, pv, head, list, b);
    }
    Seal(ms[b := m1], nx1, pv1, len, occ - {index}, count - 1, head1, list1);
  }

  /** One `release` of the occupied slot `index` on consistent values: `m` is the mask of
      its block and `m1` that mask with the slot's bit toggled. A block that was full is
      linked in front of the list, and storing `m1` gives consistent values again. */
  lemma ReleaseStep(ms: seq<bv64>, nx: seq<nat>, pv: seq<nat>, len: nat, occ: set<nat>, count: nat,
                    head: nat, list: seq<nat>, index: nat, m: bv64, m1: bv64)
    returns (nx1: seq<nat>, pv1: seq<nat>, occ1: set<nat>, head1: nat, list1: seq<nat>)
    requires Consistent(ms, nx, pv, len, occ, count, head, list) && index in occ
    requires index / BITS < |ms| ==> m == ms[index / BITS]
    requires SealedToggle(index % BITS, m, index % BITS, m1)
    ensures index < len && index / BITS < |ms| && count > 0
    ensures occ1 == occ - {index}
    ensures var b := index / BITS; m == FULL ==>
      (head == NIL || head < |pv|) &&
      nx1 == LinkNext(nx, b, head) && pv1 == LinkPrev(LinkPrev(pv, NIL, b), b, head) &&
      head1 == b && list1 == [b] + list
    ensures m != FULL ==> nx1 == nx && pv1 == pv && head1 == head && list1 == list
    ensures Consistent(ms[index / BITS := m1], nx1, pv1, len, occ1, count - 1, head1, list1)
  {
    ReleaseChoice(ms, nx, pv, len, occ, count, head, list, index);
    ReleaseSlot(ms, nx, pv, len, occ, count, head, list, index, m, m1);
    var b := index / BITS;
    var pushed := m == FULL;
    nx1 := if pushed then LinkNext(nx, b, head) else nx;
    pv1 := if pushed then LinkPrev(LinkPrev(pv, NIL, b), b, head) else pv;
    occ1 := occ - {index};
    head1 := if pushed then b else head;
    list1 := if pushed then [b] + list else list;
    ReleaseCoherent(ms, nx, pv, len, occ, count, head, list, index, m1, nx1, pv1, head1, list1);
  }

  /** When `resize` keeps the number of blocks, only `len` changes, and the values stay
      consistent. */
  lemma ResizeSame(ms: seq<bv64>, nx: seq<nat>, pv: seq<nat>, len: nat, occ: set<nat>, count: nat,
                   head: nat, list: seq<nat>, newLen: nat)
    requires Consistent(ms, nx, pv, len, occ, count, head, list)
    requires len <= newLen && newLen + BITS - 1 <= USIZE_MAX && BlocksFor(newLen) == |ms|
    ensures Consistent(ms, nx, pv, newLen, occ, count, head, list)
  {
    Unseal(ms, nx, pv, len, occ, count, head, list);
    Seal(ms, nx, pv, newLen, occ, count, head, list);
  }

  /** `resize` splices the old last block onto the front of the list when it has a vacant
      slot and is not linked already: it is neither the head nor has a predecessor. */
  predicate SpliceWanted(ms: seq<bv64>, pv: seq<nat>, head: nat)
    requires |pv| == |ms|
  {
    |ms| > 0 && ms[|ms| - 1] != FULL && |ms| - 1 != head && pv[|ms| - 1] == NIL
  }

  /** The splice of `resize` on consistent values: linking the old last block in front of
      the list when `SpliceWanted` gives a list shaped as `Spliced` says. */
  lemma ResizeSplice(ms: seq<bv64>, nx: seq<nat>, pv: seq<nat>, len: nat, occ: set<nat>, count: nat,
                     head: nat, list: seq<nat>, nxS: seq<nat>, pvS: seq<nat>, headS: nat)
    requires Consistent(ms, nx, pv, len, occ, count, head, list)
    requires SpliceWanted(ms, pv, head) ==>
      (head == NIL || head < |pv|) && nxS == LinkNext(nx, |ms| - 1, head) &&
      pvS == LinkPrev(LinkPrev(pv, NIL, |ms| - 1), |ms| - 1, head) && headS == |ms| - 1
    requires !SpliceWanted(ms, pv, head) ==> nxS == nx && pvS == pv && headS == head
    ensures Spliced(ms, list) == if SpliceWanted(ms, pv, head) then [|ms| - 1] + list else list
    ensures |nxS| == |ms| && Bounded(Spliced(ms, list), |ms|)
    ensures ListShape(nxS, pvS, headS, Spliced(ms, list))
  {
    Unseal(ms, nx, pv, len, occ, count, head, list);
    if |ms| > 0 {
      LinkedIff(nx, pv, head, list, |ms| - 1);
    }
    if SpliceWanted(ms, pv, head) {
      PushFrontShape(nx, pv, head, list, |ms| - 1);
    }
  }

  /** Growing the links by `d` unlinked blocks, then, when `d >= 2`, threading all new
      blocks but the last in front of the list keeps a well-formed list. */
  lemma ResizeLinks(nx: seq<nat>, pv: seq<nat>, head: nat, list: seq<nat>, d: nat,
                    nx1: seq<nat>, pv1: seq<nat>, head1: nat)
    requires ListShape(nx, pv, head, list) && Bounded(list, |nx|) && d >= 1 && |nx| + d < NIL
    requires var n := |nx|;
      if d >= 2 then
        nx1 == ChainedNext(nx + Fill(d, NIL), head, n, n + d - 1) &&
        pv1 == ChainedPrev(pv + Fill(d, NIL), head, n, n + d - 1) && head1 == n
      else
        nx1 == nx + Fill(d, NIL) && pv1 == pv + Fill(d, NIL) && head1 == head
    ensures ListShape(nx1, pv1, head1, Range(|nx|, |nx| + d - 1) + list)
  {
    var n := |nx|;
    GrowShape(nx, pv, head, list, d);
    if d >= 2 {
      ChainShape(nx + Fill(d, NIL), pv + Fill(d, NIL), head, list, n, n + d - 1, nx1, pv1);
    } else {
      assert Range(n, n + d - 1) + list == list;
    }
  }

  /** After `resize` adds `d >= 1` blocks with zero masks, the masks still record exactly
      the occupied slots and the resized list holds exactly the blocks it should, so links
      `nx1`, `pv1` and `head1` that thread that list make the values consistent. */
  lemma ResizeSlots(ms: seq<bv64>, nx: seq<nat>, pv: seq<nat>, len: nat, occ: set<nat>, count: nat,
                    head: nat, list: seq<nat>, newLen: nat, d: nat,
                    nx1: seq<nat>, pv1: seq<nat>, head1: nat)
    requires Consistent(ms, nx, pv, len, occ, count, head, list)
    requires len <= newLen && newLen + BITS - 1 <= USIZE_MAX && d >= 1 && BlocksFor(newLen) == |ms| + d
    requires |nx1| == |ms| + d && ListShape(nx1, pv1, head1, Range(|ms|, |ms| + d - 1) + Spliced(ms, list))
    ensures Consistent(ms + Fill(d, 0), nx1, pv1, newLen, occ, count, head1, Range(|ms|, |ms| + d - 1) + Spliced(ms, list))
  {
    Unseal(ms, nx, pv, len, occ, count, head, list);
    GrowSlots(ms, occ, len, newLen, d);
    ResizeMembers(ms, len, list, newLen, d);
    Seal(ms + Fill(d, 0), nx1, pv1, newLen, occ, count, head1, Range(|ms|, |ms| + d - 1) + Spliced(ms, list));
  }

  /** The links `resize` produces when it adds blocks, the splice (`ResizeSplice`) and then
      growing and threading (`ResizeLinks`), form the list of the new blocks but the last
      followed by the spliced old list. */
  lemma ResizeShape(ms: seq<bv64>, nx: seq<nat>, pv: seq<nat>, len: nat, occ: set<nat>, count: nat,
                    head: nat, list: seq<nat>, newLen: nat,
                    nxS: seq<nat>, pvS: seq<nat>, headS: nat, nx1: seq<nat>, pv1: seq<nat>, head1: nat)
    requires Consistent(ms, nx, pv, len, occ, count, head, list)
    requires newLen + BITS - 1 <= USIZE_MAX && |ms| < BlocksFor(newLen)
    requires SpliceWanted(ms, pv, head) ==>
      (head == NIL || head < |pv|) && nxS == LinkNext(nx, |ms| - 1, head) &&
      pvS == LinkPrev(LinkPrev(pv, NIL, |ms| - 1), |ms| - 1, head) && headS == |ms| - 1
    requires !SpliceWanted(ms, pv, head) ==> nxS == nx && pvS == pv && headS == head
    requires var n := |ms|; var d := BlocksFor(newLen) - n;
      |nxS| == |pvS| == n &&
      if d >= 2 then
        nx1 == ChainedNext(nxS + Fill(d, NIL), headS, n, n + d - 1) &&
        pv1 == ChainedPrev(pvS + Fill(d, NIL), headS, n, n + d - 1) && head1 == n
      else
        nx1 == nxS + Fill(d, NIL) && pv1 == pvS + Fill(d, NIL) && head1 == headS
    ensures Spliced(ms, list) == if SpliceWanted(ms, pv, head) then [|ms| - 1] + list else list
    ensures ListShape(nx1, pv1, head1, Range(|ms|, BlocksFor(newLen) - 1) + Spliced(ms, list))
  {
    ResizeSplice(ms, nx, pv, len, occ, count, head, list, nxS, pvS, headS);
    ResizeLinks(nxS, pvS, headS, Spliced(ms, list), BlocksFor(newLen) - |ms|, nx1, pv1, head1);
  }

  /** The values `resize` produces when it adds blocks are consistent for `newLen` slots:
      the splice (`ResizeSplice`), then growing and threading the links (`ResizeLinks`),
      with zero masks for the new blocks. */
  lemma ResizeCoherent(ms: seq<bv64>, nx: seq<nat>, pv: seq<nat>, len: nat, occ: set<nat>, count: nat,
                       head: nat, list: seq<nat>, newLen: nat,
                       nxS: seq<nat>, pvS: seq<nat>, headS: nat, nx1: seq<nat>, pv1: seq<nat>, head1: nat)
    requires Consistent(ms, nx, pv, len, occ, count, head, list)
    requires len <= newLen && newLen + BITS - 1 <= USIZE_MAX && |ms| < BlocksFor(newLen)
    requires SpliceWanted(ms, pv, head) ==>
      (head == NIL || head < |pv|) && nxS == LinkNext(nx, |ms| - 1, head) &&
      pvS == LinkPrev(LinkPrev(pv, NIL, |ms| - 1), |ms| - 1, head) && headS == |ms| - 1
    requires !SpliceWanted(ms, pv, head) ==> nxS == nx && pvS == pv && headS == head
    requires var n := |ms|; var d := BlocksFor(newLen) - n;
      |nxS| == |pvS| == n &&
      if d >= 2 then
        nx1 == ChainedNext(nxS + Fill(d, NIL), headS, n, n + d - 1) &&
        pv1 == ChainedPrev(pvS + Fill(d, NIL), headS, n, n + d - 1) && head1 == n
      else
        nx1 == nxS + Fill(d, NIL) && pv1 == pvS + Fill(d, NIL) && head1 == headS
    ensures Spliced(ms, list) == if SpliceWanted(ms, pv, head) then [|ms| - 1] + list else list
    ensures Consistent(ms + Fill(BlocksFor(newLen) - |ms|, 0), nx1, pv1, newLen, occ, count, head1,
                       Range(|ms|, BlocksFor(newLen) - 1) + Spliced(ms, list))
  {
    var n := |ms|;
    var d := BlocksFor(newLen) - n;
    ResizeShape(ms, nx, pv, len, occ, count, head, list, newLen, nxS, pvS, headS, nx1, pv1, head1);
    ResizeSlots(ms, nx, pv, len, occ, count, head, list, newLen, d, nx1, pv1, head1);
  }

  /** An iterator with cursor `cursor` has yielded, in strictly ascending order, exactly the
      occupied slots below the cursor. */
  ghost predicate Scanned(occ: set<nat>, yielded: seq<nat>, cursor: nat)
  {
    (forall k :: 0 <= k < |yielded| ==> yielded[k] in occ && yielded[k] < cursor) &&
    (forall k, l :: 0 <= k < l < |yielded| ==> yielded[k] < yielded[l]) &&
    (forall x :: x in occ && x < cursor ==> x in yielded)
  }

  /** Moving the cursor over vacant slots yields nothing and keeps `Scanned`. */
  lemma ScanSkip(occ: set<nat>, yielded: seq<nat>, start: nat, cursor: nat)
    requires Scanned(occ, yielded, start) && start <= cursor
    requires forall x :: start <= x < cursor ==> x !in occ
    ensures Scanned(occ, yielded, cursor)
  {
  }

  /** Yielding the first occupied slot at or above the cursor keeps `Scanned`. */
  lemma ScanYield(occ: set<nat>, yielded: seq<nat>, start: nat, index: nat)
    requires Scanned(occ, yielded, start) && start <= index && index in occ
    requires forall x :: start <= x < index ==> x !in occ
    ensures Scanned(occ, yielded + [index], index + 1)
  {
    var y := yielded + [index];
    forall x | x in occ && x < index + 1
      ensures x in y
    {
      if x < start {
        assert x in yielded;
        var k :| 0 <= k < |yielded| && yielded[k] == x;
        assert y[k] == x;
      } else {
        assert y[|yielded|] == x;
      }
    }
  }
}
