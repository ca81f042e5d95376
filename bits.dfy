/** Bit-level facts about the 64-bit occupancy masks of the arena's bitmap: single-bit
    masks, flipping and complementing a bit, and `trailing_zeros`. */
module Bits {

  /** Number of bits in one `usize`, and so the number of slots per block. */
  const BITS: nat := 64

  /** Largest value of a `usize`. */
  const USIZE_MAX: nat := 0xFFFF_FFFF_FFFF_FFFF

  /** The "no block" sentinel `!0` used by the links and by `head`. */
  const NIL: nat := USIZE_MAX

  /** A mask whose every slot is occupied (`!0`). */
  const FULL: bv64 := 0xFFFF_FFFF_FFFF_FFFF

  /** Bit position `k` as a value of the mask's own width (`k as usize`). */
  function Pos(k: nat): bv64
    requires k <= BITS
  {
    if k == 0 then 0 else Pos(k - 1) + 1
  }

  lemma {:induction false} PosValue(k: nat)
    requires k <= BITS
    ensures Pos(k) as int == k && Pos(k) <= 64
    ensures k < BITS ==> Pos(k) < 64
  {
    if k > 0 {
      PosValue(k - 1);
    }
  }

  lemma PosInjective(k: nat, o: nat)
    requires k <= BITS && o <= BITS
    ensures Pos(k) == Pos(o) <==> k == o
  {
    PosValue(k);
    PosValue(o);
  }

  /** `Pos(k)`, bounded so that it can stand as a shift amount. */
  function ShiftAmount(k: nat): (r: bv64)
    requires k <= BITS
    ensures r == Pos(k) && r <= 64
  {
    PosValue(k);
    Pos(k)
  }

  lemma AmountBelow(k: nat)
    requires k < BITS
    ensures ShiftAmount(k) < 64
  {
    PosValue(k);
  }

  lemma AmountInjective(k: nat, o: nat)
    requires k <= BITS && o <= BITS
    ensures ShiftAmount(k) == ShiftAmount(o) <==> k == o
  {
    PosInjective(k, o);
  }

  lemma PosWidthAt(p: bv64)
    requires p as int == 64
    ensures p == 64
  {
  }

  /** The mask with only bit `k` set: `1 << k`. */
  function Single(k: nat): bv64
    requires k < BITS
  {
    1 << ShiftAmount(k)
  }

  /** Bit `k` of mask `m` is set. */
  predicate Bit(m: bv64, k: nat)
    requires k < BITS
  {
    m & Single(k) != 0
  }

  lemma FlipBitAt(m: bv64, o: bv64, k: bv64)
    requires o < 64 && k < 64
    ensures (m ^ (1 << o)) & (1 << k) != 0 <==> if k == o then m & (1 << k) == 0 else m & (1 << k) != 0
  {
  }

  /** Toggling bit `o` (`m ^ (1 << o)`) changes bit `o` and no other bit. */
  lemma FlipBit(m: bv64, o: nat, k: nat)
    requires o < BITS && k < BITS
    ensures Bit(m ^ Single(o), k) == if k == o then !Bit(m, k) else Bit(m, k)
  {
    AmountBelow(o);
    AmountBelow(k);
    AmountInjective(k, o);
    FlipBitAt(m, ShiftAmount(o), ShiftAmount(k));
  }

  lemma ComplementBitAt(m: bv64, k: bv64)
    requires k < 64
    ensures (!m) & (1 << k) != 0 <==> m & (1 << k) == 0
  {
  }

  lemma ComplementBit(m: bv64, k: nat)
    requires k < BITS
    ensures Bit(!m, k) == !Bit(m, k)
  {
    AmountBelow(k);
    ComplementBitAt(m, ShiftAmount(k));
  }

  lemma FullBit(k: nat)
    requires k < BITS
    ensures Bit(FULL, k)
  {
    PosValue(k);
  }

  lemma ZeroBit(k: nat)
    requires k < BITS
    ensures !Bit(0, k)
  {
  }

  lemma FullShiftSplitAt(p: bv64)
    requires p < 64
    ensures (0xFFFF_FFFF_FFFF_FFFF as bv64) << p == (1 << p) | ((0xFFFF_FFFF_FFFF_FFFF as bv64) << (p + 1))
  {
  }

  lemma FullShiftEndAt(p: bv64)
    requires p == 64
    ensures (0xFFFF_FFFF_FFFF_FFFF as bv64) << p == 0
  {
  }

  /** The mask with every bit from position `k` upwards set, built one bit at a time. */
  function HighMask(k: nat): bv64
    requires k <= BITS
    decreases BITS - k
  {
    if k == BITS then 0 else Single(k) | HighMask(k + 1)
  }

  lemma {:induction false} HighMaskShift(k: nat)
    requires k <= BITS
    ensures HighMask(k) == FULL << ShiftAmount(k)
    decreases BITS - k
  {
    PosValue(k);
    if k == BITS {
      PosWidthAt(Pos(k));
      FullShiftEndAt(Pos(k));
    } else {
      HighMaskShift(k + 1);
      PosValue(k + 1);
      FullShiftSplitAt(Pos(k));
    }
  }

  lemma AndDistributesAt(x: bv64, a: bv64, b: bv64)
    ensures x & (a | b) == (x & a) | (x & b)
  {
  }

  lemma OrZerosAt(p: bv64, q: bv64)
    requires p == 0 && q == 0
    ensures p | q == 0
  {
  }

  lemma AndFullAt(x: bv64)
    ensures x & FULL == x
  {
  }

  lemma {:induction false} ClearFrom(x: bv64, k: nat)
    requires k <= BITS
    requires forall j :: k <= j < BITS ==> !Bit(x, j)
    ensures x & HighMask(k) == 0
    decreases BITS - k
  {
    if k < BITS {
      ClearFrom(x, k + 1);
      AndDistributesAt(x, Single(k), HighMask(k + 1));
      assert !Bit(x, k);
      OrZerosAt(x & Single(k), x & HighMask(k + 1));
    }
  }

  /** A mask none of whose 64 bits is set is zero. */
  lemma AllClear(x: bv64)
    requires forall j :: 0 <= j < BITS ==> !Bit(x, j)
    ensures x == 0
  {
    ClearFrom(x, 0);
    HighMaskShift(0);
    PosValue(0);
    AndFullAt(x);
  }

  lemma NotNotAt(m: bv64)
    ensures !!m == m && (m == FULL <==> !m == 0)
  {
  }

  /** A mask is `!0` exactly when every one of its bits is set. */
  lemma FullIff(m: bv64)
    ensures m == FULL <==> forall j :: 0 <= j < BITS ==> Bit(m, j)
  {
    if forall j :: 0 <= j < BITS ==> Bit(m, j) {
      var c := !m;
      forall j | 0 <= j < BITS
        ensures !Bit(c, j)
      {
        ComplementBit(m, j);
      }
      AllClear(c);
      NotNotAt(m);
    }
    if m == FULL {
      forall j | 0 <= j < BITS
        ensures Bit(m, j)
      {
        FullBit(j);
      }
    }
  }

  /** The bits of `x` below position `r`, from `k` on, are clear, and bit `r` is set. */
  function TrailingZerosFrom(x: bv64, k: nat): (r: nat)
    requires k <= BITS
    ensures k <= r <= BITS
    ensures forall j :: k <= j < r ==> !Bit(x, j)
    ensures r < BITS ==> Bit(x, r)
    decreases BITS - k
  {
    if k == BITS || Bit(x, k) then k else TrailingZerosFrom(x, k + 1)
  }

  /** `x.trailing_zeros()`: the position of the lowest set bit, or BITS when there is none. */
  function TrailingZeros(x: bv64): (r: nat)
    ensures r <= BITS
    ensures forall j :: 0 <= j < r ==> !Bit(x, j)
    ensures r < BITS ==> Bit(x, r)
    ensures r == BITS <==> x == 0
  {
    var r := TrailingZerosFrom(x, 0);
    if r == BITS then
      AllClear(x);
      r
    else
      assert x != 0 by { ZeroBit(r); }
      r
  }

  /** `(!m).trailing_zeros()` of a mask that is not full is its lowest vacant bit. */
  lemma LowestVacant(m: bv64)
    requires m != FULL
    ensures var off := TrailingZeros(!m);
      off < BITS && !Bit(m, off) && forall j :: 0 <= j < off ==> Bit(m, j)
  {
    var c := !m;
    NotNotAt(m);
    var off := TrailingZeros(c);
    ComplementBit(m, off);
    forall j | 0 <= j < off
      ensures Bit(m, j)
    {
      ComplementBit(m, j);
    }
  }

  /** Mask `m1` is mask `m` with its lowest vacant bit, `off`, set. */
  ghost predicate SetsLowest(m: bv64, off: nat, m1: bv64)
  {
    off < BITS && !Bit(m, off) && (forall j :: 0 <= j < off ==> Bit(m, j)) && m1 == m ^ Single(off)
  }

  /** `SetsLowest`, reached through `depth` unfoldings. It equals `SetsLowest` at every depth
      (`SealedLowestAny`); at a depth that is not a literal the verifier does not unfold it
      unaided, which keeps the bit-vector facts out of the proofs that only pass it on.
      The depth parameter has no meaning of its own: it only hides the body, the way an
      opaque definition would. `SealedToggle` here, `Blocks.Sealed` and `Packing.SealedPacked`
      are sealed the same way; the `...Any` lemma of each opens and closes it. */
  ghost predicate SealedLowest(depth: nat, m: bv64, off: nat, m1: bv64)
    decreases depth
  {
    if depth == 0 then SetsLowest(m, off, m1) else SealedLowest(depth - 1, m, off, m1)
  }

  lemma SealedLowestAny(depth: nat, m: bv64, off: nat, m1: bv64)
    ensures SealedLowest(depth, m, off, m1) == SetsLowest(m, off, m1)
    decreases depth
  {
    if depth > 0 {
      SealedLowestAny(depth - 1, m, off, m1);
    }
  }

  /** Sealing `SetsLowest` at depth `off`. */
  lemma SealLowest(m: bv64, off: nat, m1: bv64)
    requires SetsLowest(m, off, m1)
    ensures SealedLowest(off, m, off, m1)
  {
    SealedLowestAny(off, m, off, m1);
  }

  /** The bit work of `acquire`: the lowest vacant bit `off` of a mask that is not full
      (`(!m).trailing_zeros()`), and the mask `m1 = m ^ (1 << off)` with it set. */
  method TakeLowest(m: bv64) returns (off: nat, m1: bv64)
    requires m != FULL
    ensures off < BITS && SealedLowest(off, m, off, m1)
  {
    off := TrailingZeros(!m);
    m1 := m ^ Single(off);
    LowestVacant(m);
    assert SetsLowest(m, off, m1);
    SealLowest(m, off, m1);
  }

  /** Mask `m1` is mask `m` with bit `off` toggled. */
  ghost predicate Toggles(m: bv64, off: nat, m1: bv64)
  {
    off < BITS && m1 == m ^ Single(off)
  }

  /** `Toggles`, reached through `depth` unfoldings; sealed like `SealedLowest`. */
  ghost predicate SealedToggle(depth: nat, m: bv64, off: nat, m1: bv64)
    decreases depth
  {
    if depth == 0 then Toggles(m, off, m1) else SealedToggle(depth - 1, m, off, m1)
  }

  lemma SealedToggleAny(depth: nat, m: bv64, off: nat, m1: bv64)
    ensures SealedToggle(depth, m, off, m1) == Toggles(m, off, m1)
    decreases depth
  {
    if depth > 0 {
      SealedToggleAny(depth - 1, m, off, m1);
    }
  }

  /** The bit work of `release`: `m ^ (1 << off)`, which vacates bit `off` when it is set
      and leaves every other bit as it was. */
  method Toggle(m: bv64, off: nat) returns (m1: bv64)
    requires off < BITS
    ensures forall k :: 0 <= k < BITS ==> Bit(m1, k) == if k == off then !Bit(m, k) else Bit(m, k)
    ensures SealedToggle(off, m, off, m1)
  {
    m1 := m ^ Single(off);
    forall k | 0 <= k < BITS
      ensures Bit(m1, k) == if k == off then !Bit(m, k) else Bit(m, k)
    {
      FlipBit(m, off, k);
    }
    assert Toggles(m, off, m1);
    SealedToggleAny(off, m, off, m1);
  }
}
