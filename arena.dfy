/** The arena: an allocator of objects of one type. A buffer of values is kept in lockstep
    with an occupancy bitmap, whose length is the arena's capacity; an index is valid
    exactly while the bitmap records its slot as occupied. */
module Arena {
  import opened Bits
  import opened Blocks
  import Bitmap

  /** The result of an operation that panics when the index it is given holds no object. */
  datatype Outcome<R> = Done(value: R) | Panic

  /** The capacity `double` grows to: 4 when the arena has no slots, twice the capacity
      otherwise. */
  function Doubled(c: nat): nat
  {
    if c == 0 then 4 else 2 * c
  }

  /** The capacities the doubling schedule passes through from 0: powers of two from 4 up
      to BITS, then multiples of BITS. */
  predicate Aligned(c: nat)
  {
    c % BITS == 0 || c in {4, 8, 16, 32}
  }

  /** Doubling keeps the capacity on the schedule, and below BITS it stays within one
      block. */
  lemma DoubledAligned(c: nat)
    requires Aligned(c) && Doubled(c) + BITS - 1 <= USIZE_MAX
    ensures Aligned(Doubled(c))
    ensures c % BITS == 0 || BlocksFor(Doubled(c)) == BlocksFor(c)
  {
    if c % BITS == 0 && c > 0 {
      assert Doubled(c) % BITS == 0;
    }
  }

  /** `VecArena<T>`: objects of type `T` stored at indices of a growing buffer. */
  class VecArena<T(0)> {
    /** The value buffer; slot `i` holds the object at index `i` while that slot is occupied. */
    var elems: array<T>
    /** Which slots are occupied. */
    const bitmap: Bitmap.Bitmap

    /** The objects in the arena, by index. */
    ghost var contents: map<nat, T>
    ghost var Repr: set<object>

    ghost predicate Valid()
      reads this, bitmap, Repr
    {
      Repr == {this, elems} + bitmap.Repr &&
      this !in bitmap.Repr && elems !in bitmap.Repr &&
      bitmap.Valid() && elems.Length == bitmap.len &&
      contents.Keys == bitmap.occupied &&
      forall i :: i in contents ==> i < elems.Length && elems[i] == contents[i]
    }

    /** The arena is as a run of inserts leaves it from `new`: its objects sit at indices
        `0 .. Len() - 1`, its bitmap is packed and its capacity is on the doubling schedule. */
    ghost predicate Dense()
      requires Valid()
      reads this, Repr
    {
      bitmap.Packed() && Aligned(bitmap.len)
    }

    /** `new`: an empty arena without slots. */
    constructor ()
      ensures Valid() && fresh(Repr)
      ensures contents == map[] && Capacity() == 0 && Dense()
    {
      elems := new T[0];
      bitmap := new Bitmap.Bitmap();
      contents := map[];
      new;
      Repr := {this, elems} + bitmap.Repr;
    }

    /** `with_capacity`: a new empty arena with exactly `cap` slots. */
    static method WithCapacity(cap: nat) returns (arena: VecArena<T>)
      requires cap + BITS - 1 <= USIZE_MAX
      ensures arena.Valid() && fresh(arena.Repr)
      ensures arena.contents == map[] && arena.Capacity() == cap
    {
      arena := new VecArena<T>();
      arena.ReserveExact(cap);
    }

    /** `capacity`: the number of slots, which is the length of the value buffer and lies
        above every index in use. */
    function Capacity(): (r: nat)
      requires Valid()
      reads this, Repr
      ensures r == elems.Length
      ensures forall i :: i in contents ==> i < r
    {
      bitmap.Len()
    }

    /** `len`: the number of objects in the arena. */
    function Len(): (r: nat)
      requires Valid()
      reads this, Repr
      ensures r == |contents| && r <= Capacity()
    {
      bitmap.Count()
    }

    /** `validate_index`: whether the arena holds an object at `index`; its callers panic
        when it does not. An index at or above the capacity holds none. */
    function ValidateIndex(index: nat): (r: bool)
      requires Valid()
      reads this, Repr
      ensures r <==> index in contents
    {
      index < bitmap.Len() && bitmap.IsOccupied(index)
    }

    /** `arena[index]`: the object at `index`, or a panic when the arena holds none there. */
    function Index(index: nat): (r: Outcome<T>)
      requires Valid()
      reads this, Repr
      ensures r.Done? <==> index in contents
      ensures r.Done? ==> r.value == contents[index]
    {
      if ValidateIndex(index) then Done(elems[index]) else Panic
    }

    /** `arena[index] = value` through `index_mut`: replaces the object at `index`, or panics
        when the arena holds none there. No other index changes. */
    method IndexMut(index: nat, value: T) returns (r: Outcome<()>)
      requires Valid()
      modifies this, elems
      ensures Valid() && Repr == old(Repr) && elems == old(elems)
      ensures r.Done? <==> index in old(contents)
      ensures contents == if r.Done? then old(contents)[index := value] else old(contents)
    {
      if !ValidateIndex(index) {
        return Panic;
      }
      elems[index] := value;
      contents := contents[index := value];
      r := Done(());
    }

    /** `insert`: stores `value` at a vacant index and returns it, doubling the capacity first
        when every slot is occupied. On a dense arena the index is the number of objects. */
    method Insert(value: T) returns (index: nat)
      requires Valid()
      requires Len() == Capacity() ==> Doubled(Capacity()) + BITS - 1 <= USIZE_MAX
      modifies Repr
      ensures Valid() && fresh(Repr - old(Repr))
      ensures index !in old(contents) && contents == old(contents)[index := value]
      ensures Capacity() == if old(Len()) == old(Capacity()) then Doubled(old(Capacity())) else old(Capacity())
      ensures old(Dense()) ==> index == old(Len()) && Dense()
    {
      if bitmap.Count() == bitmap.Len() {
        Double();
      }
      index := Occupy(value);
    }

    /** The part of `insert` after any doubling: a vacant slot is acquired and `value` is
        written to it. */
    method Occupy(value: T) returns (index: nat)
      requires Valid() && Len() < Capacity()
      modifies Repr
      ensures Valid() && Repr == old(Repr) && Capacity() == old(Capacity())
      ensures index !in old(contents) && contents == old(contents)[index := value]
      ensures old(Dense()) ==> index == old(Len()) && Dense()
    {
      index := bitmap.Acquire();
      elems[index] := value;
      contents := contents[index := value];
    }

    /** `remove`: takes the object at `index` out of the arena and returns it, or panics when
        the arena holds none there. No other index changes. */
    method Remove(index: nat) returns (r: Outcome<T>)
      requires Valid()
      modifies Repr
      ensures Valid() && Repr == old(Repr) && Capacity() == old(Capacity())
      ensures r.Done? <==> index in old(contents)
      ensures r.Done? ==> r.value == old(contents)[index] && contents == old(contents) - {index}
      ensures r.Panic? ==> contents == old(contents)
    {
      if !ValidateIndex(index) {
        return Panic;
      }
      bitmap.Release(index);
      r := Done(elems[index]);
      contents := contents - {index};
    }

    /** `insert` followed by `remove` of the index it returned gives the value back and leaves
        the arena's objects as they were. */
    method InsertRemove(value: T) returns (r: Outcome<T>)
      requires Valid()
      requires Len() == Capacity() ==> Doubled(Capacity()) + BITS - 1 <= USIZE_MAX
      modifies Repr
      ensures Valid() && fresh(Repr - old(Repr))
      ensures r == Done(value) && contents == old(contents)
    {
      var index := Insert(value);
      r := Remove(index);
    }

    /** `reserve`: makes room for at least `additional` more objects, growing to twice the
        capacity when that is more and does not overflow. */
    method Reserve(additional: nat)
      requires Valid() && Capacity() + additional + BITS - 1 <= USIZE_MAX
      modifies Repr
      ensures Valid() && fresh(Repr - old(Repr))
      ensures contents == old(contents)
      ensures Capacity() >= old(Capacity()) + additional && Capacity() - Len() >= additional
      ensures 2 * old(Capacity()) + BITS - 1 <= USIZE_MAX ==> Capacity() >= 2 * old(Capacity())
    {
      var len := bitmap.Len();
      ghost var count := Len();
      var newLen := if len + additional < 2 * len && 2 * len + BITS - 1 <= USIZE_MAX then 2 * len else len + additional;
      Regrow(newLen);
    }

    /** `reserve_exact`: grows the capacity by exactly `additional` slots. */
    method ReserveExact(additional: nat)
      requires Valid() && Capacity() + additional + BITS - 1 <= USIZE_MAX
      modifies Repr
      ensures Valid() && fresh(Repr - old(Repr))
      ensures contents == old(contents) && Capacity() == old(Capacity()) + additional
      ensures (old(bitmap.Packed()) && old(Len()) == old(Capacity()) &&
               (old(Capacity()) % BITS == 0 || BlocksFor(Capacity()) == BlocksFor(old(Capacity())))) ==>
        bitmap.Packed()
    {
      var len := bitmap.Len();
      Regrow(len + additional);
    }

    /** What `reserve` and `reserve_exact` do once the new length is chosen: the bitmap grows to
        `newLen` slots and `reallocate` moves the objects into a buffer of that length. */
    method Regrow(newLen: nat)
      requires Valid() && Capacity() <= newLen && newLen + BITS - 1 <= USIZE_MAX
      modifies Repr
      ensures Valid() && fresh(Repr - old(Repr))
      ensures contents == old(contents) && Capacity() == newLen
      ensures (old(bitmap.Packed()) && old(Len()) == old(Capacity()) &&
               (old(Capacity()) % BITS == 0 || BlocksFor(newLen) == BlocksFor(old(Capacity())))) ==>
        bitmap.Packed()
    {
      var len := bitmap.Len();
      bitmap.Resize(newLen);
      Reallocate(len);
    }

    /** `reallocate`: after the bitmap grew from `oldLen` slots, moves the objects into a
        fresh buffer as long as the bitmap. */
    method Reallocate(oldLen: nat)
      requires bitmap.Valid() && this !in bitmap.Repr && elems !in bitmap.Repr
      requires elems.Length == oldLen <= bitmap.len
      modifies this
      ensures fresh(elems) && elems.Length == bitmap.len && elems[..oldLen] == old(elems[..])
      ensures Repr == {this, elems} + bitmap.Repr && contents == old(contents)
    {
      var a := new T[bitmap.Len()];
      forall i | 0 <= i < oldLen {
        a[i] := elems[i];
      }
      elems := a;
      Repr := {this, elems} + bitmap.Repr;
    }

    /** `double`: grows the capacity from 0 to 4, or else to twice what it is. */
    method Double()
      requires Valid() && Doubled(Capacity()) + BITS - 1 <= USIZE_MAX
      modifies Repr
      ensures Valid() && fresh(Repr - old(Repr))
      ensures contents == old(contents) && Capacity() == Doubled(old(Capacity()))
      ensures old(Dense()) && old(Len()) == old(Capacity()) ==> Dense()
    {
      var len := bitmap.Len();
      var newLen := if len == 0 then 4 else len * 2;
      if Aligned(len) {
        DoubledAligned(len);
      }
      ReserveExact(newLen - len);
    }
  }

  /** The `it_works` test: from `new`, `n` inserts return the indices `0 .. n - 1` in turn,
      and every one of them holds its object afterwards. */
  method InsertSequence(n: nat) returns (arena: VecArena<()>, indices: seq<nat>)
    requires 2 * n + 4 + BITS <= USIZE_MAX
    ensures arena.Valid() && indices == Range(0, n) && arena.Len() == n
    ensures forall i :: 0 <= i < n ==> arena.Index(i).Done?
  {
    arena := new VecArena<()>();
    indices := [];
    var i := 0;
    while i < n
      invariant i <= n && indices == Range(0, i)
      invariant arena.Valid() && fresh(arena.Repr) && InsertedDensely(arena, i)
    {
      var index := InsertNext(arena, i);
      RangeNext(i);
      indices := indices + [index];
      i := i + 1;
    }
    DenseIndex(arena, n);
  }

  /** An arena after `i` inserts from `new`: dense, holding `i` objects, with a capacity
      below `2 * i + 4`. */
  ghost predicate InsertedDensely(arena: VecArena<()>, i: nat)
    requires arena.Valid()
    reads arena, arena.Repr
  {
    arena.Dense() && arena.Len() == i && arena.Capacity() <= 2 * i + 4
  }

  /** One insert of the `it_works` loop returns index `i`. */
  method InsertNext(arena: VecArena<()>, i: nat) returns (index: nat)
    requires arena.Valid() && InsertedDensely(arena, i) && 2 * i + 4 + BITS <= USIZE_MAX
    modifies arena.Repr
    ensures arena.Valid() && fresh(arena.Repr - old(arena.Repr))
    ensures index == i && InsertedDensely(arena, i + 1)
  {
    index := arena.Insert(());
  }

  /** In a dense arena holding `n` objects, every index below `n` holds one. */
  lemma DenseIndex(arena: VecArena<()>, n: nat)
    requires arena.Valid() && InsertedDensely(arena, n)
    ensures forall i :: 0 <= i < n ==> arena.Index(i).Done?
  {
    arena.bitmap.PackedOccupied();
    assert arena.contents.Keys == RangeSet(n);
    forall k | 0 <= k < n
      ensures arena.Index(k).Done?
    {
      assert k in arena.contents;
    }
  }

  lemma RangeNext(n: nat)
    ensures Range(0, n + 1) == Range(0, n) + [n]
  {
  }
}
