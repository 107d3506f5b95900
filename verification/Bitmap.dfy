/** The packed bitmap that says which frames are in use (src/util/bitmap.c). */
module Bitmap {
  import opened Wrappers

  /** The bit of weight 2^j in a byte. */
  function Mask(j: nat): bv8
    requires j < 8
  {
    1 << j
  }

  predicate Bit(b: bv8, j: nat)
    requires j < 8
  {
    b & Mask(j) != 0
  }

  /** Index 8 * n + j is bit j of byte n, counted from the least significant. */
  lemma Weights()
    ensures Mask(0) == 1 && Mask(1) == 2 && Mask(2) == 4 && Mask(3) == 8
    ensures Mask(4) == 16 && Mask(5) == 32 && Mask(6) == 64 && Mask(7) == 128
  {}

  lemma BitAfterSet(b: bv8, j: nat, k: nat)
    requires j < 8 && k < 8
    ensures Bit(b | Mask(j), k) == (k == j || Bit(b, k))
  {}

  lemma BitAfterClear(b: bv8, j: nat, k: nat)
    requires j < 8 && k < 8
    ensures Bit(b & !Mask(j), k) == (k != j && Bit(b, k))
  {}

  class Bitmap {
    const data: array<bv8>
    /** The indices whose bit is set. */
    ghost var used: set<nat>

    ghost function Size(): nat {
      8 * data.Length
    }

    ghost predicate Valid()
      reads this, data
    {
      && (forall i :: i in used ==> i < Size())
      && (forall i :: 0 <= i < Size() ==> (i in used) == Bit(data[i / 8], i % 8))
    }

    constructor (data: array<bv8>)
      ensures Valid() && this.data == data
    {
      this.data := data;
      used := set i | 0 <= i < 8 * data.Length && Bit(data[i / 8], i % 8);
    }

    method Set(index: nat)
      requires Valid() && index < Size()
      modifies this, data
      ensures Valid() && used == old(used) + {index}
    {
      var bitmapIndex, bitmapBit := index / 8, index % 8;
      forall k | 0 <= k < 8
        ensures Bit(data[bitmapIndex] | Mask(bitmapBit), k) == (k == bitmapBit || Bit(data[bitmapIndex], k))
      {
        BitAfterSet(data[bitmapIndex], bitmapBit, k);
      }
      data[bitmapIndex] := data[bitmapIndex] | Mask(bitmapBit);
      used := used + {index};
    }

    method Clear(index: nat)
      requires Valid() && index < Size()
      modifies this, data
      ensures Valid() && used == old(used) - {index}
    {
      var bitmapIndex, bitmapBit := index / 8, index % 8;
      forall k | 0 <= k < 8
        ensures Bit(data[bitmapIndex] & !Mask(bitmapBit), k) == (k != bitmapBit && Bit(data[bitmapIndex], k))
      {
        BitAfterClear(data[bitmapIndex], bitmapBit, k);
      }
      data[bitmapIndex] := data[bitmapIndex] & !Mask(bitmapBit);
      used := used - {index};
    }

    method Get(index: nat) returns (set_: bool)
      requires Valid() && index < Size()
      ensures set_ == (index in used)
    {
      var bitmapIndex, bitmapBit := index / 8, index % 8;
      set_ := Bit(data[bitmapIndex], bitmapBit);
    }

    /** The least clear index; None is the panic on a full bitmap. */
    method GetFirstClear() returns (first: Option<nat>)
      requires Valid()
      ensures match first
              case Some(f) => f < Size() && f !in used && forall g :: 0 <= g < f ==> g in used
              case None => forall g :: 0 <= g < Size() ==> g in used
    {
      for i := 0 to data.Length
        invariant forall g :: 0 <= g < 8 * i ==> g in used
      {
        for j := 0 to 8
          invariant forall g :: 0 <= g < 8 * i + j ==> g in used
        {
          assert (8 * i + j) / 8 == i && (8 * i + j) % 8 == j;
          if data[i] & Mask(j) == 0 {
            return Some(8 * i + j);
          }
        }
      }
      return None;
    }
  }

  lemma {:induction false} CountBelow(n: nat) returns (all: set<nat>)
    ensures |all| == n && forall i: nat :: i in all <==> i < n
  {
    if n == 0 {
      all := {};
    } else {
      all := CountBelow(n - 1);
      all := all + {n - 1};
    }
  }

  /** At most one index is unused. */
  ghost predicate AtMostOneUnused(used: set<nat>, size: nat) {
    forall g, h :: 0 <= g < size && 0 <= h < size && g !in used && h !in used ==> g == h
  }

  /** How many indices are used, and what that says of the unused ones. */
  lemma UsedCount(used: set<nat>, size: nat)
    requires forall i :: i in used ==> i < size
    ensures |used| <= size
    ensures |used| == size <==> forall g :: 0 <= g < size ==> g in used
    ensures |used| + 2 > size <==> AtMostOneUnused(used, size)
  {
    var all := CountBelow(size);
    var unused := all - used;
    assert used <= all && all == used + unused;
    assert |unused| == size - |used|;
    if |unused| > 0 {
      var g :| g in unused;
      assert |unused - {g}| == |unused| - 1;
      if |unused| > 1 {
        var h :| h in unused - {g};
        assert g < size && h < size && g !in used && h !in used;
      } else {
        assert unused - {g} == {};
        assert unused == {g};
      }
    }
  }
}
