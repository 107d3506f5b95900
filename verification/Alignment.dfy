/** Rounding an address up to an alignment, with the bit operations the code uses. */
module Alignment {

  /** Bitwise `x & y`. */
  function And(x: nat, y: nat): nat
    decreases x
  {
    if x == 0 then 0 else 2 * And(x / 2, y / 2) + (if x % 2 == 1 && y % 2 == 1 then 1 else 0)
  }

  /** Bitwise `x & ~y`. */
  function AndNot(x: nat, y: nat): nat
    decreases x
  {
    if x == 0 then 0 else 2 * AndNot(x / 2, y / 2) + (if x % 2 == 1 && y % 2 == 0 then 1 else 0)
  }

  function Pow2(k: nat): (p: nat)
    ensures p > 0
  {
    if k == 0 then 1 else 2 * Pow2(k - 1)
  }

  ghost predicate PowerOfTwo(n: nat) {
    exists k: nat :: n == Pow2(k)
  }

  /** The first address the code will use at or after `addr`; alignment 0 means none. */
  function Align(addr: nat, alignment: nat): nat {
    if alignment != 0 && And(addr, alignment - 1) != 0
    then AndNot(addr, alignment - 1) + alignment
    else addr
  }

  /** The most an alignment can skip, plus one. */
  function Stride(alignment: nat): nat {
    if alignment == 0 then 1 else alignment
  }

  lemma {:induction false} Split(x: nat, y: nat)
    ensures And(x, y) + AndNot(x, y) == x
    decreases x
  {
    if x != 0 {
      Split(x / 2, y / 2);
    }
  }

  lemma {:induction false} AndBelow(x: nat, y: nat)
    ensures And(x, y) <= y
    decreases x
  {
    if x != 0 {
      AndBelow(x / 2, y / 2);
    }
  }

  lemma ProductGap(d: nat, a: nat, b: nat)
    requires a < b
    ensures d * a + d <= d * b
  {
    var gap: nat := b - a - 1;
    assert d * b == d * a + d + d * gap;
  }

  lemma QuotientIsUnique(d: nat, q: nat, r: nat, q': nat, r': nat)
    requires d * q + r == d * q' + r' && r < d && r' < d
    ensures q == q' && r == r'
  {
    if q < q' {
      ProductGap(d, q, q');
    } else if q' < q {
      ProductGap(d, q', q);
    }
  }

  lemma DivisionIs(x: nat, d: nat, q: nat, r: nat)
    requires d > 0 && x == d * q + r && r < d
    ensures x % d == r && x / d == q
  {
    QuotientIsUnique(d, q, r, x / d, x % d);
  }

  lemma {:induction false} Divided(x: nat, d: nat) returns (q: nat, r: nat)
    requires d > 0
    ensures x == d * q + r && r < d
    decreases x
  {
    if x < d {
      q, r := 0, x;
    } else {
      q, r := Divided(x - d, d);
      assert d * (q + 1) == d * q + d;
      q := q + 1;
    }
  }

  /** Dividing by `2 * p` goes through halving. */
  lemma HalvedRemainder(x: nat, p: nat)
    requires p > 0
    ensures x % (2 * p) == 2 * (x / 2 % p) + x % 2
  {
    var q, r := x / 2 / p, x / 2 % p;
    assert x / 2 == p * q + r;
    assert (2 * p) * q == 2 * (p * q);
    DivisionIs(x, 2 * p, q, 2 * r + x % 2);
  }

  /** Masking with a power of two less one is the remainder. */
  lemma {:induction false} MaskIsRemainder(x: nat, k: nat)
    ensures And(x, Pow2(k) - 1) == x % Pow2(k)
    decreases k
  {
    if k == 0 {
      AndBelow(x, 0);
    } else if x != 0 {
      var p := Pow2(k - 1);
      MaskIsRemainder(x / 2, k - 1);
      assert (2 * p - 1) / 2 == p - 1 && (2 * p - 1) % 2 == 1;
      HalvedRemainder(x, p);
    }
  }

  /** For any alignment at all the result is at or after the address, by less than the alignment. */
  lemma AlignBounds(addr: nat, alignment: nat)
    ensures addr <= Align(addr, alignment) <= addr + Stride(alignment) - 1
  {
    if alignment != 0 {
      Split(addr, alignment - 1);
      AndBelow(addr, alignment - 1);
    }
  }

  lemma NoMultipleBetween(d: nat, q: nat, r: nat, n: nat)
    requires r < d && d * q + r <= d * n
    ensures (if r == 0 then q else q + 1) <= n
  {
    if n < q {
      ProductGap(d, n, q);
    }
  }

  /** With the address as `q` steps and a rest `r`, a power of two rounds to the next whole step. */
  lemma AlignRoundsUp(addr: nat, k: nat, q: nat, r: nat)
    requires addr == Pow2(k) * q + r && r < Pow2(k)
    ensures Align(addr, Pow2(k)) == Pow2(k) * (if r == 0 then q else q + 1)
  {
    var d := Pow2(k);
    assert And(addr, d - 1) == r by {
      MaskIsRemainder(addr, k);
      DivisionIs(addr, d, q, r);
    }
    Split(addr, d - 1);
    assert d * (q + 1) == d * q + d;
  }

  lemma AlignIsLeastStep(addr: nat, k: nat, q: nat, r: nat, n: nat)
    requires addr == Pow2(k) * q + r && r < Pow2(k)
    requires addr <= Pow2(k) * n
    ensures Align(addr, Pow2(k)) <= Pow2(k) * n
  {
    var d, up := Pow2(k), if r == 0 then q else q + 1;
    AlignRoundsUp(addr, k, q, r);
    NoMultipleBetween(d, q, r, n);
    if up < n {
      ProductGap(d, up, n);
    }
  }

  lemma AlignIsMultiple(addr: nat, k: nat, q: nat, r: nat)
    requires addr == Pow2(k) * q + r && r < Pow2(k)
    ensures Align(addr, Pow2(k)) % Pow2(k) == 0
  {
    var d, up := Pow2(k), if r == 0 then q else q + 1;
    AlignRoundsUp(addr, k, q, r);
    DivisionIs(Align(addr, d), d, up, 0);
  }

  /** For a power of two the result is a multiple of the alignment ... */
  lemma AlignIsAligned(addr: nat, alignment: nat)
    requires PowerOfTwo(alignment)
    ensures alignment > 0 && Align(addr, alignment) % alignment == 0
  {
    var k: nat :| alignment == Pow2(k);
    var q, r := Divided(addr, Pow2(k));
    AlignIsMultiple(addr, k, q, r);
  }

  /** ... and the least multiple at or after the address. */
  lemma AlignIsLeast(addr: nat, alignment: nat, n: nat)
    requires PowerOfTwo(alignment) && addr <= alignment * n
    ensures Align(addr, alignment) <= alignment * n
  {
    var k: nat :| alignment == Pow2(k);
    var q, r := Divided(addr, Pow2(k));
    AlignIsLeastStep(addr, k, q, r, n);
  }

  /** A power of two above the mask has no bit in common with it. */
  lemma {:induction false} MaskMisses(k: nat, y: nat)
    requires y < Pow2(k)
    ensures And(Pow2(k), y) == 0
    decreases k
  {
    if k > 0 {
      MaskMisses(k - 1, y / 2);
      assert Pow2(k) % 2 == 0 && Pow2(k) / 2 == Pow2(k - 1);
    } else {
      assert And(1, 0) == 2 * And(0, 0);
    }
  }

  lemma DoubledPower(n: nat)
    requires PowerOfTwo(n)
    ensures PowerOfTwo(2 * n)
  {
    var j: nat :| n == Pow2(j);
    assert 2 * n == Pow2(j + 1);
  }

  /** A number that is not one less than a power of two has a bit that is clear, below its highest. */
  lemma {:induction false} ClearBit(n: nat) returns (b: nat)
    requires !PowerOfTwo(n + 1)
    ensures Pow2(b) <= n && And(Pow2(b), n) == 0
    decreases n
  {
    assert Pow2(0) == 1;
    if n % 2 == 0 {
      b := 0;
      assert And(1, n) == 2 * And(0, n / 2);
    } else {
      if PowerOfTwo(n / 2 + 1) {
        DoubledPower(n / 2 + 1);
      }
      b := ClearBit(n / 2);
      assert Pow2(b + 1) / 2 == Pow2(b);
      b := b + 1;
    }
  }

  /** All 32-bit addresses come out as multiples of the alignment exactly when it is a power of two. */
  lemma AlignsIffPowerOfTwo(alignment: nat)
    requires 0 < alignment <= 0x1_0000_0000
    ensures (forall addr: nat :: addr < 0x1_0000_0000 ==> Align(addr, alignment) % alignment == 0)
            <==> PowerOfTwo(alignment)
  {
    if PowerOfTwo(alignment) {
      forall addr: nat ensures Align(addr, alignment) % alignment == 0 {
        AlignIsAligned(addr, alignment);
      }
    } else {
      var addr := StaysMisaligned(alignment);
    }
  }

  lemma StaysMisaligned(alignment: nat) returns (addr: nat)
    requires alignment > 0 && !PowerOfTwo(alignment)
    ensures addr < alignment && Align(addr, alignment) % alignment != 0
  {
    var b := ClearBit(alignment - 1);
    addr := Pow2(b);
    SmallIsItsRemainder(Pow2(b), alignment);
  }

  lemma SmallIsItsRemainder(x: nat, alignment: nat)
    requires 0 < x < alignment && And(x, alignment - 1) == 0
    ensures Align(x, alignment) % alignment == x
  {
    assert Align(x, alignment) == x;
    DivisionIs(x, alignment, 0, x);
  }

  lemma {:induction false} Pow2Rises(j: nat, k: nat)
    requires j <= k
    ensures Pow2(j) <= Pow2(k)
    ensures j < k ==> Pow2(j) < Pow2(k)
    decreases k
  {
    if j < k {
      Pow2Rises(j, k - 1);
    }
  }

  /** The least power of two that is not below `n`. */
  lemma {:induction false} PowerAtLeast(n: nat) returns (k: nat)
    requires n > 0
    ensures n <= Pow2(k)
    ensures k > 0 ==> Pow2(k - 1) < n
    decreases n
  {
    if n == 1 {
      k := 0;
    } else {
      k := PowerAtLeast((n + 1) / 2);
      k := k + 1;
    }
  }

  /** Bits above a mask do not matter to it. */
  lemma {:induction false} AndAbove(k: nat, x: nat, y: nat)
    requires x < Pow2(k) && y < Pow2(k)
    ensures And(Pow2(k) + x, y) == And(x, y)
    decreases k
  {
    if k > 0 {
      AndAbove(k - 1, x / 2, y / 2);
      assert (Pow2(k) + x) / 2 == Pow2(k - 1) + x / 2 && (Pow2(k) + x) % 2 == x % 2;
    } else {
      assert And(1, 0) == 2 * And(0, 0);
    }
  }

  /** The highest bit of a number is one of its bits. */
  lemma {:induction false} TopBit(k: nat, y: nat)
    requires Pow2(k) <= y < Pow2(k + 1)
    ensures And(Pow2(k), y) == Pow2(k)
    decreases k
  {
    if k > 0 {
      assert Pow2(k) / 2 == Pow2(k - 1) && Pow2(k) % 2 == 0;
      TopBit(k - 1, y / 2);
    } else {
      assert y == 1 && And(1, 1) == 2 * And(0, 0) + 1;
    }
  }

  /** An address is used as it is exactly when it has no bit in common with the mask. */
  lemma AlignStays(addr: nat, alignment: nat)
    requires alignment > 0
    ensures Align(addr, alignment) == addr <==> And(addr, alignment - 1) == 0
  {
    Split(addr, alignment - 1);
    AndBelow(addr, alignment - 1);
  }

  /** An address that leaves 4 on division by 8 is a multiple of a power of two exactly up to 4. */
  lemma MultipleOfFourOnly(addr: nat, k: nat)
    requires addr % 8 == 4
    ensures Align(addr, Pow2(k)) == addr <==> Pow2(k) <= 4
  {
    AlignStays(addr, Pow2(k));
    MaskIsRemainder(addr, k);
    assert Pow2(0) == 1 && Pow2(1) == 2 && Pow2(2) == 4;
    if k > 2 {
      Pow2Rises(2, k);
      var q, r := Divided(addr, Pow2(k));
      DivisionIs(addr, Pow2(k), q, r);
      EightTimes(k, q);
    }
  }

  lemma EightTimes(k: nat, q: nat)
    requires k >= 3
    ensures Pow2(k) * q == 8 * (Pow2(k - 3) * q)
  {
    assert Pow2(k) == 2 * Pow2(k - 1) && Pow2(k - 1) == 2 * Pow2(k - 2) && Pow2(k - 2) == 2 * Pow2(k - 3);
  }
}
