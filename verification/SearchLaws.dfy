/** How far the search for a hole keeps its promise (src/alloc/kalloc_avl.c), over the indexes of actual heaps. */
module SearchLaws {
  import opened Alignment
  import opened HoleSearch
  import opened HoleTree
  import opened Ram
  import opened Segments
  import opened Wrappers

  /** `t` is an index of the holes of a run of segments: whole pages within the 32-bit address space, with the 16 pages
      of the index below them. */
  ghost predicate Indexes(t: Tree, segs: seq<Segment>, lo: nat, hi: nat) {
    && Tiles(segs, lo, hi) && NoTwins(segs)
    && 65536 <= lo && hi <= WordLimit && lo % 4096 == 0 && hi % 4096 == 0
    && Sound(t) && Holes(t) == HolesOf(segs)
  }

  /** No hole of a heap has the null address, so a search that finds one never reads as a search that found none. */
  lemma HolesAreNotNull(segs: seq<Segment>, h: Hole)
    requires h in HolesOf(segs)
    ensures h.addr >= HeaderSize
  {
    InHolesOf(segs, h);
  }

  lemma {:induction false} PageMultiple(k: nat)
    requires k >= 17
    ensures Pow2(k) % 4096 == 0 && Pow2(k) >= 131072
    decreases k
  {
    if k == 17 {
      assert Pow2(12) == 4096;
      assert Pow2(17) == 131072;
    } else {
      PageMultiple(k - 1);
    }
  }

  lemma Powers()
    ensures Pow2(0) == 1 && Pow2(6) == 64 && Pow2(31) == 0x8000_0000
  {
    assert Pow2(4) == 16 && Pow2(8) == 256;
    assert Pow2(12) == 4096 && Pow2(16) == 65536;
    assert Pow2(20) == 1048576;
    assert Pow2(24) == 16777216;
    assert Pow2(28) == 268435456;
  }

  /** The least power of two not below the alignment, as an exponent. */
  lemma TopOf(alignment: nat) returns (k: nat)
    requires 1 < alignment <= 0x8000_0000
    ensures 1 <= k <= 31 && Pow2(k - 1) < alignment <= Pow2(k)
  {
    k := PowerAtLeast(alignment);
    Powers();
    if k > 31 {
      Pow2Rises(31, k - 1);
    }
  }

  /** The power of two before it has a bit in common with the mask, also when 64 is added to a smaller one. */
  lemma HalfIsUnaligned(alignment: nat, k: nat)
    requires 1 <= k && Pow2(k - 1) < alignment <= Pow2(k)
    ensures And(Pow2(k - 1), alignment - 1) != 0
  {
    TopBit(k - 1, alignment - 1);
  }

  lemma SmallHalf(k: nat)
    requires 1 <= k && Pow2(k - 1) < 64
    ensures Pow2(k) <= 64 == Pow2(6)
  {
    Powers();
    if k > 6 {
      Pow2Rises(6, k - 1);
    } else {
      Pow2Rises(k, 6);
    }
  }

  lemma SmallHalfIsUnaligned(alignment: nat, k: nat)
    requires 1 <= k && Pow2(k - 1) < alignment <= Pow2(k) && Pow2(k - 1) < 64
    ensures And(64 + Pow2(k - 1), alignment - 1) != 0
  {
    SmallHalf(k);
    HalfIsUnaligned(alignment, k);
    AndAbove(6, Pow2(k - 1), alignment - 1);
  }

  /** A short step from an aligned address to an unaligned one. */
  function Offset(k: nat): nat
    requires 1 <= k
  {
    if Pow2(k - 1) < 64 then 64 + Pow2(k - 1) else Pow2(k - 1)
  }

  lemma OffsetIsUnaligned(alignment: nat, k: nat)
    requires 1 <= k && Pow2(k - 1) < alignment <= Pow2(k)
    ensures 64 <= Offset(k) && And(Offset(k), alignment - 1) != 0
    ensures Offset(k) <= 4096 || Offset(k) <= Pow2(k - 1)
  {
    if Pow2(k - 1) < 64 {
      SmallHalfIsUnaligned(alignment, k);
    } else {
      HalfIsUnaligned(alignment, k);
    }
  }

  lemma AlignedAt(alignment: nat, k: nat, top: nat)
    requires 1 <= k <= top <= 31 && 17 <= top && Pow2(k - 1) < alignment <= Pow2(k)
    ensures Pow2(top) % 4096 == 0 && 131072 <= Pow2(top) <= 0x8000_0000
    ensures And(Pow2(top), alignment - 1) == 0
  {
    PageMultiple(top);
    TopIsInRange(k, top);
    MaskMisses(top, alignment - 1);
  }

  lemma UnalignedAt(alignment: nat, k: nat, top: nat)
    requires 1 <= k <= top <= 31 && Pow2(k - 1) < alignment <= Pow2(k) && 131072 <= Pow2(top)
    ensures 64 <= Offset(k) <= Pow2(top) / 2 && And(Pow2(top) + Offset(k), alignment - 1) != 0
  {
    TopIsInRange(k, top);
    OffsetIsUnaligned(alignment, k);
    AndAbove(top, Offset(k), alignment - 1);
  }

  /** A power so large that a heap a page below it has room for its index. */
  lemma AboveTheIndex(k: nat) returns (top: nat)
    requires k <= 31
    ensures k <= top <= 31 && 17 <= top && 131072 <= Pow2(top)
  {
    top := if k < 17 then 17 else k;
    PageMultiple(top);
  }

  /** An aligned address and an unaligned one a little further on, both within 32 bits. */
  lemma Pair(alignment: nat) returns (p: nat, x: nat)
    requires 1 < alignment <= 0x8000_0000
    ensures p % 4096 == 0 && 131072 <= p <= 0x8000_0000 && 64 <= x <= p / 2
    ensures And(p, alignment - 1) == 0 && And(p + x, alignment - 1) != 0
  {
    var k := TopOf(alignment);
    var top := AboveTheIndex(k);
    AlignedAt(alignment, k, top);
    UnalignedAt(alignment, k, top);
    p, x := Pow2(top), Offset(k);
  }

  lemma TopIsInRange(k: nat, top: nat)
    requires 1 <= k <= top <= 31
    ensures Pow2(top) <= 0x8000_0000 && 2 * Pow2(k - 1) == Pow2(k) <= Pow2(top)
  {
    Powers();
    Pow2Rises(top, 31);
    Pow2Rises(k, top);
  }

  /** Two holes of one byte, the first at `p`, the second `x` bytes further on, and blocks around them. */
  function TwoHoles(p: nat, x: nat): seq<Segment>
    requires 131072 <= p && 64 <= x <= p / 2
  {
    [Segment(p - 4096, 4064, true),
     Segment(p - 12, 1, false),
     Segment(p + 9, x - 41, true),
     Segment(p + x - 12, 1, false),
     Segment(p + x + 9, p - x - 29, true)]
  }

  /** Their index, with the second hole at the root. */
  function TwoHoleIndex(p: nat, x: nat): Tree {
    Bin(0, Bin(1, Leaf, Hole(1, p), 1, Leaf), Hole(1, p + x), 2, Leaf)
  }

  lemma TwoHolesAreIndexed(p: nat, x: nat)
    requires p % 4096 == 0 && 131072 <= p <= 0x8000_0000 && 64 <= x <= p / 2
    ensures Indexes(TwoHoleIndex(p, x), TwoHoles(p, x), p - 4096, 2 * p)
  {
    var segs, t := TwoHoles(p, x), TwoHoleIndex(p, x);
    var s1, s2, s3, s4 := segs[1..], segs[2..], segs[3..], segs[4..];
    assert segs[1..][1..] == s2 && s2[1..] == s3 && s3[1..] == s4 && s4[1..] == [];
    assert Tiles(s4, p + x + 9, 2 * p) && Tiles(s3, p + x - 12, 2 * p) && Tiles(s2, p + 9, 2 * p);
    assert Tiles(s1, p - 12, 2 * p);
    assert NoTwins(s3) && NoTwins(s2) && NoTwins(s1);
    assert HolesOf(s4) == {} && HolesOf(s3) == {Hole(1, p + x)} && HolesOf(s2) == {Hole(1, p + x)};
    assert HolesOf(s1) == {Hole(1, p + x), Hole(1, p)} == HolesOf(segs);
    TwoHoleIndexIsSound(p, x);
  }

  lemma TwoHoleIndexIsSound(p: nat, x: nat)
    requires x > 0
    ensures Sound(TwoHoleIndex(p, x)) && Holes(TwoHoleIndex(p, x)) == {Hole(1, p), Hole(1, p + x)}
  {
    var t := TwoHoleIndex(p, x);
    var l := t.left;
    assert l.left == Leaf && l.right == Leaf && t.right == Leaf;
    assert Holes(Leaf) == {} && Nodes(Leaf) == {};
    assert Holes(l) == {Hole(1, p)} && Nodes(l) == {1};
    assert Height(l) == 1 && Height(t.right) == 0 && Balanced(l) && Ordered(l) && Separate(l);
  }

  /** With any alignment above 1 there is a heap with a hole that serves the request, and an index of it in which the
      search finds nothing: it turns away at the root, which is large enough but does not fit once aligned. */
  lemma AlignedSearchMisses(alignment: nat) returns (t: Tree, segs: seq<Segment>, lo: nat, hi: nat, hole: Hole)
    requires 1 < alignment <= 0x8000_0000
    ensures Indexes(t, segs, lo, hi) && segs != [] && segs[0].used
    ensures hole in HolesOf(segs) && Fits(hole, 1, alignment) && Search(t, 1, alignment) == None
  {
    var p, x := Pair(alignment);
    t, segs, lo, hi, hole := TwoHoleIndex(p, x), TwoHoles(p, x), p - 4096, 2 * p, Hole(1, p);
    TwoHolesAreIndexed(p, x);
    InHolesOf(segs, hole);
    assert segs[1] in segs && HoleOf(segs[1]) == hole;
    RootDoesNotFit(p + x, alignment);
    assert Search(t.right, 1, alignment) == None;
  }

  lemma RootDoesNotFit(addr: nat, alignment: nat)
    requires alignment > 1 && And(addr, alignment - 1) != 0
    ensures !Fits(Hole(1, addr), 1, alignment)
  {
    Split(addr, alignment - 1);
    AndBelow(addr, alignment - 1);
  }

  /** What the original promises of its search holds for all heaps and requests exactly when the alignment is 0 or 1. */
  lemma SearchIsLeastFitIffUnaligned(alignment: nat)
    requires alignment <= 0x8000_0000
    ensures (forall t, segs, lo, hi, size :: Indexes(t, segs, lo, hi) ==>
               IsLeastFit(t, size, alignment, Search(t, size, alignment)))
            <==> alignment <= 1
  {
    if alignment <= 1 {
      forall t, segs, lo, hi, size | Indexes(t, segs, lo, hi)
        ensures IsLeastFit(t, size, alignment, Search(t, size, alignment))
      {
        UnalignedSearchIsLeastFit(t, size, alignment);
      }
    } else {
      var t, segs, lo, hi, hole := AlignedSearchMisses(alignment);
      assert !IsLeastFit(t, 1, alignment, Search(t, 1, alignment));
    }
  }
}
