/** Finding a hole for a request in the index (src/alloc/kalloc_avl.c): what is found, and what is missed. */
module HoleSearch {
  import opened Alignment
  import opened HoleTree
  import opened Wrappers

  /** Whether a request fits the hole once its start is aligned. */
  predicate Fits(h: Hole, size: nat, alignment: nat) {
    h.size >= size + (Align(h.addr, alignment) - h.addr)
  }

  /** A hole so large that the request fits wherever the hole starts. */
  predicate Roomy(h: Hole, size: nat, alignment: nat) {
    h.size >= size + Stride(alignment) - 1
  }

  lemma RoomyFits(h: Hole, size: nat, alignment: nat)
    ensures Roomy(h, size, alignment) ==> Fits(h, size, alignment)
    ensures alignment == 0 ==> (Fits(h, size, alignment) <==> h.size >= size)
    ensures alignment == 0 ==> (Roomy(h, size, alignment) <==> h.size >= size)
  {
    AlignBounds(h.addr, alignment);
  }

  /** The search: to the right of a hole that is too small or, once aligned, does not fit; otherwise to the left of it,
      with the hole itself as the fallback. */
  function Search(t: Tree, size: nat, alignment: nat): Option<Hole> {
    if t.Leaf? then None
    else if size > t.hole.size || !Fits(t.hole, size, alignment) then Search(t.right, size, alignment)
    else
      var below := Search(t.left, size, alignment);
      if below.Some? then below else Some(t.hole)
  }

  /** Whatever is found fits, and comes no later than any hole roomy enough; if there is one of those, some hole is
      found. Without alignment it is the first hole that fits. */
  lemma {:induction false} SearchFinds(t: Tree, size: nat, alignment: nat)
    requires Ordered(t)
    ensures var found := Search(t, size, alignment);
            && (found.Some? ==> found.value in Holes(t) && Fits(found.value, size, alignment))
            && (forall h :: h in Holes(t) && Roomy(h, size, alignment) ==>
                  found.Some? && (found.value == h || Less(found.value, h)))
            && (alignment == 0 && found.None? ==> forall h :: h in Holes(t) ==> h.size < size)
            && (alignment == 0 && found.Some? ==>
                  forall h :: h in Holes(t) && h.size >= size ==> found.value == h || Less(found.value, h))
  {
    if t.Bin? {
      RoomyFits(t.hole, size, alignment);
      SearchFinds(t.left, size, alignment);
      SearchFinds(t.right, size, alignment);
    }
  }

  /** The request fits the hole `h` once aligned, and every hole after it: larger ones, and those of its size at higher
      addresses. */
  ghost predicate FitsFrom(holes: set<Hole>, h: Hole, size: nat, alignment: nat) {
    && h in holes
    && forall x :: x in holes && (x.size > h.size || (x.size == h.size && x.addr >= h.addr)) ==>
         x.size >= size + (Align(x.addr, alignment) - x.addr)
  }

  /** Such a hole is never missed, whatever the shape of the tree: it is found, or one before it. */
  lemma {:induction false} SearchFindsFrom(t: Tree, size: nat, alignment: nat, h: Hole)
    requires Ordered(t) && FitsFrom(Holes(t), h, size, alignment)
    ensures var found := Search(t, size, alignment);
            found.Some? && (found.value.size < h.size || (found.value.size == h.size && found.value.addr <= h.addr))
  {
    SearchFinds(t.left, size, alignment);
    AlignBounds(t.hole.addr, alignment);
    if Less(h, t.hole) {
      SearchFindsFrom(t.left, size, alignment, h);
    } else if Less(t.hole, h) {
      SearchFindsFrom(t.right, size, alignment, h);
    }
  }

  /** What the original promises of its search: the least of all holes that fit, or none if none fits. */
  ghost predicate IsLeastFit(t: Tree, size: nat, alignment: nat, found: Option<Hole>) {
    match found
    case None => forall h :: h in Holes(t) ==> !Fits(h, size, alignment)
    case Some(best) =>
      && best in Holes(t) && Fits(best, size, alignment)
      && (forall h :: h in Holes(t) && Fits(h, size, alignment) ==> best == h || Less(best, h))
  }

  /** With alignment 0 or 1 every hole large enough fits, and the promise holds. */
  lemma {:induction false} UnalignedSearchIsLeastFit(t: Tree, size: nat, alignment: nat)
    requires Ordered(t) && alignment <= 1
    ensures IsLeastFit(t, size, alignment, Search(t, size, alignment))
  {
    if t.Bin? {
      UnalignedSearchIsLeastFit(t.left, size, alignment);
      UnalignedSearchIsLeastFit(t.right, size, alignment);
      forall h: Hole ensures Fits(h, size, alignment) <==> h.size >= size {
        AlignBounds(h.addr, alignment);
      }
    }
  }
}
