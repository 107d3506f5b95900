/** Open addressing on a circular table: probe chains, and what filling, overwriting and moving slots does to them. */
module Probing {

  /** A slot keeps its key and value bytes after it stops being valid. */
  datatype Slot<K, V> = Slot(valid: bool, key: K, value: V)

  predicate Same<K>(eq: (K, K) -> bool, a: K, b: K) {
    eq(a, b)
  }

  predicate Linked<K>(eq: (K, K) -> bool, a: K, b: K, c: K) {
    Same(eq, a, b) && Same(eq, b, c)
  }

  /** Equality of keys is an equivalence, and equal keys hash alike. */
  ghost predicate Lawful<K(!new)>(eq: (K, K) -> bool, hash: K -> nat) {
    && (forall a :: Same(eq, a, a))
    && (forall a, b :: Same(eq, a, b) ==> Same(eq, b, a))
    && (forall a, b, c :: Linked(eq, a, b, c) ==> Same(eq, a, c))
    && (forall a, b :: Same(eq, a, b) ==> hash(a) == hash(b))
  }

  /** The slot a key hashes to. */
  function Home<K>(hash: K -> nat, k: K, capacity: nat): (h: nat)
    requires capacity > 0
    ensures h < capacity
  {
    hash(k) % capacity
  }

  function Next(pos: nat, capacity: nat): (next: nat)
    requires pos < capacity
    ensures next == if pos + 1 == capacity then 0 else pos + 1
  {
    (pos + 1) % capacity
  }

  /** Going round from `a`, `j` comes no later than `b`. */
  predicate InArc(a: nat, j: nat, b: nat) {
    if a <= b then a <= j <= b else a <= j || j <= b
  }

  /** Going round from `a`, `j` comes before `b`. */
  predicate InArcBefore(a: nat, j: nat, b: nat) {
    if a <= b then a <= j < b else a <= j || j < b
  }

  /** Strictly between `a` and `b`, going round from `a`. */
  predicate Between(a: nat, j: nat, b: nat) {
    if a < b then a < j < b else a < j || j < b
  }

  /** How far round from `a` to `b`. */
  function Distance(a: nat, b: nat, capacity: nat): nat
    requires a < capacity && b < capacity
  {
    if a <= b then b - a else b + capacity - a
  }

  /** No empty slot between the home of a key and where it sits, except possibly `gap`. */
  ghost predicate Chained<K, V>(slots: seq<Slot<K, V>>, hash: K -> nat, gap: int) {
    forall i, j {:trigger InArc(Home(hash, slots[i].key, |slots|), j, i)} ::
      0 <= i < |slots| && 0 <= j < |slots| && slots[i].valid && InArc(Home(hash, slots[i].key, |slots|), j, i)
      ==> slots[j].valid || j == gap
  }

  ghost predicate Distinct<K, V>(slots: seq<Slot<K, V>>, eq: (K, K) -> bool) {
    forall i, j {:trigger Same(eq, slots[i].key, slots[j].key)} ::
      0 <= i < |slots| && 0 <= j < |slots| && i != j && slots[i].valid && slots[j].valid
      ==> !Same(eq, slots[i].key, slots[j].key)
  }

  ghost predicate Sound<K, V>(slots: seq<Slot<K, V>>, eq: (K, K) -> bool, hash: K -> nat) {
    |slots| > 0 && Chained(slots, hash, -1) && Distinct(slots, eq)
  }

  /** Some valid slot holds the key. */
  ghost predicate Holds<K, V>(slots: seq<Slot<K, V>>, eq: (K, K) -> bool, k: K) {
    exists i :: 0 <= i < |slots| && slots[i].valid && Same(eq, slots[i].key, k)
  }

  /** Going round from `home`, everything before `pos` is in use and by other keys. */
  ghost predicate Passed<K, V>(slots: seq<Slot<K, V>>, eq: (K, K) -> bool, k: K, home: nat, pos: nat) {
    && home < |slots| && pos < |slots|
    && (forall j :: 0 <= j < |slots| && InArcBefore(home, j, pos) ==> slots[j].valid && !Same(eq, slots[j].key, k))
  }

  /** One step of a probe, with an empty slot still ahead. */
  lemma ProbeAdvances<K, V>(slots: seq<Slot<K, V>>, eq: (K, K) -> bool, k: K, home: nat, pos: nat, empty: nat)
    requires Passed(slots, eq, k, home, pos) && slots[pos].valid && !Same(eq, slots[pos].key, k)
    requires empty < |slots| && !slots[empty].valid
    ensures Passed(slots, eq, k, home, Next(pos, |slots|))
    ensures Distance(Next(pos, |slots|), empty, |slots|) < Distance(pos, empty, |slots|)
  {}

  /** A probe ends at the key exactly when some slot holds it: an empty slot shows that the key is nowhere. */
  lemma ProbeIsComplete<K(!new), V>(slots: seq<Slot<K, V>>, eq: (K, K) -> bool, hash: K -> nat, k: K, pos: nat)
    requires Lawful(eq, hash) && Sound(slots, eq, hash) && Passed(slots, eq, k, Home(hash, k, |slots|), pos)
    requires slots[pos].valid ==> Same(eq, slots[pos].key, k)
    ensures slots[pos].valid == Holds(slots, eq, k)
  {
    var h := Home(hash, k, |slots|);
    forall i | 0 <= i < |slots| && slots[i].valid && !slots[pos].valid ensures !Same(eq, slots[i].key, k) {
      assert Same(eq, slots[i].key, k) ==> Home(hash, slots[i].key, |slots|) == h;
      assert InArcBefore(h, i, pos) || InArc(h, pos, i);
    }
  }

  /** Filling the empty slot where the probe for a new key ended keeps the table sound. */
  lemma FilledIsSound<K(!new), V>(slots: seq<Slot<K, V>>, eq: (K, K) -> bool, hash: K -> nat, k: K, v: V, pos: nat)
    requires Lawful(eq, hash) && Sound(slots, eq, hash) && !Holds(slots, eq, k)
    requires Passed(slots, eq, k, Home(hash, k, |slots|), pos)
    ensures Sound(slots[pos := Slot(true, k, v)], eq, hash)
  {
    var filled := slots[pos := Slot(true, k, v)];
    forall i, j | 0 <= i < |filled| && 0 <= j < |filled| && filled[i].valid
                  && InArc(Home(hash, filled[i].key, |filled|), j, i)
      ensures filled[j].valid
    {
      if i != pos {
        assert slots[i].valid;
      }
    }
    forall i, j | 0 <= i < |filled| && 0 <= j < |filled| && i != j && filled[i].valid && filled[j].valid
      ensures !Same(eq, filled[i].key, filled[j].key)
    {
      assert i != pos ==> slots[i].valid;
      assert j != pos ==> slots[j].valid;
    }
  }

  /** Replacing a key by an equal one keeps the table sound. */
  lemma OverwrittenIsSound<K(!new), V>(slots: seq<Slot<K, V>>, eq: (K, K) -> bool, hash: K -> nat, k: K, v: V, pos: nat)
    requires Lawful(eq, hash) && Sound(slots, eq, hash) && pos < |slots| && slots[pos].valid
    requires Same(eq, slots[pos].key, k)
    ensures Sound(slots[pos := Slot(true, k, v)], eq, hash)
  {
    var written := slots[pos := Slot(true, k, v)];
    assert Home(hash, slots[pos].key, |slots|) == Home(hash, k, |slots|);
    forall i, j | 0 <= i < |written| && 0 <= j < |written| && written[i].valid
                  && InArc(Home(hash, written[i].key, |written|), j, i)
      ensures written[j].valid
    {
      assert slots[i].valid && slots[j].valid;
    }
    forall i, j | 0 <= i < |written| && 0 <= j < |written| && i != j && written[i].valid && written[j].valid
      ensures !Same(eq, written[i].key, written[j].key)
    {
      assert slots[i].valid && slots[j].valid && !Same(eq, slots[i].key, slots[j].key);
      assert !Linked(eq, slots[i].key, k, slots[j].key);
    }
  }

  /** The table while the gap left by a deletion is being closed: chains may be broken at `gap` only, and of the
      slots passed since the gap was there none needs it. */
  ghost predicate Closing<K, V>(slots: seq<Slot<K, V>>, eq: (K, K) -> bool, hash: K -> nat, gap: nat, pos: nat) {
    && gap < |slots| && pos < |slots| && gap != pos && !slots[gap].valid
    && Chained(slots, hash, gap) && Distinct(slots, eq)
    && (forall i :: 0 <= i < |slots| && Between(gap, i, pos) ==>
          slots[i].valid && !InArc(Home(hash, slots[i].key, |slots|), gap, i))
  }

  /** Once an empty slot is reached, no chain runs over the gap any more. */
  lemma ClosedIsSound<K, V>(slots: seq<Slot<K, V>>, eq: (K, K) -> bool, hash: K -> nat, gap: nat, pos: nat)
    requires Closing(slots, eq, hash, gap, pos) && !slots[pos].valid
    ensures Sound(slots, eq, hash)
  {
    forall i, j | 0 <= i < |slots| && 0 <= j < |slots| && slots[i].valid
                  && InArc(Home(hash, slots[i].key, |slots|), j, i)
      ensures slots[j].valid
    {
      var h := Home(hash, slots[i].key, |slots|);
      if j == gap {
        assert !Between(gap, i, pos);
        assert InArc(h, pos, i);
      }
    }
  }

  /** A slot that does not reach over the gap is left alone. */
  lemma PassedIsClosing<K, V>(slots: seq<Slot<K, V>>, eq: (K, K) -> bool, hash: K -> nat, gap: nat, pos: nat)
    requires Closing(slots, eq, hash, gap, pos) && slots[pos].valid
    requires !InArc(Home(hash, slots[pos].key, |slots|), gap, pos) && Next(pos, |slots|) != gap
    ensures Closing(slots, eq, hash, gap, Next(pos, |slots|))
  {}

  /** A slot that reaches over the gap moves into it, and the gap is now where it was. */
  lemma MovedIsClosing<K, V>(slots: seq<Slot<K, V>>, eq: (K, K) -> bool, hash: K -> nat, gap: nat, pos: nat)
    requires Closing(slots, eq, hash, gap, pos) && slots[pos].valid && Next(pos, |slots|) != pos
    requires InArc(Home(hash, slots[pos].key, |slots|), gap, pos)
    ensures var s := slots[pos];
            Closing(slots[pos := s.(valid := false)][gap := s], eq, hash, pos, Next(pos, |slots|))
  {
    var s := slots[pos];
    var moved := slots[pos := s.(valid := false)][gap := s];
    forall i, j | 0 <= i < |moved| && 0 <= j < |moved| && moved[i].valid
                  && InArc(Home(hash, moved[i].key, |moved|), j, i)
      ensures moved[j].valid || j == pos
    {
      if i == gap {
        assert InArc(Home(hash, s.key, |slots|), j, pos);
      }
    }
    forall i, j | 0 <= i < |moved| && 0 <= j < |moved| && i != j && moved[i].valid && moved[j].valid
      ensures !Same(eq, moved[i].key, moved[j].key)
    {
      var i', j' := if i == gap then pos else i, if j == gap then pos else j;
      assert slots[i'].valid && slots[j'].valid && i' != j';
    }
  }

  /** An empty slot other than the gap stays ahead, so the closing ends before it comes round to the gap. */
  lemma EmptySlotStaysAhead(gap: nat, pos: nat, empty: nat, capacity: nat)
    requires gap < capacity && pos < capacity && empty < capacity
    requires empty != gap && gap != pos && empty != pos && !Between(gap, empty, pos)
    ensures Next(pos, capacity) != gap && Next(pos, capacity) != pos
    ensures !Between(gap, empty, Next(pos, capacity)) && !Between(pos, empty, Next(pos, capacity))
    ensures Distance(Next(pos, capacity), empty, capacity) < Distance(pos, empty, capacity)
  {}
}
