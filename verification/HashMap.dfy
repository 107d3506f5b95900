/** The kernel's hash map (src/hash_map.h): linear probing, backward-shift deletion, doubling. */
module HashMap {
  import opened Wrappers
  import opened Probing

  /** The map without the keys equal to `k`. */
  ghost function Without<K(!new), V>(m: map<K, V>, eq: (K, K) -> bool, k: K): map<K, V> {
    map k' | k' in m && !Same(eq, k', k) :: m[k']
  }

  /** What reading `k` from the map gives: the value under the key equal to `k`, if there is one. */
  ghost predicate Reads<K(!new), V>(m: map<K, V>, eq: (K, K) -> bool, k: K, r: Option<V>) {
    match r
    case Some(v) => exists k' :: k' in m && Same(eq, k', k) && m[k'] == v
    case None => forall k' :: k' in m ==> !Same(eq, k', k)
  }

  ghost predicate Stores<K(!new), V>(slots: seq<Slot<K, V>>, n: nat, k: K) {
    exists i :: 0 <= i < n <= |slots| && slots[i].valid && slots[i].key == k
  }

  /** The valid ones among the first `n` slots are the entries of `m`. */
  ghost predicate RepresentsUpTo<K(!new), V>(slots: seq<Slot<K, V>>, n: nat, m: map<K, V>)
    requires n <= |slots|
  {
    && (forall i :: 0 <= i < n && slots[i].valid ==> slots[i].key in m && m[slots[i].key] == slots[i].value)
    && (forall k :: k in m ==> Stores(slots, n, k))
  }

  ghost predicate Represents<K(!new), V>(slots: seq<Slot<K, V>>, m: map<K, V>) {
    RepresentsUpTo(slots, |slots|, m)
  }

  /** A table with fewer entries than slots has an empty slot. */
  lemma EmptySlot<K(!new), V>(slots: seq<Slot<K, V>>, m: map<K, V>, eq: (K, K) -> bool, hash: K -> nat)
    returns (empty: nat)
    requires Lawful(eq, hash) && Distinct(slots, eq) && Represents(slots, m) && |m| < |slots|
    ensures empty < |slots| && !slots[empty].valid
  {
    empty := 0;
    ghost var seen: set<K> := {};
    while empty < |slots| && slots[empty].valid
      invariant empty <= |slots|
      invariant forall i :: 0 <= i < empty ==> slots[i].valid
      invariant forall k :: k in seen ==> exists i :: 0 <= i < empty && slots[i].key == k
      invariant seen <= m.Keys && |seen| == empty
    {
      assert forall j :: 0 <= j < empty ==> !Same(eq, slots[j].key, slots[empty].key);
      seen := seen + {slots[empty].key};
      empty := empty + 1;
    }
    SubsetIsNoLarger(seen, m.Keys);
  }

  lemma {:induction false} SubsetIsNoLarger<T>(small: set<T>, large: set<T>)
    requires small <= large
    ensures |small| <= |large|
    ensures small != large ==> |small| < |large|
  {
    if small != {} {
      var x :| x in small;
      SubsetIsNoLarger(small - {x}, large - {x});
    }
  }

  lemma FilledRepresents<K(!new), V>(slots: seq<Slot<K, V>>, m: map<K, V>, eq: (K, K) -> bool, k: K, v: V, pos: nat)
    requires Represents(slots, m) && pos < |slots| && !slots[pos].valid && !Holds(slots, eq, k) && Same(eq, k, k)
    ensures Without(m, eq, k) == m && k !in m
    ensures Represents(slots[pos := Slot(true, k, v)], m[k := v])
  {
    assert forall k' :: k' in m ==> !Same(eq, k', k);
    var filled := slots[pos := Slot(true, k, v)];
    forall k' | k' in m[k := v] ensures Stores(filled, |filled|, k') {
      if k' == k {
        assert filled[pos].key == k';
      } else {
        var i :| 0 <= i < |slots| && slots[i].valid && slots[i].key == k';
        assert filled[i].valid;
      }
    }
  }

  lemma VacatedRepresents<K(!new), V>(slots: seq<Slot<K, V>>, m: map<K, V>, eq: (K, K) -> bool, hash: K -> nat, k: K,
                                      pos: nat)
    requires Lawful(eq, hash) && Distinct(slots, eq) && Represents(slots, m)
    requires pos < |slots| && slots[pos].valid && Same(eq, slots[pos].key, k)
    ensures Represents(slots[pos := slots[pos].(valid := false)], Without(m, eq, k))
    ensures |Without(m, eq, k)| == |m| - 1
  {
    var vacated := slots[pos := slots[pos].(valid := false)];
    var rest := Without(m, eq, k);
    forall i | 0 <= i < |vacated| && vacated[i].valid ensures vacated[i].key in rest {
      assert !Linked(eq, slots[i].key, k, slots[pos].key);
    }
    forall k' | k' in rest ensures Stores(vacated, |vacated|, k') {
      var i :| 0 <= i < |slots| && slots[i].valid && slots[i].key == k';
      assert vacated[i].valid;
    }
    assert rest.Keys == m.Keys - {slots[pos].key} by {
      forall k' | k' in m.Keys && k' != slots[pos].key ensures !Same(eq, k', k) {
        var i :| 0 <= i < |slots| && slots[i].valid && slots[i].key == k';
        assert i != pos && !Linked(eq, slots[i].key, k, slots[pos].key);
      }
    }
  }

  lemma OverwrittenRepresents<K(!new), V>(slots: seq<Slot<K, V>>, m: map<K, V>, eq: (K, K) -> bool, hash: K -> nat,
                                          k: K, v: V, pos: nat)
    requires Lawful(eq, hash) && Distinct(slots, eq) && Represents(slots, m)
    requires pos < |slots| && slots[pos].valid && Same(eq, slots[pos].key, k)
    ensures Represents(slots[pos := Slot(true, k, v)], Without(m, eq, k)[k := v])
    ensures |Without(m, eq, k)[k := v]| == |m|
  {
    VacatedRepresents(slots, m, eq, hash, k, pos);
    var vacated := slots[pos := slots[pos].(valid := false)];
    assert !Holds(vacated, eq, k) by {
      forall i | 0 <= i < |vacated| && vacated[i].valid ensures !Same(eq, vacated[i].key, k) {
        assert !Same(eq, slots[i].key, slots[pos].key);
      }
    }
    FilledRepresents(vacated, Without(m, eq, k), eq, k, v, pos);
    assert vacated[pos := Slot(true, k, v)] == slots[pos := Slot(true, k, v)];
  }

  lemma MovedRepresents<K(!new), V>(slots: seq<Slot<K, V>>, m: map<K, V>, gap: nat, pos: nat)
    requires Represents(slots, m) && gap < |slots| && pos < |slots| && gap != pos
    requires slots[pos].valid && !slots[gap].valid
    ensures Represents(slots[pos := slots[pos].(valid := false)][gap := slots[pos]], m)
  {
    var moved := slots[pos := slots[pos].(valid := false)][gap := slots[pos]];
    forall k | k in m ensures Stores(moved, |moved|, k) {
      var i :| 0 <= i < |slots| && slots[i].valid && slots[i].key == k;
      assert moved[if i == pos then gap else i].key == k;
    }
  }

  /** The test the deletion makes on indices normalised past the home says exactly that the gap lies in the arc
      from the home to the slot. */
  lemma NormalizedIsInArc(home: nat, gap: nat, pos: nat, capacity: nat)
    requires home < capacity && gap < capacity && pos < capacity
    ensures var normalizedGap := if gap < home then gap + capacity else gap;
            var normalizedPos := if pos < home then pos + capacity else pos;
            (normalizedGap >= home && normalizedGap <= normalizedPos) == InArc(home, gap, pos)
  {}

  class HashMap<K(!new), V> {
    const eq: (K, K) -> bool
    const hash: K -> nat
    const blank: Slot<K, V>
    var capacity: nat
    var numElements: nat
    var data: array<Slot<K, V>>
    ghost var contents: map<K, V>

    /** The table is sound and holds exactly `contents`. */
    ghost predicate Consistent()
      reads this, data
    {
      && Lawful(eq, hash) && !blank.valid
      && data.Length == capacity > 0
      && Sound(data[..], eq, hash)
      && Represents(data[..], contents)
      && numElements == |contents|
    }

    /** Between operations the table is at most half full. */
    ghost predicate Valid()
      reads this, data
    {
      Consistent() && 2 * numElements <= capacity
    }

    constructor (initialCapacity: nat, eq: (K, K) -> bool, hash: K -> nat, blank: Slot<K, V>)
      requires Lawful(eq, hash) && !blank.valid
      ensures Valid() && fresh(data)
      ensures this.eq == eq && this.hash == hash
      ensures contents == map[]
      ensures capacity == if initialCapacity > 0 then initialCapacity else 1
    {
      this.eq, this.hash, this.blank := eq, hash, blank;
      new;
      Create(initialCapacity);
    }

    /** An empty table; growing starts over with one of these. */
    method Create(initialCapacity: nat)
      requires Lawful(eq, hash) && !blank.valid
      modifies this
      ensures Valid() && fresh(data)
      ensures contents == map[]
      ensures capacity == if initialCapacity > 0 then initialCapacity else 1
    {
      var zeroed := blank;
      capacity := if initialCapacity > 0 then initialCapacity else 1;
      numElements := 0;
      data := new Slot<K, V>[capacity](_ => zeroed);
      contents := map[];
    }

    /** The probe loop that put, get and delete share. */
    method Probe(key: K) returns (pos: nat, found: bool)
      requires Consistent() && numElements < capacity
      ensures Passed(data[..], eq, key, Home(hash, key, data.Length), pos)
      ensures found == data[pos].valid == Holds(data[..], eq, key)
      ensures found ==> Same(eq, data[pos].key, key)
    {
      ghost var slots := data[..];
      ghost var empty := EmptySlot(slots, contents, eq, hash);
      pos := Home(hash, key, capacity);
      ghost var home := pos;
      while data[pos].valid && !Same(eq, data[pos].key, key)
        invariant Passed(slots, eq, key, home, pos)
        decreases Distance(pos, empty, |slots|)
      {
        ProbeAdvances(slots, eq, key, home, pos, empty);
        pos := Next(pos, capacity);
      }
      ProbeIsComplete(slots, eq, hash, key, pos);
      found := data[pos].valid;
    }

    method Put(key: K, value: V)
      requires Valid()
      modifies this, data
      ensures Valid()
      ensures contents == Without(old(contents), eq, key)[key := value]
      ensures capacity == if 2 * |contents| > old(capacity) then 2 * old(capacity) else old(capacity)
      ensures if capacity == old(capacity) then data == old(data) else fresh(data)
      decreases if 2 * (numElements + 1) > capacity then 1 else 0, 1
    {
      var pos, found := Probe(key);
      ghost var slots := data[..];
      data[pos] := Slot(true, key, value);
      contents := Without(contents, eq, key)[key := value];
      assert data[..] == slots[pos := Slot(true, key, value)];
      if !found {
        FilledIsSound(slots, eq, hash, key, value, pos);
        FilledRepresents(slots, old(contents), eq, key, value, pos);
        numElements := numElements + 1;
      } else {
        OverwrittenIsSound(slots, eq, hash, key, value, pos);
        OverwrittenRepresents(slots, old(contents), eq, hash, key, value, pos);
      }
      if 2 * numElements > capacity {
        Grow();
      }
    }

    /** Twice the slots, the same entries. */
    method Grow()
      requires Consistent() && numElements <= capacity
      modifies this
      ensures Valid() && fresh(data)
      ensures contents == old(contents) && capacity == 2 * old(capacity)
      decreases 1, 0
    {
      var oldData := data;
      ghost var slots, whole := data[..], contents;
      Create(2 * capacity);
      PutAll(oldData, slots, whole);
      RepresentedOnce(slots, contents, whole);
    }

    /** Puts the entries of the old slots into the new table. No put made here grows the table again. */
    method PutAll(oldData: array<Slot<K, V>>, ghost slots: seq<Slot<K, V>>, ghost whole: map<K, V>)
      requires Valid() && contents == map[] && oldData != data && oldData[..] == slots
      requires Distinct(slots, eq) && Represents(slots, whole) && 2 * |whole| <= capacity
      modifies this, data
      ensures Valid() && data == old(data) && capacity == old(capacity)
      ensures Represents(slots, contents)
      decreases 0, 2
    {
      for pos := 0 to oldData.Length
        invariant Valid() && data == old(data) && oldData[..] == slots && capacity == old(capacity)
        invariant RepresentsUpTo(slots, pos, contents)
        invariant contents.Keys <= whole.Keys
      {
        if oldData[pos].valid {
          PutIsAnAddition(slots, contents, whole, eq, hash, pos);
          Put(oldData[pos].key, oldData[pos].value);
        } else {
          SkippedRepresents(slots, contents, pos);
        }
      }
    }

    method Get(key: K) returns (value: Option<V>)
      requires Valid()
      ensures Reads(contents, eq, key, value)
    {
      var pos, found := Probe(key);
      if found {
        value := Some(data[pos].value);
        assert data[..][pos].valid;
      } else {
        value := None;
      }
    }

    method Delete(key: K) returns (found: bool)
      requires Valid()
      modifies this, data
      ensures Valid() && data == old(data) && capacity == old(capacity)
      ensures found == exists k' :: k' in old(contents) && Same(eq, k', key)
      ensures contents == Without(old(contents), eq, key)
    {
      var pos;
      ghost var slots, whole := data[..], contents;
      pos, found := Probe(key);
      if found {
        assert slots[pos].valid;
        ghost var empty := EmptySlot(slots, contents, eq, hash);
        VacatedRepresents(slots, contents, eq, hash, key, pos);
        data[pos] := data[pos].(valid := false);
        contents := Without(contents, eq, key);
        assert data[..] == slots[pos := slots[pos].(valid := false)];
        AdjustGap(pos, empty);
        numElements := numElements - 1;
      } else {
        assert Without(whole, eq, key) == whole;
      }
    }

    /** Closes the gap left at `gap`: afterwards every probe again meets the key it looks for before an empty slot. */
    method AdjustGap(gap: nat, ghost empty: nat)
      requires Lawful(eq, hash) && data.Length == capacity > 1 && gap < capacity && empty < capacity && gap != empty
      requires !data[empty].valid && !data[gap].valid
      requires Chained(data[..], hash, gap) && Distinct(data[..], eq) && Represents(data[..], contents)
      modifies data
      ensures Sound(data[..], eq, hash) && Represents(data[..], contents)
    {
      var gapIndex, pos := gap, Next(gap, capacity);
      while data[pos].valid
        invariant 0 <= gapIndex < capacity && 0 <= pos < capacity
        invariant Closing(data[..], eq, hash, gapIndex, pos) && Represents(data[..], contents)
        invariant !data[empty].valid && empty != gapIndex && !Between(gapIndex, empty, pos)
        decreases Distance(pos, empty, capacity)
      {
        ghost var slots := data[..];
        var hashPosition := Home(hash, data[pos].key, capacity);
        var normalizedGap := if gapIndex < hashPosition then gapIndex + capacity else gapIndex;
        var normalizedPos := if pos < hashPosition then pos + capacity else pos;
        NormalizedIsInArc(hashPosition, gapIndex, pos, capacity);
        EmptySlotStaysAhead(gapIndex, pos, empty, capacity);
        if normalizedGap >= hashPosition && normalizedGap <= normalizedPos {
          MovedIsClosing(slots, eq, hash, gapIndex, pos);
          MovedRepresents(slots, contents, gapIndex, pos);
          var key, value := data[pos].key, data[pos].value;
          data[pos] := data[pos].(valid := false);
          data[gapIndex] := Slot(true, key, value);
          assert data[..] == slots[pos := slots[pos].(valid := false)][gapIndex := slots[pos]];
          gapIndex := pos;
        } else {
          PassedIsClosing(slots, eq, hash, gapIndex, pos);
        }
        pos := Next(pos, capacity);
      }
      ClosedIsSound(data[..], eq, hash, gapIndex, pos);
    }

    /** Visits every entry once, in slot order. */
    method ForEachEntry() returns (visited: seq<(K, V)>)
      requires Valid()
      ensures forall k, v :: (k, v) in visited <==> k in contents && contents[k] == v
      ensures forall i, j :: 0 <= i < j < |visited| ==> !Same(eq, visited[i].0, visited[j].0)
    {
      visited := [];
      ghost var slots := data[..];
      for pos := 0 to capacity
        invariant forall i :: 0 <= i < |visited| ==> VisitedFrom(slots, pos, visited[i])
        invariant forall j :: 0 <= j < pos && slots[j].valid ==> (slots[j].key, slots[j].value) in visited
        invariant forall i, j :: 0 <= i < j < |visited| ==> !Same(eq, visited[i].0, visited[j].0)
      {
        if data[pos].valid {
          assert forall j :: 0 <= j < pos && slots[j].valid ==> !Same(eq, slots[j].key, slots[pos].key);
          visited := visited + [(data[pos].key, data[pos].value)];
        }
      }
    }
  }

  ghost predicate VisitedFrom<K(!new), V>(slots: seq<Slot<K, V>>, n: nat, entry: (K, V)) {
    exists j :: 0 <= j < n <= |slots| && slots[j].valid && entry == (slots[j].key, slots[j].value)
  }

  /** While the old slots are put into the new table one after another, each of their keys is new there. */
  lemma PutIsAnAddition<K(!new), V>(slots: seq<Slot<K, V>>, done: map<K, V>, whole: map<K, V>, eq: (K, K) -> bool,
                                    hash: K -> nat, pos: nat)
    requires Lawful(eq, hash) && Distinct(slots, eq) && Represents(slots, whole)
    requires pos < |slots| && slots[pos].valid && RepresentsUpTo(slots, pos, done) && done.Keys <= whole.Keys
    ensures var s := slots[pos];
            && Without(done, eq, s.key) == done
            && |done| + 1 == |done[s.key := s.value]| <= |whole|
            && RepresentsUpTo(slots, pos + 1, done[s.key := s.value])
  {
    var s := slots[pos];
    KeyIsNew(slots, done, eq, pos);
    assert s.key in whole && s.key !in done;
    AddedSize(done, whole, s.key, s.value);
    AddedRepresents(slots, done, pos);
  }

  lemma KeyIsNew<K(!new), V>(slots: seq<Slot<K, V>>, done: map<K, V>, eq: (K, K) -> bool, pos: nat)
    requires Distinct(slots, eq) && pos < |slots| && slots[pos].valid && RepresentsUpTo(slots, pos, done)
    ensures Without(done, eq, slots[pos].key) == done
    ensures Same(eq, slots[pos].key, slots[pos].key) ==> slots[pos].key !in done
  {
    forall k | k in done ensures !Same(eq, k, slots[pos].key) {
      var i :| 0 <= i < pos && slots[i].valid && slots[i].key == k;
    }
  }

  lemma AddedSize<K, V>(done: map<K, V>, whole: map<K, V>, k: K, v: V)
    requires done.Keys <= whole.Keys && k in whole && k !in done
    ensures |done| + 1 == |done[k := v]| <= |whole|
  {
    assert done[k := v].Keys == done.Keys + {k};
    SubsetIsNoLarger(done[k := v].Keys, whole.Keys);
  }

  lemma AddedRepresents<K(!new), V>(slots: seq<Slot<K, V>>, done: map<K, V>, pos: nat)
    requires pos < |slots| && slots[pos].valid && RepresentsUpTo(slots, pos, done) && slots[pos].key !in done
    ensures RepresentsUpTo(slots, pos + 1, done[slots[pos].key := slots[pos].value])
  {
    var next := done[slots[pos].key := slots[pos].value];
    forall k | k in next ensures Stores(slots, pos + 1, k) {
      assert k != slots[pos].key ==> Stores(slots, pos, k);
    }
  }

  lemma SkippedRepresents<K(!new), V>(slots: seq<Slot<K, V>>, done: map<K, V>, pos: nat)
    requires pos < |slots| && !slots[pos].valid && RepresentsUpTo(slots, pos, done)
    ensures RepresentsUpTo(slots, pos + 1, done)
  {
    forall k | k in done ensures Stores(slots, pos + 1, k) {
      assert Stores(slots, pos, k);
    }
  }

  lemma RepresentedOnce<K(!new), V>(slots: seq<Slot<K, V>>, m: map<K, V>, n: map<K, V>)
    requires Represents(slots, m) && Represents(slots, n)
    ensures m == n
  {
    forall k | k in m ensures k in n && n[k] == m[k] {
      var i :| 0 <= i < |slots| && slots[i].valid && slots[i].key == k;
    }
    forall k | k in n ensures k in m {
      var i :| 0 <= i < |slots| && slots[i].valid && slots[i].key == k;
    }
  }
}
