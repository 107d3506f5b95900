/** The circular list of processes (src/process.c). */
module ProcessRing {
  import opened Wrappers

  /** `directory` is None as long as a fork has not set it: the field then holds whatever was in its memory before. */
  datatype Process = Process(pid: nat, directory: Option<int>, previous: int, next: int)

  type Processes = map<int, Process>

  /** The place after, and the one before, going round `n` places. */
  function Successor(k: int, n: int): int {
    if k + 1 == n then 0 else k + 1
  }

  function Predecessor(k: int, n: int): int {
    if k == 0 then n - 1 else k - 1
  }

  /** Process number `k` of the ring points to its neighbours, and has not come before. */
  ghost predicate LinkedAt(processes: Processes, ring: seq<int>, k: int) {
    && 0 <= k < |ring| && ring[k] in processes
    && processes[ring[k]].next == ring[Successor(k, |ring|)]
    && processes[ring[k]].previous == ring[Predecessor(k, |ring|)]
    && (forall j :: 0 <= j < k ==> ring[j] != ring[k])
  }

  /** `ring` lists all processes in turn order, and the links go round it both ways. */
  ghost predicate Cycle(processes: Processes, ring: seq<int>) {
    && |ring| > 0 && (forall k :: 0 <= k < |ring| ==> LinkedAt(processes, ring, k))
    && (forall p :: p in processes ==> p in ring)
  }

  lemma NoneTwice(processes: Processes, ring: seq<int>)
    requires Cycle(processes, ring)
    ensures forall j, k :: 0 <= j < k < |ring| ==> ring[j] != ring[k]
  {
    forall j, k | 0 <= j < k < |ring| ensures ring[j] != ring[k] {
      assert LinkedAt(processes, ring, k);
    }
  }

  /** Process number `k` of the ring has address space number `k` of `live`, or none yet. */
  ghost predicate HousedAt(processes: Processes, ring: seq<int>, live: seq<int>, k: int) {
    && 0 <= k < |ring| && ring[k] in processes
    && processes[ring[k]].directory == if k < |live| then Some(live[k]) else None
  }

  /** `live` lists the page directories of the processes in turn order; the last process may still be without one. */
  ghost predicate Housed(processes: Processes, ring: seq<int>, live: seq<int>) {
    |ring| - 1 <= |live| <= |ring| && forall k :: 0 <= k < |ring| ==> HousedAt(processes, ring, live, k)
  }

  /** The processes of `some` are among `more`, and differ at most in their links. */
  ghost predicate SameProcesses(some: Processes, more: Processes) {
    forall p :: p in some ==>
      p in more && more[p].pid == some[p].pid && more[p].directory == some[p].directory
  }

  /** Every process that has its address space has a pid below the next one, and no two have the same. */
  ghost predicate Numbered(processes: Processes, nextPid: nat) {
    && (forall p :: p in processes && processes[p].directory.Some? ==> processes[p].pid < nextPid)
    && (forall p, q ::
          && p in processes && q in processes && p != q
          && processes[p].directory.Some? && processes[q].directory.Some? ==>
          processes[p].pid != processes[q].pid)
  }

  /** Links and processes without an address space do not matter for that. */
  lemma StaysNumbered(before: Processes, after: Processes, nextPid: nat)
    requires Numbered(before, nextPid)
    requires forall p :: p in after && after[p].directory.Some? ==>
               p in before && before[p].directory.Some? && before[p].pid == after[p].pid
    ensures Numbered(after, nextPid)
  {}

  /** The process just given its address space has the next pid. */
  lemma NextIsNumbered(before: Processes, after: Processes, child: int, nextPid: nat, next: nat)
    requires Numbered(before, nextPid) && next == nextPid + 1
    requires child in after && after[child].pid == nextPid && after.Keys == before.Keys
    requires forall p :: p in after && p != child ==> after[p] == before[p]
    ensures Numbered(after, next)
  {}

  /** When every process has its address space, the next pid is nobody's. */
  lemma NextPidIsNew(processes: Processes, ring: seq<int>, live: seq<int>, nextPid: nat)
    requires Cycle(processes, ring) && Housed(processes, ring, live) && |live| == |ring|
    requires Numbered(processes, nextPid)
    ensures forall p :: p in processes ==> processes[p].directory.Some? && processes[p].pid != nextPid
  {
    forall p | p in processes ensures processes[p].directory.Some? && processes[p].pid != nextPid {
      var k :| 0 <= k < |ring| && ring[k] == p;
      assert HousedAt(processes, ring, live, k);
    }
  }

  /** The first process is linked to itself. */
  lemma AloneIsCycle(first: int, process: Process)
    requires process.previous == first && process.next == first && process.directory.Some?
    ensures Cycle(map[first := process], [first])
    ensures Housed(map[first := process], [first], [process.directory.value])
  {
    assert LinkedAt(map[first := process], [first], 0);
  }

  /** The four links a fork writes: the child goes in before the active process. */
  function Inserted(processes: Processes, active: int, child: int, process: Process): Processes
    requires active in processes && processes[active].previous in processes
  {
    var previous := processes[active].previous;
    var p1 := processes[previous := processes[previous].(next := child)];
    var p2 := p1[active := p1[active].(previous := child)];
    p2[child := process.(previous := previous, next := active)]
  }

  /** The child's turn comes last; it has no address space yet. */
  lemma InsertedIsLast(processes: Processes, ring: seq<int>, live: seq<int>, child: int, process: Process)
    requires Cycle(processes, ring) && Housed(processes, ring, live) && |live| == |ring|
    requires child !in processes && process.directory.None?
    ensures ring[0] in processes
    ensures processes[ring[0]].previous == ring[|ring| - 1] && ring[|ring| - 1] in processes
    ensures Cycle(Inserted(processes, ring[0], child, process), ring + [child])
    ensures Housed(Inserted(processes, ring[0], child, process), ring + [child], live)
  {
    var n := |ring|;
    NoneTwice(processes, ring);
    assert LinkedAt(processes, ring, 0) && LinkedAt(processes, ring, n - 1);
    var after, longer := Inserted(processes, ring[0], child, process), ring + [child];
    forall j | 0 <= j < n ensures ring[j] != child {
      assert LinkedAt(processes, ring, j);
    }
    forall k | 0 <= k < n + 1 ensures LinkedAt(after, longer, k) && HousedAt(after, longer, live, k) {
      if k < n {
        assert LinkedAt(processes, ring, k) && HousedAt(processes, ring, live, k);
        assert ring[k] != child;
        assert k != n - 1 ==> ring[k] != ring[n - 1];
        assert k != 0 ==> ring[k] != ring[0];
      }
    }
  }

  /** The last process is given its address space. */
  lemma LastIsHoused(processes: Processes, ring: seq<int>, live: seq<int>, child: int, d: int, pid: nat)
    requires Cycle(processes, ring) && Housed(processes, ring, live) && |live| == |ring| - 1 && child == ring[|live|]
    ensures child in processes
    ensures var after := processes[child := processes[child].(directory := Some(d), pid := pid)];
            Cycle(after, ring) && Housed(after, ring, live + [d]) && |live + [d]| == |ring|
  {
    NoneTwice(processes, ring);
    assert LinkedAt(processes, ring, |live|);
    var after := processes[child := processes[child].(directory := Some(d), pid := pid)];
    forall k | 0 <= k < |ring| ensures LinkedAt(after, ring, k) && HousedAt(after, ring, live + [d], k) {
      assert LinkedAt(processes, ring, k) && HousedAt(processes, ring, live, k);
      assert k < |live| ==> ring[k] != child;
    }
  }

  /** The two links an exit writes. */
  function Removed(processes: Processes, exiting: int): Processes
    requires exiting in processes && processes[exiting].next in processes && processes[exiting].previous in processes
  {
    var next, previous := processes[exiting].next, processes[exiting].previous;
    var p1 := processes[next := processes[next].(previous := previous)];
    var p2 := p1[previous := p1[previous].(next := next)];
    p2 - {exiting}
  }

  /** The successor of the active process is another one, unless the active one is alone. */
  lemma NextIsOther(processes: Processes, ring: seq<int>)
    requires Cycle(processes, ring)
    ensures ring[0] in processes
    ensures if |ring| == 1 then processes[ring[0]].next == ring[0]
            else processes[ring[0]].next == ring[1] != ring[0]
  {
    assert LinkedAt(processes, ring, 0);
    NoneTwice(processes, ring);
  }

  /** When another process is left, only the exiting one goes, and its successor comes first. */
  lemma RemovedIsRest(processes: Processes, ring: seq<int>, live: seq<int>)
    requires Cycle(processes, ring) && |ring| > 1 && Housed(processes, ring, live) && |live| == |ring|
    ensures ring[0] in processes
    ensures processes[ring[0]].next == ring[1] && ring[1] in processes && processes[ring[0]].previous in processes
    ensures Cycle(Removed(processes, ring[0]), ring[1..])
    ensures Housed(Removed(processes, ring[0]), ring[1..], live[1..])
  {
    var n := |ring|;
    NoneTwice(processes, ring);
    assert LinkedAt(processes, ring, 0) && LinkedAt(processes, ring, 1) && LinkedAt(processes, ring, n - 1);
    var after, rest := Removed(processes, ring[0]), ring[1..];
    RestStaysLinked(processes, after, ring, rest, live);
  }

  lemma RestStaysLinked(processes: Processes, after: Processes, ring: seq<int>, rest: seq<int>, live: seq<int>)
    requires Cycle(processes, ring) && |ring| > 1 && ring[0] in processes && rest == ring[1..]
    requires Housed(processes, ring, live) && |live| == |ring|
    requires processes[ring[0]].next in processes && processes[ring[0]].previous in processes
    requires after == Removed(processes, ring[0])
    ensures Cycle(after, rest) && Housed(after, rest, live[1..])
  {
    forall k | 0 <= k < |rest| ensures LinkedAt(after, rest, k) && HousedAt(after, rest, live[1..], k) {
      assert HousedAt(processes, ring, live, k + 1);
      StaysLinked(processes, after, ring, rest, k);
    }
  }

  lemma StaysLinked(processes: Processes, after: Processes, ring: seq<int>, rest: seq<int>, k: int)
    requires Cycle(processes, ring) && |ring| > 1 && ring[0] in processes && rest == ring[1..] && 0 <= k < |rest|
    requires processes[ring[0]].next in processes && processes[ring[0]].previous in processes
    requires after == Removed(processes, ring[0])
    ensures LinkedAt(after, rest, k) && ring[k + 1] in processes
    ensures after[rest[k]].directory == processes[ring[k + 1]].directory
  {
    var n := |ring|;
    NoneTwice(processes, ring);
    assert LinkedAt(processes, ring, 0) && LinkedAt(processes, ring, k + 1);
    assert k + 1 != n - 1 ==> ring[k + 1] != ring[n - 1];
    assert k + 1 != 1 ==> ring[k + 1] != ring[1];
  }

  function Rotated(ring: seq<int>): seq<int>
    requires |ring| > 0
  {
    ring[1..] + [ring[0]]
  }

  /** Switching to the next process moves the start of the ring, and no link. */
  lemma RotatedIsCycle(processes: Processes, ring: seq<int>, live: seq<int>)
    requires Cycle(processes, ring) && Housed(processes, ring, live) && |live| == |ring|
    ensures Cycle(processes, Rotated(ring)) && ring[0] in processes && processes[ring[0]].next == Rotated(ring)[0]
    ensures Housed(processes, Rotated(ring), Rotated(live))
  {
    var n, turned := |ring|, Rotated(ring);
    NoneTwice(processes, ring);
    assert LinkedAt(processes, ring, 0);
    forall k | 0 <= k < n ensures LinkedAt(processes, turned, k) && HousedAt(processes, turned, Rotated(live), k) {
      assert turned[k] == ring[Successor(k, n)] && LinkedAt(processes, ring, Successor(k, n));
      assert HousedAt(processes, ring, live, Successor(k, n));
    }
  }

  /** The ring after `k` switches. */
  function RotatedBy(ring: seq<int>, k: nat): (turned: seq<int>)
    requires |ring| > 0
    ensures |turned| == |ring|
  {
    if k == 0 then ring else Rotated(RotatedBy(ring, k - 1))
  }

  lemma {:induction false} RotatedByIs(ring: seq<int>, k: nat)
    requires |ring| > 0 && k <= |ring|
    ensures RotatedBy(ring, k) == ring[k..] + ring[..k]
  {
    if k > 0 {
      RotatedByIs(ring, k - 1);
      assert ring[k - 1..] == [ring[k - 1]] + ring[k..];
      assert ring[..k] == ring[..k - 1] + [ring[k - 1]];
    }
  }

  lemma TurnIs(ring: seq<int>, k: nat)
    requires 1 <= k <= |ring|
    ensures RotatedBy(ring, k)[0] == ring[if k == |ring| then 0 else k]
  {
    RotatedByIs(ring, k);
  }

  lemma EachHasItsTurn(ring: seq<int>, p: int) returns (k: nat)
    requires p in ring
    ensures 1 <= k <= |ring| && RotatedBy(ring, k)[0] == p
  {
    var i :| 0 <= i < |ring| && ring[i] == p;
    k := if i == 0 then |ring| else i;
    TurnIs(ring, k);
  }

  /** With n processes, n switches activate each process exactly once and come back to the start. */
  lemma TurnsAreFair(processes: Processes, ring: seq<int>, p: int)
    requires Cycle(processes, ring) && p in ring
    ensures RotatedBy(ring, |ring|) == ring
    ensures exists k :: 1 <= k <= |ring| && RotatedBy(ring, k)[0] == p
    ensures forall j, k :: 1 <= j < k <= |ring| ==> RotatedBy(ring, j)[0] != RotatedBy(ring, k)[0]
  {
    RotatedByIs(ring, |ring|);
    var turn := EachHasItsTurn(ring, p);
    NoneTwice(processes, ring);
    forall j, k | 1 <= j < k <= |ring| ensures RotatedBy(ring, j)[0] != RotatedBy(ring, k)[0] {
      TurnIs(ring, j);
      TurnIs(ring, k);
    }
  }
}
