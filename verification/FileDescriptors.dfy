/** The file descriptors of a process (src/process.c): the hash map over 32-bit keys, handed out in order. */
module FileDescriptors {
  import opened Wrappers
  import opened Probing
  import opened HashMap

  /** A descriptor read as an unsigned word. */
  function DescriptorHash(fd: int): nat {
    fd % 0x1_0000_0000
  }

  predicate DescriptorCompare(fd1: int, fd2: int) {
    fd1 == fd2
  }

  lemma DescriptorsAreLawful(eq: (int, int) -> bool, hash: int -> nat)
    requires forall a, b :: eq(a, b) == DescriptorCompare(a, b)
    requires forall a :: hash(a) == DescriptorHash(a)
    ensures Lawful(eq, hash)
  {
    assert forall a, b :: Same(eq, a, b) == (a == b);
  }

  function Numbered<V>(nodes: seq<V>): map<int, V> {
    map fd | 0 <= fd < |nodes| :: nodes[fd]
  }

  /** Putting the next descriptor overwrites none of those handed out. */
  lemma NextIsFree<V>(nodes: seq<V>, node: V, eq: (int, int) -> bool)
    requires forall a, b :: Same(eq, a, b) == (a == b)
    ensures Without(Numbered(nodes), eq, |nodes|)[|nodes| := node] == Numbered(nodes + [node])
  {}

  class DescriptorTable<V> {
    const files: HashMap<int, V>
    var next: int
    /** The files opened so far, in order. */
    ghost var nodes: seq<V>

    /** Descriptor `fd` stands for the `fd`-th file opened. */
    ghost predicate Valid()
      reads this, files, files.data
    {
      && files.Valid() && next == |nodes|
      && (forall a, b :: Same(files.eq, a, b) == (a == b))
      && files.contents == Numbered(nodes)
    }

    constructor (zero: V)
      ensures Valid() && fresh(files) && fresh(files.data) && nodes == []
    {
      DescriptorsAreLawful(DescriptorCompare, DescriptorHash);
      var table := new HashMap<int, V>(16, DescriptorCompare, DescriptorHash, Slot(false, 0, zero));
      files := table;
      next := 0;
      nodes := [];
      new;
      assert forall a, b :: Same(files.eq, a, b) == (a == b);
    }

    /** The next descriptor; the ones handed out before keep their files. */
    method Add(node: V) returns (fd: int)
      requires Valid() && next < 0x7FFF_FFFF
      modifies this, files, files.data
      ensures Valid() && (files.data == old(files.data) || fresh(files.data))
      ensures fd == |old(nodes)| && nodes == old(nodes) + [node]
    {
      fd := next;
      next := next + 1;
      NextIsFree(nodes, node, files.eq);
      files.Put(fd, node);
      nodes := nodes + [node];
    }

    method Lookup(fd: int) returns (node: Option<V>)
      requires Valid()
      ensures node == if 0 <= fd < |nodes| then Some(nodes[fd]) else None
    {
      node := files.Get(fd);
      assert fd in files.contents ==> Same(files.eq, fd, fd);
    }
  }
}
