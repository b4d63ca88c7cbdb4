/** The consistent-hash ring of hashring.go, as the code has it: two slices,
    `nodes` in the order the nodes were added and `hashes` kept sorted. The
    slices are not index-aligned, and GetNode picks `nodes[i]` for the index
    `i` it finds in `hashes`. SHA-1 is the ring's `sha1` parameter, an
    arbitrary function to 20-byte digests. */
module Ring {

  /** A SHA-1 digest: 20 bytes. */
  type Digest = d: seq<bv8> | |d| == 20 witness seq(20, _ => 0 as bv8)

  /** Go's uint32. */
  newtype Uint32 = x: int | 0 <= x < 0x1_0000_0000

  datatype Node = Node(id: string, addr: string)

  /** The result of an operation that may hit a Go runtime panic (an index
      or slice bound out of range). */
  datatype Outcome<T> = Done(value: T) | Panic

  /** bytesToUint32: the first four bytes, big-endian. */
  function BytesToUint32(b: seq<bv8>): (r: Uint32)
    requires |b| >= 4
    ensures r as int == b[0] as int * 0x100_0000 + b[1] as int * 0x1_0000 + b[2] as int * 0x100 + b[3] as int
  {
    ((b[0] as bv32 << 24) | (b[1] as bv32 << 16) | (b[2] as bv32 << 8) | b[3] as bv32) as Uint32
  }

  /** hash: the ring position of a node id or a key. */
  function KeyHash(sha1: string -> Digest, key: string): (h: Uint32)
    ensures var d := sha1(key);
            h as int == d[0] as int * 0x100_0000 + d[1] as int * 0x1_0000 + d[2] as int * 0x100 + d[3] as int
  {
    BytesToUint32(sha1(key))
  }

  /** The positions of `nodes`, in the order of `nodes`. */
  function NodeHashes(sha1: string -> Digest, nodes: seq<Node>): (hs: seq<Uint32>)
    ensures |hs| == |nodes|
    ensures forall i :: 0 <= i < |nodes| ==> hs[i] == KeyHash(sha1, nodes[i].id)
  {
    seq(|nodes|, i requires 0 <= i < |nodes| => KeyHash(sha1, nodes[i].id))
  }

  predicate Sorted(s: seq<Uint32>) {
    forall i, j :: 0 <= i < j < |s| ==> s[i] <= s[j]
  }

  /** The first index whose hash is at least `h`, or |hashes| when none is
      (the answer sort.Search gives for the predicate hashes[i] >= h). */
  function FirstAtLeast(hashes: seq<Uint32>, h: Uint32): (i: nat)
    ensures i <= |hashes|
    ensures forall j :: 0 <= j < i ==> hashes[j] < h
    ensures i < |hashes| ==> hashes[i] >= h
  {
    if hashes == [] || hashes[0] >= h then 0 else 1 + FirstAtLeast(hashes[1..], h)
  }

  /** GetNode's index into `nodes`: the first position at or after the key's
      hash, wrapping round to 0 past the last one. */
  function RingIndex(hashes: seq<Uint32>, h: Uint32): (i: nat)
    ensures hashes != [] ==> i < |hashes|
    ensures (forall j :: 0 <= j < |hashes| ==> hashes[j] < h) ==> i == 0
    ensures (exists j :: 0 <= j < |hashes| && hashes[j] >= h) ==>
              && hashes[i] >= h
              && forall j :: 0 <= j < i ==> hashes[j] < h
  {
    var i := FirstAtLeast(hashes, h);
    if i == |hashes| then 0 else i
  }

  /** FirstAtLeast is the only index with its two properties. */
  lemma FirstAtLeastUnique(hashes: seq<Uint32>, h: Uint32, i: nat)
    requires i <= |hashes|
    requires forall j :: 0 <= j < i ==> hashes[j] < h
    requires i < |hashes| ==> hashes[i] >= h
    ensures i == FirstAtLeast(hashes, h)
  {
  }

  /** sort.Search over the sorted hashes: a binary search for the first hash
      at least `h`. */
  method Search(hashes: seq<Uint32>, h: Uint32) returns (i: nat)
    requires Sorted(hashes)
    ensures i == FirstAtLeast(hashes, h)
  {
    var lo, hi := 0, |hashes|;
    while lo < hi
      invariant 0 <= lo <= hi <= |hashes|
      invariant forall j :: 0 <= j < lo ==> hashes[j] < h
      invariant forall j :: hi <= j < |hashes| ==> hashes[j] >= h
    {
      var mid := (lo + hi) / 2;
      if hashes[mid] < h {
        lo := mid + 1;
      } else {
        hi := mid;
      }
    }
    FirstAtLeastUnique(hashes, h, lo);
    i := lo;
  }

  /** The head of a sorted slice is its least element. */
  lemma SortedHeadLeast(s: seq<Uint32>, x: Uint32)
    requires Sorted(s) && x in multiset(s)
    ensures s[0] <= x
  {
    var k :| 0 <= k < |s| && s[k] == x;
  }

  /** A least element put in front of a sorted slice keeps it sorted. */
  lemma SortedCons(x: Uint32, s: seq<Uint32>)
    requires Sorted(s) && forall k :: 0 <= k < |s| ==> x <= s[k]
    ensures Sorted([x] + s)
  {
    var r := [x] + s;
    forall i, j | 0 <= i < j < |r| ensures r[i] <= r[j] {
      assert r[j] == s[j - 1];
      if i > 0 {
        assert r[i] == s[i - 1];
      }
    }
  }

  /** `h` placed in the sorted `s` before the first element not below it. */
  function Insert(s: seq<Uint32>, h: Uint32): (r: seq<Uint32>)
    requires Sorted(s)
    ensures Sorted(r)
    ensures multiset(r) == multiset(s) + multiset{h}
  {
    if s == [] || h <= s[0] then
      SortedCons(h, s);
      [h] + s
    else
      var rest := Insert(s[1..], h);
      assert multiset(s) == multiset{s[0]} + multiset(s[1..]) by {
        assert s == [s[0]] + s[1..];
      }
      assert forall k :: 0 <= k < |rest| ==> s[0] <= rest[k] by {
        forall k | 0 <= k < |rest| ensures s[0] <= rest[k] {
          assert rest[k] in multiset(rest);
          if rest[k] != h {
            SortedHeadLeast(s, rest[k]);
          }
        }
      }
      SortedCons(s[0], rest);
      [s[0]] + rest
  }

  /** Two sorted arrangements of one non-empty multiset start alike, and
      what follows their heads is again two sorted arrangements of one
      multiset. */
  lemma SortedSameHead(a: seq<Uint32>, b: seq<Uint32>)
    requires Sorted(a) && Sorted(b) && multiset(a) == multiset(b) && a != []
    ensures b != [] && a[0] == b[0]
    ensures Sorted(a[1..]) && Sorted(b[1..]) && multiset(a[1..]) == multiset(b[1..])
  {
    assert b != [] by {
      assert |a| == |multiset(a)| == |multiset(b)| == |b|;
    }
    var x, y := a[0], b[0];
    assert x == y by {
      SortedHeadLeast(a, y);
      SortedHeadLeast(b, x);
    }
    assert multiset(a[1..]) == multiset(b[1..]) by {
      assert a == [x] + a[1..] && b == [y] + b[1..];
      assert multiset(a[1..]) == multiset(a) - multiset{x};
      assert multiset(b[1..]) == multiset(b) - multiset{y};
    }
  }

  /** A sorted arrangement of a multiset is unique: whatever order sort.Slice
      visits the slice in, the sorted result is the same. */
  lemma {:induction false} SortedPermutationUnique(a: seq<Uint32>, b: seq<Uint32>)
    requires Sorted(a) && Sorted(b) && multiset(a) == multiset(b)
    ensures a == b
  {
    if a == [] {
      assert |b| == |multiset(b)| == |multiset(a)| == 0;
    } else {
      SortedSameHead(a, b);
      SortedPermutationUnique(a[1..], b[1..]);
      assert a == [a[0]] + a[1..] && b == [b[0]] + b[1..];
    }
  }

  /** The first index of a node with id `id`, or |nodes| when there is none. */
  function IndexOfId(nodes: seq<Node>, id: string): (i: nat)
    ensures i <= |nodes|
    ensures forall j :: 0 <= j < i ==> nodes[j].id != id
    ensures i < |nodes| ==> nodes[i].id == id
  {
    if nodes == [] || nodes[0].id == id then 0 else 1 + IndexOfId(nodes[1..], id)
  }

  /** The first index holding `h`, or |s| when there is none. */
  function IndexOf(s: seq<Uint32>, h: Uint32): (i: nat)
    ensures i <= |s|
    ensures forall j :: 0 <= j < i ==> s[j] != h
    ensures i < |s| ==> s[i] == h
  {
    if s == [] || s[0] == h then 0 else 1 + IndexOf(s[1..], h)
  }

  /** append(s[:i], s[i+1:]...) */
  function RemoveAt<T>(s: seq<T>, i: nat): (r: seq<T>)
    requires i < |s|
    ensures |r| == |s| - 1
    ensures multiset(r) == multiset(s) - multiset{s[i]}
    ensures forall k :: 0 <= k < |r| ==> r[k] == if k < i then s[k] else s[k + 1]
  {
    assert s == s[..i] + [s[i]] + s[i + 1..];
    s[..i] + s[i + 1..]
  }

  /** The first occurrence of `h` taken out of `s`; `s` itself when `h` does
      not occur. */
  function RemoveValue(s: seq<Uint32>, h: Uint32): (r: seq<Uint32>)
    ensures multiset(r) == multiset(s) - multiset{h}
    ensures |r| == if h in s then |s| - 1 else |s|
    ensures h !in s ==> r == s
  {
    var j := IndexOf(s, h);
    if j < |s| then RemoveAt(s, j) else s
  }

  /** Taking a value out of a sorted slice leaves it sorted. */
  lemma RemoveValueKeepsSorted(s: seq<Uint32>, h: Uint32)
    requires Sorted(s)
    ensures Sorted(RemoveValue(s, h))
  {
    var j := IndexOf(s, h);
    if j < |s| {
      var r := RemoveAt(s, j);
      forall a, b | 0 <= a < b < |r| ensures r[a] <= r[b] {
        var a', b' := if a < j then a else a + 1, if b < j then b else b + 1;
        assert r[a] == s[a'] && r[b] == s[b'];
      }
    }
  }

  /** `hashes` holds exactly the positions of `nodes`, in some order. */
  ghost predicate AlignedSlices(sha1: string -> Digest, nodes: seq<Node>, hashes: seq<Uint32>) {
    multiset(hashes) == multiset(NodeHashes(sha1, nodes))
  }

  /** The position RemoveNode drops from `nodes`: the first node with the
      id, or 0 when there is none (the index variable keeps its initial value). */
  function DroppedIndex(nodes: seq<Node>, id: string): nat {
    var i := IndexOfId(nodes, id);
    if i < |nodes| then i else 0
  }

  /** The hash RemoveNode drops from `hashes`: the id's position, or 0 when
      the id is not on the ring. */
  function DroppedHash(sha1: string -> Digest, nodes: seq<Node>, id: string): Uint32 {
    if IndexOfId(nodes, id) < |nodes| then KeyHash(sha1, id) else 0
  }

  /** RemoveNode's first loop: where the node with `id` sits and its hash. */
  method FindNode(sha1: string -> Digest, nodes: seq<Node>, id: string) returns (index: nat, hash: Uint32)
    ensures index == DroppedIndex(nodes, id) && hash == DroppedHash(sha1, nodes, id)
  {
    index, hash := 0, 0;
    var i := 0;
    while i < |nodes|
      invariant i <= IndexOfId(nodes, id)
    {
      if nodes[i].id == id {
        hash := KeyHash(sha1, nodes[i].id);
        index := i;
        break;
      }
      i := i + 1;
    }
  }

  /** RemoveNode's second loop: the first slot holding `h` cut out. */
  method RemoveFirst(hashes: seq<Uint32>, h: Uint32) returns (r: seq<Uint32>)
    ensures r == RemoveValue(hashes, h)
  {
    r := hashes;
    var j := 0;
    while j < |hashes|
      invariant j <= IndexOf(hashes, h)
      invariant r == hashes
    {
      if hashes[j] == h {
        r := hashes[..j] + hashes[j + 1..];
        break;
      }
      j := j + 1;
    }
  }

  /** Parallel slices are equally long. */
  lemma AlignedLength(sha1: string -> Digest, nodes: seq<Node>, hashes: seq<Uint32>)
    requires AlignedSlices(sha1, nodes, hashes)
    ensures |hashes| == |nodes|
  {
    assert |hashes| == |multiset(hashes)| == |multiset(NodeHashes(sha1, nodes))| == |NodeHashes(sha1, nodes)|;
  }

  /** Positions follow the nodes they belong to when one is cut out. */
  lemma NodeHashesRemoveAt(sha1: string -> Digest, nodes: seq<Node>, i: nat)
    requires i < |nodes|
    ensures NodeHashes(sha1, RemoveAt(nodes, i)) == RemoveAt(NodeHashes(sha1, nodes), i)
  {
    var hs, rs := NodeHashes(sha1, nodes), NodeHashes(sha1, RemoveAt(nodes, i));
    forall k | 0 <= k < |rs| ensures rs[k] == RemoveAt(hs, i)[k] {
      if k < i {
        assert RemoveAt(nodes, i)[k] == nodes[k];
      } else {
        assert RemoveAt(nodes, i)[k] == nodes[k + 1];
      }
    }
  }

  /** Removing a node that is present, from parallel slices, leaves them
      parallel and one shorter each. */
  lemma RemovePresentKeepsAligned(sha1: string -> Digest, nodes: seq<Node>, hashes: seq<Uint32>, id: string)
    requires AlignedSlices(sha1, nodes, hashes)
    requires IndexOfId(nodes, id) < |nodes|
    ensures var nodes' := RemoveAt(nodes, DroppedIndex(nodes, id));
            var hashes' := RemoveValue(hashes, DroppedHash(sha1, nodes, id));
            && AlignedSlices(sha1, nodes', hashes')
            && |nodes'| == |nodes| - 1 && |hashes'| == |hashes| - 1
  {
    var i, h := DroppedIndex(nodes, id), DroppedHash(sha1, nodes, id);
    var hs := NodeHashes(sha1, nodes);
    assert h in multiset(hashes) by {
      assert hs[i] == h;
      assert h in multiset(hs);
    }
    NodeHashesRemoveAt(sha1, nodes, i);
    assert multiset(RemoveAt(hs, i)) == multiset(hs) - multiset{h};
  }

  /** Both facts RemoveNode keeps, for the slices it leaves behind. */
  lemma RemoveNodeKeepsInvariants(sha1: string -> Digest, nodes: seq<Node>, hashes: seq<Uint32>, id: string)
    requires Sorted(hashes) && nodes != []
    ensures Sorted(RemoveValue(hashes, DroppedHash(sha1, nodes, id)))
    ensures AlignedSlices(sha1, nodes, hashes) && IndexOfId(nodes, id) < |nodes| ==>
      AlignedSlices(sha1, RemoveAt(nodes, DroppedIndex(nodes, id)), RemoveValue(hashes, DroppedHash(sha1, nodes, id)))
  {
    RemoveValueKeepsSorted(hashes, DroppedHash(sha1, nodes, id));
    if AlignedSlices(sha1, nodes, hashes) && IndexOfId(nodes, id) < |nodes| {
      RemovePresentKeepsAligned(sha1, nodes, hashes, id);
    }
  }

  /** Removing an id that is not on the ring still removes `nodes[0]`, and
      removes a hash only if some node sits at position 0. */
  lemma RemoveAbsentDropsFirst(sha1: string -> Digest, nodes: seq<Node>, hashes: seq<Uint32>, id: string)
    requires nodes != [] && forall n :: n in nodes ==> n.id != id
    ensures DroppedIndex(nodes, id) == 0 && DroppedHash(sha1, nodes, id) == 0
    ensures RemoveAt(nodes, DroppedIndex(nodes, id)) == nodes[1..]
    ensures RemoveValue(hashes, DroppedHash(sha1, nodes, id)) == hashes <==> 0 !in hashes
  {
    assert forall j :: 0 <= j < |nodes| ==> nodes[j] in nodes;
    if 0 in hashes {
      assert |RemoveValue(hashes, 0)| == |hashes| - 1;
    }
  }

  /** hashring.go's HashRing. */
  class HashRing {
    const sha1: string -> Digest
    var nodes: seq<Node>
    var hashes: seq<Uint32>

    /** AddNode and RemoveNode keep the hashes sorted. */
    ghost predicate Valid()
      reads this
    {
      Sorted(hashes)
    }

    ghost predicate Aligned()
      reads this
    {
      AlignedSlices(sha1, nodes, hashes)
    }

    /** NewHashRing */
    constructor (sha1: string -> Digest)
      ensures Valid() && Aligned()
      ensures this.sha1 == sha1 && nodes == [] && hashes == []
    {
      this.sha1 := sha1;
      nodes := [];
      hashes := [];
    }

    method AddNode(node: Node)
      requires Valid()
      modifies this
      ensures Valid()
      ensures nodes == old(nodes) + [node]
      ensures multiset(hashes) == multiset(old(hashes)) + multiset{KeyHash(sha1, node.id)}
      ensures old(Aligned()) ==> Aligned()
    {
      var hash := KeyHash(sha1, node.id);
      nodes := nodes + [node];
      // append, then sort.Slice: the one sorted arrangement (SortedPermutationUnique)
      hashes := Insert(hashes, hash);
      assert NodeHashes(sha1, nodes) == NodeHashes(sha1, old(nodes)) + [hash];
    }

    method RemoveNode(nodeID: string) returns (panicked: bool)
      requires Valid()
      modifies this
      ensures Valid()
      ensures panicked <==> old(nodes) == []
      ensures panicked ==> nodes == old(nodes) && hashes == old(hashes)
      ensures !panicked ==>
        && nodes == RemoveAt(old(nodes), DroppedIndex(old(nodes), nodeID))
        && hashes == RemoveValue(old(hashes), DroppedHash(sha1, old(nodes), nodeID))
      ensures old(Aligned()) && IndexOfId(old(nodes), nodeID) < |old(nodes)| ==> Aligned()
    {
      var index, hash := FindNode(sha1, nodes, nodeID);
      if index + 1 > |nodes| {
        // nodes[index+1:] is out of range on an empty ring
        return true;
      }
      RemoveNodeKeepsInvariants(sha1, nodes, hashes, nodeID);
      var hs := RemoveFirst(hashes, hash);
      nodes := nodes[..index] + nodes[index + 1..];
      hashes := hs;
      return false;
    }

    /** GetNode as a function of the ring's state. */
    function Owner(key: string): (r: Outcome<Node>)
      reads this
      ensures nodes == [] ==> r == Done(Node("", ""))
      ensures nodes != [] && r.Done? ==> r.value in nodes
      ensures |nodes| == |hashes| ==> r.Done?
    {
      if nodes == [] then Done(Node("", ""))
      else
        var i := RingIndex(hashes, KeyHash(sha1, key));
        if i < |nodes| then Done(nodes[i]) else Panic
    }

    method GetNode(key: string) returns (r: Outcome<Node>)
      requires Valid()
      ensures r == Owner(key)
    {
      if |nodes| == 0 {
        return Done(Node("", ""));
      }
      var hash := KeyHash(sha1, key);
      var index := Search(hashes, hash);
      if index == |hashes| {
        index := 0;
      }
      if index < |nodes| {
        r := Done(nodes[index]);
      } else {
        r := Panic;
      }
    }
  }

  /** The owner is picked by insertion order, not by position: when node `a`
      is added before `b` but `b` sits lower on the ring, a key at or below
      `b`'s position is routed to `a`, although `b` holds the first position
      at or after the key. */
  method MisroutedKey(sha1: string -> Digest, a: Node, b: Node, key: string) returns (r: Outcome<Node>)
    requires KeyHash(sha1, b.id) < KeyHash(sha1, a.id)
    requires KeyHash(sha1, key) <= KeyHash(sha1, b.id)
    ensures FirstAtLeast([KeyHash(sha1, b.id), KeyHash(sha1, a.id)], KeyHash(sha1, key)) == 0
    ensures r == Done(a)
  {
    var ring := new HashRing(sha1);
    ring.AddNode(a);
    ring.AddNode(b);
    SortedPermutationUnique(ring.hashes, [KeyHash(sha1, b.id), KeyHash(sha1, a.id)]);
    r := ring.GetNode(key);
  }
}
