/** Why re-hashing a path, or a range of each level, is enough after leaves have changed. */
module RebuildSpec {
  import opened Hashes
  import opened MerkleSpec

  // ----- Storing new leaf data -----

  /** The node array after datas have been stored at these indexes. */
  function Store(nodes: seq<Node>, indexes: seq<nat>, datas: seq<string>): (r: seq<Node>)
    requires |indexes| == |datas|
    ensures |r| == |nodes|
  {
    if indexes == [] then nodes else
      var n := |indexes| - 1;
      var before := Store(nodes, indexes[..n], datas[..n]);
      var i := indexes[n];
      if i < |before| then before[i := before[i].(data := To(datas[n]))] else before
  }

  lemma {:induction false} StoreKeepsHashes(nodes: seq<Node>, indexes: seq<nat>, datas: seq<string>)
    requires |indexes| == |datas|
    ensures forall i :: 0 <= i < |nodes| ==> Store(nodes, indexes, datas)[i].hash == nodes[i].hash
    ensures forall i :: 0 <= i < |nodes| && i !in indexes ==> Store(nodes, indexes, datas)[i] == nodes[i]
  {
    if indexes != [] {
      StoreKeepsHashes(nodes, indexes[..|indexes| - 1], datas[..|indexes| - 1]);
    }
  }

  // ----- The path of one leaf -----

  ghost predicate AllHashed(nodes: seq<Node>, n: nat) {
    2 * n <= |nodes| && forall i :: 1 <= i < 2 * n ==> nodes[i].hash.To?
  }

  /** Only the nodes on the path from i upwards may be out of date. */
  ghost predicate StalePath(h: Hasher, nodes: seq<Node>, leaves: seq<Hash>, i: nat) {
    && HasLeaves(nodes, leaves) && AllHashed(nodes, |leaves|)
    && forall p :: 1 <= p < |leaves| && !OnPath(p, i) ==> UpToDate(h, nodes, p)
  }

  lemma PathStarts(h: Hasher, nodes: seq<Node>, leaves: seq<Hash>, i: nat, data: string)
    requires Represents(h, nodes, leaves) && |leaves| <= i < 2 * |leaves| && nodes[i].data == To(data)
    ensures
      var cleared := SetHash(nodes, i, Null);
      && Readable(cleared, |leaves|, i) && Rehash(h, cleared, |leaves|, i).To?
      && StalePath(h, AfterHashNode(h, cleared, |leaves|, i), leaves[i - |leaves| := h.leaf(data)], i / 2)
  {
    LocalIsGlobal(h, nodes, leaves);
    var after := AfterHashNode(h, SetHash(nodes, i, Null), |leaves|, i);
    forall p | 1 <= p < |leaves| && !OnPath(p, i / 2)
      ensures UpToDate(h, after, p)
    {
      assert UpToDate(h, nodes, p);
    }
  }

  lemma PathGoesUp(h: Hasher, nodes: seq<Node>, leaves: seq<Hash>, i: nat)
    requires StalePath(h, nodes, leaves, i) && 1 <= i < |leaves|
    ensures
      var cleared := SetHash(nodes, i, Null);
      && Readable(cleared, |leaves|, i) && Rehash(h, cleared, |leaves|, i).To?
      && StalePath(h, AfterHashNode(h, cleared, |leaves|, i), leaves, i / 2)
  {
    var after := AfterHashNode(h, SetHash(nodes, i, Null), |leaves|, i);
    forall p | 1 <= p < |leaves| && !OnPath(p, i / 2)
      ensures UpToDate(h, after, p)
    {
      if p != i {
        assert UpToDate(h, nodes, p);
      }
    }
  }

  lemma PathEnds(h: Hasher, nodes: seq<Node>, leaves: seq<Hash>)
    requires StalePath(h, nodes, leaves, 0)
    ensures Represents(h, nodes, leaves)
  {
    LocalIsGlobal(h, nodes, leaves);
  }

  /** Nothing off the path of node i has changed. */
  ghost predicate OffPathKept(a: seq<Node>, b: seq<Node>, i: nat) {
    |a| == |b| && forall p :: 0 <= p < |a| && !OnPath(p, i) ==> a[p] == b[p]
  }

  lemma {:induction false} ParentOnPath(p: nat, i: nat)
    requires OnPath(p, i) && p > 1
    ensures OnPath(p / 2, i)
  {
    if p != i {
      ParentOnPath(p, i / 2);
    } else {
      assert OnPath(p / 2, p / 2);
    }
  }

  lemma KeptByHashing(h: Hasher, a: seq<Node>, b: seq<Node>, leafStart: nat, p: nat, i: nat)
    requires OffPathKept(a, b, i) && OnPath(p, i) && p < |b| && 2 * leafStart <= |b|
    ensures OffPathKept(a, AfterHashNode(h, SetHash(b, p, Null), leafStart, p), i)
    ensures OffPathKept(a, SetHash(b, p, Null), i)
  {
  }

  // ----- A range of each level -----

  /** The array after hash_node on first, ..., first + k - 1 in this order. */
  function HashRange(h: Hasher, nodes: seq<Node>, leafStart: nat, first: nat, k: nat): (r: seq<Node>)
    requires 2 * leafStart <= |nodes|
    ensures |r| == |nodes|
  {
    if k == 0 then nodes
    else AfterHashNode(h, HashRange(h, nodes, leafStart, first, k - 1), leafStart, first + k - 1)
  }

  /** The range of the level above: it always covers the parents, and goes at most one node further. */
  lemma ParentsAreCovered(first: nat, k: nat, c: nat)
    requires k > 0 && first <= c < first + k
    ensures first / 2 <= c / 2 < first / 2 + (k / 2 + 1)
    ensures first / 2 + (k / 2 + 1) <= (first + k - 1) / 2 + 2
    ensures first / 2 + (k / 2 + 1) == (first + k - 1) / 2 + 2 <==> first % 2 == 0 && k % 2 == 0
  {
  }

  /** What holds when the nodes from d on are done: only the nodes first, ..., first + k - 1 of the
      level d / 2, ..., d - 1 may have changed children. */
  ghost predicate LevelDone(h: Hasher, start: seq<Node>, nodes: seq<Node>, leaves: seq<Hash>, d: nat, first: nat, k: nat) {
    && |start| == |nodes| && 1 <= d <= |leaves| && HasLeaves(nodes, leaves)
    && (forall p :: 1 <= p < d ==> nodes[p].hash == start[p].hash)
    && (forall p :: d <= p < |leaves| ==> UpToDate(h, nodes, p))
    && k > 0 && d / 2 <= first && first + k <= d + 1
    && forall p :: 1 <= p && d / 2 <= p < d && !(first <= p < first + k) ==>
         nodes[2 * p].hash == start[2 * p].hash && nodes[2 * p + 1].hash == start[2 * p + 1].hash
  }

  /** Node d, when the range reaches it, is hashed again with the same result. */
  ghost predicate Stable(h: Hasher, nodes: seq<Node>, leafStart: nat, d: nat)
    requires 2 * leafStart <= |nodes| && d < 2 * leafStart
  {
    Rehash(h, nodes, leafStart, d) == nodes[d].hash && nodes[d].hash.To?
  }

  /** The first m nodes of a row are done; those outside its level keep their hashes. */
  ghost predicate PrefixDone(h: Hasher, nodes: seq<Node>, done: seq<Node>, d: nat, first: nat, m: nat) {
    && SameData(nodes, done)
    && (forall p :: 0 <= p < |nodes| && !(first <= p < first + m && p < d) ==> done[p] == nodes[p])
    && (forall p :: first <= p < first + m && p < d ==> UpToDate(h, done, p))
  }

  lemma {:induction false} LevelPrefix(h: Hasher, nodes: seq<Node>, leaves: seq<Hash>, d: nat, first: nat, m: nat)
    requires HasLeaves(nodes, leaves) && 2 <= d <= |leaves| && d % 2 == 0
    requires forall p :: d <= p < |leaves| ==> UpToDate(h, nodes, p)
    requires d / 2 <= first && first + m <= d + 1
    requires first + m == d + 1 ==> Stable(h, nodes, |leaves|, d)
    ensures PrefixDone(h, nodes, HashRange(h, nodes, |leaves|, first, m), d, first, m)
  {
    if m > 0 {
      LevelPrefix(h, nodes, leaves, d, first, m - 1);
      var before := HashRange(h, nodes, |leaves|, first, m - 1);
      hide AfterHashNode;
      hide UpToDate;
      hide Stable;
      if first + m - 1 < d {
        ChildrenHashed(h, nodes, leaves, d, first + m - 1);
        PrefixGrows(h, nodes, before, leaves, d, first, m);
      } else {
        StableIsKept(h, nodes, before, leaves, d, first);
      }
    }
  }

  lemma PrefixGrows(h: Hasher, nodes: seq<Node>, before: seq<Node>, leaves: seq<Hash>, d: nat, first: nat, m: nat)
    requires 2 * |leaves| <= |nodes| && d <= |leaves|
    requires m > 0 && d / 2 <= first && first + m <= d && d % 2 == 0
    requires nodes[2 * (first + m - 1)].hash.To? && nodes[2 * (first + m - 1) + 1].hash.To?
    requires PrefixDone(h, nodes, before, d, first, m - 1)
    ensures PrefixDone(h, nodes, AfterHashNode(h, before, |leaves|, first + m - 1), d, first, m)
  {
    var j := first + m - 1;
    var done := AfterHashNode(h, before, |leaves|, j);
    assert UpToDate(h, done, j);
    forall p | first <= p < j
      ensures UpToDate(h, done, p)
    {
      assert UpToDate(h, before, p);
    }
  }

  lemma ChildrenHashed(h: Hasher, nodes: seq<Node>, leaves: seq<Hash>, d: nat, j: nat)
    requires HasLeaves(nodes, leaves) && d % 2 == 0 && 2 <= d <= |leaves| && d / 2 <= j < d
    requires forall p :: d <= p < |leaves| ==> UpToDate(h, nodes, p)
    ensures nodes[2 * j].hash.To? && nodes[2 * j + 1].hash.To?
  {
    assert 2 * j < |leaves| ==> UpToDate(h, nodes, 2 * j);
    assert 2 * j + 1 < |leaves| ==> UpToDate(h, nodes, 2 * j + 1);
  }

  lemma StableIsKept(h: Hasher, nodes: seq<Node>, later: seq<Node>, leaves: seq<Hash>, d: nat, first: nat)
    requires |later| == |nodes| >= 2 * |leaves| && 1 <= d <= |leaves| && Stable(h, nodes, |leaves|, d)
    requires forall p :: d <= p < |nodes| ==> later[p] == nodes[p]
    ensures AfterHashNode(h, later, |leaves|, d) == later
  {
    assert later[d := later[d].(hash := later[d].hash)] == later;
  }

  /** One level of the range rebuild. */
  lemma LevelUp(h: Hasher, start: seq<Node>, nodes: seq<Node>, leaves: seq<Hash>, d: nat, first: nat, k: nat)
    requires LevelDone(h, start, nodes, leaves, d, first, k) && d >= 2 && d % 2 == 0
    requires forall p :: 1 <= p < |leaves| ==> UpToDate(h, start, p)
    requires first + k == d + 1 ==> Stable(h, nodes, |leaves|, d)
    ensures LevelDone(h, start, HashRange(h, nodes, |leaves|, first, k), leaves, d / 2, first / 2, k / 2 + 1)
    ensures SameData(nodes, HashRange(h, nodes, |leaves|, first, k))
  {
    LevelPrefix(h, nodes, leaves, d, first, k);
    var done := HashRange(h, nodes, |leaves|, first, k);
    forall p | d / 2 <= p < |leaves|
      ensures UpToDate(h, done, p)
    {
      if p >= d {
        assert UpToDate(h, nodes, p);
      } else if !(first <= p < first + k) {
        assert UpToDate(h, start, p);
      }
    }
  }

  /** Every step of the level finds its children hashed. */
  lemma LevelStep(h: Hasher, start: seq<Node>, nodes: seq<Node>, leaves: seq<Hash>, d: nat, first: nat, k: nat, m: nat)
    requires LevelDone(h, start, nodes, leaves, d, first, k) && d >= 2 && d % 2 == 0 && m < k
    requires first + k == d + 1 ==> Stable(h, nodes, |leaves|, d)
    ensures
      var before := HashRange(h, nodes, |leaves|, first, m);
      Readable(before, |leaves|, first + m) && Rehash(h, before, |leaves|, first + m).To?
  {
    LevelPrefix(h, nodes, leaves, d, first, m);
    if first + m < d {
      ChildrenHashed(h, nodes, leaves, d, first + m);
    }
  }

  /** Leaf `leafStart` is hashed again only when the changed leaves start at an even node, are even in
      number and end with the last leaf. */
  predicate RehashesFirstLeaf(leafStart: nat, first: nat, k: nat) {
    first % 2 == 0 && k % 2 == 0 && first + k == 2 * leafStart
  }

  /** That is exactly when the row above the changed leaves ends with leaf `leafStart`. */
  lemma FirstLeafIsReached(leafStart: nat, first: nat, k: nat)
    requires k > 0 && leafStart <= first && first + k <= 2 * leafStart
    ensures first / 2 + (k / 2 + 1) <= leafStart + 1
    ensures first / 2 + (k / 2 + 1) == leafStart + 1 <==> RehashesFirstLeaf(leafStart, first, k)
  {
  }

  lemma LastNodeIsStable(h: Hasher, start: seq<Node>, nodes: seq<Node>, leaves: seq<Hash>, d: nat, first: nat, k: nat)
    requires LevelDone(h, start, nodes, leaves, d, first, k)
    requires d == |leaves| && first + k == d + 1 ==> LeafData(h, nodes, leaves, d)
    ensures first + k == d + 1 ==> Stable(h, nodes, |leaves|, d)
  {
    if d < |leaves| {
      assert UpToDate(h, nodes, d);
    }
  }

  lemma RootIsStable(h: Hasher, start: seq<Node>, nodes: seq<Node>, leaves: seq<Hash>, first: nat, k: nat)
    requires LevelDone(h, start, nodes, leaves, 1, first, k)
    requires |leaves| == 1 ==> LeafData(h, nodes, leaves, 1)
    ensures Represents(h, nodes, leaves)
    ensures Readable(nodes, |leaves|, 1) && Rehash(h, nodes, |leaves|, 1).To?
    ensures AfterHashNode(h, nodes, |leaves|, 1) == nodes
  {
    LocalIsGlobal(h, nodes, leaves);
    if |leaves| > 1 {
      assert UpToDate(h, nodes, 1);
    }
    StableIsKept(h, nodes, nodes, leaves, 1, first);
  }

  // ----- The level of the leaves -----

  function Replace(leaves: seq<Hash>, at: nat, with: seq<Hash>): (r: seq<Hash>)
    requires at + |with| <= |leaves|
    ensures |r| == |leaves|
  {
    leaves[..at] + with + leaves[at + |with|..]
  }

  predicate Contiguous(indexes: seq<nat>) {
    forall i :: 0 <= i < |indexes| ==> indexes[i] == indexes[0] + i
  }

  /** The nodes from `first` on carry these strings. */
  ghost predicate Carries(nodes: seq<Node>, first: nat, datas: seq<string>) {
    && first + |datas| <= |nodes|
    && forall i :: 0 <= i < |datas| ==> nodes[first + i].data == To(datas[i])
  }

  lemma CarriesInRange(nodes: seq<Node>, first: nat, datas: seq<string>)
    requires Carries(nodes, first, datas)
    ensures first + |datas| <= |nodes|
  {
  }

  lemma {:induction false} StoreContiguous(nodes: seq<Node>, indexes: seq<nat>, datas: seq<string>)
    requires |indexes| == |datas| > 0 && Contiguous(indexes) && indexes[0] + |indexes| <= |nodes|
    ensures Carries(Store(nodes, indexes, datas), indexes[0], datas)
  {
    var n := |indexes| - 1;
    if n > 0 {
      StoreContiguous(nodes, indexes[..n], datas[..n]);
    }
  }

  lemma {:induction false} LeafPrefix(h: Hasher, nodes: seq<Node>, leafStart: nat, first: nat, datas: seq<string>, m: nat)
    requires leafStart <= first && first + |datas| <= |nodes| && 2 * leafStart <= |nodes|
    requires m <= |datas| && first + m <= 2 * leafStart
    requires forall i :: 0 <= i < |datas| ==> nodes[first + i].data == To(datas[i])
    ensures
      var done := HashRange(h, nodes, leafStart, first, m);
      && SameData(nodes, done)
      && (forall p :: 0 <= p < |nodes| && !(first <= p < first + m) ==> done[p] == nodes[p])
      && (forall i :: 0 <= i < m ==> done[first + i].hash == To(h.leaf(datas[i])))
  {
    if m > 0 {
      LeafPrefix(h, nodes, leafStart, first, datas, m - 1);
      var before := HashRange(h, nodes, leafStart, first, m - 1);
      assert before[first + (m - 1)].data == nodes[first + (m - 1)].data;
    }
  }

  lemma LeavesReplaced(h: Hasher, nodes: seq<Node>, done: seq<Node>, leaves: seq<Hash>, first: nat, datas: seq<string>)
    requires Represents(h, nodes, leaves) && |done| == |nodes|
    requires |leaves| <= first && first + |datas| <= 2 * |leaves|
    requires forall p :: 0 <= p < |nodes| && !(first <= p < first + |datas|) ==> done[p] == nodes[p]
    requires forall i :: 0 <= i < |datas| ==> done[first + i].hash == To(h.leaf(datas[i]))
    ensures HasLeaves(done, Replace(leaves, first - |leaves|, LeafHashes(h, datas)))
  {
    var n := |leaves|;
    var now := Replace(leaves, first - n, LeafHashes(h, datas));
    forall i | n <= i < 2 * n
      ensures done[i].hash == To(now[i - n])
    {
      if first <= i < first + |datas| {
        assert done[first + (i - first)].hash == To(h.leaf(datas[i - first]));
      } else {
        assert nodes[i].hash == To(NodeHash(h, leaves, i));
      }
    }
  }

  /** Changing leaves only leaves the row above them to be done. */
  lemma RowAbove(h: Hasher, nodes: seq<Node>, done: seq<Node>, leaves: seq<Hash>, first: nat, k: nat)
    requires |done| == |nodes| && HasLeaves(done, leaves)
    requires |leaves| > 0 && (|leaves| == 1 || |leaves| % 2 == 0)
    requires |leaves| <= first && first + k <= 2 * |leaves| && k > 0
    requires forall p :: 0 <= p < |nodes| && !(first <= p < first + k) ==> done[p] == nodes[p]
    ensures LevelDone(h, nodes, done, leaves, |leaves|, first / 2, k / 2 + 1)
  {
    hide UpToDate;
    assert 2 * |leaves| <= |done|;
    forall p | 1 <= p && |leaves| / 2 <= p < |leaves| && !(first / 2 <= p < first / 2 + (k / 2 + 1))
      ensures done[2 * p] == nodes[2 * p] && done[2 * p + 1] == nodes[2 * p + 1]
    {
    }
  }

  lemma LeafRowHashed(h: Hasher, nodes: seq<Node>, leaves: seq<Hash>, first: nat, datas: seq<string>)
    requires Represents(h, nodes, leaves)
    requires |leaves| <= first && first + |datas| <= 2 * |leaves|
    requires Carries(nodes, first, datas)
    ensures
      var now := Replace(leaves, first - |leaves|, LeafHashes(h, datas));
      var done := HashRange(h, nodes, |leaves|, first, |datas|);
      && HasLeaves(done, now) && SameData(nodes, done)
      && (forall p :: 0 <= p < |nodes| && !(first <= p < first + |datas|) ==> done[p] == nodes[p])
  {
    LeafPrefix(h, nodes, |leaves|, first, datas, |datas|);
    var done := HashRange(h, nodes, |leaves|, first, |datas|);
    hide *;
    LeavesReplaced(h, nodes, done, leaves, first, datas);
  }

  /** Hashing the changed leaves. */
  lemma LeafLevel(h: Hasher, nodes: seq<Node>, leaves: seq<Hash>, first: nat, datas: seq<string>)
    requires Represents(h, nodes, leaves) && |leaves| > 0 && (|leaves| == 1 || |leaves| % 2 == 0)
    requires |leaves| <= first && first + |datas| <= 2 * |leaves| && |datas| > 0
    requires Carries(nodes, first, datas)
    ensures
      var k := |datas|;
      var now := Replace(leaves, first - |leaves|, LeafHashes(h, datas));
      var done := HashRange(h, nodes, |leaves|, first, k);
      && LevelDone(h, nodes, done, now, |leaves|, first / 2, k / 2 + 1)
      && SameData(nodes, done)
  {
    LeafRowHashed(h, nodes, leaves, first, datas);
    var done := HashRange(h, nodes, |leaves|, first, |datas|);
    var now := Replace(leaves, first - |leaves|, LeafHashes(h, datas));
    hide *;
    RowAbove(h, nodes, done, now, first, |datas|);
  }

  /** The first leaf, when the next level reaches it. */
  lemma FirstLeafHasData(h: Hasher, nodes: seq<Node>, done: seq<Node>, leaves: seq<Hash>, first: nat, datas: seq<string>)
    requires |leaves| <= first && first + |datas| <= 2 * |leaves| <= |nodes| && |datas| > 0
    requires SameData(nodes, done)
    requires forall i :: 0 <= i < |datas| ==> nodes[first + i].data == To(datas[i])
    requires RehashesFirstLeaf(|leaves|, first, |datas|) && first > |leaves| ==> LeafData(h, nodes, leaves, |leaves|)
    ensures
      var now := Replace(leaves, first - |leaves|, LeafHashes(h, datas));
      first / 2 + (|datas| / 2 + 1) == |leaves| + 1 || |leaves| == 1 ==> LeafData(h, done, now, |leaves|)
  {
    var now := Replace(leaves, first - |leaves|, LeafHashes(h, datas));
    if first == |leaves| {
      assert nodes[first + 0].data == To(datas[0]);
      assert now[0] == h.leaf(datas[0]);
    }
  }

  // ----- Rows as the loops take them -----

  /** Every step of a row, up to the first one outside the tree, finds what it needs. */
  ghost predicate RowReady(h: Hasher, nodes: seq<Node>, leafStart: nat, first: nat, k: nat) {
    && 2 * leafStart <= |nodes|
    && forall m: nat :: m < k && first + m < 2 * leafStart ==>
      && Readable(HashRange(h, nodes, leafStart, first, m), leafStart, first + m)
      && Rehash(h, HashRange(h, nodes, leafStart, first, m), leafStart, first + m).To?
  }

  lemma RowStepMeans(h: Hasher, nodes: seq<Node>, leafStart: nat, first: nat, k: nat, m: nat)
    requires RowReady(h, nodes, leafStart, first, k) && m < k && first + m < 2 * leafStart
    ensures 2 * leafStart <= |nodes|
    ensures Readable(HashRange(h, nodes, leafStart, first, m), leafStart, first + m)
    ensures Rehash(h, HashRange(h, nodes, leafStart, first, m), leafStart, first + m).To?
  {
  }

  lemma RowStepFails(h: Hasher, nodes: seq<Node>, leafStart: nat, first: nat, k: nat, m: nat)
    requires 2 * leafStart <= |nodes| && m < k && first + m < 2 * leafStart
    requires !Readable(HashRange(h, nodes, leafStart, first, m), leafStart, first + m)
    ensures !RowReady(h, nodes, leafStart, first, k)
  {
  }

  lemma LeafRow(h: Hasher, nodes: seq<Node>, leafStart: nat, first: nat, datas: seq<string>)
    requires leafStart <= first && first + |datas| <= |nodes| && 2 * leafStart <= |nodes|
    requires Carries(nodes, first, datas)
    ensures RowReady(h, nodes, leafStart, first, |datas|)
  {
    forall m: nat | m < |datas| && first + m < 2 * leafStart
      ensures Readable(HashRange(h, nodes, leafStart, first, m), leafStart, first + m)
      ensures Rehash(h, HashRange(h, nodes, leafStart, first, m), leafStart, first + m).To?
    {
      LeafPrefix(h, nodes, leafStart, first, datas, m);
      assert nodes[first + m].data == To(datas[m]);
    }
  }

  lemma LevelRow(h: Hasher, start: seq<Node>, nodes: seq<Node>, leaves: seq<Hash>, d: nat, first: nat, k: nat)
    requires LevelDone(h, start, nodes, leaves, d, first, k) && d >= 2 && d % 2 == 0
    requires first + k == d + 1 ==> Stable(h, nodes, |leaves|, d)
    ensures RowReady(h, nodes, |leaves|, first, k)
    ensures first > 0 && first + k <= 2 * |leaves|
  {
    forall m: nat | m < k
      ensures Readable(HashRange(h, nodes, |leaves|, first, m), |leaves|, first + m)
      ensures Rehash(h, HashRange(h, nodes, |leaves|, first, m), |leaves|, first + m).To?
    {
      LevelStep(h, start, nodes, leaves, d, first, k, m);
    }
  }

  ghost predicate ConsistentInside(h: Hasher, nodes: seq<Node>, n: nat) {
    forall p :: 1 <= p < n ==> UpToDate(h, nodes, p)
  }

  lemma TreeIsConsistent(h: Hasher, nodes: seq<Node>, leaves: seq<Hash>)
    requires Represents(h, nodes, leaves)
    ensures ConsistentInside(h, nodes, |leaves|)
  {
    LocalIsGlobal(h, nodes, leaves);
  }

  lemma LevelDoneBounds(h: Hasher, start: seq<Node>, nodes: seq<Node>, leaves: seq<Hash>, d: nat, first: nat, k: nat)
    requires LevelDone(h, start, nodes, leaves, d, first, k)
    ensures 1 <= d <= |leaves| && k > 0 && d / 2 <= first && first + k <= d + 1
  {
  }

  /** One turn of the outer loop of the range rebuild, above the leaves. */
  lemma NextLevel(h: Hasher, start: seq<Node>, nodes: seq<Node>, leaves: seq<Hash>, d: nat, first: nat, k: nat)
    requires LevelDone(h, start, nodes, leaves, d, first, k) && d >= 2 && d % 2 == 0
    requires ConsistentInside(h, start, |leaves|)
    requires d == |leaves| && first + k == d + 1 ==> LeafData(h, nodes, leaves, d)
    requires SameData(start, nodes)
    ensures first > 0 && first + k <= 2 * |leaves| && RowReady(h, nodes, |leaves|, first, k)
    ensures LevelDone(h, start, HashRange(h, nodes, |leaves|, first, k), leaves, d / 2, first / 2, k / 2 + 1)
    ensures SameData(start, HashRange(h, nodes, |leaves|, first, k))
  {
    LastNodeIsStable(h, start, nodes, leaves, d, first, k);
    LevelRow(h, start, nodes, leaves, d, first, k);
    LevelUp(h, start, nodes, leaves, d, first, k);
  }

  /** The first turn of that loop, at the leaves. */
  lemma FirstLevel(h: Hasher, nodes: seq<Node>, leaves: seq<Hash>, first: nat, datas: seq<string>)
    requires Represents(h, nodes, leaves) && |leaves| > 0 && (|leaves| == 1 || |leaves| % 2 == 0)
    requires |leaves| <= first && first + |datas| <= 2 * |leaves| && |datas| > 0
    requires Carries(nodes, first, datas)
    requires RehashesFirstLeaf(|leaves|, first, |datas|) && first > |leaves| ==> LeafData(h, nodes, leaves, |leaves|)
    ensures
      var k := |datas| / 2 + 1;
      var now := Replace(leaves, first - |leaves|, LeafHashes(h, datas));
      var done := HashRange(h, nodes, |leaves|, first, |datas|);
      && LevelDone(h, nodes, done, now, |leaves|, first / 2, k)
      && SameData(nodes, done)
      && (first / 2 + k == |leaves| + 1 || |leaves| == 1 ==> LeafData(h, done, now, |leaves|))
  {
    LeafLevel(h, nodes, leaves, first, datas);
    FirstLeafHasData(h, nodes, HashRange(h, nodes, |leaves|, first, |datas|), leaves, first, datas);
  }

  // ----- When the range rebuild reads a leaf without data -----

  /** The array when the second row is about to hash its last node. */
  function BeforeLastOfRow(h: Hasher, nodes: seq<Node>, leafStart: nat, first: nat, k: nat): (r: seq<Node>)
    requires 2 * leafStart <= |nodes|
    ensures |r| == |nodes|
  {
    HashRange(h, HashRange(h, nodes, leafStart, first, k), leafStart, first / 2, k / 2)
  }

  /** If the second row ends with the first leaf and that leaf has no data, hash_node reads a pointer that
      was never written. */
  lemma FirstLeafIsRead(h: Hasher, nodes: seq<Node>, leaves: seq<Hash>, first: nat, datas: seq<string>)
    requires Represents(h, nodes, leaves) && |leaves| > 1 && |leaves| % 2 == 0 && |datas| > 0
    requires Carries(nodes, first, datas) && |leaves| < first && RehashesFirstLeaf(|leaves|, first, |datas|)
    requires nodes[|leaves|].data.Unset?
    ensures first / 2 + |datas| / 2 == |leaves|
    ensures !Readable(BeforeLastOfRow(h, nodes, |leaves|, first, |datas|), |leaves|, |leaves|)
  {
    hide HashRange;
    hide Replace;
    hide UpToDate;
    hide HasLeaves;
    var n, k := |leaves|, |datas|;
    LeafLevel(h, nodes, leaves, first, datas);
    FirstLeafIsReached(n, first, k);
    var done := HashRange(h, nodes, n, first, k);
    LevelPrefix(h, done, Replace(leaves, first - n, LeafHashes(h, datas)), n, first / 2, k / 2);
  }

  lemma SecondRowStops(h: Hasher, nodes: seq<Node>, leaves: seq<Hash>, first: nat, datas: seq<string>)
    requires Represents(h, nodes, leaves) && |leaves| > 1 && |leaves| % 2 == 0 && |datas| > 0
    requires Carries(nodes, first, datas) && |leaves| < first && RehashesFirstLeaf(|leaves|, first, |datas|)
    requires nodes[|leaves|].data.Unset?
    ensures !RowReady(h, HashRange(h, nodes, |leaves|, first, |datas|), |leaves|, first / 2, |datas| / 2 + 1)
  {
    hide HashRange;
    hide Readable;
    hide Rehash;
    var n, k := |leaves|, |datas|;
    var done := HashRange(h, nodes, n, first, k);
    FirstLeafIsRead(h, nodes, leaves, first, datas);
    RowStepFails(h, done, n, first / 2, k / 2 + 1, k / 2);
  }

  lemma SecondRowGoesOn(h: Hasher, nodes: seq<Node>, leaves: seq<Hash>, first: nat, datas: seq<string>)
    requires Represents(h, nodes, leaves) && |leaves| > 1 && |leaves| % 2 == 0 && |datas| > 0
    requires Carries(nodes, first, datas) && |leaves| <= first && first + |datas| <= 2 * |leaves|
    requires first == |leaves| || !RehashesFirstLeaf(|leaves|, first, |datas|)
    ensures RowReady(h, HashRange(h, nodes, |leaves|, first, |datas|), |leaves|, first / 2, |datas| / 2 + 1)
  {
    FirstLevel(h, nodes, leaves, first, datas);
    TreeIsConsistent(h, nodes, leaves);
    var done := HashRange(h, nodes, |leaves|, first, |datas|);
    var now := Replace(leaves, first - |leaves|, LeafHashes(h, datas));
    hide *;
    NextLevel(h, nodes, done, now, |leaves|, first / 2, |datas| / 2 + 1);
  }

  /** After the leaves have been hashed, the second row finds everything it reads exactly when it does not
      come back to a first leaf without data. */
  lemma SecondRow(h: Hasher, nodes: seq<Node>, leaves: seq<Hash>, first: nat, datas: seq<string>)
    requires Represents(h, nodes, leaves) && |leaves| > 1 && |leaves| % 2 == 0 && |datas| > 0
    requires Carries(nodes, first, datas) && |leaves| <= first && first + |datas| <= 2 * |leaves|
    requires nodes[|leaves|].data.Unset? || first == |leaves|
    ensures RowReady(h, HashRange(h, nodes, |leaves|, first, |datas|), |leaves|, first / 2, |datas| / 2 + 1)
            <==> first == |leaves| || !RehashesFirstLeaf(|leaves|, first, |datas|)
  {
    hide HashRange;
    hide RowReady;
    hide Carries;
    if first > |leaves| && RehashesFirstLeaf(|leaves|, first, |datas|) {
      SecondRowStops(h, nodes, leaves, first, datas);
    } else {
      SecondRowGoesOn(h, nodes, leaves, first, datas);
    }
  }
}
