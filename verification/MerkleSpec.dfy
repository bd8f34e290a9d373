/** What a Merkle tree is: node 1 is the root, node i has the children 2i and 2i + 1, and the n leaves
    are the nodes n to 2n - 1. */
module MerkleSpec {
  import opened Hashes
  import opened Powers

  function NodeHash(h: Hasher, leaves: seq<Hash>, i: nat): Hash
    requires 1 <= i < 2 * |leaves|
    decreases 2 * |leaves| - i
  {
    if i >= |leaves| then leaves[i - |leaves|]
    else h.combine(NodeHash(h, leaves, 2 * i), NodeHash(h, leaves, 2 * i + 1))
  }

  function LeafHashes(h: Hasher, datas: seq<string>): (r: seq<Hash>)
    ensures |r| == |datas|
  {
    seq<Hash>(|datas|, i requires 0 <= i < |datas| => h.leaf(datas[i]))
  }

  // ----- The node array -----

  /** A pointer in freshly allocated memory is unset; reading it is undefined behaviour. */
  datatype Ptr<T> = Unset | Null | To(value: T)

  datatype Node = Node(data: Ptr<string>, hash: Ptr<Hash>)

  /** The nodes from number `from` on carry the hashes of the tree over these leaves. */
  ghost predicate RightFrom(h: Hasher, nodes: seq<Node>, leaves: seq<Hash>, from: nat) {
    && from >= 1 && 2 * |leaves| <= |nodes|
    && forall i :: from <= i < 2 * |leaves| ==> nodes[i].hash == To(NodeHash(h, leaves, i))
  }

  ghost predicate Represents(h: Hasher, nodes: seq<Node>, leaves: seq<Hash>) {
    RightFrom(h, nodes, leaves, 1)
  }

  /** The leaves up to node `top` carry the data that their hashes were made from. */
  ghost predicate LeafData(h: Hasher, nodes: seq<Node>, leaves: seq<Hash>, top: nat) {
    && 2 * |leaves| <= |nodes| && top < 2 * |leaves|
    && forall i :: |leaves| <= i <= top ==>
      nodes[i].data.To? && h.leaf(nodes[i].data.value) == leaves[i - |leaves|]
  }

  ghost predicate SameData(a: seq<Node>, b: seq<Node>) {
    |a| == |b| && forall i :: 0 <= i < |a| ==> a[i].data == b[i].data
  }

  /** What hash_node stores in node i: Null stands for its error return. */
  function Rehash(h: Hasher, nodes: seq<Node>, leafStart: nat, i: nat): Ptr<Hash>
    requires 2 * leafStart <= |nodes|
  {
    if i >= 2 * leafStart then Null
    else if i < leafStart then
      if nodes[2 * i].hash.To? && nodes[2 * i + 1].hash.To?
      then To(h.combine(nodes[2 * i].hash.value, nodes[2 * i + 1].hash.value)) else Null
    else if nodes[i].data.To? then To(h.leaf(nodes[i].data.value)) else Null
  }

  /** Tests a pointer against NULL; one that was never written must not be read. */
  predicate IsSet<T>(p: Ptr<T>)
    requires !p.Unset?
  {
    p.To?
  }

  /** hash_node reads no memory that was never written; it looks at the second child only if the first has
      a hash. */
  predicate Readable(nodes: seq<Node>, leafStart: nat, i: nat)
    requires 2 * leafStart <= |nodes|
  {
    if i < leafStart then
      !nodes[2 * i].hash.Unset? && (nodes[2 * i].hash.To? ==> !nodes[2 * i + 1].hash.Unset?)
    else i < 2 * leafStart ==> !nodes[i].data.Unset?
  }

  function SetHash(nodes: seq<Node>, i: nat, p: Ptr<Hash>): (r: seq<Node>)
    requires i < |nodes|
    ensures |r| == |nodes|
  {
    nodes[i := nodes[i].(hash := p)]
  }

  function AfterHashNode(h: Hasher, nodes: seq<Node>, leafStart: nat, i: nat): (r: seq<Node>)
    requires 2 * leafStart <= |nodes|
    ensures |r| == |nodes|
  {
    var p := Rehash(h, nodes, leafStart, i);
    if p.To? then SetHash(nodes, i, p) else nodes
  }

  /** One step of the loop that clears and hashes the nodes downwards. */
  lemma HashDownStep(h: Hasher, nodes: seq<Node>, leaves: seq<Hash>, i: nat)
    requires 1 <= i < 2 * |leaves| && RightFrom(h, nodes, leaves, i + 1)
    requires i < |leaves| || LeafData(h, nodes, leaves, i)
    ensures
      var cleared := SetHash(nodes, i, Null);
      && Readable(cleared, |leaves|, i)
      && Rehash(h, cleared, |leaves|, i).To?
      && RightFrom(h, AfterHashNode(h, cleared, |leaves|, i), leaves, i)
      && SameData(nodes, AfterHashNode(h, cleared, |leaves|, i))
  {
  }

  /** The hash of node i is the one hash_node would compute from its children. */
  ghost predicate UpToDate(h: Hasher, nodes: seq<Node>, i: nat) {
    && 2 * i + 1 < |nodes|
    && nodes[2 * i].hash.To? && nodes[2 * i + 1].hash.To?
    && nodes[i].hash == To(h.combine(nodes[2 * i].hash.value, nodes[2 * i + 1].hash.value))
  }

  ghost predicate HasLeaves(nodes: seq<Node>, leaves: seq<Hash>) {
    && 2 * |leaves| <= |nodes|
    && forall i :: |leaves| <= i < 2 * |leaves| ==> nodes[i].hash == To(leaves[i - |leaves|])
  }

  lemma {:induction false} UpToDateNode(h: Hasher, nodes: seq<Node>, leaves: seq<Hash>, i: nat)
    requires HasLeaves(nodes, leaves)
    requires forall p :: 1 <= p < |leaves| ==> UpToDate(h, nodes, p)
    requires 1 <= i < 2 * |leaves|
    ensures nodes[i].hash == To(NodeHash(h, leaves, i))
    decreases 2 * |leaves| - i
  {
    if i < |leaves| {
      UpToDateNode(h, nodes, leaves, 2 * i);
      UpToDateNode(h, nodes, leaves, 2 * i + 1);
      assert UpToDate(h, nodes, i);
    }
  }

  /** An array is the tree over its leaves exactly when every inner node is up to date. */
  lemma LocalIsGlobal(h: Hasher, nodes: seq<Node>, leaves: seq<Hash>)
    ensures Represents(h, nodes, leaves) <==>
            HasLeaves(nodes, leaves) && forall p :: 1 <= p < |leaves| ==> UpToDate(h, nodes, p)
  {
    if HasLeaves(nodes, leaves) && forall p :: 1 <= p < |leaves| ==> UpToDate(h, nodes, p) {
      forall i | 1 <= i < 2 * |leaves| {
        UpToDateNode(h, nodes, leaves, i);
      }
    }
  }

  // ----- Filling the leaves -----

  /** The first leaves carry these strings. */
  ghost predicate LeavesRead(nodes: seq<Node>, leafStart: nat, datas: seq<string>) {
    && |datas| <= leafStart && 2 * leafStart <= |nodes|
    && forall k :: 0 <= k < |datas| ==> nodes[leafStart + k].data == To(datas[k])
  }

  /** The first leaves carry the hashes of these strings. */
  ghost predicate LeavesHashed(h: Hasher, nodes: seq<Node>, leafStart: nat, datas: seq<string>) {
    && |datas| <= leafStart && 2 * leafStart <= |nodes|
    && forall k :: 0 <= k < |datas| ==> nodes[leafStart + k].hash == To(h.leaf(datas[k]))
  }

  /** The first leaves have no hash. */
  ghost predicate LeavesClear(nodes: seq<Node>, leafStart: nat, count: nat) {
    && count <= leafStart && 2 * leafStart <= |nodes|
    && forall i :: leafStart <= i < leafStart + count ==> nodes[i].hash == Null
  }

  lemma ReadLeaf(nodes: seq<Node>, leafStart: nat, datas: seq<string>, k: nat)
    requires k < |datas| <= leafStart
    requires LeavesRead(nodes, leafStart, datas[..k]) && LeavesClear(nodes, leafStart, k)
    ensures
      var read := nodes[leafStart + k := Node(To(datas[k]), Null)];
      LeavesRead(read, leafStart, datas[..k + 1]) && LeavesClear(read, leafStart, k + 1)
  {
  }

  lemma HashLeaf(h: Hasher, nodes: seq<Node>, leafStart: nat, datas: seq<string>, k: nat)
    requires k < |datas| <= leafStart
    requires LeavesRead(nodes, leafStart, datas[..k]) && LeavesHashed(h, nodes, leafStart, datas[..k])
    ensures
      var read := nodes[leafStart + k := Node(To(datas[k]), Null)];
      var done := AfterHashNode(h, read, leafStart, leafStart + k);
      && Readable(read, leafStart, leafStart + k)
      && LeavesRead(done, leafStart, datas[..k + 1]) && LeavesHashed(h, done, leafStart, datas[..k + 1])
  {
  }

  lemma LeavesAreRight(h: Hasher, nodes: seq<Node>, datas: seq<string>)
    requires LeavesRead(nodes, |datas|, datas) && LeavesHashed(h, nodes, |datas|, datas) && |datas| > 0
    ensures RightFrom(h, nodes, LeafHashes(h, datas), |datas|)
    ensures LeafData(h, nodes, LeafHashes(h, datas), 2 * |datas| - 1)
    ensures LeafData(h, nodes, LeafHashes(h, datas), |datas| - 1)
  {
    forall i | |datas| <= i < 2 * |datas|
      ensures nodes[i].hash == To(h.leaf(datas[i - |datas|])) && nodes[i].data == To(datas[i - |datas|])
    {
      var k := i - |datas|;
      assert nodes[|datas| + k].hash == To(h.leaf(datas[k])) && nodes[|datas| + k].data == To(datas[k]);
    }
  }

  // ----- Paths -----

  /** p is on the path from node i to the root. */
  predicate OnPath(p: nat, i: nat) {
    i > 0 && (p == i || OnPath(p, i / 2))
  }

  lemma {:induction false} OnPathDown(p: nat, i: nat)
    requires OnPath(p, i)
    ensures 1 <= p <= i
    ensures i == p || OnPath(2 * p, i) || OnPath(2 * p + 1, i)
    ensures OnPath(2 * p, i) || OnPath(2 * p + 1, i) ==> i != p
  {
    if p != i {
      OnPathDown(p, i / 2);
    } else {
      NotBelowItself(2 * p, i);
      NotBelowItself(2 * p + 1, i);
    }
  }

  lemma {:induction false} NotBelowItself(p: nat, i: nat)
    requires p > i
    ensures !OnPath(p, i)
  {
    if i > 0 {
      NotBelowItself(p, i / 2);
    }
  }

  // ----- Binding -----

  /** Two different pairs of children with the same parent hash. */
  ghost predicate CollisionAt(h: Hasher, a: seq<Hash>, b: seq<Hash>, p: nat) {
    && |a| == |b| && 1 <= p < |a|
    && (NodeHash(h, a, 2 * p), NodeHash(h, a, 2 * p + 1)) != (NodeHash(h, b, 2 * p), NodeHash(h, b, 2 * p + 1))
    && NodeHash(h, a, p) == NodeHash(h, b, p)
  }

  /** Without a collision, agreement at a node goes down to everything below it. */
  lemma {:induction false} AgreeBelow(h: Hasher, a: seq<Hash>, b: seq<Hash>, top: nat, i: nat)
    requires |a| == |b| && OnPath(top, i) && i < 2 * |a|
    requires 1 <= top < 2 * |a| && NodeHash(h, a, top) == NodeHash(h, b, top)
    requires forall p :: !CollisionAt(h, a, b, p)
    ensures NodeHash(h, a, i) == NodeHash(h, b, i)
    decreases i
  {
    if i != top {
      OnPathDown(top, i / 2);
      AgreeBelow(h, a, b, top, i / 2);
      assert !CollisionAt(h, a, b, i / 2);
    }
  }

  lemma {:induction false} RootIsOnEveryPath(i: nat)
    requires i > 0
    ensures OnPath(1, i)
  {
    if i > 1 {
      RootIsOnEveryPath(i / 2);
    }
  }

  /** Equal roots: either all leaves are equal, or the combiner has a collision inside the trees. */
  lemma Binding(h: Hasher, a: seq<Hash>, b: seq<Hash>)
    requires |a| == |b| > 0
    requires NodeHash(h, a, 1) == NodeHash(h, b, 1)
    ensures a == b || exists p :: CollisionAt(h, a, b, p)
  {
    if forall p :: !CollisionAt(h, a, b, p) {
      forall j | 0 <= j < |a|
        ensures a[j] == b[j]
      {
        RootIsOnEveryPath(|a| + j);
        AgreeBelow(h, a, b, 1, |a| + j);
      }
    }
  }

  // ----- Doubling -----

  function Blanks(h: Hasher, n: nat): (r: seq<Hash>)
    ensures |r| == n
  {
    seq<Hash>(n, _ => h.leaf(BLANK))
  }

  /** A tree with as many blank leaves added as it had leaves. */
  function Doubled(h: Hasher, leaves: seq<Hash>): (r: seq<Hash>)
    ensures |r| == 2 * |leaves|
  {
    leaves + Blanks(h, |leaves|)
  }

  /** Node i at depth d becomes node i + 2^d of the doubled tree; the old root becomes node 2. */
  lemma {:induction false} DoublingKeepsNodes(h: Hasher, leaves: seq<Hash>, k: nat, i: nat, d: nat)
    requires |leaves| == Pow2(k) && 1 <= i < 2 * |leaves| && Pow2(d) <= i < 2 * Pow2(d)
    ensures i + Pow2(d) < 4 * |leaves|
    ensures NodeHash(h, Doubled(h, leaves), i + Pow2(d)) == NodeHash(h, leaves, i)
    decreases 2 * |leaves| - i
  {
    hide Pow2;
    Pow2Halves(d + 1);
    if d > k {
      Pow2Grows(k, d);
    } else if d < k {
      Pow2Grows(d, k);
      DoublingKeepsNodes(h, leaves, k, 2 * i, d + 1);
      DoublingKeepsNodes(h, leaves, k, 2 * i + 1, d + 1);
    }
  }

  /** What malloc gives: reading either pointer of a node is undefined. */
  function UnsetNode(i: nat): Node {
    Node(Unset, Unset)
  }

  /** No node has ever got data. */
  ghost predicate NoData(nodes: seq<Node>) {
    forall i :: 0 <= i < |nodes| ==> nodes[i].data.Unset?
  }

  // ----- Comparing two trees -----

  /** The nodes that compare_trees reports, in its order, when it starts at node i. */
  function Differences(a: seq<Hash>, b: seq<Hash>, leafStart: nat, i: nat): seq<nat>
    requires |a| == |b| == 2 * leafStart && i < |a| && i > 0
    decreases |a| - i
  {
    if a[i] == b[i] then []
    else if i < leafStart then
      [i] + Differences(a, b, leafStart, 2 * i) + Differences(a, b, leafStart, 2 * i + 1)
    else [i]
  }

  /** Node j and all nodes above it, up to `top`, differ. */
  predicate PathDiffers(a: seq<Hash>, b: seq<Hash>, top: nat, j: nat)
    requires |a| == |b|
  {
    0 < j < |a| && a[j] != b[j] && (j == top || PathDiffers(a, b, top, j / 2))
  }

  lemma {:induction false} PathDiffersBelow(a: seq<Hash>, b: seq<Hash>, top: nat, j: nat)
    requires |a| == |b| && 0 < top < |a|
    ensures PathDiffers(a, b, top, j) ==> top <= j && a[top] != b[top]
    ensures PathDiffers(a, b, top, j) <==>
            a[top] != b[top] && (j == top || PathDiffers(a, b, 2 * top, j) || PathDiffers(a, b, 2 * top + 1, j))
  {
    if j > 0 {
      PathDiffersBelow(a, b, top, j / 2);
    }
  }

  lemma InDifferences(a: seq<Hash>, b: seq<Hash>, leafStart: nat, i: nat, j: nat)
    requires |a| == |b| == 2 * leafStart && 0 < i < |a|
    ensures j in Differences(a, b, leafStart, i) <==>
      && a[i] != b[i]
      && (j == i || (i < leafStart && (j in Differences(a, b, leafStart, 2 * i)
                                       || j in Differences(a, b, leafStart, 2 * i + 1))))
  {
  }

  /** compare_trees reports a node exactly when it and all its ancestors from the start differ. */
  lemma {:induction false} DifferencesExact(a: seq<Hash>, b: seq<Hash>, leafStart: nat, i: nat, j: nat)
    requires |a| == |b| == 2 * leafStart && 0 < i < |a|
    ensures j in Differences(a, b, leafStart, i) <==> PathDiffers(a, b, i, j)
    decreases |a| - i
  {
    hide Differences;
    hide PathDiffers;
    InDifferences(a, b, leafStart, i, j);
    PathDiffersBelow(a, b, i, j);
    if i < leafStart {
      DifferencesExact(a, b, leafStart, 2 * i, j);
      DifferencesExact(a, b, leafStart, 2 * i + 1, j);
    } else {
      OutOfRange(a, b, 2 * i, j);
      OutOfRange(a, b, 2 * i + 1, j);
    }
  }

  /** i comes before j when a tree is walked from the top, left before right: it is above j, or some node
      has i below its left child and j below its right child. */
  ghost predicate WalkedBefore(i: nat, j: nat) {
    (i != j && OnPath(i, j)) || exists p: nat :: Forks(p, i, j)
  }

  ghost predicate Forks(p: nat, i: nat, j: nat) {
    OnPath(2 * p, i) && OnPath(2 * p + 1, j)
  }

  lemma {:induction false} ReportedBelow(a: seq<Hash>, b: seq<Hash>, leafStart: nat, i: nat, k: nat)
    requires |a| == |b| == 2 * leafStart && 0 < i < |a| && k < |Differences(a, b, leafStart, i)|
    ensures OnPath(i, Differences(a, b, leafStart, i)[k])
    decreases |a| - i
  {
    if i < leafStart && k > 0 {
      var left := Differences(a, b, leafStart, 2 * i);
      if k <= |left| {
        ReportedBelow(a, b, leafStart, 2 * i, k - 1);
        OnPathUp(2 * i, left[k - 1]);
      } else {
        ReportedBelow(a, b, leafStart, 2 * i + 1, k - 1 - |left|);
        OnPathUp(2 * i + 1, Differences(a, b, leafStart, 2 * i + 1)[k - 1 - |left|]);
      }
    }
  }

  lemma {:induction false} OnPathUp(p: nat, i: nat)
    requires OnPath(p, i) && p > 1
    ensures OnPath(p / 2, i)
  {
    if p != i {
      OnPathUp(p, i / 2);
    } else {
      assert OnPath(p / 2, p / 2);
    }
  }

  lemma TopIsFirst(a: seq<Hash>, b: seq<Hash>, leafStart: nat, i: nat, l: nat)
    requires |a| == |b| == 2 * leafStart && 0 < i < |a| && 0 < l < |Differences(a, b, leafStart, i)|
    ensures var r := Differences(a, b, leafStart, i); r[0] == i && WalkedBefore(i, r[l])
  {
    hide WalkedBefore;
    hide OnPath;
    var r := Differences(a, b, leafStart, i);
    var left := Differences(a, b, leafStart, 2 * i);
    if l <= |left| {
      ReportedBelow(a, b, leafStart, 2 * i, l - 1);
      AboveIsBefore(i, 2 * i, r[l]);
    } else {
      ReportedBelow(a, b, leafStart, 2 * i + 1, l - 1 - |left|);
      AboveIsBefore(i, 2 * i + 1, r[l]);
    }
  }

  /** compare_trees reports nodes from the top, everything on the left before anything on the right. */
  lemma {:induction false} ReportedInOrder(a: seq<Hash>, b: seq<Hash>, leafStart: nat, i: nat, k: nat, l: nat)
    requires |a| == |b| == 2 * leafStart && 0 < i < |a| && k < l < |Differences(a, b, leafStart, i)|
    ensures var r := Differences(a, b, leafStart, i); WalkedBefore(r[k], r[l])
    decreases |a| - i
  {
    hide WalkedBefore;
    hide OnPath;
    var r := Differences(a, b, leafStart, i);
    assert a[i] != b[i] && i < leafStart;
    var left := Differences(a, b, leafStart, 2 * i);
    var right := Differences(a, b, leafStart, 2 * i + 1);
    assert r == [i] + left + right;
    if k == 0 {
      TopIsFirst(a, b, leafStart, i, l);
    } else if l <= |left| {
      ReportedInOrder(a, b, leafStart, 2 * i, k - 1, l - 1);
    } else if k > |left| {
      ReportedInOrder(a, b, leafStart, 2 * i + 1, k - 1 - |left|, l - 1 - |left|);
    } else {
      ReportedBelow(a, b, leafStart, 2 * i, k - 1);
      ReportedBelow(a, b, leafStart, 2 * i + 1, l - 1 - |left|);
      LeftIsBefore(i, r[k], r[l]);
    }
  }

  lemma AboveIsBefore(i: nat, child: nat, j: nat)
    requires child / 2 == i && i > 0 && OnPath(child, j)
    ensures WalkedBefore(i, j)
  {
    OnPathUp(child, j);
    OnPathDown(child, j);
  }

  lemma LeftIsBefore(p: nat, i: nat, j: nat)
    requires OnPath(2 * p, i) && OnPath(2 * p + 1, j)
    ensures WalkedBefore(i, j)
  {
    assert Forks(p, i, j);
  }

  /** No node comes before itself, so none is reported twice. */
  lemma NotBeforeItself(i: nat)
    ensures !WalkedBefore(i, i)
  {
    forall p: nat | Forks(p, i, i)
      ensures false
    {
      OnPathDown(2 * p, i);
      OnePathOnly(2 * p, 2 * p + 1, i);
    }
  }

  /** Of two neighbours only one can be above a node. */
  lemma {:induction false} OnePathOnly(p: nat, q: nat, i: nat)
    requires p < q < 2 * p && OnPath(p, i)
    ensures !OnPath(q, i)
  {
    if p == i {
      NotBelowItself(q, i);
    } else if q == i {
      OnPathDown(p, i / 2);
      assert false;
    } else {
      OnePathOnly(p, q, i / 2);
    }
  }

  lemma ReportedOnce(a: seq<Hash>, b: seq<Hash>, leafStart: nat, i: nat, k: nat, l: nat)
    requires |a| == |b| == 2 * leafStart && 0 < i < |a| && k < l < |Differences(a, b, leafStart, i)|
    ensures Differences(a, b, leafStart, i)[k] != Differences(a, b, leafStart, i)[l]
  {
    ReportedInOrder(a, b, leafStart, i, k, l);
    NotBeforeItself(Differences(a, b, leafStart, i)[k]);
  }

  lemma {:induction false} OutOfRange(a: seq<Hash>, b: seq<Hash>, top: nat, j: nat)
    requires |a| == |b| <= top
    ensures !PathDiffers(a, b, top, j)
  {
    if j > 0 {
      OutOfRange(a, b, top, j / 2);
    }
  }

  /** All the hashes of a tree, by node number; entry 0 is not a node. */
  function AllHashes(h: Hasher, leaves: seq<Hash>): (r: seq<Hash>)
    requires |leaves| > 0
    ensures |r| == 2 * |leaves|
  {
    seq<Hash>(2 * |leaves|, i requires 0 <= i < 2 * |leaves| => NodeHash(h, leaves, if i == 0 then 1 else i))
  }

  /** The nodes carry these hashes, which need not make a tree. */
  ghost predicate HasHashes(nodes: seq<Node>, hashes: seq<Hash>) {
    |hashes| <= |nodes| && forall i :: 1 <= i < |hashes| ==> nodes[i].hash == To(hashes[i])
  }

  lemma TreeHasHashes(h: Hasher, nodes: seq<Node>, leaves: seq<Hash>)
    requires |leaves| > 0
    ensures Represents(h, nodes, leaves) <==> HasHashes(nodes, AllHashes(h, leaves))
  {
  }

  lemma {:induction false} DifferenceGoesUp(h: Hasher, a: seq<Hash>, b: seq<Hash>, j: nat)
    requires |a| == |b| > 0 && 0 < j < 2 * |a| && NodeHash(h, a, j) != NodeHash(h, b, j)
    requires forall p :: !CollisionAt(h, a, b, p)
    ensures PathDiffers(AllHashes(h, a), AllHashes(h, b), 1, j)
  {
    if j > 1 {
      assert !CollisionAt(h, a, b, j / 2);
      DifferenceGoesUp(h, a, b, j / 2);
    }
  }

  /** Comparing two trees from the root reports leaf j exactly when the leaves differ, or else the
      combiner has a collision inside the trees. */
  lemma ReportedLeaves(h: Hasher, a: seq<Hash>, b: seq<Hash>, j: nat)
    requires |a| == |b| && j < |a|
    ensures (|a| + j in Differences(AllHashes(h, a), AllHashes(h, b), |a|, 1) <==> a[j] != b[j])
            || exists p :: CollisionAt(h, a, b, p)
  {
    DifferencesExact(AllHashes(h, a), AllHashes(h, b), |a|, 1, |a| + j);
    assert NodeHash(h, a, |a| + j) == a[j] && NodeHash(h, b, |b| + j) == b[j];
    assert AllHashes(h, a)[|a| + j] == a[j] && AllHashes(h, b)[|a| + j] == b[j];
    if (forall p :: !CollisionAt(h, a, b, p)) && a[j] != b[j] {
      DifferenceGoesUp(h, a, b, |a| + j);
    }
  }
}
