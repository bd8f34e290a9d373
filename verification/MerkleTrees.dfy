/** The heap-indexed Merkle tree of merkletree.c. */
module MerkleTrees {
  import opened Hashes
  import opened MerkleSpec
  import opened ParallelSpec
  import opened Params
  import opened Powers
  import opened RebuildSpec
  import opened SlotTable

  datatype Mode = BufferMode | FileMode

  lemma SetHashInArray(a: seq<Node>, b: seq<Node>, i: nat, p: Ptr<Hash>)
    requires |a| == |b| && i < |a| && b == a[i := a[i].(hash := p)]
    ensures b == SetHash(a, i, p)
  {
  }

  class MerkleTree {
    const hasher: Hasher
    var nbNodes: nat
    var treeHeight: nat
    var nodes: array<Node>

    ghost predicate Valid()
      reads this
    {
      treeHeight >= 1 && nbNodes == Pow2(treeHeight) && nodes.Length > nbNodes
    }

    /** The node array is the Merkle tree over these leaf hashes. */
    ghost predicate Holds(leaves: seq<Hash>)
      reads this, nodes
    {
      Valid() && 2 * |leaves| == nbNodes && Represents(hasher, nodes[..], leaves)
    }

    /** A tree whose height is known and whose nodes are not allocated yet. */
    constructor (hasher: Hasher, treeHeight: nat)
      ensures this.hasher == hasher && this.treeHeight == treeHeight && nbNodes == 0
      ensures fresh(nodes)
    {
      this.hasher := hasher;
      this.treeHeight := treeHeight;
      nbNodes := 0;
      nodes := new Node[0];
    }

    method HashNode(i: nat) returns (rc: int)
      requires Valid() && i > 0 && Readable(nodes[..], Pow2(treeHeight - 1), i)
      modifies nodes
      ensures rc == if Rehash(hasher, old(nodes[..]), Pow2(treeHeight - 1), i).To? then 0 else -1
      ensures nodes[..] == AfterHashNode(hasher, old(nodes[..]), Pow2(treeHeight - 1), i)
    {
      if i > nbNodes - 1 {
        return -1;
      }
      if i < Pow2(treeHeight - 1) {
        if IsSet(nodes[2 * i].hash) && IsSet(nodes[2 * i + 1].hash) {
          nodes[i] := nodes[i].(hash := To(hasher.combine(nodes[2 * i].hash.value, nodes[2 * i + 1].hash.value)));
        } else {
          return -1;
        }
      } else {
        if IsSet(nodes[i].data) {
          nodes[i] := nodes[i].(hash := To(hasher.leaf(nodes[i].data.value)));
        } else {
          return -1;
        }
      }
      return 0;
    }

    /** The loop that clears and hashes the nodes top, ..., 1; it never takes its error return. */
    method HashDown(top: nat, ghost leaves: seq<Hash>) returns (rc: int)
      requires Valid() && 2 * |leaves| == nbNodes && top < nbNodes
      requires RightFrom(hasher, nodes[..], leaves, top + 1) && LeafData(hasher, nodes[..], leaves, top)
      modifies nodes
      ensures rc == 0 && Holds(leaves) && SameData(old(nodes[..]), nodes[..])
    {
      hide RightFrom;
      hide AfterHashNode;
      hide SetHash;
      hide Rehash;
      hide Readable;
      var i := top;
      while i > 0
        invariant 0 <= i <= top
        invariant RightFrom(hasher, nodes[..], leaves, i + 1)
        invariant SameData(old(nodes[..]), nodes[..])
      {
        ghost var before := nodes[..];
        HashDownStep(hasher, before, leaves, i);
        nodes[i] := nodes[i].(hash := Null);
        SetHashInArray(before, nodes[..], i, Null);
        rc := HashNode(i);
        i := i - 1;
      }
      rc := 0;
    }

    method Allocate()
      requires treeHeight >= 1
      modifies this`nbNodes, this`nodes
      ensures Valid() && fresh(nodes) && NoData(nodes[..])
      ensures nodes.Length == (nbNodes + 1) * 2 * PAGE_LENGTH * HASH_SIZE
    {
      nbNodes := Pow2(treeHeight);
      nodes := new Node[(nbNodes + 1) * 2 * PAGE_LENGTH * HASH_SIZE](UnsetNode);
    }

    /** Reads the leaf data from a slot table and hashes the whole tree.  `datas` names the strings that
        the reader finds before it meets a NULL, or one for each leaf. */
    method BuildTree(slots: Slots, ghost datas: seq<string>) returns (rc: int)
      requires treeHeight >= 1
      requires ReadsUntil(slots, datas, Pow2(treeHeight - 1)) && FitLeaves(datas)
      modifies this`nbNodes, this`nodes
      ensures Valid() && fresh(nodes)
      ensures rc == if |datas| == Pow2(treeHeight - 1) then 0 else -1
      ensures rc == 0 ==> Holds(LeafHashes(hasher, datas)) && LeavesRead(nodes[..], |datas|, datas)
    {
      hide LeavesRead;
      hide LeavesHashed;
      hide AfterHashNode;
      hide Readable;
      hide Rehash;
      hide RightFrom;
      hide LeafData;
      hide SameData;
      hide ReadsUntil;
      hide Total;
      ReadsAtMost(slots, datas, Pow2(treeHeight - 1));
      var dataSize := 0;
      var leafStart := Pow2(treeHeight - 1);
      Allocate();
      NoLeaves(hasher, nodes[..], leafStart);
      var i := leafStart;
      while i < nbNodes
        invariant leafStart <= i <= nbNodes && i - leafStart <= |datas|
        invariant dataSize == Total(datas[..i - leafStart])
        invariant Valid() && fresh(nodes)
        invariant LeavesRead(nodes[..], leafStart, datas[..i - leafStart])
        invariant LeavesHashed(hasher, nodes[..], leafStart, datas[..i - leafStart])
      {
        ghost var k := i - leafStart;
        NextSlot(slots, datas, leafStart, k);
        if slots[dataSize].Null? {
          return -1;
        }
        assert Fits(datas[k]);
        ghost var before := nodes[..];
        HashLeaf(hasher, before, leafStart, datas, k);
        var data: LeafString := slots[dataSize].value;
        nodes[i] := Node(To(data), Null);
        assert nodes[..] == before[leafStart + k := Node(To(datas[k]), Null)];
        rc := HashNode(i);
        dataSize := dataSize + |slots[dataSize].value|;
        i := i + 1;
      }
      assert datas[..leafStart] == datas;
      LeavesAreRight(hasher, nodes[..], datas);
      ghost var leaves := nodes[..];
      rc := HashDown(leafStart - 1, LeafHashes(hasher, datas));
      LeavesReadKept(leaves, nodes[..], leafStart, datas);
    }

    /** Like BuildTree, but leaves all hashing to others. */
    method SetTreeDatas(slots: Slots, ghost datas: seq<string>) returns (rc: int)
      requires treeHeight >= 1
      requires ReadsUntil(slots, datas, Pow2(treeHeight - 1)) && FitLeaves(datas)
      modifies this`nbNodes, this`nodes
      ensures Valid() && fresh(nodes)
      ensures rc == if |datas| == Pow2(treeHeight - 1) then 0 else -1
      ensures rc == 0 ==> LeavesRead(nodes[..], |datas|, datas) && LeavesClear(nodes[..], |datas|, |datas|)
    {
      hide LeavesRead;
      hide LeavesClear;
      hide ReadsUntil;
      hide Total;
      ReadsAtMost(slots, datas, Pow2(treeHeight - 1));
      var totalSize := 0;
      var leafStart := Pow2(treeHeight - 1);
      Allocate();
      NoLeaves(hasher, nodes[..], leafStart);
      var i := leafStart;
      while i < nbNodes
        invariant leafStart <= i <= nbNodes && i - leafStart <= |datas|
        invariant totalSize == Total(datas[..i - leafStart])
        invariant Valid() && fresh(nodes)
        invariant LeavesRead(nodes[..], leafStart, datas[..i - leafStart])
        invariant LeavesClear(nodes[..], leafStart, i - leafStart)
      {
        ghost var k := i - leafStart;
        NextSlot(slots, datas, leafStart, k);
        if slots[totalSize].Null? {
          return -1;
        }
        assert Fits(datas[k]);
        ghost var before := nodes[..];
        ReadLeaf(before, leafStart, datas, k);
        var data: LeafString := slots[totalSize].value;
        nodes[i] := Node(To(data), Null);
        assert nodes[..] == before[leafStart + k := Node(To(datas[k]), Null)];
        totalSize := totalSize + |slots[totalSize].value|;
        i := i + 1;
      }
      assert datas[..leafStart] == datas;
      rc := 0;
    }

    /** The build with several threads; `b` is the logarithm of their number.  The root loop starts when
        all threads have finished. */
    method MBuildTree(slots: Slots, nbThreads: nat, ghost b: nat, ghost datas: seq<string>) returns (rc: int)
      requires treeHeight >= 1 && nbThreads == Pow2(b) && b + 2 <= treeHeight
      requires ReadsUntil(slots, datas, Pow2(treeHeight - 1)) && FitLeaves(datas)
      modifies this`nbNodes, this`nodes
      ensures Valid() && fresh(nodes)
      ensures rc == if |datas| == Pow2(treeHeight - 1) then 0 else -1
      ensures rc == 0 ==> Holds(LeafHashes(hasher, datas)) && LeavesRead(nodes[..], |datas|, datas)
    {
      hide Pow2;
      hide LeavesRead;
      hide LeavesClear;
      hide LeafData;
      hide ReadsUntil;
      hide RightFrom;
      hide SameData;
      var leafStart := Pow2(treeHeight - 1);
      Pow2Halves(treeHeight);
      rc := SetTreeDatas(slots, datas);
      if rc == -1 {
        return -1;
      }
      ghost var m: nat := treeHeight - 1 - b;
      ghost var leaves := LeafHashes(hasher, datas);
      Pow2Product(b, m);
      LaunchSizes(nbThreads, m);
      var nbLeavesPerThread := leafStart / nbThreads;
      var newStartIndex := leafStart / Pow2(Log2(nbLeavesPerThread) - 1);
      DataIsThere(hasher, nodes[..], datas);
      ghost var read := nodes[..];
      MHashNodes(nbThreads, nbLeavesPerThread, leaves);
      TopIsALeafAtMost(nbThreads, m);
      LeafDataBelow(hasher, nodes[..], leaves, newStartIndex);
      RightFromLater(hasher, nodes[..], leaves, newStartIndex);
      ghost var hashed := nodes[..];
      rc := HashDown(newStartIndex, leaves);
      SameDataTrans(read, hashed, nodes[..]);
      LeavesReadKept(read, nodes[..], leafStart, datas);
    }

    /** The threads, from their creation to the join.  The scheduler is any choice of a thread that has
        not finished. */
    method MHashNodes(nbThreads: nat, nbLeaves: nat, ghost leaves: seq<Hash>)
      requires Valid() && 2 * |leaves| == nbNodes && nbThreads > 0 && nbLeaves >= 2
      requires nbLeaves == Pow2(Log2(nbLeaves)) && |leaves| == nbThreads * nbLeaves
      requires LeafData(hasher, nodes[..], leaves, 2 * |leaves| - 1)
      modifies nodes
      ensures RightFrom(hasher, nodes[..], leaves, 2 * nbThreads)
      ensures LeafData(hasher, nodes[..], leaves, 2 * |leaves| - 1)
      ensures SameData(old(nodes[..]), nodes[..])
    {
      hide RightFrom;
      hide LeafData;
      hide SameData;
      hide Inv;
      hide Launch;
      hide Rehash;
      hide Readable;
      hide SetHash;
      hide TotalWork;
      hide NodeHash;
      ghost var start := nodes[..];
      var nbLevel := Log2(nbLeaves);
      Pow2Halves(0);
      var threads := Launch(nbThreads, nbNodes / 2, nbLeaves);
      LaunchIsOk(hasher, start, leaves, nbThreads, nbLevel);
      DataUnchanged(start);
      while exists t :: 0 <= t < nbThreads && !Finished(threads[t], nbLevel)
        invariant |threads| == nbThreads
        invariant Inv(hasher, System(nodes[..], threads), leaves, nbThreads, nbLevel)
        invariant SameData(start, nodes[..])
        decreases TotalWork(threads, nbLevel)
      {
        var t: nat :| t < nbThreads && !Finished(threads[t], nbLevel);
        ghost var s := System(nodes[..], threads);
        InputsReady(hasher, s, leaves, nbThreads, nbLevel, t);
        StepKeepsInv(hasher, s, leaves, nbThreads, nbLevel, t);
        StepWorks(hasher, s, leaves, nbThreads, nbLevel, t);
        SetHashKeepsData(start, s.nodes, threads[t].j, threads[t].pending);
        SetHashKeepsData(start, s.nodes, threads[t].j, Unset);
        threads := StepOf(threads, t);
        assert System(nodes[..], threads) == Step(hasher, s, |leaves|, nbLevel, t);
      }
      FinishedIsRight(hasher, System(nodes[..], threads), leaves, nbThreads, nbLevel);
      InvHasData(hasher, System(nodes[..], threads), leaves, nbThreads, nbLevel);
    }

    /** One step of thread t, in the shared array. */
    method StepOf(threads: seq<Thread>, t: nat) returns (r: seq<Thread>)
      requires Valid() && t < |threads| && 0 < threads[t].j < nbNodes
      requires threads[t].pending.To? || (Readable(nodes[..], nbNodes / 2, threads[t].j) &&
                                          Rehash(hasher, nodes[..], nbNodes / 2, threads[t].j).To?)
      modifies nodes
      ensures
        var th := threads[t];
        && nodes[..] == SetHash(old(nodes[..]), th.j, if th.pending.To? then th.pending else Unset)
        && r == threads[t := if th.pending.To? then Advance(th)
                             else th.(pending := Rehash(hasher, old(nodes[..]), nbNodes / 2, th.j))]
    {
      var th := threads[t];
      if th.pending.To? {
        nodes[th.j] := nodes[th.j].(hash := th.pending);
        r := threads[t := Advance(th)];
      } else {
        var p: Ptr<Hash>;
        if th.j < Pow2(treeHeight - 1) {
          p := To(hasher.combine(nodes[2 * th.j].hash.value, nodes[2 * th.j + 1].hash.value));
        } else {
          p := To(hasher.leaf(nodes[th.j].data.value));
        }
        nodes[th.j] := nodes[th.j].(hash := Unset);
        r := threads[t := th.(pending := p)];
      }
    }

    /** The loops that store new leaf data; buffer mode copies it into memory of the leaf. */
    method StoreDatas(indexes: seq<nat>, slots: Slots, mode: Mode, ghost datas: seq<string>)
      requires mode.BufferMode? ==> FitLeaves(datas)
      requires |indexes| == |datas| && SlotsHold(slots, datas)
      requires forall i :: 0 <= i < |indexes| ==> indexes[i] < nodes.Length
      modifies nodes
      ensures nodes[..] == Store(old(nodes[..]), indexes, datas)
    {
      hide Total;
      assert Total(datas[..0]) == 0 by { NoText(datas); }
      var dataSize := 0;
      for i := 0 to |indexes|
        invariant dataSize == Total(datas[..i])
        invariant nodes[..] == Store(old(nodes[..]), indexes[..i], datas[..i])
      {
        assert indexes[..i + 1][..i] == indexes[..i] && datas[..i + 1][..i] == datas[..i];
        TotalStep(datas, i);
        assert SlotHolds(slots, datas, i);
        var index := indexes[i];
        if mode.FileMode? {
          nodes[index] := nodes[index].(data := slots[dataSize]);
        } else {
          assert Fits(datas[i]);
          var copy: LeafString := slots[dataSize].value;
          nodes[index] := nodes[index].(data := To(copy));
        }
        dataSize := dataSize + |slots[dataSize].value|;
      }
      assert indexes[..|indexes|] == indexes && datas[..|datas|] == datas;
    }

    /** Clears and hashes the nodes from `start` to the root. */
    method HashPath(start: nat, ghost leaves: seq<Hash>, ghost data: string) returns (rc: int)
      requires Holds(leaves) && |leaves| <= start < nodes.Length && nodes[start].data == To(data)
      modifies nodes
      ensures rc == if start < nbNodes then 0 else -1
      ensures rc == 0 ==> Holds(leaves[start - |leaves| := hasher.leaf(data)])
      ensures rc == -1 ==> Holds(leaves)
      ensures SameData(old(nodes[..]), nodes[..])
      ensures OffPathKept(old(nodes[..]), nodes[..], start)
    {
      hide AfterHashNode;
      hide SetHash;
      hide Rehash;
      hide Readable;
      hide RightFrom;
      hide StalePath;
      hide OffPathKept;
      ghost var before := nodes[..];
      ghost var now := if start < nbNodes then leaves[start - |leaves| := hasher.leaf(data)] else leaves;
      NothingChanged(before, start);
      nodes[start] := nodes[start].(hash := Null);
      SetHashInArray(before, nodes[..], start, Null);
      ClearedOffPath(hasher, before, leaves, start);
      if start < nbNodes {
        PathStarts(hasher, before, leaves, start, data);
        KeptByHashing(hasher, before, before, |leaves|, start, start);
        SameDataAfter(hasher, before, |leaves|, start);
      } else {
        BeyondTheTree(hasher, nodes[..], |leaves|, start);
      }
      rc := HashNode(start);
      if rc == -1 {
        return;
      }
      var index := start / 2;
      while index != 0
        invariant 0 <= index < nbNodes && (index != 0 ==> index < |leaves| && OnPath(index, start))
        invariant StalePath(hasher, nodes[..], now, index)
        invariant SameData(before, nodes[..]) && OffPathKept(before, nodes[..], start)
      {
        ghost var here := nodes[..];
        PathGoesUp(hasher, here, now, index);
        KeptByHashing(hasher, before, here, |leaves|, index, start);
        SameDataAfter(hasher, here, |leaves|, index);
        if index > 1 {
          ParentOnPath(index, start);
        }
        nodes[index] := nodes[index].(hash := Null);
        SetHashInArray(here, nodes[..], index, Null);
        rc := HashNode(index);
        index := index / 2;
      }
      PathEnds(hasher, nodes[..], now);
      rc := 0;
    }

    /** The inner loop of the range rebuild: hash_node on first, ..., first + k - 1, stopping at the
        first error. */
    method HashRow(first: nat, k: nat) returns (rc: int)
      requires Valid() && first > 0
      requires RowReady(hasher, nodes[..], Pow2(treeHeight - 1), first, k)
      modifies nodes
      ensures rc == if k == 0 || first + k <= nbNodes then 0 else -1
      ensures rc == 0 ==> nodes[..] == HashRange(hasher, old(nodes[..]), Pow2(treeHeight - 1), first, k)
    {
      hide AfterHashNode;
      hide RowReady;
      ghost var before := nodes[..];
      for j := 0 to k
        invariant nodes[..] == HashRange(hasher, before, Pow2(treeHeight - 1), first, j)
        invariant j == 0 || first + j <= nbNodes
      {
        if first + j < nbNodes {
          RowStepMeans(hasher, before, Pow2(treeHeight - 1), first, k, j);
        } else {
          BeyondTheTree(hasher, nodes[..], Pow2(treeHeight - 1), first + j);
        }
        rc := HashNode(first + j);
        if rc == -1 {
          return;
        }
      }
      rc := 0;
    }

    /** The range rebuild: the changed leaves, then on each level half the range and one node more, and
        the root once more. */
    method HashLevels(first: nat, number: nat, ghost leaves: seq<Hash>, ghost datas: seq<string>) returns (rc: int)
      requires Holds(leaves) && |datas| == number > 0
      requires |leaves| <= first
      requires Carries(nodes[..], first, datas)
      requires RehashesFirstLeaf(|leaves|, first, number) && first > |leaves| ==>
                 LeafData(hasher, nodes[..], leaves, |leaves|)
      modifies nodes
      ensures rc == if first + number <= nbNodes then 0 else -1
      ensures rc == 0 ==> Holds(Replace(leaves, first - |leaves|, LeafHashes(hasher, datas)))
      ensures rc == 0 ==> SameData(old(nodes[..]), nodes[..])
    {
      hide HashRange;
      hide LevelDone;
      hide RightFrom;
      hide LeafData;
      hide SameData;
      hide RowReady;
      hide Replace;
      hide Carries;
      hide LeafHashes;
      hide Pow2;
      ghost var start := nodes[..];
      Pow2Halves(treeHeight);
      Pow2Halves(treeHeight - 1);
      CarriesInRange(start, first, datas);
      LeafRow(hasher, start, |leaves|, first, datas);
      rc := HashRow(first, number);
      if rc == -1 {
        return;
      }
      FirstLevel(hasher, start, leaves, first, datas);
      TreeIsConsistent(hasher, start, leaves);
      hide ConsistentInside;
      rc := HashUpperLevels(first / 2, number / 2 + 1, start, Replace(leaves, first - |leaves|, LeafHashes(hasher, datas)));
    }

    /** The turns of the outer loop above the leaves, and the last hash_node on the root. */
    method HashUpperLevels(first: nat, number: nat, ghost start: seq<Node>, ghost leaves: seq<Hash>) returns (rc: int)
      requires Valid() && 2 * |leaves| == nbNodes && LevelDone(hasher, start, nodes[..], leaves, |leaves|, first, number)
      requires ConsistentInside(hasher, start, |leaves|) && SameData(start, nodes[..])
      requires first + number == |leaves| + 1 || |leaves| == 1 ==> LeafData(hasher, nodes[..], leaves, |leaves|)
      modifies nodes
      ensures rc == 0 && Holds(leaves) && SameData(start, nodes[..])
    {
      hide HashRange;
      hide AfterHashNode;
      hide Rehash;
      hide Readable;
      hide LevelDone;
      hide ConsistentInside;
      hide RightFrom;
      hide LeafData;
      hide SameData;
      hide RowReady;
      hide Pow2;
      var index, k := first, number;
      ghost var d := |leaves|;
      Pow2Halves(treeHeight);
      Pow2Halves(0);
      LevelDoneBounds(hasher, start, nodes[..], leaves, d, index, k);
      for i := 1 to treeHeight
        invariant 0 <= index && 0 < k && d == Pow2(treeHeight - i) && d <= |leaves|
        invariant LevelDone(hasher, start, nodes[..], leaves, d, index, k)
        invariant SameData(start, nodes[..])
        invariant d == |leaves| && index + k == d + 1 ==> LeafData(hasher, nodes[..], leaves, d)
        invariant |leaves| == 1 ==> LeafData(hasher, nodes[..], leaves, 1)
      {
        Pow2Halves(treeHeight - i);
        NextLevel(hasher, start, nodes[..], leaves, d, index, k);
        rc := HashRow(index, k);
        index := index / 2;
        k := k / 2 + 1;
        d := d / 2;
      }
      RootIsStable(hasher, start, nodes[..], leaves, index, k);
      rc := HashNode(1);
    }

    /** Stores new data in leaves and re-hashes.  In buffer mode only the path of the last of the leaves
        is hashed again; in file mode all of them are, with everything above them. */
    method ChangeAndRebuild(indexes: seq<nat>, slots: Slots, mode: Mode,
                            ghost leaves: seq<Hash>, ghost datas: seq<string>) returns (rc: int)
      requires Holds(leaves) && |indexes| == |datas| > 0 && SlotsHold(slots, datas)
      requires forall i :: 0 <= i < |indexes| ==> |leaves| <= indexes[i] < nodes.Length
      requires mode.BufferMode? ==> FitLeaves(datas)
      requires mode.FileMode? ==> Contiguous(indexes)
      requires mode.FileMode? && RehashesFirstLeaf(|leaves|, indexes[0], |indexes|) && indexes[0] > |leaves| ==>
                 LeafData(hasher, nodes[..], leaves, |leaves|)
      modifies nodes
      ensures var last := indexes[|indexes| - 1];
              && rc == (if last < nbNodes then 0 else -1)
              && (mode.BufferMode? ==> Holds(if rc == 0 then leaves[last - |leaves| := hasher.leaf(datas[|datas| - 1])]
                                             else leaves))
              && (mode.FileMode? && rc == 0 ==> Holds(Replace(leaves, indexes[0] - |leaves|, LeafHashes(hasher, datas))))
      ensures mode.BufferMode? || rc == 0 ==> SameData(Store(old(nodes[..]), indexes, datas), nodes[..])
    {
      hide Store;
      hide RightFrom;
      hide LeafData;
      hide Replace;
      hide SameData;
      hide OffPathKept;
      ghost var before := nodes[..];
      var last := indexes[|indexes| - 1];
      StoreKeepsTree(hasher, before, leaves, indexes, datas);
      StoredLast(before, indexes, datas);
      StoreDatas(indexes, slots, mode, datas);
      if mode.FileMode? {
        StoreContiguous(before, indexes, datas);
        StoreKeepsFirstLeaf(hasher, before, leaves, indexes, datas);
        rc := HashLevels(indexes[0], |indexes|, leaves, datas);
      } else {
        rc := HashPath(last, leaves, datas[|datas| - 1]);
      }
    }
  }

  /** Lists the nodes that compare_trees prints, in its order, for any two arrays of hashes. */
  method CompareTrees(a: MerkleTree, b: MerkleTree, index: nat, ghost ha: seq<Hash>, ghost hb: seq<Hash>)
    returns (reported: seq<nat>)
    requires a.Valid() && |ha| == |hb| == a.nbNodes == 2 * Pow2(a.treeHeight - 1)
    requires HasHashes(a.nodes[..], ha) && HasHashes(b.nodes[..], hb)
    requires 0 < index < a.nbNodes
    ensures reported == Differences(ha, hb, Pow2(a.treeHeight - 1), index)
    decreases a.nbNodes - index
  {
    reported := [];
    if a.nodes[index].hash.value != b.nodes[index].hash.value {
      reported := [index];
      if index < Pow2(a.treeHeight - 1) {
        var left := CompareTrees(a, b, 2 * index, ha, hb);
        var right := CompareTrees(a, b, 2 * index + 1, ha, hb);
        reported := reported + left + right;
      }
    }
  }

  lemma StoreKeepsTree(h: Hasher, nodes: seq<Node>, leaves: seq<Hash>, indexes: seq<nat>, datas: seq<string>)
    requires Represents(h, nodes, leaves) && |indexes| == |datas|
    ensures Represents(h, Store(nodes, indexes, datas), leaves)
  {
    StoreKeepsHashes(nodes, indexes, datas);
  }

  lemma StoredLast(nodes: seq<Node>, indexes: seq<nat>, datas: seq<string>)
    requires |indexes| == |datas| > 0 && indexes[|indexes| - 1] < |nodes|
    ensures Store(nodes, indexes, datas)[indexes[|indexes| - 1]].data == To(datas[|datas| - 1])
  {
  }

  lemma StoreKeepsFirstLeaf(h: Hasher, nodes: seq<Node>, leaves: seq<Hash>, indexes: seq<nat>, datas: seq<string>)
    requires |indexes| == |datas| > 0 && Contiguous(indexes)
    ensures LeafData(h, nodes, leaves, |leaves|) && indexes[0] > |leaves| ==>
              LeafData(h, Store(nodes, indexes, datas), leaves, |leaves|)
  {
    StoreKeepsHashes(nodes, indexes, datas);
  }

  lemma DataIsThere(h: Hasher, nodes: seq<Node>, datas: seq<string>)
    requires LeavesRead(nodes, |datas|, datas) && |datas| > 0
    ensures LeafData(h, nodes, LeafHashes(h, datas), 2 * |datas| - 1)
  {
    forall i | |datas| <= i < 2 * |datas|
      ensures nodes[i].data == To(datas[i - |datas|])
    {
      assert nodes[|datas| + (i - |datas|)].data == To(datas[i - |datas|]);
    }
  }

  lemma LeafDataBelow(h: Hasher, nodes: seq<Node>, leaves: seq<Hash>, top: nat)
    requires |leaves| > 0 && LeafData(h, nodes, leaves, 2 * |leaves| - 1) && top < 2 * |leaves|
    ensures LeafData(h, nodes, leaves, top)
  {
  }

  lemma RightFromLater(h: Hasher, nodes: seq<Node>, leaves: seq<Hash>, from: nat)
    requires RightFrom(h, nodes, leaves, from)
    ensures RightFrom(h, nodes, leaves, from + 1)
  {
  }

  /** The root loop starts at a node of the tree. */
  lemma TopIsALeafAtMost(T: nat, m: nat)
    requires T > 0 && m > 0
    ensures 2 * T <= T * Pow2(m)
  {
    assert Pow2(m) >= 2;
    assert T * Pow2(m) == T * (Pow2(m) - 2) + 2 * T;
    assert T * (Pow2(m) - 2) >= 0;
  }

  lemma DataUnchanged(nodes: seq<Node>)
    ensures SameData(nodes, nodes)
  {
  }

  lemma SetHashKeepsData(start: seq<Node>, nodes: seq<Node>, i: nat, p: Ptr<Hash>)
    requires SameData(start, nodes) && i < |nodes|
    ensures SameData(start, SetHash(nodes, i, p))
  {
  }

  lemma InvHasData(h: Hasher, s: System, leaves: seq<Hash>, T: nat, m: nat)
    requires Inv(h, s, leaves, T, m)
    ensures |leaves| > 0 && LeafData(h, s.nodes, leaves, 2 * |leaves| - 1)
  {
  }

  lemma SameDataTrans(a: seq<Node>, b: seq<Node>, c: seq<Node>)
    requires SameData(a, b) && SameData(b, c)
    ensures SameData(a, c)
  {
  }

  lemma NothingChanged(nodes: seq<Node>, i: nat)
    ensures OffPathKept(nodes, nodes, i) && SameData(nodes, nodes)
  {
  }

  lemma SameDataAfter(h: Hasher, nodes: seq<Node>, leafStart: nat, i: nat)
    requires 2 * leafStart <= |nodes| && i < |nodes|
    ensures SameData(nodes, AfterHashNode(h, SetHash(nodes, i, Null), leafStart, i))
  {
  }

  /** Clearing a leaf beyond the last one leaves the tree as it is. */
  lemma ClearedOffPath(h: Hasher, nodes: seq<Node>, leaves: seq<Hash>, i: nat)
    requires Represents(h, nodes, leaves) && i < |nodes|
    ensures i >= 2 * |leaves| ==> Represents(h, SetHash(nodes, i, Null), leaves)
    ensures SameData(nodes, SetHash(nodes, i, Null))
    ensures i > 0 ==> OffPathKept(nodes, SetHash(nodes, i, Null), i)
  {
  }

  lemma BeyondTheTree(h: Hasher, nodes: seq<Node>, leafStart: nat, i: nat)
    requires 2 * leafStart <= |nodes| && 2 * leafStart <= i
    ensures Readable(nodes, leafStart, i) && Rehash(h, nodes, leafStart, i) == Null
    ensures AfterHashNode(h, nodes, leafStart, i) == nodes
  {
  }

  lemma NoLeaves(h: Hasher, nodes: seq<Node>, leafStart: nat)
    requires 2 * leafStart <= |nodes|
    ensures LeavesRead(nodes, leafStart, []) && LeavesHashed(h, nodes, leafStart, []) && LeavesClear(nodes, leafStart, 0)
  {
  }

  lemma LeavesReadKept(a: seq<Node>, b: seq<Node>, leafStart: nat, datas: seq<string>)
    requires LeavesRead(a, leafStart, datas) && SameData(a, b)
    ensures LeavesRead(b, leafStart, datas)
  {
  }
}
