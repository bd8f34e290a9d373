/** Building and updating the tree of a file: parse.c. */
module Maintenance {
  import opened Hashes
  import opened MerkleSpec
  import opened MerkleTrees
  import opened Pages
  import opened Params
  import opened Powers
  import opened RebuildSpec
  import opened SlotTable
  import opened TreeSizes
  import opened TreeStrings
  import opened WriteSpec

  // ----- Doubling a tree -----

  /** The nodes from `from` on have these hashes. */
  ghost predicate HashesFrom(nodes: seq<Node>, from: nat, hashes: seq<Hash>) {
    && from + |hashes| <= |nodes|
    && forall k :: 0 <= k < |hashes| ==> nodes[from + k].hash == To(hashes[k])
  }

  lemma NoHashes(nodes: seq<Node>, from: nat)
    requires from <= |nodes|
    ensures HashesFrom(nodes, from, [])
  {
  }

  lemma HashCopied(nodes: seq<Node>, from: nat, hashes: seq<Hash>, value: Hash)
    requires HashesFrom(nodes, from, hashes) && from + |hashes| < |nodes|
    ensures HashesFrom(SetHash(nodes, from + |hashes|, To(value)), from, hashes + [value])
  {
  }

  lemma BlankHashed(h: Hasher, nodes: seq<Node>, leafStart: nat, hashes: seq<Hash>)
    requires HashesFrom(nodes, leafStart, hashes) && |hashes| < leafStart && 2 * leafStart <= |nodes|
    ensures
      var i := leafStart + |hashes|;
      var blank := nodes[i := Node(To(BLANK), Null)];
      && Readable(blank, leafStart, i) && Rehash(h, blank, leafStart, i).To?
      && HashesFrom(AfterHashNode(h, blank, leafStart, i), leafStart, hashes + [h.leaf(BLANK)])
  {
  }

  lemma LeafRowIsRight(h: Hasher, nodes: seq<Node>, leaves: seq<Hash>)
    requires |leaves| > 0 && 2 * |leaves| <= |nodes| && HashesFrom(nodes, |leaves|, leaves)
    ensures RightFrom(h, nodes, leaves, |leaves|) && LeafData(h, nodes, leaves, |leaves| - 1)
  {
    forall i | |leaves| <= i < 2 * |leaves|
      ensures nodes[i].hash == To(leaves[i - |leaves|])
    {
      assert nodes[|leaves| + (i - |leaves|)].hash == To(leaves[i - |leaves|]);
    }
  }

  lemma LeafHash(h: Hasher, nodes: seq<Node>, leaves: seq<Hash>, k: nat)
    requires Represents(h, nodes, leaves) && k < |leaves|
    ensures nodes[|leaves| + k].hash == To(leaves[k])
  {
    assert NodeHash(h, leaves, |leaves| + k) == leaves[k];
  }

  /** A tree of twice the size: the old leaf hashes, and blank leaves. */
  method GetBiggerTree(oldMt: MerkleTree, newMt: MerkleTree, ghost leaves: seq<Hash>) returns (rc: int)
    requires oldMt.Holds(leaves) && oldMt != newMt && oldMt.hasher == newMt.hasher
    modifies newMt`nbNodes, newMt`treeHeight, newMt`nodes
    ensures rc == 0 && newMt.Holds(Doubled(newMt.hasher, leaves))
    ensures newMt.treeHeight == oldMt.treeHeight + 1 && fresh(newMt.nodes)
    ensures newMt.nodes.Length == (newMt.nbNodes + 1) * 2 * PAGE_LENGTH * HASH_SIZE
  {
    hide HashesFrom;
    hide RightFrom;
    hide LeafData;
    hide Doubled;
    hide Pow2;
    Pow2Halves(oldMt.treeHeight);
    Pow2Halves(oldMt.treeHeight + 1);
    newMt.treeHeight := 1 + oldMt.treeHeight;
    newMt.nbNodes := Pow2(newMt.treeHeight);
    newMt.nodes := new Node[(newMt.nbNodes + 1) * 2 * PAGE_LENGTH * HASH_SIZE](UnsetNode);
    CopyLeaves(oldMt, newMt, leaves);
    AddBlanks(oldMt, newMt, leaves);
    LeafRowIsRight(newMt.hasher, newMt.nodes[..], Doubled(newMt.hasher, leaves));
    rc := newMt.HashDown(Pow2(newMt.treeHeight - 1) - 1, Doubled(newMt.hasher, leaves));
  }

  /** The loop that copies the old leaf hashes. */
  method CopyLeaves(oldMt: MerkleTree, newMt: MerkleTree, ghost leaves: seq<Hash>)
    requires oldMt.Holds(leaves) && newMt.Valid() && newMt.treeHeight == oldMt.treeHeight + 1
    requires oldMt.nodes != newMt.nodes
    modifies newMt.nodes
    ensures HashesFrom(newMt.nodes[..], 2 * |leaves|, leaves)
  {
    hide HashesFrom;
    hide SetHash;
    hide RightFrom;
    hide Pow2;
    Pow2Halves(oldMt.treeHeight);
    Pow2Halves(oldMt.treeHeight + 1);
    var oldStart := Pow2(oldMt.treeHeight - 1);
    var newStart := Pow2(newMt.treeHeight - 1);
    NoHashes(newMt.nodes[..], newStart);
    for i := 0 to oldMt.nbNodes - oldStart
      invariant HashesFrom(newMt.nodes[..], newStart, leaves[..i])
    {
      ghost var before := newMt.nodes[..];
      LeafHash(oldMt.hasher, oldMt.nodes[..], leaves, i);
      HashCopied(before, newStart, leaves[..i], leaves[i]);
      assert leaves[..i + 1] == leaves[..i] + [leaves[i]];
      newMt.nodes[newStart + i] := newMt.nodes[newStart + i].(hash := oldMt.nodes[oldStart + i].hash);
      SetHashInArray(before, newMt.nodes[..], newStart + i, To(leaves[i]));
    }
    assert leaves[..|leaves|] == leaves;
  }

  /** The loop that adds the blank leaves; no hash_node call fails. */
  method AddBlanks(oldMt: MerkleTree, newMt: MerkleTree, ghost leaves: seq<Hash>)
    requires oldMt.Valid() && 2 * |leaves| == oldMt.nbNodes
    requires newMt.Valid() && newMt.treeHeight == oldMt.treeHeight + 1
    requires HashesFrom(newMt.nodes[..], 2 * |leaves|, leaves)
    modifies newMt.nodes
    ensures HashesFrom(newMt.nodes[..], 2 * |leaves|, Doubled(newMt.hasher, leaves))
  {
    hide HashesFrom;
    hide AfterHashNode;
    hide Rehash;
    hide Readable;
    hide Pow2;
    ghost var doubled := Doubled(newMt.hasher, leaves);
    Pow2Halves(oldMt.treeHeight);
    Pow2Halves(oldMt.treeHeight + 1);
    var oldStart := Pow2(oldMt.treeHeight - 1);
    var newStart := Pow2(newMt.treeHeight - 1);
    assert doubled[..|leaves|] == leaves;
    for i := newStart + oldMt.nbNodes - oldStart to newMt.nbNodes
      invariant HashesFrom(newMt.nodes[..], newStart, doubled[..i - newStart])
    {
      ghost var before := newMt.nodes[..];
      ghost var k := i - newStart;
      BlankHashed(newMt.hasher, before, newStart, doubled[..k]);
      assert doubled[..k + 1] == doubled[..k] + [newMt.hasher.leaf(BLANK)];
      newMt.nodes[i] := Node(To(" "), Null);
      assert newMt.nodes[..] == before[i := Node(To(BLANK), Null)];
      var rc := newMt.HashNode(i);
    }
    assert doubled[..newMt.nbNodes - newStart] == doubled;
  }

  /** Hashes everything above leaves that have their hashes already. */
  method RootCalculation(mt: MerkleTree, ghost leaves: seq<Hash>) returns (rc: int, text: string)
    requires mt.Valid() && 2 * |leaves| == mt.nbNodes && |leaves| > 0
    requires HashesFrom(mt.nodes[..], |leaves|, leaves)
    modifies mt.nodes
    ensures rc == 0 && mt.Holds(leaves) && text == TreeTextOf(mt.hasher, leaves)
  {
    hide HashesFrom;
    hide RightFrom;
    hide LeafData;
    hide TreeTextOf;
    hide AllHashes;
    hide HasHashes;
    hide Pow2;
    Pow2Halves(mt.treeHeight);
    LeafRowIsRight(mt.hasher, mt.nodes[..], leaves);
    rc := mt.HashDown(Pow2(mt.treeHeight - 1) - 1, leaves);
    TextOfTree(mt.hasher, mt.nodes[..], leaves);
    text := TreeToString(mt, AllHashes(mt.hasher, leaves));
  }

  // ----- Building the tree of a file -----

  /** The height of a tree with this many leaves, and back. */
  lemma HeightOfTree(n: nat)
    requires n > 0
    ensures Pow2(Log2(TreeSize(n))) == TreeSize(n)
  {
    hide Log2;
    TreeSizeIsLeast(n, 0);
    var k: nat :| TreeSize(n) == Pow2(k);
    Log2OfPow2(k);
  }

  /** Measures a file and allocates the buffer it is read into, which has room for one byte more. */
  method MeasureFile(file: string) returns (fileSize: Int)
    requires |file| + 1 < INT_LIMIT
    ensures fileSize == |file|
  {
    fileSize := |file|;
    var room: Int := fileSize + 1;
    assert room > fileSize;
  }

  /** The single-threaded build; the result is the text of the tree. */
  method ComputeMerkle(file: string, mt: MerkleTree) returns (rc: int, text: string)
    requires file != "" && BuildFits(|file|)
    modifies mt`nbNodes, mt`treeHeight, mt`nodes
    ensures rc == 0 && text == TreeTextOf(mt.hasher, FreshLeaves(mt.hasher, file))
  {
    hide TreeSize;
    hide Log2;
    hide Pow2;
    hide SlotsHold;
    hide RightFrom;
    hide TreeTextOf;
    hide AllHashes;
    hide HasHashes;
    hide BuildFits;
    hide FitLeaves;
    BuildFitsUpTo(|file|);
    var fileSize := MeasureFile(file);
    var pageFull: Int := if IsFull(fileSize) then 1 else 0;
    var nbOfPages: Int := fileSize / PAGE_LENGTH;
    PageCountInCode(|file|);
    HeightOfTree(PageCount(|file|));
    var treeSize := ComputeTreeSize(nbOfPages + 1 - pageFull);
    var parsedFile, cursor := ParseFile(file, treeSize);
    mt.treeHeight := Log2(treeSize) + 1;
    mt.nbNodes := 0;
    PagesFit(file);
    rc := mt.BuildTree(parsedFile[cursor..], PaddedPages(file));
    TextOfTree(mt.hasher, mt.nodes[..], FreshLeaves(mt.hasher, file));
    text := TreeToString(mt, AllHashes(mt.hasher, FreshLeaves(mt.hasher, file)));
  }

  /** The build with several threads, for files with at least as many full pages as threads. */
  method MComputeMerkle(file: string, mt: MerkleTree, nbThreads: nat, ghost b: nat) returns (rc: int, text: string)
    requires file != "" && BuildFits(|file|) && nbThreads == Pow2(b)
    requires |file| / PAGE_LENGTH < nbThreads || TreeSize(PageCount(|file|)) >= 2 * nbThreads
    modifies mt`nbNodes, mt`treeHeight, mt`nodes
    ensures rc == 0 && text == TreeTextOf(mt.hasher, FreshLeaves(mt.hasher, file))
  {
    hide TreeSize;
    hide Log2;
    hide Pow2;
    hide SlotsHold;
    hide RightFrom;
    hide TreeTextOf;
    hide AllHashes;
    hide HasHashes;
    hide BuildFits;
    hide FitLeaves;
    BuildFitsUpTo(|file|);
    var fileSize := MeasureFile(file);
    var pageFull: Int := if IsFull(fileSize) then 1 else 0;
    var nbOfPages: Int := fileSize / PAGE_LENGTH;
    if nbOfPages < nbThreads {
      rc, text := ComputeMerkle(file, mt);
      return;
    }
    PageCountInCode(|file|);
    HeightOfTree(PageCount(|file|));
    var treeSize := ComputeTreeSize(nbOfPages + 1 - pageFull);
    var parsedFile, cursor := ParseFile(file, treeSize);
    mt.treeHeight := Log2(treeSize) + 1;
    mt.nbNodes := 0;
    TwoLeavesEach(b, Log2(treeSize));
    PagesFit(file);
    var built := mt.MBuildTree(parsedFile[cursor..], nbThreads, b, PaddedPages(file));
    TextOfTree(mt.hasher, mt.nodes[..], FreshLeaves(mt.hasher, file));
    text := TreeToString(mt, AllHashes(mt.hasher, FreshLeaves(mt.hasher, file)));
    rc := 0;
  }

  lemma TwoLeavesEach(b: nat, e: nat)
    requires Pow2(e) >= 2 * Pow2(b)
    ensures e >= b + 1
  {
    if e < b {
      Pow2Grows(e, b);
    }
  }

  // ----- Updating the tree after a write -----

  /** The table that pages_in_need fills: the strings start PAGE_LENGTH slots apart. */
  lemma RangeSlots(slots: Slots, file: string, w: Write)
    requires w.buf != "" && LastPage(w) < PageCount(|file|)
    requires |slots| > (LastPage(w) - FirstPage(w)) * PAGE_LENGTH
    requires forall k :: 0 <= k < |RangeDatas(file, w)| ==> slots[k * PAGE_LENGTH] == To(RangeDatas(file, w)[k])
    ensures SlotsHold(slots, RangeDatas(file, w))
  {
    hide Total;
    forall k | 0 <= k < |RangeDatas(file, w)|
      ensures SlotHolds(slots, RangeDatas(file, w), k)
    {
      RangeTotal(file, w, k);
    }
  }

  lemma {:induction false} RangeTotal(file: string, w: Write, k: nat)
    requires w.buf != "" && LastPage(w) < PageCount(|file|) && k < |RangeDatas(file, w)|
    ensures Total(RangeDatas(file, w)[..k]) == k * PAGE_LENGTH
  {
    NoText(RangeDatas(file, w));
    if k > 0 {
      RangeTotal(file, w, k - 1);
      TotalStep(RangeDatas(file, w), k - 1);
      assert |Page(file, FirstPage(w) + (k - 1))| == PAGE_LENGTH;
    }
  }

  /** Reads the touched pages from the file again.  Gives up with -1 if one of them has no leaf. */
  method PagesInNeed(mt: MerkleTree, file: string, ghost w: Write, size: nat, offset: nat, ghost leaves: seq<Hash>)
    returns (rc: int, text: string)
    requires mt.Holds(leaves) && |leaves| > 0
    requires mt.nodes.Length == (mt.nbNodes + 1) * 2 * PAGE_LENGTH * HASH_SIZE
    requires w.buf != "" && size == |w.buf| && offset == w.offset
    requires offset + size <= |file|
    requires if |file| / PAGE_LENGTH > |leaves| then BuildFits(|file|)
             else RangeFits(|file|, w) && StaysInRange(|leaves|, w)
    modifies mt`nbNodes, mt`treeHeight, mt`nodes, mt.nodes
    ensures rc == if RangeLeaves(mt.hasher, leaves, file, w).Some? then 0 else -1
    ensures rc == 0 ==> text == TreeTextOf(mt.hasher, RangeLeaves(mt.hasher, leaves, file, w).value)
  {
    hide TreeTextOf;
    hide AllHashes;
    hide HasHashes;
    hide FreshLeaves;
    hide Replace;
    hide SlotsHold;
    hide RightFrom;
    hide RangeDatas;
    hide Store;
    hide SameData;
    hide LeafData;
    hide LeafHashes;
    hide Pow2;
    Pow2Halves(mt.treeHeight);
    text := "";
    BuildFitsUpTo(|file|);
    hide BuildFits;
    var fileSize := MeasureFile(file);
    var nbOfPages: Int := fileSize / PAGE_LENGTH;
    if nbOfPages > mt.nbNodes / 2 {
      rc, text := ComputeMerkle(file, mt);
      return;
    }
    var end: Int := offset + size;
    var firstPage: Int := offset / PAGE_LENGTH;
    var lastPage: Int := end / PAGE_LENGTH;
    if IsFull(end) {
      lastPage := lastPage - 1;
    }
    RangeIsTouched(w, 0);
    rc, text := UpdateRange(mt, file, w, firstPage, lastPage - firstPage + 1, leaves);
  }

  /** The part of pages_in_need that works on the range of touched pages. */
  method UpdateRange(mt: MerkleTree, file: string, ghost w: Write, firstPage: Int, number: Int, ghost leaves: seq<Hash>)
    returns (rc: int, text: string)
    requires mt.Holds(leaves) && |leaves| > 0
    requires mt.nodes.Length == (mt.nbNodes + 1) * 2 * PAGE_LENGTH * HASH_SIZE
    requires w.buf != "" && w.offset + |w.buf| <= |file|
    requires firstPage == FirstPage(w) && number == LastPage(w) - FirstPage(w) + 1
    requires RangeFits(|file|, w) && StaysInRange(|leaves|, w)
    modifies mt.nodes
    ensures rc == if LastPage(w) < |leaves| then 0 else -1
    ensures rc == 0 ==>
      text == TreeTextOf(mt.hasher, Replace(leaves, FirstPage(w), LeafHashes(mt.hasher, RangeDatas(file, w))))
  {
    hide TreeTextOf;
    hide AllHashes;
    hide HasHashes;
    hide Replace;
    hide SlotsHold;
    hide RightFrom;
    hide RangeDatas;
    hide Store;
    hide SameData;
    hide LeafData;
    hide LeafHashes;
    hide Pow2;
    Pow2Halves(mt.treeHeight);
    text := "";
    var leafStart := Pow2(mt.treeHeight - 1);
    var indexes := seq(number, i requires 0 <= i < number => leafStart + firstPage + i);
    var newDatas := ReadRange(file, w, firstPage, number);
    rc := mt.ChangeAndRebuild(indexes, newDatas, FileMode, leaves, RangeDatas(file, w));
    if rc == -1 {
      return;
    }
    ghost var next := Replace(leaves, firstPage, LeafHashes(mt.hasher, RangeDatas(file, w)));
    TextOfTree(mt.hasher, mt.nodes[..], next);
    text := TreeToString(mt, AllHashes(mt.hasher, next));
    rc := 0;
  }

  /** The loops of pages_in_need that fill the table of new data. */
  method ReadRange(file: string, ghost w: Write, firstPage: nat, number: nat) returns (slots: Slots)
    requires w.buf != "" && w.offset + |w.buf| <= |file|
    requires firstPage == FirstPage(w) && number == LastPage(w) - FirstPage(w) + 1 && RangeFits(|file|, w)
    ensures SlotsHold(slots, RangeDatas(file, w))
  {
    ghost var datas := RangeDatas(file, w);
    var newDatas := new Ptr<string>[number * 8 * PAGE_LENGTH](_ => Null);
    var cursor := 0;
    for i := 0 to number
      invariant cursor == i * PAGE_LENGTH
    {
      newDatas[cursor] := To("");
      cursor := cursor + PAGE_LENGTH;
    }
    var allPages: Int := number * PAGE_LENGTH;
    cursor := cursor - allPages;
    var fileCursor: Int := firstPage * PAGE_LENGTH;
    for i := 0 to number - 1
      invariant cursor == i * PAGE_LENGTH && fileCursor == (firstPage + i) * PAGE_LENGTH
      invariant forall k :: 0 <= k < i ==> newDatas[k * PAGE_LENGTH] == To(datas[k])
    {
      newDatas[cursor] := To(file[fileCursor..fileCursor + PAGE_LENGTH]);
      cursor := cursor + PAGE_LENGTH;
      fileCursor := fileCursor + PAGE_LENGTH;
    }
    var rest := file[fileCursor..];
    newDatas[cursor] := To(if |rest| < PAGE_LENGTH then rest else rest[..PAGE_LENGTH - 1]);
    slots := newDatas[..];
    CutPageIsCopied(file, LastPage(w));
    assert slots[cursor] == To(datas[number - 1]);
    forall k | 0 <= k < |datas|
      ensures slots[k * PAGE_LENGTH] == To(datas[k])
    {
      if k < number - 1 {
        assert newDatas[k * PAGE_LENGTH] == To(datas[k]);
      }
    }
    RangeSlots(slots, file, w);
  }

  /** Gives one leaf the hash of the buffer, if the write was aligned. */
  method QuickChange(mt: MerkleTree, w: Write, ghost leaves: seq<Hash>) returns (rc: int, text: string)
    requires mt.Holds(leaves) && |leaves| > 0 && w.buf != "" && w.offset + |w.buf| < INT_LIMIT
    requires IsFull(w.offset) ==> Fits(w.buf)
    requires mt.nodes.Length == (mt.nbNodes + 1) * 2 * PAGE_LENGTH * HASH_SIZE
    modifies mt.nodes
    ensures rc == if !IsFull(w.offset) then -2 else if QuickLeaves(mt.hasher, leaves, w).Some? then 0 else -1
    ensures rc == 0 ==> text == TreeTextOf(mt.hasher, QuickLeaves(mt.hasher, leaves, w).value)
    ensures rc != 0 ==> mt.Holds(leaves)
  {
    hide TreeTextOf;
    hide AllHashes;
    hide HasHashes;
    hide RightFrom;
    hide Pow2;
    Pow2Halves(mt.treeHeight);
    text := "";
    if !IsFull(w.offset) {
      return -2, "";
    }
    var page: Int := w.offset / PAGE_LENGTH;
    var leafStart := Pow2(mt.treeHeight - 1);
    BufferSlot(w.buf);
    if page + 1 > mt.nbNodes / 2 {
      var newMt := new MerkleTree(mt.hasher, 0);
      rc := GetBiggerTree(mt, newMt, leaves);
      var newLeafStart := Pow2(newMt.treeHeight - 1);
      rc := newMt.ChangeAndRebuild([newLeafStart + page], [To(w.buf)], BufferMode, Doubled(mt.hasher, leaves), [w.buf]);
      if rc == -1 {
        return -1, "";
      }
      TextOfTree(newMt.hasher, newMt.nodes[..], Doubled(mt.hasher, leaves)[page := mt.hasher.leaf(w.buf)]);
      text := TreeToString(newMt, AllHashes(newMt.hasher, Doubled(mt.hasher, leaves)[page := mt.hasher.leaf(w.buf)]));
      return 0, text;
    }
    rc := mt.ChangeAndRebuild([leafStart + page], [To(w.buf)], BufferMode, leaves, [w.buf]);
    TextOfTree(mt.hasher, mt.nodes[..], leaves[page := mt.hasher.leaf(w.buf)]);
    text := TreeToString(mt, AllHashes(mt.hasher, leaves[page := mt.hasher.leaf(w.buf)]));
  }

  lemma BufferSlot(buf: string)
    ensures SlotsHold([To(buf)], [buf])
  {
    NoText([buf]);
  }
}
