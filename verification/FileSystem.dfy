/** The write operation of the file system, bb_write, and what whole runs of writes keep. */
module FileSystem {
  import opened Hashes
  import opened Maintenance
  import opened MerkleSpec
  import opened MerkleTrees
  import opened Pages
  import opened Params
  import opened Powers
  import opened RebuildSpec
  import opened TreeSizes
  import opened TreeStrings
  import opened WriteSpec

  const NB_THREADS: nat := 8

  ghost predicate IsPow2(n: nat) {
    exists k: nat :: n == Pow2(k)
  }

  lemma FreshIsPow2(h: Hasher, file: string)
    requires file != ""
    ensures |FreshLeaves(h, file)| > 0 && IsPow2(|FreshLeaves(h, file)|)
  {
    TreeSizeIsLeast(PageCount(|file|), 0);
  }

  /** Every update leaves a tree. */
  lemma NextIsPow2(h: Hasher, leaves: seq<Hash>, file: string, w: Write)
    requires w.buf != "" && w.offset + |w.buf| <= |file| && Defined(|leaves|, |file|, w)
    requires leaves == [] || IsPow2(|leaves|)
    ensures
      var next := NextLeaves(h, leaves, file, w);
      |next| > 0 && IsPow2(|next|)
  {
    hide FreshLeaves;
    hide Replace;
    FreshIsPow2(h, file);
    if leaves != [] {
      var k: nat :| |leaves| == Pow2(k);
      assert 2 * |leaves| == Pow2(k + 1);
    }
  }

  /** Eight threads have two leaves each unless the file is exactly eight pages long; then m_build_tree
      shifts by -1. */
  lemma EightThreads(size: nat)
    requires size > 0
    ensures size != NB_THREADS * PAGE_LENGTH <==>
            size / PAGE_LENGTH < NB_THREADS || TreeSize(PageCount(size)) >= 2 * NB_THREADS
    ensures size == NB_THREADS * PAGE_LENGTH ==> Log2(TreeSize(PageCount(size)) / NB_THREADS) - 1 == -1
    ensures NB_THREADS == Pow2(3)
  {
    hide TreeSize;
    TreeSizeIsLeast(PageCount(size), 3);
    assert Pow2(3) == 8;
    var k: nat :| TreeSize(PageCount(size)) == Pow2(k);
    if PageCount(size) > 8 {
      if k <= 3 {
        if k < 3 {
          Pow2Grows(k, 3);
        }
      } else {
        Pow2Grows(3, k);
      }
    }
  }

  /** getxattr never finds an empty tree. */
  lemma TextNotEmpty(h: Hasher, leaves: seq<Hash>)
    requires |leaves| > 0
    ensures TreeTextOf(h, leaves) != ""
  {
    PrintedIsParseable(AllHashes(h, leaves)[1..]);
    NoTokens(',');
  }

  /** An aligned write far beyond the leaves makes the file outgrow them. */
  lemma BeyondTheLeaves(h: Hasher, leaves: seq<Hash>, size: nat, w: Write)
    requires w.buf != "" && IsFull(w.offset) && w.offset + |w.buf| <= size && |leaves| > 0
    requires QuickLeaves(h, leaves, w).None?
    ensures size / PAGE_LENGTH > |leaves| && FullBuild(|leaves|, size, w)
  {
  }

  /** A file and its attribute; `leaves` are the leaves of the tree that the attribute describes, none if
      there is no attribute. */
  class MerkleFile {
    const hasher: Hasher
    var contents: string
    var attr: Option<string>
    ghost var leaves: seq<Hash>

    ghost predicate Valid()
      reads this
    {
      if leaves == [] then attr == None
      else IsPow2(|leaves|) && attr == Some(TreeTextOf(hasher, leaves))
    }

    constructor (hasher: Hasher, contents: string)
      ensures Valid() && this.hasher == hasher && this.contents == contents && leaves == []
    {
      this.hasher := hasher;
      this.contents := contents;
      attr := None;
      leaves := [];
    }

    method Write(w: Write) returns (written: nat)
      requires Valid() && Possible(|contents|, w) && Defined(|leaves|, NewSize(|contents|, w), w)
      modifies this
      ensures Valid() && written == |w.buf|
      ensures contents == Overwrite(old(contents), w)
      ensures leaves == NextLeaves(hasher, old(leaves), contents, w)
      ensures attr == Some(TreeTextOf(hasher, leaves))
    {
      hide TreeTextOf;
      hide FreshLeaves;
      hide RightFrom;
      hide RangeLeaves;
      hide TreeSize;
      hide IsPow2;
      contents := Overwrite(contents, w);
      NextIsPow2(hasher, leaves, contents, w);
      if leaves != [] {
        TextNotEmpty(hasher, leaves);
      }
      var result: string;
      var rc: int;
      if attr.Some? && attr.value != "" {
        var mt := ReadTree();
        rc, result := QuickChange(mt, w, leaves);
        if rc != -2 && rc != -1 {
          attr := Some(result);
        } else {
          if IsFull(w.offset) {
            BeyondTheLeaves(hasher, leaves, |contents|, w);
          }
          rc, result := PagesInNeed(mt, contents, w, |w.buf|, w.offset, leaves);
          if rc != -1 {
            attr := Some(result);
          }
        }
      } else {
        EightThreads(|contents|);
        var mt := new MerkleTree(hasher, 0);
        rc, result := MComputeMerkle(contents, mt, NB_THREADS, 3);
        if rc != -1 {
          attr := Some(result);
        }
      }
      leaves := NextLeaves(hasher, leaves, contents, w);
      return |w.buf|;
    }

    /** The tree from the attribute; its leaves have hashes and no data. */
    method ReadTree() returns (mt: MerkleTree)
      requires Valid() && leaves != []
      ensures fresh(mt) && fresh(mt.nodes) && mt.hasher == hasher && mt.Holds(leaves)
      ensures mt.nodes.Length == (mt.nbNodes + 1) * 2 * PAGE_LENGTH * HASH_SIZE
      ensures NoData(mt.nodes[..])
    {
      ghost var k: nat :| |leaves| == Pow2(k);
      Log2OfPow2(k + 1);
      mt := new MerkleTree(hasher, 0);
      ParseTree(mt, attr.value, AllHashes(hasher, leaves));
      TreeHasHashes(hasher, mt.nodes[..], leaves);
    }
  }
}
