/** What one write does to the leaves of the tree, and when that is right. */
module WriteSpec {
  import opened Hashes
  import opened MerkleSpec
  import opened Pages
  import opened Params
  import opened Powers
  import opened RebuildSpec
  import opened SlotTable
  import opened TreeSizes

  datatype Option<T> = None | Some(value: T)

  datatype Write = Write(buf: string, offset: nat)

  /** The callers of this file system write something, leave no gap, and stay within an int. */
  predicate Possible(size: nat, w: Write) {
    w.buf != "" && w.offset <= size < INT_LIMIT && w.offset + |w.buf| < INT_LIMIT
  }

  function NewSize(size: nat, w: Write): nat {
    if w.offset + |w.buf| <= size then size else w.offset + |w.buf|
  }

  /** pwrite */
  function Overwrite(file: string, w: Write): (r: string)
    requires Possible(|file|, w)
    ensures |r| == NewSize(|file|, w) && r != ""
  {
    var end := w.offset + |w.buf|;
    file[..w.offset] + w.buf + if end <= |file| then file[end..] else ""
  }

  function FirstPage(w: Write): nat {
    w.offset / PAGE_LENGTH
  }

  function LastPage(w: Write): nat
    requires w.buf != ""
  {
    (w.offset + |w.buf| - 1) / PAGE_LENGTH
  }

  /** Page i contains a written character. */
  predicate Touches(w: Write, i: nat) {
    i * PAGE_LENGTH < w.offset + |w.buf| && w.offset < (i + 1) * PAGE_LENGTH
  }

  /** The range is exactly the touched pages, and the code's way to compute its end is right. */
  lemma RangeIsTouched(w: Write, i: nat)
    requires w.buf != ""
    ensures Touches(w, i) <==> FirstPage(w) <= i <= LastPage(w)
    ensures LastPage(w) == (w.offset + |w.buf|) / PAGE_LENGTH - (if IsFull(w.offset + |w.buf|) then 1 else 0)
  {
  }

  // ----- The two updates -----

  /** quick_change: only the page at an aligned offset gets the hash of the buffer, in a tree of twice
      the size if the page is beyond the leaves. */
  function QuickLeaves(h: Hasher, leaves: seq<Hash>, w: Write): Option<seq<Hash>> {
    var p := FirstPage(w);
    if !IsFull(w.offset) || p >= 2 * |leaves| then None
    else if p < |leaves| then Some(leaves[p := h.leaf(w.buf)])
    else Some(Doubled(h, leaves)[p := h.leaf(w.buf)])
  }

  /** The last page of a range, as a buffer of PAGE_LENGTH bytes with a terminating NUL takes it. */
  function CutPage(file: string, i: nat): (p: string)
    requires i < PageCount(|file|)
    ensures p == Page(file, i) <==> i == |file| / PAGE_LENGTH
    ensures p != ""
  {
    var p := Page(file, i);
    if |p| == PAGE_LENGTH then p[..PAGE_LENGTH - 1] else p
  }

  /** strlcpy from where the page starts to the end of the file. */
  lemma CutPageIsCopied(file: string, i: nat)
    requires i < PageCount(|file|)
    ensures
      var rest := file[i * PAGE_LENGTH..];
      CutPage(file, i) == if |rest| < PAGE_LENGTH then rest else rest[..PAGE_LENGTH - 1]
  {
    var rest := file[i * PAGE_LENGTH..];
    assert |rest| >= PAGE_LENGTH ==> Page(file, i)[..PAGE_LENGTH - 1] == rest[..PAGE_LENGTH - 1];
  }

  function RangeDatas(file: string, w: Write): (r: seq<string>)
    requires w.buf != "" && LastPage(w) < PageCount(|file|)
    ensures |r| == LastPage(w) - FirstPage(w) + 1
  {
    seq(LastPage(w) - FirstPage(w) + 1, i requires 0 <= i <= LastPage(w) - FirstPage(w) =>
      if i < LastPage(w) - FirstPage(w) then Page(file, FirstPage(w) + i) else CutPage(file, LastPage(w)))
  }

  /** pages_in_need: the touched pages are read from the file again, or all pages if there are more full
      pages than leaves. */
  function RangeLeaves(h: Hasher, leaves: seq<Hash>, file: string, w: Write): Option<seq<Hash>>
    requires w.buf != "" && w.offset + |w.buf| <= |file|
  {
    if |file| / PAGE_LENGTH > |leaves| then Some(FreshLeaves(h, file))
    else if LastPage(w) >= |leaves| then None
    else Some(Replace(leaves, FirstPage(w), LeafHashes(h, RangeDatas(file, w))))
  }

  /** All pages are hashed again: there is no attribute yet, or pages_in_need finds more full pages than
      leaves.  `n` is the number of leaves, `size` the new size of the file. */
  predicate FullBuild(n: nat, size: nat, w: Write) {
    n == 0 || (size / PAGE_LENGTH > n && !(IsFull(w.offset) && FirstPage(w) < 2 * n))
  }

  /** pages_in_need computes the size of its file buffer and of its table of pages in an int. */
  predicate RangeFits(size: nat, w: Write)
    requires w.buf != ""
  {
    size + 1 < INT_LIMIT && (LastPage(w) - FirstPage(w) + 1) * PAGE_LENGTH < INT_LIMIT
  }

  /** The range update hashes no leaf of a parsed tree but those of its range; no other leaf has data. */
  predicate StaysInRange(n: nat, w: Write)
    requires w.buf != ""
  {
    FirstPage(w) == 0 || !RehashesFirstLeaf(n, n + FirstPage(w), LastPage(w) - FirstPage(w) + 1)
  }

  /** The writes for which the code has a defined result.  A first build with eight threads also needs two
      leaves for each of them; and quick_change copies the buffer of any aligned write into a leaf. */
  predicate Defined(n: nat, size: nat, w: Write)
    requires w.buf != "" && size > 0
  {
    && (n > 0 && IsFull(w.offset) ==> Fits(w.buf))
    && if FullBuild(n, size, w) then BuildFits(size) && (n == 0 ==> size != 8 * PAGE_LENGTH)
       else IsFull(w.offset) || (RangeFits(size, w) && StaysInRange(n, w))
  }

  /** The table of pages is too large only for a write that starts in page 0 and ends in page 2^15 - 1. */
  lemma RangeFitsUnless(size: nat, w: Write)
    requires Possible(size, w)
    ensures RangeFits(NewSize(size, w), w) <==>
            NewSize(size, w) != INT_LIMIT - 1 && !(FirstPage(w) == 0 && LastPage(w) == 0x7fff)
  {
  }

  /** The leaves behind the stored attribute after a write; `file` is the new file, and no leaves means
      that there is no attribute yet. */
  function NextLeaves(h: Hasher, leaves: seq<Hash>, file: string, w: Write): seq<Hash>
    requires w.buf != "" && w.offset + |w.buf| <= |file| && Defined(|leaves|, |file|, w)
  {
    if leaves == [] then FreshLeaves(h, file)
    else
      var quick := QuickLeaves(h, leaves, w);
      var range := RangeLeaves(h, leaves, file, w);
      if quick.Some? then quick.value else if range.Some? then range.value else leaves
  }

  // ----- What an undefined update reads -----

  /** The nodes of the touched pages. */
  function RangeIndexes(n: nat, w: Write): (r: seq<nat>)
    requires w.buf != ""
    ensures |r| == LastPage(w) - FirstPage(w) + 1
  {
    seq(LastPage(w) - FirstPage(w) + 1, i requires 0 <= i <= LastPage(w) - FirstPage(w) => n + FirstPage(w) + i)
  }

  lemma RangeIsStored(h: Hasher, nodes: seq<Node>, leaves: seq<Hash>, file: string, w: Write)
    requires Represents(h, nodes, leaves) && w.buf != "" && LastPage(w) < PageCount(|file|)
    requires LastPage(w) < |leaves|
    ensures
      var stored := Store(nodes, RangeIndexes(|leaves|, w), RangeDatas(file, w));
      && Represents(h, stored, leaves)
      && Carries(stored, |leaves| + FirstPage(w), RangeDatas(file, w))
      && (FirstPage(w) > 0 ==> stored[|leaves|].data == nodes[|leaves|].data)
  {
    hide RangeDatas;
    StoreKeepsHashes(nodes, RangeIndexes(|leaves|, w), RangeDatas(file, w));
    StoreContiguous(nodes, RangeIndexes(|leaves|, w), RangeDatas(file, w));
  }

  /** In a tree without leaf data, as a parsed one is, the range update of an unaligned write is `Defined`
      exactly when its sizes fit and the second row finds all that it reads.  If it does not, it calls
      hash_node on the first leaf, whose data pointer nobody has written. */
  lemma DefinedExactly(h: Hasher, nodes: seq<Node>, leaves: seq<Hash>, file: string, w: Write)
    requires Represents(h, nodes, leaves) && |leaves| > 1 && |leaves| % 2 == 0 && nodes[|leaves|].data.Unset?
    requires w.buf != "" && w.offset + |w.buf| <= |file| && !IsFull(w.offset)
    requires |file| / PAGE_LENGTH <= |leaves| && LastPage(w) < |leaves|
    ensures
      var n, first, k := |leaves|, |leaves| + FirstPage(w), LastPage(w) - FirstPage(w) + 1;
      var stored := Store(nodes, RangeIndexes(n, w), RangeDatas(file, w));
      && (Defined(n, |file|, w) <==>
            RangeFits(|file|, w) && RowReady(h, HashRange(h, stored, n, first, k), n, first / 2, k / 2 + 1))
      && (!StaysInRange(n, w) ==>
            first / 2 + k / 2 == n && !Readable(BeforeLastOfRow(h, stored, n, first, k), n, n))
  {
    hide RangeDatas;
    hide RangeIndexes;
    hide Store;
    hide HashRange;
    hide Readable;
    hide Carries;
    hide RowReady;
    var n, first := |leaves|, |leaves| + FirstPage(w);
    var datas := RangeDatas(file, w);
    var stored := Store(nodes, RangeIndexes(n, w), datas);
    RangeIsStored(h, nodes, leaves, file, w);
    SecondRow(h, stored, leaves, first, datas);
    if !StaysInRange(n, w) {
      FirstLeafIsRead(h, stored, leaves, first, datas);
    }
  }

  // ----- Which leaves an update hashes, and from what -----

  /** The number of leaves after a write that leaves a file of this size. */
  function NextCount(n: nat, size: nat, w: Write): nat
    requires size > 0
  {
    if FullBuild(n, size, w) then TreeSize(PageCount(size))
    else if IsFull(w.offset) && FirstPage(w) >= n then 2 * n
    else n
  }

  /** Leaf j gets a new hash. */
  predicate LeafIsHashed(n: nat, size: nat, w: Write, j: nat)
    requires w.buf != ""
  {
    || FullBuild(n, size, w)
    || if IsFull(w.offset) then j == FirstPage(w) || j >= n else LastPage(w) < n && Touches(w, j)
  }

  /** The string that this hash is made from. */
  function LeafText(n: nat, file: string, w: Write, j: nat): string
    requires w.buf != "" && w.offset + |w.buf| <= |file| && j < NextCount(n, |file|, w)
    requires LeafIsHashed(n, |file|, w, j)
  {
    if FullBuild(n, |file|, w) then PaddedPages(file)[j]
    else if IsFull(w.offset) then (if j == FirstPage(w) then w.buf else BLANK)
    else
      RangeIsTouched(w, j);
      if j < LastPage(w) then Page(file, j) else CutPage(file, j)
  }

  /** What one defined write does to each leaf of any tree, right or wrong. */
  lemma NextLeaf(h: Hasher, leaves: seq<Hash>, file: string, w: Write, j: nat)
    requires w.buf != "" && w.offset + |w.buf| <= |file| && Defined(|leaves|, |file|, w)
    ensures |NextLeaves(h, leaves, file, w)| == NextCount(|leaves|, |file|, w)
    ensures j < NextCount(|leaves|, |file|, w) ==>
      if LeafIsHashed(|leaves|, |file|, w, j)
      then NextLeaves(h, leaves, file, w)[j] == h.leaf(LeafText(|leaves|, file, w, j))
      else j < |leaves| && NextLeaves(h, leaves, file, w)[j] == leaves[j]
  {
    hide Replace;
    hide RangeDatas;
    hide TreeSize;
    hide PaddedPages;
    if leaves != [] && !IsFull(w.offset) && LastPage(w) < |leaves| && j < |leaves| {
      RangeLeaf(h, leaves, file, w, j);
      RangeIsTouched(w, j);
    }
  }

  // ----- When the update is as good as a fresh build -----

  /** Known before the write: an aligned write must bring the whole new page; any other write must end in
      the last page of the new file, which must not be full and must have a leaf, or must make the file
      grow past the leaves by a full page. */
  predicate KeepsUp(size: nat, w: Write)
    requires size > 0 && w.buf != ""
  {
    var newPages := NewSize(size, w) / PAGE_LENGTH;
    var n := TreeSize(PageCount(size));
    if IsFull(w.offset) then |w.buf| == PAGE_LENGTH || (|w.buf| < PAGE_LENGTH && w.offset + |w.buf| >= size)
    else newPages > n || (LastPage(w) < n && LastPage(w) == newPages)
  }

  /** The page whose hash can go wrong, and the string that the update hashes for it. */
  function DoubtfulPage(w: Write): nat
    requires w.buf != ""
  {
    if IsFull(w.offset) then FirstPage(w) else LastPage(w)
  }

  function HashedFor(file: string, w: Write): string
    requires w.buf != "" && LastPage(w) < PageCount(|file|)
  {
    if IsFull(w.offset) then w.buf else CutPage(file, LastPage(w))
  }

  /** The update hashes something else than the page, and gets the hash of the page. */
  predicate LeafCollision(h: Hasher, file: string, w: Write)
    requires w.buf != "" && w.offset + |w.buf| <= |file|
  {
    && HashedFor(file, w) != Page(file, DoubtfulPage(w))
    && h.leaf(HashedFor(file, w)) == h.leaf(Page(file, DoubtfulPage(w)))
  }

  lemma FreshLeaf(h: Hasher, file: string, j: nat)
    requires file != "" && j < TreeSize(PageCount(|file|))
    ensures FreshLeaves(h, file)[j] ==
            h.leaf(if j < PageCount(|file|) then Page(file, j) else BLANK)
  {
    hide TreeSize;
    assert PaddedPages(file)[j] == if j < PageCount(|file|) then Page(file, j) else BLANK;
  }

  /** What is written can be read back. */
  lemma WrittenIsThere(file: string, w: Write)
    requires Possible(|file|, w)
    ensures Overwrite(file, w)[w.offset..w.offset + |w.buf|] == w.buf
  {
  }

  lemma OutsideIsKept(file: string, w: Write)
    requires Possible(|file|, w)
    ensures forall k :: 0 <= k < |file| && !(w.offset <= k < w.offset + |w.buf|) ==> Overwrite(file, w)[k] == file[k]
  {
  }

  lemma SameSlice(a: string, b: string, lo: nat, hi: nat)
    requires lo <= hi <= |a| && hi <= |b| && forall k :: lo <= k < hi ==> a[k] == b[k]
    ensures a[lo..hi] == b[lo..hi]
  {
  }

  /** A page that was not touched is what it was. */
  lemma UntouchedPage(file: string, w: Write, i: nat)
    requires Possible(|file|, w) && i < PageCount(NewSize(|file|, w)) && !Touches(w, i)
    ensures i < PageCount(|file|) && Page(Overwrite(file, w), i) == Page(file, i)
  {
    var now := Overwrite(file, w);
    OutsideIsKept(file, w);
    hide Overwrite;
    var start, end := i * PAGE_LENGTH, (i + 1) * PAGE_LENGTH;
    SameSlice(now, file, start, if end <= |file| then end else |file|);
  }

  /** The aligned page is the buffer exactly when the buffer is the whole page. */
  lemma AlignedPage(file: string, w: Write)
    requires Possible(|file|, w) && IsFull(w.offset)
    ensures FirstPage(w) < PageCount(NewSize(|file|, w))
    ensures Page(Overwrite(file, w), FirstPage(w)) == w.buf <==>
            |w.buf| == PAGE_LENGTH || (|w.buf| < PAGE_LENGTH && w.offset + |w.buf| >= |file|)
  {
    var now := Overwrite(file, w);
    assert now[w.offset..w.offset + |w.buf|] == w.buf;
  }

  /** As long as the pages fit, the number of leaves stays; one page more doubles it. */
  lemma TreeSizeSteps(c: nat, d: nat)
    requires 0 < c <= d
    ensures d <= TreeSize(c) <==> TreeSize(d) == TreeSize(c)
    ensures d == TreeSize(c) + 1 ==> TreeSize(d) == 2 * TreeSize(c)
  {
    hide Log2;
    TreeSizeIsLeast(c, 0);
    TreeSizeIsLeast(d, 0);
    var k: nat :| TreeSize(c) == Pow2(k);
    var l: nat :| TreeSize(d) == Pow2(l);
    if d <= TreeSize(c) {
      TreeSizeIsLeast(d, k);
      TreeSizeIsLeast(c, l);
    }
    if d == TreeSize(c) + 1 {
      Log2OfPow2(k);
    }
  }

  // ----- Aligned writes -----

  lemma AlignedLength(h: Hasher, file: string, w: Write)
    requires file != "" && Possible(|file|, w) && IsFull(w.offset)
    requires Defined(TreeSize(PageCount(|file|)), NewSize(|file|, w), w)
    ensures |NextLeaves(h, FreshLeaves(h, file), Overwrite(file, w), w)| ==
            (if FirstPage(w) < TreeSize(PageCount(|file|)) then 1 else 2) * TreeSize(PageCount(|file|))
  {
    hide TreeSize;
    TreeSizeIsLeast(PageCount(|file|), 0);
  }

  lemma AlignedLeaf(h: Hasher, file: string, w: Write, j: nat)
    requires file != "" && Possible(|file|, w) && IsFull(w.offset)
    requires Defined(TreeSize(PageCount(|file|)), NewSize(|file|, w), w)
    requires j < |NextLeaves(h, FreshLeaves(h, file), Overwrite(file, w), w)|
    ensures
      var next := NextLeaves(h, FreshLeaves(h, file), Overwrite(file, w), w);
      next[j] == h.leaf(if j == FirstPage(w) then w.buf
                        else if j < PageCount(|file|) then Page(file, j) else BLANK)
  {
    hide TreeSize;
    var n := TreeSize(PageCount(|file|));
    TreeSizeIsLeast(PageCount(|file|), 0);
    if j < n {
      FreshLeaf(h, file, j);
    }
  }

  lemma AlignedSize(file: string, w: Write)
    requires file != "" && Possible(|file|, w) && IsFull(w.offset) && |w.buf| <= PAGE_LENGTH
    ensures TreeSize(PageCount(NewSize(|file|, w))) ==
            (if FirstPage(w) < TreeSize(PageCount(|file|)) then 1 else 2) * TreeSize(PageCount(|file|))
  {
    hide TreeSize;
    TreeSizeIsLeast(PageCount(|file|), 0);
    TreeSizeSteps(PageCount(|file|), PageCount(NewSize(|file|, w)));
  }

  lemma AlignedUpdate(h: Hasher, file: string, w: Write)
    requires file != "" && Possible(|file|, w) && IsFull(w.offset)
    requires Defined(TreeSize(PageCount(|file|)), NewSize(|file|, w), w)
    ensures
      var now := Overwrite(file, w);
      var next := NextLeaves(h, FreshLeaves(h, file), now, w);
      && (KeepsUp(|file|, w) ==> next == FreshLeaves(h, now))
      && (next == FreshLeaves(h, now) ==> KeepsUp(|file|, w) || LeafCollision(h, now, w))
  {
    hide TreeSize;
    hide NextLeaves;
    var now := Overwrite(file, w);
    var next := NextLeaves(h, FreshLeaves(h, file), now, w);
    var p := FirstPage(w);
    AlignedPage(file, w);
    TreeSizeIsLeast(PageCount(|now|), 0);
    if KeepsUp(|file|, w) {
      AlignedSize(file, w);
      AlignedLength(h, file, w);
      forall j | 0 <= j < |next|
        ensures next[j] == FreshLeaves(h, now)[j]
      {
        AlignedLeaf(h, file, w, j);
        FreshLeaf(h, now, j);
        if j != p && j < PageCount(|now|) {
          UntouchedPage(file, w, j);
        }
      }
    } else if next == FreshLeaves(h, now) {
      AlignedLeaf(h, file, w, p);
      FreshLeaf(h, now, p);
    }
  }

  // ----- Other writes -----

  lemma RangeLeaf(h: Hasher, leaves: seq<Hash>, file: string, w: Write, j: nat)
    requires w.buf != "" && LastPage(w) < |leaves| && LastPage(w) < PageCount(|file|) && j < |leaves|
    ensures
      Replace(leaves, FirstPage(w), LeafHashes(h, RangeDatas(file, w)))[j] ==
        if !Touches(w, j) then leaves[j]
        else h.leaf(if j < LastPage(w) then Page(file, j) else CutPage(file, LastPage(w)))
  {
    RangeIsTouched(w, j);
  }

  /** Pages that fit into the leaves before still do after a range update. */
  lemma RangeSize(file: string, w: Write)
    requires file != "" && Possible(|file|, w)
    requires NewSize(|file|, w) / PAGE_LENGTH <= TreeSize(PageCount(|file|))
    ensures LastPage(w) < TreeSize(PageCount(|file|)) <==>
            TreeSize(PageCount(NewSize(|file|, w))) == TreeSize(PageCount(|file|))
  {
    hide TreeSize;
    TreeSizeIsLeast(PageCount(|file|), 0);
    TreeSizeSteps(PageCount(|file|), PageCount(NewSize(|file|, w)));
  }

  lemma RangeUpdate(h: Hasher, file: string, w: Write)
    requires file != "" && Possible(|file|, w) && !IsFull(w.offset)
    requires Defined(TreeSize(PageCount(|file|)), NewSize(|file|, w), w)
    ensures
      var now := Overwrite(file, w);
      var next := NextLeaves(h, FreshLeaves(h, file), now, w);
      && (KeepsUp(|file|, w) ==> next == FreshLeaves(h, now))
      && (next == FreshLeaves(h, now) ==> KeepsUp(|file|, w) || LeafCollision(h, now, w))
  {
    hide TreeSize;
    hide Replace;
    hide FreshLeaves;
    var now := Overwrite(file, w);
    var n := TreeSize(PageCount(|file|));
    TreeSizeIsLeast(PageCount(|file|), 0);
    if |now| / PAGE_LENGTH <= n {
      RangeSize(file, w);
      if LastPage(w) < n {
        RangeInRow(h, file, w);
      }
    }
  }

  lemma RangeInRow(h: Hasher, file: string, w: Write)
    requires file != "" && Possible(|file|, w)
    requires NewSize(|file|, w) / PAGE_LENGTH <= TreeSize(PageCount(|file|))
    requires LastPage(w) < TreeSize(PageCount(|file|))
    ensures
      var now := Overwrite(file, w);
      var next := Replace(FreshLeaves(h, file), FirstPage(w), LeafHashes(h, RangeDatas(now, w)));
      && (CutPage(now, LastPage(w)) == Page(now, LastPage(w)) ==> next == FreshLeaves(h, now))
      && (next == FreshLeaves(h, now) ==>
            h.leaf(CutPage(now, LastPage(w))) == h.leaf(Page(now, LastPage(w))))
  {
    hide TreeSize;
    hide Replace;
    hide FreshLeaves;
    hide RangeDatas;
    var now := Overwrite(file, w);
    var next := Replace(FreshLeaves(h, file), FirstPage(w), LeafHashes(h, RangeDatas(now, w)));
    RangeSize(file, w);
    forall j | 0 <= j < |next|
      ensures next[j] == if j == LastPage(w) then h.leaf(CutPage(now, j)) else FreshLeaves(h, now)[j]
      ensures j == LastPage(w) ==> FreshLeaves(h, now)[j] == h.leaf(Page(now, j))
    {
      RangeLeaf(h, FreshLeaves(h, file), now, w, j);
      RangeIsTouched(w, j);
      FreshLeaf(h, file, j);
      FreshLeaf(h, now, j);
      if j < PageCount(|now|) && !Touches(w, j) {
        UntouchedPage(file, w, j);
      }
    }
  }

  /** From a fresh tree, a defined write leaves a fresh tree exactly when it keeps up with the file, or
      else the leaf hash has a collision. */
  lemma FreshAgain(h: Hasher, file: string, w: Write)
    requires file != "" && Possible(|file|, w)
    requires Defined(TreeSize(PageCount(|file|)), NewSize(|file|, w), w)
    ensures
      var now := Overwrite(file, w);
      var next := NextLeaves(h, FreshLeaves(h, file), now, w);
      && (KeepsUp(|file|, w) ==> next == FreshLeaves(h, now))
      && (next == FreshLeaves(h, now) ==> KeepsUp(|file|, w) || LeafCollision(h, now, w))
  {
    hide NextLeaves;
    hide FreshLeaves;
    hide KeepsUp;
    if IsFull(w.offset) {
      AlignedUpdate(h, file, w);
    } else {
      RangeUpdate(h, file, w);
    }
  }

  /** From any tree, right or wrong: without a full build, a leaf whose page was not touched keeps its
      hash.  So a wrong leaf stays wrong until its page is touched or everything is built again. */
  lemma UntouchedLeaf(h: Hasher, leaves: seq<Hash>, file: string, w: Write, j: nat)
    requires Possible(|file|, w) && Defined(|leaves|, NewSize(|file|, w), w)
    requires !FullBuild(|leaves|, NewSize(|file|, w), w) && j < |leaves| && !Touches(w, j)
    ensures
      var now := Overwrite(file, w);
      var next := NextLeaves(h, leaves, now, w);
      && j < |next| && next[j] == leaves[j]
      && (j < PageCount(|now|) ==> j < PageCount(|file|) && Page(now, j) == Page(file, j))
  {
    hide NextLeaves;
    hide Defined;
    NextLeaf(h, leaves, Overwrite(file, w), w, j);
    if j < PageCount(NewSize(|file|, w)) {
      UntouchedPage(file, w, j);
    }
  }
}
