/** Whole runs of writes: when the stored tree is always that of the file, and the writes that break it. */
module Runs {
  import opened FileSystem
  import opened Hashes
  import opened MerkleSpec
  import opened Pages
  import opened Params
  import opened Powers
  import opened RebuildSpec
  import opened TreeSizes
  import opened TreeStrings
  import opened WriteSpec

  // ----- What a run does -----

  function SizeAfter(size: nat, ws: seq<Write>): nat {
    if ws == [] then size else NewSize(SizeAfter(size, ws[..|ws| - 1]), ws[|ws| - 1])
  }

  predicate PossibleRun(size: nat, ws: seq<Write>) {
    ws == [] || (var n := |ws| - 1; PossibleRun(size, ws[..n]) && Possible(SizeAfter(size, ws[..n]), ws[n]))
  }

  function FileAfter(file: string, ws: seq<Write>): (r: string)
    requires PossibleRun(|file|, ws)
    ensures |r| == SizeAfter(|file|, ws) && (ws != [] ==> r != "")
  {
    if ws == [] then file else Overwrite(FileAfter(file, ws[..|ws| - 1]), ws[|ws| - 1])
  }

  predicate Covers(w: Write, i: nat) {
    w.offset <= i < w.offset + |w.buf|
  }

  /** Character i of a file after a run: the one that the last write over it brought, or else the old one. */
  function CharAfter(file: string, ws: seq<Write>, i: nat): char
    requires PossibleRun(|file|, ws) && i < SizeAfter(|file|, ws)
    decreases |ws|
  {
    if ws == [] then file[i]
    else
      var n := |ws| - 1;
      if Covers(ws[n], i) then ws[n].buf[i - ws[n].offset] else CharAfter(file, ws[..n], i)
  }

  lemma {:induction false} LastWriteWins(file: string, ws: seq<Write>, i: nat)
    requires PossibleRun(|file|, ws) && i < SizeAfter(|file|, ws)
    ensures FileAfter(file, ws)[i] == CharAfter(file, ws, i)
  {
    hide Overwrite;
    if ws != [] {
      var n := |ws| - 1;
      var before := FileAfter(file, ws[..n]);
      if Covers(ws[n], i) {
        WrittenIsThere(before, ws[n]);
        var k := i - ws[n].offset;
        assert FileAfter(file, ws)[ws[n].offset..ws[n].offset + |ws[n].buf|][k] == ws[n].buf[k];
      } else {
        OutsideIsKept(before, ws[n]);
        LastWriteWins(file, ws[..n], i);
      }
    }
  }

  /** The number of leaves after a run of writes on a tree with n leaves; it depends on sizes only. */
  function CountAfter(n: nat, size: nat, ws: seq<Write>): nat
    requires PossibleRun(size, ws)
  {
    if ws == [] then n
    else NextCount(CountAfter(n, size, ws[..|ws| - 1]), SizeAfter(size, ws), ws[|ws| - 1])
  }

  /** The code has a defined result for every write of the run. */
  predicate DefinedRun(n: nat, size: nat, ws: seq<Write>)
    requires PossibleRun(size, ws)
  {
    ws == [] ||
    (var k := |ws| - 1;
     DefinedRun(n, size, ws[..k]) && Defined(CountAfter(n, size, ws[..k]), SizeAfter(size, ws), ws[k]))
  }

  /** The leaves behind the attribute after a run of any defined writes, good or bad. */
  function LeavesAfter(h: Hasher, file: string, leaves: seq<Hash>, ws: seq<Write>): (r: seq<Hash>)
    requires PossibleRun(|file|, ws) && DefinedRun(|leaves|, |file|, ws)
    ensures |r| == CountAfter(|leaves|, |file|, ws)
  {
    hide NextLeaves;
    hide NextCount;
    hide Defined;
    if ws == [] then leaves
    else
      var before := LeavesAfter(h, file, leaves, ws[..|ws| - 1]);
      NextLeaf(h, before, FileAfter(file, ws), ws[|ws| - 1], 0);
      NextLeaves(h, before, FileAfter(file, ws), ws[|ws| - 1])
  }

  /** A run of calls of the write operation. */
  method WriteAll(f: MerkleFile, ws: seq<Write>)
    requires f.Valid() && PossibleRun(|f.contents|, ws) && DefinedRun(|f.leaves|, |f.contents|, ws)
    modifies f
    ensures f.Valid()
    ensures f.contents == FileAfter(old(f.contents), ws)
    ensures f.leaves == LeavesAfter(f.hasher, old(f.contents), old(f.leaves), ws)
    ensures ws != [] ==> f.leaves != [] && f.attr == Some(TreeTextOf(f.hasher, f.leaves))
  {
    hide Defined;
    hide NextLeaves;
    hide NextCount;
    hide Overwrite;
    hide TreeTextOf;
    hide NewSize;
    hide Possible;
    hide IsPow2;
    ghost var file, leaves := f.contents, f.leaves;
    for i := 0 to |ws|
      invariant f.Valid() && PossibleRun(|file|, ws[..i]) && DefinedRun(|leaves|, |file|, ws[..i])
      invariant f.contents == FileAfter(file, ws[..i])
      invariant f.leaves == LeavesAfter(f.hasher, file, leaves, ws[..i])
      invariant i > 0 ==> f.leaves != []
    {
      RunUpTo(|leaves|, |file|, ws, i + 1);
      assert ws[..i + 1][..i] == ws[..i];
      var written := f.Write(ws[i]);
    }
    assert ws[..|ws|] == ws;
  }

  lemma {:induction false} RunUpTo(n: nat, size: nat, ws: seq<Write>, i: nat)
    requires PossibleRun(size, ws) && DefinedRun(n, size, ws) && i <= |ws|
    ensures PossibleRun(size, ws[..i]) && DefinedRun(n, size, ws[..i])
  {
    var k := |ws| - 1;
    if i <= k {
      RunUpTo(n, size, ws[..k], i);
      assert ws[..k][..i] == ws[..i];
    } else {
      assert ws[..i] == ws;
    }
  }

  // ----- Runs that keep the tree right -----

  /** One write that the code handles, and after which the tree is fresh if it was before.  Whether a
      write is of this kind depends on sizes only; `tree` says whether there is an attribute. */
  predicate GoodWrite(size: nat, tree: bool, w: Write) {
    && Possible(size, w) && (tree ==> size > 0 && KeepsUp(size, w))
    && Defined(if tree then TreeSize(PageCount(size)) else 0, NewSize(size, w), w)
  }

  predicate GoodRun(size: nat, tree: bool, ws: seq<Write>) {
    ws == [] ||
    (var n := |ws| - 1; GoodRun(size, tree, ws[..n]) && GoodWrite(SizeAfter(size, ws[..n]), tree || n > 0, ws[n]))
  }

  lemma {:induction false} GoodIsPossible(size: nat, tree: bool, ws: seq<Write>)
    requires GoodRun(size, tree, ws)
    ensures PossibleRun(size, ws)
  {
    if ws != [] {
      GoodIsPossible(size, tree, ws[..|ws| - 1]);
    }
  }

  /** There is no attribute, or it holds the tree of a fresh build. */
  predicate Current(h: Hasher, file: string, leaves: seq<Hash>) {
    leaves != [] ==> file != "" && leaves == FreshLeaves(h, file)
  }

  /** After any run of good writes the stored tree is the one that a fresh build over the whole file
      gives.  The run can be cut anywhere, so this holds after every write. */
  lemma {:induction false} RunStaysFresh(h: Hasher, file: string, leaves: seq<Hash>, ws: seq<Write>)
    requires Current(h, file, leaves) && GoodRun(|file|, leaves != [], ws)
    ensures PossibleRun(|file|, ws) && DefinedRun(|leaves|, |file|, ws)
    ensures LeavesAfter(h, file, leaves, ws) == if ws == [] then leaves else FreshLeaves(h, FileAfter(file, ws))
  {
    hide KeepsUp;
    hide Defined;
    hide FreshLeaves;
    hide NextLeaves;
    hide NextCount;
    hide Overwrite;
    hide NewSize;
    hide Possible;
    hide TreeSize;
    GoodIsPossible(|file|, leaves != [], ws);
    if ws != [] {
      var n := |ws| - 1;
      RunStaysFresh(h, file, leaves, ws[..n]);
      var before := FileAfter(file, ws[..n]);
      if n > 0 || leaves != [] {
        FreshCount(h, before);
        FreshAgain(h, before, ws[n]);
      } else {
        FirstBuild(h, before, ws[n]);
      }
    }
  }

  /** Good writes are all that can be allowed: after a good run, one more write is defined and keeps the
      tree fresh exactly when it is good, or else the leaf hash has a collision on two given strings. */
  lemma RunIsExact(h: Hasher, file: string, leaves: seq<Hash>, ws: seq<Write>, w: Write)
    requires Current(h, file, leaves) && GoodRun(|file|, leaves != [], ws)
    requires Possible(SizeAfter(|file|, ws), w)
    ensures PossibleRun(|file|, ws + [w])
    ensures
      var now := FileAfter(file, ws + [w]);
      var good := GoodWrite(SizeAfter(|file|, ws), leaves != [] || ws != [], w);
      var right := DefinedRun(|leaves|, |file|, ws + [w])
                   && LeavesAfter(h, file, leaves, ws + [w]) == FreshLeaves(h, now);
      && (good ==> right)
      && (right ==> good || LeafCollision(h, now, w))
  {
    hide KeepsUp;
    hide Defined;
    hide FreshLeaves;
    hide NextLeaves;
    hide NextCount;
    hide Overwrite;
    hide LeafCollision;
    hide NewSize;
    hide TreeSize;
    RunStaysFresh(h, file, leaves, ws);
    assert (ws + [w])[..|ws|] == ws;
    if (leaves != [] || ws != []) && DefinedRun(|leaves|, |file|, ws + [w]) {
      FreshCount(h, FileAfter(file, ws));
      FreshAgain(h, FileAfter(file, ws), w);
    } else if GoodWrite(SizeAfter(|file|, ws), leaves != [] || ws != [], w) {
      RunStaysFresh(h, file, leaves, ws + [w]);
    }
  }

  // ----- Where every stored hash comes from -----

  /** After any run, the string whose hash leaf j is: the one that the last write that hashed this leaf
      took for it, or what the leaf was made from before the run. */
  function TextAfter(file: string, texts: seq<string>, ws: seq<Write>, j: nat): string
    requires PossibleRun(|file|, ws) && j < CountAfter(|texts|, |file|, ws)
    decreases |ws|
  {
    if ws == [] then texts[j]
    else
      var k := |ws| - 1;
      var n := CountAfter(|texts|, |file|, ws[..k]);
      if LeafIsHashed(n, SizeAfter(|file|, ws), ws[k], j) then LeafText(n, FileAfter(file, ws), ws[k], j)
      else TextAfter(file, texts, ws[..k], j)
  }

  lemma {:induction false} LeavesAreTexts(h: Hasher, file: string, texts: seq<string>, ws: seq<Write>, j: nat)
    requires PossibleRun(|file|, ws) && DefinedRun(|texts|, |file|, ws) && j < CountAfter(|texts|, |file|, ws)
    ensures LeavesAfter(h, file, LeafHashes(h, texts), ws)[j] == h.leaf(TextAfter(file, texts, ws, j))
  {
    hide NextLeaves;
    hide Defined;
    hide LeafText;
    hide Overwrite;
    hide TreeSize;
    if ws != [] {
      var k := |ws| - 1;
      var n := CountAfter(|texts|, |file|, ws[..k]);
      NextLeaf(h, LeavesAfter(h, file, LeafHashes(h, texts), ws[..k]), FileAfter(file, ws), ws[k], j);
      if !LeafIsHashed(n, SizeAfter(|file|, ws), ws[k], j) {
        LeavesAreTexts(h, file, texts, ws[..k], j);
      }
    }
  }

  /** There is a leaf for every page of the file as it is now, and each was last hashed from what the page
      is now, or from " " if it has no page. */
  predicate TextsAreRight(file: string, texts: seq<string>, ws: seq<Write>)
    requires PossibleRun(|file|, ws) && FileAfter(file, ws) != ""
  {
    var pages := PaddedPages(FileAfter(file, ws));
    && CountAfter(|texts|, |file|, ws) == |pages|
    && forall j :: 0 <= j < |pages| ==> TextAfter(file, texts, ws, j) == pages[j]
  }

  /** Leaf j was last hashed from a string that is not its page, with the hash of the page. */
  predicate TextCollision(h: Hasher, file: string, texts: seq<string>, ws: seq<Write>, j: nat)
    requires PossibleRun(|file|, ws) && FileAfter(file, ws) != ""
  {
    var pages := PaddedPages(FileAfter(file, ws));
    && j < |pages| && j < CountAfter(|texts|, |file|, ws)
    && TextAfter(file, texts, ws, j) != pages[j]
    && h.leaf(TextAfter(file, texts, ws, j)) == h.leaf(pages[j])
  }

  /** For every defined run, good or bad, from any tree: the stored tree is that of a fresh build exactly
      when every leaf was last hashed from what its page is now, or else a leaf shows a collision. */
  lemma FreshByLastHash(h: Hasher, file: string, texts: seq<string>, ws: seq<Write>)
    requires PossibleRun(|file|, ws) && DefinedRun(|texts|, |file|, ws) && FileAfter(file, ws) != ""
    ensures
      var right := LeavesAfter(h, file, LeafHashes(h, texts), ws) == FreshLeaves(h, FileAfter(file, ws));
      && (TextsAreRight(file, texts, ws) ==> right)
      && (right ==> TextsAreRight(file, texts, ws) || exists j :: TextCollision(h, file, texts, ws, j))
  {
    hide LeavesAfter;
    hide TextAfter;
    hide PaddedPages;
    hide FileAfter;
    var pages := PaddedPages(FileAfter(file, ws));
    var leaves := LeavesAfter(h, file, LeafHashes(h, texts), ws);
    forall j | 0 <= j < |leaves|
      ensures leaves[j] == h.leaf(TextAfter(file, texts, ws, j))
    {
      LeavesAreTexts(h, file, texts, ws, j);
    }
    if leaves == FreshLeaves(h, FileAfter(file, ws)) && forall j :: !TextCollision(h, file, texts, ws, j) {
      forall j | 0 <= j < |pages|
        ensures TextAfter(file, texts, ws, j) == pages[j]
      {
        assert !TextCollision(h, file, texts, ws, j);
      }
    }
  }

  lemma FreshCount(h: Hasher, file: string)
    requires file != ""
    ensures |FreshLeaves(h, file)| == TreeSize(PageCount(|file|))
  {
  }

  lemma FirstBuild(h: Hasher, file: string, w: Write)
    requires Possible(|file|, w) && Defined(0, NewSize(|file|, w), w)
    ensures NextLeaves(h, [], Overwrite(file, w), w) == FreshLeaves(h, Overwrite(file, w))
  {
  }

  // ----- Copying a file page by page -----

  function PageWrites(contents: string): (ws: seq<Write>)
    ensures |ws| == PageCount(|contents|)
  {
    seq(PageCount(|contents|), i requires 0 <= i < PageCount(|contents|) => Write(Page(contents, i), i * PAGE_LENGTH))
  }

  function Written(contents: string, i: nat): string {
    contents[..if i * PAGE_LENGTH <= |contents| then i * PAGE_LENGTH else |contents|]
  }

  /** Appending at most a page where a page starts. */
  lemma AppendIsGood(size: nat, w: Write)
    requires Possible(size, w) && IsFull(size) && w.offset == size && |w.buf| <= PAGE_LENGTH
    ensures GoodWrite(size, size > 0, w)
  {
    hide TreeSize;
    if size > 0 {
      TreeSizeIsLeast(PageCount(size), 0);
    } else {
      BuildFitsUpTo(NewSize(size, w));
    }
  }

  lemma PageIsAppended(contents: string, i: nat)
    requires |contents| < INT_LIMIT && i < PageCount(|contents|)
    ensures |Written(contents, i)| == i * PAGE_LENGTH
    ensures Overwrite(Written(contents, i), Write(Page(contents, i), i * PAGE_LENGTH)) == Written(contents, i + 1)
  {
    assert Written(contents, i + 1) == Written(contents, i) + Page(contents, i);
  }

  lemma PageWriteIsGood(contents: string, i: nat)
    requires |contents| < INT_LIMIT && i < PageCount(|contents|)
    ensures GoodWrite(|Written(contents, i)|, i > 0, Write(Page(contents, i), i * PAGE_LENGTH))
    ensures Overwrite(Written(contents, i), Write(Page(contents, i), i * PAGE_LENGTH)) == Written(contents, i + 1)
  {
    PageIsAppended(contents, i);
    hide Written;
    hide Overwrite;
    hide GoodWrite;
    AppendIsGood(i * PAGE_LENGTH, Write(Page(contents, i), i * PAGE_LENGTH));
  }

  lemma {:induction false} PageWritesUpTo(contents: string, i: nat)
    requires |contents| < INT_LIMIT && i <= PageCount(|contents|)
    ensures GoodRun(0, false, PageWrites(contents)[..i]) && PossibleRun(0, PageWrites(contents)[..i])
    ensures FileAfter("", PageWrites(contents)[..i]) == Written(contents, i)
  {
    hide GoodWrite;
    hide Page;
    hide Overwrite;
    hide Possible;
    hide NewSize;
    if i > 0 {
      PageWritesUpTo(contents, i - 1);
      PageWriteIsGood(contents, i - 1);
      assert PageWrites(contents)[..i][..i - 1] == PageWrites(contents)[..i - 1];
      GoodIsPossible(0, false, PageWrites(contents)[..i]);
    }
  }

  /** Writing a file front to back, one page at a time, always ends with the tree of the file. */
  lemma PageByPage(h: Hasher, contents: string)
    requires 0 < |contents| < INT_LIMIT
    ensures
      var ws := PageWrites(contents);
      && GoodRun(0, false, ws) && PossibleRun(0, ws) && DefinedRun(0, 0, ws)
      && FileAfter("", ws) == contents
      && LeavesAfter(h, "", [], ws) == FreshLeaves(h, contents)
  {
    hide FreshLeaves;
    var n := PageCount(|contents|);
    PageWritesUpTo(contents, n);
    assert PageWrites(contents)[..n] == PageWrites(contents);
    AllWritten(contents);
    RunStaysFresh(h, "", [], PageWrites(contents));
  }

  lemma AllWritten(contents: string)
    ensures Written(contents, PageCount(|contents|)) == contents
  {
  }

  // ----- Writes that break the tree, for any hash -----

  function Letters(n: nat): (s: string)
    ensures |s| == n
  {
    seq(n, _ => 'a')
  }

  lemma OnePage(h: Hasher, file: string)
    requires 0 < |file| <= PAGE_LENGTH
    ensures FreshLeaves(h, file) == [h.leaf(file)]
  {
    assert Page(file, 0) == file;
    assert FilePages(file) == [file];
    assert PaddedPages(file) == [file];
  }

  /** Filling the last page with an unaligned write: the stored tree does not change at all. */
  lemma FilledPageIsCut(h: Hasher)
    ensures
      var file, w := Letters(PAGE_LENGTH - 1), Write("a", PAGE_LENGTH - 1);
      var now := Overwrite(file, w);
      && Possible(|file|, w) && Defined(|FreshLeaves(h, file)|, |now|, w) && !KeepsUp(|file|, w)
      && now == Letters(PAGE_LENGTH)
      && NextLeaves(h, FreshLeaves(h, file), now, w) == FreshLeaves(h, file) == [h.leaf(file)]
      && FreshLeaves(h, now) == [h.leaf(now)]
  {
    var file, w := Letters(PAGE_LENGTH - 1), Write("a", PAGE_LENGTH - 1);
    var now := Overwrite(file, w);
    OnePage(h, file);
    OnePage(h, now);
    assert now == Letters(PAGE_LENGTH);
    assert CutPage(now, 0) == file;
    assert LeafHashes(h, RangeDatas(now, w)) == [h.leaf(file)];
  }

  /** An unaligned write that runs over a full row of leaves: the growth test only counts full pages, so
      the update fails and the tree keeps too few leaves. */
  lemma NoLeafForLastPage(h: Hasher)
    ensures
      var file, w := Letters(PAGE_LENGTH - 1), Write("aa", PAGE_LENGTH - 1);
      var now := Overwrite(file, w);
      && Possible(|file|, w) && Defined(|FreshLeaves(h, file)|, |now|, w) && !KeepsUp(|file|, w)
      && NextLeaves(h, FreshLeaves(h, file), now, w) == FreshLeaves(h, file)
      && |FreshLeaves(h, file)| == 1 && |FreshLeaves(h, now)| == 2
  {
    OnePage(h, Letters(PAGE_LENGTH - 1));
  }

  /** An aligned write of less than its page: the hash of the page becomes that of the buffer alone. */
  lemma PartOfAPage(h: Hasher)
    ensures
      var w := Write("c", 0);
      && Possible(2, w) && Defined(|FreshLeaves(h, "ab")|, 2, w) && !KeepsUp(2, w)
      && Overwrite("ab", w) == "cb"
      && NextLeaves(h, FreshLeaves(h, "ab"), "cb", w) == [h.leaf("c")]
      && FreshLeaves(h, "cb") == [h.leaf("cb")]
  {
    OnePage(h, "ab");
    OnePage(h, "cb");
  }

  /** A write that would keep up, but is undefined: in every parsed tree of the file, the last hash_node
      call of the second row is one on the first leaf, node 4, and reads its data pointer. */
  lemma ComesBackToTheFirstLeaf(h: Hasher, nodes: seq<Node>, file: string, w: Write)
    requires file == Letters(2 * PAGE_LENGTH + 1) && w == Write(Letters(PAGE_LENGTH), 2 * PAGE_LENGTH + 1)
    requires Represents(h, nodes, FreshLeaves(h, file)) && NoData(nodes)
    ensures Possible(|file|, w) && KeepsUp(|file|, w) && |FreshLeaves(h, file)| == 4
    ensures !Defined(4, NewSize(|file|, w), w)
    ensures
      var stored := Store(nodes, RangeIndexes(4, w), RangeDatas(Overwrite(file, w), w));
      !Readable(BeforeLastOfRow(h, stored, 4, 6, 2), 4, 4)
  {
    TreeSizeIsLeast(3, 2);
    assert TreeSize(3) == 4;
    hide FreshLeaves;
    hide RangeDatas;
    hide RangeIndexes;
    hide Store;
    hide Readable;
    hide HashRange;
    FreshCount(h, file);
    assert FirstPage(w) == 2 && LastPage(w) == 3;
    DefinedExactly(h, nodes, FreshLeaves(h, file), Overwrite(file, w), w);
  }

  /** Two writes that would keep up, but are undefined: a full build of more than 2^30 bytes, the first one or
      one that an unaligned write forces, computes 2^31 in an int. */
  lemma TooLargeToBuild(first: Write, second: Write)
    requires first == Write("a", 0x4000_0000)
    requires second == Write(Letters(PAGE_LENGTH + 2), 0x4000_0000 - 1)
    ensures Possible(0x4000_0000, first) && Possible(0x4000_0000 - 1, second)
    ensures TreeSize(PageCount(NewSize(0x4000_0000, first))) * PAGE_LENGTH == INT_LIMIT
    ensures !Defined(0, NewSize(0x4000_0000, first), first)
    ensures KeepsUp(0x4000_0000 - 1, second) && TreeSize(PageCount(0x4000_0000 - 1)) == 0x4000
    ensures !Defined(0x4000, NewSize(0x4000_0000 - 1, second), second)
  {
    hide TreeSize;
    hide BuildFits;
    hide Pow2;
    BuildFitsUpTo(0x4000_0001);
    BuildFitsUpTo(0x4001_0001);
    PowersOfPages();
    LeastIs(0x4000, 14);
    LeastIs(0x4001, 15);
  }

  /** A third one: an unaligned write from page 0 to page 2^15 - 1 makes the size of the table of pages
      2^31. */
  lemma TooLongForRange(w: Write)
    requires w == Write(Letters(INT_LIMIT - 3), 1)
    ensures Possible(0x4000_0001, w) && KeepsUp(0x4000_0001, w)
    ensures TreeSize(PageCount(0x4000_0001)) == 0x8000
    ensures (LastPage(w) - FirstPage(w) + 1) * PAGE_LENGTH == INT_LIMIT
    ensures !Defined(0x8000, NewSize(0x4000_0001, w), w)
  {
    hide TreeSize;
    hide BuildFits;
    hide Pow2;
    PowersOfPages();
    LeastIs(0x4001, 15);
  }

  lemma PowersOfPages()
    ensures Pow2(13) == 0x2000 && Pow2(14) == 0x4000 && Pow2(15) == 0x8000
  {
  }

  lemma LeastIs(n: nat, e: nat)
    requires e > 0 && Pow2(e - 1) < n <= Pow2(e)
    ensures TreeSize(n) == Pow2(e)
  {
    hide TreeSize;
    hide Pow2;
    TreeSizeIsLeast(n, e);
    var k: nat :| TreeSize(n) == Pow2(k);
    if k < e - 1 {
      Pow2Grows(k, e - 1);
    } else if k > e {
      Pow2Grows(e, k);
    }
  }

  /** A tree never gets so many leaves that node numbers leave an int. */
  lemma {:induction false} CountsFit(n: nat, size: nat, ws: seq<Write>)
    requires n <= 0x1_0000 && PossibleRun(size, ws)
    ensures CountAfter(n, size, ws) <= 0x1_0000
  {
    hide TreeSize;
    if ws != [] {
      CountsFit(n, size, ws[..|ws| - 1]);
      TreeSizeIsLeast(PageCount(SizeAfter(size, ws)), 0);
    }
  }
}
