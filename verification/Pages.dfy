/** A file as a sequence of pages, and the leaves of its tree. */
module Pages {
  import opened Hashes
  import opened MerkleSpec
  import opened Params
  import opened Powers
  import opened SlotTable
  import opened TreeSizes

  function PageCount(size: nat): nat {
    (size + PAGE_LENGTH - 1) / PAGE_LENGTH
  }

  predicate IsFull(size: nat) {
    size % PAGE_LENGTH == 0
  }

  /** The code counts the full pages and adds one unless the last page is full. */
  lemma PageCountInCode(size: nat)
    ensures PageCount(size) == size / PAGE_LENGTH + (if IsFull(size) then 0 else 1)
  {
  }

  /** Page i; only the last page can be shorter than PAGE_LENGTH. */
  function Page(file: string, i: nat): (p: string)
    requires i < PageCount(|file|)
    ensures 0 < |p| <= PAGE_LENGTH
    ensures |p| < PAGE_LENGTH ==> i == |file| / PAGE_LENGTH
  {
    var start := i * PAGE_LENGTH;
    file[start..if start + PAGE_LENGTH <= |file| then start + PAGE_LENGTH else |file|]
  }

  function FilePages(file: string): (r: seq<string>)
    ensures |r| == PageCount(|file|)
  {
    seq(PageCount(|file|), i requires 0 <= i < PageCount(|file|) => Page(file, i))
  }

  function BlankPages(n: nat): (r: seq<string>)
    ensures |r| == n
  {
    seq(n, _ => BLANK)
  }

  /** The pages of a file, padded with " " to the least power of two. */
  function PaddedPages(file: string): (r: seq<string>)
    requires file != ""
    ensures |r| == TreeSize(PageCount(|file|)) >= PageCount(|file|)
  {
    var n := PageCount(|file|);
    TreeSizeIsLeast(n, 0);
    FilePages(file) + BlankPages(TreeSize(n) - n)
  }

  lemma PagesFit(file: string)
    requires file != ""
    ensures FitLeaves(PaddedPages(file))
  {
    hide TreeSize;
    var pages := PaddedPages(file);
    forall k | 0 <= k < |pages|
      ensures Fits(pages[k])
    {
      assert k < PageCount(|file|) ==> pages[k] == Page(file, k);
    }
  }

  /** The leaves that a full build gives a file. */
  function FreshLeaves(h: Hasher, file: string): (r: seq<Hash>)
    requires file != ""
    ensures |r| == TreeSize(PageCount(|file|))
  {
    LeafHashes(h, PaddedPages(file))
  }

  /** The full builds compute the number of leaves times PAGE_LENGTH in an int. */
  predicate BuildFits(size: nat)
    requires size > 0
  {
    TreeSize(PageCount(size)) * PAGE_LENGTH < INT_LIMIT
  }

  /** They can do so up to 2^30 bytes. */
  lemma BuildFitsUpTo(size: nat)
    requires size > 0
    ensures BuildFits(size) <==> size <= 0x4000_0000
  {
    hide TreeSize;
    var n := PageCount(size);
    TreeSizeIsLeast(n, 14);
    assert Pow2(14) == 16384;
    var k: nat :| TreeSize(n) == Pow2(k);
    if k < 14 {
      Pow2Grows(k, 14);
    } else if k > 14 {
      Pow2Grows(14, k);
    }
  }

  function Concat(texts: seq<string>): string {
    if texts == [] then "" else Concat(texts[..|texts| - 1]) + texts[|texts| - 1]
  }

  lemma {:induction false} PagesUpTo(file: string, n: nat)
    requires n <= PageCount(|file|)
    ensures Concat(FilePages(file)[..n]) == file[..if n * PAGE_LENGTH <= |file| then n * PAGE_LENGTH else |file|]
    ensures Total(FilePages(file)[..n]) == if n * PAGE_LENGTH <= |file| then n * PAGE_LENGTH else |file|
  {
    if n > 0 {
      PagesUpTo(file, n - 1);
      var pages := FilePages(file);
      assert pages[..n][..n - 1] == pages[..n - 1];
      assert pages[n - 1] == Page(file, n - 1);
    }
  }

  /** The pages in order are the file. */
  lemma PagesAreTheFile(file: string)
    ensures Concat(FilePages(file)) == file && Total(FilePages(file)) == |file|
  {
    var n := PageCount(|file|);
    PagesUpTo(file, n);
    assert FilePages(file)[..n] == FilePages(file);
    assert n * PAGE_LENGTH >= |file|;
  }

  // ----- The slot table of a file -----

  /** Writing the next string where the cursor stands keeps everything before it. */
  lemma SlotWritten(slots: Slots, datas: seq<string>, text: string)
    requires SlotsHold(slots, datas) && Total(datas) < |slots|
    requires forall k :: 0 <= k < |datas| ==> datas[k] != ""
    ensures SlotsHold(slots[Total(datas) := To(text)], datas + [text])
    ensures Total(datas + [text]) == Total(datas) + |text|
  {
    var more := datas + [text];
    var after := slots[Total(datas) := To(text)];
    assert more[..|datas|] == datas;
    assert Total(more) == Total(datas) + |text|;
    hide Total;
    forall k | 0 <= k < |more|
      ensures SlotHolds(after, more, k)
    {
      if k < |datas| {
        TotalGrows(datas, k);
        assert more[..k] == datas[..k];
        assert SlotHolds(slots, datas, k);
      }
    }
  }

  lemma {:induction false} TotalGrows(datas: seq<string>, k: nat)
    requires k < |datas| && forall i :: 0 <= i < |datas| ==> datas[i] != ""
    ensures Total(datas[..k]) < Total(datas)
  {
    var n := |datas| - 1;
    if k < n {
      TotalGrows(datas[..n], k);
      assert datas[..n][..k] == datas[..k];
    }
  }

  /** Fills the table as compute_merkle does: full pages first, then the last page if it is not full,
      then " " for every leaf without a page.  The cursor returns to where it started. */
  method ParseFile(file: string, treeSize: nat) returns (parsedFile: array<Ptr<string>>, cursor: int)
    requires file != "" && |file| < INT_LIMIT && treeSize == TreeSize(PageCount(|file|)) && BuildFits(|file|)
    ensures fresh(parsedFile) && SlotsHold(parsedFile[..], PaddedPages(file))
    ensures cursor == 0
  {
    hide Total;
    hide SlotsHold;
    TreeSizeIsLeast(PageCount(|file|), 0);
    PageCountInCode(|file|);
    hide TreeSize;
    hide PageCount;
    parsedFile := AllocateTable(treeSize);
    var nbOfPages: Int := |file| / PAGE_LENGTH;
    var pageFull: Int := if IsFull(|file|) then 1 else 0;
    cursor := FillPages(file, parsedFile);
    var rest := file[nbOfPages * PAGE_LENGTH..];
    cursor := FillLastPage(file, parsedFile, cursor);
    var padding: Int := treeSize - (nbOfPages + 1 - pageFull);
    cursor := FillBlanks(parsedFile, cursor, padding, FilePages(file));
    if treeSize > nbOfPages {
      cursor := cursor - (treeSize - nbOfPages - 1 + pageFull);
    }
    if pageFull == 0 {
      cursor := cursor - |rest|;
    }
    var fullPages: Int := nbOfPages * PAGE_LENGTH;
    cursor := cursor - fullPages;
  }

  /** The loop that allocates the pages; the cursor goes back by a product that must be an int. */
  method AllocateTable(treeSize: nat) returns (parsedFile: array<Ptr<string>>)
    requires 0 < treeSize && treeSize * PAGE_LENGTH < INT_LIMIT
    ensures fresh(parsedFile) && parsedFile.Length == treeSize * 8 * PAGE_LENGTH
    ensures forall i :: 0 <= i < treeSize ==> parsedFile[i * PAGE_LENGTH] == To("")
  {
    parsedFile := new Ptr<string>[treeSize * 8 * PAGE_LENGTH](_ => Null);
    var cursor := 0;
    for i := 0 to treeSize
      invariant cursor == i * PAGE_LENGTH
      invariant forall k :: 0 <= k < i ==> parsedFile[k * PAGE_LENGTH] == To("")
    {
      parsedFile[cursor] := To("");
      cursor := cursor + PAGE_LENGTH;
    }
    var allPages: Int := treeSize * PAGE_LENGTH;
    cursor := cursor - allPages;
    assert cursor == 0;
  }

  /** Copies the last page if it is not full. */
  method FillLastPage(file: string, parsedFile: array<Ptr<string>>, start: nat) returns (cursor: nat)
    requires file != "" && |file| < parsedFile.Length
    requires var n := |file| / PAGE_LENGTH;
             start == n * PAGE_LENGTH == Total(FilePages(file)[..n]) && SlotsHold(parsedFile[..], FilePages(file)[..n])
    modifies parsedFile
    ensures cursor == |file| == Total(FilePages(file)) && SlotsHold(parsedFile[..], FilePages(file))
  {
    hide Total;
    hide SlotsHold;
    cursor := start;
    var n := |file| / PAGE_LENGTH;
    ghost var pages := FilePages(file);
    if IsFull(|file|) {
      assert pages[..n] == pages;
    } else {
      var rest := file[n * PAGE_LENGTH..];
      assert pages[n] == rest;
      SlotWritten(parsedFile[..], pages[..n], rest);
      parsedFile[cursor] := To(rest);
      assert pages == pages[..n] + [rest];
      cursor := cursor + |rest|;
    }
  }

  /** The loop that copies the full pages. */
  method FillPages(file: string, parsedFile: array<Ptr<string>>) returns (cursor: nat)
    requires |file| < parsedFile.Length
    modifies parsedFile
    ensures var n := |file| / PAGE_LENGTH;
            cursor == n * PAGE_LENGTH == Total(FilePages(file)[..n]) && SlotsHold(parsedFile[..], FilePages(file)[..n])
  {
    hide Total;
    hide SlotsHold;
    cursor := 0;
    ghost var pages := FilePages(file);
    NothingWritten(parsedFile[..]);
    var fileCursor := 0;
    for i := 0 to |file| / PAGE_LENGTH
      invariant fileCursor == i * PAGE_LENGTH == cursor
      invariant SlotsHold(parsedFile[..], pages[..i]) && cursor == Total(pages[..i])
    {
      assert pages[i] == file[fileCursor..fileCursor + PAGE_LENGTH];
      SlotWritten(parsedFile[..], pages[..i], pages[i]);
      assert pages[..i + 1] == pages[..i] + [pages[i]];
      parsedFile[cursor] := To(file[fileCursor..fileCursor + PAGE_LENGTH]);
      cursor := cursor + PAGE_LENGTH;
      fileCursor := fileCursor + PAGE_LENGTH;
    }
  }

  /** The loop that adds the padding. */
  method FillBlanks(parsedFile: array<Ptr<string>>, start: nat, padding: nat, ghost pages: seq<string>)
    returns (cursor: nat)
    requires start == Total(pages) && start + padding < parsedFile.Length
    requires SlotsHold(parsedFile[..], pages) && forall k :: 0 <= k < |pages| ==> pages[k] != ""
    modifies parsedFile
    ensures cursor == start + padding && SlotsHold(parsedFile[..], pages + BlankPages(padding))
  {
    hide Total;
    hide SlotsHold;
    cursor := start;
    ghost var written := pages;
    assert pages + BlankPages(0) == pages;
    for i := 0 to padding
      invariant cursor == start + i
      invariant written == pages + BlankPages(i)
      invariant SlotsHold(parsedFile[..], written) && cursor == Total(written)
    {
      SlotWritten(parsedFile[..], written, BLANK);
      assert written + [BLANK] == pages + BlankPages(i + 1);
      parsedFile[cursor] := To(" ");
      written := written + [BLANK];
      cursor := cursor + 1;
    }
  }

  lemma NothingWritten(slots: Slots)
    ensures SlotsHold(slots, []) && Total([]) == 0
  {
  }
}
