/** Printing a tree and reading it back. */
module TreeStrings {
  import opened Hashes
  import opened MerkleSpec
  import opened MerkleTrees
  import opened Params
  import opened Powers
  import opened TreeText

  /** The text of a tree: its hashes from node 1 on. */
  function TreeTextOf(h: Hasher, leaves: seq<Hash>): string
    requires |leaves| > 0
  {
    Text(AllHashes(h, leaves)[1..])
  }

  lemma TextOfTree(h: Hasher, nodes: seq<Node>, leaves: seq<Hash>)
    requires |leaves| > 0 && Represents(h, nodes, leaves)
    ensures HasHashes(nodes, AllHashes(h, leaves))
    ensures TreeTextOf(h, leaves) == Text(AllHashes(h, leaves)[1..])
  {
    TreeHasHashes(h, nodes, leaves);
  }

  /** "1:hash,2:hash", without a comma at the end, for any hashes. */
  method TreeToString(mt: MerkleTree, ghost hashes: seq<Hash>) returns (text: string)
    requires |hashes| == mt.nbNodes > 0 && HasHashes(mt.nodes[..], hashes)
    ensures text == Text(hashes[1..])
  {
    hide Join;
    hide Decimal;
    ghost var entries := Entries(hashes[1..]);
    text := "";
    JoinOfNothing();
    for i := 1 to mt.nbNodes
      invariant text == Join(entries[..i - 1], ',') + (if 1 < i < mt.nbNodes then "," else "")
    {
      var line := Decimal(i) + ":" + mt.nodes[i].hash.value;
      assert line == entries[i - 1];
      if i > 1 {
        JoinSnoc(entries[..i - 1], line, ',');
      } else {
        JoinOfOne(line);
      }
      assert entries[..i] == entries[..i - 1] + [line];
      text := text + line;
      if i < mt.nbNodes - 1 {
        text := text + ",";
      }
    }
    assert entries[..mt.nbNodes - 1] == entries;
  }

  lemma JoinOfNothing()
    ensures Join([], ',') == ""
  {
  }

  lemma JoinOfOne(t: string)
    ensures [] + [t] == [t] && Join([t], ',') == t
  {
  }

  /** Splits a string at a delimiter.  `holds` says whether both assertions of str_split hold. */
  method StrSplit(s: string, d: char) returns (result: seq<string>, holds: bool)
    ensures result == Tokens(s, d)
    ensures holds <==> Splittable(s, d)
  {
    hide Tokens;
    var count := CountElements(s, d);
    SplitAccounting(s, d);
    holds := true;
    result := [];
    var pos := 0;
    assert s[0..] == s;
    while pos < |s|
      invariant 0 <= pos <= |s| && result + Tokens(s[pos..], d) == Tokens(s, d)
      invariant holds
    {
      if s[pos] == d {
        DropDelimiter(s[pos..], d);
        assert s[pos..][1..] == s[pos + 1..];
        pos := pos + 1;
      } else {
        var end := pos;
        while end < |s| && s[end] != d
          invariant pos <= end <= |s| && forall i :: pos <= i < end ==> s[i] != d
        {
          end := end + 1;
        }
        TakeToken(s[pos..], d, end - pos);
        assert s[pos..][..end - pos] == s[pos..end] && s[pos..][end - pos..] == s[end..];
        holds := holds && |result| < count;
        result := result + [s[pos..end]];
        pos := end;
      }
    }
    NoTokens(d);
    assert s[pos..] == "";
    holds := holds && |result| == count - 1;
  }

  method CountElements(s: string, d: char) returns (count: nat)
    ensures count == ExpectedCount(s, d)
  {
    count := 0;
    var lastComma: int := -1;
    for tmp := 0 to |s|
      invariant count + Delimiters(s[tmp..], d) == Delimiters(s, d)
      invariant -1 <= lastComma < tmp
      invariant tmp > 0 ==> (s[tmp - 1] == d <==> lastComma == tmp - 1)
    {
      if s[tmp] == d {
        count := count + 1;
        lastComma := tmp;
      }
      assert s[tmp..][1..] == s[tmp + 1..];
    }
    if lastComma == -1 || lastComma < |s| - 1 {
      count := count + 1;
    }
    count := count + 1;
  }

  lemma NoTokens(d: char)
    ensures Tokens("", d) == []
  {
  }

  lemma DropDelimiter(s: string, d: char)
    requires s != "" && s[0] == d
    ensures Tokens(s, d) == Tokens(s[1..], d)
  {
  }

  lemma TakeToken(s: string, d: char, n: nat)
    requires 0 < n <= |s| && (forall i :: 0 <= i < n ==> s[i] != d) && (n < |s| ==> s[n] == d)
    ensures Tokens(s, d) == [s[..n]] + Tokens(s[n..], d)
  {
    assert s[..n] + s[n..] == s;
    FirstToken(s[..n], s[n..], d);
  }

  /** A text that string_to_tree can take: every entry has a second field, which is a hash. */
  predicate Parseable(text: string) {
    && Splittable(text, ',')
    && forall i :: 0 <= i < |Tokens(text, ',')| ==> ParseableEntry(Tokens(text, ',')[i])
  }

  predicate ParseableEntry(entry: string) {
    Splittable(entry, ':') && |Tokens(entry, ':')| >= 2 && IsHash(Tokens(entry, ':')[1])
  }

  /** The second field of an entry. */
  function EntryHash(entry: string): Hash
    requires ParseableEntry(entry)
  {
    Tokens(entry, ':')[1]
  }

  /** Reads a tree from its text.  Node i + 1 gets the hash of entry i, whatever its number says; no
      node gets data. */
  method StringToTree(mt: MerkleTree, text: string)
    requires Parseable(text)
    modifies mt`nbNodes, mt`treeHeight, mt`nodes
    ensures mt.nbNodes == |Tokens(text, ',')| + 1 && mt.treeHeight == Log2(mt.nbNodes)
    ensures fresh(mt.nodes) && mt.nodes.Length == (mt.nbNodes + 1) * 2 * PAGE_LENGTH * HASH_SIZE
    ensures NoData(mt.nodes[..])
    ensures forall i :: 0 <= i < |Tokens(text, ',')| ==>
      mt.nodes[i + 1].hash == To(EntryHash(Tokens(text, ',')[i]))
  {
    hide Tokens;
    hide Splittable;
    var tokens, _ := StrSplit(text, ',');
    mt.nbNodes := |tokens| + 1;
    mt.treeHeight := Log2(|tokens| + 1);
    mt.nodes := new Node[(mt.nbNodes + 1) * 2 * PAGE_LENGTH * HASH_SIZE](UnsetNode);
    for i := 0 to |tokens|
      invariant mt.nbNodes == |tokens| + 1 && mt.treeHeight == Log2(mt.nbNodes)
      invariant fresh(mt.nodes) && mt.nodes.Length == (mt.nbNodes + 1) * 2 * PAGE_LENGTH * HASH_SIZE
      invariant NoData(mt.nodes[..])
      invariant forall k :: 0 <= k < i ==> mt.nodes[k + 1].hash == To(EntryHash(tokens[k]))
    {
      assert ParseableEntry(tokens[i]);
      var thing, _ := StrSplit(tokens[i], ':');
      var hashString: Hash := thing[1];
      mt.nodes[i + 1] := mt.nodes[i + 1].(hash := To(hashString));
    }
  }

  lemma PrintedIsParseable(hashes: seq<Hash>)
    requires hashes != []
    ensures Parseable(Text(hashes)) && |Tokens(Text(hashes), ',')| == |hashes|
    ensures forall i :: 0 <= i < |hashes| ==> EntryHash(Tokens(Text(hashes), ',')[i]) == hashes[i]
  {
    hide Tokens;
    hide Splittable;
    TextRoundTrip(hashes);
  }

  /** Reading back the text of any hashes gives their number, the height of a tree of that size, and every
      hash in its place, whether or not they make a tree. */
  method ParseTree(mt: MerkleTree, text: string, ghost hashes: seq<Hash>)
    requires |hashes| > 1 && text == Text(hashes[1..])
    modifies mt`nbNodes, mt`treeHeight, mt`nodes
    ensures mt.nbNodes == |hashes| && mt.treeHeight == Log2(|hashes|)
    ensures HasHashes(mt.nodes[..], hashes) && NoData(mt.nodes[..])
    ensures fresh(mt.nodes) && mt.nodes.Length == (mt.nbNodes + 1) * 2 * PAGE_LENGTH * HASH_SIZE
  {
    hide Tokens;
    hide Text;
    PrintedIsParseable(hashes[1..]);
    StringToTree(mt, text);
    ghost var nodes := mt.nodes[..];
    forall i | 1 <= i < |hashes|
      ensures nodes[i].hash == To(hashes[i])
    {
      assert mt.nodes[(i - 1) + 1].hash == To(EntryHash(Tokens(text, ',')[i - 1]));
    }
  }
}
