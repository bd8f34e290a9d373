/** What equal roots say about trees with the real hashes.  A node is hashed from the first 32
    characters of each child, so this is what a root can bind. */
module PrefixBinding {
  import opened Hashes
  import opened MerkleSpec
  import opened NodeDigest

  function Prefix(h: Hash): string {
    h[..32]
  }

  /** The 64 characters that node p is hashed from. */
  function NodeInput(leaves: seq<Hash>, p: nat): (s: string)
    requires 1 <= p < |leaves|
    ensures |s| == 64
  {
    Prefix(NodeHash(SHA3_HASHER, leaves, 2 * p)) + Prefix(NodeHash(SHA3_HASHER, leaves, 2 * p + 1))
  }

  lemma NodeFromInput(leaves: seq<Hash>, p: nat)
    requires 1 <= p < |leaves|
    ensures NodeHash(SHA3_HASHER, leaves, p) == Digest(NodeInput(leaves, p))
  {
    hide Digest;
  }

  /** Two different strings of 64 characters whose digests have the same first 32 characters. */
  ghost predicate PrefixCollisionAt(a: seq<Hash>, b: seq<Hash>, p: nat) {
    && |a| == |b| && 1 <= p < |a|
    && NodeInput(a, p) != NodeInput(b, p)
    && Prefix(Digest(NodeInput(a, p))) == Prefix(Digest(NodeInput(b, p)))
  }

  lemma SameInput(a: seq<Hash>, b: seq<Hash>, p: nat)
    requires |a| == |b| && 1 <= p < |a|
    ensures NodeInput(a, p) == NodeInput(b, p) <==>
            && Prefix(NodeHash(SHA3_HASHER, a, 2 * p)) == Prefix(NodeHash(SHA3_HASHER, b, 2 * p))
            && Prefix(NodeHash(SHA3_HASHER, a, 2 * p + 1)) == Prefix(NodeHash(SHA3_HASHER, b, 2 * p + 1))
  {
    hide Digest;
    hide NodeHash;
    assert NodeInput(a, p)[..32] == Prefix(NodeHash(SHA3_HASHER, a, 2 * p));
    assert NodeInput(b, p)[..32] == Prefix(NodeHash(SHA3_HASHER, b, 2 * p));
    assert NodeInput(a, p)[32..] == Prefix(NodeHash(SHA3_HASHER, a, 2 * p + 1));
    assert NodeInput(b, p)[32..] == Prefix(NodeHash(SHA3_HASHER, b, 2 * p + 1));
  }

  lemma {:induction false} PrefixesAgree(a: seq<Hash>, b: seq<Hash>, i: nat)
    requires |a| == |b| && 1 <= i < 2 * |a|
    requires Prefix(NodeHash(SHA3_HASHER, a, 1)) == Prefix(NodeHash(SHA3_HASHER, b, 1))
    requires forall p :: !PrefixCollisionAt(a, b, p)
    ensures Prefix(NodeHash(SHA3_HASHER, a, i)) == Prefix(NodeHash(SHA3_HASHER, b, i))
  {
    hide Digest;
    hide Prefix;
    hide NodeHash;
    if i > 1 {
      PrefixesAgree(a, b, i / 2);
      NodeFromInput(a, i / 2);
      NodeFromInput(b, i / 2);
      assert !PrefixCollisionAt(a, b, i / 2);
      SameInput(a, b, i / 2);
    }
  }

  lemma {:induction false} PrefixesDecide(a: seq<Hash>, b: seq<Hash>, i: nat)
    requires |a| == |b| && 1 <= i < 2 * |a|
    requires forall j :: 0 <= j < |a| ==> Prefix(a[j]) == Prefix(b[j])
    ensures Prefix(NodeHash(SHA3_HASHER, a, i)) == Prefix(NodeHash(SHA3_HASHER, b, i))
    ensures i < |a| ==> NodeHash(SHA3_HASHER, a, i) == NodeHash(SHA3_HASHER, b, i)
    decreases 2 * |a| - i
  {
    hide Digest;
    hide Prefix;
    if i < |a| {
      PrefixesDecide(a, b, 2 * i);
      PrefixesDecide(a, b, 2 * i + 1);
      NodeFromInput(a, i);
      NodeFromInput(b, i);
      SameInput(a, b, i);
    }
  }

  ghost predicate SamePrefixes(a: seq<Hash>, b: seq<Hash>)
    requires |a| == |b|
  {
    forall j :: 0 <= j < |a| ==> Prefix(a[j]) == Prefix(b[j])
  }

  lemma LeafNode(leaves: seq<Hash>, j: nat)
    requires j < |leaves|
    ensures NodeHash(SHA3_HASHER, leaves, |leaves| + j) == leaves[j]
  {
  }

  /** Equal roots: all leaf hashes agree in their first 32 characters, or a node shows a collision of
      shortened digests.  Conversely, with at least two leaves, nothing else of the leaf hashes reaches
      the root. */
  lemma RootBindsPrefixes(a: seq<Hash>, b: seq<Hash>)
    requires |a| == |b| > 0
    ensures NodeHash(SHA3_HASHER, a, 1) == NodeHash(SHA3_HASHER, b, 1) ==>
      SamePrefixes(a, b) || exists p :: PrefixCollisionAt(a, b, p)
    ensures |a| > 1 && SamePrefixes(a, b) ==>
      NodeHash(SHA3_HASHER, a, 1) == NodeHash(SHA3_HASHER, b, 1)
  {
    hide Prefix;
    hide NodeHash;
    hide PrefixCollisionAt;
    hide IsHash;
    hide AllHex;
    hide SHA3_HASHER;
    if NodeHash(SHA3_HASHER, a, 1) == NodeHash(SHA3_HASHER, b, 1) && forall p :: !PrefixCollisionAt(a, b, p) {
      forall j | 0 <= j < |a|
        ensures Prefix(a[j]) == Prefix(b[j])
      {
        PrefixesAgree(a, b, |a| + j);
        LeafNode(a, j);
        LeafNode(b, j);
      }
    }
    if |a| > 1 && SamePrefixes(a, b) {
      PrefixesDecide(a, b, 1);
    }
  }

  /** Two rows of leaf hashes that differ in one character, the 33rd of the first hash, have the same root. */
  lemma TailIsLost(x: Hash)
    ensures
      var a: Hash, b: Hash := Zeros(32) + "a", Zeros(32) + "b";
      && [a, x] != [b, x]
      && NodeHash(SHA3_HASHER, [a, x], 1) == NodeHash(SHA3_HASHER, [b, x], 1)
  {
    hide SHA3_HASHER;
    hide NodeHash;
    var a: Hash, b: Hash := Zeros(32) + "a", Zeros(32) + "b";
    assert a[32] != b[32] && [a, x][0] != [b, x][0];
    assert Prefix(a) == Prefix(b);
    RootBindsPrefixes([a, x], [b, x]);
  }

  function Zeros(n: nat): (s: string)
    ensures |s| == n && AllHex(s)
  {
    seq(n, _ => '0')
  }
}
