/** The streaming hash context as a value, fed one byte at a time, and why feeding it is the sponge. */
module Streaming {
  import opened Keccak
  import opened Powers
  import opened Sponge

  // ----- The context as a value -----

  /** x has no bits above its first k bytes. */
  predicate FitsIn(x: Lane, k: nat)
    requires k < 8
  {
    match k
    case 0 => x == 0
    case 1 => x <= 0xff
    case 2 => x <= 0xffff
    case 3 => x <= 0xffffff
    case 4 => x <= 0xffffffff
    case 5 => x <= 0xffffffffff
    case 6 => x <= 0xffffffffffff
    case 7 => x <= 0xffffffffffffff
  }

  lemma MergeFits(x: Lane, b: Byte, k: nat)
    requires k < 7 && FitsIn(x, k)
    ensures FitsIn(Merge(x, b, k), k + 1)
  {
    match k {
      case 0 => case 1 => case 2 => case 3 => case 4 => case 5 => case 6 =>
    }
  }

  datatype Ctx = Ctx(saved: Lane, s: State, byteIndex: nat, wordIndex: nat, capacityWords: nat) {

    function Rate(): int {
      25 - capacityWords
    }

    /** Fewer than eight bytes are saved, with nothing above them, and the block is not full. */
    ghost predicate Valid() {
      0 < Rate() <= 25 && byteIndex < 8 && wordIndex < Rate() && FitsIn(saved, byteIndex)
    }
  }

  function Init(capacityWords: nat): Ctx {
    Ctx(0, ZeroState(), 0, 0, capacityWords)
  }

  /** Adds a complete word to the sponge, and permutes when the block is full. */
  function AddWord(c: Ctx, word: Lane): (r: Ctx)
    requires c.Valid()
    ensures r.Valid() && r.capacityWords == c.capacityWords && r.byteIndex == 0 && r.saved == 0
  {
    var s := c.s[c.wordIndex := Xor(c.s[c.wordIndex], word)];
    if c.wordIndex + 1 == c.Rate() then Ctx(0, KeccakF(s), 0, 0, c.capacityWords)
    else Ctx(0, s, 0, c.wordIndex + 1, c.capacityWords)
  }

  lemma AddWordIgnoresSaved(c: Ctx, word: Lane)
    requires c.Valid()
    ensures AddWord(c, word) == AddWord(c.(saved := 0, byteIndex := 0), word)
  {
    hide Xor;
    hide KeccakF;
  }

  function AbsorbByte(c: Ctx, b: Byte): (r: Ctx)
    requires c.Valid()
    ensures r.Valid() && r.capacityWords == c.capacityWords
  {
    hide Merge;
    hide FitsIn;
    var saved := Merge(c.saved, b, c.byteIndex);
    if c.byteIndex == 7 then AddWord(c, saved) else
      MergeFits(c.saved, b, c.byteIndex);
      c.(saved := saved, byteIndex := c.byteIndex + 1)
  }

  function Absorb(c: Ctx, bs: seq<Byte>): (r: Ctx)
    requires c.Valid()
    ensures r.Valid() && r.capacityWords == c.capacityWords
    decreases bs
  {
    if bs == [] then c else Absorb(AbsorbByte(c, bs[0]), bs[1..])
  }

  /** Where a message is cut makes no difference to the context. */
  lemma {:induction false} AbsorbConcat(c: Ctx, a: seq<Byte>, b: seq<Byte>)
    requires c.Valid()
    ensures Absorb(c, a + b) == Absorb(Absorb(c, a), b)
    decreases a
  {
    hide AbsorbByte;
    if a == [] {
      assert a + b == b;
    } else {
      AbsorbConcat(AbsorbByte(c, a[0]), a[1..], b);
      assert (a + b)[1..] == a[1..] + b;
    }
  }

  lemma AbsorbNothing(c: Ctx)
    requires c.Valid()
    ensures Absorb(c, []) == c
  {
  }

  lemma AbsorbSnoc(c: Ctx, bs: seq<Byte>, b: Byte)
    requires c.Valid()
    ensures Absorb(c, bs + [b]) == AbsorbByte(Absorb(c, bs), b)
  {
    hide AbsorbByte;
    AbsorbConcat(c, bs, [b]);
    assert Absorb(AbsorbByte(Absorb(c, bs), b), []) == AbsorbByte(Absorb(c, bs), b);
  }

  /** The number of bytes in the current block. */
  function Position(c: Ctx): nat {
    8 * c.wordIndex + c.byteIndex
  }

  lemma ByteMoves(c: Ctx, b: Byte)
    requires c.Valid()
    ensures Position(c) < 8 * c.Rate()
    ensures Position(AbsorbByte(c, b)) == if Position(c) + 1 == 8 * c.Rate() then 0 else Position(c) + 1
  {
    hide Merge;
    hide FitsIn;
    hide KeccakF;
    hide Xor;
  }

  /** The indexes count the absorbed bytes modulo the rate. */
  lemma {:induction false} PositionCounts(c: Ctx, bs: seq<Byte>)
    requires c.Valid()
    ensures Position(Absorb(c, bs)) == (Position(c) + |bs|) % (8 * c.Rate())
    decreases bs
  {
    hide AbsorbByte;
    hide Position;
    if bs == [] {
      ByteMoves(c, 0);
      ModUnique(Position(c), 8 * c.Rate(), 0, Position(c));
    } else {
      var rate := 8 * c.Rate();
      var next := AbsorbByte(c, bs[0]);
      ByteMoves(c, bs[0]);
      PositionCounts(next, bs[1..]);
      var n := Position(next) + |bs[1..]|;
      var k := n / rate;
      if Position(c) + 1 == rate {
        assert rate * (k + 1) == rate * k + rate;
        ModUnique(Position(c) + |bs|, rate, k + 1, n % rate);
      }
    }
  }

  /** A word with the bytes bs added to it, the first one at byte k. */
  function MergeAll(x: Lane, bs: seq<Byte>, k: nat): Lane
    requires k + |bs| <= 8
  {
    if bs == [] then x else
      var n := |bs| - 1;
      Merge(MergeAll(x, bs[..n], k), bs[n], k + n)
  }

  lemma {:induction false} LittleIsMergeAll(bs: seq<Byte>)
    requires |bs| <= 8
    ensures Little(bs) == MergeAll(0, bs, 0)
  {
    hide Merge;
    if bs != [] {
      LittleIsMergeAll(bs[..|bs| - 1]);
    }
  }

  /** Bytes that do not complete the word are only saved. */
  lemma {:induction false} AbsorbInsideWord(c: Ctx, bs: seq<Byte>)
    requires c.Valid() && c.byteIndex + |bs| < 8
    ensures Absorb(c, bs) == c.(saved := MergeAll(c.saved, bs, c.byteIndex), byteIndex := c.byteIndex + |bs|)
  {
    hide Merge;
    hide AddWord;
    if bs != [] {
      var n := |bs| - 1;
      assert bs == bs[..n] + [bs[n]];
      AbsorbInsideWord(c, bs[..n]);
      AbsorbSnoc(c, bs[..n], bs[n]);
    }
  }

  /** Bytes that complete the word add it to the sponge. */
  lemma AbsorbRestOfWord(c: Ctx, bs: seq<Byte>)
    requires c.Valid() && c.byteIndex + |bs| == 8
    ensures Absorb(c, bs) == AddWord(c, MergeAll(c.saved, bs, c.byteIndex))
  {
    hide Merge;
    hide KeccakF;
    hide Xor;
    var n := |bs| - 1;
    assert bs == bs[..n] + [bs[n]];
    AbsorbInsideWord(c, bs[..n]);
    AbsorbSnoc(c, bs[..n], bs[n]);
  }

  /** The or of eight shifted bytes that the word loop takes straight from the buffer. */
  function WordAt(bs: seq<Byte>): Lane
    requires |bs| == 8
  {
    var low := Merge(Merge(Merge(bs[0] as Lane, bs[1], 1), bs[2], 2), bs[3], 3);
    Merge(Merge(Merge(Merge(low, bs[4], 4), bs[5], 5), bs[6], 6), bs[7], 7)
  }

  lemma WordAtIsOr(bs: seq<Byte>)
    requires |bs| == 8
    ensures WordAt(bs) ==
            (bs[0] as Lane) | ((bs[1] as Lane) << 8) | ((bs[2] as Lane) << 16) | ((bs[3] as Lane) << 24)
            | ((bs[4] as Lane) << 32) | ((bs[5] as Lane) << 40) | ((bs[6] as Lane) << 48) | ((bs[7] as Lane) << 56)
  {
  }

  lemma FirstByte(b: Byte)
    ensures Merge(0, b, 0) == b as Lane
  {
  }

  lemma MergeAllSnoc(bs: seq<Byte>, n: nat)
    requires n < |bs| <= 8
    ensures MergeAll(0, bs[..n + 1], 0) == Merge(MergeAll(0, bs[..n], 0), bs[n], n)
  {
    hide Merge;
    assert bs[..n + 1][..n] == bs[..n];
  }

  lemma LowHalf(bs: seq<Byte>)
    requires |bs| == 8
    ensures MergeAll(0, bs[..4], 0) == Merge(Merge(Merge(bs[0] as Lane, bs[1], 1), bs[2], 2), bs[3], 3)
  {
    hide Merge;
    assert MergeAll(0, bs[..0], 0) == 0;
    hide MergeAll;
    FirstByte(bs[0]);
    MergeAllSnoc(bs, 0);
    MergeAllSnoc(bs, 1);
    MergeAllSnoc(bs, 2);
    MergeAllSnoc(bs, 3);
  }

  lemma WordAtIsMergeAll(bs: seq<Byte>)
    requires |bs| == 8
    ensures WordAt(bs) == MergeAll(0, bs, 0)
  {
    hide Merge;
    hide MergeAll;
    assert bs[..8] == bs;
    LowHalf(bs);
    MergeAllSnoc(bs, 4);
    MergeAllSnoc(bs, 5);
    MergeAllSnoc(bs, 6);
    MergeAllSnoc(bs, 7);
  }

  // ----- Streaming refines the sponge -----

  /** The context at a block boundary. */
  function Boundary(s: State, capacityWords: nat): Ctx {
    Ctx(0, s, 0, 0, capacityWords)
  }

  /** The context after less than a block: whole words are in the state, the rest in `saved`. */
  function Partial(s: State, bs: seq<Byte>, capacityWords: nat): Ctx {
    var whole := |bs| / 8 * 8;
    Ctx(Little(bs[whole..]), XorWords(s, bs[..whole]), |bs| % 8, |bs| / 8, capacityWords)
  }

  lemma XorLaneSnoc(s: State, bs: seq<Byte>, word: seq<Byte>, i: nat)
    requires |bs| % 8 == 0 && |word| == 8 && |bs| < 200 && i < 25
    ensures XorLane(s, bs + word, i) == if i == |bs| / 8 then Xor(s[i], Little(word)) else XorLane(s, bs, i)
    ensures i == |bs| / 8 ==> XorLane(s, bs, i) == s[i]
  {
    hide Little;
    hide Xor;
    if i < |bs| / 8 {
      assert (bs + word)[8 * i..8 * i + 8] == bs[8 * i..8 * i + 8];
    } else if i == |bs| / 8 {
      assert (bs + word)[8 * i..8 * i + 8] == word;
    }
  }

  lemma XorWordsSnoc(s: State, bs: seq<Byte>, word: seq<Byte>)
    requires |bs| % 8 == 0 && |word| == 8 && |bs| < 200
    ensures XorWords(s, bs + word) == XorWords(s, bs)[|bs| / 8 := Xor(XorWords(s, bs)[|bs| / 8], Little(word))]
  {
    hide XorLane;
    hide Xor;
    hide Little;
    forall i | 0 <= i < 25 {
      XorLaneSnoc(s, bs, word, i);
    }
  }

  lemma {:induction false} AbsorbPartial(s: State, bs: seq<Byte>, capacityWords: nat)
    requires capacityWords < 25 && |bs| < 8 * (25 - capacityWords)
    ensures Absorb(Boundary(s, capacityWords), bs) == Partial(s, bs, capacityWords)
    decreases bs
  {
    hide Merge;
    hide KeccakF;
    hide Xor;
    if bs == [] {
      assert XorWords(s, []) == s;
    } else {
      var n := |bs| - 1;
      var before := bs[..n];
      assert bs == before + [bs[n]];
      AbsorbPartial(s, before, capacityWords);
      AbsorbSnoc(Boundary(s, capacityWords), before, bs[n]);
      LastByte(s, before, bs[n], capacityWords);
    }
  }

  lemma LittleSnoc(bs: seq<Byte>, b: Byte)
    requires |bs| < 8
    ensures Little(bs + [b]) == Merge(Little(bs), b, |bs|)
  {
    hide Merge;
    assert (bs + [b])[..|bs|] == bs;
  }

  lemma {:induction false} LittleFits(bs: seq<Byte>)
    requires |bs| < 8
    ensures FitsIn(Little(bs), |bs|)
  {
    hide Merge;
    if bs != [] {
      var n := |bs| - 1;
      LittleFits(bs[..n]);
      MergeFits(Little(bs[..n]), bs[n], n);
    }
  }

  lemma PartialIsValid(s: State, bs: seq<Byte>, capacityWords: nat)
    requires capacityWords < 25 && |bs| < 8 * (25 - capacityWords)
    ensures Partial(s, bs, capacityWords).Valid()
  {
    hide Little;
    hide XorWords;
    hide FitsIn;
    LittleFits(bs[|bs| / 8 * 8..]);
  }

  lemma LastByte(s: State, bs: seq<Byte>, b: Byte, capacityWords: nat)
    requires capacityWords < 25 && |bs| + 1 < 8 * (25 - capacityWords)
    ensures Partial(s, bs, capacityWords).Valid()
    ensures AbsorbByte(Partial(s, bs, capacityWords), b) == Partial(s, bs + [b], capacityWords)
  {
    hide Merge;
    hide Little;
    hide KeccakF;
    hide Xor;
    hide XorWords;
    hide FitsIn;
    PartialIsValid(s, bs, capacityWords);
    var whole := |bs| / 8 * 8;
    var tail := bs[whole..];
    LittleSnoc(tail, b);
    if |bs| % 8 == 7 {
      WordIsComplete(s, bs, b);
    } else {
      assert (bs + [b])[..whole] == bs[..whole];
      assert (bs + [b])[whole..] == tail + [b];
    }
  }

  lemma WordIsComplete(s: State, bs: seq<Byte>, b: Byte)
    requires |bs| % 8 == 7 && |bs| < 200
    ensures var whole := |bs| / 8 * 8;
            XorWords(s, (bs + [b])[..whole + 8]) ==
            XorWords(s, bs[..whole])[whole / 8 := Xor(XorWords(s, bs[..whole])[whole / 8], Little(bs[whole..] + [b]))]
    ensures Little((bs + [b])[|bs| + 1..]) == 0
  {
    var whole := |bs| / 8 * 8;
    hide Xor;
    hide XorWords;
    assert Little([]) == 0;
    hide Little;
    XorWordsSnoc(s, bs[..whole], bs[whole..] + [b]);
    assert bs[..whole] + (bs[whole..] + [b]) == (bs + [b])[..whole + 8];
    assert (bs + [b])[|bs| + 1..] == [];
  }

  lemma AbsorbBlock(s: State, block: seq<Byte>, capacityWords: nat)
    requires capacityWords < 25 && |block| == 8 * (25 - capacityWords)
    ensures Absorb(Boundary(s, capacityWords), block) == Boundary(KeccakF(XorWords(s, block)), capacityWords)
  {
    hide Merge;
    hide KeccakF;
    hide Xor;
    hide XorWords;
    var n := |block| - 1;
    var before := block[..n];
    var whole := n / 8 * 8;
    assert block == before + [block[n]];
    AbsorbPartial(s, before, capacityWords);
    AbsorbSnoc(Boundary(s, capacityWords), before, block[n]);
    var tail := before[whole..];
    LittleSnoc(tail, block[n]);
    XorWordsSnoc(s, before[..whole], tail + [block[n]]);
    assert before[..whole] + (tail + [block[n]]) == block;
  }

  // ----- Finalizing -----

  const TOP_BIT: Lane := 0x8000000000000000

  /** The state that Finalize turns into bytes: the suffix and the first padding bit go behind the
      saved bytes, the last padding bit to the end of the block. */
  function Finish(c: Ctx): State
    requires c.Valid()
  {
    var s := c.s[c.wordIndex := Xor(c.s[c.wordIndex], Xor(c.saved, ByteAt(0x06, c.byteIndex)))];
    KeccakF(s[c.Rate() - 1 := Xor(s[c.Rate() - 1], TOP_BIT)])
  }

  lemma NoOverlap(x: Lane, k: nat)
    requires k < 8 && FitsIn(x, k)
    ensures x & ByteAt(0x06, k) == 0
  {
    match k {
      case 0 => case 1 => case 2 => case 3 => case 4 => case 5 => case 6 => case 7 =>
    }
  }

  lemma OrIsXor(x: Lane, y: Lane)
    requires x & y == 0
    ensures x | y == x ^ y
  {
  }

  lemma OrOfDisjoint(x: Lane, y: Lane)
    requires x & y == 0
    ensures Or(x, y) == Xor(x, y)
  {
    OrIsXor(x, y);
  }

  /** The saved bytes and the suffix never overlap, so or and exclusive or agree. */
  lemma MergeIsXor(x: Lane, k: nat)
    requires k < 8 && FitsIn(x, k)
    ensures Merge(x, 0x06, k) == Xor(x, ByteAt(0x06, k))
  {
    NoOverlap(x, k);
    hide ByteAt;
    hide FitsIn;
    hide Or;
    hide Xor;
    OrOfDisjoint(x, ByteAt(0x06, k));
  }

  lemma LastByteIsXor(x: Lane)
    requires FitsIn(x, 7)
    ensures Merge(x, 0x80, 7) == Xor(x, TOP_BIT)
    ensures Merge(x, 0x86, 7) == Xor(Xor(x, ByteAt(0x06, 7)), TOP_BIT)
  {
  }

  lemma MergeZero(x: Lane, k: nat)
    requires k < 8
    ensures Merge(x, 0, k) == x
  {
    match k {
      case 0 => case 1 => case 2 => case 3 => case 4 => case 5 => case 6 => case 7 =>
    }
  }

  lemma {:induction false} LittleZeros(bs: seq<Byte>, n: nat)
    requires |bs| + n <= 8
    ensures Little(bs + Zeros(n)) == Little(bs)
    decreases n
  {
    hide Merge;
    if n == 0 {
      assert bs + Zeros(0) == bs;
    } else {
      assert bs + Zeros(n) == (bs + Zeros(n - 1)) + [0];
      LittleZeros(bs, n - 1);
      LittleSnoc(bs + Zeros(n - 1), 0);
      MergeZero(Little(bs), |bs| + n - 1);
    }
  }

  function Zeros(n: nat): (z: seq<Byte>)
    ensures |z| == n
  {
    seq(n, _ => 0)
  }

  /** The word that holds the suffix, when it is not the last word of the block. */
  lemma SuffixWord(tail: seq<Byte>)
    requires |tail| < 8
    ensures Little(tail + [0x06] + Zeros(7 - |tail|)) == Xor(Little(tail), ByteAt(0x06, |tail|))
  {
    hide Merge;
    hide Xor;
    hide ByteAt;
    hide FitsIn;
    hide Little;
    hide Zeros;
    LittleZeros(tail + [0x06], 7 - |tail|);
    LittleSnoc(tail, 0x06);
    LittleFits(tail);
    MergeIsXor(Little(tail), |tail|);
  }

  /** The word that holds the suffix, when it is the last word of the block. */
  lemma SuffixInLastWord(tail: seq<Byte>)
    requires |tail| < 8
    ensures |tail| < 7 ==> Little(tail + [0x06] + Zeros(6 - |tail|) + [0x80])
                           == Xor(Xor(Little(tail), ByteAt(0x06, |tail|)), TOP_BIT)
    ensures |tail| == 7 ==> Little(tail + [0x86]) == Xor(Xor(Little(tail), ByteAt(0x06, |tail|)), TOP_BIT)
  {
    hide Merge;
    hide Xor;
    hide ByteAt;
    hide FitsIn;
    hide Little;
    hide Zeros;
    LittleFits(tail);
    if |tail| < 7 {
      var bs := tail + [0x06] + Zeros(6 - |tail|);
      LittleZeros(tail + [0x06], 6 - |tail|);
      LittleSnoc(tail, 0x06);
      MergeIsXor(Little(tail), |tail|);
      LittleSnoc(bs, 0x80);
      LittleFits(bs);
      LastByteIsXor(Little(bs));
    } else {
      LittleSnoc(tail, 0x86);
      LastByteIsXor(Little(tail));
    }
  }

  lemma ZeroWord()
    ensures Little(Zeros(8)) == 0
  {
    LittleZeros([], 8);
    assert [] + Zeros(8) == Zeros(8);
  }

  /** The last word, when the suffix is in an earlier one. */
  lemma LastWord()
    ensures Little(Zeros(7) + [0x80]) == TOP_BIT
  {
    LittleZeros([], 7);
    assert [] + Zeros(7) == Zeros(7);
    LittleSnoc(Zeros(7), 0x80);
  }

  lemma XorFacts(x: Lane, y: Lane, z: Lane)
    ensures Xor(x, 0) == x
    ensures Xor(Xor(x, y), z) == Xor(x, Xor(y, z))
  {
  }

  /** A message that ends inside a block, padded to the whole block. */
  function PaddedBlock(m: seq<Byte>, rate: nat): (p: seq<Byte>)
    requires |m| < 8 * rate
    ensures |p| == 8 * rate
  {
    var q := 8 * rate - |m|;
    m + if q == 1 then [0x86] else [0x06] + Zeros(q - 2) + [0x80]
  }

  lemma PaddingOfLast(m: seq<Byte>, rate: nat)
    requires |m| < 8 * rate
    ensures m + Padding(|m|, rate) == PaddedBlock(m, rate)
  {
    ModUnique(|m|, 8 * rate, 0, |m|);
  }

  /** Word i >= |m| / 8 of the padded block. */
  function LateWord(m: seq<Byte>, rate: nat, i: nat): Lane {
    var w := |m| / 8;
    var suffix := Xor(Little(m[8 * w..]), ByteAt(0x06, |m| % 8));
    if i == w then (if i == rate - 1 then Xor(suffix, TOP_BIT) else suffix)
    else if i == rate - 1 then TOP_BIT else 0
  }

  /** The word in which the message ends, when it is not the last one of the block. */
  lemma SliceWithSuffix(m: seq<Byte>, rate: nat)
    requires |m| < 8 * rate && |m| / 8 < rate - 1
    ensures
      var w := |m| / 8;
      var tail := m[8 * w..];
      PaddedBlock(m, rate)[8 * w..8 * w + 8] == tail + [0x06] + Zeros(7 - |tail|)
  {
    var w := |m| / 8;
    var tail := m[8 * w..];
    var q := 8 * rate - |m|;
    assert m == m[..8 * w] + tail;
    assert Zeros(q - 2) == Zeros(7 - |tail|) + Zeros(q + |tail| - 9);
    assert PaddedBlock(m, rate) == m[..8 * w] + (tail + [0x06] + Zeros(7 - |tail|)) + (Zeros(q + |tail| - 9) + [0x80]);
  }

  /** The same, when it is the last one. */
  lemma SliceWithBoth(m: seq<Byte>, rate: nat)
    requires |m| < 8 * rate && |m| / 8 == rate - 1
    ensures
      var w := |m| / 8;
      var tail := m[8 * w..];
      PaddedBlock(m, rate)[8 * w..8 * w + 8] ==
        if |tail| == 7 then tail + [0x86] else tail + [0x06] + Zeros(6 - |tail|) + [0x80]
  {
    var w := |m| / 8;
    var tail := m[8 * w..];
    assert m == m[..8 * w] + tail;
    if |tail| == 7 {
      assert PaddedBlock(m, rate) == m[..8 * w] + (tail + [0x86]);
    } else {
      assert PaddedBlock(m, rate) == m[..8 * w] + (tail + [0x06] + Zeros(6 - |tail|) + [0x80]);
    }
  }

  /** A later word. */
  lemma SliceOfZeros(m: seq<Byte>, rate: nat, i: nat)
    requires |m| < 8 * rate && |m| / 8 < i < rate
    ensures PaddedBlock(m, rate)[8 * i..8 * i + 8] == if i == rate - 1 then Zeros(7) + [0x80] else Zeros(8)
  {
    var p := PaddedBlock(m, rate);
    assert p == m + [0x06] + Zeros(8 * rate - |m| - 2) + [0x80];
    forall k | 8 * i <= k < 8 * i + 8
      ensures p[k] == if k == 8 * rate - 1 then 0x80 else 0
    {
    }
  }

  lemma PaddedSlices(m: seq<Byte>, rate: nat, i: nat)
    requires |m| < 8 * rate && |m| / 8 <= i < rate
    ensures
      var w := |m| / 8;
      var tail := m[8 * w..];
      var word := PaddedBlock(m, rate)[8 * i..8 * i + 8];
      word == if i == w then
                (if i < rate - 1 then tail + [0x06] + Zeros(7 - |tail|)
                 else if |tail| == 7 then tail + [0x86]
                 else tail + [0x06] + Zeros(6 - |tail|) + [0x80])
              else if i == rate - 1 then Zeros(7) + [0x80]
              else Zeros(8)
  {
    hide PaddedBlock;
    hide Zeros;
    if i > |m| / 8 {
      SliceOfZeros(m, rate, i);
    } else if i < rate - 1 {
      SliceWithSuffix(m, rate);
    } else {
      SliceWithBoth(m, rate);
    }
  }

  lemma PaddedWord(m: seq<Byte>, rate: nat, i: nat)
    requires |m| < 8 * rate && |m| / 8 <= i < rate
    ensures Little(PaddedBlock(m, rate)[8 * i..8 * i + 8]) == LateWord(m, rate, i)
  {
    hide Xor;
    hide ByteAt;
    hide Little;
    hide PaddedBlock;
    hide Zeros;
    PaddedSlices(m, rate, i);
    var tail := m[|m| / 8 * 8..];
    SuffixInLastWord(tail);
    SuffixWord(tail);
    LastWord();
    ZeroWord();
  }

  /** The lanes that Finish passes to the permutation. */
  function FinishLane(s: State, m: seq<Byte>, rate: nat, i: nat): Lane
    requires i < 25
  {
    var w := |m| / 8;
    var u := XorLane(s, m[..8 * w], i);
    var v := if i == w then Xor(u, Xor(Little(m[8 * w..]), ByteAt(0x06, |m| % 8))) else u;
    if i == rate - 1 then Xor(v, TOP_BIT) else v
  }

  lemma PaddedLane(s: State, m: seq<Byte>, rate: nat, i: nat)
    requires |m| < 8 * rate && rate <= 25 && i < 25
    ensures XorLane(s, PaddedBlock(m, rate), i) == FinishLane(s, m, rate, i)
  {
    hide Little;
    hide Xor;
    hide ByteAt;
    var w := |m| / 8;
    if i < w {
      assert PaddedBlock(m, rate)[8 * i..8 * i + 8] == m[..8 * w][8 * i..8 * i + 8];
    } else if i < rate {
      PaddedWord(m, rate, i);
      XorFacts(s[i], Xor(Little(m[8 * w..]), ByteAt(0x06, |m| % 8)), TOP_BIT);
    }
  }

  lemma FinishPadsTheBlock(s: State, m: seq<Byte>, capacityWords: nat)
    requires capacityWords < 25 && |m| < 8 * (25 - capacityWords)
    ensures Partial(s, m, capacityWords).Valid()
    ensures Finish(Partial(s, m, capacityWords)) == KeccakF(XorWords(s, PaddedBlock(m, 25 - capacityWords)))
  {
    hide Little;
    hide Xor;
    hide ByteAt;
    hide KeccakF;
    hide XorLane;
    hide PaddedBlock;
    hide FitsIn;
    PartialIsValid(s, m, capacityWords);
    var rate := 25 - capacityWords;
    var c := Partial(s, m, capacityWords);
    var t := c.s[c.wordIndex := Xor(c.s[c.wordIndex], Xor(c.saved, ByteAt(0x06, c.byteIndex)))];
    var u := t[rate - 1 := Xor(t[rate - 1], TOP_BIT)];
    forall i | 0 <= i < 25
      ensures u[i] == XorWords(s, PaddedBlock(m, rate))[i]
    {
      PaddedLane(s, m, rate, i);
    }
    assert u == XorWords(s, PaddedBlock(m, rate));
  }

  lemma PaddingOfRest(n: nat, rate: nat)
    requires 0 < rate && n >= 8 * rate
    ensures Padding(n, rate) == Padding(n - 8 * rate, rate)
  {
    var r := 8 * rate;
    ModUnique(n, r, (n - r) / r + 1, (n - r) % r);
  }

  /** Streaming is the sponge: absorbing m byte by byte and finishing gives the state that the
      sponge of FIPS 202 reaches on the padded message. */
  lemma {:induction false} StreamingIsTheSponge(s: State, m: seq<Byte>, capacityWords: nat)
    requires capacityWords < 25
    ensures Finish(Absorb(Boundary(s, capacityWords), m)) ==
            SpongeAbsorb(s, m + Padding(|m|, 25 - capacityWords), 25 - capacityWords)
    decreases |m|
  {
    hide KeccakF;
    hide Padding;
    hide XorWords;
    hide Finish;
    hide Absorb;
    hide Partial;
    hide PaddedBlock;
    var rate := 25 - capacityWords;
    var r := 8 * rate;
    var p := m + Padding(|m|, rate);
    if |m| < r {
      AbsorbPartial(s, m, capacityWords);
      FinishPadsTheBlock(s, m, capacityWords);
      PaddingOfLast(m, rate);
      assert p[..r] == p && p[r..] == [];
    } else {
      var s' := KeccakF(XorWords(s, m[..r]));
      AbsorbBlock(s, m[..r], capacityWords);
      AbsorbConcat(Boundary(s, capacityWords), m[..r], m[r..]);
      assert m[..r] + m[r..] == m;
      StreamingIsTheSponge(s', m[r..], capacityWords);
      PaddingOfRest(|m|, rate);
      assert p[..r] == m[..r];
      assert p[r..] == m[r..] + Padding(|m| - r, rate);
    }
  }
}
