/** The hash context of sha3.c, updated in place. */
module Sha3 {
  import opened Keccak
  import opened Sponge
  import opened Streaming

  class Sha3Context {
    var saved: Lane
    var s: array<Lane>
    var byteIndex: nat
    var wordIndex: nat
    var capacityWords: nat

    ghost predicate Valid()
      reads this, s
    {
      s.Length == 25 && View().Valid()
    }

    ghost function View(): Ctx
      requires s.Length == 25
      reads this, s
    {
      Ctx(saved, s[..], byteIndex, wordIndex, capacityWords)
    }

    constructor Init256()
      ensures Valid() && fresh(s) && View() == Init(8)
    {
      saved, byteIndex, wordIndex := 0, 0, 0;
      capacityWords := 2 * 256 / (8 * 8);
      s := new Lane[25](_ => 0);
      new;
      assert s[..] == ZeroState();
    }

    constructor Init384()
      ensures Valid() && fresh(s) && View() == Init(12)
    {
      saved, byteIndex, wordIndex := 0, 0, 0;
      capacityWords := 2 * 384 / (8 * 8);
      s := new Lane[25](_ => 0);
      new;
      assert s[..] == ZeroState();
    }

    constructor Init512()
      ensures Valid() && fresh(s) && View() == Init(16)
    {
      saved, byteIndex, wordIndex := 0, 0, 0;
      capacityWords := 2 * 512 / (8 * 8);
      s := new Lane[25](_ => 0);
      new;
      assert s[..] == ZeroState();
    }

    /** The loop that ors bytes into `saved`. */
    method SaveBytes(bs: seq<Byte>)
      requires s.Length == 25 && byteIndex + |bs| <= 8
      modifies this`saved, this`byteIndex
      ensures byteIndex == old(byteIndex) + |bs|
      ensures saved == MergeAll(old(saved), bs, old(byteIndex))
    {
      hide Merge;
      for i := 0 to |bs|
        invariant byteIndex == old(byteIndex) + i
        invariant saved == MergeAll(old(saved), bs[..i], old(byteIndex))
      {
        assert bs[..i + 1][..i] == bs[..i];
        saved := Merge(saved, bs[i], byteIndex);
        byteIndex := byteIndex + 1;
      }
      assert bs[..|bs|] == bs;
    }

    /** Adds a word to the sponge, and permutes when the block is full. */
    method TakeWord(word: Lane)
      requires s.Length == 25 && wordIndex + capacityWords < 25
      modifies this`wordIndex, s
      ensures Ctx(0, s[..], 0, wordIndex, capacityWords) ==
              AddWord(Ctx(0, old(s[..]), 0, old(wordIndex), capacityWords), word)
    {
      hide Xor;
      hide KeccakF;
      ghost var before := s[..];
      s[wordIndex] := Xor(s[wordIndex], word);
      assert s[..] == before[wordIndex := Xor(before[wordIndex], word)];
      wordIndex := wordIndex + 1;
      if wordIndex == 25 - capacityWords {
        KeccakInPlace(s);
        wordIndex := 0;
      }
    }

    method CompleteWord(bs: seq<Byte>)
      requires Valid() && byteIndex + |bs| == 8
      modifies this`saved, this`byteIndex, this`wordIndex, s
      ensures Valid() && View() == Absorb(old(View()), bs) && byteIndex == 0 && saved == 0
    {
      hide KeccakF;
      hide AddWord;
      hide Absorb;
      ghost var c := View();
      SaveBytes(bs);
      AbsorbRestOfWord(c, bs);
      AddWordIgnoresSaved(c, saved);
      TakeWord(saved);
      byteIndex := 0;
      saved := 0;
    }

    /** The loop that takes whole words straight from the buffer. */
    method TakeWords(bs: seq<Byte>)
      requires Valid() && byteIndex == 0 && saved == 0 && |bs| % 8 == 0
      modifies this`wordIndex, s
      ensures Valid() && View() == Absorb(old(View()), bs)
    {
      hide KeccakF;
      hide AddWord;
      hide AbsorbByte;
      hide WordAt;
      ghost var c := View();
      var words := |bs| / 8;
      for i := 0 to words
        invariant Valid() && View() == Absorb(c, bs[..8 * i])
      {
        var chunk := bs[8 * i..8 * i + 8];
        assert bs[..8 * i + 8] == bs[..8 * i] + chunk;
        AbsorbConcat(c, bs[..8 * i], chunk);
        AbsorbRestOfWord(View(), chunk);
        WordAtIsMergeAll(chunk);
        WordAtIsOr(chunk);
        var t := (bs[8 * i] as Lane) | ((bs[8 * i + 1] as Lane) << 8)
          | ((bs[8 * i + 2] as Lane) << 16) | ((bs[8 * i + 3] as Lane) << 24)
          | ((bs[8 * i + 4] as Lane) << 32) | ((bs[8 * i + 5] as Lane) << 40)
          | ((bs[8 * i + 6] as Lane) << 48) | ((bs[8 * i + 7] as Lane) << 56);
        TakeWord(t);
      }
      assert bs[..8 * words] == bs;
    }

    /** Absorbs a buffer: first the bytes that complete a started word, then whole words straight from
        the buffer, then the bytes that start the next word. */
    method Update(buf: seq<Byte>)
      requires Valid()
      modifies this`saved, this`byteIndex, this`wordIndex, s
      ensures Valid() && View() == Absorb(old(View()), buf)
    {
      hide Absorb;
      hide MergeAll;
      ghost var c := View();
      var oldTail := (8 - byteIndex) % 8;
      if |buf| < oldTail {
        AbsorbInsideWord(c, buf);
        SaveBytes(buf);
        return;
      }
      if oldTail > 0 {
        CompleteWord(buf[..oldTail]);
      } else {
        AbsorbNothing(c);
        assert buf[..oldTail] == [];
      }
      AbsorbConcat(c, buf[..oldTail], buf[oldTail..]);
      assert buf[..oldTail] + buf[oldTail..] == buf;
      UpdateFromWordBoundary(buf[oldTail..]);
    }

    method UpdateFromWordBoundary(buf: seq<Byte>)
      requires Valid() && byteIndex == 0
      modifies this`saved, this`byteIndex, this`wordIndex, s
      ensures Valid() && View() == Absorb(old(View()), buf)
    {
      hide Absorb;
      hide MergeAll;
      ghost var c := View();
      var words := |buf| / 8;
      TakeWords(buf[..8 * words]);
      AbsorbConcat(c, buf[..8 * words], buf[8 * words..]);
      assert buf[..8 * words] + buf[8 * words..] == buf;
      AbsorbInsideWord(View(), buf[8 * words..]);
      SaveBytes(buf[8 * words..]);
    }

    /** Pads the last block, permutes, and returns the state as bytes. */
    method Finalize() returns (sb: array<Byte>)
      requires Valid()
      modifies s
      ensures fresh(sb) && sb[..] == StateBytes(Finish(old(View())))
      ensures s[..] == Finish(old(View()))
    {
      hide Xor;
      hide KeccakF;
      hide ByteAt;
      ghost var c := View();
      s[wordIndex] := Xor(s[wordIndex], Xor(saved, ByteAt(0x06, byteIndex)));
      ghost var t := c.s[c.wordIndex := Xor(c.s[c.wordIndex], Xor(c.saved, ByteAt(0x06, c.byteIndex)))];
      assert s[..] == t;
      s[25 - capacityWords - 1] := Xor(s[25 - capacityWords - 1], TOP_BIT);
      assert s[..] == t[c.Rate() - 1 := Xor(t[c.Rate() - 1], TOP_BIT)];
      KeccakInPlace(s);
      sb := Bytes(s);
    }
  }

  /** The conversion loop of Finalize. */
  method Bytes(s: array<Lane>) returns (sb: array<Byte>)
    requires s.Length == 25
    ensures fresh(sb) && sb[..] == StateBytes(s[..])
  {
    hide LaneByte;
    sb := new Byte[200];
    for i := 0 to 25
      invariant forall p :: 0 <= p < 8 * i ==> sb[p] == LaneByte(s[p / 8], p % 8)
    {
      StoreWord(sb, i, s[i]);
    }
    assert sb[..] == StateBytes(s[..]);
  }

  method StoreWord(sb: array<Byte>, i: nat, x: Lane)
    requires sb.Length == 200 && i < 25
    modifies sb
    ensures forall p :: 0 <= p < 200 && p / 8 != i ==> sb[p] == old(sb[p])
    ensures forall p :: 0 <= p < 200 && p / 8 == i ==> sb[p] == LaneByte(x, p % 8)
  {
    hide LaneByte;
    hide HalfByte;
    sb[i * 8 + 0] := HalfByte(x, 0);
    sb[i * 8 + 1] := HalfByte(x, 1);
    sb[i * 8 + 2] := HalfByte(x, 2);
    sb[i * 8 + 3] := HalfByte(x, 3);
    sb[i * 8 + 4] := HalfByte(x, 4);
    sb[i * 8 + 5] := HalfByte(x, 5);
    sb[i * 8 + 6] := HalfByte(x, 6);
    sb[i * 8 + 7] := HalfByte(x, 7);
    forall k: nat | k < 8
      ensures HalfByte(x, k) == LaneByte(x, k)
    {
      HalfByteIsLaneByte(x, k);
    }
  }

  /** Byte k of a word, taken from its lower or its upper half. */
  function HalfByte(x: Lane, k: nat): Byte
    requires k < 8
  {
    var t1 := (x & 0xffffffff) as bv32;
    var t2 := (((x >> 16) >> 16) & 0xffffffff) as bv32;
    match k
    case 0 => (t1 & 0xff) as Byte
    case 1 => ((t1 >> 8) & 0xff) as Byte
    case 2 => ((t1 >> 16) & 0xff) as Byte
    case 3 => ((t1 >> 24) & 0xff) as Byte
    case 4 => (t2 & 0xff) as Byte
    case 5 => ((t2 >> 8) & 0xff) as Byte
    case 6 => ((t2 >> 16) & 0xff) as Byte
    case 7 => ((t2 >> 24) & 0xff) as Byte
  }

  lemma HalfByteIsLaneByte(x: Lane, k: nat)
    requires k < 8
    ensures HalfByte(x, k) == LaneByte(x, k)
  {
  }

  function Flatten(chunks: seq<seq<Byte>>): seq<Byte> {
    if chunks == [] then [] else Flatten(chunks[..|chunks| - 1]) + chunks[|chunks| - 1]
  }

  /** SHA3-256 of a message handed over in any pieces. */
  method Hash256(chunks: seq<seq<Byte>>) returns (h: seq<Byte>)
    ensures h == Sha3_256(Flatten(chunks))
  {
    var c := new Sha3Context.Init256();
    assert Absorb(Init(8), Flatten(chunks[..0])) == Init(8);
    hide Absorb;
    hide Finish;
    hide SpongeAbsorb;
    for i := 0 to |chunks|
      invariant c.Valid() && c.View() == Absorb(Init(8), Flatten(chunks[..i]))
      invariant fresh(c) && fresh(c.s)
    {
      c.Update(chunks[i]);
      assert chunks[..i + 1][..i] == chunks[..i];
      AbsorbConcat(Init(8), Flatten(chunks[..i]), chunks[i]);
    }
    assert chunks[..|chunks|] == chunks;
    StreamingIsTheSponge(ZeroState(), Flatten(chunks), 8);
    var sb := c.Finalize();
    h := sb[..32];
  }
}
