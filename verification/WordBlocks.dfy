/** Blocks of two 32-bit words as ciphers see them, and as bytes. */
module WordBlocks {
  type Byte = bv8
  type Word = bv32

  function Byte0(w: Word): Byte { (w >> 24) as bv8 }

  function Byte1(w: Word): Byte { ((w >> 16) & 0xff) as bv8 }

  function Byte2(w: Word): Byte { ((w >> 8) & 0xff) as bv8 }

  function Byte3(w: Word): Byte { (w & 0xff) as bv8 }

  function Joined(b0: Byte, b1: Byte, b2: Byte, b3: Byte): Word {
    ((b0 as bv32) << 24) | ((b1 as bv32) << 16) | ((b2 as bv32) << 8) | (b3 as bv32)
  }

  lemma JoinedBytes(w: Word)
    ensures Joined(Byte0(w), Byte1(w), Byte2(w), Byte3(w)) == w
  {
  }

  lemma BytesJoined(b0: Byte, b1: Byte, b2: Byte, b3: Byte)
    ensures Byte0(Joined(b0, b1, b2, b3)) == b0 && Byte1(Joined(b0, b1, b2, b3)) == b1
    ensures Byte2(Joined(b0, b1, b2, b3)) == b2 && Byte3(Joined(b0, b1, b2, b3)) == b3
  {
  }

  function Xor(a: Word, b: Word): Word { a ^ b }

  function XorByte(a: Byte, b: Byte): Byte { a ^ b }

  lemma XorByte0(a: Word, b: Word)
    ensures Byte0(Xor(a, b)) == XorByte(Byte0(a), Byte0(b))
  {
  }

  lemma XorByte1(a: Word, b: Word)
    ensures Byte1(Xor(a, b)) == XorByte(Byte1(a), Byte1(b))
  {
  }

  lemma XorByte2(a: Word, b: Word)
    ensures Byte2(Xor(a, b)) == XorByte(Byte2(a), Byte2(b))
  {
  }

  lemma XorByte3(a: Word, b: Word)
    ensures Byte3(Xor(a, b)) == XorByte(Byte3(a), Byte3(b))
  {
  }

  lemma XorTwice(a: Word, b: Word)
    ensures Xor(a, Xor(a, b)) == b && Xor(Xor(a, b), b) == a && Xor(Xor(a, b), a) == b
  {
  }

  lemma XorByteTwice(a: Byte, b: Byte)
    ensures XorByte(a, XorByte(a, b)) == b
  {
  }

  datatype Block = Block(l: Word, r: Word)

  function XorBlock(a: Block, b: Block): Block { Block(Xor(a.l, b.l), Xor(a.r, b.r)) }

  /** The word in the four bytes from place i on: the first byte is the most
      significant one, or with `lsb` the least significant one. */
  function GetWord(lsb: bool, s: seq<Byte>, i: nat): Word
    requires i + 4 <= |s|
  {
    if lsb then Joined(s[i + 3], s[i + 2], s[i + 1], s[i]) else Joined(s[i], s[i + 1], s[i + 2], s[i + 3])
  }

  /** The first byte is the most significant one of the word, or with `lsb` the
      least significant one. */
  lemma GetWordBytes(lsb: bool, s: seq<Byte>, i: nat)
    requires i + 4 <= |s|
    ensures var w := GetWord(lsb, s, i);
            if lsb then Byte0(w) == s[i + 3] && Byte1(w) == s[i + 2] && Byte2(w) == s[i + 1] && Byte3(w) == s[i]
            else Byte0(w) == s[i] && Byte1(w) == s[i + 1] && Byte2(w) == s[i + 2] && Byte3(w) == s[i + 3]
  {
    hide Joined;
    hide Byte0;
    hide Byte1;
    hide Byte2;
    hide Byte3;
    BytesJoined(s[i], s[i + 1], s[i + 2], s[i + 3]);
    BytesJoined(s[i + 3], s[i + 2], s[i + 1], s[i]);
  }

  function WordBytes(lsb: bool, w: Word): (s: seq<Byte>)
    ensures |s| == 4
  {
    if lsb then [Byte3(w), Byte2(w), Byte1(w), Byte0(w)] else [Byte0(w), Byte1(w), Byte2(w), Byte3(w)]
  }

  /** Block k of a text. */
  function BlockAt(lsb: bool, s: seq<Byte>, k: nat): Block
    requires 8 * k + 8 <= |s|
  {
    Block(GetWord(lsb, s, 8 * k), GetWord(lsb, s, 8 * k + 4))
  }

  function BlockBytes(lsb: bool, b: Block): (s: seq<Byte>)
    ensures |s| == 8
  {
    WordBytes(lsb, b.l) + WordBytes(lsb, b.r)
  }

  lemma WordRoundTrip(lsb: bool, s: seq<Byte>, i: nat)
    requires i + 4 <= |s|
    ensures WordBytes(lsb, GetWord(lsb, s, i)) == s[i..i + 4]
  {
    if lsb {
      BytesJoined(s[i + 3], s[i + 2], s[i + 1], s[i]);
    } else {
      BytesJoined(s[i], s[i + 1], s[i + 2], s[i + 3]);
    }
  }

  lemma BlockRoundTrip(lsb: bool, s: seq<Byte>, k: nat)
    requires 8 * k + 8 <= |s|
    ensures BlockBytes(lsb, BlockAt(lsb, s, k)) == s[8 * k..8 * k + 8]
  {
    hide WordBytes;
    hide GetWord;
    WordRoundTrip(lsb, s, 8 * k);
    WordRoundTrip(lsb, s, 8 * k + 4);
  }

  lemma WordFromBytes(lsb: bool, s: seq<Byte>, i: nat, w: Word)
    requires i + 4 <= |s| && s[i..i + 4] == WordBytes(lsb, w)
    ensures GetWord(lsb, s, i) == w
  {
    JoinedBytes(w);
    assert s[i] == s[i..i + 4][0] && s[i + 1] == s[i..i + 4][1];
    assert s[i + 2] == s[i..i + 4][2] && s[i + 3] == s[i..i + 4][3];
  }

  lemma BlockFromBytes(lsb: bool, s: seq<Byte>, k: nat, b: Block)
    requires 8 * k + 8 <= |s| && s[8 * k..8 * k + 8] == BlockBytes(lsb, b)
    ensures BlockAt(lsb, s, k) == b
  {
    hide WordBytes;
    hide GetWord;
    var t := s[8 * k..8 * k + 8];
    assert s[8 * k..8 * k + 4] == t[..4];
    assert s[8 * k + 4..8 * k + 8] == t[4..];
    WordFromBytes(lsb, s, 8 * k, b.l);
    WordFromBytes(lsb, s, 8 * k + 4, b.r);
  }

  lemma XorWordBytes(lsb: bool, a: Word, b: Word, i: nat)
    requires i < 4
    ensures WordBytes(lsb, Xor(a, b))[i] == XorByte(WordBytes(lsb, a)[i], WordBytes(lsb, b)[i])
  {
    hide *;
    WordByteAt(lsb, a, i);
    WordByteAt(lsb, b, i);
    WordByteAt(lsb, Xor(a, b), i);
    XorByteAt(a, b, if lsb then 3 - i else i);
  }

  function ByteAt(w: Word, i: nat): Byte
    requires i < 4
  {
    if i == 0 then Byte0(w) else if i == 1 then Byte1(w) else if i == 2 then Byte2(w) else Byte3(w)
  }

  lemma WordByteAt(lsb: bool, w: Word, i: nat)
    requires i < 4
    ensures WordBytes(lsb, w)[i] == ByteAt(w, if lsb then 3 - i else i)
  {
    hide Byte0;
    hide Byte1;
    hide Byte2;
    hide Byte3;
  }

  lemma XorByteAt(a: Word, b: Word, i: nat)
    requires i < 4
    ensures ByteAt(Xor(a, b), i) == XorByte(ByteAt(a, i), ByteAt(b, i))
  {
    XorByte0(a, b);
    XorByte1(a, b);
    XorByte2(a, b);
    XorByte3(a, b);
  }

  lemma XorBlockBytes(lsb: bool, a: Block, b: Block, i: nat)
    requires i < 8
    ensures BlockBytes(lsb, XorBlock(a, b))[i] == XorByte(BlockBytes(lsb, a)[i], BlockBytes(lsb, b)[i])
  {
    hide WordBytes;
    if i < 4 {
      XorWordBytes(lsb, a.l, b.l, i);
    } else {
      XorWordBytes(lsb, a.r, b.r, i - 4);
    }
  }

  lemma XorBlockTwice(a: Block, b: Block)
    ensures XorBlock(a, XorBlock(a, b)) == b && XorBlock(XorBlock(a, b), a) == b
  {
    XorTwice(a.l, b.l);
    XorTwice(a.r, b.r);
  }

  /** Four bytes of an array hold a word. */
  method PutWord(lsb: bool, a: array<Byte>, i: nat, w: Word)
    requires i + 4 <= a.Length
    modifies a
    ensures forall k: nat :: k < a.Length ==> a[k] == if i <= k < i + 4 then WordBytes(lsb, w)[k - i] else old(a[k])
  {
    var s := WordBytes(lsb, w);
    a[i], a[i + 1], a[i + 2], a[i + 3] := s[0], s[1], s[2], s[3];
  }

  method PutBlock(lsb: bool, a: array<Byte>, i: nat, b: Block)
    requires i + 8 <= a.Length
    modifies a
    ensures forall k: nat :: k < a.Length ==> a[k] == if i <= k < i + 8 then BlockBytes(lsb, b)[k - i] else old(a[k])
  {
    hide WordBytes;
    PutWord(lsb, a, i, b.l);
    PutWord(lsb, a, i + 4, b.r);
  }
}
