/** Blowfish, for any boxes, and its CBC mode. */
module Blowfish {
  import opened WordBlocks
  import opened BlockModes
  import opened BlockCalls

  /** The four S-boxes in a row, and the P-array. */
  datatype Keys = Keys(S: seq<Word>, P: seq<Word>)

  type Boxes = k: Keys | |k.S| == 1024 && |k.P| == 18
    witness Keys(seq(1024, _ => 0), seq(18, _ => 0))

  function Plus(a: Word, b: Word): Word { a + b }

  /** bf_F. */
  function F(k: Boxes, x: Word): Word {
    Plus(Xor(Plus(k.S[Byte0(x) as nat], k.S[256 + Byte1(x) as nat]), k.S[512 + Byte2(x) as nat]),
         k.S[768 + Byte3(x) as nat])
  }

  /** ROUND: one half takes up the other, mixed. */
  function Round(k: Boxes, a: Word, b: Word, n: nat): Word
    requires n < 18
  {
    Xor(a, Xor(F(k, b), k.P[n]))
  }

  /** yl and yr after the first n rounds of the encryption; odd rounds change
      yr, even ones yl. */
  function Rounds(k: Boxes, x: Block, n: nat): Block
    requires n <= 16
    decreases n
  {
    if n == 0 then Block(Xor(x.l, k.P[0]), x.r)
    else
      var y := Rounds(k, x, n - 1);
      if n % 2 == 1 then Block(y.l, Round(k, y.r, y.l, n)) else Block(Round(k, y.l, y.r, n), y.r)
  }

  lemma NoRounds(k: Boxes, x: Block)
    ensures Rounds(k, x, 0) == Block(Xor(x.l, k.P[0]), x.r)
  {
  }

  lemma TwoRounds(k: Boxes, x: Block, n: nat)
    requires n % 2 == 0 && n + 2 <= 16
    ensures var y := Rounds(k, x, n);
            var r := Round(k, y.r, y.l, n + 1);
            Rounds(k, x, n + 2) == Block(Round(k, y.l, r, n + 2), r)
  {
    assert Rounds(k, x, n + 1).l == Rounds(k, x, n).l;
  }

  /** blowfish_encrypt. */
  function Encipher(k: Boxes, x: Block): Block {
    var y := Rounds(k, x, 16);
    Block(Xor(y.r, k.P[17]), y.l)
  }

  /** yl and yr of the decryption when n rounds are still to be undone. */
  function Undone(k: Boxes, x: Block, n: nat): Block
    requires n <= 16
    decreases 16 - n
  {
    if n == 16 then Block(Xor(x.l, k.P[17]), x.r)
    else
      var y := Undone(k, x, n + 1);
      if n % 2 == 1 then Block(y.l, Round(k, y.r, y.l, n + 1)) else Block(Round(k, y.l, y.r, n + 1), y.r)
  }

  /** blowfish_decrypt. */
  function Decipher(k: Boxes, x: Block): Block {
    var y := Undone(k, x, 0);
    Block(Xor(y.r, k.P[0]), y.l)
  }

  lemma RoundTwice(k: Boxes, a: Word, b: Word, n: nat)
    requires n < 18
    ensures Round(k, Round(k, a, b, n), b, n) == a
  {
    hide F;
    XorTwice(a, Xor(F(k, b), k.P[n]));
  }

  /** Decryption goes through the states of the encryption backwards, with the
      halves exchanged. */
  lemma {:induction false} Backwards(k: Boxes, x: Block, n: nat)
    requires n <= 16
    ensures var y := Rounds(k, x, n); Undone(k, Encipher(k, x), n) == Block(y.r, y.l)
    decreases 16 - n
  {
    hide Round;
    hide Xor;
    hide F;
    if n == 16 {
      XorTwice(Rounds(k, x, 16).r, k.P[17]);
    } else {
      Backwards(k, x, n + 1);
      hide Encipher;
      var y := Rounds(k, x, n);
      if n % 2 == 1 {
        RoundTwice(k, y.l, y.r, n + 1);
      } else {
        RoundTwice(k, y.r, y.l, n + 1);
      }
    }
  }

  /** Decryption undoes encryption, whatever is in the boxes. */
  lemma DecipherUndoes(k: Boxes, x: Block)
    ensures Decipher(k, Encipher(k, x)) == x
  {
    hide Round;
    hide Xor;
    Backwards(k, x, 0);
    XorTwice(x.l, k.P[0]);
  }

  // ---------- the cipher as it is defined ----------

  /** F on the four bytes of a word, the most significant one first: each has
      a box of its own. */
  lemma FOfBytes(k: Boxes, a: Byte, b: Byte, c: Byte, d: Byte)
    ensures F(k, Joined(a, b, c, d)) ==
            Plus(Xor(Plus(k.S[a as nat], k.S[256 + b as nat]), k.S[512 + c as nat]), k.S[768 + d as nat])
  {
    hide Joined;
    BytesJoined(a, b, c, d);
  }

  /** The halves after i rounds, each of which mixes a subkey into the left
      half, F of that into the right half, and exchanges the two. */
  function Feistel(k: Boxes, x: Block, i: nat): Block
    requires i <= 16
  {
    if i == 0 then x
    else
      var y := Feistel(k, x, i - 1);
      var l := Xor(y.l, k.P[i - 1]);
      Block(Xor(y.r, F(k, l)), l)
  }

  /** The last exchange is undone, and the last two subkeys are mixed in. */
  function Defined(k: Boxes, x: Block): Block {
    var y := Feistel(k, x, 16);
    Block(Xor(y.r, k.P[17]), Xor(y.l, k.P[16]))
  }

  lemma XorMoves(a: Word, b: Word, c: Word)
    ensures Xor(a, Xor(b, c)) == Xor(Xor(a, b), c)
  {
  }

  /** The unrolled rounds are two rounds of it at a time, with the next subkey
      already mixed in. */
  lemma {:induction false} RoundsAreFeistel(k: Boxes, x: Block, n: nat)
    requires n <= 16 && n % 2 == 0
    ensures Rounds(k, x, n) == Block(Xor(Feistel(k, x, n).l, k.P[n]), Feistel(k, x, n).r)
  {
    hide F;
    hide Xor;
    if n > 0 {
      RoundsAreFeistel(k, x, n - 2);
      var y := Feistel(k, x, n - 2);
      var l := Xor(y.l, k.P[n - 2]);
      var y1 := Feistel(k, x, n - 1);
      assert y1 == Block(Xor(y.r, F(k, l)), l);
      XorMoves(y.r, F(k, l), k.P[n - 1]);
      var l1 := Xor(y1.l, k.P[n - 1]);
      assert Rounds(k, x, n - 1) == Block(l, l1);
      XorMoves(l, F(k, l1), k.P[n]);
    }
  }

  /** blowfish_encrypt computes the cipher. */
  lemma EncipherIsDefined(k: Boxes, x: Block)
    ensures Encipher(k, x) == Defined(k, x)
  {
    RoundsAreFeistel(k, x, 16);
  }

  /** In CBC a block of cipher text depends on the plain text and the block
      before only through their XOR, and not on less; and what is changed in
      one block of cipher text is changed in the next block of plain text. */
  lemma CbcChains(k: Boxes, iv: Block, p: Block, iv': Block, p': Block, d: Block, c: Block)
    ensures Cbc(k).step(iv, p) == Cbc(k).step(iv', p') <==> XorBlock(iv, p) == XorBlock(iv', p')
    ensures Cbc(k).back(XorBlock(iv, d), c) == XorBlock(Cbc(k).back(iv, c), d)
  {
    hide Encipher;
    hide Decipher;
    DecipherUndoes(k, XorBlock(iv, p));
    DecipherUndoes(k, XorBlock(iv', p'));
    XorBlockMoves(iv, d, Decipher(k, c));
  }

  lemma XorBlockMoves(a: Block, d: Block, b: Block)
    ensures XorBlock(XorBlock(a, d), b) == XorBlock(XorBlock(a, b), d)
  {
    XorExchanges(a.l, d.l, b.l);
    XorExchanges(a.r, d.r, b.r);
  }

  lemma XorExchanges(a: Word, d: Word, b: Word)
    ensures Xor(Xor(a, d), b) == Xor(Xor(a, b), d)
  {
    hide Xor;
    XorMoves(a, d, b);
    XorMoves(a, b, d);
    XorCommutes(d, b);
  }

  lemma XorCommutes(a: Word, b: Word)
    ensures Xor(a, b) == Xor(b, a)
  {
  }

  /** The chaining of blowfish_cbc_encrypt and blowfish_cbc_decrypt. */
  function Cbc(k: Boxes): Mode {
    Mode(true,
         (iv: Block, p: Block) => Encipher(k, XorBlock(iv, p)),
         (iv: Block, c: Block) => XorBlock(iv, Decipher(k, c)))
  }

  lemma IsCbc(k: Boxes)
    ensures Cbc(k).lsb
  {
  }

  lemma CbcUndoes(k: Boxes)
    ensures Undoes(Cbc(k))
  {
    hide Encipher;
    hide Decipher;
    forall iv: Block, p: Block
      ensures Cbc(k).back(iv, Cbc(k).step(iv, p)) == p
    {
      DecipherUndoes(k, XorBlock(iv, p));
      XorBlockTwice(iv, p);
    }
  }

  /** Decrypting what was encrypted gives the text back and leaves the same
      iv, for every key and every text of whole blocks. */
  lemma CbcRoundTrip(k: Boxes, iv: Block, src: seq<Byte>, coded: seq<Byte>)
    requires |src| % 8 == 0 && |coded| == |src| && Encrypts(Cbc(k), iv, src, coded, |src|)
    ensures forall j: nat :: j < |src| ==> Decrypted(Cbc(k), iv, coded, j) == src[j]
    ensures Last(Cbc(k), iv, coded, Blocks(|src|)) == Chain(Cbc(k), iv, src, Blocks(|src|))
  {
    hide Cbc;
    CbcUndoes(k);
    forall j: nat | j < |src|
      ensures Decrypted(Cbc(k), iv, coded, j) == src[j]
    {
      RoundTrip(Cbc(k), iv, src, coded, |src|, j);
    }
    SameIv(Cbc(k), iv, src, coded, |src|);
  }

  /** So it does however both sides cut the texts into calls. */
  lemma CbcCallsRoundTrip(k: Boxes, iv: Block, sent: seq<Call>, received: seq<Call>)
    requires Chained(sent) && Chained(received) && |Text(sent)| % 8 == 0
    requires Text(received) == EncryptCalls(Cbc(k), iv, sent)
    ensures DecryptCalls(Cbc(k), iv, received) == Text(sent)
  {
    hide Cbc;
    CbcUndoes(k);
    CallsRoundTrip(Cbc(k), iv, sent, received);
  }

  /** What one call writes, another one reads back. */
  lemma CbcTextRoundTrip(k: Boxes, iv: Block, src: seq<Byte>, coded: seq<Byte>, len: nat)
    requires len % 8 == 0 && 8 * Blocks(len) <= |src| && 8 * Blocks(len) <= |coded|
    requires coded[..len] == EncryptText(Cbc(k), iv, src, len)
    ensures DecryptText(Cbc(k), iv, coded, len) == src[..len]
    ensures Last(Cbc(k), iv, coded, Blocks(len)) == Chain(Cbc(k), iv, src, Blocks(len))
  {
    hide Encrypted;
    hide Decrypted;
    hide Cbc;
    var m := Cbc(k);
    CbcUndoes(k);
    forall j: nat | j < len
      ensures coded[j] == Encrypted(m, iv, src, j)
    {
      assert coded[..len][j] == coded[j];
    }
    forall j: nat | j < len
      ensures Decrypted(m, iv, coded, j) == src[j]
    {
      RoundTrip(m, iv, src, coded, len, j);
    }
    SameIv(m, iv, src, coded, len);
  }

  class Context {
    var keys: Boxes
    const iv: array<Byte>

    constructor (keys: Boxes)
      ensures this.keys == keys && iv.Length == 8 && fresh(iv)
    {
      this.keys := keys;
      iv := new Byte[8];
    }

    /** blowfish_encrypt. */
    method EncryptBlock(x: Block) returns (out: Block)
      ensures out == Encipher(keys, x)
    {
      hide Round;
      hide Xor;
      hide Rounds;
      var k := keys;
      NoRounds(k, x);
      var yl, yr := x.l, x.r;
      yl := Xor(yl, k.P[0]);
      yr := Round(k, yr, yl, 1);
      yl := Round(k, yl, yr, 2);
      TwoRounds(k, x, 0);
      yr := Round(k, yr, yl, 3);
      yl := Round(k, yl, yr, 4);
      TwoRounds(k, x, 2);
      yr := Round(k, yr, yl, 5);
      yl := Round(k, yl, yr, 6);
      TwoRounds(k, x, 4);
      yr := Round(k, yr, yl, 7);
      yl := Round(k, yl, yr, 8);
      TwoRounds(k, x, 6);
      yr := Round(k, yr, yl, 9);
      yl := Round(k, yl, yr, 10);
      TwoRounds(k, x, 8);
      yr := Round(k, yr, yl, 11);
      yl := Round(k, yl, yr, 12);
      TwoRounds(k, x, 10);
      yr := Round(k, yr, yl, 13);
      yl := Round(k, yl, yr, 14);
      TwoRounds(k, x, 12);
      yr := Round(k, yr, yl, 15);
      yl := Round(k, yl, yr, 16);
      TwoRounds(k, x, 14);
      yr := Xor(yr, k.P[17]);
      out := Block(yr, yl);
    }

    /** blowfish_decrypt. */
    method DecryptBlock(x: Block) returns (out: Block)
      ensures out == Decipher(keys, x)
    {
      hide Round;
      hide Xor;
      var k := keys;
      var yl, yr := x.l, x.r;
      yl := Xor(yl, k.P[17]);
      yr := Round(k, yr, yl, 16);
      yl := Round(k, yl, yr, 15);
      assert Block(yl, yr) == Undone(k, x, 14);
      yr := Round(k, yr, yl, 14);
      yl := Round(k, yl, yr, 13);
      assert Block(yl, yr) == Undone(k, x, 12);
      yr := Round(k, yr, yl, 12);
      yl := Round(k, yl, yr, 11);
      assert Block(yl, yr) == Undone(k, x, 10);
      yr := Round(k, yr, yl, 10);
      yl := Round(k, yl, yr, 9);
      assert Block(yl, yr) == Undone(k, x, 8);
      yr := Round(k, yr, yl, 8);
      yl := Round(k, yl, yr, 7);
      assert Block(yl, yr) == Undone(k, x, 6);
      yr := Round(k, yr, yl, 6);
      yl := Round(k, yl, yr, 5);
      assert Block(yl, yr) == Undone(k, x, 4);
      yr := Round(k, yr, yl, 4);
      yl := Round(k, yl, yr, 3);
      assert Block(yl, yr) == Undone(k, x, 2);
      yr := Round(k, yr, yl, 2);
      yl := Round(k, yl, yr, 1);
      assert Block(yl, yr) == Undone(k, x, 0);
      yr := Xor(yr, k.P[0]);
      out := Block(yr, yl);
    }

    /** blowfish_cbc_encrypt; dst may be src. */
    method CbcEncrypt(dst: array<Byte>, src: array<Byte>, len: nat)
      requires len % 8 == 0 && iv.Length == 8 && iv != dst && iv != src
      requires 8 * Blocks(len) <= src.Length && len <= dst.Length
      modifies iv, dst
      ensures EncryptedTo(Cbc(keys), BlockAt(true, old(iv[..]), 0), old(src[..]), dst, old(dst[..]), len)
      ensures iv[..] == BlockBytes(true, Chain(Cbc(keys), BlockAt(true, old(iv[..]), 0), old(src[..]), Blocks(len)))
    {
      IsCbc(keys);
      hide *;
      Encrypt(Cbc(keys), iv, dst, src, len);
    }

    /** blowfish_cbc_decrypt; dst may be src. */
    method CbcDecrypt(dst: array<Byte>, src: array<Byte>, len: nat)
      requires len % 8 == 0 && iv.Length == 8 && iv != dst && iv != src
      requires 8 * Blocks(len) <= src.Length && len <= dst.Length
      modifies iv, dst
      ensures DecryptedTo(Cbc(keys), BlockAt(true, old(iv[..]), 0), old(src[..]), dst, old(dst[..]), len)
      ensures iv[..] == BlockBytes(true, Last(Cbc(keys), BlockAt(true, old(iv[..]), 0), old(src[..]), Blocks(len)))
    {
      IsCbc(keys);
      hide *;
      Decrypt(Cbc(keys), iv, dst, src, len);
    }
  }

  /** The two methods, one after the other, on any buffers: the receiver has
      the text again, and both contexts go on with the same iv. */
  method EncryptThenDecrypt(sender: Context, receiver: Context, text: array<Byte>, wire: array<Byte>, out: array<Byte>,
                            len: nat)
    requires len % 8 == 0 && sender.keys == receiver.keys
    requires sender.iv.Length == 8 && receiver.iv.Length == 8 && sender.iv != receiver.iv
    requires sender.iv[..] == receiver.iv[..]
    requires sender.iv != text && sender.iv != wire && sender.iv != out
    requires receiver.iv != text && receiver.iv != wire && receiver.iv != out
    requires 8 * Blocks(len) <= text.Length && 8 * Blocks(len) <= wire.Length && len <= out.Length
    modifies sender.iv, receiver.iv, wire, out
    ensures out[..len] == old(text[..len]) && sender.iv[..] == receiver.iv[..]
  {
    hide *;
    ghost var k := sender.keys;
    ghost var m, iv, s, d0 := Cbc(k), BlockAt(true, sender.iv[..], 0), text[..], wire[..];
    sender.CbcEncrypt(wire, text, len);
    LoopsWriteText(m, iv, s, wire, d0, len);
    ghost var coded, o0 := wire[..], out[..];
    assert coded[..len] == EncryptText(m, iv, s, len);
    CbcTextRoundTrip(k, iv, s, coded, len);
    receiver.CbcDecrypt(out, wire, len);
    LoopsWriteText(m, iv, coded, out, o0, len);
    assert s[..len] == old(text[..len]);
  }
}
