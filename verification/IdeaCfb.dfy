/** IDEA in CFB mode. Only the forward direction of the cipher is used, and
    nothing is asked of it. */
module IdeaCfb {
  import opened WordBlocks
  import opened BlockModes
  import opened BlockCalls

  /** The chaining of idea_cfb_encrypt and idea_cfb_decrypt. */
  function Cfb(cipher: Block -> Block): Mode {
    Mode(false,
         (iv: Block, p: Block) => XorBlock(cipher(iv), p),
         (iv: Block, c: Block) => XorBlock(cipher(iv), c))
  }

  /** In CFB the plain text is XORed with the cipher of the block before: of
      zeros that cipher is left, and a change in the one is a change in the
      other, in both directions. */
  lemma CfbChains(cipher: Block -> Block, iv: Block, x: Block, d: Block)
    ensures Cfb(cipher).step(iv, Block(0, 0)) == cipher(iv)
    ensures Cfb(cipher).step(iv, XorBlock(x, d)) == XorBlock(Cfb(cipher).step(iv, x), d)
    ensures Cfb(cipher).back(iv, XorBlock(x, d)) == XorBlock(Cfb(cipher).back(iv, x), d)
  {
    hide Xor;
    var k := cipher(iv);
    XorWith(k.l, x.l, d.l);
    XorWith(k.r, x.r, d.r);
  }

  lemma XorWith(k: Word, x: Word, d: Word)
    ensures Xor(k, 0) == k && Xor(k, Xor(x, d)) == Xor(Xor(k, x), d)
  {
  }

  /** Decryption gives back every byte, also of a last block that is cut
      short, whatever is behind it in either text. */
  lemma CfbRoundTrip(cipher: Block -> Block, iv: Block, src: seq<Byte>, coded: seq<Byte>, len: nat, j: nat)
    requires 8 * Blocks(len) <= |src| && Encrypts(Cfb(cipher), iv, src, coded, len) && j < len
    ensures Decrypted(Cfb(cipher), iv, coded, j) == src[j]
  {
    hide BlockBytes;
    hide Last;
    hide Chain;
    hide XorByte;
    hide XorBlock;
    hide BlockAt;
    var m, k, n := Cfb(cipher), j / 8, j % 8;
    SameLast(m, iv, src, coded, len, k);
    EncryptStep(m, iv, src, k);
    DecryptStep(m, iv, coded, k);
    var key := cipher(Chain(m, iv, src, k));
    assert coded[j] == Encrypted(m, iv, src, j);
    BlockRoundTrip(false, src, k);
    BlockRoundTrip(false, coded, k);
    assert BlockBytes(false, BlockAt(false, src, k))[n] == src[8 * k..8 * k + 8][n];
    assert BlockBytes(false, BlockAt(false, coded, k))[n] == coded[8 * k..8 * k + 8][n];
    XorBlockBytes(false, key, BlockAt(false, src, k), n);
    XorBlockBytes(false, key, BlockAt(false, coded, k), n);
    XorByteTwice(BlockBytes(false, key)[n], src[j]);
  }

  /** However both sides cut the texts into calls, with whole blocks in all but
      the last, what comes out is what went in. */
  lemma CfbCallsRoundTrip(cipher: Block -> Block, iv: Block, sent: seq<Call>, received: seq<Call>)
    requires Chained(sent) && Chained(received)
    requires Text(received) == EncryptCalls(Cfb(cipher), iv, sent)
    ensures DecryptCalls(Cfb(cipher), iv, received) == Text(sent)
  {
    hide Encrypts;
    hide Decrypted;
    hide EncryptCalls;
    hide DecryptCalls;
    hide Text;
    hide Padded;
    hide Cfb;
    hide Blocks;
    var m, src, coded, len := Cfb(cipher), Padded(sent), Padded(received), |Text(sent)|;
    ReceivedIsEncryption(m, iv, sent, received);
    forall j: nat | j < len
      ensures Decrypted(m, iv, coded, j) == src[j]
    {
      CfbRoundTrip(cipher, iv, src, coded, len, j);
    }
    DecryptedIsText(m, iv, sent, received);
  }

  /** What one call writes, another one reads back. */
  lemma CfbTextRoundTrip(cipher: Block -> Block, iv: Block, src: seq<Byte>, coded: seq<Byte>, len: nat)
    requires 8 * Blocks(len) <= |src| && 8 * Blocks(len) <= |coded|
    requires coded[..len] == EncryptText(Cfb(cipher), iv, src, len)
    ensures DecryptText(Cfb(cipher), iv, coded, len) == src[..len]
    ensures len % 8 == 0 ==> Last(Cfb(cipher), iv, coded, Blocks(len)) == Chain(Cfb(cipher), iv, src, Blocks(len))
  {
    hide Encrypted;
    hide Decrypted;
    hide Cfb;
    var m := Cfb(cipher);
    forall j: nat | j < len
      ensures coded[j] == Encrypted(m, iv, src, j)
    {
      assert coded[..len][j] == coded[j];
    }
    forall j: nat | j < len
      ensures Decrypted(m, iv, coded, j) == src[j]
    {
      CfbRoundTrip(cipher, iv, src, coded, len, j);
    }
    if len % 8 == 0 {
      SameIv(m, iv, src, coded, len);
    }
  }

  /** The two loops, one after the other, on any buffers: the same one may serve
      for all, and what is behind len in any of them does not matter. */
  method EncryptThenDecrypt(cipher: Block -> Block, sent: array<Byte>, got: array<Byte>,
                            text: array<Byte>, wire: array<Byte>, out: array<Byte>, len: nat)
    requires sent.Length == 8 && got.Length == 8 && sent != got && sent[..] == got[..]
    requires sent != text && sent != wire && sent != out && got != text && got != wire && got != out
    requires 8 * Blocks(len) <= text.Length && 8 * Blocks(len) <= wire.Length && len <= out.Length
    modifies sent, got, wire, out
    ensures out[..len] == old(text[..len])
    ensures len % 8 == 0 ==> sent[..] == got[..]
  {
    hide *;
    var m := Cfb(cipher);
    ghost var iv, s, d0 := BlockAt(false, sent[..], 0), text[..], wire[..];
    BigEndian(cipher);
    Encrypt(m, sent, wire, text, len);
    LoopsWriteText(m, iv, s, wire, d0, len);
    ghost var coded, o0 := wire[..], out[..];
    assert coded[..len] == EncryptText(m, iv, s, len);
    CfbTextRoundTrip(cipher, iv, s, coded, len);
    Decrypt(m, got, out, wire, len);
    LoopsWriteText(m, iv, coded, out, o0, len);
    assert s[..len] == old(text[..len]);
  }

  lemma BigEndian(cipher: Block -> Block)
    ensures !Cfb(cipher).lsb
  {
  }
}
