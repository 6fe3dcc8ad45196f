/** Chaining modes of block ciphers: what the loops over a text compute, and
    when decrypting undoes encrypting. */
module BlockModes {
  import opened WordBlocks

  /** A mode: the order of bytes in words, what becomes of a block of plain
      text after the block of cipher text before it, and what becomes of a
      block of cipher text. */
  datatype Mode = Mode(lsb: bool, step: (Block, Block) -> Block, back: (Block, Block) -> Block)

  ghost predicate Undoes(m: Mode) {
    forall iv: Block, p: Block :: m.back(iv, m.step(iv, p)) == p
  }

  /** The blocks that a text of `len` bytes reaches into. */
  function Blocks(len: nat): (k: nat)
    ensures len <= 8 * k < len + 8
  {
    (len + 7) / 8
  }

  /** The iv of the encryption after k blocks: the last block of cipher text. */
  function Chain(m: Mode, iv: Block, src: seq<Byte>, k: nat): Block
    requires 8 * k <= |src|
    decreases k
  {
    if k == 0 then iv
    else m.step(Chain(m, iv, src, k - 1), BlockAt(m.lsb, src, k - 1))
  }

  /** Byte j of the cipher text. */
  function Encrypted(m: Mode, iv: Block, src: seq<Byte>, j: nat): Byte
    requires 8 * Blocks(j + 1) <= |src|
  {
    BlockBytes(m.lsb, Chain(m, iv, src, j / 8 + 1))[j % 8]
  }

  /** The iv of the decryption after k blocks. */
  function Last(m: Mode, iv: Block, src: seq<Byte>, k: nat): Block
    requires 8 * k <= |src|
  {
    if k == 0 then iv else BlockAt(m.lsb, src, k - 1)
  }

  function PlainBlock(m: Mode, iv: Block, src: seq<Byte>, k: nat): Block
    requires 8 * k + 8 <= |src|
  {
    m.back(Last(m, iv, src, k), BlockAt(m.lsb, src, k))
  }

  /** Byte j of the plain text. */
  function Decrypted(m: Mode, iv: Block, src: seq<Byte>, j: nat): Byte
    requires 8 * Blocks(j + 1) <= |src|
  {
    BlockBytes(m.lsb, PlainBlock(m, iv, src, j / 8))[j % 8]
  }

  /** `coded` starts with the encryption of the first len bytes of src. */
  ghost predicate Encrypts(m: Mode, iv: Block, src: seq<Byte>, coded: seq<Byte>, len: nat)
    requires 8 * Blocks(len) <= |src|
  {
    8 * Blocks(len) <= |coded| && forall j: nat :: j < len ==> coded[j] == Encrypted(m, iv, src, j)
  }

  /** Whole blocks of cipher text are the links of the chain. */
  lemma WholeBlock(m: Mode, iv: Block, src: seq<Byte>, coded: seq<Byte>, len: nat, k: nat)
    requires 8 * Blocks(len) <= |src| && Encrypts(m, iv, src, coded, len) && 8 * k + 8 <= len
    ensures BlockAt(m.lsb, coded, k) == Chain(m, iv, src, k + 1)
  {
    hide BlockBytes;
    hide Chain;
    var b := Chain(m, iv, src, k + 1);
    forall n: nat | n < 8
      ensures coded[8 * k..8 * k + 8][n] == BlockBytes(m.lsb, b)[n]
    {
      var j := 8 * k + n;
      assert j / 8 == k && j % 8 == n;
      assert coded[j] == Encrypted(m, iv, src, j);
    }
    assert coded[8 * k..8 * k + 8] == BlockBytes(m.lsb, b);
    BlockFromBytes(m.lsb, coded, k, b);
  }

  lemma SameLast(m: Mode, iv: Block, src: seq<Byte>, coded: seq<Byte>, len: nat, k: nat)
    requires 8 * Blocks(len) <= |src| && Encrypts(m, iv, src, coded, len) && 8 * k <= len
    ensures Last(m, iv, coded, k) == Chain(m, iv, src, k)
  {
    if k > 0 {
      WholeBlock(m, iv, src, coded, len, k - 1);
    }
  }

  /** Decryption gives back every whole block. */
  lemma RoundTrip(m: Mode, iv: Block, src: seq<Byte>, coded: seq<Byte>, len: nat, j: nat)
    requires 8 * Blocks(len) <= |src| && Encrypts(m, iv, src, coded, len) && j < len && len % 8 == 0 && Undoes(m)
    ensures Decrypted(m, iv, coded, j) == src[j]
  {
    hide BlockBytes;
    hide Last;
    hide Chain;
    hide BlockAt;
    var k := j / 8;
    SameLast(m, iv, src, coded, len, k);
    WholeBlock(m, iv, src, coded, len, k);
    EncryptStep(m, iv, src, k);
    DecryptStep(m, iv, coded, k);
    assert PlainBlock(m, iv, coded, k) == BlockAt(m.lsb, src, k);
    BlockRoundTrip(m.lsb, src, k);
  }

  /** Both sides are left with the same iv when the length is a multiple of 8. */
  lemma SameIv(m: Mode, iv: Block, src: seq<Byte>, coded: seq<Byte>, len: nat)
    requires 8 * Blocks(len) <= |src| && Encrypts(m, iv, src, coded, len) && len % 8 == 0
    ensures Last(m, iv, coded, Blocks(len)) == Chain(m, iv, src, Blocks(len))
  {
    hide Encrypts;
    hide Last;
    hide Chain;
    assert Blocks(len) == len / 8;
    SameLast(m, iv, src, coded, len, Blocks(len));
  }

  /** Behind the first len bytes, `coded` is what the encryption makes of the
      rest of the last block. */
  ghost predicate EncryptsFrom(m: Mode, iv: Block, src: seq<Byte>, coded: seq<Byte>, len: nat)
    requires 8 * Blocks(len) <= |src| && 8 * Blocks(len) <= |coded|
  {
    hide Blocks;
    forall j: nat :: len <= j < 8 * Blocks(len) ==> coded[j] == Encrypted(m, iv, src, j)
  }

  /** After a part of a block, the encrypting side is left with what it made of
      the padding: both hold the same iv if and only if the receiving side's
      padding is just that. */
  lemma IvAfterPart(m: Mode, iv: Block, src: seq<Byte>, coded: seq<Byte>, len: nat)
    requires 8 * Blocks(len) <= |src| && Encrypts(m, iv, src, coded, len) && len % 8 != 0
    ensures Last(m, iv, coded, Blocks(len)) == Chain(m, iv, src, Blocks(len)) <==>
            EncryptsFrom(m, iv, src, coded, len)
  {
    hide BlockBytes;
    hide Chain;
    hide BlockAt;
    hide Blocks;
    var k := len / 8;
    assert Blocks(len) == k + 1 == Blocks(8 * Blocks(len));
    if EncryptsFrom(m, iv, src, coded, len) {
      WholeBlock(m, iv, src, coded, 8 * Blocks(len), k);
    }
    if BlockAt(m.lsb, coded, k) == Chain(m, iv, src, k + 1) {
      BlockRoundTrip(m.lsb, coded, k);
      forall j: nat | len <= j < 8 * Blocks(len)
        ensures coded[j] == Encrypted(m, iv, src, j)
      {
        assert j / 8 == k && coded[8 * k..8 * k + 8][j % 8] == coded[j];
      }
    }
  }

  /** Texts encrypted one after another are encrypted as one, if all but the
      last are whole blocks. */
  lemma {:induction false} ChainContinues(m: Mode, iv: Block, s: seq<Byte>, t: seq<Byte>, k: nat)
    requires |s| % 8 == 0 && 8 * k <= |t|
    ensures Chain(m, iv, s + t, |s| / 8 + k) == Chain(m, Chain(m, iv, s, |s| / 8), t, k)
  {
    if k == 0 {
      ChainPrefix(m, iv, s, t, |s| / 8);
    } else {
      ChainContinues(m, iv, s, t, k - 1);
      SameBlockBehind(m.lsb, s, t, k - 1);
    }
  }

  lemma {:induction false} ChainPrefix(m: Mode, iv: Block, s: seq<Byte>, t: seq<Byte>, k: nat)
    requires 8 * k <= |s|
    ensures Chain(m, iv, s + t, k) == Chain(m, iv, s, k)
  {
    if k > 0 {
      ChainPrefix(m, iv, s, t, k - 1);
      SameBlock(m.lsb, s, t, k - 1);
    }
  }

  lemma SameBlock(lsb: bool, s: seq<Byte>, t: seq<Byte>, k: nat)
    requires 8 * k + 8 <= |s|
    ensures BlockAt(lsb, s + t, k) == BlockAt(lsb, s, k)
  {
  }

  lemma SameBlockBehind(lsb: bool, s: seq<Byte>, t: seq<Byte>, k: nat)
    requires |s| % 8 == 0 && 8 * k + 8 <= |t|
    ensures BlockAt(lsb, s + t, |s| / 8 + k) == BlockAt(lsb, t, k)
  {
    assert 8 * (|s| / 8 + k) == |s| + 8 * k;
  }

  // ---------- the two loops ----------

  /** Up to place n, dest holds what the encryption makes of s; behind it is
      what was there. */
  ghost predicate EncryptedTo(m: Mode, iv: Block, s: seq<Byte>, dest: array<Byte>, d0: seq<Byte>, n: nat)
    requires 8 * Blocks(n) <= |s|
    reads dest
  {
    && dest.Length == |d0| && n <= |d0|
    && forall j: nat :: j < |d0| ==> dest[j] == if j < n then Encrypted(m, iv, s, j) else d0[j]
  }

  ghost predicate DecryptedTo(m: Mode, iv: Block, s: seq<Byte>, dest: array<Byte>, d0: seq<Byte>, n: nat)
    requires 8 * Blocks(n) <= |s|
    reads dest
  {
    && dest.Length == |d0| && n <= |d0|
    && forall j: nat :: j < |d0| ==> dest[j] == if j < n then Decrypted(m, iv, s, j) else d0[j]
  }

  /** From place i on, the source is still what it was. */
  ghost predicate Unread(src: array<Byte>, s: seq<Byte>, i: nat)
    reads src
  {
    src.Length == |s| && forall j: nat :: i <= j < |s| ==> src[j] == s[j]
  }

  /** GET_32BIT or GET_32BIT_LSB_FIRST twice. */
  method GetBlock(lsb: bool, src: array<Byte>, i: nat, ghost s: seq<Byte>) returns (b: Block)
    requires i % 8 == 0 && i + 8 <= src.Length && Unread(src, s, i)
    ensures b == BlockAt(lsb, s, i / 8)
  {
    assert 8 * (i / 8) == i;
    if lsb {
      b := Block(Joined(src[i + 3], src[i + 2], src[i + 1], src[i]),
                 Joined(src[i + 7], src[i + 6], src[i + 5], src[i + 4]));
    } else {
      b := Block(Joined(src[i], src[i + 1], src[i + 2], src[i + 3]),
                 Joined(src[i + 4], src[i + 5], src[i + 6], src[i + 7]));
    }
  }

  /** PUT_32BIT twice, or the fall-through switch that stores n bytes of a
      block from the last one down. */
  method PutBytes(lsb: bool, dest: array<Byte>, i: nat, b: Block, n: nat)
    requires n <= 8 && i + n <= dest.Length
    modifies dest
    ensures forall j: nat :: j < dest.Length ==>
              dest[j] == if i <= j < i + n then BlockBytes(lsb, b)[j - i] else old(dest[j])
  {
    hide BlockBytes;
    if n == 8 {
      PutBlock(lsb, dest, i, b);
      return;
    }
    var bytes := BlockBytes(lsb, b);
    var m := n;
    while m > 0
      invariant 0 <= m <= n
      invariant forall j: nat :: j < dest.Length ==> dest[j] == if i + m <= j < i + n then bytes[j - i] else old(dest[j])
    {
      m := m - 1;
      dest[i + m] := bytes[m];
    }
  }

  /** Store n bytes of the block that belongs at place i. */
  method StoreEncrypted(m: Mode, ghost iv: Block, ghost s: seq<Byte>, dest: array<Byte>, src: array<Byte>,
                    ghost d0: seq<Byte>, i: nat, n: nat, b: Block)
    requires i % 8 == 0 && n <= 8 && i + n <= dest.Length && i + 8 <= |s|
    requires 8 * Blocks(i) <= |s| && EncryptedTo(m, iv, s, dest, d0, i) && Unread(src, s, i)
    requires b == Chain(m, iv, s, i / 8 + 1)
    modifies dest
    ensures 8 * Blocks(i + n) <= |s| && EncryptedTo(m, iv, s, dest, d0, i + n)
    ensures Unread(src, s, i + 8)
  {
    hide BlockBytes;
    hide Chain;
    hide PlainBlock;
    PutBytes(m.lsb, dest, i, b, n);
    forall j: nat | i <= j < i + n
      ensures Encrypted(m, iv, s, j) == BlockBytes(m.lsb, b)[j - i]
    {
      assert j / 8 == i / 8 && j % 8 == j - i;
    }
  }

  /** Store n bytes of the block that belongs at place i. */
  method StoreDecrypted(m: Mode, ghost iv: Block, ghost s: seq<Byte>, dest: array<Byte>, src: array<Byte>,
                    ghost d0: seq<Byte>, i: nat, n: nat, b: Block)
    requires i % 8 == 0 && n <= 8 && i + n <= dest.Length && i + 8 <= |s|
    requires 8 * Blocks(i) <= |s| && DecryptedTo(m, iv, s, dest, d0, i) && Unread(src, s, i)
    requires b == PlainBlock(m, iv, s, i / 8)
    modifies dest
    ensures 8 * Blocks(i + n) <= |s| && DecryptedTo(m, iv, s, dest, d0, i + n)
    ensures Unread(src, s, i + 8)
  {
    hide BlockBytes;
    hide Chain;
    hide PlainBlock;
    PutBytes(m.lsb, dest, i, b, n);
    forall j: nat | i <= j < i + n
      ensures Decrypted(m, iv, s, j) == BlockBytes(m.lsb, b)[j - i]
    {
      assert j / 8 == i / 8 && j % 8 == j - i;
    }
  }

  function Least(a: nat, b: nat): nat { if a <= b then a else b }

  lemma EncryptStep(m: Mode, iv: Block, s: seq<Byte>, k: nat)
    requires 8 * k + 8 <= |s|
    ensures Chain(m, iv, s, k + 1) == m.step(Chain(m, iv, s, k), BlockAt(m.lsb, s, k))
  {
  }

  lemma DecryptStep(m: Mode, iv: Block, s: seq<Byte>, k: nat)
    requires 8 * k + 8 <= |s|
    ensures Last(m, iv, s, k + 1) == BlockAt(m.lsb, s, k)
    ensures PlainBlock(m, iv, s, k) == m.back(Last(m, iv, s, k), BlockAt(m.lsb, s, k))
  {
  }

  /** The state of the loop after k blocks. */
  ghost predicate Encrypting(m: Mode, iv: Block, s: seq<Byte>, dest: array<Byte>, src: array<Byte>,
                          d0: seq<Byte>, len: nat, k: nat, b: Block)
    reads dest, src
  {
    && 8 * Blocks(len) <= |s| == src.Length && len <= |d0| == dest.Length && k <= Blocks(len) && b == Chain(m, iv, s, k)
    && EncryptedTo(m, iv, s, dest, d0, Least(8 * k, len)) && Unread(src, s, 8 * k)
  }

  /** One round of the loop. */
  method EncryptBlock(m: Mode, ghost iv: Block, ghost s: seq<Byte>, dest: array<Byte>, src: array<Byte>,
                     ghost d0: seq<Byte>, len: nat, i: nat, ghost k: nat, b: Block) returns (next: Block)
    requires Encrypting(m, iv, s, dest, src, d0, len, k, b) && i == 8 * k < len
    modifies dest
    ensures Encrypting(m, iv, s, dest, src, d0, len, k + 1, next)
  {
    hide Chain;
    hide PlainBlock;
    hide Last;
    hide EncryptedTo;
    hide Unread;
    hide BlockAt;
    assert i % 8 == 0 && i / 8 == k;
    EncryptStep(m, iv, s, k);
    next := GetBlock(m.lsb, src, i, s);
    next := m.step(b, next);
    EncryptPart(m, iv, s, dest, src, d0, len, i, k, next);
  }

  method EncryptPart(m: Mode, ghost iv: Block, ghost s: seq<Byte>, dest: array<Byte>, src: array<Byte>,
                    ghost d0: seq<Byte>, len: nat, i: nat, ghost k: nat, b: Block)
    requires i == 8 * k < len <= dest.Length && 8 * Blocks(len) <= |s|
    requires EncryptedTo(m, iv, s, dest, d0, i) && Unread(src, s, i)
    requires b == Chain(m, iv, s, k + 1)
    modifies dest
    ensures EncryptedTo(m, iv, s, dest, d0, Least(i + 8, len)) && Unread(src, s, i + 8)
  {
    hide Chain;
    hide PlainBlock;
    hide EncryptedTo;
    hide Unread;
    assert i % 8 == 0 && i / 8 == k;
    StoreEncrypted(m, iv, s, dest, src, d0, i, Least(8, len - i), b);
  }

  /** The encryption of a text; dest may be src. The source is read in whole blocks. */
  method Encrypt(m: Mode, iv: array<Byte>, dest: array<Byte>, src: array<Byte>, len: nat)
    requires iv.Length == 8 && iv != dest && iv != src
    requires 8 * Blocks(len) <= src.Length && len <= dest.Length
    modifies iv, dest
    ensures EncryptedTo(m, BlockAt(m.lsb, old(iv[..]), 0), old(src[..]), dest, old(dest[..]), len)
    ensures iv[..] == BlockBytes(m.lsb, Chain(m, BlockAt(m.lsb, old(iv[..]), 0), old(src[..]), Blocks(len)))
  {
    hide BlockBytes;
    hide BlockAt;
    var b := GetBlock(m.lsb, iv, 0, iv[..]);
    b := EncryptLoop(m, b, dest, src, len);
    PutBytes(m.lsb, iv, 0, b, 8);
    assert iv[..] == BlockBytes(m.lsb, b);
  }

  lemma EncryptBegins(m: Mode, iv: Block, dest: array<Byte>, src: array<Byte>, len: nat)
    requires 8 * Blocks(len) <= src.Length && len <= dest.Length
    ensures Encrypting(m, iv, src[..], dest, src, dest[..], len, 0, iv)
  {
  }

  lemma EncryptEnds(m: Mode, iv: Block, s: seq<Byte>, dest: array<Byte>, src: array<Byte>, d0: seq<Byte>,
                    len: nat, k: nat, b: Block)
    requires Encrypting(m, iv, s, dest, src, d0, len, k, b) && 8 * k >= len
    ensures 8 * Blocks(len) <= |s| && EncryptedTo(m, iv, s, dest, d0, len) && b == Chain(m, iv, s, Blocks(len))
  {
    hide EncryptedTo;
    assert k == Blocks(len);
  }

  method EncryptLoop(m: Mode, iv: Block, dest: array<Byte>, src: array<Byte>, len: nat) returns (b: Block)
    requires 8 * Blocks(len) <= src.Length && len <= dest.Length
    modifies dest
    ensures EncryptedTo(m, iv, old(src[..]), dest, old(dest[..]), len)
    ensures b == Chain(m, iv, old(src[..]), Blocks(len))
  {
    hide *;
    ghost var s, d0, k := src[..], dest[..], 0;
    b := iv;
    EncryptBegins(m, iv, dest, src, len);
    var i := 0;
    while i < len
      invariant i == 8 * k && Encrypting(m, iv, s, dest, src, d0, len, k, b)
    {
      b := EncryptBlock(m, iv, s, dest, src, d0, len, i, k, b);
      i, k := i + 8, k + 1;
    }
    EncryptEnds(m, iv, s, dest, src, d0, len, k, b);
  }

  /** The state of the loop after k blocks. */
  ghost predicate Decrypting(m: Mode, iv: Block, s: seq<Byte>, dest: array<Byte>, src: array<Byte>,
                          d0: seq<Byte>, len: nat, k: nat, b: Block)
    reads dest, src
  {
    && 8 * Blocks(len) <= |s| == src.Length && len <= |d0| == dest.Length && k <= Blocks(len) && b == Last(m, iv, s, k)
    && DecryptedTo(m, iv, s, dest, d0, Least(8 * k, len)) && Unread(src, s, 8 * k)
  }

  /** One round of the loop. */
  method DecryptBlock(m: Mode, ghost iv: Block, ghost s: seq<Byte>, dest: array<Byte>, src: array<Byte>,
                     ghost d0: seq<Byte>, len: nat, i: nat, ghost k: nat, b: Block) returns (next: Block)
    requires Decrypting(m, iv, s, dest, src, d0, len, k, b) && i == 8 * k < len
    modifies dest
    ensures Decrypting(m, iv, s, dest, src, d0, len, k + 1, next)
  {
    hide Chain;
    hide PlainBlock;
    hide Last;
    hide DecryptedTo;
    hide Unread;
    hide BlockAt;
    assert i % 8 == 0 && i / 8 == k;
    DecryptStep(m, iv, s, k);
    next := GetBlock(m.lsb, src, i, s);
    DecryptPart(m, iv, s, dest, src, d0, len, i, k, m.back(b, next));
  }

  method DecryptPart(m: Mode, ghost iv: Block, ghost s: seq<Byte>, dest: array<Byte>, src: array<Byte>,
                    ghost d0: seq<Byte>, len: nat, i: nat, ghost k: nat, b: Block)
    requires i == 8 * k < len <= dest.Length && 8 * Blocks(len) <= |s|
    requires DecryptedTo(m, iv, s, dest, d0, i) && Unread(src, s, i)
    requires b == PlainBlock(m, iv, s, k)
    modifies dest
    ensures DecryptedTo(m, iv, s, dest, d0, Least(i + 8, len)) && Unread(src, s, i + 8)
  {
    hide Chain;
    hide PlainBlock;
    hide DecryptedTo;
    hide Unread;
    assert i % 8 == 0 && i / 8 == k;
    StoreDecrypted(m, iv, s, dest, src, d0, i, Least(8, len - i), b);
  }

  /** The decryption of a text; dest may be src. The source is read in whole blocks. */
  method Decrypt(m: Mode, iv: array<Byte>, dest: array<Byte>, src: array<Byte>, len: nat)
    requires iv.Length == 8 && iv != dest && iv != src
    requires 8 * Blocks(len) <= src.Length && len <= dest.Length
    modifies iv, dest
    ensures DecryptedTo(m, BlockAt(m.lsb, old(iv[..]), 0), old(src[..]), dest, old(dest[..]), len)
    ensures iv[..] == BlockBytes(m.lsb, Last(m, BlockAt(m.lsb, old(iv[..]), 0), old(src[..]), Blocks(len)))
  {
    hide BlockBytes;
    hide BlockAt;
    var b := GetBlock(m.lsb, iv, 0, iv[..]);
    b := DecryptLoop(m, b, dest, src, len);
    PutBytes(m.lsb, iv, 0, b, 8);
    assert iv[..] == BlockBytes(m.lsb, b);
  }

  lemma DecryptBegins(m: Mode, iv: Block, dest: array<Byte>, src: array<Byte>, len: nat)
    requires 8 * Blocks(len) <= src.Length && len <= dest.Length
    ensures Decrypting(m, iv, src[..], dest, src, dest[..], len, 0, iv)
  {
  }

  lemma DecryptEnds(m: Mode, iv: Block, s: seq<Byte>, dest: array<Byte>, src: array<Byte>, d0: seq<Byte>,
                    len: nat, k: nat, b: Block)
    requires Decrypting(m, iv, s, dest, src, d0, len, k, b) && 8 * k >= len
    ensures 8 * Blocks(len) <= |s| && DecryptedTo(m, iv, s, dest, d0, len) && b == Last(m, iv, s, Blocks(len))
  {
    hide DecryptedTo;
    assert k == Blocks(len);
  }

  method DecryptLoop(m: Mode, iv: Block, dest: array<Byte>, src: array<Byte>, len: nat) returns (b: Block)
    requires 8 * Blocks(len) <= src.Length && len <= dest.Length
    modifies dest
    ensures DecryptedTo(m, iv, old(src[..]), dest, old(dest[..]), len)
    ensures b == Last(m, iv, old(src[..]), Blocks(len))
  {
    hide *;
    ghost var s, d0, k := src[..], dest[..], 0;
    b := iv;
    DecryptBegins(m, iv, dest, src, len);
    var i := 0;
    while i < len
      invariant i == 8 * k && Decrypting(m, iv, s, dest, src, d0, len, k, b)
    {
      b := DecryptBlock(m, iv, s, dest, src, d0, len, i, k, b);
      i, k := i + 8, k + 1;
    }
    DecryptEnds(m, iv, s, dest, src, d0, len, k, b);
  }
}
