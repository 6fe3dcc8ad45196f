/** Consecutive calls of a chaining mode, with the iv carried over. */
module BlockCalls {
  import opened WordBlocks
  import opened BlockModes

  /** One call: the source buffer, readable in whole blocks, and the length. */
  datatype Call = Call(buf: seq<Byte>, len: nat) {
    predicate Ok() { 8 * Blocks(len) <= |buf| }
  }

  /** All calls but the last are on whole blocks. */
  predicate Chained(calls: seq<Call>) {
    forall i :: 0 <= i < |calls| ==> calls[i].Ok() && (i < |calls| - 1 ==> calls[i].len % 8 == 0)
  }

  /** The text handed over. */
  function Text(calls: seq<Call>): seq<Byte>
    requires Chained(calls)
  {
    if calls == [] then [] else calls[0].buf[..calls[0].len] + Text(calls[1..])
  }

  /** The text with the padding that is read behind it. */
  function Padded(calls: seq<Call>): seq<Byte>
    requires Chained(calls)
  {
    if calls == [] then [] else calls[0].buf[..8 * Blocks(calls[0].len)] + Padded(calls[1..])
  }

  /** What one call writes. */
  function EncryptText(m: Mode, iv: Block, src: seq<Byte>, len: nat): (r: seq<Byte>)
    requires 8 * Blocks(len) <= |src|
    ensures |r| == len && forall j: nat :: j < len ==> r[j] == Encrypted(m, iv, src, j)
  {
    seq(len, j requires 0 <= j < len => Encrypted(m, iv, src, j))
  }

  function DecryptText(m: Mode, iv: Block, src: seq<Byte>, len: nat): (r: seq<Byte>)
    requires 8 * Blocks(len) <= |src|
    ensures |r| == len && forall j: nat :: j < len ==> r[j] == Decrypted(m, iv, src, j)
  {
    seq(len, j requires 0 <= j < len => Decrypted(m, iv, src, j))
  }

  /** That is what the loops leave in dest. */
  lemma LoopsWriteText(m: Mode, iv: Block, s: seq<Byte>, dest: array<Byte>, d0: seq<Byte>, len: nat)
    requires 8 * Blocks(len) <= |s|
    ensures EncryptedTo(m, iv, s, dest, d0, len) ==> dest[..] == EncryptText(m, iv, s, len) + d0[len..]
    ensures DecryptedTo(m, iv, s, dest, d0, len) ==> dest[..] == DecryptText(m, iv, s, len) + d0[len..]
  {
    hide Encrypted;
    hide Decrypted;
  }

  /** What all calls write, each going on with the iv that the one before left. */
  function EncryptCalls(m: Mode, iv: Block, calls: seq<Call>): seq<Byte>
    requires Chained(calls)
    decreases calls
  {
    if calls == [] then []
    else
      var c := calls[0];
      EncryptText(m, iv, c.buf, c.len) + EncryptCalls(m, Chain(m, iv, c.buf, Blocks(c.len)), calls[1..])
  }

  function DecryptCalls(m: Mode, iv: Block, calls: seq<Call>): seq<Byte>
    requires Chained(calls)
    decreases calls
  {
    if calls == [] then []
    else
      var c := calls[0];
      DecryptText(m, iv, c.buf, c.len) + DecryptCalls(m, Last(m, iv, c.buf, Blocks(c.len)), calls[1..])
  }

  // ---------- one text in two parts ----------

  lemma EncryptedPrefix(m: Mode, iv: Block, s: seq<Byte>, t: seq<Byte>, j: nat)
    requires 8 * Blocks(j + 1) <= |s|
    ensures Encrypted(m, iv, s + t, j) == Encrypted(m, iv, s, j)
  {
    hide BlockBytes;
    ChainPrefix(m, iv, s, t, j / 8 + 1);
  }

  /** Behind whole blocks, encryption goes on from the last link. */
  lemma EncryptedContinues(m: Mode, iv: Block, s: seq<Byte>, t: seq<Byte>, j: nat)
    requires |s| % 8 == 0 && 8 * Blocks(j + 1) <= |t|
    ensures 8 * Blocks(|s| + j + 1) <= |s + t|
    ensures Encrypted(m, iv, s + t, |s| + j) == Encrypted(m, Chain(m, iv, s, |s| / 8), t, j)
  {
    hide BlockBytes;
    hide Chain;
    assert (|s| + j) / 8 == |s| / 8 + j / 8 && (|s| + j) % 8 == j % 8;
    ChainContinues(m, iv, s, t, j / 8 + 1);
  }

  lemma DecryptedPrefix(m: Mode, iv: Block, s: seq<Byte>, t: seq<Byte>, j: nat)
    requires 8 * Blocks(j + 1) <= |s|
    ensures Decrypted(m, iv, s + t, j) == Decrypted(m, iv, s, j)
  {
    hide BlockBytes;
    LastPrefix(m, iv, s, t, j / 8);
    SameBlock(m.lsb, s, t, j / 8);
  }

  lemma LastPrefix(m: Mode, iv: Block, s: seq<Byte>, t: seq<Byte>, k: nat)
    requires 8 * k <= |s|
    ensures Last(m, iv, s + t, k) == Last(m, iv, s, k)
  {
    if k > 0 {
      SameBlock(m.lsb, s, t, k - 1);
    }
  }

  lemma LastContinues(m: Mode, iv: Block, s: seq<Byte>, t: seq<Byte>, k: nat)
    requires |s| % 8 == 0 && 8 * k <= |t|
    ensures Last(m, iv, s + t, |s| / 8 + k) == Last(m, Last(m, iv, s, |s| / 8), t, k)
  {
    if k > 0 {
      SameBlockBehind(m.lsb, s, t, k - 1);
    } else {
      LastPrefix(m, iv, s, t, |s| / 8);
    }
  }

  /** So does decryption, from the last block of cipher text. */
  lemma DecryptedContinues(m: Mode, iv: Block, s: seq<Byte>, t: seq<Byte>, j: nat)
    requires |s| % 8 == 0 && 8 * Blocks(j + 1) <= |t|
    ensures 8 * Blocks(|s| + j + 1) <= |s + t|
    ensures Decrypted(m, iv, s + t, |s| + j) == Decrypted(m, Last(m, iv, s, |s| / 8), t, j)
  {
    hide BlockBytes;
    hide Last;
    hide BlockAt;
    assert (|s| + j) / 8 == |s| / 8 + j / 8 && (|s| + j) % 8 == j % 8;
    LastContinues(m, iv, s, t, j / 8);
    SameBlockBehind(m.lsb, s, t, j / 8);
  }

  lemma EncryptTextPrefix(m: Mode, iv: Block, s: seq<Byte>, t: seq<Byte>, len: nat)
    requires 8 * Blocks(len) <= |s|
    ensures EncryptText(m, iv, s + t, len) == EncryptText(m, iv, s, len)
  {
    hide Encrypted;
    forall j: nat | j < len
      ensures Encrypted(m, iv, s + t, j) == Encrypted(m, iv, s, j)
    {
      EncryptedPrefix(m, iv, s, t, j);
    }
  }

  lemma DecryptTextPrefix(m: Mode, iv: Block, s: seq<Byte>, t: seq<Byte>, len: nat)
    requires 8 * Blocks(len) <= |s|
    ensures DecryptText(m, iv, s + t, len) == DecryptText(m, iv, s, len)
  {
    hide Decrypted;
    forall j: nat | j < len
      ensures Decrypted(m, iv, s + t, j) == Decrypted(m, iv, s, j)
    {
      DecryptedPrefix(m, iv, s, t, j);
    }
  }

  lemma EncryptTextAppend(m: Mode, iv: Block, s: seq<Byte>, t: seq<Byte>, len: nat)
    requires |s| % 8 == 0 && 8 * Blocks(len) <= |t|
    ensures 8 * Blocks(|s| + len) <= |s + t|
    ensures EncryptText(m, iv, s + t, |s| + len) ==
            EncryptText(m, iv, s, |s|) + EncryptText(m, Chain(m, iv, s, |s| / 8), t, len)
  {
    hide Encrypted;
    hide Chain;
    var n := |s|;
    forall j: nat | j < n
      ensures Encrypted(m, iv, s + t, j) == Encrypted(m, iv, s, j)
    {
      EncryptedPrefix(m, iv, s, t, j);
    }
    forall j: nat | n <= j < n + len
      ensures Encrypted(m, iv, s + t, j) == Encrypted(m, Chain(m, iv, s, n / 8), t, j - n)
    {
      EncryptedContinues(m, iv, s, t, j - n);
    }
  }

  lemma DecryptTextAppend(m: Mode, iv: Block, s: seq<Byte>, t: seq<Byte>, len: nat)
    requires |s| % 8 == 0 && 8 * Blocks(len) <= |t|
    ensures 8 * Blocks(|s| + len) <= |s + t|
    ensures DecryptText(m, iv, s + t, |s| + len) ==
            DecryptText(m, iv, s, |s|) + DecryptText(m, Last(m, iv, s, |s| / 8), t, len)
  {
    hide Decrypted;
    hide Last;
    var n := |s|;
    forall j: nat | j < n
      ensures Decrypted(m, iv, s + t, j) == Decrypted(m, iv, s, j)
    {
      DecryptedPrefix(m, iv, s, t, j);
    }
    forall j: nat | n <= j < n + len
      ensures Decrypted(m, iv, s + t, j) == Decrypted(m, Last(m, iv, s, n / 8), t, j - n)
    {
      DecryptedContinues(m, iv, s, t, j - n);
    }
  }

  // ---------- any number of calls ----------

  /** The padded text is the text, and as many blocks as it reaches into. */
  lemma {:induction false} PaddedText(calls: seq<Call>)
    requires Chained(calls)
    ensures |Padded(calls)| == 8 * Blocks(|Text(calls)|) && |Text(calls)| <= |Padded(calls)|
    ensures Padded(calls)[..|Text(calls)|] == Text(calls)
  {
    hide Blocks;
    if calls != [] {
      var c, rest := calls[0], calls[1..];
      PaddedText(rest);
      if rest != [] {
        assert Blocks(c.len + |Text(rest)|) == Blocks(c.len) + Blocks(|Text(rest)|);
      }
    }
  }

  /** Encrypting call by call is encrypting the whole text at once. */
  lemma {:induction false} CallsEncryptAll(m: Mode, iv: Block, calls: seq<Call>)
    requires Chained(calls)
    ensures 8 * Blocks(|Text(calls)|) <= |Padded(calls)|
    ensures EncryptCalls(m, iv, calls) == EncryptText(m, iv, Padded(calls), |Text(calls)|)
    decreases calls
  {
    hide EncryptText;
    hide Encrypted;
    hide Chain;
    hide Blocks;
    PaddedText(calls);
    if calls != [] {
      var c, rest := calls[0], calls[1..];
      var s, u := c.buf[..8 * Blocks(c.len)], c.buf[8 * Blocks(c.len)..];
      assert c.buf == s + u;
      EncryptTextPrefix(m, iv, s, u, c.len);
      PaddedText(rest);
      if rest == [] {
        assert s + [] == s;
        assert EncryptText(m, iv, s, c.len) + [] == EncryptText(m, iv, s, c.len);
      } else {
        ChainPrefix(m, iv, s, u, Blocks(c.len));
        CallsEncryptAll(m, Chain(m, iv, c.buf, Blocks(c.len)), rest);
        EncryptTextAppend(m, iv, s, Padded(rest), |Text(rest)|);
      }
    }
  }

  lemma {:induction false} CallsDecryptAll(m: Mode, iv: Block, calls: seq<Call>)
    requires Chained(calls)
    ensures 8 * Blocks(|Text(calls)|) <= |Padded(calls)|
    ensures DecryptCalls(m, iv, calls) == DecryptText(m, iv, Padded(calls), |Text(calls)|)
    decreases calls
  {
    hide DecryptText;
    hide Decrypted;
    hide Last;
    hide Blocks;
    PaddedText(calls);
    if calls != [] {
      var c, rest := calls[0], calls[1..];
      var s, u := c.buf[..8 * Blocks(c.len)], c.buf[8 * Blocks(c.len)..];
      assert c.buf == s + u;
      DecryptTextPrefix(m, iv, s, u, c.len);
      PaddedText(rest);
      if rest == [] {
        assert s + [] == s;
        assert DecryptText(m, iv, s, c.len) + [] == DecryptText(m, iv, s, c.len);
      } else {
        LastPrefix(m, iv, s, u, Blocks(c.len));
        CallsDecryptAll(m, Last(m, iv, c.buf, Blocks(c.len)), rest);
        DecryptTextAppend(m, iv, s, Padded(rest), |Text(rest)|);
      }
    }
  }

  /** What arrives, however it is cut, is the encryption of the whole text. */
  lemma ReceivedIsEncryption(m: Mode, iv: Block, sent: seq<Call>, received: seq<Call>)
    requires Chained(sent) && Chained(received) && Text(received) == EncryptCalls(m, iv, sent)
    ensures |Text(received)| == |Text(sent)| && 8 * Blocks(|Text(sent)|) == |Padded(sent)| == |Padded(received)|
    ensures Encrypts(m, iv, Padded(sent), Padded(received), |Text(sent)|)
    ensures forall j: nat :: j < |Text(sent)| ==> Padded(sent)[j] == Text(sent)[j]
  {
    hide Encrypted;
    hide Text;
    hide Padded;
    hide EncryptCalls;
    PaddedText(sent);
    PaddedText(received);
    CallsEncryptAll(m, iv, sent);
    var n, src, coded := |Text(sent)|, Padded(sent), Padded(received);
    forall j: nat | j < n
      ensures coded[j] == Encrypted(m, iv, src, j) && src[j] == Text(sent)[j]
    {
      assert coded[..n][j] == coded[j] && src[..n][j] == src[j];
    }
  }

  lemma DecryptedIsText(m: Mode, iv: Block, sent: seq<Call>, received: seq<Call>)
    requires Chained(sent) && Chained(received) && |Text(received)| == |Text(sent)|
    requires 8 * Blocks(|Text(sent)|) == |Padded(sent)| == |Padded(received)|
    requires forall j: nat :: j < |Text(sent)| ==>
               Decrypted(m, iv, Padded(received), j) == Padded(sent)[j] == Text(sent)[j]
    ensures DecryptCalls(m, iv, received) == Text(sent)
  {
    hide Decrypted;
    hide Text;
    hide Padded;
    CallsDecryptAll(m, iv, received);
  }

  /** Whole blocks come back however both sides cut the texts into calls. */
  lemma CallsRoundTrip(m: Mode, iv: Block, sent: seq<Call>, received: seq<Call>)
    requires Chained(sent) && Chained(received) && Undoes(m) && |Text(sent)| % 8 == 0
    requires Text(received) == EncryptCalls(m, iv, sent)
    ensures DecryptCalls(m, iv, received) == Text(sent)
  {
    hide Encrypts;
    hide Decrypted;
    hide EncryptCalls;
    hide DecryptCalls;
    hide Text;
    hide Padded;
    hide Undoes;
    hide Blocks;
    var src, coded, len := Padded(sent), Padded(received), |Text(sent)|;
    ReceivedIsEncryption(m, iv, sent, received);
    forall j: nat | j < len
      ensures Decrypted(m, iv, coded, j) == src[j]
    {
      RoundTrip(m, iv, src, coded, len, j);
    }
    DecryptedIsText(m, iv, sent, received);
  }
}
