/** Copying memory over itself, by words where alignment allows it. Memory is
    one array of bytes, and an address is an index into it. */
module Memmove {
  type Byte = bv8

  const WSIZE: nat := 4

  /** The low bits that say how an address is aligned. */
  function Low(address: nat): nat { address % WSIZE }

  /** Where the byte at address i comes from when n bytes are copied. */
  function Origin(dst: nat, src: nat, n: nat, i: nat): nat {
    if dst <= i < dst + n then src + (i - dst) else i
  }

  predicate Fits(length: nat, dst: nat, src: nat, n: nat) { dst + n <= length && src + n <= length }

  /** Memory is as it was in m0, but with n bytes from `src` on copied to `dst`
      on. */
  ghost predicate Moved(mem: array<Byte>, m0: seq<Byte>, dst: nat, src: nat, n: nat)
    reads mem
  {
    && mem.Length == |m0| && Fits(mem.Length, dst, src, n)
    && forall i: nat :: i < mem.Length ==> mem[i] == m0[Origin(dst, src, n, i)]
  }

  /** *dst++ = *src++. Below what has still to be read, nothing is lost. */
  method ByteUp(mem: array<Byte>, dst: nat, src: nat, ghost m0: seq<Byte>, ghost n: nat)
    requires n <= dst < src < mem.Length && Moved(mem, m0, dst - n, src - n, n)
    modifies mem
    ensures Moved(mem, m0, dst - n, src - n, n + 1)
  {
    mem[dst] := mem[src];
  }

  /** *--dst = *--src. Above what has still to be read, nothing is lost. */
  method ByteDown(mem: array<Byte>, dst: nat, src: nat, ghost m0: seq<Byte>, ghost n: nat)
    requires 0 < src < dst <= mem.Length && Moved(mem, m0, dst, src, n)
    modifies mem
    ensures Moved(mem, m0, dst - 1, src - 1, n + 1)
  {
    mem[dst - 1] := mem[src - 1];
  }

  /** *(word *) dst = *(word *) src, which needs both aligned. */
  method WordUp(mem: array<Byte>, dst: nat, src: nat, ghost m0: seq<Byte>, ghost n: nat)
    requires Low(dst) == Low(src) == 0
    requires n <= dst < src && src + WSIZE <= mem.Length && Moved(mem, m0, dst - n, src - n, n)
    modifies mem
    ensures Moved(mem, m0, dst - n, src - n, n + WSIZE)
  {
    var b0, b1, b2, b3 := mem[src], mem[src + 1], mem[src + 2], mem[src + 3];
    mem[dst], mem[dst + 1], mem[dst + 2], mem[dst + 3] := b0, b1, b2, b3;
  }

  method WordDown(mem: array<Byte>, dst: nat, src: nat, ghost m0: seq<Byte>, ghost n: nat)
    requires Low(dst) == Low(src) == 0
    requires WSIZE <= src < dst <= mem.Length && Moved(mem, m0, dst, src, n)
    modifies mem
    ensures Moved(mem, m0, dst - WSIZE, src - WSIZE, n + WSIZE)
  {
    var d, s := dst - WSIZE, src - WSIZE;
    var b0, b1, b2, b3 := mem[s], mem[s + 1], mem[s + 2], mem[s + 3];
    mem[d], mem[d + 1], mem[d + 2], mem[d + 3] := b0, b1, b2, b3;
  }

  lemma LowSteps(a: nat, k: nat)
    ensures Low(a + WSIZE * k) == Low(a)
  {
  }

  /** TLOOP(*dst++ = *src++), n bytes after the start. */
  method BytesUp(mem: array<Byte>, dst: nat, src: nat, n: nat, t: nat, ghost m0: seq<Byte>)
    requires dst < src && src + n + t <= mem.Length && Moved(mem, m0, dst, src, n)
    modifies mem
    ensures Moved(mem, m0, dst, src, n + t)
  {
    hide Moved;
    for k := 0 to t
      invariant Moved(mem, m0, dst, src, n + k)
    {
      ByteUp(mem, dst + n + k, src + n + k, m0, n + k);
    }
  }

  method WordsUp(mem: array<Byte>, dst: nat, src: nat, n: nat, t: nat, ghost m0: seq<Byte>)
    requires dst < src && src + n + WSIZE * t <= mem.Length && Moved(mem, m0, dst, src, n)
    requires t > 0 ==> Low(dst + n) == Low(src + n) == 0
    modifies mem
    ensures Moved(mem, m0, dst, src, n + WSIZE * t)
  {
    hide Moved;
    hide Low;
    for k := 0 to t
      invariant Moved(mem, m0, dst, src, n + WSIZE * k)
    {
      LowSteps(dst + n, k);
      LowSteps(src + n, k);
      WordUp(mem, dst + n + WSIZE * k, src + n + WSIZE * k, m0, n + WSIZE * k);
    }
  }

  /** TLOOP(*--dst = *--src), n bytes before the end. */
  method BytesDown(mem: array<Byte>, dst: nat, src: nat, n: nat, t: nat, ghost m0: seq<Byte>)
    requires n + t <= src < dst <= mem.Length && Moved(mem, m0, dst - n, src - n, n)
    modifies mem
    ensures Moved(mem, m0, dst - (n + t), src - (n + t), n + t)
  {
    hide Moved;
    for k := 0 to t
      invariant Moved(mem, m0, dst - (n + k), src - (n + k), n + k)
    {
      ByteDown(mem, dst - (n + k), src - (n + k), m0, n + k);
    }
  }

  method WordsDown(mem: array<Byte>, dst: nat, src: nat, n: nat, t: nat, ghost m0: seq<Byte>)
    requires n + WSIZE * t <= src < dst <= mem.Length && Moved(mem, m0, dst - n, src - n, n)
    requires t > 0 ==> Low(dst - n) == Low(src - n) == 0
    modifies mem
    ensures Moved(mem, m0, dst - (n + WSIZE * t), src - (n + WSIZE * t), n + WSIZE * t)
  {
    hide Moved;
    hide Low;
    for k := 0 to t
      invariant Moved(mem, m0, dst - (n + WSIZE * k), src - (n + WSIZE * k), n + WSIZE * k)
    {
      LowSteps(dst - (n + WSIZE * k), k);
      LowSteps(src - (n + WSIZE * k), k);
      WordDown(mem, dst - (n + WSIZE * k), src - (n + WSIZE * k), m0, n + WSIZE * k);
    }
  }

  /** How many bytes go first, so that whole words can follow: all of them if
      the two addresses are never aligned together. */
  method AlignUp(dst: nat, src: nat, length: nat) returns (t: nat)
    requires length > 0
    ensures t <= length && (length - t >= WSIZE ==> Low(dst + t) == Low(src + t) == 0)
  {
    if Low(dst) == 0 && Low(src) == 0 {
      t := 0;
    } else if Low(dst) != Low(src) || length < WSIZE {
      t := length;
    } else {
      t := WSIZE - Low(src);
    }
  }

  method AlignDown(dst: nat, src: nat, length: nat) returns (t: nat)
    requires 0 < length <= dst && length <= src
    ensures t <= length && (length - t >= WSIZE ==> Low(dst - t) == Low(src - t) == 0)
  {
    if Low(dst) == 0 && Low(src) == 0 {
      t := 0;
    } else if Low(dst) != Low(src) || length <= WSIZE {
      t := length;
    } else {
      t := Low(src);
    }
  }

  /** No bytes, or bytes onto themselves. */
  lemma NothingMoved(mem: array<Byte>, dst: nat, src: nat, n: nat)
    requires Fits(mem.Length, dst, src, n) && (n == 0 || dst == src)
    ensures Moved(mem, mem[..], dst, src, n)
  {
  }

  /** memmove: the destination gets what the source held, and nothing else
      changes, however the two overlap. */
  method Move(mem: array<Byte>, dst: nat, src: nat, length: nat) returns (r: nat)
    requires Fits(mem.Length, dst, src, length)
    modifies mem
    ensures r == dst
    ensures Moved(mem, old(mem[..]), dst, src, length)
  {
    hide Moved;
    r := dst;
    if length == 0 || dst == src {
      NothingMoved(mem, dst, src, length);
      return;
    }
    if dst < src {
      MoveUp(mem, dst, src, length);
    } else {
      MoveDown(mem, dst + length, src + length, length);
    }
  }

  /** The bytes that go first. */
  method FirstUp(mem: array<Byte>, dst: nat, src: nat, length: nat) returns (t: nat)
    requires dst < src && src + length <= mem.Length && length > 0
    modifies mem
    ensures t <= length && Moved(mem, old(mem[..]), dst, src, t)
    ensures length - t >= WSIZE ==> Low(dst + t) == Low(src + t) == 0
  {
    hide *;
    ghost var m0 := mem[..];
    t := AlignUp(dst, src, length);
    NothingMoved(mem, dst, src, 0);
    BytesUp(mem, dst, src, 0, t, m0);
  }

  /** Copy forward: align, whole words, trailing bytes. */
  method MoveUp(mem: array<Byte>, dst: nat, src: nat, length: nat)
    requires dst < src && src + length <= mem.Length && length > 0
    modifies mem
    ensures Moved(mem, old(mem[..]), dst, src, length)
  {
    ghost var m0 := mem[..];
    var t := FirstUp(mem, dst, src, length);
    hide *;
    RestUp(mem, dst, src, t, length, m0);
  }

  /** Whole words, then the trailing bytes, after n bytes have been copied. */
  method RestUp(mem: array<Byte>, dst: nat, src: nat, n: nat, length: nat, ghost m0: seq<Byte>)
    requires n <= length && dst < src && src + length <= mem.Length && Moved(mem, m0, dst, src, n)
    requires length - n >= WSIZE ==> Low(dst + n) == Low(src + n) == 0
    modifies mem
    ensures Moved(mem, m0, dst, src, length)
  {
    hide Moved;
    hide Low;
    var words := (length - n) / WSIZE;
    WordsUp(mem, dst, src, n, words, m0);
    var done := n + WSIZE * words;
    BytesUp(mem, dst, src, done, length - done, m0);
  }

  /** The bytes that go first. */
  method FirstDown(mem: array<Byte>, dst: nat, src: nat, length: nat) returns (t: nat)
    requires 0 < length <= src < dst <= mem.Length
    modifies mem
    ensures t <= length && Moved(mem, old(mem[..]), dst - t, src - t, t)
    ensures length - t >= WSIZE ==> Low(dst - t) == Low(src - t) == 0
  {
    hide *;
    ghost var m0 := mem[..];
    t := AlignDown(dst, src, length);
    NothingMoved(mem, dst, src, 0);
    BytesDown(mem, dst, src, 0, t, m0);
  }

  /** Copy backward, from the ends of both blocks. */
  method MoveDown(mem: array<Byte>, dst: nat, src: nat, length: nat)
    requires 0 < length <= src < dst <= mem.Length
    modifies mem
    ensures Moved(mem, old(mem[..]), dst - length, src - length, length)
  {
    ghost var m0 := mem[..];
    var t := FirstDown(mem, dst, src, length);
    hide *;
    RestDown(mem, dst, src, t, length, m0);
  }

  /** Whole words, then the trailing bytes, after n bytes have been copied. */
  method RestDown(mem: array<Byte>, dst: nat, src: nat, n: nat, length: nat, ghost m0: seq<Byte>)
    requires n <= length <= src < dst <= mem.Length && Moved(mem, m0, dst - n, src - n, n)
    requires length - n >= WSIZE ==> Low(dst - n) == Low(src - n) == 0
    modifies mem
    ensures Moved(mem, m0, dst - length, src - length, length)
  {
    hide Moved;
    hide Low;
    var words := (length - n) / WSIZE;
    WordsDown(mem, dst, src, n, words, m0);
    var done := n + WSIZE * words;
    BytesDown(mem, dst, src, done, length - done, m0);
  }
}
