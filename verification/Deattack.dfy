/** The CRC compensation attack detector: a search for a repeated cipher
    block that passes a CRC test, sped up by an open-addressed hash table. */
module Deattack {
  import opened Options

  const SSH_MAXBLOCKS: nat := 32 * 1024
  const SSH_BLOCKSIZE: nat := 8
  const HASH_MINENTRIES: nat := 8 * 1024 / 2
  const HASH_MINBLOCKS: nat := 7 * SSH_BLOCKSIZE
  const HASH_UNUSED: nat := 0xffff
  const HASH_IV: nat := 0xfffe

  /** A cipher block of eight bytes, as its two 32-bit words: blocks are
      compared as a whole and hashed by their first word. */
  datatype Block = Block(first: nat, second: nat)

  /** One use of ssh_crc32 on the four bytes of a word. */
  type Crc = bv32 -> bv32

  function CrcUpdate(crc32: Crc, a: bv32, b: bv32): bv32 { crc32(b ^ a) }

  /** The two updates check_crc makes for a block: 1 and 0, or 0 and 0. */
  function CrcBlock(crc32: Crc, crc: bv32, same: bool): bv32 {
    CrcUpdate(crc32, CrcUpdate(crc32, crc, if same then 1 else 0), 0)
  }

  function CrcOver(crc32: Crc, crc: bv32, s: Block, buf: seq<Block>): bv32 {
    if buf == [] then crc
    else CrcBlock(crc32, CrcOver(crc32, crc, s, buf[..|buf| - 1]), buf[|buf| - 1] == s)
  }

  /** What check_crc decides. */
  predicate Compensates(crc32: Crc, s: Block, buf: seq<Block>, iv: Option<Block>) {
    CrcOver(crc32, if iv == Some(s) then CrcBlock(crc32, 0, true) else 0, s, buf) == 0
  }

  /** check_crc, as the loop over the packet. */
  method CheckCrc(crc32: Crc, s: Block, buf: seq<Block>, iv: Option<Block>) returns (r: bool)
    ensures r <==> Compensates(crc32, s, buf, iv)
  {
    var crc: bv32 := 0;
    if iv == Some(s) {
      crc := CrcUpdate(crc32, crc, 1);
      crc := CrcUpdate(crc32, crc, 0);
    }
    ghost var crc0 := crc;
    for k := 0 to |buf|
      invariant crc == CrcOver(crc32, crc0, s, buf[..k])
    {
      assert buf[..k + 1][..k] == buf[..k];
      if s == buf[k] {
        crc := CrcUpdate(crc32, crc, 1);
        crc := CrcUpdate(crc32, crc, 0);
      } else {
        crc := CrcUpdate(crc32, crc, 0);
        crc := CrcUpdate(crc32, crc, 0);
      }
    }
    assert buf[..|buf|] == buf;
    r := crc == 0;
  }

  /** Block k repeats the IV or an earlier block. */
  predicate Repeats(buf: seq<Block>, iv: Option<Block>, k: nat)
    requires k < |buf|
  {
    iv == Some(buf[k]) || buf[k] in buf[..k]
  }

  /** The packet has a repeated block that passes the CRC test. */
  predicate Suspicious(crc32: Crc, buf: seq<Block>, iv: Option<Block>, n: nat)
    requires n <= |buf|
  {
    exists k: nat :: k < n && Repeats(buf, iv, k) && Compensates(crc32, buf[k], buf, iv)
  }

  /** The next index on a probe sequence: (i + 1) & (n - 1). The table size is
      a power of two, so that masking is reduction modulo the size. */
  function Next(i: nat, n: nat): nat
    requires i < n
  {
    if i + 1 == n then 0 else i + 1
  }

  /** HASH(x) & (n - 1): the block's first word, reduced. */
  function Home(b: Block, n: nat): (i: nat)
    requires n > 0
    ensures i < n
  {
    b.first % n
  }

  /** How many steps lead from `i` to `j` around the table. */
  function Distance(i: nat, j: nat, n: nat): (d: nat)
    requires i < n && j < n
    ensures d < n && (d == 0 <==> i == j)
  {
    if i <= j then j - i else j + n - i
  }

  /** The block that a used entry stands for. */
  function BlockOf(h: seq<nat>, i: nat, buf: seq<Block>, iv: Option<Block>): Option<Block>
    requires i < |h|
  {
    if h[i] == HASH_IV then iv else if h[i] < |buf| then Some(buf[h[i]]) else None
  }

  /** Slot i is used, for the IV or for one of the first j blocks. */
  predicate EntryOk(h: seq<nat>, i: nat, iv: Option<Block>, j: nat)
    requires i < |h|
  {
    h[i] == HASH_UNUSED || (h[i] == HASH_IV && iv.Some?) || h[i] < j
  }

  /** All slots from `i` up to, but without, slot `s` are used. */
  ghost predicate UsedUpTo(h: seq<nat>, i: nat, s: nat)
    requires i < |h| && s < |h|
  {
    forall t: nat :: t < |h| && Distance(i, t, |h|) < Distance(i, s, |h|) ==> h[t] != HASH_UNUSED
  }

  /** Probing for `b` meets slot `s` first among unused slots and slots that
      hold `b`, or at least meets no unused slot before `s`. */
  ghost predicate FoundAt(h: seq<nat>, b: Block, s: nat, buf: seq<Block>, iv: Option<Block>)
    requires 0 < |h|
  {
    s < |h| && h[s] != HASH_UNUSED && BlockOf(h, s, buf, iv) == Some(b) && UsedUpTo(h, Home(b, |h|), s)
  }

  /** The probe invariant after the first j blocks: the IV and every one of
      those blocks can be found by probing, and nothing else is in the table. */
  ghost predicate Indexed(h: seq<nat>, buf: seq<Block>, iv: Option<Block>, j: nat)
    requires 0 < |h| && j <= |buf|
  {
    && EntriesOk(h, iv, j)
    && (iv.Some? ==> Findable(h, iv.value, buf, iv))
    && (forall k: nat :: k < j ==> Findable(h, buf[k], buf, iv))
  }

  ghost predicate EntriesOk(h: seq<nat>, iv: Option<Block>, j: nat) {
    forall i: nat :: i < |h| ==> EntryOk(h, i, iv, j)
  }

  ghost predicate Findable(h: seq<nat>, b: Block, buf: seq<Block>, iv: Option<Block>)
    requires 0 < |h|
  {
    exists s: nat :: FoundAt(h, b, s, buf, iv)
  }

  /** Every used slot is in `used`. */
  ghost predicate Covers(used: set<nat>, h: seq<nat>) {
    forall i: nat :: i < |h| && h[i] != HASH_UNUSED ==> i in used
  }

  function Range(n: nat): (s: set<nat>)
    ensures |s| == n && forall i: nat :: i in s <==> i < n
  {
    if n == 0 then {} else Range(n - 1) + {n - 1}
  }

  /** Fewer used slots than slots leave one unused. */
  lemma UnusedSlot(used: set<nat>, h: seq<nat>) returns (u: nat)
    requires Covers(used, h) && |used| < |h|
    ensures u < |h| && h[u] == HASH_UNUSED
  {
    if Range(|h|) <= used {
      CardinalityMono(Range(|h|), used);
    }
    u :| u in Range(|h|) && u !in used;
  }

  lemma CardinalityMono(a: set<nat>, b: set<nat>)
    requires a <= b
    ensures |a| <= |b|
  {
    if a != {} {
      var x :| x in a;
      CardinalityMono(a - {x}, b - {x});
    }
  }

  /** Probing past slot i without meeting `b`. */
  ghost predicate NotBefore(h: seq<nat>, b: Block, i: nat, buf: seq<Block>, iv: Option<Block>)
    requires i < |h|
  {
    && UsedUpTo(h, Home(b, |h|), i)
    && forall t: nat :: t < |h| && Distance(Home(b, |h|), t, |h|) < Distance(Home(b, |h|), i, |h|) ==>
         BlockOf(h, t, buf, iv) != Some(b)
  }

  /** One probe step. */
  lemma NextIsFurther(from: nat, i: nat, u: nat, n: nat)
    requires from < n && i < n && u < n && i != u
    requires Distance(from, i, n) <= Distance(from, u, n)
    ensures Distance(from, Next(i, n), n) == Distance(from, i, n) + 1 <= Distance(from, u, n)
    ensures forall t: nat :: t < n && Distance(from, t, n) < Distance(from, Next(i, n), n) ==>
              t == i || Distance(from, t, n) < Distance(from, i, n)
  {
  }

  lemma NothingProbed(h: seq<nat>, b: Block, buf: seq<Block>, iv: Option<Block>)
    requires 0 < |h|
    ensures NotBefore(h, b, Home(b, |h|), buf, iv)
  {
  }

  lemma ProbedPast(h: seq<nat>, b: Block, i: nat, u: nat, buf: seq<Block>, iv: Option<Block>)
    requires i < |h| && u < |h| && i != u && NotBefore(h, b, i, buf, iv)
    requires Distance(Home(b, |h|), i, |h|) <= Distance(Home(b, |h|), u, |h|)
    requires h[i] != HASH_UNUSED && BlockOf(h, i, buf, iv) != Some(b)
    ensures NotBefore(h, b, Next(i, |h|), buf, iv)
  {
    NextIsFurther(Home(b, |h|), i, u, |h|);
  }

  /** A probe that ends at an unused slot has shown that the block is new. */
  lemma UnusedMeansNew(h: seq<nat>, buf: seq<Block>, iv: Option<Block>, j: nat, i: nat)
    requires 0 < |h| && j < |buf| && i < |h| && Indexed(h, buf, iv, j)
    requires NotBefore(h, buf[j], i, buf, iv) && h[i] == HASH_UNUSED
    ensures !Repeats(buf, iv, j)
  {
    var b := buf[j];
    if Repeats(buf, iv, j) {
      var s := Located(h, buf, iv, j);
      DistancesDiffer(Home(b, |h|), s, i, |h|);
    }
  }

  lemma DistancesDiffer(from: nat, s: nat, i: nat, n: nat)
    requires from < n && s < n && i < n
    ensures s != i ==> Distance(from, s, n) < Distance(from, i, n) || Distance(from, i, n) < Distance(from, s, n)
  {
  }

  lemma Located(h: seq<nat>, buf: seq<Block>, iv: Option<Block>, j: nat) returns (s: nat)
    requires 0 < |h| && j < |buf| && Indexed(h, buf, iv, j) && Repeats(buf, iv, j)
    ensures FoundAt(h, buf[j], s, buf, iv)
  {
    if iv == Some(buf[j]) {
      assert Findable(h, iv.value, buf, iv);
      s :| FoundAt(h, iv.value, s, buf, iv);
    } else {
      var k: nat :| k < j && buf[k] == buf[j];
      assert Findable(h, buf[k], buf, iv);
      s :| FoundAt(h, buf[k], s, buf, iv);
    }
  }

  /** A used slot with the block's contents shows that the block repeats. */
  lemma MatchMeansRepeat(h: seq<nat>, buf: seq<Block>, iv: Option<Block>, j: nat, i: nat)
    requires 0 < |h| && j < |buf| <= SSH_MAXBLOCKS && i < |h| && Indexed(h, buf, iv, j)
    requires h[i] != HASH_UNUSED && BlockOf(h, i, buf, iv) == Some(buf[j])
    ensures Repeats(buf, iv, j)
  {
    assert EntryOk(h, i, iv, j);
    if h[i] != HASH_IV {
      assert buf[..j][h[i]] == buf[j];
    }
  }

  /** Entering block j where its probe ended keeps the probe invariant, also
      when that overwrites an entry for the same block. */
  lemma EnterKeepsIndexed(h: seq<nat>, h': seq<nat>, buf: seq<Block>, iv: Option<Block>, j: nat, i: nat)
    requires 0 < |h| && j < |buf| <= SSH_MAXBLOCKS && i < |h| && Indexed(h, buf, iv, j) && h' == h[i := j]
    requires UsedUpTo(h, Home(buf[j], |h|), i)
    requires h[i] == HASH_UNUSED || BlockOf(h, i, buf, iv) == Some(buf[j])
    ensures Indexed(h', buf, iv, j + 1)
  {
    EntriesKept(h, h', iv, j, i);
    assert FoundAt(h', buf[j], i, buf, iv);
    if iv.Some? {
      StillFindable(h, h', buf, iv, j, i, iv.value);
    }
    forall k: nat | k < j + 1
      ensures Findable(h', buf[k], buf, iv)
    {
      if k < j {
        StillFindable(h, h', buf, iv, j, i, buf[k]);
      }
    }
  }

  lemma EntriesKept(h: seq<nat>, h': seq<nat>, iv: Option<Block>, j: nat, i: nat)
    requires i < |h| && EntriesOk(h, iv, j) && h' == h[i := j]
    ensures EntriesOk(h', iv, j + 1)
  {
    var n := j + 1;
    forall t: nat | t < |h|
      ensures EntryOk(h', t, iv, n)
    {
      assert EntryOk(h, t, iv, j);
    }
  }

  lemma StillFindable(h: seq<nat>, h': seq<nat>, buf: seq<Block>, iv: Option<Block>, j: nat, i: nat, b: Block)
    requires 0 < |h| && j < |buf| <= SSH_MAXBLOCKS && i < |h| && h' == h[i := j]
    requires h[i] == HASH_UNUSED || BlockOf(h, i, buf, iv) == Some(buf[j])
    requires Findable(h, b, buf, iv)
    ensures Findable(h', b, buf, iv)
  {
    var s :| FoundAt(h, b, s, buf, iv);
    StillFound(h, h', buf, iv, j, i, b, s);
  }

  lemma StillFound(h: seq<nat>, h': seq<nat>, buf: seq<Block>, iv: Option<Block>, j: nat, i: nat, b: Block, s: nat)
    requires 0 < |h| && j < |buf| <= SSH_MAXBLOCKS && i < |h| && h' == h[i := j]
    requires h[i] == HASH_UNUSED || BlockOf(h, i, buf, iv) == Some(buf[j])
    requires FoundAt(h, b, s, buf, iv)
    ensures FoundAt(h', b, s, buf, iv)
  {
  }

  predicate PowerOfTwo(n: nat)
    decreases n
  {
    n == 1 || (n > 1 && n % 2 == 0 && PowerOfTwo(n / 2))
  }

  /** A size that a table can have. */
  predicate IsSize(n: nat) { PowerOfTwo(n) && n >= HASH_MINENTRIES }

  lemma Doubled(n: nat)
    requires PowerOfTwo(n)
    ensures PowerOfTwo(2 * n)
  {
    assert 2 * n / 2 == n && 2 * n % 2 == 0;
  }

  lemma Quadrupled(n: nat)
    requires IsSize(n)
    ensures IsSize(4 * n)
  {
    Doubled(n);
    Doubled(2 * n);
  }

  lemma FirstSize()
    ensures IsSize(HASH_MINENTRIES)
  {
    assert PowerOfTwo(16) && PowerOfTwo(64) && PowerOfTwo(256) && PowerOfTwo(1024);
  }

  /** HASH_FACTOR. */
  function HashFactor(x: nat): nat { x * 3 / 2 }

  /** The detector, with the table it keeps from one packet to the next. */
  class Detector {
    const crc32: Crc
    var h: array?<nat>
    var n: nat

    ghost predicate Valid()
      reads this
    {
      && IsSize(n) && n >= HASH_MINENTRIES
      && (h != null ==> h.Length == n)
    }

    constructor (crc32: Crc)
      ensures Valid() && h == null && this.crc32 == crc32
    {
      this.crc32 := crc32;
      h := null;
      n := HASH_MINENTRIES;
      new;
      FirstSize();
    }

    /** The sizing loop, and the (re)allocation of the table. */
    method Grow(blocks: nat)
      requires Valid() && blocks <= SSH_MAXBLOCKS
      modifies this
      ensures Valid() && h != null && n > blocks
      ensures h == old(h) || fresh(h)
    {
      hide IsSize;
      var l := n;
      while l < HashFactor(blocks)
        invariant l >= n && IsSize(l)
        modifies {}
        decreases HashFactor(blocks) - l
      {
        Quadrupled(l);
        l := 4 * l;
      }
      if h == null || l > n {
        n := l;
        h := new nat[n];
      }
    }

    /** detect_attack. Packets of more than HASH_MINBLOCKS bytes are searched
        with the table, shorter ones by comparing blocks pairwise. */
    method DetectAttack(buf: seq<Block>, iv: Option<Block>) returns (detected: bool)
      requires Valid() && |buf| <= SSH_MAXBLOCKS
      modifies this, h
      ensures Valid()
      ensures |buf| * SSH_BLOCKSIZE > HASH_MINBLOCKS ==>
                (detected <==> Suspicious(crc32, buf, iv, |buf|))
      ensures |buf| * SSH_BLOCKSIZE <= HASH_MINBLOCKS ==>
                (detected <==> Suspicious(crc32, buf, iv, StopAt(crc32, buf, iv)))
    {
      Grow(|buf|);
      if |buf| * SSH_BLOCKSIZE <= HASH_MINBLOCKS {
        detected := SearchPairwise(buf, iv);
        return;
      }
      Clear(iv);
      ghost var used := if iv.Some? then {Home(iv.value, n)} else {};
      IvIndexed(h[..], buf, iv);
      for j := 0 to |buf|
        invariant Valid() && h != null && n > |buf| && (h == old(h) || fresh(h))
        invariant Indexed(h[..], buf, iv, j) && Covers(used, h[..]) && |used| <= j + 1
        invariant !Suspicious(crc32, buf, iv, j)
      {
        detected, used := Enter(buf, iv, j, used);
        if detected {
          return;
        }
      }
      detected := false;
    }

    /** Mark every slot unused, and enter the IV. */
    method Clear(iv: Option<Block>)
      requires Valid() && h != null
      modifies h
      ensures forall i: nat :: i < n ==>
                h[i] == if iv.Some? && i == Home(iv.value, n) then HASH_IV else HASH_UNUSED
    {
      for i := 0 to n
        invariant forall k: nat :: k < i ==> h[k] == HASH_UNUSED
      {
        h[i] := HASH_UNUSED;
      }
      if iv.Some? {
        h[Home(iv.value, n)] := HASH_IV;
      }
    }

    /** One block of the hash search: probe for it, test it if it repeats, and
        enter it where the probe ended. */
    method Enter(buf: seq<Block>, iv: Option<Block>, j: nat, ghost used: set<nat>)
      returns (detected: bool, ghost used': set<nat>)
      requires Valid() && h != null && j < |buf| <= SSH_MAXBLOCKS && |buf| < n
      requires Indexed(h[..], buf, iv, j) && Covers(used, h[..]) && |used| <= j + 1
      requires !Suspicious(crc32, buf, iv, j)
      modifies h
      ensures detected ==> Suspicious(crc32, buf, iv, |buf|)
      ensures !detected ==> !Suspicious(crc32, buf, iv, j + 1)
      ensures !detected ==> Indexed(h[..], buf, iv, j + 1) && Covers(used', h[..]) && |used'| <= j + 2
    {
      var i, found := Probe(buf, iv, j, used);
      used' := used + {i};
      if found {
        MatchMeansRepeat(h[..], buf, iv, j, i);
        detected := CheckCrc(crc32, buf[j], buf, iv);
        if detected {
          return;
        }
      } else {
        UnusedMeansNew(h[..], buf, iv, j, i);
      }
      EnterKeepsIndexed(h[..], h[..][i := j], buf, iv, j, i);
      h[i] := j;
      assert h[..] == old(h[..])[i := j];
      detected := false;
    }

    /** The probe loop: go on until the block itself or an unused slot. */
    method Probe(buf: seq<Block>, iv: Option<Block>, j: nat, ghost used: set<nat>) returns (i: nat, found: bool)
      requires Valid() && h != null && j < |buf| <= SSH_MAXBLOCKS && |buf| < n
      requires Indexed(h[..], buf, iv, j) && Covers(used, h[..]) && |used| <= j + 1
      ensures i < n && NotBefore(h[..], buf[j], i, buf, iv)
      ensures found ==> h[i] != HASH_UNUSED && BlockOf(h[..], i, buf, iv) == Some(buf[j])
      ensures !found ==> h[i] == HASH_UNUSED
    {
      hide NotBefore;
      hide IsSize;
      ghost var u := UnusedSlot(used, h[..]);
      ghost var from := Home(buf[j], n);
      i := Home(buf[j], n);
      NothingProbed(h[..], buf[j], buf, iv);
      while h[i] != HASH_UNUSED
        invariant i < n && Distance(from, i, n) <= Distance(from, u, n)
        invariant NotBefore(h[..], buf[j], i, buf, iv)
        decreases Distance(from, u, n) - Distance(from, i, n)
      {
        assert EntryOk(h[..], i, iv, j);
        var same := if h[i] == HASH_IV then buf[j] == iv.value else buf[j] == buf[h[i]];
        if same {
          return i, true;
        }
        ProbedPast(h[..], buf[j], i, u, buf, iv);
        NextIsFurther(from, i, u, n);
        i := Next(i, n);
      }
      found := false;
    }

    /** The search for short packets. A block that equals the IV but does not
        pass the test ends it. */
    method SearchPairwise(buf: seq<Block>, iv: Option<Block>) returns (detected: bool)
      ensures detected <==> Suspicious(crc32, buf, iv, StopAt(crc32, buf, iv))
    {
      var c := 0;
      while c < |buf|
        invariant 0 <= c <= StopAt(crc32, buf, iv)
        invariant !Suspicious(crc32, buf, iv, c)
      {
        if iv == Some(buf[c]) {
          detected := CheckCrc(crc32, buf[c], buf, iv);
          assert Repeats(buf, iv, c);
          return;
        }
        var d := 0;
        while d < c && buf[c] != buf[d]
          invariant 0 <= d <= c && buf[c] !in buf[..d]
        {
          d := d + 1;
        }
        if d < c {
          assert buf[..c][d] == buf[c];
          var bad := CheckCrc(crc32, buf[c], buf, iv);
          if bad {
            return true;
          }
        }
        c := c + 1;
      }
      detected := false;
    }
  }

  /** Where the search of a short packet ends: at the first block that equals
      the IV, unless the IV passes the CRC test. */
  function StopAt(crc32: Crc, buf: seq<Block>, iv: Option<Block>): (s: nat)
    ensures s <= |buf|
    ensures s < |buf| ==> iv == Some(buf[s]) && !Compensates(crc32, buf[s], buf, iv)
    ensures forall k :: 0 <= k < s && iv == Some(buf[k]) ==> Compensates(crc32, buf[k], buf, iv)
  {
    FirstBad(crc32, buf, iv, 0)
  }

  function FirstBad(crc32: Crc, buf: seq<Block>, iv: Option<Block>, k: nat): (s: nat)
    requires k <= |buf|
    ensures k <= s <= |buf|
    ensures s < |buf| ==> iv == Some(buf[s]) && !Compensates(crc32, buf[s], buf, iv)
    ensures forall i :: k <= i < s && iv == Some(buf[i]) ==> Compensates(crc32, buf[i], buf, iv)
    decreases |buf| - k
  {
    if k == |buf| || (iv == Some(buf[k]) && !Compensates(crc32, buf[k], buf, iv)) then k
    else FirstBad(crc32, buf, iv, k + 1)
  }

  lemma IvIndexed(h: seq<nat>, buf: seq<Block>, iv: Option<Block>)
    requires 0 < |h|
    requires forall i: nat :: i < |h| ==>
               h[i] == if iv.Some? && i == Home(iv.value, |h|) then HASH_IV else HASH_UNUSED
    ensures Indexed(h, buf, iv, 0)
  {
    if iv.Some? {
      assert FoundAt(h, iv.value, Home(iv.value, |h|), buf, iv);
    }
  }
}
