/** Short packets: what breaking off the search can cost, and that with the
    program's own CRC-32 it costs nothing. */
module DeattackShort {
  import opened Options
  import opened ZmodemCrc
  import opened Deattack

  // ---------- any function as CRC ----------

  /** Behind a block that equals the IV and does not pass the test, another
      one repeats and passes, and none does before. */
  ghost predicate Missed(crc32: Crc, buf: seq<Block>, iv: Option<Block>, s: nat, k: nat) {
    && s < k < |buf| && iv == Some(buf[s]) && !Compensates(crc32, buf[s], buf, iv)
    && !Suspicious(crc32, buf, iv, s)
    && Repeats(buf, iv, k) && Compensates(crc32, buf[k], buf, iv)
  }

  /** Breaking off matters exactly then. */
  lemma StopMattersIff(crc32: Crc, buf: seq<Block>, iv: Option<Block>)
    ensures (Suspicious(crc32, buf, iv, StopAt(crc32, buf, iv)) <==> Suspicious(crc32, buf, iv, |buf|)) <==>
            !exists s: nat, k: nat :: Missed(crc32, buf, iv, s, k)
  {
    hide Compensates;
    hide Repeats;
    var stop := StopAt(crc32, buf, iv);
    if Suspicious(crc32, buf, iv, |buf|) && !Suspicious(crc32, buf, iv, stop) {
      var k: nat :| k < |buf| && Repeats(buf, iv, k) && Compensates(crc32, buf[k], buf, iv);
      assert Missed(crc32, buf, iv, stop, k);
    }
    if s: nat, k: nat :| Missed(crc32, buf, iv, s, k) {
      assert stop <= s;
    }
  }

  const IV_BLOCK := Block(1, 1)
  const OTHER := Block(2, 2)

  /** With a poor CRC there is such a packet. */
  lemma StopCanMatter()
    ensures var crc32, buf, iv := (x: bv32) => x, [IV_BLOCK, IV_BLOCK, OTHER, OTHER], Some(IV_BLOCK);
            Suspicious(crc32, buf, iv, |buf|) && !Suspicious(crc32, buf, iv, StopAt(crc32, buf, iv))
  {
    var crc32, buf, iv := (x: bv32) => x, [IV_BLOCK, IV_BLOCK, OTHER, OTHER], Some(IV_BLOCK);
    FourBlocks(crc32, 0, OTHER, IV_BLOCK, IV_BLOCK, OTHER, OTHER);
    FourBlocks(crc32, CrcBlock(crc32, 0, true), IV_BLOCK, IV_BLOCK, IV_BLOCK, OTHER, OTHER);
    assert Compensates(crc32, buf[3], buf, iv) && Repeats(buf, iv, 3) by { assert buf[..3][2] == OTHER; }
    assert !Compensates(crc32, buf[0], buf, iv);
  }

  lemma FourBlocks(crc32: Crc, crc: bv32, s: Block, a: Block, b: Block, c: Block, d: Block)
    ensures CrcOver(crc32, crc, s, [a, b, c, d]) ==
            CrcBlock(crc32, CrcBlock(crc32, CrcBlock(crc32, CrcBlock(crc32, crc, a == s), b == s), c == s), d == s)
  {
    hide CrcBlock;
    assert [] + [a] == [a] && [a] + [b] == [a, b] && [a, b] + [c] == [a, b, c] && [a, b, c] + [d] == [a, b, c, d];
    OneMore(crc32, crc, s, [], a);
    OneMore(crc32, crc, s, [a], b);
    OneMore(crc32, crc, s, [a, b], c);
    OneMore(crc32, crc, s, [a, b, c], d);
  }

  lemma OneMore(crc32: Crc, crc: bv32, s: Block, buf: seq<Block>, b: Block)
    ensures CrcOver(crc32, crc, s, buf + [b]) == CrcBlock(crc32, CrcOver(crc32, crc, s, buf), b == s)
    ensures CrcOver(crc32, crc, s, []) == crc
  {
    assert (buf + [b])[..|buf|] == buf;
  }

  // ---------- ssh_crc32 ----------

  /** ssh_crc32 on the four bytes of a word, low byte first. Its table is that
      of the file transfer's CRC-32. */
  function SshCrc32(w: bv32): bv32 {
    After4(0, LowByte(w), LowByte(Byte1(w)), LowByte(Byte2(w)), LowByte(Byte3(w)))
  }

  lemma SshCrcIsSteps(w: bv32)
    ensures SshCrc32(w) == Steps32(w, 32)
  {
    AbsorbWord(0, w);
    ZeroXor(w);
  }

  lemma ZeroXor(w: bv32)
    ensures Xor(0, w) == w && Xor(w, 0) == w && Xor(w, w) == 0
  {
  }

  function Bit(b: bool): bv32 { if b then 1 else 0 }

  /** One block: its mark enters the register, which then makes 64 steps. */
  lemma BlockIsSteps(crc: bv32, same: bool)
    ensures CrcBlock(SshCrc32, crc, same) == Steps32(Xor(crc, Bit(same)), 64)
  {
    var x := Xor(crc, Bit(same));
    MarkFirst(crc, Bit(same));
    SshCrcIsSteps(x);
    SshCrcIsSteps(Steps32(x, 32));
    MarkFirst(Steps32(x, 32), 0);
    ZeroXor(Steps32(x, 32));
    StepsAdd(x, 32, 32);
  }

  lemma MarkFirst(crc: bv32, b: bv32)
    ensures b ^ crc == Xor(crc, b)
  {
  }

  /** The register after blocks with these marks. */
  function Register(marks: seq<bool>): bv32 {
    if marks == [] then 0
    else Steps32(Xor(Register(marks[..|marks| - 1]), Bit(marks[|marks| - 1])), 64)
  }

  /** What a mark k blocks ago has become. */
  function Echo(k: nat): bv32 { Steps32(1, 64 * k) }

  function Pick(b: bool, x: bv32): bv32 { if b then x else 0 }

  /** The sum of what all marks have become, k - 1 blocks later. */
  function Sum(marks: seq<bool>, k: nat): bv32 {
    if marks == [] then 0
    else Xor(Sum(marks[..|marks| - 1], k + 1), Pick(marks[|marks| - 1], Echo(k)))
  }

  lemma OddBits(x: bv32, y: bv32)
    ensures !Even(x) && !Even(y) ==> Even(Xor(x, y))
  {
  }

  lemma XorSame(a: bv32, b: bv32, c: bv32)
    ensures Xor(Xor(a, c), Xor(b, c)) == Xor(a, b)
  {
    hide Xor;
    XorCommutes(b, c);
    XorAssociative(Xor(a, c), c, b);
    XorAssociative(a, c, c);
    ZeroXor(c);
    ZeroXor(a);
  }

  /** A step of the register is linear. */
  lemma StepLinear(x: bv32, y: bv32)
    ensures Step32(Xor(x, y)) == Xor(Step32(x), Step32(y))
  {
    hide Step32;
    hide Xor;
    hide Half;
    hide Even;
    StepOf(x);
    StepOf(y);
    StepOf(Xor(x, y));
    StepXor(x, y);
    StepXor(y, x);
    XorCommutes(x, y);
    XorCommutes(Step32(x), Step32(y));
    OddBits(x, y);
    HalfXor(x, y);
    XorSame(Half(x), Half(y), 0xedb8_8320);
  }

  lemma {:induction false} StepsLinear(x: bv32, y: bv32, n: nat)
    ensures Steps32(Xor(x, y), n) == Xor(Steps32(x, n), Steps32(y, n))
    decreases n
  {
    if n > 0 {
      StepLinear(x, y);
      StepsLinear(Step32(x), Step32(y), n - 1);
    }
  }

  lemma {:induction false} StepsOfZero(n: nat)
    ensures Steps32(0, n) == 0
    decreases n
  {
    if n > 0 {
      assert Step32(0) == 0;
      StepsOfZero(n - 1);
    }
  }

  lemma PickSteps(b: bool, k: nat)
    ensures Steps32(Pick(b, Echo(k)), 64) == Pick(b, Echo(k + 1))
  {
    StepsAdd(1, 64 * k, 64);
    StepsOfZero(64);
  }

  lemma {:induction false} SumSteps(marks: seq<bool>, k: nat)
    ensures Steps32(Sum(marks, k), 64) == Sum(marks, k + 1)
  {
    hide Echo;
    hide Pick;
    hide Xor;
    if marks == [] {
      StepsOfZero(64);
    } else {
      var init, last := marks[..|marks| - 1], marks[|marks| - 1];
      SumSteps(init, k + 1);
      StepsLinear(Sum(init, k + 1), Pick(last, Echo(k)), 64);
      PickSteps(last, k);
    }
  }

  /** The register is that sum: the marks do not disturb each other. */
  lemma {:induction false} RegisterIsSum(marks: seq<bool>)
    ensures Register(marks) == Sum(marks, 1)
  {
    hide Echo;
    hide Xor;
    hide Steps32;
    if marks != [] {
      var init, last := marks[..|marks| - 1], marks[|marks| - 1];
      RegisterIsSum(init);
      StepsLinear(Sum(init, 1), Bit(last), 64);
      SumSteps(init, 1);
      FirstEcho(last);
    }
  }

  lemma FirstEcho(b: bool)
    ensures Steps32(Bit(b), 64) == Pick(b, Echo(1))
  {
    StepsOfZero(64);
  }

  /** Four bytes pass through the register. */
  function Quad(x: bv32): bv32 { Serial32(Serial32(Serial32(Serial32(x)))) }

  lemma QuadIsSteps(x: bv32)
    ensures Quad(x) == Steps32(x, 32)
  {
    hide Serial32;
    hide Steps32;
    var x1 := Serial32(x);
    var x2 := Serial32(x1);
    var x3 := Serial32(x2);
    SerialIsSteps(x);
    SerialIsSteps(x1);
    SerialIsSteps(x2);
    SerialIsSteps(x3);
    FourTimes(x, x1, x2, x3, Quad(x));
  }

  /** One block later. */
  lemma NextEcho(k: nat, x: bv32)
    requires Echo(k) == x
    ensures Echo(k + 1) == Quad(Quad(x))
  {
    hide Quad;
    QuadIsSteps(x);
    QuadIsSteps(Quad(x));
    StepsAdd(x, 32, 32);
    StepsAdd(1, 64 * k, 64);
  }

  lemma QuadIs(x0: bv32, x1: bv32, x2: bv32, x3: bv32, x4: bv32)
    requires Serial32(x0) == x1 && Serial32(x1) == x2 && Serial32(x2) == x3 && Serial32(x3) == x4
    ensures Quad(x0) == x4
  {
  }

  lemma QuadTable1()
    ensures Quad(0x0000_0001) == 0xb8bc_6765
    ensures Quad(0xb8bc_6765) == 0xccaa_009e
    ensures Quad(0xccaa_009e) == 0x9ba5_4c6f
    ensures Quad(0x9ba5_4c6f) == 0xae68_9191
  {
    hide Quad;
    QuadIs(0x0000_0001, 0x7707_3096, 0x191b_3141, 0x01c2_6a37, 0xb8bc_6765);
    QuadIs(0xb8bc_6765, 0x3d60_29b0, 0xcb5c_d3a5, 0xa677_0bb4, 0xccaa_009e);
    QuadIs(0xccaa_009e, 0x177b_1443, 0xefc2_6b3e, 0xc18e_dfc0, 0x9ba5_4c6f);
    QuadIs(0x9ba5_4c6f, 0xdd96_d985, 0x9d0f_e176, 0xb9fb_dbe8, 0xae68_9191);
  }

  lemma QuadTable2()
    ensures Quad(0xae68_9191) == 0x6567_3b46
    ensures Quad(0x6567_3b46) == 0x8125_6527
    ensures Quad(0x8125_6527) == 0x01b5_fd1d
    ensures Quad(0x01b5_fd1d) == 0xf1da_05aa
  {
    hide Quad;
    QuadIs(0xae68_9191, 0x87a6_cb43, 0xef52_b6e1, 0xd7e2_8058, 0x6567_3b46);
    QuadIs(0x6567_3b46, 0x9fda_839e, 0x1728_64c0, 0x9b73_ead4, 0x8125_6527);
    QuadIs(0x8125_6527, 0xa58b_900e, 0xe71d_a697, 0x6e8c_1b41, 0x01b5_fd1d);
    QuadIs(0x01b5_fd1d, 0x6307_d924, 0x3c60_e308, 0x0ee7_e8d1, 0xf1da_05aa);
  }

  lemma QuadTable3()
    ensures Quad(0xf1da_05aa) == 0x9570_d495
    ensures Quad(0x9570_d495) == 0xaf44_9247
    ensures Quad(0xaf44_9247) == 0x2a28_3862
    ensures Quad(0x2a28_3862) == 0x3db1_ecdc
  {
    hide Quad;
    QuadIs(0xf1da_05aa, 0x36f2_90f3, 0x2482_5136, 0xcf9e_17c8, 0x9570_d495);
    QuadIs(0x9570_d495, 0x80f0_171f, 0x8d88_fde2, 0x4e89_0ba9, 0xaf44_9247);
    QuadIs(0xaf44_9247, 0xe817_90a1, 0xa139_84ee, 0x4713_f6fb, 0x2a28_3862);
    QuadIs(0x2a28_3862, 0xa396_284c, 0x7fc9_9b93, 0x6979_0b65, 0x3db1_ecdc);
  }

  lemma QuadTable4()
    ensures Quad(0x3db1_ecdc) == 0x69cc_fc0d
    ensures Quad(0x69cc_fc0d) == 0x1d95_13d7
    ensures Quad(0x1d95_13d7) == 0xcad3_8e8f
    ensures Quad(0xcad3_8e8f) == 0x8f35_2d95
  {
    hide Quad;
    QuadIs(0x3db1_ecdc, 0x8f58_2f13, 0x8431_19f1, 0xca3e_f393, 0x69cc_fc0d);
    QuadIs(0x69cc_fc0d, 0x7ed8_b041, 0x01a5_a9b6, 0x2203_b310, 0x1d95_13d7);
    QuadIs(0x1d95_13d7, 0x18aa_d264, 0x4ac7_0f93, 0x694c_05f1, 0xcad3_8e8f);
    QuadIs(0xcad3_8e8f, 0x7dcd_4d3f, 0xb61b_e070, 0x50b3_6adc, 0x8f35_2d95);
  }

  lemma Echoes()
    ensures Echo(1) == 0xccaa_009e
    ensures Echo(2) == 0xae68_9191
    ensures Echo(3) == 0x8125_6527
    ensures Echo(4) == 0xf1da_05aa
    ensures Echo(5) == 0xaf44_9247
    ensures Echo(6) == 0x3db1_ecdc
    ensures Echo(7) == 0x1d95_13d7
    ensures Echo(8) == 0x8f35_2d95
  {
    hide Echo;
    hide Quad;
    EchoOfNow();
    QuadTable1();
    QuadTable2();
    QuadTable3();
    QuadTable4();
    NextEcho(0, 0x0000_0001);
    NextEcho(1, 0xccaa_009e);
    NextEcho(2, 0xae68_9191);
    NextEcho(3, 0x8125_6527);
    NextEcho(4, 0xf1da_05aa);
    NextEcho(5, 0xaf44_9247);
    NextEcho(6, 0x3db1_ecdc);
    NextEcho(7, 0x1d95_13d7);
  }

  lemma EchoOfNow()
    ensures Echo(0) == 0x0000_0001
  {
  }

  /** Eight echoes are linearly independent. */
  lemma Independent(b1: bool, b2: bool, b3: bool, b4: bool, b5: bool, b6: bool, b7: bool, b8: bool)
    requires Xor(Xor(Xor(Xor(Xor(Xor(Xor(Pick(b8, 0x8f35_2d95), Pick(b7, 0x1d95_13d7)), Pick(b6, 0x3db1_ecdc)), Pick(b5, 0xaf44_9247)),
                 Pick(b4, 0xf1da_05aa)), Pick(b3, 0x8125_6527)), Pick(b2, 0xae68_9191)), Pick(b1, 0xccaa_009e)) == 0
    ensures !b1 && !b2 && !b3 && !b4 && !b5 && !b6 && !b7 && !b8
  {
  }

  /** The mark k places from the end, if there is one. */
  function MarkAt(marks: seq<bool>, k: nat): bool { k < |marks| && marks[|marks| - 1 - k] }

  /** With at most eight marks the register is 0 only if none is set. */
  lemma RegisterIsZero(marks: seq<bool>)
    requires |marks| <= 8 && Register(marks) == 0
    ensures true !in marks
  {
    hide Sum;
    hide Echo;
    hide Xor;
    hide Pick;
    RegisterIsSum(marks);
    SumOfEight(marks);
    Echoes();
    Independent(MarkAt(marks, 0), MarkAt(marks, 1), MarkAt(marks, 2), MarkAt(marks, 3),
                MarkAt(marks, 4), MarkAt(marks, 5), MarkAt(marks, 6), MarkAt(marks, 7));
    forall i: nat | i < |marks|
      ensures !marks[i]
    {
      var k := |marks| - 1 - i;
      assert MarkAt(marks, k) == marks[i];
      assert k == 0 || k == 1 || k == 2 || k == 3 || k == 4 || k == 5 || k == 6 || k == 7;
    }
  }

  function Shorter(marks: seq<bool>, k: nat): seq<bool> {
    if k < |marks| then marks[..|marks| - k] else []
  }

  lemma SumShorter(marks: seq<bool>, k: nat)
    ensures Sum(Shorter(marks, k), k + 1) ==
            Xor(Sum(Shorter(marks, k + 1), k + 2), Pick(MarkAt(marks, k), Echo(k + 1)))
  {
    hide Echo;
    hide Xor;
    hide Pick;
    var s := Shorter(marks, k);
    if s == [] {
      NothingEchoes(k + 1);
    } else {
      assert s[..|s| - 1] == Shorter(marks, k + 1);
    }
  }

  lemma NothingEchoes(k: nat)
    ensures Xor(0, Pick(false, Echo(k))) == 0
  {
  }

  lemma SumOfEight(marks: seq<bool>)
    requires |marks| <= 8
    ensures Sum(marks, 1) ==
            Xor(Xor(Xor(Xor(Xor(Xor(Xor(Pick(MarkAt(marks, 7), Echo(8)), Pick(MarkAt(marks, 6), Echo(7))),
                Pick(MarkAt(marks, 5), Echo(6))), Pick(MarkAt(marks, 4), Echo(5))), Pick(MarkAt(marks, 3), Echo(4))),
                Pick(MarkAt(marks, 2), Echo(3))), Pick(MarkAt(marks, 1), Echo(2))), Pick(MarkAt(marks, 0), Echo(1)))
  {
    hide Sum;
    hide Echo;
    hide Xor;
    hide Pick;
    hide MarkAt;
    assert Shorter(marks, 0) == marks && Shorter(marks, 8) == [];
    SumShorter(marks, 0);
    SumShorter(marks, 1);
    SumShorter(marks, 2);
    SumShorter(marks, 3);
    SumShorter(marks, 4);
    SumShorter(marks, 5);
    SumShorter(marks, 6);
    SumShorter(marks, 7);
    SumOfNone(9);
    ZeroXor(Pick(MarkAt(marks, 7), Echo(8)));
  }

  lemma SumOfNone(k: nat)
    ensures Sum([], k) == 0
  {
  }

  /** The marks that check_crc makes for a block: against the IV, and against
      every block of the packet. */
  function Marks(s: Block, buf: seq<Block>, iv: Option<Block>): (m: seq<bool>)
    ensures |m| == |buf| + 1
    ensures true in m <==> iv == Some(s) || s in buf
  {
    var m := [iv == Some(s)] + seq(|buf|, i requires 0 <= i < |buf| => buf[i] == s);
    assert m[0] == (iv == Some(s)) && forall i :: 0 <= i < |buf| ==> m[i + 1] == (buf[i] == s);
    m
  }

  lemma MarksNext(s: Block, buf: seq<Block>, b: Block, iv: Option<Block>)
    ensures Marks(s, buf + [b], iv) == Marks(s, buf, iv) + [b == s]
    ensures Marks(s, [], iv) == [iv == Some(s)]
  {
    forall i: nat | i < |buf| + 2
      ensures Marks(s, buf + [b], iv)[i] == (Marks(s, buf, iv) + [b == s])[i]
    {
    }
  }

  lemma RegisterNext(m: seq<bool>, b: bool)
    ensures Register(m + [b]) == Steps32(Xor(Register(m), Bit(b)), 64)
    ensures Register([b]) == Steps32(Xor(0, Bit(b)), 64)
  {
    assert (m + [b])[..|m|] == m && [b][..0] == [];
  }

  lemma {:induction false} CrcIsRegister(s: Block, buf: seq<Block>, iv: Option<Block>)
    ensures CrcOver(SshCrc32, if iv == Some(s) then CrcBlock(SshCrc32, 0, true) else 0, s, buf) ==
            Register(Marks(s, buf, iv))
  {
    hide Steps32;
    hide Xor;
    hide Marks;
    hide Register;
    hide CrcBlock;
    hide SshCrc32;
    var crc0 := if iv == Some(s) then CrcBlock(SshCrc32, 0, true) else 0;
    if buf == [] {
      MarksNext(s, [], s, iv);
      RegisterNext([], iv == Some(s));
      BlockIsSteps(0, iv == Some(s));
      NoMark();
    } else {
      var init, last := buf[..|buf| - 1], buf[|buf| - 1];
      assert buf == init + [last];
      CrcIsRegister(s, init, iv);
      OneMore(SshCrc32, crc0, s, init, last);
      MarksNext(s, init, last, iv);
      RegisterNext(Marks(s, init, iv), last == s);
      BlockIsSteps(Register(Marks(s, init, iv)), last == s);
    }
  }

  lemma NoMark()
    ensures Steps32(Xor(0, Bit(false)), 64) == 0
  {
    StepsOfZero(64);
  }

  /** In a packet of at most seven blocks, no block that is there, or is the IV,
      passes the test. */
  lemma ShortNeverCompensates(s: Block, buf: seq<Block>, iv: Option<Block>)
    requires |buf| * SSH_BLOCKSIZE <= HASH_MINBLOCKS && (s in buf || iv == Some(s))
    ensures !Compensates(SshCrc32, s, buf, iv)
  {
    hide Register;
    hide CrcOver;
    CrcIsRegister(s, buf, iv);
    if Register(Marks(s, buf, iv)) == 0 {
      RegisterIsZero(Marks(s, buf, iv));
    }
  }

  /** So breaking off a search of short packets loses nothing. */
  lemma ShortIsNeverSuspicious(buf: seq<Block>, iv: Option<Block>, n: nat)
    requires |buf| * SSH_BLOCKSIZE <= HASH_MINBLOCKS && n <= |buf|
    ensures !Suspicious(SshCrc32, buf, iv, n)
  {
    hide Compensates;
    forall k: nat | k < n
      ensures !Compensates(SshCrc32, buf[k], buf, iv)
    {
      ShortNeverCompensates(buf[k], buf, iv);
    }
  }

  /** detect_attack with this CRC, on packets of every length: detected if and
      only if a repeated block passes the test. */
  method DetectWithSshCrc(detector: Detector, buf: seq<Block>, iv: Option<Block>) returns (detected: bool)
    requires detector.Valid() && detector.crc32 == SshCrc32 && |buf| <= SSH_MAXBLOCKS
    modifies detector, detector.h
    ensures detector.Valid() && (detected <==> Suspicious(SshCrc32, buf, iv, |buf|))
  {
    hide Suspicious;
    hide StopAt;
    if |buf| * SSH_BLOCKSIZE <= HASH_MINBLOCKS {
      ShortIsNeverSuspicious(buf, iv, |buf|);
      ShortIsNeverSuspicious(buf, iv, StopAt(SshCrc32, buf, iv));
    }
    detected := detector.DetectAttack(buf, iv);
  }
}
