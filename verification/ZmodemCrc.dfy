/** The two CRCs of ZMODEM: the table-driven updates, what they compute, and
    what the receivers' final tests decide. */
module ZmodemCrc {
  /** Entry n of a row of sixteen. */
  function Pick16(n: bv4, e0: bv16, e1: bv16, e2: bv16, e3: bv16, e4: bv16, e5: bv16, e6: bv16, e7: bv16,
                  e8: bv16, e9: bv16, eA: bv16, eB: bv16, eC: bv16, eD: bv16, eE: bv16, eF: bv16): bv16 {
    if n < 8 then
      if n < 4 then if n < 2 then if n == 0 then e0 else e1 else if n == 2 then e2 else e3
      else if n < 6 then if n == 4 then e4 else e5 else if n == 6 then e6 else e7
    else
      if n < 12 then if n < 10 then if n == 8 then e8 else e9 else if n == 10 then eA else eB
      else if n < 14 then if n == 12 then eC else eD else if n == 14 then eE else eF
  }

  /** Entry n of a row of sixteen. */
  function Pick32(n: bv4, e0: bv32, e1: bv32, e2: bv32, e3: bv32, e4: bv32, e5: bv32, e6: bv32, e7: bv32,
                  e8: bv32, e9: bv32, eA: bv32, eB: bv32, eC: bv32, eD: bv32, eE: bv32, eF: bv32): bv32 {
    if n < 8 then
      if n < 4 then if n < 2 then if n == 0 then e0 else e1 else if n == 2 then e2 else e3
      else if n < 6 then if n == 4 then e4 else e5 else if n == 6 then e6 else e7
    else
      if n < 12 then if n < 10 then if n == 8 then e8 else e9 else if n == 10 then eA else eB
      else if n < 14 then if n == 12 then eC else eD else if n == 14 then eE else eF
  }

  /** cr3tab: sixteen rows, by the high half of the index. */
  function Cr3tab0(n: bv4): bv32 {
    Pick32(n,
      0x00000000, 0x77073096, 0xee0e612c, 0x990951ba, 0x076dc419, 0x706af48f, 0xe963a535, 0x9e6495a3,
      0x0edb8832, 0x79dcb8a4, 0xe0d5e91e, 0x97d2d988, 0x09b64c2b, 0x7eb17cbd, 0xe7b82d07, 0x90bf1d91)
  }

  function Cr3tab1(n: bv4): bv32 {
    Pick32(n,
      0x1db71064, 0x6ab020f2, 0xf3b97148, 0x84be41de, 0x1adad47d, 0x6ddde4eb, 0xf4d4b551, 0x83d385c7,
      0x136c9856, 0x646ba8c0, 0xfd62f97a, 0x8a65c9ec, 0x14015c4f, 0x63066cd9, 0xfa0f3d63, 0x8d080df5)
  }

  function Cr3tab2(n: bv4): bv32 {
    Pick32(n,
      0x3b6e20c8, 0x4c69105e, 0xd56041e4, 0xa2677172, 0x3c03e4d1, 0x4b04d447, 0xd20d85fd, 0xa50ab56b,
      0x35b5a8fa, 0x42b2986c, 0xdbbbc9d6, 0xacbcf940, 0x32d86ce3, 0x45df5c75, 0xdcd60dcf, 0xabd13d59)
  }

  function Cr3tab3(n: bv4): bv32 {
    Pick32(n,
      0x26d930ac, 0x51de003a, 0xc8d75180, 0xbfd06116, 0x21b4f4b5, 0x56b3c423, 0xcfba9599, 0xb8bda50f,
      0x2802b89e, 0x5f058808, 0xc60cd9b2, 0xb10be924, 0x2f6f7c87, 0x58684c11, 0xc1611dab, 0xb6662d3d)
  }

  function Cr3tab4(n: bv4): bv32 {
    Pick32(n,
      0x76dc4190, 0x01db7106, 0x98d220bc, 0xefd5102a, 0x71b18589, 0x06b6b51f, 0x9fbfe4a5, 0xe8b8d433,
      0x7807c9a2, 0x0f00f934, 0x9609a88e, 0xe10e9818, 0x7f6a0dbb, 0x086d3d2d, 0x91646c97, 0xe6635c01)
  }

  function Cr3tab5(n: bv4): bv32 {
    Pick32(n,
      0x6b6b51f4, 0x1c6c6162, 0x856530d8, 0xf262004e, 0x6c0695ed, 0x1b01a57b, 0x8208f4c1, 0xf50fc457,
      0x65b0d9c6, 0x12b7e950, 0x8bbeb8ea, 0xfcb9887c, 0x62dd1ddf, 0x15da2d49, 0x8cd37cf3, 0xfbd44c65)
  }

  function Cr3tab6(n: bv4): bv32 {
    Pick32(n,
      0x4db26158, 0x3ab551ce, 0xa3bc0074, 0xd4bb30e2, 0x4adfa541, 0x3dd895d7, 0xa4d1c46d, 0xd3d6f4fb,
      0x4369e96a, 0x346ed9fc, 0xad678846, 0xda60b8d0, 0x44042d73, 0x33031de5, 0xaa0a4c5f, 0xdd0d7cc9)
  }

  function Cr3tab7(n: bv4): bv32 {
    Pick32(n,
      0x5005713c, 0x270241aa, 0xbe0b1010, 0xc90c2086, 0x5768b525, 0x206f85b3, 0xb966d409, 0xce61e49f,
      0x5edef90e, 0x29d9c998, 0xb0d09822, 0xc7d7a8b4, 0x59b33d17, 0x2eb40d81, 0xb7bd5c3b, 0xc0ba6cad)
  }

  function Cr3tab8(n: bv4): bv32 {
    Pick32(n,
      0xedb88320, 0x9abfb3b6, 0x03b6e20c, 0x74b1d29a, 0xead54739, 0x9dd277af, 0x04db2615, 0x73dc1683,
      0xe3630b12, 0x94643b84, 0x0d6d6a3e, 0x7a6a5aa8, 0xe40ecf0b, 0x9309ff9d, 0x0a00ae27, 0x7d079eb1)
  }

  function Cr3tab9(n: bv4): bv32 {
    Pick32(n,
      0xf00f9344, 0x8708a3d2, 0x1e01f268, 0x6906c2fe, 0xf762575d, 0x806567cb, 0x196c3671, 0x6e6b06e7,
      0xfed41b76, 0x89d32be0, 0x10da7a5a, 0x67dd4acc, 0xf9b9df6f, 0x8ebeeff9, 0x17b7be43, 0x60b08ed5)
  }

  function Cr3tab10(n: bv4): bv32 {
    Pick32(n,
      0xd6d6a3e8, 0xa1d1937e, 0x38d8c2c4, 0x4fdff252, 0xd1bb67f1, 0xa6bc5767, 0x3fb506dd, 0x48b2364b,
      0xd80d2bda, 0xaf0a1b4c, 0x36034af6, 0x41047a60, 0xdf60efc3, 0xa867df55, 0x316e8eef, 0x4669be79)
  }

  function Cr3tab11(n: bv4): bv32 {
    Pick32(n,
      0xcb61b38c, 0xbc66831a, 0x256fd2a0, 0x5268e236, 0xcc0c7795, 0xbb0b4703, 0x220216b9, 0x5505262f,
      0xc5ba3bbe, 0xb2bd0b28, 0x2bb45a92, 0x5cb36a04, 0xc2d7ffa7, 0xb5d0cf31, 0x2cd99e8b, 0x5bdeae1d)
  }

  function Cr3tab12(n: bv4): bv32 {
    Pick32(n,
      0x9b64c2b0, 0xec63f226, 0x756aa39c, 0x026d930a, 0x9c0906a9, 0xeb0e363f, 0x72076785, 0x05005713,
      0x95bf4a82, 0xe2b87a14, 0x7bb12bae, 0x0cb61b38, 0x92d28e9b, 0xe5d5be0d, 0x7cdcefb7, 0x0bdbdf21)
  }

  function Cr3tab13(n: bv4): bv32 {
    Pick32(n,
      0x86d3d2d4, 0xf1d4e242, 0x68ddb3f8, 0x1fda836e, 0x81be16cd, 0xf6b9265b, 0x6fb077e1, 0x18b74777,
      0x88085ae6, 0xff0f6a70, 0x66063bca, 0x11010b5c, 0x8f659eff, 0xf862ae69, 0x616bffd3, 0x166ccf45)
  }

  function Cr3tab14(n: bv4): bv32 {
    Pick32(n,
      0xa00ae278, 0xd70dd2ee, 0x4e048354, 0x3903b3c2, 0xa7672661, 0xd06016f7, 0x4969474d, 0x3e6e77db,
      0xaed16a4a, 0xd9d65adc, 0x40df0b66, 0x37d83bf0, 0xa9bcae53, 0xdebb9ec5, 0x47b2cf7f, 0x30b5ffe9)
  }

  function Cr3tab15(n: bv4): bv32 {
    Pick32(n,
      0xbdbdf21c, 0xcabac28a, 0x53b39330, 0x24b4a3a6, 0xbad03605, 0xcdd70693, 0x54de5729, 0x23d967bf,
      0xb3667a2e, 0xc4614ab8, 0x5d681b02, 0x2a6f2b94, 0xb40bbe37, 0xc30c8ea1, 0x5a05df1b, 0x2d02ef8d)
  }

  function Cr3tab(i: bv8): bv32 {
    var n := (i & 0xf) as bv4;
    Pick32((i >> 4) as bv4,
      Cr3tab0(n), Cr3tab1(n), Cr3tab2(n), Cr3tab3(n), Cr3tab4(n), Cr3tab5(n), Cr3tab6(n), Cr3tab7(n),
      Cr3tab8(n), Cr3tab9(n), Cr3tab10(n), Cr3tab11(n), Cr3tab12(n), Cr3tab13(n), Cr3tab14(n), Cr3tab15(n))
  }

  /** crctab. */
  function Crctab0(n: bv4): bv16 {
    Pick16(n,
      0x0000, 0x1021, 0x2042, 0x3063, 0x4084, 0x50a5, 0x60c6, 0x70e7,
      0x8108, 0x9129, 0xa14a, 0xb16b, 0xc18c, 0xd1ad, 0xe1ce, 0xf1ef)
  }

  function Crctab1(n: bv4): bv16 {
    Pick16(n,
      0x1231, 0x0210, 0x3273, 0x2252, 0x52b5, 0x4294, 0x72f7, 0x62d6,
      0x9339, 0x8318, 0xb37b, 0xa35a, 0xd3bd, 0xc39c, 0xf3ff, 0xe3de)
  }

  function Crctab2(n: bv4): bv16 {
    Pick16(n,
      0x2462, 0x3443, 0x0420, 0x1401, 0x64e6, 0x74c7, 0x44a4, 0x5485,
      0xa56a, 0xb54b, 0x8528, 0x9509, 0xe5ee, 0xf5cf, 0xc5ac, 0xd58d)
  }

  function Crctab3(n: bv4): bv16 {
    Pick16(n,
      0x3653, 0x2672, 0x1611, 0x0630, 0x76d7, 0x66f6, 0x5695, 0x46b4,
      0xb75b, 0xa77a, 0x9719, 0x8738, 0xf7df, 0xe7fe, 0xd79d, 0xc7bc)
  }

  function Crctab4(n: bv4): bv16 {
    Pick16(n,
      0x48c4, 0x58e5, 0x6886, 0x78a7, 0x0840, 0x1861, 0x2802, 0x3823,
      0xc9cc, 0xd9ed, 0xe98e, 0xf9af, 0x8948, 0x9969, 0xa90a, 0xb92b)
  }

  function Crctab5(n: bv4): bv16 {
    Pick16(n,
      0x5af5, 0x4ad4, 0x7ab7, 0x6a96, 0x1a71, 0x0a50, 0x3a33, 0x2a12,
      0xdbfd, 0xcbdc, 0xfbbf, 0xeb9e, 0x9b79, 0x8b58, 0xbb3b, 0xab1a)
  }

  function Crctab6(n: bv4): bv16 {
    Pick16(n,
      0x6ca6, 0x7c87, 0x4ce4, 0x5cc5, 0x2c22, 0x3c03, 0x0c60, 0x1c41,
      0xedae, 0xfd8f, 0xcdec, 0xddcd, 0xad2a, 0xbd0b, 0x8d68, 0x9d49)
  }

  function Crctab7(n: bv4): bv16 {
    Pick16(n,
      0x7e97, 0x6eb6, 0x5ed5, 0x4ef4, 0x3e13, 0x2e32, 0x1e51, 0x0e70,
      0xff9f, 0xefbe, 0xdfdd, 0xcffc, 0xbf1b, 0xaf3a, 0x9f59, 0x8f78)
  }

  function Crctab8(n: bv4): bv16 {
    Pick16(n,
      0x9188, 0x81a9, 0xb1ca, 0xa1eb, 0xd10c, 0xc12d, 0xf14e, 0xe16f,
      0x1080, 0x00a1, 0x30c2, 0x20e3, 0x5004, 0x4025, 0x7046, 0x6067)
  }

  function Crctab9(n: bv4): bv16 {
    Pick16(n,
      0x83b9, 0x9398, 0xa3fb, 0xb3da, 0xc33d, 0xd31c, 0xe37f, 0xf35e,
      0x02b1, 0x1290, 0x22f3, 0x32d2, 0x4235, 0x5214, 0x6277, 0x7256)
  }

  function Crctab10(n: bv4): bv16 {
    Pick16(n,
      0xb5ea, 0xa5cb, 0x95a8, 0x8589, 0xf56e, 0xe54f, 0xd52c, 0xc50d,
      0x34e2, 0x24c3, 0x14a0, 0x0481, 0x7466, 0x6447, 0x5424, 0x4405)
  }

  function Crctab11(n: bv4): bv16 {
    Pick16(n,
      0xa7db, 0xb7fa, 0x8799, 0x97b8, 0xe75f, 0xf77e, 0xc71d, 0xd73c,
      0x26d3, 0x36f2, 0x0691, 0x16b0, 0x6657, 0x7676, 0x4615, 0x5634)
  }

  function Crctab12(n: bv4): bv16 {
    Pick16(n,
      0xd94c, 0xc96d, 0xf90e, 0xe92f, 0x99c8, 0x89e9, 0xb98a, 0xa9ab,
      0x5844, 0x4865, 0x7806, 0x6827, 0x18c0, 0x08e1, 0x3882, 0x28a3)
  }

  function Crctab13(n: bv4): bv16 {
    Pick16(n,
      0xcb7d, 0xdb5c, 0xeb3f, 0xfb1e, 0x8bf9, 0x9bd8, 0xabbb, 0xbb9a,
      0x4a75, 0x5a54, 0x6a37, 0x7a16, 0x0af1, 0x1ad0, 0x2ab3, 0x3a92)
  }

  function Crctab14(n: bv4): bv16 {
    Pick16(n,
      0xfd2e, 0xed0f, 0xdd6c, 0xcd4d, 0xbdaa, 0xad8b, 0x9de8, 0x8dc9,
      0x7c26, 0x6c07, 0x5c64, 0x4c45, 0x3ca2, 0x2c83, 0x1ce0, 0x0cc1)
  }

  function Crctab15(n: bv4): bv16 {
    Pick16(n,
      0xef1f, 0xff3e, 0xcf5d, 0xdf7c, 0xaf9b, 0xbfba, 0x8fd9, 0x9ff8,
      0x6e17, 0x7e36, 0x4e55, 0x5e74, 0x2e93, 0x3eb2, 0x0ed1, 0x1ef0)
  }

  function Crctab(i: bv8): bv16 {
    var n := (i & 0xf) as bv4;
    Pick16((i >> 4) as bv4,
      Crctab0(n), Crctab1(n), Crctab2(n), Crctab3(n), Crctab4(n), Crctab5(n), Crctab6(n), Crctab7(n),
      Crctab8(n), Crctab9(n), Crctab10(n), Crctab11(n), Crctab12(n), Crctab13(n), Crctab14(n), Crctab15(n))
  }

  // ---------- 32 bits ----------

  function Xor(a: bv32, b: bv32): bv32 { a ^ b }

  function LowByte(x: bv32): bv8 { (x & 0xff) as bv8 }

  /** A byte of the message enters the register. */
  function Mix(b: bv8, c: bv32): bv32 { Xor(c, b as bv32) }

  /** UPDC32. */
  function UpdC32(b: bv8, c: bv32): bv32 {
    Xor(Cr3tab(LowByte(Mix(b, c))), c >> 8)
  }

  /** One step of the shift register with polynomial 0xedb88320. */
  function Step32(x: bv32): bv32 {
    if x & 1 == 1 then (x >> 1) ^ 0xedb8_8320 else x >> 1
  }

  function Serial32(x: bv32): bv32 {
    Step32(Step32(Step32(Step32(Step32(Step32(Step32(Step32(x))))))))
  }

  /** The table holds what eight steps of the register make of its index. */
  lemma TableIsSerial32(i: bv8)
    ensures Cr3tab(i) == Serial32(i as bv32)
  {
  }

  /** n steps of the register. */
  function Steps32(x: bv32, n: nat): bv32
    decreases n
  {
    if n == 0 then x else Steps32(Step32(x), n - 1)
  }

  lemma SerialIsSteps(x: bv32)
    ensures Serial32(x) == Steps32(x, 8)
  {
    var x1 := Step32(x);
    var x2 := Step32(x1);
    var x3 := Step32(x2);
    var x4 := Step32(x3);
    assert Steps32(x, 8) == Steps32(x1, 7) == Steps32(x2, 6) == Steps32(x3, 5) == Steps32(x4, 4);
    var x5 := Step32(x4);
    var x6 := Step32(x5);
    var x7 := Step32(x6);
    assert Steps32(x4, 4) == Steps32(x5, 3) == Steps32(x6, 2) == Steps32(x7, 1) == Step32(x7);
  }

  function Half(y: bv32): bv32 { y >> 1 }

  predicate Even(y: bv32) { y & 1 == 0 }

  function ShiftDown(y: bv32, n: nat): bv32
    decreases n
  {
    if n == 0 then y else ShiftDown(Half(y), n - 1)
  }

  predicate LowZeros(y: bv32, n: nat)
    decreases n
  {
    n == 0 || (Even(y) && LowZeros(Half(y), n - 1))
  }

  lemma StepOf(x: bv32)
    ensures Step32(x) == if Even(x) then Half(x) else Xor(Half(x), 0xedb8_8320)
  {
  }

  lemma LowBit(x: bv32, y: bv32)
    ensures Even(y) ==> (Even(Xor(x, y)) <==> Even(x))
  {
  }

  lemma HalfXor(x: bv32, y: bv32)
    ensures Half(Xor(x, y)) == Xor(Half(x), Half(y))
  {
  }

  lemma XorCommutes(x: bv32, y: bv32)
    ensures Xor(x, y) == Xor(y, x)
  {
  }

  lemma XorAssociative(a: bv32, b: bv32, c: bv32)
    ensures Xor(a, Xor(b, c)) == Xor(Xor(a, b), c)
  {
  }

  lemma XorRotates(a: bv32, b: bv32, c: bv32)
    ensures Xor(Xor(a, b), c) == Xor(Xor(a, c), b)
  {
    hide Xor;
    XorAssociative(a, b, c);
    XorAssociative(a, c, b);
    XorCommutes(b, c);
  }

  /** High bits pass through the register unchanged until they are low. */
  lemma StepXor(x: bv32, y: bv32)
    ensures Even(y) ==> Step32(Xor(x, y)) == Xor(Step32(x), Half(y))
  {
    hide Step32;
    hide Half;
    hide Xor;
    StepOf(x);
    StepOf(Xor(x, y));
    LowBit(x, y);
    HalfXor(x, y);
    XorRotates(Half(x), Half(y), 0xedb8_8320);
  }

  lemma {:induction false} StepsXor(x: bv32, y: bv32, n: nat)
    requires LowZeros(y, n)
    ensures Steps32(Xor(x, y), n) == Xor(Steps32(x, n), ShiftDown(y, n))
    decreases n
  {
    if n == 0 {
      assert Steps32(Xor(x, y), 0) == Xor(x, y);
    } else {
      StepXor(x, y);
      StepsXor(Step32(x), Half(y), n - 1);
      StepsUnfold(Xor(x, y), n);
      StepsUnfold(x, n);
    }
  }

  lemma StepsUnfold(x: bv32, n: nat)
    requires n > 0
    ensures Steps32(x, n) == Steps32(Step32(x), n - 1)
  {
  }

  lemma HalfOfShift(y: bv32)
    ensures Half(y) == y >> 1 && Half(y >> 1) == y >> 2 && Half(y >> 2) == y >> 3 && Half(y >> 3) == y >> 4
    ensures Half(y >> 4) == y >> 5 && Half(y >> 5) == y >> 6 && Half(y >> 6) == y >> 7 && Half(y >> 7) == y >> 8
  {
  }

  lemma LowBitsEven(y: bv32)
    ensures y & 0xff == 0 ==>
              && Even(y) && Even(y >> 1) && Even(y >> 2) && Even(y >> 3)
              && Even(y >> 4) && Even(y >> 5) && Even(y >> 6) && Even(y >> 7)
  {
  }

  lemma ShiftDownByte(y: bv32)
    ensures ShiftDown(y, 8) == y >> 8
  {
    HalfOfShift(y);
    assert ShiftDown(y >> 8, 0) == y >> 8;
    assert ShiftDown(y >> 6, 2) == ShiftDown(y >> 7, 1);
    assert ShiftDown(y >> 4, 4) == ShiftDown(y >> 5, 3) == ShiftDown(y >> 6, 2);
    assert ShiftDown(y >> 2, 6) == ShiftDown(y >> 3, 5) == ShiftDown(y >> 4, 4);
    assert ShiftDown(y, 8) == ShiftDown(y >> 1, 7) == ShiftDown(y >> 2, 6);
  }

  lemma ByteZeros(y: bv32)
    ensures y & 0xff == 0 ==> LowZeros(y, 8)
  {
    HalfOfShift(y);
    LowBitsEven(y);
    if y & 0xff == 0 {
      assert LowZeros(y >> 8, 0);
      assert LowZeros(y >> 7, 1);
      assert LowZeros(y >> 6, 2);
      assert LowZeros(y >> 5, 3);
      assert LowZeros(y >> 4, 4);
      assert LowZeros(y >> 3, 5);
      assert LowZeros(y >> 2, 6);
      assert LowZeros(y >> 1, 7);
    }
  }

  lemma ByteXor(x: bv32, y: bv32)
    requires y & 0xff == 0
    ensures Steps32(Xor(x, y), 8) == Xor(Steps32(x, 8), y >> 8)
  {
    ByteZeros(y);
    ShiftDownByte(y);
    StepsXor(x, y, 8);
  }

  lemma SplitMix(b: bv8, c: bv32)
    ensures Mix(b, c) == Xor(LowByte(Mix(b, c)) as bv32, c & 0xffff_ff00)
    ensures (c & 0xffff_ff00) & 0xff == 0 && (c & 0xffff_ff00) >> 8 == c >> 8
  {
  }

  lemma TableIsSteps(i: bv8)
    ensures Cr3tab(i) == Steps32(i as bv32, 8)
  {
    TableIsSerial32(i);
    SerialIsSteps(i as bv32);
  }

  /** The table-driven update is eight steps of the register. */
  lemma UpdateIsSteps(b: bv8, c: bv32)
    ensures UpdC32(b, c) == Steps32(Mix(b, c), 8)
  {
    hide Cr3tab;
    hide Steps32;
    hide Mix;
    hide LowByte;
    hide Xor;
    SplitMix(b, c);
    TableIsSteps(LowByte(Mix(b, c)));
    ByteXor(LowByte(Mix(b, c)) as bv32, c & 0xffff_ff00);
  }

  lemma StepInjective(x: bv32, y: bv32)
    ensures Step32(x) == Step32(y) ==> x == y
  {
  }

  lemma {:induction false} StepsInjective(x: bv32, y: bv32, n: nat)
    requires Steps32(x, n) == Steps32(y, n)
    ensures x == y
    decreases n
  {
    if n > 0 {
      StepsInjective(Step32(x), Step32(y), n - 1);
      StepInjective(x, y);
    }
  }

  lemma {:induction false} StepsAdd(x: bv32, m: nat, n: nat)
    ensures Steps32(Steps32(x, m), n) == Steps32(x, m + n)
    decreases m
  {
    if m > 0 {
      StepsAdd(Step32(x), m - 1, n);
    }
  }

  lemma SplitWordBits(w: bv32)
    ensures w == ((w & 0xff) as bv8 as bv32) ^ (w & 0xffff_ff00)
  {
  }

  lemma HighPart(w: bv32)
    ensures (w & 0xffff_ff00) & 0xff == 0 && (w & 0xffff_ff00) >> 8 == w >> 8
  {
  }

  lemma SplitWord(c: bv32, w: bv32)
    ensures Xor(c, w) == Xor(Mix(LowByte(w), c), w & 0xffff_ff00)
  {
    SplitWordBits(w);
    assert w == Xor(LowByte(w) as bv32, w & 0xffff_ff00);
    XorAssociative(c, LowByte(w) as bv32, w & 0xffff_ff00);
  }

  function Byte1(w: bv32): bv32 { w >> 8 }

  function Byte2(w: bv32): bv32 { w >> 16 }

  function Byte3(w: bv32): bv32 { w >> 24 }

  /** A word enters the register byte by byte, low byte first. */
  lemma AbsorbByte(c: bv32, w: bv32)
    ensures Steps32(Xor(c, w), 8) == Xor(UpdC32(LowByte(w), c), Byte1(w))
  {
    SplitWord(c, w);
    HighPart(w);
    ByteXor(Mix(LowByte(w), c), w & 0xffff_ff00);
    UpdateIsSteps(LowByte(w), c);
  }

  /** The register after four more bytes. */
  function After4(c: bv32, b0: bv8, b1: bv8, b2: bv8, b3: bv8): bv32 {
    UpdC32(b3, UpdC32(b2, UpdC32(b1, UpdC32(b0, c))))
  }

  function Word(b0: bv8, b1: bv8, b2: bv8, b3: bv8): bv32 {
    (b0 as bv32) | ((b1 as bv32) << 8) | ((b2 as bv32) << 16) | ((b3 as bv32) << 24)
  }

  lemma WordBytes(b0: bv8, b1: bv8, b2: bv8, b3: bv8)
    ensures LowByte(Word(b0, b1, b2, b3)) == b0
    ensures LowByte(Byte1(Word(b0, b1, b2, b3))) == b1
    ensures LowByte(Byte2(Word(b0, b1, b2, b3))) == b2
    ensures LowByte(Byte3(Word(b0, b1, b2, b3))) == b3
  {
  }

  lemma WordOfBytes(w: bv32)
    ensures Word(LowByte(w), LowByte(Byte1(w)), LowByte(Byte2(w)), LowByte(Byte3(w))) == w
  {
  }

  lemma ByteShifts(w: bv32)
    ensures Byte1(Byte1(w)) == Byte2(w) && Byte1(Byte2(w)) == Byte3(w) && Byte1(Byte3(w)) == 0
  {
  }

  lemma XorZero(x: bv32)
    ensures Xor(x, 0) == x
  {
  }

  lemma FourTimes(x0: bv32, x1: bv32, x2: bv32, x3: bv32, x4: bv32)
    requires Steps32(x0, 8) == x1 && Steps32(x1, 8) == x2 && Steps32(x2, 8) == x3 && Steps32(x3, 8) == x4
    ensures Steps32(x0, 32) == x4
  {
    StepsAdd(x0, 8, 24);
    StepsAdd(x1, 8, 16);
    StepsAdd(x2, 8, 8);
  }

  lemma AbsorbWord(c: bv32, w: bv32)
    ensures Steps32(Xor(c, w), 32) == After4(c, LowByte(w), LowByte(Byte1(w)), LowByte(Byte2(w)), LowByte(Byte3(w)))
  {
    ByteShifts(w);
    var c1 := UpdC32(LowByte(w), c);
    var c2 := UpdC32(LowByte(Byte1(w)), c1);
    var c3 := UpdC32(LowByte(Byte2(w)), c2);
    var c4 := UpdC32(LowByte(Byte3(w)), c3);
    AbsorbByte(c, w);
    AbsorbByte(c1, Byte1(w));
    AbsorbByte(c2, Byte2(w));
    AbsorbByte(c3, Byte3(w));
    XorZero(c4);
    FourTimes(Xor(c, w), Xor(c1, Byte1(w)), Xor(c2, Byte2(w)), Xor(c3, Byte3(w)), c4);
  }

  /** What the register makes of an all-ones word. */
  lemma ResidueOfOnes()
    ensures Steps32(0xffff_ffff, 32) == 0xDEBB_20E3
  {
    SerialIsSteps(0xffff_ffff);
    SerialIsSteps(0x2dfd1072);
    SerialIsSteps(0xbe26ed00);
    SerialIsSteps(0x00be26ed);
    SerialOfOnes();
    FourTimes(0xffff_ffff, 0x2dfd1072, 0xbe26ed00, 0x00be26ed, 0xDEBB_20E3);
  }

  lemma SerialOfOnes()
    ensures Serial32(0xffff_ffff) == 0x2dfd1072 && Serial32(0x2dfd1072) == 0xbe26ed00
    ensures Serial32(0xbe26ed00) == 0x00be26ed && Serial32(0x00be26ed) == 0xDEBB_20E3
  {
  }

  function Not(x: bv32): bv32 { !x }

  lemma XorCancels(c: bv32, w: bv32)
    ensures Xor(c, Xor(c, w)) == w
  {
  }

  lemma NotIsXor(c: bv32)
    ensures Not(c) == Xor(c, 0xffff_ffff)
  {
  }

  lemma XorOnes(c: bv32, w: bv32)
    ensures Xor(c, w) == 0xffff_ffff <==> w == Not(c)
  {
    XorCancels(c, w);
    XorCancels(c, 0xffff_ffff);
    NotIsXor(c);
  }

  /** The check bytes the sender computes from the register: its complement,
      low byte first. */
  function CheckBytes32(crc: bv32): seq<bv8> {
    var x := Not(crc);
    [LowByte(x), LowByte(Byte1(x)), LowByte(Byte2(x)), LowByte(Byte3(x))]
  }

  lemma BytesDecideWord(c: bv32, b0: bv8, b1: bv8, b2: bv8, b3: bv8)
    ensures [b0, b1, b2, b3] == CheckBytes32(c) <==> Word(b0, b1, b2, b3) == Not(c)
  {
    WordBytes(b0, b1, b2, b3);
    WordOfBytes(Not(c));
    var s := [b0, b1, b2, b3];
    assert s == CheckBytes32(c) ==> s[0] == LowByte(Not(c)) && s[1] == LowByte(Byte1(Not(c)))
                                    && s[2] == LowByte(Byte2(Not(c))) && s[3] == LowByte(Byte3(Not(c)));
  }

  /** The receiver's test against 0xDEBB20E3 succeeds exactly on the check
      bytes that the sender computes, whatever is in the register. */
  lemma Crc32TestIsExact(c: bv32, b0: bv8, b1: bv8, b2: bv8, b3: bv8)
    ensures After4(c, b0, b1, b2, b3) == 0xDEBB_20E3 <==> [b0, b1, b2, b3] == CheckBytes32(c)
  {
    var w := Word(b0, b1, b2, b3);
    WordBytes(b0, b1, b2, b3);
    AbsorbWord(c, w);
    ResidueOfOnes();
    XorOnes(c, w);
    BytesDecideWord(c, b0, b1, b2, b3);
    if After4(c, b0, b1, b2, b3) == 0xDEBB_20E3 {
      StepsInjective(Xor(c, w), 0xffff_ffff, 32);
    }
  }

  // ---------- 16 bits ----------

  function High16(crc: bv16): bv8 { (crc >> 8) as bv8 }

  function Low16(crc: bv16): bv8 { (crc & 0xff) as bv8 }

  /** The message byte joins what the table and the shift leave. */
  function Add16(x: bv16, b: bv8): bv16 { Xor16(x, b as bv16) }

  function Shift16(t: bv16, crc: bv16): bv16 { Xor16(t, crc << 8) }

  /** updcrc. */
  function UpdCrc(b: bv8, crc: bv16): bv16 {
    Add16(Shift16(Crctab(High16(crc)), crc), b)
  }

  function Xor16(a: bv16, b: bv16): bv16 { a ^ b }

  function Next16(y: bv16, bit: bv16): bv16 { (y << 1) | bit }

  predicate Fits(y: bv16) { y & 0x8000 == 0 }

  /** One step of division by x^16 + x^12 + x^5 + 1: shift in one bit. */
  function Step16(crc: bv16, bit: bv16): bv16 {
    if Fits(crc) then Next16(crc, bit) else Xor16(Next16(crc, bit), 0x1021)
  }

  /** Eight steps shift in a byte, high bit first. */
  function Serial16(crc: bv16, b: bv16): bv16 {
    Step16(Step16(Step16(Step16(Step16(Step16(Step16(Step16(
      crc, (b >> 7) & 1), (b >> 6) & 1), (b >> 5) & 1), (b >> 4) & 1),
      (b >> 3) & 1), (b >> 2) & 1), (b >> 1) & 1), b & 1)
  }

  /** The table holds what eight steps make of its index and a zero byte. */
  lemma TableIsSerial16(i: bv8)
    ensures Crctab(i) == Serial16((i as bv16) << 8, 0)
  {
    hide Crctab;
    hide Serial16;
    LowHalfIsSerial16(i);
    HighHalfIsSerial16(i);
  }

  lemma LowHalfIsSerial16(i: bv8)
    ensures i & 0x80 == 0 ==> Crctab(i) == Serial16((i as bv16) << 8, 0)
  {
  }

  lemma HighHalfIsSerial16(i: bv8)
    ensures i & 0x80 != 0 ==> Crctab(i) == Serial16((i as bv16) << 8, 0)
  {
  }

  /** What is not yet at the top of the register is only shifted. */
  lemma StepSplits(x: bv16, y: bv16, bit: bv16)
    ensures Fits(y) && bit & 0xfffe == 0 ==> Step16(Xor16(x, y), bit) == Xor16(Step16(x, 0), Next16(y, bit))
  {
    TopBit(x, y);
    NextXor(x, y, bit);
    XorSwap(Next16(x, 0), Next16(y, bit), 0x1021);
  }

  lemma TopBit(x: bv16, y: bv16)
    ensures Fits(y) ==> Fits(Xor16(x, y)) == Fits(x)
  {
  }

  lemma NextXor(x: bv16, y: bv16, bit: bv16)
    ensures bit & 0xfffe == 0 ==> Next16(Xor16(x, y), bit) == Xor16(Next16(x, 0), Next16(y, bit))
  {
  }

  lemma XorSwap(a: bv16, b: bv16, c: bv16)
    ensures Xor16(Xor16(a, b), c) == Xor16(Xor16(a, c), b)
  {
  }

  lemma ShiftInByte(y: bv16, b: bv16)
    requires y & 0xff00 == 0 && b & 0xff00 == 0
    ensures var y1 := Next16(y, (b >> 7) & 1); var y2 := Next16(y1, (b >> 6) & 1);
            var y3 := Next16(y2, (b >> 5) & 1); var y4 := Next16(y3, (b >> 4) & 1);
            var y5 := Next16(y4, (b >> 3) & 1); var y6 := Next16(y5, (b >> 2) & 1);
            var y7 := Next16(y6, (b >> 1) & 1);
            && Fits(y) && Fits(y1) && Fits(y2) && Fits(y3) && Fits(y4) && Fits(y5) && Fits(y6) && Fits(y7)
            && Next16(y7, b & 1) == (y << 8) | b
  {
  }

  lemma BitIsSmall(b: bv16)
    ensures (b & 1) & 0xfffe == 0
  {
  }

  lemma SerialSplits(x: bv16, y: bv16, b: bv16)
    requires y & 0xff00 == 0 && b & 0xff00 == 0
    ensures Serial16(Xor16(x, y), b) == Xor16(Serial16(x, 0), (y << 8) | b)
  {
    ShiftInByte(y, b);
    var b7, b6, b5, b4 := (b >> 7) & 1, (b >> 6) & 1, (b >> 5) & 1, (b >> 4) & 1;
    var b3, b2, b1, b0 := (b >> 3) & 1, (b >> 2) & 1, (b >> 1) & 1, b & 1;
    BitIsSmall(b >> 7);
    BitIsSmall(b >> 6);
    BitIsSmall(b >> 5);
    BitIsSmall(b >> 4);
    BitIsSmall(b >> 3);
    BitIsSmall(b >> 2);
    BitIsSmall(b >> 1);
    BitIsSmall(b);
    var x1, y1 := Step16(x, 0), Next16(y, b7);
    var x2, y2 := Step16(x1, 0), Next16(y1, b6);
    var x3, y3 := Step16(x2, 0), Next16(y2, b5);
    var x4, y4 := Step16(x3, 0), Next16(y3, b4);
    var x5, y5 := Step16(x4, 0), Next16(y4, b3);
    var x6, y6 := Step16(x5, 0), Next16(y5, b2);
    var x7, y7 := Step16(x6, 0), Next16(y6, b1);
    StepSplits(x, y, b7);
    StepSplits(x1, y1, b6);
    StepSplits(x2, y2, b5);
    StepSplits(x3, y3, b4);
    StepSplits(x4, y4, b3);
    StepSplits(x5, y5, b2);
    StepSplits(x6, y6, b1);
    StepSplits(x7, y7, b0);
  }

  /** The same eight steps, bit by bit. */
  function Steps16(crc: bv16, b: bv8, n: nat): bv16
    decreases n
  {
    if n == 0 then crc else Steps16(Step16(crc, TopBitOf(b)), b << 1, n - 1)
  }

  function TopBitOf(b: bv8): bv16 { (b >> 7) as bv16 }

  lemma BitsOf(b: bv8)
    ensures var w := b as bv16;
            && TopBitOf(b) == (w >> 7) & 1 && TopBitOf(b << 1) == (w >> 6) & 1 && TopBitOf(b << 2) == (w >> 5) & 1
            && TopBitOf(b << 3) == (w >> 4) & 1 && TopBitOf(b << 4) == (w >> 3) & 1 && TopBitOf(b << 5) == (w >> 2) & 1
            && TopBitOf(b << 6) == (w >> 1) & 1 && TopBitOf(b << 7) == w & 1
    ensures (b << 1) << 1 == b << 2 && (b << 2) << 1 == b << 3 && (b << 3) << 1 == b << 4 && (b << 4) << 1 == b << 5
    ensures (b << 5) << 1 == b << 6 && (b << 6) << 1 == b << 7
  {
  }

  lemma SerialIsSteps16(x: bv16, b: bv8)
    ensures Serial16(x, b as bv16) == Steps16(x, b, 8)
  {
    BitsOf(b);
    var x1 := Step16(x, TopBitOf(b));
    var x2 := Step16(x1, TopBitOf(b << 1));
    var x3 := Step16(x2, TopBitOf(b << 2));
    var x4 := Step16(x3, TopBitOf(b << 3));
    assert Steps16(x, b, 8) == Steps16(x1, b << 1, 7) == Steps16(x2, b << 2, 6);
    assert Steps16(x2, b << 2, 6) == Steps16(x3, b << 3, 5) == Steps16(x4, b << 4, 4);
    var x5 := Step16(x4, TopBitOf(b << 4));
    var x6 := Step16(x5, TopBitOf(b << 5));
    var x7 := Step16(x6, TopBitOf(b << 6));
    assert Steps16(x4, b << 4, 4) == Steps16(x5, b << 5, 3) == Steps16(x6, b << 6, 2);
    assert Steps16(x6, b << 6, 2) == Steps16(x7, b << 7, 1) == Step16(x7, TopBitOf(b << 7));
  }

  lemma TableIsSteps16(i: bv8)
    ensures Crctab(i) == Steps16((i as bv16) << 8, 0, 8)
  {
    TableIsSerial16(i);
    SerialIsSteps16((i as bv16) << 8, 0);
  }

  lemma StepsSplit16(x: bv16, y: bv16, b: bv8)
    requires y & 0xff00 == 0
    ensures Steps16(Xor16(x, y), b, 8) == Xor16(Steps16(x, 0, 8), Under(y, b))
  {
    ByteIsSmall(b);
    SerialSplits(x, y, b as bv16);
    SerialIsSteps16(Xor16(x, y), b);
    SerialIsSteps16(x, 0);
  }

  lemma ByteIsSmall(b: bv8)
    ensures (b as bv16) & 0xff00 == 0
  {
  }

  lemma SplitRegister(crc: bv16)
    ensures crc == Xor16((High16(crc) as bv16) << 8, crc & 0xff) && (crc & 0xff) & 0xff00 == 0
  {
  }

  lemma ShiftedOut(t: bv16, crc: bv16, b: bv8)
    ensures Xor16(t, Under(crc & 0xff, b)) == Add16(Shift16(t, crc), b)
  {
    UnderIsXor(crc, b);
    XorAssociative16(t, crc << 8, b as bv16);
  }

  function Under(y: bv16, b: bv8): bv16 { (y << 8) | (b as bv16) }

  lemma UnderIsXor(crc: bv16, b: bv8)
    ensures Under(crc & 0xff, b) == Xor16(crc << 8, b as bv16)
  {
  }

  lemma XorAssociative16(a: bv16, b: bv16, c: bv16)
    ensures Xor16(a, Xor16(b, c)) == Xor16(Xor16(a, b), c)
  {
  }

  /** The table-driven update is eight steps of the division. */
  lemma UpdateIsSteps16(b: bv8, crc: bv16)
    ensures UpdCrc(b, crc) == Steps16(crc, b, 8)
  {
    TableIsSteps16(High16(crc));
    SplitRegister(crc);
    ShiftedOut(Crctab(High16(crc)), crc, b);
    StepsSplit16((High16(crc) as bv16) << 8, crc & 0xff, b);
  }

  /** The sender's two check bytes: the register after two zero bytes. */
  function Check16(crc: bv16): bv16 { UpdCrc(0, UpdCrc(0, crc)) }

  function CheckBytes16(crc: bv16): seq<bv8> { [High16(Check16(crc)), Low16(Check16(crc))] }

  lemma AddZero(x: bv16, b: bv8)
    ensures Add16(x, 0) == x && High16(Add16(x, b)) == High16(x)
  {
  }

  function Join16(b1: bv8, b2: bv8): bv16 { ((b1 as bv16) << 8) | (b2 as bv16) }

  lemma AddThenShift(t: bv16, y: bv16, b1: bv8, b2: bv8)
    ensures Add16(Shift16(t, Add16(y, b1)), b2) == Xor16(Shift16(t, y), Join16(b1, b2))
  {
  }

  lemma XorIsZero(x: bv16, y: bv16)
    ensures Xor16(x, y) == 0 ==> x == y
    ensures Xor16(x, x) == 0
  {
  }

  lemma JoinIsInverse(x: bv16, b1: bv8, b2: bv8)
    ensures Join16(High16(x), Low16(x)) == x
    ensures High16(Join16(b1, b2)) == b1 && Low16(Join16(b1, b2)) == b2
  {
  }

  lemma ZeroIff(x: bv16, b1: bv8, b2: bv8)
    ensures Xor16(x, Join16(b1, b2)) == 0 <==> [b1, b2] == [High16(x), Low16(x)]
  {
    XorIsZero(x, Join16(b1, b2));
    JoinIsInverse(x, b1, b2);
    var s := [b1, b2];
    assert s == [High16(x), Low16(x)] ==> s[0] == High16(x) && s[1] == Low16(x);
  }

  /** The receiver's test against 0 succeeds exactly on the check bytes that
      the sender computes, whatever is in the register. */
  lemma Crc16TestIsExact(crc: bv16, b1: bv8, b2: bv8)
    ensures UpdCrc(b2, UpdCrc(b1, crc)) == 0 <==> [b1, b2] == CheckBytes16(crc)
  {
    var y := Shift16(Crctab(High16(crc)), crc);
    AddZero(y, 0);
    AddZero(y, b1);
    assert UpdCrc(0, crc) == y;
    var t := Crctab(High16(y));
    AddZero(Shift16(t, y), 0);
    assert Check16(crc) == Shift16(t, y);
    AddThenShift(t, y, b1, b2);
    ZeroIff(Shift16(t, y), b1, b2);
  }
}
