/** Known values: what the check sequences, headers and subpackets come to on
    given bytes, and what single characters mean. */
module ZmodemKnown {
  import opened ZmodemLine
  import opened ZmodemData
  import opened ZmodemHeader
  import opened ZmodemHunt
  import opened ZmodemTransfer
  import opened ZmodemSender
  import opened ZmodemFile
  import opened ByteDigits
  import Crc = ZmodemCrc

  /** The characters 1 to 9. */
  const NINE: seq<Byte> := [0x31, 0x32, 0x33, 0x34, 0x35, 0x36, 0x37, 0x38, 0x39]

  lemma Added(f: Fcs, s: seq<Byte>, k: nat, g: Fcs, h: Fcs)
    requires k < |s| && AddAll(f, s[..k]) == g && Add(g, s[k]) == h
    ensures AddAll(f, s[..k + 1]) == h
  {
    AddNext(f, s, k);
  }

  lemma OneStep(c: bv32, b: Byte, i: Byte, t: bv32, d: bv32)
    requires Crc.LowByte(Crc.Mix(b, c)) == i && Crc.Serial32(i as bv32) == t && Crc.Xor(t, c >> 8) == d
    ensures Add(Fcs32(c), b) == Fcs32(d)
  {
    hide Crc.Cr3tab;
    Crc.TableIsSerial32(i);
  }

  lemma AddedNone(f: Fcs, s: seq<Byte>)
    ensures AddAll(f, s[..0]) == f
  {
  }

  lemma Nine32Steps1()
    ensures Add(Fcs32(0xffff_ffff), 0x31) == Fcs32(0x7c23_1048)
  {
    OneStep(0xffff_ffff, 0x31, 0xce, 0x7cdc_efb7, 0x7c23_1048);
  }

  lemma Nine32Steps2()
    ensures Add(Fcs32(0x7c23_1048), 0x32) == Fcs32(0xb0ac_bb32)
  {
    OneStep(0x7c23_1048, 0x32, 0x7a, 0xb0d0_9822, 0xb0ac_bb32);
  }

  lemma Nine32Steps3()
    ensures Add(Fcs32(0xb0ac_bb32), 0x33) == Fcs32(0x77b7_9c2d)
  {
    OneStep(0xb0ac_bb32, 0x33, 0x01, 0x7707_3096, 0x77b7_9c2d);
  }

  lemma Nine32Steps4()
    ensures Add(Fcs32(0x77b7_9c2d), 0x34) == Fcs32(0x641c_1f5c)
  {
    OneStep(0x77b7_9c2d, 0x34, 0x19, 0x646b_a8c0, 0x641c_1f5c);
  }

  lemma Nine32Steps5()
    ensures Add(Fcs32(0x641c_1f5c), 0x35) == Fcs32(0x340a_c5e3)
  {
    OneStep(0x641c_1f5c, 0x35, 0x69, 0x346e_d9fc, 0x340a_c5e3);
  }

  lemma Nine32Steps6()
    ensures Add(Fcs32(0x340a_c5e3), 0x36) == Fcs32(0xf68d_2c9e)
  {
    OneStep(0x340a_c5e3, 0x36, 0xd5, 0xf6b9_265b, 0xf68d_2c9e);
  }

  lemma Nine32Steps7()
    ensures Add(Fcs32(0xf68d_2c9e), 0x37) == Fcs32(0xaffc_9660)
  {
    OneStep(0xf68d_2c9e, 0x37, 0xa9, 0xaf0a_1b4c, 0xaffc_9660);
  }

  lemma Nine32Steps8()
    ensures Add(Fcs32(0xaffc_9660), 0x38) == Fcs32(0x651f_2550)
  {
    OneStep(0xaffc_9660, 0x38, 0x58, 0x65b0_d9c6, 0x651f_2550);
  }

  lemma Nine32Steps9()
    ensures Add(Fcs32(0x651f_2550), 0x39) == Fcs32(0x340b_c6d9)
  {
    OneStep(0x651f_2550, 0x39, 0x69, 0x346e_d9fc, 0x340b_c6d9);
  }

  lemma Nine32()
    ensures AddAll(Start(true), NINE) == Fcs32(0x340b_c6d9)
  {
    hide Add;
    hide AddAll;
    var s: seq<Byte> := NINE;
    Nine32Steps1();
    Nine32Steps2();
    Nine32Steps3();
    Nine32Steps4();
    Nine32Steps5();
    Nine32Steps6();
    Nine32Steps7();
    Nine32Steps8();
    Nine32Steps9();
    AddedNone(Start(true), s);
    Added(Start(true), s, 0, Fcs32(0xffff_ffff), Fcs32(0x7c23_1048));
    Added(Start(true), s, 1, Fcs32(0x7c23_1048), Fcs32(0xb0ac_bb32));
    Added(Start(true), s, 2, Fcs32(0xb0ac_bb32), Fcs32(0x77b7_9c2d));
    Added(Start(true), s, 3, Fcs32(0x77b7_9c2d), Fcs32(0x641c_1f5c));
    Added(Start(true), s, 4, Fcs32(0x641c_1f5c), Fcs32(0x340a_c5e3));
    Added(Start(true), s, 5, Fcs32(0x340a_c5e3), Fcs32(0xf68d_2c9e));
    Added(Start(true), s, 6, Fcs32(0xf68d_2c9e), Fcs32(0xaffc_9660));
    Added(Start(true), s, 7, Fcs32(0xaffc_9660), Fcs32(0x651f_2550));
    Added(Start(true), s, 8, Fcs32(0x651f_2550), Fcs32(0x340b_c6d9));
    assert s[..9] == s;
  }

  lemma Nine16Steps1()
    ensures Add(Fcs16(0x0000), 0x31) == Fcs16(0x0031)
    ensures Add(Fcs16(0x0031), 0x32) == Fcs16(0x3132)
    ensures Add(Fcs16(0x3132), 0x33) == Fcs16(0x1441)
  {
  }

  lemma Nine16Steps2()
    ensures Add(Fcs16(0x1441), 0x34) == Fcs16(0x1381)
    ensures Add(Fcs16(0x1381), 0x35) == Fcs16(0xa367)
    ensures Add(Fcs16(0xa367), 0x36) == Fcs16(0xe2bf)
  {
  }

  lemma Nine16Steps3()
    ensures Add(Fcs16(0xe2bf), 0x37) == Fcs16(0x625b)
    ensures Add(Fcs16(0x625b), 0x38) == Fcs16(0x17dc)
    ensures Add(Fcs16(0x17dc), 0x39) == Fcs16(0xbeef)
  {
  }

  lemma Nine16()
    ensures AddAll(Start(false), NINE) == Fcs16(0xbeef)
  {
    hide Add;
    hide AddAll;
    var s: seq<Byte> := NINE;
    Nine16Steps1();
    Nine16Steps2();
    Nine16Steps3();
    AddedNone(Start(false), s);
    Added(Start(false), s, 0, Fcs16(0x0000), Fcs16(0x0031));
    Added(Start(false), s, 1, Fcs16(0x0031), Fcs16(0x3132));
    Added(Start(false), s, 2, Fcs16(0x3132), Fcs16(0x1441));
    Added(Start(false), s, 3, Fcs16(0x1441), Fcs16(0x1381));
    Added(Start(false), s, 4, Fcs16(0x1381), Fcs16(0xa367));
    Added(Start(false), s, 5, Fcs16(0xa367), Fcs16(0xe2bf));
    Added(Start(false), s, 6, Fcs16(0xe2bf), Fcs16(0x625b));
    Added(Start(false), s, 7, Fcs16(0x625b), Fcs16(0x17dc));
    Added(Start(false), s, 8, Fcs16(0x17dc), Fcs16(0xbeef));
    assert s[..9] == s;
  }

  /** The check value of CRC-32, as a ZCRC reports it. */
  lemma CheckValue32()
    ensures FileCheck(NINE) == 0xcbf4_3926
  {
    hide AddAll;
    Nine32();
  }

  lemma TwoZeros(r: bv16, r1: bv16, r2: bv16, high: Byte, low: Byte)
    requires Crc.UpdCrc(0, r) == r1 && Crc.UpdCrc(0, r1) == r2
    requires Crc.High16(r2) == high && Crc.Low16(r2) == low
    ensures CheckBytes(Fcs16(r)) == [high, low]
  {
  }

  lemma NineZeros()
    ensures Crc.UpdCrc(0, 0xbeef) == 0xa915 && Crc.UpdCrc(0, 0xa915) == 0x31c3
    ensures Crc.High16(0x31c3) == 0x31 && Crc.Low16(0x31c3) == 0xc3
  {
  }

  /** The check value of CRC-16 with this polynomial, high byte first. */
  lemma CheckValue16()
    ensures CheckBytes(AddAll(Start(false), NINE)) == [0x31, 0xc3]
  {
    hide AddAll;
    hide CheckBytes;
    hide Crc.UpdCrc;
    Nine16();
    NineZeros();
    TwoZeros(0xbeef, 0xa915, 0x31c3, 0x31, 0xc3);
  }

  lemma RinitSumSteps1()
    ensures Add(Fcs16(0x0000), 0x01) == Fcs16(0x0001)
    ensures Add(Fcs16(0x0001), 0x00) == Fcs16(0x0100)
    ensures Add(Fcs16(0x0100), 0x00) == Fcs16(0x1021)
  {
  }

  lemma RinitSumSteps2()
    ensures Add(Fcs16(0x1021), 0x00) == Fcs16(0x3331)
    ensures Add(Fcs16(0x3331), 0x23) == Fcs16(0x3713)
  {
  }

  lemma RinitSum()
    ensures AddAll(Start(false), [0x01, 0x00, 0x00, 0x00, 0x23]) == Fcs16(0x3713)
  {
    hide Add;
    hide AddAll;
    var s: seq<Byte> := [0x01, 0x00, 0x00, 0x00, 0x23];
    RinitSumSteps1();
    RinitSumSteps2();
    AddedNone(Start(false), s);
    Added(Start(false), s, 0, Fcs16(0x0000), Fcs16(0x0001));
    Added(Start(false), s, 1, Fcs16(0x0001), Fcs16(0x0100));
    Added(Start(false), s, 2, Fcs16(0x0100), Fcs16(0x1021));
    Added(Start(false), s, 3, Fcs16(0x1021), Fcs16(0x3331));
    Added(Start(false), s, 4, Fcs16(0x3331), Fcs16(0x3713));
    assert s[..5] == s;
  }

  lemma RinitZeros()
    ensures Crc.UpdCrc(0, 0x3713) == 0x55b4 && Crc.UpdCrc(0, 0x55b4) == 0xbe50
    ensures Crc.High16(0xbe50) == 0xbe && Crc.Low16(0xbe50) == 0x50
  {
  }

  /** The ZRINIT header "**", ZDLE, "B0100000023be50", CR, LF, XON. */
  lemma RinitHeader()
    ensures HexHeader(1, [0, 0, 0, 0x23])
            == [0x2a, 0x2a, 0x18, 0x42, 0x30, 0x31, 0x30, 0x30, 0x30, 0x30, 0x30, 0x30, 0x32, 0x33, 0x62, 0x65, 0x35, 0x30, 0x0d, 0x8a, 0x11]
  {
    hide AddAll;
    hide CheckBytes;
    hide Crc.UpdCrc;
    RinitSum();
    RinitZeros();
    TwoZeros(0x3713, 0x55b4, 0xbe50, 0xbe, 0x50);
    SevenOfOne();
    var hdr, s: seq<Byte> := [0, 0, 0, 0x23], [0x01, 0x00, 0x00, 0x00, 0x23];
    assert [Seven(1)] + hdr == s;
    RinitDigits();
    hide Seven;
    hide Hex;
  }

  lemma SevenOfOne()
    ensures Seven(1) == 1 && Seven(1) != ZFIN && Seven(1) != ZACK
  {
  }

  lemma RinitDigits()
    ensures Hex([0x01, 0x00, 0x00, 0x00, 0x23] + [0xbe, 0x50])
            == [0x30, 0x31, 0x30, 0x30, 0x30, 0x30, 0x30, 0x30, 0x32, 0x33, 0x62, 0x65, 0x35, 0x30]
  {
    var s1, s2, s: seq<Byte> := [0x01, 0x00, 0x00, 0x00, 0x23], [0xbe, 0x50], [0x01, 0x00, 0x00, 0x00, 0x23, 0xbe, 0x50];
    assert s1 + s2 == s && s[0..] == s && s[7..] == [];
    DigitPairs();
    hide PutHex;
    hide Hex;
    NoHex();
    HexPair(s, 6, 0x35, 0x30, []);
    HexPair(s, 5, 0x62, 0x65, [0x35, 0x30]);
    HexPair(s, 4, 0x32, 0x33, [0x62, 0x65, 0x35, 0x30]);
    HexPair(s, 3, 0x30, 0x30, [0x32, 0x33, 0x62, 0x65, 0x35, 0x30]);
    HexPair(s, 2, 0x30, 0x30, [0x30, 0x30, 0x32, 0x33, 0x62, 0x65, 0x35, 0x30]);
    HexPair(s, 1, 0x30, 0x30, [0x30, 0x30, 0x30, 0x30, 0x32, 0x33, 0x62, 0x65, 0x35, 0x30]);
    HexPair(s, 0, 0x30, 0x31, [0x30, 0x30, 0x30, 0x30, 0x30, 0x30, 0x32, 0x33, 0x62, 0x65, 0x35, 0x30]);
  }

  lemma NoHex()
    ensures Hex([]) == []
  {
  }

  lemma HexPair(s: seq<Byte>, k: nat, a: Byte, b: Byte, rest: seq<Byte>)
    requires k < |s| && PutHex(s[k]) == [a, b] && Hex(s[k + 1..]) == rest
    ensures Hex(s[k..]) == [a, b] + rest
  {
    assert s[k..][1..] == s[k + 1..];
  }

  lemma DigitPairs()
    ensures PutHex(0x00) == [0x30, 0x30] && PutHex(0x01) == [0x30, 0x31] && PutHex(0x23) == [0x32, 0x33]
    ensures PutHex(0xbe) == [0x62, 0x65] && PutHex(0x50) == [0x35, 0x30]
  {
  }

  lemma Packet32SumSteps1()
    ensures Add(Fcs32(0xffff_ffff), 0x41) == Fcs32(0x2c26_6174)
  {
    OneStep(0xffff_ffff, 0x41, 0xbe, 0x2cd9_9e8b, 0x2c26_6174);
  }

  lemma Packet32SumSteps2()
    ensures Add(Fcs32(0x2c26_6174), 0x68) == Fcs32(0x142d_7a2e)
  {
    OneStep(0x2c26_6174, 0x68, 0x1c, 0x1401_5c4f, 0x142d_7a2e);
  }

  lemma Packet32Sum()
    ensures AddAll(Start(true), [0x41, 0x68]) == Fcs32(0x142d_7a2e)
  {
    hide Add;
    hide AddAll;
    var s: seq<Byte> := [0x41, 0x68];
    Packet32SumSteps1();
    Packet32SumSteps2();
    AddedNone(Start(true), s);
    Added(Start(true), s, 0, Fcs32(0xffff_ffff), Fcs32(0x2c26_6174));
    Added(Start(true), s, 1, Fcs32(0x2c26_6174), Fcs32(0x142d_7a2e));
    assert s[..2] == s;
  }

  lemma Packet16SumSteps()
    ensures Add(Fcs16(0x0000), 0x41) == Fcs16(0x0041)
    ensures Add(Fcs16(0x0041), 0x68) == Fcs16(0x4168)
  {
  }

  lemma Packet16Sum()
    ensures AddAll(Start(false), [0x41, 0x68]) == Fcs16(0x4168)
  {
    hide Add;
    hide AddAll;
    var s: seq<Byte> := [0x41, 0x68];
    Packet16SumSteps();
    AddedNone(Start(false), s);
    Added(Start(false), s, 0, Fcs16(0x0000), Fcs16(0x0041));
    Added(Start(false), s, 1, Fcs16(0x0041), Fcs16(0x4168));
    assert s[..2] == s;
  }

  lemma Packet16Zeros()
    ensures Crc.UpdCrc(0, 0x4168) == 0x30e5 && Crc.UpdCrc(0, 0x30e5) == 0xd353
    ensures Crc.High16(0xd353) == 0xd3 && Crc.Low16(0xd353) == 0x53
  {
  }

  lemma DefaultIsBare(c: Byte)
    requires !IsControl(c) || c == 0x85 || c == 0x0a || c < 5
    ensures Table(false, false)(c) == 0
  {
  }

  /** The letter A in a subpacket with either check: the data, ZDLE and the
      frame end, and the check over both. */
  lemma PacketOfA(wide: bool)
    ensures Packet(Table(false, false), 0, wide, Subpacket([0x41], ZCRCE))
            == if wide then [0x41, ZDLE, 0x68, 0xd1, 0x85, 0xd2, 0xeb] else [0x41, ZDLE, 0x68, 0xd3, 0x53]
  {
    hide AddAll;
    hide CheckBytes;
    hide Encode;
    hide Add;
    hide LastOf;
    var t, p := Table(false, false), Subpacket([0x41], ZCRCE);
    var check := CheckBytes(Checked(wide, p));
    CheckOfA(wide);
    forall c | c in check || c == 0x41
      ensures t(c) == 0 && CheckTab(wide, t)(c) == 0
    {
      DefaultIsBare(c);
    }
    BareRun(t, 0, [0x41]);
    BareRun(CheckTab(wide, t), LastOf(t, 0, [0x41]), check);
  }

  lemma CheckOfA(wide: bool)
    ensures CheckBytes(Checked(wide, Subpacket([0x41], ZCRCE))) == if wide then [0xd1, 0x85, 0xd2, 0xeb] else [0xd3, 0x53]
  {
    hide AddAll;
    hide Crc.UpdCrc;
    var a, b: seq<Byte> := [0x41], [0x41, 0x68];
    AddLast(Start(wide), a, 0x68);
    assert a + [0x68] == b;
    if wide {
      Packet32Sum();
      CheckOfA32();
    } else {
      Packet16Sum();
      Packet16Zeros();
      TwoZeros(0x4168, 0x30e5, 0xd353, 0xd3, 0x53);
    }
  }

  lemma CheckOfA32()
    ensures CheckBytes(Fcs32(0x142d_7a2e)) == [0xd1, 0x85, 0xd2, 0xeb]
  {
  }

  lemma DataSumSteps1()
    ensures Add(Fcs16(0x0000), 0x0a) == Fcs16(0x000a)
    ensures Add(Fcs16(0x000a), 0x04) == Fcs16(0x0a04)
    ensures Add(Fcs16(0x0a04), 0x03) == Fcs16(0xa549)
  {
  }

  lemma DataSumSteps2()
    ensures Add(Fcs16(0xa549), 0x02) == Fcs16(0xac4d)
    ensures Add(Fcs16(0xac4d), 0x01) == Fcs16(0x3967)
  {
  }

  lemma DataSum()
    ensures AddAll(Start(false), [0x0a, 0x04, 0x03, 0x02, 0x01]) == Fcs16(0x3967)
  {
    hide Add;
    hide AddAll;
    var s: seq<Byte> := [0x0a, 0x04, 0x03, 0x02, 0x01];
    DataSumSteps1();
    DataSumSteps2();
    AddedNone(Start(false), s);
    Added(Start(false), s, 0, Fcs16(0x0000), Fcs16(0x000a));
    Added(Start(false), s, 1, Fcs16(0x000a), Fcs16(0x0a04));
    Added(Start(false), s, 2, Fcs16(0x0a04), Fcs16(0xa549));
    Added(Start(false), s, 3, Fcs16(0xa549), Fcs16(0xac4d));
    Added(Start(false), s, 4, Fcs16(0xac4d), Fcs16(0x3967));
    assert s[..5] == s;
  }

  lemma DataZeros()
    ensures Crc.UpdCrc(0, 0x3967) == 0xc07a && Crc.UpdCrc(0, 0xc07a) == 0xa34c
    ensures Crc.High16(0xa34c) == 0xa3 && Crc.Low16(0xa34c) == 0x4c
  {
  }

  /** A position goes into a header low byte first. */
  lemma PositionBytes(pos: nat)
    ensures var hdr := Stohdr(pos);
            && hdr[0] as nat == pos % 256 && hdr[1] as nat == pos / 256 % 256
            && hdr[2] as nat == pos / 256 / 256 % 256 && hdr[3] as nat == pos / 256 / 256 / 256 % 256
  {
    hide ByteOf;
    var q := pos / 256;
    assert Digits(pos, 4)[1..] == Digits(q, 3) && Digits(q, 3)[1..] == Digits(q / 256, 2);
    assert Digits(q / 256, 2)[1..] == Digits(q / 256 / 256, 1);
  }

  lemma PositionExample(pos: nat)
    requires pos == 0x0102_0304
    ensures Stohdr(pos) == [4, 3, 2, 1]
  {
    hide Stohdr;
    PositionBytes(pos);
    var hdr := Stohdr(pos);
    SmallBytes(hdr[0], hdr[1], hdr[2], hdr[3]);
  }

  lemma SmallBytes(a: Byte, b: Byte, c: Byte, d: Byte)
    requires a as nat == 4 && b as nat == 3 && c as nat == 2 && d as nat == 1
    ensures a == 4 && b == 3 && c == 2 && d == 1
  {
  }

  /** The ZDATA header for that position, with the 16-bit check. */
  lemma DataHeader()
    ensures BinHeader(Table(false, false), 0, false, ZDATA, Stohdr(0x0102_0304))
            == [0x2a, 0x18, 0x41, 0x0a, 0x04, 0x03, 0x02, 0x01, 0xa3, 0x4c]
  {
    hide AddAll;
    hide CheckBytes;
    hide Encode;
    hide LastOf;
    hide Crc.UpdCrc;
    hide Stohdr;
    var t := Table(false, false);
    var s, check: seq<Byte> := [0x0a, 0x04, 0x03, 0x02, 0x01], [0xa3, 0x4c];
    PositionExample(0x0102_0304);
    assert [ZDATA] + [4, 3, 2, 1] == s;
    DataSum();
    DataZeros();
    TwoZeros(0x3967, 0xc07a, 0xa34c, 0xa3, 0x4c);
    forall c | c in s || c in check
      ensures t(c) == 0
    {
      DefaultIsBare(c);
    }
    BareRun(t, 0, s);
    BareRun(t, LastOf(t, 0, s), check);
  }

  // ---------- single characters ----------

  /** DEL of either parity can be sent as two codes that are no flipped ones. */
  lemma RubOutIsRead(ctlesc: bool, u: seq<Byte>)
    ensures Read(ctlesc, [ZDLE, 0x6c] + u) == Reading(Data(0x7f), u)
    ensures Read(ctlesc, [ZDLE, 0x6d] + u) == Reading(Data(0xff), u)
  {
    BehindEscape(ctlesc, 0x6c, u);
    BehindEscape(ctlesc, 0x6d, u);
  }

  lemma BehindEscape(ctlesc: bool, c: Byte, u: seq<Byte>)
    requires !IsControl(c)
    ensures Read(ctlesc, [ZDLE, c] + u) == Reading(Unescape(c), u)
  {
    var t := [ZDLE, c] + u;
    assert t[1..] == [c] + u && t[1..][1..] == u;
  }

  /** What noxrd7 passes over: flow control always, other control characters
      than CR, LF and the escape character with the setting. */
  lemma PassedOver7(ctlesc: bool, c: Byte, u: seq<Byte>)
    ensures if c == 0x11 || c == 0x91 || c == 0x13 || c == 0x93 then Read7(ctlesc, [c] + u) == Read7(ctlesc, u)
            else if Seven(c) == 0x0d || Seven(c) == 0x0a || Seven(c) == 0x18 || !IsControl(c) || !ctlesc
            then Read7(ctlesc, [c] + u) == Reading(Data(Seven(c)), u)
            else Read7(ctlesc, [c] + u) == Read7(ctlesc, u)
  {
    Parity(c);
    assert ([c] + u)[1..] == u;
  }

  lemma Parity(c: Byte)
    ensures Seven(c) == XON <==> c == 0x11 || c == 0x91
    ensures Seven(c) == XOFF <==> c == 0x13 || c == 0x93
    ensures IsControl(Seven(c)) <==> IsControl(c)
  {
  }

  /** A ZCRCW behind a CAN is an error at once. */
  lemma CanAndFrameEnd(ctlesc: bool, u: seq<Byte>, garbage: nat)
    ensures Hunt(ctlesc, [CAN, ZCRCW] + u, garbage, CANS) == HeaderReading(NoHeader(Error), u)
  {
    var t := [CAN, ZCRCW] + u;
    assert t[1..] == [ZCRCW] + u && t[1..][1..] == u;
  }

  // ---------- the end of a hex header ----------

  lemma DigitsAreRead(ctlesc: bool, c: Byte, u: seq<Byte>)
    ensures ReadHex(ctlesc, PutHex(c) + u) == Reading(Data(c), u)
  {
    hide DigitValue;
    hide HexDigit;
    hide High4;
    hide Low4;
    hide Joined;
    hide Skips7;
    hide Seven;
    HalvesJoin(c);
    DigitRoundTrip(High4(c));
    DigitRoundTrip(Low4(c));
    DigitIsNotSkipped(ctlesc, High4(c));
    DigitIsNotSkipped(ctlesc, Low4(c));
    var t := PutHex(c) + u;
    assert t[1..] == [HexDigit(Low4(c))] + u && t[1..][1..] == u;
  }

  lemma DigitIsNotSkipped(ctlesc: bool, n: Byte)
    ensures n < 16 ==> !Skips7(ctlesc, Seven(HexDigit(n)))
  {
    DigitRoundTrip(n);
    DigitIsNotFlow(n);
  }

  lemma DigitIsNotFlow(n: Byte)
    ensures n < 16 ==> HexDigit(n) != XON && HexDigit(n) != XOFF
  {
  }

  lemma {:induction false} AllDigitsAreRead(ctlesc: bool, s: seq<Byte>, u: seq<Byte>, got: seq<Byte>)
    ensures ReadHexBytes(ctlesc, Hex(s) + u, |s|, got) == Bytes(Data(0), got + s, u)
    decreases |s|
  {
    hide PutHex;
    hide ReadHex;
    if s == [] {
      assert Hex(s) + u == u && got + s == got;
    } else {
      assert Hex(s) + u == PutHex(s[0]) + (Hex(s[1..]) + u);
      DigitsAreRead(ctlesc, s[0], Hex(s[1..]) + u);
      AllDigitsAreRead(ctlesc, s[1..], u, got + [s[0]]);
      assert (got + [s[0]]) + s[1..] == got + s;
    }
  }

  /** Of a hex header as it is sent, the line ending is thrown away, and what
      comes behind it is left; and if there is no line ending, one character
      is thrown away all the same. */
  lemma HexLineIsTaken(ctlesc: bool, kind: Byte, hdr: seq<Byte>, u: seq<Byte>)
    requires |hdr| == 4
    ensures ReadHexadecimal(ctlesc, HexBody(kind, hdr) + ([0x0d, 0x8a] + u)) == HeaderReading(Header(Seven(kind), hdr), u)
    ensures forall c: Byte :: Seven(c) != 0x0d ==>
              ReadHexadecimal(ctlesc, HexBody(kind, hdr) + ([c] + u)) == HeaderReading(Header(Seven(kind), hdr), u)
  {
    HexIsTaken(ctlesc, kind, hdr, [0x0d, 0x8a] + u);
    assert ([0x0d, 0x8a] + u)[2..] == u;
    ReturnIsReturn();
    forall c: Byte | Seven(c) != 0x0d
      ensures ReadHexadecimal(ctlesc, HexBody(kind, hdr) + ([c] + u)) == HeaderReading(Header(Seven(kind), hdr), u)
    {
      HexIsTaken(ctlesc, kind, hdr, [c] + u);
      assert ([c] + u)[1..] == u;
    }
  }

  lemma ReturnIsReturn()
    ensures Seven(0x0d) == 0x0d
  {
  }

  lemma HexIsTaken(ctlesc: bool, kind: Byte, hdr: seq<Byte>, t: seq<Byte>)
    requires |hdr| == 4
    ensures ReadHexadecimal(ctlesc, HexBody(kind, hdr) + t) == HeaderReading(Header(Seven(kind), hdr), AfterHex(t))
  {
    hide CheckBytes;
    hide AddAll;
    hide Hex;
    hide Judge;
    hide Seven;
    hide AfterHex;
    var s := [Seven(kind)] + hdr;
    var all := s + CheckBytes(AddAll(Start(false), s));
    AllDigitsAreRead(ctlesc, all, t, []);
    assert [] + all == all;
    JudgeSent(false, Seven(kind), hdr);
  }

  /** Five CANs in a row among data end the session; after four, the next
      character is read as if one escape character stood before it. */
  lemma FiveCansInData(ctlesc: bool, c: Byte, u: seq<Byte>)
    ensures Read(ctlesc, [CAN, CAN, CAN, CAN, CAN] + u) == Reading(GotCan, u)
    ensures !IsControl(c) ==> Read(ctlesc, [CAN, CAN, CAN, CAN, c] + u) == Reading(Unescape(c), u)
  {
    var v := [c] + u;
    assert [CAN, CAN, CAN, CAN, CAN] + u == [ZDLE] + ([CAN] + ([CAN] + ([CAN] + ([CAN] + u))));
    assert [CAN, CAN, CAN, CAN, c] + u == [ZDLE] + ([CAN] + ([CAN] + ([CAN] + v)));
    Escape(ctlesc, [CAN] + ([CAN] + ([CAN] + ([CAN] + u))));
    Escape(ctlesc, [CAN] + ([CAN] + ([CAN] + v)));
    AnotherCan(ctlesc, [CAN] + ([CAN] + ([CAN] + u)), 3);
    AnotherCan(ctlesc, [CAN] + ([CAN] + u), 2);
    AnotherCan(ctlesc, [CAN] + u, 1);
    AnotherCan(ctlesc, u, 0);
    AnotherCan(ctlesc, [CAN] + ([CAN] + v), 3);
    AnotherCan(ctlesc, [CAN] + v, 2);
    AnotherCan(ctlesc, v, 1);
    assert v[1..] == u;
    CanIsControl();
    hide IsControl;
  }

  lemma CanIsControl()
    ensures IsControl(CAN) && forall c :: IsFlow(c) ==> IsControl(c)
  {
  }

  lemma Escape(ctlesc: bool, u: seq<Byte>)
    ensures Read(ctlesc, [ZDLE] + u) == Escaped(ctlesc, u, 3)
  {
    assert ([ZDLE] + u)[1..] == u;
  }

  lemma AnotherCan(ctlesc: bool, u: seq<Byte>, cans: nat)
    ensures Escaped(ctlesc, [CAN] + u, cans) == if cans > 0 then Escaped(ctlesc, u, cans - 1) else Reading(GotCan, u)
  {
    assert ([CAN] + u)[1..] == u;
  }

  /** A ZCRC asks for the first bytes of the file, as many as it says, or for
      all of them. */
  lemma AskedIsPrefix(file: seq<Byte>, pos: Pos)
    ensures Asked(file, pos) <= file
    ensures |Asked(file, pos)| == if 0 < pos < |file| then pos else |file|
  {
  }
}
