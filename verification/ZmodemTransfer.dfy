/** Whole streams of subpackets, and which settings of the two ends fit. */
module ZmodemTransfer {
  import opened ZmodemLine
  import opened ZmodemData

  lemma ReadableIsClean(ctlesc: bool, c: Byte, e: seq<Byte>)
    requires Readable(ctlesc, c, e)
    ensures IsClean(ctlesc, e)
  {
    FlippedControl(c);
    FlippedControl(Flip(c));
  }

  lemma CleanAppend(ctlesc: bool, s: seq<Byte>, t: seq<Byte>)
    requires IsClean(ctlesc, s) && IsClean(ctlesc, t)
    ensures IsClean(ctlesc, s + t)
  {
  }

  lemma {:induction false} EncodeIsClean(ctlesc: bool, tab: Byte -> int, last: Byte, s: seq<Byte>)
    requires ReadableTab(ctlesc, tab)
    ensures IsClean(ctlesc, Encode(tab, last, s))
    decreases |s|
  {
    if s != [] {
      var e := Emit(tab(s[0]), last, s[0]);
      assert Readable(ctlesc, s[0], e);
      ReadableIsClean(ctlesc, s[0], e);
      EncodeHead(tab, last, s);
      EncodeIsClean(ctlesc, tab, LastSent(tab(s[0]), last, s[0]), s[1..]);
      CleanAppend(ctlesc, e, Encode(tab, LastSent(tab(s[0]), last, s[0]), s[1..]));
    }
  }

  lemma EndIsClean(ctlesc: bool, e: Byte)
    requires IsFrameEnd(e)
    ensures IsClean(ctlesc, [ZDLE, e])
  {
  }

  lemma PacketIsClean(ctlesc: bool, tab: Byte -> int, last: Byte, wide: bool, p: Subpacket)
    requires ReadableTab(ctlesc, tab) && IsFrameEnd(p.e)
    ensures IsClean(ctlesc, Packet(tab, last, wide, p))
  {
    hide CheckBytes;
    hide Encode;
    hide IsClean;
    var check := CheckBytes(Checked(wide, p));
    EndIsClean(ctlesc, p.e);
    CheckTabIsReadable(ctlesc, wide, tab);
    EncodeIsClean(ctlesc, tab, last, p.buf);
    EncodeIsClean(ctlesc, CheckTab(wide, tab), LastOf(tab, last, p.buf), check);
    CleanAppend(ctlesc, [ZDLE, p.e], Encode(CheckTab(wide, tab), LastOf(tab, last, p.buf), check));
    CleanAppend(ctlesc, Encode(tab, last, p.buf), PacketEnd(tab, LastOf(tab, last, p.buf), wide, p));
  }

  /** Without noise, a subpacket is followed by what comes next. */
  lemma StripPacket(ctlesc: bool, tab: Byte -> int, last: Byte, wide: bool, p: Subpacket, u: seq<Byte>)
    requires ReadableTab(ctlesc, tab) && IsFrameEnd(p.e)
    ensures Strip(ctlesc, Packet(tab, last, wide, p) + (Trailer(p.e) + u))
            == Packet(tab, last, wide, p) + Strip(ctlesc, u)
  {
    hide Packet;
    PacketIsClean(ctlesc, tab, last, wide, p);
    StripClean(ctlesc, Packet(tab, last, wide, p));
    StripAppend(ctlesc, Packet(tab, last, wide, p), Trailer(p.e) + u);
    if p.e == ZCRCW {
      StripInsert(ctlesc, [], XON, u);
      assert [] + [XON] + u == [XON] + u && [] + u == u;
    } else {
      assert Trailer(p.e) + u == u;
    }
  }

  /** The first subpacket arrives, and leaves what comes after it. */
  lemma FirstArrives(ctlesc: bool, tab: Byte -> int, last: Byte, wide: bool, p: Subpacket, u: seq<Byte>,
                     room: nat, t: seq<Byte>) returns (rest: seq<Byte>)
    requires ReadableTab(ctlesc, tab) && Sendable(wide, p) && |p.buf| <= room
    requires Strip(ctlesc, t) == Strip(ctlesc, Packet(tab, last, wide, p) + (Trailer(p.e) + u))
    ensures Receive(ctlesc, t, Start(wide), room, []) == Reception(End(p.e), p.buf, rest)
    ensures Strip(ctlesc, rest) == Strip(ctlesc, u)
  {
    hide Packet;
    hide Receive;
    StripPacket(ctlesc, tab, last, wide, p, u);
    PacketRoundTrip(ctlesc, tab, last, wide, p, room, t);
    rest := Receive(ctlesc, t, Start(wide), room, []).rest;
    SameTail(Packet(tab, last, wide, p), Strip(ctlesc, rest), Strip(ctlesc, u));
  }

  /** Whatever noise hits the line, the receiver gets the subpackets that were
      sent, in order. */
  lemma {:induction false} StreamRoundTrip(ctlesc: bool, tab: Byte -> int, last: Byte, wide: bool, ps: seq<Subpacket>,
                                           room: nat, t: seq<Byte>)
    requires ReadableTab(ctlesc, tab)
    requires forall p :: p in ps ==> Sendable(wide, p) && |p.buf| <= room
    requires Strip(ctlesc, t) == Strip(ctlesc, Stream(tab, last, wide, ps))
    ensures ReceiveAll(ctlesc, t, wide, room, |ps|) == ps
    decreases |ps|
  {
    hide Packet;
    hide PacketLast;
    hide Receive;
    hide Strip;
    if ps != [] {
      var p := ps[0];
      var tail := Stream(tab, PacketLast(tab, last, wide, p), wide, ps[1..]);
      var rest := FirstArrives(ctlesc, tab, last, wide, p, tail, room, t);
      StreamRoundTrip(ctlesc, tab, PacketLast(tab, last, wide, p), wide, ps[1..], room, rest);
      assert ps == [Subpacket(p.buf, p.e)] + ps[1..];
    }
  }

  lemma SameTail(a: seq<Byte>, b: seq<Byte>, c: seq<Byte>)
    requires a + b == a + c
    ensures b == c
  {
    assert b == (a + b)[|a|..];
    assert c == (a + c)[|a|..];
  }

  // ---------- which settings fit ----------

  function Table(ctlesc: bool, turbo: bool): Byte -> int {
    (c: Byte) => TableEntry(ctlesc, turbo, c)
  }

  /** Subpacket p arrives whole when the line carries it as t. */
  predicate Arrives(recvCtl: bool, wide: bool, p: Subpacket, room: nat, t: seq<Byte>) {
    var r := Receive(recvCtl, t, Start(wide), room, []);
    r.code == End(p.e) && r.data == p.buf
  }

  predicate Carries(sendCtl: bool, turbo: bool, recvCtl: bool, last: Byte, wide: bool, p: Subpacket, t: seq<Byte>) {
    Strip(recvCtl, t) == Strip(recvCtl, Packet(Table(sendCtl, turbo), last, wide, p) + Trailer(p.e))
  }

  ghost predicate Faithful(sendCtl: bool, turbo: bool, recvCtl: bool) {
    forall last: Byte, wide: bool, p: Subpacket, room: nat, t: seq<Byte> ::
      Sendable(wide, p) && |p.buf| <= room && Carries(sendCtl, turbo, recvCtl, last, wide, p, t)
      ==> Arrives(recvCtl, wide, p, room, t)
  }

  /** A control character that is sent bare and passed over by the receiver. */
  function LostByte(sendCtl: bool): Byte { if sendCtl then 0x10 else 0x01 }

  lemma LostByteIsLost(sendCtl: bool, turbo: bool, recvCtl: bool)
    requires !Compatible(sendCtl, turbo, recvCtl)
    ensures TableEntry(sendCtl, turbo, LostByte(sendCtl)) == 0
    ensures IsNoise(recvCtl, LostByte(sendCtl)) && LostByte(sendCtl) != ZDLE && IsControl(LostByte(sendCtl))
  {
  }

  /** A subpacket of which nothing arrives: one lost byte. */
  lemma OneByteIsLost(sendCtl: bool, turbo: bool, recvCtl: bool)
    requires !Compatible(sendCtl, turbo, recvCtl)
    ensures var p := Subpacket([LostByte(sendCtl)], ZCRCE);
            && Carries(sendCtl, turbo, recvCtl, 0, true, p, Packet(Table(sendCtl, turbo), 0, true, p))
            && !Arrives(recvCtl, true, p, 1, Packet(Table(sendCtl, turbo), 0, true, p))
            && Receive(recvCtl, Packet(Table(sendCtl, turbo), 0, true, p), Start(true), 1, []).data == []
  {
    hide CheckBytes;
    hide AddAll;
    hide Add;
    LostByteIsLost(sendCtl, turbo, recvCtl);
    var tab, b := Table(sendCtl, turbo), LostByte(sendCtl);
    var p := Subpacket([b], ZCRCE);
    var t := Packet(tab, 0, true, p);
    assert Encode(tab, 0, [b]) == [b];
    assert t[0] == b && t[1] == ZDLE && t[2] == ZCRCE;
    assert Read(recvCtl, t) == Read(recvCtl, t[1..]);
    assert t[1..][0] == ZDLE && t[1..][1..][0] == ZCRCE;
    assert Read(recvCtl, t).code == End(ZCRCE);
    assert Packet(tab, 0, true, p) + Trailer(p.e) == t;
  }

  /** Every subpacket arrives through all noise exactly when a receiver that
      drops control characters faces a sender that escapes all of them. */
  lemma SettingsThatFit(sendCtl: bool, turbo: bool, recvCtl: bool)
    ensures Faithful(sendCtl, turbo, recvCtl) <==> Compatible(sendCtl, turbo, recvCtl)
  {
    var tab := Table(sendCtl, turbo);
    if Compatible(sendCtl, turbo, recvCtl) {
      CompatibleIsReadable(sendCtl, turbo, recvCtl, tab);
      forall last: Byte, wide: bool, p: Subpacket, room: nat, t: seq<Byte> |
        Sendable(wide, p) && |p.buf| <= room && Carries(sendCtl, turbo, recvCtl, last, wide, p, t)
        ensures Arrives(recvCtl, wide, p, room, t)
      {
        CarriedArrives(recvCtl, tab, last, wide, p, room, t);
      }
    } else {
      OneByteIsLost(sendCtl, turbo, recvCtl);
    }
  }

  lemma CarriedArrives(ctlesc: bool, tab: Byte -> int, last: Byte, wide: bool, p: Subpacket, room: nat, t: seq<Byte>)
    requires ReadableTab(ctlesc, tab) && Sendable(wide, p) && |p.buf| <= room
    requires Strip(ctlesc, t) == Strip(ctlesc, Packet(tab, last, wide, p) + Trailer(p.e))
    ensures Arrives(ctlesc, wide, p, room, t)
  {
    hide Packet;
    hide Receive;
    StripPacket(ctlesc, tab, last, wide, p, []);
    assert Trailer(p.e) + [] == Trailer(p.e);
    PacketRoundTrip(ctlesc, tab, last, wide, p, room, t);
  }
}
