/** ZMODEM data subpackets: what is sent, what is received, and that the two
    fit together through any noise. */
module ZmodemData {
  import opened ZmodemLine
  import Crc = ZmodemCrc

  // ---------- frame check sequences ----------

  /** The register of either check. */
  datatype Fcs = Fcs16(r16: bv16) | Fcs32(r32: bv32)

  function Start(wide: bool): Fcs { if wide then Fcs32(0xffff_ffff) else Fcs16(0) }

  function Add(f: Fcs, b: Byte): (g: Fcs)
    ensures g.Fcs32? == f.Fcs32?
  {
    match f
    case Fcs16(r) => Fcs16(Crc.UpdCrc(b, r))
    case Fcs32(r) => Fcs32(Crc.UpdC32(b, r))
  }

  function AddAll(f: Fcs, s: seq<Byte>): (g: Fcs)
    ensures g.Fcs32? == f.Fcs32?
    decreases |s|
  {
    if s == [] then f else AddAll(Add(f, s[0]), s[1..])
  }

  function CheckLength(f: Fcs): nat { if f.Fcs32? then 4 else 2 }

  /** The check bytes the sender appends. */
  function CheckBytes(f: Fcs): (s: seq<Byte>)
    ensures |s| == CheckLength(f)
  {
    match f
    case Fcs16(r) => Crc.CheckBytes16(r)
    case Fcs32(r) => Crc.CheckBytes32(r)
  }

  /** The receiver's test after the check bytes. */
  predicate Passes(f: Fcs) {
    match f
    case Fcs16(r) => r == 0
    case Fcs32(r) => r == 0xDEBB_20E3
  }

  /** The test succeeds exactly on the bytes the sender appends. */
  lemma CheckIsExact(f: Fcs, s: seq<Byte>)
    requires |s| == CheckLength(f)
    ensures Passes(AddAll(f, s)) <==> s == CheckBytes(f)
  {
    if f.Fcs16? {
      Check16IsExact(f.r16, s);
    } else {
      Check32IsExact(f.r32, s);
    }
  }

  lemma Check16IsExact(r: bv16, s: seq<Byte>)
    requires |s| == 2
    ensures Passes(AddAll(Fcs16(r), s)) <==> s == Crc.CheckBytes16(r)
  {
    hide AddAll;
    hide Crc.UpdCrc;
    hide Crc.CheckBytes16;
    Crc.Crc16TestIsExact(r, s[0], s[1]);
    TwoBytes(s);
    AddTwo(Fcs16(r), s[0], s[1]);
  }

  lemma TwoBytes(s: seq<Byte>)
    requires |s| == 2
    ensures s == [s[0], s[1]]
  {
  }

  lemma Check32IsExact(r: bv32, s: seq<Byte>)
    requires |s| == 4
    ensures Passes(AddAll(Fcs32(r), s)) <==> s == Crc.CheckBytes32(r)
  {
    hide AddAll;
    hide Crc.After4;
    hide Crc.CheckBytes32;
    Crc.Crc32TestIsExact(r, s[0], s[1], s[2], s[3]);
    AddFour32(r, s);
    FourBytes(s);
  }

  lemma FourBytes(s: seq<Byte>)
    requires |s| == 4
    ensures s == [s[0], s[1], s[2], s[3]]
  {
  }

  lemma AddFour32(r: bv32, s: seq<Byte>)
    requires |s| == 4
    ensures AddAll(Fcs32(r), s) == Fcs32(Crc.After4(r, s[0], s[1], s[2], s[3]))
  {
    hide AddAll;
    hide Crc.UpdC32;
    AddFour(Fcs32(r), s);
  }

  lemma AddFour(f: Fcs, s: seq<Byte>)
    requires |s| == 4
    ensures AddAll(f, s) == Add(Add(Add(Add(f, s[0]), s[1]), s[2]), s[3])
  {
    hide Add;
    assert s == [s[0], s[1]] + [s[2], s[3]];
    AddTwo(f, s[0], s[1]);
    AddTwo(Add(Add(f, s[0]), s[1]), s[2], s[3]);
    AddAppend(f, [s[0], s[1]], [s[2], s[3]]);
  }

  lemma AddTwo(f: Fcs, b1: Byte, b2: Byte)
    ensures AddAll(f, [b1, b2]) == Add(Add(f, b1), b2)
  {
    var s := [b1, b2];
    assert s[1..] == [b2];
    assert AddAll(Add(f, b1), [b2]) == AddAll(Add(Add(f, b1), b2), []);
  }

  lemma {:induction false} AddAppend(f: Fcs, s: seq<Byte>, t: seq<Byte>)
    ensures AddAll(f, s + t) == AddAll(AddAll(f, s), t)
    decreases |s|
  {
    if s == [] {
      assert s + t == t;
    } else {
      AddAppend(Add(f, s[0]), s[1..], t);
      assert (s + t)[1..] == s[1..] + t;
    }
  }

  lemma AddNext(f: Fcs, s: seq<Byte>, k: nat)
    requires k < |s|
    ensures AddAll(f, s[..k + 1]) == Add(AddAll(f, s[..k]), s[k])
  {
    hide Add;
    assert s[..k + 1] == s[..k] + [s[k]];
    AddLast(f, s[..k], s[k]);
  }

  lemma AddLast(f: Fcs, s: seq<Byte>, c: Byte)
    ensures AddAll(f, s + [c]) == Add(AddAll(f, s), c)
  {
    hide Add;
    AddAppend(f, s, [c]);
    var g := AddAll(f, s);
    assert [c][1..] == [];
    assert AddAll(Add(g, c), []) == Add(g, c);
  }

  lemma AddedIs16(crc: bv16, c: Byte)
    ensures Add(Fcs16(crc), c) == Fcs16(Crc.UpdCrc(c, crc))
  {
  }

  lemma AddedIs32(crc: bv32, c: Byte)
    ensures Add(Fcs32(crc), c) == Fcs32(Crc.UpdC32(c, crc))
  {
  }

  // ---------- what is sent ----------

  datatype Subpacket = Subpacket(buf: seq<Byte>, e: Byte)

  /** A subpacket that the sender can send: zsdata, the sender of those with
      the 16-bit check, has to have a byte. */
  predicate Sendable(wide: bool, p: Subpacket) { IsFrameEnd(p.e) && (wide || p.buf != []) }

  /** The register when the check bytes are due. */
  function Checked(wide: bool, p: Subpacket): Fcs {
    Add(AddAll(Start(wide), p.buf), p.e)
  }

  /** zsda32 sends printable check bytes without asking the table. */
  function CheckTab(wide: bool, tab: Byte -> int): Byte -> int {
    (c: Byte) => if wide && !IsControl(c) then 0 else tab(c)
  }

  /** zsdata and zsda32, up to the XON that ends a ZCRCW subpacket. */
  function Packet(tab: Byte -> int, last: Byte, wide: bool, p: Subpacket): seq<Byte> {
    var check := CheckBytes(Checked(wide, p));
    Encode(tab, last, p.buf) + ([ZDLE, p.e] + Encode(CheckTab(wide, tab), LastOf(tab, last, p.buf), check))
  }

  function PacketLast(tab: Byte -> int, last: Byte, wide: bool, p: Subpacket): Byte {
    LastOf(CheckTab(wide, tab), LastOf(tab, last, p.buf), CheckBytes(Checked(wide, p)))
  }

  function Trailer(e: Byte): seq<Byte> { if e == ZCRCW then [XON] else [] }

  /** Subpackets one after another. */
  function Stream(tab: Byte -> int, last: Byte, wide: bool, ps: seq<Subpacket>): seq<Byte>
    decreases |ps|
  {
    if ps == [] then []
    else Packet(tab, last, wide, ps[0])
         + (Trailer(ps[0].e) + Stream(tab, PacketLast(tab, last, wide, ps[0]), wide, ps[1..]))
  }

  // ---------- what is received ----------

  datatype Reception = Reception(code: Code, data: seq<Byte>, rest: seq<Byte>)

  /** From the end code on: `left` check bytes are due. */
  function Finish(ctlesc: bool, t: seq<Byte>, f: Fcs, left: nat, e: Byte): (r: Reading)
    ensures |r.rest| <= |t|
    decreases |t|
  {
    if left == 0 then Reading(if Passes(f) then End(e) else Error, t)
    else
      var r := Read(ctlesc, t);
      match r.code
      case Data(b) => Finish(ctlesc, r.rest, Add(f, b), left - 1, e)
      case End(again) => Finish(ctlesc, r.rest, Add(f, again), CheckLength(f), again)
      case _ => r
  }

  /** zrdata and zrdat32 with `got` already in the buffer of `room` bytes. */
  function Receive(ctlesc: bool, t: seq<Byte>, f: Fcs, room: nat, got: seq<Byte>): Reception
    decreases |t|
  {
    if |got| > room then Reception(Error, got, t)
    else
      var r := Read(ctlesc, t);
      match r.code
      case Data(b) => Receive(ctlesc, r.rest, Add(f, b), room, got + [b])
      case End(e) =>
        var q := Finish(ctlesc, r.rest, Add(f, e), CheckLength(f), e);
        Reception(q.code, got, q.rest)
      case _ => Reception(r.code, got, r.rest)
  }

  /** Receive n subpackets, stopping at the first that fails. */
  function ReceiveAll(ctlesc: bool, t: seq<Byte>, wide: bool, room: nat, n: nat): seq<Subpacket>
    decreases n
  {
    if n == 0 then []
    else
      var r := Receive(ctlesc, t, Start(wide), room, []);
      if r.code.End? then [Subpacket(r.data, r.code.e)] + ReceiveAll(ctlesc, r.rest, wide, room, n - 1) else []
  }

  // ---------- the two fit together ----------

  /** The receiver reads whatever the table makes of a byte. */
  ghost predicate ReadableTab(ctlesc: bool, tab: Byte -> int) {
    forall c: Byte, last: Byte :: Readable(ctlesc, c, Emit(tab(c), last, c))
  }

  lemma CompatibleIsReadable(sendCtl: bool, turbo: bool, recvCtl: bool, tab: Byte -> int)
    requires Compatible(sendCtl, turbo, recvCtl)
    requires forall c :: tab(c) == TableEntry(sendCtl, turbo, c)
    ensures ReadableTab(recvCtl, tab)
  {
    forall c: Byte, last: Byte ensures Readable(recvCtl, c, Emit(tab(c), last, c)) {
      EmitIsReadable(sendCtl, turbo, recvCtl, last, c);
    }
  }

  /** The head of what is ahead is ahead. */
  lemma AheadHead(ctlesc: bool, t: seq<Byte>, e: seq<Byte>, u: seq<Byte>)
    requires Ahead(ctlesc, t, e + u)
    ensures Ahead(ctlesc, t, e)
  {
  }

  /** Behind it comes the tail. */
  lemma AheadTail(ctlesc: bool, t: seq<Byte>, e: seq<Byte>, u: seq<Byte>, rest: seq<Byte>)
    requires Ahead(ctlesc, t, e + u) && Consumed(ctlesc, t, e, rest)
    ensures Ahead(ctlesc, rest, u)
  {
    assert Strip(ctlesc, rest) == Strip(ctlesc, t)[|e|..];
    assert u == (e + u)[|e|..];
  }

  lemma ConsumedInTurn(ctlesc: bool, t: seq<Byte>, e: seq<Byte>, t': seq<Byte>, u: seq<Byte>, rest: seq<Byte>)
    requires Consumed(ctlesc, t, e, t') && Consumed(ctlesc, t', u, rest)
    ensures Consumed(ctlesc, t, e + u, rest)
  {
    Associative(e, u, Strip(ctlesc, rest));
  }

  /** One byte of the sender's is read from the line. */
  lemma ReadsByte(ctlesc: bool, tab: Byte -> int, last: Byte, c: Byte, t: seq<Byte>, u: seq<Byte>) returns (rest: seq<Byte>)
    requires ReadableTab(ctlesc, tab) && Ahead(ctlesc, t, Emit(tab(c), last, c) + u)
    ensures Read(ctlesc, t) == Reading(Data(c), rest)
    ensures Consumed(ctlesc, t, Emit(tab(c), last, c), rest) && Ahead(ctlesc, rest, u)
  {
    var e := Emit(tab(c), last, c);
    AheadHead(ctlesc, t, e, u);
    ReadsReadable(ctlesc, t, c, e);
    rest := Read(ctlesc, t).rest;
    AheadTail(ctlesc, t, e, u, rest);
  }

  lemma AddAllHead(f: Fcs, s: seq<Byte>)
    requires s != []
    ensures AddAll(f, s) == AddAll(Add(f, s[0]), s[1..])
  {
  }

  lemma EncodeHead(tab: Byte -> int, last: Byte, s: seq<Byte>)
    requires s != []
    ensures Encode(tab, last, s)
            == Emit(tab(s[0]), last, s[0]) + Encode(tab, LastSent(tab(s[0]), last, s[0]), s[1..])
  {
  }

  /** The encoded bytes of s are read, stored and added to the check. */
  lemma {:induction false} ReceivesBytes(ctlesc: bool, tab: Byte -> int, last: Byte, s: seq<Byte>, u: seq<Byte>,
                                         t: seq<Byte>, f: Fcs, room: nat, got: seq<Byte>) returns (rest: seq<Byte>)
    requires ReadableTab(ctlesc, tab) && Ahead(ctlesc, t, Encode(tab, last, s) + u)
    requires |got| + |s| <= room + 1
    ensures Receive(ctlesc, t, f, room, got) == Receive(ctlesc, rest, AddAll(f, s), room, got + s)
    ensures Consumed(ctlesc, t, Encode(tab, last, s), rest) && Ahead(ctlesc, rest, u)
    decreases |s|
  {
    hide Add;
    hide Emit;
    hide LastSent;
    hide Readable;
    hide Strip;
    hide Read;
    if s == [] {
      rest := t;
      assert got + s == got;
      assert Encode(tab, last, s) + u == u;
    } else {
      var e, l := Emit(tab(s[0]), last, s[0]), LastSent(tab(s[0]), last, s[0]);
      EncodeHead(tab, last, s);
      Associative(e, Encode(tab, l, s[1..]), u);
      var t' := ReadsByte(ctlesc, tab, last, s[0], t, Encode(tab, l, s[1..]) + u);
      AddAllHead(f, s);
      rest := ReceivesBytes(ctlesc, tab, l, s[1..], u, t', Add(f, s[0]), room, got + [s[0]]);
      assert (got + [s[0]]) + s[1..] == got + s;
      ConsumedInTurn(ctlesc, t, e, t', Encode(tab, l, s[1..]), rest);
    }
  }

  /** The check bytes are read and added to the check. */
  lemma {:induction false} FinishesBytes(ctlesc: bool, tab: Byte -> int, last: Byte, s: seq<Byte>,
                                         t: seq<Byte>, f: Fcs, e: Byte) returns (rest: seq<Byte>)
    requires ReadableTab(ctlesc, tab) && Ahead(ctlesc, t, Encode(tab, last, s))
    ensures Finish(ctlesc, t, f, |s|, e) == Finish(ctlesc, rest, AddAll(f, s), 0, e)
    ensures Consumed(ctlesc, t, Encode(tab, last, s), rest)
    decreases |s|
  {
    hide Add;
    if s == [] {
      rest := t;
    } else {
      var l := LastSent(tab(s[0]), last, s[0]);
      EncodeHead(tab, last, s);
      var t' := ReadsByte(ctlesc, tab, last, s[0], t, Encode(tab, l, s[1..]));
      AddAllHead(f, s);
      rest := FinishesBytes(ctlesc, tab, l, s[1..], t', Add(f, s[0]), e);
      ConsumedInTurn(ctlesc, t, Emit(tab(s[0]), last, s[0]), t', Encode(tab, l, s[1..]), rest);
    }
  }

  lemma CheckTabIsReadable(ctlesc: bool, wide: bool, tab: Byte -> int)
    requires ReadableTab(ctlesc, tab)
    ensures ReadableTab(ctlesc, CheckTab(wide, tab))
  {
    forall c: Byte, last: Byte ensures Readable(ctlesc, c, Emit(CheckTab(wide, tab)(c), last, c)) {
      assert Readable(ctlesc, c, Emit(tab(c), last, c));
      PrintableIsReadable(ctlesc, c, last);
    }
  }

  lemma PrintableIsReadable(ctlesc: bool, c: Byte, last: Byte)
    ensures !IsControl(c) ==> Readable(ctlesc, c, Emit(0, last, c))
  {
  }

  /** From the end code on, exactly the sender's check bytes are accepted. */
  lemma FinishesPacket(ctlesc: bool, tab: Byte -> int, last: Byte, wide: bool, p: Subpacket, t: seq<Byte>)
    returns (rest: seq<Byte>)
    requires ReadableTab(ctlesc, tab) && IsFrameEnd(p.e)
    requires Ahead(ctlesc, t, Encode(CheckTab(wide, tab), last, CheckBytes(Checked(wide, p))))
    ensures Finish(ctlesc, t, Checked(wide, p), CheckLength(Checked(wide, p)), p.e) == Reading(End(p.e), rest)
    ensures Consumed(ctlesc, t, Encode(CheckTab(wide, tab), last, CheckBytes(Checked(wide, p))), rest)
  {
    var f := Checked(wide, p);
    CheckTabIsReadable(ctlesc, wide, tab);
    rest := FinishesBytes(ctlesc, CheckTab(wide, tab), last, CheckBytes(f), t, f, p.e);
    CheckIsExact(f, CheckBytes(f));
  }

  /** What follows the data of a subpacket. */
  function PacketEnd(tab: Byte -> int, last: Byte, wide: bool, p: Subpacket): seq<Byte> {
    [ZDLE, p.e] + Encode(CheckTab(wide, tab), last, CheckBytes(Checked(wide, p)))
  }

  lemma ReceivesEnd(ctlesc: bool, tab: Byte -> int, last: Byte, wide: bool, p: Subpacket, room: nat, t: seq<Byte>)
    returns (rest: seq<Byte>)
    requires ReadableTab(ctlesc, tab) && IsFrameEnd(p.e) && |p.buf| <= room
    requires Ahead(ctlesc, t, PacketEnd(tab, last, wide, p))
    ensures Receive(ctlesc, t, AddAll(Start(wide), p.buf), room, p.buf) == Reception(End(p.e), p.buf, rest)
    ensures Consumed(ctlesc, t, PacketEnd(tab, last, wide, p), rest)
  {
    hide Add;
    hide AddAll;
    hide CheckBytes;
    var check := Encode(CheckTab(wide, tab), last, CheckBytes(Checked(wide, p)));
    AheadHead(ctlesc, t, [ZDLE, p.e], check);
    ReadsEscaped(ctlesc, t, p.e);
    var t' := Read(ctlesc, t).rest;
    AheadTail(ctlesc, t, [ZDLE, p.e], check, t');
    rest := FinishesPacket(ctlesc, tab, last, wide, p, t');
    ConsumedInTurn(ctlesc, t, [ZDLE, p.e], t', check, rest);
  }

  lemma PacketFits(ctlesc: bool, tab: Byte -> int, last: Byte, wide: bool, p: Subpacket, room: nat, t: seq<Byte>)
    requires ReadableTab(ctlesc, tab) && IsFrameEnd(p.e) && |p.buf| <= room
    requires Ahead(ctlesc, t, Packet(tab, last, wide, p))
    ensures var r := Receive(ctlesc, t, Start(wide), room, []);
            r.code == End(p.e) && r.data == p.buf && Consumed(ctlesc, t, Packet(tab, last, wide, p), r.rest)
  {
    hide Add;
    hide AddAll;
    var end := PacketEnd(tab, LastOf(tab, last, p.buf), wide, p);
    var t' := ReceivesBytes(ctlesc, tab, last, p.buf, end, t, Start(wide), room, []);
    assert [] + p.buf == p.buf;
    var rest := ReceivesEnd(ctlesc, tab, LastOf(tab, last, p.buf), wide, p, room, t');
    ConsumedInTurn(ctlesc, t, Encode(tab, last, p.buf), t', end, rest);
  }

  lemma PacketTooLong(ctlesc: bool, tab: Byte -> int, last: Byte, wide: bool, p: Subpacket, room: nat, t: seq<Byte>)
    requires ReadableTab(ctlesc, tab) && |p.buf| > room
    requires Ahead(ctlesc, t, Packet(tab, last, wide, p))
    ensures var r := Receive(ctlesc, t, Start(wide), room, []);
            r.code == Error && r.data == p.buf[..room + 1]
  {
    hide Add;
    hide AddAll;
    var s1, s2 := p.buf[..room + 1], p.buf[room + 1..];
    var end := PacketEnd(tab, LastOf(tab, last, p.buf), wide, p);
    assert p.buf == s1 + s2;
    EncodeAppend(tab, last, s1, s2);
    var e2 := Encode(tab, LastOf(tab, last, s1), s2);
    Associative(Encode(tab, last, s1), e2, end);
    var t' := ReceivesBytes(ctlesc, tab, last, s1, e2 + end, t, Start(wide), room, []);
    assert [] + s1 == s1;
  }

  /** A subpacket arrives as it was sent, through any noise, exactly when the
      receiver's buffer holds it. */
  lemma PacketRoundTrip(ctlesc: bool, tab: Byte -> int, last: Byte, wide: bool, p: Subpacket, room: nat, t: seq<Byte>)
    requires ReadableTab(ctlesc, tab) && Sendable(wide, p)
    requires Ahead(ctlesc, t, Packet(tab, last, wide, p))
    ensures var r := Receive(ctlesc, t, Start(wide), room, []);
            if |p.buf| <= room then
              r.code == End(p.e) && r.data == p.buf && Consumed(ctlesc, t, Packet(tab, last, wide, p), r.rest)
            else
              r.code == Error && r.data == p.buf[..room + 1]
  {
    if |p.buf| <= room {
      PacketFits(ctlesc, tab, last, wide, p, room, t);
    } else {
      PacketTooLong(ctlesc, tab, last, wide, p, room, t);
    }
  }
}
