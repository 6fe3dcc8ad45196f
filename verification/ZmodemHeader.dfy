/** ZMODEM headers: binary with either check, and hexadecimal. */
module ZmodemHeader {
  import opened ByteDigits
  import opened ZmodemLine
  import opened ZmodemData
  import Crc = ZmodemCrc

  const ZPAD: Byte := 0x2a
  const ZBIN: Byte := 0x41
  const ZHEX: Byte := 0x42
  const ZBIN32: Byte := 0x43
  const ZACK: Byte := 3
  const ZFIN: Byte := 8
  const ZDATA: Byte := 10

  // ---------- what is sent ----------

  function Nulls(n: nat): seq<Byte> { if n == 0 then [] else Nulls(n - 1) + [0] }

  /** Type, four bytes and check of a binary header. */
  function HeaderBody(tab: Byte -> int, last: Byte, wide: bool, kind: Byte, hdr: seq<Byte>): seq<Byte> {
    var s := [kind] + hdr;
    Encode(tab, last, s) + Encode(tab, LastOf(tab, last, s), CheckBytes(AddAll(Start(wide), s)))
  }

  /** lastsent behind a header. */
  function HeaderLast(tab: Byte -> int, last: Byte, wide: bool, kind: Byte, hdr: seq<Byte>): Byte {
    var s := [kind] + hdr;
    LastOf(tab, LastOf(tab, last, s), CheckBytes(AddAll(Start(wide), s)))
  }

  function BinHeader(tab: Byte -> int, last: Byte, wide: bool, kind: Byte, hdr: seq<Byte>): seq<Byte> {
    [ZPAD, ZDLE, if wide then ZBIN32 else ZBIN] + HeaderBody(tab, last, wide, kind, hdr)
  }

  function HexDigit(n: Byte): Byte { if n < 10 then 0x30 + n else 0x57 + n }

  function High4(c: Byte): Byte { c >> 4 }

  function Low4(c: Byte): Byte { c & 0xf }

  /** zputhex. */
  function PutHex(c: Byte): seq<Byte> { [HexDigit(High4(c)), HexDigit(Low4(c))] }

  function Hex(s: seq<Byte>): seq<Byte> { if s == [] then [] else PutHex(s[0]) + Hex(s[1..]) }

  lemma HexOne(c: Byte)
    ensures Hex([c]) == PutHex(c)
  {
    assert [c][1..] == [];
    assert Hex([]) == [];
  }

  lemma {:induction false} HexAppend(s: seq<Byte>, t: seq<Byte>)
    ensures Hex(s + t) == Hex(s) + Hex(t)
  {
    if s == [] {
      assert s + t == t;
    } else {
      hide PutHex;
      HexAppend(s[1..], t);
      assert (s + t)[1..] == s[1..] + t;
      Associative(PutHex(s[0]), Hex(s[1..]), Hex(t));
    }
  }

  lemma HexNext(s: seq<Byte>, k: nat)
    requires k < |s|
    ensures Hex(s[..k + 1]) == Hex(s[..k]) + PutHex(s[k])
  {
    hide PutHex;
    assert s[..k + 1] == s[..k] + [s[k]];
    HexAppend(s[..k], [s[k]]);
    HexOne(s[k]);
  }

  function Seven(c: Byte): Byte { c & 0x7f }

  /** zshhdr. */
  function HexBody(kind: Byte, hdr: seq<Byte>): seq<Byte> {
    var s := [Seven(kind)] + hdr;
    Hex(s + CheckBytes(AddAll(Start(false), s)))
  }

  function HexHeader(kind: Byte, hdr: seq<Byte>): seq<Byte> {
    [ZPAD, ZPAD, ZDLE, ZHEX] + HexBody(kind, hdr) + [0x0d, 0x8a]
    + if Seven(kind) != ZFIN && Seven(kind) != ZACK then [XON] else []
  }

  function ShiftedBy(w: bv32, i: nat): bv32 {
    if i == 0 then w else if i == 1 then Crc.Byte1(w) else if i == 2 then Crc.Byte2(w)
    else if i == 3 then Crc.Byte3(w) else 0
  }

  lemma ShiftedByte(crc: bv32, i: nat)
    requires i < 4
    ensures Crc.CheckBytes32(crc)[i] == Crc.LowByte(ShiftedBy(Crc.Not(crc), i))
    ensures Crc.Byte1(ShiftedBy(Crc.Not(crc), i)) == ShiftedBy(Crc.Not(crc), i + 1)
  {
    Crc.ByteShifts(Crc.Not(crc));
  }

  lemma HexNone()
    ensures Hex([]) == []
  {
  }

  lemma HexTwo(s: seq<Byte>)
    requires |s| == 2
    ensures Hex(s) == PutHex(s[0]) + PutHex(s[1])
  {
    hide PutHex;
    assert s[..0] == [] && s[..2] == s;
    HexNext(s, 0);
    HexNext(s, 1);
    HexNone();
    assert [] + PutHex(s[0]) == PutHex(s[0]);
  }

  /** How zshhdr's pieces make up the header. */
  lemma HexParts(kind: Byte, hdr: seq<Byte>)
    requires |hdr| == 4
    ensures var body := [Seven(kind)] + hdr;
            var check := CheckBytes(AddAll(Start(false), body));
            var s := [ZPAD, ZPAD, ZDLE, ZHEX] + Hex(body) + PutHex(check[0]) + PutHex(check[1]) + [0x0d, 0x8a];
            HexHeader(kind, hdr) == if Seven(kind) != ZFIN && Seven(kind) != ZACK then s + [XON] else s
  {
    hide PutHex;
    hide CheckBytes;
    hide AddAll;
    hide Hex;
    hide Seven;
    var body := [Seven(kind)] + hdr;
    var check := CheckBytes(AddAll(Start(false), body));
    HexAppend(body, check);
    HexTwo(check);
    FourParts([ZPAD, ZPAD, ZDLE, ZHEX], Hex(body), PutHex(check[0]), PutHex(check[1]));
    var s := [ZPAD, ZPAD, ZDLE, ZHEX] + HexBody(kind, hdr) + [0x0d, 0x8a];
    assert s + [] == s;
  }

  lemma FourParts(a: seq<Byte>, b: seq<Byte>, c: seq<Byte>, d: seq<Byte>)
    ensures a + b + c + d == a + (b + (c + d))
  {
  }

  lemma HeaderParts(o: seq<Byte>, style: Byte, body: seq<Byte>)
    ensures o + [ZPAD] + [ZDLE] + [style] + body == o + ([ZPAD, ZDLE, style] + body)
  {
    assert [ZPAD] + ([ZDLE] + [style]) == [ZPAD, ZDLE, style];
  }

  lemma BinHeaderIs(tab: Byte -> int, last: Byte, wide: bool, kind: Byte, hdr: seq<Byte>)
    ensures BinHeader(tab, last, wide, kind, hdr)
            == [ZPAD, ZDLE, if wide then ZBIN32 else ZBIN] + HeaderBody(tab, last, wide, kind, hdr)
  {
  }

  lemma BodyParts(o: seq<Byte>, tab: Byte -> int, last: Byte, wide: bool, kind: Byte, hdr: seq<Byte>)
    ensures var s := [kind] + hdr;
            o + Encode(tab, last, s) + Encode(tab, LastOf(tab, last, s), CheckBytes(AddAll(Start(wide), s)))
            == o + HeaderBody(tab, last, wide, kind, hdr)
  {
    hide Encode;
    hide LastOf;
    hide CheckBytes;
    hide AddAll;
    var s := [kind] + hdr;
    Associative(o, Encode(tab, last, s), Encode(tab, LastOf(tab, last, s), CheckBytes(AddAll(Start(wide), s))));
  }

  lemma PlainTab(tab: Byte -> int)
    ensures forall c :: tab(c) == CheckTab(false, tab)(c)
  {
  }

  // ---------- what is received ----------

  /** n bytes of data, or the code that came instead. */
  datatype Bytes = Bytes(stop: Code, data: seq<Byte>, rest: seq<Byte>)

  /** zdlread n times, as long as it returns data. */
  function ReadBytes(ctlesc: bool, t: seq<Byte>, n: nat, got: seq<Byte>): Bytes
    decreases n
  {
    if n == 0 then Bytes(Data(0), got, t)
    else
      var r := Read(ctlesc, t);
      if r.code.Data? then ReadBytes(ctlesc, r.rest, n - 1, got + [r.code.b]) else Bytes(r.code, got, r.rest)
  }

  /** What a header is taken for: its type and its four bytes, or a code. */
  datatype Header = Header(kind: Byte, hdr: seq<Byte>) | NoHeader(code: Code)

  datatype HeaderReading = HeaderReading(header: Header, rest: seq<Byte>)

  /** Five bytes and the check bytes, taken together. */
  function Judge(wide: bool, s: seq<Byte>): Header {
    if |s| >= 5 && Passes(AddAll(Start(wide), s)) then Header(s[0], s[1..5]) else NoHeader(Error)
  }

  /** zrbhdr and zrbhdr32. */
  function ReadBinary(ctlesc: bool, t: seq<Byte>, wide: bool): HeaderReading {
    var r := ReadBytes(ctlesc, t, 5 + CheckLength(Start(wide)), []);
    HeaderReading(if r.stop.Data? then Judge(wide, r.data) else NoHeader(r.stop), r.rest)
  }

  /** noxrd7: a character without parity, past XON and XOFF, and past control
      characters if the sender escapes them. */
  function Read7(ctlesc: bool, t: seq<Byte>): (r: Reading)
    ensures |r.rest| <= |t|
  {
    if t == [] then Reading(TimedOut, [])
    else if Skips7(ctlesc, Seven(t[0])) then Read7(ctlesc, t[1..])
    else Reading(Data(Seven(t[0])), t[1..])
  }

  predicate Skips7(ctlesc: bool, c: Byte) {
    c == XON || c == XOFF || (ctlesc && IsControl(c) && c != 0x0d && c != 0x0a && c != ZDLE)
  }

  /** The value of a hexadecimal digit as zgeth1 computes it, which also takes
      the ten characters before `a` for digits. */
  function DigitValue(c: Byte): Code {
    if 0x30 <= c <= 0x39 then Data(c - 0x30)
    else if 0x57 <= c <= 0x66 then Data(c - 0x57)
    else Error
  }

  function Joined(high: Byte, low: Byte): Byte { (high << 4) + low }

  /** zgeth1: two digits. */
  function ReadHex(ctlesc: bool, t: seq<Byte>): Reading {
    var r1 := Read7(ctlesc, t);
    if !r1.code.Data? then r1
    else if !DigitValue(r1.code.b).Data? then Reading(Error, r1.rest)
    else
      var r2 := Read7(ctlesc, r1.rest);
      if !r2.code.Data? then r2
      else if !DigitValue(r2.code.b).Data? then Reading(Error, r2.rest)
      else Reading(Data(Joined(DigitValue(r1.code.b).b, DigitValue(r2.code.b).b)), r2.rest)
  }

  /** zgethex n times, as long as it returns data. */
  function ReadHexBytes(ctlesc: bool, t: seq<Byte>, n: nat, got: seq<Byte>): Bytes
    decreases n
  {
    if n == 0 then Bytes(Data(0), got, t)
    else
      var r := ReadHex(ctlesc, t);
      if r.code.Data? then ReadHexBytes(ctlesc, r.rest, n - 1, got + [r.code.b]) else Bytes(r.code, got, r.rest)
  }

  /** The line ending that may follow a hex header is thrown away. */
  function AfterHex(t: seq<Byte>): seq<Byte> {
    if t == [] then [] else if Seven(t[0]) != 0x0d then t[1..] else if |t| == 1 then [] else t[2..]
  }

  /** zrhhdr. */
  function ReadHexadecimal(ctlesc: bool, t: seq<Byte>): HeaderReading {
    var r := ReadHexBytes(ctlesc, t, 7, []);
    if !r.stop.Data? then HeaderReading(NoHeader(r.stop), r.rest)
    else
      var h := Judge(false, r.data);
      HeaderReading(h, if h.Header? then AfterHex(r.rest) else r.rest)
  }

  // ---------- headers arrive ----------

  lemma JudgeSent(wide: bool, kind: Byte, hdr: seq<Byte>)
    requires |hdr| == 4
    ensures var s := [kind] + hdr;
            Judge(wide, s + CheckBytes(AddAll(Start(wide), s))) == Header(kind, hdr)
  {
    hide Add;
    hide CheckBytes;
    hide Passes;
    var s := [kind] + hdr;
    var check := CheckBytes(AddAll(Start(wide), s));
    AddAppend(Start(wide), s, check);
    CheckIsExact(AddAll(Start(wide), s), check);
    assert (s + check)[1..5] == hdr;
  }

  /** The encoded bytes of s are read as s. */
  lemma {:induction false} ReadsBytes(ctlesc: bool, tab: Byte -> int, last: Byte, s: seq<Byte>, u: seq<Byte>,
                                      t: seq<Byte>, n: nat, got: seq<Byte>) returns (rest: seq<Byte>)
    requires ReadableTab(ctlesc, tab) && Ahead(ctlesc, t, Encode(tab, last, s) + u) && n >= |s|
    ensures ReadBytes(ctlesc, t, n, got) == ReadBytes(ctlesc, rest, n - |s|, got + s)
    ensures Consumed(ctlesc, t, Encode(tab, last, s), rest) && Ahead(ctlesc, rest, u)
    decreases |s|
  {
    hide Emit;
    hide LastSent;
    hide Readable;
    hide Strip;
    hide Read;
    if s == [] {
      rest := t;
      assert got + s == got;
      assert Encode(tab, last, s) + u == u;
    } else {
      var e, l := Emit(tab(s[0]), last, s[0]), LastSent(tab(s[0]), last, s[0]);
      EncodeHead(tab, last, s);
      Associative(e, Encode(tab, l, s[1..]), u);
      var t' := ReadsByte(ctlesc, tab, last, s[0], t, Encode(tab, l, s[1..]) + u);
      rest := ReadsBytes(ctlesc, tab, l, s[1..], u, t', n - 1, got + [s[0]]);
      assert (got + [s[0]]) + s[1..] == got + s;
      ConsumedInTurn(ctlesc, t, e, t', Encode(tab, l, s[1..]), rest);
    }
  }

  /** A binary header arrives as it was sent, through any noise. */
  lemma BinaryRoundTrip(ctlesc: bool, tab: Byte -> int, last: Byte, wide: bool, kind: Byte, hdr: seq<Byte>, t: seq<Byte>)
    requires ReadableTab(ctlesc, tab) && |hdr| == 4
    requires Ahead(ctlesc, t, HeaderBody(tab, last, wide, kind, hdr))
    ensures var r := ReadBinary(ctlesc, t, wide);
            r.header == Header(kind, hdr) && Consumed(ctlesc, t, HeaderBody(tab, last, wide, kind, hdr), r.rest)
  {
    hide Add;
    hide AddAll;
    hide CheckBytes;
    hide Encode;
    hide Judge;
    hide ReadableTab;
    hide Ahead;
    var s := [kind] + hdr;
    var check := CheckBytes(AddAll(Start(wide), s));
    var all := s + check;
    EncodeAppend(tab, last, s, check);
    assert Encode(tab, last, all) == HeaderBody(tab, last, wide, kind, hdr);
    assert Encode(tab, last, all) + [] == Encode(tab, last, all);
    var rest := ReadsBytes(ctlesc, tab, last, all, [], t, |all|, []);
    assert [] + all == all;
    JudgeSent(wide, kind, hdr);
  }

  lemma DigitRoundTrip(n: Byte)
    ensures n < 16 ==> DigitValue(HexDigit(n)) == Data(n)
    ensures n < 16 ==> Seven(HexDigit(n)) == HexDigit(n) && !IsControl(HexDigit(n)) && HexDigit(n) != ZDLE
  {
  }

  lemma HalvesJoin(c: Byte)
    ensures Joined(High4(c), Low4(c)) == c && High4(c) < 16 && Low4(c) < 16
  {
  }

  /** The line as noxrd7 sees it: without parity and without the characters
      that are passed over. */
  function Strip7(ctlesc: bool, t: seq<Byte>): seq<Byte> {
    if t == [] then []
    else if Skips7(ctlesc, Seven(t[0])) then Strip7(ctlesc, t[1..])
    else [Seven(t[0])] + Strip7(ctlesc, t[1..])
  }

  lemma {:induction false} Reads7(ctlesc: bool, t: seq<Byte>)
    requires Strip7(ctlesc, t) != []
    ensures var r := Read7(ctlesc, t);
            r.code == Data(Strip7(ctlesc, t)[0]) && Strip7(ctlesc, r.rest) == Strip7(ctlesc, t)[1..]
  {
    hide Seven;
    hide Skips7;
    if Skips7(ctlesc, Seven(t[0])) {
      Reads7(ctlesc, t[1..]);
    }
  }

  /** Two digits are read as the byte they were made from. */
  lemma ReadsHex(ctlesc: bool, t: seq<Byte>, c: Byte, u: seq<Byte>)
    requires Strip7(ctlesc, t) == PutHex(c) + u
    ensures var r := ReadHex(ctlesc, t);
            r.code == Data(c) && Strip7(ctlesc, r.rest) == u
  {
    hide HexDigit;
    hide DigitValue;
    hide High4;
    hide Low4;
    hide Joined;
    hide Strip7;
    hide Read7;
    HalvesJoin(c);
    DigitRoundTrip(High4(c));
    DigitRoundTrip(Low4(c));
    Reads7(ctlesc, t);
    Reads7(ctlesc, Read7(ctlesc, t).rest);
  }

  lemma {:induction false} ReadsHexBytes(ctlesc: bool, t: seq<Byte>, s: seq<Byte>, u: seq<Byte>, got: seq<Byte>)
    requires Strip7(ctlesc, t) == Hex(s) + u
    ensures var r := ReadHexBytes(ctlesc, t, |s|, got);
            r.stop.Data? && r.data == got + s && Strip7(ctlesc, r.rest) == u
    decreases |s|
  {
    hide PutHex;
    hide ReadHex;
    hide Strip7;
    if s == [] {
      assert got + s == got;
      assert Hex(s) + u == u;
    } else {
      Associative(PutHex(s[0]), Hex(s[1..]), u);
      ReadsHex(ctlesc, t, s[0], Hex(s[1..]) + u);
      ReadsHexBytes(ctlesc, ReadHex(ctlesc, t).rest, s[1..], u, got + [s[0]]);
      assert (got + [s[0]]) + s[1..] == got + s;
    }
  }

  /** A hex header arrives as it was sent, its type in seven bits, through
      noise and parity. */
  lemma HexRoundTrip(ctlesc: bool, kind: Byte, hdr: seq<Byte>, t: seq<Byte>, u: seq<Byte>)
    requires |hdr| == 4 && Strip7(ctlesc, t) == HexBody(kind, hdr) + u
    ensures ReadHexadecimal(ctlesc, t).header == Header(Seven(kind), hdr)
  {
    hide CheckBytes;
    hide AddAll;
    hide Hex;
    hide Strip7;
    hide Judge;
    hide Seven;
    var s := [Seven(kind)] + hdr;
    var all := s + CheckBytes(AddAll(Start(false), s));
    ReadsHexBytes(ctlesc, t, all, u, []);
    assert [] + all == all;
    JudgeSent(false, Seven(kind), hdr);
  }

  // ---------- positions in headers ----------

  /** stohdr. */
  function Stohdr(pos: nat): (hdr: seq<Byte>)
    ensures |hdr| == 4
  {
    Digits(pos, 4)
  }

  /** rclhdr. */
  function Rclhdr(hdr: seq<Byte>): nat
    requires |hdr| == 4
  {
    ((hdr[3] as nat * 256 + hdr[2] as nat) * 256 + hdr[1] as nat) * 256 + hdr[0] as nat
  }

  lemma RclhdrIsValue(hdr: seq<Byte>)
    requires |hdr| == 4
    ensures Rclhdr(hdr) == Value(hdr)
  {
    assert hdr[1..][1..] == hdr[2..] && hdr[2..][1..] == hdr[3..] && hdr[3..][1..] == [];
    assert Value(hdr[3..]) == hdr[3] as nat;
    assert Value(hdr[2..]) == hdr[2] as nat + 256 * Value(hdr[3..]);
    assert Value(hdr[1..]) == hdr[1] as nat + 256 * Value(hdr[2..]);
  }

  /** A position survives a header exactly when it fits in 32 bits. */
  lemma PositionRoundTrip(pos: nat)
    ensures Rclhdr(Stohdr(pos)) == pos % 0x1_0000_0000
    ensures Rclhdr(Stohdr(pos)) == pos <==> pos < 0x1_0000_0000
  {
    RclhdrIsValue(Stohdr(pos));
    ValueWraps(pos, 4);
    assert Pow256(4) == 0x1_0000_0000;
  }
}
