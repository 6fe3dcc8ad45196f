/** ZMODEM link escape encoding: what one byte becomes on the line, and what
    the receiver makes of the line. */
module ZmodemLine {
  type Byte = bv8

  const ZDLE: Byte := 0x18
  const CAN: Byte := 0x18
  const XON: Byte := 0x11
  const XOFF: Byte := 0x13
  const AT: Byte := 0x40
  const ZCRCE: Byte := 0x68
  const ZCRCG: Byte := 0x69
  const ZCRCQ: Byte := 0x6a
  const ZCRCW: Byte := 0x6b
  const ZRUB0: Byte := 0x6c
  const ZRUB1: Byte := 0x6d

  /** Control characters, of either parity: !(c & 0140). */
  predicate IsControl(c: Byte) { c & 0x60 == 0 }

  /** XON and XOFF, of either parity. */
  predicate IsFlow(c: Byte) { c == 0x11 || c == 0x91 || c == 0x13 || c == 0x93 }

  predicate IsFrameEnd(c: Byte) { c == ZCRCE || c == ZCRCG || c == ZCRCQ || c == ZCRCW }

  /** c ^ 0100. */
  function Flip(c: Byte): Byte { c ^ 0x40 }

  /** (c & 0140) == 0100. */
  predicate IsFlipped(c: Byte) { c & 0x60 == 0x40 }

  lemma FlipIsInverse(c: Byte)
    ensures Flip(Flip(c)) == c
  {
  }

  lemma FlippedControl(c: Byte)
    ensures IsControl(c) ==> IsFlipped(Flip(c))
    ensures IsFlipped(c) ==> !IsControl(c) && !IsFlow(c) && !IsFrameEnd(c) && c != ZRUB0 && c != ZRUB1 && c != CAN
  {
  }

  /** What zdlread returns: a byte of data, the end of a subpacket, or one of
      GOTCAN, ERROR and TIMEOUT. */
  datatype Code = Data(b: Byte) | End(e: Byte) | GotCan | Error | TimedOut

  datatype Reading = Reading(code: Code, rest: seq<Byte>)

  // ---------- the receiver, on what is left of the line ----------

  /** zdlread, up to the escape character. */
  function Read(ctlesc: bool, t: seq<Byte>): (r: Reading)
    ensures |r.rest| <= |t|
    ensures r.code != TimedOut ==> |r.rest| < |t|
  {
    if t == [] then Reading(TimedOut, [])
    else if !IsControl(t[0]) then Reading(Data(t[0]), t[1..])
    else if t[0] == ZDLE then Escaped(ctlesc, t[1..], 3)
    else if IsFlow(t[0]) || ctlesc then Read(ctlesc, t[1..])
    else Reading(Data(t[0]), t[1..])
  }

  /** zdlread2 from the escape character on; up to `cans` more CANs are read
      one after another. */
  function Escaped(ctlesc: bool, t: seq<Byte>, cans: nat): (r: Reading)
    ensures |r.rest| <= |t|
    ensures r.code != TimedOut ==> |r.rest| < |t|
  {
    if t == [] then Reading(TimedOut, [])
    else if t[0] == CAN then
      if cans > 0 then Escaped(ctlesc, t[1..], cans - 1) else Reading(GotCan, t[1..])
    else if IsFlow(t[0]) || (IsControl(t[0]) && ctlesc) then Escaped(ctlesc, t[1..], 3)
    else Reading(Unescape(t[0]), t[1..])
  }

  function Unescape(c: Byte): Code {
    if IsFrameEnd(c) then End(c)
    else if c == ZRUB0 then Data(0x7f)
    else if c == ZRUB1 then Data(0xff)
    else if IsFlipped(c) then Data(Flip(c))
    else Error
  }

  // ---------- line noise ----------

  /** Characters the receiver passes over wherever they stand. */
  predicate IsNoise(ctlesc: bool, c: Byte) {
    IsFlow(c) || (ctlesc && IsControl(c) && c != ZDLE)
  }

  /** The line without noise. */
  function Strip(ctlesc: bool, t: seq<Byte>): (u: seq<Byte>)
    ensures |u| <= |t|
  {
    if t == [] then []
    else if IsNoise(ctlesc, t[0]) then Strip(ctlesc, t[1..])
    else [t[0]] + Strip(ctlesc, t[1..])
  }

  predicate IsClean(ctlesc: bool, t: seq<Byte>) {
    forall c :: c in t ==> !IsNoise(ctlesc, c)
  }

  lemma {:induction false} StripClean(ctlesc: bool, t: seq<Byte>)
    requires IsClean(ctlesc, t)
    ensures Strip(ctlesc, t) == t
  {
    if t != [] {
      assert t[0] in t;
      StripClean(ctlesc, t[1..]);
      assert t == [t[0]] + t[1..];
    }
  }

  /** What is left of one character. */
  function Strip1(ctlesc: bool, c: Byte): seq<Byte> { if IsNoise(ctlesc, c) then [] else [c] }

  lemma StripHead(ctlesc: bool, t: seq<Byte>)
    requires t != []
    ensures Strip(ctlesc, t) == Strip1(ctlesc, t[0]) + Strip(ctlesc, t[1..])
  {
  }

  lemma Associative(a: seq<Byte>, b: seq<Byte>, c: seq<Byte>)
    ensures (a + b) + c == a + (b + c)
  {
  }

  lemma {:induction false} StripAppend(ctlesc: bool, s: seq<Byte>, t: seq<Byte>)
    ensures Strip(ctlesc, s + t) == Strip(ctlesc, s) + Strip(ctlesc, t)
  {
    if s == [] {
      assert s + t == t;
    } else {
      StripAppend(ctlesc, s[1..], t);
      StripHead(ctlesc, s);
      StripHead(ctlesc, s + t);
      assert (s + t)[1..] == s[1..] + t;
      Associative(Strip1(ctlesc, s[0]), Strip(ctlesc, s[1..]), Strip(ctlesc, t));
    }
  }

  /** Noise disappears wherever it is inserted. */
  lemma StripInsert(ctlesc: bool, s: seq<Byte>, c: Byte, t: seq<Byte>)
    requires IsNoise(ctlesc, c)
    ensures Strip(ctlesc, s + [c] + t) == Strip(ctlesc, s + t)
  {
    StripAppend(ctlesc, s + [c], t);
    StripAppend(ctlesc, s, [c]);
    StripAppend(ctlesc, s, t);
    assert Strip(ctlesc, [c]) == [];
  }

  /** u is the line ahead of the receiver, noise aside. */
  predicate Ahead(ctlesc: bool, t: seq<Byte>, u: seq<Byte>) {
    u <= Strip(ctlesc, t)
  }

  /** After u has been read, `rest` is left. */
  predicate Consumed(ctlesc: bool, t: seq<Byte>, u: seq<Byte>, rest: seq<Byte>) {
    Strip(ctlesc, t) == u + Strip(ctlesc, rest)
  }

  // ---------- reading through noise ----------

  /** A bare character is read as itself. */
  lemma {:induction false} ReadsBare(ctlesc: bool, t: seq<Byte>, c: Byte)
    requires Ahead(ctlesc, t, [c]) && c != ZDLE
    ensures Read(ctlesc, t).code == Data(c) && Consumed(ctlesc, t, [c], Read(ctlesc, t).rest)
  {
    var u := Strip(ctlesc, t);
    assert u[0] == c;
    if IsNoise(ctlesc, t[0]) {
      ReadsBare(ctlesc, t[1..], c);
    }
  }

  /** An escape character and another one are read as one code. */
  lemma {:induction false} ReadsEscaped(ctlesc: bool, t: seq<Byte>, c: Byte)
    requires Ahead(ctlesc, t, [ZDLE, c]) && c != ZDLE
    ensures Read(ctlesc, t).code == Unescape(c) && Consumed(ctlesc, t, [ZDLE, c], Read(ctlesc, t).rest)
  {
    var u := Strip(ctlesc, t);
    assert u[0] == ZDLE && u[1] == c;
    if IsNoise(ctlesc, t[0]) {
      ReadsEscaped(ctlesc, t[1..], c);
    } else {
      assert u == [t[0]] + Strip(ctlesc, t[1..]);
      assert Strip(ctlesc, t[1..])[0] == c;
      EscapedReads(ctlesc, t[1..], c);
      assert u == [ZDLE] + ([c] + Strip(ctlesc, Read(ctlesc, t).rest));
    }
  }

  lemma {:induction false} EscapedReads(ctlesc: bool, t: seq<Byte>, c: Byte)
    requires Ahead(ctlesc, t, [c]) && c != ZDLE
    ensures var r := Escaped(ctlesc, t, 3);
            r.code == Unescape(c) && Consumed(ctlesc, t, [c], r.rest)
  {
    var u := Strip(ctlesc, t);
    assert u[0] == c;
    if IsNoise(ctlesc, t[0]) {
      EscapedReads(ctlesc, t[1..], c);
    }
  }

  // ---------- the sender's escapes ----------

  /** What zsendline_init puts in the table. */
  function TableEntry(ctlesc: bool, turbo: bool, c: Byte): int {
    if !IsControl(c) then 0
    else if c == ZDLE || IsFlow(c) then 1
    else if c == 0x10 || c == 0x90 then if turbo then 0 else 1
    else if c == 0x0d || c == 0x8d then if ctlesc then 1 else if !turbo then 2 else 0
    else if ctlesc then 1 else 0
  }

  /** Whether a byte of table entry `mode` is escaped after `last`. */
  predicate Escapes(mode: int, last: Byte) { mode == 1 || (mode == 2 && IsAt(last)) }

  /** '@', of either parity. */
  predicate IsAt(c: Byte) { c & 0x7f == AT }

  /** What zsendline writes for a byte. */
  function Emit(mode: int, last: Byte, c: Byte): seq<Byte> {
    if Escapes(mode, last) then [ZDLE, Flip(c)]
    else if mode == 0 || mode == 2 then [c]
    else []
  }

  /** The value zsendline leaves in lastsent. */
  function LastSent(mode: int, last: Byte, c: Byte): Byte {
    if Escapes(mode, last) then Flip(c)
    else if mode == 0 || mode == 2 then c
    else last
  }

  /** What zsendline writes for the bytes of s, one call after another. */
  function Encode(tab: Byte -> int, last: Byte, s: seq<Byte>): seq<Byte>
    decreases |s|
  {
    if s == [] then []
    else Emit(tab(s[0]), last, s[0]) + Encode(tab, LastSent(tab(s[0]), last, s[0]), s[1..])
  }

  /** What these calls leave in lastsent. */
  function LastOf(tab: Byte -> int, last: Byte, s: seq<Byte>): Byte
    decreases |s|
  {
    if s == [] then last else LastOf(tab, LastSent(tab(s[0]), last, s[0]), s[1..])
  }

  lemma {:induction false} EncodeAppend(tab: Byte -> int, last: Byte, s: seq<Byte>, t: seq<Byte>)
    ensures Encode(tab, last, s + t) == Encode(tab, last, s) + Encode(tab, LastOf(tab, last, s), t)
    ensures LastOf(tab, last, s + t) == LastOf(tab, LastOf(tab, last, s), t)
    decreases |s|
  {
    if s == [] {
      assert s + t == t;
    } else {
      var e, l := Emit(tab(s[0]), last, s[0]), LastSent(tab(s[0]), last, s[0]);
      EncodeAppend(tab, l, s[1..], t);
      assert (s + t)[1..] == s[1..] + t;
      Associative(e, Encode(tab, l, s[1..]), Encode(tab, LastOf(tab, l, s[1..]), t));
    }
  }

  /** A byte in a form the receiver takes for it. */
  predicate Readable(ctlesc: bool, c: Byte, e: seq<Byte>) {
    || (e == [c] && c != ZDLE && !IsNoise(ctlesc, c))
    || (e == [ZDLE, Flip(c)] && IsControl(c))
  }

  /** The settings of sender and receiver fit together. */
  predicate Compatible(sendCtl: bool, turbo: bool, recvCtl: bool) {
    recvCtl ==> sendCtl && !turbo
  }

  lemma EmitIsReadable(sendCtl: bool, turbo: bool, recvCtl: bool, last: Byte, c: Byte)
    requires Compatible(sendCtl, turbo, recvCtl)
    ensures Readable(recvCtl, c, Emit(TableEntry(sendCtl, turbo, c), last, c))
  {
  }

  lemma ReadsReadable(ctlesc: bool, t: seq<Byte>, c: Byte, e: seq<Byte>)
    requires Readable(ctlesc, c, e) && Ahead(ctlesc, t, e)
    ensures Read(ctlesc, t).code == Data(c) && Consumed(ctlesc, t, e, Read(ctlesc, t).rest)
  {
    if e == [c] && c != ZDLE {
      ReadsBare(ctlesc, t, c);
    } else {
      FlippedControl(c);
      FlipIsInverse(c);
      FlippedControl(Flip(c));
      ReadsEscaped(ctlesc, t, Flip(c));
    }
  }
}
