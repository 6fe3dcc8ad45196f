/** The receiving half of the ZMODEM primitives. */
module ZmodemReceiver {
  import opened ZmodemLine
  import opened ZmodemData
  import opened ZmodemHeader
  import opened ZmodemHunt
  import Crc = ZmodemCrc

  /** Where zgethdr goes on: with a header or a code, at gotcan, or at agn2. */
  datatype Turn = Found(h: Header) | CanSeen | Junk

  function GoOn(ctlesc: bool, w: Turn, t: seq<Byte>, garbage: nat): HeaderReading {
    match w
    case Found(h) => HeaderReading(h, t)
    case CanSeen => AfterCan(ctlesc, t, garbage, CANS)
    case Junk => PassBy(ctlesc, t, garbage)
  }

  class Receiver {
    const zctlesc: bool
    /** What is still to come down the line; at its end reads time out. */
    var line: seq<Byte>

    constructor (zctlesc: bool, line: seq<Byte>)
      ensures this.zctlesc == zctlesc && this.line == line
    {
      this.zctlesc := zctlesc;
      this.line := line;
    }

    /** READLINE_PF. */
    method Next() returns (c: Byte)
      requires line != []
      modifies this`line
      ensures [c] + line == old(line)
      ensures c == old(line)[0] && line == old(line)[1..]
    {
      c := line[0];
      line := line[1..];
    }

    /** zdlread, and zdlread2 up to the escape character. */
    method Zdlread() returns (c: Code)
      modifies this`line
      ensures Reading(c, line) == Read(zctlesc, old(line))
    {
      while line != []
        invariant Read(zctlesc, line) == Read(zctlesc, old(line))
        decreases |line|
      {
        var b := Next();
        if !IsControl(b) {
          return Data(b);
        }
        if b == ZDLE {
          c := ReadEscaped();
          return;
        }
        if !(b == XON || b == 0x91 || b == XOFF || b == 0x93) && !zctlesc {
          return Data(b);
        }
      }
      c := TimedOut;
    }

    /** The rest of zdlread2. Four more CANs behind the first end the session. */
    method ReadEscaped() returns (c: Code)
      modifies this`line
      ensures Reading(c, line) == Escaped(zctlesc, old(line), 3)
    {
      while line != []
        invariant Escaped(zctlesc, line, 3) == Escaped(zctlesc, old(line), 3)
        decreases |line|
      {
        ghost var here := line;
        var b := Next();
        var cans := 3;
        while b == CAN && cans > 0
          invariant 0 <= cans <= 3
          invariant Escaped(zctlesc, here, 3) == Escaped(zctlesc, [b] + line, cans)
          invariant |line| < |here|
        {
          if line == [] {
            return TimedOut;
          }
          b := Next();
          cans := cans - 1;
        }
        if b == CAN {
          return GotCan;
        }
        if IsFrameEnd(b) {
          return End(b);
        }
        if b == ZRUB0 {
          return Data(0x7f);
        }
        if b == ZRUB1 {
          return Data(0xff);
        }
        if !(b == XON || b == 0x91 || b == XOFF || b == 0x93) && !(zctlesc && IsControl(b)) {
          return if IsFlipped(b) then Data(Flip(b)) else Error;
        }
      }
      c := TimedOut;
    }

    /** zrdata. Without a frame end within length + 1 bytes, that many have
        been stored. */
    method Zrdata(buf: array<Byte>, length: nat) returns (code: Code, received: nat)
      requires buf.Length > length
      modifies this`line, buf
      ensures var r := Receive(zctlesc, old(line), Start(false), length, []);
              && code == r.code && line == r.rest
              && |r.data| <= length + 1 && buf[..|r.data|] == r.data
              && received == if code.End? then |r.data| else 0
    {
      hide Add;
      hide Read;
      received := 0;
      var crc: bv16 := 0;
      var n := 0;
      while n <= length
        invariant 0 <= n <= length + 1
        invariant Receive(zctlesc, line, Fcs16(crc), length, buf[..n])
                  == Receive(zctlesc, old(line), Start(false), length, [])
      {
        ghost var f, got := Fcs16(crc), buf[..n];
        var c := Zdlread();
        if !c.Data? {
          code := CheckTail16(c, crc);
          if code.End? {
            received := n;
          }
          return;
        }
        buf[n] := c.b;
        assert buf[..n + 1] == got + [c.b];
        crc := Crc.UpdCrc(c.b, crc);
        AddedIs16(f.r16, c.b);
        n := n + 1;
      }
      code := Error;
    }

    /** What becomes of a code other than data. */
    ghost function Handled(c: Code, f: Fcs, t: seq<Byte>): Reading {
      if c.End? then Finish(zctlesc, t, Add(f, c.e), CheckLength(f), c.e) else Reading(c, t)
    }

    lemma FinishStep(t: seq<Byte>, f: Fcs, left: nat, e: Byte)
      requires left > 0
      ensures var r := Read(zctlesc, t);
              Finish(zctlesc, t, f, left, e) ==
              if r.code.Data? then Finish(zctlesc, r.rest, Add(f, r.code.b), left - 1, e)
              else Handled(r.code, f, r.rest)
    {
      hide Add;
      hide Read;
    }

    lemma FinishEnd(t: seq<Byte>, f: Fcs, e: Byte)
      ensures Finish(zctlesc, t, f, 0, e) == Reading(if Passes(f) then End(e) else Error, t)
    {
    }

    /** The part of zrdata from crcfoo on. A frame end among the check bytes
        starts it again. */
    method CheckTail16(c0: Code, crc0: bv16) returns (code: Code)
      requires !c0.Data?
      modifies this`line
      ensures Reading(code, line) == Handled(c0, Fcs16(crc0), old(line))
    {
      hide Add;
      hide Read;
      hide Finish;
      var c, crc := c0, crc0;
      while c.End?
        invariant !c.Data? && Handled(c, Fcs16(crc), line) == Handled(c0, Fcs16(crc0), old(line))
        decreases |line| + if c.End? then 1 else 0
      {
        var d := c;
        AddedIs16(crc, c.e);
        crc := Crc.UpdCrc(c.e, crc);
        c, crc := Due16(crc, 2, d.e);
        if !c.Data? {
          continue;
        }
        c, crc := Due16(crc, 1, d.e);
        if !c.Data? {
          continue;
        }
        FinishEnd(line, Fcs16(crc), d.e);
        return if crc != 0 then Error else d;
      }
      code := c;
    }

    /** Read one of `left` check bytes and add it. */
    method Due16(crc: bv16, ghost left: nat, ghost e: Byte) returns (c: Code, r: bv16)
      requires left > 0
      modifies this`line
      ensures Finish(zctlesc, old(line), Fcs16(crc), left, e)
              == if c.Data? then Finish(zctlesc, line, Fcs16(r), left - 1, e) else Handled(c, Fcs16(crc), line)
      ensures !c.Data? ==> r == crc
      ensures |line| <= |old(line)| && (c != TimedOut ==> |line| < |old(line)|)
    {
      hide Add;
      hide Read;
      hide Finish;
      FinishStep(line, Fcs16(crc), left, e);
      c := Zdlread();
      r := crc;
      if c.Data? {
        AddedIs16(crc, c.b);
        r := Crc.UpdCrc(c.b, crc);
      }
    }

    /** Read one of `left` check bytes and add it. */
    method Due32(crc: bv32, ghost left: nat, ghost e: Byte) returns (c: Code, r: bv32)
      requires left > 0
      modifies this`line
      ensures Finish(zctlesc, old(line), Fcs32(crc), left, e)
              == if c.Data? then Finish(zctlesc, line, Fcs32(r), left - 1, e) else Handled(c, Fcs32(crc), line)
      ensures !c.Data? ==> r == crc
      ensures |line| <= |old(line)| && (c != TimedOut ==> |line| < |old(line)|)
    {
      hide Add;
      hide Read;
      hide Finish;
      FinishStep(line, Fcs32(crc), left, e);
      c := Zdlread();
      r := crc;
      if c.Data? {
        AddedIs32(crc, c.b);
        r := Crc.UpdC32(c.b, crc);
      }
    }

    /** zrdat32. It leaves the count alone unless it succeeds. */
    method Zrdat32(buf: array<Byte>, length: nat, before: nat) returns (code: Code, received: nat)
      requires buf.Length > length
      modifies this`line, buf
      ensures var r := Receive(zctlesc, old(line), Start(true), length, []);
              && code == r.code && line == r.rest
              && |r.data| <= length + 1 && buf[..|r.data|] == r.data
              && received == if code.End? then |r.data| else before
    {
      hide Add;
      hide Read;
      received := before;
      var crc: bv32 := 0xffff_ffff;
      var n := 0;
      while n <= length
        invariant 0 <= n <= length + 1
        invariant Receive(zctlesc, line, Fcs32(crc), length, buf[..n])
                  == Receive(zctlesc, old(line), Start(true), length, [])
      {
        ghost var f, got := Fcs32(crc), buf[..n];
        var c := Zdlread();
        if !c.Data? {
          code := CheckTail32(c, crc);
          if code.End? {
            received := n;
          }
          return;
        }
        buf[n] := c.b;
        assert buf[..n + 1] == got + [c.b];
        crc := Crc.UpdC32(c.b, crc);
        AddedIs32(f.r32, c.b);
        n := n + 1;
      }
      code := Error;
    }

    /** The part of zrdat32 from crcfoo on. */
    method CheckTail32(c0: Code, crc0: bv32) returns (code: Code)
      requires !c0.Data?
      modifies this`line
      ensures Reading(code, line) == Handled(c0, Fcs32(crc0), old(line))
    {
      hide Add;
      hide Read;
      hide Finish;
      var c, crc := c0, crc0;
      while c.End?
        invariant !c.Data? && Handled(c, Fcs32(crc), line) == Handled(c0, Fcs32(crc0), old(line))
        decreases |line| + if c.End? then 1 else 0
      {
        var d := c;
        AddedIs32(crc, c.e);
        crc := Crc.UpdC32(c.e, crc);
        c, crc := Due32(crc, 4, d.e);
        if !c.Data? {
          continue;
        }
        c, crc := Due32(crc, 3, d.e);
        if !c.Data? {
          continue;
        }
        c, crc := Due32(crc, 2, d.e);
        if !c.Data? {
          continue;
        }
        c, crc := Due32(crc, 1, d.e);
        if !c.Data? {
          continue;
        }
        FinishEnd(line, Fcs32(crc), d.e);
        return if crc != 0xDEBB_20E3 then Error else d;
      }
      code := c;
    }

    /** zrbhdr. */
    method Zrbhdr() returns (h: Header)
      modifies this`line
      ensures HeaderReading(h, line) == ReadBinary(zctlesc, old(line), false)
    {
      hide Add;
      hide Read;
      var s: seq<Byte> := [];
      var crc: bv16 := 0;
      for n := 0 to 7
        invariant |s| == n && Fcs16(crc) == AddAll(Start(false), s)
        invariant ReadBytes(zctlesc, line, 7 - n, s) == ReadBytes(zctlesc, old(line), 7, [])
      {
        var c := Zdlread();
        if !c.Data? {
          return NoHeader(c);
        }
        AddedIs16(crc, c.b);
        AddLast(Start(false), s, c.b);
        crc := Crc.UpdCrc(c.b, crc);
        s := s + [c.b];
      }
      h := if crc != 0 then NoHeader(Error) else Header(s[0], s[1..5]);
    }

    /** zrbhdr32. */
    method Zrbhdr32() returns (h: Header)
      modifies this`line
      ensures HeaderReading(h, line) == ReadBinary(zctlesc, old(line), true)
    {
      hide Add;
      hide Read;
      var s: seq<Byte> := [];
      var crc: bv32 := 0xffff_ffff;
      for n := 0 to 9
        invariant |s| == n && Fcs32(crc) == AddAll(Start(true), s)
        invariant ReadBytes(zctlesc, line, 9 - n, s) == ReadBytes(zctlesc, old(line), 9, [])
      {
        var c := Zdlread();
        if !c.Data? {
          return NoHeader(c);
        }
        AddedIs32(crc, c.b);
        AddLast(Start(true), s, c.b);
        crc := Crc.UpdC32(c.b, crc);
        s := s + [c.b];
      }
      h := if crc != 0xDEBB_20E3 then NoHeader(Error) else Header(s[0], s[1..5]);
    }

    /** noxrd7. */
    method Noxrd7() returns (c: Code)
      modifies this`line
      ensures Reading(c, line) == Read7(zctlesc, old(line))
    {
      while line != []
        invariant Read7(zctlesc, line) == Read7(zctlesc, old(line))
        decreases |line|
      {
        var b := Next();
        b := Seven(b);
        if b == XON || b == XOFF {
          continue;
        }
        if b != 0x0d && b != 0x0a && b != ZDLE && zctlesc && IsControl(b) {
          continue;
        }
        return Data(b);
      }
      c := TimedOut;
    }

    /** zgethex, zgeth1. */
    method Zgethex() returns (c: Code)
      modifies this`line
      ensures Reading(c, line) == ReadHex(zctlesc, old(line))
    {
      hide Read7;
      hide DigitValue;
      hide Joined;
      c := Noxrd7();
      if !c.Data? {
        return;
      }
      var n := DigitValue(c.b);
      if !n.Data? {
        return Error;
      }
      c := Noxrd7();
      if !c.Data? {
        return;
      }
      c := DigitValue(c.b);
      if !c.Data? {
        return Error;
      }
      c := Data(Joined(n.b, c.b));
    }

    /** zrhhdr. */
    method Zrhhdr() returns (h: Header)
      modifies this`line
      ensures HeaderReading(h, line) == ReadHexadecimal(zctlesc, old(line))
    {
      hide Add;
      hide ReadHex;
      hide Seven;
      var s: seq<Byte> := [];
      var crc: bv16 := 0;
      for n := 0 to 7
        invariant |s| == n && Fcs16(crc) == AddAll(Start(false), s)
        invariant ReadHexBytes(zctlesc, line, 7 - n, s) == ReadHexBytes(zctlesc, old(line), 7, [])
      {
        var c := Zgethex();
        if !c.Data? {
          return NoHeader(c);
        }
        AddedIs16(crc, c.b);
        AddLast(Start(false), s, c.b);
        crc := Crc.UpdCrc(c.b, crc);
        s := s + [c.b];
      }
      if crc != 0 {
        return NoHeader(Error);
      }
      if line != [] {
        var b := Next();
        if Seven(b) == 0x0d && line != [] {
          b := Next();
        }
      }
      h := Header(s[0], s[1..5]);
    }

    /** The part of zgethdr from splat on. */
    method Splat(ghost garbage: nat) returns (w: Turn)
      modifies this`line
      ensures |line| <= |old(line)|
      ensures AfterPad(zctlesc, old(line), garbage) == GoOn(zctlesc, w, line, garbage)
    {
      hide Read7;
      hide ReadBinary;
      hide ReadHexadecimal;
      hide PassBy;
      hide AfterCan;
      while true
        invariant |line| <= |old(line)|
        invariant AfterPad(zctlesc, line, garbage) == AfterPad(zctlesc, old(line), garbage)
        decreases |line|
      {
        Read7Shortens(zctlesc, line);
        var c := Noxrd7();
        if !c.Data? {
          return Found(NoHeader(c));
        }
        if c.b == ZDLE {
          w := Style(garbage);
          return;
        }
        if c.b != ZPAD {
          return Junk;
        }
      }
    }

    /** The switch on the style of the header. */
    method Style(ghost garbage: nat) returns (w: Turn)
      modifies this`line
      ensures |line| <= |old(line)|
      ensures AfterEscape(zctlesc, old(line), garbage) == GoOn(zctlesc, w, line, garbage)
    {
      hide Read7;
      hide ReadBinary;
      hide ReadHexadecimal;
      hide PassBy;
      hide AfterCan;
      Read7Shortens(zctlesc, line);
      var c := Noxrd7();
      if !c.Data? {
        return Found(NoHeader(c));
      }
      ShortensAll(line);
      if c.b == ZBIN {
        var h := Zrbhdr();
        w := Found(h);
      } else if c.b == ZBIN32 {
        var h := Zrbhdr32();
        w := Found(h);
      } else if c.b == ZHEX {
        var h := Zrhhdr();
        w := Found(h);
      } else if c.b == CAN {
        w := CanSeen;
      } else {
        w := Junk;
      }
    }

    lemma ShortensAll(t: seq<Byte>)
      ensures |ReadBinary(zctlesc, t, false).rest| <= |t| && |ReadBinary(zctlesc, t, true).rest| <= |t|
      ensures |ReadHexadecimal(zctlesc, t).rest| <= |t|
    {
      BytesShorten(t, 7, []);
      BytesShorten(t, 9, []);
      HexShortens(t, 7, []);
    }

    lemma {:induction false} BytesShorten(t: seq<Byte>, n: nat, got: seq<Byte>)
      ensures |ReadBytes(zctlesc, t, n, got).rest| <= |t|
      decreases n
    {
      var r := Read(zctlesc, t);
      if n > 0 && r.code.Data? {
        BytesShorten(r.rest, n - 1, got + [r.code.b]);
      }
    }

    lemma {:induction false} HexShortens(t: seq<Byte>, n: nat, got: seq<Byte>)
      ensures |ReadHexBytes(zctlesc, t, n, got).rest| <= |t|
      decreases n
    {
      var r := ReadHex(zctlesc, t);
      if n > 0 && r.code.Data? {
        HexShortens(r.rest, n - 1, got + [r.code.b]);
      }
    }

    /** zgethdr: the next header, its position, or why there is none.
        maxGarbage is Zrwindow + Baudrate. */
    method Zgethdr(maxGarbage: nat) returns (h: Header, rxpos: nat)
      requires maxGarbage < UINT
      modifies this`line
      ensures HeaderReading(h, line) == Hunt(zctlesc, old(line), maxGarbage, CANS)
      ensures h.Header? && |h.hdr| == 4 ==> rxpos == Rclhdr(h.hdr)
    {
      hide AfterPad;
      rxpos := 0;
      var garbage, cancount := maxGarbage, CANS;
      while line != []
        invariant 0 <= garbage < UINT && 1 <= cancount <= CANS
        invariant Hunt(zctlesc, line, garbage, cancount) == Hunt(zctlesc, old(line), maxGarbage, CANS)
        decreases |line|
      {
        ghost var start, cans := line, cancount;
        var c := Next();
        var w := if c == CAN then CanSeen else Junk;
        if IsPad(c) {
          cancount := CANS;
          w := Splat(garbage);
        }
        if w.Found? {
          h := w.h;
          if h.Header? && |h.hdr| == 4 {
            rxpos := Rclhdr(h.hdr);
          }
          return;
        }
        assert Hunt(zctlesc, start, garbage, cans) ==
               if w.CanSeen? then AfterCan(zctlesc, line, garbage, cancount) else PassBy(zctlesc, line, garbage);
        if w.CanSeen? {
          AfterCanIs(zctlesc, line, garbage, cancount);
          cancount := cancount - 1;
          if cancount <= 0 {
            return NoHeader(GotCan), 0;
          }
          if line == [] {
            break;
          }
          c := Next();
          if c == ZCRCW {
            return NoHeader(Error), 0;
          }
          if c == CAN {
            cancount := cancount - 1;
            if cancount <= 0 {
              return NoHeader(GotCan), 0;
            }
            continue;
          }
        }
        PassByIs(zctlesc, line, garbage);
        garbage := (garbage - 1) % UINT;
        if garbage == 0 {
          return NoHeader(Error), 0;
        }
        cancount := CANS;
      }
      h := NoHeader(TimedOut);
    }
  }
}
