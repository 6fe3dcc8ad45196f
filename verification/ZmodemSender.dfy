/** The sending half of the ZMODEM primitives. */
module ZmodemSender {
  import opened ByteDigits
  import opened ZmodemLine
  import opened ZmodemData
  import opened ZmodemHeader
  import Crc = ZmodemCrc

  lemma SameByte(a: Byte, b: Byte)
    ensures a as nat == b as nat ==> a == b
  {
  }

  lemma ByteOfByte(c: Byte)
    ensures ByteOf(c as nat) == c
  {
    SameByte(ByteOf(c as nat), c);
  }

  /** A run of bytes that the table leaves alone. */
  lemma {:induction false} BareRun(tab: Byte -> int, last: Byte, s: seq<Byte>)
    requires forall c :: c in s ==> tab(c) == 0
    ensures Encode(tab, last, s) == s
    ensures LastOf(tab, last, s) == if s == [] then last else s[|s| - 1]
    decreases |s|
  {
    hide Encode;
    hide LastOf;
    if s == [] {
      EncodesNothing(tab, last);
    } else {
      assert s[0] in s;
      EncodesHead(tab, last, s);
      BareByte(last, s[0]);
      BareRun(tab, s[0], s[1..]);
      assert s == [s[0]] + s[1..];
    }
  }

  lemma EncodesNothing(tab: Byte -> int, last: Byte)
    ensures Encode(tab, last, []) == [] && LastOf(tab, last, []) == last
  {
  }

  lemma EncodesHead(tab: Byte -> int, last: Byte, s: seq<Byte>)
    requires s != []
    ensures var l := LastSent(tab(s[0]), last, s[0]);
            && Encode(tab, last, s) == Emit(tab(s[0]), last, s[0]) + Encode(tab, l, s[1..])
            && LastOf(tab, last, s) == LastOf(tab, l, s[1..])
  {
  }

  lemma BareByte(last: Byte, c: Byte)
    ensures Emit(0, last, c) == [c] && LastSent(0, last, c) == c
  {
  }

  lemma EncodeOne(tab: Byte -> int, last: Byte, c: Byte)
    ensures Encode(tab, last, [c]) == Emit(tab(c), last, c)
    ensures LastOf(tab, last, [c]) == LastSent(tab(c), last, c)
  {
    var l := LastSent(tab(c), last, c);
    assert [c][1..] == [];
    assert Encode(tab, l, []) == [] && LastOf(tab, l, []) == l;
  }

  /** The encoding of the first k bytes. */
  function Encoded(tab: Byte -> int, last: Byte, s: seq<Byte>, k: nat): seq<Byte>
    requires k <= |s|
  {
    Encode(tab, last, s[..k])
  }

  function LastAt(tab: Byte -> int, last: Byte, s: seq<Byte>, k: nat): Byte
    requires k <= |s|
  {
    LastOf(tab, last, s[..k])
  }

  lemma EncodeNone(tab: Byte -> int, last: Byte, s: seq<Byte>)
    ensures Encoded(tab, last, s, 0) == [] && LastAt(tab, last, s, 0) == last
  {
    assert s[..0] == [];
  }

  lemma EncodeWhole(tab: Byte -> int, last: Byte, s: seq<Byte>)
    ensures Encoded(tab, last, s, |s|) == Encode(tab, last, s) && LastAt(tab, last, s, |s|) == LastOf(tab, last, s)
  {
    hide Encode;
    hide LastOf;
    assert s[..|s|] == s;
  }

  /** One more byte. */
  lemma EncodeNext(tab: Byte -> int, last: Byte, s: seq<Byte>, k: nat)
    requires k < |s|
    ensures Encoded(tab, last, s, k + 1)
            == Encoded(tab, last, s, k) + Emit(tab(s[k]), LastAt(tab, last, s, k), s[k])
    ensures LastAt(tab, last, s, k + 1) == LastSent(tab(s[k]), LastAt(tab, last, s, k), s[k])
  {
    hide Encode;
    hide LastOf;
    hide Emit;
    hide LastSent;
    assert s[..k + 1] == s[..k] + [s[k]];
    EncodeAppend(tab, last, s[..k], [s[k]]);
    EncodeOne(tab, LastOf(tab, last, s[..k]), s[k]);
  }

  lemma {:induction false} EncodeSame(tab: Byte -> int, tab': Byte -> int, last: Byte, s: seq<Byte>)
    requires forall c :: tab(c) == tab'(c)
    ensures Encode(tab, last, s) == Encode(tab', last, s) && LastOf(tab, last, s) == LastOf(tab', last, s)
    decreases |s|
  {
    if s != [] {
      EncodeSame(tab, tab', LastSent(tab(s[0]), last, s[0]), s[1..]);
    }
  }

  /** How the parts of a subpacket follow what was sent before. */
  lemma PacketParts(tab: Byte -> int, last: Byte, wide: bool, p: Subpacket, o: seq<Byte>)
    ensures var check := Encode(CheckTab(wide, tab), LastOf(tab, last, p.buf), CheckBytes(Checked(wide, p)));
            o + Encode(tab, last, p.buf) + [ZDLE] + [p.e] + check == o + Packet(tab, last, wide, p)
    ensures Checked(wide, p) == Add(AddAll(Start(wide), p.buf), p.e)
    ensures PacketLast(tab, last, wide, p)
            == LastOf(CheckTab(wide, tab), LastOf(tab, last, p.buf), CheckBytes(Checked(wide, p)))
  {
    hide Encode;
    hide LastOf;
    hide CheckBytes;
    hide Add;
    var a := Encode(tab, last, p.buf);
    var check := Encode(CheckTab(wide, tab), LastOf(tab, last, p.buf), CheckBytes(Checked(wide, p)));
    FiveParts(o, a, p.e, check);
  }

  lemma FiveParts(o: seq<Byte>, a: seq<Byte>, e: Byte, check: seq<Byte>)
    ensures o + a + [ZDLE] + [e] + check == o + (a + ([ZDLE, e] + check))
  {
    assert [ZDLE] + [e] == [ZDLE, e];
  }

  class Sender {
    const tab: array<int>
    const zctlesc: bool
    const turbo: bool
    var lastsent: Byte
    var out: seq<Byte>

    ghost predicate Valid() { tab.Length == 256 }

    /** The escape table as a function. */
    ghost function Tab(): Byte -> int
      reads tab
      requires Valid()
    {
      var s := tab[..];
      (c: Byte) => s[c as nat]
    }

    constructor (zctlesc: bool, turbo: bool)
      ensures Valid() && fresh(tab) && out == [] && this.zctlesc == zctlesc && this.turbo == turbo
      ensures forall c: Byte :: Tab()(c) == TableEntry(zctlesc, turbo, c)
    {
      tab := new int[256];
      this.zctlesc := zctlesc;
      this.turbo := turbo;
      lastsent, out := 0, [];
      new;
      Init();
    }

    /** zsendline_init. */
    method Init()
      requires Valid()
      modifies tab
      ensures forall c: Byte :: Tab()(c) == TableEntry(zctlesc, turbo, c)
    {
      for i := 0 to 256
        invariant forall k :: 0 <= k < i ==> tab[k] == TableEntry(zctlesc, turbo, ByteOf(k))
      {
        hide TableEntry;
        tab[i] := EntryFor(ByteOf(i));
      }
      hide TableEntry;
      forall c: Byte
        ensures Tab()(c) == TableEntry(zctlesc, turbo, c)
      {
        ByteOfByte(c);
      }
    }

    /** The branches of zsendline_init. */
    method EntryFor(c: Byte) returns (e: int)
      ensures e == TableEntry(zctlesc, turbo, c)
    {
      if !IsControl(c) {
        e := 0;
      } else if c == ZDLE || c == XOFF || c == XON || c == 0x93 || c == 0x91 {
        e := 1;
      } else if c == 0x10 || c == 0x90 {
        e := if turbo then 0 else 1;
      } else if c == 0x0d || c == 0x8d {
        e := if zctlesc then 1 else if !turbo then 2 else 0;
      } else {
        e := if zctlesc then 1 else 0;
      }
    }

    /** xsendline. */
    method Raw(c: Byte)
      modifies this`out
      ensures out == old(out) + [c]
    {
      out := out + [c];
    }

    /** zsendline. */
    method Zsendline(c: Byte)
      requires Valid()
      modifies this`out, this`lastsent
      ensures out == old(out) + Emit(Tab()(c), old(lastsent), c)
      ensures lastsent == LastSent(Tab()(c), old(lastsent), c)
    {
      var entry := Entry(c);
      hide Tab;
      hide Flip;
      if entry == 0 {
        lastsent := c;
        Raw(c);
      } else if entry == 1 {
        Raw(ZDLE);
        lastsent := Flip(c);
        Raw(Flip(c));
      } else if entry == 2 {
        if !IsAt(lastsent) {
          lastsent := c;
          Raw(c);
        } else {
          Raw(ZDLE);
          lastsent := Flip(c);
          Raw(Flip(c));
        }
      }
    }

    method Entry(c: Byte) returns (e: int)
      requires Valid()
      ensures e == Tab()(c)
    {
      e := tab[c as nat];
    }

    /** zsendline_s: runs that need no escape go out in one piece. Whatever the
        table and the state, it does what zsendline would do on each byte. */
    method ZsendlineS(s: seq<Byte>)
      requires Valid()
      modifies this`out, this`lastsent
      ensures out == old(out) + Encode(Tab(), old(lastsent), s)
      ensures lastsent == LastOf(Tab(), old(lastsent), s)
    {
      hide Tab;
      hide Emit;
      hide LastSent;
      ghost var last, t, o := lastsent, Tab(), out;
      EncodeNone(t, last, s);
      assert o + [] == o;
      var i := 0;
      while i < |s|
        invariant i <= |s|
        invariant out == o + Encoded(t, last, s, i) && lastsent == LastAt(t, last, s, i)
      {
        hide Encoded;
        hide LastAt;
        var j, lastEsc := Run(s, i);
        RunNext(t, last, s, i, j);
        Associative(o, Encoded(t, last, s, i), s[i..j]);
        if j != i {
          out := out + s[i..j];
          lastsent := s[j - 1];
        } else {
          assert s[i..j] == [];
          assert o + Encoded(t, last, s, i) + [] == o + Encoded(t, last, s, i);
        }
        i := j;
        if lastEsc != 0 {
          EncodeNext(t, last, s, i);
          Associative(o, Encoded(t, last, s, i), Emit(lastEsc, lastsent, s[i]));
          Special(s[i], lastEsc);
          i := i + 1;
        }
      }
      assert s[..i] == s;
    }

    /** The scan of zsendline_s: from place i on to the next byte the table
        has an entry for. */
    method Run(s: seq<Byte>, i: nat) returns (j: nat, lastEsc: int)
      requires Valid() && i < |s|
      ensures i <= j <= |s| && forall k :: i <= k < j ==> Tab()(s[k]) == 0
      ensures if lastEsc == 0 then j == |s| else j < |s| && lastEsc == Tab()(s[j])
    {
      hide Tab;
      ghost var t := Tab();
      lastEsc := 0;
      j := i;
      while j < |s|
        invariant i <= j <= |s| && lastEsc == 0
        invariant forall k :: i <= k < j ==> t(s[k]) == 0
      {
        lastEsc := Entry(s[j]);
        if lastEsc != 0 {
          break;
        }
        j := j + 1;
      }
    }

    lemma RunNext(t: Byte -> int, last: Byte, s: seq<Byte>, i: nat, j: nat)
      requires i <= j <= |s| && forall k :: i <= k < j ==> t(s[k]) == 0
      ensures Encoded(t, last, s, j) == Encoded(t, last, s, i) + s[i..j]
      ensures LastAt(t, last, s, j) == if i == j then LastAt(t, last, s, i) else s[j - 1]
    {
      hide Encode;
      hide LastOf;
      assert s[..j] == s[..i] + s[i..j];
      EncodeAppend(t, last, s[..i], s[i..j]);
      BareRun(t, LastOf(t, last, s[..i]), s[i..j]);
    }

    /** The switch of zsendline_s on a byte that is not in a run. */
    method Special(c: Byte, entry: int)
      requires Valid() && entry != 0
      modifies this`out, this`lastsent
      ensures out == old(out) + Emit(entry, old(lastsent), c)
      ensures lastsent == LastSent(entry, old(lastsent), c)
    {
      hide Flip;
      if entry == 1 || (entry == 2 && IsAt(lastsent)) {
        Raw(ZDLE);
        lastsent := Flip(c);
        Raw(Flip(c));
      } else if entry == 2 {
        lastsent := c;
        Raw(c);
      }
    }

    /** zsdata. The loop sends a byte before it looks at the count, so there
        has to be one. */
    method Zsdata(buf: seq<Byte>, e: Byte)
      requires Valid() && 0 < |buf|
      modifies this`out, this`lastsent
      ensures out == old(out) + Packet(Tab(), old(lastsent), false, Subpacket(buf, e)) + Trailer(e)
      ensures lastsent == PacketLast(Tab(), old(lastsent), false, Subpacket(buf, e))
    {
      hide *;
      ghost var last, t, o := lastsent, Tab(), out;
      var crc := SendData16(buf);
      Raw(ZDLE);
      Raw(e);
      crc := Added16(crc, e);
      SendCheck16(crc);
      PacketParts(t, last, false, Subpacket(buf, e), o);
      PlainTab(t);
      EncodeSame(t, CheckTab(false, t), LastOf(t, last, buf), CheckBytes(Fcs16(crc)));
      SendTrailer(e);
    }

    /** The do-while loop of zsdata. */
    method SendData16(buf: seq<Byte>) returns (crc: bv16)
      requires Valid() && 0 < |buf|
      modifies this`out, this`lastsent
      ensures out == old(out) + Encode(Tab(), old(lastsent), buf) && lastsent == LastOf(Tab(), old(lastsent), buf)
      ensures Fcs16(crc) == AddAll(Start(false), buf)
    {
      hide Tab;
      hide Add;
      hide Emit;
      hide LastSent;
      ghost var last, o := lastsent, out;
      crc := 0;
      var i := 0;
      NothingSent(buf);
      while true
        invariant i < |buf|
        invariant SentSoFar(o, last, buf, i) && Fcs16(crc) == AddAll(Start(false), buf[..i])
        decreases |buf| - i
      {
        hide *;
        crc := SendAdd16(crc, buf[i], o, last, buf, i);
        i := i + 1;
        if i == |buf| {
          break;
        }
      }
      assert buf[..i] == buf;
      EncodeWhole(Tab(), last, buf);
    }

    /** Of the bytes s, k are on the line behind o. */
    ghost predicate SentSoFar(o: seq<Byte>, last: Byte, s: seq<Byte>, k: nat)
      reads this, tab
      requires Valid() && k <= |s|
    {
      out == o + Encoded(Tab(), last, s, k) && lastsent == LastAt(Tab(), last, s, k)
    }

    lemma NothingSent(s: seq<Byte>)
      requires Valid()
      ensures SentSoFar(out, lastsent, s, 0)
    {
      EncodeNone(Tab(), lastsent, s);
      assert out + [] == out;
    }

    /** zsendline on the next byte. */
    method SendNext(c: Byte, ghost o: seq<Byte>, ghost last: Byte, ghost s: seq<Byte>, ghost k: nat)
      requires Valid() && k < |s| && s[k] == c && SentSoFar(o, last, s, k)
      modifies this`out, this`lastsent
      ensures SentSoFar(o, last, s, k + 1)
    {
      hide Tab;
      hide Emit;
      hide LastSent;
      hide Encoded;
      hide LastAt;
      ghost var t := Tab();
      EncodeNext(t, last, s, k);
      Associative(o, Encoded(t, last, s, k), Emit(t(c), lastsent, c));
      Zsendline(c);
    }

    /** zsendline and updcrc on the next byte. */
    method SendAdd16(crc: bv16, c: Byte, ghost o: seq<Byte>, ghost last: Byte, ghost s: seq<Byte>, ghost k: nat)
      returns (r: bv16)
      requires Valid() && k < |s| && s[k] == c && SentSoFar(o, last, s, k)
      requires Fcs16(crc) == AddAll(Start(false), s[..k])
      modifies this`out, this`lastsent
      ensures SentSoFar(o, last, s, k + 1) && Fcs16(r) == AddAll(Start(false), s[..k + 1])
    {
      hide *;
      AddNext(Start(false), s, k);
      SendNext(c, o, last, s, k);
      r := Added16(crc, c);
    }

    /** zsendline and UPDC32 on the next byte. */
    method SendAdd32(crc: bv32, c: Byte, ghost o: seq<Byte>, ghost last: Byte, ghost s: seq<Byte>, ghost k: nat)
      returns (r: bv32)
      requires Valid() && k < |s| && s[k] == c && SentSoFar(o, last, s, k)
      requires Fcs32(crc) == AddAll(Start(true), s[..k])
      modifies this`out, this`lastsent
      ensures SentSoFar(o, last, s, k + 1) && Fcs32(r) == AddAll(Start(true), s[..k + 1])
    {
      hide *;
      AddNext(Start(true), s, k);
      r := Added32(crc, c);
      SendNext(c, o, last, s, k);
    }

    /** A ZCRCW subpacket is followed by an XON. */
    method SendTrailer(e: Byte)
      modifies this`out
      ensures out == old(out) + Trailer(e)
    {
      if e == ZCRCW {
        Raw(XON);
      }
    }

    /** updcrc on the register. */
    static method Added16(crc: bv16, c: Byte) returns (r: bv16)
      ensures Fcs16(r) == Add(Fcs16(crc), c)
    {
      r := Crc.UpdCrc(c, crc);
    }

    /** UPDC32 on the register. */
    static method Added32(crc: bv32, c: Byte) returns (r: bv32)
      ensures Fcs32(r) == Add(Fcs32(crc), c)
    {
      r := Crc.UpdC32(c, crc);
    }

    /** Two zero bytes, and the register is the check: high byte first. */
    method SendCheck16(crc: bv16)
      requires Valid()
      modifies this`out, this`lastsent
      ensures out == old(out) + Encode(Tab(), old(lastsent), CheckBytes(Fcs16(crc)))
      ensures lastsent == LastOf(Tab(), old(lastsent), CheckBytes(Fcs16(crc)))
    {
      hide *;
      ghost var last, o := lastsent, out;
      var s := Check16(crc);
      NothingSent(s);
      SendNext(s[0], o, last, s, 0);
      SendNext(s[1], o, last, s, 1);
      AllSent(o, last, s);
    }

    /** zsda32. */
    method Zsda32(buf: seq<Byte>, e: Byte)
      requires Valid()
      modifies this`out, this`lastsent
      ensures out == old(out) + Packet(Tab(), old(lastsent), true, Subpacket(buf, e)) + Trailer(e)
      ensures lastsent == PacketLast(Tab(), old(lastsent), true, Subpacket(buf, e))
    {
      hide *;
      ghost var last, t, o := lastsent, Tab(), out;
      ZsendlineS(buf);
      var crc := Register32(buf);
      Raw(ZDLE);
      Raw(e);
      crc := Added32(crc, e);
      SendCheck32(crc, true);
      PacketParts(t, last, true, Subpacket(buf, e), o);
      SendTrailer(e);
    }

    /** The loop of zsda32 over the data. */
    static method Register32(buf: seq<Byte>) returns (crc: bv32)
      ensures Fcs32(crc) == AddAll(Start(true), buf)
    {
      hide Add;
      crc := 0xffff_ffff;
      for i := 0 to |buf|
        invariant Fcs32(crc) == AddAll(Start(true), buf[..i])
      {
        AddNext(Start(true), buf, i);
        crc := Added32(crc, buf[i]);
      }
      assert buf[..|buf|] == buf;
    }

    /** The complement of the register, low byte first; behind data, printable
        bytes are not looked up in the table. */
    method SendCheck32(crc: bv32, data: bool)
      requires Valid()
      modifies this`out, this`lastsent
      ensures out == old(out) + Encode(CheckTab(data, Tab()), old(lastsent), CheckBytes(Fcs32(crc)))
      ensures lastsent == LastOf(CheckTab(data, Tab()), old(lastsent), CheckBytes(Fcs32(crc)))
    {
      hide Tab;
      ghost var last, t, o := lastsent, CheckTab(data, Tab()), out;
      ghost var s := Crc.CheckBytes32(crc);
      EncodeNone(t, last, s);
      assert o + [] == o;
      var x := Crc.Not(crc);
      var i := 0;
      while i < 4
        invariant i <= 4 && |s| == 4
        invariant x == ShiftedBy(Crc.Not(crc), i)
        invariant out == o + Encoded(t, last, s, i) && lastsent == LastAt(t, last, s, i)
      {
        hide *;
        ShiftedByte(crc, i);
        EncodeNext(t, last, s, i);
        Associative(o, Encoded(t, last, s, i), Emit(t(s[i]), lastsent, s[i]));
        SendCheckByte(Crc.LowByte(x), data);
        x := Crc.Byte1(x);
        i := i + 1;
      }
      EncodeWhole(t, last, s);
    }

    method SendCheckByte(c: Byte, data: bool)
      requires Valid()
      modifies this`out, this`lastsent
      ensures out == old(out) + Emit(CheckTab(data, Tab())(c), old(lastsent), c)
      ensures lastsent == LastSent(CheckTab(data, Tab())(c), old(lastsent), c)
    {
      hide Tab;
      if data && !IsControl(c) {
        lastsent := c;
        Raw(c);
      } else {
        Zsendline(c);
      }
    }

    /** zsbhdr and zsbh32; `nulls` is Znulls. */
    method Zsbhdr(kind: Byte, hdr: seq<Byte>, wide: bool, nulls: nat)
      requires Valid() && |hdr| == 4
      modifies this`out, this`lastsent
      ensures out == old(out) + Nulls(if kind == ZDATA then nulls else 0)
                     + BinHeader(Tab(), old(lastsent), wide, kind, hdr)
      ensures lastsent == HeaderLast(Tab(), old(lastsent), wide, kind, hdr)
    {
      hide BinHeader;
      hide Tab;
      SendNulls(if kind == ZDATA then nulls else 0);
      SendBinHeader(kind, hdr, wide);
    }

    method SendBinHeader(kind: Byte, hdr: seq<Byte>, wide: bool)
      requires Valid() && |hdr| == 4
      modifies this`out, this`lastsent
      ensures out == old(out) + BinHeader(Tab(), old(lastsent), wide, kind, hdr)
      ensures lastsent == HeaderLast(Tab(), old(lastsent), wide, kind, hdr)
    {
      hide *;
      HeaderParts(out, if wide then ZBIN32 else ZBIN, HeaderBody(Tab(), lastsent, wide, kind, hdr));
      BinHeaderIs(Tab(), lastsent, wide, kind, hdr);
      Raw(ZPAD);
      Raw(ZDLE);
      if wide {
        Raw(ZBIN32);
        SendHeader32(kind, hdr);
      } else {
        Raw(ZBIN);
        SendHeader16(kind, hdr);
      }
    }

    method SendNulls(nulls: nat)
      modifies this`out
      ensures out == old(out) + Nulls(nulls)
    {
      ghost var o := out;
      assert o + [] == o;
      var n := nulls;
      while n > 0
        invariant 0 <= n <= nulls && out == o + Nulls(nulls - n)
      {
        Associative(o, Nulls(nulls - n), [0]);
        n := n - 1;
        Raw(0);
      }
    }

    method SendHeader16(kind: Byte, hdr: seq<Byte>)
      requires Valid() && |hdr| == 4
      modifies this`out, this`lastsent
      ensures out == old(out) + HeaderBody(Tab(), old(lastsent), false, kind, hdr)
      ensures lastsent == HeaderLast(Tab(), old(lastsent), false, kind, hdr)
    {
      ghost var last, o, s := lastsent, out, [kind] + hdr;
      var crc: bv16 := 0;
      NothingSent(s);
      assert Fcs16(crc) == AddAll(Start(false), s[..0]);
      hide *;
      crc := SendAdd16(crc, kind, o, last, s, 0);
      for n := 0 to 4
        invariant SentSoFar(o, last, s, n + 1) && Fcs16(crc) == AddAll(Start(false), s[..n + 1])
      {
        crc := SendAdd16(crc, hdr[n], o, last, s, n + 1);
      }
      assert s[..5] == s;
      AllSent(o, last, s);
      SendCheck16(crc);
      BodyParts(o, Tab(), last, false, kind, hdr);
    }

    lemma AllSent(o: seq<Byte>, last: Byte, s: seq<Byte>)
      requires Valid() && SentSoFar(o, last, s, |s|)
      ensures out == o + Encode(Tab(), last, s) && lastsent == LastOf(Tab(), last, s)
    {
      EncodeWhole(Tab(), last, s);
    }

    method SendHeader32(kind: Byte, hdr: seq<Byte>)
      requires Valid() && |hdr| == 4
      modifies this`out, this`lastsent
      ensures out == old(out) + HeaderBody(Tab(), old(lastsent), true, kind, hdr)
      ensures lastsent == HeaderLast(Tab(), old(lastsent), true, kind, hdr)
    {
      ghost var last, o, s := lastsent, out, [kind] + hdr;
      var crc: bv32 := 0xffff_ffff;
      NothingSent(s);
      assert Fcs32(crc) == AddAll(Start(true), s[..0]);
      hide *;
      crc := SendAdd32(crc, kind, o, last, s, 0);
      for n := 0 to 4
        invariant SentSoFar(o, last, s, n + 1) && Fcs32(crc) == AddAll(Start(true), s[..n + 1])
      {
        crc := SendAdd32(crc, hdr[n], o, last, s, n + 1);
      }
      assert s[..5] == s;
      AllSent(o, last, s);
      PlainTab(Tab());
      EncodeSame(Tab(), CheckTab(false, Tab()), lastsent, CheckBytes(Fcs32(crc)));
      SendCheck32(crc, false);
      BodyParts(o, Tab(), last, true, kind, hdr);
    }

    /** zshhdr. */
    method Zshhdr(kind: Byte, hdr: seq<Byte>)
      requires |hdr| == 4
      modifies this`out
      ensures out == old(out) + HexHeader(kind, hdr)
    {
      var k := Seven(kind);
      ghost var body := [k] + hdr;
      var crc: bv16 := 0;
      assert Fcs16(crc) == AddAll(Start(false), body[..0]);
      HexParts(kind, hdr);
      hide *;
      var s := [ZPAD, ZPAD, ZDLE, ZHEX];
      HexNext(body, 0);
      AddNext(Start(false), body, 0);
      s := s + PutHex(k);
      crc := Added16(crc, k);
      assert body[..0] == [];
      HexNone();
      for n := 0 to 4
        invariant out == old(out) && s == [ZPAD, ZPAD, ZDLE, ZHEX] + Hex(body[..n + 1])
        invariant Fcs16(crc) == AddAll(Start(false), body[..n + 1])
      {
        HexNext(body, n + 1);
        AddNext(Start(false), body, n + 1);
        Associative([ZPAD, ZPAD, ZDLE, ZHEX], Hex(body[..n + 1]), PutHex(hdr[n]));
        s := s + PutHex(hdr[n]);
        crc := Added16(crc, hdr[n]);
      }
      assert body[..5] == body;
      var check := Check16(crc);
      s := s + PutHex(check[0]) + PutHex(check[1]);
      s := s + [0x0d, 0x8a];
      if k != ZFIN && k != ZACK {
        s := s + [XON];
      }
      out := out + s;
    }

    static method Check16(crc: bv16) returns (s: seq<Byte>)
      ensures |s| == 2 && s == CheckBytes(Fcs16(crc))
    {
      var r := Crc.UpdCrc(0, Crc.UpdCrc(0, crc));
      s := [Crc.High16(r), Crc.Low16(r)];
    }
  }
}
