/** What the escapes are for: what never goes out bare. */
module ZmodemEscapes {
  import opened ZmodemLine
  import opened ZmodemData
  import opened ZmodemTransfer

  /** A carriage return, of either parity. */
  predicate IsCr(c: Byte) { c == 0x0d || c == 0x8d }

  /** DLE, of either parity. */
  predicate IsDle(c: Byte) { c == 0x10 || c == 0x90 }

  /** Which bytes are escaped, by what they are and what was sent before. */
  predicate MustEscape(ctlesc: bool, turbo: bool, last: Byte, c: Byte) {
    || c == ZDLE || IsFlow(c)
    || (!turbo && (IsDle(c) || (IsCr(c) && IsAt(last))))
    || (ctlesc && IsControl(c) && !IsDle(c))
  }

  /** These, and no others. */
  lemma EscapedExactly(ctlesc: bool, turbo: bool, last: Byte, c: Byte)
    ensures Emit(TableEntry(ctlesc, turbo, c), last, c)
            == if MustEscape(ctlesc, turbo, last, c) then [ZDLE, Flip(c)] else [c]
    ensures LastSent(TableEntry(ctlesc, turbo, c), last, c)
            == if MustEscape(ctlesc, turbo, last, c) then Flip(c) else c
  {
  }

  /** A network that takes '@' and CR for its own command is never given them:
      no CR comes directly behind an '@'. */
  predicate NoCommand(s: seq<Byte>) {
    forall k :: 0 < k < |s| ==> !(IsAt(s[k - 1]) && IsCr(s[k]))
  }

  lemma NoCommandJoin(s: seq<Byte>, c: Byte, t: seq<Byte>)
    requires NoCommand(s + [c]) && NoCommand([c] + t)
    ensures NoCommand(s + [c] + t)
  {
    var all, n := s + [c] + t, |s|;
    forall k | 0 < k < |all|
      ensures !(IsAt(all[k - 1]) && IsCr(all[k]))
    {
      if k <= n {
        assert all[k] == (s + [c])[k] && all[k - 1] == (s + [c])[k - 1];
      } else {
        assert all[k] == ([c] + t)[k - n] && all[k - 1] == ([c] + t)[k - n - 1];
      }
    }
  }

  lemma FlippedIsPlain(c: Byte)
    ensures IsControl(c) ==> !IsControl(Flip(c))
    ensures IsCr(c) || IsDle(c) ==> IsControl(c)
    ensures IsAt(c) ==> !IsControl(c)
    ensures IsControl(ZDLE) && !IsCr(ZDLE) && !IsDle(ZDLE)
    ensures c == ZDLE || IsFlow(c) ==> IsControl(c)
  {
  }

  lemma EmitHasNoCommand(ctlesc: bool, last: Byte, c: Byte)
    ensures NoCommand([last] + Emit(TableEntry(ctlesc, false, c), last, c))
  {
    hide TableEntry;
    hide Emit;
    hide IsControl;
    hide Flip;
    EscapedExactly(ctlesc, false, last, c);
    FlippedIsPlain(c);
    FlippedIsPlain(last);
    FlippedIsPlain(Flip(c));
    FlippedIsPlain(ZDLE);
  }

  /** Without turbo escaping: whatever was sent before, and whatever is sent. */
  lemma {:induction false} NoCommandIsSent(ctlesc: bool, last: Byte, s: seq<Byte>)
    ensures NoCommand([last] + Encode(Table(ctlesc, false), last, s))
    decreases |s|
  {
    hide TableEntry;
    hide NoCommand;
    if s == [] {
      OneIsNoCommand(last);
    } else {
      var t, c := Table(ctlesc, false), s[0];
      var e, l := Emit(t(c), last, c), LastSent(t(c), last, c);
      EmitHasNoCommand(ctlesc, last, c);
      NoCommandIsSent(ctlesc, l, s[1..]);
      LastOfEmit(ctlesc, false, last, c);
      assert [last] + e == ([last] + e[..|e| - 1]) + [l];
      NoCommandJoin([last] + e[..|e| - 1], l, Encode(t, l, s[1..]));
      assert [last] + (e + Encode(t, l, s[1..])) == ([last] + e[..|e| - 1]) + [l] + Encode(t, l, s[1..]);
    }
  }

  lemma OneIsNoCommand(c: Byte)
    ensures NoCommand([c] + [])
  {
  }

  lemma LastOfEmit(ctlesc: bool, turbo: bool, last: Byte, c: Byte)
    ensures var e := Emit(TableEntry(ctlesc, turbo, c), last, c);
            e != [] && e[|e| - 1] == LastSent(TableEntry(ctlesc, turbo, c), last, c)
  {
    EscapedExactly(ctlesc, turbo, last, c);
  }

  /** Nor is it in a subpacket, across its frame end and its check. */
  lemma PacketHasNoCommand(ctlesc: bool, last: Byte, wide: bool, p: Subpacket)
    requires IsFrameEnd(p.e)
    ensures NoCommand([last] + Packet(Table(ctlesc, false), last, wide, p))
  {
    hide Encode;
    hide CheckBytes;
    hide TableEntry;
    var t := Table(ctlesc, false);
    var l := LastOf(t, last, p.buf);
    var check := CheckBytes(Checked(wide, p));
    var a, b := Encode(t, last, p.buf), Encode(CheckTab(wide, t), l, check);
    NoCommandIsSent(ctlesc, last, p.buf);
    NoCommandIsSent(ctlesc, l, check);
    CheckTabIsTable(ctlesc, wide, l, check);
    NoCommandBehind([last] + a, p.e, l, b);
    assert [last] + (a + ([ZDLE, p.e] + b)) == [last] + a + [ZDLE, p.e] + b;
  }

  lemma {:induction false} CheckTabIsTable(ctlesc: bool, wide: bool, last: Byte, s: seq<Byte>)
    ensures Encode(CheckTab(wide, Table(ctlesc, false)), last, s) == Encode(Table(ctlesc, false), last, s)
    decreases |s|
  {
    if s != [] {
      var t := Table(ctlesc, false);
      assert CheckTab(wide, t)(s[0]) == t(s[0]);
      CheckTabIsTable(ctlesc, wide, LastSent(t(s[0]), last, s[0]), s[1..]);
    }
  }

  lemma NoCommandBehind(a: seq<Byte>, e: Byte, l: Byte, b: seq<Byte>)
    requires NoCommand(a) && IsFrameEnd(e) && NoCommand([l] + b)
    ensures NoCommand(a + [ZDLE, e] + b)
  {
    var all, n := a + [ZDLE, e] + b, |a|;
    assert !IsCr(ZDLE) && !IsAt(ZDLE) && !IsCr(e) && !IsAt(e);
    forall k | 0 < k < |all|
      ensures !(IsAt(all[k - 1]) && IsCr(all[k]))
    {
      if k > n + 2 {
        assert all[k] == ([l] + b)[k - n - 1] && all[k - 1] == ([l] + b)[k - n - 2];
      }
    }
  }

  /** Without turbo escaping no DLE is on the line; and with all control
      characters escaped, no other than the escape character. */
  lemma {:induction false} ControlsSent(ctlesc: bool, last: Byte, s: seq<Byte>, c: Byte)
    requires c in Encode(Table(ctlesc, false), last, s)
    ensures !IsDle(c) && (ctlesc && IsControl(c) ==> c == ZDLE)
    decreases |s|
  {
    hide TableEntry;
    hide IsControl;
    hide Flip;
    var t := Table(ctlesc, false);
    EscapedExactly(ctlesc, false, last, s[0]);
    FlippedIsPlain(s[0]);
    FlippedIsPlain(c);
    FlippedIsPlain(Flip(s[0]));
    var e, l := Emit(t(s[0]), last, s[0]), LastSent(t(s[0]), last, s[0]);
    if c !in e {
      ControlsSent(ctlesc, l, s[1..], c);
    }
  }
}
