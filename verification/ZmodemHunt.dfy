/** Finding a ZMODEM header between other characters. */
module ZmodemHunt {
  import opened ZmodemLine
  import opened ZmodemData
  import opened ZmodemHeader

  const CANS: nat := 5
  const UINT: nat := 0x1_0000_0000

  predicate IsPad(c: Byte) { c == ZPAD || c == 0xaa }

  /** zgethdr from its label `again`: `garbage` characters may still be passed
      by, and `cans` more CANs end the session. */
  function Hunt(ctlesc: bool, t: seq<Byte>, garbage: nat, cans: nat): (r: HeaderReading)
    decreases |t|, 1
  {
    if t == [] then HeaderReading(NoHeader(TimedOut), [])
    else if t[0] == CAN then AfterCan(ctlesc, t[1..], garbage, cans)
    else if IsPad(t[0]) then AfterPad(ctlesc, t[1..], garbage)
    else PassBy(ctlesc, t[1..], garbage)
  }

  /** Label agn2: one character less may be passed by; the count is unsigned. */
  function PassBy(ctlesc: bool, t: seq<Byte>, garbage: nat): HeaderReading
    decreases |t|, 2
  {
    var left := (garbage - 1) % UINT;
    if left == 0 then HeaderReading(NoHeader(Error), t) else Hunt(ctlesc, t, left, CANS)
  }

  /** Label gotcan: a ZCRCW behind a CAN is an error at once. */
  function AfterCan(ctlesc: bool, t: seq<Byte>, garbage: nat, cans: nat): HeaderReading
    decreases |t|, 3
  {
    if cans <= 1 then HeaderReading(NoHeader(GotCan), t)
    else if t == [] then HeaderReading(NoHeader(TimedOut), [])
    else if t[0] == ZCRCW then HeaderReading(NoHeader(Error), t[1..])
    else if t[0] != CAN then PassBy(ctlesc, t[1..], garbage)
    else if cans <= 2 then HeaderReading(NoHeader(GotCan), t[1..])
    else Hunt(ctlesc, t[1..], garbage, cans - 2)
  }

  lemma PassByIs(ctlesc: bool, t: seq<Byte>, garbage: nat)
    ensures var left := (garbage - 1) % UINT;
            PassBy(ctlesc, t, garbage) ==
            if left == 0 then HeaderReading(NoHeader(Error), t) else Hunt(ctlesc, t, left, CANS)
  {
  }

  lemma AfterCanIs(ctlesc: bool, t: seq<Byte>, garbage: nat, cans: nat)
    ensures AfterCan(ctlesc, t, garbage, cans) ==
            if cans <= 1 then HeaderReading(NoHeader(GotCan), t)
            else if t == [] then HeaderReading(NoHeader(TimedOut), [])
            else if t[0] == ZCRCW then HeaderReading(NoHeader(Error), t[1..])
            else if t[0] != CAN then PassBy(ctlesc, t[1..], garbage)
            else if cans <= 2 then HeaderReading(NoHeader(GotCan), t[1..])
            else Hunt(ctlesc, t[1..], garbage, cans - 2)
  {
  }

  /** Label splat: more padding, then the escape character. */
  function AfterPad(ctlesc: bool, t: seq<Byte>, garbage: nat): HeaderReading
    decreases |t|, 3
  {
    var r := Read7(ctlesc, t);
    if !r.code.Data? then HeaderReading(NoHeader(r.code), r.rest)
    else
      Read7Shortens(ctlesc, t);
      if r.code.b == ZPAD then AfterPad(ctlesc, r.rest, garbage)
      else if r.code.b == ZDLE then AfterEscape(ctlesc, r.rest, garbage)
      else PassBy(ctlesc, r.rest, garbage)
  }

  /** The style of the header, and the header. */
  function AfterEscape(ctlesc: bool, t: seq<Byte>, garbage: nat): HeaderReading
    decreases |t|, 3
  {
    var r := Read7(ctlesc, t);
    if !r.code.Data? then HeaderReading(NoHeader(r.code), r.rest)
    else
      Read7Shortens(ctlesc, t);
      if r.code.b == ZBIN then ReadBinary(ctlesc, r.rest, false)
      else if r.code.b == ZBIN32 then ReadBinary(ctlesc, r.rest, true)
      else if r.code.b == ZHEX then ReadHexadecimal(ctlesc, r.rest)
      else if r.code.b == CAN then AfterCan(ctlesc, r.rest, garbage, CANS)
      else PassBy(ctlesc, r.rest, garbage)
  }

  lemma {:induction false} Read7Shortens(ctlesc: bool, t: seq<Byte>)
    ensures Read7(ctlesc, t).code.Data? ==> |Read7(ctlesc, t).rest| < |t|
  {
    if t != [] && Skips7(ctlesc, Seven(t[0])) {
      Read7Shortens(ctlesc, t[1..]);
    }
  }

  // ---------- what is found ----------

  /** Characters that are neither padding nor CAN. */
  predicate IsGarbage(s: seq<Byte>) {
    forall c :: c in s ==> c != CAN && !IsPad(c)
  }

  /** Garbage is passed by, as long as there is not too much of it. */
  lemma {:induction false} GarbageIsPassedBy(ctlesc: bool, s: seq<Byte>, u: seq<Byte>, garbage: nat)
    requires IsGarbage(s) && garbage < UINT
    ensures |s| < garbage ==> Hunt(ctlesc, s + u, garbage, CANS) == Hunt(ctlesc, u, garbage - |s|, CANS)
    ensures 0 < garbage <= |s| ==> Hunt(ctlesc, s + u, garbage, CANS).header == NoHeader(Error)
  {
    if s == [] {
      assert s + u == u;
    } else {
      assert s[0] in s;
      assert (s + u)[0] == s[0] && (s + u)[1..] == s[1..] + u;
      assert forall c :: c in s[1..] ==> c in s;
      if garbage > 1 {
        GarbageIsPassedBy(ctlesc, s[1..], u, garbage - 1);
      }
    }
  }

  /** What noxrd7 passes over. */
  predicate Skipped7(ctlesc: bool, s: seq<Byte>) {
    forall c :: c in s ==> Skips7(ctlesc, Seven(c))
  }

  lemma {:induction false} Reads7Behind(ctlesc: bool, s: seq<Byte>, c: Byte, u: seq<Byte>)
    requires Skipped7(ctlesc, s) && !Skips7(ctlesc, Seven(c))
    ensures Read7(ctlesc, s + ([c] + u)) == Reading(Data(Seven(c)), u)
  {
    hide Skips7;
    hide Seven;
    if s == [] {
      assert s + ([c] + u) == [c] + u;
    } else {
      assert s[0] in s;
      var t := s + ([c] + u);
      assert t[0] == s[0] && t[1..] == s[1..] + ([c] + u);
      Reads7Behind(ctlesc, s[1..], c, u);
    }
  }

  /** A binary header is found behind any garbage that is not too long, with
      flow control in it anywhere. */
  lemma BinaryIsFound(ctlesc: bool, junk: seq<Byte>, n1: seq<Byte>, n2: seq<Byte>, t: seq<Byte>, garbage: nat,
                      tab: Byte -> int, last: Byte, wide: bool, kind: Byte, hdr: seq<Byte>)
    requires IsGarbage(junk) && |junk| < garbage < UINT && Skipped7(ctlesc, n1) && Skipped7(ctlesc, n2)
    requires ReadableTab(ctlesc, tab) && |hdr| == 4 && Ahead(ctlesc, t, HeaderBody(tab, last, wide, kind, hdr))
    ensures var style := if wide then ZBIN32 else ZBIN;
            var r := Hunt(ctlesc, junk + ([ZPAD] + (n1 + ([ZDLE] + (n2 + ([style] + t))))), garbage, CANS);
            r.header == Header(kind, hdr) && Consumed(ctlesc, t, HeaderBody(tab, last, wide, kind, hdr), r.rest)
  {
    hide ReadBinary;
    hide HeaderBody;
    hide ReadableTab;
    hide Ahead;
    var style := if wide then ZBIN32 else ZBIN;
    var t2 := n2 + ([style] + t);
    var t1 := n1 + ([ZDLE] + t2);
    GarbageIsPassedBy(ctlesc, junk, [ZPAD] + t1, garbage);
    assert ([ZPAD] + t1)[1..] == t1;
    var left := garbage - |junk|;
    assert Hunt(ctlesc, [ZPAD] + t1, left, CANS) == AfterPad(ctlesc, t1, left);
    Reads7Behind(ctlesc, n1, ZDLE, t2);
    assert AfterPad(ctlesc, t1, left) == AfterEscape(ctlesc, t2, left);
    Reads7Behind(ctlesc, n2, style, t);
    assert AfterEscape(ctlesc, t2, left) == ReadBinary(ctlesc, t, wide);
    BinaryRoundTrip(ctlesc, tab, last, wide, kind, hdr, t);
  }

  /** So is a hex header. */
  lemma HexIsFound(ctlesc: bool, junk: seq<Byte>, n0: seq<Byte>, n1: seq<Byte>, n2: seq<Byte>, t: seq<Byte>, u: seq<Byte>,
                   garbage: nat, kind: Byte, hdr: seq<Byte>)
    requires IsGarbage(junk) && |junk| < garbage < UINT && |hdr| == 4
    requires Skipped7(ctlesc, n0) && Skipped7(ctlesc, n1) && Skipped7(ctlesc, n2)
    requires Strip7(ctlesc, t) == HexBody(kind, hdr) + u
    ensures Hunt(ctlesc, junk + ([ZPAD] + (n0 + ([ZPAD] + (n1 + ([ZDLE] + (n2 + ([ZHEX] + t))))))), garbage, CANS).header
            == Header(Seven(kind), hdr)
  {
    hide ReadHexadecimal;
    hide HexBody;
    hide Strip7;
    var t3 := n2 + ([ZHEX] + t);
    var t2 := n1 + ([ZDLE] + t3);
    var t1 := n0 + ([ZPAD] + t2);
    GarbageIsPassedBy(ctlesc, junk, [ZPAD] + t1, garbage);
    assert ([ZPAD] + t1)[1..] == t1;
    var left := garbage - |junk|;
    assert Hunt(ctlesc, [ZPAD] + t1, left, CANS) == AfterPad(ctlesc, t1, left);
    Reads7Behind(ctlesc, n0, ZPAD, t2);
    assert AfterPad(ctlesc, t1, left) == AfterPad(ctlesc, t2, left);
    Reads7Behind(ctlesc, n1, ZDLE, t3);
    assert AfterPad(ctlesc, t2, left) == AfterEscape(ctlesc, t3, left);
    Reads7Behind(ctlesc, n2, ZHEX, t);
    HexRoundTrip(ctlesc, kind, hdr, t, u);
  }

  /** Five CANs in a row end the session, whatever was passed by before, when
      no padding character is pending. */
  lemma FiveCansEndIt(ctlesc: bool, junk: seq<Byte>, u: seq<Byte>, garbage: nat)
    requires IsGarbage(junk) && |junk| < garbage < UINT
    ensures Hunt(ctlesc, junk + ([CAN, CAN, CAN, CAN, CAN] + u), garbage, CANS) == HeaderReading(NoHeader(GotCan), u)
  {
    var t := [CAN, CAN, CAN, CAN, CAN] + u;
    GarbageIsPassedBy(ctlesc, junk, t, garbage);
    assert t == [CAN, CAN] + ([CAN, CAN] + ([CAN] + u));
    var left := garbage - |junk|;
    TwoCans(ctlesc, [CAN, CAN] + ([CAN] + u), left, 5);
    TwoCans(ctlesc, [CAN] + u, left, 3);
    LastCan(ctlesc, u, left);
  }

  lemma TwoCans(ctlesc: bool, u: seq<Byte>, garbage: nat, cans: nat)
    requires cans > 2
    ensures Hunt(ctlesc, [CAN, CAN] + u, garbage, cans) == Hunt(ctlesc, u, garbage, cans - 2)
  {
    var t := [CAN, CAN] + u;
    assert t[1..] == [CAN] + u && t[1..][1..] == u;
  }

  lemma LastCan(ctlesc: bool, u: seq<Byte>, garbage: nat)
    ensures Hunt(ctlesc, [CAN] + u, garbage, 1) == HeaderReading(NoHeader(GotCan), u)
  {
    assert ([CAN] + u)[1..] == u;
  }

  /** Behind padding the first CAN is taken for the escape character, and the
      second starts the count again. */
  lemma CansBehindPadding(ctlesc: bool, junk: seq<Byte>, pad: Byte, n1: seq<Byte>, n2: seq<Byte>, u: seq<Byte>,
                          garbage: nat)
    requires IsGarbage(junk) && |junk| < garbage < UINT && IsPad(pad)
    requires Skipped7(ctlesc, n1) && Skipped7(ctlesc, n2)
    ensures Hunt(ctlesc, junk + ([pad] + (n1 + ([CAN] + (n2 + ([CAN] + u))))), garbage, CANS)
            == AfterCan(ctlesc, u, garbage - |junk|, CANS)
  {
    var t2 := n2 + ([CAN] + u);
    var t1 := n1 + ([CAN] + t2);
    GarbageIsPassedBy(ctlesc, junk, [pad] + t1, garbage);
    assert ([pad] + t1)[1..] == t1;
    var left := garbage - |junk|;
    assert Hunt(ctlesc, [pad] + t1, left, CANS) == AfterPad(ctlesc, t1, left);
    Reads7Behind(ctlesc, n1, CAN, t2);
    assert AfterPad(ctlesc, t1, left) == AfterEscape(ctlesc, t2, left);
    Reads7Behind(ctlesc, n2, CAN, u);
    assert AfterEscape(ctlesc, t2, left) == AfterCan(ctlesc, u, left, CANS);
  }

  /** So there it takes six of them: after five, everything depends on what
      comes next. */
  lemma SixCansBehindPadding(ctlesc: bool, junk: seq<Byte>, pad: Byte, u: seq<Byte>, garbage: nat)
    requires IsGarbage(junk) && |junk| < garbage < UINT && IsPad(pad)
    ensures Hunt(ctlesc, junk + ([pad] + ([CAN, CAN, CAN, CAN, CAN] + u)), garbage, CANS)
            == Hunt(ctlesc, u, garbage - |junk|, 1)
    ensures Hunt(ctlesc, junk + ([pad] + ([CAN, CAN, CAN, CAN, CAN, CAN] + u)), garbage, CANS)
            == HeaderReading(NoHeader(GotCan), u)
  {
    FiveBehindPadding(ctlesc, junk, pad, u, garbage);
    FiveBehindPadding(ctlesc, junk, pad, [CAN] + u, garbage);
    assert [CAN, CAN, CAN, CAN, CAN] + ([CAN] + u) == [CAN, CAN, CAN, CAN, CAN, CAN] + u;
    LastCan(ctlesc, u, garbage - |junk|);
  }

  lemma FiveBehindPadding(ctlesc: bool, junk: seq<Byte>, pad: Byte, u: seq<Byte>, garbage: nat)
    requires IsGarbage(junk) && |junk| < garbage < UINT && IsPad(pad)
    ensures Hunt(ctlesc, junk + ([pad] + ([CAN, CAN, CAN, CAN, CAN] + u)), garbage, CANS)
            == Hunt(ctlesc, u, garbage - |junk|, 1)
  {
    hide Hunt;
    hide AfterCan;
    var left := garbage - |junk|;
    var v := [CAN, CAN, CAN] + u;
    CansBehindPadding(ctlesc, junk, pad, [], [], v, garbage);
    assert [] + ([CAN] + ([] + ([CAN] + v))) == [CAN, CAN, CAN, CAN, CAN] + u;
    assert v[0] == CAN && v[1..] == [CAN, CAN] + u;
    AfterCanIs(ctlesc, v, left, CANS);
    TwoCans(ctlesc, u, left, 3);
  }

  /** Five behind padding do not do: the session goes on. */
  lemma FiveAreTooFew(ctlesc: bool, pad: Byte)
    requires IsPad(pad)
    ensures Hunt(ctlesc, [pad, CAN, CAN, CAN, CAN, CAN], 100, CANS).header == NoHeader(TimedOut)
  {
    FiveBehindPadding(ctlesc, [], pad, [], 100);
    assert [] + ([pad] + ([CAN, CAN, CAN, CAN, CAN] + [])) == [pad, CAN, CAN, CAN, CAN, CAN];
  }
}
