/** From the file to the receiver's buffer: what a faithful sender puts on the
    line for one ZDATA frame, and what comes out behind the noise. */
module ZmodemDelivery {
  import opened ZmodemLine
  import opened ZmodemData
  import opened ZmodemHeader
  import opened ZmodemHunt
  import opened ZmodemTransfer
  import opened ZmodemSender
  import Log = ZmodemLog

  /** The bytes of a ZDATA header behind its style byte, and the subpackets. */
  function FrameBody(tab: Byte -> int, last: Byte, wide: bool, p: nat, ps: seq<Subpacket>): seq<Byte> {
    HeaderBody(tab, last, wide, ZDATA, Stohdr(p))
    + Stream(tab, HeaderLast(tab, last, wide, ZDATA, Stohdr(p)), wide, ps)
  }

  /** A line that carries the frame: garbage, the header's first characters
      with flow control between them, and the rest through any noise. */
  predicate FrameOnLine(ctlesc: bool, tab: Byte -> int, last: Byte, wide: bool, p: nat, ps: seq<Subpacket>,
                        junk: seq<Byte>, n1: seq<Byte>, n2: seq<Byte>, t: seq<Byte>, line: seq<Byte>)
  {
    && IsGarbage(junk) && Skipped7(ctlesc, n1) && Skipped7(ctlesc, n2)
    && Strip(ctlesc, t) == Strip(ctlesc, FrameBody(tab, last, wide, p, ps))
    && line == junk + ([ZPAD] + (n1 + ([ZDLE] + (n2 + ([if wide then ZBIN32 else ZBIN] + t)))))
  }

  lemma {:induction false} NullsAreGarbage(n: nat)
    ensures IsGarbage(Nulls(n))
  {
    if n > 0 {
      NullsAreGarbage(n - 1);
    }
  }

  /** A header and subpackets behind it are a frame on an undisturbed line. */
  lemma HeaderAndStream(ctlesc: bool, tab: Byte -> int, last: Byte, wide: bool, p: nat, ps: seq<Subpacket>, nulls: nat)
    ensures FrameOnLine(ctlesc, tab, last, wide, p, ps, Nulls(nulls), [], [], FrameBody(tab, last, wide, p, ps),
                        Nulls(nulls) + BinHeader(tab, last, wide, ZDATA, Stohdr(p))
                        + Stream(tab, HeaderLast(tab, last, wide, ZDATA, Stohdr(p)), wide, ps))
  {
    hide HeaderBody;
    hide Stream;
    hide HeaderLast;
    hide Stohdr;
    hide Nulls;
    var style := if wide then ZBIN32 else ZBIN;
    var body := FrameBody(tab, last, wide, p, ps);
    NullsAreGarbage(nulls);
    assert [ZPAD, ZDLE, style] + body == [ZPAD] + ([] + ([ZDLE] + ([] + ([style] + body))));
  }

  /** The calls that send a frame: a ZDATA header, and the subpackets. What
      they put on the line is such a frame, behind the nulls. */
  method SendFrame(z: Sender, p: nat, ps: seq<Subpacket>, wide: bool, nulls: nat)
    requires z.Valid() && forall q :: q in ps ==> Sendable(wide, q)
    modifies z`out, z`lastsent
    ensures |z.out| >= |old(z.out)| && z.out[..|old(z.out)|] == old(z.out)
    ensures forall ctlesc: bool ::
              FrameOnLine(ctlesc, z.Tab(), old(z.lastsent), wide, p, ps, Nulls(nulls), [], [],
                          FrameBody(z.Tab(), old(z.lastsent), wide, p, ps), z.out[|old(z.out)|..])
  {
    hide *;
    ghost var o, last, t := z.out, z.lastsent, z.Tab();
    forall ctlesc: bool {
      HeaderAndStream(ctlesc, t, last, wide, p, ps, nulls);
    }
    PositionRoundTrip(p);
    z.Zsbhdr(ZDATA, Stohdr(p), wide, nulls);
    SendSubpackets(z, ps, wide);
    ThreeParts(o, Nulls(nulls), BinHeader(t, last, wide, ZDATA, Stohdr(p)),
               Stream(t, HeaderLast(t, last, wide, ZDATA, Stohdr(p)), wide, ps));
  }

  lemma ThreeParts(o: seq<Byte>, a: seq<Byte>, b: seq<Byte>, c: seq<Byte>)
    ensures o <= o + a + b + c && (o + a + b + c)[|o|..] == a + b + c
  {
  }

  /** Subpackets one after another, each with the sender for its check. */
  method SendSubpackets(z: Sender, ps: seq<Subpacket>, wide: bool)
    requires z.Valid() && forall q :: q in ps ==> Sendable(wide, q)
    modifies z`out, z`lastsent
    ensures z.out == old(z.out) + Stream(z.Tab(), old(z.lastsent), wide, ps)
  {
    ghost var all, t := z.out + Stream(z.Tab(), z.lastsent, wide, ps), z.Tab();
    var i := 0;
    assert ps[0..] == ps;
    hide *;
    while i < |ps|
      invariant i <= |ps| && t == z.Tab() && z.out + Stream(t, z.lastsent, wide, ps[i..]) == all
    {
      hide *;
      var q := ps[i];
      assert q in ps;
      StreamNext(t, z.out, z.lastsent, wide, ps, i);
      SendSubpacket(z, q, wide, t);
      i := i + 1;
    }
    StreamOfNone(t, z.out, z.lastsent, wide, ps[i..]);
  }

  method SendSubpacket(z: Sender, q: Subpacket, wide: bool, ghost t: Byte -> int)
    requires z.Valid() && Sendable(wide, q) && t == z.Tab()
    modifies z`out, z`lastsent
    ensures z.out == old(z.out) + Packet(t, old(z.lastsent), wide, q) + Trailer(q.e)
    ensures z.lastsent == PacketLast(t, old(z.lastsent), wide, q) && t == z.Tab()
  {
    hide Packet;
    hide PacketLast;
    hide Trailer;
    if wide {
      z.Zsda32(q.buf, q.e);
    } else {
      z.Zsdata(q.buf, q.e);
    }
  }

  lemma StreamOfNone(tab: Byte -> int, o: seq<Byte>, last: Byte, wide: bool, ps: seq<Subpacket>)
    ensures ps == [] ==> o + Stream(tab, last, wide, ps) == o
  {
  }

  lemma StreamNext(tab: Byte -> int, o: seq<Byte>, last: Byte, wide: bool, ps: seq<Subpacket>, i: nat)
    requires i < |ps|
    ensures o + Stream(tab, last, wide, ps[i..])
            == o + Packet(tab, last, wide, ps[i]) + Trailer(ps[i].e)
               + Stream(tab, PacketLast(tab, last, wide, ps[i]), wide, ps[i + 1..])
  {
    hide Packet;
    hide PacketLast;
    assert ps[i..][1..] == ps[i + 1..];
  }

  /** What a receiver gets from a line: a header, and n subpackets behind it. */
  datatype Frame = Frame(header: Header, ps: seq<Subpacket>)

  function ReceiveFrame(ctlesc: bool, line: seq<Byte>, wide: bool, garbage: nat, room: nat, n: nat): Frame {
    var r := Hunt(ctlesc, line, garbage, CANS);
    Frame(r.header, ReceiveAll(ctlesc, r.rest, wide, room, n))
  }

  lemma HeaderBodyIsClean(ctlesc: bool, tab: Byte -> int, last: Byte, wide: bool, kind: Byte, hdr: seq<Byte>)
    requires ReadableTab(ctlesc, tab)
    ensures IsClean(ctlesc, HeaderBody(tab, last, wide, kind, hdr))
  {
    hide CheckBytes;
    hide ReadableTab;
    var s := [kind] + hdr;
    var check := CheckBytes(AddAll(Start(wide), s));
    EncodeIsClean(ctlesc, tab, last, s);
    EncodeIsClean(ctlesc, tab, LastOf(tab, last, s), check);
    CleanAppend(ctlesc, Encode(tab, last, s), Encode(tab, LastOf(tab, last, s), check));
  }

  /** The frame arrives: its position, and every subpacket. */
  lemma FrameArrives(ctlesc: bool, tab: Byte -> int, last: Byte, wide: bool, p: nat, ps: seq<Subpacket>,
                     junk: seq<Byte>, n1: seq<Byte>, n2: seq<Byte>, t: seq<Byte>, line: seq<Byte>,
                     garbage: nat, room: nat)
    requires ReadableTab(ctlesc, tab) && FrameOnLine(ctlesc, tab, last, wide, p, ps, junk, n1, n2, t, line)
    requires |junk| < garbage < UINT
    requires forall q :: q in ps ==> Sendable(wide, q) && |q.buf| <= room
    ensures ReceiveFrame(ctlesc, line, wide, garbage, room, |ps|) == Frame(Header(ZDATA, Stohdr(p)), ps)
  {
    hide HeaderBody;
    hide Hunt;
    hide Stream;
    hide Strip;
    hide IsClean;
    hide ReadableTab;
    hide ReceiveAll;
    hide HeaderLast;
    var hdr := Stohdr(p);
    var body := HeaderBody(tab, last, wide, ZDATA, hdr);
    var stream := Stream(tab, HeaderLast(tab, last, wide, ZDATA, hdr), wide, ps);
    HeaderBodyIsClean(ctlesc, tab, last, wide, ZDATA, hdr);
    StripClean(ctlesc, body);
    StripAppend(ctlesc, body, stream);
    assert Ahead(ctlesc, t, body);
    BinaryIsFound(ctlesc, junk, n1, n2, t, garbage, tab, last, wide, ZDATA, hdr);
    var rest := Hunt(ctlesc, line, garbage, CANS).rest;
    SameTail(body, Strip(ctlesc, rest), Strip(ctlesc, stream));
    StreamRoundTrip(ctlesc, tab, HeaderLast(tab, last, wide, ZDATA, hdr), wide, ps, room, rest);
  }

  // ---------- files ----------

  /** The subpackets in the log from place i up to place j. */
  function Subpackets(log: seq<Log.Event>, i: nat, j: nat): seq<Subpacket>
    requires i <= j <= |log| && forall k :: i <= k < j ==> log[k].Sub?
  {
    if i == j then [] else Subpackets(log, i, j - 1) + [Subpacket(log[j - 1].data, log[j - 1].e)]
  }

  function Joined(ps: seq<Subpacket>): seq<Byte> {
    if ps == [] then [] else Joined(ps[..|ps| - 1]) + ps[|ps| - 1].buf
  }

  lemma {:induction false} SubpacketsJoin(log: seq<Log.Event>, i: nat, j: nat)
    requires i <= j <= |log| && forall k :: i <= k < j ==> log[k].Sub?
    ensures |Subpackets(log, i, j)| == j - i
    ensures Joined(Subpackets(log, i, j)) == Log.Between(log, i, j)
    decreases j
  {
    hide Joined;
    if i < j {
      SubpacketsJoin(log, i, j - 1);
      JoinedAppend(Subpackets(log, i, j - 1), Subpacket(log[j - 1].data, log[j - 1].e));
    } else {
      JoinedNothing();
    }
  }

  lemma JoinedAppend(ps: seq<Subpacket>, p: Subpacket)
    ensures Joined(ps + [p]) == Joined(ps) + p.buf
  {
    assert (ps + [p])[..|ps|] == ps;
  }

  lemma JoinedNothing()
    ensures Joined([]) == []
  {
  }

  lemma {:induction false} SubpacketsEnd(file: seq<Byte>, log: seq<Log.Event>, i: nat, j: nat,
                                             wide: bool, room: nat)
    requires i <= j <= |log| && Log.Faithful(file, log)
    requires forall k :: i <= k < j ==> log[k].Sub? && |log[k].data| <= room && (wide || log[k].data != [])
    ensures forall q :: q in Subpackets(log, i, j) ==> Sendable(wide, q) && |q.buf| <= room
    decreases j
  {
    if i < j {
      SubpacketsEnd(file, log, i, j - 1, wide, room);
      Log.RightAt(file, log, j - 1);
    }
  }

  /** What a receiver gets of one frame of a faithful log is the file from the
      frame's position on, and if ZEOF comes next, all the rest of it. */
  lemma FileArrives(file: seq<Byte>, log: seq<Log.Event>, i: nat, j: nat,
                    ctlesc: bool, tab: Byte -> int, last: Byte, wide: bool,
                    junk: seq<Byte>, n1: seq<Byte>, n2: seq<Byte>, t: seq<Byte>, line: seq<Byte>,
                    garbage: nat, room: nat)
    requires Log.Faithful(file, log) && i < j <= |log| && log[i].DataAt?
    requires forall k :: i < k < j ==> log[k].Sub? && |log[k].data| <= room && (wide || log[k].data != [])
    requires ReadableTab(ctlesc, tab) && |junk| < garbage < UINT
    requires FrameOnLine(ctlesc, tab, last, wide, log[i].pos, Subpackets(log, i + 1, j), junk, n1, n2, t, line)
    ensures var got := ReceiveFrame(ctlesc, line, wide, garbage, room, j - i - 1);
            && got.header == Header(ZDATA, Stohdr(log[i].pos)) && Rclhdr(got.header.hdr) == log[i].pos
            && Log.IsPiece(file, log[i].pos, Joined(got.ps))
            && (j < |log| && log[j].Eof? && log[i].pos <= |file| ==> Joined(got.ps) == file[log[i].pos..])
  {
    hide FrameOnLine;
    hide Subpackets;
    hide Joined;
    hide ReceiveFrame;
    hide Log.Faithful;
    hide Log.Between;
    hide Log.IsPiece;
    hide ReadableTab;
    var ps := Subpackets(log, i + 1, j);
    SubpacketsEnd(file, log, i + 1, j, wide, room);
    FrameArrives(ctlesc, tab, last, wide, log[i].pos, ps, junk, n1, n2, t, line, garbage, room);
    SubpacketsAreFile(file, log, i, j);
  }

  lemma SubpacketsAreFile(file: seq<Byte>, log: seq<Log.Event>, i: nat, j: nat)
    requires Log.Faithful(file, log) && i < j <= |log| && log[i].DataAt?
    requires forall k :: i < k < j ==> log[k].Sub?
    ensures |Subpackets(log, i + 1, j)| == j - i - 1 && Rclhdr(Stohdr(log[i].pos)) == log[i].pos
    ensures Log.IsPiece(file, log[i].pos, Joined(Subpackets(log, i + 1, j)))
    ensures j < |log| && log[j].Eof? && log[i].pos <= |file| ==>
              Joined(Subpackets(log, i + 1, j)) == file[log[i].pos..]
  {
    hide Subpackets;
    hide Joined;
    hide Log.Faithful;
    hide Log.Between;
    hide Log.IsPiece;
    SubpacketsJoin(log, i + 1, j);
    Log.RightAt(file, log, i);
    PositionRoundTrip(log[i].pos);
    Log.DataFollowsHeader(file, log, i, j);
    if j < |log| && log[j].Eof? {
      Log.EofMeansWhole(file, log, i, j);
    }
  }
}
