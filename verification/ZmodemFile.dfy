/** Sending a file by ZMODEM, with whatever the receiver answers. */
module ZmodemFile {
  import opened Options
  import opened ZmodemLine
  import opened ZmodemData
  import opened ZmodemHeader
  import opened ZmodemLog
  import Crc = ZmodemCrc

  const SIZE_MAX: nat := 0xffff_ffff_ffff_ffff
  const POSITIONS: nat := 0x1_0000_0000

  /** A header position: 32 bits. */
  type Pos = p: nat | p < POSITIONS

  /** What zgethdr makes of the receiver. Stop is every answer that ends the
      sending: ZCAN, ZABORT, ZFIN and a timeout. After ZRINIT, `again` says
      whether another header follows at once. */
  datatype Reply = Rqinit | Rinit(again: bool) | Ack(pos: Pos) | Skip | Rpos(pos: Pos) | CrcWanted(pos: Pos)
                 | Stop | Other

  /** What getinsync returns. */
  datatype Sync = SyncError | SyncPos | SyncAck | SyncInit | SyncSkip

  /** What the senders return. Stale is the skip after ZEOF, where the source
      returns what an earlier getinsync left in its variable. */
  datatype Result = Done | Failed | Skipped | Stale(c: Option<Sync>)

  /** How a call of getinsync ends: its result, the position it took over, the
      receiver's last position, the answers left, and the ZNAKs sent. */
  datatype Resync = Resync(c: Sync, pos: Pos, lrxpos: nat, rest: seq<Reply>, naks: nat)

  /** getinsync. Acknowledgements of another position than `sent` only count if
      `flag` is set; what is not understood is answered by a ZNAK. */
  function Resynced(replies: seq<Reply>, flag: bool, sent: nat, lrxpos: nat, naks: nat): (r: Resync)
    ensures |r.rest| <= |replies| && (!r.c.SyncError? ==> |r.rest| < |replies|)
  {
    if replies == [] then Resync(SyncError, 0, lrxpos, [], naks)
    else
      var rest := replies[1..];
      match replies[0]
      case Stop => Resync(SyncError, 0, lrxpos, rest, naks)
      case Rpos(p) => Resync(SyncPos, p, p, rest, naks)
      case Ack(p) =>
        if flag || sent == p then Resync(SyncAck, p, p, rest, naks) else Resynced(rest, flag, sent, p, naks)
      case Rinit(_) => Resync(SyncInit, 0, lrxpos, rest, naks)
      case Skip => Resync(SyncSkip, 0, lrxpos, rest, naks)
      case _ => Resynced(rest, flag, sent, lrxpos, naks + 1)
  }

  /** An answer that getinsync goes on after: an acknowledgement that does not
      count, or something it does not understand. */
  predicate PassedOver(r: Reply, flag: bool, sent: nat) {
    match r
    case Ack(p) => !flag && p != sent
    case Rqinit => true
    case CrcWanted(_) => true
    case Other => true
    case _ => false
  }

  /** The answers that getinsync complains about. */
  function Strange(rs: seq<Reply>): nat {
    if rs == [] then 0 else (if rs[0].Ack? then 0 else 1) + Strange(rs[1..])
  }

  /** The last answer taken fits the result; a wait without one has timed out. */
  predicate EndedBy(taken: seq<Reply>, c: Sync, left: seq<Reply>) {
    match c
    case SyncError =>
      (taken != [] && taken[|taken| - 1] == Stop)
      || (left == [] && (taken == [] || !Ends(taken[|taken| - 1])))
    case SyncPos => taken != [] && taken[|taken| - 1].Rpos?
    case SyncAck => taken != [] && taken[|taken| - 1].Ack?
    case SyncInit => taken != [] && taken[|taken| - 1].Rinit?
    case SyncSkip => taken != [] && taken[|taken| - 1] == Skip
  }

  predicate Ends(r: Reply) { r.Rpos? || r.Rinit? || r.Skip? || r.Stop? }

  /** Only the answer that ends a wait decides its result and the position. An
      acknowledgement counts at the position sent, or with `flag` anywhere. */
  predicate Outcome(taken: seq<Reply>, c: Sync, left: seq<Reply>, pos: nat, flag: bool) {
    && EndedBy(taken, c, left)
    && (c.SyncPos? || (c.SyncAck? && !flag) ==> taken[|taken| - 1].pos == pos)
  }

  /** What a wait takes: the answers up to the one that ends it, in order. */
  lemma {:induction false} ResyncTakes(rs: seq<Reply>, flag: bool, sent: nat, lrx: nat, naks: nat) returns (n: nat)
    ensures var r := Resynced(rs, flag, sent, lrx, naks);
            && n <= |rs| && r.rest == rs[n..]
            && Outcome(rs[..n], r.c, r.rest, if r.c.SyncPos? then r.pos else sent, flag)
            && (forall k :: 0 <= k < n - 1 ==> PassedOver(rs[k], flag, sent))
    decreases |rs|
  {
    if rs == [] {
      n := 0;
    } else if PassedOver(rs[0], flag, sent) {
      n := ResyncTakes(rs[1..], flag, sent, if rs[0].Ack? then rs[0].pos else lrx, if rs[0].Ack? then naks else naks + 1);
      OutcomeNext(rs, n, sent, Resynced(rs, flag, sent, lrx, naks), flag);
      n := n + 1;
    } else {
      n := 1;
    }
  }

  lemma OutcomeNext(rs: seq<Reply>, n: nat, sent: nat, r: Resync, flag: bool)
    requires rs != [] && n < |rs| && PassedOver(rs[0], flag, sent) && r.rest == rs[1..][n..]
    requires Outcome(rs[1..][..n], r.c, r.rest, if r.c.SyncPos? then r.pos else sent, flag)
    ensures r.rest == rs[n + 1..]
    ensures Outcome(rs[..n + 1], r.c, r.rest, if r.c.SyncPos? then r.pos else sent, flag)
  {
    assert rs[..n + 1] == [rs[0]] + rs[1..][..n];
  }

  /** Every ZNAK answers something that is not understood. */
  lemma {:induction false} NaksAreCounted(rs: seq<Reply>, n: nat, flag: bool, sent: nat, lrx: nat, naks: nat)
    requires n <= |rs| && forall k :: 0 <= k < n ==> PassedOver(rs[k], flag, sent)
    requires n == |rs| || !PassedOver(rs[n], flag, sent)
    ensures Resynced(rs, flag, sent, lrx, naks).naks == naks + Strange(rs[..n])
    decreases |rs|
  {
    if n > 0 {
      NaksAreCounted(rs[1..], n - 1, flag, sent, if rs[0].Ack? then rs[0].pos else lrx,
                     if rs[0].Ack? then naks else naks + 1);
      assert rs[..n][1..] == rs[1..][..n - 1];
    }
  }

  function Naks(n: nat): (s: seq<Event>)
    ensures forall e :: e in s ==> e == Nak
  {
    if n == 0 then [] else Naks(n - 1) + [Nak]
  }

  /** What goes out while an answer is waited for: empty subpackets, and ZNAKs
      for what is not understood. */
  predicate IsWaiting(e: Event) { e == Nak || e == Sub([], ZCRCQ) || e == Sub([], ZCRCE) }

  predicate OnlyWaiting(sent: seq<Event>) {
    forall e :: e in sent ==> IsWaiting(e)
  }

  predicate OnlyNaks(sent: seq<Event>) {
    forall e :: e in sent ==> e == Nak
  }

  /** n bytes of the file from p on, or what there is. */
  function ReadAt(file: seq<Byte>, p: nat, n: nat): seq<Byte> {
    if p >= |file| then [] else if p + n <= |file| then file[p..p + n] else file[p..]
  }

  lemma ReadIsPiece(file: seq<Byte>, p: nat, n: nat)
    ensures IsPiece(file, p, ReadAt(file, p, n)) && |ReadAt(file, p, n)| <= n
    ensures |ReadAt(file, p, n)| < n ==> p + |ReadAt(file, p, n)| >= |file|
    ensures p < |file| && n > 0 ==> ReadAt(file, p, n) != [] && p + |ReadAt(file, p, n)| <= |file|
  {
  }

  lemma {:induction false} NaksAreFaithful(file: seq<Byte>, log: seq<Event>, n: nat)
    ensures Faithful(file, log + Naks(n)) <==> Faithful(file, log)
    ensures Reached(log + Naks(n)) == Reached(log)
  {
    if n == 0 {
      assert log + [] == log;
    } else {
      NaksAreFaithful(file, log, n - 1);
      assert log + Naks(n) == (log + Naks(n - 1)) + [Nak];
      FaithfulNext(file, log + Naks(n - 1), Nak);
    }
  }

  lemma NakNext(file: seq<Byte>, o: seq<Event>, n: nat)
    ensures o + Naks(n) + [Nak] == o + Naks(n + 1)
    ensures Faithful(file, o + Naks(n + 1)) <==> Faithful(file, o + Naks(n))
    ensures Reached(o + Naks(n + 1)) == Reached(o + Naks(n))
  {
    hide Faithful;
    hide Reached;
    NaksAreFaithful(file, o, n);
    NaksAreFaithful(file, o, n + 1);
  }

  lemma NoNaks(o: seq<Event>)
    ensures o + Naks(0) == o
  {
  }

  /** A header for position p with subpackets behind it: all full, or, when
      there is nothing left of the file, a single empty one. */
  predicate OneGo(file: seq<Byte>, p: nat, sent: seq<Event>) {
    && |sent| >= 2 && sent[0] == DataAt(p)
    && (forall i :: 1 <= i < |sent| ==> sent[i].Sub? && (sent[i].data == [] <==> p >= |file|))
    && (p >= |file| ==> |sent| == 2)
  }

  /** Why the sending loop was left: everything is sent, an answer to ZCRCW is
      due, or the receiver has complained. */
  datatype Why = RanOut | Due | Complaint(c: Sync)

  // ---------- whole runs ----------

  /** No answer taken so far ends a wait. */
  predicate NotEnded(taken: seq<Reply>) { taken == [] || !Ends(taken[|taken| - 1]) }

  lemma OutcomeBehind(before: seq<Reply>, taken: seq<Reply>, c: Sync, left: seq<Reply>, pos: nat, flag: bool)
    requires NotEnded(before) && Outcome(taken, c, left, pos, flag)
    ensures Outcome(before + taken, c, left, pos, flag)
    ensures c.SyncAck? ==> NotEnded(before + taken)
    ensures before + (taken + left) == before + taken + left
  {
    if taken == [] {
      assert before + taken == before;
    }
  }

  lemma NotEndedBehind(before: seq<Reply>, taken: seq<Reply>, left: seq<Reply>)
    ensures NotEnded(before) && NotEnded(taken) ==> NotEnded(before + taken)
    ensures before + (taken + left) == before + taken + left
  {
    if taken == [] {
      assert before + taken == before;
    }
  }

  /** One header with all that follows it up to the next one, and the answers
      taken meanwhile. */
  datatype Round = Round(pos: nat, sent: seq<Event>, taken: seq<Reply>)

  predicate IsStretch(pos: nat, sent: seq<Event>) {
    sent != [] && sent[0] == DataAt(pos) && forall e :: e in sent[1..] ==> e.Sub? || e == Nak
  }

  predicate IsEnding(sent: seq<Event>) {
    sent != [] && sent[0].Eof? && forall e :: e in sent ==> e.Eof? || e == Nak
  }

  lemma StretchGrows(pos: nat, sent: seq<Event>, more: seq<Event>)
    requires IsStretch(pos, sent) && forall e :: e in more ==> e.Sub? || e == Nak
    ensures IsStretch(pos, sent + more)
  {
    assert (sent + more)[1..] == sent[1..] + more;
  }

  lemma StretchWaits(pos: nat, sent: seq<Event>, more: seq<Event>)
    requires IsStretch(pos, sent) && (OnlyWaiting(more) || OnlyNaks(more))
    ensures IsStretch(pos, sent + more)
  {
    StretchGrows(pos, sent, more);
  }

  lemma EndingGrows(sent: seq<Event>, e: Event, more: seq<Event>)
    requires (sent == [] || IsEnding(sent)) && e.Eof? && OnlyNaks(more)
    ensures IsEnding(sent + [e] + more) && (sent + [e] + more)[0] == if sent == [] then e else sent[0]
  {
  }

  lemma WaitingGrows(sent: seq<Event>, more: seq<Event>)
    requires OnlyWaiting(sent) && (OnlyWaiting(more) || OnlyNaks(more))
    ensures OnlyWaiting(sent + more)
  {
  }

  /** The header, data, and then perhaps the end of the file. */
  ghost predicate IsRound(r: Round) {
    || IsStretch(r.pos, r.sent)
    || exists k: nat :: k <= |r.sent| && IsStretch(r.pos, r.sent[..k]) && IsEnding(r.sent[k..])
  }

  ghost predicate ToldEnd(sent: seq<Event>) {
    exists k: nat :: k < |sent| && sent[k].Eof?
  }

  /** The answer that ends the round makes the sender go on at `pos`: a ZRPOS,
      also one behind the end of the file, or the acknowledgement of a ZCRCW. */
  ghost predicate Leads(r: Round, pos: nat) {
    && r.taken != []
    && var a := r.taken[|r.taken| - 1];
       (a.Rpos? && a.pos == pos) || (a.Ack? && a.pos == pos && !ToldEnd(r.sent))
  }

  ghost predicate RoundsOk(rounds: seq<Round>, p: nat) {
    && rounds != [] && rounds[0].pos == p
    && (forall i: nat :: i < |rounds| ==> IsRound(rounds[i]))
    && (forall i: nat :: i < |rounds| - 1 ==> Leads(rounds[i], rounds[i + 1].pos))
  }

  /** The next round begins at `pos`. */
  ghost predicate RoundsLead(rounds: seq<Round>, p: nat, pos: nat) {
    if rounds == [] then pos == p else RoundsOk(rounds, p) && Leads(rounds[|rounds| - 1], pos)
  }

  function AllSent(rounds: seq<Round>): seq<Event> {
    if rounds == [] then [] else AllSent(rounds[..|rounds| - 1]) + rounds[|rounds| - 1].sent
  }

  function AllTaken(rounds: seq<Round>): seq<Reply> {
    if rounds == [] then [] else AllTaken(rounds[..|rounds| - 1]) + rounds[|rounds| - 1].taken
  }

  lemma AddRound(rounds: seq<Round>, p: nat, r: Round)
    requires RoundsLead(rounds, p, r.pos) && IsRound(r)
    ensures RoundsOk(rounds + [r], p) && (rounds + [r])[|rounds|] == r
    ensures AllSent(rounds + [r]) == AllSent(rounds) + r.sent
    ensures AllTaken(rounds + [r]) == AllTaken(rounds) + r.taken
  {
    hide IsRound;
    hide Leads;
    var all := rounds + [r];
    assert all[..|rounds|] == rounds;
    forall i: nat | i < |all| - 1
      ensures Leads(all[i], all[i + 1].pos)
    {
      assert i < |rounds| - 1 ==> all[i + 1] == rounds[i + 1];
    }
  }

  /** What the sender reports is what the last answer says. */
  ghost predicate Verdict(r: Result, last: Round, left: seq<Reply>) {
    match r
    case Done => EndedBy(last.taken, SyncInit, left)
    case Skipped => EndedBy(last.taken, SyncSkip, left) && !ToldEnd(last.sent)
    case Stale(_) => EndedBy(last.taken, SyncSkip, left) && ToldEnd(last.sent)
    case Failed => EndedBy(last.taken, SyncError, left)
  }

  /** What an answer to the offer of the file brings about. */
  function Reaction(file: seq<Byte>, a: Reply): seq<Event> {
    match a
    case CrcWanted(p) => [FileCrc(FileCheck(Asked(file, p)))]
    case Rinit(again) => if again then [] else [FileInfo]
    case Ack(_) => [FileInfo]
    case Other => [FileInfo]
    case _ => []
  }

  function Offered(file: seq<Byte>, early: seq<Reply>): seq<Event> {
    if early == [] then [FileInfo]
    else Offered(file, early[..|early| - 1]) + Reaction(file, early[|early| - 1])
  }

  lemma OfferedNext(file: seq<Byte>, early: seq<Reply>, a: Reply)
    ensures Offered(file, early + [a]) == Offered(file, early) + Reaction(file, a)
    ensures Offered(file, []) == [FileInfo]
  {
    assert (early + [a])[..|early|] == early;
  }

  lemma RepliesAssociate(a: seq<Reply>, b: seq<Reply>, c: seq<Reply>)
    ensures a + (b + c) == a + b + c
  {
  }

  lemma EventsAssociate(a: seq<Event>, b: seq<Event>, c: seq<Event>)
    ensures a + b + c == a + (b + c)
  {
  }

  /** Answers to the offer that neither start nor end anything. */
  predicate GoesOn(a: Reply) { a.CrcWanted? || a.Rinit? || a.Ack? || a.Other? }

  predicate AllGoOn(answers: seq<Reply>) {
    forall k :: 0 <= k < |answers| ==> GoesOn(answers[k])
  }

  lemma OneMoreGoesOn(answers: seq<Reply>, a: Reply)
    requires AllGoOn(answers)
    ensures (answers + [a])[..|answers|] == answers && (GoesOn(a) ==> AllGoOn(answers + [a])) && AllGoOn([])
  {
  }

  /** How the offer ended, and with it the run if there is no round. */
  ghost predicate OfferVerdict(r: Result, early: seq<Reply>, rounds: seq<Round>, left: seq<Reply>) {
    && (early != [] ==> AllGoOn(early[..|early| - 1]))
    && if rounds != [] then
         && early != [] && early[|early| - 1].Rpos?
         && RoundsOk(rounds, early[|early| - 1].pos) && Verdict(r, rounds[|rounds| - 1], left)
       else
         match r
         case Failed =>
           if early != [] && !GoesOn(early[|early| - 1])
           then early[|early| - 1] == Rqinit || early[|early| - 1] == Stop else left == []
         case Skipped => early != [] && early[|early| - 1] == Skip
         case _ => false
  }

  /** The answer to ZCRC for the bytes s. */
  function FileCheck(s: seq<Byte>): bv32 {
    Crc.Not(AddAll(Start(true), s).r32)
  }

  /** The part of the file a ZCRC asks for: so many bytes, or all of them. */
  function Asked(file: seq<Byte>, pos: Pos): seq<Byte> {
    if pos == 0 || pos >= |file| then file else file[..pos]
  }

  class FileSender {
    const file: seq<Byte>
    /** Txwindow and Txwspac. */
    const window: nat
    const spacing: nat
    /** The block lengths that calc_blklen will choose. */
    const blocks: nat -> nat
    var calls: nat
    /** What the receiver is going to answer. */
    var replies: seq<Reply>
    ghost var log: seq<Event>

    /** The place in the input file. */
    var fpos: nat
    var bytesSent: nat
    var bytcnt: nat
    var eofSeen: bool
    var lastsync: nat
    var lrxpos: nat
    var txwcnt: nat
    /** The variable c of zsendfdata. */
    var c: Option<Sync>

    constructor (file: seq<Byte>, window: nat, spacing: nat, blocks: nat -> nat, replies: seq<Reply>)
      requires (forall i :: blocks(i) > 0) && |file| <= SIZE_MAX
      ensures this.file == file && this.window == window && this.blocks == blocks
      ensures this.replies == replies && log == [] && fpos == 0 && !eofSeen && Ready()
    {
      this.file, this.window, this.spacing, this.blocks := file, window, spacing, blocks;
      this.replies, log, calls := replies, [], 0;
      fpos, bytesSent, bytcnt, eofSeen := 0, 0, SIZE_MAX, false;
      lastsync, lrxpos, txwcnt, c := 0, 0, 0, None;
    }

    ghost predicate Ready()
      reads this
    {
      Faithful(file, log) && |file| <= SIZE_MAX && forall i :: blocks(i) > 0
    }

    /** The counters agree with the place in the file. */
    ghost predicate Synced()
      reads this
    {
      Ready() && fpos == bytesSent == bytcnt && (eofSeen ==> fpos >= |file|)
    }

    /** The line is where the counters are. */
    ghost predicate InStep()
      reads this
    {
      Synced() && Reached(log) == Some(bytesSent)
    }

    ghost method Log(e: Event)
      modifies this`log
      ensures log == old(log) + [e]
    {
      log := log + [e];
    }

    /** zgethdr. When there is no answer left, it times out. */
    method NextReply() returns (r: Reply)
      modifies this`replies
      ensures old(replies) == [] ==> r == Stop && replies == []
      ensures old(replies) != [] ==> r == old(replies)[0] && replies == old(replies)[1..]
    {
      if replies == [] {
        return Stop;
      }
      r := replies[0];
      replies := replies[1..];
    }

    /** zfilbuf: one block, and whether it is the last. */
    method Zfilbuf(blklen: nat) returns (d: seq<Byte>)
      requires Ready() && blklen > 0
      modifies this`fpos, this`eofSeen
      ensures d == ReadAt(file, old(fpos), blklen) && fpos == old(fpos) + |d|
      ensures eofSeen <==> old(eofSeen) || fpos >= |file|
    {
      ReadIsPiece(file, fpos, blklen);
      d := ReadAt(file, fpos, blklen);
      fpos := fpos + |d|;
      if |d| < blklen {
        eofSeen := true;
      } else if fpos >= |file| {
        // looking one character ahead
        eofSeen := true;
      }
    }

    /** getinsync. */
    method GetInSync(flag: bool) returns (s: Sync)
      requires Synced()
      modifies this`replies, this`log, this`fpos, this`bytesSent, this`bytcnt, this`eofSeen, this`lastsync, this`lrxpos
      ensures Synced()
      ensures var r := Resynced(old(replies), flag, old(bytesSent), old(lrxpos), 0);
              && s == r.c && replies == r.rest && lrxpos == r.lrxpos && log == old(log) + Naks(r.naks)
              && (if s.SyncPos? then bytesSent == lastsync == r.pos && !eofSeen
                  else bytesSent == old(bytesSent) && lastsync == old(lastsync) && eofSeen == old(eofSeen))
      ensures Reached(log) == old(Reached(log))
    {
      ghost var start, sent, before, o, naks := replies, bytesSent, lrxpos, log, 0;
      NoNaks(o);
      hide Faithful;
      hide Reached;
      hide Naks;
      while true
        invariant Resynced(replies, flag, sent, lrxpos, naks) == Resynced(start, flag, sent, before, 0)
        invariant Synced() && log == o + Naks(naks) && Reached(log) == Reached(o)
        invariant bytesSent == sent && lastsync == old(lastsync) && eofSeen == old(eofSeen)
        decreases |replies|
      {
        if replies == [] {
          return SyncError;
        }
        var r := NextReply();
        match r {
          case Stop => return SyncError;
          case Rpos(p) =>
            fpos := p;
            eofSeen := false;
            bytcnt, lrxpos, bytesSent := p, p, p;
            lastsync := p;
            return SyncPos;
          case Ack(p) =>
            lrxpos := p;
            if flag || bytesSent == p {
              return SyncAck;
            }
          case Rinit(_) => return SyncInit;
          case Skip => return SyncSkip;
          case _ =>
            NakNext(file, o, naks);
            Log(Nak);
            naks := naks + 1;
        }
      }
    }

    /** Send a header with the present position. */
    method Header() returns (pos: nat)
      ensures pos == InHeader(bytesSent)
    {
      pos := Rclhdr(Stohdr(bytesSent));
    }

    /** One round of the sending loop: a block, the frame end that goes with
        it, and the counters. */
    method SendBlock() returns (e: Byte, ghost d: seq<Byte>)
      requires InStep() && !eofSeen
      modifies this`calls, this`fpos, this`eofSeen, this`txwcnt, this`log, this`bytesSent, this`bytcnt
      ensures InStep() && IsFrameEnd(e) && log == old(log) + [Sub(d, e)]
      ensures fpos == old(fpos) + |d| && (d == [] <==> old(fpos) >= |file|)
      ensures old(fpos) < |file| ==> old(fpos) < fpos <= |file|
      ensures eofSeen <==> fpos >= |file|
      ensures e == ZCRCE <==> eofSeen
      ensures e == ZCRCW <==> !eofSeen && old(bytcnt) == lastsync
      ensures e == ZCRCQ <==>
                !eofSeen && old(bytcnt) != lastsync && window > 0 && (old(txwcnt) + |d|) % POSITIONS >= spacing
      ensures e == ZCRCG && window > 0 ==> txwcnt == (old(txwcnt) + |d|) % POSITIONS < spacing
      ensures e == ZCRCQ ==> txwcnt == 0
    {
      hide Faithful;
      hide Reached;
      hide InHeader;
      var blklen := blocks(calls);
      calls := calls + 1;
      ReadIsPiece(file, fpos, blklen);
      var data := Zfilbuf(blklen);
      hide ReadAt;
      hide IsPiece;
      e := FrameEndFor(|data|);
      d := data;
      FaithfulNext(file, log, Sub(d, e));
      Log(Sub(d, e));
      bytesSent := bytesSent + |data|;
      bytcnt := bytesSent;
    }

    /** The bytes of a block count towards the next ZCRCQ. */
    ghost predicate Counts()
      reads this`eofSeen, this`bytcnt, this`lastsync
    {
      !eofSeen && bytcnt != lastsync && window > 0
    }

    /** The frame end for a block of n bytes: with a window, an answer is asked
        for as soon as `spacing` bytes have been sent since the last time. */
    method FrameEndFor(n: nat) returns (e: Byte)
      modifies this`txwcnt
      ensures IsFrameEnd(e)
      ensures e == ZCRCE <==> eofSeen
      ensures e == ZCRCW <==> !eofSeen && bytcnt == lastsync
      ensures e == ZCRCQ <==> Counts() && (old(txwcnt) + n) % POSITIONS >= spacing
      ensures txwcnt == if !Counts() then old(txwcnt) else if e == ZCRCQ then 0 else (old(txwcnt) + n) % POSITIONS
    {
      if eofSeen {
        return ZCRCE;
      }
      if bytcnt == lastsync {
        return ZCRCW;
      }
      if window > 0 {
        txwcnt := (txwcnt + n) % POSITIONS;
        if txwcnt >= spacing {
          txwcnt := 0;
          return ZCRCQ;
        }
      }
      e := ZCRCG;
    }

    /** The sending loop is not going to ask for an answer. */
    ghost predicate NoWait()
      reads this
    {
      window == 0 && (lastsync < bytesSent || lastsync >= |file|)
    }

    /** From the ZDATA header to the end of the sending loop. */
    method Stretch() returns (w: Why, ghost sent: seq<Event>, ghost taken: seq<Reply>)
      requires Synced() && bytesSent < POSITIONS && !eofSeen
      modifies this`calls, this`fpos, this`eofSeen, this`txwcnt, this`log, this`bytesSent, this`bytcnt,
               this`replies, this`lastsync, this`lrxpos, this`c
      ensures Synced() && Reached(log).Some? && (!w.Complaint? ==> InStep())
      ensures |replies| <= |old(replies)| && log == old(log) + sent && IsStretch(old(bytesSent), sent)
      ensures w.RanOut? ==> eofSeen
      ensures w.Due? ==> !eofSeen
      ensures w.Complaint? && !w.c.SyncError? ==> |replies| < |old(replies)|
      ensures w.Complaint? && w.c.SyncPos? ==> bytesSent < POSITIONS && !eofSeen
      ensures w.Complaint? ==> !w.c.SyncAck?
      ensures old(replies) == taken + replies
      ensures w.Complaint? ==> Outcome(taken, w.c, replies, bytesSent, true) && c == Some(w.c)
      ensures !w.Complaint? ==> NotEnded(taken)
      ensures w.RanOut? && window > 0 ==> (bytesSent - lrxpos) % (SIZE_MAX + 1) < window
      ensures old(NoWait()) ==>
                w.RanOut? && replies == old(replies) && OneGo(file, old(bytesSent), sent)
      ensures old(NoWait()) ==> bytesSent == if old(bytesSent) < |file| then |file| else old(bytesSent)
    {
      hide Faithful;
      hide Reached;
      hide InHeader;
      hide Resynced;
      ghost var p, quiet := bytesSent, NoWait();
      txwcnt := 0;
      var pos := Header();
      PositionWraps(bytesSent);
      FaithfulNext(file, log, DataAt(pos));
      Log(DataAt(pos));
      sent, taken := [DataAt(p)], [];
      while true
        invariant InStep() && !eofSeen && |replies| <= |old(replies)|
        invariant log == old(log) + sent && IsStretch(p, sent)
        invariant old(replies) == taken + replies && NotEnded(taken)
        invariant quiet ==> NoWait() && replies == old(replies)
        invariant quiet ==> p <= bytesSent && (|sent| == 1 ==> bytesSent == p) && (|sent| > 1 ==> bytesSent < |file|)
        invariant quiet ==> forall i :: 1 <= i < |sent| ==> sent[i].Sub? && sent[i].data != [] && p < |file|
        decreases |replies|, if fpos < |file| then |file| - fpos else 0
      {
        ghost var d;
        var e;
        e, d := SendBlock();
        StretchGrows(p, sent, [Sub(d, e)]);
        EventsAssociate(old(log), sent, [Sub(d, e)]);
        sent := sent + [Sub(d, e)];
        if e == ZCRCW {
          return Due, sent, taken;
        }
        if window > 0 {
          ghost var more, t;
          w, more, t := AwaitWindow(e);
          StretchWaits(p, sent, more);
          EventsAssociate(old(log), sent, more);
          if w.Complaint? {
            OutcomeBehind(taken, t, w.c, replies, bytesSent, true);
          }
          NotEndedBehind(taken, t, replies);
          taken, sent := taken + t, sent + more;
          if w.Complaint? {
            return;
          }
        }
        if eofSeen {
          return RanOut, sent, taken;
        }
      }
    }

    /** The window loop: as long as too much is unacknowledged, send empty
        subpackets that ask for an answer, and wait for it. */
    method AwaitWindow(e0: Byte) returns (w: Why, ghost sent: seq<Event>, ghost taken: seq<Reply>)
      requires InStep() && window > 0
      modifies this`log, this`replies, this`fpos, this`bytesSent, this`bytcnt, this`eofSeen, this`lastsync,
               this`lrxpos, this`c
      ensures Synced() && Reached(log).Some? && (!w.Complaint? ==> InStep())
      ensures |replies| <= |old(replies)| && log == old(log) + sent && OnlyWaiting(sent)
      ensures w.Complaint? && !w.c.SyncError? ==> |replies| < |old(replies)|
      ensures w.Complaint? && w.c.SyncPos? ==> bytesSent < POSITIONS && !eofSeen
      ensures w.Complaint? ==> !w.c.SyncAck?
      ensures !w.Complaint? ==> w.RanOut? && bytesSent == old(bytesSent) && eofSeen == old(eofSeen) && fpos == old(fpos)
      // Afterwards less than the window is unacknowledged.
      ensures w.RanOut? ==> (bytesSent - lrxpos) % (SIZE_MAX + 1) < window && NotEnded(taken)
      ensures old(replies) == taken + replies
      ensures w.Complaint? ==> Outcome(taken, w.c, replies, bytesSent, true) && c == Some(w.c)
    {
      hide Faithful;
      hide Reached;
      hide Resynced;
      hide OnlyWaiting;
      hide OnlyNaks;
      hide Outcome;
      var e := e0;
      ghost var o := log;
      sent, taken := [], [];
      NothingWaits(o);
      while (bytesSent - lrxpos) % (SIZE_MAX + 1) >= window
        invariant InStep() && |replies| <= |old(replies)|
        invariant log == o + sent && OnlyWaiting(sent)
        invariant old(replies) == taken + replies && NotEnded(taken)
        invariant bytesSent == old(bytesSent) && eofSeen == old(eofSeen) && fpos == old(fpos)
        decreases |replies|
      {
        if e != ZCRCQ {
          e := ZCRCQ;
          OneWaits(o, sent, e);
          SendEmpty(e);
          sent := sent + [Sub([], e)];
        }
        ghost var more, t;
        var s;
        s, more, t := Answer(true);
        c := Some(s);
        WaitingGrows(sent, more);
        EventsAssociate(o, sent, more);
        OutcomeBehind(taken, t, s, replies, bytesSent, true);
        taken, sent := taken + t, sent + more;
        if s != SyncAck {
          OneWaits(o, sent, ZCRCE);
          SendEmpty(ZCRCE);
          return Complaint(s), sent + [Sub([], ZCRCE)], taken;
        }
      }
      w := RanOut;
    }

    lemma NothingWaits(o: seq<Event>)
      ensures OnlyWaiting([]) && o + [] == o
    {
    }

    lemma OneWaits(o: seq<Event>, sent: seq<Event>, e: Byte)
      requires OnlyWaiting(sent) && (e == ZCRCQ || e == ZCRCE)
      ensures OnlyWaiting(sent + [Sub([], e)]) && o + (sent + [Sub([], e)]) == o + sent + [Sub([], e)]
    {
    }

    /** getinsync, in terms of what the sending loops need. */
    method Answer(flag: bool) returns (s: Sync, ghost sent: seq<Event>, ghost taken: seq<Reply>)
      requires Synced()
      modifies this`replies, this`log, this`fpos, this`bytesSent, this`bytcnt, this`eofSeen, this`lastsync, this`lrxpos
      ensures Synced() && Reached(log) == old(Reached(log))
      ensures |replies| <= |old(replies)| && (!s.SyncError? ==> |replies| < |old(replies)|)
      ensures log == old(log) + sent && OnlyNaks(sent)
      ensures if s.SyncPos? then bytesSent < POSITIONS && !eofSeen
              else bytesSent == old(bytesSent) && lastsync == old(lastsync) && eofSeen == old(eofSeen) && fpos == old(fpos)
      ensures s.SyncAck? && !flag ==> bytesSent < POSITIONS
      ensures old(replies) == taken + replies && Outcome(taken, s, replies, bytesSent, flag)
      ensures old(replies) != [] && old(replies)[0].Rinit? ==>
                s.SyncInit? && replies == old(replies)[1..] && sent == []
    {
      hide Faithful;
      hide Reached;
      hide Naks;
      hide Outcome;
      hide Resynced;
      AckIsRight(replies, flag, bytesSent, lrxpos, 0);
      AtOnce(replies, flag, bytesSent, lrxpos);
      ghost var n := ResyncTakes(replies, flag, bytesSent, lrxpos, 0);
      taken := replies[..n];
      sent := Naks(Resynced(replies, flag, bytesSent, lrxpos, 0).naks);
      s := GetInSync(flag);
    }

    static lemma AtOnce(rs: seq<Reply>, flag: bool, sent: nat, lrx: nat)
      ensures rs != [] && rs[0].Rinit? ==> Resynced(rs, flag, sent, lrx, 0) == Resync(SyncInit, 0, lrx, rs[1..], 0)
      ensures Naks(0) == []
    {
    }

    static lemma {:induction false} AckIsRight(rs: seq<Reply>, flag: bool, sent: nat, lrx: nat, naks: nat)
      ensures var r := Resynced(rs, flag, sent, lrx, naks);
              r.c.SyncAck? ==> r.pos == r.lrxpos && (!flag ==> sent == r.pos)
      decreases |rs|
    {
      if rs != [] {
        match rs[0]
        case Ack(p) => if !flag && sent != p { AckIsRight(rs[1..], flag, sent, p, naks); }
        case Stop =>
        case Rpos(_) =>
        case Rinit(_) =>
        case Skip =>
        case _ => AckIsRight(rs[1..], flag, sent, lrx, naks + 1);
      }
    }

    /** An empty subpacket. */
    method SendEmpty(e: Byte)
      requires Ready() && Reached(log).Some? && IsFrameEnd(e)
      modifies this`log
      ensures Ready() && Reached(log) == old(Reached(log)) && log == old(log) + [Sub([], e)]
    {
      hide Faithful;
      hide Reached;
      hide InHeader;
      FaithfulNext(file, log, Sub([], e));
      Log(Sub([], e));
    }

    /** A file that goes out in one go is followed by its end. */
    ghost predicate OneRun(p: nat, sent: seq<Event>)
    {
      && |sent| >= 3 && OneGo(file, p, sent[..|sent| - 1])
      && sent[|sent| - 1] == Eof(InHeader(if p < |file| then |file| else p))
    }

    lemma RunEnds(p: nat, sent: seq<Event>)
      requires OneGo(file, p, sent)
      ensures OneRun(p, sent + [Eof(InHeader(if p < |file| then |file| else p))])
    {
      hide InHeader;
      var all := sent + [Eof(InHeader(if p < |file| then |file| else p))];
      assert all[..|all| - 1] == sent;
    }

    /** zsendfdata. Whatever the receiver answers, what is sent is faithful to
        the file; it goes on where the answers say, and reports what the last
        one says; and if it is let go on, the file is sent. */
    method SendFileData() returns (r: Result, ghost rounds: seq<Round>)
      requires Synced() && bytesSent < POSITIONS && !eofSeen
      modifies this
      ensures Ready() && log == old(log) + AllSent(rounds) && old(replies) == AllTaken(rounds) + replies
      ensures rounds != [] && RoundsOk(rounds, old(bytesSent)) && Verdict(r, rounds[|rounds| - 1], replies)
      ensures r.Stale? ==> r == Stale(c)
      ensures old(NoWait()) && old(replies) != [] && old(replies)[0].Rinit? ==>
                r == Done && replies == old(replies)[1..] && OneRun(old(bytesSent), log[|old(log)|..])
    {
      hide Faithful;
      hide Reached;
      hide InHeader;
      hide OneGo;
      hide OneRun;
      hide RoundsOk;
      hide IsRound;
      hide Leads;
      hide EndedBy;
      hide ToldEnd;
      hide Verdict;
      hide AllSent;
      hide AllTaken;
      lrxpos := 0;
      ghost var o, p, quiet := log, bytesSent, NoWait() && replies != [] && replies[0].Rinit?;
      rounds := [];
      NoRounds(log, replies);
      while true
        invariant Synced() && bytesSent < POSITIONS && !eofSeen && |replies| <= |old(replies)|
        invariant RoundsLead(rounds, p, bytesSent)
        invariant log == o + AllSent(rounds) && old(replies) == AllTaken(rounds) + replies
        invariant quiet ==> NoWait() && replies == old(replies) && log == o && bytesSent == p
        decreases |replies|
      {
        var ended, s;
        ghost var round;
        ended, s, round := OneRound();
        AddRound(rounds, p, round);
        JudgeRound(round, ended, s, replies);
        EventsAssociate(o, AllSent(rounds), round.sent);
        RepliesAssociate(AllTaken(rounds), round.taken, replies);
        rounds := rounds + [round];
        if quiet {
          assert log[|o|..] == round.sent;
        }
        if ended {
          match s {
            case SyncPos => LeadsOn(rounds, p, bytesSent);
            case SyncInit => return Done, rounds;
            case SyncSkip => return Stale(c), rounds;
            case _ => return Failed, rounds;
          }
        } else {
          match s {
            case SyncError => return Failed, rounds;
            case SyncSkip => return Skipped, rounds;
            case SyncInit => return Done, rounds;
            case _ => LeadsOn(rounds, p, bytesSent);
          }
        }
      }
    }

    lemma NoRounds(l: seq<Event>, rs: seq<Reply>)
      ensures l == l + AllSent([]) && rs == AllTaken([]) + rs
    {
    }

    lemma JudgeRound(round: Round, ended: bool, s: Sync, left: seq<Reply>)
      requires EndedBy(round.taken, s, left) && (ended <==> ToldEnd(round.sent))
      ensures s.SyncInit? ==> Verdict(Done, round, left)
      ensures s.SyncSkip? && !ended ==> Verdict(Skipped, round, left)
      ensures s.SyncSkip? && ended ==> Verdict(Stale(c), round, left)
      ensures s.SyncError? ==> Verdict(Failed, round, left)
    {
    }

    lemma LeadsOn(rounds: seq<Round>, p: nat, pos: nat)
      requires RoundsOk(rounds, p) && Leads(rounds[|rounds| - 1], pos)
      ensures RoundsLead(rounds, p, pos)
    {
    }

    /** From the header to the answer that decides what comes next; `ended`
        says whether the end of the file was told. */
    method OneRound() returns (ended: bool, s: Sync, ghost round: Round)
      requires Synced() && bytesSent < POSITIONS && !eofSeen
      modifies this`calls, this`fpos, this`eofSeen, this`txwcnt, this`log, this`bytesSent, this`bytcnt,
               this`replies, this`lastsync, this`lrxpos, this`c
      ensures Synced() && round.pos == old(bytesSent) && IsRound(round) && (ended <==> ToldEnd(round.sent))
      ensures log == old(log) + round.sent && old(replies) == round.taken + replies
      ensures EndedBy(round.taken, s, replies) && (s.SyncPos? || s.SyncAck? ==> Leads(round, bytesSent))
      ensures s.SyncAck? ==> !ended
      ensures s.SyncPos? || s.SyncAck? ==>
                bytesSent < POSITIONS && !eofSeen && |replies| < |old(replies)|
      ensures old(NoWait()) && old(replies) != [] && old(replies)[0].Rinit? ==>
                ended && s == SyncInit && replies == old(replies)[1..] && OneRun(old(bytesSent), round.sent)
    {
      hide Faithful;
      hide Reached;
      hide InHeader;
      hide OneGo;
      hide OneRun;
      hide Outcome;
      hide NotEnded;
      hide IsStretch;
      hide IsEnding;
      hide IsRound;
      hide ToldEnd;
      hide Leads;
      hide EndedBy;
      hide OnlyNaks;
      ghost var o, p, quiet := log, bytesSent, NoWait() && replies != [] && replies[0].Rinit?;
      ghost var data, more, taken, t;
      var w;
      w, data, taken := Stretch();
      if w.RanOut? {
        s, more, t := FinishFile();
        OutcomeBehind(taken, t, s, replies, bytesSent, false);
        EventsAssociate(o, data, more);
        round := Round(p, data + more, taken + t);
        EndedRound(p, data, more, round);
        RoundEnds(round, s, replies, bytesSent, false);
        if quiet {
          RunEnds(p, data);
        }
        return true, s, round;
      }
      ended := false;
      if w.Due? {
        s, more, t := Answer(false);
        c := Some(s);
        OutcomeBehind(taken, t, s, replies, bytesSent, false);
        StretchWaits(p, data, more);
        EventsAssociate(o, data, more);
        round := Round(p, data + more, taken + t);
        StretchIsRound(round);
        RoundEnds(round, s, replies, bytesSent, false);
      } else {
        s := w.c;
        round := Round(p, data, taken);
        StretchIsRound(round);
        RoundEnds(round, s, replies, bytesSent, true);
      }
    }

    lemma RoundEnds(round: Round, s: Sync, left: seq<Reply>, pos: nat, flag: bool)
      requires Outcome(round.taken, s, left, pos, flag)
      ensures EndedBy(round.taken, s, left)
      ensures s.SyncPos? || (s.SyncAck? && !flag && !ToldEnd(round.sent)) ==> Leads(round, pos)
    {
    }

    lemma StretchIsRound(round: Round)
      requires IsStretch(round.pos, round.sent)
      ensures IsRound(round) && !ToldEnd(round.sent)
    {
      var sent := round.sent;
      forall k: nat | k < |sent|
        ensures !sent[k].Eof?
      {
        assert k > 0 ==> sent[1..][k - 1] in sent[1..];
      }
    }

    lemma EndedRound(p: nat, data: seq<Event>, ending: seq<Event>, round: Round)
      requires IsStretch(p, data) && IsEnding(ending) && round.pos == p && round.sent == data + ending
      ensures IsRound(round) && ToldEnd(round.sent)
    {
      var k := |data|;
      assert round.sent[..k] == data && round.sent[k..] == ending && round.sent[k] == ending[0];
    }

    /** The loop after the data: tell the end of the file until the receiver
        says something else than that it knows. */
    method FinishFile() returns (s: Sync, ghost sent: seq<Event>, ghost taken: seq<Reply>)
      requires InStep() && eofSeen
      modifies this`replies, this`log, this`fpos, this`bytesSent, this`bytcnt, this`eofSeen, this`lastsync, this`lrxpos
      ensures Synced() && s != SyncAck
      ensures |replies| <= |old(replies)| && (!s.SyncError? ==> |replies| < |old(replies)|)
      ensures log == old(log) + sent && IsEnding(sent) && sent[0] == Eof(InHeader(old(bytesSent)))
      ensures old(replies) == taken + replies && Outcome(taken, s, replies, bytesSent, false)
      ensures s.SyncPos? ==> bytesSent < POSITIONS && !eofSeen
      ensures old(replies) != [] && old(replies)[0].Rinit? ==>
                s == SyncInit && replies == old(replies)[1..] && sent == [Eof(InHeader(old(bytesSent)))]
    {
      hide Faithful;
      hide Reached;
      hide InHeader;
      hide OnlyNaks;
      hide Outcome;
      hide IsEnding;
      ghost var o := log;
      sent, taken := [], [];
      assert o + [] == o;
      while true
        invariant InStep() && eofSeen && |replies| <= |old(replies)| && bytesSent == old(bytesSent)
        invariant log == o + sent && (sent == [] || (IsEnding(sent) && sent[0] == Eof(InHeader(bytesSent))))
        invariant old(replies) == taken + replies && NotEnded(taken)
        invariant old(replies) != [] && old(replies)[0].Rinit? ==> replies == old(replies) && sent == []
        decreases |replies|
      {
        var pos := Header();
        FaithfulNext(file, log, Eof(pos));
        Log(Eof(pos));
        ghost var more, t;
        s, more, t := Answer(false);
        OutcomeBehind(taken, t, s, replies, bytesSent, false);
        EndingGrows(sent, Eof(pos), more);
        EventsAssociate(o, sent, [Eof(pos)]);
        EventsAssociate(o, sent + [Eof(pos)], more);
        taken, sent := taken + t, sent + [Eof(pos)] + more;
        if s != SyncAck {
          return;
        }
      }
    }

    /** The answer to ZCRC: the check of as many bytes as are asked for. */
    method AnswerCrc(pos: Pos)
      requires Ready() && fpos == 0
      modifies this`log, this`fpos
      ensures Ready() && fpos == 0 && log == old(log) + [FileCrc(FileCheck(Asked(file, pos)))]
    {
      hide Faithful;
      hide Reached;
      hide InHeader;
      hide Add;
      var crc: bv32 := 0xffff_ffff;
      var n := if pos == 0 then |file| else pos;
      while n > 0 && fpos < |file|
        invariant Ready() && log == old(log)
        invariant 0 <= n && 0 <= fpos <= |file| && fpos + n == if pos == 0 then |file| else pos
        invariant Fcs32(crc) == AddAll(Start(true), file[..fpos])
      {
        AddNext(Start(true), file, fpos);
        AddedIs32(crc, file[fpos]);
        crc := Crc.UpdC32(file[fpos], crc);
        fpos := fpos + 1;
        n := n - 1;
      }
      assert file[..fpos] == Asked(file, pos);
      crc := Crc.Not(crc);
      fpos := 0;
      FaithfulNext(file, log, FileCrc(crc));
      Log(FileCrc(crc));
    }

    /** The ZRPOS case of zsendfile. */
    method StartAt(p: Pos) returns (r: Result, ghost rounds: seq<Round>)
      requires Ready() && fpos == 0 && !eofSeen
      modifies this
      ensures Ready() && log == old(log) + AllSent(rounds) && old(replies) == AllTaken(rounds) + replies
      ensures rounds != [] && RoundsOk(rounds, p) && Verdict(r, rounds[|rounds| - 1], replies)
      ensures r.Stale? ==> r == Stale(c)
      ensures window == 0 && old(replies) != [] && old(replies)[0].Rinit? ==>
                r == Done && OneRun(p, log[|old(log)|..])
    {
      hide Faithful;
      hide InHeader;
      hide OneRun;
      hide RoundsOk;
      hide Verdict;
      if p != 0 {
        fpos := p;
      }
      bytcnt, bytesSent := p, p;
      lastsync := (p - 1) % (SIZE_MAX + 1);
      r, rounds := SendFileData();
    }

    /** zsendfile: offer the file until the receiver says where to begin,
        reporting checksums if it asks for them. What is sent, what is taken
        and what is reported, for all answers: `early` are those to the offer. */
    method SendFile() returns (r: Result, ghost early: seq<Reply>, ghost rounds: seq<Round>)
      requires Ready() && fpos == 0 && !eofSeen
      modifies this
      ensures Ready() && log == old(log) + Offered(file, early) + AllSent(rounds)
      ensures old(replies) == early + AllTaken(rounds) + replies && OfferVerdict(r, early, rounds, replies)
      ensures r.Stale? ==> r == Stale(c)
      ensures |old(replies)| >= 2 && old(replies)[0].Rpos? && old(replies)[1].Rinit? && window == 0 ==>
                r == Done && early == [old(replies)[0]] && OneRun(old(replies)[0].pos, AllSent(rounds))
    {
      hide Faithful;
      hide OneRun;
      hide RoundsOk;
      hide Verdict;
      hide Offered;
      var start;
      start, r, early := Offer();
      rounds := [];
      if start.None? {
        assert log + [] == log && early + [] == early;
        return;
      }
      ghost var before, answers := log, replies;
      r, rounds := StartAt(start.value);
      assert log[|before|..] == AllSent(rounds);
      RepliesAssociate(early, AllTaken(rounds), replies);
    }

    /** Offer the file until it is to be sent from a position, or not at all. */
    method Offer() returns (start: Option<Pos>, r: Result, ghost early: seq<Reply>)
      requires Ready() && fpos == 0 && !eofSeen
      modifies this`log, this`replies, this`fpos
      ensures Ready() && fpos == 0 && !eofSeen
      ensures log == old(log) + Offered(file, early) && old(replies) == early + replies
      ensures start.None? ==> OfferVerdict(r, early, [], replies)
      ensures start.Some? ==>
                early != [] && early[|early| - 1] == Rpos(start.value) && AllGoOn(early[..|early| - 1])
      ensures old(replies) != [] && old(replies)[0].Rpos? ==>
                start == Some(old(replies)[0].pos) && early == [old(replies)[0]]
    {
      hide Faithful;
      hide Offered;
      hide OfferVerdict;
      ghost var o, rs := log, replies;
      assert AllGoOn([]) && OfferStands(file, o, log, [], false) && rs == [] + rs;
      hide AllGoOn;
      hide OfferStands;
      var ended := false;
      early, start, r := [], None, Failed;
      while !ended
        invariant Ready() && fpos == 0 && !eofSeen && rs == early + replies
        invariant if ended then OfferEnded(log, start, r, early, o) else AllGoOn(early) && OfferStands(file, o, log, early, false)
        invariant rs != [] && rs[0].Rpos? ==> if ended then start == Some(rs[0].pos) && early == [rs[0]] else early == []
        decreases |replies|, !ended
      {
        ended, start, r, early := OfferOnce(o, rs, early);
      }
    }

    /** What holds when the offer is over. */
    ghost predicate OfferEnded(l: seq<Event>, start: Option<Pos>, r: Result, early: seq<Reply>, o: seq<Event>)
      reads this`replies
    {
      && l == o + Offered(file, early)
      && match start
         case None => OfferVerdict(r, early, [], replies)
         case Some(p) => early != [] && early[|early| - 1] == Rpos(p) && AllGoOn(early[..|early| - 1])
    }

    /** Send the offer, and take answers until it is to be sent again. */
    method OfferOnce(ghost o: seq<Event>, ghost rs: seq<Reply>, ghost early0: seq<Reply>)
      returns (ended: bool, start: Option<Pos>, r: Result, ghost early: seq<Reply>)
      requires Ready() && fpos == 0 && !eofSeen
      requires rs == early0 + replies && AllGoOn(early0) && OfferStands(file, o, log, early0, false)
      modifies this`log, this`replies, this`fpos
      ensures Ready() && fpos == 0 && !eofSeen && rs == early + replies && |replies| <= |old(replies)|
      ensures if ended then OfferEnded(log, start, r, early, o)
              else |replies| < |old(replies)| && AllGoOn(early) && OfferStands(file, o, log, early, false)
      ensures old(replies) != [] && old(replies)[0].Rpos? ==>
                ended && start == Some(old(replies)[0].pos) && early == early0 + [old(replies)[0]]
    {
      hide Faithful;
      hide Reached;
      hide InHeader;
      hide OfferStands;
      hide OfferEnded;
      hide OfferVerdict;
      hide AllGoOn;
      OfferRepeats(file, o, log, early0);
      FaithfulNext(file, log, FileInfo);
      Log(FileInfo);
      early, start, r := early0, None, Failed;
      ghost var all := replies;
      var again := true;
      while again
        invariant Ready() && fpos == 0 && !eofSeen && rs == early + replies && AllGoOn(early)
        invariant OfferStands(file, o, log, early, again)
        invariant all != [] && all[0].Rpos? ==> again && replies == all && early == early0
        invariant |replies| <= |all| && (again || |replies| < |all|)
        decreases |replies|
      {
        if replies == [] {
          NoAnswer(o, early);
          return true, None, Failed, early;
        }
        var reply := NextReply();
        RepliesAssociate(early, [reply], replies);
        if reply.Rqinit? || reply.Stop? {
          EndingAnswer(o, early, reply, None, Failed);
          return true, None, Failed, early + [reply];
        }
        if reply.Skip? {
          EndingAnswer(o, early, reply, None, Skipped);
          return true, None, Skipped, early + [reply];
        }
        if reply.Rpos? {
          EndingAnswer(o, early, reply, Some(reply.pos), Failed);
          return true, Some(reply.pos), Failed, early + [reply];
        }
        ghost var before := log;
        again := React(reply);
        OneMoreGoesOn(early, reply);
        OfferGoesOn(file, o, before, log, early, reply, again);
        early := early + [reply];
      }
      ended := false;
    }

    lemma NoAnswer(o: seq<Event>, early: seq<Reply>)
      requires replies == [] && AllGoOn(early) && OfferStands(file, o, log, early, true)
      ensures OfferEnded(log, None, Failed, early, o)
    {
      NothingEnded(early);
      NotOffered(early, replies);
      OfferEnds(file, o, log, early, Skip);
    }

    lemma EndingAnswer(o: seq<Event>, early: seq<Reply>, a: Reply, start: Option<Pos>, r: Result)
      requires AllGoOn(early) && OfferStands(file, o, log, early, true) && !GoesOn(a)
      requires if a.Rpos? then start == Some(a.pos) else start == None && r == if a.Skip? then Skipped else Failed
      ensures OfferEnded(log, start, r, early + [a], o)
    {
      OneMoreGoesOn(early, a);
      NotOffered(early + [a], replies);
      OfferEnds(file, o, log, early, a);
    }

    /** The answers that do not end the offer: whether another one is waited for
        before the file is offered again. */
    method React(reply: Reply) returns (again: bool)
      requires Ready() && fpos == 0 && !eofSeen && GoesOn(reply)
      modifies this`log, this`fpos
      ensures Ready() && fpos == 0 && !eofSeen
      ensures if again then log == old(log) + Reaction(file, reply)
              else log == old(log) && Reaction(file, reply) == [FileInfo]
    {
      hide Faithful;
      hide Reached;
      hide InHeader;
      hide Reaction;
      ReactionIs(file, reply, log);
      match reply {
        case CrcWanted(p) =>
          AnswerCrc(p);
          again := true;
        case Rinit(padded) => again := padded;
        case _ => again := false;
      }
    }
  }

  lemma ReactionIs(file: seq<Byte>, a: Reply, l: seq<Event>)
    ensures match a
            case CrcWanted(p) => Reaction(file, a) == [FileCrc(FileCheck(Asked(file, p)))]
            case Rinit(again) => Reaction(file, a) == if again then [] else [FileInfo]
            case Ack(_) => Reaction(file, a) == [FileInfo]
            case Other => Reaction(file, a) == [FileInfo]
            case _ => Reaction(file, a) == []
    ensures l + [] == l
  {
  }

  lemma NothingEnded(early: seq<Reply>)
    requires AllGoOn(early)
    ensures early != [] ==> AllGoOn(early[..|early| - 1]) && GoesOn(early[|early| - 1])
  {
  }

  /** What is on the line after these answers: `again` says that another one is
      waited for, otherwise the file is offered next. */
  ghost predicate OfferStands(file: seq<Byte>, o: seq<Event>, l: seq<Event>, early: seq<Reply>, again: bool) {
    if again then l == o + Offered(file, early)
    else if early == [] then l == o
    else l + [FileInfo] == o + Offered(file, early)
  }

  lemma OfferRepeats(file: seq<Byte>, o: seq<Event>, l: seq<Event>, early: seq<Reply>)
    requires OfferStands(file, o, l, early, false)
    ensures OfferStands(file, o, l + [FileInfo], early, true)
  {
  }

  lemma OfferGoesOn(file: seq<Byte>, o: seq<Event>, before: seq<Event>, l: seq<Event>, early: seq<Reply>, a: Reply,
                    again: bool)
    requires OfferStands(file, o, before, early, true)
    requires if again then l == before + Reaction(file, a) else l == before && Reaction(file, a) == [FileInfo]
    ensures OfferStands(file, o, l, early + [a], again)
  {
    hide Reaction;
    OfferedNext(file, early, a);
  }

  lemma OfferEnds(file: seq<Byte>, o: seq<Event>, l: seq<Event>, early: seq<Reply>, a: Reply)
    requires OfferStands(file, o, l, early, true)
    ensures l == o + Offered(file, early)
    ensures !GoesOn(a) ==> l == o + Offered(file, early + [a])
  {
    OfferedNext(file, early, a);
  }

  /** What is reported when there is no round. */
  lemma NotOffered(early: seq<Reply>, left: seq<Reply>)
    requires early != [] ==> AllGoOn(early[..|early| - 1])
    ensures early != [] && (early[|early| - 1] == Rqinit || early[|early| - 1] == Stop)
            ==> OfferVerdict(Failed, early, [], left)
    ensures (early == [] || GoesOn(early[|early| - 1])) && left == [] ==> OfferVerdict(Failed, early, [], left)
    ensures early != [] && early[|early| - 1] == Skip ==> OfferVerdict(Skipped, early, [], left)
  {
  }

  /** A subpacket without data: with the 16-bit check, a call that zsdata
      cannot make. */
  ghost predicate MakesEmptyCall(log: seq<Event>) {
    exists i :: 0 <= i < |log| && log[i].Sub? && log[i].data == []
  }

  /** A run that nothing disturbs, from position p on. It ends with a ZEOF at
      the length modulo 2^32, and makes an empty call exactly when there is
      nothing left of the file at p. */
  method UndisturbedRun(file: seq<Byte>, p: Pos, again: bool, spacing: nat, blocks: nat -> nat)
    returns (s: FileSender, r: Result)
    requires |file| <= SIZE_MAX && forall i :: blocks(i) > 0
    ensures s.file == file && Faithful(file, s.log) && r == Done
    ensures |s.log| >= 3 && s.log[0] == FileInfo && s.OneRun(p, s.log[1..])
    ensures Last(s.log) == Eof((if p < |file| then |file| else p) % POSITIONS)
    ensures MakesEmptyCall(s.log) <==> p >= |file|
  {
    hide Faithful;
    hide InHeader;
    s := new FileSender(file, 0, spacing, blocks, [Rpos(p), Rinit(again)]);
    ghost var early, rounds;
    r, early, rounds := s.SendFile();
    ghost var sent := AllSent(rounds);
    FirstOffer(file, p);
    assert s.log == [FileInfo] + sent && s.log[1..] == sent;
    hide AllSent;
    hide Offered;
    PositionWraps(if p < |file| then |file| else p);
    RunIsEmptyIff(s, p, sent);
    EmptyCallBehind(FileInfo, sent);
  }

  lemma FirstOffer(file: seq<Byte>, p: Pos)
    ensures Offered(file, [Rpos(p)]) == [FileInfo]
  {
    OfferedNext(file, [], Rpos(p));
    assert [] + [Rpos(p)] == [Rpos(p)];
  }

  lemma RunIsEmptyIff(s: FileSender, p: nat, sent: seq<Event>)
    requires s.OneRun(p, sent)
    ensures MakesEmptyCall(sent) <==> p >= |s.file|
  {
    var go := sent[..|sent| - 1];
    assert go[1] == sent[1];
    assert forall i :: 0 <= i < |go| ==> go[i] == sent[i];
  }

  lemma EmptyCallBehind(e: Event, log: seq<Event>)
    requires !e.Sub?
    ensures MakesEmptyCall([e] + log) <==> MakesEmptyCall(log)
  {
    var all := [e] + log;
    if i :| 0 <= i < |log| && log[i].Sub? && log[i].data == [] {
      assert all[i + 1] == log[i];
    }
    assert forall i :: 0 < i < |all| ==> all[i] == log[i - 1];
  }

  /** A file of 4 GB, sent undisturbed: its ZEOF says 0. */
  method LargeFileEndsAtZero(file: seq<Byte>, spacing: nat, blocks: nat -> nat) returns (s: FileSender, r: Result)
    requires |file| == POSITIONS && forall i :: blocks(i) > 0
    ensures s.file == file && r == Done && Faithful(file, s.log) && s.log != [] && Last(s.log) == Eof(0)
  {
    hide Faithful;
    s, r := UndisturbedRun(file, 0, false, spacing, blocks);
  }

  /** An empty file makes the sender call zsdata without data. */
  method EmptyFileMakesEmptyCall(spacing: nat, blocks: nat -> nat) returns (s: FileSender, r: Result)
    requires forall i :: blocks(i) > 0
    ensures s.file == [] && r == Done && MakesEmptyCall(s.log)
  {
    var file: seq<Byte> := [];
    s, r := UndisturbedRun(file, 0, false, spacing, blocks);
  }
}
