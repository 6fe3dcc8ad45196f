/** The login watcher: a queue of failures, a table of counts, and the list of
    banned addresses. */
module LoginWatch {
  import opened Options
  import opened LoginWindow

  const KEEP_BANNED: int := 6000
  const REWRITE_EVERY: int := 100

  /** The table of bans, when it was last written out, and what was written. */
  datatype Bans = Bans(table: map<Addr, int>, last: int, listed: set<Addr>)

  function Unexpired(table: map<Addr, int>, now: int): map<Addr, int> {
    map a | a in table && table[a] >= now - KEEP_BANNED :: table[a]
  }

  function WrittenOut(table: map<Addr, int>, now: int): Bans {
    Bans(Unexpired(table, now), now, Unexpired(table, now).Keys)
  }

  /** bansiteop: a known address is renewed, a new one is added and written
      out at once; without an address the list is written out if that was long
      ago. */
  function AfterOp(b: Bans, from: Option<Addr>, now: int): Bans {
    match from
    case Some(a) =>
      if a in b.table then b.(table := b.table[a := now]) else WrittenOut(b.table[a := now], now)
    case None => if now - b.last < REWRITE_EVERY then b else WrittenOut(b.table, now)
  }

  /** The file lists exactly the banned addresses, and none was last renewed
      more than 6000 seconds before it was written. */
  predicate BansOk(b: Bans) {
    && b.listed == b.table.Keys
    && forall a :: a in b.table ==> b.table[a] >= b.last - KEEP_BANNED
  }

  lemma OpKeepsBans(b: Bans, from: Option<Addr>, now: int)
    requires BansOk(b) && b.last <= now
    ensures BansOk(AfterOp(b, from, now)) && AfterOp(b, from, now).last <= now
    ensures from.Some? ==> AfterOp(b, from, now).table.Keys >= {from.value}
    ensures from.Some? ==> from.value in AfterOp(b, from, now).listed
  {
    var c := AfterOp(b, from, now);
    if from.Some? && from.value in b.table {
      assert c.table.Keys == b.table.Keys;
    }
  }

  /** A ban lasts: whatever comes in, an address stays banned and listed as long
      as it was last renewed not more than 6000 seconds ago, and a failure that
      gets it banned again renews it. */
  lemma BanLasts(b: Bans, from: Option<Addr>, now: int, a: Addr)
    requires BansOk(b) && b.last <= now && a in b.table && now - 6000 <= b.table[a] <= now
    ensures var c := AfterOp(b, from, now);
            a in c.table && a in c.listed && c.table[a] == if from == Some(a) then now else b.table[a]
  {
  }

  /** The list is written anew exactly if an address comes in that is not
      banned yet, or if it is 100 seconds old; then just the bans of the last
      6000 seconds are listed, and the new one. */
  lemma ListIsRewritten(b: Bans, from: Option<Addr>, now: int)
    requires BansOk(b) && b.last <= now
    ensures var c := AfterOp(b, from, now);
            if (if from.Some? then from.value !in b.table else now - b.last >= 100)
            then c.last == now && forall a :: a in c.listed <==> from == Some(a) || (a in b.table && b.table[a] >= now - 6000)
            else c.last == b.last && c.listed == b.listed
  {
  }

  /** After the list is looked after at `now`, no ban is older than 6100 s. */
  lemma BansExpire(b: Bans, now: int, a: Addr)
    requires BansOk(b) && b.last <= now
    requires a in AfterOp(b, None, now).table
    ensures AfterOp(b, None, now).table[a] > now - KEEP_BANNED - REWRITE_EVERY
  {
    OpKeepsBans(b, None, now);
  }

  class BanList {
    var bansitetable: map<Addr, int>
    var last: int
    /** The file bansite. */
    var file: set<Addr>

    ghost function State(): Bans
      reads this
    {
      Bans(bansitetable, last, file)
    }

    constructor ()
      ensures State() == Bans(map[], 0, {}) && BansOk(State())
    {
      bansitetable, last, file := map[], 0, {};
    }

    method Bansiteop(from: Option<Addr>, now: int)
      modifies this
      ensures State() == AfterOp(old(State()), from, now)
    {
      if from.Some? {
        if from.value in bansitetable {
          bansitetable := bansitetable[from.value := now];
          return;
        }
        bansitetable := bansitetable[from.value := now];
      }
      if from.None? && now - last < REWRITE_EVERY {
        return;
      }
      last := now;
      var tmptable := bansitetable;
      bansitetable, file := map[], {};
      var left := tmptable.Keys;
      while left != {}
        invariant left <= tmptable.Keys && last == now
        invariant bansitetable == map a | a in tmptable && a !in left && tmptable[a] >= now - KEEP_BANNED :: tmptable[a]
        invariant file == bansitetable.Keys
        decreases left
      {
        var a :| a in left;
        left := left - {a};
        if tmptable[a] >= now - KEEP_BANNED {
          file := file + {a};
          bansitetable := bansitetable[a := tmptable[a]];
        }
      }
      assert bansitetable == Unexpired(tmptable, now);
    }
  }

  /** The counts are those of the queue, and there is no count of nothing. */
  ghost predicate CountsMatch(table: map<Addr, nat>, q: seq<Failure>) {
    forall a: Addr :: CountMatches(table, q, a)
  }

  predicate CountMatches(table: map<Addr, nat>, q: seq<Failure>, a: Addr) {
    if a in table then table[a] == Count(q, a) > 0 else Count(q, a) == 0
  }

  lemma MatchesAt(table: map<Addr, nat>, q: seq<Failure>, a: Addr)
    requires CountsMatch(table, q)
    ensures CountMatches(table, q, a)
  {
  }

  function CountUp(table: map<Addr, nat>, a: Addr): map<Addr, nat> {
    table[a := if a in table then table[a] + 1 else 1]
  }

  function CountDown(table: map<Addr, nat>, a: Addr): map<Addr, nat>
    requires a in table && table[a] > 0
  {
    if table[a] == 1 then table - {a} else table[a := table[a] - 1]
  }

  lemma CountedUp(table: map<Addr, nat>, q: seq<Failure>, f: Failure)
    requires CountsMatch(table, q)
    ensures CountsMatch(CountUp(table, f.from), q + [f])
  {
    forall a: Addr
      ensures CountMatches(CountUp(table, f.from), q + [f], a)
    {
      assert CountMatches(table, q, a);
      CountOne(q, f, a);
    }
  }

  lemma CountedDown(table: map<Addr, nat>, q: seq<Failure>)
    requires CountsMatch(table, q) && q != []
    ensures q[0].from in table && table[q[0].from] > 0
    ensures CountsMatch(CountDown(table, q[0].from), q[1..])
  {
    assert CountMatches(table, q, q[0].from);
    forall a: Addr
      ensures CountMatches(CountDown(table, q[0].from), q[1..], a)
    {
      assert CountMatches(table, q, a);
    }
  }

  class Event {
    var next: Event?
    const from: Addr
    const t: int

    constructor (from: Addr, t: int)
      ensures next == null && this.from == from && this.t == t
    {
      this.next, this.from, this.t := null, from, t;
    }
  }

  function Failures(nodes: seq<Event>): (q: seq<Failure>)
    ensures |q| == |nodes|
    ensures forall i :: 0 <= i < |nodes| ==> q[i] == Failure(nodes[i].from, nodes[i].t)
  {
    seq(|nodes|, i requires 0 <= i < |nodes| => Failure(nodes[i].from, nodes[i].t))
  }

  class Watcher {
    var eventhead: Event?
    var eventtail: Event?
    var passerrtable: map<Addr, nat>
    const bans: BanList
    ghost var spine: seq<Event>
    /** Every failure ever, and when the queue was last looked through. */
    ghost var history: seq<Failure>
    ghost var looked: int
    /** The latest time seen. */
    ghost var clock: int

    /** The queued failures. */
    ghost function Queue(): (q: seq<Failure>)
      reads this`spine
      ensures |q| == |spine|
    {
      Failures(spine)
    }

    /** The nodes from the head on are those of the spine. */
    ghost predicate Linked()
      reads this`eventhead, this`eventtail, this`spine, spine
    {
      Chained() && (spine == [] ==> eventtail == null)
    }

    ghost predicate Chained()
      reads this`eventhead, this`eventtail, this`spine, spine
    {
      && (forall i, j :: 0 <= i < j < |spine| ==> spine[i] != spine[j])
      && (forall i :: 0 <= i < |spine| - 1 ==> spine[i].next == spine[i + 1])
      && (if spine == [] then eventhead == null
          else eventhead == spine[0] && eventtail == spine[|spine| - 1] && eventtail.next == null)
    }

    ghost predicate Counted()
      reads this`spine, this`passerrtable
    {
      CountsMatch(passerrtable, Queue())
    }

    ghost predicate Valid()
      reads this, spine, bans
    {
      && Linked() && Counted() && Timely() && Queue() == Recent(history, looked)
      && BansOk(bans.State())
    }

    /** The clock has only gone forward. */
    ghost predicate Timely()
      reads this, bans
    {
      && InOrder(history) && (forall i :: 0 <= i < |history| ==> history[i].t <= clock)
      && looked <= clock && bans.last <= clock
    }

    constructor (now: int)
      requires now >= 0
      ensures Valid() && fresh(bans) && spine == [] && history == [] && clock == now
    {
      eventhead, eventtail, passerrtable := null, null, map[];
      bans := new BanList();
      spine, history, looked, clock := [], [], now, now;
    }

    /** filter_passerr: count the failure, queue it, and ban the address if it
        has more queued than site_limit, asked at that moment, allows. */
    method FilterPasserr(from: Addr, limit: Limit, now: int, later: int)
      requires Valid() && clock <= now <= later
      modifies this`eventhead, this`eventtail, this`passerrtable, this`spine, this`history, this`clock, spine, bans
      ensures Valid() && clock == later
      ensures fresh(set e <- spine | e !in old(spine))
      ensures Queue() == old(Queue()) + [Failure(from, now)]
      ensures history == old(history) + [Failure(from, now)]
      ensures bans.State() == if Count(Queue(), from) > limit
                              then AfterOp(old(bans.State()), Some(from), later) else old(bans.State())
    {
      hide Count;
      hide CountsMatch;
      hide AfterOp;
      hide BansOk;
      hide Chained;
      hide Recent;
      hide Failures;
      hide InOrder;
      ghost var f, q := Failure(from, now), Queue();
      RecentNext(f);
      CountedUp(passerrtable, q, f);
      var e := new Event(from, now);
      MatchesAt(CountUp(passerrtable, from), q + [f], from);
      OpKeepsBans(bans.State(), Some(from), later);
      Tally(from, limit, later);
      Link(e, q);
      history := history + [f];
      clock := later;
    }

    /** Count one more for an address, and ban it if that is too many. A first
        failure is never too many. */
    method Tally(from: Addr, limit: Limit, now: int)
      modifies this`passerrtable, bans
      ensures passerrtable == CountUp(old(passerrtable), from)
      ensures bans.State() == if passerrtable[from] > limit
                              then AfterOp(old(bans.State()), Some(from), now) else old(bans.State())
    {
      if from in passerrtable {
        passerrtable := passerrtable[from := passerrtable[from] + 1];
        if passerrtable[from] > limit {
          bans.Bansiteop(Some(from), now);
        }
      } else {
        passerrtable := passerrtable[from := 1];
      }
    }

    lemma RecentNext(f: Failure)
      requires Valid() && f.t >= clock
      ensures Recent(history + [f], looked) == Queue() + [f] && InOrder(history + [f])
    {
      RecentAppend(history, [f], looked);
      assert [f][1..] == [];
      assert Recent([f], looked) == [f];
    }

    /** The end of filter_passerr: put a node at the end of the list. */
    method Link(e: Event, ghost q: seq<Failure>)
      requires Linked() && e !in spine && e.next == null && q == Queue()
      modifies this`eventhead, this`eventtail, this`spine, spine, e
      ensures Linked() && spine == old(spine) + [e] && Queue() == q + [Failure(e.from, e.t)]
    {
      if eventhead == null {
        eventhead := e;
        eventtail := e;
      } else {
        eventtail.next := e;
        eventtail := e;
      }
      e.next := null;
      spine := spine + [e];
    }

    /** expireevent: from the head on, drop what is 600 seconds old. */
    method Expireevent(now: int)
      requires Valid() && clock <= now
      modifies this`eventhead, this`eventtail, this`passerrtable, this`spine, this`looked, this`clock
      ensures Valid() && looked == clock == now
      ensures Queue() == Recent(history, now)
      ensures |spine| <= |old(spine)| && spine == old(spine)[|old(spine)| - |spine|..]
    {
      hide CountsMatch;
      hide Recent;
      hide BansOk;
      hide InOrder;
      hide Chained;
      ghost var q := Queue();
      ghost var k := DropOld(now);
      DropLeavesRecent(history, looked, q, k, now);
      TidyTail();
      looked, clock := now, now;
    }

    method TidyTail()
      requires Chained()
      modifies this`eventtail
      ensures Linked()
    {
      if eventhead == null {
        eventtail := null;
      }
    }

    /** The loop of expireevent. */
    method DropOld(now: int) returns (ghost k: nat)
      requires Chained() && Counted()
      modifies this`eventhead, this`passerrtable, this`spine
      ensures Chained() && Counted() && k <= |old(spine)| && spine == old(spine)[k..] && Queue() == old(Queue())[k..]
      ensures forall i :: 0 <= i < k ==> old(Queue())[i].t <= now - WINDOW
      ensures k < |old(spine)| ==> old(Queue())[k].t > now - WINDOW
      ensures eventhead == null <==> spine == []
    {
      hide Counted;
      ghost var q, nodes := Queue(), spine;
      k := 0;
      while eventhead != null
        invariant Chained() && Counted()
        invariant 0 <= k <= |q| && spine == nodes[k..]
        invariant forall i :: 0 <= i < k ==> nodes[i].t <= now - WINDOW
        decreases |spine|
      {
        var e := eventhead;
        assert e == nodes[k];
        if e.t > now - WINDOW {
          break;
        }
        DropHead();
        k := k + 1;
      }
      assert Queue() == q[k..];
    }

    /** The body of the loop: the first node goes, and is counted no more. */
    method DropHead()
      requires eventhead != null && Chained() && Counted()
      modifies this`eventhead, this`passerrtable, this`spine
      ensures Chained() && Counted() && spine == old(spine)[1..] && Queue() == old(Queue())[1..]
    {
      hide Count;
      hide CountsMatch;
      CountedDown(passerrtable, Queue());
      var e := eventhead;
      eventhead := e.next;
      Uncount(e.from);
      ghost var q := Queue();
      spine := spine[1..];
      assert Queue() == q[1..];
    }

    /** One failure less from `a`; the last one takes the count with it. */
    method Uncount(a: Addr)
      requires a in passerrtable && passerrtable[a] > 0
      modifies this`passerrtable
      ensures passerrtable == CountDown(old(passerrtable), a)
    {
      passerrtable := passerrtable[a := passerrtable[a] - 1];
      if passerrtable[a] == 0 {
        passerrtable := passerrtable - {a};
      }
    }

    /** filterlog: a line is a failure or something else; then the queue and
        the ban list are looked after. The clock is read four times. */
    method Filterlog(failure: Option<Addr>, limit: Limit, t1: int, t2: int, t3: int, t4: int) returns (r: int)
      requires Valid() && clock <= t1 <= t2 <= t3 <= t4
      modifies this`eventhead, this`eventtail, this`passerrtable, this`spine, this`history, this`looked, this`clock,
               spine, bans
      ensures Valid() && looked == t3 && clock == t4
      ensures r == if failure.Some? then 1 else 0
      ensures history == old(history) + if failure.Some? then [Failure(failure.value, t1)] else []
      ensures Queue() == Recent(history, t3)
      ensures forall a: Addr :: CountMatches(passerrtable, Recent(history, t3), a)
      ensures bans.State() ==
              if failure.Some? && Count(old(Queue()) + [Failure(failure.value, t1)], failure.value) > limit
              then AfterOp(AfterOp(old(bans.State()), failure, t2), None, t4)
              else AfterOp(old(bans.State()), None, t4)
    {
      hide Count;
      hide AfterOp;
      hide BansOk;
      hide Chained;
      hide Recent;
      hide InOrder;
      r := 0;
      if failure.Some? {
        FilterPasserr(failure.value, limit, t1, t2);
        r := 1;
      } else {
        assert history + [] == history;
      }
      Expireevent(t3);
      OpKeepsBans(bans.State(), None, t4);
      bans.Bansiteop(None, t4);
      clock := t4;
    }
  }
}
