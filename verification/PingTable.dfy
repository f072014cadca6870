/**
 The duplicate table of ping: one bit per sequence number, packed eight to a byte. A send
 clears the bit of its number, the first reply after it sets the bit, and a reply that
 finds it set counts as a repeat.
 */
module PingTable {

  const MAX_DUP_CHK: nat := 65536

  /** B(bit): the mask of a bit within its byte. */
  function Mask(j: nat): bv8
    requires j < 8
  {
    match j
    case 0 => 1
    case 1 => 2
    case 2 => 4
    case 3 => 8
    case 4 => 16
    case 5 => 32
    case 6 => 64
    case 7 => 128
  }

  predicate ByteTst(x: bv8, j: nat)
    requires j < 8
  {
    x & Mask(j) != 0
  }

  function ByteSet(x: bv8, j: nat): bv8
    requires j < 8
  {
    x | Mask(j)
  }

  function ByteClr(x: bv8, j: nat): bv8
    requires j < 8
  {
    x & !Mask(j)
  }

  /** TST, SET and CLR on the packed table; A(bit) is the byte bit / 8. */
  predicate Tst(table: seq<bv8>, bit: nat)
    requires |table| == MAX_DUP_CHK / 8 && bit < MAX_DUP_CHK
  {
    ByteTst(table[bit / 8], bit % 8)
  }

  function Set(table: seq<bv8>, bit: nat): (t: seq<bv8>)
    requires |table| == MAX_DUP_CHK / 8 && bit < MAX_DUP_CHK
    ensures |t| == |table|
  {
    table[bit / 8 := ByteSet(table[bit / 8], bit % 8)]
  }

  function Clr(table: seq<bv8>, bit: nat): (t: seq<bv8>)
    requires |table| == MAX_DUP_CHK / 8 && bit < MAX_DUP_CHK
    ensures |t| == |table|
  {
    table[bit / 8 := ByteClr(table[bit / 8], bit % 8)]
  }

  lemma {:induction false} ByteBits(x: bv8, j: nat, k: nat)
    requires j < 8 && k < 8
    ensures ByteTst(ByteSet(x, j), k) <==> j == k || ByteTst(x, k)
    ensures ByteTst(ByteClr(x, j), k) <==> j != k && ByteTst(x, k)
  {
  }

  lemma {:induction false} Position(a: nat, b: nat)
    ensures a == b <==> a / 8 == b / 8 && a % 8 == b % 8
  {
  }

  /** Setting or clearing a bit of the packed table leaves every other bit alone. */
  lemma {:induction false} PackedBits(table: seq<bv8>, bit: nat, other: nat)
    requires |table| == MAX_DUP_CHK / 8 && bit < MAX_DUP_CHK && other < MAX_DUP_CHK
    ensures Tst(Set(table, bit), other) <==> other == bit || Tst(table, other)
    ensures Tst(Clr(table, bit), other) <==> other != bit && Tst(table, other)
  {
    hide ByteTst, ByteSet, ByteClr;
    Position(bit, other);
    ByteBits(table[bit / 8], bit % 8, other % 8);
  }

  // ---------- histories ----------

  datatype Event = Sent(n: nat) | Reply(n: nat)

  /** The last event about n, if any, is a reply. */
  predicate AnsweredSince(h: seq<Event>, n: nat) {
    h != [] && var e := h[|h| - 1];
    if e.n == n then e.Reply? else AnsweredSince(h[..|h| - 1], n)
  }

  /** Replies that are the first for their number since it was last sent. */
  function First(h: seq<Event>): nat {
    if h == [] then 0 else
      var p, e := h[..|h| - 1], h[|h| - 1];
      First(p) + if e.Reply? && !AnsweredSince(p, e.n) then 1 else 0
  }

  function Replies(h: seq<Event>): nat {
    if h == [] then 0 else Replies(h[..|h| - 1]) + if h[|h| - 1].Reply? then 1 else 0
  }

  function Sends(h: seq<Event>): nat {
    if h == [] then 0 else Sends(h[..|h| - 1]) + if h[|h| - 1].Sent? then 1 else 0
  }

  /** The numbers answered at all. */
  function Answered(h: seq<Event>): set<nat> {
    if h == [] then {} else Answered(h[..|h| - 1]) + if h[|h| - 1].Reply? then {h[|h| - 1].n} else {}
  }

  lemma {:induction false} Snoc(h: seq<Event>, e: Event, n: nat)
    ensures AnsweredSince(h + [e], n) <==> if e.n == n then e.Reply? else AnsweredSince(h, n)
    ensures First(h + [e]) == First(h) + if e.Reply? && !AnsweredSince(h, e.n) then 1 else 0
    ensures Replies(h + [e]) == Replies(h) + if e.Reply? then 1 else 0
    ensures Sends(h + [e]) == Sends(h) + if e.Sent? then 1 else 0
  {
    assert (h + [e])[..|h|] == h;
  }

  /** Numbers are sent in order, and only numbers already sent are answered. */
  ghost predicate Proper(h: seq<Event>) {
    h != [] ==>
      var p, e := h[..|h| - 1], h[|h| - 1];
      Proper(p) && if e.Sent? then e.n == Sends(p) % MAX_DUP_CHK else e.n < Sends(p)
  }

  // ---------- when the received count is the number of answers ----------

  predicate Twice(h: seq<Event>, i: nat, j: nat, k: nat) {
    i < j < k < |h| && h[i].Reply? && h[j] == Sent(h[i].n) && h[k] == h[i]
  }

  /** Some number was answered, then sent again, and answered again. */
  ghost predicate AnsweredTwice(h: seq<Event>) {
    exists i: nat, j: nat, k: nat :: Twice(h, i, j, k)
  }

  lemma {:induction false} AnsweredAt(h: seq<Event>, n: nat)
    ensures n in Answered(h) <==> exists i :: 0 <= i < |h| && h[i] == Reply(n)
  {
    if h != [] {
      var p := h[..|h| - 1];
      AnsweredAt(p, n);
      if n in Answered(p) {
        var i :| 0 <= i < |p| && p[i] == Reply(n);
        assert h[i] == Reply(n);
      }
      if i :| 0 <= i < |p| && h[i] == Reply(n) {
        assert p[i] == Reply(n);
      }
    }
  }

  /** A reply since the last send: every send of the number has a reply behind it. */
  lemma {:induction false} ReplyBehind(h: seq<Event>, n: nat, j: nat) returns (m: nat)
    requires AnsweredSince(h, n) && j < |h| && h[j] == Sent(n)
    ensures j < m < |h| && h[m] == Reply(n)
  {
    m := |h| - 1;
    if h[m].n != n {
      m := ReplyBehind(h[..m], n, j);
    }
  }

  /** No reply since the last send: every reply to the number has a send behind it. */
  lemma {:induction false} SendBehind(h: seq<Event>, n: nat, i: nat) returns (j: nat)
    requires !AnsweredSince(h, n) && i < |h| && h[i] == Reply(n)
    ensures i < j < |h| && h[j] == Sent(n)
  {
    j := |h| - 1;
    if h[j].n != n {
      j := SendBehind(h[..j], n, i);
    }
  }

  lemma {:induction false} ReplyInside(h: seq<Event>, n: nat)
    requires AnsweredSince(h, n)
    ensures n in Answered(h)
  {
    if h[|h| - 1].n != n {
      ReplyInside(h[..|h| - 1], n);
    }
  }

  lemma {:induction false} TwiceGrows(p: seq<Event>, e: Event)
    requires AnsweredTwice(p)
    ensures AnsweredTwice(p + [e])
  {
    var i: nat, j: nat, k: nat :| Twice(p, i, j, k);
    assert Twice(p + [e], i, j, k);
  }

  lemma {:induction false} TwiceNow(p: seq<Event>, e: Event)
    requires e.Reply? && e.n in Answered(p) && !AnsweredSince(p, e.n)
    ensures AnsweredTwice(p + [e])
  {
    hide Answered, AnsweredSince;
    AnsweredAt(p, e.n);
    var i: nat :| i < |p| && p[i] == Reply(e.n);
    var j := SendBehind(p, e.n, i);
    assert Twice(p + [e], i, j, |p|);
  }

  lemma {:induction false} TwiceBefore(p: seq<Event>, e: Event)
    requires AnsweredTwice(p + [e])
    ensures AnsweredTwice(p) || (e.Reply? && e.n in Answered(p) && !AnsweredSince(p, e.n))
  {
    hide Answered, AnsweredSince;
    var i: nat, j: nat, k: nat :| Twice(p + [e], i, j, k);
    if k < |p| {
      assert Twice(p, i, j, k);
    } else {
      assert p[i] == e && p[j] == Sent(e.n);
      AnsweredAt(p, e.n);
      if AnsweredSince(p, e.n) {
        var l := ReplyBehind(p, e.n, j);
        assert Twice(p, i, j, l);
      }
    }
  }

  /** One event more makes a number answered twice exactly when it is a reply that counts
      although the number was answered before. */
  lemma {:induction false} TwiceStep(p: seq<Event>, e: Event)
    ensures AnsweredTwice(p + [e])
      <==> AnsweredTwice(p) || (e.Reply? && e.n in Answered(p) && !AnsweredSince(p, e.n))
  {
    hide *;
    if AnsweredTwice(p) {
      TwiceGrows(p, e);
    } else if e.Reply? && e.n in Answered(p) && !AnsweredSince(p, e.n) {
      TwiceNow(p, e);
    }
    if AnsweredTwice(p + [e]) {
      TwiceBefore(p, e);
    }
  }

  /** In every history the replies that count are at least as many as the numbers answered,
      and as many exactly when no number was answered, sent again and answered again. */
  lemma {:induction false} CountExactly(h: seq<Event>)
    ensures First(h) >= |Answered(h)|
    ensures First(h) == |Answered(h)| <==> !AnsweredTwice(h)
  {
    if h == [] {
      EmptyCount();
    } else {
      var p, e := h[..|h| - 1], h[|h| - 1];
      assert h == p + [e];
      CountExactly(p);
      CountStep(p, e);
    }
  }

  lemma {:induction false} EmptyCount()
    ensures First([]) == 0 && Answered([]) == {} && !AnsweredTwice([])
  {
  }

  lemma {:induction false} CountStep(p: seq<Event>, e: Event)
    requires First(p) >= |Answered(p)| && (First(p) == |Answered(p)| <==> !AnsweredTwice(p))
    ensures First(p + [e]) >= |Answered(p + [e])|
    ensures First(p + [e]) == |Answered(p + [e])| <==> !AnsweredTwice(p + [e])
  {
    hide *;
    TwiceStep(p, e);
    Snoc(p, e, e.n);
    AnsweredSnoc(p, e);
    if e.Reply? && AnsweredSince(p, e.n) {
      ReplyInside(p, e.n);
    }
    if e.Reply? && e.n in Answered(p) {
      assert Answered(p) + {e.n} == Answered(p);
    }
  }

  // ---------- histories within one turn of the numbers ----------

  lemma {:induction false} ProperAt(h: seq<Event>, k: nat)
    requires Proper(h) && k < |h|
    ensures Sends(h[..k]) <= Sends(h)
    ensures if h[k].Sent? then h[k].n == Sends(h[..k]) % MAX_DUP_CHK && Sends(h[..k]) < Sends(h)
            else h[k].n < Sends(h[..k])
  {
    var n := |h| - 1;
    if k < n {
      ProperAt(h[..n], k);
      assert h[..n][..k] == h[..k];
    }
  }

  lemma {:induction false} ProperPrefix(h: seq<Event>, k: nat)
    requires Proper(h) && k <= |h|
    ensures Proper(h[..k])
    decreases |h|
  {
    var n := |h| - 1;
    if k == |h| {
      assert h[..k] == h;
    } else {
      ProperPrefix(h[..n], k);
      assert h[..n][..k] == h[..k];
    }
  }

  /** Within one turn no number is sent once it was answered. */
  lemma {:induction false} NotSentAgain(h: seq<Event>, i: nat, j: nat)
    requires Proper(h) && Sends(h) <= MAX_DUP_CHK && i < j < |h| && h[i].Reply?
    ensures h[j] != Sent(h[i].n)
  {
    hide Sends, Proper;
    ProperAt(h, j);
    ProperPrefix(h, j);
    ProperAt(h[..j], i);
    assert h[..j][..i] == h[..i];
  }

  /** With replies to numbers already sent, and within one turn of the sequence numbers, the
      first replies are as many as the numbers answered: no duplicate is counted, and none is
      missed. */
  lemma {:induction false} DistinctAnswers(h: seq<Event>)
    requires Proper(h) && Sends(h) <= MAX_DUP_CHK
    ensures First(h) == |Answered(h)|
    ensures forall n :: n in Answered(h) ==> n < Sends(h)
    ensures forall n :: AnsweredSince(h, n) <==> n in Answered(h)
  {
    hide First, Answered, AnsweredSince, Sends, Proper;
    CountExactly(h);
    if AnsweredTwice(h) {
      var i: nat, j: nat, k: nat :| Twice(h, i, j, k);
      NotSentAgain(h, i, j);
      assert false;
    }
    forall n: nat
      ensures n in Answered(h) ==> n < Sends(h)
      ensures AnsweredSince(h, n) <==> n in Answered(h)
    {
      AnsweredOnce(h, n);
    }
  }

  lemma {:induction false} AnsweredOnce(h: seq<Event>, n: nat)
    requires Proper(h) && Sends(h) <= MAX_DUP_CHK
    ensures n in Answered(h) ==> n < Sends(h)
    ensures AnsweredSince(h, n) <==> n in Answered(h)
  {
    hide First, Answered, AnsweredSince, Sends, Proper;
    if AnsweredSince(h, n) {
      ReplyInside(h, n);
    }
    if n in Answered(h) {
      AnsweredAt(h, n);
      var i :| 0 <= i < |h| && h[i] == Reply(n);
      ProperAt(h, i);
      if !AnsweredSince(h, n) {
        var j := SendBehind(h, n, i);
        NotSentAgain(h, i, j);
        assert false;
      }
    }
  }

  // ---------- the counters and the table ----------

  class Ping {
    const rcvdTbl: array<bv8>
    var ntransmitted: nat
    var nreceived: int
    var nrepeats: int
    ghost var history: seq<Event>

    /** A bit is set exactly when its number was answered since it was last sent; first
        replies and repeats are counted apart and together make up all replies. */
    ghost predicate Valid()
      reads this, rcvdTbl
    {
      && rcvdTbl.Length == MAX_DUP_CHK / 8
      && (forall n :: 0 <= n < MAX_DUP_CHK ==> (Tst(rcvdTbl[..], n) <==> AnsweredSince(history, n)))
      && ntransmitted == Sends(history)
      && nreceived == First(history) && nreceived + nrepeats == Replies(history)
    }

    constructor ()
      ensures Valid() && history == [] && fresh(rcvdTbl)
    {
      rcvdTbl := new bv8[MAX_DUP_CHK / 8](_ => 0);
      ntransmitted, nreceived, nrepeats, history := 0, 0, 0, [];
      new;
      Cleared(rcvdTbl[..]);
    }

    /** The counting part of pinger: icmp_seq is the low 16 bits of the running number. */
    method Pinger() returns (icmpSeq: nat)
      requires Valid()
      modifies this, rcvdTbl
      ensures Valid() && icmpSeq == old(ntransmitted) % MAX_DUP_CHK && history == old(history) + [Sent(icmpSeq)]
    {
      icmpSeq := ntransmitted % MAX_DUP_CHK;
      TableStep(rcvdTbl[..], history, icmpSeq);
      Snoc(history, Sent(icmpSeq), icmpSeq);
      hide Tst, AnsweredSince, First, Replies, Sends, ByteSet, ByteClr, ByteTst;
      ntransmitted := ntransmitted + 1;
      rcvdTbl[icmpSeq / 8] := ByteClr(rcvdTbl[icmpSeq / 8], icmpSeq % 8);
      history := history + [Sent(icmpSeq)];
      assert rcvdTbl[..] == Clr(old(rcvdTbl[..]), icmpSeq);
    }

    /** The counting part of pr_pack, for an echo reply with our identifier. */
    method PrPack(icmpSeq: nat) returns (dupflag: bool)
      requires Valid() && icmpSeq < MAX_DUP_CHK
      modifies this, rcvdTbl
      ensures Valid() && history == old(history) + [Reply(icmpSeq)]
      ensures dupflag <==> AnsweredSince(old(history), icmpSeq)
    {
      TableStep(rcvdTbl[..], history, icmpSeq);
      Snoc(history, Reply(icmpSeq), icmpSeq);
      dupflag := Tst(rcvdTbl[..], icmpSeq);
      hide Tst, AnsweredSince, First, Replies, Sends, ByteSet, ByteClr, ByteTst;
      nreceived := nreceived + 1;
      if dupflag {
        nrepeats := nrepeats + 1;
        nreceived := nreceived - 1;
      } else {
        rcvdTbl[icmpSeq / 8] := ByteSet(rcvdTbl[icmpSeq / 8], icmpSeq % 8);
        assert rcvdTbl[..] == Set(old(rcvdTbl[..]), icmpSeq);
      }
      history := history + [Reply(icmpSeq)];
    }
  }

  lemma {:induction false} Cleared(table: seq<bv8>)
    requires |table| == MAX_DUP_CHK / 8 && forall i :: 0 <= i < |table| ==> table[i] == 0
    ensures forall n :: 0 <= n < MAX_DUP_CHK ==> !Tst(table, n)
  {
    forall n | 0 <= n < MAX_DUP_CHK ensures !Tst(table, n) { assert table[n / 8] == 0; }
  }

  lemma {:induction false} TableStep(table: seq<bv8>, h: seq<Event>, bit: nat)
    requires |table| == MAX_DUP_CHK / 8 && bit < MAX_DUP_CHK
    requires forall n :: 0 <= n < MAX_DUP_CHK ==> (Tst(table, n) <==> AnsweredSince(h, n))
    ensures forall n :: 0 <= n < MAX_DUP_CHK ==> (Tst(Clr(table, bit), n) <==> AnsweredSince(h + [Sent(bit)], n))
    ensures forall n :: 0 <= n < MAX_DUP_CHK ==> (Tst(Set(table, bit), n) <==> AnsweredSince(h + [Reply(bit)], n))
    ensures Tst(table, bit) ==>
      forall n :: 0 <= n < MAX_DUP_CHK ==> (Tst(table, n) <==> AnsweredSince(h + [Reply(bit)], n))
  {
    hide Tst, AnsweredSince, First, Replies, Sends, Clr, Set;
    forall n | 0 <= n < MAX_DUP_CHK
      ensures Tst(Clr(table, bit), n) <==> AnsweredSince(h + [Sent(bit)], n)
      ensures Tst(Set(table, bit), n) <==> AnsweredSince(h + [Reply(bit)], n)
      ensures Tst(table, bit) ==> (Tst(table, n) <==> AnsweredSince(h + [Reply(bit)], n))
    {
      PackedBits(table, bit, n);
      Snoc(h, Sent(bit), n);
      Snoc(h, Reply(bit), n);
    }
  }

  // ---------- whole sessions ----------

  /** The range of icmp_seq. */
  type Seqno = n: int | 0 <= n < MAX_DUP_CHK

  /** What happens to the program: its timer sends, or a reply with some number comes in. */
  datatype Action = Send | Receive(n: Seqno)

  function CountSends(actions: seq<Action>): nat {
    if actions == [] then 0 else
      CountSends(actions[..|actions| - 1]) + if actions[|actions| - 1] == Send then 1 else 0
  }

  /** The history of a session. */
  function Recorded(actions: seq<Action>): seq<Event> {
    if actions == [] then [] else
      var h := Recorded(actions[..|actions| - 1]);
      match actions[|actions| - 1]
      case Send => h + [Sent(Sends(h) % MAX_DUP_CHK)]
      case Receive(n) => h + [Reply(n)]
  }

  /** Replies come only to numbers already sent. */
  ghost predicate Solicited(actions: seq<Action>) {
    actions != [] ==>
      var p, a := actions[..|actions| - 1], actions[|actions| - 1];
      Solicited(p) && (a.Receive? ==> a.n < CountSends(p))
  }

  lemma {:induction false} RecordedSends(actions: seq<Action>)
    ensures Sends(Recorded(actions)) == CountSends(actions)
  {
    if actions != [] {
      var h := Recorded(actions[..|actions| - 1]);
      RecordedSends(actions[..|actions| - 1]);
      assert forall e: Event :: (h + [e])[..|h|] == h;
    }
  }

  lemma {:induction false} RecordedProper(actions: seq<Action>)
    requires Solicited(actions)
    ensures Proper(Recorded(actions))
  {
    if actions != [] {
      var p := actions[..|actions| - 1];
      RecordedProper(p);
      RecordedSends(p);
      assert forall e: Event :: (Recorded(p) + [e])[..|Recorded(p)|] == Recorded(p);
    }
  }

  lemma {:induction false} RecordedNext(actions: seq<Action>, k: nat)
    requires k < |actions|
    ensures var h := Recorded(actions[..k]);
            Recorded(actions[..k + 1]) == match actions[k]
              case Send => h + [Sent(Sends(h) % MAX_DUP_CHK)]
              case Receive(n) => h + [Reply(n)]
  {
    assert actions[..k + 1][..k] == actions[..k];
  }

  /** A session over any sends and replies. The received count is the number of different
      numbers answered exactly when none was answered, sent again and answered again; with
      replies to numbers already sent that cannot happen within one turn of the numbers.
      Every other reply is counted as a repeat. */
  method Session(actions: seq<Action>) returns (p: Ping)
    ensures p.Valid() && p.history == Recorded(actions) && p.ntransmitted == CountSends(actions)
    ensures p.nreceived == First(Recorded(actions))
    ensures p.nreceived >= |Answered(Recorded(actions))|
    ensures p.nreceived == |Answered(Recorded(actions))| <==> !AnsweredTwice(Recorded(actions))
    ensures Solicited(actions) && CountSends(actions) <= MAX_DUP_CHK ==> p.nreceived == |Answered(Recorded(actions))|
    ensures p.nreceived + p.nrepeats == Replies(Recorded(actions))
  {
    hide Recorded, AnsweredSince, First, Replies, Sends, Tst, Proper, Answered, CountSends, Solicited,
      AnsweredTwice;
    p := new Ping();
    EmptyHistory(actions);
    for k := 0 to |actions|
      invariant p.Valid() && fresh(p) && fresh(p.rcvdTbl) && p.history == Recorded(actions[..k])
    {
      RecordedNext(actions, k);
      match actions[k] {
        case Send =>
          var icmpSeq := p.Pinger();
        case Receive(n) =>
          var dupflag := p.PrPack(n);
      }
    }
    assert actions[..|actions|] == actions;
    RecordedSends(actions);
    CountExactly(p.history);
    if Solicited(actions) && CountSends(actions) <= MAX_DUP_CHK {
      RecordedProper(actions);
      DistinctAnswers(p.history);
    }
  }

  /** One reply to the first number, then the rest of a turn of sends. */
  function Turn(n: nat): seq<Action> {
    if n == 0 then [] else if n == 1 then [Send, Receive(0)] else Turn(n - 1) + [Send]
  }

  lemma {:induction false} TurnRecorded(n: nat)
    requires 1 <= n <= MAX_DUP_CHK
    ensures var h := Recorded(Turn(n));
            Sends(h) == n && First(h) == 1 && Answered(h) == {0} && Replies(h) == 1
  {
    hide AnsweredSince;
    if n == 1 {
      FirstAnswer();
    } else {
      TurnRecorded(n - 1);
      var a := Turn(n - 1);
      assert (a + [Send])[..|a|] == a;
      var h := Recorded(a);
      assert (h + [Sent(n - 1)])[..|h|] == h;
    }
  }

  lemma {:induction false} FirstAnswer()
    ensures var h := Recorded(Turn(1));
            Sends(h) == 1 && First(h) == 1 && Answered(h) == {0} && Replies(h) == 1
  {
    hide Recorded, First, Answered, Replies, AnsweredSince, Sends;
    var c := [Send, Receive(0)];
    assert Turn(1) == c && c[..2] == c;
    EmptyHistory(c);
    RecordedNext(c, 0);
    RecordedNext(c, 1);
    Snoc([], Sent(0), 0);
    Snoc([] + [Sent(0)], Reply(0), 0);
    AnsweredSnoc([], Sent(0));
    AnsweredSnoc([] + [Sent(0)], Reply(0));
  }

  lemma {:induction false} EmptyHistory(actions: seq<Action>)
    ensures Recorded(actions[..0]) == [] && Sends([]) == First([]) == Replies([]) == 0 && Answered([]) == {}
  {
  }

  /** The bound is exact: with one send more, a number that was answered before and after
      its second send counts twice. */
  lemma {:induction false} SecondTurn()
    ensures var actions := Turn(MAX_DUP_CHK) + [Send, Receive(0)];
            && Solicited(actions) && CountSends(actions) == MAX_DUP_CHK + 1
            && First(Recorded(actions)) == 2 && Answered(Recorded(actions)) == {0}
  {
    hide Turn, Recorded, First, Answered, Replies, AnsweredSince, CountSends, Sends, Solicited;
    var a := Turn(MAX_DUP_CHK);
    var b := a + [Send];
    var c := b + [Receive(0)];
    TurnRecorded(MAX_DUP_CHK);
    assert c == a + [Send, Receive(0)] && c[..|b|] == b && c[..|a| + 1] == b && c[..|a|] == a;
    RecordedNext(c, |a|);
    RecordedNext(c, |b|);
    assert c[..|c|] == c;
    var h := Recorded(a);
    Snoc(h, Sent(0), 0);
    Snoc(h + [Sent(0)], Reply(0), 0);
    AnsweredSnoc(h, Sent(0));
    AnsweredSnoc(h + [Sent(0)], Reply(0));
    RecordedSends(a);
    RecordedSends(c);
    TurnSolicited(MAX_DUP_CHK);
    SolicitedNext(c, |a|);
    SolicitedNext(c, |b|);
    RecordedSends(b);
  }

  lemma {:induction false} SolicitedNext(actions: seq<Action>, k: nat)
    requires k < |actions|
    ensures Solicited(actions[..k + 1])
      <==> Solicited(actions[..k]) && (actions[k].Receive? ==> actions[k].n < CountSends(actions[..k]))
  {
    assert actions[..k + 1][..k] == actions[..k];
  }

  lemma {:induction false} TurnSolicited(n: nat)
    ensures Solicited(Turn(n))
  {
    if n == 1 {
      var c := [Send, Receive(0)];
      assert c[..2] == c && c[..0] == [] && c[..1] == [Send] && [Send][..0] == [];
      assert Solicited([Send]) && CountSends([Send]) == 1;
    } else if n > 1 {
      TurnSolicited(n - 1);
      assert (Turn(n - 1) + [Send])[..|Turn(n - 1)|] == Turn(n - 1);
    }
  }

  /** A reply before the number is sent: one send, and two answers to one number count. */
  lemma {:induction false} EarlyReply()
    ensures var actions := [Receive(0), Send, Receive(0)];
            && CountSends(actions) == 1 && AnsweredTwice(Recorded(actions))
            && First(Recorded(actions)) == 2 && Answered(Recorded(actions)) == {0}
  {
    hide Recorded, First, Answered, Replies, AnsweredSince, Sends, CountSends;
    var c := [Receive(0), Send, Receive(0)];
    var a, b := [] + [Reply(0)], [] + [Reply(0)] + [Sent(0)];
    EmptyHistory(c);
    Snoc([], Reply(0), 0);
    Snoc(a, Sent(0), 0);
    Snoc(b, Reply(0), 0);
    AnsweredSnoc([], Reply(0));
    AnsweredSnoc(a, Sent(0));
    AnsweredSnoc(b, Reply(0));
    assert !AnsweredSince([], 0) by { NeverAnswered(); }
    RecordedNext(c, 0);
    RecordedNext(c, 1);
    RecordedNext(c, 2);
    assert c[..3] == c;
    RecordedSends(c);
    var h := Recorded(c);
    assert h == b + [Reply(0)] && h[0] == Reply(0) && h[1] == Sent(0) && h[2] == Reply(0);
    assert Twice(h, 0, 1, 2);
  }

  lemma {:induction false} NeverAnswered()
    ensures !AnsweredSince([], 0)
  {
  }

  lemma {:induction false} AnsweredSnoc(h: seq<Event>, e: Event)
    ensures Answered(h + [e]) == Answered(h) + if e.Reply? then {e.n} else {}
  {
    assert (h + [e])[..|h|] == h;
  }
}
