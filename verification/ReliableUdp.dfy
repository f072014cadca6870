/**
 Request and reply over UDP: dg_send_recv with its sequence numbers, timestamps and
 retransmissions, the echo server, and a network that loses, duplicates, delays and
 reorders. A datagram that was ever sent may be delivered any number of times, or
 never, at any later time. Datagrams too short for a header may arrive from anywhere.
 */
module ReliableUdp {
  import opened Basics
  import R = Rtt

  const HDR: nat := 8
  const WORD: nat := 0x1_0000_0000

  datatype Datagram = Msg(seqno: nat, ts: nat, data: seq<Byte>) | Runt(n: nat)

  function Take(d: seq<Byte>, n: int): seq<Byte> {
    if n <= 0 then [] else if |d| <= n then d else d[..n]
  }

  /** The server reads at most MAXLINE bytes and sends back what it read. */
  function Echo(d: Datagram): Datagram {
    match d
    case Msg(q, t, data) => Msg(q, t, Take(data, MAXLINE - HDR))
    case Runt(n) => Runt(n)
  }

  /** Milliseconds of a clock that counts microseconds. */
  function Millis(clock: nat): nat {
    clock / 1000
  }

  /** rtt_ts: milliseconds since rtt_init, as a 32-bit number. */
  function Stamp(clock: nat, base: nat): nat {
    (Millis(clock) - base * 1000) % WORD
  }

  /** One copy of a request put on the network: in which call, with what stamp, when. */
  datatype Copy = Copy(call: nat, ts: nat, at: nat, base: nat)

  datatype Request = Request(data: seq<Byte>, inbytes: nat)

  /** How a call ended: with a reply, the bytes stored, the time in milliseconds and the
      sample given to the estimator; or without an answer. */
  datatype Outcome = Answered(call: nat, reply: Datagram, got: seq<Byte>, at: nat, ms: nat) | GaveUp(call: nat)

  datatype Phase = Idle | Sending | Waiting | Matched(reply: Datagram)

  /** `calls`, `copies` and `log` are histories; the rest is the client's static data,
      the clock and the network. */
  datatype State = State(
    clock: nat, rttinit: bool, info: R.Info, seqno: nat, phase: Phase, alarm: int,
    toServer: set<Datagram>, toClient: set<Datagram>,
    calls: seq<Request>, copies: seq<Copy>, log: seq<Outcome>)

  datatype Step =
    | Tick(dt: nat)
    | Call(request: Request)
    | Send
    | Serve(d: Datagram)
    | Noise(n: nat)
    | Receive(d: Datagram)
    | Expire
    | Finish

  function Init(clock: nat): State {
    State(clock, false, R.Info(0.0, 0.0, 0.0, 0.0, 0, 0), 0, Idle, 0, {}, {}, [], [], [])
  }

  predicate Enabled(s: State, a: Step) {
    match a
    case Tick(_) => true
    case Call(_) => s.phase == Idle
    case Send => s.phase == Sending
    case Serve(d) => d in s.toServer
    case Noise(n) => n < HDR
    case Receive(d) => s.phase == Waiting && d in s.toClient
    case Expire => s.phase == Waiting || s.phase.Matched? // SIGALRM, until alarm(0)
    case Finish => s.phase.Matched?
  }

  /** The request on the wire. */
  function Wire(c: Copy, r: Request): Datagram {
    Msg(c.call % WORD, c.ts, r.data)
  }

  predicate Shaped(s: State) {
    (s.phase != Idle ==> s.calls != []) && (s.phase.Matched? ==> s.phase.reply.Msg?)
  }

  function Apply(s: State, a: Step): State
    requires Shaped(s) && Enabled(s, a)
  {
    match a
    case Tick(dt) => s.(clock := s.clock + dt)
    case Call(request) =>
      var i := if s.rttinit then s.info else R.Initial(s.clock / 1000000, s.info.nrexmt);
      s.(rttinit := true, info := R.NewPack(i), seqno := (s.seqno + 1) % WORD, phase := Sending,
          calls := s.calls + [request])
    case Send =>
      var ts := Stamp(s.clock, s.info.base);
      s.(toServer := s.toServer + {Msg(s.seqno, ts, s.calls[|s.calls| - 1].data)},
         copies := s.copies + [Copy(|s.calls|, ts, Millis(s.clock), s.info.base)],
         alarm := R.Start(s.info), phase := Waiting)
    case Serve(d) => s.(toClient := s.toClient + {Echo(d)})
    case Noise(n) => s.(toClient := s.toClient + {Runt(n)})
    case Receive(d) => if d.Msg? && d.seqno == s.seqno then s.(phase := Matched(d)) else s
    case Expire =>
      var i := R.Timeout(s.info);
      if i.nrexmt > R.MAXNREXMT then
        s.(info := i, rttinit := false, phase := Idle, log := s.log + [GaveUp(|s.calls|)])
      else s.(info := i, phase := Sending)
    case Finish =>
      var ms := (Stamp(s.clock, s.info.base) - s.phase.reply.ts) % WORD;
      var got := Take(s.phase.reply.data, s.calls[|s.calls| - 1].inbytes);
      s.(info := R.Stop(s.info, ms), phase := Idle,
          log := s.log + [Answered(|s.calls|, s.phase.reply, got, Millis(s.clock), ms)])
  }

  // ---------- what is on the network ----------

  ghost predicate IsRequest(d: Datagram, copies: seq<Copy>, calls: seq<Request>, k: nat) {
    k < |copies| && 1 <= copies[k].call <= |calls| && d == Wire(copies[k], calls[copies[k].call - 1])
  }

  ghost predicate IsReply(d: Datagram, copies: seq<Copy>, calls: seq<Request>, k: nat) {
    k < |copies| && 1 <= copies[k].call <= |calls| && d == Echo(Wire(copies[k], calls[copies[k].call - 1]))
  }

  ghost predicate Requested(d: Datagram, copies: seq<Copy>, calls: seq<Request>) {
    exists k :: IsRequest(d, copies, calls, k)
  }

  ghost predicate Replied(d: Datagram, copies: seq<Copy>, calls: seq<Request>) {
    exists k :: IsReply(d, copies, calls, k)
  }

  /** Every datagram goes back to a copy that was sent. */
  ghost predicate Network(s: State) {
    && s.seqno == |s.calls| % WORD
    && (forall d :: d in s.toServer ==> Requested(d, s.copies, s.calls))
    && (forall d :: d in s.toClient ==> d.Runt? || Replied(d, s.copies, s.calls))
    && (s.phase.Matched? ==>
          s.phase.reply.Msg? && s.phase.reply.seqno == s.seqno && Replied(s.phase.reply, s.copies, s.calls))
  }

  /** The stamps on the copies tell when they were sent, relative to the base of their call. */
  ghost predicate Stamped(s: State) {
    forall k :: 0 <= k < |s.copies| ==>
      var c := s.copies[k];
      && 1 <= c.call <= |s.calls| && c.at <= Millis(s.clock) && c.ts == (c.at - c.base * 1000) % WORD
      && (c.call == |s.calls| && s.phase != Idle ==> c.base == s.info.base)
  }

  lemma {:induction false} Grow(d: Datagram, copies: seq<Copy>, calls: seq<Request>, moreCopies: seq<Copy>,
      moreCalls: seq<Request>)
    ensures Requested(d, copies, calls) ==> Requested(d, copies + moreCopies, calls + moreCalls)
    ensures Replied(d, copies, calls) ==> Replied(d, copies + moreCopies, calls + moreCalls)
  {
    if Requested(d, copies, calls) {
      var k :| IsRequest(d, copies, calls, k);
      assert IsRequest(d, copies + moreCopies, calls + moreCalls, k);
    }
    if Replied(d, copies, calls) {
      var k :| IsReply(d, copies, calls, k);
      assert IsReply(d, copies + moreCopies, calls + moreCalls, k);
    }
  }

  lemma {:induction false} CallNetwork(s: State, r: Request)
    requires Shaped(s) && Network(s) && Enabled(s, Call(r))
    ensures Network(Apply(s, Call(r)))
  {
    hide Requested, Replied;
    assert (|s.calls| % WORD + 1) % WORD == (|s.calls| + 1) % WORD;
    forall d | d in s.toServer || d in s.toClient {
      Grow(d, s.copies, s.calls, [], [r]);
    }
    assert s.copies + [] == s.copies;
  }

  lemma {:induction false} SendNetwork(s: State)
    requires Shaped(s) && Network(s) && Enabled(s, Send)
    ensures Network(Apply(s, Send))
  {
    hide Requested, Replied;
    var t := Apply(s, Send);
    var c := t.copies[|s.copies|];
    forall d | d in s.toServer || d in s.toClient {
      Grow(d, s.copies, s.calls, [c], []);
    }
    assert s.calls + [] == s.calls;
    var d := Msg(s.seqno, c.ts, s.calls[|s.calls| - 1].data);
    NewRequest(d, t.copies, t.calls, |s.copies|);
  }

  lemma {:induction false} NewRequest(d: Datagram, copies: seq<Copy>, calls: seq<Request>, k: nat)
    requires IsRequest(d, copies, calls, k)
    ensures Requested(d, copies, calls)
  {
  }

  lemma {:induction false} ServeNetwork(s: State, d: Datagram)
    requires Shaped(s) && Network(s) && Enabled(s, Serve(d))
    ensures Network(Apply(s, Serve(d)))
  {
    var k :| IsRequest(d, s.copies, s.calls, k);
    assert IsReply(Echo(d), s.copies, s.calls, k);
  }

  lemma {:induction false} NetworkStep(s: State, a: Step)
    requires Shaped(s) && Network(s) && Enabled(s, a)
    ensures Shaped(Apply(s, a)) && Network(Apply(s, a))
  {
    hide Requested, Replied;
    match a
    case Call(r) => CallNetwork(s, r);
    case Send => SendNetwork(s);
    case Serve(d) => ServeNetwork(s, d);
    case _ =>
  }

  lemma {:induction false} StampedStep(s: State, a: Step)
    requires Shaped(s) && Stamped(s) && Enabled(s, a)
    ensures Stamped(Apply(s, a))
  {
    if a.Tick? {
      assert Millis(s.clock) <= Millis(s.clock + a.dt);
    }
  }

  // ---------- what the calls return ----------

  /** The reply answers copy k, and the sample is the time since that copy was sent. */
  ghost predicate SampleOf(o: Outcome, copies: seq<Copy>, calls: seq<Request>, k: nat)
    requires o.Answered?
  {
    IsReply(o.reply, copies, calls, k) && copies[k].call == o.call && copies[k].at <= o.at
        && o.ms == (o.at - copies[k].at) % WORD
  }

  /** The reply answers copy k, of a call with the same number modulo 2^32. */
  ghost predicate Numbered(o: Outcome, copies: seq<Copy>, calls: seq<Request>, k: nat)
    requires o.Answered?
  {
    IsReply(o.reply, copies, calls, k) && copies[k].call <= o.call && copies[k].call % WORD == o.call % WORD
  }

  /** An answered call got the request of a call with its number back, cut to the server's and to
      its own buffer; among the first 2^32 that is its own. */
  ghost predicate Honest(o: Outcome, copies: seq<Copy>, calls: seq<Request>) {
    o.Answered? ==>
      && 1 <= o.call <= |calls|
      && o.reply.Msg? && o.got == Take(o.reply.data, calls[o.call - 1].inbytes)
      && (exists k :: Numbered(o, copies, calls, k))
      && (o.call <= WORD ==>
            && o.got == Take(Take(calls[o.call - 1].data, MAXLINE - HDR), calls[o.call - 1].inbytes)
            && exists k :: SampleOf(o, copies, calls, k))
  }

  ghost predicate HonestLog(s: State) {
    forall j :: 0 <= j < |s.log| ==> Honest(s.log[j], s.copies, s.calls)
  }

  lemma {:induction false} HonestGrow(o: Outcome, copies: seq<Copy>, calls: seq<Request>, moreCopies: seq<Copy>,
      moreCalls: seq<Request>)
    requires Honest(o, copies, calls)
    ensures Honest(o, copies + moreCopies, calls + moreCalls)
  {
    if o.Answered? {
      var i :| Numbered(o, copies, calls, i);
      assert Numbered(o, copies + moreCopies, calls + moreCalls, i);
      if o.call <= WORD {
        var k :| SampleOf(o, copies, calls, k);
        assert SampleOf(o, copies + moreCopies, calls + moreCalls, k);
      }
    }
  }

  lemma {:induction false} SameCall(a: nat, b: nat)
    requires 1 <= a <= b <= WORD && a % WORD == b % WORD
    ensures a == b
  {
  }

  lemma {:induction false} StampDifference(now: int, at: int, b: int)
    ensures ((now - b) % WORD - (at - b) % WORD) % WORD == (now - at) % WORD
  {
    var x, y := now - b, at - b;
    var p, q := x / WORD, y / WORD;
    assert x == WORD * p + x % WORD && y == WORD * q + y % WORD;
    ModWord(x % WORD - y % WORD, p - q);
    assert (x % WORD - y % WORD) + WORD * (p - q) == now - at;
  }

  lemma {:induction false} ModWord(x: int, k: int)
    ensures (x + WORD * k) % WORD == x % WORD
  {
    assert (x + 0x1_0000_0000 * k) % 0x1_0000_0000 == x % 0x1_0000_0000;
  }

  /** The reply that ends a call is the echo of a copy of that very call. */
  lemma {:induction false} FinishHonest(s: State)
    requires Shaped(s) && Network(s) && Stamped(s) && Enabled(s, Finish)
    ensures var t := Apply(s, Finish); Honest(t.log[|s.log|], t.copies, t.calls)
  {
    var d := s.phase.reply;
    var k: nat :| IsReply(d, s.copies, s.calls, k);
    var c := s.copies[k];
    var t := Apply(s, Finish);
    var o := t.log[|s.log|];
    assert Numbered(o, s.copies, s.calls, k);
    if |s.calls| <= WORD {
      SameCall(c.call, |s.calls|);
      StampDifference(Millis(s.clock), c.at, c.base * 1000);
      assert SampleOf(o, s.copies, s.calls, k);
    }
  }

  lemma {:induction false} HonestStep(s: State, a: Step)
    requires Shaped(s) && Network(s) && Stamped(s) && HonestLog(s) && Enabled(s, a)
    ensures HonestLog(Apply(s, a))
  {
    hide Honest, Network, Stamped;
    var t := Apply(s, a);
    var moreCopies := t.copies[|s.copies|..];
    var moreCalls := t.calls[|s.calls|..];
    assert t.copies == s.copies + moreCopies && t.calls == s.calls + moreCalls;
    forall j | 0 <= j < |s.log| {
      HonestGrow(s.log[j], s.copies, s.calls, moreCopies, moreCalls);
    }
    if a == Finish {
      FinishHonest(s);
    } else if a == Expire {
      GaveUpHonest(|s.calls|, s.copies, s.calls);
    }
  }

  lemma {:induction false} GaveUpHonest(call: nat, copies: seq<Copy>, calls: seq<Request>)
    ensures Honest(GaveUp(call), copies, calls)
  {
  }

  // ---------- retransmissions and timers ----------

  ghost function CopiesOf(copies: seq<Copy>, call: nat): nat {
    if copies == [] then 0 else
      CopiesOf(copies[..|copies| - 1], call) + if copies[|copies| - 1].call == call then 1 else 0
  }

  lemma {:induction false} CopiesSnoc(copies: seq<Copy>, c: Copy, call: nat)
    ensures CopiesOf(copies + [c], call) == CopiesOf(copies, call) + if c.call == call then 1 else 0
  {
    assert (copies + [c])[..|copies|] == copies;
  }

  lemma {:induction false} NoCopiesYet(copies: seq<Copy>, call: nat)
    requires forall k :: 0 <= k < |copies| ==> copies[k].call < call
    ensures CopiesOf(copies, call) == 0
  {
    if copies != [] {
      NoCopiesYet(copies[..|copies| - 1], call);
    }
  }

  /** At most four copies per call; the current call has one per retransmission and one
      more once the last is out. */
  ghost predicate FewCopies(s: State) {
    && (forall c :: CopiesOf(s.copies, c) <= 4)
    && (s.phase != Idle ==>
          && 0 <= s.info.nrexmt <= R.MAXNREXMT
          && CopiesOf(s.copies, |s.calls|) == s.info.nrexmt + if s.phase == Sending then 0 else 1)
  }

  lemma {:induction false} FewCopiesStep(s: State, a: Step)
    requires Shaped(s) && Stamped(s) && FewCopies(s) && Enabled(s, a)
    ensures FewCopies(Apply(s, a))
  {
    var t := Apply(s, a);
    if a.Call? {
      NoCopiesYet(s.copies, |s.calls| + 1);
    } else if a == Send {
      forall c: nat
        ensures CopiesOf(t.copies, c) == CopiesOf(s.copies, c) + if c == |s.calls| then 1 else 0
      {
        CopiesSnoc(s.copies, t.copies[|s.copies|], c);
      }
    }
  }

  /** The largest sample so far, in seconds. */
  ghost function Largest(log: seq<Outcome>): real {
    if log == [] then 0.0 else
      var o := log[|log| - 1];
      R.Max(Largest(log[..|log| - 1]), if o.Answered? then o.ms as real / 1000.0 else 0.0)
  }

  lemma {:induction false} LargestSnoc(log: seq<Outcome>, o: Outcome)
    ensures Largest(log + [o]) == R.Max(Largest(log), if o.Answered? then o.ms as real / 1000.0 else 0.0)
    ensures Largest(log) >= 0.0
  {
    assert (log + [o])[..|log|] == log;
    LargestPositive(log);
  }

  lemma {:induction false} LargestPositive(log: seq<Outcome>)
    ensures Largest(log) >= 0.0
  {
    if log != [] {
      LargestPositive(log[..|log| - 1]);
    }
  }

  /** Timeouts double from a base inside [2, 60]; estimators stay within the samples. */
  ghost predicate Timed(s: State) {
    && (s.phase != Idle ==> s.rttinit && s.info.nrexmt >= 0 && R.TimerScale(s.info, s.info.nrexmt))
    && (s.phase == Idle && s.rttinit ==> R.TimerScale(s.info, 0))
    && (s.phase == Waiting || s.phase.Matched? ==> 2 * R.Pow2(s.info.nrexmt) <= s.alarm <= 60 * R.Pow2(s.info.nrexmt))
    && (s.rttinit ==> R.Bounded(s.info, Largest(s.log)))
  }

  lemma {:induction false} TimedStep(s: State, a: Step)
    requires Shaped(s) && Timed(s) && Enabled(s, a)
    ensures Timed(Apply(s, a))
  {
    var t := Apply(s, a);
    match a
    case Call(_) => LargestPositive(s.log);
    case Send => R.StartScale(s.info, s.info.nrexmt);
    case Expire =>
      R.TimeoutScale(s.info, s.info.nrexmt);
      LargestSnoc(s.log, GaveUp(|s.calls|));
    case Finish =>
      var o := t.log[|s.log|];
      LargestSnoc(s.log, o);
      R.StopBounded(s.info, Largest(s.log), o.ms);
    case _ =>
  }

  // ---------- every run ----------

  ghost predicate Inv(s: State) {
    Shaped(s) && Network(s) && Stamped(s) && HonestLog(s) && FewCopies(s) && Timed(s)
  }

  lemma {:induction false} InvStep(s: State, a: Step)
    requires Inv(s) && Enabled(s, a)
    ensures Inv(Apply(s, a))
  {
    hide Network, Stamped, HonestLog, FewCopies, Timed, Apply;
    NetworkStep(s, a);
    StampedStep(s, a);
    HonestStep(s, a);
    FewCopiesStep(s, a);
    TimedStep(s, a);
  }

  ghost predicate IsRun(clock: nat, steps: seq<Step>, states: seq<State>) {
    && |states| == |steps| + 1 && states[0] == Init(clock)
    && forall k :: 0 <= k < |steps| ==>
         Shaped(states[k]) && Enabled(states[k], steps[k]) && states[k + 1] == Apply(states[k], steps[k])
  }

  lemma {:induction false} RunKeepsInv(clock: nat, steps: seq<Step>, states: seq<State>, k: nat)
    requires IsRun(clock, steps, states) && k < |states|
    ensures Inv(states[k])
  {
    hide Inv, Apply, Enabled;
    if k == 0 {
      InitInv(clock);
    } else {
      RunKeepsInv(clock, steps, states, k - 1);
      InvStep(states[k - 1], steps[k - 1]);
    }
  }

  lemma {:induction false} InitInv(clock: nat)
    ensures Inv(Init(clock))
  {
  }

  lemma {:induction false} ShortElapsed(elapsed: nat)
    requires elapsed < WORD
    ensures elapsed % WORD == elapsed
  {
  }

  /** In every run, each of the first 2^32 calls that is answered returns the echo of its
      own request: all of it when it fits both buffers. Its sample is the time since the
      copy that was answered was sent; in full when that was less than 2^32 ms ago. */
  lemma {:induction false} OwnEcho(clock: nat, steps: seq<Step>, states: seq<State>, k: nat, j: nat) returns (copy: nat)
    requires IsRun(clock, steps, states) && k < |states| && j < |states[k].log|
    requires states[k].log[j].Answered? && states[k].log[j].call <= WORD
    ensures var s, o := states[k], states[k].log[j];
      && 1 <= o.call <= |s.calls| && copy < |s.copies| && s.copies[copy].call == o.call && s.copies[copy].at <= o.at
      && var r := s.calls[o.call - 1];
         && o.reply == Echo(Wire(s.copies[copy], r)) && o.got <= r.data
         && (|r.data| <= MAXLINE - HDR && |r.data| <= r.inbytes ==> o.got == r.data)
         && (o.at - s.copies[copy].at < WORD ==> o.ms == o.at - s.copies[copy].at)
  {
    hide IsRun, Network, Stamped, FewCopies, Timed;
    RunKeepsInv(clock, steps, states, k);
    var s, o := states[k], states[k].log[j];
    assert Honest(o, s.copies, s.calls);
    var c: nat :| SampleOf(o, s.copies, s.calls, c);
    copy := c;
    if o.at - s.copies[c].at < WORD {
      ShortElapsed(o.at - s.copies[c].at);
    }
  }

  /** In every run, every answered call, however late, returns the echo of a copy of some call
      with the same sequence number, its own or one a multiple of 2^32 calls before. */
  lemma {:induction false} SameNumber(clock: nat, steps: seq<Step>, states: seq<State>, k: nat, j: nat)
    returns (copy: nat)
    requires IsRun(clock, steps, states) && k < |states| && j < |states[k].log| && states[k].log[j].Answered?
    ensures var s, o := states[k], states[k].log[j];
      && 1 <= o.call <= |s.calls| && copy < |s.copies| && 1 <= s.copies[copy].call <= o.call
      && s.copies[copy].call % WORD == o.call % WORD
      && o.reply == Echo(Wire(s.copies[copy], s.calls[s.copies[copy].call - 1]))
      && o.got == Take(o.reply.data, s.calls[o.call - 1].inbytes)
  {
    hide IsRun, Network, Stamped, FewCopies, Timed, Take, Echo, Wire;
    RunKeepsInv(clock, steps, states, k);
    var s, o := states[k], states[k].log[j];
    assert Honest(o, s.copies, s.calls);
    var c: nat :| Numbered(o, s.copies, s.calls, c);
    copy := c;
  }

  /** In every run, no call sends more than four copies, the timer of the k-th
      retransmission lies in [2 * 2^k, 60 * 2^k] seconds, and the estimators stay within
      the samples seen. */
  lemma {:induction false} TimersAndEstimators(clock: nat, steps: seq<Step>, states: seq<State>, k: nat)
    requires IsRun(clock, steps, states) && k < |states|
    ensures var s := states[k];
      && (forall c :: CopiesOf(s.copies, c) <= 4)
      && (s.phase == Waiting || s.phase.Matched? ==>
            0 <= s.info.nrexmt <= 3 && 2 * R.Pow2(s.info.nrexmt) <= s.alarm <= 60 * R.Pow2(s.info.nrexmt))
      && (s.rttinit ==> 0.0 <= s.info.srtt <= Largest(s.log) && 0.0 <= s.info.rttvar <= R.Max(0.75, Largest(s.log)))
  {
    hide IsRun, Network, Stamped, HonestLog;
    RunKeepsInv(clock, steps, states, k);
  }

  // ---------- the estimators remember ----------

  /** The estimators the answers so far call for: fresh ones at first and after a call that
      gave up, and one sample more for every answer since. */
  ghost function Estimated(log: seq<Outcome>): R.Info {
    if log == [] || log[|log| - 1].GaveUp? then R.Initial(0, 0)
    else R.Stop(Estimated(log[..|log| - 1]), log[|log| - 1].ms)
  }

  ghost predicate Remembers(s: State) {
    && (s.phase != Idle ==> s.rttinit && s.info.nrexmt >= 0)
    && (!s.rttinit ==> s.log == [] || s.log[|s.log| - 1].GaveUp?)
    && (s.rttinit ==>
          && s.info.srtt == Estimated(s.log).srtt && s.info.rttvar == Estimated(s.log).rttvar
          && s.info.rto == Estimated(s.log).rto * R.Pow2(if s.phase == Idle then 0 else s.info.nrexmt) as real)
  }

  lemma {:induction false} EstimatedSnoc(log: seq<Outcome>, o: Outcome)
    ensures Estimated(log + [o]) == if o.GaveUp? then R.Initial(0, 0) else R.Stop(Estimated(log), o.ms)
  {
    assert (log + [o])[..|log|] == log;
  }

  lemma {:induction false} RemembersStep(s: State, a: Step)
    requires Shaped(s) && Remembers(s) && Enabled(s, a)
    ensures Remembers(Apply(s, a))
  {
    match a
    case Finish => RemembersFinish(s);
    case Expire => RemembersExpire(s);
    case _ =>
      hide Estimated, Stamp, Take, Echo;
      assert R.Pow2(0) == 1;
  }

  lemma {:induction false} RemembersFinish(s: State)
    requires Shaped(s) && Remembers(s) && Enabled(s, Finish)
    ensures Remembers(Apply(s, Finish))
  {
    var t := Apply(s, Finish);
    EstimatedSnoc(s.log, t.log[|s.log|]);
    hide Estimated, Stamp, Take, Echo;
    assert R.Pow2(0) == 1;
  }

  lemma {:induction false} RemembersExpire(s: State)
    requires Shaped(s) && Remembers(s) && Enabled(s, Expire)
    ensures Remembers(Apply(s, Expire))
  {
    hide Estimated;
    DoubledTimer(Estimated(s.log).rto, s.info.nrexmt);
    hide R.Pow2;
  }

  lemma {:induction false} DoubledTimer(x: real, n: nat)
    ensures x * R.Pow2(n) as real * 2.0 == x * R.Pow2(n + 1) as real
  {
    assert R.Pow2(n + 1) == 2 * R.Pow2(n);
  }

  /** In every run, while the estimators are in use they are those of the samples since the
      last call that gave up, from call to call; the timer is doubled for every timeout of
      the call under way. */
  lemma {:induction false} EstimatorsFold(clock: nat, steps: seq<Step>, states: seq<State>, k: nat)
    requires IsRun(clock, steps, states) && k < |states|
    ensures Remembers(states[k])
  {
    hide Apply, Enabled, Shaped, Remembers;
    if k == 0 {
      RemembersStart(clock);
    } else {
      EstimatorsFold(clock, steps, states, k - 1);
      RemembersStep(states[k - 1], steps[k - 1]);
    }
  }

  lemma {:induction false} RemembersStart(clock: nat)
    ensures Remembers(Init(clock))
  {
  }

  /** What a buffer of n bytes takes of a payload. */
  lemma {:induction false} TakeFits(d: seq<Byte>, n: nat)
    ensures Take(d, n) <= d && |Take(d, n)| == if |d| <= n then |d| else n
  {
  }

  // ---------- why not more calls ----------

  ghost predicate Reachable(clock: nat, s: State) {
    exists steps, states :: IsRun(clock, steps, states) && states[|steps|] == s
  }

  lemma {:induction false} ReachStart(clock: nat)
    ensures Reachable(clock, Init(clock))
  {
    assert IsRun(clock, [], [Init(clock)]);
  }

  lemma {:induction false} Reach(clock: nat, s: State, a: Step)
    requires Reachable(clock, s) && Shaped(s) && Enabled(s, a)
    ensures Reachable(clock, Apply(s, a))
  {
    hide Apply, Enabled, Shaped;
    var steps, states :| IsRun(clock, steps, states) && states[|steps|] == s;
    var steps', states' := steps + [a], states + [Apply(s, a)];
    forall k | 0 <= k < |steps'|
      ensures Shaped(states'[k]) && Enabled(states'[k], steps'[k]) && states'[k + 1] == Apply(states'[k], steps'[k])
    {
      assert k < |steps| ==> states'[k] == states[k] && states'[k + 1] == states[k + 1] && steps'[k] == steps[k];
    }
    assert IsRun(clock, steps', states') && states'[|steps'|] == Apply(s, a);
  }

  /** From any waiting point the network may stay silent until the call gives up. */
  lemma {:induction false} Silence(clock: nat, s: State) returns (t: State)
    requires Reachable(clock, s) && Shaped(s) && s.phase == Sending
    ensures Reachable(clock, t) && Shaped(t) && t.phase == Idle && t.seqno == s.seqno && t.calls == s.calls
        && s.toClient <= t.toClient
    decreases R.MAXNREXMT - s.info.nrexmt
  {
    Reach(clock, s, Send);
    var u := Apply(s, Send);
    Reach(clock, u, Expire);
    t := Apply(u, Expire);
    if t.phase == Sending {
      t := Silence(clock, t);
    }
  }

  /** A call the network stays silent about. */
  lemma {:induction false} SilentCall(clock: nat, p: State, r: Request) returns (s: State)
    requires Reachable(clock, p) && Shaped(p) && p.phase == Idle && p.seqno == |p.calls| % WORD
    ensures Reachable(clock, s) && Shaped(s) && s.phase == Idle && s.calls == p.calls + [r]
    ensures s.seqno == |s.calls| % WORD && p.toClient <= s.toClient
  {
    NextNumber(|p.calls|);
    Reach(clock, p, Call(r));
    s := Silence(clock, Apply(p, Call(r)));
  }

  lemma {:induction false} NextNumber(n: nat)
    ensures (n % WORD + 1) % WORD == (n + 1) % WORD
  {
  }

  /** A call whose reply is sent but does not arrive in time. */
  lemma {:induction false} LateCall(clock: nat, p: State, r: Request) returns (s: State, d: Datagram)
    requires Reachable(clock, p) && Shaped(p) && p.phase == Idle && p.seqno == |p.calls| % WORD
    ensures Reachable(clock, s) && Shaped(s) && s.phase == Idle && s.calls == p.calls + [r]
    ensures s.seqno == |s.calls| % WORD && d in s.toClient
    ensures d.Msg? && d.seqno == s.seqno && d.data == Take(r.data, MAXLINE - HDR)
  {
    NextNumber(|p.calls|);
    Reach(clock, p, Call(r));
    var b := Apply(p, Call(r));
    Reach(clock, b, Send);
    var c := Apply(b, Send);
    var q := Msg(b.seqno, Stamp(b.clock, b.info.base), r.data);
    assert q in c.toServer;
    Reach(clock, c, Serve(q));
    var e := Apply(c, Serve(q));
    d := Echo(q);
    Reach(clock, e, Expire);
    s := Silence(clock, Apply(e, Expire));
  }

  /** Any number of calls may pass with the reply to call m still under way. */
  lemma {:induction false} ManyCalls(clock: nat, m: nat, first: Request, other: Request, n: nat)
    returns (s: State, d: Datagram)
    requires m >= 1
    ensures Reachable(clock, s) && Shaped(s) && s.phase == Idle && |s.calls| == n && s.seqno == n % WORD
    ensures n >= m ==> s.calls[m - 1] == first && d in s.toClient && d.Msg?
    ensures n >= m ==> d.seqno == m % WORD && d.data == Take(first.data, MAXLINE - HDR)
    decreases n
  {
    hide Reachable, Take;
    if n == 0 {
      ReachStart(clock);
      s, d := Init(clock), Runt(0);
    } else {
      var p;
      p, d := ManyCalls(clock, m, first, other, n - 1);
      if n == m {
        s, d := LateCall(clock, p, first);
      } else {
        s := SilentCall(clock, p, other);
      }
    }
  }

  /** The bound on the number of calls is exact: every call from 2^32 + 1 on has the sequence
      number of the one 2^32 calls before, and can be answered by that one's reply. */
  lemma {:induction false} WrapsAround(clock: nat, m: nat, first: Request, other: Request) returns (s: State)
    requires m >= 1 && |first.data| <= MAXLINE - HDR && |first.data| <= other.inbytes
    ensures Reachable(clock, s) && |s.log| > 0 && |s.calls| == m + WORD
    ensures s.calls[m - 1] == first && s.calls[m + WORD - 1] == other
    ensures var o := s.log[|s.log| - 1]; o.Answered? && o.call == m + WORD && o.got == first.data
  {
    var p, d := ManyCalls(clock, m, first, other, m + WORD - 1);
    NextNumber(m + WORD - 1);
    ModWord(m, 1);
    hide Reachable;
    Reach(clock, p, Call(other));
    var a := Apply(p, Call(other));
    Reach(clock, a, Send);
    var b := Apply(a, Send);
    Reach(clock, b, Receive(d));
    var c := Apply(b, Receive(d));
    Reach(clock, c, Finish);
    s := Apply(c, Finish);
  }

  // ---------- the client as the source runs it ----------

  /** The last call of any reachable state, if answered, returned its own echo. */
  lemma {:induction false} LastAnswer(start: nat, s: State)
    requires Reachable(start, s) && s.log != [] && s.log[|s.log| - 1].Answered? && s.log[|s.log| - 1].call <= WORD
    ensures var o := s.log[|s.log| - 1];
      && 1 <= o.call <= |s.calls|
      && var r := s.calls[o.call - 1];
         && o.got <= r.data && (|r.data| <= MAXLINE - HDR && |r.data| <= r.inbytes ==> o.got == r.data)
  {
    hide Take, Apply, Enabled;
    var steps, states :| IsRun(start, steps, states) && states[|steps|] == s;
    var copy := OwnEcho(start, steps, states, |steps|, |s.log| - 1);
  }

  /** The bytes come from the request itself, and are all of it when it fits both buffers. */
  predicate OwnBytes(bytes: seq<Byte>, r: Request) {
    bytes <= r.data && (|r.data| <= MAXLINE - HDR && |r.data| <= r.inbytes ==> bytes == r.data)
  }

  /** Nothing of the client and its histories differs. */
  ghost predicate SameClient(s: State, t: State) {
    && t.rttinit == s.rttinit && t.info == s.info && t.seqno == s.seqno && t.phase == s.phase
    && t.calls == s.calls && t.log == s.log
  }

  // ---------- which result comes, from the events alone ----------

  /** What dg_send_recv returns: the bytes stored, or that it gave up; or the events end
      while it waits. */
  datatype Return = Got(bytes: seq<Byte>) | NoAnswer | StillWaiting

  /** The clock and the network. */
  datatype World = World(clock: nat, toServer: set<Datagram>, toClient: set<Datagram>)

  /** What the copies of a call have in common. */
  datatype Sender = Sender(seqno: nat, base: nat, data: seq<Byte>)

  function WorldOf(s: State): World {
    World(s.clock, s.toServer, s.toClient)
  }

  /** The call a client in state s makes for this request. */
  function SenderOf(s: State, request: Request): Sender {
    Sender((s.seqno + 1) % WORD, if s.rttinit then s.info.base else s.clock / 1000000, request.data)
  }

  function CopySent(w: World, c: Sender): World {
    w.(toServer := w.toServer + {Msg(c.seqno, Stamp(w.clock, c.base), c.data)})
  }

  /** What an event does to the world while the call waits; an alarm sends a copy. */
  function OneEvent(w: World, c: Sender, e: Step): World {
    match e
    case Tick(dt) => w.(clock := w.clock + dt)
    case Serve(d) => if d in w.toServer then w.(toClient := w.toClient + {Echo(d)}) else w
    case Noise(n) => if n < HDR then w.(toClient := w.toClient + {Runt(n)}) else w
    case Expire => CopySent(w, c)
    case _ => w
  }

  function After(w: World, c: Sender, events: seq<Step>): World {
    if events == [] then w else OneEvent(After(w, c, events[..|events| - 1]), c, events[|events| - 1])
  }

  function Alarms(events: seq<Step>): nat {
    if events == [] then 0 else Alarms(events[..|events| - 1]) + if events[|events| - 1] == Expire then 1 else 0
  }

  /** The event brings a reply with the call's number. */
  predicate Matches(w: World, c: Sender, e: Step) {
    e.Receive? && e.d in w.toClient && e.d.Msg? && e.d.seqno == c.seqno
  }

  /** Event k answers the call: a reply matches, the alarm does not ring right behind it, and
      it has not rung four times before. */
  predicate AnswersAt(w: World, c: Sender, events: seq<Step>, k: nat) {
    && k < |events| && Matches(After(w, c, events[..k]), c, events[k])
    && !(k + 1 < |events| && events[k + 1] == Expire)
    && Alarms(events[..k]) <= R.MAXNREXMT
  }

  ghost predicate FirstAnswer(w: World, c: Sender, events: seq<Step>, k: nat) {
    AnswersAt(w, c, events, k) && forall j: nat :: j < k ==> !AnswersAt(w, c, events, j)
  }

  ghost predicate GetsAnswer(w: World, c: Sender, events: seq<Step>) {
    exists k :: AnswersAt(w, c, events, k)
  }

  /** The result: the bytes of the first reply that answers the call; without one, giving up if
      the alarm rings four times; otherwise none yet. */
  ghost predicate ResultOf(r: Return, w: World, c: Sender, events: seq<Step>, inbytes: nat) {
    && (r.Got? <==> GetsAnswer(w, c, events))
    && (r.Got? ==> exists k: nat :: FirstAnswer(w, c, events, k) && r.bytes == Take(events[k].d.data, inbytes))
    && (r == NoAnswer <==> !GetsAnswer(w, c, events) && Alarms(events) > R.MAXNREXMT)
    && (r == StillWaiting <==> !GetsAnswer(w, c, events) && Alarms(events) <= R.MAXNREXMT)
  }

  lemma {:induction false} EventsNext(w: World, c: Sender, events: seq<Step>, k: nat)
    requires k < |events|
    ensures After(w, c, events[..k + 1]) == OneEvent(After(w, c, events[..k]), c, events[k])
    ensures Alarms(events[..k + 1]) == Alarms(events[..k]) + if events[k] == Expire then 1 else 0
  {
    assert events[..k + 1][..k] == events[..k];
  }

  lemma {:induction false} AlarmsGrow(events: seq<Step>, j: nat, k: nat)
    requires j <= k <= |events|
    ensures Alarms(events[..j]) <= Alarms(events[..k])
  {
    if j < k {
      AlarmsGrow(events, j, k - 1);
      assert events[..k][..k - 1] == events[..k - 1];
    }
  }

  /** The call has dealt with the first k events and waits. */
  ghost predicate Upto(w: World, c: Sender, events: seq<Step>, k: nat, t: State) {
    && k <= |events| && WorldOf(t) == After(w, c, events[..k])
    && t.info.nrexmt == Alarms(events[..k]) <= R.MAXNREXMT && t.seqno == c.seqno && t.info.base == c.base
    && forall j: nat :: j < k ==> !AnswersAt(w, c, events, j)
  }

  lemma {:induction false} UptoStart(s: State, request: Request, events: seq<Step>)
    requires Shaped(s) && s.phase == Idle
    ensures var t := Apply(Apply(s, Call(request)), Send);
      Upto(CopySent(WorldOf(s), SenderOf(s, request)), SenderOf(s, request), events, 0, t)
  {
    assert events[..0] == [];
  }

  /** An event that neither matches nor rings. */
  lemma {:induction false} UptoEvent(w: World, c: Sender, events: seq<Step>, k: nat, t: State, u: State)
    requires Upto(w, c, events, k, t) && k < |events| && Shaped(t) && events[k] != Expire
    requires !Matches(WorldOf(t), c, events[k])
    requires var e := events[k]; u == if (e.Tick? || e.Serve? || e.Noise?) && Enabled(t, e) then Apply(t, e) else t
    ensures Upto(w, c, events, k + 1, u)
  {
    hide After, Alarms, Echo, Stamp;
    EventsNext(w, c, events, k);
    assert WorldOf(u) == OneEvent(WorldOf(t), c, events[k]);
  }

  /** An alarm that is not the fourth. */
  lemma {:induction false} UptoAlarm(w: World, c: Sender, events: seq<Step>, k: nat, t: State)
    requires Upto(w, c, events, k, t) && k < |events| && Shaped(t) && t.phase == Waiting && events[k] == Expire
    requires Apply(t, Expire).phase == Sending && t.calls[|t.calls| - 1].data == c.data
    ensures Shaped(Apply(t, Expire)) && Upto(w, c, events, k + 1, Apply(Apply(t, Expire), Send))
  {
    hide After, Alarms, Stamp;
    EventsNext(w, c, events, k);
  }

  /** A match that an alarm overtakes. */
  lemma {:induction false} UptoMissed(w: World, c: Sender, events: seq<Step>, k: nat, t: State)
    requires Upto(w, c, events, k, t) && k + 1 < |events| && Shaped(t) && t.phase == Waiting
    requires Matches(WorldOf(t), c, events[k]) && events[k + 1] == Expire && t.calls[|t.calls| - 1].data == c.data
    ensures Enabled(t, events[k]) && Shaped(Apply(t, events[k]))
    ensures var u := Apply(Apply(t, events[k]), Expire);
      u.phase == Sending ==> Shaped(u) && Upto(w, c, events, k + 2, Apply(u, Send))
  {
    hide After, Alarms, Stamp;
    EventsNext(w, c, events, k);
    EventsNext(w, c, events, k + 1);
  }

  /** The fourth alarm: nothing that comes later answers the call. */
  lemma {:induction false} NoAnswerAfter(w: World, c: Sender, events: seq<Step>, k: nat)
    requires k <= |events| && Alarms(events[..k]) > R.MAXNREXMT
    requires forall j: nat :: j < k ==> !AnswersAt(w, c, events, j)
    ensures !GetsAnswer(w, c, events) && Alarms(events) > R.MAXNREXMT
  {
    hide Matches, After, Alarms;
    forall j: nat | k <= j <= |events|
      ensures Alarms(events[..j]) > R.MAXNREXMT
    {
      AlarmsGrow(events, k, j);
    }
    assert events[..|events|] == events;
  }

  class Net {
    var clock: nat
    var toServer: set<Datagram>
    var toClient: set<Datagram>

    ghost predicate Shows(s: State)
      reads this
    {
      clock == s.clock && toServer == s.toServer && toClient == s.toClient
    }

    /** Time passes, the server answers a request, or a datagram too short for a header
        arrives. */
    method Run(e: Step, ghost start: nat, ghost s: State) returns (ghost t: State)
      requires Reachable(start, s) && Shaped(s) && Shows(s)
      modifies this
      ensures Reachable(start, t) && Shaped(t) && Shows(t) && SameClient(s, t)
      ensures t == if (e.Tick? || e.Serve? || e.Noise?) && Enabled(s, e) then Apply(s, e) else s
    {
      t := s;
      match e {
        case Tick(dt) =>
          Reach(start, s, e);
          clock := clock + dt;
          t := Apply(s, e);
        case Serve(d) =>
          if d in toServer {
            Reach(start, s, e);
            toClient := toClient + {Echo(d)};
            t := Apply(s, e);
          }
        case Noise(n) =>
          if n < HDR {
            Reach(start, s, e);
            toClient := toClient + {Runt(n)};
            t := Apply(s, e);
          }
        case _ =>
      }
    }
  }

  /** The static data of dg_send_recv.c. */
  class Client {
    var rttinit: bool
    const rttinfo: R.RttInfo
    var seqno: nat

    ghost predicate Shows(s: State)
      reads this, rttinfo
    {
      rttinit == s.rttinit && rttinfo.View() == s.info && seqno == s.seqno
    }

    /** Static data starts as zero. */
    constructor (clock: nat)
      ensures Shows(Init(clock)) && fresh(rttinfo)
    {
      rttinit, seqno := false, 0;
      rttinfo := new R.RttInfo();
    }

    method Begin(net: Net, request: Request, ghost start: nat, ghost s: State) returns (ghost t: State)
      requires Reachable(start, s) && Shaped(s) && s.phase == Idle && Shows(s) && net.Shows(s)
      modifies this, rttinfo
      ensures Reachable(start, t) && Shaped(t) && t.phase == Sending && Shows(t) && net.Shows(t)
      ensures t == Apply(s, Call(request)) && t.calls == s.calls + [request] && t.log == s.log
    {
      Reach(start, s, Call(request));
      t := Apply(s, Call(request));
      if !rttinit {
        rttinfo.Init(net.clock / 1000000);
        rttinit := true;
      }
      seqno := (seqno + 1) % WORD;
      rttinfo.NewPacket();
    }

    /** One copy out and the alarm set; the next state the caller sees is waiting. */
    method SendAgain(net: Net, request: Request, ghost start: nat, ghost s: State)
      returns (seconds: int, ghost t: State)
      requires Reachable(start, s) && Shaped(s) && s.phase == Sending && Shows(s) && net.Shows(s)
      requires s.calls[|s.calls| - 1] == request
      modifies net
      ensures Reachable(start, t) && Shaped(t) && t.phase == Waiting && Shows(t) && net.Shows(t)
      ensures t == Apply(s, Send) && t.calls == s.calls && t.log == s.log && seconds == t.alarm
    {
      Reach(start, s, Send);
      t := Apply(s, Send);
      var ts := Stamp(net.clock, rttinfo.base);
      net.toServer := net.toServer + {Msg(seqno, ts, request.data)};
      seconds := (rttinfo.rto + 0.5).Floor;
    }

    /** The branch taken when the alarm has rung. */
    method Expired(net: Net, ghost start: nat, ghost s: State) returns (giveUp: bool, ghost t: State)
      requires Reachable(start, s) && Shaped(s) && (s.phase == Waiting || s.phase.Matched?) && Shows(s) && net.Shows(s)
      modifies this, rttinfo
      ensures Reachable(start, t) && Shaped(t) && Shows(t) && net.Shows(t) && t.calls == s.calls
      ensures t == Apply(s, Expire) && giveUp == (t.info.nrexmt > R.MAXNREXMT)
      ensures t.info.nrexmt == s.info.nrexmt + 1
      ensures if giveUp then t.phase == Idle && t.log == s.log + [GaveUp(|s.calls|)]
              else t.phase == Sending && t.log == s.log
    {
      Reach(start, s, Expire);
      t := Apply(s, Expire);
      giveUp := rttinfo.TimedOut();
      if giveUp {
        rttinit := false;
      }
    }

    /** The alarm has rung: give up, or send the request again. */
    method Rang(net: Net, request: Request, ghost start: nat, ghost s: State) returns (giveUp: bool, ghost t: State)
      requires Reachable(start, s) && Shaped(s) && (s.phase == Waiting || s.phase.Matched?) && Shows(s) && net.Shows(s)
      requires s.calls != [] && s.calls[|s.calls| - 1] == request
      modifies this, rttinfo, net
      ensures Reachable(start, t) && Shaped(t) && Shows(t) && net.Shows(t) && t.calls == s.calls
      ensures giveUp == (s.info.nrexmt + 1 > R.MAXNREXMT)
      ensures giveUp ==> t.phase == Idle && t.log == s.log + [GaveUp(|s.calls|)]
      ensures !giveUp ==> t.phase == Waiting && t.log == s.log && Apply(s, Expire).phase == Sending
      ensures !giveUp ==> Shaped(Apply(s, Expire)) && t == Apply(Apply(s, Expire), Send)
    {
      hide Reachable, Apply, Shaped;
      giveUp, t := Expired(net, start, s);
      if !giveUp {
        var seconds;
        seconds, t := SendAgain(net, request, start, t);
      }
    }

    /** The reply has matched: stop the timer, take the sample and return. */
    method Finished(net: Net, d: Datagram, inbytes: nat, ghost start: nat, ghost s: State)
      returns (bytes: seq<Byte>, ghost t: State)
      requires Reachable(start, s) && Shaped(s) && s.phase == Matched(d) && Shows(s) && net.Shows(s)
      requires s.calls[|s.calls| - 1].inbytes == inbytes
      modifies rttinfo
      ensures Reachable(start, t) && Shaped(t) && t.phase == Idle && Shows(t) && net.Shows(t) && t.calls == s.calls
      ensures t == Apply(s, Finish) && |t.log| == |s.log| + 1 && t.log[..|s.log|] == s.log
      ensures var o := t.log[|s.log|]; o.Answered? && o.call == |s.calls| && o.got == bytes && o.reply == d
      ensures bytes == Take(d.data, inbytes)
      ensures |s.calls| <= WORD ==> OwnBytes(bytes, s.calls[|s.calls| - 1])
    {
      Reach(start, s, Finish);
      t := Apply(s, Finish);
      if |t.calls| <= WORD {
        LastAnswer(start, t);
      }
      rttinfo.Stopped((Stamp(net.clock, rttinfo.base) - d.ts) % WORD);
      bytes := Take(d.data, inbytes);
    }

    /** What the call does with event k: it ends, or goes on with a later event. */
    method Deal(net: Net, request: Request, events: seq<Step>, k: nat, ghost w: World, ghost c: Sender,
                ghost start: nat, ghost s: State)
      returns (done: bool, r: Return, next: nat, ghost t: State)
      requires Reachable(start, s) && Shaped(s) && s.phase == Waiting && Shows(s) && net.Shows(s)
      requires s.calls != [] && s.calls[|s.calls| - 1] == request && c.data == request.data
      requires k < |events| && Upto(w, c, events, k, s)
      modifies this, rttinfo, net
      ensures Reachable(start, t) && Shaped(t) && Shows(t) && net.Shows(t) && t.calls == s.calls
      ensures !done ==> t.phase == Waiting && t.log == s.log && k < next <= |events| && Upto(w, c, events, next, t)
      ensures done ==> Ended(r, s, t) && ResultOf(r, w, c, events, request.inbytes)
    {
      hide Reachable, Apply, Shaped, Enabled, Upto, ResultOf, Take, OwnBytes;
      var e := events[k];
      t, next, done, r := s, k + 1, false, StillWaiting;
      UptoFacts(w, c, events, k, s);
      if e.Receive? && e.d in net.toClient && e.d.Msg? && e.d.seqno == seqno {
        Matching(start, s, e.d);
        t := Apply(s, e);
        if next < |events| && events[next] == Expire {
          UptoMissed(w, c, events, k, s);
          done, t := Rang(net, request, start, t);
          if done {
            r := NoAnswer;
            FourthAlarm(w, c, events, k, next, s);
          }
          next := next + 1;
        } else {
          var bytes;
          bytes, t := Finished(net, e.d, request.inbytes, start, t);
          AnsweredHere(w, c, events, k, s, request.inbytes);
          done, r := true, Got(bytes);
        }
      } else if e == Expire {
        done, t := Rang(net, request, start, s);
        if done {
          r := NoAnswer;
          FourthAlarm(w, c, events, k, k, s);
        } else {
          UptoAlarm(w, c, events, k, s);
        }
      } else {
        t := net.Run(e, start, s);
        UptoEvent(w, c, events, k, s, t);
      }
    }

    /** dg_send_recv against any events: time passes, the server and the network act, a
        datagram is received, the alarm rings, also after a match. The events decide the
        result, and among the first 2^32 calls it is the echo of its own request. */
    method DgSendRecv(net: Net, request: Request, events: seq<Step>, ghost start: nat, ghost s: State)
      returns (r: Return, ghost t: State)
      requires Reachable(start, s) && Shaped(s) && s.phase == Idle && Shows(s) && net.Shows(s)
      modifies this, rttinfo, net
      ensures Reachable(start, t) && Shaped(t) && Shows(t) && net.Shows(t) && t.calls == s.calls + [request]
      ensures r == StillWaiting ==> t.phase == Waiting && t.log == s.log
      ensures r == NoAnswer ==> t.phase == Idle && t.log == s.log + [GaveUp(|t.calls|)]
      ensures r.Got? ==> t.phase == Idle && |t.log| == |s.log| + 1 && t.log[..|s.log|] == s.log
      ensures r.Got? ==> var o := t.log[|s.log|]; o.Answered? && o.call == |t.calls| && o.got == r.bytes
      ensures ResultOf(r, CopySent(WorldOf(s), SenderOf(s, request)), SenderOf(s, request), events, request.inbytes)
      ensures r.Got? && |t.calls| <= WORD ==> OwnBytes(r.bytes, request)
    {
      hide Reachable, Apply, Shaped, Upto, ResultOf, CopySent, SenderOf, OwnBytes;
      ghost var c := SenderOf(s, request);
      SenderData(s, request);
      ghost var w := CopySent(WorldOf(s), c);
      UptoStart(s, request, events);
      t := Begin(net, request, start, s);
      var seconds;
      seconds, t := SendAgain(net, request, start, t);
      var k := 0;
      while k < |events|
        invariant Reachable(start, t) && Shaped(t) && t.phase == Waiting && Shows(t) && net.Shows(t)
        invariant t.calls == s.calls + [request] && t.log == s.log && k <= |events| && Upto(w, c, events, k, t)
      {
        var done;
        done, r, k, t := Deal(net, request, events, k, w, c, start, t);
        if done {
          return;
        }
      }
      NeverAnswered(w, c, events, t);
      r := StillWaiting;
    }
  }

  /** How a call ends: with an answer or without. */
  ghost predicate Ended(r: Return, s: State, t: State) {
    && t.phase == Idle && |t.log| == |s.log| + 1 && t.log[..|s.log|] == s.log && s.calls != []
    && (r == NoAnswer || r.Got?)
    && (r == NoAnswer ==> t.log[|s.log|] == GaveUp(|s.calls|))
    && (r.Got? ==> var o := t.log[|s.log|]; o.Answered? && o.call == |s.calls| && o.got == r.bytes)
    && (r.Got? && |s.calls| <= WORD ==> OwnBytes(r.bytes, s.calls[|s.calls| - 1]))
  }

  lemma {:induction false} SenderData(s: State, request: Request)
    ensures SenderOf(s, request).data == request.data
  {
  }

  lemma {:induction false} UptoFacts(w: World, c: Sender, events: seq<Step>, k: nat, t: State)
    requires Upto(w, c, events, k, t)
    ensures t.seqno == c.seqno
  {
  }

  lemma {:induction false} FourthAlarm(w: World, c: Sender, events: seq<Step>, first: nat, k: nat, u: State)
    requires Upto(w, c, events, first, u) && k < |events| && events[k] == Expire && u.info.nrexmt + 1 > R.MAXNREXMT
    requires k == first || k == first + 1
    ensures forall inbytes :: ResultOf(NoAnswer, w, c, events, inbytes)
  {
    hide After, Alarms, GetsAnswer;
    EventsNext(w, c, events, first);
    EventsNext(w, c, events, k);
    NoAnswerAfter(w, c, events, k + 1);
  }

  lemma {:induction false} AnsweredHere(w: World, c: Sender, events: seq<Step>, k: nat, t: State, inbytes: nat)
    requires Upto(w, c, events, k, t) && k < |events| && Matches(WorldOf(t), c, events[k])
    requires !(k + 1 < |events| && events[k + 1] == Expire)
    ensures ResultOf(Got(Take(events[k].d.data, inbytes)), w, c, events, inbytes)
  {
    hide After, Alarms, Take;
    assert AnswersAt(w, c, events, k);
    assert FirstAnswer(w, c, events, k);
  }

  lemma {:induction false} NeverAnswered(w: World, c: Sender, events: seq<Step>, t: State)
    requires Upto(w, c, events, |events|, t)
    ensures forall inbytes :: ResultOf(StillWaiting, w, c, events, inbytes)
  {
    hide After, Alarms, Matches;
    assert events[..|events|] == events;
  }

  lemma {:induction false} Matching(start: nat, s: State, d: Datagram)
    requires Reachable(start, s) && Shaped(s) && s.phase == Waiting && d in s.toClient && d.Msg? && d.seqno == s.seqno
    ensures Enabled(s, Receive(d))
    ensures var t := Apply(s, Receive(d)); Reachable(start, t) && Shaped(t) && t == s.(phase := Matched(d))
  {
    hide Reachable;
    Reach(start, s, Receive(d));
  }
}
