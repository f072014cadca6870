/**
 The signal-driven echo server: the SIGIO handler reads datagrams into a queue of eight
 slots, the main loop echoes them, and only the test of the queue and the decrement of
 its length run with the signal blocked. The handler may interrupt the main loop at any
 unblocked point; the main loop never interrupts the handler. Datagrams arrive at any
 time.
 */
module SigioQueue {
  import opened Basics

  const QSIZE: nat := 8
  const MAXDG: nat := 4096

  datatype Dgram = Dgram(data: seq<Byte>, from: int)

  /** What recvfrom leaves of a datagram in a buffer of MAXDG bytes. */
  function Cut(d: Dgram): Dgram {
    if |d.data| <= MAXDG then d else d.(data := d.data[..MAXDG])
  }

  /** Where the main loop is; the signal is blocked where noted. */
  datatype Main =
    | Starting            // the handler is installed, the signal not yet blocked
    | Testing             // blocked: while (nqueue == 0)
    | Suspended           // inside sigsuspend
    | Unblocking          // blocked
    | Ready               // about to call Sendto
    | Sending(slot: nat)  // inside Sendto
    | Advancing           // about to increment iget
    | Wrapping            // has incremented iget, about to test for QSIZE
    | Blocking            // about to block the signal
    | Decrementing        // blocked: about to decrement nqueue
    | Storing(n: int)     // blocked: has read nqueue, about to store one less

  /** Where the handler is, with its local count of datagrams read. */
  datatype Handler =
    | Off
    | Checking(nread: nat)
    | Receiving(nread: nat)
    | Counting(nread: nat)   // has filled the slot
    | Putting(nread: nat)    // has incremented nread and nqueue
    | Leaving(nread: nat)    // recvfrom would block
    | Overflowed             // err_quit

  /** `pending` is a SIGIO not yet delivered. `arrived` and `echoed` are histories, and
      `finished` counts the decrements of nqueue. */
  datatype State = State(
    dg: seq<Dgram>, iget: nat, iput: nat, nqueue: int, cntread: seq<nat>,
    main: Main, handler: Handler, kernel: seq<Dgram>, pending: bool,
    arrived: seq<Dgram>, echoed: seq<Dgram>, finished: nat)

  /** Hangup is a SIGHUP that ends sigsuspend; its handler changes nothing here. */
  datatype Step = Arrive(d: Dgram) | Deliver | HandlerStep | MainStep | Hangup

  function Init(): State {
    State(seq(QSIZE, i => Dgram([], 0)), 0, 0, 0, seq(QSIZE + 1, i => 0), Starting, Off, [], false, [], [], 0)
  }

  predicate Blocked(m: Main) {
    m == Testing || m == Unblocking || m == Decrementing || m.Storing?
  }

  predicate Shaped(s: State) {
    && |s.dg| == QSIZE && s.iput < QSIZE && |s.cntread| == QSIZE + 1
    && s.iget <= QSIZE && (s.iget == QSIZE ==> s.main == Wrapping)
    && (s.main.Sending? ==> s.main.slot < QSIZE) && (s.handler.Leaving? ==> s.handler.nread <= QSIZE)
  }

  predicate Enabled(s: State, a: Step) {
    s.handler != Overflowed &&
    match a
    case Arrive(_) => true
    case Deliver => s.pending && s.handler == Off && !Blocked(s.main)
    case HandlerStep => s.handler != Off
    case MainStep => s.handler == Off && s.main != Suspended
    case Hangup => s.handler == Off && s.main == Suspended
  }

  function Handle(s: State): State
    requires Shaped(s) && s.handler != Off && s.handler != Overflowed
  {
    match s.handler
    case Checking(n) => s.(handler := if s.nqueue >= QSIZE then Overflowed else Receiving(n))
    case Receiving(n) =>
      if s.kernel == [] then s.(handler := Leaving(n))
      else s.(dg := s.dg[s.iput := Cut(s.kernel[0])], kernel := s.kernel[1..], handler := Counting(n))
    case Counting(n) => s.(nqueue := s.nqueue + 1, handler := Putting(n + 1))
    case Putting(n) => s.(iput := if s.iput + 1 >= QSIZE then 0 else s.iput + 1, handler := Checking(n))
    case Leaving(n) =>
      s.(cntread := s.cntread[n := s.cntread[n] + 1], handler := Off,
         main := if s.main == Suspended then Testing else s.main)
  }

  function Proceed(s: State): State
    requires Shaped(s) && s.main != Suspended
  {
    match s.main
    case Starting => s.(main := Testing)
    case Testing => s.(main := if s.nqueue == 0 then Suspended else Unblocking)
    case Unblocking => s.(main := Ready)
    case Ready => s.(main := Sending(s.iget))
    case Sending(slot) => s.(echoed := s.echoed + [s.dg[slot]], main := Advancing)
    case Advancing => s.(iget := s.iget + 1, main := Wrapping)
    case Wrapping => s.(iget := if s.iget >= QSIZE then 0 else s.iget, main := Blocking)
    case Blocking => s.(main := Decrementing)
    case Decrementing => s.(main := Storing(s.nqueue))
    case Storing(n) => s.(nqueue := n - 1, finished := s.finished + 1, main := Testing)
  }

  function Apply(s: State, a: Step): State
    requires Shaped(s) && Enabled(s, a)
  {
    match a
    case Arrive(d) => s.(kernel := s.kernel + [d], arrived := s.arrived + [d], pending := true)
    case Deliver => s.(handler := Checking(0), pending := false)
    case HandlerStep => Handle(s)
    case MainStep => Proceed(s)
    case Hangup => s.(main := Testing)
  }

  // ---------- what every step keeps ----------

  /** Datagrams taken out of the socket so far. */
  function Received(s: State): int {
    |s.arrived| - |s.kernel|
  }

  /** The slot of datagram number k. */
  function Slot(k: nat): (j: nat)
    ensures j < QSIZE
  {
    k % QSIZE
  }

  /** The turn's last steps, after iget has moved on. */
  predicate AtEnd(m: Main) {
    m == Blocking || m == Decrementing || m.Storing?
  }

  /** Datagrams echoed whose slot the main loop has not given back yet. */
  function Unreturned(m: Main): nat {
    if m == Advancing || m == Wrapping || AtEnd(m) then 1 else 0
  }

  predicate HasWork(m: Main) {
    m != Starting && m != Testing && m != Suspended
  }

  ghost predicate Counts(s: State) {
    && 0 <= s.finished <= Received(s) <= |s.arrived| && Received(s) - s.finished <= QSIZE
    && Received(s) >= (if s.handler.Counting? || s.handler.Putting? then 1 else 0)
    && s.nqueue == Received(s) - s.finished - (if s.handler.Counting? then 1 else 0)
  }

  /** Datagram number k lives in slot k mod QSIZE from its arrival in the queue until the
      main loop decrements nqueue for it. */
  ghost predicate InPlace(s: State) {
    && Counts(s) && |s.dg| == QSIZE
    && s.kernel == s.arrived[Received(s)..]
    && (forall k :: s.finished <= k < Received(s) ==> s.dg[Slot(k)] == Cut(s.arrived[k]))
  }

  ghost predicate Indexed(s: State)
    requires Counts(s)
  {
    && s.iput == Slot(Received(s) - if s.handler.Counting? || s.handler.Putting? then 1 else 0)
    && s.iget == (if s.main == Wrapping then Slot(s.finished) + 1
                  else Slot(s.finished + if AtEnd(s.main) then 1 else 0))
    && (s.main.Sending? ==> s.main.slot == Slot(s.finished))
  }

  ghost predicate Phased(s: State) {
    && (HasWork(s.main) ==> s.nqueue >= 1)
    && (s.main.Storing? ==> s.main.n == s.nqueue)
    && (s.handler != Off ==> !Blocked(s.main))
    && (s.handler.Receiving? || s.handler.Leaving? || s.handler.Counting? ==> s.nqueue < QSIZE)
    && (s.handler != Off && s.handler != Overflowed ==> s.handler.nread <= s.nqueue)
    && (s.handler == Overflowed ==> s.nqueue == QSIZE)
  }

  /** Each datagram is echoed once, in arrival order. */
  ghost predicate Echoed(s: State) {
    && |s.echoed| == s.finished + Unreturned(s.main) && |s.echoed| <= |s.arrived|
    && forall k :: 0 <= k < |s.echoed| ==> s.echoed[k] == Cut(s.arrived[k])
  }

  /** A datagram waiting in the socket has a signal on its way, or a handler that will
      still look. */
  ghost predicate Noticed(s: State) {
    s.kernel != [] ==>
      || s.pending || s.handler.Checking? || s.handler.Receiving? || s.handler.Counting?
      || s.handler.Putting? || s.handler == Overflowed
  }

  ghost predicate Inv(s: State) {
    Shaped(s) && InPlace(s) && Indexed(s) && Phased(s) && Echoed(s) && Noticed(s) && s.cntread[QSIZE] == 0
  }

  lemma {:induction false} SlotNext(k: nat)
    ensures Slot(k + 1) == if Slot(k) + 1 >= QSIZE then 0 else Slot(k) + 1
  {
  }

  lemma {:induction false} OtherSlot(a: nat, b: nat)
    requires a < b < a + QSIZE
    ensures Slot(a) != Slot(b)
  {
  }

  /** The slot the handler fills holds no datagram that is still queued or being sent. */
  lemma {:induction false} FillInPlace(s: State)
    requires Shaped(s) && InPlace(s) && Indexed(s) && Phased(s) && s.handler.Receiving?
    ensures InPlace(Handle(s))
    ensures s.kernel != [] ==> forall k :: s.finished <= k < Received(s) ==> s.iput != Slot(k)
  {
    hide Slot;
    var r := Received(s);
    if s.kernel != [] {
      assert s.kernel[1..] == s.arrived[r + 1..];
      forall k | s.finished <= k < r
        ensures s.iput != Slot(k)
      {
        OtherSlot(k, r);
      }
    }
  }

  lemma {:induction false} HandlerInPlace(s: State)
    requires Shaped(s) && InPlace(s) && Indexed(s) && Phased(s) && s.handler != Off && s.handler != Overflowed
    ensures InPlace(Handle(s))
  {
    if s.handler.Receiving? {
      FillInPlace(s);
      hide InPlace, Indexed, Phased, Handle;
    } else {
      hide Slot, Indexed;
    }
  }

  lemma {:induction false} HandlerIndexed(s: State)
    requires Shaped(s) && Counts(s) && Indexed(s) && s.handler != Off && s.handler != Overflowed && Counts(Handle(s))
    ensures Indexed(Handle(s))
  {
    hide Slot;
    if s.handler.Putting? {
      SlotNext(Received(s) - 1);
    }
  }

  lemma {:induction false} HandlerRest(s: State)
    requires Shaped(s) && Counts(s) && Phased(s) && Echoed(s) && Noticed(s) && s.cntread[QSIZE] == 0
    requires s.handler != Off && s.handler != Overflowed
    ensures Shaped(Handle(s)) && Phased(Handle(s)) && Echoed(Handle(s)) && Noticed(Handle(s))
        && Handle(s).cntread[QSIZE] == 0
  {
  }

  lemma {:induction false} HandlerInv(s: State)
    requires Inv(s) && s.handler != Off && s.handler != Overflowed
    ensures Inv(Handle(s))
  {
    HandlerInPlace(s);
    HandlerIndexed(s);
    HandlerRest(s);
    hide Slot, Indexed, Echoed, Noticed, Shaped, Phased, Handle;
  }

  lemma {:induction false} MainInPlace(s: State)
    requires Shaped(s) && InPlace(s) && Phased(s) && Enabled(s, MainStep)
    ensures InPlace(Proceed(s)) && Phased(Proceed(s)) && (Noticed(s) ==> Noticed(Proceed(s)))
  {
    hide Slot;
  }

  lemma {:induction false} MainIndexed(s: State)
    requires Shaped(s) && Counts(s) && Indexed(s) && Enabled(s, MainStep) && Counts(Proceed(s))
    ensures Indexed(Proceed(s)) && Shaped(Proceed(s))
  {
    hide Slot;
    SlotNext(s.finished);
  }

  lemma {:induction false} MainEchoed(s: State)
    requires Shaped(s) && InPlace(s) && Indexed(s) && Phased(s) && Echoed(s) && Enabled(s, MainStep)
    ensures Echoed(Proceed(s))
  {
    if s.main.Sending? {
      SendEchoes(s);
    } else {
      hide InPlace, Indexed, Phased;
      KeepsEchoes(s);
      hide Proceed, Cut, Unreturned;
    }
  }

  lemma {:induction false} KeepsEchoes(s: State)
    requires Shaped(s) && !s.main.Sending? && s.main != Suspended
    ensures var t := Proceed(s);
      t.echoed == s.echoed && t.arrived == s.arrived
      && t.finished + Unreturned(t.main) == s.finished + Unreturned(s.main)
  {
  }

  /** Sendto sends the first datagram not yet echoed. */
  lemma {:induction false} SendEchoes(s: State)
    requires Shaped(s) && InPlace(s) && Indexed(s) && Phased(s) && Echoed(s) && s.main.Sending?
    ensures |s.echoed| < |s.arrived| && Proceed(s).echoed == s.echoed + [Cut(s.arrived[|s.echoed|])]
    ensures Echoed(Proceed(s))
  {
    hide Slot, Cut;
    assert |s.echoed| == s.finished < Received(s);
    assert s.dg[Slot(s.finished)] == Cut(s.arrived[s.finished]);
  }

  lemma {:induction false} MainInv(s: State)
    requires Inv(s) && Enabled(s, MainStep)
    ensures Inv(Proceed(s))
  {
    MainInPlace(s);
    MainIndexed(s);
    MainEchoed(s);
    hide Slot, Indexed, Echoed, Noticed, Shaped, Phased;
  }

  lemma {:induction false} ArriveInPlace(s: State, d: Dgram)
    requires InPlace(s) && Echoed(s)
    ensures var t := s.(kernel := s.kernel + [d], arrived := s.arrived + [d], pending := true);
            InPlace(t) && Echoed(t) && Received(t) == Received(s)
  {
    hide Slot, Cut;
    var t := s.(kernel := s.kernel + [d], arrived := s.arrived + [d], pending := true);
    assert t.kernel == t.arrived[Received(s)..];
  }

  lemma {:induction false} ArriveRest(s: State, d: Dgram)
    requires Shaped(s) && Counts(s) && Indexed(s) && Phased(s)
    ensures var t := s.(kernel := s.kernel + [d], arrived := s.arrived + [d], pending := true);
            Shaped(t) && Counts(t) && Indexed(t) && Phased(t) && Noticed(t)
  {
    hide Slot;
  }

  lemma {:induction false} ArriveInv(s: State, d: Dgram)
    requires Inv(s)
    ensures Inv(s.(kernel := s.kernel + [d], arrived := s.arrived + [d], pending := true))
  {
    ArriveInPlace(s, d);
    ArriveRest(s, d);
    hide InPlace, Echoed, Received, Shaped, Counts, Indexed, Phased, Noticed;
  }

  lemma {:induction false} DeliverInv(s: State)
    requires Inv(s) && Enabled(s, Deliver)
    ensures Inv(Apply(s, Deliver))
  {
    hide Slot;
  }

  lemma {:induction false} HangupInPlace(s: State)
    requires InPlace(s) && Indexed(s) && s.main == Suspended
    ensures InPlace(s.(main := Testing)) && Indexed(s.(main := Testing))
  {
    hide Slot, Cut;
  }

  lemma {:induction false} HangupInv(s: State)
    requires Inv(s) && Enabled(s, Hangup)
    ensures Inv(Apply(s, Hangup))
  {
    HangupInPlace(s);
    hide InPlace, Indexed, Slot, Cut;
  }

  lemma {:induction false} InvStep(s: State, a: Step)
    requires Inv(s) && Enabled(s, a)
    ensures Inv(Apply(s, a))
  {
    hide Inv;
    match a
    case Arrive(d) => ArriveInv(s, d);
    case Deliver => DeliverInv(s);
    case HandlerStep => HandlerInv(s);
    case MainStep => MainInv(s);
    case Hangup => HangupInv(s);
  }

  // ---------- the handler as the source runs it ----------

  function Rank(h: Handler): nat {
    match h
    case Counting(_) => 5
    case Putting(_) => 4
    case Checking(_) => 3
    case Receiving(_) => 2
    case Leaving(_) => 1
    case _ => 0
  }

  lemma {:induction false} HandlerProgress(s: State)
    requires Inv(s) && s.handler != Off && s.handler != Overflowed
    ensures Shaped(s) && Inv(Handle(s))
    ensures |Handle(s).kernel| <= |s.kernel|
    ensures |Handle(s).kernel| == |s.kernel| ==> Rank(Handle(s).handler) < Rank(s.handler)
  {
    HandlerInv(s);
    hide InPlace, Indexed, Phased, Echoed, Noticed;
  }

  /** The handler's steps up to its return, when no datagram arrives meanwhile. */
  ghost function Handled(s: State): State
    requires Inv(s)
    decreases |s.kernel|, Rank(s.handler)
  {
    hide Inv, Handle, Rank;
    if s.handler == Off || s.handler == Overflowed then s else HandlerProgress(s); Handled(Handle(s))
  }

  /** The handler empties the socket or ends the program. */
  lemma {:induction false} HandlerDrains(s: State)
    requires Inv(s)
    ensures Inv(Handled(s)) && (Handled(s).handler == Off || Handled(s).handler == Overflowed)
    ensures s.handler != Off && (s.handler.Leaving? ==> s.kernel == []) && Handled(s).handler == Off
        ==> Handled(s).kernel == []
    decreases |s.kernel|, Rank(s.handler)
  {
    hide Inv, Rank, Shaped;
    if s.handler != Off && s.handler != Overflowed {
      HandlerProgress(s);
      HandlerDrains(Handle(s));
    }
  }

  /** One turn of the handler's loop that receives a datagram. */
  ghost function OneTurn(s: State): State
    requires Shaped(s) && s.handler.Checking? && s.kernel != []
  {
    s.(dg := s.dg[s.iput := Cut(s.kernel[0])], kernel := s.kernel[1..], nqueue := s.nqueue + 1,
       iput := if s.iput + 1 >= QSIZE then 0 else s.iput + 1, handler := Checking(s.handler.nread + 1))
  }

  lemma {:induction false} TurnSteps(s: State)
    requires Inv(s) && s.handler.Checking? && s.nqueue < QSIZE && s.kernel != []
    ensures Shaped(s) && Inv(OneTurn(s)) && Handled(OneTurn(s)) == Handled(s)
  {
    hide Inv, Shaped, Rank;
    HandlerProgress(s);
    var a := Handle(s);
    HandlerProgress(a);
    var b := Handle(a);
    HandlerProgress(b);
    var c := Handle(b);
    HandlerProgress(c);
    assert Handled(s) == Handled(a) && Handled(a) == Handled(b) && Handled(b) == Handled(c);
    assert Handle(c) == OneTurn(s);
  }

  /** The handler's last turn: the queue is full, or the socket is empty. */
  lemma {:induction false} LastTurn(s: State)
    requires Inv(s) && s.handler.Checking?
    ensures s.nqueue >= QSIZE ==> Handled(s) == s.(handler := Overflowed)
    ensures s.nqueue < QSIZE && s.kernel == [] ==>
      && s.handler.nread < |s.cntread|
      && Handled(s) == s.(cntread := s.cntread[s.handler.nread := s.cntread[s.handler.nread] + 1], handler := Off,
                          main := if s.main == Suspended then Testing else s.main)
  {
    hide InPlace, Indexed, Echoed, Noticed, Rank;
    assert s.handler.nread <= s.nqueue && |s.cntread| == QSIZE + 1;
    hide Inv, Shaped;
    HandlerProgress(s);
    var a := Handle(s);
    assert Handled(s) == Handled(a);
    if s.nqueue < QSIZE && s.kernel == [] {
      HandlerProgress(a);
      var b := Handle(a);
      HandlerProgress(b);
      assert Handled(a) == Handled(b) && Handled(b) == Handled(Handle(b)) && Handle(b).handler == Off;
    }
  }

  /** When the handler ends the program if nothing arrives while it runs: exactly when the
      waiting datagrams would fill the queue. It has then taken as many as fit, which may be
      all of them. Runs with arrivals are the subject of EndsAfter and EndsFrom. */
  lemma {:induction false} EndsExactly(s: State)
    requires Inv(s) && s.handler.Checking?
    ensures Handled(s).handler == Overflowed <==> s.nqueue + |s.kernel| >= QSIZE
    ensures s.nqueue <= QSIZE
    ensures s.nqueue + |s.kernel| >= QSIZE ==>
      Handled(s).nqueue == QSIZE && Handled(s).kernel == s.kernel[QSIZE - s.nqueue..]
    ensures s.nqueue + |s.kernel| < QSIZE ==> Handled(s).nqueue == s.nqueue + |s.kernel| && Handled(s).kernel == []
    decreases |s.kernel|
  {
    QueueFits(s);
    hide Inv, Handled;
    LastTurn(s);
    if s.nqueue < QSIZE && s.kernel != [] {
      TurnSteps(s);
      EndsExactly(OneTurn(s));
    }
  }

  lemma {:induction false} QueueFits(s: State)
    requires Inv(s)
    ensures 0 <= s.nqueue <= QSIZE
  {
    hide InPlace, Indexed, Echoed, Noticed, Slot;
    assert Counts(s) by { Counted(s); }
  }

  lemma {:induction false} Counted(s: State)
    requires InPlace(s)
    ensures Counts(s)
  {
  }

  class Queue {
    const dg: array<Dgram>
    const cntread: array<nat>
    var iget: nat
    var iput: nat
    var nqueue: int

    /** The data the handler shares with the main loop. */
    ghost predicate Shows(s: State)
      reads this, dg, cntread
    {
      dg[..] == s.dg && cntread[..] == s.cntread && iget == s.iget && iput == s.iput && nqueue == s.nqueue
    }

    constructor ()
      ensures Shows(Init()) && fresh(dg) && fresh(cntread)
    {
      dg := new Dgram[QSIZE](_ => Dgram([], 0));
      cntread := new nat[QSIZE + 1](_ => 0);
      iget, iput, nqueue := 0, 0, 0;
    }

    /** sig_io: the loop until recvfrom would block or the queue is full, when `socket` is all
        it finds: nothing arrives while it runs. */
    method SigIo(socket: seq<Dgram>, ghost s: State) returns (quit: bool)
      requires Inv(s) && s.handler == Checking(0) && s.kernel == socket && Shows(s)
      modifies this, dg, cntread
      ensures Shows(Handled(s)) && (quit <==> Handled(s).handler == Overflowed)
      ensures quit <==> old(nqueue) + |socket| >= QSIZE
    {
      hide Inv, Handled;
      EndsExactly(s);
      var nread, k := 0, 0;
      ghost var t := s;
      while nqueue < QSIZE && k < |socket|
        invariant 0 <= k <= |socket| && nread >= 0
        invariant Inv(t) && t.handler == Checking(nread) && t.kernel == socket[k..] && Shows(t)
        invariant Handled(t) == Handled(s)
      {
        TurnSteps(t);
        t := OneTurn(t);
        dg[iput] := Cut(socket[k]);
        k := k + 1;
        nread := nread + 1;
        nqueue := nqueue + 1;
        iput := iput + 1;
        if iput >= QSIZE {
          iput := 0;
        }
      }
      LastTurn(t);
      if nqueue >= QSIZE {
        return true;
      }
      cntread[nread] := cntread[nread] + 1;
      quit := false;
    }
  }

  // ---------- every run ----------

  ghost predicate IsRun(steps: seq<Step>, states: seq<State>) {
    && |states| == |steps| + 1 && states[0] == Init()
    && forall k :: 0 <= k < |steps| ==>
         Shaped(states[k]) && Enabled(states[k], steps[k]) && states[k + 1] == Apply(states[k], steps[k])
  }

  lemma {:induction false} RunKeepsInv(steps: seq<Step>, states: seq<State>, k: nat)
    requires IsRun(steps, states) && k < |states|
    ensures Inv(states[k])
  {
    hide Inv, Apply, Enabled;
    if k == 0 {
      InitInv();
    } else {
      RunKeepsInv(steps, states, k - 1);
      InvStep(states[k - 1], steps[k - 1]);
    }
  }

  lemma {:induction false} InitInv()
    ensures Inv(Init())
  {
  }

  /** The datagrams the histogram accounts for. */
  function Weighted(c: seq<nat>): nat {
    if c == [] then 0 else Weighted(c[..|c| - 1]) + (|c| - 1) * c[|c| - 1]
  }

  lemma {:induction false} WeightedUpdate(c: seq<nat>, n: nat)
    requires n < |c|
    ensures Weighted(c[n := c[n] + 1]) == Weighted(c) + n
  {
    var d, m := c[n := c[n] + 1], |c| - 1;
    if n < m {
      WeightedUpdate(c[..m], n);
      assert d[..m] == c[..m][n := c[n] + 1];
    } else {
      assert d[..m] == c[..m];
    }
  }

  lemma {:induction false} WeightedZero(n: nat)
    ensures Weighted(seq(n, i => 0)) == 0
  {
    if n > 0 {
      WeightedZero(n - 1);
      assert seq(n, i => 0)[..n - 1] == seq(n - 1, i => 0);
    }
  }

  /** What the handler has read and not yet entered into the histogram. */
  function Underway(h: Handler): nat {
    if h == Off || h == Overflowed then 0 else h.nread + if h.Counting? then 1 else 0
  }

  ghost predicate Tallied(s: State) {
    s.handler != Overflowed ==> Weighted(s.cntread) + Underway(s.handler) == Received(s)
  }

  lemma {:induction false} TalliedStep(s: State, a: Step)
    requires Shaped(s) && Tallied(s) && Enabled(s, a)
    ensures Tallied(Apply(s, a))
  {
    hide Weighted;
    if a == HandlerStep && s.handler.Leaving? {
      WeightedUpdate(s.cntread, s.handler.nread);
    }
  }

  /** In every run, between two signals the histogram accounts for every datagram read:
      cell n counts the signals that brought n of them. */
  lemma {:induction false} Histogram(steps: seq<Step>, states: seq<State>, k: nat)
    requires IsRun(steps, states) && k < |states|
    ensures Tallied(states[k])
    ensures states[k].handler == Off ==> Weighted(states[k].cntread) + |states[k].kernel| == |states[k].arrived|
  {
    hide Apply, Enabled, Shaped, Weighted;
    if k == 0 {
      WeightedZero(QSIZE + 1);
    } else {
      Histogram(steps, states, k - 1);
      TalliedStep(states[k - 1], steps[k - 1]);
    }
  }

  /** In every run the echoes are the arrivals, each once and in order, and the queue holds
      the next ones; the queue never exceeds its slots and overflows only when full. */
  lemma {:induction false} EchoesInOrder(steps: seq<Step>, states: seq<State>, k: nat)
    requires IsRun(steps, states) && k < |states|
    ensures var s := states[k];
      && |s.echoed| <= |s.arrived| && (forall j :: 0 <= j < |s.echoed| ==> s.echoed[j] == Cut(s.arrived[j]))
      && 0 <= s.nqueue <= QSIZE && |s.dg| == QSIZE
      && (forall j :: s.finished <= j < s.finished + s.nqueue ==> j < |s.arrived| && s.dg[Slot(j)] == Cut(s.arrived[j]))
      && (s.handler == Overflowed ==> s.nqueue == QSIZE)
  {
    hide IsRun, Slot, Noticed;
    RunKeepsInv(steps, states, k);
  }

  /** In every run the handler never writes the slot the main loop sends from, nor any slot
      still queued: also while iget has moved on and nqueue has not. */
  lemma {:induction false} NeverOverwrites(steps: seq<Step>, states: seq<State>, k: nat)
    requires IsRun(steps, states) && k < |steps| && steps[k] == HandlerStep
    ensures var s, t := states[k], states[k + 1];
      && (s.main.Sending? ==> s.main.slot < |s.dg| == |t.dg| && t.dg[s.main.slot] == s.dg[s.main.slot])
      && (HasWork(s.main) ==> |s.dg| == |t.dg| == QSIZE && t.dg[Slot(s.finished)] == s.dg[Slot(s.finished)])
      && (forall j :: s.finished <= j < s.finished + s.nqueue ==>
            |s.dg| == |t.dg| == QSIZE && t.dg[Slot(j)] == s.dg[Slot(j)])
  {
    RunKeepsInv(steps, states, k);
    hide Slot, Noticed, Echoed;
    var s := states[k];
    if s.handler.Receiving? {
      FillInPlace(s);
    }
  }

  /** In every run, a datagram that waits in the socket while the main loop sleeps has a
      signal that can be delivered now, or a handler at work. */
  lemma {:induction false} NeverForgotten(steps: seq<Step>, states: seq<State>, k: nat)
    requires IsRun(steps, states) && k < |states| && states[k].main == Suspended && states[k].kernel != []
    ensures Enabled(states[k], Deliver) || states[k].handler != Off
  {
    hide IsRun, Indexed, InPlace, Echoed;
    RunKeepsInv(steps, states, k);
  }

  /** The histogram cell for a full queue is never used: the handler ends the program
      before it could leave with all slots taken, even when the socket is empty. */
  lemma {:induction false} FullQueueNeverLeft(steps: seq<Step>, states: seq<State>, k: nat)
    requires IsRun(steps, states) && k < |states|
    ensures |states[k].cntread| == QSIZE + 1 && states[k].cntread[QSIZE] == 0
    ensures states[k].handler.Leaving? ==> states[k].nqueue < QSIZE
  {
    hide IsRun, InPlace, Echoed, Noticed, Slot;
    RunKeepsInv(steps, states, k);
  }

  // ---------- when the program ends ----------

  /** The handler will look at the queue again. */
  predicate Looking(h: Handler) {
    h.Checking? || h.Receiving? || h.Counting? || h.Putting?
  }

  /** The datagrams queued, waiting, or just stored. */
  function Load(s: State): int {
    s.nqueue + |s.kernel| + if s.handler.Counting? then 1 else 0
  }

  /** The handler is at work with at least as many datagrams as there are slots. */
  predicate Doomed(s: State) {
    Looking(s.handler) && Load(s) >= QSIZE
  }

  /** The handler's steps to its end from there. */
  function Distance(s: State): int {
    4 * (QSIZE - s.nqueue) + match s.handler
      case Checking(_) => 1
      case Receiving(_) => 0
      case Counting(_) => -1
      case Putting(_) => 2
      case _ => 0
  }

  /** From there each step of the handler is one nearer to the end, and nothing else changes
      the distance: not the arrivals, and the main loop does not run. */
  lemma {:induction false} DoomedStep(s: State, a: Step)
    requires Inv(s) && Doomed(s) && Enabled(s, a)
    ensures var t := Apply(s, a);
      if a != HandlerStep then Doomed(t) && Distance(t) == Distance(s)
      else if Distance(s) > 1 then Doomed(t) && Distance(t) == Distance(s) - 1
      else t.handler == Overflowed
  {
    hide InPlace, Indexed, Echoed, Noticed, Slot;
    QueueFits(s);
  }

  /** The handler's steps among steps j to k. */
  function HandlerSteps(steps: seq<Step>, j: nat, k: nat): nat
    requires j <= k <= |steps|
  {
    if j == k then 0 else HandlerSteps(steps, j, k - 1) + if steps[k - 1] == HandlerStep then 1 else 0
  }

  /** In every run, once the handler is at work with as many datagrams as there are slots, the
      program ends after a number of the handler's steps that is fixed then, whatever arrives;
      until then the handler does not return. */
  lemma {:induction false} EndsAfter(steps: seq<Step>, states: seq<State>, j: nat, k: nat)
    requires IsRun(steps, states) && j <= k < |states| && Doomed(states[j])
    ensures 1 <= Distance(states[j]) <= 4 * QSIZE + 2
    ensures var n := HandlerSteps(steps, j, k);
      if n < Distance(states[j]) then Doomed(states[k]) && Distance(states[k]) == Distance(states[j]) - n
      else states[k].handler == Overflowed
  {
    hide Inv, Apply, Enabled, Shaped, Doomed, Distance;
    RunKeepsInv(steps, states, j);
    DistanceRange(states[j]);
    if j < k {
      EndsAfter(steps, states, j, k - 1);
      RunKeepsInv(steps, states, k - 1);
      StillRunning(states[k - 1], steps[k - 1]);
      DoomedStep(states[k - 1], steps[k - 1]);
    }
  }

  lemma {:induction false} DistanceRange(s: State)
    requires Inv(s) && Doomed(s)
    ensures 1 <= Distance(s) <= 4 * QSIZE + 2
  {
    hide InPlace, Indexed, Echoed, Noticed, Slot;
    QueueFits(s);
  }

  lemma {:induction false} StillRunning(s: State, a: Step)
    requires Enabled(s, a)
    ensures s.handler != Overflowed
  {
  }

  /** In every run the program ends only from such a state. */
  lemma {:induction false} EndsFrom(steps: seq<Step>, states: seq<State>, k: nat)
    requires IsRun(steps, states) && k < |steps| && states[k + 1].handler == Overflowed
    ensures Doomed(states[k]) && steps[k] == HandlerStep && Distance(states[k]) == 1
  {
    hide InPlace, Indexed, Echoed, Noticed, Slot;
    RunKeepsInv(steps, states, k);
    QueueFits(states[k]);
  }

  /** An arrival while the handler runs can make the difference: with one datagram less than
      slots it would return, and after one more it ends the program. */
  lemma {:induction false} ArrivalDecides(s: State, d: Dgram)
    requires Inv(s) && s.handler.Checking? && s.nqueue + |s.kernel| == QSIZE - 1
    ensures Handled(s).handler == Off && Enabled(s, Arrive(d)) && Inv(Apply(s, Arrive(d)))
    ensures Handled(Apply(s, Arrive(d))).handler == Overflowed
  {
    assert Shaped(s);
    hide Inv, Handled;
    EndsExactly(s);
    HandlerDrains(s);
    InvStep(s, Arrive(d));
    EndsExactly(Apply(s, Arrive(d)));
  }

  // ---------- the end without an overflow ----------

  ghost predicate Reachable(s: State) {
    exists steps, states :: IsRun(steps, states) && states[|steps|] == s
  }

  lemma {:induction false} Reach(s: State, a: Step)
    requires Reachable(s) && Shaped(s) && Enabled(s, a)
    ensures Reachable(Apply(s, a))
  {
    hide Apply, Enabled, Shaped, Init;
    var steps, states :| IsRun(steps, states) && states[|steps|] == s;
    var steps', states' := steps + [a], states + [Apply(s, a)];
    forall k | 0 <= k < |steps'|
      ensures Shaped(states'[k]) && Enabled(states'[k], steps'[k]) && states'[k + 1] == Apply(states'[k], steps'[k])
    {
      assert k < |steps| ==> states'[k] == states[k] && states'[k + 1] == states[k + 1] && steps'[k] == steps[k];
    }
    assert IsRun(steps', states') && states'[|steps'|] == Apply(s, a);
  }

  /** Datagrams arrive while the main loop sleeps and the signal is not yet delivered. */
  lemma {:induction false} Arrivals(d: Dgram, n: nat) returns (s: State)
    ensures Reachable(s) && Shaped(s) && s.main == Suspended && s.handler == Off && s.nqueue == 0
    ensures |s.kernel| == n && (n > 0 ==> s.pending)
  {
    hide Reachable;
    if n == 0 {
      var i := Init();
      assert Reachable(i) by { Started(); }
      Reach(i, MainStep);
      Reach(Apply(i, MainStep), MainStep);
      s := Apply(Apply(i, MainStep), MainStep);
    } else {
      var p := Arrivals(d, n - 1);
      Reach(p, Arrive(d));
      s := Apply(p, Arrive(d));
    }
  }

  lemma {:induction false} Started()
    ensures Reachable(Init())
  {
    assert IsRun([], [Init()]);
  }

  /** Eight datagrams find the queue empty. All of them are read into it, none is left in
      the socket, and the program still ends with "receive overflow". */
  lemma {:induction false} EndsWithNothingLost(d: Dgram) returns (s: State)
    ensures Reachable(s) && Inv(s) && s.handler == Checking(0) && s.nqueue == 0 && |s.kernel| == QSIZE
    ensures Handled(s).handler == Overflowed && Handled(s).kernel == [] && Handled(s).nqueue == QSIZE
  {
    var p := Arrivals(d, QSIZE);
    Reach(p, Deliver);
    s := Apply(p, Deliver);
    assert Inv(s) by { ReachableInv(s); }
    hide Reachable, Inv, Handled;
    EndsExactly(s);
  }

  lemma {:induction false} ReachableInv(s: State)
    requires Reachable(s)
    ensures Inv(s)
  {
    hide Inv, Apply, Enabled, Shaped;
    var steps, states :| IsRun(steps, states) && states[|steps|] == s;
    RunKeepsInv(steps, states, |steps|);
  }

  // ---------- the main loop sleeps only on an empty queue ----------

  predicate Restful(s: State) {
    s.main == Suspended && s.handler == Off ==> s.nqueue == 0
  }

  lemma {:induction false} RestfulStep(s: State, a: Step)
    requires Shaped(s) && Restful(s) && Enabled(s, a)
    ensures Restful(Apply(s, a))
  {
  }

  /** In every run, while the main loop sleeps and no handler runs, the queue is empty: what
      the handler queues wakes the main loop, and it does not sleep before the queue is
      empty again. */
  lemma {:induction false} SleepsOnlyWhenEmpty(steps: seq<Step>, states: seq<State>, k: nat)
    requires IsRun(steps, states) && k < |states|
    ensures states[k].main == Suspended && states[k].handler == Off ==> states[k].nqueue == 0
  {
    hide Apply, Enabled, Shaped;
    if k > 0 {
      SleepsOnlyWhenEmpty(steps, states, k - 1);
      RestfulStep(states[k - 1], steps[k - 1]);
    }
  }

  // ---------- every queued datagram is echoed by the main loop's next steps ----------

  /** Datagrams queued whose echo is still due. */
  function Due(s: State): int {
    s.nqueue - Unreturned(s.main)
  }

  /** The main loop's steps up to and including the end of its next Sendto. */
  function ToEcho(m: Main): (n: nat)
    ensures 1 <= n <= 9
  {
    match m
    case Sending(_) => 1
    case Ready => 2
    case Unblocking => 3
    case Testing => 4
    case Starting => 5
    case Suspended => 5
    case Storing(_) => 5
    case Decrementing => 6
    case Blocking => 7
    case Wrapping => 8
    case Advancing => 9
  }

  /** Each step of the main loop is one nearer to the next echo, and that is of the first
      datagram not yet echoed; no other step takes it further away. */
  lemma {:induction false} NearerToEcho(s: State, a: Step)
    requires Inv(s) && Restful(s) && Due(s) > 0 && Enabled(s, a)
    ensures s.arrived <= Apply(s, a).arrived && |s.echoed| < |s.arrived|
    ensures var t := Apply(s, a);
      if a == MainStep && ToEcho(s.main) == 1 then t.echoed == s.echoed + [Cut(s.arrived[|s.echoed|])]
      else
        && t.echoed == s.echoed && Due(t) > 0
        && (a == MainStep ==> ToEcho(t.main) == ToEcho(s.main) - 1)
        && (a != MainStep ==> ToEcho(t.main) <= ToEcho(s.main))
  {
    DueArrived(s);
    if a != MainStep {
      hide InPlace, Indexed, Echoed, Noticed;
      NoFurther(s, a);
      hide Apply, Enabled, Due, Phased, Shaped;
    } else if s.main.Sending? {
      SendEchoes(s);
      hide InPlace, Indexed, Echoed, Noticed;
    } else {
      hide InPlace, Indexed, Echoed, Noticed;
      MainNearer(s);
      hide Proceed, Due, Phased;
    }
  }

  lemma {:induction false} MainNearer(s: State)
    requires Shaped(s) && Phased(s) && Due(s) > 0 && Enabled(s, MainStep) && !s.main.Sending?
    ensures var t := Proceed(s);
      t.arrived == s.arrived && t.echoed == s.echoed && Due(t) > 0 && ToEcho(t.main) == ToEcho(s.main) - 1
  {
  }

  lemma {:induction false} NoFurther(s: State, a: Step)
    requires Shaped(s) && Phased(s) && Restful(s) && Due(s) > 0 && Enabled(s, a) && a != MainStep
    ensures var t := Apply(s, a);
      s.arrived <= t.arrived && t.echoed == s.echoed && Due(t) > 0 && ToEcho(t.main) <= ToEcho(s.main)
  {
  }

  lemma {:induction false} DueArrived(s: State)
    requires Inv(s) && Due(s) > 0
    ensures |s.echoed| < |s.arrived|
  {
    hide Indexed, Noticed, Slot;
  }

  function MainSteps(steps: seq<Step>, j: nat, k: nat): nat
    requires j <= k <= |steps|
  {
    if j == k then 0 else MainSteps(steps, j, k - 1) + if steps[k - 1] == MainStep then 1 else 0
  }

  /** In every run, from a state with a datagram queued and not yet echoed: once the main loop
      has taken as many steps as ToEcho says, at most nine, the first datagram not yet echoed
      has been, whatever arrives and however often the handler runs between. */
  lemma {:induction false} EchoesNext(steps: seq<Step>, states: seq<State>, j: nat, k: nat)
    requires IsRun(steps, states) && j <= k < |states| && Due(states[j]) > 0
    ensures |states[j].echoed| < |states[j].arrived|
    ensures var b, s := states[j], states[k];
      || b.echoed + [Cut(b.arrived[|b.echoed|])] <= s.echoed
      || (s.echoed == b.echoed && b.arrived <= s.arrived && Due(s) > 0
          && ToEcho(s.main) + MainSteps(steps, j, k) <= ToEcho(b.main))
    ensures MainSteps(steps, j, k) >= ToEcho(states[j].main) ==>
      states[j].echoed + [Cut(states[j].arrived[|states[j].echoed|])] <= states[k].echoed
  {
    hide Inv, Apply, Enabled, Shaped, Due, Cut;
    RunKeepsInv(steps, states, j);
    DueArrived(states[j]);
    if j < k {
      EchoesNext(steps, states, j, k - 1);
      RunKeepsInv(steps, states, k - 1);
      SleepsOnlyWhenEmpty(steps, states, k - 1);
      EchoesStay(states[k - 1], steps[k - 1]);
      if states[k - 1].echoed == states[j].echoed && Due(states[k - 1]) > 0 {
        NearerToEcho(states[k - 1], steps[k - 1]);
      }
    }
  }

  lemma {:induction false} EchoesStay(s: State, a: Step)
    requires Shaped(s) && Enabled(s, a)
    ensures s.echoed <= Apply(s, a).echoed
  {
  }

  /** In every run, between the read and the store of the decrement nqueue does not change and
      no handler is at work, since the signal is blocked. */
  lemma {:induction false} DecrementIsWhole(steps: seq<Step>, states: seq<State>, k: nat)
    requires IsRun(steps, states) && k < |states| && states[k].main.Storing?
    ensures states[k].main.n == states[k].nqueue && states[k].handler == Off
  {
    hide IsRun, InPlace, Indexed, Echoed, Noticed;
    RunKeepsInv(steps, states, k);
  }

  /** A SIGHUP during sigsuspend makes the main loop look at the queue and sleep again; nothing
      else has changed. */
  lemma {:induction false} HangupHarmless(s: State)
    requires Inv(s) && Restful(s) && Enabled(s, Hangup)
    ensures Enabled(Apply(s, Hangup), MainStep) && Shaped(Apply(s, Hangup))
    ensures Apply(Apply(s, Hangup), MainStep) == s
  {
  }

  // ---------- datagrams in their slots ----------

  /** A slot holds the sender and as many of the first bytes as fit. */
  lemma {:induction false} CutFits(d: Dgram)
    ensures Cut(d).from == d.from && Cut(d).data <= d.data
    ensures |Cut(d).data| == if |d.data| <= MAXDG then |d.data| else MAXDG
  {
  }
}
