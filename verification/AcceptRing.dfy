/**
 The prethreaded server: the main thread accepts connections and puts their
 descriptors into a ring, any number of workers take them out, under one mutex and
 one condition variable. A step below is one thread's action between two points
 where another thread could run; a run is any interleaving of them.
 */
module AcceptRing {
  import opened Histories

  const MAXNCLI: nat := 32

  /** The shared ring variables. */
  datatype Ring = Ring(clifd: seq<int>, iget: nat, iput: nat)

  function Advance(i: nat): nat {
    if i + 1 == MAXNCLI then 0 else i + 1
  }

  function Store(r: Ring, fd: int): Ring
    requires r.iput < |r.clifd|
  {
    r.(clifd := r.clifd[r.iput := fd])
  }

  function BumpPut(r: Ring): Ring {
    r.(iput := Advance(r.iput))
  }

  function BumpGet(r: Ring): Ring {
    r.(iget := Advance(r.iget))
  }

  /** Where a worker is. From Testing to Advanced it holds the mutex. */
  datatype Worker =
    | Locking             // about to lock the mutex
    | Testing             // at the test of the while loop
    | Sleeping            // inside cond_wait
    | Woken               // woken, about to lock the mutex again
    | Taken(fd: int)      // has read clifd[iget]
    | Advanced(fd: int)   // has advanced iget
    | Counting(fd: int)   // has unlocked, not yet counted
    | Serving(fd: int)    // runs web_child

  /** Where the main thread is. From Storing to Unlocking it holds the mutex. */
  datatype Main =
    | Accepting
    | Offering(fd: int)   // about to lock the mutex
    | Storing(fd: int)
    | Bumping(fd: int)    // has written clifd[iput]
    | Checking            // has advanced iput
    | Signalling
    | Unlocking
    | Quit                // err_quit ended the process

  datatype Owner = Free | MainHolds | WorkerHolds(i: nat)

  /** `accepted` and `handed` are histories: all descriptors accepted, in order, and
      all that were taken out, with the worker that took each. */
  datatype State = State(ring: Ring, main: Main, workers: seq<Worker>, owner: Owner,
                         counts: seq<nat>, accepted: seq<int>, handed: seq<(nat, int)>)

  datatype Step =
    | Accept(fd: int)
    | MainLock
    | StoreFd
    | AdvancePut
    | Check
    | SignalOne(w: nat)   // pthread_cond_signal wakes a sleeper; if it wakes more, they are Spurious steps
    | SignalNone
    | MainUnlock
    | Lock(w: nat)
    | Test(w: nat)        // the while test: cond_wait, or leave the loop and read clifd[iget]
    | Spurious(w: nat)    // cond_wait may return at any time
    | AdvanceGet(w: nat)
    | Unlock(w: nat)
    | Count(w: nat)
    | Finish(w: nat)

  function Init(n: nat): State {
    State(Ring(seq(MAXNCLI, i => 0), 0, 0), Accepting, seq(n, i => Locking), Free, seq(n, i => 0), [], [])
  }

  predicate Shaped(s: State) {
    |s.ring.clifd| == MAXNCLI && s.ring.iget < MAXNCLI && s.ring.iput < MAXNCLI && |s.workers| == |s.counts|
  }

  predicate Enabled(s: State, a: Step)
    requires Shaped(s)
  {
    s.main != Quit &&
    match a
    case Accept(_) => s.main == Accepting
    case MainLock => s.main.Offering? && s.owner == Free
    case StoreFd => s.main.Storing?
    case AdvancePut => s.main.Bumping?
    case Check => s.main == Checking
    case SignalOne(w) => s.main == Signalling && w < |s.workers| && s.workers[w] == Sleeping
    case SignalNone => s.main == Signalling && forall w :: 0 <= w < |s.workers| ==> s.workers[w] != Sleeping
    case MainUnlock => s.main == Unlocking
    case Lock(w) => w < |s.workers| && (s.workers[w] == Locking || s.workers[w] == Woken) && s.owner == Free
    case Test(w) => w < |s.workers| && s.workers[w] == Testing
    case Spurious(w) => w < |s.workers| && s.workers[w] == Sleeping
    case AdvanceGet(w) => w < |s.workers| && s.workers[w].Taken?
    case Unlock(w) => w < |s.workers| && s.workers[w].Advanced?
    case Count(w) => w < |s.workers| && s.workers[w].Counting?
    case Finish(w) => w < |s.workers| && s.workers[w].Serving?
  }

  function At(s: State, w: nat, to: Worker): State
    requires w < |s.workers|
  {
    s.(workers := s.workers[w := to])
  }

  function Apply(s: State, a: Step): State
    requires Shaped(s) && Enabled(s, a)
  {
    match a
    case Accept(fd) => s.(main := Offering(fd), accepted := s.accepted + [fd])
    case MainLock => s.(main := Storing(s.main.fd), owner := MainHolds)
    case StoreFd => s.(main := Bumping(s.main.fd), ring := Store(s.ring, s.main.fd))
    case AdvancePut => s.(main := Checking, ring := BumpPut(s.ring))
    case Check => s.(main := if s.ring.iput == s.ring.iget then Quit else Signalling)
    case SignalOne(w) => At(s, w, Woken).(main := Unlocking)
    case SignalNone => s.(main := Unlocking)
    case MainUnlock => s.(main := Accepting, owner := Free)
    case Lock(w) => At(s, w, Testing).(owner := WorkerHolds(w))
    case Test(w) =>
      if s.ring.iget == s.ring.iput then At(s, w, Sleeping).(owner := Free)
      else At(s, w, Taken(s.ring.clifd[s.ring.iget]))
    case Spurious(w) => At(s, w, Woken)
    case AdvanceGet(w) =>
      var fd := s.workers[w].fd;
      At(s, w, Advanced(fd)).(ring := BumpGet(s.ring), handed := s.handed + [(w, fd)])
    case Unlock(w) => At(s, w, Counting(s.workers[w].fd)).(owner := Free)
    case Count(w) => At(s, w, Serving(s.workers[w].fd)).(counts := s.counts[w := s.counts[w] + 1])
    case Finish(w) => At(s, w, Locking)
  }

  // ---------- the critical sections, on the shared array ----------

  class Shared {
    const clifd: array<int>
    var iget: nat
    var iput: nat

    ghost predicate Valid()
      reads this
    {
      clifd.Length == MAXNCLI && iget < MAXNCLI && iput < MAXNCLI
    }

    ghost function View(): Ring
      reads this, clifd
    {
      Ring(clifd[..], iget, iput)
    }

    constructor ()
      ensures Valid() && fresh(clifd) && View() == Init(0).ring
    {
      clifd := new int[MAXNCLI](_ => 0);
      iget, iput := 0, 0;
    }

    /** The main thread's part: true when the ring overflowed. */
    method Put(connfd: int) returns (overflow: bool)
      requires Valid()
      modifies this, clifd
      ensures Valid() && View() == BumpPut(Store(old(View()), connfd))
      ensures overflow <==> View().iput == View().iget
    {
      clifd[iput] := connfd;
      iput := iput + 1;
      if iput == MAXNCLI {
        iput := 0;
      }
      overflow := iput == iget;
    }

    /** A worker's part, once its loop has found the ring non-empty. */
    method Take() returns (connfd: int)
      requires Valid()
      modifies this
      ensures Valid() && View() == BumpGet(old(View())) && connfd == old(View()).clifd[old(View()).iget]
    {
      connfd := clifd[iget];
      iget := iget + 1;
      if iget == MAXNCLI {
        iget := 0;
      }
    }
  }

  // ---------- what every step keeps ----------

  predicate MainInside(m: Main) {
    m.Storing? || m.Bumping? || m == Checking || m == Signalling || m == Unlocking || m == Quit
  }

  predicate WorkerInside(w: Worker) {
    w == Testing || w.Taken? || w.Advanced?
  }

  /** Mutual exclusion: whoever is inside holds the mutex. */
  ghost predicate Exclusive(s: State) {
    && (MainInside(s.main) <==> s.owner == MainHolds)
    && (forall w :: 0 <= w < |s.workers| ==> (WorkerInside(s.workers[w]) <==> s.owner == WorkerHolds(w)))
    && (s.owner.WorkerHolds? ==> s.owner.i < |s.workers|)
  }

  /** Whether the last accepted descriptor is still on its way into the ring. */
  predicate InFlight(m: Main) {
    m.Offering? || m.Storing? || m.Bumping?
  }

  /** How many descriptors the ring holds. */
  function Queued(s: State): int {
    |s.accepted| - |s.handed| - if InFlight(s.main) then 1 else 0
  }

  /** The ring cell j places after iget. */
  function Cell(i: nat, j: nat): nat {
    (i + j) % MAXNCLI
  }

  /** The ring holds exactly the descriptors accepted and not handed out, in order, and
      is full only between the overflow and the check that ends the process. */
  ghost predicate Ordered(ring: Ring, main: Main, accepted: seq<int>, handed: seq<(nat, int)>)
    requires |ring.clifd| == MAXNCLI && ring.iget < MAXNCLI && ring.iput < MAXNCLI
  {
    var q := |accepted| - |handed| - if InFlight(main) then 1 else 0;
    && 0 <= q <= MAXNCLI
    && (q == MAXNCLI ==> main == Checking || main == Quit)
    && (main == Quit ==> q == MAXNCLI)
    && (main == Checking ==> q >= 1)
    && ring.iput == Cell(ring.iget, q)
    && (forall j :: 0 <= j < q ==> ring.clifd[Cell(ring.iget, j)] == accepted[|handed| + j])
    && (InFlight(main) ==> accepted[|accepted| - 1] == main.fd)
    && (main.Bumping? ==> ring.clifd[ring.iput] == main.fd)
  }

  ghost predicate InOrder(s: State)
    requires Shaped(s)
  {
    Ordered(s.ring, s.main, s.accepted, s.handed)
  }

  /** The k-th descriptor handed out is the k-th accepted. */
  ghost predicate Handed(s: State) {
    && |s.handed| <= |s.accepted|
    && (forall k :: 0 <= k < |s.handed| ==> s.handed[k].1 == s.accepted[k] && s.handed[k].0 < |s.workers|)
    && (forall w :: 0 <= w < |s.workers| && s.workers[w].Taken? ==>
          |s.handed| < |s.accepted| && Queued(s) > 0 && s.workers[w].fd == s.accepted[|s.handed|])
  }

  predicate HasUncounted(w: Worker) {
    w.Advanced? || w.Counting?
  }

  /** Each worker counts its own share, and serves the last descriptor of it. */
  ghost predicate Counted(s: State)
    requires Shaped(s)
  {
    forall w :: 0 <= w < |s.workers| ==>
      && s.counts[w] + (if HasUncounted(s.workers[w]) then 1 else 0) == |Share(s.handed, w)|
      && (HasUncounted(s.workers[w]) || s.workers[w].Serving? ==>
            Share(s.handed, w) != [] && s.workers[w].fd == Share(s.handed, w)[|Share(s.handed, w)| - 1])
  }

  /** A worker that is awake and will look at the ring before it serves anyone. */
  predicate Contends(w: Worker) {
    w == Locking || w == Woken || w == Testing || w.Taken?
  }

  function Contenders(ws: seq<Worker>): nat {
    if ws == [] then 0 else
      Contenders(ws[..|ws| - 1]) + if Contends(ws[|ws| - 1]) then 1 else 0
  }

  /** No wakeup is lost: while a worker sleeps, the contenders are at least as many as the
      queued descriptors, counting the signal that is due inside the main thread's section. */
  ghost predicate Awake(s: State) {
    (exists w :: 0 <= w < |s.workers| && s.workers[w] == Sleeping) ==>
      Queued(s) <= Contenders(s.workers) + if s.main == Checking || s.main == Signalling then 1 else 0
  }

  ghost predicate Inv(s: State) {
    Shaped(s) && Exclusive(s) && InOrder(s) && Handed(s) && Counted(s) && (s.main != Quit ==> Awake(s))
  }

  lemma {:induction false} ContendersUpdate(ws: seq<Worker>, w: nat, to: Worker)
    requires w < |ws|
    ensures Contenders(ws[w := to])
         == Contenders(ws) - (if Contends(ws[w]) then 1 else 0) + (if Contends(to) then 1 else 0)
  {
    var n := |ws| - 1;
    if w < n {
      ContendersUpdate(ws[..n], w, to);
      assert ws[w := to][..n] == ws[..n][w := to];
    } else {
      assert ws[w := to][..n] == ws[..n];
    }
  }

  lemma {:induction false} ExclusiveStep(s: State, a: Step)
    requires Shaped(s) && Exclusive(s) && Enabled(s, a)
    ensures Shaped(Apply(s, a)) && Exclusive(Apply(s, a))
  {
  }

  /** A put fills the cell behind the last queued one, which is never a queued one. */
  lemma {:induction false} PutInOrder(s: State)
    requires Shaped(s) && Exclusive(s) && InOrder(s) && s.main.Storing? && Enabled(s, StoreFd)
    ensures InOrder(Apply(s, StoreFd))
  {
    var q := Queued(s);
    forall j | 0 <= j < q
      ensures Cell(s.ring.iget, j) != s.ring.iput
    {
    }
  }

  lemma {:induction false} AdvancePutInOrder(s: State)
    requires Shaped(s) && Exclusive(s) && InOrder(s) && s.main.Bumping? && Enabled(s, AdvancePut)
    ensures InOrder(Apply(s, AdvancePut))
  {
    assert Cell(s.ring.iget, Queued(s) + 1) == Advance(Cell(s.ring.iget, Queued(s)));
  }

  lemma {:induction false} AdvanceGetInOrder(s: State, w: nat)
    requires Shaped(s) && Exclusive(s) && InOrder(s) && Handed(s) && Enabled(s, AdvanceGet(w))
    ensures InOrder(Apply(s, AdvanceGet(w)))
  {
    var i := s.ring.iget;
    assert forall j: nat :: Cell(Advance(i), j) == Cell(i, j + 1);
  }

  /** The main thread's other steps leave the ring alone; the check passes unless it is full. */
  lemma {:induction false} MainInOrder(s: State, a: Step)
    requires Shaped(s) && Exclusive(s) && InOrder(s) && Enabled(s, a)
    requires a.Accept? || a.MainLock? || a.Check? || a.SignalOne? || a.SignalNone? || a.MainUnlock?
    ensures InOrder(Apply(s, a))
  {
    hide Exclusive;
  }

  lemma {:induction false} InOrderStep(s: State, a: Step)
    requires Shaped(s) && Exclusive(s) && InOrder(s) && Handed(s) && Enabled(s, a)
    ensures Shaped(Apply(s, a)) && InOrder(Apply(s, a))
  {
    hide Ordered;
    match a
    case StoreFd => PutInOrder(s);
    case AdvancePut => AdvancePutInOrder(s);
    case AdvanceGet(w) => AdvanceGetInOrder(s, w);
    case Accept(_) | MainLock | Check | SignalOne(_) | SignalNone | MainUnlock => MainInOrder(s, a);
    case Lock(_) | Test(_) | Spurious(_) | Unlock(_) | Count(_) | Finish(_) =>
  }

  lemma {:induction false} HandedStep(s: State, a: Step)
    requires Shaped(s) && Exclusive(s) && InOrder(s) && Handed(s) && Enabled(s, a)
    ensures Handed(Apply(s, a))
  {
    assert Cell(s.ring.iget, 0) == s.ring.iget;
  }

  /** One worker moves: only its own share and count matter. */
  lemma {:induction false} CountedMove(s: State, t: State, w: nat)
    requires Shaped(s) && Shaped(t) && Counted(s) && w < |s.workers| == |t.workers|
    requires forall x :: 0 <= x < |s.workers| && x != w ==>
               t.workers[x] == s.workers[x] && t.counts[x] == s.counts[x] && Share(t.handed, x) == Share(s.handed, x)
    requires t.counts[w] + (if HasUncounted(t.workers[w]) then 1 else 0) == |Share(t.handed, w)|
    requires HasUncounted(t.workers[w]) || t.workers[w].Serving? ==>
               Share(t.handed, w) != [] && t.workers[w].fd == Share(t.handed, w)[|Share(t.handed, w)| - 1]
    ensures Counted(t)
  {
    hide Share;
  }

  lemma {:induction false} CountedStep(s: State, a: Step)
    requires Shaped(s) && Counted(s) && Enabled(s, a)
    ensures Shaped(Apply(s, a)) && Counted(Apply(s, a))
  {
    hide Share;
    var t := Apply(s, a);
    if a.AdvanceGet? {
      forall w | 0 <= w < |s.workers|
        ensures Share(t.handed, w) == Share(s.handed, w) + if a.w == w then [s.workers[a.w].fd] else []
      {
        ShareSnoc(s.handed, (a.w, s.workers[a.w].fd), w);
      }
      CountedMove(s, t, a.w);
    }
  }

  /** A worker only goes to sleep when nothing is queued. */
  lemma {:induction false} TestAwake(s: State, w: nat)
    requires Shaped(s) && Exclusive(s) && InOrder(s) && Awake(s) && Enabled(s, Test(w))
    ensures Awake(Apply(s, Test(w)))
  {
    if s.ring.iget == s.ring.iput {
      ContendersUpdate(s.workers, w, Sleeping);
      assert Queued(s) == 0;
    } else {
      ContendersUpdate(s.workers, w, Taken(s.ring.clifd[s.ring.iget]));
    }
  }

  /** A step that moves one worker between states other than Sleeping keeps the balance,
      when it does not give up contention without taking a descriptor. */
  lemma {:induction false} MoveAwake(s: State, w: nat, to: Worker, t: State)
    requires w < |s.workers| && Awake(s) && to != Sleeping
    requires t.workers == s.workers[w := to] && t.main == s.main && Queued(t) <= Queued(s)
    requires Contends(s.workers[w]) && !Contends(to) ==> Queued(t) < Queued(s)
    ensures Awake(t)
  {
    ContendersUpdate(s.workers, w, to);
    forall x | 0 <= x < |t.workers| && t.workers[x] == Sleeping
      ensures s.workers[x] == Sleeping
    {
    }
  }

  /** A put that leaves a sleeper behind is followed by a signal, which makes up for it. */
  lemma {:induction false} SignalAwake(s: State, w: nat)
    requires Shaped(s) && Awake(s) && Enabled(s, SignalOne(w))
    ensures Awake(Apply(s, SignalOne(w)))
  {
    ContendersUpdate(s.workers, w, Woken);
  }

  lemma {:induction false} AwakeStep(s: State, a: Step)
    requires Shaped(s) && Exclusive(s) && InOrder(s) && Awake(s) && Enabled(s, a)
    ensures Apply(s, a).main != Quit ==> Awake(Apply(s, a))
  {
    hide Exclusive, InOrder, Contenders;
    var t := Apply(s, a);
    match a
    case SignalOne(w) => SignalAwake(s, w);
    case Test(w) => TestAwake(s, w);
    case Lock(w) => MoveAwake(s, w, Testing, t);
    case Spurious(w) => MoveAwake(s, w, Woken, t);
    case AdvanceGet(w) => MoveAwake(s, w, Advanced(s.workers[w].fd), t);
    case Unlock(w) => MoveAwake(s, w, Counting(s.workers[w].fd), t);
    case Count(w) => MoveAwake(s, w, Serving(s.workers[w].fd), t);
    case Finish(w) => MoveAwake(s, w, Locking, t);
    case _ =>
  }

  lemma {:induction false} InvStep(s: State, a: Step)
    requires Inv(s) && Enabled(s, a)
    ensures Inv(Apply(s, a))
  {
    hide Exclusive, InOrder, Handed, Counted, Awake, Apply;
    ExclusiveStep(s, a);
    InOrderStep(s, a);
    HandedStep(s, a);
    CountedStep(s, a);
    AwakeStep(s, a);
  }

  // ---------- every run ----------

  /** `states` is the run of n workers and the main thread that takes `steps`. */
  ghost predicate IsRun(n: nat, steps: seq<Step>, states: seq<State>) {
    && |states| == |steps| + 1 && states[0] == Init(n)
    && forall k :: 0 <= k < |steps| ==>
         Shaped(states[k]) && Enabled(states[k], steps[k]) && states[k + 1] == Apply(states[k], steps[k])
  }

  lemma {:induction false} RunKeepsInv(n: nat, steps: seq<Step>, states: seq<State>, k: nat)
    requires IsRun(n, steps, states) && k < |states|
    ensures Inv(states[k]) && |states[k].workers| == n
  {
    hide Inv, Apply, Enabled;
    if k == 0 {
      InitInv(n);
    } else {
      RunKeepsInv(n, steps, states, k - 1);
      InvStep(states[k - 1], steps[k - 1]);
      WorkersStay(states[k - 1], steps[k - 1]);
    }
  }

  lemma {:induction false} InitInv(n: nat)
    ensures Inv(Init(n)) && |Init(n).workers| == n
  {
  }

  lemma {:induction false} WorkersStay(s: State, a: Step)
    requires Shaped(s) && Enabled(s, a)
    ensures |Apply(s, a).workers| == |s.workers|
  {
  }

  /** In every reachable state: descriptors are handed out in accept order, each to one
      worker; the ring holds the rest, at most MAXNCLI - 1 outside the overflow window;
      each worker's count is the size of its share. */
  lemma {:induction false} EachOnceInOrder(n: nat, steps: seq<Step>, states: seq<State>, k: nat)
    requires IsRun(n, steps, states) && k < |states|
    ensures var s := states[k];
      && |s.workers| == n && |s.handed| <= |s.accepted|
      && (forall j :: 0 <= j < |s.handed| ==> s.handed[j].1 == s.accepted[j] && s.handed[j].0 < n)
      && Queued(s) >= 0 && Shaped(s)
      && (forall j :: 0 <= j < Queued(s) ==> s.ring.clifd[Cell(s.ring.iget, j)] == s.accepted[|s.handed| + j])
      && (s.main != Checking && s.main != Quit ==> Queued(s) <= MAXNCLI - 1)
      && (s.main == Quit ==> Queued(s) == MAXNCLI)
      && (forall w :: 0 <= w < n ==>
            s.counts[w] + (if HasUncounted(s.workers[w]) then 1 else 0) == |Share(s.handed, w)|)
  {
    hide IsRun, Share, Cell;
    RunKeepsInv(n, steps, states, k);
  }

  /** In every reachable state where the mutex is free and a descriptor is queued, a
      worker that is awake can lock the mutex now, or all workers are serving. */
  lemma {:induction false} NeverStuck(n: nat, steps: seq<Step>, states: seq<State>, k: nat)
    requires IsRun(n, steps, states) && k < |states|
    requires states[k].owner == Free && Queued(states[k]) > 0
    ensures Shaped(states[k]) && |states[k].workers| == n
    ensures var s := states[k];
      || (exists w :: 0 <= w < n && Enabled(s, Lock(w)))
      || (forall w :: 0 <= w < n ==> s.workers[w].Counting? || s.workers[w].Serving?)
  {
    hide IsRun, InOrder, Handed, Counted;
    RunKeepsInv(n, steps, states, k);
    var s := states[k];
    if w :| 0 <= w < n && s.workers[w] == Sleeping {
      var c := FindContender(s.workers);
      assert Enabled(s, Lock(c));
    } else if w :| 0 <= w < n && Contends(s.workers[w]) {
      assert Enabled(s, Lock(w));
    }
  }

  lemma {:induction false} FindContender(ws: seq<Worker>) returns (w: nat)
    requires Contenders(ws) > 0
    ensures w < |ws| && Contends(ws[w])
  {
    if Contends(ws[|ws| - 1]) {
      w := |ws| - 1;
    } else {
      w := FindContender(ws[..|ws| - 1]);
    }
  }

  /** While a worker sleeps, and the main thread is not between a put and its signal, the
      contenders are at least as many as the queued descriptors. */
  lemma {:induction false} NoLostWakeup(n: nat, steps: seq<Step>, states: seq<State>, k: nat, w: nat)
    requires IsRun(n, steps, states) && k < |states| && w < |states[k].workers| && states[k].workers[w] == Sleeping
    requires states[k].main != Checking && states[k].main != Signalling && states[k].main != Quit
    ensures Queued(states[k]) <= Contenders(states[k].workers)
  {
    hide IsRun, InOrder, Handed, Counted;
    RunKeepsInv(n, steps, states, k);
  }

  // ---------- what a worker that finds the ring non-empty does ----------

  /** The worker's own actions; the others are those of other threads, and waking it. */
  predicate OwnStep(a: Step, w: nat) {
    a == Lock(w) || a == Test(w) || a == AdvanceGet(w) || a == Unlock(w) || a == Count(w) || a == Finish(w)
  }

  function OwnSteps(steps: seq<Step>, w: nat, j: nat, k: nat): nat
    requires j <= k <= |steps|
  {
    if j == k then 0 else OwnSteps(steps, w, j, k - 1) + if OwnStep(steps[k - 1], w) then 1 else 0
  }

  /** Worker w has taken m of its own steps since it stood at its test in state b, with a
      descriptor queued: it reads the first one queued, hands it to itself, leaves the
      section, counts it, serves it, and comes back. */
  ghost predicate Stage(b: State, s: State, w: nat, m: nat)
    requires w < |b.workers| == |b.counts| && |b.handed| < |b.accepted|
  {
    var fd := b.accepted[|b.handed|];
    && w < |s.workers| == |s.counts| && b.accepted <= s.accepted
    && (m <= 1 ==> s.handed == b.handed && Queued(s) == Queued(b))
    && (m >= 2 ==> b.handed + [(w, fd)] <= s.handed)
    && (m <= 3 ==> s.counts[w] == b.counts[w])
    && (m >= 4 ==> s.counts[w] == b.counts[w] + 1)
    && match m
       case 0 => s.workers[w] == Testing
       case 1 => s.workers[w] == Taken(fd)
       case 2 => s.workers[w] == Advanced(fd) && s.handed == b.handed + [(w, fd)]
       case 3 => s.workers[w] == Counting(fd)
       case 4 => s.workers[w] == Serving(fd)
       case 5 => s.workers[w] == Locking
       case _ => true
  }

  /** Nobody else moves a worker that is not asleep, or touches the ring's front while it
      holds the mutex. */
  lemma {:induction false} OthersKeep(s: State, a: Step, w: nat)
    requires Inv(s) && Enabled(s, a) && !OwnStep(a, w) && w < |s.workers| && s.workers[w] != Sleeping
    ensures var t := Apply(s, a);
      && |t.workers| == |s.workers| == |t.counts| && t.workers[w] == s.workers[w] && t.counts[w] == s.counts[w]
      && s.accepted <= t.accepted && s.handed <= t.handed
      && (s.owner == WorkerHolds(w) ==> t.handed == s.handed && Queued(t) == Queued(s))
  {
    hide InOrder, Handed, Counted, Awake;
  }

  lemma {:induction false} OwnStage(b: State, s: State, w: nat, m: nat, a: Step)
    requires Inv(b) && w < |b.workers| && b.workers[w] == Testing && Queued(b) > 0
    requires Inv(s) && Enabled(s, a) && OwnStep(a, w) && m < 5
    requires |b.handed| < |b.accepted| && Stage(b, s, w, m)
    ensures Stage(b, Apply(s, a), w, m + 1)
  {
    hide Handed, Counted, Awake;
    if m == 0 {
      FrontCell(s);
    }
  }

  /** A ring that holds something has its first descriptor at iget, and its indices differ
      unless it is full. */
  lemma {:induction false} FrontCell(s: State)
    requires Shaped(s) && InOrder(s) && Exclusive(s) && Queued(s) > 0 && s.owner != MainHolds
    ensures |s.handed| < |s.accepted| && s.ring.clifd[s.ring.iget] == s.accepted[|s.handed|]
    ensures s.ring.iget != s.ring.iput
  {
    assert Cell(s.ring.iget, 0) == s.ring.iget;
  }

  lemma {:induction false} HasFront(s: State)
    requires Queued(s) > 0
    ensures |s.handed| < |s.accepted|
  {
  }

  /** In every run, a worker that stands at its test with a descriptor queued goes through
      these stages by its own next steps, whatever the other threads do between. */
  lemma {:induction false} TakesNext(n: nat, steps: seq<Step>, states: seq<State>, w: nat, j: nat, k: nat)
    requires IsRun(n, steps, states) && j <= k < |states| && w < |states[j].workers|
    requires states[j].workers[w] == Testing && Queued(states[j]) > 0 && OwnSteps(steps, w, j, k) <= 5
    ensures |states[j].workers| == |states[j].counts| && |states[j].handed| < |states[j].accepted|
    ensures Stage(states[j], states[k], w, OwnSteps(steps, w, j, k))
  {
    hide Inv, Apply, Enabled;
    HasFront(states[j]);
    RunKeepsInv(n, steps, states, j);
    CountsMatch(states[j]);
    if j < k {
      TakesNext(n, steps, states, w, j, k - 1);
      RunKeepsInv(n, steps, states, k - 1);
      StageStep(states[j], states[k - 1], w, OwnSteps(steps, w, j, k - 1), steps[k - 1]);
    }
  }

  lemma {:induction false} CountsMatch(s: State)
    requires Inv(s)
    ensures |s.workers| == |s.counts|
  {
  }

  lemma {:induction false} StageStep(b: State, s: State, w: nat, m: nat, a: Step)
    requires Inv(b) && w < |b.workers| == |b.counts| && b.workers[w] == Testing && Queued(b) > 0
    requires Inv(s) && Shaped(s) && Enabled(s, a) && |b.handed| < |b.accepted| && Stage(b, s, w, m)
    requires (if OwnStep(a, w) then m + 1 else m) <= 5
    ensures Stage(b, Apply(s, a), w, if OwnStep(a, w) then m + 1 else m)
  {
    if OwnStep(a, w) {
      OwnStage(b, s, w, m, a);
    } else {
      hide Inv, Apply, Enabled, Queued;
      OthersKeep(s, a, w);
      if m <= 2 {
        Holding(s, w);
      }
    }
  }

  lemma {:induction false} Holding(s: State, w: nat)
    requires Inv(s) && w < |s.workers| && WorkerInside(s.workers[w])
    ensures s.owner == WorkerHolds(w)
  {
  }

  // ---------- runs that hand everything out ----------

  ghost predicate Reachable(n: nat, s: State) {
    exists steps, states :: IsRun(n, steps, states) && states[|steps|] == s
  }

  lemma {:induction false} Reach(n: nat, s: State, a: Step)
    requires Reachable(n, s) && Shaped(s) && Enabled(s, a)
    ensures Reachable(n, Apply(s, a)) && Shaped(Apply(s, a))
  {
    hide Apply, Enabled, Shaped, Init;
    var steps, states :| IsRun(n, steps, states) && states[|steps|] == s;
    var steps', states' := steps + [a], states + [Apply(s, a)];
    forall k | 0 <= k < |steps'|
      ensures Shaped(states'[k]) && Enabled(states'[k], steps'[k]) && states'[k + 1] == Apply(states'[k], steps'[k])
    {
      assert k < |steps| ==> states'[k] == states[k] && states'[k + 1] == states[k + 1] && steps'[k] == steps[k];
    }
    assert IsRun(n, steps', states') && states'[|steps'|] == Apply(s, a);
    ReachableInv(n, Apply(s, a));
    InvShaped(Apply(s, a));
  }

  lemma {:induction false} InvShaped(s: State)
    requires Inv(s)
    ensures Shaped(s)
  {
  }

  lemma {:induction false} ReachableInv(n: nat, s: State)
    requires Reachable(n, s)
    ensures Inv(s) && |s.workers| == n
  {
    hide Inv, Apply, Enabled, Shaped;
    var steps, states :| IsRun(n, steps, states) && states[|steps|] == s;
    RunKeepsInv(n, steps, states, |steps|);
  }

  /** Everybody is between two turns. */
  predicate Idle(s: State) {
    s.main == Accepting && s.owner == Free && forall w :: 0 <= w < |s.workers| ==> s.workers[w] == Locking
  }

  lemma {:induction false} PutOne(n: nat, s: State, fd: int) returns (t: State)
    requires Reachable(n, s) && Shaped(s) && Idle(s) && Queued(s) < MAXNCLI - 1
    ensures Reachable(n, t) && Shaped(t) && Idle(t) && t.accepted == s.accepted + [fd] && t.handed == s.handed
  {
    var u := Stored(n, s, fd);
    hide Reachable;
    Reach(n, u, Check);
    assert u.ring.iput != u.ring.iget by { NotFull(n, u); }
    var v := Apply(u, Check);
    Reach(n, v, SignalNone);
    var x := Apply(v, SignalNone);
    Reach(n, x, MainUnlock);
    t := Apply(x, MainUnlock);
  }

  lemma {:induction false} Stored(n: nat, s: State, fd: int) returns (u: State)
    requires Reachable(n, s) && Shaped(s) && Idle(s)
    ensures Reachable(n, u) && Shaped(u) && u.main == Checking && u.workers == s.workers
    ensures u.accepted == s.accepted + [fd] && u.handed == s.handed
  {
    hide Reachable;
    Reach(n, s, Accept(fd));
    var a := Apply(s, Accept(fd));
    Reach(n, a, MainLock);
    var b := Apply(a, MainLock);
    Reach(n, b, StoreFd);
    var c := Apply(b, StoreFd);
    Reach(n, c, AdvancePut);
    u := Apply(c, AdvancePut);
  }

  lemma {:induction false} NotFull(n: nat, u: State)
    requires Reachable(n, u) && Shaped(u) && u.main == Checking && Queued(u) < MAXNCLI
    ensures u.ring.iput != u.ring.iget
  {
    ReachableInv(n, u);
    hide Handed, Counted, Awake, Exclusive;
    assert InOrder(u);
  }

  lemma {:induction false} TakeOne(n: nat, s: State) returns (t: State)
    requires n >= 1 && Reachable(n, s) && Shaped(s) && Idle(s) && Queued(s) > 0
    ensures Reachable(n, t) && Shaped(t) && Idle(t) && t.accepted == s.accepted
    ensures |s.handed| < |s.accepted| && t.handed == s.handed + [(0, s.accepted[|s.handed|])]
  {
    ReachableInv(n, s);
    hide Reachable, Handed, Counted, Awake;
    FrontCell(s);
    hide Inv, InOrder;
    Reach(n, s, Lock(0));
    var a := Apply(s, Lock(0));
    Reach(n, a, Test(0));
    var b := Apply(a, Test(0));
    Reach(n, b, AdvanceGet(0));
    var c := Apply(b, AdvanceGet(0));
    t := BackToLock(n, c, 0);
  }

  lemma {:induction false} BackToLock(n: nat, c: State, w: nat) returns (t: State)
    requires Reachable(n, c) && Shaped(c) && w < |c.workers| && c.workers[w].Advanced? && c.main == Accepting
    requires forall x :: 0 <= x < |c.workers| && x != w ==> c.workers[x] == Locking
    ensures Reachable(n, t) && Shaped(t) && Idle(t) && t.accepted == c.accepted && t.handed == c.handed
  {
    hide Reachable;
    Reach(n, c, Unlock(w));
    var d := Apply(c, Unlock(w));
    Reach(n, d, Count(w));
    var e := Apply(d, Count(w));
    Reach(n, e, Finish(w));
    t := Apply(e, Finish(w));
  }

  lemma {:induction false} Start(n: nat)
    ensures Reachable(n, Init(n)) && Shaped(Init(n)) && Idle(Init(n))
  {
    assert IsRun(n, [], [Init(n)]);
  }

  /** The ring holds any sequence of fewer descriptors than it has cells. */
  lemma {:induction false} HoldsAll(n: nat, fds: seq<int>) returns (s: State)
    requires |fds| < MAXNCLI
    ensures Reachable(n, s) && Shaped(s) && Idle(s) && s.accepted == fds && s.handed == []
  {
    hide Reachable, Idle, Shaped;
    if fds == [] {
      Start(n);
      s := Init(n);
    } else {
      var p := HoldsAll(n, fds[..|fds| - 1]);
      IdleQueue(p);
      s := PutOne(n, p, fds[|fds| - 1]);
    }
  }

  lemma {:induction false} IdleQueue(s: State)
    requires Idle(s)
    ensures Queued(s) == |s.accepted| - |s.handed|
  {
  }

  /** From there all of them are handed out, in order. */
  lemma {:induction false} DrainsAll(n: nat, s: State) returns (t: State)
    requires n >= 1 && Reachable(n, s) && Shaped(s) && Idle(s) && |s.handed| <= |s.accepted|
    ensures Reachable(n, t) && Shaped(t) && Idle(t) && t.accepted == s.accepted && |t.handed| == |s.accepted|
    decreases |s.accepted| - |s.handed|
  {
    hide Reachable, Idle, Shaped;
    IdleQueue(s);
    if |s.handed| == |s.accepted| {
      t := s;
    } else {
      var u := TakeOne(n, s);
      t := DrainsAll(n, u);
    }
  }

  /** Any sequence of descriptors, however long, is handed out in some run, each once and in
      accept order; one of fewer than MAXNCLI also when all of it was queued before. */
  lemma {:induction false} HandsAllOut(n: nat, fds: seq<int>) returns (t: State)
    requires n >= 1
    ensures Reachable(n, t) && t.accepted == fds && |t.handed| == |fds|
    ensures forall k :: 0 <= k < |fds| ==> t.handed[k].1 == fds[k]
  {
    var u := HandsOut(n, fds);
    t := u;
    ReachableInv(n, t);
  }

  lemma {:induction false} HandsOut(n: nat, fds: seq<int>) returns (t: State)
    requires n >= 1
    ensures Reachable(n, t) && Shaped(t) && Idle(t) && t.accepted == fds && |t.handed| == |fds|
  {
    hide Reachable, Idle, Shaped;
    if fds == [] {
      Start(n);
      t := Init(n);
    } else {
      var p := HandsOut(n, fds[..|fds| - 1]);
      IdleQueue(p);
      var q := PutOne(n, p, fds[|fds| - 1]);
      IdleQueue(q);
      t := TakeOne(n, q);
    }
  }

  lemma {:induction false} QueuedThenHandedOut(n: nat, fds: seq<int>) returns (s: State, t: State)
    requires n >= 1 && |fds| < MAXNCLI
    ensures Reachable(n, s) && s.accepted == fds && s.handed == [] && Queued(s) == |fds|
    ensures Reachable(n, t) && t.accepted == fds && |t.handed| == |fds|
    ensures forall k :: 0 <= k < |fds| ==> t.handed[k].1 == fds[k]
  {
    s := HoldsAll(n, fds);
    IdleQueue(s);
    t := DrainsAll(n, s);
    ReachableInv(n, t);
  }
}
