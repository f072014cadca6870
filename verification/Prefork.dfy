/**
 The preforked server that passes descriptors: the parent selects on the listening
 socket and on one stream pipe per child, hands each accepted descriptor to the first
 child it believes idle, and learns from a byte on the pipe that a child is idle again.
 The parent works with the descriptor set of its last select, which goes stale while
 the children run.
 */
module Prefork {
  import opened Histories

  /** Where the parent is. */
  datatype Parent =
    | Selecting
    | Deciding            // select has returned
    | Accepting
    | Finding(fd: int, i: nat)   // looks for an idle child, has tried the first i
    | Passing(fd: int, i: nat)   // has marked child i, not yet written to its pipe
    | Scanning(i: nat)           // looks for children that are ready again
    | Quit                       // "no available children"

  datatype Worker = Reading | Serving(fd: int)

  /** The parent's table entry for a child, the two directions of its pipe, and the child. */
  datatype Child = Child(status: int, count: nat, toChild: seq<int>, ready: nat, worker: Worker, done: seq<int>)

  /** `rset` and `listen` are what the last select reported. `newly` are the children
      assigned since; `accepted` and `passed` are histories. */
  datatype State = State(
    parent: Parent, children: seq<Child>, navail: int, nsel: int, rset: set<nat>, listen: bool,
    newly: set<nat>, accepted: seq<int>, passed: seq<(nat, int)>)

  datatype Step =
    | Select(readable: set<nat>, incoming: bool)
    | Decide
    | Accept(fd: int)
    | Find
    | Pass
    | Scan
    | ChildReads(i: nat)   // Read_fd
    | ChildDone(i: nat)    // web_child, Close, and the byte back to the parent

  function Init(n: nat): State {
    State(Selecting, seq(n, i => Child(0, 0, [], 0, Reading, [])), n, 0, {}, false, {}, [], [])
  }

  predicate Enabled(s: State, a: Step) {
    match a
    case Select(readable, incoming) =>
      && s.parent == Selecting
      && (forall i :: i in readable ==> i < |s.children| && s.children[i].ready > 0)
      && (incoming ==> s.navail > 0) // otherwise the listening socket is not in the set
      && (readable != {} || incoming)
    case Decide => s.parent == Deciding
    case Accept(_) => s.parent == Accepting
    case Find => s.parent.Finding?
    case Pass => s.parent.Passing? && s.parent.i < |s.children|
    case Scan =>
      && s.parent.Scanning?
      && (s.parent.i in s.rset && s.parent.i < |s.children| ==> s.children[s.parent.i].ready > 0) // Read blocks
    case ChildReads(i) => i < |s.children| && s.children[i].worker == Reading && s.children[i].toChild != []
    case ChildDone(i) => i < |s.children| && s.children[i].worker.Serving?
  }

  function At(s: State, i: nat, c: Child): State
    requires i < |s.children|
  {
    s.(children := s.children[i := c])
  }

  function Apply(s: State, a: Step): State
    requires Enabled(s, a)
  {
    match a
    case Select(readable, incoming) =>
      s.(parent := Deciding, rset := readable, listen := incoming, nsel := |readable| + (if incoming then 1 else 0),
          newly := {})
    case Decide => s.(parent := if s.listen then Accepting else Scanning(0))
    case Accept(fd) => s.(parent := Finding(fd, 0), accepted := s.accepted + [fd])
    case Find =>
      var fd, i := s.parent.fd, s.parent.i;
      if i >= |s.children| then s.(parent := Quit)
      else if s.children[i].status != 0 then s.(parent := Finding(fd, i + 1))
      else
        var c := s.children[i];
        At(s, i, c.(status := 1, count := c.count + 1)).(parent := Passing(fd, i), navail := s.navail - 1,
            newly := s.newly + {i})
    case Pass =>
      var fd, i := s.parent.fd, s.parent.i;
      var c := s.children[i];
      At(s, i, c.(toChild := c.toChild + [fd])).(nsel := s.nsel - 1, passed := s.passed + [(i, fd)],
        parent := if s.nsel - 1 == 0 then Selecting else Scanning(0))
    case Scan =>
      var i := s.parent.i;
      if i >= |s.children| then s.(parent := Selecting)
      else if i in s.rset then
        var c := s.children[i];
        At(s, i, c.(status := 0, ready := c.ready - 1)).(navail := s.navail + 1, nsel := s.nsel - 1,
          parent := if s.nsel - 1 == 0 then Selecting else Scanning(i + 1))
      else s.(parent := Scanning(i + 1))
    case ChildReads(i) =>
      var c := s.children[i];
      At(s, i, c.(worker := Serving(c.toChild[0]), toChild := c.toChild[1..]))
    case ChildDone(i) =>
      var c := s.children[i];
      At(s, i, c.(worker := Reading, done := c.done + [c.worker.fd], ready := c.ready + 1))
  }

  // ---------- what every step keeps ----------

  /** What a child owes the parent: an unread descriptor, one being served, or a byte. */
  function Owed(c: Child): nat {
    |c.toChild| + (if c.worker.Serving? then 1 else 0) + c.ready
  }

  ghost predicate IsPassing(s: State, i: nat) {
    s.parent.Passing? && s.parent.i == i
  }

  /** A busy child owes exactly one thing, an idle one nothing; a child that was just
      marked busy is about to get its descriptor. */
  ghost predicate Owing(s: State) {
    forall i :: 0 <= i < |s.children| ==>
      && (s.children[i].status == 0 || s.children[i].status == 1)
      && Owed(s.children[i]) + (if IsPassing(s, i) then 1 else 0) == s.children[i].status
  }

  function Idle(cs: seq<Child>): nat {
    if cs == [] then 0 else Idle(cs[..|cs| - 1]) + if cs[|cs| - 1].status == 0 then 1 else 0
  }

  lemma {:induction false} IdleUpdate(cs: seq<Child>, i: nat, c: Child)
    requires i < |cs|
    ensures Idle(cs[i := c]) == Idle(cs) - (if cs[i].status == 0 then 1 else 0) + (if c.status == 0 then 1 else 0)
  {
    var n := |cs| - 1;
    if i < n {
      IdleUpdate(cs[..n], i, c);
      assert cs[i := c][..n] == cs[..n][i := c];
    } else {
      assert cs[i := c][..n] == cs[..n];
    }
  }

  lemma {:induction false} SomeIdle(cs: seq<Child>)
    requires Idle(cs) > 0
    ensures exists i :: 0 <= i < |cs| && cs[i].status == 0
  {
    if cs[|cs| - 1].status != 0 {
      SomeIdle(cs[..|cs| - 1]);
      var i :| 0 <= i < |cs| - 1 && cs[..|cs| - 1][i].status == 0;
      assert cs[i].status == 0;
    }
  }

  /** The reported children the parent has not come to yet. */
  function Left(rset: set<nat>, i: nat): set<nat> {
    set x | x in rset && x >= i
  }

  function From(p: Parent): nat {
    if p.Scanning? then p.i else 0
  }

  /** Between two selects: the children still to be handled have their byte waiting, none
      of them was assigned since, and nsel counts them and the listening socket. */
  ghost predicate Fresh(s: State) {
    s.parent != Selecting && s.parent != Quit ==>
      && (forall i :: i in Left(s.rset, From(s.parent)) ==> i < |s.children| && s.children[i].ready > 0)
      && s.rset !! s.newly
      && s.nsel == |Left(s.rset, From(s.parent))| + (if s.listen && !s.parent.Scanning? then 1 else 0)
      && s.nsel > 0
      && (s.parent.Accepting? || s.parent.Finding? || s.parent.Passing? ==> s.listen)
  }

  /** navail counts the idle children, and the search for one cannot run off the table. */
  ghost predicate Available(s: State) {
    && s.navail == Idle(s.children)
    && (s.listen && (s.parent == Deciding || s.parent == Accepting || s.parent.Finding?) ==> s.navail > 0)
    && (s.parent.Finding? ==>
          s.parent.i <= |s.children| && forall j :: 0 <= j < s.parent.i ==> s.children[j].status != 0)
    && (s.parent.Passing? ==> s.parent.i < |s.children|)
    && s.parent != Quit
  }

  ghost predicate InHand(p: Parent) {
    p.Finding? || p.Passing?
  }

  function Current(w: Worker): seq<int> {
    if w.Serving? then [w.fd] else []
  }

  /** Every accepted descriptor is passed once, in order; each child works through its
      own share in order; the counts are the sizes of the shares. */
  ghost predicate Conserved(s: State) {
    && |s.accepted| == |s.passed| + (if InHand(s.parent) then 1 else 0)
    && (forall k :: 0 <= k < |s.passed| ==> s.passed[k].1 == s.accepted[k] && s.passed[k].0 < |s.children|)
    && (InHand(s.parent) ==> s.accepted[|s.passed|] == s.parent.fd)
    && (forall i :: 0 <= i < |s.children| ==>
          var c := s.children[i];
          && Share(s.passed, i) == c.done + Current(c.worker) + c.toChild
          && c.count == |Share(s.passed, i)| + if IsPassing(s, i) then 1 else 0)
  }

  lemma {:induction false} OwingStep(s: State, a: Step)
    requires Owing(s) && Fresh(s) && Available(s) && Enabled(s, a)
    ensures Owing(Apply(s, a))
  {
  }

  lemma {:induction false} LeftNext(rset: set<nat>, i: nat)
    ensures Left(rset, 0) == rset
    ensures |Left(rset, i)| == |Left(rset, i + 1)| + if i in rset then 1 else 0
  {
    if i in rset {
      assert Left(rset, i) == Left(rset, i + 1) + {i};
    } else {
      assert Left(rset, i) == Left(rset, i + 1);
    }
  }

  lemma {:induction false} ScanFresh(s: State)
    requires Owing(s) && Fresh(s) && Enabled(s, Scan)
    ensures Fresh(Apply(s, Scan))
  {
    var i := s.parent.i;
    LeftNext(s.rset, i);
    ScanInside(s);
  }

  /** Something is always left to be found while the parent scans. */
  lemma {:induction false} ScanInside(s: State)
    requires Fresh(s) && s.parent.Scanning?
    ensures s.parent.i < |s.children|
  {
    var x :| x in Left(s.rset, s.parent.i);
  }

  /** A child is assigned only when idle, so its pipe held no byte at the select. */
  lemma {:induction false} FindFresh(s: State)
    requires Owing(s) && Fresh(s) && Enabled(s, Find)
    ensures Fresh(Apply(s, Find))
  {
    LeftNext(s.rset, 0);
  }

  lemma {:induction false} FreshStep(s: State, a: Step)
    requires Owing(s) && Fresh(s) && Available(s) && Enabled(s, a)
    ensures Fresh(Apply(s, a))
  {
    match a
    case Select(r, _) => LeftNext(r, 0);
    case Scan => ScanFresh(s);
    case Find => FindFresh(s);
    case _ =>
  }

  /** While navail is positive, the search stops at an idle child. */
  lemma {:induction false} FindAvailable(s: State)
    requires Fresh(s) && Available(s) && Enabled(s, Find)
    ensures Available(Apply(s, Find))
  {
    var fd, i := s.parent.fd, s.parent.i;
    SomeIdle(s.children);
    var j :| 0 <= j < |s.children| && s.children[j].status == 0;
    assert i <= j;
    var c := s.children[i];
    if c.status == 0 {
      IdleUpdate(s.children, i, c.(status := 1, count := c.count + 1));
    }
  }

  lemma {:induction false} ScanAvailable(s: State)
    requires Owing(s) && Fresh(s) && Available(s) && Enabled(s, Scan)
    ensures Available(Apply(s, Scan))
  {
    hide Idle;
    var i := s.parent.i;
    if i < |s.children| && i in s.rset {
      var c := s.children[i];
      assert i in Left(s.rset, i);
      assert c.status == 1;
      IdleUpdate(s.children, i, c.(status := 0, ready := c.ready - 1));
    }
  }

  lemma {:induction false} AvailableStep(s: State, a: Step)
    requires Owing(s) && Fresh(s) && Available(s) && Enabled(s, a)
    ensures Available(Apply(s, a))
  {
    hide Owing, Fresh, Idle;
    match a
    case Find => FindAvailable(s);
    case Scan => ScanAvailable(s);
    case Pass =>
      var c := s.children[s.parent.i];
      IdleUpdate(s.children, s.parent.i, c.(toChild := c.toChild + [s.parent.fd]));
    case ChildReads(i) =>
      var c := s.children[i];
      IdleUpdate(s.children, i, c.(worker := Serving(c.toChild[0]), toChild := c.toChild[1..]));
    case ChildDone(i) =>
      var c := s.children[i];
      IdleUpdate(s.children, i, c.(worker := Reading, done := c.done + [c.worker.fd], ready := c.ready + 1));
    case _ =>
  }

  /** A child's own steps move descriptors along its share. */
  lemma {:induction false} ChildConserved(s: State, a: Step)
    requires Conserved(s) && Enabled(s, a) && (a.ChildReads? || a.ChildDone?)
    ensures Conserved(Apply(s, a))
  {
    hide Share;
    var c := s.children[a.i];
    if a.ChildReads? {
      assert c.toChild == [c.toChild[0]] + c.toChild[1..];
      assert c.done + [] + c.toChild == c.done + [c.toChild[0]] + c.toChild[1..];
    } else {
      assert c.done + [c.worker.fd] + c.toChild == (c.done + [c.worker.fd]) + [] + c.toChild;
    }
  }

  lemma {:induction false} PassConserved(s: State)
    requires Conserved(s) && Enabled(s, Pass)
    ensures Conserved(Apply(s, Pass))
  {
    hide Share;
    var fd, i := s.parent.fd, s.parent.i;
    var t := Apply(s, Pass);
    forall w | 0 <= w < |s.children|
      ensures Share(t.passed, w) == Share(s.passed, w) + if w == i then [fd] else []
    {
      ShareSnoc(s.passed, (i, fd), w);
    }
  }

  /** The parent's other steps leave the children's work alone, and what it has in hand is
      the descriptor it accepted last. */
  lemma {:induction false} ParentWork(s: State, a: Step)
    requires Enabled(s, a) && (a.Select? || a == Decide || a.Accept? || a == Find || a == Scan)
    ensures var t := Apply(s, a);
      && |t.children| == |s.children| && t.passed == s.passed
      && t.accepted == s.accepted + (if a.Accept? then [a.fd] else [])
      && (t.parent != Quit ==> (InHand(t.parent) <==> InHand(s.parent) || a.Accept?))
      && (InHand(t.parent) ==> t.parent.fd == if a.Accept? then a.fd else if InHand(s.parent) then s.parent.fd else 0)
      && (a.Accept? ==> !InHand(s.parent))
      && forall i :: 0 <= i < |s.children| ==>
           var c, d := s.children[i], t.children[i];
           && d.done == c.done && d.worker == c.worker && d.toChild == c.toChild
           && d.count - (if IsPassing(t, i) then 1 else 0) == c.count - (if IsPassing(s, i) then 1 else 0)
  {
  }

  lemma {:induction false} ParentConserved(s: State, a: Step)
    requires Conserved(s) && Enabled(s, a) && Apply(s, a).parent != Quit
    requires a.Select? || a == Decide || a.Accept? || a == Find || a == Scan
    ensures Conserved(Apply(s, a))
  {
    hide Share, Enabled, Apply, IsPassing, InHand;
    ParentWork(s, a);
  }

  lemma {:induction false} ConservedStep(s: State, a: Step)
    requires Owing(s) && Fresh(s) && Available(s) && Conserved(s) && Enabled(s, a)
    ensures Conserved(Apply(s, a))
  {
    assert Apply(s, a).parent != Quit by { AvailableStep(s, a); }
    hide Share, Owing, Fresh, Available, Conserved;
    match a
    case Pass => PassConserved(s);
    case ChildReads(_) | ChildDone(_) => ChildConserved(s, a);
    case Select(_, _) | Decide | Accept(_) | Find | Scan => ParentConserved(s, a);
  }

  ghost predicate Inv(s: State) {
    Owing(s) && Fresh(s) && Available(s) && Conserved(s)
  }

  lemma {:induction false} InvStep(s: State, a: Step)
    requires Inv(s) && Enabled(s, a)
    ensures Inv(Apply(s, a)) && |Apply(s, a).children| == |s.children|
  {
    hide Owing, Fresh, Available, Conserved;
    OwingStep(s, a);
    FreshStep(s, a);
    AvailableStep(s, a);
    ConservedStep(s, a);
  }

  lemma {:induction false} InitIdle(n: nat)
    ensures Idle(Init(n).children) == n
  {
    if n > 0 {
      InitIdle(n - 1);
      assert Init(n).children[..n - 1] == Init(n - 1).children;
    }
  }

  // ---------- the parent's table, as the source updates it ----------

  /** The parent's steps until it has marked a child or run off the table. Steps of the
      children in between touch nothing the parent reads here. */
  ghost function Found(s: State): State
    requires s.parent.Finding?
    decreases if s.parent.i < |s.children| then |s.children| - s.parent.i else 0
  {
    var t := Apply(s, Find);
    if t.parent.Finding? then Found(t) else t
  }

  lemma {:induction false} FoundFirst(s: State)
    requires Inv(s) && s.parent.Finding?
    ensures Found(s).parent.Passing? && Found(s).parent.fd == s.parent.fd
    ensures var i := Found(s).parent.i;
      && i < |s.children| && s.children[i].status == 0
      && (forall j :: 0 <= j < i ==> s.children[j].status != 0)
      && Found(s).children == s.children[i := s.children[i].(status := 1, count := s.children[i].count + 1)]
    decreases if s.parent.i < |s.children| then |s.children| - s.parent.i else 0
  {
    hide Owing, Fresh, Conserved;
    InvStep(s, Find);
    var t := Apply(s, Find);
    if t.parent.Finding? {
      FoundFirst(t);
    }
  }

  lemma {:induction false} ScanProgress(s: State)
    requires Inv(s) && s.parent.Scanning?
    ensures Enabled(s, Scan) && Inv(Apply(s, Scan)) && |Apply(s, Scan).children| == |s.children|
    ensures Apply(s, Scan).rset == s.rset
  {
    hide Owing, Available, Conserved;
    assert s.parent.i in s.rset ==> s.parent.i in Left(s.rset, s.parent.i);
    InvStep(s, Scan);
  }

  /** The parent's steps from one place of the scan to the next select. */
  ghost function Collected(s: State): State
    requires Inv(s) && s.parent.Scanning?
    decreases if s.parent.i < |s.children| then |s.children| - s.parent.i else 0
  {
    hide Inv;
    ScanProgress(s);
    var t := Apply(s, Scan);
    if t.parent.Scanning? then Collected(t) else t
  }

  lemma {:induction false} CollectedCount(s: State)
    requires Inv(s) && s.parent.Scanning?
    ensures Collected(s).parent == Selecting && Inv(Collected(s)) && |Collected(s).children| == |s.children|
    ensures Collected(s).navail == s.navail + |Left(s.rset, s.parent.i)|
    decreases if s.parent.i < |s.children| then |s.children| - s.parent.i else 0
  {
    hide Owing, Available, Conserved, Left, Idle;
    ScanInside(s);
    LeftStep(s.rset, s.parent.i);
    ScanProgress(s);
    var t := Apply(s, Scan);
    assert s.nsel == |Left(s.rset, s.parent.i)|;
    hide Inv, Fresh, Enabled;
    if t.parent.Scanning? {
      CollectedCount(t);
    }
  }

  /** The scan frees exactly the children the select reported, despite its early exit. */
  lemma {:induction false} CollectedAll(s: State, i: nat)
    requires Inv(s) && s.parent.Scanning? && i < |s.children|
    ensures var t := Collected(s);
      && |t.children| == |s.children|
      && t.children[i] ==
           if i in Left(s.rset, s.parent.i) then s.children[i].(status := 0, ready := s.children[i].ready - 1)
           else s.children[i]
    decreases if s.parent.i < |s.children| then |s.children| - s.parent.i else 0
  {
    hide Owing, Available, Conserved, Left, Idle, Collected;
    ScanInside(s);
    LeftStep(s.rset, s.parent.i);
    ScanProgress(s);
    CollectedNext(s);
    var t := Apply(s, Scan);
    assert s.nsel == |Left(s.rset, s.parent.i)|;
    assert i in Left(s.rset, s.parent.i) ==> s.children[i].ready > 0;
    hide Inv, Fresh, Enabled;
    if t.parent.Scanning? {
      CollectedAll(t, i);
    }
  }

  lemma {:induction false} CollectedNext(s: State)
    requires Inv(s) && s.parent.Scanning?
    ensures Enabled(s, Scan) && Inv(Apply(s, Scan))
    ensures var t := Apply(s, Scan); Collected(s) == if t.parent.Scanning? then Collected(t) else t
  {
    hide Inv, Apply;
    ScanProgress(s);
  }

  lemma {:induction false} LeftStep(rset: set<nat>, i: nat)
    ensures Left(rset, i) == Left(rset, i + 1) + (if i in rset then {i} else {}) && i !in Left(rset, i + 1)
    ensures |Left(rset, i)| == |Left(rset, i + 1)| + if i in rset then 1 else 0
    ensures i in rset && |Left(rset, i)| == 1 ==> Left(rset, i) == {i}
  {
    LeftNext(rset, i);
  }

  class Table {
    const status: array<int>
    const count: array<nat>
    var navail: int

    ghost predicate Shows(s: State)
      reads this, status, count
    {
      && status.Length == count.Length == |s.children| && status != count as object && navail == s.navail
      && forall i :: 0 <= i < |s.children| ==> status[i] == s.children[i].status && count[i] == s.children[i].count
    }

    constructor (nchildren: nat)
      ensures Shows(Init(nchildren)) && fresh(status) && fresh(count)
    {
      status := new int[nchildren](_ => 0);
      count := new nat[nchildren](_ => 0);
      navail := nchildren;
    }

    /** The search for an idle child and its marking. */
    method Assign(ghost s: State) returns (i: nat)
      requires s.parent.Finding? && s.parent.i == 0 && Shows(s)
      modifies this, status, count
      ensures Shows(Found(s))
      ensures Found(s).parent == if i < status.Length then Passing(s.parent.fd, i) else Quit
    {
      i := 0;
      ghost var t := s;
      while i < status.Length && status[i] != 0
        invariant i <= status.Length && t.parent == Finding(s.parent.fd, i) && Shows(t) && Found(t) == Found(s)
      {
        t := Apply(t, Find);
        i := i + 1;
      }
      if i < status.Length {
        status[i] := 1;
        count[i] := count[i] + 1;
        navail := navail - 1;
      }
    }

    /** The scan for children that are ready again, over what the select reported. */
    method Collect(rset: set<nat>, reported: int, ghost s: State)
      requires Inv(s) && s.parent == Scanning(0) && Shows(s) && rset == s.rset && reported == s.nsel
      modifies this, status
      ensures Shows(Collected(s))
    {
      hide Inv;
      var i, nsel := 0, reported;
      ghost var t := s;
      while i < status.Length
        invariant i <= status.Length && nsel == t.nsel && rset == t.rset
        invariant Inv(t) && t.parent == Scanning(i) && Shows(t) && Collected(t) == Collected(s)
      {
        ScanProgress(t);
        if i in rset {
          status[i] := 0;
          navail := navail + 1;
          nsel := nsel - 1;
          if nsel == 0 {
            return;
          }
        }
        t := Apply(t, Scan);
        i := i + 1;
      }
      ScanProgress(t);
    }
  }

  // ---------- every run ----------

  ghost predicate IsRun(n: nat, steps: seq<Step>, states: seq<State>) {
    && |states| == |steps| + 1 && states[0] == Init(n)
    && forall k :: 0 <= k < |steps| ==> Enabled(states[k], steps[k]) && states[k + 1] == Apply(states[k], steps[k])
  }

  lemma {:induction false} InitInv(n: nat)
    ensures Inv(Init(n)) && |Init(n).children| == n
  {
    hide Idle;
    InitIdle(n);
    assert forall i :: Share([], i) == [];
  }

  lemma {:induction false} RunKeepsInv(n: nat, steps: seq<Step>, states: seq<State>, k: nat)
    requires IsRun(n, steps, states) && k < |states|
    ensures Inv(states[k]) && |states[k].children| == n
  {
    hide Enabled, Apply, Inv;
    if k == 0 {
      InitInv(n);
    } else {
      RunKeepsInv(n, steps, states, k - 1);
      InvStep(states[k - 1], steps[k - 1]);
    }
  }

  /** In every run: navail is the number of idle entries; a busy child owes exactly one
      descriptor or byte and an idle one nothing; the exit for want of a child is never taken. */
  lemma {:induction false} Bookkeeping(n: nat, steps: seq<Step>, states: seq<State>, k: nat)
    requires IsRun(n, steps, states) && k < |states|
    ensures var s := states[k];
      && s.navail == Idle(s.children) && s.parent != Quit && |s.children| == n
      && forall i :: 0 <= i < n ==>
           && 0 <= s.children[i].status <= 1
           && Owed(s.children[i]) == if IsPassing(s, i) then 0 else s.children[i].status
  {
    hide IsRun, Fresh, Conserved;
    RunKeepsInv(n, steps, states, k);
  }

  /** In every run, when the parent reads a child's pipe on the word of its last select,
      the byte is there, so the read never blocks, and the child was not assigned since:
      a stale set never frees a child that just got work. */
  lemma {:induction false} StaleSetIsSafe(n: nat, steps: seq<Step>, states: seq<State>, k: nat)
    requires IsRun(n, steps, states) && k < |states|
    requires states[k].parent.Scanning? && states[k].parent.i < n && states[k].parent.i in states[k].rset
    ensures var s := states[k];
      && |s.children| == n && s.parent.i !in s.newly && s.children[s.parent.i].status == 1
      && s.children[s.parent.i].ready == 1 && Enabled(s, Scan)
  {
    hide IsRun, Conserved, Available;
    RunKeepsInv(n, steps, states, k);
    var s := states[k];
    assert s.parent.i in Left(s.rset, s.parent.i);
    assert Owed(s.children[s.parent.i]) == s.children[s.parent.i].status;
  }

  /** In every run, when the parent goes back to select, all reported descriptors have
      been handled: nsel is zero, so its early exits skip nothing. */
  lemma {:induction false} NothingSkipped(n: nat, steps: seq<Step>, states: seq<State>, k: nat)
    requires IsRun(n, steps, states) && k < |steps|
    requires states[k].parent != Selecting && states[k + 1].parent == Selecting
    ensures states[k + 1].nsel == 0
    ensures states[k].parent.Passing? ==> states[k].rset == {}
    ensures states[k].parent.Scanning? ==> Left(states[k].rset, states[k].parent.i) == {states[k].parent.i}
  {
    hide Available, Conserved;
    RunKeepsInv(n, steps, states, k);
    var s := states[k];
    LeftNext(s.rset, From(s.parent));
    if s.parent.Scanning? {
      ScanInside(s);
      assert Left(s.rset, s.parent.i + 1) == {};
    }
  }

  /** In every run, the k-th accepted descriptor is the k-th passed, and each child has
      served, serves or is about to read exactly its own share, in order. */
  lemma {:induction false} EachOnce(n: nat, steps: seq<Step>, states: seq<State>, k: nat)
    requires IsRun(n, steps, states) && k < |states|
    ensures var s := states[k];
      && |s.children| == n && |s.passed| <= |s.accepted| <= |s.passed| + 1
      && (forall j :: 0 <= j < |s.passed| ==> s.passed[j].1 == s.accepted[j] && s.passed[j].0 < n)
      && forall i :: 0 <= i < n ==>
           var c := s.children[i];
           Share(s.passed, i) == c.done + Current(c.worker) + c.toChild && |Share(s.passed, i)| <= |c.done| + 1
  {
    hide IsRun, Fresh, Available, Share;
    RunKeepsInv(n, steps, states, k);
  }

  // ---------- what a child that has been passed a descriptor does ----------

  predicate ChildStep(a: Step, i: nat) {
    a == ChildReads(i) || a == ChildDone(i)
  }

  function ChildSteps(steps: seq<Step>, i: nat, j: nat, k: nat): nat
    requires j <= k <= |steps|
  {
    if j == k then 0 else ChildSteps(steps, i, j, k - 1) + if ChildStep(steps[k - 1], i) then 1 else 0
  }

  /** Child i has taken m steps since state b, where a descriptor lay in its pipe. */
  ghost predicate ChildStage(b: State, s: State, i: nat, m: nat)
    requires i < |b.children| && b.children[i].toChild != []
  {
    i < |s.children| &&
    var c, d := b.children[i], s.children[i];
    match m
    case 0 => d.worker == Reading && d.done == c.done && c.toChild <= d.toChild
    case 1 => d.worker == Serving(c.toChild[0]) && d.done == c.done
    case _ => c.done + [c.toChild[0]] <= d.done
  }

  lemma {:induction false} ChildStageStep(b: State, s: State, i: nat, m: nat, a: Step)
    requires i < |b.children| && b.children[i].toChild != [] && ChildStage(b, s, i, m) && Enabled(s, a)
    ensures ChildStage(b, Apply(s, a), i, if ChildStep(a, i) then m + 1 else m)
  {
  }

  /** In every run, a child with a descriptor in its pipe reads it with its own next step and
      has served it with the one after, whatever the parent and the other children do. */
  lemma {:induction false} ChildServes(n: nat, steps: seq<Step>, states: seq<State>, i: nat, j: nat, k: nat)
    requires IsRun(n, steps, states) && j <= k < |states| && i < |states[j].children|
    requires states[j].children[i].worker == Reading && states[j].children[i].toChild != []
    ensures ChildStage(states[j], states[k], i, ChildSteps(steps, i, j, k))
  {
    hide Apply, Enabled;
    if j < k {
      ChildServes(n, steps, states, i, j, k - 1);
      ChildStageStep(states[j], states[k - 1], i, ChildSteps(steps, i, j, k - 1), steps[k - 1]);
    }
  }

  // ---------- runs that serve everything ----------

  ghost predicate Reachable(n: nat, s: State) {
    exists steps, states :: IsRun(n, steps, states) && states[|steps|] == s
  }

  lemma {:induction false} Reach(n: nat, s: State, a: Step)
    requires Reachable(n, s) && Enabled(s, a)
    ensures Reachable(n, Apply(s, a))
  {
    hide Apply, Enabled, Init;
    var steps, states :| IsRun(n, steps, states) && states[|steps|] == s;
    var steps', states' := steps + [a], states + [Apply(s, a)];
    forall k | 0 <= k < |steps'|
      ensures Enabled(states'[k], steps'[k]) && states'[k + 1] == Apply(states'[k], steps'[k])
    {
      assert k < |steps| ==> states'[k] == states[k] && states'[k + 1] == states[k + 1] && steps'[k] == steps[k];
    }
    assert IsRun(n, steps', states') && states'[|steps'|] == Apply(s, a);
  }

  /** Nobody has anything to do; child 0 has served `done`. */
  predicate Quiet(n: nat, s: State, done: seq<int>) {
    && s.parent == Selecting && |s.children| == n && n >= 1 && s.navail > 0 && s.accepted == done
    && s.children[0].done == done && s.children[0].status == 0 && s.children[0].ready == 0
    && s.children[0].toChild == [] && s.children[0].worker == Reading
  }

  lemma {:induction false} PassOne(n: nat, s: State, fd: int, done: seq<int>) returns (t: State)
    requires Reachable(n, s) && Quiet(n, s, done)
    ensures Reachable(n, t) && t.parent == Selecting && |t.children| == n && t.accepted == done + [fd]
    ensures var c := t.children[0];
      && c.done == done && c.ready == 0 && c.toChild == [fd] && c.worker == Reading && c.status == 1
      && t.navail == s.navail - 1
  {
    hide Reachable;
    Reach(n, s, Select({}, true));
    var a := Apply(s, Select({}, true));
    assert a.nsel == 1;
    Reach(n, a, Decide);
    var b := Apply(a, Decide);
    Reach(n, b, Accept(fd));
    var c := Apply(b, Accept(fd));
    Reach(n, c, Find);
    var d := Apply(c, Find);
    Reach(n, d, Pass);
    t := Apply(d, Pass);
  }

  lemma {:induction false} ServeOne(n: nat, s: State, fd: int, done: seq<int>) returns (t: State)
    requires Reachable(n, s) && s.parent == Selecting && |s.children| == n >= 1 && s.accepted == done + [fd]
    requires var c := s.children[0];
      c.done == done && c.ready == 0 && c.toChild == [fd] && c.worker == Reading && c.status == 1
    requires s.navail >= 0
    ensures Reachable(n, t) && Quiet(n, t, done + [fd])
  {
    hide Reachable;
    Reach(n, s, ChildReads(0));
    var a := Apply(s, ChildReads(0));
    Reach(n, a, ChildDone(0));
    var b := Apply(a, ChildDone(0));
    Reach(n, b, Select({0}, false));
    var c := Apply(b, Select({0}, false));
    assert c.nsel == 1;
    Reach(n, c, Decide);
    var d := Apply(c, Decide);
    Reach(n, d, Scan);
    t := Apply(d, Scan);
  }

  /** Any sequence of connections is accepted, passed and served in order in some run. */
  lemma {:induction false} ServesAll(n: nat, fds: seq<int>) returns (t: State)
    requires n >= 1
    ensures Reachable(n, t) && Quiet(n, t, fds)
  {
    hide Reachable;
    if fds == [] {
      assert Reachable(n, Init(n)) by { Start(n); }
      t := Init(n);
    } else {
      var p, fd := fds[..|fds| - 1], fds[|fds| - 1];
      var s := ServesAll(n, p);
      var u := PassOne(n, s, fd, p);
      t := ServeOne(n, u, fd, p);
      assert p + [fd] == fds;
    }
  }

  lemma {:induction false} Start(n: nat)
    ensures Reachable(n, Init(n))
  {
    assert IsRun(n, [], [Init(n)]);
  }
}
