/**
 The web client that fetches several files over at most `maxnconn` connections at a time,
 with nonblocking connects. Three counters, two descriptor sets and the flags of the files
 have to agree for its loops to end and its sanity check never to fire.
 */
module WebClient {

  datatype Flag = Unstarted | Connecting | Reading | Done

  predicate Active(f: Flag) {
    f == Connecting || f == Reading
  }

  function CountUnstarted(fs: seq<Flag>): nat {
    if fs == [] then 0 else CountUnstarted(fs[..|fs| - 1]) + if fs[|fs| - 1] == Unstarted then 1 else 0
  }

  function CountActive(fs: seq<Flag>): nat {
    if fs == [] then 0 else CountActive(fs[..|fs| - 1]) + if Active(fs[|fs| - 1]) then 1 else 0
  }

  function CountDone(fs: seq<Flag>): nat {
    if fs == [] then 0 else CountDone(fs[..|fs| - 1]) + if fs[|fs| - 1] == Done then 1 else 0
  }

  lemma {:induction false} Counts(fs: seq<Flag>)
    ensures CountUnstarted(fs) + CountActive(fs) + CountDone(fs) == |fs|
  {
    if fs != [] {
      Counts(fs[..|fs| - 1]);
    }
  }

  lemma {:induction false} CountsUpdate(fs: seq<Flag>, i: nat, f: Flag)
    requires i < |fs|
    ensures var gs := fs[i := f];
            && CountUnstarted(gs) - CountUnstarted(fs) ==
                 (if f == Unstarted then 1 else 0) - (if fs[i] == Unstarted then 1 else 0)
            && CountActive(gs) - CountActive(fs) == (if Active(f) then 1 else 0) - (if Active(fs[i]) then 1 else 0)
            && CountDone(gs) - CountDone(fs) == (if f == Done then 1 else 0) - (if fs[i] == Done then 1 else 0)
  {
    var n := |fs| - 1;
    if i < n {
      CountsUpdate(fs[..n], i, f);
      assert fs[i := f][..n] == fs[..n][i := f];
    } else {
      assert fs[i := f][..n] == fs[..n];
    }
  }

  lemma {:induction false} NoneLeft(fs: seq<Flag>, i: nat)
    requires i < |fs|
    ensures CountUnstarted(fs) == 0 ==> fs[i] != Unstarted
    ensures CountActive(fs) == 0 ==> !Active(fs[i])
  {
    var n := |fs| - 1;
    if i < n {
      NoneLeft(fs[..n], i);
    }
  }

  /** A count is zero when no flag of its kind is there. */
  lemma {:induction false} SomeUnstarted(fs: seq<Flag>)
    requires forall i :: 0 <= i < |fs| ==> fs[i] != Unstarted
    ensures CountUnstarted(fs) == 0
  {
    if fs != [] {
      SomeUnstarted(fs[..|fs| - 1]);
    }
  }

  lemma {:induction false} SomeActive(fs: seq<Flag>) returns (i: nat)
    requires CountActive(fs) > 0
    ensures i < |fs| && Active(fs[i])
  {
    if Active(fs[|fs| - 1]) {
      i := |fs| - 1;
    } else {
      i := SomeActive(fs[..|fs| - 1]);
    }
  }

  // ---------- the descriptor sets ----------

  /** rset holds exactly the descriptors of the files connecting or reading, wset those of
      the files connecting, and no two of these files share one. */
  ghost predicate Sets(fs: seq<Flag>, fds: seq<int>, rset: set<int>, wset: set<int>) {
    && |fs| == |fds|
    && (forall i :: 0 <= i < |fs| && Active(fs[i]) ==> fds[i] in rset)
    && (forall i :: 0 <= i < |fs| && Active(fs[i]) ==> (fds[i] in wset <==> fs[i] == Connecting))
    && (forall x :: x in rset ==> exists i :: 0 <= i < |fs| && Active(fs[i]) && fds[i] == x)
    && wset <= rset
    && (forall i, j :: 0 <= i < j < |fs| && Active(fs[i]) && Active(fs[j]) ==> fds[i] != fds[j])
  }

  lemma {:induction false} SetsStart(fs: seq<Flag>, fds: seq<int>, rset: set<int>, wset: set<int>, i: nat, fd: int,
      f: Flag)
    requires Sets(fs, fds, rset, wset) && i < |fs| && !Active(fs[i]) && fd !in rset && Active(f)
    ensures Sets(fs[i := f], fds[i := fd], rset + {fd}, if f == Connecting then wset + {fd} else wset)
  {
    var gs, gds := fs[i := f], fds[i := fd];
    forall x | x in rset + {fd}
      ensures exists j :: 0 <= j < |gs| && Active(gs[j]) && gds[j] == x
    {
      if x == fd {
        assert Active(gs[i]) && gds[i] == x;
      } else {
        var j :| 0 <= j < |fs| && Active(fs[j]) && fds[j] == x;
        assert Active(gs[j]) && gds[j] == x;
      }
    }
  }

  lemma {:induction false} SetsConnected(fs: seq<Flag>, fds: seq<int>, rset: set<int>, wset: set<int>, i: nat)
    requires Sets(fs, fds, rset, wset) && i < |fs| && fs[i] == Connecting
    ensures Sets(fs[i := Reading], fds, rset + {fds[i]}, wset - {fds[i]})
  {
    var gs := fs[i := Reading];
    assert rset + {fds[i]} == rset;
    forall x | x in rset
      ensures exists j :: 0 <= j < |gs| && Active(gs[j]) && fds[j] == x
    {
      var j :| 0 <= j < |fs| && Active(fs[j]) && fds[j] == x;
      assert Active(gs[j]);
    }
  }

  lemma {:induction false} SetsDone(fs: seq<Flag>, fds: seq<int>, rset: set<int>, wset: set<int>, i: nat)
    requires Sets(fs, fds, rset, wset) && i < |fs| && fs[i] == Reading
    ensures Sets(fs[i := Done], fds, rset - {fds[i]}, wset)
  {
    var gs := fs[i := Done];
    forall x | x in rset - {fds[i]}
      ensures exists j :: 0 <= j < |gs| && Active(gs[j]) && fds[j] == x
    {
      var j :| 0 <= j < |fs| && Active(fs[j]) && fds[j] == x;
      assert gs[j] == fs[j];
    }
  }

  // ---------- the client ----------

  /** What the kernel does in one turn of the main loop: the descriptors it hands out and
      whether connect succeeds at once, what select reports, and which reads return 0. */
  datatype Turn = Turn(sockets: seq<(int, bool)>, readable: set<int>, writable: set<int>, eof: set<int>)

  /** What a scan makes of one file. */
  function Scanned(f: Flag, fd: int, rs: set<int>, ws: set<int>, eof: set<int>): Flag {
    if f == Connecting && (fd in rs || fd in ws) then Reading
    else if f == Reading && fd in rs && fd in eof then Done
    else f
  }

  class Client {
    var flags: seq<Flag>
    var fds: seq<int>
    var nconn: int
    var nlefttoconn: int
    var nlefttoread: int
    var maxfd: int
    var rset: set<int>
    var wset: set<int>

    /** The counters are the numbers of files unstarted, active and not done. */
    ghost predicate Valid()
      reads this
    {
      && Sets(flags, fds, rset, wset)
      && nlefttoconn == CountUnstarted(flags) && nconn == CountActive(flags)
          && nlefttoread == |flags| - CountDone(flags)
      && maxfd >= -1 && (forall x :: x in rset ==> x <= maxfd)
    }

    constructor (nfiles: nat)
      ensures Valid() && |flags| == nfiles && nconn == 0 && (forall i :: 0 <= i < nfiles ==> flags[i] == Unstarted)
    {
      flags, fds := seq(nfiles, i => Unstarted), seq(nfiles, i => -1);
      nlefttoread, nlefttoconn, nconn, maxfd, rset, wset := nfiles, nfiles, 0, -1, {}, {};
      AllUnstarted(nfiles);
    }

    /** write_get_cmd. */
    method WriteGetCmd(i: nat)
      requires i < |flags| == |fds|
      modifies this`flags, this`rset, this`maxfd
      ensures flags == old(flags)[i := Reading] && rset == old(rset) + {fds[i]}
      ensures maxfd == if fds[i] > old(maxfd) then fds[i] else old(maxfd)
    {
      flags := flags[i := Reading];
      rset := rset + {fds[i]};
      if fds[i] > maxfd {
        maxfd := fds[i];
      }
    }

    /** start_connect, with the descriptor and the outcome the kernel gives it, and the
        counters its caller adjusts. */
    method StartConnect(i: nat, fd: int, done: bool)
      requires Valid() && i < |flags| && flags[i] == Unstarted && fd >= 0 && fd !in rset
      modifies this
      ensures Valid() && |flags| == |fds| && flags == old(flags)[i := if done then Reading else Connecting]
      ensures i < |old(fds)| && fds == old(fds)[i := fd]
      ensures nconn == old(nconn) + 1 && nlefttoconn == old(nlefttoconn) - 1 && nlefttoread == old(nlefttoread)
    {
      SetsStart(flags, fds, rset, wset, i, fd, if done then Reading else Connecting);
      CountsUpdate(flags, i, if done then Reading else Connecting);
      SetsLengths(flags, fds, rset, wset);
      hide Sets, CountUnstarted, CountActive, CountDone;
      fds := fds[i := fd];
      if done {
        WriteGetCmd(i);
      } else {
        flags := flags[i := Connecting];
        rset := rset + {fd};
        wset := wset + {fd};
        if fd > maxfd {
          maxfd := fd;
        }
      }
      nconn := nconn + 1;
      nlefttoconn := nlefttoconn - 1;
    }

    /** The inner loop that opens connections. The search for an unstarted file always
        finds one, so the source's "nothing found" exit is never taken. A descriptor the
        kernel cannot have handed out is replaced by one it could. */
    method OpenConnections(maxnconn: int, sockets: seq<(int, bool)>)
      requires Valid()
      modifies this
      ensures Valid() && |flags| == |old(flags)| && nlefttoread == old(nlefttoread)
      ensures nconn >= maxnconn || nlefttoconn == 0
      ensures old(nconn) <= maxnconn ==> nconn <= maxnconn
      ensures forall j :: 0 <= j < |flags| ==>
        flags[j] == old(flags)[j] || (old(flags)[j] == Unstarted && Active(flags[j]))
    {
      var k := 0;
      hide Sets, CountUnstarted, CountActive, CountDone;
      while nconn < maxnconn && nlefttoconn > 0
        invariant Valid() && |flags| == |old(flags)| && k >= 0 && nlefttoread == old(nlefttoread) && nlefttoconn >= 0
        invariant old(nconn) <= maxnconn ==> nconn <= maxnconn
        invariant forall j :: 0 <= j < |flags| ==>
          flags[j] == old(flags)[j] || (old(flags)[j] == Unstarted && Active(flags[j]))
        decreases nlefttoconn
      {
        var i := FindUnstarted();
        var fd, done := if k < |sockets| then sockets[k].0 else -1, k < |sockets| && sockets[k].1;
        if fd < 0 || fd in rset {
          fd := maxfd + 1;
        }
        StartConnect(i, fd, done);
        k := k + 1;
      }
    }

    /** What the main loop does with file i when select has reported rs and ws. */
    method ScanOne(i: nat, rs: set<int>, ws: set<int>, eof: set<int>)
      requires Valid() && i < |flags|
      modifies this
      ensures Valid() && fds == old(fds) && |flags| == |fds|
      ensures flags == old(flags)[i := Scanned(old(flags)[i], old(fds)[i], rs, ws, eof)]
      ensures nconn <= old(nconn)
    {
      SetsLengths(flags, fds, rset, wset);
      assert flags[i := flags[i]] == flags;
      var f, fd := flags[i], fds[i];
      if f == Connecting && (fd in rs || fd in ws) {
        SetsConnected(flags, fds, rset, wset, i);
        CountsUpdate(flags, i, Reading);
        hide Sets, CountUnstarted, CountActive, CountDone;
        wset := wset - {fd};
        WriteGetCmd(i);
      } else if f == Reading && fd in rs {
        if fd in eof {
          SetsDone(flags, fds, rset, wset, i);
          CountsUpdate(flags, i, Done);
          hide Sets, CountUnstarted, CountActive, CountDone;
          flags := flags[i := Done];
          rset := rset - {fd};
          nconn := nconn - 1;
          nlefttoread := nlefttoread - 1;
        }
      }
    }

    /** The scan of all files after select: each is handled once, by the report. */
    method Scan(rs: set<int>, ws: set<int>, eof: set<int>)
      requires Valid()
      modifies this
      ensures Valid() && |flags| == |old(flags)| == |old(fds)| && nconn <= old(nconn)
      ensures forall j :: 0 <= j < |flags| ==> flags[j] == Scanned(old(flags)[j], old(fds)[j], rs, ws, eof)
    {
      SetsLengths(flags, fds, rset, wset);
      hide Sets, CountUnstarted, CountActive, CountDone, Scanned;
      for i := 0 to |flags|
        invariant Valid() && fds == old(fds) && |flags| == |old(flags)| && nconn <= old(nconn)
        invariant forall j :: 0 <= j < i ==> flags[j] == Scanned(old(flags)[j], old(fds)[j], rs, ws, eof)
        invariant forall j :: i <= j < |flags| ==> flags[j] == old(flags)[j]
      {
        ScanOne(i, rs, ws, eof);
      }
    }

    /** With work left and a positive limit, select has something to wait for. */
    lemma {:induction false} NeverWaitsOnNothing(maxnconn: int)
      requires Valid() && nlefttoread > 0 && maxnconn > 0 && (nconn >= maxnconn || nlefttoconn == 0)
      ensures rset != {}
    {
      Counts(flags);
      var i := SomeActive(flags);
      assert fds[i] in rset;
    }

    lemma {:induction false} NotNegative()
      requires Valid()
      ensures nlefttoread >= 0
    {
      Counts(flags);
    }

    /** When nothing is left to read, every file is done. */
    lemma {:induction false} AllDone()
      requires Valid() && nlefttoread == 0
      ensures forall i :: 0 <= i < |flags| ==> flags[i] == Done
    {
      Counts(flags);
      forall i | 0 <= i < |flags|
        ensures flags[i] == Done
      {
        NoneLeft(flags, i);
      }
    }

    method FindUnstarted() returns (i: nat)
      requires Valid() && nlefttoconn > 0
      ensures i < |flags| && flags[i] == Unstarted && forall j :: 0 <= j < i ==> flags[j] != Unstarted
    {
      i := 0;
      while i < |flags| && flags[i] != Unstarted
        invariant 0 <= i <= |flags| && forall j :: 0 <= j < i ==> flags[j] != Unstarted
      {
        i := i + 1;
      }
      if i == |flags| {
        SomeUnstarted(flags);
        assert false;
      }
    }
  }

  lemma {:induction false} SetsLengths(fs: seq<Flag>, fds: seq<int>, rset: set<int>, wset: set<int>)
    requires Sets(fs, fds, rset, wset)
    ensures |fs| == |fds|
  {
  }

  lemma {:induction false} AllUnstarted(n: nat)
    ensures var fs := seq(n, i => Unstarted); CountUnstarted(fs) == n && CountActive(fs) == 0 && CountDone(fs) == 0
  {
    if n > 0 {
      AllUnstarted(n - 1);
      assert seq(n, i => Unstarted)[..n - 1] == seq(n - 1, i => Unstarted);
    }
  }

  /** The files after a turn: first connections are opened, up to the limit or until no file is
      left unstarted; then every file moves on as the report says. */
  ghost predicate TurnTaken(a: seq<Flag>, t: Turn, maxnconn: int, b: seq<Flag>) {
    exists mid, fds, rs, ws :: Opened(a, maxnconn, mid) && Moved(mid, fds, rs, ws, t, b)
  }

  /** Unstarted files became connecting or reading, as many as the limit allows. */
  ghost predicate Opened(a: seq<Flag>, maxnconn: int, mid: seq<Flag>) {
    && |mid| == |a|
    && (forall j :: 0 <= j < |a| ==> mid[j] == a[j] || (a[j] == Unstarted && Active(mid[j])))
    && (CountActive(mid) >= maxnconn || CountUnstarted(mid) == 0)
    && (CountActive(a) <= maxnconn ==> CountActive(mid) <= maxnconn)
  }

  /** Every file by what select reports of the descriptors watched. */
  ghost predicate Moved(mid: seq<Flag>, fds: seq<int>, rset: set<int>, wset: set<int>, t: Turn, b: seq<Flag>) {
    && Sets(mid, fds, rset, wset) && |b| == |mid| == |fds|
    && forall j :: 0 <= j < |mid| ==> b[j] == Scanned(mid[j], fds[j], rset * t.readable, wset * t.writable, t.eof)
  }

  ghost predicate IsFetch(nfiles: nat, maxnconn: int, turns: seq<Turn>, trace: seq<seq<Flag>>) {
    && 1 <= |trace| <= |turns| + 1 && |trace[0]| == nfiles && (forall i :: 0 <= i < nfiles ==> trace[0][i] == Unstarted)
    && forall k :: 0 <= k < |trace| - 1 ==> TurnTaken(trace[k], turns[k], maxnconn, trace[k + 1])
  }

  lemma {:induction false} FetchNext(nfiles: nat, maxnconn: int, turns: seq<Turn>, trace: seq<seq<Flag>>, b: seq<Flag>)
    requires IsFetch(nfiles, maxnconn, turns, trace) && |trace| <= |turns|
    requires TurnTaken(trace[|trace| - 1], turns[|trace| - 1], maxnconn, b)
    ensures IsFetch(nfiles, maxnconn, turns, trace + [b])
  {
    hide TurnTaken;
  }

  /** The main program against any behaviour of the kernel: it takes turns until every file is
      done, the number of connections never exceeds a positive limit, and when the loop ends
      by itself all files are done. */
  method Fetch(nfiles: nat, maxnconn: int, turns: seq<Turn>) returns (c: Client, ghost trace: seq<seq<Flag>>)
    ensures c.Valid() && |c.flags| == nfiles && (maxnconn > 0 ==> c.nconn <= maxnconn)
    ensures c.nlefttoread == 0 ==> forall i :: 0 <= i < nfiles ==> c.flags[i] == Done
    ensures IsFetch(nfiles, maxnconn, turns, trace) && trace[|trace| - 1] == c.flags
    ensures |trace| <= |turns| ==> c.nlefttoread == 0
  {
    c := new Client(nfiles);
    trace := [c.flags];
    hide Sets, CountUnstarted, CountActive, CountDone, TurnTaken;
    var t := 0;
    c.NotNegative();
    while c.nlefttoread > 0 && t < |turns|
      invariant c.Valid() && fresh(c) && |c.flags| == nfiles && 0 <= t <= |turns| && c.nlefttoread >= 0
      invariant maxnconn > 0 ==> c.nconn <= maxnconn
      invariant |trace| == t + 1 && trace[t] == c.flags && IsFetch(nfiles, maxnconn, turns, trace)
      decreases |turns| - t
    {
      hide IsFetch;
      ghost var a := c.flags;
      c.OpenConnections(maxnconn, turns[t].sockets);
      if maxnconn > 0 {
        c.NeverWaitsOnNothing(maxnconn);
      }
      ghost var mid, fds, rset, wset := c.flags, c.fds, c.rset, c.wset;
      c.Scan(c.rset * turns[t].readable, c.wset * turns[t].writable, turns[t].eof);
      TurnWitness(a, turns[t], maxnconn, mid, fds, rset, wset, c.flags);
      FetchNext(nfiles, maxnconn, turns, trace, c.flags);
      trace := trace + [c.flags];
      c.NotNegative();
      t := t + 1;
    }
    if c.nlefttoread == 0 {
      c.AllDone();
    }
  }

  lemma {:induction false} TurnWitness(a: seq<Flag>, t: Turn, maxnconn: int, mid: seq<Flag>, fds: seq<int>,
                                       rset: set<int>, wset: set<int>, b: seq<Flag>)
    requires Opened(a, maxnconn, mid) && Moved(mid, fds, rset, wset, t, b)
    ensures TurnTaken(a, t, maxnconn, b)
  {
  }

  /** A turn moves exactly the active files that select reports: a connecting one when its
      descriptor is readable or writable, a reading one when it is readable and at its end. */
  lemma {:induction false} MovesExactly(mid: seq<Flag>, fds: seq<int>, rset: set<int>, wset: set<int>, t: Turn,
                                        b: seq<Flag>, j: nat)
    requires Moved(mid, fds, rset, wset, t, b) && j < |mid|
    ensures b[j] == Unstarted <==> mid[j] == Unstarted
    ensures mid[j] == Connecting ==>
      b[j] == if fds[j] in t.readable || fds[j] in t.writable then Reading else Connecting
    ensures mid[j] == Reading ==> b[j] == if fds[j] in t.readable && fds[j] in t.eof then Done else Reading
    ensures mid[j] == Done ==> b[j] == Done
  {
  }

  /** How far a file is. */
  function Stage(f: Flag): nat {
    match f
    case Unstarted => 0
    case Connecting => 1
    case Reading => 2
    case Done => 3
  }

  lemma {:induction false} TurnForward(a: seq<Flag>, t: Turn, maxnconn: int, b: seq<Flag>, j: nat)
    requires TurnTaken(a, t, maxnconn, b) && j < |a|
    ensures |b| == |a| && Stage(a[j]) <= Stage(b[j])
  {
  }

  /** Over a whole run no file goes back. */
  lemma {:induction false} NeverBack(nfiles: nat, maxnconn: int, turns: seq<Turn>, trace: seq<seq<Flag>>,
                                     k: nat, l: nat, j: nat)
    requires IsFetch(nfiles, maxnconn, turns, trace) && k <= l < |trace| && j < nfiles
    ensures |trace[k]| == |trace[l]| == nfiles && Stage(trace[k][j]) <= Stage(trace[l][j])
  {
    hide TurnTaken;
    if k < l {
      NeverBack(nfiles, maxnconn, turns, trace, k, l - 1, j);
      TurnForward(trace[l - 1], turns[l - 1], maxnconn, trace[l], j);
    } else if k > 0 {
      NeverBack(nfiles, maxnconn, turns, trace, k - 1, k - 1, j);
      TurnForward(trace[k - 1], turns[k - 1], maxnconn, trace[k], j);
    }
  }
}
