/**
 The client that copies between standard input and a socket and between the socket and
 standard output through two buffers, with nonblocking I/O. The kernel answers each call
 as it likes; the proofs hold for every sequence of answers.
 */
module NonblockCopy {
  import opened Basics

  datatype Fd = Stdin | Stdout | Socket

  /** The kernel's answer to read: an error, or the bytes it has ready; none means end of
      file. A read returns as many of them as fit. */
  datatype Input = InBlocked | InError | Ready(bytes: seq<Byte>)

  /** The kernel's answer to write: an error, or room for n bytes. */
  datatype Output = OutBlocked | OutError | Room(n: nat)

  /** One turn of the loop, as the kernel sees it. */
  datatype Turn = Turn(readable: set<Fd>, writable: set<Fd>, stdin: Input, sock: Input, stdout: Output, send: Output)

  datatype Exit = Running | Returned | Premature | Failed

  function Fit(bytes: seq<Byte>, room: nat): (b: seq<Byte>)
    ensures |b| == Least(|bytes|, room) && b <= bytes
  {
    if |bytes| <= room then bytes else bytes[..room]
  }

  lemma {:induction false} FitFront(bytes: seq<Byte>, room: nat)
    ensures Fit(bytes, room) == bytes[..Least(|bytes|, room)]
  {
  }

  lemma {:induction false} SplitFront(all: seq<Byte>, done: seq<Byte>, rest: seq<Byte>, w: nat)
    requires all == done + rest && w <= |rest|
    ensures all == (done + rest[..w]) + rest[w..]
  {
    assert rest == rest[..w] + rest[w..];
  }

  /** What a read takes into a buffer with this much room. */
  function Taken(answer: Input, room: nat): seq<Byte> {
    if answer.Ready? then Fit(answer.bytes, room) else []
  }

  /** What a write puts out of these bytes. */
  function Put(bytes: seq<Byte>, answer: Output): seq<Byte> {
    if answer.Room? then Fit(bytes, answer.n) else []
  }

  /** How the loop goes on after a read from the socket. */
  function AfterSocket(answer: Input, stdineof: bool): Exit {
    if answer.InError? then Failed
    else if answer == Ready([]) then (if stdineof then Returned else Premature)
    else Running
  }

  predicate StdinFails(t: Turn, rset: set<Fd>) {
    Stdin in rset && t.stdin.InError?
  }

  /** How the loop goes on after the reads of a turn. */
  function Ended(t: Turn, rset: set<Fd>, stdineof: bool): Exit {
    if StdinFails(t, rset) then Failed
    else if Socket in rset then AfterSocket(t.sock, stdineof)
    else Running
  }

  function Least(a: int, b: int): int {
    if a <= b then a else b
  }

  /** The kernel's copy into a caller's buffer, which holds its data from `lo` up to `at`. */
  method CopyIn(buf: array<Byte>, ghost lo: nat, at: nat, b: seq<Byte>)
    requires lo <= at && at + |b| <= buf.Length
    modifies buf
    ensures buf[lo..at + |b|] == old(buf[lo..at]) + b
  {
    forall i | 0 <= i < |b| {
      buf[at + i] := b[i];
    }
  }

  /** What has gone through the descriptors, how the loop stands, and how far the buffers are
      filled. */
  datatype Snapshot = Snapshot(stdinRead: seq<Byte>, sent: seq<Byte>, received: seq<Byte>, stdoutWritten: seq<Byte>,
                               stdineof: bool, exit: Exit, toiptr: nat, friptr: nat)

  /** The set select waits for reading on. */
  function ReadersOf(a: Snapshot): set<Fd> {
    (if !a.stdineof && a.toiptr < MAXLINE then {Stdin} else {}) + (if a.friptr < MAXLINE then {Socket} else {})
  }

  /** And for writing: the descriptors with something to be written. */
  function WritersOf(a: Snapshot): set<Fd> {
    (if a.sent != a.stdinRead then {Socket} else {}) + (if a.stdoutWritten != a.received then {Stdout} else {})
  }

  /** One read from standard input: what is ready and fits is taken, and no bytes are the end. */
  ghost predicate StdinTaken(a: Snapshot, answer: Input, b: Snapshot) {
    var got := Taken(answer, MAXLINE - Least(a.toiptr, MAXLINE));
    b == a.(stdinRead := a.stdinRead + got, toiptr := a.toiptr + |got|, stdineof := a.stdineof || answer == Ready([]),
            exit := if answer.InError? then Failed else Running)
  }

  /** One read from the socket: no bytes end the loop. */
  ghost predicate SocketTaken(a: Snapshot, answer: Input, b: Snapshot) {
    var got := Taken(answer, MAXLINE - Least(a.friptr, MAXLINE));
    b == a.(received := a.received + got, friptr := a.friptr + |got|, exit := AfterSocket(answer, a.stdineof))
  }

  /** One write to standard output, if something is left to be written. */
  ghost predicate StdoutTaken(a: Snapshot, answer: Output, b: Snapshot) {
    var rest := Rest(a.received, a.stdoutWritten);
    var done := a.stdoutWritten + Put(rest, answer);
    b == a.(stdoutWritten := done, friptr := if done == a.received then 0 else a.friptr,
            exit := if answer.OutError? && rest != [] then Failed else Running)
  }

  /** One write to the socket, likewise. */
  ghost predicate SendTaken(a: Snapshot, answer: Output, b: Snapshot) {
    var rest := Rest(a.stdinRead, a.sent);
    var done := a.sent + Put(rest, answer);
    b == a.(sent := done, toiptr := if done == a.stdinRead then 0 else a.toiptr,
            exit := if answer.OutError? && rest != [] then Failed else Running)
  }

  lemma {:induction false} ReadsMeet(a: Snapshot, t: Turn, m: Snapshot, b: Snapshot)
    requires a.exit == Running
    requires var rset := ReadersOf(a) * t.readable;
      && (if Stdin in rset then StdinTaken(a, t.stdin, m) else m == a)
      && (if m.exit == Running && Socket in rset then SocketTaken(m, t.sock, b) else b == m)
    ensures ReadsTaken(a, t, b)
  {
    hide Fit, ReadersOf;
  }

  lemma {:induction false} WritesMeet(b: Snapshot, t: Turn, w: set<Fd>, m: Snapshot, c: Snapshot)
    requires b.exit == Running && (b.sent == b.stdinRead ==> b.toiptr == 0)
    requires b.stdoutWritten == b.received ==> b.friptr == 0
    requires if Stdout in w then StdoutTaken(b, t.stdout, m) else m == b
    requires if m.exit == Running && Socket in w then SendTaken(m, t.send, c) else c == m
    ensures WritesTaken(b, t, w, c)
  {
    hide Fit, Rest;
  }

  /** The reads of a turn, by what they add to the streams. */
  ghost predicate ReadsTaken(a: Snapshot, t: Turn, b: Snapshot) {
    var rset := ReadersOf(a) * t.readable;
    && b.sent == a.sent && b.stdoutWritten == a.stdoutWritten
    && b.stdinRead == a.stdinRead + (if Stdin in rset then Taken(t.stdin, MAXLINE - Least(a.toiptr, MAXLINE)) else [])
    && (b.stdineof <==> a.stdineof || (Stdin in rset && t.stdin == Ready([])))
    && b.received == a.received + (if Socket in rset && !StdinFails(t, rset)
                                   then Taken(t.sock, MAXLINE - Least(a.friptr, MAXLINE)) else [])
    && b.exit == Ended(t, rset, b.stdineof)
    && b.toiptr - a.toiptr == |b.stdinRead| - |a.stdinRead| && b.friptr - a.friptr == |b.received| - |a.received|
  }

  /** The bytes of a stream that are not through yet. */
  function Rest(all: seq<Byte>, done: seq<Byte>): seq<Byte> {
    if |done| <= |all| then all[|done|..] else []
  }

  ghost predicate WritesTaken(b: Snapshot, t: Turn, w: set<Fd>, c: Snapshot) {
    var p, q := Rest(b.received, b.stdoutWritten), Rest(b.stdinRead, b.sent);
    var stdoutFails := Stdout in w && p != [] && t.stdout.OutError?;
    var sendFails := !stdoutFails && Socket in w && q != [] && t.send.OutError?;
    && c.stdinRead == b.stdinRead && c.received == b.received && c.stdineof == b.stdineof
    && c.stdoutWritten == b.stdoutWritten + (if Stdout in w then Put(p, t.stdout) else [])
    && c.sent == b.sent + (if Socket in w && !stdoutFails then Put(q, t.send) else [])
    && c.exit == (if stdoutFails || sendFails then Failed else Running)
    && c.toiptr == (if c.sent == c.stdinRead then 0 else b.toiptr)
    && c.friptr == (if c.stdoutWritten == c.received then 0 else b.friptr)
  }

  /** One turn: the reads, then, unless they end the loop, the writes to the descriptors that
      select reported and to those for which something was just read. */
  ghost predicate TurnTaken(a: Snapshot, t: Turn, c: Snapshot) {
    exists b :: ReadsTaken(a, t, b) &&
      if b.exit != Running then c == b
      else WritesTaken(b, t, Tried(a, t, b), c)
  }

  function Tried(a: Snapshot, t: Turn, b: Snapshot): set<Fd> {
    WritersOf(a) * t.writable
      + (if b.stdinRead != a.stdinRead then {Socket} else {}) + (if b.received != a.received then {Stdout} else {})
  }

  class Copier {
    const to: array<Byte>
    const fr: array<Byte>
    var toiptr: nat
    var tooptr: nat
    var friptr: nat
    var froptr: nat
    var stdineof: bool
    var exit: Exit

    // What went through the descriptors, and how often SHUT_WR was sent.
    ghost var stdinRead: seq<Byte>
    ghost var sent: seq<Byte>
    ghost var received: seq<Byte>
    ghost var stdoutWritten: seq<Byte>
    ghost var shutdowns: nat

    /** The bytes of standard input that are not on the socket are exactly those in `to`, and
        likewise for `fr`; an empty buffer is rewound; SHUT_WR was sent exactly once if
        standard input has ended and everything is sent, and not yet otherwise. */
    ghost predicate Valid()
      reads this, to, fr
    {
      && to != fr && to.Length == MAXLINE && fr.Length == MAXLINE
      && tooptr <= toiptr <= MAXLINE && (tooptr == toiptr ==> toiptr == 0)
      && froptr <= friptr <= MAXLINE && (froptr == friptr ==> friptr == 0)
      && stdinRead == sent + to[tooptr..toiptr]
      && received == stdoutWritten + fr[froptr..friptr]
      && shutdowns == if stdineof && tooptr == toiptr then 1 else 0
    }

    constructor ()
      ensures Valid() && fresh(to) && fresh(fr) && exit == Running && !stdineof
      ensures stdinRead == sent == received == stdoutWritten == []
    {
      to := new Byte[MAXLINE](_ => 0);
      fr := new Byte[MAXLINE](_ => 0);
      toiptr, tooptr, friptr, froptr := 0, 0, 0, 0;
      stdineof, exit := false, Running;
      stdinRead, sent, received, stdoutWritten, shutdowns := [], [], [], [], 0;
    }

    ghost function Snap(): Snapshot
      reads this
    {
      Snapshot(stdinRead, sent, received, stdoutWritten, stdineof, exit, toiptr, friptr)
    }

    /** The set select waits for reading on. */
    function Readers(): (r: set<Fd>)
      reads this
    {
      (if !stdineof && toiptr < MAXLINE then {Stdin} else {}) + (if friptr < MAXLINE then {Socket} else {})
    }

    function Writers(): (w: set<Fd>)
      reads this
    {
      (if tooptr != toiptr then {Socket} else {}) + (if froptr != friptr then {Stdout} else {})
    }

    /** select never waits on nothing: the socket is readable or there is output to write. */
    lemma {:induction false} NeverWaitsOnNothing()
      requires Valid()
      ensures Readers() + Writers() != {}
    {
      assert friptr < MAXLINE ==> Socket in Readers();
      assert froptr != friptr ==> Stdout in Writers();
    }

    /** The sets select is given, from the streams. */
    lemma {:induction false} SetsOf()
      requires Valid()
      ensures Readers() == ReadersOf(Snap()) && Writers() == WritersOf(Snap())
    {
      assert sent == stdinRead <==> tooptr == toiptr;
      assert stdoutWritten == received <==> froptr == friptr;
    }

    /** Bytes just read go behind those in `to`. */
    method FillTo(b: seq<Byte>)
      requires Valid() && !stdineof && 0 < |b| <= MAXLINE - toiptr
      modifies this`toiptr, this`stdinRead, to
      ensures Valid() && toiptr == old(toiptr) + |b| && stdinRead == old(stdinRead) + b
    {
      assert stdinRead + b == sent + (to[tooptr..toiptr] + b);
      CopyIn(to, tooptr, toiptr, b);
      toiptr := toiptr + |b|;
      stdinRead := stdinRead + b;
    }

    /** And likewise for `fr`. */
    method FillFr(b: seq<Byte>)
      requires Valid() && 0 < |b| <= MAXLINE - friptr
      modifies this`friptr, this`received, fr
      ensures Valid() && friptr == old(friptr) + |b| && received == old(received) + b
    {
      assert received + b == stdoutWritten + (fr[froptr..friptr] + b);
      CopyIn(fr, froptr, friptr, b);
      friptr := friptr + |b|;
      received := received + b;
    }

    method ReadStdin(answer: Input) returns (n: nat)
      requires Valid() && exit == Running && !stdineof && toiptr < MAXLINE
      modifies this, to
      ensures Valid() && StdinTaken(old(Snap()), answer, Snap())
      ensures n == |stdinRead| - |old(stdinRead)| && (n > 0 <==> stdinRead != old(stdinRead))
      ensures exit == if answer.InError? then Failed else Running
      ensures friptr == old(friptr) && froptr == old(froptr) && received == old(received) && old(shutdowns) <= shutdowns
    {
      hide Fit;
      n := 0;
      if answer.InError? {
        exit := Failed;
      } else if answer.Ready? {
        var b := Fit(answer.bytes, MAXLINE - toiptr);
        n := |b|;
        if n == 0 {
          stdineof := true;
          if tooptr == toiptr {
            shutdowns := shutdowns + 1;
          }
        } else {
          FillTo(b);
        }
      }
    }

    method ReadSocket(answer: Input) returns (n: nat)
      requires Valid() && exit == Running && friptr < MAXLINE
      modifies this, fr
      ensures Valid() && SocketTaken(old(Snap()), answer, Snap())
      ensures n == |received| - |old(received)| && (n > 0 <==> received != old(received))
      ensures exit == AfterSocket(answer, stdineof) && stdinRead == old(stdinRead) && shutdowns == old(shutdowns)
      ensures froptr == old(froptr) && friptr == old(friptr) + n
    {
      hide Fit;
      n := 0;
      if answer.InError? {
        exit := Failed;
      } else if answer.Ready? {
        var b := Fit(answer.bytes, MAXLINE - friptr);
        n := |b|;
        if n == 0 {
          exit := if stdineof then Returned else Premature;
        } else {
          FillFr(b);
        }
      }
    }

    method WriteStdout(answer: Output)
      requires Valid() && exit == Running
      modifies this
      ensures Valid() && StdoutTaken(old(Snap()), answer, Snap())
      ensures tooptr == old(tooptr) && shutdowns == old(shutdowns) && (exit == Running || exit == Failed)
      ensures stdoutWritten == old(stdoutWritten) ==> froptr == old(froptr) && friptr == old(friptr)
    {
      Unwritten();
      hide Fit, Rest;
      var n := friptr - froptr;
      if n > 0 {
        if answer.OutError? {
          exit := Failed;
        } else if answer.Room? {
          var w := if answer.n < n then answer.n else n;
          FitFront(fr[froptr..friptr], answer.n);
          DrainFr(w);
        }
      }
    }

    /** Bytes just written leave the front of `fr`; an empty buffer is rewound. */
    method DrainFr(w: nat)
      requires Valid() && froptr < friptr && w <= friptr - froptr
      modifies this`froptr, this`friptr, this`stdoutWritten
      ensures Valid() && stdoutWritten == old(stdoutWritten) + old(fr[froptr..friptr])[..w]
      ensures w == 0 ==> froptr == old(froptr) && friptr == old(friptr)
      ensures friptr == if stdoutWritten == received then 0 else old(friptr)
    {
      assert fr[froptr..froptr + w] == fr[froptr..friptr][..w];
      assert fr[froptr + w..friptr] == fr[froptr..friptr][w..];
      SplitFront(received, stdoutWritten, fr[froptr..friptr], w);
      stdoutWritten := stdoutWritten + fr[froptr..froptr + w];
      froptr := froptr + w;
      if froptr == friptr {
        froptr, friptr := 0, 0;
      }
    }

    /** And likewise for `to`, where the last byte may be followed by SHUT_WR. */
    method DrainTo(w: nat)
      requires Valid() && tooptr < toiptr && w <= toiptr - tooptr
      modifies this`tooptr, this`toiptr, this`sent, this`shutdowns
      ensures Valid() && sent == old(sent) + old(to[tooptr..toiptr])[..w]
      ensures old(shutdowns) == 0 && (shutdowns > 0 ==> stdineof && sent == stdinRead)
      ensures toiptr == if sent == stdinRead then 0 else old(toiptr)
    {
      assert to[tooptr..tooptr + w] == to[tooptr..toiptr][..w];
      assert to[tooptr + w..toiptr] == to[tooptr..toiptr][w..];
      SplitFront(stdinRead, sent, to[tooptr..toiptr], w);
      sent := sent + to[tooptr..tooptr + w];
      tooptr := tooptr + w;
      if tooptr == toiptr {
        tooptr, toiptr := 0, 0;
        if stdineof {
          shutdowns := shutdowns + 1;
        }
      }
    }

    /** Nothing is written after SHUT_WR, since the buffer is empty then and stays so. */
    method WriteSocket(answer: Output)
      requires Valid() && exit == Running
      modifies this
      ensures Valid() && SendTaken(old(Snap()), answer, Snap())
      ensures friptr == old(friptr) && froptr == old(froptr) && stdoutWritten == old(stdoutWritten)
      ensures old(shutdowns) > 0 ==> sent == old(sent) && shutdowns == old(shutdowns)
      ensures old(shutdowns) <= shutdowns && (shutdowns > old(shutdowns) ==> stdineof && sent == stdinRead)
    {
      Unwritten();
      hide Fit, Rest;
      var n := toiptr - tooptr;
      if n > 0 {
        if answer.OutError? {
          exit := Failed;
        } else if answer.Room? {
          var w := if answer.n < n then answer.n else n;
          FitFront(to[tooptr..toiptr], answer.n);
          DrainTo(w);
        }
      }
    }

    /** The reads of one turn. `rset` is what select leaves of its first set; a successful
        read adds a descriptor to `wset`, to be tried for writing in the same turn. */
    method Reads(t: Turn, rset: set<Fd>, wset: set<Fd>) returns (w: set<Fd>)
      requires Valid() && exit == Running && rset == Readers() * t.readable
      modifies this, to, fr
      ensures Valid() && ReadsTaken(old(Snap()), t, Snap()) && old(shutdowns) <= shutdowns
      ensures froptr == old(froptr) && friptr == old(friptr) + |received| - |old(received)|
      ensures exit == Running ==>
        w == wset + (if stdinRead != old(stdinRead) then {Socket} else {})
                  + (if received != old(received) then {Stdout} else {})
    {
      SetsOf();
      hide Valid, ReadersOf, WritersOf, StdinTaken, SocketTaken, ReadsTaken, AfterSocket;
      ghost var a := Snap();
      w := wset;
      if Stdin in rset {
        var n := ReadStdin(t.stdin);
        if exit != Running {
          ReadsMeet(a, t, Snap(), Snap());
          return;
        }
        if n > 0 {
          w := w + {Socket};
        }
      }
      ghost var m := Snap();
      if Socket in rset {
        var n := ReadSocket(t.sock);
        if n > 0 {
          w := w + {Stdout};
        }
      }
      ReadsMeet(a, t, m, Snap());
    }

    /** The writes of one turn, to the descriptors in `wset`. */
    method Writes(t: Turn, wset: set<Fd>)
      requires Valid() && exit == Running
      modifies this
      ensures Valid() && WritesTaken(old(Snap()), t, wset, Snap()) && old(shutdowns) <= shutdowns
      ensures stdoutWritten == old(stdoutWritten) ==> froptr == old(froptr) && friptr == old(friptr)
    {
      Rewound();
      hide Valid, StdoutTaken, SendTaken, WritesTaken;
      ghost var b := Snap();
      if Stdout in wset {
        WriteStdout(t.stdout);
        if exit != Running {
          WritesMeet(b, t, wset, Snap(), Snap());
          return;
        }
      }
      ghost var m := Snap();
      if Socket in wset {
        WriteSocket(t.send);
      }
      WritesMeet(b, t, wset, m, Snap());
    }

    lemma {:induction false} Rewound()
      requires Valid()
      ensures (sent == stdinRead ==> toiptr == 0) && (stdoutWritten == received ==> friptr == 0)
    {
    }

    /** What is in the buffers is the rest of the streams. */
    lemma {:induction false} Unwritten()
      requires Valid()
      ensures fr[froptr..friptr] == Rest(received, stdoutWritten) && to[tooptr..toiptr] == Rest(stdinRead, sent)
      ensures froptr < friptr <==> Rest(received, stdoutWritten) != []
      ensures tooptr < toiptr <==> Rest(stdinRead, sent) != []
    {
    }

    /** One turn of the loop. What is read is offered for writing in the same turn, and so
        is older output that select reports: as much is written as the kernel has room for. */
    method Iterate(t: Turn)
      requires Valid() && exit == Running
      modifies this, to, fr
      ensures Valid() && TurnTaken(old(Snap()), t, Snap())
      ensures stdoutWritten == old(stdoutWritten) ==>
        froptr == old(froptr) && friptr == old(friptr) + |received| - |old(received)|
      ensures old(shutdowns) <= shutdowns <= 1
      ensures old(shutdowns) == 1 ==> sent == old(sent) == old(stdinRead)
    {
      hide Fit, Least, ReadsTaken, WritesTaken, ReadersOf, WritersOf;
      NeverWaitsOnNothing();
      SetsOf();
      Unwritten();
      var rset, wset := Readers() * t.readable, Writers() * t.writable;
      ghost var a := Snap();
      var w := Reads(t, rset, wset);
      ghost var b := Snap();
      ReadsKeep(a, t, b);
      if exit == Running {
        assert w == Tried(a, t, b);
        Writes(t, w);
        WritesKeep(b, t, w, Snap());
      }
      assert TurnTaken(a, t, Snap());
      SentOnce(a, t, Snap());
    }
  }

  lemma {:induction false} ReadsKeep(a: Snapshot, t: Turn, b: Snapshot)
    requires ReadsTaken(a, t, b)
    ensures b.sent == a.sent && b.stdoutWritten == a.stdoutWritten
  {
  }

  lemma {:induction false} WritesKeep(b: Snapshot, t: Turn, w: set<Fd>, c: Snapshot)
    requires WritesTaken(b, t, w, c)
    ensures c.stdinRead == b.stdinRead && c.received == b.received && c.stdineof == b.stdineof
  {
  }

  /** A turn only adds to the streams. Once standard input has ended it is not read again, and
      once all of it is sent nothing more is. */
  lemma {:induction false} SentOnce(a: Snapshot, t: Turn, c: Snapshot)
    requires TurnTaken(a, t, c)
    ensures a.stdinRead <= c.stdinRead && a.sent <= c.sent
    ensures a.received <= c.received && a.stdoutWritten <= c.stdoutWritten
    ensures a.stdineof ==> c.stdineof && c.stdinRead == a.stdinRead
    ensures a.stdineof && a.sent == a.stdinRead ==> c.sent == a.sent
  {
    hide Fit, Least;
    var b :| ReadsTaken(a, t, b) && if b.exit != Running then c == b else WritesTaken(b, t, Tried(a, t, b), c);
  }

  /** How a turn ends the loop: on end of file from the socket, prematurely unless standard
      input had ended, or on an error. */
  lemma {:induction false} TurnEnds(a: Snapshot, t: Turn, c: Snapshot)
    requires TurnTaken(a, t, c)
    ensures c.exit == Returned ==> c.stdineof
    ensures c.exit == Premature ==> !c.stdineof
    ensures var rset := ReadersOf(a) * t.readable;
      c.exit == Returned || c.exit == Premature <==> Socket in rset && !StdinFails(t, rset) && t.sock == Ready([])
  {
    hide Fit, Least, ReadersOf;
    var b :| ReadsTaken(a, t, b) && if b.exit != Running then c == b else WritesTaken(b, t, Tried(a, t, b), c);
  }

  /** While all goes well, what is read or was reported as writable is written as far as the
      kernel has room. */
  lemma {:induction false} TurnWrites(a: Snapshot, t: Turn, c: Snapshot)
    requires TurnTaken(a, t, c) && a.sent <= a.stdinRead && a.stdoutWritten <= a.received && c.exit == Running
    ensures t.send.Room? && (c.stdinRead != a.stdinRead || Socket in WritersOf(a) * t.writable) ==>
      |c.sent| - |a.sent| == Least(|c.stdinRead| - |a.sent|, t.send.n)
    ensures t.stdout.Room? && (c.received != a.received || Stdout in WritersOf(a) * t.writable) ==>
      |c.stdoutWritten| - |a.stdoutWritten| == Least(|c.received| - |a.stdoutWritten|, t.stdout.n)
  {
    hide Fit, WritersOf, ReadersOf;
    var b :| ReadsTaken(a, t, b) && if b.exit != Running then c == b else WritesTaken(b, t, Tried(a, t, b), c);
  }

  /** str_cli against any behaviour of the kernel. What is on the socket is always a prefix
      of what was read from standard input, and is all of it once SHUT_WR is sent; what is
      on standard output is a prefix of what the socket delivered, and may be less than all
      of it when the function returns. */
  method StrCli(turns: seq<Turn>) returns (c: Copier, ghost trace: seq<Snapshot>)
    ensures c.Valid() && c.sent <= c.stdinRead && c.stdoutWritten <= c.received
    ensures c.shutdowns <= 1 && (c.shutdowns == 1 <==> c.stdineof && c.sent == c.stdinRead)
    ensures c.exit == Returned ==> c.stdineof
    ensures c.exit == Premature ==> !c.stdineof && c.shutdowns == 0
    ensures c.stdoutWritten == c.received <==> c.froptr == c.friptr
    ensures IsTrace(trace, turns) && trace[|trace| - 1] == c.Snap()
  {
    c := new Copier();
    trace := [c.Snap()];
    var i := 0;
    hide TurnTaken, ReadersOf, StdinFails, Steps;
    TraceStart(turns);
    while i < |turns| && c.exit == Running
      invariant 0 <= i <= |turns| && c.Valid() && fresh(c) && fresh(c.to) && fresh(c.fr)
      invariant c.exit == Returned ==> c.stdineof
      invariant c.exit == Premature ==> !c.stdineof
      invariant |trace| == i + 1 && trace[i] == c.Snap() && Steps(trace, turns)
    {
      ghost var a := c.Snap();
      c.Iterate(turns[i]);
      TurnEnds(a, turns[i], c.Snap());
      TraceNext(trace, turns, c.Snap());
      trace := trace + [c.Snap()];
      i := i + 1;
    }
    assert c.sent == c.stdinRead <==> c.tooptr == c.toiptr;
  }

  function Start(): Snapshot {
    Snapshot([], [], [], [], false, Running, 0, 0)
  }

  /** The turns taken one after the other, until the loop ends or there are no more. */
  ghost predicate IsTrace(trace: seq<Snapshot>, turns: seq<Turn>) {
    Steps(trace, turns) && |trace| >= 1 && (|trace| <= |turns| ==> trace[|trace| - 1].exit != Running)
  }

  ghost predicate Steps(trace: seq<Snapshot>, turns: seq<Turn>) {
    && 1 <= |trace| <= |turns| + 1 && trace[0] == Start()
    && (forall k :: 0 <= k < |trace| - 1 ==> trace[k].exit == Running && TurnTaken(trace[k], turns[k], trace[k + 1]))
  }

  lemma {:induction false} TraceStart(turns: seq<Turn>)
    ensures Steps([Start()], turns)
  {
  }

  lemma {:induction false} TraceNext(trace: seq<Snapshot>, turns: seq<Turn>, c: Snapshot)
    requires Steps(trace, turns) && 1 <= |trace| <= |turns| && trace[|trace| - 1].exit == Running
    requires TurnTaken(trace[|trace| - 1], turns[|trace| - 1], c)
    ensures Steps(trace + [c], turns)
  {
    hide TurnTaken;
  }

  /** Output is lost when the socket ends while standard output is blocked: standard input
      ends and one byte comes in, but cannot be written; then the socket ends, and str_cli
      returns with the byte still in its buffer. */
  method OutputLost(b: Byte) returns (c: Copier)
    ensures c.Valid() && c.exit == Returned && c.received == [b] && c.stdoutWritten == []
  {
    hide TurnTaken;
    c := new Copier();
    ghost var x := c.Snap();
    c.Iterate(Turn({Stdin, Socket}, {}, Ready([]), Ready([b]), OutBlocked, OutBlocked));
    ghost var y := c.Snap();
    ByteStuck(b, x, y);
    c.Iterate(Turn({Socket}, {}, InBlocked, Ready([]), OutBlocked, OutBlocked));
    SocketEnds(y, c.Snap());
  }

  lemma {:induction false} ByteStuck(b: Byte, a: Snapshot, c: Snapshot)
    requires a == Start()
    requires TurnTaken(a, Turn({Stdin, Socket}, {}, Ready([]), Ready([b]), OutBlocked, OutBlocked), c)
    ensures c.exit == Running && c.stdineof && c.received == [b] && c.stdoutWritten == [] && c.friptr == 1
  {
  }

  lemma {:induction false} SocketEnds(a: Snapshot, c: Snapshot)
    requires a.friptr < MAXLINE && a.stdineof
    requires TurnTaken(a, Turn({Socket}, {}, InBlocked, Ready([]), OutBlocked, OutBlocked), c)
    ensures c.exit == Returned && c.received == a.received && c.stdoutWritten == a.stdoutWritten
  {
  }
}
