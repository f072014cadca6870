/**
 Two readline functions: the buffered one, which reads ahead into a static buffer, and
 the plain one, which asks the kernel for one byte at a time. The kernel may split the
 stream into reads as it likes, interrupt a read, or fail.
 */
module Readline {
  import opened Basics

  const NEWLINE: Byte := 10

  /** How the kernel will treat a read: interrupt it, fail it, or return up to n bytes. */
  datatype Reply = Interrupt | Fault | UpTo(n: nat)

  datatype Result = Eintr | Error | Bytes(b: seq<Byte>)

  class Kernel {
    var rest: seq<Byte>
    var script: seq<Reply>

    constructor (stream: seq<Byte>, replies: seq<Reply>)
      ensures rest == stream && script == replies
    {
      rest, script := stream, replies;
    }

    /** read(): at least one byte unless the stream has ended, never more than asked for. */
    method Read(max: nat) returns (r: Result)
      requires max > 0
      modifies this
      ensures r.Bytes? ==> r.b + rest == old(rest) && |r.b| <= max && (r.b == [] <==> old(rest) == [])
      ensures !r.Bytes? ==> rest == old(rest) && |script| < |old(script)|
      ensures r.Eintr? <==> old(script) != [] && old(script)[0] == Interrupt
      ensures r.Error? <==> old(script) != [] && old(script)[0] == Fault
      ensures script == if old(script) == [] then [] else old(script)[1..]
    {
      var n := max;
      if script != [] {
        var reply := script[0];
        script := script[1..];
        match reply {
          case Interrupt => return Eintr;
          case Fault => return Error;
          case UpTo(k) => n := if k < 1 then 1 else if k < max then k else max;
        }
      }
      if |rest| < n {
        n := |rest|;
      }
      r := Bytes(rest[..n]);
      rest := rest[n..];
    }
  }

  /** The replies that end a call: a failure, and an interrupt unless it retries. */
  predicate Ends(x: Reply, retries: bool) {
    x == Fault || (x == Interrupt && !retries)
  }

  /** What a call has met: `before` and `after` are the replies to come before and after it.
      It fails at the first reply that ends it, and not otherwise. */
  ghost predicate Met(before: seq<Reply>, after: seq<Reply>, retries: bool, failed: bool) {
    var k := |before| - |after|;
    && 0 <= k && after == before[k..]
    && (failed ==> k > 0 && Ends(before[k - 1], retries))
    && (forall i :: 0 <= i < (if failed then k - 1 else k) ==> !Ends(before[i], retries))
  }

  lemma {:induction false} MetNone(script: seq<Reply>, retries: bool)
    ensures Met(script, script, retries, false)
  {
  }

  lemma {:induction false} MetOne(before: seq<Reply>, after: seq<Reply>, retries: bool)
    requires after == if before == [] then [] else before[1..]
    ensures Met(before, after, retries, before != [] && Ends(before[0], retries))
  {
  }

  lemma {:induction false} MetThen(a: seq<Reply>, b: seq<Reply>, c: seq<Reply>, retries: bool, failed: bool)
    requires Met(a, b, retries, false) && Met(b, c, retries, failed)
    ensures Met(a, c, retries, failed)
  {
    var k := |a| - |b|;
    assert forall i :: k <= i < |a| ==> a[i] == b[i - k];
  }

  lemma {:induction false} MetAll(before: seq<Reply>, after: seq<Reply>, retries: bool, failed: bool)
    requires Met(before, after, retries, failed)
    ensures forall x :: x in after ==> x in before
    ensures failed ==> Fault in before || (Interrupt in before && !retries)
  {
  }

  lemma {:induction false} MetFailed(before: seq<Reply>, after: seq<Reply>, retries: bool)
    requires Met(before, after, retries, true)
    ensures Fault in before || (Interrupt in before && !retries)
  {
  }

  /** What a call is to store: up to and including the first newline, within the limit. */
  function Line(s: seq<Byte>, maxlen: nat): (l: seq<Byte>)
    ensures l <= s && (maxlen == 0 || |l| <= maxlen - 1)
  {
    if maxlen <= 1 || s == [] then []
    else if s[0] == NEWLINE then [NEWLINE]
    else [s[0]] + Line(s[1..], maxlen - 1)
  }

  /** The line is complete, or the limit cut it off, or else the stream ended. */
  predicate Complete(l: seq<Byte>) {
    l != [] && l[|l| - 1] == NEWLINE
  }

  predicate CutOff(l: seq<Byte>, maxlen: nat) {
    !Complete(l) && |l| + 1 >= maxlen
  }

  /** What the buffered form returns: the bytes stored, or one more when it is cut off. */
  function BufferedCount(l: seq<Byte>, maxlen: nat): nat {
    if CutOff(l, maxlen) then |l| + 1 else |l|
  }

  /** What the plain form returns: also one more when the stream ends within a line. */
  function PlainCount(l: seq<Byte>, maxlen: nat): nat {
    if CutOff(l, maxlen) || (!Complete(l) && l != []) then |l| + 1 else |l|
  }

  /** The line is all of a stream that ends before a newline and before the limit; any other
      line is complete or cut off. */
  lemma {:induction false} LineShape(s: seq<Byte>, maxlen: nat)
    ensures var l := Line(s, maxlen);
      && (if NEWLINE !in s && |s| + 1 < maxlen then l == s else Complete(l) || |l| + 1 >= maxlen)
      && (forall i :: 0 <= i < |l| - 1 ==> l[i] != NEWLINE)
    decreases |s|
  {
    LineOne(s, maxlen);
    hide Line;
    if maxlen > 1 && s != [] && s[0] != NEWLINE {
      var r := s[1..];
      LineShape(r, maxlen - 1);
      NewlineIn(s);
      assert Line(s, maxlen)[1..] == Line(r, maxlen - 1);
      assert NEWLINE !in s && |s| + 1 < maxlen ==> [s[0]] + r == s;
    }
  }

  lemma {:induction false} NewlineIn(s: seq<Byte>)
    requires s != []
    ensures NEWLINE in s <==> s[0] == NEWLINE || NEWLINE in s[1..]
  {
    assert s == [s[0]] + s[1..];
  }

  /** The two counts differ exactly when the stream has bytes left, but no newline among
      them, and ends before the limit. */
  lemma {:induction false} CountsAgree(s: seq<Byte>, maxlen: nat)
    ensures BufferedCount(Line(s, maxlen), maxlen) != PlainCount(Line(s, maxlen), maxlen)
      <==> s != [] && NEWLINE !in s && |s| + 1 < maxlen
  {
    LineShape(s, maxlen);
    hide Line;
    if NEWLINE !in s && |s| + 1 < maxlen {
      assert s != [] ==> s[|s| - 1] in s;
      assert !Complete(s);
    }
  }

  /** For a stream of one letter the buffered form returns 1 and the plain one 2. */
  lemma {:induction false} UnfinishedLine()
    ensures var l := Line([97], MAXLINE); l == [97] && BufferedCount(l, MAXLINE) == 1 && PlainCount(l, MAXLINE) == 2
  {
    LineShape([97], MAXLINE);
  }

  /** What a call that fails leaves: the bytes gone from the stream are in the buffer. */
  ghost predicate Stopped(dst: array<Byte>, was: seq<Byte>, now: seq<Byte>)
    reads dst
  {
    var k := |was| - |now|;
    0 <= k < dst.Length && now == was[k..] && dst[..k] == was[..k] && NEWLINE !in was[..k]
  }

  /** The call has stored its line, and `now` is what it leaves of the stream. */
  ghost predicate Stored(dst: array<Byte>, was: seq<Byte>, now: seq<Byte>, maxlen: nat)
    reads dst
  {
    var l := Line(was, maxlen);
    Holds(dst, l) && now == was[|l|..]
  }

  /** The call has stored `got`, without a newline, and goes on with `now`. */
  ghost predicate Midway(dst: array<Byte>, was: seq<Byte>, got: seq<Byte>, now: seq<Byte>)
    reads dst
  {
    got <= was && now == was[|got|..] && |got| < dst.Length && dst[..|got|] == got && NEWLINE !in got
  }

  lemma {:induction false} MidwayStart(dst: array<Byte>, s: seq<Byte>)
    requires dst.Length > 0
    ensures Midway(dst, s, [], s)
  {
  }

  lemma {:induction false} MidwayStopped(dst: array<Byte>, s: seq<Byte>, got: seq<Byte>, rest: seq<Byte>)
    requires Midway(dst, s, got, rest)
    ensures Stopped(dst, s, rest)
  {
    assert s[..|got|] == got;
  }

  /** One more byte; a newline ends the line. */
  method StoreByte(dst: array<Byte>, n: nat, c: Byte, maxlen: nat, ghost s: seq<Byte>, ghost got: seq<Byte>,
                   ghost now: seq<Byte>, ghost rest: seq<Byte>)
    returns (done: bool)
    requires Midway(dst, s, got, now) && now == [c] + rest && n == |got| + 1 < maxlen <= dst.Length
    modifies dst
    ensures done ==> Stored(dst, s, rest, maxlen)
    ensures done ==> n == BufferedCount(Line(s, maxlen), maxlen) == PlainCount(Line(s, maxlen), maxlen)
    ensures !done ==> Midway(dst, s, got + [c], rest)
  {
    Progress(s, got, maxlen, 1, c, rest);
    dst[n - 1] := c;
    done := c == NEWLINE;
    if done {
      dst[n] := 0;
    }
    assert dst[..n] == got + [c];
  }

  /** The terminating zero, at the end of the stream or at the limit. */
  method Terminate(dst: array<Byte>, maxlen: nat, ghost s: seq<Byte>, ghost got: seq<Byte>, k: nat,
                   ghost now: seq<Byte>)
    requires Midway(dst, s, got, now) && k == |got| && (k + 1 < maxlen ==> now == [])
    requires k + 1 <= maxlen || got == []
    modifies dst
    ensures Stored(dst, s, now, maxlen) && Line(s, maxlen) == got
    ensures BufferedCount(got, maxlen) == if k + 1 < maxlen then k else k + 1
    ensures PlainCount(got, maxlen) == if k + 1 < maxlen && got == [] then 0 else k + 1
  {
    if k + 1 < maxlen {
      Progress(s, got, maxlen, 0, 0, []);
    } else {
      assert maxlen >= 1 ==> |got| + 1 == maxlen;
      LimitReached(s, got, maxlen);
    }
    dst[k] := 0;
  }

  /** After the bytes `got`, none of them a newline, the call goes on with what is left. */
  lemma {:induction false} LineSplit(s: seq<Byte>, got: seq<Byte>, maxlen: nat)
    requires got <= s && |got| < maxlen && NEWLINE !in got
    ensures Line(s, maxlen) == got + Line(s[|got|..], maxlen - |got|)
    decreases |got|
  {
    hide Line;
    if got == [] {
      assert s[0..] == s && got + Line(s, maxlen) == Line(s, maxlen);
    } else {
      NewlineIn(got);
      LineOne(s, maxlen);
      var t, g := s[1..], got[1..];
      LineSplit(t, g, maxlen - 1);
      assert t[|g|..] == s[|got|..];
      var l := Line(s[|got|..], maxlen - |got|);
      assert Line(t, maxlen - 1) == g + l && [s[0]] + (g + l) == [s[0]] + g + l;
      assert got == [s[0]] + g;
    }
  }

  lemma {:induction false} LineOne(s: seq<Byte>, maxlen: nat)
    ensures maxlen <= 1 || s == [] ==> Line(s, maxlen) == []
    ensures maxlen > 1 && s != [] ==>
      Line(s, maxlen) == if s[0] == NEWLINE then [NEWLINE] else [s[0]] + Line(s[1..], maxlen - 1)
  {
  }

  /** The call has stored `l` and its terminating zero. */
  ghost predicate Holds(dst: array<Byte>, l: seq<Byte>)
    reads dst
  {
    |l| < dst.Length && dst[..|l|] == l && dst[|l|] == 0
  }

  /** The static data of lib/readline.c, on one descriptor. */
  class Reader {
    const fd: Kernel
    const readBuf: array<Byte>
    var readCnt: int
    var readPtr: nat

    ghost predicate Valid()
      reads this, readBuf
    {
      readBuf.Length == MAXLINE && readCnt >= -1 && (readCnt > 0 ==> readPtr + readCnt <= MAXLINE)
    }

    /** Bytes read ahead. */
    ghost function Pending(): seq<Byte>
      requires Valid()
      reads this, readBuf
    {
      if readCnt > 0 then readBuf[readPtr..readPtr + readCnt] else []
    }

    /** What the caller has not seen yet: the bytes read ahead, then the unread stream. */
    ghost function Remaining(): seq<Byte>
      requires Valid()
      reads this, readBuf, fd
    {
      Pending() + fd.rest
    }

    constructor (fd: Kernel)
      ensures Valid() && this.fd == fd && fresh(readBuf) && Remaining() == fd.rest
    {
      this.fd := fd;
      readBuf := new Byte[MAXLINE](_ => 0);
      readCnt, readPtr := 0, 0;
    }

    /** The read of my_read, repeated while it is interrupted. */
    method Refill() returns (rc: int)
      requires Valid() && readCnt <= 0
      modifies this, readBuf, fd
      ensures Valid() && -1 <= rc <= 1
      ensures rc == 1 ==> readCnt > 0 && Remaining() == old(fd.rest)
      ensures rc == 0 ==> old(fd.rest) == [] && Remaining() == []
      ensures rc == -1 ==> Remaining() == old(fd.rest) && Fault in old(fd.script)
      ensures Met(old(fd.script), fd.script, true, rc == -1)
    {
      MetNone(fd.script, true);
      hide Met;
      ghost var stream, replies := fd.rest, fd.script;
      while true
        invariant Valid() && readCnt <= 0 && fd.rest == stream
        invariant Met(replies, fd.script, true, false)
        decreases |fd.script|
      {
        var r := ReadAhead(replies);
        if r.Bytes? {
          Fill(r.b);
          return if r.b == [] then 0 else 1;
        }
        readCnt := -1;
        if r.Error? {
          return -1;
        }
      }
    }

    method ReadAhead(ghost replies: seq<Reply>) returns (r: Result)
      requires Met(replies, fd.script, true, false)
      modifies fd
      ensures Met(replies, fd.script, true, r.Error?)
      ensures r.Bytes? ==> r.b + fd.rest == old(fd.rest) && |r.b| <= MAXLINE && (r.b == [] <==> old(fd.rest) == [])
      ensures !r.Bytes? ==> fd.rest == old(fd.rest) && |fd.script| < |old(fd.script)|
      ensures r.Error? ==> Fault in replies
    {
      hide Met;
      ghost var script := fd.script;
      r := fd.Read(MAXLINE);
      MetOne(script, fd.script, true);
      MetThen(replies, script, fd.script, true, r.Error?);
      if r.Error? {
        MetFailed(replies, fd.script, true);
      }
    }

    /** The bytes read go to the front of the buffer. */
    method Fill(b: seq<Byte>)
      requires Valid() && |b| <= MAXLINE
      modifies this, readBuf
      ensures Valid() && readCnt == |b| && Pending() == b
    {
      readCnt := |b|;
      if readCnt > 0 {
        readPtr := 0;
        forall i | 0 <= i < |b| {
          readBuf[i] := b[i];
        }
        assert readBuf[0..|b|] == b;
      }
    }

    /** Take the first byte read ahead. */
    method TakeByte() returns (c: Byte)
      requires Valid() && readCnt > 0
      modifies this
      ensures Valid() && old(Remaining()) == [c] + Remaining()
    {
      c := readBuf[readPtr];
      assert readBuf[readPtr..readPtr + readCnt] == [c] + readBuf[readPtr + 1..readPtr + readCnt];
      readCnt := readCnt - 1;
      readPtr := readPtr + 1;
      assert readCnt == 0 ==> readBuf[readPtr..readPtr + readCnt] == [];
    }

    /** my_read: one byte of what remains, however the kernel delivers it. */
    method MyRead() returns (rc: int, c: Byte)
      requires Valid()
      modifies this, readBuf, fd
      ensures Valid() && -1 <= rc <= 1
      ensures rc == 1 ==> old(Remaining()) == [c] + Remaining()
      ensures rc == 0 ==> old(Remaining()) == [] && Remaining() == []
      ensures rc == -1 ==> Remaining() == old(Remaining()) && Fault in old(fd.script)
      ensures Met(old(fd.script), fd.script, true, rc == -1)
    {
      c := 0;
      if readCnt <= 0 {
        assert Remaining() == fd.rest;
        hide Remaining;
        rc := Refill();
        if rc < 1 {
          return;
        }
        c := TakeByte();
      } else {
        hide Remaining;
        rc := 1;
        c := TakeByte();
      }
    }
  
    /** my_read once more, `replies` being the replies to come when the call began. */
    method NextByte(ghost replies: seq<Reply>) returns (rc: int, c: Byte)
      requires Valid() && Met(replies, fd.script, true, false)
      modifies this, readBuf, fd
      ensures Valid() && -1 <= rc <= 1 && Met(replies, fd.script, true, rc == -1)
      ensures rc == 1 ==> old(Remaining()) == [c] + Remaining()
      ensures rc == 0 ==> old(Remaining()) == [] && Remaining() == []
      ensures rc == -1 ==> Remaining() == old(Remaining()) && Fault in replies
    {
      hide Remaining, Met;
      ghost var script := fd.script;
      rc, c := MyRead();
      MetThen(replies, script, fd.script, true, rc == -1);
      if rc == -1 {
        MetFailed(replies, fd.script, true);
      }
    }

    /** The buffered readline. `dst` holds at least `maxlen` bytes, and one for the zero. */
    method ReadLine(dst: array<Byte>, maxlen: nat) returns (n: int)
      requires Valid() && dst != readBuf && maxlen <= dst.Length && dst.Length > 0
      modifies this, readBuf, fd, dst
      ensures Valid()
      ensures n >= 0 ==>
        && Stored(dst, old(Remaining()), Remaining(), maxlen)
        && n == BufferedCount(Line(old(Remaining()), maxlen), maxlen)
      ensures n < 0 ==> n == -1 && Fault in old(fd.script) && Stopped(dst, old(Remaining()), Remaining())
      ensures Met(old(fd.script), fd.script, true, n < 0)
    {
      MetNone(fd.script, true);
      MidwayStart(dst, Remaining());
      hide Remaining, Line, Met, Midway, Stored, Stopped, BufferedCount, PlainCount, Valid, Pending;
      ghost var s, replies := Remaining(), fd.script;
      ghost var got: seq<Byte> := [];
      n := 1;
      while n < maxlen
        invariant Valid() && |got| == n - 1 && (n <= maxlen || n == 1)
        invariant Midway(dst, s, got, Remaining())
        invariant Met(replies, fd.script, true, false)
      {
        ghost var now := Remaining();
        var rc, c := NextByte(replies);
        if rc == 1 {
          var done := StoreByte(dst, n, c, maxlen, s, got, now, Remaining());
          if done {
            return;
          }
          got := got + [c];
        } else if rc == 0 {
          Terminate(dst, maxlen, s, got, n - 1, now);
          n := n - 1;
          return;
        } else {
          MidwayStopped(dst, s, got, now);
          return -1;
        }
        n := n + 1;
      }
      Terminate(dst, maxlen, s, got, n - 1, Remaining());
    }

    /** readlinebuf: how many bytes are read ahead, and where. */
    method ReadLineBuf() returns (n: int, vptr: nat)
      requires Valid()
      ensures n > 0 ==> vptr + n <= readBuf.Length && readBuf[vptr..vptr + n] == Pending()
      ensures n <= 0 ==> Pending() == []
    {
      n := readCnt;
      vptr := readPtr;
    }
  }

  /** One more byte, the end of the stream, or neither: what a step means for the line. */
  lemma {:induction false} Progress(s: seq<Byte>, got: seq<Byte>, maxlen: nat, rc: int, c: Byte, rest: seq<Byte>)
    requires got <= s && |got| + 1 < maxlen && NEWLINE !in got
    requires rc == 1 ==> s[|got|..] == [c] + rest
    requires rc == 0 ==> s[|got|..] == []
    ensures rc == 1 ==> got + [c] <= s && rest == s[|got| + 1..]
    ensures rc == 1 && c == NEWLINE ==>
      Line(s, maxlen) == got + [c] && BufferedCount(got + [c], maxlen) == PlainCount(got + [c], maxlen) == |got| + 1
    ensures rc == 0 ==> Line(s, maxlen) == got && s == got && BufferedCount(got, maxlen) == |got|
    ensures rc == 0 ==> PlainCount(got, maxlen) == if got == [] then 0 else |got| + 1
  {
    LineSplit(s, got, maxlen);
    var t := s[|got|..];
    if rc == 1 {
      assert t[0] == c && t[1..] == rest && s[|got| + 1..] == t[1..];
      LineOne(t, maxlen - |got|);
    } else if rc == 0 {
      assert got == s;
      assert Line(t, maxlen - |got|) == [];
    }
  }

  lemma {:induction false} LimitReached(s: seq<Byte>, got: seq<Byte>, maxlen: nat)
    requires got <= s && NEWLINE !in got && (|got| + 1 == maxlen || (maxlen == 0 && got == []))
    ensures Line(s, maxlen) == got && BufferedCount(got, maxlen) == PlainCount(got, maxlen) == |got| + 1
  {
    if maxlen > 0 {
      LineSplit(s, got, maxlen);
      assert Line(s[|got|..], 1) == [];
      assert got + [] == got;
    }
    assert !Complete(got);
  }

  method ReadByte(fd: Kernel, ghost replies: seq<Reply>) returns (r: Result)
    requires Met(replies, fd.script, false, false)
    modifies fd
    ensures Met(replies, fd.script, false, !r.Bytes?)
    ensures r.Bytes? ==> r.b + fd.rest == old(fd.rest) && |r.b| <= 1 && (r.b == [] <==> old(fd.rest) == [])
    ensures !r.Bytes? ==> fd.rest == old(fd.rest) && (Fault in replies || Interrupt in replies)
  {
    hide Met;
    ghost var script := fd.script;
    r := fd.Read(1);
    MetOne(script, fd.script, false);
    MetThen(replies, script, fd.script, false, !r.Bytes?);
    if !r.Bytes? {
      MetFailed(replies, fd.script, false);
    }
  }

  /** The plain readline of the servers: one system call per byte, and no retry. */
  method PlainReadLine(fd: Kernel, dst: array<Byte>, maxlen: nat) returns (n: int)
    requires maxlen <= dst.Length && dst.Length > 0
    modifies fd, dst
    ensures n > 0 ==>
      && Stored(dst, old(fd.rest), fd.rest, maxlen)
      && n == PlainCount(Line(old(fd.rest), maxlen), maxlen)
    ensures n == 0 ==> Line(old(fd.rest), maxlen) == [] && PlainCount([], maxlen) == 0
    ensures n >= 0 ==> fd.rest == old(fd.rest)[|Line(old(fd.rest), maxlen)|..]
    ensures n < 0 ==> n == -1 && (Fault in old(fd.script) || Interrupt in old(fd.script))
    ensures n < 0 ==> Stopped(dst, old(fd.rest), fd.rest)
    ensures Met(old(fd.script), fd.script, false, n < 0)
  {
    MetNone(fd.script, false);
    MidwayStart(dst, fd.rest);
    hide Line, Met, Midway, Stored, Stopped, BufferedCount, PlainCount;
    ghost var s, replies := fd.rest, fd.script;
    ghost var got: seq<Byte> := [];
    n := 1;
    while n < maxlen
      invariant |got| == n - 1 && (n <= maxlen || n == 1)
      invariant Midway(dst, s, got, fd.rest)
      invariant Met(replies, fd.script, false, false)
    {
      ghost var now := fd.rest;
      var r := ReadByte(fd, replies);
      if !r.Bytes? {
        MidwayStopped(dst, s, got, now);
        return -1;
      }
      if |r.b| == 1 {
        var c := r.b[0];
        var done := StoreByte(dst, n, c, maxlen, s, got, now, fd.rest);
        if done {
          return;
        }
        got := got + [c];
      } else {
        if n == 1 {
          NothingRead(s, got, maxlen, now, dst);
          return 0;
        }
        Terminate(dst, maxlen, s, got, n - 1, now);
        return;
      }
      n := n + 1;
    }
    Terminate(dst, maxlen, s, got, n - 1, fd.rest);
  }

  lemma {:induction false} NothingRead(s: seq<Byte>, got: seq<Byte>, maxlen: nat, now: seq<Byte>, dst: array<Byte>)
    requires Midway(dst, s, got, now) && got == [] && now == [] && maxlen > 1
    ensures Line(s, maxlen) == [] && PlainCount([], maxlen) == 0 && now == s[0..]
  {
  }

  // ---------- successive calls ----------

  /** What successive calls with the given limits are to store. */
  function Lines(s: seq<Byte>, limits: seq<nat>): seq<seq<Byte>> {
    if limits == [] then [] else
      var l := Line(s, limits[0]);
      [l] + Lines(s[|l|..], limits[1..])
  }

  lemma {:induction false} LinesStep(s: seq<Byte>, limits: seq<nat>, done: seq<seq<Byte>>, rest: seq<Byte>, i: nat)
    requires i < |limits| && Lines(s, limits) == done + Lines(rest, limits[i..])
    ensures var l := Line(rest, limits[i]); Lines(s, limits) == (done + [l]) + Lines(rest[|l|..], limits[i + 1..])
  {
    assert limits[i..][1..] == limits[i + 1..];
  }

  lemma {:induction false} LinesStart(s: seq<Byte>, limits: seq<nat>)
    ensures Lines(s, limits) == [] + Lines(s, limits[0..]) && Lines(s, []) == []
  {
    assert limits[0..] == limits;
  }

  /** The lines together are a prefix of the stream: nothing is lost or repeated. */
  lemma {:induction false} LinesConserve(s: seq<Byte>, limits: seq<nat>)
    ensures Flat(Lines(s, limits)) <= s
  {
    if limits != [] {
      var l := Line(s, limits[0]);
      LinesConserve(s[|l|..], limits[1..]);
      assert Lines(s, limits)[0] == l && Lines(s, limits)[1..] == Lines(s[|l|..], limits[1..]);
      assert s == l + s[|l|..];
    }
  }

  function Flat(ls: seq<seq<Byte>>): seq<Byte> {
    if ls == [] then [] else ls[0] + Flat(ls[1..])
  }

  /** How many bytes a call stored, from what it returned. */
  function StoredBuffered(dst: seq<Byte>, n: nat, maxlen: nat): nat
    requires n <= |dst|
  {
    if n > 0 && dst[n - 1] != NEWLINE && n >= maxlen then n - 1 else n
  }

  function StoredPlain(dst: seq<Byte>, n: nat): nat
    requires n <= |dst|
  {
    if n > 0 && dst[n - 1] != NEWLINE then n - 1 else n
  }

  lemma {:induction false} StoredLength(dst: seq<Byte>, l: seq<Byte>, maxlen: nat)
    requires |l| < |dst| && dst[..|l|] == l && dst[|l|] == 0 && (maxlen == 0 || |l| <= maxlen - 1)
    ensures StoredBuffered(dst, BufferedCount(l, maxlen), maxlen) == |l|
    ensures StoredPlain(dst, PlainCount(l, maxlen)) == |l|
  {
    assert l != [] ==> dst[..|l|][|l| - 1] == l[|l| - 1];
  }

  method BufferedSession(stream: seq<Byte>, replies: seq<Reply>, limits: seq<nat>)
    returns (ok: bool, lines: seq<seq<Byte>>)
    ensures Fault !in replies ==> ok
    ensures ok ==> lines == Lines(stream, limits)
  {
    hide Lines, Line, BufferedCount, Met, Reader.Valid, Reader.Pending, Reader.Remaining;
    var fd := new Kernel(stream, replies);
    var r := new Reader(fd);
    lines := [];
    LinesStart(stream, limits);
    for i := 0 to |limits|
      invariant r.Valid() && r.fd == fd && fresh(fd) && fresh(r) && fresh(r.readBuf)
      invariant Lines(stream, limits) == lines + Lines(r.Remaining(), limits[i..])
      invariant forall x :: x in fd.script ==> x in replies
    {
      var dst := new Byte[limits[i] + 1](_ => 0);
      ghost var before := r.Remaining();
      ghost var script := fd.script;
      var n := r.ReadLine(dst, limits[i]);
      MetAll(script, fd.script, true, n < 0);
      if n < 0 {
        return false, [];
      }
      LinesStep(stream, limits, lines, before, i);
      StoredLength(dst[..], Line(before, limits[i]), limits[i]);
      lines := lines + [dst[..StoredBuffered(dst[..], n, limits[i])]];
    }
    assert limits[|limits|..] == [];
    LinesStart(r.Remaining(), []);
    ok := true;
  }

  method PlainSession(stream: seq<Byte>, replies: seq<Reply>, limits: seq<nat>)
    returns (ok: bool, lines: seq<seq<Byte>>)
    ensures Fault !in replies && Interrupt !in replies ==> ok
    ensures ok ==> lines == Lines(stream, limits)
  {
    hide Lines, Line, PlainCount, Met;
    var fd := new Kernel(stream, replies);
    lines := [];
    LinesStart(stream, limits);
    for i := 0 to |limits|
      invariant fresh(fd)
      invariant Lines(stream, limits) == lines + Lines(fd.rest, limits[i..])
      invariant forall x :: x in fd.script ==> x in replies
    {
      var dst := new Byte[limits[i] + 1](_ => 0);
      ghost var before := fd.rest;
      ghost var script := fd.script;
      var n := PlainReadLine(fd, dst, limits[i]);
      MetAll(script, fd.script, false, n < 0);
      if n < 0 {
        return false, [];
      }
      LinesStep(stream, limits, lines, before, i);
      if n > 0 {
        StoredLength(dst[..], Line(before, limits[i]), limits[i]);
        n := StoredPlain(dst[..], n);
      }
      lines := lines + [dst[..n]];
    }
    assert limits[|limits|..] == [];
    LinesStart(fd.rest, []);
    ok := true;
  }

  /** On the same stream, however the kernel splits it for either and however often it
      interrupts the buffered form, both forms store the same lines. */
  method SameLines(stream: seq<Byte>, limits: seq<nat>, buffered: seq<Reply>, plain: seq<Reply>)
    returns (a: seq<seq<Byte>>, b: seq<seq<Byte>>)
    requires Fault !in buffered && Fault !in plain && Interrupt !in plain
    ensures a == b == Lines(stream, limits) && Flat(a) <= stream
  {
    var ok;
    ok, a := BufferedSession(stream, buffered, limits);
    ok, b := PlainSession(stream, plain, limits);
    LinesConserve(stream, limits);
  }
}
