/**
 The select-based echo server: a table of client descriptors, the descriptor set built
 from it, and a loop that serves the ready clients and stops as soon as it has counted
 all of them.
 */
module SelectServer {

  const FD_SETSIZE: nat := 1024

  /** The table and the set describe the same clients: the set holds the listening
      descriptor and the live entries, which are different from each other and from it. */
  ghost predicate Table(client: seq<int>, allset: set<int>, listenfd: int) {
    && listenfd in allset
    && (forall i :: 0 <= i < |client| && client[i] >= 0 ==> client[i] in allset && client[i] != listenfd)
    && (forall x :: x in allset && x != listenfd ==> x >= 0 && x in client)
    && (forall i, j :: 0 <= i < j < |client| && client[i] >= 0 ==> client[i] != client[j])
  }

  lemma {:induction false} TableAdd(client: seq<int>, allset: set<int>, listenfd: int, i: nat, fd: int)
    requires Table(client, allset, listenfd) && i < |client| && client[i] < 0 && fd >= 0 && fd !in allset
    ensures Table(client[i := fd], allset + {fd}, listenfd)
  {
    var c := client[i := fd];
    forall x | x in allset + {fd} && x != listenfd
      ensures x >= 0 && x in c
    {
      if x == fd {
        assert c[i] == x;
      } else {
        var j :| 0 <= j < |client| && client[j] == x;
        assert c[j] == x;
      }
    }
  }

  lemma {:induction false} TableRemove(client: seq<int>, allset: set<int>, listenfd: int, i: nat)
    requires Table(client, allset, listenfd) && i < |client| && client[i] >= 0
    ensures Table(client[i := -1], allset - {client[i]}, listenfd)
  {
    var c := client[i := -1];
    forall x | x in allset - {client[i]} && x != listenfd
      ensures x >= 0 && x in c
    {
      var j :| 0 <= j < |client| && client[j] == x;
      assert c[j] == x;
    }
  }

  class Server {
    const listenfd: int
    const client: array<int>
    var allset: set<int>
    var maxi: int
    var maxfd: int

    ghost predicate Valid()
      reads this, client
    {
      && client.Length == FD_SETSIZE && -1 <= maxi < FD_SETSIZE
      && Table(client[..], allset, listenfd)
      && (forall i :: maxi < i < FD_SETSIZE ==> client[i] < 0)
      && (forall x :: x in allset ==> x <= maxfd)
    }

    constructor (listenfd: int)
      ensures Valid() && this.listenfd == listenfd && allset == {listenfd} && fresh(client)
    {
      this.listenfd := listenfd;
      client := new int[FD_SETSIZE](_ => -1);
      allset, maxi, maxfd := {listenfd}, -1, listenfd;
    }

    /** A new connection goes into the first free slot; without one the server quits. */
    method AddClient(connfd: int) returns (ok: bool, i: nat)
      requires Valid() && connfd >= 0 && connfd !in allset
      modifies this, client
      ensures ok <==> i < FD_SETSIZE
      ensures i <= FD_SETSIZE && forall j :: 0 <= j < i ==> old(client[j]) >= 0
      ensures ok ==> old(client[i]) < 0 && client[..] == old(client[..])[i := connfd]
      ensures ok ==> Valid() && allset == old(allset) + {connfd}
    {
      hide Table;
      i := 0;
      while i < FD_SETSIZE && client[i] >= 0
        invariant 0 <= i <= FD_SETSIZE && forall j :: 0 <= j < i ==> client[j] >= 0
      {
        i := i + 1;
      }
      if i == FD_SETSIZE {
        return false, i;
      }
      TableAdd(client[..], allset, listenfd, i, connfd);
      assert client[..][i := connfd] == client[..i] + [connfd] + client[i + 1..];
      client[i] := connfd;
      allset := allset + {connfd};
      if connfd > maxfd {
        maxfd := connfd;
      }
      if i > maxi {
        maxi := i;
      }
      ok := true;
    }

    /** Read from the ready clients, close those in `eof`, and stop when `nready` have been
        handled. `rset` are the ready clients. All of them are handled, each once. */
    method ServeReady(rset: set<int>, nready: nat, eof: set<int>) returns (served: seq<int>)
      requires Valid() && rset <= allset && listenfd !in rset && nready == |rset| > 0
      modifies this, client
      ensures Valid() && allset == old(allset) - rset * eof
      ensures multiset(served) == multiset(rset)
    {
      SweepStart(client[..], allset, listenfd, maxi, rset, eof);
      hide Sweep, Table;
      served := SweepReady(rset, nready, eof);
    }

    /** The loop over the table. */
    method SweepReady(rset: set<int>, nready: nat, eof: set<int>) returns (served: seq<int>)
      requires Sweep(client[..], allset, listenfd, maxi, 0, rset, rset, [], eof, allset) && nready == |rset|
      modifies this`allset, client
      ensures Table(client[..], allset, listenfd) && forall k :: maxi < k < client.Length ==> client[k] < 0
      ensures multiset(served) == multiset(rset) && allset == old(allset) - rset * eof
    {
      served := [];
      var left := nready;
      ghost var todo, before := rset, allset;
      var i := 0;
      assert client.Length == FD_SETSIZE && -1 <= maxi < FD_SETSIZE;
      hide Sweep, Table;
      while i <= maxi && left > 0
        invariant 0 <= i <= maxi + 1
        invariant left == |todo|
        invariant Sweep(client[..], allset, listenfd, maxi, i, rset, todo, served, eof, before)
      {
        var sockfd := client[i];
        SweepStep(client[..], allset, listenfd, maxi, i, rset, todo, served, eof, before);
        if sockfd >= 0 && sockfd in rset {
          served := served + [sockfd];
          todo := todo - {sockfd};
          if sockfd in eof {
            CloseClient(i);
          }
          left := left - 1;
        }
        i := i + 1;
      }
      SweepEnd(client[..], allset, listenfd, maxi, i, rset, todo, served, eof, before);
    }

    /** One turn of the main loop. `ready` is what select reports of `allset`, `connfd` what
        accept returns if the listening descriptor is among it, `eof` the clients whose
        read returns 0. The new client is not served from the old report; every reported
        client is, once. */
    method Round(ready: set<int>, connfd: int, eof: set<int>) returns (ok: bool, served: seq<int>)
      requires Valid() && ready <= allset && ready != {} && (listenfd in ready ==> connfd >= 0 && connfd !in allset)
      modifies this, client
      ensures ok <==> listenfd !in ready || exists i :: 0 <= i < FD_SETSIZE && old(client[i]) < 0
      ensures ok ==> Valid() && multiset(served) == multiset(ready - {listenfd})
      ensures ok ==> allset == old(allset) + (if listenfd in ready then {connfd} else {}) - (ready - {listenfd}) * eof
    {
      hide Table;
      ListenIn(client[..], allset, listenfd);
      var nready := |ready|;
      served := [];
      if listenfd in ready {
        var i;
        ok, i := AddClient(connfd);
        if !ok {
          return;
        }
        nready := nready - 1;
        assert |ready - {listenfd}| == nready;
        if nready <= 0 {
          assert ready - {listenfd} == {};
          return;
        }
      } else {
        assert ready - {listenfd} == ready;
      }
      served := ServeReady(ready - {listenfd}, nready, eof);
      ok := true;
    }

    /** Close a client's descriptor and free its slot. */
    method CloseClient(i: nat)
      requires i < client.Length
      modifies this`allset, client
      ensures client[..] == old(client[..])[i := -1] && allset == old(allset) - {old(client[i])}
    {
      allset := allset - {client[i]};
      client[i] := -1;
    }
  }

  /** In the middle of the sweep, at index i: `todo` are the ready clients still to come. */
  ghost predicate Sweep(c: seq<int>, allset: set<int>, listenfd: int, maxi: int, i: int,
                        rset: set<int>, todo: set<int>, served: seq<int>, eof: set<int>, before: set<int>) {
    && Table(c, allset, listenfd) && |c| == FD_SETSIZE && -1 <= maxi < FD_SETSIZE && 0 <= i <= maxi + 1
    && (forall k :: maxi < k < |c| ==> c[k] < 0)
    && todo <= rset && todo <= allset && listenfd !in rset
    && allset == before - (rset - todo) * eof
    && multiset(served) + multiset(todo) == multiset(rset)
    && (forall x :: x in todo ==> exists k :: i <= k < |c| && c[k] == x)
    && (forall k :: i <= k < |c| && c[k] >= 0 && c[k] in rset ==> c[k] in todo)
  }

  lemma {:induction false} SweepStart(c: seq<int>, allset: set<int>, listenfd: int, maxi: int, rset: set<int>,
      eof: set<int>)
    requires Table(c, allset, listenfd) && |c| == FD_SETSIZE && -1 <= maxi < FD_SETSIZE
    requires (forall k :: maxi < k < |c| ==> c[k] < 0) && rset <= allset && listenfd !in rset
    ensures Sweep(c, allset, listenfd, maxi, 0, rset, rset, [], eof, allset)
  {
    forall x | x in rset
      ensures exists k :: 0 <= k < |c| && c[k] == x
    {
      assert x in c;
    }
    assert allset == allset - (rset - rset) * eof;
  }

  /** What the turn at index i does: nothing to an entry that is free or not ready,
      otherwise it serves the client and may close it. */
  lemma {:induction false} SweepStep(c: seq<int>, allset: set<int>, listenfd: int, maxi: int, i: int,
                                     rset: set<int>, todo: set<int>, served: seq<int>, eof: set<int>, before: set<int>)
    requires Sweep(c, allset, listenfd, maxi, i, rset, todo, served, eof, before) && i <= maxi
    ensures c[i] < 0 || c[i] !in rset ==> Sweep(c, allset, listenfd, maxi, i + 1, rset, todo, served, eof, before)
    ensures c[i] >= 0 && c[i] in rset ==>
      && c[i] in todo && |todo - {c[i]}| == |todo| - 1
      && (c[i] !in eof ==> Sweep(c, allset, listenfd, maxi, i + 1, rset, todo - {c[i]}, served + [c[i]], eof, before))
      && (c[i] in eof ==> Sweep(c[i := -1], allset - {c[i]}, listenfd, maxi, i + 1, rset, todo - {c[i]},
          served + [c[i]], eof, before))
  {
    if c[i] >= 0 && c[i] in rset {
      TableRemove(c, allset, listenfd, i);
      ServedStep(rset, todo, served, c[i]);
      Removed(allset, before, rset, todo, eof, c[i]);
      hide Table;
      var d := c[i := -1];
      forall x | x in todo - {c[i]}
        ensures exists k :: i + 1 <= k < |c| && c[k] == x && d[k] == x
      {
        var k :| i <= k < |c| && c[k] == x;
        assert k != i && d[k] == x;
      }
    } else {
      forall x | x in todo
        ensures exists k :: i + 1 <= k < |c| && c[k] == x
      {
        var k :| i <= k < |c| && c[k] == x;
        assert k != i;
      }
    }
  }

  lemma {:induction false} ServedStep(rset: set<int>, todo: set<int>, served: seq<int>, x: int)
    requires x in todo && multiset(served) + multiset(todo) == multiset(rset)
    ensures multiset(served + [x]) + multiset(todo - {x}) == multiset(rset)
  {
    assert todo == (todo - {x}) + {x};
    assert multiset(todo) == multiset(todo - {x}) + multiset{x};
    assert multiset(served + [x]) == multiset(served) + multiset{x};
  }

  lemma {:induction false} Removed(allset: set<int>, before: set<int>, rset: set<int>, todo: set<int>, eof: set<int>,
      x: int)
    requires x in todo && todo <= rset && allset == before - (rset - todo) * eof
    ensures x in eof ==> allset - {x} == before - (rset - (todo - {x})) * eof
    ensures x !in eof ==> allset == before - (rset - (todo - {x})) * eof
  {
  }

  /** The sweep is over when nothing is left to do, and cannot run out of table before. */
  lemma {:induction false} SweepEnd(c: seq<int>, allset: set<int>, listenfd: int, maxi: int, i: int,
                                    rset: set<int>, todo: set<int>, served: seq<int>, eof: set<int>, before: set<int>)
    requires Sweep(c, allset, listenfd, maxi, i, rset, todo, served, eof, before) && (todo == {} || i > maxi)
    ensures Table(c, allset, listenfd) && (forall k :: maxi < k < |c| ==> c[k] < 0)
    ensures multiset(served) == multiset(rset) && allset == before - rset * eof
  {
    SweepInside(c, allset, listenfd, maxi, i, rset, todo, served, eof, before);
    assert rset - todo == rset;
    assert multiset(todo) == multiset{};
  }

  lemma {:induction false} EmptyOrNot(s: set<int>)
    ensures s == {} || exists x :: x in s
  {
    if forall x :: x !in s {
      assert s == {};
    }
  }

  lemma {:induction false} SweepInside(c: seq<int>, allset: set<int>, listenfd: int, maxi: int, i: int,
                                       rset: set<int>, todo: set<int>, served: seq<int>, eof: set<int>,
                                       before: set<int>)
    requires Sweep(c, allset, listenfd, maxi, i, rset, todo, served, eof, before)
    ensures todo == {} || i <= maxi
  {
    EmptyOrNot(todo);
    if todo != {} {
      var x :| x in todo;
      assert x in allset && x != listenfd && x >= 0;
      assert exists k :: i <= k < |c| && c[k] == x;
    }
  }

  lemma {:induction false} ListenIn(client: seq<int>, allset: set<int>, listenfd: int)
    requires Table(client, allset, listenfd)
    ensures listenfd in allset
  {
  }

  // ---------- the exit for want of a slot ----------

  function Values(c: seq<int>, n: nat): set<int>
    requires n <= |c|
  {
    set i | 0 <= i < n :: c[i]
  }

  lemma {:induction false} ValuesSize(c: seq<int>, n: nat)
    requires n <= |c| && forall i, j :: 0 <= i < j < |c| ==> c[i] != c[j]
    ensures |Values(c, n)| == n
  {
    if n > 0 {
      ValuesSize(c, n - 1);
      assert Values(c, n) == Values(c, n - 1) + {c[n - 1]};
      assert c[n - 1] !in Values(c, n - 1);
    }
  }

  function Below(n: nat): (r: set<int>)
    ensures forall x :: x in r <==> 0 <= x < n
  {
    if n == 0 then {} else Below(n - 1) + {n - 1}
  }

  lemma {:induction false} BelowSize(n: nat)
    ensures |Below(n)| == n
  {
    if n > 0 {
      BelowSize(n - 1);
    }
  }

  lemma {:induction false} SubsetSize(a: set<int>, b: set<int>)
    requires a <= b
    ensures |a| <= |b|
  {
    assert b == a + (b - a);
  }

  /** A full table needs one descriptor per slot besides the listening one. */
  lemma {:induction false} FullTable(client: seq<int>, allset: set<int>, listenfd: int)
    requires Table(client, allset, listenfd) && forall i :: 0 <= i < |client| ==> client[i] >= 0
    ensures |allset| >= |client| + 1
  {
    ValuesSize(client, |client|);
    var v := Values(client, |client|);
    assert listenfd !in v;
    SubsetSize(v + {listenfd}, allset);
  }

  /** The table never runs out of slots while descriptors stay below FD_SETSIZE, as the
      descriptor sets require: the listening one leaves a slot to spare. */
  lemma {:induction false} AlwaysASlot(client: seq<int>, allset: set<int>, listenfd: int)
    requires Table(client, allset, listenfd) && |client| == FD_SETSIZE
    requires forall x :: x in allset ==> 0 <= x < FD_SETSIZE
    ensures exists i :: 0 <= i < FD_SETSIZE && client[i] < 0
  {
    BelowSize(FD_SETSIZE);
    SubsetSize(allset, Below(FD_SETSIZE));
    if forall i :: 0 <= i < |client| ==> client[i] >= 0 {
      FullTable(client, allset, listenfd);
    }
  }

  /** What the environment does in one turn. */
  datatype Turn = Turn(ready: set<int>, connfd: int, eof: set<int>)

  /** What a report can be: select returns with something ready, and accept with a new
      descriptor. Other turns do not happen. */
  predicate Possible(allset: set<int>, listenfd: int, t: Turn) {
    t.ready * allset != {} && (listenfd in t.ready * allset ==> t.connfd >= 0 && t.connfd !in allset)
  }

  /** The clients to be served in a turn. */
  function ReadyClients(allset: set<int>, listenfd: int, t: Turn): set<int> {
    if Possible(allset, listenfd, t) then t.ready * allset - {listenfd} else {}
  }

  /** The descriptors watched after a turn: one more if a connection came, and without the
      clients served that were at end of file. */
  function Watched(allset: set<int>, listenfd: int, t: Turn): set<int> {
    if !Possible(allset, listenfd, t) then allset
    else allset + (if listenfd in t.ready then {t.connfd} else {}) - ReadyClients(allset, listenfd, t) * t.eof
  }

  /** `sets` are the descriptors watched before and after each turn, and `served` the clients
      served in each, once each. */
  ghost predicate IsSession(listenfd: int, turns: seq<Turn>, sets: seq<set<int>>, served: seq<seq<int>>) {
    && |sets| == |served| + 1 && |served| <= |turns| && sets[0] == {listenfd}
    && forall k :: 0 <= k < |served| ==>
         && sets[k + 1] == Watched(sets[k], listenfd, turns[k])
         && multiset(served[k]) == multiset(ReadyClients(sets[k], listenfd, turns[k]))
  }

  lemma {:induction false} SessionNext(listenfd: int, turns: seq<Turn>, sets: seq<set<int>>, served: seq<seq<int>>,
                                       after: set<int>, now: seq<int>)
    requires IsSession(listenfd, turns, sets, served) && |served| < |turns|
    requires after == Watched(sets[|served|], listenfd, turns[|served|])
    requires multiset(now) == multiset(ReadyClients(sets[|served|], listenfd, turns[|served|]))
    ensures IsSession(listenfd, turns, sets + [after], served + [now])
  {
    hide Watched, ReadyClients;
  }

  /** The server against any sequence of reports: it takes every turn, unless a connection
      finds the table full. With descriptors below FD_SETSIZE it never quits. */
  method Serve(listenfd: int, turns: seq<Turn>)
    returns (s: Server, ok: bool, served: seq<seq<int>>, ghost sets: seq<set<int>>)
    ensures ok ==> s.Valid() && s.listenfd == listenfd
    ensures 0 <= listenfd < FD_SETSIZE && (forall t :: t in turns ==> 0 <= t.connfd < FD_SETSIZE) ==> ok
    ensures IsSession(listenfd, turns, sets, served) && (ok ==> |served| == |turns| && s.allset == sets[|turns|])
  {
    s := new Server(listenfd);
    ok, served, sets := true, [], [{listenfd}];
    ghost var small := 0 <= listenfd < FD_SETSIZE && forall t :: t in turns ==> 0 <= t.connfd < FD_SETSIZE;
    for i := 0 to |turns|
      invariant s.Valid() && s.listenfd == listenfd && fresh(s) && fresh(s.client)
      invariant small ==> forall x :: x in s.allset ==> 0 <= x < FD_SETSIZE
      invariant |served| == i && IsSession(listenfd, turns, sets, served) && s.allset == sets[i]
    {
      hide Table, IsSession;
      var t := turns[i];
      var ready := t.ready * s.allset;
      var now: seq<int> := [];
      ListenIn(s.client[..], s.allset, listenfd);
      if ready != {} && (listenfd in ready ==> t.connfd >= 0 && t.connfd !in s.allset) {
        if small {
          AlwaysASlot(s.client[..], s.allset, listenfd);
        }
        ok, now := s.Round(ready, t.connfd, t.eof);
        if !ok {
          return;
        }
      }
      SessionNext(listenfd, turns, sets, served, s.allset, now);
      served, sets := served + [now], sets + [s.allset];
    }
  }
}
