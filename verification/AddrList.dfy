/**
 The address list of getaddrinfo: ga_aistruct appends an entry per host address, and
 ga_port walks the list once per socket type, setting ports in place and cloning entries
 into the list it is walking. The list is a linked structure whose entries each own their
 socket address; the functions on sequences say what the walk does to it.
 */
module AddrList {
  import opened Basics

  datatype Family = Inet | Inet6 | Local

  const SOCK_STREAM: int := 1
  const SOCK_DGRAM: int := 2

  /** The value of a list entry: whether AI_CLONE is set, and its fields. */
  datatype Entry = Entry(clone: bool, family: Family, socktype: int, protocol: int, canon: string, host: seq<Byte>,
      port: int)

  // ---------- what a pass does to the values ----------

  function Stamp(e: Entry, port: int, socktype: int): Entry {
    e.(socktype := socktype, port := if e.family == Local then e.port else port)
  }

  /** A clone drops the flags and the canonical name. */
  function Clone(e: Entry): Entry {
    e.(clone := false, canon := "")
  }

  /** The entries one entry becomes. */
  function PortEntry(e: Entry, port: int, socktype: int): seq<Entry> {
    if e.clone && e.socktype != 0 then [e, Stamp(Clone(e), port, socktype)]
    else if !e.clone && e.socktype != socktype then [e]
    else [Stamp(e, port, socktype)]
  }

  /** How many ports that sets: none for an entry skipped or of another family. */
  function FoundIn(e: Entry, socktype: int): nat {
    if (e.clone || e.socktype == socktype) && e.family != Local then 1 else 0
  }

  function Ported(es: seq<Entry>, port: int, socktype: int): seq<Entry> {
    if es == [] then [] else
      Ported(es[..|es| - 1], port, socktype) + PortEntry(es[|es| - 1], port, socktype)
  }

  function Found(es: seq<Entry>, socktype: int): nat {
    if es == [] then 0 else Found(es[..|es| - 1], socktype) + FoundIn(es[|es| - 1], socktype)
  }

  lemma {:induction false} PortedNext(es: seq<Entry>, i: nat, port: int, socktype: int)
    requires i < |es|
    ensures Ported(es[..i + 1], port, socktype) == Ported(es[..i], port, socktype) + PortEntry(es[i], port, socktype)
    ensures Found(es[..i + 1], socktype) == Found(es[..i], socktype) + FoundIn(es[i], socktype)
  {
    assert es[..i + 1][..i] == es[..i];
  }

  // ---------- the linked list ----------

  class SockAddr {
    var host: seq<Byte>
    var port: int
    constructor (host: seq<Byte>, port: int)
      ensures this.host == host && this.port == port
    {
      this.host, this.port := host, port;
    }
  }

  class AddrInfo {
    var clone: bool
    var family: Family
    var socktype: int
    var protocol: int
    var canon: string
    var addr: SockAddr
    var next: AddrInfo?

    constructor (clone: bool, family: Family, socktype: int, protocol: int, addr: SockAddr, next: AddrInfo?)
      ensures this.clone == clone && this.family == family && this.socktype == socktype && this.protocol == protocol
      ensures this.canon == "" && this.addr == addr && this.next == next
    {
      this.clone, this.family, this.socktype, this.protocol := clone, family, socktype, protocol;
      this.canon, this.addr, this.next := "", addr, next;
    }

    ghost function Value(): Entry
      reads this, addr
    {
      Entry(clone, family, socktype, protocol, canon, addr.host, addr.port)
    }
  }

  /** `ns` are the nodes from `head` on: chained by `next`, all different, and no two share
      a socket address. */
  ghost predicate Linked(head: AddrInfo?, ns: seq<AddrInfo>)
    reads ns
  {
    && head == (if ns == [] then null else ns[0])
    && (forall i :: 0 <= i < |ns| ==> ns[i].next == After(ns, i))
    && Apart(ns)
  }

  function After(ns: seq<AddrInfo>, i: nat): AddrInfo? {
    if i + 1 < |ns| then ns[i + 1] else null
  }

  ghost predicate Apart(ns: seq<AddrInfo>)
    reads ns
  {
    forall i, j :: 0 <= i < j < |ns| ==> ns[i] != ns[j] && ns[i].addr != ns[j].addr
  }

  function Insert<T>(ns: seq<T>, k: nat, n: T): seq<T>
    requires k < |ns|
  {
    ns[..k + 1] + [n] + ns[k + 1..]
  }

  lemma {:induction false} InsertAt<T>(ns: seq<T>, k: nat, n: T, i: nat)
    requires k < |ns| && i <= |ns|
    ensures |Insert(ns, k, n)| == |ns| + 1
    ensures Insert(ns, k, n)[i] == if i <= k then ns[i] else if i == k + 1 then n else ns[i - 1]
  {
  }

  /** ga_clone: a new node behind `ai`, with its own copy of the socket address. */
  method GaClone(ai: AddrInfo, ghost head: AddrInfo?, ghost ns: seq<AddrInfo>, ghost k: nat) returns (n: AddrInfo)
    requires Linked(head, ns) && k < |ns| && ns[k] == ai
    modifies ai`next
    ensures fresh(n) && fresh(n.addr) && n.Value() == Clone(ai.Value())
    ensures Linked(head, Insert(ns, k, n))
  {
    var a := new SockAddr(ai.addr.host, ai.addr.port);
    n := new AddrInfo(false, ai.family, ai.socktype, ai.protocol, a, ai.next);
    ai.next := n;
    InsertLinked(head, ns, k, n);
  }

  lemma {:induction false} InsertLinked(head: AddrInfo?, ns: seq<AddrInfo>, k: nat, n: AddrInfo)
    requires k < |ns| && head == ns[0] && Apart(ns)
    requires forall i :: 0 <= i < |ns| && i != k ==> ns[i].next == After(ns, i)
    requires ns[k].next == n && n.next == After(ns, k)
    requires forall i :: 0 <= i < |ns| ==> ns[i] != n && ns[i].addr != n.addr
    ensures Linked(head, Insert(ns, k, n))
  {
    var ms := Insert(ns, k, n);
    forall i | 0 <= i < |ms|
      ensures ms[i].next == After(ms, i)
    {
      InsertAt(ns, k, n, i);
      if i + 1 < |ms| {
        InsertAt(ns, k, n, i + 1);
      }
    }
    forall i, j | 0 <= i < j < |ms|
      ensures ms[i] != ms[j] && ms[i].addr != ms[j].addr
    {
      InsertAt(ns, k, n, i);
      InsertAt(ns, k, n, j);
    }
  }

  /** Set the socket type and, for the families that have one, the port. */
  method SetPort(ai: AddrInfo, port: int, socktype: int, ghost head: AddrInfo?, ghost ns: seq<AddrInfo>)
    returns (found: nat)
    requires Linked(head, ns)
    modifies ai`socktype, ai.addr`port
    ensures Linked(head, ns) && ai.Value() == Stamp(old(ai.Value()), port, socktype)
    ensures found == if ai.family == Local then 0 else 1
  {
    ai.socktype := socktype;
    found := 0;
    if ai.family != Local {
      ai.addr.port := port;
      found := 1;
    }
    assert Apart(ns);
  }

  /** One turn of the loop of ga_port: `ns` is the list before it, `ms` after it. The entry
      at k becomes one or two entries; `last` is the last of them. */
  method PortOne(ai: AddrInfo, port: int, socktype: int, ghost head: AddrInfo?, ghost ns: seq<AddrInfo>, ghost k: nat)
    returns (last: AddrInfo, found: nat, ghost ms: seq<AddrInfo>)
    requires Linked(head, ns) && k < |ns| && ns[k] == ai
    modifies ai, ai.addr
    ensures Linked(head, ms) && ai.addr == old(ai.addr)
    ensures last == ai || (fresh(last) && fresh(last.addr))
    ensures ms == if last == ai then ns else Insert(ns, k, last)
    ensures found == FoundIn(old(ai.Value()), socktype)
    ensures PortEntry(old(ai.Value()), port, socktype) == if last == ai then [ai.Value()]
        else [ai.Value(), last.Value()]
  {
    hide Linked, Insert;
    last, found, ms := ai, 0, ns;
    if ai.clone {
      if ai.socktype != 0 {
        last := GaClone(ai, head, ns, k);
        ms := Insert(ns, k, last);
      }
    } else if ai.socktype != socktype {
      return;
    }
    found := SetPort(last, port, socktype, head, ms);
  }

  ghost function Nodes(ns: seq<AddrInfo>): set<AddrInfo> {
    set n | n in ns
  }

  ghost function Addrs(ns: seq<AddrInfo>): set<SockAddr>
    reads ns
  {
    set n | n in ns :: n.addr
  }

  /** The nodes hold these values. */
  ghost predicate Holds(ns: seq<AddrInfo>, vs: seq<Entry>)
    reads ns, Addrs(ns)
  {
    AddrsOf(ns);
    |ns| == |vs| && forall i :: 0 <= i < |ns| ==> ns[i].Value() == vs[i]
  }

  lemma {:induction false} AddrsOf(ns: seq<AddrInfo>)
    ensures forall i :: 0 <= i < |ns| ==> ns[i].addr in Addrs(ns)
  {
    assert forall i :: 0 <= i < |ns| ==> ns[i] in ns;
  }

  ghost predicate Owned(ms: seq<AddrInfo>, nodes: set<AddrInfo>, addrs: set<SockAddr>)
    reads ms
  {
    forall j :: 0 <= j < |ms| ==> ms[j] in nodes && ms[j].addr in addrs
  }

  /** The values after the entry at k is processed. */
  ghost function PortedAt(vs: seq<Entry>, k: nat, port: int, socktype: int): seq<Entry>
    requires k < |vs|
  {
    vs[..k] + PortEntry(vs[k], port, socktype) + vs[k + 1..]
  }

  /** The nodes after that; `last` is the last node of the entry. */
  ghost function Grown(ns: seq<AddrInfo>, k: nat, last: AddrInfo): seq<AddrInfo>
    requires k < |ns|
  {
    if last == ns[k] then ns else Insert(ns, k, last)
  }

  lemma {:induction false} HoldsPorted(ns: seq<AddrInfo>, vs: seq<Entry>, k: nat, last: AddrInfo, port: int,
      socktype: int)
    requires k < |ns| == |vs|
    requires PortEntry(vs[k], port, socktype) == if last == ns[k] then [ns[k].Value()]
        else [ns[k].Value(), last.Value()]
    requires forall i :: 0 <= i < |ns| && i != k ==> ns[i].Value() == vs[i]
    ensures Holds(Grown(ns, k, last), PortedAt(vs, k, port, socktype))
  {
    var ms, ws := Grown(ns, k, last), PortedAt(vs, k, port, socktype);
    if last == ns[k] {
      assert ws == vs[k := ns[k].Value()];
    } else {
      assert ws == Insert(vs[k := ns[k].Value()], k, last.Value());
    }
    forall i | 0 <= i < |ms|
      ensures ms[i].Value() == ws[i]
    {
      InsertAt(ns, k, last, i);
    }
  }

  /** The same turn, seen on the whole list. */
  method PortAt(ai: AddrInfo, port: int, socktype: int, ghost head: AddrInfo?, ghost ns: seq<AddrInfo>, ghost k: nat,
      ghost vs: seq<Entry>)
    returns (last: AddrInfo, found: nat)
    requires Linked(head, ns) && Holds(ns, vs) && k < |ns| && ns[k] == ai
    modifies ai, ai.addr
    ensures Linked(head, Grown(ns, k, last)) && Holds(Grown(ns, k, last), PortedAt(vs, k, port, socktype))
    ensures last == ai || (fresh(last) && fresh(last.addr))
    ensures found == FoundIn(vs[k], socktype) && |PortEntry(vs[k], port, socktype)| == if last == ai then 1 else 2
    ensures ai.addr == old(ai.addr)
  {
    assert forall i :: 0 <= i < |ns| && i != k ==> ns[i] != ai && ns[i].addr != ai.addr by {
      OthersApart(head, ns, k);
    }
    hide Linked, Insert, PortEntry, PortedAt, FoundIn;
    ghost var ms;
    last, found, ms := PortOne(ai, port, socktype, head, ns, k);
    HoldsPorted(ns, vs, k, last, port, socktype);
  }

  lemma {:induction false} OthersApart(head: AddrInfo?, ns: seq<AddrInfo>, k: nat)
    requires Linked(head, ns) && k < |ns|
    ensures forall i :: 0 <= i < |ns| && i != k ==> ns[i] != ns[k] && ns[i].addr != ns[k].addr
  {
  }

  /** The walk goes on behind the last node of the entry. */
  lemma {:induction false} NextNode(head: AddrInfo?, ns: seq<AddrInfo>, k: nat, last: AddrInfo)
    requires k < |ns| && Linked(head, Grown(ns, k, last))
    ensures last.next == After(Grown(ns, k, last), k + if last == ns[k] then 0 else 1)
  {
    InsertAt(ns, k, last, k + 1);
    NextOf(head, Grown(ns, k, last), k + if last == ns[k] then 0 else 1);
  }

  lemma {:induction false} HeadOf(head: AddrInfo?, ns: seq<AddrInfo>)
    requires Linked(head, ns)
    ensures head == if ns == [] then null else ns[0]
  {
  }

  lemma {:induction false} HoldsLength(ns: seq<AddrInfo>, vs: seq<Entry>)
    requires Holds(ns, vs)
    ensures |ns| == |vs|
  {
  }

  lemma {:induction false} WalkStart(es: seq<Entry>, port: int, socktype: int)
    ensures Ported(es[..0], port, socktype) == [] && Found(es[..0], socktype) == 0
        && Midway(es, 0, port, socktype) == es
  {
  }

  lemma {:induction false} NextOf(head: AddrInfo?, ns: seq<AddrInfo>, i: nat)
    requires Linked(head, ns) && i < |ns|
    ensures ns[i].next == After(ns, i)
  {
  }

  /** The values in the middle of a walk: i entries done, the others as they were. */
  ghost function Midway(es: seq<Entry>, i: nat, port: int, socktype: int): seq<Entry>
    requires i <= |es|
  {
    Ported(es[..i], port, socktype) + es[i..]
  }

  lemma {:induction false} MidwayNext(es: seq<Entry>, i: nat, port: int, socktype: int)
    requires i < |es|
    ensures var k := |Ported(es[..i], port, socktype)|;
            && k < |Midway(es, i, port, socktype)| && Midway(es, i, port, socktype)[k] == es[i]
            && PortedAt(Midway(es, i, port, socktype), k, port, socktype) == Midway(es, i + 1, port, socktype)
            && |Ported(es[..i + 1], port, socktype)| == k + |PortEntry(es[i], port, socktype)|
            && Found(es[..i + 1], socktype) == Found(es[..i], socktype) + FoundIn(es[i], socktype)
  {
    PortedNext(es, i, port, socktype);
    hide Ported, PortEntry;
    var vs, k := Midway(es, i, port, socktype), |Ported(es[..i], port, socktype)|;
    assert vs[..k] == Ported(es[..i], port, socktype) && vs[k + 1..] == es[i + 1..];
  }

  /** The state of a walk: i entries are done and `ai` is the node of the next one. */
  ghost predicate Walk(head: AddrInfo?, ms: seq<AddrInfo>, es: seq<Entry>, i: nat, port: int, socktype: int,
      ai: AddrInfo?)
    reads *
  {
    && i <= |es| && Linked(head, ms) && Holds(ms, Midway(es, i, port, socktype))
    && ai == var k := |Ported(es[..i], port, socktype)|; if k < |ms| then ms[k] else null
  }

  lemma {:induction false} WalkInside(head: AddrInfo?, ms: seq<AddrInfo>, es: seq<Entry>, i: nat, port: int,
      socktype: int, ai: AddrInfo?)
    requires Walk(head, ms, es, i, port, socktype, ai)
    ensures ai != null <==> i < |es|
    ensures i == |es| ==> Linked(head, ms) && Holds(ms, Ported(es, port, socktype))
  {
    if i == |es| {
      assert es[..i] == es && Midway(es, i, port, socktype) == Ported(es, port, socktype);
    }
  }

  method WalkStep(ai: AddrInfo, port: int, socktype: int, ghost head: AddrInfo?, ghost ns: seq<AddrInfo>,
      ghost es: seq<Entry>, ghost i: nat,
      ghost nodes: set<AddrInfo>, ghost addrs: set<SockAddr>)
    returns (next: AddrInfo?, found: nat, ghost ms: seq<AddrInfo>, ghost newNodes: set<AddrInfo>,
        ghost newAddrs: set<SockAddr>)
    requires Walk(head, ns, es, i, port, socktype, ai) && i < |es| && Owned(ns, nodes, addrs)
    modifies ai, ai.addr
    ensures Walk(head, ms, es, i + 1, port, socktype, next)
    ensures found == FoundIn(es[i], socktype)
    ensures fresh(newNodes) && fresh(newAddrs) && Owned(ms, nodes + newNodes, addrs + newAddrs)
  {
    hide *;
    WalkOpen(head, ns, es, i, port, socktype, ai);
    MidwayNext(es, i, port, socktype);
    ghost var k := |Ported(es[..i], port, socktype)|;
    OwnedAddrs(ns, nodes, addrs);
    var last;
    last, found := PortAt(ai, port, socktype, head, ns, k, Midway(es, i, port, socktype));
    OwnedAgain(ns, nodes, addrs);
    WalkClose(head, ns, es, i, port, socktype, last);
    ms, newNodes, newAddrs := Grown(ns, k, last), {last} - nodes, {last.addr} - addrs;
    next := last.next;
    OwnedInsert(ns, k, last, nodes, addrs);
  }

  lemma {:induction false} OwnedAddrs(ns: seq<AddrInfo>, nodes: set<AddrInfo>, addrs: set<SockAddr>)
    requires Owned(ns, nodes, addrs)
    ensures forall j :: 0 <= j < |ns| ==> ns[j] in nodes && ns[j].addr in addrs
  {
  }

  lemma {:induction false} OwnedAgain(ns: seq<AddrInfo>, nodes: set<AddrInfo>, addrs: set<SockAddr>)
    requires forall j :: 0 <= j < |ns| ==> ns[j] in nodes && ns[j].addr in addrs
    ensures Owned(ns, nodes, addrs)
  {
  }

  lemma {:induction false} WalkOpen(head: AddrInfo?, ns: seq<AddrInfo>, es: seq<Entry>, i: nat, port: int,
      socktype: int, ai: AddrInfo)
    requires Walk(head, ns, es, i, port, socktype, ai) && i < |es|
    ensures Linked(head, ns) && Holds(ns, Midway(es, i, port, socktype))
    ensures var k := |Ported(es[..i], port, socktype)|; k < |ns| == |Midway(es, i, port, socktype)| && ns[k] == ai
  {
  }

  /** The entry at i is done: its nodes are in the list and the walk is behind them. */
  lemma {:induction false} WalkClose(head: AddrInfo?, ns: seq<AddrInfo>, es: seq<Entry>, i: nat, port: int,
      socktype: int, last: AddrInfo)
    requires i < |es|
    requires var k := |Ported(es[..i], port, socktype)|;
             && k < |ns| == |Midway(es, i, port, socktype)|
             && Linked(head, Grown(ns, k, last))
             && Holds(Grown(ns, k, last), PortedAt(Midway(es, i, port, socktype), k, port, socktype))
             && |PortEntry(es[i], port, socktype)| == if last == ns[k] then 1 else 2
    ensures Walk(head, Grown(ns, |Ported(es[..i], port, socktype)|, last), es, i + 1, port, socktype, last.next)
  {
    MidwayNext(es, i, port, socktype);
    hide Linked, PortEntry, PortedAt, Insert, Ported, Midway, Holds, Grown;
    NextNode(head, ns, |Ported(es[..i], port, socktype)|, last);
  }

  lemma {:induction false} OwnedInsert(ns: seq<AddrInfo>, k: nat, last: AddrInfo, nodes: set<AddrInfo>,
      addrs: set<SockAddr>)
    requires k < |ns| && Owned(ns, nodes, addrs)
    ensures Owned(Grown(ns, k, last), nodes + ({last} - nodes), addrs + ({last.addr} - addrs))
  {
    var ms := Grown(ns, k, last);
    hide Insert;
    forall j | 0 <= j < |ms|
      ensures ms[j] in nodes + {last} && ms[j].addr in addrs + {last.addr}
    {
      InsertAt(ns, k, last, 0);
      InsertAt(ns, k, last, if j <= |ns| then j else 0);
    }
  }

  lemma {:induction false} WalkOwned(head: AddrInfo?, ms: seq<AddrInfo>, es: seq<Entry>, i: nat, port: int,
      socktype: int, ai: AddrInfo?,
      nodes: set<AddrInfo>, addrs: set<SockAddr>)
    requires Walk(head, ms, es, i, port, socktype, ai) && Owned(ms, nodes, addrs)
    ensures ai != null ==> ai in nodes && ai.addr in addrs
  {
  }

  lemma {:induction false} WalkBegin(head: AddrInfo?, ns: seq<AddrInfo>, es: seq<Entry>, port: int, socktype: int)
    requires Linked(head, ns) && Holds(ns, es)
    ensures Walk(head, ns, es, 0, port, socktype, head)
    ensures Owned(ns, Nodes(ns), Addrs(ns)) && Found(es[..0], socktype) == 0
  {
    WalkStart(es, port, socktype);
    forall j | 0 <= j < |ns|
      ensures ns[j] in Nodes(ns) && ns[j].addr in Addrs(ns)
    {
      assert ns[j] in ns;
    }
  }

  /** ga_port. The nodes of the new list are old ones or new ones, each with its own
      socket address, so no port shows up in another entry. */
  method GaPort(aihead: AddrInfo?, port: int, socktype: int, ghost ns: seq<AddrInfo>, ghost es: seq<Entry>)
    returns (nfound: nat, ghost ms: seq<AddrInfo>)
    requires Linked(aihead, ns) && Holds(ns, es)
    modifies ns, Addrs(ns)
    ensures Linked(aihead, ms) && Holds(ms, Ported(es, port, socktype))
    ensures nfound == Found(es, socktype)
    ensures fresh(Nodes(ms) - Nodes(ns)) && fresh(Addrs(ms) - old(Addrs(ns)))
  {
    hide Linked, Holds, Walk, Owned, Ported, Found;
    nfound, ms := 0, ns;
    var ai := aihead;
    ghost var i := 0;
    ghost var nodes, addrs := Nodes(ns), Addrs(ns);
    WalkBegin(aihead, ns, es, port, socktype);
    while ai != null
      invariant 0 <= i <= |es| && Walk(aihead, ms, es, i, port, socktype, ai)
      invariant Owned(ms, nodes, addrs) && fresh(nodes - Nodes(ns)) && fresh(addrs - old(Addrs(ns)))
      invariant nfound == Found(es[..i], socktype)
      decreases |es| - i
    {
      WalkInside(aihead, ms, es, i, port, socktype, ai);
      WalkOwned(aihead, ms, es, i, port, socktype, ai, nodes, addrs);
      FoundNext(es, i, socktype);
      var found;
      ghost var newNodes, newAddrs;
      ai, found, ms, newNodes, newAddrs := WalkStep(ai, port, socktype, aihead, ms, es, i, nodes, addrs);
      nodes, addrs := nodes + newNodes, addrs + newAddrs;
      nfound := nfound + found;
      i := i + 1;
    }
    WalkInside(aihead, ms, es, i, port, socktype, ai);
    assert es[..i] == es;
    OwnedSets(ms, nodes, addrs);
  }

  lemma {:induction false} FoundNext(es: seq<Entry>, i: nat, socktype: int)
    requires i < |es|
    ensures Found(es[..i + 1], socktype) == Found(es[..i], socktype) + FoundIn(es[i], socktype)
  {
    assert es[..i + 1][..i] == es[..i];
  }

  lemma {:induction false} OwnedSets(ms: seq<AddrInfo>, nodes: set<AddrInfo>, addrs: set<SockAddr>)
    requires Owned(ms, nodes, addrs)
    ensures Nodes(ms) <= nodes && Addrs(ms) <= addrs
  {
  }

  // ---------- a pass per socket type ----------

  datatype Service = Service(socktype: int, port: int)

  /** The values after a pass for each service in turn. */
  function Passes(es: seq<Entry>, svs: seq<Service>): seq<Entry> {
    if svs == [] then es else
      var s := svs[|svs| - 1];
      Ported(Passes(es, svs[..|svs| - 1]), s.port, s.socktype)
  }

  /** What a host entry should become: itself for the first service, then a clone per other
      service, the latest first since each clone goes right behind the original. */
  function Group(e: Entry, svs: seq<Service>): seq<Entry> {
    if svs == [] then [e] else
      seq(|svs|, j requires 0 <= j < |svs| =>
        if j == 0 then Stamp(e, svs[0].port, svs[0].socktype)
        else Stamp(Clone(e), svs[|svs| - j].port, svs[|svs| - j].socktype))
  }

  function Grouped(es: seq<Entry>, svs: seq<Service>): seq<Entry> {
    if es == [] then [] else Grouped(es[..|es| - 1], svs) + Group(es[|es| - 1], svs)
  }

  /** Entries as the host search leaves them when the caller names no socket type. */
  ghost predicate Hosts(es: seq<Entry>) {
    forall i :: 0 <= i < |es| ==> es[i].clone && es[i].socktype == 0 && es[i].family != Local
  }

  ghost predicate DistinctTypes(svs: seq<Service>) {
    && (forall i :: 0 <= i < |svs| ==> svs[i].socktype != 0)
    && (forall i, j :: 0 <= i < j < |svs| ==> svs[i].socktype != svs[j].socktype)
  }

  lemma {:induction false} PortedSnoc(es: seq<Entry>, e: Entry, port: int, socktype: int)
    ensures Ported(es + [e], port, socktype) == Ported(es, port, socktype) + PortEntry(e, port, socktype)
    ensures Found(es + [e], socktype) == Found(es, socktype) + FoundIn(e, socktype)
  {
    assert (es + [e])[..|es|] == es;
  }

  lemma {:induction false} PortedNone(port: int, socktype: int)
    ensures Ported([], port, socktype) == [] && Found([], socktype) == 0
  {
  }

  lemma {:induction false} PortedConcat(a: seq<Entry>, b: seq<Entry>, port: int, socktype: int)
    ensures Ported(a + b, port, socktype) == Ported(a, port, socktype) + Ported(b, port, socktype)
    ensures Found(a + b, socktype) == Found(a, socktype) + Found(b, socktype)
  {
    hide *;
    if b == [] {
      assert a + b == a;
      PortedNone(port, socktype);
    } else {
      var c, x := b[..|b| - 1], b[|b| - 1];
      assert b == c + [x] && a + b == (a + c) + [x];
      PortedConcat(a, c, port, socktype);
      PortedSnoc(c, x, port, socktype);
      PortedSnoc(a + c, x, port, socktype);
    }
  }

  /** Entries of other types are left alone. */
  lemma {:induction false} PortedSkip(es: seq<Entry>, port: int, socktype: int)
    requires forall i :: 0 <= i < |es| ==> !es[i].clone && es[i].socktype != socktype
    ensures Ported(es, port, socktype) == es && Found(es, socktype) == 0
  {
    if es != [] {
      PortedSkip(es[..|es| - 1], port, socktype);
      assert es == es[..|es| - 1] + [es[|es| - 1]];
    }
  }

  lemma {:induction false} PortedOne(e: Entry, port: int, socktype: int)
    ensures Ported([e], port, socktype) == PortEntry(e, port, socktype) && Found([e], socktype) == FoundIn(e, socktype)
  {
    assert [e][..0] == [];
    assert Ported([], port, socktype) == [] && Found([], socktype) == 0;
  }

  lemma {:induction false} GroupSnoc(e: Entry, svs: seq<Service>, s: Service)
    requires svs != []
    ensures Group(e, svs + [s]) == [Group(e, svs)[0], Stamp(Clone(e), s.port, s.socktype)] + Group(e, svs)[1..]
  {
    hide Stamp, Clone;
    var t, g, h := svs + [s], Group(e, svs), Group(e, svs + [s]);
    forall j | 2 <= j < |t|
      ensures h[j] == g[j - 1]
    {
      assert t[|t| - j] == svs[|svs| - (j - 1)];
    }
    assert t[|t| - 1] == s && t[0] == svs[0];
  }

  lemma {:induction false} GroupTypes(e: Entry, svs: seq<Service>, socktype: int)
    requires svs != [] && forall i :: 0 <= i < |svs| ==> svs[i].socktype != socktype
    ensures |Group(e, svs)| == |svs|
    ensures forall j :: 1 <= j < |svs| ==> !Group(e, svs)[j].clone && Group(e, svs)[j].socktype != socktype
  {
    forall j | 1 <= j < |svs|
      ensures !Group(e, svs)[j].clone && Group(e, svs)[j].socktype != socktype
    {
      assert svs[|svs| - j].socktype != socktype;
      assert Group(e, svs)[j] == Stamp(Clone(e), svs[|svs| - j].port, svs[|svs| - j].socktype);
    }
  }

  lemma {:induction false} DistinctLast(svs: seq<Service>, s: Service)
    requires DistinctTypes(svs + [s])
    ensures s.socktype != 0 && forall i :: 0 <= i < |svs| ==> svs[i].socktype != s.socktype && svs[i].socktype != 0
  {
    var t := svs + [s];
    assert t[|svs|] == s;
    forall i | 0 <= i < |svs|
      ensures svs[i].socktype != s.socktype && svs[i].socktype != 0
    {
      assert t[i] == svs[i];
    }
  }

  /** One more service adds one clone to the group of a host. */
  lemma {:induction false} PortGroup(e: Entry, svs: seq<Service>, s: Service)
    requires e.clone && e.socktype == 0 && e.family != Local && DistinctTypes(svs + [s])
    ensures Ported(Group(e, svs), s.port, s.socktype) == Group(e, svs + [s])
    ensures Found(Group(e, svs), s.socktype) == 1
  {
    DistinctLast(svs, s);
    if svs == [] {
      PortedOne(e, s.port, s.socktype);
      assert [] + [s] == [s];
      assert Group(e, [s]) == [Stamp(e, s.port, s.socktype)];
    } else {
      var g := Group(e, svs);
      assert g[0] == Stamp(e, svs[0].port, svs[0].socktype);
      GroupTypes(e, svs, s.socktype);
      hide Group, Ported, Found;
      PortedOne(g[0], s.port, s.socktype);
      PortedSkip(g[1..], s.port, s.socktype);
      PortedConcat([g[0]], g[1..], s.port, s.socktype);
      assert g == [g[0]] + g[1..];
      GroupSnoc(e, svs, s);
    }
  }

  lemma {:induction false} PortGrouped(es: seq<Entry>, svs: seq<Service>, s: Service)
    requires Hosts(es) && DistinctTypes(svs + [s])
    ensures Ported(Grouped(es, svs), s.port, s.socktype) == Grouped(es, svs + [s])
    ensures Found(Grouped(es, svs), s.socktype) == |es|
  {
    if es != [] {
      hide Group, Ported, Found;
      var n := |es| - 1;
      PortGrouped(es[..n], svs, s);
      PortGroup(es[n], svs, s);
      PortedConcat(Grouped(es[..n], svs), Group(es[n], svs), s.port, s.socktype);
    }
  }

  /** The whole expansion: from hosts made without a socket type, passes with pairwise
      distinct types leave one entry per host and type, grouped by host in the order of the
      hosts; the next pass, with yet another type, sets one port per host. */
  lemma {:induction false} OneEntryPerHostAndType(es: seq<Entry>, svs: seq<Service>)
    requires Hosts(es) && DistinctTypes(svs)
    ensures Passes(es, svs) == Grouped(es, svs)
    ensures forall s: Service :: DistinctTypes(svs + [s]) ==> Found(Passes(es, svs), s.socktype) == |es|
  {
    hide Group, Ported, Found;
    if svs == [] {
      GroupedNone(es);
    } else {
      var n := |svs| - 1;
      OneEntryPerHostAndType(es, svs[..n]);
      assert svs[..n] + [svs[n]] == svs;
      PortGrouped(es, svs[..n], svs[n]);
    }
    forall s: Service | DistinctTypes(svs + [s])
      ensures Found(Passes(es, svs), s.socktype) == |es|
    {
      PortGrouped(es, svs, s);
    }
  }

  lemma {:induction false} GroupedNone(es: seq<Entry>)
    ensures Grouped(es, []) == es
  {
    if es != [] {
      var p, e := es[..|es| - 1], es[|es| - 1];
      GroupedNone(p);
      GroupedLast(es, []);
      assert Group(e, []) == [e];
      hide *;
      assert p + [e] == es;
    }
  }

  lemma {:induction false} GroupedLast(es: seq<Entry>, svs: seq<Service>)
    requires es != []
    ensures Grouped(es, svs) == Grouped(es[..|es| - 1], svs) + Group(es[|es| - 1], svs)
  {
  }

  /** Where the entry of host i for each service is: its own for the first service, the
      others behind it. There is no other entry. */
  lemma {:induction false} GroupedAt(es: seq<Entry>, svs: seq<Service>, i: nat, j: nat)
    requires i < |es| && j < |svs|
    ensures |Grouped(es, svs)| == |es| * |svs|
    ensures i * |svs| + j < |es| * |svs| && Grouped(es, svs)[i * |svs| + j] == Group(es[i], svs)[j]
  {
    hide Grouped;
    GroupedLength(es, svs);
    RowBound(i, j, |es|, |svs|);
    var n := |es| - 1;
    GroupedLast(es, svs);
    GroupedLength(es[..n], svs);
    if i < n {
      GroupedAt(es[..n], svs, i, j);
    }
  }

  lemma {:induction false} RowBound(i: nat, j: nat, n: nat, m: nat)
    requires i < n && j < m
    ensures i * m + j < n * m
  {
    assert (i + 1) * m <= n * m;
  }

  lemma {:induction false} GroupedLength(es: seq<Entry>, svs: seq<Service>)
    requires svs != []
    ensures |Grouped(es, svs)| == |es| * |svs|
  {
    if es != [] {
      GroupedLength(es[..|es| - 1], svs);
      assert |es| * |svs| == (|es| - 1) * |svs| + |svs|;
    }
  }

  // ---------- building the list, and the service string ----------

  lemma {:induction false} AppendLinked(head: AddrInfo?, ns: seq<AddrInfo>, n: AddrInfo)
    requires head == (if ns == [] then n else ns[0]) && Apart(ns) && n.next == null
    requires forall i :: 0 <= i < |ns| - 1 ==> ns[i].next == After(ns, i)
    requires ns != [] ==> ns[|ns| - 1].next == n
    requires forall i :: 0 <= i < |ns| ==> ns[i] != n && ns[i].addr != n.addr
    ensures Linked(head, ns + [n])
  {
    var ms := ns + [n];
    forall i | 0 <= i < |ms|
      ensures ms[i].next == After(ms, i)
    {
      if i < |ns| - 1 {
        assert ms[i] == ns[i] && ms[i + 1] == ns[i + 1];
      }
    }
  }

  lemma {:induction false} HoldsSnoc(ns: seq<AddrInfo>, es: seq<Entry>, n: AddrInfo)
    requires Holds(ns, es)
    ensures Holds(ns + [n], es + [n.Value()])
  {
  }

  /** What ga_aistruct fills in: AI_CLONE exactly when the hints name no socket type. */
  function Made(socktype: int, protocol: int, family: Family, host: seq<Byte>): Entry {
    Entry(socktype == 0, family, socktype, protocol, "", host, 0)
  }

  /** ga_aistruct: a new entry behind `tail`, the last node so far, which plays the part of
      the source's pointer to the last `ai_next`. */
  method GaAistruct(head: AddrInfo?, tail: AddrInfo?, socktype: int, protocol: int, family: Family, host: seq<Byte>,
                    ghost ns: seq<AddrInfo>, ghost es: seq<Entry>)
    returns (newHead: AddrInfo, ai: AddrInfo)
    requires Linked(head, ns) && Holds(ns, es) && tail == if ns == [] then null else ns[|ns| - 1]
    modifies if tail == null then {} else {tail}
    ensures Linked(newHead, ns + [ai]) && Holds(ns + [ai], es + [Made(socktype, protocol, family, host)])
    ensures fresh(ai) && fresh(ai.addr) && (tail != null ==> tail.addr == old(tail.addr))
  {
    HeadOf(head, ns);
    HoldsLength(ns, es);
    var addr := new SockAddr(host, 0);
    ai := new AddrInfo(socktype == 0, family, socktype, protocol, addr, null);
    assert Holds(ns, es) && Linked(head, ns);
    hide Linked, Holds;
    assert ai.Value() == Made(socktype, protocol, family, host);
    if tail == null {
      newHead := ai;
      SingleLinked(ai, ns, es);
    } else {
      newHead := head;
      LinkBehind(tail, ai, head, ns, es);
    }
  }

  lemma {:induction false} SingleLinked(ai: AddrInfo, ns: seq<AddrInfo>, es: seq<Entry>)
    requires ai.next == null && ns == [] && es == []
    ensures Linked(ai, ns + [ai]) && Holds(ns + [ai], es + [ai.Value()])
  {
  }

  method LinkBehind(tail: AddrInfo, ai: AddrInfo, ghost head: AddrInfo?, ghost ns: seq<AddrInfo>, ghost es: seq<Entry>)
    requires Linked(head, ns) && ns != [] && tail == ns[|ns| - 1] && Holds(ns, es) && ai.next == null
    requires forall i :: 0 <= i < |ns| ==> ns[i] != ai && ns[i].addr != ai.addr
    modifies tail`next
    ensures Linked(head, ns + [ai]) && Holds(ns + [ai], es + [ai.Value()])
  {
    tail.next := ai;
    AppendLinked(head, ns, ai);
    HoldsSnoc(ns, es, ai);
  }

  datatype Code = Success | NoName | NoService

  /** The passes ga_serv makes: the port string for the type asked for or for both types, or
      the services the name is found under. */
  function Services(hint: int, number: Option<int>, tcp: Option<int>, udp: Option<int>): seq<Service> {
    if number.Some? then
      if hint != 0 then [Service(hint, number.value)]
      else [Service(SOCK_STREAM, number.value), Service(SOCK_DGRAM, number.value)]
    else
      (if (hint == 0 || hint == SOCK_STREAM) && tcp.Some? then [Service(SOCK_STREAM, tcp.value)] else []) +
      (if (hint == 0 || hint == SOCK_DGRAM) && udp.Some? then [Service(SOCK_DGRAM, udp.value)] else [])
  }

  /** All ports set over the passes. */
  function TotalFound(es: seq<Entry>, svs: seq<Service>): nat {
    if svs == [] then 0 else
      TotalFound(es, svs[..|svs| - 1]) + Found(Passes(es, svs[..|svs| - 1]), svs[|svs| - 1].socktype)
  }

  lemma {:induction false} PassesSnoc(es: seq<Entry>, svs: seq<Service>, s: Service)
    ensures Passes(es, svs + [s]) == Ported(Passes(es, svs), s.port, s.socktype)
    ensures TotalFound(es, svs + [s]) == TotalFound(es, svs) + Found(Passes(es, svs), s.socktype)
  {
    assert (svs + [s])[..|svs|] == svs;
  }

  /** Run the passes of a service list; the source spells the calls out, at most two. */
  method RunPasses(aihead: AddrInfo?, svs: seq<Service>, ghost ns: seq<AddrInfo>, ghost es: seq<Entry>)
    returns (nfound: nat, ghost ms: seq<AddrInfo>)
    requires Linked(aihead, ns) && Holds(ns, es)
    modifies ns, Addrs(ns)
    ensures Linked(aihead, ms) && Holds(ms, Passes(es, svs)) && nfound == TotalFound(es, svs)
  {
    hide Linked, Holds, Ported, Found;
    nfound, ms := 0, ns;
    ghost var nodes, addrs := Nodes(ns), Addrs(ns);
    var i := 0;
    assert svs[..0] == [];
    while i < |svs|
      invariant 0 <= i <= |svs| && Linked(aihead, ms) && Holds(ms, Passes(es, svs[..i]))
          && nfound == TotalFound(es, svs[..i])
      invariant fresh(Nodes(ms) - nodes) && fresh(Addrs(ms) - addrs)
    {
      PassesSnoc(es, svs[..i], svs[i]);
      assert svs[..i + 1] == svs[..i] + [svs[i]];
      var rc;
      ghost var was := ms;
      SetOf(was);
      rc, ms := GaPort(aihead, svs[i].port, svs[i].socktype, was, Passes(es, svs[..i]));
      nfound := nfound + rc;
      i := i + 1;
    }
    assert svs[..i] == svs;
  }

  lemma {:induction false} SetOf(ns: seq<AddrInfo>)
    ensures forall n :: n in ns ==> n in Nodes(ns)
  {
  }

  /** ga_serv. The service databases are its parameters `tcp` and `udp`. */
  method GaServ(aihead: AddrInfo?, hint: int, number: Option<int>, tcp: Option<int>, udp: Option<int>,
                ghost ns: seq<AddrInfo>, ghost es: seq<Entry>)
    returns (rc: Code, ghost ms: seq<AddrInfo>)
    requires Linked(aihead, ns) && Holds(ns, es)
    modifies ns, Addrs(ns)
    ensures var svs := Services(hint, number, tcp, udp);
      && Linked(aihead, ms) && Holds(ms, Passes(es, svs))
      && rc == if TotalFound(es, svs) > 0 then Success else if hint == 0 then NoName else NoService
  {
    hide *;
    var nfound;
    nfound, ms := RunPasses(aihead, Services(hint, number, tcp, udp), ns, es);
    rc := if nfound > 0 then Success else if hint == 0 then NoName else NoService;
  }

  lemma {:induction false} TwoTypes(es: seq<Entry>, a: Service, b: Service)
    requires Hosts(es) && a.socktype != 0 && b.socktype != 0 && a.socktype != b.socktype
    ensures Passes(es, [a, b]) == Grouped(es, [a, b]) && TotalFound(es, [a, b]) == 2 * |es|
  {
    hide Ported, Found, Group, Passes, Grouped, TotalFound, Hosts;
    assert [] + [a] == [a] && [a] + [b] == [a, b];
    assert DistinctTypes([] + [a]) && DistinctTypes([a] + [b]);
    OneEntryPerHostAndType(es, []);
    OneEntryPerHostAndType(es, [a]);
    OneEntryPerHostAndType(es, [a, b]);
    PassesSnoc(es, [], a);
    PassesSnoc(es, [a], b);
    NoPasses(es);
  }

  lemma {:induction false} NoPasses(es: seq<Entry>)
    ensures TotalFound(es, []) == 0
  {
  }

  /** A port number without a socket type gives every host a stream and a datagram entry;
      the call fails exactly when there are no hosts. */
  lemma {:induction false} NumericService(es: seq<Entry>, port: int, tcp: Option<int>, udp: Option<int>)
    requires Hosts(es)
    ensures var svs := Services(0, Some(port), tcp, udp);
      && Passes(es, svs) == Grouped(es, [Service(SOCK_STREAM, port), Service(SOCK_DGRAM, port)])
      && TotalFound(es, svs) == 2 * |es|
  {
    hide Passes, Grouped, TotalFound, Hosts;
    TwoTypes(es, Service(SOCK_STREAM, port), Service(SOCK_DGRAM, port));
  }

  // ---------- a whole lookup ----------

  datatype Host = Host(family: Family, addr: seq<Byte>)

  /** The entries of the hosts found, in order. */
  function Appended(hosts: seq<Host>, hint: int, protocol: int): (es: seq<Entry>)
    ensures |es| == |hosts|
  {
    seq(|hosts|, i requires 0 <= i < |hosts| => Made(hint, protocol, hosts[i].family, hosts[i].addr))
  }

  function Stamped(es: seq<Entry>, s: Service): (r: seq<Entry>)
    ensures |r| == |es|
  {
    seq(|es|, i requires 0 <= i < |es| => Stamp(es[i], s.port, s.socktype))
  }

  /** What a lookup should leave: with no socket type asked for, a group per host with an entry
      per service; with one, the hosts with the port of the service, if there is one. */
  function Expansion(es: seq<Entry>, hint: int, svs: seq<Service>): seq<Entry> {
    if hint == 0 then Grouped(es, svs) else if svs == [] then es else Stamped(es, svs[0])
  }

  /** One type for all: every entry gets the port, and none is added. */
  lemma {:induction false} PortedTyped(es: seq<Entry>, s: Service)
    requires forall i :: 0 <= i < |es| ==> !es[i].clone && es[i].socktype == s.socktype && es[i].family != Local
    ensures Ported(es, s.port, s.socktype) == Stamped(es, s) && Found(es, s.socktype) == |es|
  {
    if es != [] {
      var n := |es| - 1;
      PortedTyped(es[..n], s);
      assert Stamped(es, s) == Stamped(es[..n], s) + [Stamp(es[n], s.port, s.socktype)];
    }
  }

  lemma {:induction false} TotalHosts(es: seq<Entry>, svs: seq<Service>)
    requires Hosts(es) && DistinctTypes(svs)
    ensures TotalFound(es, svs) == |svs| * |es|
  {
    hide *;
    if svs == [] {
      NoPasses(es);
    } else {
      var p, l := svs[..|svs| - 1], svs[|svs| - 1];
      assert p + [l] == svs;
      DistinctPrefix(p, l);
      TotalHosts(es, p);
      OneEntryPerHostAndType(es, p);
      PassesSnoc(es, p, l);
      OneMore(|p|, |es|);
    }
  }

  lemma {:induction false} DistinctPrefix(p: seq<Service>, l: Service)
    requires DistinctTypes(p + [l])
    ensures DistinctTypes(p)
  {
    var svs := p + [l];
    assert forall i :: 0 <= i < |p| ==> p[i] == svs[i];
  }

  lemma {:induction false} OneMore(n: nat, m: nat)
    ensures n * m + m == (n + 1) * m
  {
  }

  /** What the passes of a lookup make of the hosts found, and how many ports they set. */
  lemma {:induction false} LookupValues(hosts: seq<Host>, hint: int, protocol: int,
                                        number: Option<int>, tcp: Option<int>, udp: Option<int>)
    requires forall i :: 0 <= i < |hosts| ==> hosts[i].family != Local
    ensures var es, svs := Appended(hosts, hint, protocol), Services(hint, number, tcp, udp);
      && Passes(es, svs) == Expansion(es, hint, svs)
      && TotalFound(es, svs) == |svs| * |hosts|
  {
    var es, svs := Appended(hosts, hint, protocol), Services(hint, number, tcp, udp);
    if hint == 0 {
      assert Hosts(es) && DistinctTypes(svs);
      hide Hosts, Passes, TotalFound, DistinctTypes;
      OneEntryPerHostAndType(es, svs);
      TotalHosts(es, svs);
    } else if svs != [] {
      assert |svs| == 1 && svs[0].socktype == hint && svs == [] + [svs[0]];
      hide Passes, TotalFound, Ported, Found;
      PassesSnoc(es, [], svs[0]);
      NoPasses(es);
      PortedTyped(es, svs[0]);
    } else {
      NoPasses(es);
    }
  }

  /** The list of the hosts found. */
  method HostList(hosts: seq<Host>, hint: int, protocol: int)
    returns (head: AddrInfo?, ghost ns: seq<AddrInfo>, ghost nodes: set<AddrInfo>, ghost addrs: set<SockAddr>)
    ensures Linked(head, ns) && Holds(ns, Appended(hosts, hint, protocol))
    ensures Owned(ns, nodes, addrs) && fresh(nodes) && fresh(addrs)
  {
    head, ns, nodes, addrs := null, [], {}, {};
    var tail: AddrInfo? := null;
    NoHosts(hosts, hint, protocol);
    hide Linked, Holds, Appended;
    for k := 0 to |hosts|
      invariant Linked(head, ns) && Holds(ns, Appended(hosts[..k], hint, protocol))
      invariant tail == (if ns == [] then null else ns[|ns| - 1]) && (tail != null ==> fresh(tail))
      invariant Owned(ns, nodes, addrs) && fresh(nodes) && fresh(addrs)
    {
      AppendedNext(hosts, k, hint, protocol);
      var ai;
      ghost var es := Appended(hosts[..k], hint, protocol);
      head, ai := GaAistruct(head, tail, hint, protocol, hosts[k].family, hosts[k].addr, ns, es);
      ns, nodes, addrs := ns + [ai], nodes + {ai}, addrs + {ai.addr};
      tail := ai;
    }
    assert hosts[..|hosts|] == hosts;
  }

  lemma {:induction false} NoHosts(hosts: seq<Host>, hint: int, protocol: int)
    ensures Linked(null, []) && Holds([], Appended(hosts[..0], hint, protocol))
  {
  }

  /** The list as getaddrinfo builds it: an entry for each host found, then the passes of the
      service. The call succeeds exactly when a host and a service are found. */
  method Lookup(hosts: seq<Host>, hint: int, protocol: int, number: Option<int>, tcp: Option<int>, udp: Option<int>)
    returns (head: AddrInfo?, rc: Code, ghost ms: seq<AddrInfo>)
    requires forall i :: 0 <= i < |hosts| ==> hosts[i].family != Local
    ensures Linked(head, ms)
    ensures Holds(ms, Expansion(Appended(hosts, hint, protocol), hint, Services(hint, number, tcp, udp)))
    ensures rc == Success ==> |ms| == |hosts| * |Services(hint, number, tcp, udp)|
    ensures rc == Success ==>
      exists vs :: Holds(ms, vs) && Covers(vs, hosts, protocol, Services(hint, number, tcp, udp))
    ensures rc == if hosts != [] && Services(hint, number, tcp, udp) != [] then Success
                  else if hosts == [] || hint == 0 then NoName else NoService
  {
    NoExpansion(hosts, hint, protocol, Services(hint, number, tcp, udp));
    hide Linked, Holds, Appended, Expansion, Services, Passes, TotalFound;
    ghost var ns, nodes, addrs;
    head, ns, nodes, addrs := HostList(hosts, hint, protocol);
    HeadOf(head, ns);
    HoldsLength(ns, Appended(hosts, hint, protocol));
    if head == null {
      return head, NoName, ns;
    }
    LookupValues(hosts, hint, protocol, number, tcp, udp);
    SetOf(ns);
    OwnedSets(ns, nodes, addrs);
    rc, ms := GaServ(head, hint, number, tcp, udp, ns, Appended(hosts, hint, protocol));
    BothPositive(|Services(hint, number, tcp, udp)|, |hosts|);
    if rc == Success {
      ExpansionCovers(hosts, hint, protocol, number, tcp, udp);
      HoldsLength(ms, Expansion(Appended(hosts, hint, protocol), hint, Services(hint, number, tcp, udp)));
    }
  }

  lemma {:induction false} NoExpansion(hosts: seq<Host>, hint: int, protocol: int, svs: seq<Service>)
    ensures hosts == [] ==> Appended(hosts, hint, protocol) == Expansion(Appended(hosts, hint, protocol), hint, svs)
  {
  }

  lemma {:induction false} BothPositive(n: nat, m: nat)
    ensures n * m > 0 <==> n > 0 && m > 0
  {
  }

  lemma {:induction false} AppendedNext(hosts: seq<Host>, k: nat, hint: int, protocol: int)
    requires k < |hosts|
    ensures Appended(hosts[..k + 1], hint, protocol)
         == Appended(hosts[..k], hint, protocol) + [Made(hint, protocol, hosts[k].family, hosts[k].addr)]
  {
  }

  // ---------- the fields of the entries ----------

  /** The entry a caller wants for a host and a service. */
  predicate EntryFor(e: Entry, h: Host, protocol: int, s: Service) {
    && e.family == h.family && e.host == h.addr && e.protocol == protocol
    && e.socktype == s.socktype && e.port == s.port
  }

  /** Where the entry of host i for service j stands among m services per host: the first
      service at the head of the group, the others behind it, the latest first. */
  function Position(i: nat, j: nat, m: nat): nat
    requires j < m
  {
    i * m + if j == 0 then 0 else m - j
  }

  /** One entry for every host and service, and no other. */
  ghost predicate Covers(vs: seq<Entry>, hosts: seq<Host>, protocol: int, svs: seq<Service>) {
    && |vs| == |hosts| * |svs|
    && forall i, j :: 0 <= i < |hosts| && 0 <= j < |svs| ==>
         Position(i, j, |svs|) < |vs| && EntryFor(vs[Position(i, j, |svs|)], hosts[i], protocol, svs[j])
  }

  lemma {:induction false} GroupEntry(h: Host, protocol: int, svs: seq<Service>, j: nat)
    requires j < |svs| && h.family != Local
    ensures var g := Group(Made(0, protocol, h.family, h.addr), svs);
      |g| == |svs| && EntryFor(g[if j == 0 then 0 else |svs| - j], h, protocol, svs[j])
  {
    var e := Made(0, protocol, h.family, h.addr);
    if j > 0 {
      var k := |svs| - j;
      assert |svs| - k == j && k != 0;
      assert Group(e, svs)[k] == Stamp(Clone(e), svs[j].port, svs[j].socktype);
    } else {
      assert Group(e, svs)[0] == Stamp(e, svs[0].port, svs[0].socktype);
    }
  }

  lemma {:induction false} GroupedEntry(hosts: seq<Host>, protocol: int, svs: seq<Service>, i: nat, j: nat)
    requires i < |hosts| && j < |svs| && hosts[i].family != Local
    ensures var vs := Grouped(Appended(hosts, 0, protocol), svs);
      && |vs| == |hosts| * |svs| && Position(i, j, |svs|) < |vs|
      && EntryFor(vs[Position(i, j, |svs|)], hosts[i], protocol, svs[j])
  {
    hide Grouped, Group, EntryFor, Made;
    var es := Appended(hosts, 0, protocol);
    GroupedAt(es, svs, i, if j == 0 then 0 else |svs| - j);
    GroupEntry(hosts[i], protocol, svs, j);
  }

  /** What a lookup leaves, field by field. Without a socket type every host has an entry with
      the port of each service; with one, every host has one entry, with the service's port. */
  lemma {:induction false} ExpansionCovers(hosts: seq<Host>, hint: int, protocol: int,
                                           number: Option<int>, tcp: Option<int>, udp: Option<int>)
    requires forall i :: 0 <= i < |hosts| ==> hosts[i].family != Local
    requires Services(hint, number, tcp, udp) != []
    ensures var svs := Services(hint, number, tcp, udp);
      Covers(Expansion(Appended(hosts, hint, protocol), hint, svs), hosts, protocol, svs)
  {
    var svs := Services(hint, number, tcp, udp);
    if hint == 0 {
      hide Services, Grouped, EntryFor, Position, Appended;
      var vs := Grouped(Appended(hosts, 0, protocol), svs);
      GroupedLength(Appended(hosts, 0, protocol), svs);
      forall i: int, j: int | 0 <= i < |hosts| && 0 <= j < |svs|
        ensures Position(i, j, |svs|) < |vs| && EntryFor(vs[Position(i, j, |svs|)], hosts[i], protocol, svs[j])
      {
        GroupedEntry(hosts, protocol, svs, i, j);
      }
    } else {
      OneService(hint, number, tcp, udp);
      hide Services;
      forall i: int | 0 <= i < |hosts|
        ensures Position(i, 0, 1) == i
      {
      }
    }
  }

  lemma {:induction false} OneService(hint: int, number: Option<int>, tcp: Option<int>, udp: Option<int>)
    requires hint != 0 && Services(hint, number, tcp, udp) != []
    ensures var svs := Services(hint, number, tcp, udp); |svs| == 1 && svs[0].socktype == hint
  {
  }

  lemma {:induction false} PositionUnique(i: nat, j: nat, i': nat, j': nat, m: nat)
    requires j < m && j' < m && Position(i, j, m) == Position(i', j', m)
    ensures i == i' && j == j'
  {
    var a, b := if j == 0 then 0 else m - j, if j' == 0 then 0 else m - j';
    SameRow(i, a, i', b, m);
  }

  lemma {:induction false} SameRow(i: nat, a: nat, i': nat, b: nat, m: nat)
    requires a < m && b < m && i * m + a == i' * m + b
    ensures i == i' && a == b
  {
    if i < i' {
      RowBefore(i, a, i', m);
    } else if i' < i {
      RowBefore(i', b, i, m);
    }
  }

  lemma {:induction false} RowBefore(i: nat, a: nat, i': nat, m: nat)
    requires a < m && i < i'
    ensures i * m + a < i' * m
  {
    assert (i + 1) * m <= i' * m;
  }

  /** Every place holds the entry of some host and service. */
  lemma {:induction false} PositionOnto(x: nat, n: nat, m: nat) returns (i: nat, j: nat)
    requires x < n * m
    ensures i < n && j < m && Position(i, j, m) == x
  {
    assert m > 0;
    i := x / m;
    var r := x % m;
    assert x == i * m + r;
    RowWithin(i, r, n, m);
    j := if r == 0 then 0 else m - r;
  }

  lemma {:induction false} RowWithin(i: nat, r: nat, n: nat, m: nat)
    requires i * m + r < n * m
    ensures i < n
  {
    assert i >= n ==> i * m >= n * m;
  }

  /** With different hosts and different types, a host and type have exactly one entry. */
  lemma {:induction false} ExactlyOne(vs: seq<Entry>, hosts: seq<Host>, protocol: int, svs: seq<Service>,
                                      i: nat, j: nat, x: nat)
    requires Covers(vs, hosts, protocol, svs) && i < |hosts| && j < |svs| && x < |vs|
    requires forall a, b :: 0 <= a < b < |hosts| ==> hosts[a] != hosts[b]
    requires forall a, b :: 0 <= a < b < |svs| ==> svs[a].socktype != svs[b].socktype
    ensures vs[x].family == hosts[i].family && vs[x].host == hosts[i].addr && vs[x].socktype == svs[j].socktype
      <==> x == Position(i, j, |svs|)
  {
    var a, b := PositionOnto(x, |hosts|, |svs|);
    hide Position;
    assert EntryFor(vs[x], hosts[a], protocol, svs[b]);
    assert EntryFor(vs[Position(i, j, |svs|)], hosts[i], protocol, svs[j]);
  }

  /** Which services are asked for. A number counts for the type asked for, or for both; a name
      for stream sockets with its tcp port, and for datagram sockets with its udp port, as far
      as it is known and the type asked for. */
  lemma {:induction false} ServicesExactly(hint: int, number: Option<int>, tcp: Option<int>, udp: Option<int>,
                                           s: Service)
    ensures s in Services(hint, number, tcp, udp) <==>
      if number.Some? then
        s.port == number.value && (s.socktype == hint || (hint == 0 && (s.socktype == 1 || s.socktype == 2)))
        && s.socktype != 0
      else
        && (hint == 0 || s.socktype == hint)
        && ((s.socktype == 1 && tcp == Some(s.port)) || (s.socktype == 2 && udp == Some(s.port)))
  {
    var svs := Services(hint, number, tcp, udp);
    assert |svs| <= 2;
    assert s in svs <==> (|svs| >= 1 && svs[0] == s) || (|svs| == 2 && svs[1] == s);
  }

  /** A lookup by number, and one by name, in full. */
  lemma {:induction false} ServiceExamples(port: int, tcp: int, udp: int)
    ensures Services(0, Some(port), None, None) == [Service(1, port), Service(2, port)]
    ensures Services(0, None, Some(tcp), Some(udp)) == [Service(1, tcp), Service(2, udp)]
  {
  }
}
