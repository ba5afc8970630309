/**
  The registry of connections: the linked list each server keeps, eviction,
  accepting, and closing a server.
*/
module TcpRegistry {
  import opened TcpTypes

  /** What one call of tcpsrv_list_delete makes visible, by the connection's state on entry. */
  ghost function DeleteEvents(state: ConnState, hasCb: bool, linked: bool, lastServerGone: bool): seq<Event> {
    (if state != StClosed && hasCb then [DisconCb] else [])
    + (if linked && (state == StClosed || !lastServerGone) then [Freed] else [])
  }

  /** tcpsrv_list_delete */
  method ListDelete(srv: Server, c: Conn)
    requires !c.freed && c.pcfg != null && c.pcfg.Valid()
    modifies c`state, c`pcb, c`pbufo, c`pbufi, c`trace, c`freed, c`next
    modifies c.pcfg`connLinks, c.pcfg`connCount, c.pcfg`conns, c.pcfg.conns`next
    ensures c.pcfg == old(c.pcfg) && c.pcfg.Valid() && c.state == StClosed
    ensures c.pcb == old(c.pcb) || c.pcb == null
    ensures c.trace == old(c.trace) + DeleteEvents(old(c.state), c.pcfg.hasDisconCb, c in old(c.pcfg.conns), srv.phcfg == null)
    ensures c.pcfg.conns == if old(c.state) != StClosed && srv.phcfg == null then old(c.pcfg.conns) else Without(old(c.pcfg.conns), c)
    ensures c.freed == (c in old(c.pcfg.conns) && (old(c.state) == StClosed || srv.phcfg != null))
    ensures c.freed ==> c.pbufo == null && c.pbufi == null && c.next == null
    // The application is told once, before the freeing, and not again if the connection was closed already.
    ensures c.trace == old(c.trace) + (if old(c.state) != StClosed && c.pcfg.hasDisconCb then [DisconCb] else [])
                       + (if c.freed then [Freed] else [])
  {
    var p := c.pcfg;
    if c.state != StClosed {
      c.state := StClosed;
      if p.hasDisconCb {
        DisconnectCallback(c);
      }
      if srv.phcfg == null {
        return;
      }
    }
    Release(c);
  }

  /** The second half of tcpsrv_list_delete: find the node, unlink it and free it with its buffers. */
  method Release(c: Conn)
    requires !c.freed && c.pcfg != null && c.pcfg.Valid()
    modifies c`next, c`pbufo, c`pbufi, c`trace, c`freed
    modifies c.pcfg`connLinks, c.pcfg`connCount, c.pcfg`conns, c.pcfg.conns`next
    ensures c.pcfg.Valid() && c.pcfg.conns == Without(old(c.pcfg.conns), c)
    ensures c.trace == old(c.trace) + (if c in old(c.pcfg.conns) then [Freed] else [])
    ensures c.freed == (c in old(c.pcfg.conns))
    ensures c in old(c.pcfg.conns) ==> c.pbufo == null && c.pbufi == null && c.next == null
  {
    var p := c.pcfg;
    var prev: Conn? := null;
    var cmp := p.connLinks;
    ghost var k := 0;
    while cmp != null
      invariant 0 <= k <= |p.conns| && cmp == NodeAt(p.conns, k)
      invariant prev == (if k == 0 then null else p.conns[k - 1])
      invariant forall i :: 0 <= i < k ==> p.conns[i] != c
      decreases |p.conns| - k
    {
      if cmp == c {
        WithoutAt(p.conns, k);
        Unlink(p, c, prev, k);
        c.trace, c.freed := c.trace + [Freed], true;
        return;
      }
      prev := cmp;
      cmp := cmp.next;
      k := k + 1;
    }
    WithoutAbsent(p.conns, c);
  }

  /** Take the node at index `k`, whose predecessor is `prev`, out of the list, and free its buffers. */
  method Unlink(p: Cfg, c: Conn, prev: Conn?, ghost k: nat)
    requires p.Valid() && k < |p.conns| && p.conns[k] == c && (prev == null <==> k == 0)
    requires prev != null ==> prev == p.conns[k - 1]
    modifies p`connLinks, p`connCount, p`conns, c`next, c`pbufo, c`pbufi, (if prev == null then {} else {prev})`next
    ensures p.Valid() && p.conns == old(p.conns)[..k] + old(p.conns)[k + 1..]
    ensures c.next == null && c.pbufo == null && c.pbufi == null
  {
    hide Cfg.Valid;
    SpliceOut(p, c, prev, k);
    c.pbufo, c.pbufi := null, null;
  }

  method SpliceOut(p: Cfg, c: Conn, prev: Conn?, ghost k: nat)
    requires p.Valid() && k < |p.conns| && p.conns[k] == c && (prev == null <==> k == 0)
    requires prev != null ==> prev == p.conns[k - 1]
    modifies p`connLinks, p`connCount, p`conns, c`next, (if prev == null then {} else {prev})`next
    ensures p.Valid() && p.conns == old(p.conns)[..k] + old(p.conns)[k + 1..] && c.next == null
  {
    hide Distinct;
    ghost var was := p.conns;
    TakenOut(was, k);
    if prev == null {
      p.connLinks := c.next;
    } else {
      prev.next := c.next;
    }
    c.next := null;
    p.connCount := p.connCount - 1;
    p.conns := was[..k] + was[k + 1..];
    forall i | 0 <= i < |p.conns|
      ensures p.conns[i].next == NodeAt(p.conns, i + 1)
    {
      ghost var j := if i < k then i else i + 1;
      assert p.conns[i] == was[j] && old(was[j].next) == NodeAt(was, j + 1);
      assert p.conns[i] != c && (p.conns[i] == prev ==> i == k - 1);
    }
  }

  /**
    The application's func_discon_cb. The default one forgets the control block
    (171-177); another may leave it. Neither calls back into the layer.
  */
  method DisconnectCallback(c: Conn)
    modifies c`trace, c`pcb
    ensures c.trace == old(c.trace) + [DisconCb]
    ensures c.pcb == old(c.pcb) || c.pcb == null
  {
    c.trace := c.trace + [DisconCb];
    if * {
      c.pcb := null;
    }
  }

  /** The control block still belongs to this connection: same ports and peer address. */
  predicate SamePeer(b: Pcb, c: Conn)
    requires c.pcfg != null
    reads b`remotePort, b`localPort, b`remoteIp, c`remotePort, c`remoteIp, c`pcfg, c.pcfg`port
  {
    b.remotePort == c.remotePort && b.localPort == c.pcfg.port && b.remoteIp == c.remoteIp
  }

  /** find_tcp_pcb */
  method FindTcpPcb(srv: Server, c: Conn) returns (r: Pcb?)
    requires c.pcfg != null && srv.PcbsKnown() && (c.pcb == null || c.pcb in srv.pool)
    ensures r != null ==>
              && r in srv.pool && SamePeer(r, c) && (r == c.pcb || r in srv.activePcbs + srv.twPcbs)
              && r.remotePort == c.remotePort && r.localPort == c.pcfg.port && r.remoteIp == c.remoteIp
    ensures r == null && c.pcb != null ==>
              forall b :: b == c.pcb || b in srv.activePcbs + srv.twPcbs ==>
                b.remotePort != c.remotePort || b.localPort != c.pcfg.port || b.remoteIp != c.remoteIp
    ensures r == null <==> c.pcb == null ||
                           (!SamePeer(c.pcb, c) && forall b :: b in srv.activePcbs + srv.twPcbs ==> !SamePeer(b, c))
    ensures c.pcb != null && SamePeer(c.pcb, c) ==> r == c.pcb
  {
    if c.pcb == null {
      return null;
    }
    if SamePeer(c.pcb, c) {
      return c.pcb;
    }
    for i := 0 to |srv.activePcbs|
      invariant forall j :: 0 <= j < i ==> !SamePeer(srv.activePcbs[j], c)
    {
      if SamePeer(srv.activePcbs[i], c) {
        return srv.activePcbs[i];
      }
    }
    for i := 0 to |srv.twPcbs|
      invariant forall j :: 0 <= j < i ==> !SamePeer(srv.twPcbs[j], c)
    {
      if SamePeer(srv.twPcbs[i], c) {
        return srv.twPcbs[i];
      }
    }
    return null;
  }

  /** tspsrv_delete_pcb: detach the control block from this layer, then drop the connection. */
  method DeletePcb(srv: Server, c: Conn) returns (ghost found: Pcb?)
    requires !c.freed && c.pcfg != null && c.pcfg.Valid()
    requires srv.PcbsKnown() && (c.pcb == null || c.pcb in srv.pool)
    modifies c`state, c`pcb, c`pbufo, c`pbufi, c`trace, c`freed, c`next
    modifies c.pcfg`connLinks, c.pcfg`connCount, c.pcfg`conns, c.pcfg.conns`next, srv.pool`hooks, srv.pool`credited
    ensures c.pcfg == old(c.pcfg) && c.pcfg.Valid() && c.state == StClosed
    ensures c.pcb == old(c.pcb) || c.pcb == null
    ensures c.trace == old(c.trace) + DeleteEvents(old(c.state), c.pcfg.hasDisconCb, c in old(c.pcfg.conns), srv.phcfg == null)
    ensures c.pcfg.conns == if old(c.state) != StClosed && srv.phcfg == null then old(c.pcfg.conns) else Without(old(c.pcfg.conns), c)
    ensures c.freed == (c in old(c.pcfg.conns) && (old(c.state) == StClosed || srv.phcfg != null))
    ensures c.freed ==> c.pbufo == null && c.pbufi == null && c.next == null
    // The control block that still is this connection's, if any, is let go with its window open; no other is touched.
    ensures found == null <==> old(c.pcb) == null ||
                               old(!SamePeer(c.pcb, c) && forall b :: b in srv.activePcbs + srv.twPcbs ==> !SamePeer(b, c))
    ensures old(c.pcb) != null && old(SamePeer(c.pcb, c)) ==> found == old(c.pcb)
    ensures found != null ==>
              && found in srv.pool && SamePeer(found, c) && c.pcb == null
              && found.hooks == Hooks(false, false, false, false, false) && found.credited == old(found.credited) + TCP_WND
    ensures forall b :: b in srv.pool && b != found ==> b.hooks == old(b.hooks) && b.credited == old(b.credited)
  {
    hide Cfg.Valid, Without, DeleteEvents, Server.PcbsKnown;
    found := Detach(srv, c);
    ListDelete(srv, c);
  }

  /** The first part of tspsrv_delete_pcb: the control block that still is this connection's loses its callbacks. */
  method Detach(srv: Server, c: Conn) returns (ghost found: Pcb?)
    requires c.pcfg != null && srv.PcbsKnown() && (c.pcb == null || c.pcb in srv.pool)
    modifies c`pcb, srv.pool`hooks, srv.pool`credited
    ensures c.pcb == if found != null then null else old(c.pcb)
    ensures found == null <==> old(c.pcb) == null ||
                               old(!SamePeer(c.pcb, c) && forall b :: b in srv.activePcbs + srv.twPcbs ==> !SamePeer(b, c))
    ensures old(c.pcb) != null && old(SamePeer(c.pcb, c)) ==> found == old(c.pcb)
    ensures found != null ==>
              && found in srv.pool && SamePeer(found, c)
              && found.hooks == Hooks(false, false, false, false, false) && found.credited == old(found.credited) + TCP_WND
    ensures forall b :: b in srv.pool && b != found ==> b.hooks == old(b.hooks) && b.credited == old(b.credited)
  {
    var pcb := FindTcpPcb(srv, c);
    found := pcb;
    if pcb != null {
      pcb.hooks := Hooks(false, false, false, false, false);
      pcb.credited := pcb.credited + TCP_WND;
      c.pcb := null;
    }
  }

  /** The first server on a port. */
  ghost function Lookup(cfgs: seq<Cfg>, port: u16): (r: Cfg?)
    reads cfgs`port
    ensures r != null ==> r in cfgs && r.port == port
    ensures r == null <==> forall q :: q in cfgs ==> q.port != port
    ensures r != null ==> exists i :: 0 <= i < |cfgs| && cfgs[i] == r && forall j :: 0 <= j < i ==> cfgs[j].port != port
  {
    if cfgs == [] then null else if cfgs[0].port == port then cfgs[0] else Lookup(cfgs[1..], port)
  }

  /** tcpsrv_server_port2pcfg */
  method Port2Pcfg(srv: Server, port: u16) returns (p: Cfg?)
    requires srv.Chained()
    ensures p == Lookup(srv.cfgs, port)
  {
    p := srv.phcfg;
    ghost var k := 0;
    while p != null
      invariant 0 <= k <= |srv.cfgs| && p == CfgAt(srv.cfgs, k)
      invariant Lookup(srv.cfgs, port) == Lookup(srv.cfgs[k..], port)
      decreases |srv.cfgs| - k
    {
      if p.port == port {
        return;
      }
      p := p.next;
      k := k + 1;
    }
  }

  /** tcpsrv_check_max_tm_tcp_pcb: kill the control blocks at the end of the TIME_WAIT list, where the oldest are. */
  method CheckMaxTimeWait(srv: Server)
    modifies srv`twPcbs
    ensures srv.twPcbs == old(srv.twPcbs)[..if |old(srv.twPcbs)| <= MAX_TIME_WAIT_PCB then |old(srv.twPcbs)| else MAX_TIME_WAIT_PCB]
  {
    var i := 0;
    while i < |srv.twPcbs|
      invariant i <= |srv.twPcbs|
    {
      i := i + 1;
    }
    while i > MAX_TIME_WAIT_PCB
      invariant i == |srv.twPcbs| && srv.twPcbs == old(srv.twPcbs)[..i]
      invariant i >= MAX_TIME_WAIT_PCB || i == |old(srv.twPcbs)|
    {
      srv.twPcbs := srv.twPcbs[..|srv.twPcbs| - 1];
      i := i - 1;
    }
  }

  /** Nothing visible happened to the connection: at most its place in the list changed. */
  twostate predicate Untouched(c: Conn)
    reads c`trace, c`state, c`freed, c`pcfg, c`pcb
  {
    c.trace == old(c.trace) && c.state == old(c.state) && c.freed == old(c.freed)
    && c.pcfg == old(c.pcfg) && c.pcb == old(c.pcb)
  }

  /** The disconnect callback a connection still has coming. */
  ghost function DisconDue(state: ConnState, hasCb: bool): seq<Event> {
    if state != StClosed && hasCb then [DisconCb] else []
  }

  /** The connection is gone: closed, its disconnect callback run if that was still due, and freed. */
  twostate predicate Dropped(c: Conn, hasCb: bool)
    reads c`freed, c`state, c`trace
  {
    c.freed && c.state == StClosed && c.trace == old(c.trace) + DisconDue(old(c.state), hasCb) + [Freed]
  }

  ghost predicate PcbsIn(cs: seq<Conn>, pool: set<Pcb>)
    reads cs`pcb
  {
    forall i :: 0 <= i < |cs| ==> cs[i].pcb == null || cs[i].pcb in pool
  }

  /** The events a connection has shown and the disconnect callback it is still due make up `goal`. */
  ghost predicate OnCourse(c: Conn, goal: seq<Event>, hasCb: bool)
    reads c`freed, c`state, c`trace
  {
    if c.freed then c.state == StClosed && c.trace == goal + [Freed] else c.trace + DisconDue(c.state, hasCb) == goal
  }

  /** What a connection will have shown, apart from the final Freed, once it has been dropped. */
  twostate function Goal(c: Conn, hasCb: bool): seq<Event> {
    old(c.trace) + DisconDue(old(c.state), hasCb)
  }

  lemma HeadFacts(p: Cfg)
    requires p.Valid() && p.conns != []
    ensures var c := p.conns[0];
            && Without<Conn>(p.conns, c) == p.conns[1..] && c in p.conns && c !in p.conns[1..] && !c.freed && c.pcfg == p
            && |p.conns[1..]| < |p.conns|
  {
  }

  /** What a delete shows, against what was due. */
  lemma EventsOnCourse(trace: seq<Event>, state: ConnState, hasCb: bool, lastServerGone: bool)
    ensures var events := DeleteEvents(state, hasCb, true, lastServerGone);
            && trace + events == trace + DisconDue(state, hasCb) + (if state == StClosed || !lastServerGone then [Freed] else [])
            && trace + events + DisconDue(StClosed, hasCb) == trace + events
  {
  }

  /** One tspsrv_delete_pcb on the head of the list. */
  method DropHead(srv: Server, p: Cfg, c: Conn, ghost goal: seq<Event>)
    requires p.Valid() && p.conns != [] && p.conns[0] == c && srv.PcbsKnown() && PcbsIn(p.conns, srv.pool)
    requires OnCourse(c, goal, p.hasDisconCb)
    modifies p`connLinks, p`connCount, p`conns, p.conns`next, srv.pool`hooks, srv.pool`credited
    modifies c`state, c`pcb, c`pbufo, c`pbufi, c`trace, c`freed
    ensures p.Valid()
    ensures p.conns == if old(c.state) != StClosed && srv.phcfg == null then old(p.conns) else old(p.conns[1..])
    ensures && c.state == StClosed && c.freed == (p.conns != old(p.conns)) && (c.pcb == old(c.pcb) || c.pcb == null)
            && OnCourse(c, goal, p.hasDisconCb)
    ensures PcbsIn(p.conns, srv.pool) && c.freed == (c !in p.conns)
  {
    hide Cfg.Valid, Without, DeleteEvents, DisconDue, SamePeer, Server.PcbsKnown;
    HeadFacts(p);
    EventsOnCourse(c.trace, c.state, p.hasDisconCb, srv.phcfg == null);
    var _ := DeletePcb(srv, c);
  }

  /** Every connection of the list is on its course. */
  ghost predicate AllOnCourse(cs: seq<Conn>, goals: seq<seq<Event>>, hasCb: bool)
    requires |goals| == |cs|
    reads cs`freed, cs`state, cs`trace
  {
    forall i :: 0 <= i < |cs| ==> OnCourse(cs[i], goals[i], hasCb)
  }

  /** How far the inner loop of tcpsrv_close has come: the first `n` connections are gone. */
  ghost predicate DroppedUpTo(srv: Server, p: Cfg, was: seq<Conn>, n: nat, goals: seq<seq<Event>>)
    requires |goals| == |was|
    reads p, p.conns, was, srv
  {
    && p.Valid() && PcbsIn(p.conns, srv.pool) && n <= |was| && p.conns == was[n..] && Distinct(was)
    && AllOnCourse(was, goals, p.hasDisconCb)
    && forall i :: 0 <= i < |was| ==> was[i].freed == (i < n)
  }

  /** One turn of that loop. */
  method DropNext(srv: Server, p: Cfg, ghost was: seq<Conn>, ghost n: nat, ghost goals: seq<seq<Event>>) returns (ghost m: nat)
    requires |goals| == |was| && DroppedUpTo(srv, p, was, n, goals) && n < |was| && srv.PcbsKnown()
    modifies p`connLinks, p`connCount, p`conns, was`next, srv.pool`hooks, srv.pool`credited
    modifies was`state, was`pcb, was`pbufo, was`pbufi, was`trace, was`freed
    ensures DroppedUpTo(srv, p, was, m, goals)
    ensures if old(was[n].state) != StClosed && srv.phcfg == null then m == n && was[n].state == StClosed else m == n + 1
  {
    hide Cfg.Valid, PcbsIn, OnCourse;
    HeadOfList(p);
    ghost var c := was[n];
    DropHead(srv, p, p.connLinks, goals[n]);
    m := n + if c.freed then 1 else 0;
    assert forall i :: 0 <= i < |was| && i != n ==> was[i] != c;
  }

  /** The inner loop of tcpsrv_close: delete the head until the list is empty. */
  method DropUntilEmpty(srv: Server, p: Cfg, ghost was: seq<Conn>, ghost goals: seq<seq<Event>>)
    requires |goals| == |was| && DroppedUpTo(srv, p, was, 0, goals) && srv.PcbsKnown()
    modifies p`connLinks, p`connCount, p`conns, was`next, srv.pool`hooks, srv.pool`credited
    modifies was`state, was`pcb, was`pbufo, was`pbufi, was`trace, was`freed
    ensures DroppedUpTo(srv, p, was, |was|, goals)
  {
    hide DroppedUpTo, Cfg.Valid;
    ghost var n := 0;
    ListBetween(srv, p, was, n, goals);
    // While no server is left, a live head is closed but stays linked, and a second pass frees it.
    while p.connLinks != null
      invariant n <= |was| && DroppedUpTo(srv, p, was, n, goals) && (p.connLinks != null <==> n < |was|)
      decreases |was| - n, if n < |was| && was[n].state != StClosed then 1 else 0
    {
      n := DropNext(srv, p, was, n, goals);
      ListBetween(srv, p, was, n, goals);
    }
  }

  lemma ListBetween(srv: Server, p: Cfg, was: seq<Conn>, n: nat, goals: seq<seq<Event>>)
    requires |goals| == |was| && DroppedUpTo(srv, p, was, n, goals)
    ensures n <= |was| && (p.connLinks != null <==> n < |was|)
  {
  }

  /** The same, in terms of what each connection sees. */
  method DropAll(srv: Server, p: Cfg)
    requires p.Valid() && srv.PcbsKnown() && PcbsIn(p.conns, srv.pool)
    modifies p`connLinks, p`connCount, p`conns, p.conns`next, srv.pool`hooks, srv.pool`credited
    modifies p.conns`state, p.conns`pcb, p.conns`pbufo, p.conns`pbufi, p.conns`trace, p.conns`freed
    ensures p.Valid() && p.conns == []
    ensures forall c :: c in old(p.conns) ==> Dropped(c, p.hasDisconCb)
  {
    hide Cfg.Valid, PcbsIn, DisconDue;
    NoneFreed(p);
    ghost var was := p.conns;
    ghost var goals := seq(|p.conns|, i requires 0 <= i < |p.conns| reads p`conns, p`hasDisconCb, p.conns`trace, p.conns`state =>
      p.conns[i].trace + DisconDue(p.conns[i].state, p.hasDisconCb));
    DropUntilEmpty(srv, p, was, goals);
  }

  lemma HeadOfList(p: Cfg)
    requires p.Valid()
    ensures p.connLinks == NodeAt(p.conns, 0)
  {
  }

  lemma NoneFreed(p: Cfg)
    requires p.Valid()
    ensures forall i :: 0 <= i < |p.conns| ==> !p.conns[i].freed
    ensures Distinct(p.conns)
  {
  }

  /** A connection as tcpsrv_server_accept leaves it: fresh, listening, and registered for every callback. */
  ghost predicate Installed(c: Conn, p: Cfg, pcb: Pcb)
    reads c, p, pcb
  {
    && c.state == StListen && c.pcfg == p && c.pcb == pcb && c.trace == [Accepted] && !c.freed && c.flag == p.flag
    && c.recvCheck == 0 && c.unrecved == 0 && c.pbufi == null && c.pbufo == null && c.sizei == c.cntri == 0
    && c.remotePort == pcb.remotePort && c.remoteIp == pcb.remoteIp
    && pcb.hooks == Hooks(true, true, true, true, true)
  }

  /** The part of tcpsrv_server_accept that builds the connection and puts it at the head of the list. */
  method Insert(p: Cfg, pcb: Pcb) returns (c: Conn)
    requires p.Valid() && p.connCount < 255
    modifies p`connLinks, p`connCount, p`conns, pcb`hooks
    ensures p.Valid() && p.conns == [c] + old(p.conns) && fresh(c) && Installed(c, p, pcb)
    ensures p.connCount == old(p.connCount) + 1
  {
    c := new Conn(p, pcb);
    p.connLinks := c;
    p.connCount := p.connCount + 1;
    p.conns := [c] + p.conns;
    pcb.hooks := Hooks(true, true, true, true, true);
    assert forall i :: 0 < i < |p.conns| ==> p.conns[i] == old(p.conns)[i - 1];
  }

  /** Make room in a full server that may reopen: the head of its list goes. */
  method Evict(srv: Server, p: Cfg)
    requires p.Valid() && p.conns != [] && srv.PcbsKnown() && PcbsIn(p.conns, srv.pool) && srv.phcfg != null
    modifies p`connLinks, p`connCount, p`conns, p.conns`next, srv.pool`hooks, srv.pool`credited
    modifies p.conns`state, p.conns`pcb, p.conns`pbufo, p.conns`pbufi, p.conns`trace, p.conns`freed
    ensures p.Valid() && p.conns == old(p.conns)[1..] && PcbsIn(p.conns, srv.pool)
    ensures Dropped(old(p.conns[0]), p.hasDisconCb)
    ensures forall d :: d in p.conns ==> Untouched(d)
  {
    DropHead(srv, p, p.connLinks, Goal(p.connLinks, p.hasDisconCb));
    forall d | d in p.conns
      ensures d != old(p.conns[0])
    {
      var i :| 0 <= i < |p.conns| && p.conns[i] == d;
      assert old(p.conns)[i + 1] == d;
    }
  }

  /** How many connections an accept evicts, by the server's count, limit and flag. */
  ghost function Evicted(count: byte, max: byte, reopen: bool): nat {
    if 0 < count && count >= max && reopen then 1 else 0
  }

  /** The checks of tcpsrv_server_accept, with the eviction. */
  method MakeRoom(srv: Server, p: Cfg, heapFree: nat) returns (err: Err)
    requires p.Valid() && srv.PcbsKnown() && PcbsIn(p.conns, srv.pool) && srv.phcfg != null
    modifies p`connLinks, p`connCount, p`conns, p.conns`next, srv.pool`hooks, srv.pool`credited
    modifies p.conns`state, p.conns`pcb, p.conns`pbufo, p.conns`pbufi, p.conns`trace, p.conns`freed
    ensures p.Valid() && PcbsIn(p.conns, srv.pool)
    ensures err == ErrMem <==> heapFree < p.minHeap
    ensures err == ErrConn <==> heapFree >= p.minHeap && old(p.connCount) >= p.maxConn && !p.flag.srvReopen
    ensures err == ErrOk || err == ErrMem || err == ErrConn
    ensures err != ErrOk ==> p.conns == old(p.conns) && p.connCount == old(p.connCount)
    ensures err == ErrOk ==> p.connCount == old(p.connCount) - Evicted(old(p.connCount), p.maxConn, p.flag.srvReopen)
    ensures err == ErrOk ==> p.conns == old(p.conns)[Evicted(old(p.connCount), p.maxConn, p.flag.srvReopen)..]
    ensures forall d :: d in p.conns ==> Untouched(d)
    ensures forall d :: d in old(p.conns) && d !in p.conns ==> Dropped(d, p.hasDisconCb)
  {
    if heapFree < p.minHeap {
      return ErrMem;
    }
    if p.connCount >= p.maxConn {
      if p.flag.srvReopen {
        if p.connLinks != null {
          Evict(srv, p);
        }
      } else {
        return ErrConn;
      }
    }
    return ErrOk;
  }

  /** The TIME_WAIT list after an accept: cut to the limit for servers that ask for it. */
  ghost function Aged(tw: seq<Pcb>, cut: bool): seq<Pcb> {
    if cut && |tw| > MAX_TIME_WAIT_PCB then tw[..MAX_TIME_WAIT_PCB] else tw
  }

  /** tcpsrv_server_accept once there is room: allocate, insert, and ask the application. */
  method Admit(srv: Server, p: Cfg, pcb: Pcb, allocOk: bool, listenErr: Err) returns (err: Err, c: Conn?)
    requires p.Valid() && p.connCount < 255 && srv.PcbsKnown() && pcb in srv.pool && PcbsIn(p.conns, srv.pool)
    modifies p`connLinks, p`connCount, p`conns, pcb`hooks, srv`twPcbs
    ensures p.Valid() && srv.PcbsKnown() && PcbsIn(p.conns, srv.pool)
    ensures err == (if allocOk then listenErr else ErrMem) && (c != null <==> allocOk)
    ensures p.conns == (if c == null then [] else [c]) + old(p.conns)
    ensures p.connCount == old(p.connCount) + if allocOk then 1 else 0
    ensures c != null ==> fresh(c) && Installed(c, p, pcb)
    ensures srv.twPcbs == Aged(old(srv.twPcbs), c != null && p.flag.pcbTimeWaitFree)
  {
    if !allocOk {
      return ErrMem, null;
    }
    c := Insert(p, pcb);
    if c.flag.pcbTimeWaitFree {
      CheckMaxTimeWait(srv);
    }
    err := listenErr;
  }

  /**
    tcpsrv_server_accept after the server has been found. The allocator and the
    application's func_listen are the environment: `allocOk`, `listenErr`.
  */
  method AcceptOn(srv: Server, p: Cfg, pcb: Pcb, heapFree: nat, allocOk: bool, listenErr: Err) returns (err: Err, c: Conn?)
    requires p.Valid() && srv.PcbsKnown() && pcb in srv.pool && srv.phcfg != null && PcbsIn(p.conns, srv.pool)
    modifies p`connLinks, p`connCount, p`conns, p.conns`next, srv.pool`hooks, srv.pool`credited, srv`twPcbs
    modifies p.conns`state, p.conns`pcb, p.conns`pbufo, p.conns`pbufi, p.conns`trace, p.conns`freed
    ensures p.Valid() && srv.PcbsKnown() && PcbsIn(p.conns, srv.pool)
    // Refused for want of heap, then of room, then of memory; otherwise the application answers.
    ensures heapFree < p.minHeap ==> err == ErrMem && c == null && p.conns == old(p.conns)
    ensures heapFree >= p.minHeap && old(p.connCount) >= p.maxConn && !p.flag.srvReopen ==>
              err == ErrConn && c == null && p.conns == old(p.conns)
    // The head of the list goes exactly if the server is full; one that is full without connections has none.
    ensures heapFree >= p.minHeap && (old(p.connCount) < p.maxConn || p.flag.srvReopen) ==>
              && (if allocOk then c != null && err == listenErr else c == null && err == ErrMem)
              && p.conns == (if c == null then [] else [c])
                            + old(p.conns)[if 0 < old(p.connCount) && old(p.connCount) >= p.maxConn then 1 else 0..]
    ensures srv.twPcbs == Aged(old(srv.twPcbs), c != null && p.flag.pcbTimeWaitFree)
    ensures c != null ==> fresh(c) && Installed(c, p, pcb)
    ensures forall d :: d in old(p.conns) ==> if d in p.conns then Untouched(d) else Dropped(d, p.hasDisconCb)
    // The limit is kept, unless it is zero and the server reopens; a count above it does not grow.
    ensures old(p.connCount) <= p.maxConn ==> (p.connCount <= p.maxConn <==> !(p.maxConn == 0 && c != null))
    ensures old(p.connCount) > p.maxConn ==> p.connCount <= old(p.connCount)
  {
    hide Dropped, Without, Cfg.Valid, Untouched, PcbsIn, Evicted, Installed;
    c := null;
    EvictedIs(p.connCount, p.maxConn, p.flag.srvReopen);
    LimitKept(p.connCount, p.maxConn, p.flag.srvReopen);
    err := MakeRoom(srv, p, heapFree);
    if err != ErrOk {
      return;
    }
    ghost var left := p.conns;
    err, c := Admit(srv, p, pcb, allocOk, listenErr);
    if c != null {
      MembersOfCons(c, left);
    }
  }

  lemma EvictedIs(count: byte, max: byte, reopen: bool)
    ensures count < max || reopen ==> Evicted(count, max, reopen) == if 0 < count && count >= max then 1 else 0
  {
  }

  /** One connection more, after the eviction, keeps the limit unless it is zero, and does not add to a count above it. */
  lemma LimitKept(count: byte, max: byte, reopen: bool)
    ensures var left := count - Evicted(count, max, reopen);
            && (count < max || reopen ==> if count <= max then (left + 1 <= max <==> max != 0) else left + 1 <= count)
            && 0 <= left <= count && (count < max || reopen ==> left < 255)
  {
  }

  lemma MembersOfCons<T>(x: T, s: seq<T>)
    ensures forall d :: d in [x] + s <==> d == x || d in s
  {
  }

  /** Servers do not share connections, so what happens to one leaves the others as they were. */
  lemma OwnConns(p: Cfg, q: Cfg)
    requires p.Valid() && q.Valid() && p != q
    ensures forall c :: c in q.conns ==> c !in p.conns
  {
    forall c | c in q.conns
      ensures c !in p.conns
    {
      assert c.pcfg == q;
    }
  }

  /** tcpsrv_server_accept, from the incoming control block: `p` is the server its port leads to. */
  method Accept(srv: Server, pcb: Pcb, heapFree: nat, allocOk: bool, listenErr: Err, ghost p: Cfg) returns (err: Err, c: Conn?)
    requires srv.Chained() && pcb in srv.pool && Lookup(srv.cfgs, pcb.localPort) in {p, null}
    requires p.Valid() && PcbsIn(p.conns, srv.pool)
    modifies p`connLinks, p`connCount, p`conns, p.conns`next, srv.pool`hooks, srv.pool`credited, srv`twPcbs
    modifies p.conns`state, p.conns`pcb, p.conns`pbufo, p.conns`pbufi, p.conns`trace, p.conns`freed
    ensures srv.Chained() && p.Valid() && PcbsIn(p.conns, srv.pool)
    ensures Lookup(srv.cfgs, pcb.localPort) == null ==> err == ErrArg && c == null && p.conns == old(p.conns)
    // A server that is found refuses for want of heap, then of room, then of memory; otherwise the application answers.
    ensures Lookup(srv.cfgs, pcb.localPort) == p && heapFree < p.minHeap ==> err == ErrMem && c == null && p.conns == old(p.conns)
    ensures Lookup(srv.cfgs, pcb.localPort) == p && heapFree >= p.minHeap && old(p.connCount) >= p.maxConn && !p.flag.srvReopen ==>
              err == ErrConn && c == null && p.conns == old(p.conns)
    ensures Lookup(srv.cfgs, pcb.localPort) == p && heapFree >= p.minHeap && (old(p.connCount) < p.maxConn || p.flag.srvReopen) ==>
              && (if allocOk then c != null && err == listenErr else c == null && err == ErrMem)
              && p.conns == (if c == null then [] else [c])
                            + old(p.conns)[if 0 < old(p.connCount) && old(p.connCount) >= p.maxConn then 1 else 0..]
    ensures c != null ==>
              && fresh(c) && Installed(c, p, pcb) && SamePeer(pcb, c)
              && c.state == StListen && c.pcb == pcb && c.pcfg == p && pcb.hooks == Hooks(true, true, true, true, true)
    ensures srv.twPcbs == if c != null && p.flag.pcbTimeWaitFree && |old(srv.twPcbs)| > 10 then old(srv.twPcbs)[..10] else old(srv.twPcbs)
    ensures forall d :: d in old(p.conns) ==> if d in p.conns then Untouched(d) else Dropped(d, p.hasDisconCb)
    ensures old(p.connCount) <= p.maxConn ==> (p.connCount <= p.maxConn <==> !(p.maxConn == 0 && c != null))
    ensures old(p.connCount) > p.maxConn ==> p.connCount <= old(p.connCount)
  {
    hide Cfg.Valid, Lookup, PcbsIn, Installed, DisconDue, SamePeer;
    hide Server.PcbsKnown, Server.CfgsLinked;
    ChainStarts(srv);
    var found := Port2Pcfg(srv, pcb.localPort);
    if found == null {
      return ErrArg, null;
    }
    err, c := AcceptOn(srv, found, pcb, heapFree, allocOk, listenErr);
    if c != null {
      InstalledIsOwn(c, found, pcb);
    }
  }

  lemma ChainIsDistinct(srv: Server)
    requires srv.Chained()
    ensures Distinct(srv.cfgs)
  {
  }

  lemma ChainStarts(srv: Server)
    requires srv.Chained()
    ensures srv.phcfg == null <==> srv.cfgs == []
  {
  }

  lemma InstalledIsOwn(c: Conn, p: Cfg, pcb: Pcb)
    requires Installed(c, p, pcb) && p.port == pcb.localPort
    ensures SamePeer(pcb, c)
    ensures c.state == StListen && c.pcb == pcb && c.pcfg == p && pcb.hooks == Hooks(true, true, true, true, true)
  {
  }

  /** tcpsrv_close */
  method Close(srv: Server, p: Cfg?) returns (err: Err)
    requires srv.Chained()
    requires p != null ==> p.Valid() && PcbsIn(p.conns, srv.pool)
    modifies srv`phcfg, srv`cfgs, srv.cfgs`next, srv.pool`hooks, srv.pool`credited
    modifies p, (if p == null then [] else p.conns)
    ensures srv.Chained()
    ensures err == if p == null then ErrArg else if p in old(srv.cfgs) then ErrOk else ErrConn
    ensures p == null || p !in old(srv.cfgs) ==> srv.cfgs == old(srv.cfgs)
    ensures p != null && p !in old(srv.cfgs) ==> p.conns == old(p.conns) && forall c :: c in p.conns ==> Untouched(c)
    ensures p != null && p in old(srv.cfgs) ==>
              && srv.cfgs == Without<Cfg>(old(srv.cfgs), p) && p.freed && p.conns == []
              && forall c :: c in old(p.conns) ==> Dropped(c, old(p.hasDisconCb))
  {
    if p == null {
      return ErrArg;
    }
    var prev: Cfg? := null;
    var cmp := srv.phcfg;
    ghost var k := 0;
    while cmp != null
      invariant 0 <= k <= |srv.cfgs| && cmp == CfgAt(srv.cfgs, k)
      invariant prev == (if k == 0 then null else srv.cfgs[k - 1])
      invariant forall i :: 0 <= i < k ==> srv.cfgs[i] != p
      decreases |srv.cfgs| - k
    {
      if cmp == p {
        CloseFound(srv, p, prev, k);
        return ErrOk;
      }
      prev := cmp;
      cmp := cmp.next;
      k := k + 1;
    }
    return ErrConn;
  }

  /** The body of the search loop of tcpsrv_close: unlink the server, drop its connections, free it. */
  method CloseFound(srv: Server, p: Cfg, prev: Cfg?, ghost k: nat)
    requires srv.Chained() && p.Valid() && PcbsIn(p.conns, srv.pool)
    requires k < |srv.cfgs| && srv.cfgs[k] == p && (prev == null <==> k == 0) && (prev != null ==> prev == srv.cfgs[k - 1])
    modifies srv`phcfg, srv`cfgs, (if prev == null then {} else {prev})`next, srv.pool`hooks, srv.pool`credited
    modifies p`connLinks, p`connCount, p`conns, p`listening, p`freed, p.conns
    ensures srv.Chained() && srv.cfgs == Without(old(srv.cfgs), p) && p.freed && p.conns == []
    ensures forall c :: c in old(p.conns) ==> Dropped(c, p.hasDisconCb)
  {
    hide Cfg.Valid, Without, PcbsIn, Distinct, Server.PcbsKnown, Server.CfgsLinked, DisconDue;
    ChainIsDistinct(srv);
    WithoutAt(srv.cfgs, k);
    UnlinkCfg(srv, p, prev, k);
    DropAll(srv, p);
    FreeCfg(p);
  }

  method FreeCfg(p: Cfg)
    modifies p`listening, p`freed
    ensures p.freed
  {
    p.listening := false;
    p.freed := true;
  }

  /** Take the server at index `k`, whose predecessor is `prev`, out of the list of servers. */
  method UnlinkCfg(srv: Server, p: Cfg, prev: Cfg?, ghost k: nat)
    requires srv.Chained() && k < |srv.cfgs| && srv.cfgs[k] == p && (prev == null <==> k == 0)
    requires prev != null ==> prev == srv.cfgs[k - 1]
    modifies srv`phcfg, srv`cfgs, (if prev == null then {} else {prev})`next
    ensures srv.Chained() && srv.cfgs == old(srv.cfgs)[..k] + old(srv.cfgs)[k + 1..]
  {
    ghost var was := srv.cfgs;
    if prev == null {
      srv.phcfg := p.next;
    } else {
      prev.next := p.next;
    }
    srv.cfgs := was[..k] + was[k + 1..];
    forall i | 0 <= i < |srv.cfgs|
      ensures srv.cfgs[i] == was[if i < k then i else i + 1] && srv.cfgs[i].next == CfgAt(srv.cfgs, i + 1)
    {
      assert was[if i < k then i else i + 1] != p;
    }
  }

  /** tcpsrv_close_port: an unknown port leads to no server, like port zero. */
  method ClosePort(srv: Server, port: u16, ghost p: Cfg?) returns (err: Err)
    requires srv.Chained() && p == Lookup(srv.cfgs, port)
    requires p != null ==> p.Valid() && PcbsIn(p.conns, srv.pool)
    modifies srv`phcfg, srv`cfgs, srv.cfgs`next, srv.pool`hooks, srv.pool`credited
    modifies p, (if p == null then [] else p.conns)
    ensures srv.Chained()
    ensures err == if port == 0 || p == null then ErrArg else ErrOk
    ensures err != ErrOk ==> srv.cfgs == old(srv.cfgs)
    ensures err == ErrOk ==>
              && srv.cfgs == Without<Cfg>(old(srv.cfgs), p) && p.freed && p.conns == []
              && forall c :: c in old(p.conns) ==> Dropped(c, old(p.hasDisconCb))
  {
    if port != 0 {
      var found := Port2Pcfg(srv, port);
      err := Close(srv, found);
    } else {
      err := ErrArg;
    }
  }
}
