/**
  The life of one connection: the callbacks lwIP makes into the layer, closing
  with its retry, and what no run of them can do.

  lwIP is the environment. It may fire any callback that is registered at that
  moment and nothing else; a connection that has been released takes no more
  part. `Life` is what matters of a connection and its control block; each
  method is proved to act on it as the step function of the same name, and the
  theorems at the end are about every run of those steps; TcpRuns composes the
  methods to such runs.
*/
module TcpLifecycle {
  import opened TcpTypes
  import opened TcpRegistry

  datatype Life = Life(
    state: ConnState, attached: bool, recvCheck: u16, rxNull: bool, txNull: bool,
    hooks: Hooks, trace: seq<Event>, freed: bool)

  /** What the server configuration contributes. */
  datatype Setup = Setup(hasDisconCb: bool, hasSentCb: bool, hasRecv: bool, waitRec: byte, waitCls: byte)

  ghost function LifeOf(c: Conn, b: Pcb): Life
    reads c`state, c`pcb, c`freed, c`recvCheck, c`flag, c`trace, b`hooks
  {
    Life(c.state, c.pcb != null && !c.freed, c.recvCheck, c.flag.rxNull, c.flag.txNull, b.hooks, c.trace, c.freed)
  }

  ghost function SetupOf(p: Cfg): Setup
    reads p
  {
    Setup(p.hasDisconCb, p.hasSentCb, p.hasRecv, p.timeWaitRec, p.timeWaitCls)
  }

  predicate Closing(s: ConnState) {
    s == StCloseWait || s == StClosed
  }

  // ---------------------------------------------------------------- steps

  /** tcpsrv_disconnect_successful and tcpsrv_list_delete on a linked connection of a started server. */
  ghost function Released(s: Life, u: Setup): Life {
    s.(state := StClosed, attached := false, freed := true,
       trace := s.trace + DisconDue(s.state, u.hasDisconCb) + [Freed])
  }

  /** The first entry of tcpsrv_server_close: every callback but the argument is unregistered. */
  ghost function CloseBegun(s: Life): Life {
    if Closing(s.state) then s
    else s.(state := StCloseWait, recvCheck := 0, rxNull := true, txNull := true,
            hooks := Hooks(s.hooks.arg, false, false, false, false), trace := s.trace + [CloseStarted])
  }

  /** tcpsrv_server_close behind its first entry. */
  ghost function FinishStep(t: Life, u: Setup, pcbDone: bool, closeOk: bool): Life {
    if pcbDone then Released(t, u)
    else if t.recvCheck > 3 then Released(t.(hooks := t.hooks.(poll := false)), u)
    else if closeOk then Released(t, u)
    else t.(hooks := t.hooks.(poll := true))
  }

  /** tcpsrv_server_close; `pcbDone` is lwIP's CLOSED or TIME_WAIT, `closeOk` the outcome of tcp_close. */
  ghost function CloseStep(s: Life, u: Setup, pcbDone: bool, closeOk: bool): Life {
    if !s.attached then s else FinishStep(CloseBegun(s), u, pcbDone, closeOk)
  }

  /** tcpsrv_server_sent */
  ghost function SentStep(s: Life, u: Setup): Life {
    s.(state := StConnect, recvCheck := 0,
       trace := if !s.txNull && u.hasSentCb then s.trace + [SentCb] else s.trace)
  }

  /** tcpsrv_server_recv with data: `called` says whether the data reached the application. */
  ghost function RecvStep(s: Life, u: Setup, called: bool): Life {
    if s.rxNull || !u.hasRecv || s.state == StCloseWait then s
    else s.(state := StConnect, recvCheck := 0, trace := if called then s.trace + [RecvCb] else s.trace)
  }

  /** The counter of tcpsrv_poll, 16 bits wide. */
  function Tick(n: u16): u16 {
    (n + 1) % 0x1_0000
  }

  predicate TimedOut(state: ConnState, ticks: u16, waitRec: byte, waitCls: byte) {
    (state == StListen && waitRec != 0 && ticks > waitRec) || (state == StConnect && waitCls != 0 && ticks > waitCls)
  }

  /** tcpsrv_poll */
  ghost function PollStep(s: Life, u: Setup, pcb: PcbState, closeOk: bool): Life {
    var done := pcb == PcbClosed || pcb == PcbTimeWait;
    if s.attached && s.state != StCloseWait then
      var t := s.(recvCheck := Tick(s.recvCheck));
      if pcb == PcbEstablished && !TimedOut(t.state, t.recvCheck, u.waitRec, u.waitCls) then t
      else CloseStep(t, u, done, closeOk)
    else CloseStep(s, u, done, closeOk)
  }

  /** tcpsrv_error */
  ghost function ErrorStep(s: Life, u: Setup): Life {
    if s.state != StCloseWait && s.attached then Released(s, u) else s
  }

  // ---------------------------------------------------------------- the callbacks

  /** A linked connection of a started server, with its control block. */
  ghost predicate Live(srv: Server, c: Conn)
    reads srv`phcfg, c`freed, c`pcfg, if c.pcfg == null then {} else {c.pcfg}
    reads if c.pcfg == null then [] else c.pcfg.conns
  {
    !c.freed && c.pcfg != null && c.pcfg.Valid() && c in c.pcfg.conns && srv.phcfg != null
  }

  /** tcpsrv_disconnect_successful */
  method DisconnectSuccessful(srv: Server, c: Conn, ghost b: Pcb)
    requires Live(srv, c)
    modifies c`state, c`pcb, c`pbufo, c`pbufi, c`trace, c`freed, c`next
    modifies c.pcfg`connLinks, c.pcfg`connCount, c.pcfg`conns, c.pcfg.conns`next
    ensures LifeOf(c, b) == Released(old(LifeOf(c, b)), SetupOf(c.pcfg))
    ensures c.pcfg.Valid() && c.pcfg.conns == Without(old(c.pcfg.conns), c) && c.pbufi == null && c.pcb == null
  {
    c.pcb := null;
    ListDelete(srv, c);
  }

  /** The first part of tcpsrv_server_close: stop every callback, open the window, free the buffers. */
  method BeginClose(c: Conn, pcb: Pcb)
    requires c.pcb == pcb && !Closing(c.state) && !c.freed
    modifies c`state, c`recvCheck, c`flag, c`unrecved, c`pbufo, c`pbufi, c`sizei, c`cntri, c`trace, pcb`hooks, pcb`credited
    ensures LifeOf(c, pcb) == CloseBegun(old(LifeOf(c, pcb)))
    ensures c.flag == old(c.flag).(waitSent := false, rxNull := true, txNull := true)
    ensures c.pbufo == null && c.pbufi == null && c.sizei == 0 && c.cntri == 0 && c.unrecved == 0
    ensures pcb.credited == old(pcb.credited) + if old(c.unrecved) != 0 then TCP_WND else 0
  {
    hide Closing;
    c.trace := c.trace + [CloseStarted];
    c.state, c.recvCheck := StCloseWait, 0;
    c.flag := c.flag.(waitSent := false, rxNull := true, txNull := true);
    pcb.hooks := pcb.hooks.(recv := false, sent := false, poll := false, err := false);
    LetGo(c, pcb);
  }

  /** The end of that part: the window opens if bytes are owed, and both buffers go. */
  method LetGo(c: Conn, pcb: Pcb)
    modifies c`unrecved, c`pbufo, c`pbufi, c`sizei, c`cntri, pcb`credited
    ensures c.pbufo == null && c.pbufi == null && c.sizei == 0 && c.cntri == 0 && c.unrecved == 0
    ensures pcb.credited == old(pcb.credited) + if old(c.unrecved) != 0 then TCP_WND else 0
  {
    if c.unrecved != 0 {
      pcb.credited := pcb.credited + TCP_WND;
      c.unrecved := 0;
    }
    c.pbufo := null;
    c.pbufi, c.sizei, c.cntri := null, 0, 0;
  }

  ghost predicate PcbDone(b: Pcb)
    reads b`state
  {
    b.state == PcbClosed || b.state == PcbTimeWait
  }

  /** The second part of tcpsrv_server_close: release the connection, or wait and retry from the poll. */
  method FinishClose(srv: Server, c: Conn, pcb: Pcb, closeOk: bool)
    requires Live(srv, c) && c.pcb == pcb
    modifies c`state, c`pcb, c`pbufo, c`pbufi, c`trace, c`freed, c`next, pcb`hooks
    modifies c.pcfg`connLinks, c.pcfg`connCount, c.pcfg`conns, c.pcfg.conns`next
    ensures LifeOf(c, pcb) == FinishStep(old(LifeOf(c, pcb)), SetupOf(c.pcfg), PcbDone(pcb), closeOk)
    ensures c.pcfg.Valid() && c.pbufi == (if c.freed then null else old(c.pbufi)) && c.pcb == (if c.freed then null else pcb)
    ensures c.state == if c.freed then StClosed else old(c.state)
    ensures c.pcfg.conns == if c.freed then Without(old(c.pcfg.conns), c) else old(c.pcfg.conns)
  {
    hide Cfg.Valid, Without, DisconDue;
    if pcb.state == PcbClosed || pcb.state == PcbTimeWait {
      DisconnectSuccessful(srv, c, pcb);
    } else if c.recvCheck > 3 {
      pcb.hooks := pcb.hooks.(poll := false);
      DisconnectSuccessful(srv, c, pcb);
    } else if !closeOk {
      pcb.hooks := pcb.hooks.(poll := true);
    } else {
      DisconnectSuccessful(srv, c, pcb);
    }
  }

  /**
    What an attempt to close does besides the steps: if it is the first one, the flags, buffers and window change as
    BeginClose says; if not, they stay, but for the buffer that a release frees.
  */
  twostate predicate CloseEffects(c: Conn, b: Pcb)
    reads c`state, c`freed, c`flag, c`unrecved, c`pbufi, c`sizei, c`cntri, b`credited
  {
    if !Closing(old(c.state)) && Closing(c.state) then
      && c.flag == old(c.flag).(waitSent := false, rxNull := true, txNull := true)
      && c.unrecved == 0 && c.pbufi == null && c.sizei == 0 && c.cntri == 0
      && b.credited == old(b.credited) + if old(c.unrecved) != 0 then TCP_WND else 0
    else
      KeepsBuffer(c) && b.credited == old(b.credited)
  }

  /** Flags, window and buffer stay, but for the buffer that a release frees. */
  twostate predicate KeepsBuffer(c: Conn)
    reads c`freed, c`flag, c`unrecved, c`pbufi, c`sizei, c`cntri
  {
    && c.flag == old(c.flag) && c.unrecved == old(c.unrecved) && c.sizei == old(c.sizei) && c.cntri == old(c.cntri)
    && c.pbufi == if c.freed then null else old(c.pbufi)
  }

  lemma BegunAlready(s: Life)
    ensures Closing(s.state) ==> CloseBegun(s) == s
    ensures CloseBegun(s).state == if Closing(s.state) then s.state else StCloseWait
  {
  }

  /**
    Who decides in tcpsrv_server_close: lwIP, by the state of the block or its answer to tcp_close. Only a connection
    that was closing already can be given up after more than three retries.
  */
  lemma CloseDecides(s: Life, u: Setup, pcbDone: bool, closeOk: bool)
    requires s.attached && !s.freed
    ensures var t, gaveUp := CloseStep(s, u, pcbDone, closeOk), Closing(s.state) && s.recvCheck > 3;
            && (t.freed <==> pcbDone || closeOk || gaveUp)
            && (t.freed ==> t.state == StClosed && !t.attached)
            && (!t.freed ==> t.attached && t.hooks.poll && t.state == if s.state == StClosed then StClosed else StCloseWait)
            && (t.freed && !pcbDone && gaveUp ==> !t.hooks.poll)
  {
  }

  /** tcpsrv_server_close; `closeOk` is what tcp_close will answer. `b` is the control block being watched. */
  method ServerClose(srv: Server, c: Conn, b: Pcb, closeOk: bool)
    requires Live(srv, c) && (c.pcb == null || c.pcb == b)
    modifies c`state, c`recvCheck, c`flag, c`unrecved, c`pbufo, c`pbufi, c`sizei, c`cntri, c`trace, b`hooks, b`credited
    modifies c`pcb, c`freed, c`next, c.pcfg`connLinks, c.pcfg`connCount, c.pcfg`conns, c.pcfg.conns`next
    ensures LifeOf(c, b) == CloseStep(old(LifeOf(c, b)), SetupOf(c.pcfg), PcbDone(b), closeOk)
    ensures c.pcfg.Valid() && CloseEffects(c, b) && c.pcb == (if c.freed then null else old(c.pcb))
    ensures c.pcfg.conns == if c.freed then Without(old(c.pcfg.conns), c) else old(c.pcfg.conns)
    // The connection goes when lwIP is done with the block or has closed it, and otherwise waits for the poll.
    ensures old(c.pcb) != null && (b.state == PcbClosed || b.state == PcbTimeWait || closeOk) ==> c.freed && c.state == StClosed
    ensures old(c.pcb) != null && b.state != PcbClosed && b.state != PcbTimeWait && !closeOk ==>
              if (old(c.state) == StCloseWait || old(c.state) == StClosed) && old(c.recvCheck) > 3 then c.freed && !b.hooks.poll
              else !c.freed && (c.state == StCloseWait || c.state == old(c.state) == StClosed) && b.hooks.poll
    ensures old(c.pcb) == null ==> !c.freed && c.state == old(c.state) && c.trace == old(c.trace) && b.hooks == old(b.hooks)
  {
    hide Cfg.Valid, Without, CloseStep;
    var pcb := c.pcb;
    if pcb == null {
      NothingToClose(LifeOf(c, b), SetupOf(c.pcfg), PcbDone(b), closeOk);
      return;
    }
    CloseDecides(LifeOf(c, b), SetupOf(c.pcfg), PcbDone(b), closeOk);
    CloseBlock(srv, c, pcb, closeOk);
  }

  lemma NothingToClose(s: Life, u: Setup, pcbDone: bool, closeOk: bool)
    requires !s.attached
    ensures CloseStep(s, u, pcbDone, closeOk) == s
  {
  }

  /** tcpsrv_server_close behind the test for a control block (541-620). */
  method CloseBlock(srv: Server, c: Conn, pcb: Pcb, closeOk: bool)
    requires Live(srv, c) && c.pcb == pcb
    modifies c`state, c`recvCheck, c`flag, c`unrecved, c`pbufo, c`pbufi, c`sizei, c`cntri, c`trace, pcb`hooks, pcb`credited
    modifies c`pcb, c`freed, c`next, c.pcfg`connLinks, c.pcfg`connCount, c.pcfg`conns, c.pcfg.conns`next
    ensures LifeOf(c, pcb) == CloseStep(old(LifeOf(c, pcb)), SetupOf(c.pcfg), PcbDone(pcb), closeOk)
    ensures c.pcfg.Valid() && CloseEffects(c, pcb) && c.pcb == (if c.freed then null else pcb)
    ensures c.pcfg.conns == if c.freed then Without(old(c.pcfg.conns), c) else old(c.pcfg.conns)
  {
    hide Cfg.Valid, Without, FinishStep, CloseBegun;
    BegunAlready(LifeOf(c, pcb));
    if c.state != StCloseWait && c.state != StClosed {
      BeginClose(c, pcb);
    }
    if c.state == StCloseWait || c.state == StClosed {
      FinishClose(srv, c, pcb, closeOk);
    }
  }

  /** tcpsrv_server_sent; `cbErr` is what the application's func_sent_cb answers. */
  method ServerSent(c: Conn, pcb: Pcb, cbErr: Err) returns (err: Err)
    requires !c.freed && c.pcfg != null
    modifies c`state, c`recvCheck, c`flag, c`trace
    ensures LifeOf(c, pcb) == SentStep(old(LifeOf(c, pcb)), SetupOf(c.pcfg))
    ensures c.flag == old(c.flag).(waitSent := false) && c.state == StConnect && c.recvCheck == 0
    ensures if !c.flag.txNull && c.pcfg.hasSentCb then err == cbErr && c.trace == old(c.trace) + [SentCb]
            else err == ErrOk && c.trace == old(c.trace)
  {
    err := ErrOk;
    c.state, c.recvCheck := StConnect, 0;
    c.flag := c.flag.(waitSent := false);
    if !c.flag.txNull && c.pcfg.hasSentCb {
      c.trace := c.trace + [SentCb];
      err := cbErr;
    }
  }

  /** tcpsrv_poll, fired for a connection. */
  method Poll(srv: Server, c: Conn, pcb: Pcb, closeOk: bool)
    requires Live(srv, c) && (c.pcb == null || c.pcb == pcb)
    modifies c`state, c`recvCheck, c`flag, c`unrecved, c`pbufo, c`pbufi, c`sizei, c`cntri, c`trace, pcb`hooks, pcb`credited
    modifies c`pcb, c`freed, c`next, c.pcfg`connLinks, c.pcfg`connCount, c.pcfg`conns, c.pcfg.conns`next
    ensures LifeOf(c, pcb) == PollStep(old(LifeOf(c, pcb)), SetupOf(c.pcfg), pcb.state, closeOk)
    ensures c.pcfg.Valid() && CloseEffects(c, pcb) && c.pcb == (if c.freed then null else old(c.pcb))
    ensures c.pcfg.conns == if c.freed then Without(old(c.pcfg.conns), c) else old(c.pcfg.conns)
  {
    hide Cfg.Valid, Without, CloseStep, DisconDue;
    if c.pcb != null && c.state != StCloseWait {
      c.recvCheck := Tick(c.recvCheck);
      if pcb.state == PcbEstablished {
        if (c.state == StListen && c.pcfg.timeWaitRec != 0 && c.recvCheck > c.pcfg.timeWaitRec)
           || (c.state == StConnect && c.pcfg.timeWaitCls != 0 && c.recvCheck > c.pcfg.timeWaitCls) {
          ServerClose(srv, c, pcb, closeOk);
        }
      } else {
        ServerClose(srv, c, pcb, closeOk);
      }
    } else {
      ServerClose(srv, c, pcb, closeOk);
    }
  }

  /** tcpsrv_error: lwIP has already released the control block `b`. */
  method Error(srv: Server, c: Conn, ghost b: Pcb)
    requires Live(srv, c)
    modifies c`state, c`pcb, c`pbufo, c`pbufi, c`trace, c`freed, c`next
    modifies c.pcfg`connLinks, c.pcfg`connCount, c.pcfg`conns, c.pcfg.conns`next
    ensures LifeOf(c, b) == ErrorStep(old(LifeOf(c, b)), SetupOf(c.pcfg))
    ensures c.freed <==> old(c.state) != StCloseWait && old(c.pcb) != null
    ensures if c.freed then c.pbufi == null else c.pcb == old(c.pcb) && c.pbufi == old(c.pbufi)
    ensures c.pcfg.Valid() && c.pcfg.conns == if c.freed then Without(old(c.pcfg.conns), c) else old(c.pcfg.conns)
  {
    hide Cfg.Valid, Without;
    if c.state != StCloseWait {
      if c.pcb != null {
        ListDelete(srv, c);
      }
    }
  }

  /**
    tcpsrv_disconnect; `found` is the control block the search answers. That is the connection's own as long as lwIP
    has not given its memory to another connection: nothing here changes the ports and the peer that accept copied.
  */
  method Disconnect(srv: Server, c: Conn, closeOk: bool) returns (ghost found: Pcb?)
    requires Live(srv, c) && srv.PcbsKnown() && (c.pcb == null || c.pcb in srv.pool)
    modifies c`state, c`recvCheck, c`flag, c`unrecved, c`pbufo, c`pbufi, c`sizei, c`cntri, c`trace
    modifies c`pcb, c`freed, c`next, c.pcfg`connLinks, c.pcfg`connCount, c.pcfg`conns, c.pcfg.conns`next
    modifies srv.pool`hooks, srv.pool`credited
    ensures c.pcfg.Valid() && c.pcfg.conns == if c.freed then Without(old(c.pcfg.conns), c) else old(c.pcfg.conns)
    // The connection's own control block, while its ports and peer are the connection's; no other block is touched.
    ensures old(c.state) != StCloseWait && old(c.pcb != null && SamePeer(c.pcb, c)) ==> found == old(c.pcb)
    ensures forall b :: b in srv.pool && b != found ==> b.hooks == old(b.hooks) && b.credited == old(b.credited)
    // Waiting to close already, or without a block: at most the block is forgotten.
    ensures old(c.state) == StCloseWait ==> found == null
    ensures found == null ==>
              && c.pcb == (if c.state == StCloseWait then old(c.pcb) else null)
              && c.trace == old(c.trace) && c.state == old(c.state) && c.recvCheck == old(c.recvCheck) && !c.freed && KeepsBuffer(c)
    ensures found != null ==>
              && found in srv.pool && old(c.pcb) != null && c.pcb == (if c.freed then null else found) && CloseEffects(c, found)
              && LifeOf(c, found) == CloseStep(old(LifeOf(c, found)), SetupOf(c.pcfg), PcbDone(found), closeOk)
  {
    hide Cfg.Valid, Without, CloseStep, SamePeer, Server.PcbsKnown;
    found := null;
    if c.state == StCloseWait {
      return;
    }
    var r := FindTcpPcb(srv, c);
    c.pcb := r;
    if r != null {
      found := r;
      ServerClose(srv, c, r, closeOk);
    }
  }

  // ---------------------------------------------------------------- runs

  /**
    One move of the environment: lwIP fires a callback, or the application or an accept acts on the connection. In a
    disconnect `found` says whether the search answers the connection's own control block; that it answers another one,
    in reused memory, is not part of the runs.
  */
  datatype Move =
    | MSent
    | MRecv(called: bool)
    | MRecvEnd(pcbDone: bool, closeOk: bool)
    | MPoll(pcb: PcbState, closeOk: bool)
    | MError
    | MDisconnect(found: bool, pcbDone: bool, closeOk: bool)
    | MDelete

  /** lwIP only fires what is registered; nothing happens to a released connection. */
  predicate Enabled(s: Life, m: Move) {
    && !s.freed
    && match m
       case MSent => s.hooks.sent
       case MRecv(_) => s.hooks.recv
       case MRecvEnd(_, _) => s.hooks.recv
       case MPoll(_, _) => s.hooks.poll
       case MError => s.hooks.err
       case MDisconnect(_, _, _) => true
       case MDelete => true
  }

  ghost function Step(s: Life, u: Setup, m: Move): Life {
    match m
    case MSent => SentStep(s, u)
    case MRecv(called) => RecvStep(s, u, called)
    case MRecvEnd(pcbDone, closeOk) => CloseStep(s, u, pcbDone, closeOk)
    case MPoll(pcb, closeOk) => PollStep(s, u, pcb, closeOk)
    case MError => ErrorStep(s, u)
    case MDisconnect(found, pcbDone, closeOk) =>
      if s.state == StCloseWait then s
      else if found && s.attached then CloseStep(s, u, pcbDone, closeOk)
      else s.(attached := false)
    case MDelete => Released(if s.attached then s.(hooks := Hooks(false, false, false, false, false)) else s, u)
  }

  /** The states a connection passes through under the moves `ms`, all of them enabled. */
  ghost predicate IsRun(states: seq<Life>, u: Setup, ms: seq<Move>) {
    && |states| == |ms| + 1
    && states[0] == Born(states[0].rxNull, states[0].txNull)
    && forall i {:trigger ms[i]} :: 0 <= i < |ms| ==> Enabled(states[i], ms[i]) && states[i + 1] == Step(states[i], u, ms[i])
  }

  /** A connection just accepted; the two null flags are the server's defaults. */
  ghost function Born(rxNull: bool, txNull: bool): Life {
    Life(StListen, true, 0, rxNull, txNull, Hooks(true, true, true, true, true), [Accepted], false)
  }

  predicate OpenEvent(e: Event) {
    e == Accepted || e == RecvCb || e == SentCb
  }

  /** How long the trace stays among acceptance and data callbacks. */
  ghost function OpenPrefix(t: seq<Event>): (n: nat)
    ensures n <= |t| && (forall i :: 0 <= i < n ==> OpenEvent(t[i])) && (n < |t| ==> !OpenEvent(t[n]))
  {
    if t == [] || !OpenEvent(t[0]) then 0 else 1 + OpenPrefix(t[1..])
  }

  /** What follows the last data callback. */
  ghost function Ending(t: seq<Event>): seq<Event> {
    t[OpenPrefix(t)..]
  }

  lemma {:induction false} OpenPrefixOf(t: seq<Event>, more: seq<Event>)
    ensures OpenPrefix(t + more) == OpenPrefix(t) + if OpenPrefix(t) == |t| then OpenPrefix(more) else 0
  {
    if t == [] {
      assert t + more == more;
    } else if OpenEvent(t[0]) {
      OpenPrefixOf(t[1..], more);
      assert (t + more)[1..] == t[1..] + more;
    }
  }

  lemma EndingGrows(t: seq<Event>, more: seq<Event>)
    requires Ending(t) != [] || more == [] || !OpenEvent(more[0])
    ensures Ending(t + more) == Ending(t) + more
  {
    OpenPrefixOf(t, more);
    var n := OpenPrefix(t);
    assert (t + more)[n..] == t[n..] + more;
  }

  lemma StillOpen(t: seq<Event>, e: Event)
    requires Ending(t) == [] && OpenEvent(e)
    ensures Ending(t + [e]) == []
  {
    OpenPrefixOf(t, [e]);
    assert |t[OpenPrefix(t)..]| == 0;
    assert OpenPrefix([e]) == 1;
  }

  /** The last events a released connection shows: it may have been closed first, is told if anybody asked, and is freed. */
  ghost predicate FinalEnding(e: seq<Event>, hasDisconCb: bool) {
    var tail := (if hasDisconCb then [DisconCb] else []) + [Freed];
    e == tail || e == [CloseStarted] + tail
  }

  /** What holds in every reachable state. */
  ghost predicate LifeInv(s: Life, u: Setup) {
    && (s.freed <==> s.state == StClosed)
    && s.state != StNone && (s.hooks.arg || s.freed)
    && (s.state == StListen || s.state == StConnect ==> Ending(s.trace) == [])
    && (s.state == StCloseWait ==>
          Ending(s.trace) == [CloseStarted] && !s.hooks.recv && !s.hooks.sent && !s.hooks.err && s.rxNull && s.txNull)
    && (s.freed ==> FinalEnding(Ending(s.trace), u.hasDisconCb))
  }

  lemma ReleasedKeeps(s: Life, u: Setup)
    requires LifeInv(s, u) && !s.freed
    ensures LifeInv(Released(s, u), u)
  {
    hide Ending, DisconDue;
    var tail := DisconDue(s.state, u.hasDisconCb) + [Freed];
    DueIsOpenNo(s.state, u.hasDisconCb);
    EndingGrows(s.trace, tail);
    assert s.trace + DisconDue(s.state, u.hasDisconCb) + [Freed] == s.trace + tail;
    assert [] + tail == tail;
  }

  lemma DueIsOpenNo(state: ConnState, hasCb: bool)
    ensures var tail := DisconDue(state, hasCb) + [Freed];
            !OpenEvent(tail[0]) && (state != StClosed ==> tail == (if hasCb then [DisconCb] else []) + [Freed])
  {
  }

  lemma BegunKeeps(s: Life, u: Setup)
    requires LifeInv(s, u) && !s.freed
    ensures LifeInv(CloseBegun(s), u) && CloseBegun(s).state == StCloseWait && !CloseBegun(s).freed
  {
    hide Ending;
    EndingGrows(s.trace, [CloseStarted]);
    assert [] + [CloseStarted] == [CloseStarted];
  }

  lemma PollHookKeeps(s: Life, u: Setup, poll: bool)
    requires LifeInv(s, u)
    ensures LifeInv(s.(hooks := s.hooks.(poll := poll)), u)
  {
    hide Ending, FinalEnding;
  }

  lemma CloseKeeps(s: Life, u: Setup, pcbDone: bool, closeOk: bool)
    requires LifeInv(s, u) && !s.freed
    ensures LifeInv(CloseStep(s, u, pcbDone, closeOk), u)
    ensures s.attached ==> Closing(CloseStep(s, u, pcbDone, closeOk).state)
  {
    hide LifeInv, CloseBegun, DisconDue;
    if s.attached {
      var t := CloseBegun(s);
      BegunKeeps(s, u);
      ReleasedKeeps(t, u);
      PollHookKeeps(t, u, true);
      PollHookKeeps(t, u, false);
      ReleasedKeeps(t.(hooks := t.hooks.(poll := false)), u);
    }
  }

  lemma StepKeeps(s: Life, u: Setup, m: Move)
    requires LifeInv(s, u) && Enabled(s, m)
    ensures LifeInv(Step(s, u, m), u)
  {
    match m
    case MSent => StillOpen(s.trace, SentCb);
    case MRecv(_) => StillOpen(s.trace, RecvCb);
    case MRecvEnd(pcbDone, closeOk) => CloseKeeps(s, u, pcbDone, closeOk);
    case MPoll(pcb, closeOk) =>
      CloseKeeps(s, u, pcb == PcbClosed || pcb == PcbTimeWait, closeOk);
      CloseKeeps(s.(recvCheck := Tick(s.recvCheck)), u, pcb == PcbClosed || pcb == PcbTimeWait, closeOk);
    case MError => ReleasedKeeps(s, u);
    case MDisconnect(_, pcbDone, closeOk) => CloseKeeps(s, u, pcbDone, closeOk);
    case MDelete =>
      ReleasedDetached(s, u);
      ReleasedKeeps(s, u);
  }

  /** One step never leaves the closing states. */
  lemma StepStaysClosing(s: Life, u: Setup, m: Move)
    requires LifeInv(s, u) && Enabled(s, m) && Closing(s.state)
    ensures Closing(Step(s, u, m).state)
  {
    assert s.state == StCloseWait;
  }

  lemma ReleasedDetached(s: Life, u: Setup)
    requires LifeInv(s, u) && !s.freed
    ensures LifeInv(Released(s.(hooks := Hooks(false, false, false, false, false)), u), u)
  {
    hide Ending, FinalEnding;
    ReleasedKeeps(s, u);
  }

  lemma {:induction false} RunKeeps(states: seq<Life>, u: Setup, ms: seq<Move>, k: nat)
    requires IsRun(states, u, ms) && k <= |ms|
    ensures LifeInv(states[k], u)
  {
    if k > 0 {
      RunKeeps(states, u, ms, k - 1);
      StepKeeps(states[k - 1], u, ms[k - 1]);
    } else {
      assert OpenPrefix([Accepted]) == 1;
    }
  }

  /** No run takes a connection from CLOSEWAIT or CLOSED back to LISTEN or CONNECT. */
  lemma {:induction false} ClosingIsForGood(states: seq<Life>, u: Setup, ms: seq<Move>, i: nat, j: nat)
    requires IsRun(states, u, ms) && i <= j <= |ms| && Closing(states[i].state)
    ensures Closing(states[j].state)
  {
    if i < j {
      ClosingIsForGood(states, u, ms, i, j - 1);
      RunKeeps(states, u, ms, j - 1);
      StepStaysClosing(states[j - 1], u, ms[j - 1]);
    }
  }

  /** In every run, the application's func_recv and func_sent_cb are not called again once closing has started. */
  lemma RunStopsCallbacks(states: seq<Life>, u: Setup, ms: seq<Move>, k: nat, a: nat, b: nat)
    requires IsRun(states, u, ms) && k <= |ms|
    requires a < b < |states[k].trace| && states[k].trace[a] == CloseStarted
    ensures states[k].trace[b] != RecvCb && states[k].trace[b] != SentCb
  {
    hide Ending, FinalEnding, OpenPrefix;
    RunKeeps(states, u, ms, k);
    NoDataInEnding(states[k].trace, a, b, u.hasDisconCb);
  }

  /** A trace that has ended goes on with no data callback. */
  lemma NoDataInEnding(t: seq<Event>, a: nat, b: nat, hasDisconCb: bool)
    requires Ending(t) == [] || Ending(t) == [CloseStarted] || FinalEnding(Ending(t), hasDisconCb)
    requires a < b < |t| && t[a] == CloseStarted
    ensures t[b] != RecvCb && t[b] != SentCb
  {
    var n := OpenPrefix(t);
    assert n <= a;
    assert t[b] == Ending(t)[b - n];
  }

  /**
    In every run, the end comes in order: what follows the disconnect callback is
    the freeing, and nothing follows the freeing, which comes exactly when the
    connection is released and, if the application asked, right after it was told.
  */
  lemma RunEndsOnce(states: seq<Life>, u: Setup, ms: seq<Move>, k: nat, a: nat)
    requires IsRun(states, u, ms) && k <= |ms| && a < |states[k].trace|
    ensures var t := states[k].trace;
            && (t[a] == Freed <==> states[k].freed && a == |t| - 1)
            && (t[a] == DisconCb <==> u.hasDisconCb && states[k].freed && a == |t| - 2)
  {
    RunKeeps(states, u, ms, k);
    var t := states[k].trace;
    var n := OpenPrefix(t);
    var e := Ending(t);
    if a >= n {
      assert t[a] == e[a - n];
    }
  }

  /**
    The safety of tcpsrv_server_sent rests on the registrations alone: the step
    itself would reopen a connection that is waiting to close, but no reachable
    state that waits to close has the callback registered.
  */
  lemma SentRestsOnHooks(states: seq<Life>, u: Setup, ms: seq<Move>, k: nat)
    requires IsRun(states, u, ms) && k <= |ms| && states[k].state == StCloseWait
    ensures SentStep(states[k], u).state == StConnect
    ensures !Enabled(states[k], MSent) && !Enabled(states[k], MRecv(true)) && !Enabled(states[k], MError)
  {
    RunKeeps(states, u, ms, k);
  }

  lemma WaitKeepsCount(s: Life, u: Setup, m: Move)
    requires LifeInv(s, u) && Enabled(s, m) && Step(s, u, m).state == StCloseWait
    requires s.state == StCloseWait ==> s.recvCheck == 0
    ensures Step(s, u, m).recvCheck == 0
  {
    hide Ending;
  }

  /**
    The counter that would abandon a close after three retries is cleared when
    the close starts and not advanced while it waits, so that branch of
    tcpsrv_server_close is never taken.
  */
  lemma {:induction false} NeverAbandoned(states: seq<Life>, u: Setup, ms: seq<Move>, k: nat)
    requires IsRun(states, u, ms) && k <= |ms| && states[k].state == StCloseWait
    ensures states[k].recvCheck == 0
  {
    if k > 0 {
      RunKeeps(states, u, ms, k - 1);
      if states[k - 1].state == StCloseWait {
        NeverAbandoned(states, u, ms, k - 1);
      }
      hide LifeInv, Step;
      WaitKeepsCount(states[k - 1], u, ms[k - 1]);
    }
  }

  lemma WaitsForPoll(s: Life, u: Setup, m: Move)
    requires Enabled(s, m) && Step(s, u, m).state == StCloseWait && (s.state == StCloseWait ==> s.attached && s.hooks.poll)
    ensures Step(s, u, m).attached && Step(s, u, m).hooks.poll
  {
    hide DisconDue;
  }

  /** A connection that waits has its control block, and the poll that will retry is registered. */
  lemma {:induction false} WaitingIsPolled(states: seq<Life>, u: Setup, ms: seq<Move>, k: nat)
    requires IsRun(states, u, ms) && k <= |ms| && states[k].state == StCloseWait
    ensures states[k].attached && states[k].hooks.poll
  {
    if k > 0 {
      RunKeeps(states, u, ms, k - 1);
      if states[k - 1].state == StCloseWait {
        WaitingIsPolled(states, u, ms, k - 1);
      }
      hide Step, DisconDue;
      WaitsForPoll(states[k - 1], u, ms[k - 1]);
    }
  }

  /** An attempt to close in a run: it releases the connection, or leaves it waiting for the poll. */
  predicate ReleasesOrWaits(t: Life, pcbDone: bool, closeOk: bool) {
    if pcbDone || closeOk then t.freed else !t.freed && t.state == StCloseWait && t.attached && t.hooks.poll
  }

  lemma CloseInRun(s: Life, u: Setup, pcbDone: bool, closeOk: bool)
    requires !s.freed && s.attached && s.state != StClosed && (s.state == StCloseWait ==> s.recvCheck == 0)
    ensures ReleasesOrWaits(CloseStep(s, u, pcbDone, closeOk), pcbDone, closeOk)
  {
    CloseDecides(s, u, pcbDone, closeOk);
  }

  /** What becomes of a connection with a control block at each move of a run, and which idle limit applies when. */
  lemma MoveDecides(states: seq<Life>, u: Setup, ms: seq<Move>, k: nat)
    requires IsRun(states, u, ms) && k < |ms| && states[k].attached
    ensures var s, t := states[k], states[k + 1];
            match ms[k]
            case MSent =>
              t == s.(state := StConnect, recvCheck := 0, trace := if u.hasSentCb && !s.txNull then s.trace + [SentCb] else s.trace)
            case MRecv(called) =>
              if u.hasRecv && !s.rxNull
              then t == s.(state := StConnect, recvCheck := 0, trace := if called then s.trace + [RecvCb] else s.trace)
              else t == s
            case MRecvEnd(pcbDone, closeOk) => ReleasesOrWaits(t, pcbDone, closeOk)
            case MPoll(pcb, closeOk) =>
              var limit, ticks := if s.state == StListen then u.waitRec else u.waitCls, (s.recvCheck + 1) % 0x1_0000;
              if s.state == StCloseWait || pcb != PcbEstablished || (limit != 0 && ticks > limit)
              then ReleasesOrWaits(t, pcb == PcbClosed || pcb == PcbTimeWait, closeOk)
              else t == s.(recvCheck := ticks)
            case MError => t.freed
            case MDisconnect(found, pcbDone, closeOk) =>
              if s.state == StCloseWait then t == s
              else if found then ReleasesOrWaits(t, pcbDone, closeOk)
              else t == s.(attached := false)
            case MDelete => t.freed
  {
    var s := states[k];
    RunKeeps(states, u, ms, k);
    if s.state == StCloseWait {
      NeverAbandoned(states, u, ms, k);
    }
    hide CloseStep, Ending, FinalEnding;
    match ms[k]
    case MRecvEnd(pcbDone, closeOk) => CloseInRun(s, u, pcbDone, closeOk);
    case MPoll(pcb, closeOk) =>
      var counted := if s.state == StCloseWait then s else s.(recvCheck := Tick(s.recvCheck));
      CloseInRun(counted, u, pcb == PcbClosed || pcb == PcbTimeWait, closeOk);
    case MDisconnect(_, pcbDone, closeOk) => CloseInRun(s, u, pcbDone, closeOk);
    case _ =>
  }

  lemma ReleaseLeaves(s: Life, u: Setup, m: Move)
    requires LifeInv(s, u) && Enabled(s, m) && Step(s, u, m).freed
    requires s.state == StCloseWait ==> s.recvCheck == 0 && s.hooks.poll
    ensures var h := Step(s, u, m).hooks;
            match m
            case MDelete => h == if s.attached then Hooks(false, false, false, false, false) else s.hooks
            case MError => h == s.hooks
            case _ => h == Hooks(true, false, false, s.state == StCloseWait, false)
  {
    hide Ending, FinalEnding, DisconDue;
  }

  /**
    What lwIP still holds of this layer when a connection is released: nothing after a delete, unless the connection had
    lost its control block; everything after an error, which takes the block along; and after a close the argument, and
    the poll exactly if an earlier attempt had failed, which is when the connection was waiting.
  */
  lemma ReleasedLeaves(states: seq<Life>, u: Setup, ms: seq<Move>, k: nat)
    requires IsRun(states, u, ms) && k < |ms| && states[k + 1].freed
    ensures var h := states[k + 1].hooks;
            match ms[k]
            case MDelete => h == if states[k].attached then Hooks(false, false, false, false, false) else states[k].hooks
            case MError => h == states[k].hooks
            case _ => h == Hooks(true, false, false, states[k].state == StCloseWait, false)
  {
    RunKeeps(states, u, ms, k);
    if states[k].state == StCloseWait {
      NeverAbandoned(states, u, ms, k);
      WaitingIsPolled(states, u, ms, k);
    }
    hide LifeInv, Step, Enabled;
    ReleaseLeaves(states[k], u, ms[k]);
  }

  /** What tcpsrv_server_accept installs is where every run starts. */
  lemma InstalledIsBorn(c: Conn, p: Cfg, pcb: Pcb)
    requires Installed(c, p, pcb)
    ensures LifeOf(c, pcb) == Born(p.flag.rxNull, p.flag.txNull)
  {
  }
}
