/**
  The callbacks composed: a connection and its control block under any list of
  inputs from lwIP and the application. Every callback leaves what the next one
  requires, so what the objects go through is a run of the step functions, and
  the theorems about runs hold of them.
*/
module TcpRuns {
  import opened TcpTypes
  import opened TcpRegistry
  import opened TcpLifecycle
  import opened TcpReceive

  /** A call into the layer, with the answers it will get. */
  datatype Call =
    | Sent(cbErr: Err)
    | Recv(p: Pbuf, errIn: Err, a: Answers, closeOk: bool)
    | Polled(closeOk: bool)
    | Failed
    | Disconnected(closeOk: bool)
    | Deleted

  /** A call, and the state to which lwIP has brought the control block by then. */
  datatype Input = Input(now: PcbState, call: Call)

  /** What every callback may rely on, and leaves behind unless it has released the connection. */
  ghost predicate Ready(srv: Server, c: Conn, pcb: Pcb)
    reads srv`phcfg, srv`activePcbs, srv`twPcbs, srv`pool
    reads c`freed, c`pcfg, c`pcb, c`pbufi, c`sizei, c`remotePort, c`remoteIp
    reads pcb`remotePort, pcb`localPort, pcb`remoteIp
    reads if c.pcfg == null then {} else {c.pcfg}, if c.pcfg == null then [] else c.pcfg.conns
  {
    Live(srv, c) && srv.PcbsKnown() && pcb in srv.pool && (c.pcb == null || c.pcb == pcb) && SamePeer(pcb, c) && InBounds(c)
  }

  /** lwIP holds the callback; the application may always disconnect, and accept may always delete. */
  predicate Registered(h: Hooks, call: Call) {
    match call
    case Sent(_) => h.sent
    case Recv(_, _, _, _) => h.recv
    case Polled(_) => h.poll
    case Failed => h.err
    case Disconnected(_) => true
    case Deleted => true
  }

  /** The moves of a run that an input can be. */
  predicate Realizes(m: Move, i: Input) {
    var done := i.now == PcbClosed || i.now == PcbTimeWait;
    match i.call
    case Sent(_) => m == MSent
    case Recv(p, errIn, _, closeOk) =>
      if p == NoPbuf || errIn != ErrOk then m == MRecvEnd(done, closeOk) else m == MRecv(false) || (m == MRecv(true) && p.data != [])
    case Polled(closeOk) => m == MPoll(i.now, closeOk)
    case Failed => m == MError
    case Disconnected(closeOk) => m == MDisconnect(true, done, closeOk)
    case Deleted => m == MDelete
  }

  /** One input: the callback acts as a step of a run, and the connection is ready for the next input or released. */
  method Fire(srv: Server, c: Conn, pcb: Pcb, i: Input) returns (ghost m: Move)
    requires Ready(srv, c, pcb) && Registered(pcb.hooks, i.call)
    modifies c`state, c`recvCheck, c`flag, c`unrecved, c`pbufo, c`pbufi, c`sizei, c`cntri, c`trace, c.pbufi
    modifies c`pcb, c`freed, c`next, c.pcfg`connLinks, c.pcfg`connCount, c.pcfg`conns, c.pcfg.conns`next
    modifies pcb`state, srv.pool`hooks, srv.pool`credited
    ensures Realizes(m, i) && Enabled(old(LifeOf(c, pcb)), m)
    ensures LifeOf(c, pcb) == Step(old(LifeOf(c, pcb)), SetupOf(c.pcfg), m)
    ensures c.pcfg.Valid() && (c.freed || Ready(srv, c, pcb))
    ensures c.pcfg.conns == if c.freed then Without(old(c.pcfg.conns), c) else old(c.pcfg.conns)
    ensures c.pbufi == null || c.pbufi == old(c.pbufi) || fresh(c.pbufi)
  {
    hide Cfg.Valid, Without, Step, Enabled, Realizes, Registered, SamePeer, InBounds, Server.PcbsKnown;
    ghost var s := LifeOf(c, pcb);
    pcb.state := i.now;
    m := Serve(srv, c, pcb, i.call);
    RegisteredIsEnabled(s, i, m);
  }

  lemma RegisteredIsEnabled(s: Life, i: Input, m: Move)
    requires !s.freed && Registered(s.hooks, i.call) && Realizes(m, i)
    ensures Enabled(s, m)
  {
  }

  /** The call itself, with the control block in its present state. */
  method Serve(srv: Server, c: Conn, pcb: Pcb, call: Call) returns (ghost m: Move)
    requires Ready(srv, c, pcb)
    modifies c`state, c`recvCheck, c`flag, c`unrecved, c`pbufo, c`pbufi, c`sizei, c`cntri, c`trace, c.pbufi
    modifies c`pcb, c`freed, c`next, c.pcfg`connLinks, c.pcfg`connCount, c.pcfg`conns, c.pcfg.conns`next
    modifies srv.pool`hooks, srv.pool`credited
    ensures Realizes(m, Input(pcb.state, call))
    ensures LifeOf(c, pcb) == Step(old(LifeOf(c, pcb)), SetupOf(c.pcfg), m)
    ensures c.pcfg.Valid() && (c.freed || Ready(srv, c, pcb))
    ensures c.pcfg.conns == if c.freed then Without(old(c.pcfg.conns), c) else old(c.pcfg.conns)
    ensures c.pbufi == null || c.pbufi == old(c.pbufi) || fresh(c.pbufi)
  {
    hide Cfg.Valid, Without, Step, SamePeer, InBounds, Server.PcbsKnown;
    match call
    case Sent(cbErr) =>
      m := MSent;
      FireSent(srv, c, pcb, cbErr);
    case Recv(p, errIn, a, closeOk) => m := FireRecv(srv, c, pcb, p, errIn, a, closeOk);
    case Polled(closeOk) =>
      m := MPoll(pcb.state, closeOk);
      FirePoll(srv, c, pcb, closeOk);
    case Failed =>
      m := MError;
      FireError(srv, c, pcb);
    case Disconnected(closeOk) =>
      m := MDisconnect(true, PcbDone(pcb), closeOk);
      FireDisconnect(srv, c, pcb, closeOk);
    case Deleted =>
      m := MDelete;
      FireDelete(srv, c, pcb);
  }

  method FireSent(srv: Server, c: Conn, pcb: Pcb, cbErr: Err)
    requires Ready(srv, c, pcb)
    modifies c`state, c`recvCheck, c`flag, c`trace
    ensures LifeOf(c, pcb) == Step(old(LifeOf(c, pcb)), SetupOf(c.pcfg), MSent)
    ensures c.pcfg.Valid() && !c.freed && Ready(srv, c, pcb)
  {
    hide Cfg.Valid, SentStep, SamePeer, InBounds, Server.PcbsKnown;
    var _ := ServerSent(c, pcb, cbErr);
  }

  method FireError(srv: Server, c: Conn, ghost pcb: Pcb)
    requires Ready(srv, c, pcb)
    modifies c`state, c`pcb, c`pbufo, c`pbufi, c`trace, c`freed, c`next
    modifies c.pcfg`connLinks, c.pcfg`connCount, c.pcfg`conns, c.pcfg.conns`next
    ensures LifeOf(c, pcb) == Step(old(LifeOf(c, pcb)), SetupOf(c.pcfg), MError)
    ensures c.pcfg.Valid() && (c.freed || Ready(srv, c, pcb))
    ensures c.pcfg.conns == if c.freed then Without(old(c.pcfg.conns), c) else old(c.pcfg.conns)
    ensures c.pbufi == null || c.pbufi == old(c.pbufi)
  {
    hide Cfg.Valid, Without, ErrorStep, SamePeer, Server.PcbsKnown;
    Error(srv, c, pcb);
  }

  method FirePoll(srv: Server, c: Conn, pcb: Pcb, closeOk: bool)
    requires Ready(srv, c, pcb)
    modifies c`state, c`recvCheck, c`flag, c`unrecved, c`pbufo, c`pbufi, c`sizei, c`cntri, c`trace, pcb`hooks, pcb`credited
    modifies c`pcb, c`freed, c`next, c.pcfg`connLinks, c.pcfg`connCount, c.pcfg`conns, c.pcfg.conns`next
    ensures LifeOf(c, pcb) == Step(old(LifeOf(c, pcb)), SetupOf(c.pcfg), MPoll(pcb.state, closeOk))
    ensures c.pcfg.Valid() && (c.freed || Ready(srv, c, pcb))
    ensures c.pcfg.conns == if c.freed then Without(old(c.pcfg.conns), c) else old(c.pcfg.conns)
    ensures c.pbufi == null || c.pbufi == old(c.pbufi)
  {
    hide Cfg.Valid, Without, PollStep, Server.PcbsKnown;
    Poll(srv, c, pcb, closeOk);
  }

  method FireDisconnect(srv: Server, c: Conn, pcb: Pcb, closeOk: bool)
    requires Ready(srv, c, pcb)
    modifies c`state, c`recvCheck, c`flag, c`unrecved, c`pbufo, c`pbufi, c`sizei, c`cntri, c`trace
    modifies c`pcb, c`freed, c`next, c.pcfg`connLinks, c.pcfg`connCount, c.pcfg`conns, c.pcfg.conns`next
    modifies srv.pool`hooks, srv.pool`credited
    ensures LifeOf(c, pcb) == Step(old(LifeOf(c, pcb)), SetupOf(c.pcfg), MDisconnect(true, PcbDone(pcb), closeOk))
    ensures c.pcfg.Valid() && (c.freed || Ready(srv, c, pcb))
    ensures c.pcfg.conns == if c.freed then Without(old(c.pcfg.conns), c) else old(c.pcfg.conns)
    ensures c.pbufi == null || c.pbufi == old(c.pbufi)
  {
    hide Cfg.Valid, Without, CloseStep, Server.PcbsKnown;
    var found := Disconnect(srv, c, closeOk);
  }

  method FireDelete(srv: Server, c: Conn, pcb: Pcb)
    requires Ready(srv, c, pcb)
    modifies c`state, c`pcb, c`pbufo, c`pbufi, c`trace, c`freed, c`next
    modifies c.pcfg`connLinks, c.pcfg`connCount, c.pcfg`conns, c.pcfg.conns`next, srv.pool`hooks, srv.pool`credited
    ensures LifeOf(c, pcb) == Step(old(LifeOf(c, pcb)), SetupOf(c.pcfg), MDelete)
    ensures c.pcfg.Valid() && c.freed && c.pcfg.conns == Without(old(c.pcfg.conns), c) && c.pbufi == null
  {
    hide Cfg.Valid, Without, Server.PcbsKnown;
    var _ := DeletePcb(srv, c);
  }

  method FireRecv(srv: Server, c: Conn, pcb: Pcb, p: Pbuf, errIn: Err, a: Answers, closeOk: bool) returns (ghost m: Move)
    requires Ready(srv, c, pcb)
    modifies c`state, c`recvCheck, c`flag, c`unrecved, c`pbufo, c`pbufi, c`sizei, c`cntri, c`trace, pcb`hooks, pcb`credited
    modifies c`pcb, c`freed, c`next, c.pcfg`connLinks, c.pcfg`connCount, c.pcfg`conns, c.pcfg.conns`next, c.pbufi
    ensures if p == NoPbuf || errIn != ErrOk then m == MRecvEnd(PcbDone(pcb), closeOk)
            else m == MRecv(false) || (m == MRecv(true) && p.data != [])
    ensures LifeOf(c, pcb) == Step(old(LifeOf(c, pcb)), SetupOf(c.pcfg), m)
    ensures c.pcfg.Valid() && (c.freed || Ready(srv, c, pcb))
    ensures c.pcfg.conns == if c.freed then Without(old(c.pcfg.conns), c) else old(c.pcfg.conns)
    ensures c.pbufi == null || c.pbufi == old(c.pbufi) || fresh(c.pbufi)
  {
    hide Cfg.Valid, Without, CloseStep, RecvStep, Deliver, DeliverDirect, Window, RxOf, BufOk, SamePeer, InBounds, Server.PcbsKnown;
    hide CloseEffects, KeepsBuffer, ModeOf;
    var _, d := ServerRecv(srv, c, pcb, p, errIn, a, closeOk);
    m := if p == NoPbuf || errIn != ErrOk then MRecvEnd(PcbDone(pcb), closeOk) else MRecv(p.data != [] && d.taken);
  }

  // ---------------------------------------------------------------- from inputs to a run

  /**
    Whether an input that comes after `n` moves makes one: exactly if the connection is still there and its callback
    registered. `next` moves have been made after it.
  */
  ghost predicate Comes(i: Input, states: seq<Life>, ms: seq<Move>, n: nat, next: nat)
    requires n <= |ms| && |states| == |ms| + 1
  {
    if !states[n].freed && Registered(states[n].hooks, i.call) then next == n + 1 && n < |ms| && Realizes(ms[n], i) else next == n
  }

  /** How the moves `ms` come from the inputs: `at[i]` of them have been made before input `i`. */
  ghost predicate ComesFrom(inputs: seq<Input>, states: seq<Life>, ms: seq<Move>, at: seq<nat>) {
    && |at| == |inputs| + 1 && |states| == |ms| + 1 && at[0] == 0 && at[|inputs|] == |ms|
    && (forall i :: 0 <= i < |at| ==> at[i] <= |ms|)
    && forall i {:trigger inputs[i]} :: 0 <= i < |inputs| ==> Comes(inputs[i], states, ms, at[i], at[i + 1])
  }

  lemma RunExtends(states: seq<Life>, u: Setup, ms: seq<Move>, m: Move)
    requires IsRun(states, u, ms) && Enabled(states[|ms|], m)
    ensures IsRun(states + [Step(states[|ms|], u, m)], u, ms + [m])
  {
    hide Step, Enabled;
    var next := states + [Step(states[|ms|], u, m)];
    forall i | 0 <= i < |ms| + 1
      ensures Enabled(next[i], (ms + [m])[i]) && next[i + 1] == Step(next[i], u, (ms + [m])[i])
    {
      assert i < |ms| ==> (ms + [m])[i] == ms[i];
    }
  }

  lemma InputTaken(inputs: seq<Input>, states: seq<Life>, ms: seq<Move>, at: seq<nat>, i: Input, m: Move, s: Life)
    requires ComesFrom(inputs, states, ms, at)
    requires !states[|ms|].freed && Registered(states[|ms|].hooks, i.call) && Realizes(m, i)
    ensures ComesFrom(inputs + [i], states + [s], ms + [m], at + [|ms| + 1])
  {
    hide Registered, Realizes;
    forall j | 0 <= j < |inputs + [i]|
      ensures Comes((inputs + [i])[j], states + [s], ms + [m], (at + [|ms| + 1])[j], (at + [|ms| + 1])[j + 1])
    {
      if j < |inputs| {
        assert Comes(inputs[j], states, ms, at[j], at[j + 1]);
      }
    }
  }

  lemma InputPassed(inputs: seq<Input>, states: seq<Life>, ms: seq<Move>, at: seq<nat>, i: Input)
    requires ComesFrom(inputs, states, ms, at)
    requires states[|ms|].freed || !Registered(states[|ms|].hooks, i.call)
    ensures ComesFrom(inputs + [i], states, ms, at + [|ms|])
  {
    hide Registered, Realizes;
    forall j | 0 <= j < |inputs + [i]|
      ensures Comes((inputs + [i])[j], states, ms, (at + [|ms|])[j], (at + [|ms|])[j + 1])
    {
      if j < |inputs| {
        assert Comes(inputs[j], states, ms, at[j], at[j + 1]);
      }
    }
  }

  lemma RunStarts(c: Conn, p: Cfg, pcb: Pcb)
    requires Installed(c, p, pcb)
    ensures var s := LifeOf(c, pcb); IsRun([s], SetupOf(p), []) && ComesFrom([], [s], [], [0])
  {
    InstalledIsBorn(c, p, pcb);
  }

  /** No data callback once closing has started, and one end: told if anybody asked, then freed, then nothing. */
  ghost predicate Orderly(t: seq<Event>, freed: bool, hasDisconCb: bool) {
    && (forall a, b :: 0 <= a < b < |t| && t[a] == CloseStarted ==> t[b] != RecvCb && t[b] != SentCb)
    && forall a :: 0 <= a < |t| ==>
         (t[a] == Freed <==> freed && a == |t| - 1) && (t[a] == DisconCb <==> hasDisconCb && freed && a == |t| - 2)
  }

  lemma RunIsOrderly(states: seq<Life>, u: Setup, ms: seq<Move>, k: nat)
    requires IsRun(states, u, ms) && k <= |ms|
    ensures Orderly(states[k].trace, states[k].freed, u.hasDisconCb)
  {
    hide IsRun;
    assert |states| == |ms| + 1 by {
      RunLength(states, u, ms);
    }
    var t := states[k].trace;
    forall a, b | 0 <= a < b < |t| && t[a] == CloseStarted
      ensures t[b] != RecvCb && t[b] != SentCb
    {
      RunStopsCallbacks(states, u, ms, k, a, b);
    }
    forall a | 0 <= a < |t|
      ensures (t[a] == Freed <==> states[k].freed && a == |t| - 1)
      ensures (t[a] == DisconCb <==> u.hasDisconCb && states[k].freed && a == |t| - 2)
    {
      RunEndsOnce(states, u, ms, k, a);
    }
  }

  lemma FreedIsClosed(states: seq<Life>, u: Setup, ms: seq<Move>)
    requires IsRun(states, u, ms)
    ensures |states| == |ms| + 1 && (states[|ms|].freed <==> states[|ms|].state == StClosed)
  {
    RunKeeps(states, u, ms, |ms|);
  }

  lemma RunLength(states: seq<Life>, u: Setup, ms: seq<Move>)
    requires IsRun(states, u, ms)
    ensures |states| == |ms| + 1
  {
  }

  /** What tcpsrv_server_accept leaves behind is ready for the callbacks. */
  lemma AcceptedIsReady(srv: Server, c: Conn, p: Cfg, pcb: Pcb)
    requires srv.Chained() && p in srv.cfgs && pcb in srv.pool && p.Valid() && c in p.conns
    requires Installed(c, p, pcb) && SamePeer(pcb, c)
    ensures Ready(srv, c, pcb)
  {
  }

  /**
    A connection that accept has installed, under any inputs: lwIP calls what is registered. What becomes of it is the
    last state of a run of the steps.
  */
  method Drive(srv: Server, c: Conn, pcb: Pcb, inputs: seq<Input>)
      returns (ghost states: seq<Life>, ghost ms: seq<Move>, ghost at: seq<nat>)
    requires Ready(srv, c, pcb) && Installed(c, c.pcfg, pcb)
    modifies c`state, c`recvCheck, c`flag, c`unrecved, c`pbufo, c`pbufi, c`sizei, c`cntri, c`trace, c.pbufi
    modifies c`pcb, c`freed, c`next, c.pcfg`connLinks, c.pcfg`connCount, c.pcfg`conns, c.pcfg.conns`next
    modifies pcb`state, srv.pool`hooks, srv.pool`credited
    ensures IsRun(states, SetupOf(c.pcfg), ms) && ComesFrom(inputs, states, ms, at) && states[|ms|] == LifeOf(c, pcb)
    ensures Orderly(c.trace, c.freed, c.pcfg.hasDisconCb)
    ensures c.pcfg.Valid() && (c.freed || Ready(srv, c, pcb))
    ensures c.pcfg.conns == if c.freed then Without(old(c.pcfg.conns), c) else old(c.pcfg.conns)
  {
    hide Cfg.Valid, Without, Step, Enabled, IsRun, ComesFrom, Installed, Registered, Realizes, Orderly, SamePeer, InBounds, Server.PcbsKnown;
    hide LifeInv;
    ghost var u := SetupOf(c.pcfg);
    RunStarts(c, c.pcfg, pcb);
    ghost var p, was, buf := c.pcfg, c.pcfg.conns, c.pbufi;
    states, ms, at := [LifeOf(c, pcb)], [], [0];
    for k := 0 to |inputs|
      invariant c.pcfg == p && u == SetupOf(p)
      invariant |states| == |ms| + 1 && states[|ms|] == LifeOf(c, pcb)
      invariant IsRun(states, u, ms) && ComesFrom(inputs[..k], states, ms, at)
      invariant p.Valid() && (c.freed || Ready(srv, c, pcb))
      invariant p.conns == if c.freed then Without(was, c) else was
      invariant c.pbufi == null || c.pbufi == buf || fresh(c.pbufi)
    {
      FreedIsClosed(states, u, ms);
      if Registered(pcb.hooks, inputs[k].call) && c.state != StClosed {
        ghost var m := Fire(srv, c, pcb, inputs[k]);
        InputTaken(inputs[..k], states, ms, at, inputs[k], m, LifeOf(c, pcb));
        RunExtends(states, u, ms, m);
        at := at + [|ms| + 1];
        states, ms := states + [LifeOf(c, pcb)], ms + [m];
      } else {
        InputPassed(inputs[..k], states, ms, at, inputs[k]);
        at := at + [|ms|];
      }
      assert inputs[..k + 1] == inputs[..k] + [inputs[k]];
    }
    assert inputs[..|inputs|] == inputs;
    RunIsOrderly(states, u, ms, |ms|);
  }

  // ---------------------------------------------------------------- from deliveries to a flow

  /** The application processes up to `n` more bytes outside its callback. */
  method Consume(c: Conn, n: nat)
    requires InBounds(c)
    modifies c`cntri
    ensures forall f: Flow :: f.rx == old(RxOf(c)) ==> RxOf(c) == FlowStep(f, MConsume(n)).rx
  {
    if c.pbufi != null && c.cntri < c.sizei {
      c.cntri := c.cntri + Min(n, c.sizei - c.cntri);
    }
  }

  /** The window's part of a move of the flow: a delivery that is taken counts, nothing else does. */
  function WindowMove(f: Flow, m: RxMove, attached: bool): seq<WinMove> {
    if m.MDeliver? && m.data != [] && Deliver(f.rx, m.data, m.a).taken then [WDeliver(|m.data|, Buffered, m.a.restore, attached)]
    else []
  }

  function WindowMoves(ms: seq<RxMove>, attached: bool): seq<WinMove>
    decreases |ms|
  {
    if ms == [] then []
    else
      var init := ms[..|ms| - 1];
      WindowMoves(init, attached) + WindowMove(FlowRun(Fresh(), init), ms[|ms| - 1], attached)
  }

  /** No move of the window, or one. */
  function WinSteps(w: Win, moved: seq<WinMove>): Win
    requires |moved| <= 1
  {
    if moved == [] then w else WinStep(w, moved[0])
  }

  lemma WinRunMoves(ws: seq<WinMove>, moved: seq<WinMove>)
    requires |moved| <= 1
    ensures WinRun(ws + moved) == WinSteps(WinRun(ws), moved)
  {
    if moved == [] {
      assert ws + moved == ws;
    } else {
      assert moved == [moved[0]];
      WinRunEnds(ws, moved[0]);
    }
  }

  /** The flow and the window one move further. */
  lemma RunsEnd(ms: seq<RxMove>, k: nat, attached: bool)
    requires k < |ms|
    ensures var f := FlowRun(Fresh(), ms[..k]);
            && FlowRun(Fresh(), ms[..k + 1]) == FlowStep(f, ms[k])
            && WinRun(WindowMoves(ms[..k + 1], attached)) == WinSteps(WinRun(WindowMoves(ms[..k], attached)), WindowMove(f, ms[k], attached))
  {
    hide FlowStep, WinRun, WinStep, WinSteps, WindowMove;
    assert ms[..k + 1][..k] == ms[..k];
    OneAtMost(FlowRun(Fresh(), ms[..k]), ms[k], attached);
    WinRunMoves(WindowMoves(ms[..k], attached), WindowMove(FlowRun(Fresh(), ms[..k]), ms[k], attached));
  }

  lemma OneAtMost(f: Flow, m: RxMove, attached: bool)
    ensures |WindowMove(f, m, attached)| <= 1
  {
  }

  lemma RunsStart(attached: bool)
    ensures FlowRun(Fresh(), []) == Fresh() && WindowMoves([], attached) == [] && WinRun([]) == Win(0, 0, 0, 0)
  {
  }

  lemma StepCounts(f: Flow, w: Win, m: RxMove, attached: bool)
    requires w.delivered == |f.delivered|
    ensures WinSteps(w, WindowMove(f, m, attached)).delivered == |FlowStep(f, m).delivered|
  {
    hide Deliver, Window;
  }

  lemma {:induction false} SameDelivered(ms: seq<RxMove>, attached: bool)
    ensures WinRun(WindowMoves(ms, attached)).delivered == |FlowRun(Fresh(), ms).delivered|
    decreases |ms|
  {
    RunsStart(attached);
    if ms != [] {
      hide FlowRun, WinRun, WindowMoves, FlowStep, WinSteps, WindowMove;
      var init := ms[..|ms| - 1];
      assert ms[..|ms|] == ms;
      SameDelivered(init, attached);
      RunsEnd(ms, |ms| - 1, attached);
      StepCounts(FlowRun(Fresh(), init), WinRun(WindowMoves(init, attached)), ms[|ms| - 1], attached);
    }
  }

  /**
    In every run of a connection that buffers, the window answers for every byte of the flow: what is consumed, unread or
    lost is credited, owed or forgotten, short of 65536 each time the counter came round.
  */
  lemma WindowAnswersForFlow(ms: seq<RxMove>, attached: bool)
    ensures var f, ws := FlowRun(Fresh(), ms), WindowMoves(ms, attached);
            var w := WinRun(ws);
            |f.consumed| + |f.rx.unread| + f.lost == w.credited + w.unrecved + w.forgone + 0x1_0000 * RoundTrips(ws)
  {
    hide FlowRun, WinRun, WindowMoves, RoundTrips;
    SameDelivered(ms, attached);
    WindowModulo(WindowMoves(ms, attached));
    RunConservesStream(ms);
  }

  /** Both steps, in the terms of one delivery. */
  lemma DeliverySteps(f: Flow, w: Win, data: Bytes, a: Answers, attached: bool)
    ensures var m, d := MDeliver(data, a), Deliver(f.rx, data, a);
            var next := WinSteps(w, WindowMove(f, m, attached));
            var x := if data != [] && d.taken then Window(w.unrecved, |data|, Buffered, a.restore, attached) else Credit(0, w.unrecved, 0);
            && FlowStep(f, m).rx == (if data == [] then f.rx else d.rx)
            && next.unrecved == x.unrecved && next.credited - w.credited == x.credited
  {
    hide Deliver, Window;
  }

  /** A delivery to a connection that buffers. */
  method DeliverOne(srv: Server, c: Conn, pcb: Pcb, data: Bytes, a: Answers, ghost f: Flow, ghost w: Win)
    requires Ready(srv, c, pcb) && ModeOf(c) == Buffered && RxOf(c) == f.rx && c.unrecved == w.unrecved
    modifies c`state, c`recvCheck, c`flag, c`unrecved, c`pbufo, c`pbufi, c`sizei, c`cntri, c`trace, pcb`hooks, pcb`credited
    modifies c`pcb, c`freed, c`next, c.pcfg`connLinks, c.pcfg`connCount, c.pcfg`conns, c.pcfg.conns`next, c.pbufi
    ensures Ready(srv, c, pcb) && ModeOf(c) == Buffered && c.pcfg.conns == old(c.pcfg.conns) && c.pcb == old(c.pcb)
    ensures c.pbufi == null || c.pbufi == old(c.pbufi) || fresh(c.pbufi)
    ensures RxOf(c) == FlowStep(f, MDeliver(data, a)).rx
    ensures var next := WinSteps(w, WindowMove(f, MDeliver(data, a), c.pcb == pcb));
            c.unrecved == next.unrecved && pcb.credited - old(pcb.credited) == next.credited - w.credited
  {
    hide Cfg.Valid, Without, CloseStep, Deliver, Window, BufOk, SamePeer, Server.PcbsKnown, RxOf, FlowStep, WinSteps, WindowMove;
    DeliverySteps(f, w, data, a, c.pcb == pcb);
    var _, _ := ServerRecv(srv, c, pcb, Pbuf(data), ErrOk, a, true);
  }

  /**
    A connection that buffers, under any deliveries and any processing by the application: its buffer is what the run of
    the flow leaves, and its window is what the run of the window leaves.
  */
  method Stream(srv: Server, c: Conn, pcb: Pcb, ms: seq<RxMove>)
    requires Ready(srv, c, pcb) && ModeOf(c) == Buffered && RxOf(c) == Rx([], 0) && c.unrecved == 0
    modifies c`state, c`recvCheck, c`flag, c`unrecved, c`pbufo, c`pbufi, c`sizei, c`cntri, c`trace, pcb`hooks, pcb`credited
    modifies c`pcb, c`freed, c`next, c.pcfg`connLinks, c.pcfg`connCount, c.pcfg`conns, c.pcfg.conns`next, c.pbufi
    ensures Ready(srv, c, pcb) && ModeOf(c) == Buffered && c.pcb == old(c.pcb)
    ensures RxOf(c) == FlowRun(Fresh(), ms).rx
    ensures var w := WinRun(WindowMoves(ms, c.pcb == pcb));
            c.unrecved == w.unrecved && pcb.credited == old(pcb.credited) + w.credited
  {
    hide Cfg.Valid, RxOf, FlowStep, FlowRun, WinStep, WinSteps, WinRun, WindowMoves, SamePeer, InBounds, Server.PcbsKnown;
    ghost var p, was, buf, start, attached := c.pcfg, c.pcfg.conns, c.pbufi, pcb.credited, c.pcb == pcb;
    RunsStart(attached);
    assert ms[..0] == [];
    for k := 0 to |ms|
      invariant c.pcfg == p && p.conns == was && (c.pbufi == null || c.pbufi == buf || fresh(c.pbufi))
      invariant Ready(srv, c, pcb) && ModeOf(c) == Buffered && c.pcb == old(c.pcb)
      invariant RxOf(c) == FlowRun(Fresh(), ms[..k]).rx
      invariant var w := WinRun(WindowMoves(ms[..k], attached));
                c.unrecved == w.unrecved && pcb.credited == start + w.credited
    {
      ghost var f, w := FlowRun(Fresh(), ms[..k]), WinRun(WindowMoves(ms[..k], attached));
      RunsEnd(ms, k, attached);
      match ms[k]
      case MConsume(n) =>
        Consume(c, n);
        assert WindowMove(f, ms[k], attached) == [];
        NoneMoved(w);
      case MDeliver(data, a) => DeliverOne(srv, c, pcb, data, a, f, w);
    }
    assert ms[..|ms|] == ms;
  }

  lemma NoneMoved(w: Win)
    ensures WinSteps(w, []) == w
  {
  }
}
