/**
  The structures of the TCP server layer: the connection (TCP_SERV_CONN), the
  server configuration (TCP_SERV_CFG), the part of an lwIP protocol control
  block the layer touches, and the global server state.

  Memory that C frees stays allocated in Dafny, so freeing is made visible: a
  freed connection has `freed` set, and every operation that touches a
  connection requires it not to be.
*/
module TcpTypes {

  type byte = x: int | 0 <= x < 0x100

  type u16 = x: int | 0 <= x < 0x1_0000

  /** Receive window advertised to the peer: whatever the configuration of lwIP says, as long as it fits 16 bits. */
  const TCP_WND: u16

  /** Control blocks in TIME_WAIT that the layer lets lwIP keep. */
  const MAX_TIME_WAIT_PCB: nat := 10

  datatype Err = ErrOk | ErrMem | ErrArg | ErrConn | ErrAbrt | ErrOther(code: int)

  /** srvconn_state */
  datatype ConnState = StNone | StCloseWait | StListen | StConnect | StClosed

  /** The lwIP states the layer distinguishes. */
  datatype PcbState = PcbClosed | PcbEstablished | PcbTimeWait | PcbOther

  /** Which of this layer's callbacks lwIP holds for a protocol control block. */
  datatype Hooks = Hooks(arg: bool, recv: bool, sent: bool, poll: bool, err: bool)

  datatype Flags = Flags(srvReopen: bool, pcbTimeWaitFree: bool, rxBuf: bool, rxNull: bool, txNull: bool, waitSent: bool, busyBufi: bool)

  /** What the application and the allocator see of one connection, in order. */
  datatype Event = Accepted | RecvCb | SentCb | CloseStarted | DisconCb | Freed

  class Pcb {
    var state: PcbState
    var localPort: u16
    var remotePort: u16
    var remoteIp: int
    var hooks: Hooks
    /** Bytes handed back to the receive window by tcp_recved so far. */
    ghost var credited: nat
  }

  class Conn {
    var flag: Flags
    var state: ConnState
    var pcfg: Cfg?
    var recvCheck: u16
    var remotePort: u16
    var remoteIp: int
    var next: Conn?
    var pcb: Pcb?
    var pbufo: array?<byte>
    var pbufi: array?<byte>
    var sizei: u16
    var cntri: u16
    var unrecved: u16
    ghost var trace: seq<Event>
    ghost var freed: bool

    /** os_zalloc followed by the initialisation in tcpsrv_server_accept. */
    constructor (p: Cfg, pcb: Pcb)
      ensures flag == p.flag && state == StListen && pcfg == p && recvCheck == 0
      ensures remotePort == pcb.remotePort && remoteIp == pcb.remoteIp && this.pcb == pcb
      ensures next == p.connLinks
      ensures pbufo == null && pbufi == null && sizei == 0 && cntri == 0 && unrecved == 0
      ensures trace == [Accepted] && !freed
    {
      flag, state, pcfg, recvCheck := p.flag, StListen, p, 0;
      remotePort, remoteIp, this.pcb := pcb.remotePort, pcb.remoteIp, pcb;
      next := p.connLinks;
      pbufo, pbufi, sizei, cntri, unrecved := null, null, 0, 0, 0;
      trace, freed := [Accepted], false;
    }
  }

  class Cfg {
    var flag: Flags
    var port: u16
    var minHeap: nat
    var maxConn: byte
    var connCount: byte
    var timeWaitRec: byte
    var timeWaitCls: byte
    var connLinks: Conn?
    var listening: bool
    var hasDisconCb: bool
    var hasSentCb: bool
    var hasRecv: bool
    var next: Cfg?
    ghost var conns: seq<Conn>
    ghost var freed: bool

    /**
      The connection list: `connLinks` and the `next` fields spell out `conns`,
      which has no duplicates; every node points back here, is not freed, and
      the 8-bit counter is the length of the list.
    */
    ghost predicate Valid()
      reads `connLinks, `connCount, `conns, conns`next, conns`pcfg, conns`freed
    {
      && connCount == |conns|
      && connLinks == NodeAt(conns, 0)
      && Distinct(conns)
      && (forall i {:trigger conns[i].next} :: 0 <= i < |conns| ==> conns[i].next == NodeAt(conns, i + 1))
      && (forall i :: 0 <= i < |conns| ==> conns[i].pcfg == this && !conns[i].freed)
    }
  }

  /** The layer's globals and the lwIP lists it walks. */
  class Server {
    var phcfg: Cfg?
    var activePcbs: seq<Pcb>
    var twPcbs: seq<Pcb>
    ghost var cfgs: seq<Cfg>
    /** Every control block lwIP may hand out. */
    ghost var pool: set<Pcb>

    /** `phcfg` and the `next` fields spell out the started servers, without duplicates. */
    ghost predicate Chained()
      reads `activePcbs, `twPcbs, `pool, `phcfg, `cfgs, cfgs`next
    {
      PcbsKnown() && CfgsLinked()
    }

    ghost predicate CfgsLinked()
      reads `phcfg, `cfgs, cfgs`next
    {
      && phcfg == CfgAt(cfgs, 0)
      && Distinct(cfgs)
      && (forall i {:trigger cfgs[i].next} :: 0 <= i < |cfgs| ==> cfgs[i].next == CfgAt(cfgs, i + 1))
    }

    ghost predicate PcbsKnown()
      reads `activePcbs, `twPcbs, `pool
    {
      && (forall b :: b in activePcbs ==> b in pool)
      && (forall b :: b in twPcbs ==> b in pool)
    }
  }

  ghost predicate Distinct<T>(s: seq<T>) {
    forall i, j :: 0 <= i < j < |s| ==> s[i] != s[j]
  }

  ghost function NodeAt(s: seq<Conn>, i: nat): Conn? {
    if i < |s| then s[i] else null
  }

  ghost function CfgAt(s: seq<Cfg>, i: nat): Cfg? {
    if i < |s| then s[i] else null
  }

  /** `s` without `x`, the rest in the same order. */
  ghost function Without<T>(s: seq<T>, x: T): seq<T> {
    if s == [] then [] else if s[0] == x then s[1..] else [s[0]] + Without(s[1..], x)
  }

  /** In a list without duplicates, taking `s[k]` out leaves everything else where it was. */
  lemma {:induction false} WithoutAt<T>(s: seq<T>, k: nat)
    requires k < |s| && Distinct(s)
    ensures Without(s, s[k]) == s[..k] + s[k + 1..]
  {
    if k > 0 {
      WithoutAt(s[1..], k - 1);
      assert s[1..][..k - 1] == s[1..k] && s[..k] == [s[0]] + s[1..k];
      assert s[1..][k..] == s[k + 1..];
    }
  }

  /** What is left when index `k` is taken out: the others, in their order. */
  lemma TakenOut<T>(s: seq<T>, k: nat)
    requires k < |s| && Distinct(s)
    ensures var t := s[..k] + s[k + 1..];
            && |t| == |s| - 1 && Distinct(t) && s[k] !in t
            && forall i :: 0 <= i < |t| ==> t[i] == if i < k then s[i] else s[i + 1]
  {
  }

  lemma {:induction false} WithoutAbsent<T>(s: seq<T>, x: T)
    requires x !in s
    ensures Without(s, x) == s
  {
    if s != [] {
      WithoutAbsent(s[1..], x);
    }
  }
}
