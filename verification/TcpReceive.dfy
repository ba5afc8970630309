/**
  Reception: the buffer that grows, shrinks and is compacted in place
  (recv_trim_bufi), the callback that fills it (tcpsrv_server_recv), and the
  manual TCP window.

  The allocator and the application are the environment. A failed allocation, a
  failed reallocation, how far the application says it has got (`cntri`, any
  16-bit value) and whether it opens the window are choices passed in.
*/
module TcpReceive {
  import opened TcpTypes
  import opened TcpRegistry
  import opened TcpLifecycle

  type Bytes = s: seq<byte> | |s| < 0x1_0000

  // ---------------------------------------------------------------- specification

  /** The unread bytes of a buffer, and how many processed ones still stand before them. */
  datatype Rx = Rx(unread: Bytes, behind: u16)

  /** What one delivery does: taken over or left with lwIP; what was consumed, what is unread, what got lost. */
  datatype Delivery = Delivery(taken: bool, shown: Bytes, consumed: Bytes, rx: Rx, lost: seq<byte>)

  /** What the environment will answer during one delivery. */
  datatype Answers = Answers(mallocOk: bool, growOk: bool, cntri: u16, restore: bool, err: Err, shrinkOk: bool)

  function Min(a: int, b: int): int {
    if a < b then a else b
  }

  /** The processed part alone makes room: the unread part is moved down and, unless it fits exactly, reallocated. */
  predicate Compacts(s: Rx, n: nat) {
    s.unread != [] && s.behind >= n
  }

  /** How the search for room ends: found, refused with the unread bytes in place, or refused with them gone. */
  datatype Room = Found | RefusedIntact | RefusedLost

  function MakeRoom(s: Rx, n: nat, mallocOk: bool, growOk: bool): Room {
    if Compacts(s, n) then
      if s.behind > n && !growOk then RefusedLost else Found
    else
      if mallocOk then Found else RefusedIntact
  }

  /** One delivery of `data` in the buffered mode. */
  function Deliver(s: Rx, data: Bytes, a: Answers): Delivery {
    match MakeRoom(s, |data|, a.mallocOk, a.growOk)
    case RefusedLost => Delivery(false, [], [], Rx([], 0), s.unread)
    case RefusedIntact => Delivery(false, [], [], s, [])
    case Found =>
      var total := s.unread + data;
      var size := |total| % 0x1_0000;
      var took := Min(a.cntri, size);
      if 0 < took < size && !a.shrinkOk then Delivery(true, total[..size], total[..took], Rx([], 0), total[took..])
      else Delivery(true, total[..size], total[..took], Rx(total[took..size], 0), total[size..])
  }

  /** No byte is lost in this delivery: no reallocation that was needed failed, and the sum fits 16 bits. */
  predicate Lossless(s: Rx, data: Bytes, a: Answers) {
    match MakeRoom(s, |data|, a.mallocOk, a.growOk)
    case RefusedLost => false
    case RefusedIntact => true
    case Found => |s.unread| + |data| < 0x1_0000 && (0 < a.cntri < |s.unread| + |data| ==> a.shrinkOk)
  }

  /** Nothing appears, nothing is reordered: consumed, then unread, then lost, is what there was and what came. */
  lemma DeliveryConserves(s: Rx, data: Bytes, a: Answers)
    ensures var d := Deliver(s, data, a);
            && (d.taken ==> d.consumed + d.rx.unread + d.lost == s.unread + data)
            && (!d.taken ==> d.consumed == [] && d.rx.unread + d.lost == s.unread)
            && (d.lost == [] <==> Lossless(s, data, a))
  {
    var total := s.unread + data;
    var size := |total| % 0x1_0000;
    var took := Min(a.cntri, size);
    assert total[..took] + total[took..size] + total[size..] == total;
    assert total[..took] + [] + total[took..] == total;
  }

  /** How one delivery moves the window: what is credited, what stays owed, and what is forgotten without credit. */
  datatype Credit = Credit(credited: nat, unrecved: u16, forgone: nat)

  datatype Mode = ToNull | Direct | Buffered

  /** An explicit restore: what is owed is credited, or forgotten when the connection has lost its control block. */
  function Restore(u: u16, attached: bool): Credit {
    if attached then Credit(u, 0, 0) else Credit(0, 0, u)
  }

  function Window(u: u16, n: u16, mode: Mode, restore: bool, attached: bool): Credit {
    match mode
    case ToNull => Credit((n + u) % 0x1_0000, 0, 0)
    case Direct =>
      if restore then Credit(n + Restore(u, attached).credited, 0, Restore(u, attached).forgone) else Credit(n, u, 0)
    case Buffered =>
      var v: u16 := (u + n) % 0x1_0000;
      if restore then Restore(v, attached) else Credit(0, v, 0)
  }

  /** The delivery does not take the 16-bit counter of owed bytes round. */
  predicate Fits(u: u16, n: u16, mode: Mode) {
    mode != Direct ==> u + n < 0x1_0000
  }

  /** Bytes delivered are credited, still owed or forgotten, exactly unless the 16-bit counter comes round. */
  lemma WindowConserves(u: u16, n: u16, mode: Mode, restore: bool, attached: bool)
    ensures var w := Window(u, n, mode, restore, attached);
            w.credited + w.unrecved + w.forgone == u + n - (if Fits(u, n, mode) then 0 else 0x1_0000)
  {
  }

  // ---------------------------------------------------------------- concrete buffer

  /** The buffer is NUL-terminated within its allocation. */
  ghost predicate BufOk(c: Conn)
    reads c`pbufi, c`sizei, c.pbufi
  {
    c.pbufi != null ==> c.sizei < c.pbufi.Length && c.pbufi[c.sizei] == 0
  }

  ghost predicate InBounds(c: Conn)
    reads c`pbufi, c`sizei
  {
    c.pbufi != null ==> c.sizei < c.pbufi.Length
  }

  ghost function RxOf(c: Conn): Rx
    reads c`pbufi, c`sizei, c`cntri, c.pbufi
    requires InBounds(c)
  {
    if c.pbufi == null || c.cntri >= c.sizei then Rx([], 0) else Rx(c.pbufi[c.cntri..c.sizei], c.cntri)
  }

  /** os_memcpy towards the start of the same buffer, in ascending order. */
  method CopyDown(a: array<byte>, from: nat, len: nat)
    requires from + len <= a.Length
    modifies a
    ensures a[..len] == old(a[from..from + len])
    ensures forall k :: len <= k < a.Length ==> a[k] == old(a[k])
  {
    for i := 0 to len
      invariant forall k :: 0 <= k < i ==> a[k] == old(a[from + k])
      invariant forall k :: i <= k < a.Length ==> a[k] == old(a[k])
    {
      a[i] := a[from + i];
    }
  }

  /** os_memcpy between buffers, and pbuf_copy_partial. */
  method CopyTo(dst: array<byte>, at: nat, src: seq<byte>)
    requires at + |src| <= dst.Length
    modifies dst
    ensures dst[at..at + |src|] == src
    ensures forall k :: 0 <= k < at || at + |src| <= k < dst.Length ==> dst[k] == old(dst[k])
  {
    for i := 0 to |src|
      invariant forall k :: 0 <= k < i ==> dst[at + k] == src[k]
      invariant forall k :: 0 <= k < at || at + i <= k < dst.Length ==> dst[k] == old(dst[k])
    {
      dst[at + i] := src[i];
    }
  }

  method Malloc(n: nat, ok: bool) returns (r: array?<byte>)
    ensures if ok then r != null && fresh(r) && r.Length == n else r == null
  {
    if ok {
      r := new byte[n];
    } else {
      r := null;
    }
  }

  /** os_realloc to a smaller block. */
  method Shrink(a: array<byte>, n: nat, ok: bool) returns (r: array?<byte>)
    requires n <= a.Length
    ensures if ok then r != null && fresh(r) && r.Length == n && r[..] == a[..n] else r == null
  {
    r := Malloc(n, ok);
    if r != null {
      CopyTo(r, 0, a[..n]);
    }
  }

  /** What a successful recv_trim_bufi leaves for the bytes to come: room for them, and the NUL behind them. */
  ghost predicate Roomy(c: Conn, keep: Bytes, newadd: nat, terminated: bool)
    reads c, c.pbufi
  {
    && c.pbufi != null && c.sizei + newadd < c.pbufi.Length && c.cntri == 0 && c.pbufi[..c.sizei] == keep
    && (terminated ==> c.pbufi[c.sizei + newadd] == 0)
  }

  /** recv_trim_bufi, when the processed part is room enough (360-381). */
  method Compact(c: Conn, newadd: nat, growOk: bool) returns (err: Err)
    requires InBounds(c) && c.pbufi != null && c.cntri < c.sizei && 0 < newadd <= c.cntri
    modifies c`flag, c`pbufi, c`sizei, c`cntri, c.pbufi
    ensures c.flag == if err == ErrOk then old(c.flag).(busyBufi := false) else old(c.flag)
    ensures c.pbufi == null || c.pbufi == old(c.pbufi) || fresh(c.pbufi)
    ensures err == if old(c.cntri) > newadd && !growOk then ErrMem else ErrOk
    ensures if err == ErrOk then Roomy(c, old(RxOf(c)).unread, newadd, old(BufOk(c))) else c.pbufi == null
  {
    var len := c.sizei - c.cntri;
    CopyDown(c.pbufi, c.cntri, len);
    c.sizei := len;
    if c.cntri != newadd {
      len := len + newadd;
      c.pbufi := Shrink(c.pbufi, len + 1, growOk);
      if c.pbufi == null {
        return ErrMem;
      }
    }
    c.pbufi[len] := 0;
    c.cntri := 0;
    c.flag := c.flag.(busyBufi := false);
    return ErrOk;
  }

  /** recv_trim_bufi, when a new buffer is needed (390-408, 434-436). */
  method Replace(c: Conn, len: nat, newadd: nat, mallocOk: bool) returns (err: Err)
    requires InBounds(c) && 0 < newadd
    requires if c.pbufi == null then len == 0 else c.cntri < c.sizei && len == c.sizei - c.cntri
    modifies c`flag, c`pbufi, c`sizei, c`cntri
    ensures c.flag == old(c.flag).(busyBufi := false)
    ensures if !mallocOk then err == ErrMem && c.pbufi == old(c.pbufi) && c.sizei == old(c.sizei) && c.cntri == old(c.cntri)
            else err == ErrOk && fresh(c.pbufi) && Roomy(c, old(RxOf(c)).unread, newadd, true)
  {
    var newbufi := Malloc(len + newadd + 1, mallocOk);
    if newbufi == null {
      c.flag := c.flag.(busyBufi := false);
      return ErrMem;
    }
    newbufi[len + newadd] := 0;
    if len != 0 {
      CopyTo(newbufi, 0, c.pbufi[c.cntri..c.cntri + len]);
    }
    c.pbufi := newbufi;
    c.sizei := len;
    c.cntri := 0;
    c.flag := c.flag.(busyBufi := false);
    return ErrOk;
  }

  /** recv_trim_bufi when data is about to be added. */
  method Grow(c: Conn, newadd: nat, mallocOk: bool, growOk: bool) returns (err: Err)
    requires InBounds(c) && 0 < newadd < 0x1_0000
    modifies c`flag, c`pbufi, c`sizei, c`cntri, c.pbufi
    ensures c.flag == old(c.flag).(busyBufi := c.flag.busyBufi) && (c.pbufi == null || c.pbufi == old(c.pbufi) || fresh(c.pbufi))
    ensures err == ErrOk || err == ErrMem
    // With room enough behind the unread bytes only a shrinking can fail, and leaves the buffer busy; otherwise only a new buffer can.
    ensures if old(c.pbufi != null && c.flag.rxBuf && c.cntri < c.sizei && c.cntri >= newadd)
            then (err == ErrOk <==> old(c.cntri) == newadd || growOk) && (c.flag.busyBufi <==> err != ErrOk)
            else (err == ErrOk <==> mallocOk) && !c.flag.busyBufi
    ensures err == ErrOk ==> Roomy(c, if c.flag.rxBuf then old(RxOf(c)).unread else [], newadd, old(BufOk(c)))
    ensures c.flag.rxBuf ==>
              var room := MakeRoom(old(RxOf(c)), newadd, mallocOk, growOk);
              && (err == ErrOk <==> room == Found)
              && (room == RefusedLost ==> c.pbufi == null)
              && (room == RefusedIntact ==> InBounds(c) && RxOf(c) == old(RxOf(c)) && (old(BufOk(c)) ==> BufOk(c)))
    ensures !c.flag.rxBuf ==> (err == ErrMem <==> !mallocOk) && (err == ErrMem ==> c.pbufi == null)
  {
    var len := 0;
    c.flag := c.flag.(busyBufi := true);
    if c.pbufi != null {
      if c.flag.rxBuf && c.cntri < c.sizei {
        len := c.sizei - c.cntri;
        if c.cntri >= newadd {
          err := Compact(c, newadd, growOk);
          return;
        }
      } else {
        c.pbufi := null;
      }
    }
    err := Replace(c, len, newadd, mallocOk);
  }

  /** recv_trim_bufi, giving back the processed part (420-431). */
  method DropProcessed(c: Conn, shrinkOk: bool) returns (err: Err)
    requires InBounds(c) && c.pbufi != null && 0 < c.cntri < c.sizei
    modifies c`pbufi, c`sizei, c.pbufi
    ensures err == if shrinkOk then ErrOk else ErrMem
    ensures if shrinkOk then fresh(c.pbufi) && c.sizei == |old(RxOf(c)).unread| && c.pbufi[..] == old(RxOf(c)).unread + [0]
            else c.pbufi == null
  {
    var len := c.sizei - c.cntri;
    CopyDown(c.pbufi, c.cntri, len);
    c.sizei := len;
    c.pbufi := Shrink(c.pbufi, len + 1, shrinkOk);
    if c.pbufi == null {
      return ErrMem;
    }
    c.pbufi[len] := 0;
    return ErrOk;
  }

  /** The same for a buffer with unread bytes, whether or not any have been processed. */
  method KeepUnread(c: Conn, shrinkOk: bool) returns (err: Err)
    requires InBounds(c) && c.pbufi != null && c.cntri < c.sizei
    modifies c`pbufi, c`sizei, c`cntri, c.pbufi
    ensures c.pbufi == null || c.pbufi == old(c.pbufi) || fresh(c.pbufi)
    ensures if old(c.cntri) > 0 && !shrinkOk then err == ErrMem && c.pbufi == null
            else err == ErrOk && c.pbufi != null && InBounds(c) && RxOf(c) == Rx(old(RxOf(c)).unread, 0)
    ensures err == ErrOk && old(c.cntri) > 0 ==> c.pbufi.Length == c.sizei + 1 && BufOk(c)
    ensures err == ErrOk && old(c.cntri) == 0 && old(BufOk(c)) ==> BufOk(c)
  {
    err := ErrOk;
    if c.cntri != 0 {
      err := DropProcessed(c, shrinkOk);
      if err != ErrOk {
        return;
      }
    }
    c.cntri := 0;
  }

  /** recv_trim_bufi with nothing to add: give back what has been processed. */
  method Trim(c: Conn, shrinkOk: bool) returns (err: Err)
    requires InBounds(c) && (c.flag.rxBuf && c.cntri < c.sizei ==> c.pbufi != null)
    modifies c`flag, c`pbufi, c`sizei, c`cntri, c.pbufi
    ensures c.flag == old(c.flag).(busyBufi := false)
    ensures c.pbufi == null || c.pbufi == old(c.pbufi) || fresh(c.pbufi)
    ensures !c.flag.rxBuf || old(c.cntri) >= old(c.sizei) ==> err == ErrOk && c.pbufi == null && c.sizei == 0 && c.cntri == 0
    ensures c.flag.rxBuf && old(c.cntri) < old(c.sizei) ==>
              if old(c.cntri) > 0 && !shrinkOk then err == ErrMem && c.pbufi == null
              else err == ErrOk && c.pbufi != null && InBounds(c) && RxOf(c) == Rx(old(RxOf(c)).unread, 0)
                   && (old(c.cntri) > 0 ==> c.pbufi.Length == c.sizei + 1 && BufOk(c))
                   && (old(c.cntri) == 0 && old(BufOk(c)) ==> BufOk(c))
  {
    hide RxOf, BufOk, InBounds;
    c.flag := c.flag.(busyBufi := true);
    err := ErrOk;
    if !c.flag.rxBuf || c.cntri >= c.sizei {
      c.sizei := 0;
      if c.pbufi != null {
        c.pbufi := null;
      }
      c.cntri := 0;
    } else {
      err := KeepUnread(c, shrinkOk);
    }
    c.flag := c.flag.(busyBufi := false);
  }

  // ---------------------------------------------------------------- the callback

  /** tcpsrv_unrecved_win; `b` is any control block. Without one of its own, the connection forgets what it owes. */
  method UnrecvedWin(c: Conn, ghost b: Pcb)
    modifies c`unrecved, (if c.pcb == null then {} else {c.pcb})`credited
    ensures var w := Restore(old(c.unrecved), c.pcb == b);
            c.unrecved == w.unrecved && b.credited == old(b.credited) + w.credited
    ensures c.unrecved == 0 && b.credited == old(b.credited) + if c.pcb == b then old(c.unrecved) else 0
  {
    if c.unrecved != 0 {
      if c.pcb != null {
        c.pcb.credited := c.pcb.credited + c.unrecved;
      }
    }
    c.unrecved := 0;
  }

  /**
    The application's func_recv. It is promised the bytes `shown`, NUL-terminated
    unless a size has wrapped; it says how far it got and may open the window; it
    neither writes to the buffer nor closes the connection.
  */
  method FuncRecv(c: Conn, a: Answers, ghost shown: Bytes, ghost wrapped: bool, ghost b: Pcb) returns (err: Err)
    requires c.pbufi != null && c.sizei < c.pbufi.Length && c.pbufi[..c.sizei] == shown
    requires !wrapped ==> c.pbufi[c.sizei] == 0
    modifies c`cntri, c`unrecved, c`trace, (if c.pcb == null then {} else {c.pcb})`credited
    ensures c.cntri == a.cntri && err == a.err && c.trace == old(c.trace) + [RecvCb]
    ensures c.unrecved == if a.restore then 0 else old(c.unrecved)
    ensures b.credited == old(b.credited) + if a.restore && c.pcb == b then old(c.unrecved) else 0
  {
    c.trace := c.trace + [RecvCb];
    c.cntri := a.cntri;
    if a.restore {
      UnrecvedWin(c, b);
    }
    err := a.err;
  }

  /** How tcpsrv_server_recv treats a delivery. */
  ghost function ModeOf(c: Conn): Mode
    requires c.pcfg != null
    reads c, c.pcfg
  {
    if c.flag.rxNull || !c.pcfg.hasRecv || c.state == StCloseWait then ToNull else if c.flag.rxBuf then Buffered else Direct
  }

  /** One delivery in the unbuffered mode: the application sees the new data alone, once. */
  function DeliverDirect(data: Bytes, a: Answers): Delivery {
    if !a.mallocOk then Delivery(false, [], [], Rx([], 0), []) else Delivery(true, data, data, Rx([], 0), [])
  }

  /** The copy of a delivery behind the bytes kept; the 16-bit size can wrap. */
  method Fill(c: Conn, data: Bytes, ghost keep: Bytes, ghost sound: bool)
    requires Roomy(c, keep, |data|, sound)
    modifies c`sizei, c.pbufi
    ensures c.sizei == |keep + data| % 0x1_0000 && c.sizei < c.pbufi.Length
    ensures c.pbufi[..c.sizei] == (keep + data)[..c.sizei]
    ensures sound && |keep + data| < 0x1_0000 ==> c.pbufi[c.sizei] == 0
  {
    var at := c.sizei;
    assert at == |keep|;
    CopyTo(c.pbufi, at, data);
    assert c.pbufi[..at + |data|] == keep + data by {
      assert c.pbufi[..at] == keep;
      assert c.pbufi[..at + |data|] == c.pbufi[..at] + c.pbufi[at..at + |data|];
    }
    c.sizei := (at + |data|) % 0x1_0000;
    assert c.pbufi[..c.sizei] == c.pbufi[..at + |data|][..c.sizei];
  }

  /** Make room for a delivery and append it (473-477). */
  method Append(c: Conn, data: Bytes, a: Answers, ghost keep: Bytes) returns (err: Err)
    requires InBounds(c) && data != [] && keep == if c.flag.rxBuf then RxOf(c).unread else []
    modifies c`flag, c`pbufi, c`sizei, c`cntri, c.pbufi
    ensures c.flag == old(c.flag).(busyBufi := c.flag.busyBufi) && InBounds(c)
    ensures c.pbufi == null || c.pbufi == old(c.pbufi) || fresh(c.pbufi)
    ensures err == ErrOk || err == ErrMem
    ensures var room := if c.flag.rxBuf then MakeRoom(old(RxOf(c)), |data|, a.mallocOk, a.growOk)
                        else if a.mallocOk then Found else RefusedLost;
            && (err == ErrOk <==> room == Found)
            && (err == ErrMem ==> RxOf(c) == if room == RefusedIntact then old(RxOf(c)) else Rx([], 0))
    ensures err == ErrMem && old(BufOk(c)) ==> BufOk(c)
    ensures err == ErrOk ==>
              && c.pbufi != null && c.cntri == 0 && c.sizei == |keep + data| % 0x1_0000
              && c.pbufi[..c.sizei] == (keep + data)[..c.sizei]
              && (old(BufOk(c)) && |keep + data| < 0x1_0000 ==> c.pbufi[c.sizei] == 0)
  {
    err := Grow(c, |data|, a.mallocOk, a.growOk);
    if err != ErrOk {
      return;
    }
    Fill(c, data, keep, old(BufOk(c)));
  }

  /** Call the application on a filled buffer and give back what it has processed (486-488). */
  method HandOver(c: Conn, a: Answers, ghost total: seq<byte>, ghost wrapped: bool, ghost b: Pcb) returns (err: Err)
    requires c.pbufi != null && InBounds(c) && c.cntri == 0
    requires c.sizei == |total| % 0x1_0000 && c.pbufi[..c.sizei] == total[..c.sizei]
    requires !wrapped ==> c.pbufi[c.sizei] == 0
    modifies c`flag, c`pbufi, c`sizei, c`cntri, c`unrecved, c`trace, c.pbufi, (if c.pcb == null then {} else {c.pcb})`credited
    ensures c.flag == old(c.flag).(busyBufi := false) && InBounds(c)
    ensures c.pbufi == null || c.pbufi == old(c.pbufi) || fresh(c.pbufi)
    ensures c.trace == old(c.trace) + [RecvCb]
    ensures c.unrecved == if a.restore then 0 else old(c.unrecved)
    ensures b.credited == old(b.credited) + if a.restore && c.pcb == b then old(c.unrecved) else 0
    ensures !wrapped ==> BufOk(c)
    ensures var took := Min(a.cntri, old(c.sizei));
            RxOf(c) == if !c.flag.rxBuf || (0 < took < old(c.sizei) && !a.shrinkOk) then Rx([], 0)
                       else Rx(total[took..old(c.sizei)], 0)
    ensures err == if c.flag.rxBuf && 0 < a.cntri < old(c.sizei) && !a.shrinkOk then ErrMem else a.err
  {
    ghost var size := c.sizei;
    err := FuncRecv(c, a, total[..size], wrapped, b);
    assert c.cntri < c.sizei ==> c.pbufi[c.cntri..c.sizei] == total[c.cntri..size];
    var err2 := Trim(c, a.shrinkOk);
    if err2 != ErrOk {
      err := err2;
    }
  }

  /** The data part of tcpsrv_server_recv (472-489). */
  method RecvData(c: Conn, pcb: Pcb, data: Bytes, a: Answers) returns (err: Err, ghost d: Delivery)
    requires InBounds(c) && (c.pcb == null || c.pcb == pcb) && data != []
    modifies c`flag, c`pbufi, c`sizei, c`cntri, c`unrecved, c`trace, c.pbufi, pcb`credited
    ensures c.flag == old(c.flag).(busyBufi := c.flag.busyBufi) && InBounds(c)
    ensures c.pbufi == null || c.pbufi == old(c.pbufi) || fresh(c.pbufi)
    ensures d == if c.flag.rxBuf then Deliver(old(RxOf(c)), data, a) else DeliverDirect(data, a)
    ensures RxOf(c) == d.rx
    ensures c.trace == old(c.trace) + if d.taken then [RecvCb] else []
    ensures old(BufOk(c)) && |old(RxOf(c)).unread| + |data| < 0x1_0000 ==> BufOk(c)
    ensures d.taken ==> err == if c.flag.rxBuf && 0 < a.cntri < |d.shown| && !a.shrinkOk then ErrMem else a.err
    ensures !d.taken ==> err == ErrMem && c.unrecved == old(c.unrecved) && pcb.credited == old(pcb.credited)
    ensures d.taken ==> var w := Window(old(c.unrecved), |data|, if c.flag.rxBuf then Buffered else Direct, a.restore, c.pcb == pcb);
                        c.unrecved == w.unrecved && pcb.credited == old(pcb.credited) + w.credited
  {
    hide Window, Restore, MakeRoom, BufOk, Deliver, DeliverDirect, Min, RxOf;
    ghost var sound := BufOk(c);
    ghost var keep: Bytes := if c.flag.rxBuf then RxOf(c).unread else [];
    d := if c.flag.rxBuf then Deliver(RxOf(c), data, a) else DeliverDirect(data, a);
    WindowInSteps(c.unrecved, |data|, c.flag.rxBuf, a.restore, c.pcb == pcb);
    TakenIs(c.flag.rxBuf, RxOf(c), data, a);
    err := Append(c, data, a, keep);
    if err != ErrOk {
      return;
    }
    CountIn(c, pcb, |data|);
    err := HandOver(c, a, keep + data, !sound || |keep + data| >= 0x1_0000, pcb);
  }

  /** Taken bytes are credited at once, or owed until the application restores the window. */
  method CountIn(c: Conn, pcb: Pcb, n: u16)
    modifies c`unrecved, pcb`credited
    ensures c.unrecved == if c.flag.rxBuf then (old(c.unrecved) + n) % 0x1_0000 else old(c.unrecved)
    ensures pcb.credited == old(pcb.credited) + if c.flag.rxBuf then 0 else n
  {
    if !c.flag.rxBuf {
      pcb.credited := pcb.credited + n;
    } else {
      c.unrecved := (c.unrecved + n) % 0x1_0000;
    }
  }

  /** The window in the order of the code: first the delivery, then what the application restores. */
  lemma WindowInSteps(u: u16, n: u16, buffered: bool, restore: bool, attached: bool)
    ensures var v := if buffered then (u + n) % 0x1_0000 else u;
            var w := Window(u, n, if buffered then Buffered else Direct, restore, attached);
            && w.credited == (if buffered then 0 else n) + (if restore && attached then v else 0)
            && w.unrecved == (if restore then 0 else v)
  {
  }

  /** Whether a delivery is taken, and what it leaves, in both modes. */
  lemma TakenIs(buffered: bool, s: Rx, data: Bytes, a: Answers)
    ensures var d := if buffered then Deliver(s, data, a) else DeliverDirect(data, a);
            var room := if buffered then MakeRoom(s, |data|, a.mallocOk, a.growOk) else if a.mallocOk then Found else RefusedLost;
            var total := (if buffered then s.unread else []) + data;
            var size := |total| % 0x1_0000;
            var took := Min(a.cntri, size);
            && (d.taken <==> room == Found)
            && (d.taken <==> if buffered && s.unread != [] && s.behind >= |data| then s.behind == |data| || a.growOk else a.mallocOk)
            && (!d.taken ==> d.rx == if room == RefusedIntact then s else Rx([], 0))
            && (d.taken ==> |d.shown| == size)
            && (d.taken ==> d.rx == if !buffered || (0 < took < size && !a.shrinkOk) then Rx([], 0) else Rx(total[took..size], 0))
  {
    assert [] + data == data;
  }

  /** A chain of buffers from lwIP, or none: the peer has closed. */
  datatype Pbuf = NoPbuf | Pbuf(data: Bytes)

  /** What one delivery of `data` does, in every mode. */
  twostate predicate Received(c: Conn, pcb: Pcb, data: Bytes, a: Answers, err: Err, d: Delivery)
    requires c.pcfg != null && InBounds(c) && old(c.pcfg != null && InBounds(c))
    reads c, c.pcfg, c.pbufi, pcb
  {
    && LifeOf(c, pcb) == RecvStep(old(LifeOf(c, pcb)), SetupOf(c.pcfg), data != [] && d.taken)
    && c.flag == old(c.flag).(busyBufi := c.flag.busyBufi)
    && var mode := old(ModeOf(c));
       if mode == ToNull then
         // Nobody listens: the data is acknowledged and dropped.
         && err == ErrOk && c.flag == old(c.flag) && RxOf(c) == old(RxOf(c)) && (old(BufOk(c)) ==> BufOk(c))
         && var w := Window(old(c.unrecved), |data|, ToNull, false, c.pcb == pcb);
            c.unrecved == w.unrecved && pcb.credited == old(pcb.credited) + w.credited
       else if data == [] then
         && err == ErrOk && RxOf(c) == old(RxOf(c)) && (old(BufOk(c)) ==> BufOk(c))
         && c.unrecved == old(c.unrecved) && pcb.credited == old(pcb.credited)
       else
         // The application gets it.
         && err == (if !d.taken || (old(c.flag.rxBuf) && 0 < a.cntri < |d.shown| && !a.shrinkOk) then ErrMem else a.err)
         && d == (if mode == Buffered then Deliver(old(RxOf(c)), data, a) else DeliverDirect(data, a))
         && RxOf(c) == d.rx
         && (old(BufOk(c)) && |old(RxOf(c)).unread| + |data| < 0x1_0000 ==> BufOk(c))
         && var w := if d.taken then Window(old(c.unrecved), |data|, mode, a.restore, c.pcb == pcb) else Credit(0, old(c.unrecved), 0);
            c.unrecved == w.unrecved && pcb.credited == old(pcb.credited) + w.credited
  }

  /** tcpsrv_server_recv; `closeOk` is what tcp_close would answer. */
  method ServerRecv(srv: Server, c: Conn, pcb: Pcb, p: Pbuf, errIn: Err, a: Answers, closeOk: bool) returns (err: Err, ghost d: Delivery)
    requires Live(srv, c) && (c.pcb == null || c.pcb == pcb) && InBounds(c)
    modifies c`state, c`recvCheck, c`flag, c`unrecved, c`pbufo, c`pbufi, c`sizei, c`cntri, c`trace, pcb`hooks, pcb`credited
    modifies c`pcb, c`freed, c`next, c.pcfg`connLinks, c.pcfg`connCount, c.pcfg`conns, c.pcfg.conns`next, c.pbufi
    ensures c.pcfg.Valid() && c.pcb == (if c.freed then null else old(c.pcb))
    ensures c.pcfg.conns == if c.freed then Without(old(c.pcfg.conns), c) else old(c.pcfg.conns)
    ensures InBounds(c) && (c.pbufi == null || c.pbufi == old(c.pbufi) || fresh(c.pbufi))
    // The peer has closed, or lwIP reports an error.
    ensures p == NoPbuf || errIn != ErrOk ==>
              && err == errIn && CloseEffects(c, pcb)
              && LifeOf(c, pcb) == CloseStep(old(LifeOf(c, pcb)), SetupOf(c.pcfg), PcbDone(pcb), closeOk)
    // There is data, or an empty chain.
    ensures p != NoPbuf && errIn == ErrOk ==> Received(c, pcb, p.data, a, err, d)
    // For nobody: nothing stays owed, and the window opens by all of it at once.
    ensures p != NoPbuf && errIn == ErrOk && old(c.flag.rxNull || !c.pcfg.hasRecv || c.state == StCloseWait) ==>
              && err == ErrOk && c.state == old(c.state) && c.recvCheck == old(c.recvCheck) && c.trace == old(c.trace)
              && c.unrecved == 0 && pcb.credited == old(pcb.credited) + (|p.data| + old(c.unrecved)) % 0x1_0000
  {
    hide Without, CloseStep, Cfg.Valid, Received, RxOf, Closing;
    d := Delivery(false, [], [], RxOf(c), []);
    if p == NoPbuf || errIn != ErrOk {
      ServerClose(srv, c, pcb, closeOk);
      return errIn, d;
    }
    if c.flag.rxNull || !c.pcfg.hasRecv || c.state == StCloseWait {
      Swallow(c, pcb, p.data, a, d);
      return ErrOk, d;
    }
    err, d := TakeOver(c, pcb, p.data, errIn, a);
  }

  /** Data for nobody: the window opens by it and by what is owed. */
  method Swallow(c: Conn, pcb: Pcb, data: Bytes, ghost a: Answers, ghost d: Delivery)
    requires c.pcfg != null && InBounds(c) && ModeOf(c) == ToNull
    modifies c`unrecved, pcb`credited
    ensures Received(c, pcb, data, a, ErrOk, d)
    ensures c.unrecved == 0 && pcb.credited == old(pcb.credited) + (|data| + old(c.unrecved)) % 0x1_0000
  {
    hide Deliver, DeliverDirect, RxOf, BufOk, InBounds;
    pcb.credited := pcb.credited + (|data| + c.unrecved) % 0x1_0000;
    c.unrecved := 0;
  }

  /** Data for the application. */
  method TakeOver(c: Conn, pcb: Pcb, data: Bytes, errIn: Err, a: Answers) returns (err: Err, ghost d: Delivery)
    requires c.pcfg != null && InBounds(c) && (c.pcb == null || c.pcb == pcb) && ModeOf(c) != ToNull && errIn == ErrOk
    modifies c`state, c`recvCheck, c`flag, c`pbufi, c`sizei, c`cntri, c`unrecved, c`trace, c.pbufi, pcb`credited
    ensures InBounds(c) && (c.pbufi == null || c.pbufi == old(c.pbufi) || fresh(c.pbufi))
    ensures Received(c, pcb, data, a, err, d)
  {
    hide Deliver, DeliverDirect, Window, RxOf, BufOk, InBounds;
    c.state := StConnect;
    c.recvCheck := 0;
    err, d := errIn, Delivery(false, [], [], Rx([], 0), []);
    if |data| != 0 {
      err, d := RecvData(c, pcb, data, a);
    }
  }

  // ---------------------------------------------------------------- runs of the buffered mode

  /** lwIP delivers, or the application processes more outside its callback. */
  datatype RxMove = MDeliver(data: Bytes, a: Answers) | MConsume(n: nat)

  /** A connection's buffer together with the whole history of its bytes. */
  datatype Flow = Flow(rx: Rx, delivered: seq<byte>, consumed: seq<byte>, lost: nat)

  function FlowStep(f: Flow, m: RxMove): Flow {
    match m
    case MDeliver(data, a) =>
      if data == [] then f
      else
        var d := Deliver(f.rx, data, a);
        Flow(d.rx, if d.taken then f.delivered + data else f.delivered, f.consumed + d.consumed, f.lost + |d.lost|)
    case MConsume(n) =>
      var k := Min(n, |f.rx.unread|);
      var behind := (f.rx.behind + k) % 0x1_0000;
      Flow(if k == |f.rx.unread| then Rx([], 0) else Rx(f.rx.unread[k..], behind), f.delivered, f.consumed + f.rx.unread[..k], f.lost)
  }

  function FlowRun(f: Flow, ms: seq<RxMove>): Flow
    decreases |ms|
  {
    if ms == [] then f else FlowStep(FlowRun(f, ms[..|ms| - 1]), ms[|ms| - 1])
  }

  function Fresh(): Flow {
    Flow(Rx([], 0), [], [], 0)
  }

  /** Nothing unaccounted for; and with nothing lost, what was consumed and what is unread is the stream. */
  predicate Accounted(f: Flow) {
    && |f.consumed| + |f.rx.unread| + f.lost == |f.delivered|
    && (f.lost == 0 ==> f.consumed + f.rx.unread == f.delivered)
  }

  lemma Joined(c: seq<byte>, d: seq<byte>, u: seq<byte>, l: seq<byte>, r: seq<byte>, n: seq<byte>)
    requires d + u + l == r + n
    ensures |d| + |u| + |l| == |r| + |n|
    ensures l == [] ==> (c + d) + u == (c + r) + n
  {
    assert |d + u + l| == |r + n|;
    assert l == [] ==> d + u + l == d + u;
    assert (c + d) + u == c + (d + u) && (c + r) + n == c + (r + n);
  }

  lemma DeliverStepConserves(f: Flow, data: Bytes, a: Answers)
    requires Accounted(f)
    ensures Accounted(FlowStep(f, MDeliver(data, a)))
  {
    DeliveryConserves(f.rx, data, a);
    var d := Deliver(f.rx, data, a);
    var came := if d.taken then data else [];
    assert d.consumed + d.rx.unread + d.lost == f.rx.unread + came;
    Joined(f.consumed, d.consumed, d.rx.unread, d.lost, f.rx.unread, came);
    assert f.delivered + came == if d.taken then f.delivered + data else f.delivered;
  }

  lemma ConsumeStepConserves(f: Flow, n: nat)
    requires Accounted(f)
    ensures Accounted(FlowStep(f, MConsume(n)))
  {
    var k := Min(n, |f.rx.unread|);
    Joined(f.consumed, f.rx.unread[..k], f.rx.unread[k..], [], f.rx.unread, []);
  }

  /**
    For every sequence of deliveries and of choices by the allocator and the
    application: no byte is unaccounted for, and if none was lost, what has been
    consumed followed by what is unread is everything delivered, in order.
  */
  lemma {:induction false} RunConservesStream(ms: seq<RxMove>)
    ensures Accounted(FlowRun(Fresh(), ms))
  {
    if ms != [] {
      RunConservesStream(ms[..|ms| - 1]);
      match ms[|ms| - 1]
      case MDeliver(data, a) => DeliverStepConserves(FlowRun(Fresh(), ms[..|ms| - 1]), data, a);
      case MConsume(n) => ConsumeStepConserves(FlowRun(Fresh(), ms[..|ms| - 1]), n);
    }
  }

  /** The move loses nothing in the state it meets. */
  predicate Gentle(f: Flow, m: RxMove) {
    m.MDeliver? && m.data != [] ==> Lossless(f.rx, m.data, m.a)
  }

  lemma StepLosesIff(f: Flow, m: RxMove)
    ensures FlowStep(f, m).lost >= f.lost
    ensures FlowStep(f, m).lost == f.lost <==> Gentle(f, m)
  {
    if m.MDeliver? {
      DeliveryConserves(f.rx, m.data, m.a);
    }
  }

  /** Every move of the run so far lost nothing. */
  ghost predicate AllGentle(ms: seq<RxMove>) {
    forall i :: 0 <= i < |ms| ==> Gentle(FlowRun(Fresh(), ms[..i]), ms[i])
  }

  lemma AllGentleSplit(ms: seq<RxMove>)
    requires ms != []
    ensures var init := ms[..|ms| - 1];
            AllGentle(ms) <==> AllGentle(init) && Gentle(FlowRun(Fresh(), init), ms[|ms| - 1])
  {
    hide FlowRun, Gentle;
    var init := ms[..|ms| - 1];
    forall i | 0 <= i < |init|
      ensures init[i] == ms[i] && init[..i] == ms[..i]
    {
    }
    if AllGentle(init) && Gentle(FlowRun(Fresh(), init), ms[|ms| - 1]) {
      forall i | 0 <= i < |ms|
        ensures Gentle(FlowRun(Fresh(), ms[..i]), ms[i])
      {
        if i < |init| {
          assert Gentle(FlowRun(Fresh(), init[..i]), init[i]);
        }
      }
    }
  }

  /** Exactly when the stream survives: every delivery met a reallocation that worked and a sum that fits. */
  lemma {:induction false} StreamIntactIff(ms: seq<RxMove>)
    ensures FlowRun(Fresh(), ms).lost == 0 <==> AllGentle(ms)
  {
    if ms != [] {
      StreamIntactIff(ms[..|ms| - 1]);
      StepLosesIff(FlowRun(Fresh(), ms[..|ms| - 1]), ms[|ms| - 1]);
      AllGentleSplit(ms);
    }
  }

  /** A delivery that the allocator turns down while nothing has to be moved. */
  predicate TurnedDown(f: Flow, m: RxMove) {
    m.MDeliver? && !m.a.mallocOk && !Compacts(f.rx, |m.data|)
  }

  lemma {:induction false} FlowRunConcat(ms: seq<RxMove>, more: seq<RxMove>, others: seq<RxMove>)
    requires FlowRun(Fresh(), ms) == FlowRun(Fresh(), others)
    ensures FlowRun(Fresh(), ms + more) == FlowRun(Fresh(), others + more)
    decreases |more|
  {
    if more == [] {
      assert ms + more == ms && others + more == others;
    } else {
      var init, last := more[..|more| - 1], more[|more| - 1];
      FlowRunConcat(ms, init, others);
      assert (ms + more)[..|ms + more| - 1] == ms + init && (others + more)[..|others + more| - 1] == others + init;
    }
  }

  /**
    A failed malloc on unread data leaves the residue as it was, so that the run goes on as if the delivery had never
    been tried: lwIP keeps the data and may deliver it again, or anything else may happen, with the same outcome.
  */
  lemma FailedMallocKeepsResidue(ms: seq<RxMove>, m: RxMove, more: seq<RxMove>)
    requires TurnedDown(FlowRun(Fresh(), ms), m)
    ensures FlowRun(Fresh(), ms + [m] + more) == FlowRun(Fresh(), ms + more)
  {
    assert (ms + [m])[..|ms|] == ms;
    var f := FlowRun(Fresh(), ms);
    assert f.consumed + [] == f.consumed;
    FlowRunConcat(ms + [m], more, ms);
  }

  /** A failed reallocation after a partial read does lose bytes. */
  lemma FailedReallocLoses()
    ensures Deliver(Rx([], 0), [1, 2], Answers(true, true, 1, false, ErrOk, false)).lost == [2]
  {
    assert [] + [1 as byte, 2] == [1, 2];
  }

  /** A sum of 65536 bytes loses all of them, whatever the allocator does. */
  lemma FullSumLoses(s: Rx, data: Bytes, a: Answers)
    requires |s.unread| + |data| == 0x1_0000 && MakeRoom(s, |data|, a.mallocOk, a.growOk) == Found
    ensures var d := Deliver(s, data, a); d.taken && d.lost == s.unread + data
  {
    assert |s.unread + data| % 0x1_0000 == 0;
  }

  // ---------------------------------------------------------------- runs of the window

  /**
    A delivery of `n` bytes taken over in some mode, or an explicit window restore. `attached` tells whether the
    connection still has its control block.
  */
  datatype WinMove = WDeliver(n: u16, mode: Mode, restore: bool, attached: bool) | WRestore(attached: bool)

  datatype Win = Win(delivered: nat, credited: nat, unrecved: u16, forgone: nat)

  function WinStep(w: Win, m: WinMove): Win {
    match m
    case WDeliver(n, mode, restore, attached) =>
      var x := Window(w.unrecved, n, mode, restore, attached);
      Win(w.delivered + n, w.credited + x.credited, x.unrecved, w.forgone + x.forgone)
    case WRestore(attached) =>
      var x := Restore(w.unrecved, attached);
      Win(w.delivered, w.credited + x.credited, x.unrecved, w.forgone + x.forgone)
  }

  function WinRun(ms: seq<WinMove>): Win
    decreases |ms|
  {
    if ms == [] then Win(0, 0, 0, 0) else WinStep(WinRun(ms[..|ms| - 1]), ms[|ms| - 1])
  }

  /** Bytes delivered that are neither credited nor owed nor known to be forgotten. */
  function Deficit(w: Win): int {
    w.delivered - w.credited - w.unrecved - w.forgone
  }

  /** The move does not take the counter round. */
  predicate StepFits(w: Win, m: WinMove) {
    m.WDeliver? ==> Fits(w.unrecved, m.n, m.mode)
  }

  lemma DeficitGrows(w: Win, m: WinMove)
    ensures Deficit(WinStep(w, m)) == Deficit(w) + if StepFits(w, m) then 0 else 0x1_0000
  {
    if m.WDeliver? {
      WindowConserves(w.unrecved, m.n, m.mode, m.restore, m.attached);
    }
  }

  /** How many moves of the run took the counter round. */
  function RoundTrips(ms: seq<WinMove>): nat
    decreases |ms|
  {
    if ms == [] then 0
    else RoundTrips(ms[..|ms| - 1]) + if StepFits(WinRun(ms[..|ms| - 1]), ms[|ms| - 1]) then 0 else 1
  }

  /** In every run, with no assumption at all, each time the counter comes round 65536 bytes go missing, and nothing else. */
  lemma {:induction false} WindowModulo(ms: seq<WinMove>)
    ensures Deficit(WinRun(ms)) == 0x1_0000 * RoundTrips(ms)
    decreases |ms|
  {
    if ms != [] {
      hide Deficit, WinStep, StepFits;
      WindowModulo(ms[..|ms| - 1]);
      DeficitGrows(WinRun(ms[..|ms| - 1]), ms[|ms| - 1]);
    }
  }

  /** No delivery of the run met a counter that it takes round. */
  ghost predicate AllFit(ms: seq<WinMove>) {
    forall i :: 0 <= i < |ms| ==> StepFits(WinRun(ms[..i]), ms[i])
  }

  lemma AllFitSplit(ms: seq<WinMove>)
    requires ms != []
    ensures AllFit(ms) <==> AllFit(ms[..|ms| - 1]) && StepFits(WinRun(ms[..|ms| - 1]), ms[|ms| - 1])
  {
    hide WinRun, StepFits;
    var init := ms[..|ms| - 1];
    forall i | 0 <= i < |init|
      ensures init[i] == ms[i] && init[..i] == ms[..i]
    {
    }
    if AllFit(init) && StepFits(WinRun(init), ms[|ms| - 1]) {
      forall i | 0 <= i < |ms|
        ensures StepFits(WinRun(ms[..i]), ms[i])
      {
        if i < |init| {
          assert StepFits(WinRun(init[..i]), init[i]);
        }
      }
    }
  }

  /**
    In every run, across all three modes and explicit restores: bytes delivered are exactly bytes credited, still owed
    or forgotten with the control block, if and only if no delivery outside of the unbuffered mode met an unread count
    that it takes to 65536 or beyond.
  */
  lemma {:induction false} WindowExactIff(ms: seq<WinMove>)
    ensures Deficit(WinRun(ms)) == 0 <==> AllFit(ms)
    decreases |ms|
  {
    if ms != [] {
      hide Deficit, WinStep, StepFits, AllFit;
      var init := ms[..|ms| - 1];
      WindowExactIff(init);
      WindowModulo(init);
      DeficitGrows(WinRun(init), ms[|ms| - 1]);
      AllFitSplit(ms);
    } else {
      assert AllFit(ms);
    }
  }

  /**
    Data for nobody settles the account: after it nothing is owed, and if no byte went missing or was forgotten with the
    control block, every byte delivered so far has been credited. In the unbuffered mode the data itself is credited at
    once, in the buffered mode only with a restore.
  */
  lemma CreditedWhen(ms: seq<WinMove>, n: u16, restore: bool, attached: bool)
    ensures var before, after := WinRun(ms), WinRun(ms + [WDeliver(n, ToNull, restore, attached)]);
            && after.unrecved == 0 && after.credited == before.credited + (n + before.unrecved) % 0x1_0000
            && (AllFit(ms + [WDeliver(n, ToNull, restore, attached)]) && after.forgone == 0 ==> after.credited == after.delivered)
    ensures var before, direct := WinRun(ms), WinRun(ms + [WDeliver(n, Direct, false, attached)]);
            direct.credited == before.credited + n && direct.unrecved == before.unrecved
    ensures var before, buffered := WinRun(ms), WinRun(ms + [WDeliver(n, Buffered, restore, true)]);
            if restore then buffered.credited == before.credited + (before.unrecved + n) % 0x1_0000 && buffered.unrecved == 0
            else buffered.credited == before.credited && buffered.unrecved == (before.unrecved + n) % 0x1_0000
  {
    hide WinRun, AllFit;
    WinRunEnds(ms, WDeliver(n, ToNull, restore, attached));
    WinRunEnds(ms, WDeliver(n, Direct, false, attached));
    WinRunEnds(ms, WDeliver(n, Buffered, restore, true));
    WindowExactIff(ms + [WDeliver(n, ToNull, restore, attached)]);
  }

  /** lwIP never delivers more than the receive window it has advertised. */
  predicate WithinWindow(w: Win, m: WinMove) {
    m.WDeliver? ==> w.delivered - w.credited + m.n <= TCP_WND
  }

  /** Under lwIP's own window rule the counter never comes round, so no byte goes missing in any run. */
  lemma {:induction false} WindowExact(ms: seq<WinMove>)
    requires forall i :: 0 <= i < |ms| ==> WithinWindow(WinRun(ms[..i]), ms[i])
    ensures Deficit(WinRun(ms)) == 0 && WinRun(ms).unrecved <= TCP_WND && AllFit(ms)
    decreases |ms|
  {
    if ms != [] {
      var init := ms[..|ms| - 1];
      assert forall i :: 0 <= i < |init| ==> init[i] == ms[i] && init[..i] == ms[..i];
      WindowExact(init);
      var w, m := WinRun(init), ms[|ms| - 1];
      assert WithinWindow(w, m);
      WindowStepExact(w, m);
      AllFitSplit(ms);
    }
  }

  lemma WindowStepExact(w: Win, m: WinMove)
    requires Deficit(w) == 0 && w.unrecved <= TCP_WND && WithinWindow(w, m)
    ensures StepFits(w, m) && Deficit(WinStep(w, m)) == 0 && WinStep(w, m).unrecved <= TCP_WND
  {
    DeficitGrows(w, m);
  }

  /** Without the window rule it can come round: two deliveries of 65536 bytes together are never credited. */
  lemma WindowCanWrap(n: u16, m: u16)
    requires n + m == 0x1_0000
    ensures var ms := [WDeliver(n, Buffered, false, true), WDeliver(m, Buffered, false, true)];
            !AllFit(ms) && WinRun(ms) == Win(0x1_0000, 0, 0, 0) && Deficit(WinRun(ms)) == 0x1_0000
  {
    var first, second := WDeliver(n, Buffered, false, true), WDeliver(m, Buffered, false, true);
    WinRunEnds([first], second);
    assert !StepFits(WinRun([first, second][..1]), [first, second][1]);
  }

  lemma WinRunEnds(ms: seq<WinMove>, m: WinMove)
    ensures WinRun(ms + [m]) == WinStep(WinRun(ms), m)
  {
    assert (ms + [m])[..|ms|] == ms;
  }
}
