/**
  The circular sample buffer shared by the ADC, INA219 and MLX90614 drivers: an
  interrupt handler overwrites the oldest sample, a task drains blocks with a
  header that carries a 16-bit sample index.

  Every method is one atomic step: handlers run in the interrupt, and the reader
  runs with interrupts disabled. An interleaving is then any sequence of calls,
  and what holds of all of them is what `Valid` keeps plus the run theorems.
*/
module SampleRing {

  type u16 = x: int | 0 <= x < 0x1_0000

  // ---------------------------------------------------------------- the queue a reader should see

  /** The last `cap` elements. */
  function Newest<T>(s: seq<T>, cap: nat): (r: seq<T>)
    ensures |r| == if |s| <= cap then |s| else cap
  {
    if |s| <= cap then s else s[|s| - cap..]
  }

  /** Keeping the newest along the way is keeping the newest at the end. */
  lemma NewestTwice<T>(s: seq<T>, t: seq<T>, cap: nat)
    ensures Newest(Newest(s, cap) + t, cap) == Newest(s + t, cap)
  {
    var n := Newest(s, cap);
    assert s + t == s[..|s| - |n|] + (n + t);
  }

  /** The queue after pushing all of `xs`, one at a time. */
  function PushAll<T>(q: seq<T>, xs: seq<T>, cap: nat): seq<T>
    decreases |xs|
  {
    if xs == [] then q else PushAll(Newest(q + [xs[0]], cap), xs[1..], cap)
  }

  /** A count that was available stays available, and is still a count of newest samples, whatever is pushed later. */
  lemma {:induction false} CountStaysAvailable<T>(q: seq<T>, xs: seq<T>, cap: nat)
    requires |q| <= cap
    decreases |xs|
    ensures PushAll(q, xs, cap) == Newest(q + xs, cap)
    ensures |PushAll(q, xs, cap)| >= |q|
  {
    if xs == [] {
      assert q + xs == q;
    } else {
      CountStaysAvailable(Newest(q + [xs[0]], cap), xs[1..], cap);
      NewestTwice(q + [xs[0]], xs[1..], cap);
      assert q + [xs[0]] + xs[1..] == q + xs;
    }
  }

  /** A block as the reader gets it: the two header words and the samples. */
  datatype Block<T> = Block(cnt: u16, index: u16, samples: seq<T>)

  /** One step of an interleaving: the interrupt pushes, or the task reads a block. */
  datatype Op<T> = Push(x: T) | Read(cnt: nat)

  /** The queue, all that was ever pushed, how much was read and lost, where the last block ended, and the last block. */
  datatype Trace<T> = Trace(queue: seq<T>, pushed: seq<T>, taken: nat, dropped: nat, end: nat, last: Block<T>)

  function Began<T>(): Trace<T> {
    Trace([], [], 0, 0, 0, Block(0, 0, []))
  }

  predicate Allowed<T>(s: Trace<T>, op: Op<T>) {
    op.Read? ==> op.cnt <= |s.queue| && op.cnt < 0x1_0000
  }

  function TraceStep<T>(s: Trace<T>, op: Op<T>, cap: nat): Trace<T>
    requires Allowed(s, op)
  {
    match op
    case Push(x) =>
      s.(queue := Newest(s.queue + [x], cap), pushed := s.pushed + [x], dropped := if |s.queue| == cap then s.dropped + 1 else s.dropped)
    case Read(cnt) =>
      s.(queue := s.queue[cnt..], taken := s.taken + cnt, end := s.taken + s.dropped + cnt,
         last := Block(cnt, (s.taken + s.dropped) % 0x1_0000, s.queue[..cnt]))
  }

  ghost predicate IsTrace<T>(ss: seq<Trace<T>>, ops: seq<Op<T>>, cap: nat) {
    && |ss| == |ops| + 1 && ss[0] == Began()
    && forall i {:trigger ops[i]} :: 0 <= i < |ops| ==> Allowed(ss[i], ops[i]) && ss[i + 1] == TraceStep(ss[i], ops[i], cap)
  }

  /** What every interleaving keeps. */
  ghost predicate TraceInv<T>(s: Trace<T>, cap: nat) {
    && |s.queue| <= cap && s.taken + s.dropped + |s.queue| == |s.pushed|
    && s.end <= s.taken + s.dropped
    && s.queue == s.pushed[s.taken + s.dropped..]
    && s.queue == Newest(s.pushed[s.end..], cap)
    && s.last.cnt <= s.end && s.last.index == (s.end - s.last.cnt) % 0x1_0000
    && s.last.samples == s.pushed[s.end - s.last.cnt..s.end]
  }

  lemma Appended<T>(s: seq<T>, x: T, a: nat, b: nat)
    requires a <= b <= |s|
    ensures (s + [x])[b..] == s[b..] + [x]
    ensures (s + [x])[a..b] == s[a..b]
  {
  }

  /** The newest of a tail is a tail. */
  lemma NewestOfTail<T>(s: seq<T>, at: nat, cap: nat)
    requires at <= |s|
    ensures Newest(s[at..], cap) == s[if |s| - at <= cap then at else |s| - cap..]
  {
  }

  /** Pushing onto the tail that starts at `at` gives a tail of what has been pushed then. */
  lemma NewestGrows<T>(s: seq<T>, x: T, at: nat, cap: nat)
    requires at <= |s| && |s| - at <= cap
    ensures Newest(s[at..] + [x], cap) == (s + [x])[if |s| - at == cap then at + 1 else at..]
  {
    Appended(s, x, at, at);
    NewestOfTail(s + [x], at, cap);
  }

  lemma PushKeeps<T>(s: Trace<T>, x: T, cap: nat)
    requires TraceInv(s, cap)
    ensures TraceInv(TraceStep(s, Push(x), cap), cap)
  {
    hide Newest;
    Appended(s.pushed, x, s.end - s.last.cnt, s.end);
    NewestGrows(s.pushed, x, s.taken + s.dropped, cap);
    NewestTwice(s.pushed[s.end..], [x], cap);
  }

  lemma ReadKeeps<T>(s: Trace<T>, cnt: nat, cap: nat)
    requires TraceInv(s, cap) && Allowed(s, Read(cnt))
    ensures TraceInv(TraceStep(s, Read(cnt), cap), cap)
  {
    var t, at := TraceStep(s, Read(cnt), cap), s.taken + s.dropped;
    assert t.queue == s.pushed[at..][cnt..] == t.pushed[t.end..];
    assert t.last.samples == s.pushed[at..][..cnt] == t.pushed[at..t.end];
  }

  lemma TraceStepKeeps<T>(s: Trace<T>, op: Op<T>, cap: nat)
    requires TraceInv(s, cap) && Allowed(s, op)
    ensures TraceInv(TraceStep(s, op, cap), cap)
  {
    match op
    case Push(x) => PushKeeps(s, x, cap);
    case Read(cnt) => ReadKeeps(s, cnt, cap);
  }

  /**
    Under any interleaving of pushes and reads: the queue is exactly the newest
    min(n, cap) of the n samples pushed since the last block ended; the block
    holds consecutive samples of the stream, and its index word is the position of
    its first one modulo 65536, which is what was read plus what was lost before it.
  */
  lemma {:induction false} RunQueueIsNewest<T>(ss: seq<Trace<T>>, ops: seq<Op<T>>, cap: nat, k: nat)
    requires IsTrace(ss, ops, cap) && k <= |ops|
    ensures TraceInv(ss[k], cap)
  {
    if k > 0 {
      RunQueueIsNewest(ss, ops, cap, k - 1);
      TraceStepKeeps(ss[k - 1], ops[k - 1], cap);
    } else {
      assert ss[0].pushed == [];
    }
  }

  /**
    The receiver's loss check: between two successive blocks, at steps i and j,
    the index words differ by the length of the first block plus exactly the
    samples lost in between.
  */
  lemma IndexShowsLosses<T>(ss: seq<Trace<T>>, ops: seq<Op<T>>, cap: nat, i: nat, j: nat)
    requires IsTrace(ss, ops, cap) && i < j < |ops| && ops[i].Read? && ops[j].Read?
    requires forall k :: i < k < j ==> ops[k].Push?
    ensures var first, second := ss[i + 1].last, ss[j + 1].last;
            (second.index - first.index - first.cnt - (ss[j].dropped - ss[i + 1].dropped)) % 0x1_0000 == 0
            && ss[j].dropped >= ss[i + 1].dropped
  {
    PushesTakeNothing(ss, ops, cap, i + 1, j);
  }

  lemma {:induction false} PushesTakeNothing<T>(ss: seq<Trace<T>>, ops: seq<Op<T>>, cap: nat, i: nat, j: nat)
    requires IsTrace(ss, ops, cap) && i <= j <= |ops| && forall k :: i <= k < j ==> ops[k].Push?
    ensures ss[j].taken == ss[i].taken && ss[j].dropped >= ss[i].dropped
  {
    if i < j {
      assert ops[j - 1].Push?;
      PushesTakeNothing(ss, ops, cap, i, j - 1);
    }
  }

  // ---------------------------------------------------------------- the buffer

  /** The samples between the two indices of a buffer of `|buf|` slots, oldest first, across the wrap. */
  function Live<T>(buf: seq<T>, rx: nat, tx: nat): (q: seq<T>)
    requires rx < |buf| && tx < |buf|
    ensures |q| == if rx <= tx then tx - rx else |buf| - rx + tx
  {
    if rx <= tx then buf[rx..tx] else buf[rx..] + buf[..tx]
  }

  /** The index after `i` in a buffer of `n` slots. */
  function After(i: nat, n: nat): nat {
    if i >= n - 1 then 0 else i + 1
  }

  /** Storing at `tx` and advancing appends, as long as that does not meet `rx`. */
  lemma LiveAppend<T>(buf: seq<T>, rx: nat, tx: nat, x: T)
    requires rx < |buf| && tx < |buf| && rx != After(tx, |buf|)
    ensures Live(buf[tx := x], rx, After(tx, |buf|)) == Live(buf, rx, tx) + [x]
  {
    if rx <= tx {
      assert buf[tx := x][rx..tx + 1] == buf[rx..tx] + [x];
    } else {
      assert buf[tx := x][..tx + 1] == buf[..tx] + [x];
      assert (buf[rx..] + buf[..tx]) + [x] == buf[rx..] + (buf[..tx] + [x]);
    }
  }

  /** If it does, the buffer was full, and the oldest sample goes. */
  lemma LiveReplace<T>(buf: seq<T>, rx: nat, tx: nat, x: T)
    requires rx < |buf| && tx < |buf| && rx == After(tx, |buf|)
    ensures |Live(buf, rx, tx)| == |buf| - 1
    ensures Live(buf[tx := x], After(rx, |buf|), rx) == (Live(buf, rx, tx) + [x])[1..]
  {
    var b := buf[tx := x];
    if rx == 0 {
      assert After(rx, |buf|) == 0 ==> b[0..0] == (Live(buf, rx, tx) + [x])[1..];
      assert After(rx, |buf|) != 0 ==> b[1..] + b[..0] == (buf[0..tx] + [x])[1..];
    } else {
      assert b[rx + 1..] + b[..rx] == (buf[rx..] + buf[..tx] + [x])[1..];
    }
  }

  /** Both together: the ring keeps the newest samples. */
  lemma LivePush<T>(buf: seq<T>, rx: nat, tx: nat, x: T)
    requires rx < |buf| && tx < |buf|
    ensures var tx' := After(tx, |buf|);
            var rx' := if rx != tx' then rx else After(rx, |buf|);
            && Live(buf[tx := x], rx', tx') == Newest(Live(buf, rx, tx) + [x], |buf| - 1)
            && (rx == tx' <==> |Live(buf, rx, tx)| == |buf| - 1)
  {
    if rx == After(tx, |buf|) {
      LiveReplace(buf, rx, tx, x);
    } else {
      LiveAppend(buf, rx, tx, x);
    }
  }

  /** A read that ends before the buffer's end takes one piece: the oldest samples, in order. */
  lemma LiveReadFlat<T>(buf: seq<T>, rx: nat, tx: nat, cnt: nat)
    requires rx < |buf| && tx < |buf| && cnt <= |Live(buf, rx, tx)| && rx + cnt < |buf|
    ensures buf[rx..rx + cnt] == Live(buf, rx, tx)[..cnt]
    ensures Live(buf, rx + cnt, tx) == Live(buf, rx, tx)[cnt..]
  {
    if rx <= tx {
      assert buf[rx..tx][..cnt] == buf[rx..rx + cnt];
    } else {
      assert (buf[rx..] + buf[..tx])[..cnt] == buf[rx..rx + cnt];
      assert (buf[rx..] + buf[..tx])[cnt..] == buf[rx + cnt..] + buf[..tx];
    }
  }

  /** A read across the wrap takes two. */
  lemma LiveReadWrapped<T>(buf: seq<T>, rx: nat, tx: nat, cnt: nat)
    requires rx < |buf| && tx < |buf| && cnt <= |Live(buf, rx, tx)| && rx + cnt >= |buf|
    ensures var over := rx + cnt - |buf|;
            && over <= tx && over < rx
            && buf[rx..] + buf[..over] == Live(buf, rx, tx)[..cnt]
            && Live(buf, over, tx) == Live(buf, rx, tx)[cnt..]
  {
    var over := rx + cnt - |buf|;
    assert (buf[rx..] + buf[..tx])[..cnt] == buf[rx..] + buf[..over];
    assert (buf[rx..] + buf[..tx])[cnt..] == buf[over..tx];
  }

  /**
    The reader's copy stays inside the buffer: its 16-bit sum of index and count is exact, or comes round just where a
    buffer of 65536 slots does. Where it is false, the copy runs past the end of the buffer.
  */
  predicate InFrame(rx: nat, cnt: nat, bufIdx: u16) {
    rx + cnt < 0x1_0000 || rx + cnt == bufIdx + 1
  }

  /** It does in every state and for every available count exactly for buffers of at most 32768 slots. */
  lemma SumFitsIff(bufIdx: u16)
    ensures (forall rx: nat, cnt: nat :: rx <= bufIdx && cnt <= bufIdx ==> InFrame(rx, cnt, bufIdx)) <==> bufIdx <= 0x7FFF
  {
    if bufIdx > 0x7FFF {
      assert !InFrame(bufIdx, bufIdx, bufIdx);
    }
  }

  lemma AddModulo(a: nat, b: nat)
    ensures (a % 0x1_0000 + b) % 0x1_0000 == (a + b) % 0x1_0000
  {
  }

  lemma TailRead<T>(s: seq<T>, at: nat, cnt: nat)
    requires at + cnt <= |s|
    ensures s[at..][cnt..] == s[at + cnt..] && s[at..][..cnt] == s[at..at + cnt]
  {
  }

  lemma SumModulo(a: u16, b: u16)
    ensures (a + b) % 0x1_0000 == if a + b < 0x1_0000 then a + b else a + b - 0x1_0000
  {
  }

  class Ring<T(0)> {
    const bufIdx: u16
    var pbuf: array?<T>
    var bufRx: u16
    var bufTx: u16
    var count: u16
    var overrun: u16
    var init: int
    /** The whole history, which the code does not keep. */
    ghost var pushed: seq<T>
    ghost var taken: nat
    ghost var dropped: nat
    /** The block read last, and where it ended. */
    ghost var end: nat
    ghost var last: Block<T>

    ghost predicate Valid()
      reads this, pbuf
    {
      && (init > 0 ==> pbuf != null)
      && bufRx <= bufIdx && bufTx <= bufIdx
      && count == taken % 0x1_0000 && overrun == dropped % 0x1_0000
      && (pbuf != null ==>
            && pbuf.Length == bufIdx + 1
            && taken + dropped + |Live(pbuf[..], bufRx, bufTx)| == |pushed|
            && Live(pbuf[..], bufRx, bufTx) == pushed[taken + dropped..])
    }

    /** The samples waiting to be read. */
    ghost function Queue(): seq<T>
      reads this, pbuf
      requires Valid()
    {
      if pbuf == null then [] else Live(pbuf[..], bufRx, bufTx)
    }

    /** The state that the run theorems speak of. */
    ghost function View(): Trace<T>
      reads this, pbuf
      requires Valid()
    {
      Trace(Queue(), pushed, taken, dropped, end, last)
    }

    /** The first "get" request: allocate, clear the counters, start. */
    constructor (bufIdx: u16)
      ensures Valid() && View() == Began() && init == 1
      ensures pbuf != null && fresh(pbuf) && this.bufIdx == bufIdx
    {
      this.bufIdx := bufIdx;
      pbuf := new T[bufIdx + 1];
      bufRx, bufTx, count, overrun, init := 0, 0, 0, 0, 1;
      pushed, taken, dropped := [], 0, 0;
      end, last := 0, Block(0, 0, []);
    }

    /** The advance of the two indices after a slot has been written with `x`; answers whether a sample was lost. */
    method Commit(ghost x: T) returns (lost: bool)
      requires Valid() && pbuf != null
      requires pbuf[bufTx] == x
      modifies `bufRx, `bufTx, `overrun, `pushed, `dropped
      ensures Valid()
      ensures Queue() == Newest(old(Queue()) + [x], bufIdx)
      ensures lost == (|old(Queue())| == bufIdx)
      ensures pushed == old(pushed) + [x] && dropped == old(dropped) + if lost then 1 else 0
      ensures overrun == if lost then (old(overrun) + 1) % 0x1_0000 else old(overrun)
    {
      hide Live, Newest;
      LivePush(pbuf[..], bufRx, bufTx, x);
      assert pbuf[..][bufTx := x] == pbuf[..];
      NewestGrows(pushed, x, taken + dropped, bufIdx);
      AddModulo(dropped, 1);
      pushed := pushed + [x];
      bufTx := if bufTx >= bufIdx then 0 else bufTx + 1;
      lost := bufRx == bufTx;
      if lost {
        overrun := (overrun + 1) % 0x1_0000;
        bufRx := if bufRx >= bufIdx then 0 else bufRx + 1;
        dropped := dropped + 1;
      }
    }

    /** Writing the free slot does not touch the queue. */
    method Store(x: T)
      requires Valid() && pbuf != null
      modifies pbuf
      ensures Valid() && Queue() == old(Queue()) && pbuf[bufTx] == x
    {
      ghost var was := pbuf[..];
      pbuf[bufTx] := x;
      assert pbuf[..] == was[bufTx := x];
      assert Live(pbuf[..], bufRx, bufTx) == Live(was, bufRx, bufTx);
    }

    /** One sample from the interrupt handler. */
    method Push(x: T) returns (lost: bool)
      requires Valid()
      modifies pbuf, `bufRx, `bufTx, `overrun, `pushed, `dropped
      ensures Valid()
      ensures pbuf == null ==> !lost && View() == old(View()) && overrun == old(overrun)
      ensures pbuf != null ==>
                && View() == TraceStep(old(View()), Op.Push(x), bufIdx)
                && Queue() == Newest(old(Queue()) + [x], bufIdx)
                && lost == (|old(Queue())| == bufIdx)
                && pushed == old(pushed) + [x] && dropped == old(dropped) + (if lost then 1 else 0)
                && overrun == (if lost then (old(overrun) + 1) % 0x1_0000 else old(overrun))
    {
      hide Live, Newest;
      lost := false;
      if pbuf != null {
        Store(x);
        lost := Commit(x);
      }
    }

    /** *_chkdata */
    method ChkData(cnt: u16) returns (r: u16)
      requires Valid()
      ensures r == if init <= 0 then 0 else if cnt <= |Queue()| then cnt else |Queue()|
    {
      if init <= 0 {
        return 0;
      }
      var len := bufTx - bufRx;
      if len < 0 {
        len := len + bufIdx + 1;
      }
      r := if cnt > len then len else cnt;
    }

    /** The copy in *_getdata: two pieces across the wrap, and the read index behind them; or past the end of the buffer. */
    method CopyOut(cnt: u16) returns (inFrame: bool, samples: seq<T>)
      requires pbuf != null && pbuf.Length == bufIdx + 1 && bufRx <= bufIdx && bufTx <= bufIdx
      requires cnt <= |Live(pbuf[..], bufRx, bufTx)|
      modifies `bufRx
      ensures inFrame == InFrame(old(bufRx), cnt, bufIdx)
      ensures inFrame ==>
                && bufRx <= bufIdx
                && samples == Live(pbuf[..], old(bufRx), bufTx)[..cnt]
                && Live(pbuf[..], bufRx, bufTx) == Live(pbuf[..], old(bufRx), bufTx)[cnt..]
    {
      hide Live;
      inFrame, samples := true, [];
      var rx := bufRx;
      ghost var buf := pbuf[..];
      if cnt != 0 {
        SumModulo(rx, cnt);
        var lend := (rx + cnt) % 0x1_0000;
        if lend > bufIdx {
          LiveReadWrapped(buf, rx, bufTx, cnt);
          lend := lend - (bufIdx + 1);
          bufRx := lend;
        } else {
          bufRx := lend;
          lend := 0;
        }
        var len := cnt - lend;
        if rx + len > bufIdx + 1 {
          return false, [];
        }
        if rx + len <= bufIdx && lend == 0 {
          LiveReadFlat(buf, rx, bufTx, cnt);
        } else if rx + cnt == bufIdx + 1 {
          LiveReadWrapped(buf, rx, bufTx, cnt);
        }
        if len != 0 {
          samples := pbuf[rx..rx + len];
        }
        if lend != 0 {
          samples := samples + pbuf[..lend];
        }
      }
    }

    /** The two header words: the index is read before the count moves. */
    method TakeIndex(cnt: u16) returns (index: u16)
      requires count == taken % 0x1_0000 && overrun == dropped % 0x1_0000
      modifies `count
      ensures index == (taken + dropped) % 0x1_0000 && count == (taken + cnt) % 0x1_0000
    {
      AddModulo(taken, overrun);
      AddModulo(dropped, taken);
      AddModulo(taken, cnt);
      index := (count + overrun) % 0x1_0000;
      count := (count + cnt) % 0x1_0000;
    }

    /** The part of *_getdata with interrupts off. */
    method Take(cnt: u16) returns (inFrame: bool, index: u16, samples: seq<T>)
      requires Valid() && pbuf != null && cnt <= |Queue()|
      modifies `bufRx, `count, `taken
      ensures inFrame == InFrame(old(bufRx), cnt, bufIdx)
      ensures inFrame ==>
                && Valid() && Queue() == old(Queue())[cnt..] && taken == old(taken) + cnt
                && index == (old(taken) + dropped) % 0x1_0000 && samples == old(Queue())[..cnt]
                && samples == pushed[old(taken) + dropped..old(taken) + dropped + cnt]
    {
      hide Live, InFrame;
      TailRead(pushed, taken + dropped, cnt);
      index := TakeIndex(cnt);
      inFrame, samples := CopyOut(cnt);
      taken := taken + cnt;
    }

    /**
      *_getdata: nothing while the driver is off; otherwise the header and the oldest `cnt` samples, exactly if the copy
      stays in frame. Where it does not, nothing is promised any more.
    */
    method GetData(cnt: u16) returns (on: bool, inFrame: bool, block: Block<T>)
      requires Valid()
      requires init > 0 ==> cnt <= |Queue()|
      modifies `bufRx, `count, `taken, `end, `last
      ensures on == (init > 0)
      ensures !on ==> Valid() && View() == old(View())
      ensures on ==> inFrame == InFrame(old(bufRx), cnt, bufIdx)
      ensures on && inFrame ==>
                && Valid() && View() == TraceStep(old(View()), Op.Read(cnt), bufIdx) && block == last
                && block.samples == pushed[old(taken) + dropped..old(taken) + dropped + cnt]
    {
      hide Live, InFrame;
      if init <= 0 {
        return false, true, Block(0, 0, []);
      }
      var index, samples;
      inFrame, index, samples := Take(cnt);
      block := Block(cnt, index, samples);
      end, last := old(taken) + dropped + cnt, block;
      on := true;
    }
  }
}
