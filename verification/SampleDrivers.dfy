/**
  The interrupt handlers that feed the sample ring: the ADC's two, and the timer
  state machines of the INA219 and of the MLX90614 with its packet error code
  (section 5.4 of SMBus 2.0). What a register read returns is passed in.
*/
module SampleDrivers {
  import opened SampleRing

  // ---------------------------------------------------------------- ADC

  datatype AdcSample = AdcSample(us0: u16, us1: u16)

  /** How often a 16-bit counter has come round after `n` increments. */
  function Wraps(n: nat): nat {
    n / 0x1_0000
  }

  lemma WrapSeen(n: nat)
    ensures (n + 1) % 0x1_0000 == 0 <==> Wraps(n + 1) > Wraps(n)
    ensures Wraps(n + 1) >= Wraps(n)
  {
  }

  /** One slot of the ADC ring; the driver notes when its 16-bit loss counter comes round. */
  method AdcPush(p: Ring<AdcSample>, x: AdcSample)
    requires p.Valid() && p.pbuf != null
    modifies p.pbuf, p`bufRx, p`bufTx, p`overrun, p`pushed, p`dropped, p`init
    ensures p.Valid() && p.Queue() == Newest(old(p.Queue()) + [x], p.bufIdx) && p.pushed == old(p.pushed) + [x]
    ensures p.dropped == old(p.dropped) + if |old(p.Queue())| == p.bufIdx then 1 else 0
    ensures p.init == if p.dropped > old(p.dropped) && p.dropped % 0x1_0000 == 0 then 2 else old(p.init)
  {
    p.Store(x);
    var lost := p.Commit(x);
    if lost {
      if p.overrun == 0 {
        p.init := 2;
      }
    }
  }

  /** adc_int_handler */
  method AdcHandler(p: Ring<AdcSample>, w: (u16, u16, u16, u16))
    requires p.Valid()
    modifies p.pbuf, p`bufRx, p`bufTx, p`overrun, p`pushed, p`dropped, p`init
    ensures p.Valid()
    ensures p.pbuf == null ==> p.pushed == old(p.pushed) && p.dropped == old(p.dropped)
    ensures p.pbuf != null ==>
              && p.Queue() == Newest(old(p.Queue()) + [AdcSample(w.3, w.2)], p.bufIdx)
              && p.pushed == old(p.pushed) + [AdcSample(w.3, w.2)]
              && p.init == (if Wraps(p.dropped) > Wraps(old(p.dropped)) then 2 else old(p.init))
  {
    if p.pbuf != null {
      WrapSeen(p.dropped);
      AdcPush(p, AdcSample(w.3, w.2));
    }
  }

  /** adc_int_handler_audio: two samples in one interrupt, both counted. */
  method AdcHandlerAudio(p: Ring<AdcSample>, w: (u16, u16, u16, u16))
    requires p.Valid()
    modifies p.pbuf, p`bufRx, p`bufTx, p`overrun, p`pushed, p`dropped, p`init
    ensures p.Valid()
    ensures p.pbuf == null ==> p.pushed == old(p.pushed) && p.dropped == old(p.dropped)
    ensures p.pbuf != null ==>
              && p.Queue() == Newest(old(p.Queue()) + [AdcSample(w.0, w.1), AdcSample(w.2, w.3)], p.bufIdx)
              && p.pushed == old(p.pushed) + [AdcSample(w.0, w.1), AdcSample(w.2, w.3)]
              && p.dropped == old(p.dropped) + |old(p.Queue())| + 2 - |p.Queue()|
              && p.init == (if Wraps(p.dropped) > Wraps(old(p.dropped)) then 2 else old(p.init))
  {
    hide Live, Newest;
    if p.pbuf != null {
      ghost var q := p.Queue();
      var first, second := AdcSample(w.0, w.1), AdcSample(w.2, w.3);
      WrapSeen(p.dropped);
      WrapSeen(p.dropped + 1);
      AdcPush(p, first);
      AdcPush(p, second);
      NewestTwice(q + [first], [second], p.bufIdx);
      assert q + [first] + [second] == q + [first, second];
    }
  }

  // ---------------------------------------------------------------- INA219

  datatype IvSample = IvSample(voltageLo: bv8, voltageHi: bv8, currentLo: bv8, currentHi: bv8)

  class Ina219 {
    const ring: Ring<IvSample>
    var status: int
    var errs: u16

    constructor (ring: Ring<IvSample>)
      ensures this.ring == ring && status == 0 && errs == 0
    {
      this.ring, status, errs := ring, 0, 0;
    }

    /** ina_tick_handler; `abort` is the bus's abort flag, `fifo` the next bytes of its receive queue. */
    method Tick(abort: bool, fifo: (bv8, bv8, bv8, bv8))
      requires ring.Valid()
      modifies `status, `errs, ring.pbuf, ring`bufRx, ring`bufTx, ring`overrun, ring`pushed, ring`dropped
      ensures ring.Valid()
      ensures status == match old(status) { case 1 => 2 case 2 => 3 case 3 => 4 case 4 => if abort then 0 else 4 case _ => 1 }
      ensures errs == if old(status) == 4 && abort then (old(errs) + 1) % 0x1_0000 else old(errs)
      ensures ring.Queue() == if old(status) == 4 && !abort && ring.pbuf != null
                              then Newest(old(ring.Queue()) + [IvSample(fifo.1, fifo.0, fifo.3, fifo.2)], ring.bufIdx)
                              else old(ring.Queue())
      ensures ring.pushed == if old(status) == 4 && !abort && ring.pbuf != null
                             then old(ring.pushed) + [IvSample(fifo.1, fifo.0, fifo.3, fifo.2)] else old(ring.pushed)
    {
      match status {
        case 1 => status := 2;
        case 2 => status := 3;
        case 3 => status := 4;
        case 4 =>
          if abort {
            errs := (errs + 1) % 0x1_0000;
            status := 0;
          } else {
            if ring.pbuf != null {
              var _ := ring.Push(IvSample(fifo.1, fifo.0, fifo.3, fifo.2));
            }
            status := 4;
          }
        case _ => status := 1;
      }
    }
  }

  // ---------------------------------------------------------------- packet error code

  /** One shift of the check register: the polynomial x^8 + x^2 + x + 1. */
  function Shift(x: bv8): bv8 {
    (x << 1) ^ (if x & 128 != 0 then 7 else 0)
  }

  /** The shifts that are left after the first `done`. */
  function ShiftFrom(x: bv8, done: nat): bv8
    decreases 8 - done, x
  {
    if done >= 8 then x else ShiftFrom(Shift(x), done + 1)
  }

  function Crc(x: bv8): bv8 {
    ShiftFrom(x, 0)
  }

  /** crc8 */
  method Crc8(b: bv8) returns (x: bv8)
    ensures x == Crc(b)
  {
    x := b;
    var i := 8;
    while i != 0
      invariant 0 <= i <= 8 && ShiftFrom(x, 8 - i) == Crc(b)
    {
      x := (x << 1) ^ (if x & 128 != 0 then 7 else 0);
      i := i - 1;
    }
  }

  /** The division register after one more message bit. */
  function FeedBit(reg: bv8, bit: bool): bv8 {
    (reg << 1) ^ (if (reg & 128 != 0) != bit then 7 else 0)
  }

  function FeedBits(reg: bv8, bits: seq<bool>): bv8
    decreases |bits|
  {
    if bits == [] then reg else FeedBits(FeedBit(reg, bits[0]), bits[1..])
  }

  /** A byte's bits, the most significant first, from bit `i` of them on. */
  function BitsFrom(b: bv8, i: nat): (bits: seq<bool>)
    ensures i <= 8 ==> |bits| == 8 - i
    decreases 8 - i, b
  {
    if i >= 8 then [] else [b & 128 != 0] + BitsFrom(b << 1, i + 1)
  }

  function MessageBits(msg: seq<bv8>): seq<bool>
    decreases |msg|
  {
    if msg == [] then [] else MessageBits(msg[..|msg| - 1]) + BitsFrom(msg[|msg| - 1], 0)
  }

  /** The packet error code: the remainder of the bits of the message, as section 5.4 of SMBus 2.0 defines it. */
  function Pec(msg: seq<bv8>): bv8 {
    FeedBits(0, MessageBits(msg))
  }

  lemma {:induction false} FeedConcat(reg: bv8, s: seq<bool>, t: seq<bool>)
    ensures FeedBits(reg, s + t) == FeedBits(FeedBits(reg, s), t)
    decreases |s|
  {
    if s == [] {
      assert s + t == t;
    } else {
      FeedConcat(FeedBit(reg, s[0]), s[1..], t);
      assert (s + t)[1..] == s[1..] + t;
    }
  }

  lemma ShiftDistributes(reg: bv8, b: bv8)
    ensures (reg ^ b) << 1 == (reg << 1) ^ (b << 1)
    ensures ((reg ^ b) & 128 != 0) == ((reg & 128 != 0) != (b & 128 != 0))
  {
  }

  lemma XorSwaps(a: bv8, b: bv8, c: bv8)
    ensures (a ^ b) ^ c == (a ^ c) ^ b
  {
  }

  lemma ShiftIsFeed(reg: bv8, b: bv8)
    ensures Shift(reg ^ b) == FeedBit(reg, b & 128 != 0) ^ (b << 1)
  {
    ShiftDistributes(reg, b);
    XorSwaps(reg << 1, b << 1, if (reg ^ b) & 128 != 0 then 7 else 0);
  }

  lemma NothingLeft(b: bv8)
    ensures b << 1 << 1 << 1 << 1 << 1 << 1 << 1 << 1 == 0
  {
  }

  /** `b` shifted left `n` times. */
  function Left(b: bv8, n: nat): bv8
    decreases n
  {
    if n == 0 then b else Left(b << 1, n - 1)
  }

  /** Folding a byte in first and shifting eight times is feeding its eight bits. */
  lemma {:induction false} BytewiseIsBitwise(reg: bv8, b: bv8, i: nat)
    requires i <= 8 && Left(b, 8 - i) == 0
    ensures ShiftFrom(reg ^ b, i) == FeedBits(reg, BitsFrom(b, i))
    decreases 8 - i
  {
    if i < 8 {
      ShiftIsFeed(reg, b);
      BytewiseIsBitwise(FeedBit(reg, b & 128 != 0), b << 1, i + 1);
      assert BitsFrom(b, i)[1..] == BitsFrom(b << 1, i + 1);
    }
  }

  lemma ByteFed(reg: bv8, b: bv8)
    ensures Crc(reg ^ b) == FeedBits(reg, BitsFrom(b, 0))
  {
    NothingLeft(b);
    assert Left(b, 8) == Left(b << 1 << 1, 6) == Left(b << 1 << 1 << 1 << 1, 4);
    BytewiseIsBitwise(reg, b, 0);
  }

  /** The next byte of a message, folded into the code of what came before it. */
  lemma PecGrows(msg: seq<bv8>, reg: bv8, b: bv8)
    requires Pec(msg) == reg
    ensures Pec(msg + [b]) == Crc(b ^ reg)
  {
    assert (msg + [b])[..|msg|] == msg;
    FeedConcat(0, MessageBits(msg), BitsFrom(b, 0));
    ByteFed(reg, b);
    assert reg ^ b == b ^ reg;
  }

  lemma {:induction false} Unrolled(x: bv8, n: nat)
    requires n + 4 <= 8
    ensures ShiftFrom(x, n) == ShiftFrom(Shift(Shift(Shift(Shift(x)))), n + 4)
  {
    assert ShiftFrom(x, n) == ShiftFrom(Shift(x), n + 1);
    assert ShiftFrom(Shift(x), n + 1) == ShiftFrom(Shift(Shift(x)), n + 2);
    assert ShiftFrom(Shift(Shift(x)), n + 2) == ShiftFrom(Shift(Shift(Shift(x))), n + 3);
  }

  lemma CrcUnrolled(x: bv8)
    ensures Crc(x) == Shift(Shift(Shift(Shift(Shift(Shift(Shift(Shift(x))))))))
  {
    Unrolled(x, 0);
    Unrolled(Shift(Shift(Shift(Shift(x)))), 4);
  }

  /** The bytes before a word: write address, command, read address. */
  function Header(cmd: bv8): seq<bv8> {
    [0xB4] + [cmd] + [0xB5]
  }

  lemma HeaderCode(cmd: bv8)
    ensures Pec(Header(cmd)) == Crc(0xB5 ^ Crc(cmd ^ Crc(0xB4)))
  {
    assert [] + [0xB4 as bv8] == [0xB4];
    PecGrows([], 0, 0xB4);
    PecGrows([0xB4], Crc(0xB4), cmd);
    PecGrows([0xB4] + [cmd], Crc(cmd ^ Crc(0xB4)), 0xB5);
  }

  lemma HeaderCodeValues()
    ensures Crc(0xB5 ^ Crc(0x07 ^ Crc(0xB4))) == 0x28 && Crc(0xB5 ^ Crc(0x06 ^ Crc(0xB4))) == 0x3D
  {
    CrcUnrolled(0xB4);
    CrcUnrolled(0x07 ^ Crc(0xB4));
    CrcUnrolled(0x06 ^ Crc(0xB4));
    CrcUnrolled(0xB5 ^ Crc(0x07 ^ Crc(0xB4)));
    CrcUnrolled(0xB5 ^ Crc(0x06 ^ Crc(0xB4)));
  }

  /** The two constants of the driver are the codes of the headers it does not see. */
  lemma SeedsAreHeaderCodes()
    ensures Pec(Header(0x07)) == 0x28 && Pec(Header(0x06)) == 0x3D
  {
    HeaderCode(0x07);
    HeaderCode(0x06);
    HeaderCodeValues();
  }

  /** From the code of the header, the driver's nested calls compute the code of the whole transaction. */
  lemma DriverChecksPec(cmd: bv8, seed: bv8, lo: bv8, hi: bv8)
    requires Pec(Header(cmd)) == seed
    ensures Crc(hi ^ Crc(lo ^ seed)) == Pec(Header(cmd) + [lo] + [hi])
  {
    PecGrows(Header(cmd), seed, lo);
    PecGrows(Header(cmd) + [lo], Crc(lo ^ seed), hi);
  }

  lemma {:induction false} ShiftsInjective(x: bv8, y: bv8, done: nat)
    ensures ShiftFrom(x, done) == ShiftFrom(y, done) ==> x == y
    decreases 8 - done
  {
    if done < 8 {
      ShiftsInjective(Shift(x), Shift(y), done + 1);
    }
  }

  /** A word as read from the bus, with the check byte that came with it. */
  datatype Word = Word(lo: bv8, hi: bv8, pec: bv8)

  /** The check byte is the packet error code of the transaction that read the word. */
  predicate RightCode(cmd: bv8, w: Word) {
    w.pec == Pec(Header(cmd) + [w.lo] + [w.hi])
  }

  lemma CrcInjective(x: bv8, y: bv8)
    ensures Crc(x) == Crc(y) ==> x == y
  {
    ShiftsInjective(x, y, 0);
  }

  lemma XorInjective(a: bv8, b: bv8, c: bv8)
    ensures a ^ c == b ^ c ==> a == b
    ensures c ^ a == c ^ b ==> a == b
  {
  }

  /** The code distinguishes any two values of either byte. */
  lemma HighByteMatters(reg: bv8, hi: bv8, other: bv8)
    ensures Crc(hi ^ reg) == Crc(other ^ reg) ==> hi == other
  {
    CrcInjective(hi ^ reg, other ^ reg);
    XorInjective(hi, other, reg);
  }

  lemma LowByteMatters(seed: bv8, lo: bv8, other: bv8, hi: bv8)
    ensures Crc(hi ^ Crc(lo ^ seed)) == Crc(hi ^ Crc(other ^ seed)) ==> lo == other
  {
    hide *;
    CrcInjective(hi ^ Crc(lo ^ seed), hi ^ Crc(other ^ seed));
    XorInjective(Crc(lo ^ seed), Crc(other ^ seed), hi);
    HighByteMatters(seed, lo, other);
  }

  /**
    No change confined to one byte of a word keeps its code, whatever came before
    it; so with the code itself unchanged, the driver rejects the word.
  */
  lemma OneByteErrorDetected(seed: bv8, lo: bv8, hi: bv8, bad: bv8)
    ensures bad != lo ==> Crc(hi ^ Crc(bad ^ seed)) != Crc(hi ^ Crc(lo ^ seed))
    ensures bad != hi ==> Crc(bad ^ Crc(lo ^ seed)) != Crc(hi ^ Crc(lo ^ seed))
  {
    LowByteMatters(seed, lo, bad, hi);
    HighByteMatters(Crc(lo ^ seed), hi, bad);
  }

  // ---------------------------------------------------------------- MLX90614

  datatype TempSample = TempSample(objLo: bv8, objHi: bv8, ambLo: bv8, ambHi: bv8)

  class Mlx90614 {
    const ring: Ring<TempSample>
    var status: int
    var errs: u16

    constructor (ring: Ring<TempSample>)
      ensures this.ring == ring && status == 0 && errs == 0
    {
      this.ring, status, errs := ring, 0, 0;
    }

    /**
      The handler once the words are in: they are written to the free slot as they
      come, and only when both codes are right does the slot become a sample.
    */
    method Receive(abort: bool, obj: Word, amb: Word, objOk: bool, ambOk: bool)
      requires ring.Valid()
      modifies `status, `errs, ring.pbuf, ring`bufRx, ring`bufTx, ring`overrun, ring`pushed, ring`dropped
      ensures ring.Valid()
      ensures var rejected := abort || (ring.pbuf != null && !(objOk && ambOk));
              && errs == (if rejected then (old(errs) + 1) % 0x1_0000 else old(errs))
              && status == (if rejected then 0 else 3)
              && ring.Queue() == (if !rejected && ring.pbuf != null
                                  then Newest(old(ring.Queue()) + [TempSample(obj.lo, obj.hi, amb.lo, amb.hi)], ring.bufIdx)
                                  else old(ring.Queue()))
              && ring.pushed == (if !rejected && ring.pbuf != null
                                 then old(ring.pushed) + [TempSample(obj.lo, obj.hi, amb.lo, amb.hi)] else old(ring.pushed))
              && (rejected ==> ring.overrun == old(ring.overrun))
    {
      hide Live, Newest;
      if abort {
        errs := (errs + 1) % 0x1_0000;
        status := 0;
        return;
      }
      if ring.pbuf != null {
        var slot := ring.pbuf[ring.bufTx];
        ring.Store(slot.(objLo := obj.lo, objHi := obj.hi));
        if !objOk {
          errs := (errs + 1) % 0x1_0000;
          status := 0;
          return;
        }
        ring.Store(TempSample(obj.lo, obj.hi, amb.lo, amb.hi));
        if !ambOk {
          errs := (errs + 1) % 0x1_0000;
          status := 0;
          return;
        }
        var _ := ring.Commit(TempSample(obj.lo, obj.hi, amb.lo, amb.hi));
      }
      status := 3;
    }

    /** The nested crc8 calls on one word, from the code of the header of its transaction. */
    method CheckWord(seed: bv8, w: Word, ghost cmd: bv8) returns (ok: bool)
      requires Pec(Header(cmd)) == seed
      ensures ok == RightCode(cmd, w)
    {
      DriverChecksPec(cmd, seed, w.lo, w.hi);
      var inner := Crc8(w.lo ^ seed);
      var code := Crc8(w.hi ^ inner);
      ok := code == w.pec;
    }

    /** The two tests of the handler; the object's word comes from command 7, the ambient one from command 6. */
    method CheckWords(obj: Word, amb: Word) returns (objOk: bool, ambOk: bool)
      ensures objOk == RightCode(0x07, obj) && ambOk == RightCode(0x06, amb)
    {
      SeedsAreHeaderCodes();
      objOk := CheckWord(0x28, obj, 0x07);
      ambOk := CheckWord(0x3D, amb, 0x06);
    }

    /** mlx_tick_handler */
    method Tick(abort: bool, obj: Word, amb: Word)
      requires ring.Valid()
      modifies `status, `errs, ring.pbuf, ring`bufRx, ring`bufTx, ring`overrun, ring`pushed, ring`dropped
      ensures ring.Valid()
      ensures var reading := old(status) == 3;
              var rejected := reading && (abort || (ring.pbuf != null && !(RightCode(0x07, obj) && RightCode(0x06, amb))));
              && errs == (if rejected then (old(errs) + 1) % 0x1_0000 else old(errs))
              && status == (if rejected then 0 else if old(status) == 1 then 2 else if old(status) == 2 || reading then 3 else 1)
              && ring.Queue() == (if reading && !rejected && ring.pbuf != null
                                  then Newest(old(ring.Queue()) + [TempSample(obj.lo, obj.hi, amb.lo, amb.hi)], ring.bufIdx)
                                  else old(ring.Queue()))
              && ring.pushed == (if reading && !rejected && ring.pbuf != null
                                 then old(ring.pushed) + [TempSample(obj.lo, obj.hi, amb.lo, amb.hi)] else old(ring.pushed))
              && (rejected ==> ring.overrun == old(ring.overrun))
    {
      hide *;
      match status {
        case 1 => status := 2;
        case 2 => status := 3;
        case 3 =>
          var objOk, ambOk := CheckWords(obj, amb);
          Receive(abort, obj, amb, objOk, ambOk);
        case _ => status := 1;
      }
    }
  }
}
