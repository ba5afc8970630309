/**
  The eFuse record log: how records are laid out in the 256 bytes, and the reader
  that collects one user's 32 bytes from it.

  Bytes are integers; the reader's shifts and masks by constants are written as
  division and remainder. A read that times out yields 0xFF like blank memory, so
  the contents may be any bytes at all.
*/
module EfuseLog {

  type byte = x: int | 0 <= x < 0x100

  type Rom = s: seq<byte> | |s| == 0x100 witness seq(0x100, i => 0xFF)

  const EFUSE_SECTION := 11

  /** The last address at which the reader starts a record. */
  const LAST_START := 0x7E

  const BLANK: byte := 0xFF

  /** _HALEFUSEOneByteReadRAM: a window of addresses reads as blank, and so does everything past the end. */
  function ReadByte(rom: Rom, addr: nat): byte {
    if 160 <= addr <= 160 + 0x33 then BLANK else if addr <= 0xFF then rom[addr] else BLANK
  }

  /** Addresses 0xA0 to 0xD3 are kept from the reader. */
  lemma WindowReadsBlank(rom: Rom, addr: nat)
    ensures 0xA0 <= addr <= 0xD3 || addr > 0xFF ==> ReadByte(rom, addr) == 0xFF
    ensures addr < 0xA0 || 0xD3 < addr <= 0xFF ==> ReadByte(rom, addr) == rom[addr]
  {
  }

  // ---------------------------------------------------------------- records

  datatype Word = Absent | Present(lo: byte, hi: byte)

  /** A section of eight bytes written in up to four words; the short form has a 4-bit section, the long one 7 bits. */
  datatype Record =
    | Short(section: nat, words: seq<Word>)
    | Long(section: nat, spare: bool, words: seq<Word>)

  /** The enable nibble, one bit for each word that is absent, the first word in the lowest bit. */
  function AbsentMask(ws: seq<Word>): nat
    decreases |ws|
  {
    if ws == [] then 0 else (if ws[0].Absent? then 1 else 0) + 2 * AbsentMask(ws[1..])
  }

  function Payload(ws: seq<Word>): seq<byte>
    decreases |ws|
  {
    if ws == [] then [] else (if ws[0].Absent? then [] else [ws[0].lo, ws[0].hi]) + Payload(ws[1..])
  }

  /** Records that can be told from each other and from blank memory. */
  predicate WellFormed(r: Record) {
    && |r.words| == 4
    && match r
       case Short(section, words) => section < 16 && AbsentMask(words) < 15
       case Long(section, spare, words) => section < 128 && !(section % 8 == 7 && spare)
  }

  lemma {:induction false} MaskFits(ws: seq<Word>)
    requires |ws| == 4
    ensures AbsentMask(ws) < 16
  {
    assert AbsentMask(ws[1..][1..][1..][1..]) == 0;
    assert AbsentMask(ws[1..][1..][1..]) <= 1;
    assert AbsentMask(ws[1..][1..]) <= 3;
  }

  lemma {:induction false} PayloadFits(ws: seq<Word>)
    ensures |Payload(ws)| <= 2 * |ws|
    decreases |ws|
  {
    if ws != [] {
      PayloadFits(ws[1..]);
    }
  }

  function Encode(r: Record): (e: seq<byte>)
    requires WellFormed(r)
    ensures 1 <= |e| <= 10
  {
    MaskFits(r.words);
    PayloadFits(r.words);
    match r
    case Short(section, words) => [section * 16 + AbsentMask(words)] + Payload(words)
    case Long(section, spare, words) =>
      [section % 8 * 32 + (if spare then 16 else 0) + 15, section / 8 * 16 + AbsentMask(words)] + Payload(words)
  }

  // ---------------------------------------------------------------- replay

  /** The record belongs to one of the four sections of `user`. */
  predicate Mine(r: Record, user: int) {
    r.Long? && (user + EFUSE_SECTION) * 4 <= r.section < (user + EFUSE_SECTION + 1) * 4
  }

  /**
    The word that one record gives to index `k` of the user's 32 bytes: section 44 holds the first eight bytes of user 0,
    and every user has four sections.
  */
  function Gives(r: Record, user: int, k: nat): Word
    requires |r.words| == 4
  {
    if r.Long? && k < 32 && r.section == 4 * user + 44 + k / 8 then r.words[k % 8 / 2] else Absent
  }

  /** The last record that gives byte `k`, or what was there before. */
  function LastWriter(rs: seq<Record>, user: int, k: nat, before: byte): byte
    requires forall r :: r in rs ==> |r.words| == 4
    decreases |rs|
  {
    if rs == [] then before
    else match Gives(rs[|rs| - 1], user, k)
      case Present(lo, hi) => if k % 2 == 0 then lo else hi
      case Absent => LastWriter(rs[..|rs| - 1], user, k, before)
  }

  /** Write the present words at `at` and every two bytes after it. */
  function PutWords(buf: seq<byte>, at: nat, ws: seq<Word>): (r: seq<byte>)
    requires at + 2 * |ws| <= |buf|
    ensures |r| == |buf|
    decreases |ws|
  {
    if ws == [] then buf
    else PutWords(if ws[0].Absent? then buf else buf[at := ws[0].lo][at + 1 := ws[0].hi], at + 2, ws[1..])
  }

  function Apply(buf: seq<byte>, r: Record, user: int): (b: seq<byte>)
    requires |buf| >= 32 && |r.words| == 4
    ensures |b| == |buf|
  {
    if Mine(r, user) then PutWords(buf, (r.section - (user + EFUSE_SECTION) * 4) * 8, r.words) else buf
  }

  function Replay(buf: seq<byte>, rs: seq<Record>, user: int): (b: seq<byte>)
    requires |buf| >= 32 && forall r :: r in rs ==> |r.words| == 4
    ensures |b| == |buf|
    decreases |rs|
  {
    if rs == [] then buf else Replay(Apply(buf, rs[0], user), rs[1..], user)
  }

  lemma {:induction false} PutWordsAt(buf: seq<byte>, at: nat, ws: seq<Word>, k: nat)
    requires at + 2 * |ws| <= |buf| && k < |buf|
    ensures PutWords(buf, at, ws)[k] ==
            if at <= k < at + 2 * |ws| && ws[(k - at) / 2].Present? then
              (if (k - at) % 2 == 0 then ws[(k - at) / 2].lo else ws[(k - at) / 2].hi)
            else buf[k]
    decreases |ws|
  {
    if ws != [] {
      var b := if ws[0].Absent? then buf else buf[at := ws[0].lo][at + 1 := ws[0].hi];
      PutWordsAt(b, at + 2, ws[1..], k);
      if at + 2 <= k < at + 2 * |ws| {
        assert (k - at) / 2 == (k - (at + 2)) / 2 + 1;
      }
    }
  }

  lemma ApplyAt(buf: seq<byte>, r: Record, user: int, k: nat)
    requires |buf| >= 32 && |r.words| == 4 && k < |buf|
    ensures Apply(buf, r, user)[k] == match Gives(r, user, k)
                                      case Present(lo, hi) => (if k % 2 == 0 then lo else hi)
                                      case Absent => buf[k]
  {
    if Mine(r, user) {
      var n := r.section - (user + EFUSE_SECTION) * 4;
      PutWordsAt(buf, n * 8, r.words, k);
      assert n * 8 <= k < n * 8 + 8 <==> k < 32 && k / 8 == n;
    }
  }

  lemma {:induction false} ReplayLast(buf: seq<byte>, rs: seq<Record>, user: int)
    requires |buf| >= 32 && rs != [] && forall r :: r in rs ==> |r.words| == 4
    ensures Replay(buf, rs, user) == Apply(Replay(buf, rs[..|rs| - 1], user), rs[|rs| - 1], user)
    decreases |rs|
  {
    if |rs| > 1 {
      ReplayLast(Apply(buf, rs[0], user), rs[1..], user);
      assert rs[1..][..|rs| - 2] == rs[..|rs| - 1][1..];
    }
  }

  /** Replaying a log is last-writer-wins, byte by byte. */
  lemma {:induction false} ReplayIsLastWriter(buf: seq<byte>, rs: seq<Record>, user: int, k: nat)
    requires |buf| >= 32 && k < |buf| && forall r :: r in rs ==> |r.words| == 4
    ensures Replay(buf, rs, user)[k] == LastWriter(rs, user, k, buf[k])
    decreases |rs|
  {
    if rs != [] {
      ReplayLast(buf, rs, user);
      ReplayIsLastWriter(buf, rs[..|rs| - 1], user, k);
      ApplyAt(Replay(buf, rs[..|rs| - 1], user), rs[|rs| - 1], user, k);
    }
  }

  // ---------------------------------------------------------------- what any contents mean

  /** Read the words enabled by `mask`, lowest bit first; `n` of them are left. */
  function DecodeWords(rom: Rom, at: nat, mask: nat, n: nat): (ws: seq<Word>)
    ensures |ws| == n
    decreases n, mask
  {
    if n == 0 then []
    else if mask % 2 == 1 then [Present(ReadByte(rom, at), ReadByte(rom, at + 1))] + DecodeWords(rom, at + 2, mask / 2, n - 1)
    else [Absent] + DecodeWords(rom, at, mask / 2, n - 1)
  }

  /** The bytes that the words of `mask` take. */
  function Span(mask: nat): (s: nat)
    decreases mask
  {
    if mask == 0 then 0 else 2 * (mask % 2) + Span(mask / 2)
  }

  /** The section of a long record, from its two header bytes. */
  function SectionOf(d0: byte, d1: byte): nat {
    (d1 / 16 * 16 + d0 / 16) / 2
  }

  /** The enabled words, from the byte that holds the inverted mask. */
  function Enabled(d: byte): (mask: nat)
    ensures mask < 16
  {
    15 - d % 16
  }

  /** The record that starts at a byte that is not blank. */
  function RecordAt(rom: Rom, at: nat): (r: Record)
    ensures |r.words| == 4
  {
    var d0 := ReadByte(rom, at);
    if d0 % 16 == 15 then
      var d1 := ReadByte(rom, at + 1);
      Long(SectionOf(d0, d1), d0 / 16 % 2 == 1, DecodeWords(rom, at + 2, Enabled(d1), 4))
    else Short(d0 / 16, DecodeWords(rom, at + 1, Enabled(d0), 4))
  }

  /** Where the next record starts. The user plays no part in it. */
  function After(rom: Rom, at: nat): (next: nat)
    ensures next > at
  {
    var d0 := ReadByte(rom, at);
    if d0 % 16 == 15 then at + 2 + Span(Enabled(ReadByte(rom, at + 1))) else at + 1 + Span(Enabled(d0))
  }

  /** The records found from `at` on, up to blank memory or the last start address. */
  function Parse(rom: Rom, at: nat): (rs: seq<Record>)
    ensures forall r :: r in rs ==> |r.words| == 4
    decreases 0x100 - at
  {
    if at > LAST_START || ReadByte(rom, at) == BLANK then [] else [RecordAt(rom, at)] + Parse(rom, After(rom, at))
  }

  /** The addresses at which the reader starts records. */
  function Starts(rom: Rom, at: nat): seq<nat>
    decreases 0x100 - at
  {
    if at > LAST_START || ReadByte(rom, at) == BLANK then [] else [at] + Starts(rom, After(rom, at))
  }

  /** One of the bits of a byte, which is 0 for an enabled word. */
  predicate Zero(d: byte, bit: nat)
    requires bit < 4
  {
    d / (if bit == 0 then 1 else if bit == 1 then 2 else if bit == 2 then 4 else 8) % 2 == 0
  }

  /** How many of the lowest `n` bits are 0. */
  function Zeros(d: byte, n: nat): nat
    requires n <= 4
  {
    if n == 0 then 0 else Zeros(d, n - 1) + if Zero(d, n - 1) then 1 else 0
  }

  lemma DecodeUnfold(rom: Rom, at: nat, mask: nat, n: nat)
    requires n > 0
    ensures var next := if mask % 2 == 1 then at + 2 else at;
            var ws := DecodeWords(rom, at, mask, n);
            && ws[0] == (if mask % 2 == 1 then Present(ReadByte(rom, at), ReadByte(rom, at + 1)) else Absent)
            && ws[1..] == DecodeWords(rom, next, mask / 2, n - 1)
            && Span(mask) == (if mask % 2 == 1 then 2 else 0) + Span(mask / 2)
  {
  }

  lemma Complement(m: nat, n: nat, full: nat)
    requires m + n == 2 * full + 1
    ensures m / 2 + n / 2 == full && m % 2 == 1 - n % 2
  {
  }

  lemma LowBits(d: byte)
    ensures d % 16 % 2 == d % 2 && d % 16 / 2 % 2 == d / 2 % 2 && d % 16 / 2 / 2 % 2 == d / 4 % 2 && d % 16 / 2 / 2 / 2 % 2 == d / 8 % 2
  {
    var q, n := d / 16, d % 16;
    assert d / 2 == 8 * q + n / 2 && d / 4 == 4 * q + n / 2 / 2 && d / 8 == 2 * q + n / 2 / 2 / 2;
  }

  /** The enabled words are the zero bits. */
  lemma EnabledBits(d: byte)
    ensures var m := Enabled(d);
            && (m % 2 == 1 <==> Zero(d, 0)) && (m / 2 % 2 == 1 <==> Zero(d, 1))
            && (m / 2 / 2 % 2 == 1 <==> Zero(d, 2)) && (m / 2 / 2 / 2 % 2 == 1 <==> Zero(d, 3)) && m / 2 / 2 / 2 / 2 == 0
  {
    hide Zero;
    var m, n := Enabled(d), d % 16;
    var m1, n1 := m / 2, n / 2;
    var m2, n2 := m1 / 2, n1 / 2;
    var m3, n3 := m2 / 2, n2 / 2;
    LowBits(d);
    Complement(m, n, 7);
    Complement(m1, n1, 3);
    Complement(m2, n2, 1);
    Complement(m3, n3, 0);
    ZeroBits(d, n % 2, n1 % 2, n2 % 2, n3 % 2);
  }

  lemma ZeroBits(d: byte, b0: nat, b1: nat, b2: nat, b3: nat)
    requires d % 2 == b0 && d / 2 % 2 == b1 && d / 4 % 2 == b2 && d / 8 % 2 == b3
    ensures (Zero(d, 0) <==> b0 == 0) && (Zero(d, 1) <==> b1 == 0) && (Zero(d, 2) <==> b2 == 0) && (Zero(d, 3) <==> b3 == 0)
  {
  }

  /** The four words behind a header byte: each zero bit takes the next two bytes. */
  lemma WordsByBits(rom: Rom, at: nat, d: byte, i: nat)
    requires i < 4
    ensures DecodeWords(rom, at, Enabled(d), 4)[i] ==
            if Zero(d, i) then Present(ReadByte(rom, at + 2 * Zeros(d, i)), ReadByte(rom, at + 2 * Zeros(d, i) + 1)) else Absent
    ensures Span(Enabled(d)) == 2 * Zeros(d, 4)
  {
    hide Zero, Enabled, ReadByte, DecodeWords, Span;
    EnabledBits(d);
    var m := Enabled(d);
    var a1 := at + if Zero(d, 0) then 2 else 0;
    var a2 := a1 + if Zero(d, 1) then 2 else 0;
    var a3 := a2 + if Zero(d, 2) then 2 else 0;
    DecodeUnfold(rom, at, m, 4);
    DecodeUnfold(rom, a1, m / 2, 3);
    DecodeUnfold(rom, a2, m / 2 / 2, 2);
    DecodeUnfold(rom, a3, m / 2 / 2 / 2, 1);
    SpanOfNone();
    assert Zeros(d, 1) == if Zero(d, 0) then 1 else 0;
    assert Zeros(d, 2) == Zeros(d, 1) + if Zero(d, 1) then 1 else 0;
    assert Zeros(d, 3) == Zeros(d, 2) + if Zero(d, 2) then 1 else 0;
    assert Zeros(d, 4) == Zeros(d, 3) + if Zero(d, 3) then 1 else 0;
  }

  /**
    A record in terms of its bytes: which user's byte `k` it gives, and from where, and where the next record starts. A
    long header is a byte that ends in 15; its three upper bits and the four upper bits of the next byte are the section.
  */
  lemma RecordByBytes(rom: Rom, at: nat, user: int, k: nat)
    requires k < 32
    ensures var d0, d1 := ReadByte(rom, at), ReadByte(rom, at + 1);
            var i := k % 8 / 2;
            && Gives(RecordAt(rom, at), user, k)
               == (if d0 % 16 == 15 && d0 / 32 + 8 * (d1 / 16) == 4 * user + 44 + k / 8 && Zero(d1, i)
                   then Present(ReadByte(rom, at + 2 + 2 * Zeros(d1, i)), ReadByte(rom, at + 3 + 2 * Zeros(d1, i)))
                   else Absent)
            && After(rom, at) == (if d0 % 16 == 15 then at + 2 + 2 * Zeros(d1, 4) else at + 1 + 2 * Zeros(d0, 4))
  {
    hide Zero, Zeros, Enabled, ReadByte, DecodeWords, Span;
    var d0, d1 := ReadByte(rom, at), ReadByte(rom, at + 1);
    WordsByBits(rom, at + 2, d1, k % 8 / 2);
    WordsByBits(rom, at + 1, d0, 0);
    SectionByBits(d0, d1);
  }

  lemma SectionByBits(d0: byte, d1: byte)
    ensures SectionOf(d0, d1) == d0 / 32 + 8 * (d1 / 16)
  {
    assert d0 / 16 / 2 == d0 / 32;
  }

  /** Records start at 0 and each behind the one before, at 0x7E at the latest, as long as no byte 0xFF ends them. */
  lemma {:induction false} WhereRecordsStart(rom: Rom, at: nat)
    ensures var ss := Starts(rom, at);
            && |Parse(rom, at)| == |ss|
            && (forall i :: 0 <= i < |ss| ==> ss[i] <= 0x7E && ReadByte(rom, ss[i]) != 0xFF && Parse(rom, at)[i] == RecordAt(rom, ss[i]))
            && (forall i :: 0 <= i < |ss| - 1 ==> ss[i + 1] == After(rom, ss[i]))
            && (ss != [] ==> ss[0] == at)
            && var end := if ss == [] then at else After(rom, ss[|ss| - 1]);
               end > 0x7E || ReadByte(rom, end) == 0xFF
    decreases 0x100 - at
  {
    hide ReadByte, RecordAt, After;
    if at <= LAST_START && ReadByte(rom, at) != BLANK {
      var ss, rest := Starts(rom, at), Starts(rom, After(rom, at));
      WhereRecordsStart(rom, After(rom, at));
      assert ss == [at] + rest && Parse(rom, at) == [RecordAt(rom, at)] + Parse(rom, After(rom, at));
      forall i | 0 <= i < |ss| - 1
        ensures ss[i + 1] == After(rom, ss[i])
      {
        assert ss[i + 1] == rest[i] && (i > 0 ==> ss[i] == rest[i - 1]);
      }
    }
  }

  // ---------------------------------------------------------------- the reader

  /** The skipping loops: two bytes for every enabled word. */
  method Skip(mask: nat, at: nat) returns (next: nat)
    ensures next == at + Span(mask)
  {
    var i := mask;
    next := at;
    while i != 0
      invariant next + Span(i) == at + Span(mask)
      decreases i
    {
      if i % 2 == 1 {
        next := next + 2;
      }
      i := i / 2;
    }
  }

  lemma {:induction false} RestAbsent(rom: Rom, at: nat, n: nat, buf: seq<byte>, base: nat)
    requires base + 2 * n <= |buf|
    ensures PutWords(buf, base, DecodeWords(rom, at, 0, n)) == buf
    decreases n
  {
    if n > 0 {
      RestAbsent(rom, at, n - 1, buf, base + 2);
      assert DecodeWords(rom, at, 0, n)[1..] == DecodeWords(rom, at, 0, n - 1);
    }
  }

  /** Two payload bytes into the buffer; `at` is the address before the first. */
  method CopyWord(rom: Rom, at: nat, buf: array<byte>, k: nat) returns (next: nat)
    requires k + 1 < buf.Length
    modifies buf
    ensures next == at + 2
    ensures buf[..] == old(buf[..])[k := ReadByte(rom, at + 1)][k + 1 := ReadByte(rom, at + 2)]
  {
    hide *;
    next := at + 1;
    buf[k] := ReadByte(rom, next);
    next := next + 1;
    buf[k + 1] := ReadByte(rom, next);
  }

  /** What one turn of the copying loop leaves to do. */
  lemma CopyStep(rom: Rom, at: nat, mask: nat, n: nat, buf: seq<byte>, k: nat)
    requires 0 < n && k + 2 * n <= |buf|
    ensures var next := if mask % 2 == 1 then at + 2 else at;
            var b := if mask % 2 == 1 then buf[k := ReadByte(rom, at + 1)][k + 1 := ReadByte(rom, at + 2)] else buf;
            && PutWords(buf, k, DecodeWords(rom, at + 1, mask, n)) == PutWords(b, k + 2, DecodeWords(rom, next + 1, mask / 2, n - 1))
            && at + Span(mask) == next + Span(mask / 2)
  {
    hide ReadByte;
    var ws := DecodeWords(rom, at + 1, mask, n);
    var next := if mask % 2 == 1 then at + 2 else at;
    assert ws[1..] == DecodeWords(rom, next + 1, mask / 2, n - 1);
  }

  /** The masks of `n` words. */
  function Masks(n: nat): nat {
    if n == 0 then 1 else 2 * Masks(n - 1)
  }

  lemma FourMasks()
    ensures Masks(4) == 16
  {
  }

  /** The copying loop: `at` is the address before the next payload byte, as in the code. */
  method Copy(rom: Rom, mask: nat, at: nat, buf: array<byte>, base: nat) returns (next: nat)
    requires mask < 16 && base + 8 <= 32 <= buf.Length
    modifies buf
    ensures next == at + Span(mask)
    ensures buf[..] == PutWords(old(buf[..]), base, DecodeWords(rom, at + 1, mask, 4))
  {
    hide PutWords, DecodeWords, Span, ReadByte;
    var bcnt, j := mask, 0;
    next := at;
    ghost var n := 4;
    FourMasks();
    while bcnt != 0
      invariant j == 8 - 2 * n && 0 <= n <= 4 && 0 <= bcnt < Masks(n)
      invariant next >= 0 && next + Span(bcnt) == at + Span(mask)
      invariant PutWords(buf[..], base + j, DecodeWords(rom, next + 1, bcnt, n))
                == PutWords(old(buf[..]), base, DecodeWords(rom, at + 1, mask, 4))
      decreases n
    {
      CopyStep(rom, next, bcnt, n, buf[..], base + j);
      if bcnt % 2 == 1 {
        next := CopyWord(rom, next, buf, base + j);
      }
      bcnt := bcnt / 2;
      j := j + 2;
      n := n - 1;
    }
    RestAbsent(rom, next + 1, n, buf[..], base + j);
    SpanOfNone();
  }

  lemma SpanOfNone()
    ensures Span(0) == 0
  {
  }

  /** The body of the reader's loop, for a record that starts at `at`: both ways of passing it end at the next one. */
  method ReadRecord(rom: Rom, user: int, buf: array<byte>, at: nat) returns (next: nat)
    requires buf.Length >= 32
    modifies buf
    ensures next == After(rom, at)
    ensures buf[..] == Apply(old(buf[..]), RecordAt(rom, at), user)
    ensures forall k :: 0 <= k < 32 ==>
              buf[k] == match Gives(RecordAt(rom, at), user, k)
                        case Present(lo, hi) => (if k % 2 == 0 then lo else hi)
                        case Absent => old(buf[k])
  {
    forall k | 0 <= k < 32
      ensures Apply(buf[..], RecordAt(rom, at), user)[k] == match Gives(RecordAt(rom, at), user, k)
                                                             case Present(lo, hi) => (if k % 2 == 0 then lo else hi)
                                                             case Absent => buf[k]
    {
      ApplyAt(buf[..], RecordAt(rom, at), user, k);
    }
    hide Gives, DecodeWords;
    var addr := at;
    var d0 := ReadByte(rom, addr);
    if d0 % 16 == 15 {
      addr := addr + 1;
      var d1 := ReadByte(rom, addr);
      var offset := SectionOf(d0, d1);
      var bcnt := Enabled(d1);
      if (user + EFUSE_SECTION) * 4 > offset || offset >= (user + EFUSE_SECTION + 1) * 4 {
        addr := Skip(bcnt, addr);
      } else {
        var base := (offset - (EFUSE_SECTION + user) * 4) * 8;
        addr := Copy(rom, bcnt, addr, buf, base);
      }
    } else {
      addr := Skip(Enabled(d0), addr);
    }
    next := addr + 1;
  }

  lemma ReplayStep(rom: Rom, at: nat, buf: seq<byte>, user: int)
    requires at <= LAST_START && ReadByte(rom, at) != BLANK && |buf| >= 32
    ensures Replay(buf, Parse(rom, at), user) == Replay(Apply(buf, RecordAt(rom, at), user), Parse(rom, After(rom, at)), user)
  {
    assert Parse(rom, at)[1..] == Parse(rom, After(rom, at));
  }

  lemma ReplayDone(rom: Rom, at: nat, buf: seq<byte>, user: int)
    requires (at > LAST_START || ReadByte(rom, at) == BLANK) && |buf| >= 32
    ensures Replay(buf, Parse(rom, at), user) == buf && Starts(rom, at) == []
  {
  }

  lemma StartsStep(rom: Rom, at: nat)
    requires at <= LAST_START && ReadByte(rom, at) != BLANK
    ensures Starts(rom, at) == [at] + Starts(rom, After(rom, at))
  {
  }

  /** _ReadEfuseContant, for any contents and any user code. */
  method ReadContent(rom: Rom, user: int, buf: array<byte>) returns (ghost starts: seq<nat>)
    requires buf.Length >= 32
    modifies buf
    ensures buf[..] == Replay(old(buf[..]), Parse(rom, 0), user)
    ensures forall k :: 0 <= k < 32 ==> buf[k] == LastWriter(Parse(rom, 0), user, k, old(buf[k]))
    ensures starts == Starts(rom, 0)
  {
    hide Replay, Parse, Starts, Apply, RecordAt, After, ReadByte, LastWriter;
    var addr := 0;
    starts := [];
    while true
      invariant addr <= LAST_START
      invariant Replay(buf[..], Parse(rom, addr), user) == Replay(old(buf[..]), Parse(rom, 0), user)
      invariant starts + Starts(rom, addr) == Starts(rom, 0)
      decreases LAST_START - addr
    {
      if ReadByte(rom, addr) == BLANK {
        ReplayDone(rom, addr, buf[..], user);
        break;
      }
      ReplayStep(rom, addr, buf[..], user);
      StartsStep(rom, addr);
      assert starts + Starts(rom, addr) == starts + [addr] + Starts(rom, After(rom, addr));
      starts := starts + [addr];
      addr := ReadRecord(rom, user, buf, addr);
      if addr > LAST_START {
        ReplayDone(rom, addr, buf[..], user);
        break;
      }
    }
    forall k | 0 <= k < 32
      ensures buf[..][k] == LastWriter(Parse(rom, 0), user, k, old(buf[..])[k])
    {
      ReplayIsLastWriter(old(buf[..]), Parse(rom, 0), user, k);
    }
  }

  /** What one gets, byte by byte: the last record of the user's own sections that enables the byte. */
  lemma ReaderIsLastWriter(rom: Rom, user: int, before: seq<byte>, k: nat)
    requires |before| == 32 && k < 32
    ensures Replay(before, Parse(rom, 0), user)[k] == LastWriter(Parse(rom, 0), user, k, before[k])
  {
    ReplayIsLastWriter(before, Parse(rom, 0), user, k);
  }

  // ---------------------------------------------------------------- logs written by encoding records

  function EncodeAll(rs: seq<Record>): seq<byte>
    requires forall r :: r in rs ==> WellFormed(r)
    decreases |rs|
  {
    if rs == [] then [] else Encode(rs[0]) + EncodeAll(rs[1..])
  }

  /** The memory holds the log from `at` on, and behind it a blank byte, unless the log reaches beyond the last start. */
  predicate Holds(rom: Rom, at: nat, rs: seq<Record>)
    requires forall r :: r in rs ==> WellFormed(r)
  {
    var e := EncodeAll(rs);
    Stands(rom, at, e) && (at + |e| > LAST_START || ReadByte(rom, at + |e|) == BLANK)
  }

  /** The records that start in time, when the first one starts at `at`. */
  function InTime(rs: seq<Record>, at: nat): (t: seq<Record>)
    requires forall r :: r in rs ==> WellFormed(r)
    ensures t <= rs && forall r :: r in t ==> WellFormed(r)
    decreases |rs|
  {
    if rs == [] || at > LAST_START then [] else [rs[0]] + InTime(rs[1..], at + |Encode(rs[0])|)
  }

  /** The bytes `p` stand in memory from `at` on. */
  predicate Stands(rom: Rom, at: nat, p: seq<byte>) {
    at + |p| <= 0x100 && forall i :: 0 <= i < |p| ==> rom[at + i] == p[i]
  }

  lemma StandsSplit(rom: Rom, at: nat, p: seq<byte>, q: seq<byte>)
    ensures Stands(rom, at, p + q) <==> Stands(rom, at, p) && Stands(rom, at + |p|, q)
  {
    if Stands(rom, at, p + q) {
      forall i | 0 <= i < |q|
        ensures rom[at + |p| + i] == q[i]
      {
        assert (p + q)[|p| + i] == q[i];
      }
      forall i | 0 <= i < |p|
        ensures rom[at + i] == p[i]
      {
        assert (p + q)[i] == p[i];
      }
    }
  }

  lemma DecodeNext(rom: Rom, at: nat, rest: nat, n: nat)
    ensures DecodeWords(rom, at, 2 * rest, n + 1) == [Absent] + DecodeWords(rom, at, rest, n)
    ensures DecodeWords(rom, at, 2 * rest + 1, n + 1)
            == [Present(ReadByte(rom, at), ReadByte(rom, at + 1))] + DecodeWords(rom, at + 2, rest, n)
    ensures Span(2 * rest) == Span(rest) && Span(2 * rest + 1) == 2 + Span(rest)
  {
    assert 2 * rest / 2 == rest && (2 * rest + 1) / 2 == rest;
  }

  /** The mask the reader works with: one bit for each word that is present. */
  function PresentMask(ws: seq<Word>): nat
    decreases |ws|
  {
    if ws == [] then 0 else (if ws[0].Absent? then 0 else 1) + 2 * PresentMask(ws[1..])
  }

  lemma MasksComplement(ws: seq<Word>)
    requires |ws| == 4
    ensures PresentMask(ws) == 15 - AbsentMask(ws)
  {
    var a, b, c := ws[1..], ws[1..][1..], ws[1..][1..][1..];
    assert PresentMask(c[1..]) == 0 && AbsentMask(c[1..]) == 0;
    assert PresentMask(c) + AbsentMask(c) == 1;
    assert PresentMask(b) + AbsentMask(b) == 3;
    assert PresentMask(a) + AbsentMask(a) == 7;
  }

  lemma FirstTwo(rom: Rom, at: nat, p: seq<byte>)
    requires |p| == 2 && Stands(rom, at, p) && at + 2 <= 160
    ensures ReadByte(rom, at) == p[0] && ReadByte(rom, at + 1) == p[1]
  {
    assert rom[at + 0] == p[0] && rom[at + 1] == p[1];
  }

  /** The payload bytes of one word. */
  function First(w: Word): seq<byte> {
    if w.Absent? then [] else [w.lo, w.hi]
  }

  lemma WordsUnfold(ws: seq<Word>)
    requires ws != []
    ensures Payload(ws) == First(ws[0]) + Payload(ws[1..]) && ws == [ws[0]] + ws[1..]
    ensures PresentMask(ws) == 2 * PresentMask(ws[1..]) + if ws[0].Absent? then 0 else 1
  {
  }

  lemma NoWords(rom: Rom, at: nat)
    ensures DecodeWords(rom, at, PresentMask([]), 0) == [] && Span(PresentMask([])) == |Payload([])|
  {
  }

  /** The words and the span are recovered from the mask and the payload. */
  lemma {:induction false} WordsReadBack(rom: Rom, at: nat, ws: seq<Word>)
    requires at + |Payload(ws)| <= 160 && Stands(rom, at, Payload(ws))
    ensures DecodeWords(rom, at, PresentMask(ws), |ws|) == ws && Span(PresentMask(ws)) == |Payload(ws)|
    decreases |ws|
  {
    hide Stands, Payload, DecodeWords, Span, PresentMask, ReadByte;
    if ws == [] {
      NoWords(rom, at);
    } else {
      var first, tail := First(ws[0]), ws[1..];
      WordsUnfold(ws);
      StandsSplit(rom, at, first, Payload(tail));
      WordsReadBack(rom, at + |first|, tail);
      DecodeNext(rom, at, PresentMask(tail), |tail|);
      if ws[0].Present? {
        FirstTwo(rom, at, first);
      }
    }
  }

  lemma LongHeader(section: nat, spare: bool, mask: nat)
    requires section < 128 && mask < 16 && !(section % 8 == 7 && spare)
    ensures var d0: byte := section % 8 * 32 + (if spare then 16 else 0) + 15;
            var d1: byte := section / 8 * 16 + mask;
            && d0 != BLANK && d0 % 16 == 15 && SectionOf(d0, d1) == section && (d0 / 16 % 2 == 1) == spare
            && Enabled(d1) == 15 - mask
  {
    var d0 := section % 8 * 32 + (if spare then 16 else 0) + 15;
    assert d0 / 16 == section % 8 * 2 + (if spare then 1 else 0);
  }

  lemma LongReadsBack(rom: Rom, at: nat, r: Record)
    requires r.Long? && WellFormed(r) && at <= LAST_START && Stands(rom, at, Encode(r))
    ensures ReadByte(rom, at) != BLANK
    ensures RecordAt(rom, at) == r && After(rom, at) == at + |Encode(r)|
  {
    hide DecodeWords, PresentMask, AbsentMask, Payload, Span;
    var e := Encode(r);
    var p := Payload(r.words);
    MaskFits(r.words);
    LongHeader(r.section, r.spare, AbsentMask(r.words));
    assert rom[at + 0] == e[0] && rom[at + 1] == e[1];
    StandsSplit(rom, at, [e[0], e[1]], p);
    PayloadFits(r.words);
    WordsReadBack(rom, at + 2, r.words);
    MasksComplement(r.words);
  }

  lemma ShortHeader(section: nat, mask: nat)
    requires section < 16 && mask < 15
    ensures var d0: byte := section * 16 + mask;
            d0 != BLANK && d0 % 16 == mask && d0 / 16 == section && Enabled(d0) == 15 - mask
  {
  }

  lemma ShortReadsBack(rom: Rom, at: nat, r: Record)
    requires r.Short? && WellFormed(r) && at <= LAST_START && Stands(rom, at, Encode(r))
    ensures ReadByte(rom, at) != BLANK
    ensures RecordAt(rom, at) == r && After(rom, at) == at + |Encode(r)|
  {
    hide DecodeWords, PresentMask, AbsentMask, Payload, Span;
    var e := Encode(r);
    var p := Payload(r.words);
    ShortHeader(r.section, AbsentMask(r.words));
    assert rom[at + 0] == e[0];
    StandsSplit(rom, at, [e[0]], p);
    PayloadFits(r.words);
    WordsReadBack(rom, at + 1, r.words);
    MasksComplement(r.words);
    var d0 := ReadByte(rom, at);
    assert d0 == r.section * 16 + AbsentMask(r.words) && Enabled(d0) == PresentMask(r.words);
    assert RecordAt(rom, at) == Short(r.section, DecodeWords(rom, at + 1, Enabled(d0), 4));
  }

  /** What is left of a log behind its first record. */
  lemma HoldsNext(rom: Rom, at: nat, rs: seq<Record>)
    requires rs != [] && (forall r :: r in rs ==> WellFormed(r)) && Holds(rom, at, rs)
    ensures Stands(rom, at, Encode(rs[0])) && Holds(rom, at + |Encode(rs[0])|, rs[1..])
  {
    hide Stands, Encode, WellFormed;
    StandsSplit(rom, at, Encode(rs[0]), EncodeAll(rs[1..]));
    assert |Encode(rs[0]) + EncodeAll(rs[1..])| == |Encode(rs[0])| + |EncodeAll(rs[1..])|;
  }

  lemma RecordReadsBack(rom: Rom, at: nat, r: Record)
    requires WellFormed(r) && at <= LAST_START && Stands(rom, at, Encode(r))
    ensures ReadByte(rom, at) != BLANK && RecordAt(rom, at) == r && After(rom, at) == at + |Encode(r)|
  {
    hide *;
    if r.Long? {
      LongReadsBack(rom, at, r);
    } else {
      ShortReadsBack(rom, at, r);
    }
  }

  lemma ParseStep(rom: Rom, at: nat)
    requires at <= LAST_START && ReadByte(rom, at) != BLANK
    ensures Parse(rom, at) == [RecordAt(rom, at)] + Parse(rom, After(rom, at))
  {
  }

  lemma InTimeStep(rs: seq<Record>, at: nat)
    requires rs != [] && at <= LAST_START && forall r :: r in rs ==> WellFormed(r)
    ensures InTime(rs, at) == [rs[0]] + InTime(rs[1..], at + |Encode(rs[0])|)
  {
  }

  lemma LogEnds(rom: Rom, at: nat, rs: seq<Record>)
    requires (forall r :: r in rs ==> WellFormed(r)) && Holds(rom, at, rs) && (rs == [] || at > LAST_START)
    ensures Parse(rom, at) == [] == InTime(rs, at)
  {
  }

  /**
    The round trip: any log of well-formed records is read back as exactly those of its records, in order, that start
    at 0x7E or before.
  */
  lemma {:induction false} LogReadsBack(rom: Rom, at: nat, rs: seq<Record>)
    requires (forall r :: r in rs ==> WellFormed(r)) && Holds(rom, at, rs)
    ensures Parse(rom, at) == InTime(rs, at)
    decreases |rs|
  {
    hide *;
    if rs == [] || at > LAST_START {
      LogEnds(rom, at, rs);
    } else {
      HoldsNext(rom, at, rs);
      RecordReadsBack(rom, at, rs[0]);
      LogReadsBack(rom, at + |Encode(rs[0])|, rs[1..]);
      ParseStep(rom, at);
      InTimeStep(rs, at);
    }
  }

  lemma EncodeAllStep(rs: seq<Record>)
    requires rs != [] && forall r :: r in rs ==> WellFormed(r)
    ensures |EncodeAll(rs)| == |Encode(rs[0])| + |EncodeAll(rs[1..])|
  {
    hide Encode, WellFormed;
  }

  /** So a log is read back whole exactly if its last record starts in time. */
  lemma {:induction false} InTimeIff(rs: seq<Record>, at: nat)
    requires rs != [] && forall r :: r in rs ==> WellFormed(r)
    ensures InTime(rs, at) == rs <==> at + |EncodeAll(rs[..|rs| - 1])| <= LAST_START
    decreases |rs|
  {
    hide Encode, WellFormed;
    if |rs| > 1 {
      var tail := rs[1..];
      var init := rs[..|rs| - 1];
      InTimeIff(tail, at + |Encode(rs[0])|);
      assert init[1..] == tail[..|tail| - 1] && init[0] == rs[0];
      EncodeAllStep(init);
      assert rs == [rs[0]] + tail;
    } else {
      assert rs[..0] == [] && EncodeAll(rs[..0]) == [];
      assert rs == [rs[0]] + [] && rs[1..] == [];
    }
  }

  lemma {:induction false} EncodeAllInit(rs: seq<Record>)
    requires rs != [] && forall r :: r in rs ==> WellFormed(r)
    ensures |EncodeAll(rs[..|rs| - 1])| < |EncodeAll(rs)|
    decreases |rs|
  {
    if |rs| > 1 {
      EncodeAllInit(rs[1..]);
      assert rs[..|rs| - 1][1..] == rs[1..][..|rs| - 2];
    } else {
      assert rs[..0] == [];
    }
  }

  /** A log that ends by 0x7F, with a blank byte behind it, is read back whole. */
  lemma ShortLogHolds(rom: Rom, at: nat, rs: seq<Record>)
    requires (forall r :: r in rs ==> WellFormed(r)) && at + |EncodeAll(rs)| <= LAST_START + 1
    requires Stands(rom, at, EncodeAll(rs)) && rom[at + |EncodeAll(rs)|] == BLANK
    ensures Holds(rom, at, rs) && Parse(rom, at) == rs
  {
    LogReadsBack(rom, at, rs);
    if rs != [] {
      EncodeAllInit(rs);
      InTimeIff(rs, at);
    }
  }

  /**
    The reader on any log: each of the 32 bytes is what the last record of that user's sections, among those that
    start in time, says, and otherwise what was there before.
  */
  lemma ReaderReplaysLog(rom: Rom, rs: seq<Record>, user: int, before: seq<byte>, k: nat)
    requires (forall r :: r in rs ==> WellFormed(r)) && Holds(rom, 0, rs)
    requires |before| == 32 && k < 32
    ensures Replay(before, Parse(rom, 0), user)[k] == LastWriter(InTime(rs, 0), user, k, before[k])
  {
    LogReadsBack(rom, 0, rs);
    ReplayIsLastWriter(before, InTime(rs, 0), user, k);
  }
}
