/**
  The firmware image writer (rtlaimage.py) and the RAM loader (ameba_tools.py):
  two programs that have to agree on one binary layout.

  Both are Python 2, where a byte string is a list of bytes. The writer starts
  from the list of sections that reading the ELF file has produced.
*/
module FirmwareImage {

  type byte = x: int | 0 <= x < 0x100

  type u32 = x: int | 0 <= x < 0x1_0000_0000

  // ---------------------------------------------------------------- byte strings

  function Zeros(n: nat): (z: seq<byte>)
    ensures |z| == n
  {
    seq(n, i => 0)
  }

  /** struct '<L' */
  function PackL(n: u32): (b: seq<byte>)
    ensures |b| == 4
  {
    [n % 0x100, n / 0x100 % 0x100, n / 0x1_0000 % 0x100, n / 0x100_0000]
  }

  function UnpackL(b: seq<byte>): u32
    requires |b| == 4
  {
    (b[0] as int) + 0x100 * (b[1] as int) + 0x1_0000 * (b[2] as int) + 0x100_0000 * (b[3] as int)
  }

  lemma UnpackPacked(n: u32)
    ensures UnpackL(PackL(n)) == n
  {
    var n1 := n / 0x100;
    var n2 := n1 / 0x100;
    assert n / 0x1_0000 == n2 && n / 0x100_0000 == n2 / 0x100;
  }

  /** The least significant byte comes first. */
  lemma PackedLittleEndian(n: u32)
    ensures var b := PackL(n); (b[0] as int) + 0x100 * (b[1] as int) + 0x1_0000 * (b[2] as int) + 0x100_0000 * (b[3] as int) == n
  {
    UnpackPacked(n);
  }

  /** b[lo:hi] in Python: the bounds are clamped to the string. */
  function Slice(b: seq<byte>, lo: nat, hi: nat): (s: seq<byte>)
  {
    var h := if hi < |b| then hi else |b|;
    if lo <= h then b[lo..h] else []
  }

  // ---------------------------------------------------------------- sections

  /** A section with its raw contents; `size` is the raw length. */
  datatype Section = Section(name: string, addr: u32, raw: seq<byte>)

  function PadLen(n: nat): (p: nat)
    ensures p < 4 && (n + p) % 4 == 0 && (p == 0 <==> n % 4 == 0)
  {
    if n % 4 != 0 then 4 - n % 4 else 0
  }

  /** The data of an ImageSegment: padded with zeros to a multiple of four. */
  function Data(s: Section): (d: seq<byte>)
    ensures |d| == |s.raw| + PadLen(|s.raw|)
  {
    s.raw + Zeros(PadLen(|s.raw|))
  }

  // ---------------------------------------------------------------- the layout of an image

  function Gap(x: nat, s: Section): nat {
    if x < s.addr then s.addr - x else 0
  }

  /** The address counter after a section: it moves by the raw size. */
  function Next(x: nat, s: Section): nat {
    x + Gap(x, s) + |s.raw|
  }

  /** What the writer emits for the sections when its address counter stands at `x`. */
  function Layout(segs: seq<Section>, x: nat): seq<byte>
    decreases |segs|
  {
    if segs == [] then [] else Zeros(Gap(x, segs[0])) + Data(segs[0]) + Layout(segs[1..], Next(x, segs[0]))
  }

  lemma LayoutStep(front: seq<byte>, segs: seq<Section>, x: nat)
    requires segs != []
    ensures front + Layout(segs, x)
         == front + Zeros(Gap(x, segs[0])) + Data(segs[0]) + Layout(segs[1..], Next(x, segs[0]))
  {
  }

  /** Where the data of section `i` starts in the layout. */
  function OffsetOf(segs: seq<Section>, x: nat, i: nat): nat
    requires i < |segs|
    decreases |segs|
  {
    if i == 0 then Gap(x, segs[0])
    else Gap(x, segs[0]) + |Data(segs[0])| + OffsetOf(segs[1..], Next(x, segs[0]), i - 1)
  }

  /** In address order without overlap. */
  ghost predicate Arranged(segs: seq<Section>) {
    forall i, j :: 0 <= i < j < |segs| && j == i + 1 ==> segs[i].addr + |segs[i].raw| <= segs[j].addr
  }

  /** The padding of the first `n` sections. */
  function PadSum(segs: seq<Section>, n: nat): nat
    requires n <= |segs|
  {
    if n == 0 then 0 else PadSum(segs, n - 1) + PadLen(|segs[n - 1].raw|)
  }

  lemma {:induction false} PadSumFirst(segs: seq<Section>, n: nat)
    requires 0 < n <= |segs|
    ensures PadSum(segs, n) == PadLen(|segs[0].raw|) + PadSum(segs[1..], n - 1)
  {
    if n > 1 {
      PadSumFirst(segs, n - 1);
    }
  }

  lemma SliceOfTail(front: seq<byte>, tail: seq<byte>, lo: nat, hi: nat)
    requires lo <= hi <= |tail|
    ensures (front + tail)[|front| + lo..|front| + hi] == tail[lo..hi]
  {
  }

  lemma LayoutOfMore(segs: seq<Section>, x: nat, i: nat)
    requires i < |segs|
    ensures var front := Zeros(Gap(x, segs[0])) + Data(segs[0]);
            var next := Next(x, segs[0]);
            && Layout(segs, x) == front + Layout(segs[1..], next)
            && OffsetOf(segs, x, i) == if i == 0 then Gap(x, segs[0]) else |front| + OffsetOf(segs[1..], next, i - 1)
  {
  }

  /** The section's own data is found at its offset. */
  lemma {:induction false} DataAtOffset(segs: seq<Section>, x: nat, i: nat)
    requires i < |segs|
    ensures OffsetOf(segs, x, i) + |Data(segs[i])| <= |Layout(segs, x)|
    ensures Layout(segs, x)[OffsetOf(segs, x, i)..OffsetOf(segs, x, i) + |Data(segs[i])|] == Data(segs[i])
    decreases |segs|
  {
    hide Layout, OffsetOf, Data, Zeros, Gap, Next;
    var zeros, next := Zeros(Gap(x, segs[0])), Next(x, segs[0]);
    var tail := Layout(segs[1..], next);
    LayoutOfMore(segs, x, i);
    if i == 0 {
      assert zeros + Data(segs[0]) + tail == zeros + (Data(segs[0]) + tail);
      SliceOfTail(zeros, Data(segs[0]) + tail, 0, |Data(segs[0])|);
      assert (Data(segs[0]) + tail)[0..|Data(segs[0])|] == Data(segs[0]);
    } else {
      DataAtOffset(segs[1..], next, i - 1);
      var o := OffsetOf(segs[1..], next, i - 1);
      SliceOfTail(zeros + Data(segs[0]), tail, o, o + |Data(segs[i])|);
    }
  }

  /** The counter moves by raw sizes while the data grows by padded ones: every padding before a section shifts it. */
  lemma {:induction false} OffsetIsShifted(segs: seq<Section>, x: nat, i: nat)
    requires Arranged(segs) && i < |segs| && x <= segs[0].addr
    ensures OffsetOf(segs, x, i) == segs[i].addr - x + PadSum(segs, i)
    decreases |segs|
  {
    if i > 0 {
      OffsetIsShifted(segs[1..], Next(x, segs[0]), i - 1);
      PadSumFirst(segs, i);
    }
  }

  lemma {:induction false} LayoutLength(segs: seq<Section>, x: nat)
    requires segs != [] && Arranged(segs) && x <= segs[0].addr
    ensures |Layout(segs, x)| == segs[|segs| - 1].addr - x + |Data(segs[|segs| - 1])| + PadSum(segs, |segs| - 1)
    decreases |segs|
  {
    if |segs| > 1 {
      LayoutLength(segs[1..], Next(x, segs[0]));
      PadSumFirst(segs, |segs| - 1);
    } else {
      assert Layout(segs[1..], Next(x, segs[0])) == [];
    }
  }

  lemma {:induction false} PadSumGrows(segs: seq<Section>, m: nat, n: nat)
    requires m <= n <= |segs|
    ensures PadSum(segs, m) <= PadSum(segs, n)
    ensures PadSum(segs, n) == 0 ==> forall i :: 0 <= i < n ==> |segs[i].raw| % 4 == 0
  {
    if m < n {
      PadSumGrows(segs, m, n - 1);
    } else if n > 0 {
      PadSumGrows(segs, n - 1, n - 1);
    }
  }

  /** What an image has where no section has a byte: zeros. */
  lemma {:induction false} ZeroOutside(segs: seq<Section>, x: nat, t: nat)
    requires segs != [] && Arranged(segs) && Aligned(segs) && x <= segs[0].addr && t < |Layout(segs, x)|
    requires forall i :: 0 <= i < |segs| ==> !(segs[i].addr <= x + t < segs[i].addr + |segs[i].raw|)
    ensures Layout(segs, x)[t] == 0
    decreases |segs|
  {
    var front, next := Zeros(Gap(x, segs[0])) + Data(segs[0]), Next(x, segs[0]);
    LayoutOfMore(segs, x, 0);
    if t >= |front| {
      assert |segs| > 1 && |front| == next - x;
      forall i | 0 <= i < |segs[1..]|
        ensures !(segs[1..][i].addr <= next + (t - |front|) < segs[1..][i].addr + |segs[1..][i].raw|)
      {
        assert segs[1..][i] == segs[i + 1];
      }
      ZeroOutside(segs[1..], next, t - |front|);
    } else if t >= Gap(x, segs[0]) {
      assert front[t] == Data(segs[0])[t - Gap(x, segs[0])];
    }
  }

  /** Every section's data is at its address, counted from the first section's. */
  ghost predicate Placed(segs: seq<Section>)
    requires segs != []
  {
    forall i :: 0 <= i < |segs| ==> OffsetOf(segs, segs[0].addr, i) == segs[i].addr - segs[0].addr
  }

  /** All sections but the last have sizes that are multiples of four. */
  predicate Aligned(segs: seq<Section>) {
    forall i :: 0 <= i < |segs| - 1 ==> |segs[i].raw| % 4 == 0
  }

  lemma {:induction false} AlignedSumsToZero(segs: seq<Section>, n: nat)
    requires Aligned(segs) && segs != [] && n < |segs|
    ensures PadSum(segs, n) == 0
  {
    if n > 0 {
      AlignedSumsToZero(segs, n - 1);
    }
  }

  /** Exactly when the writer puts arranged sections where they belong. */
  lemma PlacedIffAligned(segs: seq<Section>)
    requires segs != [] && Arranged(segs)
    ensures Placed(segs) <==> Aligned(segs)
  {
    forall i | 0 <= i < |segs|
      ensures OffsetOf(segs, segs[0].addr, i) == segs[i].addr - segs[0].addr + PadSum(segs, i)
    {
      OffsetIsShifted(segs, segs[0].addr, i);
    }
    var last := |segs| - 1;
    if Placed(segs) {
      assert OffsetOf(segs, segs[0].addr, last) == segs[last].addr - segs[0].addr;
      assert PadSum(segs, last) == 0;
      PadSumGrows(segs, 0, last);
    }
    if Aligned(segs) {
      forall i | 0 <= i < |segs|
        ensures PadSum(segs, i) == 0
      {
        AlignedSumsToZero(segs, i);
      }
    }
  }

  /** An unaligned section does shift the next one. */
  lemma UnalignedShifts(a: Section, b: Section)
    requires a.addr + |a.raw| <= b.addr && |a.raw| % 4 == 1
    ensures OffsetOf([a, b], a.addr, 1) == b.addr - a.addr + 3
  {
    OffsetIsShifted([a, b], a.addr, 1);
    assert PadSum([a, b], 1) == PadSum([a, b], 0) + PadLen(|a.raw|);
  }

  // ---------------------------------------------------------------- the writer

  datatype Kind = Boot | Ram | Sdram

  /** Where the boot image ends in the file, and where the loader looks for the second image. */
  const BOOT_GAP := 0xB000

  function HeaderLength(kind: Kind): nat {
    if kind == Boot then 0x20 else 0x10
  }

  function Header(kind: Kind, size: u32, addr: u32): (h: seq<byte>)
    ensures |h| == HeaderLength(kind)
  {
    match kind
    case Ram => PackL(size) + PackL(addr) + PackL(0x35393138) + PackL(0x31313738)
    case Sdram => PackL(size) + PackL(addr) + PackL(0xFFFFFFFF) + PackL(0xFFFFFFFF)
    case Boot => PackL(0x96969999) + PackL(0xFC66CC3F) + PackL(0x03CC33C0) + PackL(0x6231DCE5)
                 + PackL(size) + PackL(addr) + PackL(0xFFFF002C) + PackL(0xFFFFFFFF)
  }

  /** The sections an image picks, in the order of the list. */
  function Mine(sections: seq<Section>, names: seq<string>): seq<Section>
    decreases |sections|
  {
    if sections == [] then []
    else (if sections[0].name in names then [sections[0]] else []) + Mine(sections[1..], names)
  }

  function Others(sections: seq<Section>, names: seq<string>): seq<Section>
    decreases |sections|
  {
    if sections == [] then []
    else (if sections[0].name in names then [] else [sections[0]]) + Others(sections[1..], names)
  }

  /** list.remove */
  function Remove(sections: seq<Section>, s: Section): seq<Section>
    decreases |sections|
  {
    if sections == [] then [] else if sections[0] == s then sections[1..] else [sections[0]] + Remove(sections[1..], s)
  }

  lemma {:induction false} RemoveFirstOfMine(sections: seq<Section>, names: seq<string>)
    requires Mine(sections, names) != []
    ensures var r := Remove(sections, Mine(sections, names)[0]);
            Mine(r, names) == Mine(sections, names)[1..] && Others(r, names) == Others(sections, names)
    decreases |sections|
  {
    if sections[0].name !in names {
      RemoveFirstOfMine(sections[1..], names);
      MineAndOthers(sections[1..], names);
      var r := Remove(sections[1..], Mine(sections[1..], names)[0]);
      assert Remove(sections, Mine(sections, names)[0]) == [sections[0]] + r;
      assert ([sections[0]] + r)[1..] == r;
    }
  }

  /** The two parts of the list: what an image picks by name, and the rest, none lost and none twice. */
  lemma {:induction false} MineAndOthers(sections: seq<Section>, names: seq<string>)
    ensures multiset(Mine(sections, names)) + multiset(Others(sections, names)) == multiset(sections)
    ensures forall s :: s in Mine(sections, names) ==> s.name in names
    ensures forall s :: s in Others(sections, names) ==> s.name !in names
    decreases |sections|
  {
    if sections != [] {
      MineAndOthers(sections[1..], names);
      assert sections == [sections[0]] + sections[1..];
    }
  }

  /** The size the header records: from the first section's address to the end of the last one's data. */
  function ImageSize(segs: seq<Section>): int
    requires segs != []
  {
    segs[|segs| - 1].addr + |Data(segs[|segs| - 1])| - segs[0].addr
  }

  /** The size recorded for the sections an image has found; an image without sections keeps 0. */
  function SizeOf(segs: seq<Section>): int {
    if segs == [] then 0 else ImageSize(segs)
  }

  /** The size fits the unsigned 32-bit word it is packed into. */
  predicate Packs(segs: seq<Section>) {
    0 <= SizeOf(segs) < 0x1_0000_0000
  }

  /** The bytes of an image: nothing when its size is zero. */
  function ImageData(kind: Kind, segs: seq<Section>): seq<byte>
    requires Packs(segs)
  {
    if SizeOf(segs) == 0 then [] else Header(kind, SizeOf(segs), segs[0].addr) + Layout(segs, segs[0].addr)
  }

  /** The recorded size is the length of the bytes that follow the header exactly for aligned sections. */
  lemma SizeDelimitsIffAligned(segs: seq<Section>)
    requires segs != [] && Arranged(segs)
    ensures |Layout(segs, segs[0].addr)| == ImageSize(segs) + PadSum(segs, |segs| - 1)
    ensures |Layout(segs, segs[0].addr)| == ImageSize(segs) <==> Aligned(segs)
  {
    var last := |segs| - 1;
    LayoutLength(segs, segs[0].addr);
    if Aligned(segs) {
      AlignedSumsToZero(segs, last);
    }
    PadSumGrows(segs, 0, last);
  }

  /** Erased flash. */
  function Fill(n: nat): (f: seq<byte>)
    ensures |f| == n
  {
    seq(n, i => 0xFF)
  }

  /** What an image puts into ram_all.bin. */
  function InFile(kind: Kind, data: seq<byte>, saved: bool): seq<byte>
    requires kind == Boot ==> |data| <= BOOT_GAP
  {
    if kind == Boot && saved then data + Fill(BOOT_GAP - |data|) else data
  }

  class Image {
    const segnames: seq<string>
    const kind: Kind
    const addrl: u32
    const addrh: u32
    var addr: u32
    var data: seq<byte>
    var size: int

    constructor (segnames: seq<string>, kind: Kind, addrl: u32, addrh: u32)
      ensures this.segnames == segnames && this.kind == kind && this.addrl == addrl && this.addrh == addrh
      ensures addr == 0 && data == [] && size == 0
    {
      this.segnames, this.kind, this.addrl, this.addrh := segnames, kind, addrl, addrh;
      addr, data, size := 0, [], 0;
    }

    /** The writer's address check. No address can fail it when addrl <= addrh. */
    predicate OutOfRange(a: u32) {
      a < addrl && a > addrh
    }

    /**
      Take this image's sections off the list and build its bytes. `ok` is false where packing the header raises.
      Sections of total size zero stay on the list, except for a single one.
    */
    method Load(sections: seq<Section>) returns (ok: bool, rest: seq<Section>)
      requires size == 0 && data == []
      modifies this
      ensures var segs := Mine(sections, segnames);
              && (segs != [] ==> addr == segs[0].addr)
              && size == SizeOf(segs)
              && (segs == [] || !OutOfRange(segs[0].addr) ==>
                    && ok == Packs(segs)
                    && (ok ==> data == ImageData(kind, segs))
                    && rest == if ok && (size != 0 || |segs| == 1) then Others(sections, segnames) else sections)
              && (segs != [] && OutOfRange(segs[0].addr) ==> ok && data == [])
    {
      ok, rest := true, sections;
      var segs := Mine(sections, segnames);
      if segs != [] {
        addr := segs[0].addr;
        if |segs| == 1 && |Data(segs[0])| == 0 {
          RemoveFirstOfMine(sections, segnames);
          rest := Remove(sections, segs[0]);
          MineEmptyMeansOthers(rest, segnames);
          return;
        }
        var last := segs[|segs| - 1];
        size := last.addr + |Data(last)| - addr;
        if OutOfRange(addr) {
          return;
        }
        if size != 0 {
          if size < 0 || size >= 0x1_0000_0000 {
            ok := false;
            return;
          }
          data := Header(kind, size, addr);
          rest := Emit(segs, sections);
        }
      }
    }

    /**
      Append the image to ram_all.bin, the boot image filled up to the gap. `ok` is false for a boot image that is
      too big: its message names a field that an image does not have, and the exception ends the program.
    */
    method SaveSram(file: seq<byte>) returns (ok: bool, out: seq<byte>)
      requires size == 0 ==> data == []
      ensures ok <==> kind != Boot || |data| <= BOOT_GAP
      ensures ok ==> out == file + InFile(kind, data, size != 0)
      ensures !ok ==> out == file
    {
      ok, out := true, file;
      if size != 0 {
        if kind == Boot {
          var i := |data|;
          if i > BOOT_GAP {
            return false, out;
          }
          out := out + data;
          while i < BOOT_GAP
            invariant |data| <= i <= BOOT_GAP
            invariant out == file + (data + Fill(i - |data|))
          {
            ghost var before := Fill(i - |data|);
            assert Fill(i + 1 - |data|) == before + [0xFF];
            out := out + [0xFF];
            assert out == file + (data + (before + [0xFF]));
            i := i + 1;
          }
        } else {
          out := out + data;
        }
      }
    }

    /** The loop of load: append each section, and take it off the list. */
    method Emit(segs: seq<Section>, sections: seq<Section>) returns (rest: seq<Section>)
      requires segs == Mine(sections, segnames) && segs != []
      modifies `data
      ensures data == old(data) + Layout(segs, addr)
      ensures rest == Others(sections, segnames)
    {
      var x: nat := addr;
      rest := sections;
      for i := 0 to |segs|
        invariant data + Layout(segs[i..], x) == old(data) + Layout(segs, addr)
        invariant Mine(rest, segnames) == segs[i..] && Others(rest, segnames) == Others(sections, segnames)
      {
        LayoutStep(data, segs[i..], x);
        assert segs[i..][1..] == segs[i + 1..];
        x := Place(x, segs[i]);
        RemoveFirstOfMine(rest, segnames);
        rest := Remove(rest, segs[i]);
      }
      MineEmptyMeansOthers(rest, segnames);
    }

    /** One section: zeros up to its address, then its data; the counter moves by the raw size. */
    method Place(x: nat, s: Section) returns (y: nat)
      modifies `data
      ensures y == Next(x, s) && data == old(data) + Zeros(Gap(x, s)) + Data(s)
    {
      y := FillTo(x, s);
      data := data + Data(s);
      y := y + |s.raw|;
    }

    /** The padding loop of load. */
    method FillTo(x: nat, s: Section) returns (y: nat)
      modifies `data
      ensures y == x + Gap(x, s) && data == old(data) + Zeros(Gap(x, s))
    {
      y := x;
      while y < s.addr
        invariant x <= y && (y <= s.addr || y == x)
        invariant data == old(data) + Zeros(y - x)
      {
        data := data + [0];
        y := y + 1;
      }
    }
  }

  lemma {:induction false} MineEmptyMeansOthers(sections: seq<Section>, names: seq<string>)
    requires Mine(sections, names) == []
    ensures Others(sections, names) == sections
    decreases |sections|
  {
    if sections != [] {
      MineEmptyMeansOthers(sections[1..], names);
    }
  }

  // ---------------------------------------------------------------- ram_all.bin

  const BOOT_NAMES := [".ram.start.table", ".ram_image1.text", ".ram_image1.data"]
  const RAM_NAMES := [".image2.start.table", ".ram_image2.text", ".ram_image2.rodata", ".ram.data"]
  const SDRAM_NAMES := [".sdr_text", ".sdr_rodata", ".sdr_data"]

  lemma {:induction false} MineOfOthers(sections: seq<Section>, names: seq<string>, taken: seq<string>)
    requires Apart(names, taken)
    ensures Mine(Others(sections, taken), names) == Mine(sections, names)
    decreases |sections|
  {
    if sections != [] {
      MineOfOthers(sections[1..], names, taken);
      if sections[0].name in taken {
        assert Others(sections, taken) == Others(sections[1..], taken);
      } else {
        assert Others(sections, taken)[1..] == Others(sections[1..], taken);
      }
    }
  }

  predicate Apart(names: seq<string>, taken: seq<string>) {
    forall n :: n in names ==> n !in taken
  }

  /** No section belongs to two images. */
  lemma RamApartFromBoot()
    ensures Apart(RAM_NAMES, BOOT_NAMES)
  {
    assert |RAM_NAMES[0]| == 19 && |RAM_NAMES[1]| == 16 && |RAM_NAMES[2]| == 18 && |RAM_NAMES[3]| == 9;
    assert |BOOT_NAMES[0]| == 16 && |BOOT_NAMES[1]| == 16 && |BOOT_NAMES[2]| == 16;
    assert RAM_NAMES[1][10] == '2' && BOOT_NAMES[0][10] == '.' && BOOT_NAMES[1][10] == '1' && BOOT_NAMES[2][10] == '1';
  }

  lemma SdramApartFromBoot()
    ensures Apart(SDRAM_NAMES, BOOT_NAMES)
  {
    assert |SDRAM_NAMES[0]| == 9 && |SDRAM_NAMES[1]| == 11 && |SDRAM_NAMES[2]| == 9;
    assert |BOOT_NAMES[0]| == 16 && |BOOT_NAMES[1]| == 16 && |BOOT_NAMES[2]| == 16;
  }

  lemma SdramApartFromRam()
    ensures Apart(SDRAM_NAMES, RAM_NAMES)
  {
    assert |SDRAM_NAMES[0]| == 9 && |SDRAM_NAMES[1]| == 11 && |SDRAM_NAMES[2]| == 9;
    assert |RAM_NAMES[0]| == 19 && |RAM_NAMES[1]| == 16 && |RAM_NAMES[2]| == 18 && |RAM_NAMES[3]| == 9;
    assert SDRAM_NAMES[0][1] == 's' && SDRAM_NAMES[2][1] == 's' && RAM_NAMES[3][1] == 'r';
  }

  predicate WritesRamAll(b: seq<Section>, r: seq<Section>, d: seq<Section>) {
    && Packs(b) && Packs(r) && Packs(d)
    && !(SizeOf(b) == 0 && SizeOf(r) == 0)
    && |ImageData(Boot, b)| <= BOOT_GAP
  }

  /** The file made of the sections of the boot image, the second image and the SDRAM image. */
  function RamAllFile(b: seq<Section>, r: seq<Section>, d: seq<Section>): seq<byte>
    requires WritesRamAll(b, r, d)
  {
    InFile(Boot, ImageData(Boot, b), SizeOf(b) != 0) + ImageData(Ram, r) + ImageData(Sdram, d) + PackL(0) + PackL(0)
  }

  /** The second image starts where the boot image's erased remainder ends, or at once if there is no boot image. */
  lemma FileStarts(b: seq<Section>, r: seq<Section>, d: seq<Section>)
    requires WritesRamAll(b, r, d)
    ensures var file, after := RamAllFile(b, r, d), ImageData(Ram, r) + (ImageData(Sdram, d) + (PackL(0) + PackL(0)));
            if SizeOf(b) == 0 then SizeOf(r) != 0 && file == after
            else
              && |ImageData(Boot, b)| <= 0xB000 <= |file| && file[0xB000..] == after
              && file[..|ImageData(Boot, b)|] == ImageData(Boot, b)
              && forall i :: |ImageData(Boot, b)| <= i < 0xB000 ==> file[i] == 0xFF
  {
    hide PackL, Layout, Header;
    var one, two, three, zeros := ImageData(Boot, b), ImageData(Ram, r), ImageData(Sdram, d), PackL(0) + PackL(0);
    var first := InFile(Boot, one, SizeOf(b) != 0);
    Join(first + two + three, PackL(0), PackL(0));
    Join(first + two, three, zeros);
    Join(first, two, three + zeros);
    assert [] + (two + (three + zeros)) == two + (three + zeros);
  }

  lemma Join(a: seq<byte>, b: seq<byte>, c: seq<byte>)
    ensures (a + b) + c == a + (b + c)
  {
  }

  /** An image as it is set up, before its sections are loaded. */
  ghost predicate Unloaded(image: Image)
    reads image
  {
    image.size == 0 && image.data == [] && image.addrl <= image.addrh
  }

  /** Each image takes its sections from what the ones before it have left. */
  method LoadAll(boot: Image, ram: Image, sdram: Image, sections: seq<Section>) returns (ok: bool)
    requires boot != ram && boot != sdram && ram != sdram
    requires Unloaded(boot) && Unloaded(ram) && Unloaded(sdram)
    requires Apart(ram.segnames, boot.segnames)
    requires Apart(sdram.segnames, boot.segnames) && Apart(sdram.segnames, ram.segnames)
    modifies boot, ram, sdram
    ensures var b, r, d := Mine(sections, boot.segnames), Mine(sections, ram.segnames), Mine(sections, sdram.segnames);
            && ok == (Packs(b) && Packs(r) && Packs(d))
            && (ok ==>
                  && boot.size == SizeOf(b) && boot.data == ImageData(boot.kind, b)
                  && ram.size == SizeOf(r) && ram.data == ImageData(ram.kind, r)
                  && sdram.size == SizeOf(d) && sdram.data == ImageData(sdram.kind, d))
  {
    MineOfOthers(sections, ram.segnames, boot.segnames);
    MineOfOthers(sections, sdram.segnames, boot.segnames);
    var rest;
    ok, rest := boot.Load(sections);
    if ok {
      MineOfOthers(rest, sdram.segnames, ram.segnames);
      ok, rest := ram.Load(rest);
      if ok {
        ok, rest := sdram.Load(rest);
      }
    }
  }

  /** The file ram_all.bin. */
  method SaveAll(boot: Image, ram: Image, sdram: Image) returns (ok: bool, file: seq<byte>)
    requires boot.kind == Boot && ram.kind == Ram && sdram.kind == Sdram
    requires boot.size == 0 ==> boot.data == []
    requires ram.size == 0 ==> ram.data == []
    requires sdram.size == 0 ==> sdram.data == []
    ensures ok <==> !(boot.size == 0 && ram.size == 0) && |boot.data| <= BOOT_GAP
    ensures ok ==> file == InFile(Boot, boot.data, boot.size != 0) + ram.data + sdram.data + PackL(0) + PackL(0)
  {
    hide PackL, Fill;
    file := [];
    if boot.size == 0 && ram.size == 0 {
      return false, file;
    }
    ok, file := boot.SaveSram(file);
    if ok {
      ok, file := ram.SaveSram(file);
      ok, file := sdram.SaveSram(file);
      file := file + PackL(0) + PackL(0);
    }
  }

  /** From the sections of the ELF file to ram_all.bin. */
  method MakeRamAll(sections: seq<Section>) returns (ok: bool, file: seq<byte>)
    ensures var b := Mine(sections, [".ram.start.table", ".ram_image1.text", ".ram_image1.data"]);
            var r := Mine(sections, [".image2.start.table", ".ram_image2.text", ".ram_image2.rodata", ".ram.data"]);
            var d := Mine(sections, [".sdr_text", ".sdr_rodata", ".sdr_data"]);
            && ok == WritesRamAll(b, r, d)
            && (ok ==> file == RamAllFile(b, r, d))
  {
    RamApartFromBoot();
    SdramApartFromBoot();
    SdramApartFromRam();
    var boot := new Image(BOOT_NAMES, Boot, 0x10000BC8, 0x10070000);
    var ram := new Image(RAM_NAMES, Ram, 0x10006000, 0x10070000);
    var sdram := new Image(SDRAM_NAMES, Sdram, 0x30000000, 0x30200000);
    file := [];
    ok := LoadAll(boot, ram, sdram, sections);
    if ok {
      ok, file := SaveAll(boot, ram, sdram);
    }
  }

  // ---------------------------------------------------------------- the loader

  /** Where the loader puts the images. */
  const BASE1 := 0x10000BC8
  const BASE2 := 0x10006000

  predicate HasDword(bin: seq<byte>, a: nat) {
    |Slice(bin, a, a + 4)| == 4
  }

  function GetDword(bin: seq<byte>, a: nat): int
    requires HasDword(bin, a)
  {
    UnpackL(Slice(bin, a, a + 4))
  }

  /** The target's memory: the byte at each address. */
  type Memory = int -> byte

  /** Memory after a block write. */
  function Written(mem: Memory, a: int, d: seq<byte>): Memory {
    k => if a <= k < a + |d| then d[k - a] else mem(k)
  }

  function Image1(bin: seq<byte>): seq<byte>
    requires HasDword(bin, 0x10)
  {
    Slice(bin, 0x20, 0x20 + GetDword(bin, 0x10))
  }

  function Image2At(bin: seq<byte>): nat
    requires HasDword(bin, 0x18)
  {
    GetDword(bin, 0x18) % 0x1_0000 * 1024
  }

  predicate HasImage2(bin: seq<byte>) {
    HasDword(bin, 0x18) && HasDword(bin, Image2At(bin))
  }

  function Image2(bin: seq<byte>): seq<byte>
    requires HasImage2(bin)
  {
    var at := Image2At(bin);
    Slice(bin, at + 0x10, at + 0x10 + (GetDword(bin, at) + 0x10))
  }

  /** Memory after ram_all has written the two images. */
  function Loaded(mem: Memory, one: seq<byte>, two: seq<byte>): Memory {
    Written(Written(mem, BASE1, one), BASE2, two)
  }

  class Target {
    var mem: Memory

    method WriteMem(a: int, d: seq<byte>)
      modifies this
      ensures mem == Written(old(mem), a, d)
    {
      mem := Written(mem, a, d);
    }

    /** `ok` is false where the file is too short for one of the words read. */
    method RamAll(bin: seq<byte>, image1: bool, image2: bool) returns (ok: bool)
      modifies this
      ensures ok <==> (image1 ==> HasDword(bin, 0x10)) && (image2 ==> HasImage2(bin))
      ensures ok && image1 && image2 ==> mem == Loaded(old(mem), Image1(bin), Image2(bin))
      ensures ok && !(image1 && image2) ==>
                mem == if image1 then Written(old(mem), BASE1, Image1(bin))
                       else if image2 then Written(old(mem), BASE2, Image2(bin)) else old(mem)
      ensures !ok ==> mem == if image1 && HasDword(bin, 0x10) then Written(old(mem), BASE1, Image1(bin)) else old(mem)
    {
      hide Written, UnpackL, Slice;
      if image1 {
        if |Slice(bin, 0x10, 0x14)| != 4 {
          return false;
        }
        var length := GetDword(bin, 0x10);
        WriteMem(BASE1, Slice(bin, 0x20, 0x20 + length));
      }
      if image2 {
        if |Slice(bin, 0x18, 0x1C)| != 4 {
          return false;
        }
        var at := GetDword(bin, 0x18) % 0x1_0000 * 1024;
        if |Slice(bin, at, at + 4)| != 4 {
          return false;
        }
        var length := GetDword(bin, at) + 0x10;
        WriteMem(BASE2, Slice(bin, at + 0x10, at + 0x10 + length));
      }
      return true;
    }
  }

  // ---------------------------------------------------------------- writer and loader agree

  /** The sections of an image as the linker script lays them out for the loader. */
  ghost predicate Linked(segs: seq<Section>, base: u32) {
    segs != [] && Arranged(segs) && Aligned(segs) && segs[0].addr == base && 0 < ImageSize(segs) < 0x1_0000_0000
  }

  /** The words of the headers that the loader reads. */
  lemma HeaderWords(size: u32, addr: u32)
    ensures Header(Boot, size, addr)[0x10..0x14] == PackL(size)
    ensures Header(Boot, size, addr)[0x18..0x1C] == PackL(0xFFFF002C)
    ensures Header(Ram, size, addr)[0..4] == PackL(size)
  {
    var magic := PackL(0x96969999) + PackL(0xFC66CC3F) + PackL(0x03CC33C0) + PackL(0x6231DCE5);
    assert |magic| == 0x10;
    assert Header(Boot, size, addr) == magic + (PackL(size) + PackL(addr) + PackL(0xFFFF002C) + PackL(0xFFFFFFFF));
  }

  lemma BootDwords(size: u32, addr: u32)
    ensures var h := Header(Boot, size, addr);
            && h[0..4] == PackL(0x96969999) && h[4..8] == PackL(0xFC66CC3F)
            && h[8..0xC] == PackL(0x03CC33C0) && h[0xC..0x10] == PackL(0x6231DCE5)
            && h[0x14..0x18] == PackL(addr) && h[0x1C..0x20] == PackL(0xFFFFFFFF)
  {
    hide PackL;
    var m, n, o, p := PackL(0x96969999), PackL(0xFC66CC3F), PackL(0x03CC33C0), PackL(0x6231DCE5);
    var h := m + n + o + p + PackL(size) + PackL(addr) + PackL(0xFFFF002C) + PackL(0xFFFFFFFF);
    assert h[0..4] == m && h[4..8] == n && h[8..0xC] == o && h[0xC..0x10] == p;
    assert h[0x14..0x18] == PackL(addr) && h[0x1C..0x20] == PackL(0xFFFFFFFF);
  }

  lemma ShortDwords(kind: Kind, size: u32, addr: u32)
    requires kind != Boot
    ensures var h := Header(kind, size, addr);
            && h[0..4] == PackL(size) && h[4..8] == PackL(addr)
            && h[8..0xC] == PackL(if kind == Ram then 0x35393138 else 0xFFFFFFFF)
            && h[0xC..0x10] == PackL(if kind == Ram then 0x31313738 else 0xFFFFFFFF)
  {
    hide PackL;
  }

  lemma ByteOfPart(all: seq<byte>, at: nat, part: seq<byte>, k: nat)
    requires at + |part| <= |all| && all[at..at + |part|] == part && k < |part|
    ensures all[at + k] == part[k]
  {
    assert all[at + k] == all[at..at + |part|][k];
  }

  lemma ByteAtOffset(segs: seq<Section>, x: nat, i: nat, k: nat)
    requires i < |segs| && k < |segs[i].raw|
    ensures OffsetOf(segs, x, i) + k < |Layout(segs, x)|
    ensures Layout(segs, x)[OffsetOf(segs, x, i) + k] == segs[i].raw[k]
  {
    hide Layout, OffsetOf;
    DataAtOffset(segs, x, i);
    ByteOfPart(Layout(segs, x), OffsetOf(segs, x, i), Data(segs[i]), k);
  }

  lemma OffsetInLinked(segs: seq<Section>, base: u32, i: nat)
    requires Linked(segs, base) && i < |segs|
    ensures OffsetOf(segs, base, i) == segs[i].addr - base
  {
    OffsetIsShifted(segs, base, i);
    AlignedSumsToZero(segs, i);
  }

  /** A section's bytes lie in the image's layout at the distance from the image's base. */
  lemma ByteInLayout(segs: seq<Section>, base: u32, i: nat, k: nat)
    requires Linked(segs, base) && i < |segs| && k < |segs[i].raw|
    ensures 0 <= segs[i].addr + k - base < |Layout(segs, base)|
    ensures Layout(segs, base)[segs[i].addr + k - base] == segs[i].raw[k]
  {
    hide *;
    OffsetInLinked(segs, base, i);
    ByteAtOffset(segs, base, i, k);
  }

  lemma SliceWithin(front: seq<byte>, mid: seq<byte>, back: seq<byte>, lo: nat, hi: nat)
    requires lo <= hi <= |mid|
    ensures Slice(front + mid + back, |front| + lo, |front| + hi) == mid[lo..hi]
  {
  }

  /** A slice that starts with `mid` and reaches `n` bytes beyond it, as far as there are any. */
  lemma SliceFrom(front: seq<byte>, mid: seq<byte>, back: seq<byte>, n: nat)
    ensures Slice(front + mid + back, |front|, |front| + (|mid| + n)) == mid + Slice(back, 0, n)
  {
    var all, h := front + mid + back, if n < |back| then n else |back|;
    assert Slice(all, |front|, |front| + (|mid| + n)) == all[|front|..|front| + (|mid| + h)];
    assert Slice(back, 0, n) == back[..h];
    assert all[|front|..|front| + (|mid| + h)] == mid + back[..h];
  }

  /** What comes after the second image's payload. */
  ghost function Tail(d: seq<Section>): seq<byte>
    requires Packs(d)
  {
    ImageData(Sdram, d) + PackL(0) + PackL(0)
  }

  /** The bytes behind the second image that the loader writes too: eight zeros, or the header of the SDRAM image. */
  ghost function Trailer(d: seq<Section>): (t: seq<byte>)
    requires Packs(d)
    ensures |t| == if SizeOf(d) == 0 then 8 else 0x10
  {
    Slice(Tail(d), 0, 0x10)
  }

  /** The boot image's part of the file. */
  ghost function Front(b: seq<Section>): (f: seq<byte>)
    requires Linked(b, BASE1) && |ImageData(Boot, b)| <= BOOT_GAP
    ensures |f| == BOOT_GAP
  {
    ImageData(Boot, b) + Fill(BOOT_GAP - |ImageData(Boot, b)|)
  }

  /** The file as the loader meets it for the second image. */
  lemma FileFromGap(b: seq<Section>, r: seq<Section>, d: seq<Section>)
    requires Linked(b, BASE1) && Linked(r, BASE2) && WritesRamAll(b, r, d)
    ensures RamAllFile(b, r, d) == Front(b) + ImageData(Ram, r) + Tail(d)
  {
    var before, three := Front(b) + ImageData(Ram, r), ImageData(Sdram, d);
    Join(before, three, PackL(0));
    Join(before, three + PackL(0), PackL(0));
  }

  /** The file as the loader meets it for the first image. */
  lemma FileFromStart(b: seq<Section>, r: seq<Section>, d: seq<Section>)
    requires Linked(b, BASE1) && Linked(r, BASE2) && WritesRamAll(b, r, d)
    ensures RamAllFile(b, r, d) == [] + ImageData(Boot, b) + Rest(b, r, d)
  {
    FileFromGap(b, r, d);
    var one, fill, two := ImageData(Boot, b), Fill(BOOT_GAP - |ImageData(Boot, b)|), ImageData(Ram, r);
    assert [] + one == one;
    Join(one, fill, two);
    Join(one, fill + two, Tail(d));
  }

  /** What follows the boot image's bytes. */
  ghost function Rest(b: seq<Section>, r: seq<Section>, d: seq<Section>): seq<byte>
    requires Linked(b, BASE1) && Linked(r, BASE2) && WritesRamAll(b, r, d)
  {
    Fill(BOOT_GAP - |ImageData(Boot, b)|) + ImageData(Ram, r) + Tail(d)
  }

  lemma DwordWithin(front: seq<byte>, mid: seq<byte>, back: seq<byte>, lo: nat, n: u32)
    requires lo + 4 <= |mid| && mid[lo..lo + 4] == PackL(n)
    ensures HasDword(front + mid + back, |front| + lo) && GetDword(front + mid + back, |front| + lo) == n
  {
    SliceWithin(front, mid, back, lo, lo + 4);
    UnpackPacked(n);
  }

  /** The payload that an image's own size word delimits. */
  lemma PayloadWithin(kind: Kind, segs: seq<Section>, base: u32, front: seq<byte>, back: seq<byte>)
    requires Linked(segs, base)
    ensures var h := |front| + HeaderLength(kind);
            Slice(front + ImageData(kind, segs) + back, h, h + ImageSize(segs)) == Layout(segs, base)
  {
    SizeDelimitsIffAligned(segs);
    var header, payload := Header(kind, ImageSize(segs), base), Layout(segs, base);
    assert front + (header + payload) + back == (front + header) + payload + back;
    SliceWithin(front + header, payload, back, 0, |payload|);
  }

  lemma PayloadAndMore(kind: Kind, segs: seq<Section>, base: u32, front: seq<byte>, back: seq<byte>, more: nat)
    requires Linked(segs, base)
    ensures var h := |front| + HeaderLength(kind);
            Slice(front + ImageData(kind, segs) + back, h, h + (ImageSize(segs) + more))
            == Layout(segs, base) + Slice(back, 0, more)
  {
    SizeDelimitsIffAligned(segs);
    var header, payload := Header(kind, ImageSize(segs), base), Layout(segs, base);
    assert front + (header + payload) + back == (front + header) + payload + back;
    SliceFrom(front + header, payload, back, more);
  }

  lemma HeaderWord(kind: Kind, segs: seq<Section>, base: u32, lo: nat, n: u32, front: seq<byte>, back: seq<byte>)
    requires Linked(segs, base) && lo + 4 <= HeaderLength(kind)
    requires Header(kind, ImageSize(segs), base)[lo..lo + 4] == PackL(n)
    ensures var file := front + ImageData(kind, segs) + back;
            HasDword(file, |front| + lo) && GetDword(file, |front| + lo) == n
  {
    var header := Header(kind, ImageSize(segs), base);
    assert ImageData(kind, segs)[lo..lo + 4] == header[lo..lo + 4];
    DwordWithin(front, ImageData(kind, segs), back, lo, n);
  }

  /** The first image is found behind the boot header, delimited by the size stored there. */
  lemma LoaderFindsImage1(b: seq<Section>, r: seq<Section>, d: seq<Section>)
    requires Linked(b, BASE1) && Linked(r, BASE2) && WritesRamAll(b, r, d)
    ensures HasDword(RamAllFile(b, r, d), 0x10) && Image1(RamAllFile(b, r, d)) == Layout(b, BASE1)
  {
    FileFromStart(b, r, d);
    HeaderWords(ImageSize(b), BASE1);
    HeaderWord(Boot, b, BASE1, 0x10, ImageSize(b), [], Rest(b, r, d));
    PayloadWithin(Boot, b, BASE1, [], Rest(b, r, d));
  }

  lemma GapWord(bin: seq<byte>)
    requires HasDword(bin, 0x18) && GetDword(bin, 0x18) == 0xFFFF002C
    ensures Image2At(bin) == BOOT_GAP
  {
    assert 0xFFFF002C % 0x1_0000 == 0x2C;
  }

  /** 0x2C in the boot header, in units of 1024, is the gap that the writer fills up to. */
  lemma LoaderFindsGap(b: seq<Section>, r: seq<Section>, d: seq<Section>)
    requires Linked(b, BASE1) && Linked(r, BASE2) && WritesRamAll(b, r, d)
    ensures HasDword(RamAllFile(b, r, d), 0x18) && Image2At(RamAllFile(b, r, d)) == BOOT_GAP
  {
    FileFromStart(b, r, d);
    HeaderWords(ImageSize(b), BASE1);
    HeaderWord(Boot, b, BASE1, 0x18, 0xFFFF002C, [], Rest(b, r, d));
    GapWord(RamAllFile(b, r, d));
  }

  /** The words `ws` stand in the file from `at` on. */
  predicate Dwords(bin: seq<byte>, at: nat, ws: seq<int>) {
    forall i :: 0 <= i < |ws| ==> HasDword(bin, at + 4 * i) && GetDword(bin, at + 4 * i) == ws[i]
  }

  /** The headers as they stand in the file: the magic words, and each image's size and load address. */
  lemma FileHeaders(b: seq<Section>, r: seq<Section>, d: seq<Section>)
    requires Linked(b, BASE1) && Linked(r, BASE2) && WritesRamAll(b, r, d)
    ensures Dwords(RamAllFile(b, r, d), 0,
                   [0x96969999, 0xFC66CC3F, 0x03CC33C0, 0x6231DCE5, ImageSize(b), 0x10000BC8, 0xFFFF002C, 0xFFFFFFFF])
    ensures Dwords(RamAllFile(b, r, d), 0xB000, [ImageSize(r), 0x10006000, 0x35393138, 0x31313738])
    // The SDRAM image follows, if there is one, and otherwise two zero words.
    ensures Dwords(RamAllFile(b, r, d), 0xB010 + |Layout(r, BASE2)|,
                   if SizeOf(d) == 0 then [0, 0] else [SizeOf(d), d[0].addr, 0xFFFFFFFF, 0xFFFFFFFF])
  {
    BootHeaderInFile(b, r, d);
    RamHeaderInFile(b, r, d);
    SdramHeaderInFile(b, r, d);
  }

  lemma SdramHeaderInFile(b: seq<Section>, r: seq<Section>, d: seq<Section>)
    requires Linked(b, BASE1) && Linked(r, BASE2) && WritesRamAll(b, r, d)
    ensures Dwords(RamAllFile(b, r, d), 0xB010 + |Layout(r, BASE2)|,
                   if SizeOf(d) == 0 then [0, 0] else [SizeOf(d), d[0].addr, 0xFFFFFFFF, 0xFFFFFFFF])
  {
    hide PackL, UnpackL, Header, Slice, Layout, Dwords, Tail;
    FileFromGap(b, r, d);
    SizeFits(r, BASE2);
    var front := Front(b) + ImageData(Ram, r);
    assert |front| == 0xB010 + |Layout(r, BASE2)|;
    TailStarts(front, d);
  }

  lemma TailStarts(front: seq<byte>, d: seq<Section>)
    requires Packs(d)
    ensures Dwords(front + Tail(d), |front|, if SizeOf(d) == 0 then [0, 0] else [SizeOf(d), d[0].addr, 0xFFFFFFFF, 0xFFFFFFFF])
  {
    hide PackL, UnpackL, Header, Slice, Layout, Dwords;
    if SizeOf(d) == 0 {
      assert Tail(d) == PackL(0) + PackL(0);
      ZerosHere(front);
    } else {
      var header, layout := Header(Sdram, SizeOf(d), d[0].addr), Layout(d, d[0].addr);
      Join(header + layout, PackL(0), PackL(0));
      Join(header, layout, PackL(0) + PackL(0));
      Join(front, header, layout + (PackL(0) + PackL(0)));
      HeaderHere(front, SizeOf(d), d[0].addr, layout + (PackL(0) + PackL(0)));
    }
  }

  lemma ZerosHere(front: seq<byte>)
    ensures Dwords(front + (PackL(0) + PackL(0)), |front|, [0, 0])
  {
    hide PackL, UnpackL, Slice;
    var zeros := PackL(0) + PackL(0);
    assert zeros[0..4] == PackL(0) == zeros[4..8] && front + zeros + [] == front + zeros;
    DwordWithin(front, zeros, [], 0, 0);
    DwordWithin(front, zeros, [], 4, 0);
  }

  lemma HeaderHere(front: seq<byte>, size: u32, addr: u32, back: seq<byte>)
    ensures Dwords(front + Header(Sdram, size, addr) + back, |front|, [size, addr, 0xFFFFFFFF, 0xFFFFFFFF])
  {
    hide PackL, UnpackL, Slice, Header;
    var header := Header(Sdram, size, addr);
    ShortDwords(Sdram, size, addr);
    DwordWithin(front, header, back, 0, size);
    DwordWithin(front, header, back, 4, addr);
    DwordWithin(front, header, back, 8, 0xFFFFFFFF);
    DwordWithin(front, header, back, 0xC, 0xFFFFFFFF);
  }

  lemma BootHeaderInFile(b: seq<Section>, r: seq<Section>, d: seq<Section>)
    requires Linked(b, BASE1) && Linked(r, BASE2) && WritesRamAll(b, r, d)
    ensures Dwords(RamAllFile(b, r, d), 0,
                   [0x96969999, 0xFC66CC3F, 0x03CC33C0, 0x6231DCE5, ImageSize(b), 0x10000BC8, 0xFFFF002C, 0xFFFFFFFF])
  {
    hide Layout, Linked, ImageSize, PackL, UnpackL, Header, Slice, Rest;
    SizeFits(b, BASE1);
    var size := ImageSize(b);
    FileFromStart(b, r, d);
    HeaderWords(size, BASE1);
    BootDwords(size, BASE1);
    HeaderWord(Boot, b, BASE1, 0, 0x96969999, [], Rest(b, r, d));
    HeaderWord(Boot, b, BASE1, 4, 0xFC66CC3F, [], Rest(b, r, d));
    HeaderWord(Boot, b, BASE1, 8, 0x03CC33C0, [], Rest(b, r, d));
    HeaderWord(Boot, b, BASE1, 0xC, 0x6231DCE5, [], Rest(b, r, d));
    HeaderWord(Boot, b, BASE1, 0x10, size, [], Rest(b, r, d));
    HeaderWord(Boot, b, BASE1, 0x14, BASE1, [], Rest(b, r, d));
    HeaderWord(Boot, b, BASE1, 0x18, 0xFFFF002C, [], Rest(b, r, d));
    HeaderWord(Boot, b, BASE1, 0x1C, 0xFFFFFFFF, [], Rest(b, r, d));
  }

  lemma SizeFits(segs: seq<Section>, base: u32)
    requires Linked(segs, base)
    ensures segs != [] && 0 < ImageSize(segs) < 0x1_0000_0000 && SizeOf(segs) == ImageSize(segs) && segs[0].addr == base
  {
  }

  lemma RamHeaderInFile(b: seq<Section>, r: seq<Section>, d: seq<Section>)
    requires Linked(b, BASE1) && Linked(r, BASE2) && WritesRamAll(b, r, d)
    ensures Dwords(RamAllFile(b, r, d), 0xB000, [ImageSize(r), 0x10006000, 0x35393138, 0x31313738])
  {
    hide Layout, Linked, ImageSize, PackL, UnpackL, Header, Slice, Tail;
    SizeFits(r, BASE2);
    var size := ImageSize(r);
    FileFromGap(b, r, d);
    ShortDwords(Ram, size, BASE2);
    HeaderWord(Ram, r, BASE2, 0, size, Front(b), Tail(d));
    HeaderWord(Ram, r, BASE2, 4, BASE2, Front(b), Tail(d));
    HeaderWord(Ram, r, BASE2, 8, 0x35393138, Front(b), Tail(d));
    HeaderWord(Ram, r, BASE2, 0xC, 0x31313738, Front(b), Tail(d));
  }

  /** The second image is found behind the gap, with the bytes that follow it. */
  lemma LoaderFindsImage2(b: seq<Section>, r: seq<Section>, d: seq<Section>)
    requires Linked(b, BASE1) && Linked(r, BASE2) && WritesRamAll(b, r, d)
    ensures HasImage2(RamAllFile(b, r, d))
    ensures Image2(RamAllFile(b, r, d)) == Layout(r, BASE2) + Trailer(d)
  {
    LoaderFindsGap(b, r, d);
    FileFromGap(b, r, d);
    HeaderWords(ImageSize(r), BASE2);
    HeaderWord(Ram, r, BASE2, 0, ImageSize(r), Front(b), Tail(d));
    PayloadAndMore(Ram, r, BASE2, Front(b), Tail(d), 0x10);
  }

  /** Every byte of every section outside of lo..hi is in memory at its address. */
  ghost predicate InPlace(mem: Memory, segs: seq<Section>, lo: int, hi: int) {
    forall i, k {:trigger segs[i].raw[k]} ::
      0 <= i < |segs| && 0 <= k < |segs[i].raw| && !(lo <= segs[i].addr + k < hi) ==>
        mem(segs[i].addr + k) == segs[i].raw[k]
  }

  lemma WrittenInPlace(mem: Memory, segs: seq<Section>, base: u32, d: seq<byte>)
    requires Linked(segs, base) && Layout(segs, base) <= d
    ensures InPlace(Written(mem, base, d), segs, 0, 0)
  {
    forall i, k {:trigger segs[i].raw[k]} | 0 <= i < |segs| && 0 <= k < |segs[i].raw|
      ensures Written(mem, base, d)(segs[i].addr + k) == segs[i].raw[k]
    {
      ByteInLayout(segs, base, i, k);
    }
  }

  lemma OverwrittenInPlace(mem: Memory, segs: seq<Section>, base: int, d: seq<byte>)
    requires InPlace(mem, segs, 0, 0)
    ensures InPlace(Written(mem, base, d), segs, base, base + |d|)
  {
  }

  /** Where the loader's second write ends. */
  ghost function End2(size: int, d: seq<Section>): int
    requires Packs(d)
  {
    BASE2 + size + |Trailer(d)|
  }

  /** Memory after writing ram_all.bin from the sections and loading it. */
  ghost function AfterLoad(mem: Memory, b: seq<Section>, r: seq<Section>, d: seq<Section>): Memory
    requires Linked(b, BASE1) && Linked(r, BASE2) && WritesRamAll(b, r, d)
  {
    LoaderFindsImage1(b, r, d);
    LoaderFindsImage2(b, r, d);
    Loaded(mem, Image1(RamAllFile(b, r, d)), Image2(RamAllFile(b, r, d)))
  }

  lemma AfterLoadIs(mem: Memory, b: seq<Section>, r: seq<Section>, d: seq<Section>)
    requires Linked(b, BASE1) && Linked(r, BASE2) && WritesRamAll(b, r, d)
    ensures AfterLoad(mem, b, r, d) == Loaded(mem, Layout(b, BASE1), Layout(r, BASE2) + Trailer(d))
    ensures |Layout(b, BASE1)| == ImageSize(b) && |Layout(r, BASE2)| == ImageSize(r)
  {
    LoaderFindsImage1(b, r, d);
    LoaderFindsImage2(b, r, d);
    SizeDelimitsIffAligned(b);
    SizeDelimitsIffAligned(r);
  }

  /**
    Writing ram_all.bin and loading it puts every byte of every section at its address. The second image is
    written last, and overwrites what the first has in its range. Nothing else changes but the eight or sixteen bytes
    after the second image.
  */
  lemma SectionsLandAtTheirAddresses(b: seq<Section>, r: seq<Section>, d: seq<Section>, mem: Memory)
    requires Linked(b, BASE1) && Linked(r, BASE2) && WritesRamAll(b, r, d)
    ensures HasDword(RamAllFile(b, r, d), 0x10) && HasImage2(RamAllFile(b, r, d))
    ensures var loaded := AfterLoad(mem, b, r, d);
            && loaded == Loaded(mem, Image1(RamAllFile(b, r, d)), Image2(RamAllFile(b, r, d)))
            && InPlace(loaded, r, 0, 0)
            && InPlace(loaded, b, BASE2, End2(ImageSize(r), d))
            && forall a :: !(BASE1 <= a < BASE1 + ImageSize(b)) && !(BASE2 <= a < End2(ImageSize(r), d)) ==>
                 loaded(a) == mem(a)
  {
    LoaderFindsImage1(b, r, d);
    LoaderFindsImage2(b, r, d);
    AfterLoadIs(mem, b, r, d);
    var one, two := Layout(b, BASE1), Layout(r, BASE2) + Trailer(d);
    WrittenInPlace(mem, b, BASE1, one);
    OverwrittenInPlace(Written(mem, BASE1, one), b, BASE2, two);
    WrittenInPlace(Written(mem, BASE1, one), r, BASE2, two);
  }

  /** No byte of a section is in lo..hi. */
  ghost predicate ClearOf(segs: seq<Section>, lo: int, hi: int) {
    forall i, k {:trigger segs[i].raw[k]} ::
      0 <= i < |segs| && 0 <= k < |segs[i].raw| ==> !(lo <= segs[i].addr + k < hi)
  }

  /** Where a section's bytes meet those of `t` at address `at`, they are the same. */
  ghost predicate Agrees(segs: seq<Section>, at: int, t: seq<byte>) {
    forall i, k {:trigger segs[i].raw[k]} ::
      0 <= i < |segs| && 0 <= k < |segs[i].raw| && at <= segs[i].addr + k < at + |t| ==>
        segs[i].raw[k] == t[segs[i].addr + k - at]
  }

  /** A second image of the given size, all of its data the byte `v`, that has data at distance `t`. */
  ghost function Filled(n: nat, t: nat, v: byte): seq<Section>
    requires t < n && 4 <= n < 0x1_0000_0000
  {
    var k := n % 4;
    var m := if t < k then 4 else 0;
    [Section("", BASE2, seq(m, i => v)), Section("", BASE2 + m + k, seq(n - m - k, i => v))]
  }

  lemma FilledIs(n: nat, t: nat, v: byte)
    requires t < n && 4 <= n < 0x1_0000_0000
    ensures var r := Filled(n, t, v);
            Linked(r, BASE2) && ImageSize(r) == n && |Layout(r, BASE2)| == n && Layout(r, BASE2)[t] == v
  {
    var r := Filled(n, t, v);
    var k := n % 4;
    var m := if t < k then 4 else 0;
    assert n - m - k >= 0 && (n - m - k) % 4 == 0;
    assert |Data(r[1])| == n - m - k;
    assert Linked(r, BASE2);
    SizeDelimitsIffAligned(r);
    if t < m {
      ByteInLayout(r, BASE2, 0, t);
    } else {
      ByteInLayout(r, BASE2, 1, t - m - k);
    }
  }

  /** A write leaves sections in place exactly if it writes what they have there. */
  lemma WriteKeepsIff(mem: Memory, segs: seq<Section>, at: int, t: seq<byte>)
    requires InPlace(mem, segs, 0, 0)
    ensures InPlace(Written(mem, at, t), segs, 0, 0) <==> Agrees(segs, at, t)
  {
    forall i, k {:trigger segs[i].raw[k]} | 0 <= i < |segs| && 0 <= k < |segs[i].raw|
      ensures Written(mem, at, t)(segs[i].addr + k)
              == if at <= segs[i].addr + k < at + |t| then t[segs[i].addr + k - at] else segs[i].raw[k]
    {
    }
  }

  lemma AgreesWithBoth(segs: seq<Section>, at: int, s: seq<byte>, t: seq<byte>)
    ensures Agrees(segs, at, s + t) <==> Agrees(segs, at, s) && Agrees(segs, at + |s|, t)
  {
    forall i, k {:trigger segs[i].raw[k]} | 0 <= i < |segs| && 0 <= k < |segs[i].raw|
      ensures var a := segs[i].addr + k - at;
              && (0 <= a < |s| ==> (s + t)[a] == s[a])
              && (|s| <= a < |s + t| ==> (s + t)[a] == t[a - |s|])
    {
    }
  }

  lemma ClearAgrees(segs: seq<Section>, at: int, t: seq<byte>)
    requires ClearOf(segs, at, at + |t|)
    ensures Agrees(segs, at, t)
  {
  }

  /** Exactly when the first image survives this second one: it has the same bytes where the second write goes. */
  lemma FirstImageSurvivesThisIff(b: seq<Section>, r: seq<Section>, d: seq<Section>, mem: Memory)
    requires Linked(b, BASE1) && Linked(r, BASE2) && WritesRamAll(b, r, d)
    ensures InPlace(AfterLoad(mem, b, r, d), b, 0, 0)
            <==> Agrees(b, BASE2, Layout(r, BASE2)) && Agrees(b, BASE2 + ImageSize(r), Trailer(d))
  {
    hide Layout, Agrees, InPlace, Trailer, AfterLoad;
    AfterLoadIs(mem, b, r, d);
    WrittenInPlace(mem, b, BASE1, Layout(b, BASE1));
    WriteKeepsIff(Written(mem, BASE1, Layout(b, BASE1)), b, BASE2, Layout(r, BASE2) + Trailer(d));
    AgreesWithBoth(b, BASE2, Layout(r, BASE2), Trailer(d));
  }

  /** Some second image of the size differs from a byte that lies where it goes. */
  lemma OverlapDisagrees(b: seq<Section>, n: nat, i: nat, k: nat) returns (r: seq<Section>)
    requires 4 <= n < 0x1_0000_0000 && i < |b| && k < |b[i].raw| && BASE2 <= b[i].addr + k < BASE2 + n
    ensures Linked(r, BASE2) && ImageSize(r) == n && !Agrees(b, BASE2, Layout(r, BASE2))
  {
    var t, v: byte := b[i].addr + k - BASE2, if b[i].raw[k] == 0 then 1 else 0;
    r := Filled(n, t, v);
    FilledIs(n, t, v);
  }

  lemma {:induction false} WritesBoth(b: seq<Section>, r: seq<Section>, d: seq<Section>)
    requires Linked(b, BASE1) && Linked(r, BASE2) && Packs(d) && |ImageData(Boot, b)| <= BOOT_GAP
    ensures WritesRamAll(b, r, d)
  {
  }

  /**
    Exactly when the first image survives the loading of every second image of a given size, with `d` behind it: none
    of its sections' bytes are where the second image goes, and in the eight or sixteen bytes behind that it has what
    the file has there. The size is one that holds any data, at least four bytes.
  */
  lemma FirstImageSurvivesIff(b: seq<Section>, d: seq<Section>, n: nat, mem: Memory)
    requires Linked(b, BASE1) && Packs(d) && |ImageData(Boot, b)| <= BOOT_GAP && 4 <= n < 0x1_0000_0000
    ensures (forall r :: Linked(r, BASE2) && ImageSize(r) == n ==> InPlace(AfterLoad(mem, b, r, d), b, 0, 0))
            <==> ClearOf(b, BASE2, BASE2 + n) && Agrees(b, BASE2 + n, Trailer(d))
  {
    hide AfterLoad, InPlace, Trailer, Agrees, Layout, ImageData;
    forall r | Linked(r, BASE2) && ImageSize(r) == n
      ensures WritesRamAll(b, r, d)
      ensures InPlace(AfterLoad(mem, b, r, d), b, 0, 0)
              <==> Agrees(b, BASE2, Layout(r, BASE2)) && Agrees(b, BASE2 + n, Trailer(d))
      ensures ClearOf(b, BASE2, BASE2 + n) ==> Agrees(b, BASE2, Layout(r, BASE2))
    {
      WritesBoth(b, r, d);
      FirstImageSurvivesThisIff(b, r, d, mem);
      SizeDelimitsIffAligned(r);
      if ClearOf(b, BASE2, BASE2 + n) {
        ClearAgrees(b, BASE2, Layout(r, BASE2));
      }
    }
    FilledIs(n, 0, 0);
    if !ClearOf(b, BASE2, BASE2 + n) {
      var i, k :| 0 <= i < |b| && 0 <= k < |b[i].raw| && BASE2 <= b[i].addr + k < BASE2 + n;
      var r := OverlapDisagrees(b, n, i, k);
    }
  }

  /** A first image that ends where the second begins is safe. */
  lemma ShortFirstImageSurvives(b: seq<Section>, r: seq<Section>, d: seq<Section>, mem: Memory)
    requires Linked(b, BASE1) && Linked(r, BASE2) && WritesRamAll(b, r, d) && BASE1 + ImageSize(b) <= BASE2
    ensures InPlace(AfterLoad(mem, b, r, d), b, 0, 0)
  {
    SizeDelimitsIffAligned(b);
    SizeDelimitsIffAligned(r);
    forall i, k {:trigger b[i].raw[k]} | 0 <= i < |b| && 0 <= k < |b[i].raw|
      ensures b[i].addr + k < BASE2
    {
      ByteInLayout(b, BASE1, i, k);
    }
    FirstImageSurvivesThisIff(b, r, d, mem);
  }

  /** An image of one section of `n` bytes `v`. */
  ghost function OneSection(base: u32, n: nat, v: byte): seq<Section> {
    [Section("", base, seq(n, i => v))]
  }

  lemma OneSectionIs(base: u32, n: nat, v: byte)
    requires n % 4 == 0 && 0 < n < 0x1_0000_0000
    ensures var s := OneSection(base, n, v);
            Linked(s, base) && ImageSize(s) == n && |Layout(s, base)| == n && forall t :: 0 <= t < n ==> Layout(s, base)[t] == v
  {
    var s := OneSection(base, n, v);
    assert |Data(s[0])| == n;
    SizeDelimitsIffAligned(s);
    forall t | 0 <= t < n
      ensures Layout(s, base)[t] == v
    {
      ByteInLayout(s, base, 0, t);
    }
  }

  /** The gap of the file lets longer ones pass: a first image of 0x5440 bytes loses its last eight. */
  lemma LongFirstImageIsOverwritten(mem: Memory)
    ensures var b, r := OneSection(BASE1, 0x5440, 1), OneSection(BASE2, 8, 2);
            && Linked(b, BASE1) && Linked(r, BASE2) && WritesRamAll(b, r, [])
            && AfterLoad(mem, b, r, [])(BASE2) == 2 && b[0].raw[BASE2 - BASE1] == 1
  {
    var b, r := OneSection(BASE1, 0x5440, 1), OneSection(BASE2, 8, 2);
    OneSectionIs(BASE1, 0x5440, 1);
    OneSectionIs(BASE2, 8, 2);
    hide Layout, Linked;
    assert |ImageData(Boot, b)| == 0x20 + 0x5440;
    AfterLoadIs(mem, b, r, []);
  }
}
