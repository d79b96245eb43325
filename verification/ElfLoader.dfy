/** The second boot stage, boot/bootmain.c: reading whole sectors, walking the ELF program headers,
    and the memory image that results in spite of the over-reads. */
module ElfLoaderModel {
  import opened Common

  const SECTSIZE := 512
  const KERNEL_LBA := 16
  const SCRATCH_ADDR := 0x10000
  const HEADER_BYTES := 4096
  const PT_LOAD := 1
  const EHDR_ENTRY := 24
  const EHDR_PHOFF := 28
  const EHDR_PHNUM := 44
  const PHDR_SIZE := 32

  /** Octet i of the kernel file, which starts at KERNEL_LBA. */
  function KernelByte(disk: seq<Octet>, i: int): Octet {
    var k := KERNEL_LBA * SECTSIZE + i;
    if 0 <= k < |disk| then disk[k] else 0
  }

  // ---------------------------------------------------------------- segments

  datatype Segment = Segment(offset: nat, paddr: nat, filesz: nat, memsz: nat) {

    /** Where the first sector of the segment is put. */
    function Start(): int {
      paddr - offset % SECTSIZE
    }

    /** Sectors read for the segment. */
    function Sectors(): nat {
      (filesz + offset % SECTSIZE + SECTSIZE - 1) / SECTSIZE
    }

    /** The end of the memory image that the header describes. */
    function End(): nat {
      paddr + Max(filesz, memsz)
    }

    /** The loader writes address a when it loads this segment. */
    predicate Covers(a: int) {
      Start() <= a < Start() + SECTSIZE * Sectors() || IsZeroed(a)
    }

    /** Address a is filled with zero for this segment. */
    predicate IsZeroed(a: int) {
      paddr + filesz <= a < paddr + memsz
    }

    /** What is at address a when this segment has just been loaded, if it covers a. Inside the
        image these are the file bytes, then zeros. */
    function Value(disk: seq<Octet>, a: int): Octet {
      if IsZeroed(a) then 0 else KernelByte(disk, offset + (a - paddr))
    }

    lemma CoversImage(a: int)
      requires paddr <= a < End()
      ensures Covers(a)
    {
      var n := filesz + offset % SECTSIZE + SECTSIZE - 1;
      assert SECTSIZE * Sectors() == n - n % SECTSIZE;
    }

    /** The head over-read: everything from the rounded start to the image is written. */
    lemma CoversHead(a: int)
      requires Start() <= a < paddr
      ensures Covers(a)
    {
      assert offset % SECTSIZE >= 1;
      assert Sectors() >= 1;
    }
  }

  /** The byte at address a after loading `segs` in order: the last writer wins. */
  function ByteAfter(before: Octet, disk: seq<Octet>, segs: seq<Segment>, a: int): Octet {
    if segs == [] then before
    else
      var last := segs[|segs| - 1];
      if last.Covers(a) then last.Value(disk, a) else ByteAfter(before, disk, segs[..|segs| - 1], a)
  }

  /** Address a is part of the image of segment s. */
  ghost predicate InImage(s: Segment, a: int) {
    s.paddr <= a < s.End()
  }

  /** The image of s is complete in a memory that was loaded with `segs`. */
  ghost predicate Intact(before: Octet, disk: seq<Octet>, segs: seq<Segment>, s: Segment) {
    forall a | InImage(s, a) :: ByteAfter(before, disk, segs, a) == s.Value(disk, a)
  }

  /** Loading `later` after `s`, which ends no later than it starts, leaves the image of s alone:
      either the sectors of `later` begin past s, or they begin inside the file part of s at the
      same displacement, so that the over-read brings the same bytes again. */
  predicate Compatible(s: Segment, later: Segment) {
    || s.End() <= later.Start()
    || s.End() == s.paddr
    || (s.paddr - s.offset == later.paddr - later.offset && s.memsz <= s.filesz)
  }

  lemma CompatibleValue(disk: seq<Octet>, s: Segment, later: Segment, a: int)
    requires Compatible(s, later) && s.End() <= later.paddr && InImage(s, a) && later.Covers(a)
    ensures later.Value(disk, a) == s.Value(disk, a)
  {
  }

  /** For segments in address order that are pairwise compatible, every image is complete after
      the last one has been loaded, whatever is on the disk. */
  lemma {:induction false} ImagesComplete(before: Octet, disk: seq<Octet>, segs: seq<Segment>, i: nat)
    requires i < |segs|
    requires forall j | i < j < |segs| :: segs[i].End() <= segs[j].paddr && Compatible(segs[i], segs[j])
    ensures Intact(before, disk, segs, segs[i])
  {
    var n := |segs| - 1;
    if i < n {
      ImagesComplete(before, disk, segs[..n], i);
    }
    forall a | InImage(segs[i], a) ensures ByteAfter(before, disk, segs, a) == segs[i].Value(disk, a) {
      if i == n {
        segs[n].CoversImage(a);
      } else if segs[n].Covers(a) {
        CompatibleValue(disk, segs[i], segs[n], a);
      } else {
        assert Intact(before, disk, segs[..n], segs[i]);
      }
    }
  }

  /** The kernel file whose only non-zero byte is number k. */
  function Spike(k: nat): (disk: seq<Octet>)
    ensures forall i: int :: KernelByte(disk, i) == if i == k then 1 else 0
  {
    seq(KERNEL_LBA * SECTSIZE + k, i => 0) + [1]
  }

  /** For two segments in address order the condition is exact. */
  lemma CompatibleIff(before: Octet, s: Segment, later: Segment)
    requires s.End() <= later.paddr
    ensures (forall disk: seq<Octet> :: Intact(before, disk, [s, later], s)) <==> Compatible(s, later)
  {
    if Compatible(s, later) {
      forall disk: seq<Octet> ensures Intact(before, disk, [s, later], s) {
        ImagesComplete(before, disk, [s, later], 0);
      }
    } else {
      var a := s.End() - 1;
      later.CoversHead(a);
      var k := later.offset + (a - later.paddr);
      var disk := Spike(k);
      assert later.Value(disk, a) == 1;
      assert s.Value(disk, a) == 0;
      assert InImage(s, a) && ByteAfter(before, disk, [s, later], a) == 1;
      assert !Intact(before, disk, [s, later], s);
    }
  }

  /** The last segment that covers address a. */
  ghost function LastCover(segs: seq<Segment>, a: int): Segment
    requires exists j :: 0 <= j < |segs| && segs[j].Covers(a)
  {
    var last := segs[|segs| - 1];
    if last.Covers(a) then last else LastCover(segs[..|segs| - 1], a)
  }

  lemma {:induction false} LastWriterWins(before: Octet, disk: seq<Octet>, segs: seq<Segment>, a: int)
    requires exists j :: 0 <= j < |segs| && segs[j].Covers(a)
    ensures ByteAfter(before, disk, segs, a) == LastCover(segs, a).Value(disk, a)
    ensures LastCover(segs, a) in segs && LastCover(segs, a).Covers(a)
  {
    var n := |segs| - 1;
    if !segs[n].Covers(a) {
      var j :| 0 <= j < |segs| && segs[j].Covers(a);
      assert segs[..n][j].Covers(a);
      LastWriterWins(before, disk, segs[..n], a);
    }
  }

  /** Both segments put the same byte at a, whatever is on the disk: both zero, or both the same byte
      of the file. */
  predicate SameByte(s: Segment, t: Segment, a: int) {
    if s.IsZeroed(a) then t.IsZeroed(a) else !t.IsZeroed(a) && s.offset - s.paddr == t.offset - t.paddr
  }

  lemma SameByteIff(s: Segment, t: Segment, a: int)
    requires InImage(s, a) && t.Covers(a)
    ensures SameByte(s, t, a) ==> forall disk: seq<Octet> :: s.Value(disk, a) == t.Value(disk, a)
    ensures !SameByte(s, t, a) ==> exists disk: seq<Octet> :: s.Value(disk, a) != t.Value(disk, a)
  {
    if !SameByte(s, t, a) {
      var x := if s.IsZeroed(a) then t else s;
      CoveredIndex(x, a);
      var k := x.offset + (a - x.paddr);
      var disk := Spike(k);
      assert s.Value(disk, a) != t.Value(disk, a);
    }
  }

  /** The file index behind a covered address is not negative. */
  lemma CoveredIndex(s: Segment, a: int)
    requires s.Covers(a) || InImage(s, a)
    ensures s.offset + (a - s.paddr) >= 0
  {
  }

  /** The exact condition for any list of segments: the image of segment i is complete after the last
      one, whatever is on the disk, exactly if at each of its addresses the last segment that covers
      it puts the byte that segment i puts. */
  lemma IntactIff(before: Octet, segs: seq<Segment>, i: nat)
    requires i < |segs|
    ensures (forall disk: seq<Octet> :: Intact(before, disk, segs, segs[i])) <==>
            forall a | InImage(segs[i], a) :: AgreesAt(segs, segs[i], a)
  {
    if forall a | InImage(segs[i], a) :: AgreesAt(segs, segs[i], a) {
      forall disk: seq<Octet> ensures Intact(before, disk, segs, segs[i]) {
        forall a | InImage(segs[i], a) ensures ByteAfter(before, disk, segs, a) == segs[i].Value(disk, a) {
          assert AgreesAt(segs, segs[i], a);
          LastWriterWins(before, disk, segs, a);
          SameByteIff(segs[i], LastCover(segs, a), a);
        }
      }
    } else {
      var a :| InImage(segs[i], a) && !AgreesAt(segs, segs[i], a);
      segs[i].CoversImage(a);
      var t := LastCover(segs, a);
      LastWriterWins(before, [], segs, a);
      SameByteIff(segs[i], t, a);
      var disk: seq<Octet> :| segs[i].Value(disk, a) != t.Value(disk, a);
      LastWriterWins(before, disk, segs, a);
      assert !Intact(before, disk, segs, segs[i]);
    }
  }

  ghost predicate AgreesAt(segs: seq<Segment>, s: Segment, a: int) {
    (exists j :: 0 <= j < |segs| && segs[j].Covers(a)) && SameByte(s, LastCover(segs, a), a)
  }

  /** The note beside read_seg that an overlap always lands on already-correct bytes does not hold
      for zero-filled tails: here the second segment's first sector brings file bytes back over
      the .bss of the first. */
  lemma OverreadIntoBss(before: Octet)
    ensures var text, data := Segment(0x1000, 0x100000, 16, 32), Segment(0x1020, 0x100020, 16, 16);
            text.End() <= data.paddr && exists disk: seq<Octet> :: !Intact(before, disk, [text, data], text)
  {
    var text, data := Segment(0x1000, 0x100000, 16, 32), Segment(0x1020, 0x100020, 16, 16);
    CompatibleIff(before, text, data);
  }

  // ---------------------------------------------------------------- the ELF header

  /** Little-endian numbers in the kernel file. */
  function U16(disk: seq<Octet>, i: nat): nat {
    var lo: int, hi: int := KernelByte(disk, i), KernelByte(disk, i + 1);
    lo + 0x100 * hi
  }

  function U32(disk: seq<Octet>, i: nat): nat {
    U16(disk, i) + 0x10000 * U16(disk, i + 2)
  }

  function PhOff(disk: seq<Octet>): nat {
    U32(disk, EHDR_PHOFF)
  }

  function PhNum(disk: seq<Octet>): nat {
    U16(disk, EHDR_PHNUM)
  }

  predicate HasMagic(disk: seq<Octet>) {
    && KernelByte(disk, 0) == 0x7F && KernelByte(disk, 1) == 'E' as int
    && KernelByte(disk, 2) == 'L' as int && KernelByte(disk, 3) == 'F' as int
  }

  /** Program header n: p_offset, p_paddr, p_filesz, p_memsz at 4, 12, 16 and 20. */
  function Phdr(disk: seq<Octet>, n: nat): Segment {
    var at := PhOff(disk) + n * PHDR_SIZE;
    Segment(U32(disk, at + 4), U32(disk, at + 12), U32(disk, at + 16), U32(disk, at + 20))
  }

  predicate IsLoad(disk: seq<Octet>, n: nat) {
    U32(disk, PhOff(disk) + n * PHDR_SIZE) == PT_LOAD
  }

  // The same by the bytes of the disk. The kernel file starts at byte 8192.

  function Le16(disk: seq<Octet>, i: nat): nat
    requires i + 2 <= |disk|
  {
    disk[i] as nat + 256 * disk[i + 1] as nat
  }

  function Le32(disk: seq<Octet>, i: nat): nat
    requires i + 4 <= |disk|
  {
    disk[i] as nat + 256 * disk[i + 1] as nat + 0x1_0000 * disk[i + 2] as nat + 0x100_0000 * disk[i + 3] as nat
  }

  lemma NumbersAt(disk: seq<Octet>, i: nat)
    ensures 8192 + i + 2 <= |disk| ==> U16(disk, i) == Le16(disk, 8192 + i)
    ensures 8192 + i + 4 <= |disk| ==> U32(disk, i) == Le32(disk, 8192 + i)
  {
  }

  /** The fields of the ELF header that the loader uses. */
  lemma EhdrBytes(disk: seq<Octet>)
    requires |disk| >= 8192 + 4096
    ensures HasMagic(disk) <==> disk[8192] == 0x7F && disk[8193] == 69 && disk[8194] == 76 && disk[8195] == 70
    ensures U32(disk, EHDR_ENTRY) == Le32(disk, 8192 + 24)
    ensures PhOff(disk) == Le32(disk, 8192 + 28) && PhNum(disk) == Le16(disk, 8192 + 44)
  {
    NumbersAt(disk, 24);
    NumbersAt(disk, 28);
    NumbersAt(disk, 44);
  }

  /** Program header n: type, offset, address, file size and memory size. */
  lemma PhdrBytes(disk: seq<Octet>, n: nat)
    requires 8192 + PhOff(disk) + 32 * n + 32 <= |disk|
    ensures var at := 8192 + PhOff(disk) + 32 * n;
            && (IsLoad(disk, n) <==> Le32(disk, at) == 1)
            && Phdr(disk, n).offset == Le32(disk, at + 4) && Phdr(disk, n).paddr == Le32(disk, at + 12)
            && Phdr(disk, n).filesz == Le32(disk, at + 16) && Phdr(disk, n).memsz == Le32(disk, at + 20)
  {
    hide U32, PhOff;
    var at := PhOff(disk) + 32 * n;
    NumbersAt(disk, at);
    NumbersAt(disk, at + 4);
    NumbersAt(disk, at + 12);
    NumbersAt(disk, at + 16);
    NumbersAt(disk, at + 20);
  }

  /** Where program header n is on the disk. */
  function HeaderAt(disk: seq<Octet>, n: nat): nat
    requires |disk| >= 8192 + 4096
  {
    8192 + Le32(disk, 8192 + 28) + 32 * n
  }

  ghost predicate LoadAt(disk: seq<Octet>, n: nat)
    requires |disk| >= 8192 + 4096
  {
    n < Le16(disk, 8192 + 44) && HeaderAt(disk, n) + 32 <= |disk| && Le32(disk, HeaderAt(disk, n)) == 1
  }

  /** The image of every segment ends before the first sector of any later one goes to memory. */
  ghost predicate Apart(disk: seq<Octet>)
    requires |disk| >= 8192 + 4096
  {
    forall i, j | 0 <= i < j && LoadAt(disk, i) && LoadAt(disk, j) ::
      var s, t := HeaderAt(disk, i), HeaderAt(disk, j);
      Le32(disk, s + 12) + Max(Le32(disk, s + 16), Le32(disk, s + 20)) <= Le32(disk, t + 12) - Le32(disk, t + 4) % 512
  }

  /** What program header n asks for is in memory: the bytes of the file, and zeros behind them. */
  ghost predicate InMemory(m: seq<Octet>, disk: seq<Octet>, n: nat)
    requires |disk| >= 8192 + 4096 && LoadAt(disk, n)
  {
    var at := HeaderAt(disk, n);
    var from, paddr, filesz, memsz :=
      8192 + Le32(disk, at + 4), Le32(disk, at + 12), Le32(disk, at + 16), Le32(disk, at + 20);
    && paddr + Max(filesz, memsz) <= |m| && from + filesz <= |disk|
    && m[paddr..paddr + filesz] == disk[from..from + filesz]
    && forall a | paddr + filesz <= a < paddr + memsz :: m[a] == 0
  }

  /** The PT_LOAD segments among the first n program headers. */
  function Segments(disk: seq<Octet>, n: nat): seq<Segment> {
    if n == 0 then [] else Segments(disk, n - 1) + if IsLoad(disk, n - 1) then [Phdr(disk, n - 1)] else []
  }

  /** Everything written for the segment is memory above the header copy, and comes from the disk. */
  ghost predicate Placeable(disk: seq<Octet>, memory: nat, s: Segment) {
    && SCRATCH_ADDR + HEADER_BYTES <= s.Start()
    && s.Start() + SECTSIZE * s.Sectors() <= memory && s.End() <= memory
    && KERNEL_LBA * SECTSIZE + s.offset / SECTSIZE * SECTSIZE + SECTSIZE * s.Sectors() <= |disk|
  }

  /** What the loader needs of disk and machine. */
  ghost predicate Bootable(disk: seq<Octet>, memory: nat) {
    && SCRATCH_ADDR + HEADER_BYTES <= memory < 0x1_0000_0000
    && KERNEL_LBA * SECTSIZE + HEADER_BYTES <= |disk| <= 0x1000_0000 * SECTSIZE
    && PhOff(disk) + PhNum(disk) * PHDR_SIZE <= HEADER_BYTES
    && forall n | 0 <= n < PhNum(disk) && IsLoad(disk, n) :: Placeable(disk, memory, Phdr(disk, n))
  }

  datatype Boot = NotElf | Entry(address: nat)

  class Machine {
    const mem: array<Octet>
    const disk: seq<Octet>

    constructor (memory: nat, disk: seq<Octet>)
      ensures mem.Length == memory && this.disk == disk
    {
      mem := new Octet[memory](i => 0);
      this.disk := disk;
    }

    /** read_sect: one sector, by port I/O. */
    method ReadSect(dst: nat, lba: nat)
      requires dst + SECTSIZE <= mem.Length && (lba + 1) * SECTSIZE <= |disk|
      modifies mem
      ensures forall a | 0 <= a < mem.Length ::
                mem[a] == if dst <= a < dst + SECTSIZE then disk[lba * SECTSIZE + (a - dst)] else old(mem[a])
    {
      for i := 0 to SECTSIZE
        invariant forall a | 0 <= a < mem.Length ::
                    mem[a] == if dst <= a < dst + i then disk[lba * SECTSIZE + (a - dst)] else old(mem[a])
      {
        mem[dst + i] := disk[lba * SECTSIZE + i];
      }
    }

    /** read_seg: whole sectors from the one that holds `offset` to the one that reaches pa + count. */
    method ReadSeg(pa: nat, count: nat, offset: nat)
      requires var s := Segment(offset, pa, count, 0);
               && 0 <= s.Start() && s.Start() + SECTSIZE * s.Sectors() <= mem.Length
               && KERNEL_LBA * SECTSIZE + offset / SECTSIZE * SECTSIZE + SECTSIZE * s.Sectors() <= |disk|
      modifies mem
      ensures var s := Segment(offset, pa, count, 0);
              forall a | 0 <= a < mem.Length ::
                mem[a] == if s.Start() <= a < s.Start() + SECTSIZE * s.Sectors()
                          then KernelByte(disk, offset + (a - pa)) else old(mem[a])
    {
      var epa := pa + count;
      var p := pa - offset % SECTSIZE;
      var lba := offset / SECTSIZE + KERNEL_LBA;
      ghost var start, n := p, Segment(offset, pa, count, 0).Sectors();
      ghost var k := 0;
      while p < epa
        invariant 0 <= k <= n && p == start + k * SECTSIZE && lba == offset / SECTSIZE + KERNEL_LBA + k
        invariant forall a | 0 <= a < mem.Length ::
                    mem[a] == if start <= a < p then KernelByte(disk, offset + (a - pa)) else old(mem[a])
        decreases epa - p
      {
        SectorsLeft(pa, count, offset, k);
        ReadSect(p, lba);
        p, lba := p + SECTSIZE, lba + 1;
        k := k + 1;
      }
      SectorsDone(pa, count, offset, k);
    }

    /** stosb with zero. */
    method Zero(pa: nat, count: nat)
      requires pa + count <= mem.Length
      modifies mem
      ensures forall a | 0 <= a < mem.Length :: mem[a] == if pa <= a < pa + count then 0 else old(mem[a])
    {
      for i := 0 to count
        invariant forall a | 0 <= a < mem.Length :: mem[a] == if pa <= a < pa + i then 0 else old(mem[a])
      {
        mem[pa + i] := 0;
      }
    }

    /** The body of the PT_LOAD loop. */
    method LoadSegment(s: Segment)
      requires Placeable(disk, mem.Length, s)
      modifies mem
      ensures forall a | 0 <= a < mem.Length :: mem[a] == if s.Covers(a) then s.Value(disk, a) else old(mem[a])
    {
      ReadSeg(s.paddr, s.filesz, s.offset);
      if s.memsz > s.filesz {
        Zero(s.paddr + s.filesz, s.memsz - s.filesz);
      }
    }

    /** The header copy at SCRATCH_ADDR is that of the disk. */
    ghost predicate HeaderLoaded()
      reads mem
    {
      && SCRATCH_ADDR + HEADER_BYTES <= mem.Length
      && forall i | 0 <= i < HEADER_BYTES :: mem[SCRATCH_ADDR + i] == KernelByte(disk, i)
    }

    /** Little-endian loads from the header copy. */
    method Load16(i: nat) returns (v: nat)
      requires HeaderLoaded() && i + 2 <= HEADER_BYTES
      ensures v == U16(disk, i)
    {
      var lo: int, hi: int := mem[SCRATCH_ADDR + i], mem[SCRATCH_ADDR + i + 1];
      assert mem[SCRATCH_ADDR + (i + 1)] == KernelByte(disk, i + 1);
      v := lo + 0x100 * hi;
    }

    method Load32(i: nat) returns (v: nat)
      requires HeaderLoaded() && i + 4 <= HEADER_BYTES
      ensures v == U32(disk, i)
    {
      var lo := Load16(i);
      var hi := Load16(i + 2);
      v := lo + 0x10000 * hi;
    }

    method CheckMagic() returns (ok: bool)
      requires HeaderLoaded()
      ensures ok == HasMagic(disk)
    {
      assert forall i | 0 <= i < HEADER_BYTES :: mem[SCRATCH_ADDR + i] == KernelByte(disk, i);
      ok := mem[SCRATCH_ADDR] == 0x7F && mem[SCRATCH_ADDR + 1] == 'E' as int
        && mem[SCRATCH_ADDR + 2] == 'L' as int && mem[SCRATCH_ADDR + 3] == 'F' as int;
    }

    /** One program header. */
    method LoadHeader(ph: nat, ghost n: nat)
      requires Bootable(disk, mem.Length) && HeaderLoaded() && n < PhNum(disk) && ph == PhOff(disk) + n * PHDR_SIZE
      modifies mem
      ensures HeaderLoaded()
      ensures forall a | 0 <= a < mem.Length ::
                mem[a] == if IsLoad(disk, n) && Phdr(disk, n).Covers(a)
                          then Phdr(disk, n).Value(disk, a) else old(mem[a])
    {
      hide KernelByte, U32, U16;
      var kind := Load32(ph);
      if kind == PT_LOAD {
        assert Placeable(disk, mem.Length, Phdr(disk, n));
        var offset := Load32(ph + 4);
        var paddr := Load32(ph + 12);
        var filesz := Load32(ph + 16);
        var memsz := Load32(ph + 20);
        LoadSegment(Segment(offset, paddr, filesz, memsz));
        StaysAbove(disk, mem.Length, Phdr(disk, n));
      }
    }

    /** bootmain, up to the jump: the memory above the header copy is what the PT_LOAD headers say,
        later ones winning. With segments in address order that are pairwise compatible, every one
        of them is complete when the kernel is entered. */
    method Bootmain() returns (boot: Boot)
      requires Bootable(disk, mem.Length)
      modifies mem
      ensures |disk| >= 8192 + 4096
      ensures boot.Entry? <==> disk[8192] == 0x7F && disk[8193] == 69 && disk[8194] == 76 && disk[8195] == 70
      ensures boot.Entry? ==> boot.address == Le32(disk, 8192 + 24)
      ensures boot.Entry? && Apart(disk) ==> forall n | LoadAt(disk, n) :: InMemory(mem[..], disk, n)
      ensures boot.Entry? ==> LoadedWith(old(mem[..]), mem[..], disk, Segments(disk, PhNum(disk)))
      ensures boot.Entry? && InOrder(Segments(disk, PhNum(disk))) ==>
        forall s | s in Segments(disk, PhNum(disk)) :: Complete(mem[..], disk, s)
    {
      hide KernelByte, U32, U16, HasMagic, ByteAfter, Phdr, IsLoad, Complete, InMemory, Apart, LoadAt, Le32, Le16,
           InOrder;
      EhdrBytes(disk);
      ReadSeg(SCRATCH_ADDR, HEADER_BYTES, 0);
      var ok := CheckMagic();
      if !ok {
        return NotElf;
      }
      var ph := Load32(EHDR_PHOFF);
      var phnum := Load16(EHDR_PHNUM);
      var eph := ph + phnum * PHDR_SIZE;
      ghost var n := 0;
      ghost var before := old(mem[..]);
      NothingLoaded(before, mem[..], disk);
      while ph < eph
        invariant 0 <= n <= phnum && ph == PhOff(disk) + n * PHDR_SIZE
        invariant HeaderLoaded()
        invariant LoadedWith(before, mem[..], disk, Segments(disk, n))
        decreases eph - ph
      {
        ghost var m := mem[..];
        LoadHeader(ph, n);
        OneMoreLoaded(before, m, mem[..], disk, n);
        ph := ph + PHDR_SIZE;
        n := n + 1;
      }
      var entry := Load32(EHDR_ENTRY);
      if Apart(disk) {
        ApartInOrder(disk, mem.Length, phnum);
      }
      if InOrder(Segments(disk, phnum)) {
        KernelInPlace(before, mem[..], disk);
      }
      if Apart(disk) {
        forall n | LoadAt(disk, n) ensures InMemory(mem[..], disk, n) {
          CompleteInMemory(mem[..], disk, n);
        }
      }
      return Entry(entry);
    }
  }

  /** Above the header copy, memory m' is m with `segs` loaded. */
  ghost predicate LoadedWith(m: seq<Octet>, m': seq<Octet>, disk: seq<Octet>, segs: seq<Segment>) {
    && |m| == |m'|
    && forall a | SCRATCH_ADDR + HEADER_BYTES <= a < |m| :: m'[a] == ByteAfter(m[a], disk, segs, a)
  }

  /** The segment's file bytes, then its zeros, are in memory. */
  ghost predicate Complete(m: seq<Octet>, disk: seq<Octet>, s: Segment) {
    && s.End() <= |m|
    && (forall a | s.paddr <= a < s.paddr + s.filesz :: m[a] == KernelByte(disk, s.offset + (a - s.paddr)))
    && (forall a | s.paddr + s.filesz <= a < s.paddr + s.memsz :: m[a] == 0)
  }

  /** Address order, with no harmful over-read. */
  ghost predicate InOrder(segs: seq<Segment>) {
    forall i, j | 0 <= i < j < |segs| :: segs[i].End() <= segs[j].paddr && Compatible(segs[i], segs[j])
  }

  lemma NothingLoaded(m: seq<Octet>, m': seq<Octet>, disk: seq<Octet>)
    requires |m| == |m'| && forall a | SCRATCH_ADDR + HEADER_BYTES <= a < |m| :: m'[a] == m[a]
    ensures LoadedWith(m, m', disk, Segments(disk, 0))
  {
  }

  lemma OneMoreLoaded(m: seq<Octet>, m1: seq<Octet>, m2: seq<Octet>, disk: seq<Octet>, n: nat)
    requires LoadedWith(m, m1, disk, Segments(disk, n)) && |m2| == |m1|
    requires forall a | 0 <= a < |m2| ::
               m2[a] == if IsLoad(disk, n) && Phdr(disk, n).Covers(a) then Phdr(disk, n).Value(disk, a) else m1[a]
    ensures LoadedWith(m, m2, disk, Segments(disk, n + 1))
  {
    hide IsLoad, Phdr, KernelByte;
    var segs, more := Segments(disk, n), Segments(disk, n + 1);
    if IsLoad(disk, n) {
      assert more[..|more| - 1] == segs;
    } else {
      assert more == segs;
    }
  }

  lemma StaysAbove(disk: seq<Octet>, memory: nat, s: Segment)
    requires Placeable(disk, memory, s)
    ensures forall a | s.Covers(a) :: a >= SCRATCH_ADDR + HEADER_BYTES
  {
  }

  lemma {:induction false} SegmentsPlaceable(disk: seq<Octet>, memory: nat, n: nat)
    requires Bootable(disk, memory) && n <= PhNum(disk)
    ensures forall s | s in Segments(disk, n) :: Placeable(disk, memory, s)
  {
    hide IsLoad, Phdr, PhNum, PhOff, KernelByte;
    if n > 0 {
      SegmentsPlaceable(disk, memory, n - 1);
    }
  }

  lemma KernelInPlace(m: seq<Octet>, m': seq<Octet>, disk: seq<Octet>)
    requires Bootable(disk, |m|)
    requires LoadedWith(m, m', disk, Segments(disk, PhNum(disk))) && InOrder(Segments(disk, PhNum(disk)))
    ensures forall s | s in Segments(disk, PhNum(disk)) :: Complete(m', disk, s)
  {
    hide ByteAfter, KernelByte, PhNum, Segments, Bootable;
    var segs := Segments(disk, PhNum(disk));
    SegmentsPlaceable(disk, |m|, PhNum(disk));
    forall s | s in segs ensures Complete(m', disk, s) {
      var i :| 0 <= i < |segs| && segs[i] == s;
      forall a | InImage(s, a) ensures m'[a] == s.Value(disk, a) {
        ImagesComplete(m[a], disk, segs, i);
      }
    }
  }

  lemma LoadIsHeader(disk: seq<Octet>, memory: nat, n: nat)
    requires Bootable(disk, memory)
    ensures |disk| >= 8192 + 4096 && (LoadAt(disk, n) <==> n < PhNum(disk) && IsLoad(disk, n))
    ensures n < PhNum(disk) ==> HeaderAt(disk, n) == 8192 + PhOff(disk) + 32 * n && HeaderAt(disk, n) + 32 <= |disk|
  {
    hide U32, U16, Le32, Le16, Placeable, IsLoad;
    EhdrBytes(disk);
    if n < PhNum(disk) {
      PhdrBytes(disk, n);
    }
  }

  lemma {:induction false} SegmentsAreLoads(disk: seq<Octet>, n: nat)
    ensures forall s | s in Segments(disk, n) :: exists k :: 0 <= k < n && IsLoad(disk, k) && Phdr(disk, k) == s
    ensures forall k | 0 <= k < n && IsLoad(disk, k) :: Phdr(disk, k) in Segments(disk, n)
  {
    hide IsLoad, Phdr;
    if n > 0 {
      SegmentsAreLoads(disk, n - 1);
    }
  }

  lemma {:induction false} ApartInOrder(disk: seq<Octet>, memory: nat, n: nat)
    requires Bootable(disk, memory) && n <= PhNum(disk) && |disk| >= 8192 + 4096 && Apart(disk)
    ensures InOrder(Segments(disk, n))
  {
    hide U32, U16, Le32, Le16, Placeable, IsLoad, Bootable, PhNum, Apart, Phdr, LoadAt;
    if n > 0 {
      ApartInOrder(disk, memory, n - 1);
      SegmentsAreLoads(disk, n - 1);
      if IsLoad(disk, n - 1) {
        forall s | s in Segments(disk, n - 1)
          ensures s.End() <= Phdr(disk, n - 1).paddr && Compatible(s, Phdr(disk, n - 1))
        {
          var k :| 0 <= k < n - 1 && IsLoad(disk, k) && Phdr(disk, k) == s;
          ApartSegments(disk, memory, k, n - 1);
        }
      }
    }
  }

  lemma ApartSegments(disk: seq<Octet>, memory: nat, i: nat, j: nat)
    requires Bootable(disk, memory) && |disk| >= 8192 + 4096 && Apart(disk)
    requires i < j < PhNum(disk) && IsLoad(disk, i) && IsLoad(disk, j)
    ensures Phdr(disk, i).End() <= Phdr(disk, j).paddr && Compatible(Phdr(disk, i), Phdr(disk, j))
  {
    hide U32, U16, Le32, Le16, Placeable, IsLoad, Bootable, PhNum, Phdr, LoadAt;
    LoadIsHeader(disk, memory, i);
    LoadIsHeader(disk, memory, j);
    PhdrBytes(disk, i);
    PhdrBytes(disk, j);
  }

  lemma CompleteInMemory(m: seq<Octet>, disk: seq<Octet>, n: nat)
    requires Bootable(disk, |m|) && |disk| >= 8192 + 4096 && LoadAt(disk, n)
    requires forall s | s in Segments(disk, PhNum(disk)) :: Complete(m, disk, s)
    ensures InMemory(m, disk, n)
  {
    hide U32, U16, Le32, Le16, IsLoad, PhNum, PhOff, Segments, Complete, Placeable, Bootable, InMemory, Phdr, LoadAt;
    LoadIsHeader(disk, |m|, n);
    SegmentsAreLoads(disk, PhNum(disk));
    FileOnDisk(disk, |m|, n);
    FileBytes(m, disk, Phdr(disk, n));
    PhdrBytes(disk, n);
    FieldsInMemory(m, disk, n, Phdr(disk, n));
  }

  lemma FieldsInMemory(m: seq<Octet>, disk: seq<Octet>, n: nat, s: Segment)
    requires |disk| >= 8192 + 4096 && LoadAt(disk, n)
    requires var at := HeaderAt(disk, n);
             && s.offset == Le32(disk, at + 4) && s.paddr == Le32(disk, at + 12)
             && s.filesz == Le32(disk, at + 16) && s.memsz == Le32(disk, at + 20)
    requires s.paddr + Max(s.filesz, s.memsz) <= |m| && 8192 + s.offset + s.filesz <= |disk|
    requires forall a | s.paddr + s.filesz <= a < s.paddr + s.memsz :: m[a] == 0
    requires m[s.paddr..s.paddr + s.filesz] == disk[8192 + s.offset..8192 + s.offset + s.filesz]
    ensures InMemory(m, disk, n)
  {
    hide Le32, Le16;
  }

  lemma FileOnDisk(disk: seq<Octet>, memory: nat, n: nat)
    requires Bootable(disk, memory) && n < PhNum(disk) && IsLoad(disk, n)
    ensures 8192 + Phdr(disk, n).offset + Phdr(disk, n).filesz <= |disk|
  {
    hide U32, U16, IsLoad, PhNum, PhOff, Phdr;
    SectorsReach(Phdr(disk, n));
  }

  lemma SectorsReach(s: Segment)
    ensures s.offset + s.filesz <= s.offset / SECTSIZE * SECTSIZE + SECTSIZE * s.Sectors()
  {
    var n := s.filesz + s.offset % SECTSIZE + SECTSIZE - 1;
    assert SECTSIZE * s.Sectors() == n - n % SECTSIZE;
  }

  lemma FileBytes(m: seq<Octet>, disk: seq<Octet>, s: Segment)
    requires Complete(m, disk, s) && 8192 + s.offset + s.filesz <= |disk|
    ensures s.paddr + Max(s.filesz, s.memsz) <= |m|
    ensures forall a | s.paddr + s.filesz <= a < s.paddr + s.memsz :: m[a] == 0
    ensures m[s.paddr..s.paddr + s.filesz] == disk[8192 + s.offset..8192 + s.offset + s.filesz]
  {
  }

  lemma SectorsLeft(pa: nat, count: nat, offset: nat, k: nat)
    requires pa - offset % SECTSIZE + k * SECTSIZE < pa + count
    ensures k < Segment(offset, pa, count, 0).Sectors()
  {
  }

  lemma SectorsDone(pa: nat, count: nat, offset: nat, k: nat)
    requires pa - offset % SECTSIZE + k * SECTSIZE >= pa + count
    ensures Segment(offset, pa, count, 0).Sectors() <= k
  {
  }
}
