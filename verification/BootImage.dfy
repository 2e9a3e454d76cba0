/** Booting an ELF file that flash holds: `read_elf` stated in the values of the file's headers, whose
    layout is that of `elf.h`. */
module BootImage {
  import opened Words
  import opened FlashDevice
  import opened FlashDriver
  import opened BootLoader

  // ----- the file ----------------------------------------------------------------------------

  datatype ElfHeader = ElfHeader(
    ident: seq<byte>, kind: u16, machine: u16, version: u32, entry: u32, phoff: u32, shoff: u32, flags: u32,
    ehsize: u16, phentsize: u16, phnum: u16, shentsize: u16, shnum: u16, shstrndx: u16)

  datatype ProgramHeader = ProgramHeader(
    kind: u32, offset: u32, vaddr: u32, paddr: u32, filesz: u32, memsz: u32, flags: u32, align: u32)

  function Le16(n: u16): (s: seq<byte>)
    ensures |s| == 2
  {
    [n as int % 0x100, n as int / 0x100]
  }

  function Le32(n: u32): (s: seq<byte>)
    ensures |s| == 4
  {
    [n as int % 0x100, n as int / 0x100 % 0x100, n as int / 0x1_0000 % 0x100, n as int / 0x100_0000]
  }

  function EncodeEhdr(h: ElfHeader): (s: seq<byte>)
    requires |h.ident| == 16
    ensures |s| == EHDR_SIZE
  {
    h.ident + Le16(h.kind) + Le16(h.machine) + Le32(h.version) + Le32(h.entry) + Le32(h.phoff) + Le32(h.shoff) + Le32(h.flags)
    + Le16(h.ehsize) + Le16(h.phentsize) + Le16(h.phnum) + Le16(h.shentsize) + Le16(h.shnum) + Le16(h.shstrndx)
  }

  function EncodePhdr(ph: ProgramHeader): (s: seq<byte>)
    ensures |s| == PHDR_SIZE
  {
    Le32(ph.kind) + Le32(ph.offset) + Le32(ph.vaddr) + Le32(ph.paddr) + Le32(ph.filesz) + Le32(ph.memsz) + Le32(ph.flags)
    + Le32(ph.align)
  }

  lemma Read16Is(s: seq<byte>, i: nat, n: u16)
    requires i + 2 <= |s| && s[i..i + 2] == Le16(n)
    ensures Read16le(s, i) == n
  {
    assert s[i] == s[i..i + 2][0] && s[i + 1] == s[i..i + 2][1];
  }

  lemma Read32Is(s: seq<byte>, i: nat, n: u32)
    requires i + 4 <= |s| && s[i..i + 4] == Le32(n)
    ensures Read32le(s, i) == n
  {
    var t := s[i..i + 4];
    assert s[i] == t[0] && s[i + 1] == t[1] && s[i + 2] == t[2] && s[i + 3] == t[3];
    assert n as int / 0x100 / 0x100 == n as int / 0x1_0000 && n as int / 0x1_0000 / 0x100 == n as int / 0x100_0000;
  }

  /** The loader finds every field of the file header that it uses. */
  lemma EhdrIsParsed(h: ElfHeader)
    requires |h.ident| == 16
    ensures ParseEhdr(EncodeEhdr(h)) == Ehdr(h.ident, h.kind, h.machine, h.entry, h.phoff, h.flags, h.phentsize, h.phnum)
  {
    hide Le16, Le32, Read16le, Read32le;
    var s := EncodeEhdr(h);
    assert s[..16] == h.ident;
    Read16Is(s, 16, h.kind);
    Read16Is(s, 18, h.machine);
    Read32Is(s, 24, h.entry);
    Read32Is(s, 28, h.phoff);
    Read32Is(s, 36, h.flags);
    Read16Is(s, 42, h.phentsize);
    Read16Is(s, 44, h.phnum);
  }

  /** And of a program header. */
  lemma PhdrIsParsed(ph: ProgramHeader)
    ensures ParsePhdr(EncodePhdr(ph)) == Phdr(ph.kind, ph.offset, ph.vaddr, ph.filesz, ph.memsz)
  {
    hide Le32, Read32le;
    var s := EncodePhdr(ph);
    Read32Is(s, 0, ph.kind);
    Read32Is(s, 4, ph.offset);
    Read32Is(s, 8, ph.vaddr);
    Read32Is(s, 16, ph.filesz);
    Read32Is(s, 20, ph.memsz);
  }

  /** A file with these headers, its segments' bytes inside it. */
  ghost predicate IsElfFile(file: seq<byte>, h: ElfHeader, phs: seq<ProgramHeader>) {
    && |h.ident| == 16 && |file| >= 52 && file[..52] == EncodeEhdr(h) && |phs| == h.phnum
    && forall i: nat :: i < |phs| ==>
         && HeaderPlace(h, i) + 32 <= |file| && file[HeaderPlace(h, i)..HeaderPlace(h, i) + 32] == EncodePhdr(phs[i])
         && (phs[i].kind == 1 ==> phs[i].offset as int + phs[i].filesz as int <= |file|)
  }

  function HeaderPlace(h: ElfHeader, i: nat): nat {
    h.phoff as int + h.phentsize as int * i
  }

  ghost predicate InFlash(flash: seq<byte>, addr: nat, file: seq<byte>) {
    addr + |file| <= |flash| == FLASH_BYTES && flash[addr..addr + |file|] == file
  }

  // ----- what booting it means ---------------------------------------------------------------

  /** "\x7fELF", 32-bit, executable, RISC-V, with both CHERI flags. */
  predicate HasMagic(h: ElfHeader)
    requires |h.ident| == 16
  {
    h.ident[0] == 0x7f && h.ident[1] == 'E' as int && h.ident[2] == 'L' as int && h.ident[3] == 'F' as int
  }

  predicate Bootable(h: ElfHeader)
    requires |h.ident| == 16
  {
    h.ident[4] == 1 && h.kind == 2 && h.machine == 0xf3 && h.flags as int / 0x1_0000 % 2 == 1 && h.flags as int / 0x2_0000 % 2 == 1
  }

  /** A segment has a capability: in SRAM above the loader's own part, or in HyperRAM. */
  predicate HasCapability(ph: ProgramHeader, narrow: Narrowing) {
    var memory := if ph.vaddr < 0x12_0000 then Region(0x10_1000, 0x12_0000) else Region(0x4000_0000, 0x4010_0000);
    narrow(memory, ph.vaddr, ph.memsz).Some?
  }

  predicate Fits(ph: ProgramHeader, narrow: Narrowing) {
    ph.kind == 1 ==> HasCapability(ph, narrow) && ph.filesz <= ph.memsz
  }

  /** How the boot ends. */
  ghost predicate EndsAs(r: Outcome, h: ElfHeader, phs: seq<ProgramHeader>, narrow: Narrowing)
    requires |h.ident| == 16
  {
    && (!HasMagic(h) ==> r == Stopped(BadMagic))
    && (HasMagic(h) && !Bootable(h) ==> r == Stopped(NotExecutable))
    && (HasMagic(h) && Bootable(h) ==>
          && ((forall i :: 0 <= i < |phs| ==> Fits(phs[i], narrow)) ==> r == Entry(h.entry))
          && (forall i :: 0 <= i < |phs| && !Fits(phs[i], narrow) && (forall j :: 0 <= j < i ==> Fits(phs[j], narrow)) ==>
                r == Stopped(if HasCapability(phs[i], narrow) then Trap else NoCapability)))
  }

  /** Byte `k` of a segment, which is loaded at `vaddr + k`. */
  function FileByte(file: seq<byte>, ph: ProgramHeader, k: nat): byte
    requires k < ph.filesz as int ==> ph.offset as int + k < |file|
  {
    if k < ph.filesz as int then file[ph.offset as int + k] else 0
  }

  predicate Loads(ph: ProgramHeader, p: nat) {
    ph.kind == 1 && ph.vaddr as int <= p < ph.vaddr as int + ph.memsz as int
  }

  ghost predicate Apart(phs: seq<ProgramHeader>) {
    forall i, j, p: nat :: 0 <= i < j < |phs| ==> !(Loads(phs[i], p) && Loads(phs[j], p))
  }

  /** Every segment's bytes followed by zeros, and everything else as it was. */
  ghost predicate Booted(now: seq<byte>, was: seq<byte>, file: seq<byte>, h: ElfHeader, phs: seq<ProgramHeader>)
    requires IsElfFile(file, h, phs)
  {
    && |now| == |was|
    && (forall i, p: nat :: 0 <= i < |phs| && p < |now| && Loads(phs[i], p) ==>
          now[p] == FileByte(file, phs[i], p - phs[i].vaddr as int))
    && (forall p: nat :: p < |now| && (forall i :: 0 <= i < |phs| ==> !Loads(phs[i], p)) ==> now[p] == was[p])
  }

  // ----- the loader's view of it -------------------------------------------------------------

  function Parsed(ph: ProgramHeader): Phdr {
    Phdr(ph.kind, ph.offset, ph.vaddr, ph.filesz, ph.memsz)
  }

  /** A slice of flash inside the file. */
  lemma SliceOfFile(flash: seq<byte>, addr: nat, file: seq<byte>, at: nat, n: nat)
    requires InFlash(flash, addr, file) && at + n <= |file|
    ensures Slice(flash, addr + at, n) == file[at..at + n]
  {
    hide Slice;
    SliceIsSlice(flash, addr + at, n);
    assert file == flash[addr..addr + |file|];
    SliceOfSlice(flash, addr, addr + |file|, at, n);
  }

  lemma SliceOfSlice(s: seq<byte>, lo: nat, hi: nat, at: nat, n: nat)
    requires lo <= hi <= |s| && at + n <= hi - lo
    ensures s[lo..hi][at..at + n] == s[lo + at..lo + at + n]
  {
    var x, y := s[lo..hi][at..at + n], s[lo + at..lo + at + n];
    forall i | 0 <= i < n
      ensures x[i] == y[i]
    {
      assert x[i] == s[lo..hi][at + i];
    }
    assert x == y;
  }

  lemma HeaderIsRead(flash: seq<byte>, addr: nat, file: seq<byte>, h: ElfHeader, phs: seq<ProgramHeader>)
    requires InFlash(flash, addr, file) && IsElfFile(file, h, phs)
    ensures EhdrAt(flash, addr) == Ehdr(h.ident, h.kind, h.machine, h.entry, h.phoff, h.flags, h.phentsize, h.phnum)
  {
    hide EncodeEhdr, EncodePhdr, Slice, InFlash, ParseEhdr;
    SliceOfFile(flash, addr, file, 0, EHDR_SIZE);
    EhdrIsParsed(h);
  }

  lemma SegmentIsRead(flash: seq<byte>, addr: nat, file: seq<byte>, h: ElfHeader, phs: seq<ProgramHeader>, i: nat)
    requires InFlash(flash, addr, file) && IsElfFile(file, h, phs) && i < |phs|
    ensures PhdrAt(flash, addr, EhdrAt(flash, addr), i) == Parsed(phs[i])
  {
    hide EncodeEhdr, EncodePhdr, Slice, ParsePhdr, EhdrAt, Counted, InFlash;
    HeaderIsRead(flash, addr, file, h, phs);
    var at := HeaderPlace(h, i);
    InAddressSpace(flash, addr, file);
    CountedTwice(addr, h.phoff as int, h.phentsize as int * i);
    SliceOfFile(flash, addr, file, at, PHDR_SIZE);
    PhdrIsParsed(phs[i]);
  }

  lemma InAddressSpace(flash: seq<byte>, addr: nat, file: seq<byte>)
    requires InFlash(flash, addr, file)
    ensures addr + |file| < TWO32
  {
  }

  lemma CountedTwice(addr: nat, a: nat, b: nat)
    requires addr + a + b < TWO32
    ensures Counted(Counted(addr, a), b) == addr + (a + b)
  {
  }

  lemma ByteIsRead(flash: seq<byte>, addr: nat, file: seq<byte>, ph: ProgramHeader, p: nat)
    requires InFlash(flash, addr, file) && Loads(ph, p) && ph.offset as int + ph.filesz as int <= |file|
    ensures SegmentByte(flash, addr, Parsed(ph), p) == FileByte(file, ph, p - ph.vaddr as int)
  {
    var k := p - ph.vaddr as int;
    if k < ph.filesz as int {
      var at := ph.offset as int + k;
      CountedTwice(addr, ph.offset as int, k);
      assert flash[addr + at] == flash[addr..addr + |file|][at];
    }
  }

  lemma FaultIs(ph: ProgramHeader, narrow: Narrowing)
    ensures Fault(Parsed(ph), narrow) ==
            if Fits(ph, narrow) then None else Some(if HasCapability(ph, narrow) then Trap else NoCapability)
  {
  }

  /** The outcome, in the file's own values. */
  lemma OutcomeIs(flash: seq<byte>, addr: nat, file: seq<byte>, h: ElfHeader, phs: seq<ProgramHeader>, narrow: Narrowing)
    requires InFlash(flash, addr, file) && IsElfFile(file, h, phs)
    ensures EndsAs(Expected(flash, addr, narrow), h, phs, narrow)
  {
    hide InFlash, IsElfFile, EhdrAt, PhdrAt, Phdrs, Fault, Fits, HasCapability, FirstFault;
    HeaderShape(file, h, phs);
    HeaderIsRead(flash, addr, file, h, phs);
    var e := EhdrAt(flash, addr);
    MagicIs(h);
    FlagsAre(h);
    var read := Phdrs(flash, addr, e, e.phnum);
    HeadersAre(flash, addr, file, h, phs);
    FirstFaultIs(read, phs, narrow);
  }

  lemma HeaderShape(file: seq<byte>, h: ElfHeader, phs: seq<ProgramHeader>)
    requires IsElfFile(file, h, phs)
    ensures |h.ident| == 16 && |phs| == h.phnum
  {
  }

  lemma MagicIs(h: ElfHeader)
    requires |h.ident| == 16
    ensures Ehdr(h.ident, h.kind, h.machine, h.entry, h.phoff, h.flags, h.phentsize, h.phnum).Magic() <==> HasMagic(h)
  {
    assert h.ident[..4] == [h.ident[0], h.ident[1], h.ident[2], h.ident[3]];
  }

  lemma FlagsAre(h: ElfHeader)
    requires |h.ident| == 16
    ensures Ehdr(h.ident, h.kind, h.machine, h.entry, h.phoff, h.flags, h.phentsize, h.phnum).CheriExecutable() <==> Bootable(h)
  {
    assert h.flags as int / 0x2_0000 == h.flags as int / 0x1_0000 / 2;
  }

  lemma HeadersAre(flash: seq<byte>, addr: nat, file: seq<byte>, h: ElfHeader, phs: seq<ProgramHeader>)
    requires InFlash(flash, addr, file) && IsElfFile(file, h, phs)
    ensures var read := Phdrs(flash, addr, EhdrAt(flash, addr), |phs|);
            |phs| == h.phnum && forall i: nat :: i < |phs| ==> read[i] == Parsed(phs[i])
  {
    hide InFlash, EhdrAt, PhdrAt, EncodeEhdr, EncodePhdr;
    forall i: nat | i < |phs|
      ensures PhdrAt(flash, addr, EhdrAt(flash, addr), i) == Parsed(phs[i])
    {
      SegmentIsRead(flash, addr, file, h, phs, i);
    }
  }

  /** The first header that does not fit decides. */
  lemma {:induction false} FirstFaultIs(read: seq<Phdr>, phs: seq<ProgramHeader>, narrow: Narrowing)
    requires |read| == |phs| && forall i: nat :: i < |phs| ==> read[i] == Parsed(phs[i])
    ensures (forall i :: 0 <= i < |phs| ==> Fits(phs[i], narrow)) <==> FirstFault(read, narrow).None?
    ensures forall i :: 0 <= i < |phs| && !Fits(phs[i], narrow) && (forall j :: 0 <= j < i ==> Fits(phs[j], narrow)) ==>
              FirstFault(read, narrow) == Some(if HasCapability(phs[i], narrow) then Trap else NoCapability)
  {
    hide Fault, Fits, HasCapability;
    forall i | 0 <= i < |phs|
      ensures Fault(read[i], narrow).None? <==> Fits(phs[i], narrow)
    {
      FaultIs(phs[i], narrow);
    }
    var f := FirstFault(read, narrow);
    forall i | 0 <= i < |phs| && !Fits(phs[i], narrow) && forall j :: 0 <= j < i ==> Fits(phs[j], narrow)
      ensures f == Some(if HasCapability(phs[i], narrow) then Trap else NoCapability)
    {
      FaultIs(phs[i], narrow);
      var k :| 0 <= k < |read| && Fault(read[k], narrow) == f && FirstFault(read[..k], narrow).None?;
      assert forall j :: 0 <= j < k ==> read[..k][j] == read[j];
    }
  }

  /** The image, in the file's own bytes. */
  lemma ImageIs(now: seq<byte>, was: seq<byte>, flash: seq<byte>, addr: nat, file: seq<byte>, h: ElfHeader, phs: seq<ProgramHeader>)
    requires InFlash(flash, addr, file) && IsElfFile(file, h, phs) && Apart(phs)
    requires var read := Phdrs(flash, addr, EhdrAt(flash, addr), |phs|);
             Disjoint(read) ==> Image(now, was, flash, addr, read)
    ensures Booted(now, was, file, h, phs)
  {
    hide InFlash, EhdrAt, PhdrAt, Phdrs, SegmentByte, EncodeEhdr, EncodePhdr, FileByte;
    var read := Phdrs(flash, addr, EhdrAt(flash, addr), |phs|);
    HeadersAre(flash, addr, file, h, phs);
    forall i, p: nat | 0 <= i < |phs|
      ensures Loads(phs[i], p) <==> read[i].Load() && read[i].Covers(p)
    {
    }
    assert Disjoint(read);
    forall i, p: nat | 0 <= i < |phs| && p < |now| && Loads(phs[i], p)
      ensures now[p] == FileByte(file, phs[i], p - phs[i].vaddr as int)
    {
      ByteIsRead(flash, addr, file, phs[i], p);
    }
  }

  /** `read_elf` on an ELF file in flash: it ends as the headers' values say, and a file that boots is in
      memory as they say. */
  method BootFile(flash: SpiFlash, addr: nat, mem: array<byte>, narrow: Narrowing,
                  ghost file: seq<byte>, ghost h: ElfHeader, ghost phs: seq<ProgramHeader>) returns (r: Outcome)
    requires flash.Valid() && mem != flash.dev.mem && addr < TWO32 && mem.Length == TWO32 && Monotonic(narrow)
    requires IsElfFile(file, h, phs) && InFlash(flash.Contents(), addr, file)
    modifies flash`lengths, flash.dev, flash.dev.mem, mem
    ensures EndsAs(r, h, phs, narrow)
    ensures r.Entry? && Apart(phs) ==> Booted(mem[..], old(mem[..]), file, h, phs)
  {
    hide IsElfFile, InFlash, Expected, LoadAll, Image, Disjoint, Apart, Booted, EndsAs, Monotonic, Phdrs, EhdrAt;
    ghost var was := mem[..];
    HeaderShape(file, h, phs);
    HeaderIsRead(flash.Contents(), addr, file, h, phs);
    OutcomeIs(flash.Contents(), addr, file, h, phs, narrow);
    r := ReadElf(flash, addr, mem, narrow);
    if r.Entry? && Apart(phs) {
      ImageIs(mem[..], was, flash.Contents(), addr, file, h, phs);
    }
  }
}
