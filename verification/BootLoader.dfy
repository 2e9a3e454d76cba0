/** The boot loader's `read_elf`: an ELF image in flash becomes a memory image. */
module BootLoader {
  import opened Words
  import opened FlashDevice
  import opened FlashDriver

  const EHDR_SIZE: nat := 52
  const PHDR_SIZE: nat := 32
  const PT_LOAD: nat := 1
  const CHUNK: nat := 0x400

  // ----- the file format ---------------------------------------------------------------------

  datatype Ehdr = Ehdr(ident: seq<byte>, kind: u16, machine: u16, entry: u32, phoff: u32, flags: u32, phentsize: u16, phnum: u16)
  {
    /** The four magic bytes, 0x7f and "ELF". */
    predicate Magic() {
      |ident| >= 4 && ident[..4] == [0x7f, 0x45, 0x4c, 0x46]
    }

    /** A 32-bit RISC-V executable whose flags have both CHERI bits. */
    predicate CheriExecutable() {
      |ident| >= 5 && ident[4] == 1 && kind == 2 && machine == 243 && flags as int / 0x1_0000 % 4 == 3
    }
  }

  datatype Phdr = Phdr(kind: u32, offset: u32, vaddr: u32, filesz: u32, memsz: u32) {
    predicate Load() {
      kind == PT_LOAD
    }

    /** The addresses of the segment. */
    predicate Covers(p: nat) {
      vaddr as int <= p < vaddr as int + memsz as int
    }
  }

  function ParseEhdr(b: seq<byte>): Ehdr
    requires |b| == EHDR_SIZE
  {
    Ehdr(b[..16], Read16le(b, 16), Read16le(b, 18), Read32le(b, 24), Read32le(b, 28), Read32le(b, 36), Read16le(b, 42),
         Read16le(b, 44))
  }

  function ParsePhdr(b: seq<byte>): Phdr
    requires |b| == PHDR_SIZE
  {
    Phdr(Read32le(b, 0), Read32le(b, 4), Read32le(b, 8), Read32le(b, 16), Read32le(b, 20))
  }

  ghost function EhdrAt(flash: seq<byte>, addr: nat): Ehdr {
    ParseEhdr(Slice(flash, addr, EHDR_SIZE))
  }

  ghost function PhdrAt(flash: seq<byte>, addr: nat, e: Ehdr, i: nat): Phdr {
    ParsePhdr(Slice(flash, Counted(Counted(addr, e.phoff as int), e.phentsize as int * i), PHDR_SIZE))
  }

  /** The first `n` program headers. */
  ghost function Phdrs(flash: seq<byte>, addr: nat, e: Ehdr, n: nat): (r: seq<Phdr>)
    ensures |r| == n
    ensures forall i: nat :: i < n ==> r[i] == PhdrAt(flash, addr, e, i)
  {
    if n == 0 then [] else Phdrs(flash, addr, e, n - 1) + [PhdrAt(flash, addr, e, n - 1)]
  }

  // ----- capabilities ------------------------------------------------------------------------

  /** A range of addresses that a capability gives access to. */
  datatype Region = Region(base: nat, top: nat)

  const SRAM := Region(0x10_1000, 0x12_0000)
  const HYPERRAM := Region(0x4000_0000, 0x4010_0000)

  /** Narrowing a capability to `n` bytes at `a`: `None` when the result is untagged, and otherwise
      the top it got, which rounding may put above `a + n`. */
  type Narrowing = (Region, nat, nat) -> Option<nat>

  /** Narrowing never widens. */
  ghost predicate Monotonic(narrow: Narrowing) {
    forall r: Region, a: nat, n: nat ::
      narrow(r, a, n).Some? ==> r.base <= a && a + n <= narrow(r, a, n).value <= r.top
  }

  function RegionFor(vaddr: nat): Region {
    if vaddr >= SRAM.top then HYPERRAM else SRAM
  }

  /** Only the two memories may differ. */
  ghost predicate Confined(now: seq<byte>, was: seq<byte>) {
    && |now| == |was|
    && forall p: nat :: p < |was| && !(SRAM.base <= p < SRAM.top) && !(HYPERRAM.base <= p < HYPERRAM.top) ==> now[p] == was[p]
  }

  // ----- what loading means ------------------------------------------------------------------

  datatype Reason = BadMagic | NotExecutable | NoCapability | Trap

  datatype Outcome = Entry(address: nat) | Stopped(reason: Reason)

  /** What stops the boot at a header, if anything does. */
  function Fault(ph: Phdr, narrow: Narrowing): Option<Reason> {
    if !ph.Load() then None
    else if narrow(RegionFor(ph.vaddr), ph.vaddr, ph.memsz).None? then Some(NoCapability)
    else if ph.filesz > ph.memsz then Some(Trap)
    else None
  }

  /** The first fault, in header order. */
  function FirstFault(phs: seq<Phdr>, narrow: Narrowing): (r: Option<Reason>)
    ensures r.None? <==> forall i :: 0 <= i < |phs| ==> Fault(phs[i], narrow).None?
    ensures r.Some? ==> exists i :: 0 <= i < |phs| && Fault(phs[i], narrow) == r && FirstFault(phs[..i], narrow).None?
  {
    if phs == [] then None
    else
      var earlier := FirstFault(phs[..|phs| - 1], narrow);
      if earlier.Some? then
        assert exists i :: 0 <= i < |phs| && Fault(phs[i], narrow) == earlier && FirstFault(phs[..i], narrow).None? by {
          var front := phs[..|phs| - 1];
          var i :| 0 <= i < |front| && Fault(front[i], narrow) == earlier && FirstFault(front[..i], narrow).None?;
          assert front[..i] == phs[..i];
        }
        earlier
      else Fault(phs[|phs| - 1], narrow)
  }

  /** How `read_elf` ends. */
  ghost function Expected(flash: seq<byte>, addr: nat, narrow: Narrowing): Outcome {
    var e := EhdrAt(flash, addr);
    if !e.Magic() then Stopped(BadMagic)
    else if !e.CheriExecutable() then Stopped(NotExecutable)
    else
      var f := FirstFault(Phdrs(flash, addr, e, e.phnum), narrow);
      if f.Some? then Stopped(f.value) else Entry(e.entry)
  }

  /** Memory after one segment: its file bytes, then zeros. */
  ghost function Load(was: seq<byte>, flash: seq<byte>, addr: nat, ph: Phdr): (r: seq<byte>)
    ensures |r| == |was|
  {
    seq(|was|, p requires 0 <= p < |was| => if ph.Load() && ph.Covers(p) then SegmentByte(flash, addr, ph, p) else was[p])
  }

  /** The byte that a segment puts at an address it covers. */
  function SegmentByte(flash: seq<byte>, addr: nat, ph: Phdr, p: nat): byte
    requires ph.Covers(p)
  {
    var k := p - ph.vaddr as int;
    if k < ph.filesz as int then ReadAt(flash, Counted(Counted(addr, ph.offset as int), k)) else 0
  }

  /** Memory after a run of headers, loaded in order. */
  ghost function LoadAll(was: seq<byte>, flash: seq<byte>, addr: nat, phs: seq<Phdr>): (r: seq<byte>)
    ensures |r| == |was|
    decreases |phs|
  {
    if phs == [] then was else Load(LoadAll(was, flash, addr, phs[..|phs| - 1]), flash, addr, phs[|phs| - 1])
  }

  /** No two loaded segments share an address. */
  ghost predicate Disjoint(phs: seq<Phdr>) {
    forall i, j :: 0 <= i < j < |phs| && phs[i].Load() && phs[j].Load() ==>
      forall p: nat :: !(phs[i].Covers(p) && phs[j].Covers(p))
  }

  /** The image in memory, whatever the order of the headers. */
  ghost predicate Image(now: seq<byte>, was: seq<byte>, flash: seq<byte>, addr: nat, phs: seq<Phdr>) {
    && |now| == |was|
    && (forall i, p: nat :: 0 <= i < |phs| && p < |now| && phs[i].Load() && phs[i].Covers(p) ==>
          now[p] == SegmentByte(flash, addr, phs[i], p))
    && (forall p: nat :: p < |now| && (forall i :: 0 <= i < |phs| && phs[i].Load() ==> !phs[i].Covers(p)) ==> now[p] == was[p])
  }

  /** Disjoint segments are all in memory at the end, and everything else is as it was. */
  lemma {:induction false} DisjointSegmentsAreLoaded(was: seq<byte>, flash: seq<byte>, addr: nat, phs: seq<Phdr>)
    requires Disjoint(phs)
    ensures Image(LoadAll(was, flash, addr, phs), was, flash, addr, phs)
    decreases |phs|
  {
    hide SegmentByte, Load, Image;
    if phs == [] {
      NoImage(was, flash, addr);
    } else {
      var n := |phs| - 1;
      DisjointSegmentsAreLoaded(was, flash, addr, phs[..n]);
      LastSegment(LoadAll(was, flash, addr, phs[..n]), was, flash, addr, phs);
    }
  }

  lemma NoImage(was: seq<byte>, flash: seq<byte>, addr: nat)
    ensures Image(was, was, flash, addr, [])
  {
  }

  lemma LastSegment(mid: seq<byte>, was: seq<byte>, flash: seq<byte>, addr: nat, phs: seq<Phdr>)
    requires phs != [] && Disjoint(phs)
    requires Image(mid, was, flash, addr, phs[..|phs| - 1])
    ensures Image(Load(mid, flash, addr, phs[|phs| - 1]), was, flash, addr, phs)
  {
    hide SegmentByte;
    var now := Load(mid, flash, addr, phs[|phs| - 1]);
    var n := |phs| - 1;
    forall i, p: nat | 0 <= i < |phs| && p < |now| && phs[i].Load() && phs[i].Covers(p)
      ensures now[p] == SegmentByte(flash, addr, phs[i], p)
    {
      if i < n {
        assert phs[..n][i] == phs[i];
        assert !(phs[n].Load() && phs[n].Covers(p));
      }
    }
    forall p: nat | p < |now| && (forall i :: 0 <= i < |phs| && phs[i].Load() ==> !phs[i].Covers(p))
      ensures now[p] == was[p]
    {
      assert forall i :: 0 <= i < n && phs[..n][i].Load() ==> !phs[..n][i].Covers(p) by {
        assert forall i :: 0 <= i < n ==> phs[..n][i] == phs[i];
      }
    }
  }

  // ----- loading -----------------------------------------------------------------------------

  /** Every read since `from` was of at most `CHUNK` bytes. */
  ghost predicate ShortReads(lengths: seq<nat>, from: nat) {
    from <= |lengths| && forall i :: from <= i < |lengths| ==> lengths[i] <= 0x400
  }

  /** A read that continues another. */
  lemma ReceivedJoin(m2: seq<byte>, m1: seq<byte>, was: seq<byte>, at: nat, flash: seq<byte>, a: nat, i: nat, n: nat)
    requires Received(m1, was, at, flash, a, i) && Received(m2, m1, at + i, flash, Counted(a, i), n)
    ensures Received(m2, was, at, flash, a, i + n)
  {
    hide ReadAt, Counted;
    forall p: nat | p < |was|
      ensures m2[p] == if at <= p < at + (i + n) then ReadAt(flash, Counted(a, p - at)) else was[p]
    {
      if at + i <= p < at + i + n {
        CountedJoin(a, i, p - (at + i));
      }
    }
  }

  /** The file part of a segment, in chunks; it fails at the first chunk that passes `top`. */
  method LoadFile(flash: SpiFlash, addr: nat, mem: array<byte>, ph: Phdr, top: nat) returns (ok: bool, ghost n: nat)
    requires flash.Valid() && mem != flash.dev.mem && addr < TWO32
    requires ph.vaddr as int <= top <= mem.Length && top - ph.vaddr as int <= 0x10_0000
    modifies flash`lengths, flash.dev, flash.dev.mem, mem
    ensures flash.Valid() && flash.Contents() == old(flash.Contents()) && |flash.lengths| >= |old(flash.lengths)|
    ensures forall from: nat :: old(ShortReads(flash.lengths, from)) ==> ShortReads(flash.lengths, from)
    ensures ok <==> ph.vaddr as int + ph.filesz as int <= top
    ensures ph.vaddr as int + n <= top && (ok ==> n == ph.filesz as int)
    ensures Received(mem[..], old(mem[..]), ph.vaddr, flash.Contents(), Counted(addr, ph.offset as int), n)
  {
    hide Received, Counted;
    ghost var was, a := mem[..], Counted(addr, ph.offset as int);
    NothingReceived(was, ph.vaddr, flash.Contents(), a);
    var offset := 0;
    n := 0;
    while offset < ph.filesz
      invariant flash.Valid() && flash.Contents() == old(flash.Contents())
      invariant forall from: nat :: old(ShortReads(flash.lengths, from)) ==> ShortReads(flash.lengths, from)
      invariant |flash.lengths| >= |old(flash.lengths)|
      invariant 0 <= n == Min(offset, ph.filesz) && ph.vaddr as int + n <= top && (n < ph.filesz as int ==> n == offset)
      invariant Received(mem[..], was, ph.vaddr, flash.Contents(), a, n)
      decreases ph.filesz as int - offset
    {
      assert offset + CHUNK < TWO32;
      var size := Min(ph.filesz, offset + CHUNK) - offset;
      if ph.vaddr as int + offset + size > top {
        return false, n;
      }
      CountedBounds(addr, ph.offset);
      CountedBounds(a, offset);
      ghost var before := mem[..];
      flash.Read(Counted(Counted(addr, ph.offset as int), offset), mem, ph.vaddr + offset, size);
      ReceivedJoin(mem[..], before, was, ph.vaddr, flash.Contents(), a, offset, size);
      n := n + size;
      offset := offset + CHUNK;
    }
    ok := true;
  }

  lemma CountedJoin(a: nat, i: nat, j: nat)
    ensures Counted(Counted(a, i), j) == Counted(a, i + j)
  {
  }

  lemma CountedBounds(a: nat, i: nat)
    ensures Counted(a, i) < TWO32
  {
  }

  /** One segment.  An access beyond the capability traps; `memsz - filesz` is 32-bit arithmetic. */
  method LoadSegment(flash: SpiFlash, addr: nat, mem: array<byte>, ph: Phdr, top: nat) returns (ok: bool)
    requires flash.Valid() && mem != flash.dev.mem && addr < TWO32 && ph.Load()
    requires ph.vaddr as int + ph.memsz as int <= top <= mem.Length && top - ph.vaddr as int <= 0x10_0000 && mem.Length == TWO32
    modifies flash`lengths, flash.dev, flash.dev.mem, mem
    ensures flash.Valid() && flash.Contents() == old(flash.Contents()) && |flash.lengths| >= |old(flash.lengths)|
    ensures forall from: nat :: old(ShortReads(flash.lengths, from)) ==> ShortReads(flash.lengths, from)
    ensures ok <==> ph.filesz <= ph.memsz
    ensures ok ==> mem[..] == Load(old(mem[..]), flash.Contents(), addr, ph)
    ensures forall p :: 0 <= p < mem.Length && !(ph.vaddr as int <= p < top) ==> mem[p] == old(mem[p])
  {
    hide Counted;
    ghost var n;
    ok, n := LoadFile(flash, addr, mem, ph, top);
    if ok {
      var start, size := ph.vaddr as int + ph.filesz as int, (ph.memsz as int - ph.filesz as int) % TWO32;
      if start + size > top {
        return false;
      }
      forall p | start <= p < start + size {
        mem[p] := 0;
      }
    }
  }

  /** A fault among the first headers is the first of all. */
  lemma {:induction false} FaultStays(flash: seq<byte>, addr: nat, e: Ehdr, i: nat, n: nat, narrow: Narrowing)
    requires i <= n && FirstFault(Phdrs(flash, addr, e, i), narrow).Some?
    ensures FirstFault(Phdrs(flash, addr, e, n), narrow) == FirstFault(Phdrs(flash, addr, e, i), narrow)
    decreases n - i
  {
    hide Fault, PhdrAt, FirstFault, Phdrs;
    if i < n {
      FaultStep(flash, addr, e, i, narrow);
      FaultStays(flash, addr, e, i + 1, n, narrow);
    }
  }

  lemma FaultStep(flash: seq<byte>, addr: nat, e: Ehdr, i: nat, narrow: Narrowing)
    ensures var earlier := FirstFault(Phdrs(flash, addr, e, i), narrow);
            FirstFault(Phdrs(flash, addr, e, i + 1), narrow) ==
            if earlier.Some? then earlier else Fault(PhdrAt(flash, addr, e, i), narrow)
  {
    hide Fault, PhdrAt;
    assert Phdrs(flash, addr, e, i + 1)[..i] == Phdrs(flash, addr, e, i);
  }

  lemma LoadStep(was: seq<byte>, flash: seq<byte>, addr: nat, e: Ehdr, i: nat)
    ensures LoadAll(was, flash, addr, Phdrs(flash, addr, e, i + 1)) ==
            Load(LoadAll(was, flash, addr, Phdrs(flash, addr, e, i)), flash, addr, PhdrAt(flash, addr, e, i))
  {
    hide PhdrAt, Load;
    assert Phdrs(flash, addr, e, i + 1)[..i] == Phdrs(flash, addr, e, i);
  }

  lemma NotLoaded(was: seq<byte>, flash: seq<byte>, addr: nat, ph: Phdr)
    requires !ph.Load()
    ensures Load(was, flash, addr, ph) == was
  {
  }

  lemma LengthsGrow(lengths: seq<nat>, from: nat, len: nat)
    requires ShortReads(lengths, from) && len <= CHUNK
    ensures ShortReads(lengths + [len], from)
  {
  }

  method ReadEhdr(flash: SpiFlash, addr: nat) returns (e: Ehdr)
    requires flash.Valid() && addr < TWO32
    modifies flash`lengths, flash.dev, flash.dev.mem
    ensures flash.Valid() && flash.Contents() == old(flash.Contents()) && flash.lengths == old(flash.lengths) + [EHDR_SIZE]
    ensures e == EhdrAt(flash.Contents(), addr)
  {
    hide Received, Slice, ParseEhdr;
    var buf := new byte[EHDR_SIZE];
    ghost var was := buf[..];
    flash.Read(addr, buf, 0, EHDR_SIZE);
    ReceivedIsSlice(buf[..], was, 0, flash.Contents(), addr, EHDR_SIZE);
    assert buf[..] == Slice(flash.Contents(), addr, EHDR_SIZE);
    e := ParseEhdr(buf[..]);
  }

  method ReadPhdr(flash: SpiFlash, addr: nat, e: Ehdr, i: nat) returns (ph: Phdr)
    requires flash.Valid() && addr < TWO32
    modifies flash`lengths, flash.dev, flash.dev.mem
    ensures flash.Valid() && flash.Contents() == old(flash.Contents()) && flash.lengths == old(flash.lengths) + [PHDR_SIZE]
    ensures ph == PhdrAt(flash.Contents(), addr, e, i)
  {
    hide Received, Slice, ParsePhdr, Counted;
    var buf := new byte[PHDR_SIZE];
    ghost var was := buf[..];
    var tableAt := Counted(addr, e.phoff as int);
    var at := Counted(tableAt, e.phentsize as int * i);
    CountedBounds(tableAt, e.phentsize as int * i);
    flash.Read(at, buf, 0, PHDR_SIZE);
    ReceivedIsSlice(buf[..], was, 0, flash.Contents(), at, PHDR_SIZE);
    assert buf[..] == Slice(flash.Contents(), at, PHDR_SIZE);
    ph := ParsePhdr(buf[..]);
  }

  /** One program header: skipped, loaded, or the end of the boot. */
  method LoadHeader(flash: SpiFlash, addr: nat, mem: array<byte>, ph: Phdr, narrow: Narrowing) returns (r: Option<Reason>)
    requires flash.Valid() && mem != flash.dev.mem && addr < TWO32 && mem.Length == TWO32 && Monotonic(narrow)
    modifies flash`lengths, flash.dev, flash.dev.mem, mem
    ensures flash.Valid() && flash.Contents() == old(flash.Contents())
    ensures forall from: nat :: old(ShortReads(flash.lengths, from)) ==> ShortReads(flash.lengths, from)
    ensures r == Fault(ph, narrow)
    ensures r.None? ==> mem[..] == Load(old(mem[..]), flash.Contents(), addr, ph)
    ensures forall was :: Confined(old(mem[..]), was) ==> Confined(mem[..], was)
  {
    hide Load, ShortReads;
    if !ph.Load() {
      NotLoaded(mem[..], flash.Contents(), addr, ph);
      return None;
    }
    var top := narrow(RegionFor(ph.vaddr), ph.vaddr, ph.memsz);
    if top.None? {
      return Some(NoCapability);
    }
    var ok := LoadSegment(flash, addr, mem, ph, top.value);
    r := if ok then None else Some(Trap);
  }

  /** `read_elf`. */
  method ReadElf(flash: SpiFlash, addr: nat, mem: array<byte>, narrow: Narrowing) returns (r: Outcome)
    requires flash.Valid() && mem != flash.dev.mem && addr < TWO32 && mem.Length == TWO32 && Monotonic(narrow)
    modifies flash`lengths, flash.dev, flash.dev.mem, mem
    ensures flash.Valid() && flash.Contents() == old(flash.Contents())
    ensures ShortReads(flash.lengths, |old(flash.lengths)|)
    ensures r == Expected(flash.Contents(), addr, narrow)
    ensures Confined(mem[..], old(mem[..]))
    ensures r.Entry? ==>
              var e := EhdrAt(flash.Contents(), addr);
              var phs := Phdrs(flash.Contents(), addr, e, e.phnum);
              && mem[..] == LoadAll(old(mem[..]), flash.Contents(), addr, phs)
              && (Disjoint(phs) ==> Image(mem[..], old(mem[..]), flash.Contents(), addr, phs))
  {
    hide EhdrAt, PhdrAt, Phdrs, FirstFault, Fault, Load, LoadAll, ShortReads, Disjoint, Image, Confined, Slice, Monotonic;
    ghost var from, was, contents := |flash.lengths|, mem[..], flash.Contents();
    NoReads(flash.lengths);
    LengthsGrow(flash.lengths, from, EHDR_SIZE);
    var e := ReadEhdr(flash, addr);
    StillConfined(was);
    if !e.Magic() {
      return Stopped(BadMagic);
    }
    if !e.CheriExecutable() {
      return Stopped(NotExecutable);
    }
    NothingYet(was, contents, addr, e, narrow);
    var i: nat := 0;
    while i < e.phnum
      invariant i <= e.phnum as int && flash.Valid() && flash.Contents() == contents && ShortReads(flash.lengths, from)
      invariant FirstFault(Phdrs(contents, addr, e, i), narrow).None?
      invariant mem[..] == LoadAll(was, contents, addr, Phdrs(contents, addr, e, i)) && Confined(mem[..], was)
    {
      LengthsGrow(flash.lengths, from, PHDR_SIZE);
      var ph := ReadPhdr(flash, addr, e, i);
      FaultStep(contents, addr, e, i, narrow);
      LoadStep(was, contents, addr, e, i);
      var fault := LoadHeader(flash, addr, mem, ph, narrow);
      if fault.Some? {
        FaultStays(contents, addr, e, i + 1, e.phnum, narrow);
        return Stopped(fault.value);
      }
      i := i + 1;
    }
    r := Entry(e.entry);
    LoadedImage(was, contents, addr, Phdrs(contents, addr, e, e.phnum));
  }

  lemma NoReads(lengths: seq<nat>)
    ensures ShortReads(lengths, |lengths|)
  {
  }

  lemma StillConfined(was: seq<byte>)
    ensures Confined(was, was)
  {
  }

  lemma NothingYet(was: seq<byte>, flash: seq<byte>, addr: nat, e: Ehdr, narrow: Narrowing)
    ensures FirstFault(Phdrs(flash, addr, e, 0), narrow).None?
    ensures LoadAll(was, flash, addr, Phdrs(flash, addr, e, 0)) == was
  {
  }

  lemma LoadedImage(was: seq<byte>, flash: seq<byte>, addr: nat, phs: seq<Phdr>)
    ensures Disjoint(phs) ==> Image(LoadAll(was, flash, addr, phs), was, flash, addr, phs)
  {
    hide Image, LoadAll, Disjoint;
    if Disjoint(phs) {
      DisjointSegmentsAreLoaded(was, flash, addr, phs);
    }
  }
}
