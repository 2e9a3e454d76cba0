/** The SPI flash driver, `SpiFlash`, talking to the simulated flash: together a plain byte array. */
module FlashDriver {
  import opened Words
  import opened FlashDevice

  const PAGE: nat := 256

  /** The driver's own command codes. */
  const WRITE_ENABLE: byte := 0x06
  const SECTOR_ERASE: byte := 0x21
  const READ_STATUS: byte := 0x05
  const PAGE_PROGRAM: byte := 0x12
  const READ_DATA: byte := 0x13
  const ENABLE_RESET: byte := 0x66
  const RESET: byte := 0x99
  const READ_JEDEC_ID: byte := 0x9f

  // ----- any run of the device ---------------------------------------------------------------

  datatype Event = Byte(out: byte) | CsRise

  ghost function After(s: State, events: seq<Event>): (r: State)
    requires s.Valid()
    ensures r.Valid()
    decreases |events|
  {
    if events == [] then s
    else
      var e := events[|events| - 1];
      var t := After(s, events[..|events| - 1]);
      if e.Byte? then Exchange(t, e.out).0 else Deselect(t)
  }

  /** Over every run, no byte goes beyond the fifth place of the command buffer and only whole
      commands with their addresses are executed. */
  lemma CommandsStayShort(s: State, events: seq<Event>, b: byte)
    requires s.Valid()
    ensures var t := After(s, events);
            !t.programming ==>
              && |t.cmd + [b]| <= 5
              && |t.cmd + [b]| <= CommandLength((t.cmd + [b])[0])
              && (WriteByte(t, b).cmd == [] <==> |t.cmd + [b]| == CommandLength((t.cmd + [b])[0]))
  {
    hide After, Execute, Exchange;
    if !After(s, events).programming {
      ExecuteClears(After(s, events), b);
    }
  }

  lemma ExecuteClears(t: State, b: byte)
    requires t.Valid() && !t.programming
    ensures WriteByte(t, b).cmd == if |t.cmd| + 1 < CommandLength((t.cmd + [b])[0]) then t.cmd + [b] else []
  {
  }

  // ----- what the flash does with the driver's bytes -----------------------------------------

  /** The flash after a run of bytes whose replies are ignored. */
  function Sent(s: State, bytes: seq<byte>): (r: State)
    requires s.Valid()
    ensures r.Valid()
    decreases |bytes|
  {
    if bytes == [] then s else Sent(Exchange(s, bytes[0]).0, bytes[1..])
  }

  /** The bytes of an address, most significant first. */
  function AddressBytes(a: nat): (r: seq<byte>)
    requires a < TWO32
    ensures |r| == 4 && Address(r) == a
  {
    var n1 := a / 0x100;
    var n2 := n1 / 0x100;
    var n3 := n2 / 0x100;
    [n3, n2 % 0x100, n1 % 0x100, a % 0x100]
  }

  predicate LongCommand(code: byte) {
    code == CMD_SECTOR_ERASE4 || code == CMD_PAGE_PROGRAM4 || code == CMD_READ_DATA4
  }

  /** A selected, quiet flash that has taken a five-byte command. */
  function Begun(s: State, code: byte, a: nat): State {
    s.(offset := a, erasing := s.erasing || code == CMD_SECTOR_ERASE4,
       programming := s.programming || code == CMD_PAGE_PROGRAM4, reading := s.reading || code == CMD_READ_DATA4)
  }

  /** One more byte of a command that is not yet complete. */
  lemma Collect(s: State, b: byte)
    requires s.Valid() && !s.programming && !s.reading
    requires |s.cmd| + 1 < CommandLength((s.cmd + [b])[0])
    ensures Exchange(s, b).0.Core() == s.Core().(cmd := s.cmd + [b])
  {
    hide Execute;
  }

  lemma Complete(s: State, b: byte)
    requires s.Valid() && !s.programming && !s.reading && |s.cmd| == 4 && LongCommand(s.cmd[0])
    ensures Exchange(s, b).0.Core() == Begun(s.Core().(cmd := []), s.cmd[0], Address(s.cmd[1..] + [b]))
  {
    assert (s.cmd + [b])[1..] == s.cmd[1..] + [b];
  }

  /** The five bytes start exactly the command sent. */
  lemma FrameBegins(s: State, code: byte, a: nat)
    requires s.Valid() && s.Ready() && LongCommand(code) && a < TWO32
    ensures Sent(s, [code] + AddressBytes(a)).Core() == Begun(s.Core(), code, a)
  {
    hide Exchange, AddressBytes, Begun;
    var f, x := [code] + AddressBytes(a), AddressBytes(a);
    var s1 := Exchange(s, code).0;
    Collect(s, code);
    var s2 := Exchange(s1, x[0]).0;
    Collect(s1, x[0]);
    var s3 := Exchange(s2, x[1]).0;
    Collect(s2, x[1]);
    var s4 := Exchange(s3, x[2]).0;
    Collect(s3, x[2]);
    assert s4.cmd == [code, x[0], x[1], x[2]];
    Complete(s4, x[3]);
    assert s4.cmd[1..] + [x[3]] == x;
    SentFive(s, code, x[0], x[1], x[2], x[3]);
    assert f == [code, x[0], x[1], x[2], x[3]];
    assert s4.Core().(cmd := []) == s.Core();
  }

  /** The four bytes with a 24-bit address start the older forms of the same commands. */
  lemma ShortFrameBegins(s: State, code: byte, a: nat)
    requires s.Valid() && s.Ready() && (code == 0x20 || code == 0x02 || code == 0x03) && a < 0x100_0000
    ensures Sent(s, [code, a / 0x1_0000, a / 0x100 % 0x100, a % 0x100]).Core() ==
            s.Core().(offset := a, erasing := code == 0x20, programming := code == 0x02, reading := code == 0x03)
  {
    hide Exchange, Execute;
    var b1: byte, b2: byte, b3: byte := a / 0x1_0000, a / 0x100 % 0x100, a % 0x100;
    assert a / 0x100 / 0x100 == a / 0x1_0000;
    var s1 := Exchange(s, code).0;
    Collect(s, code);
    var s2 := Exchange(s1, b1).0;
    Collect(s1, b1);
    var s3 := Exchange(s2, b2).0;
    Collect(s2, b2);
    assert s3.cmd == [code, b1, b2];
    CompleteShort(s3, code, b1, b2, b3);
    SentStep(s, code, [b1, b2, b3]);
    SentStep(s1, b1, [b2, b3]);
    SentStep(s2, b2, [b3]);
    SentStep(s3, b3, []);
  }

  lemma CompleteShort(s: State, code: byte, b1: byte, b2: byte, b3: byte)
    requires s.Valid() && !s.programming && !s.reading && !s.erasing && s.cmd == [code, b1, b2]
    requires code == 0x20 || code == 0x02 || code == 0x03
    ensures Exchange(s, b3).0.Core() ==
            s.Core().(cmd := [], offset := b1 as int * 0x1_0000 + b2 as int * 0x100 + b3 as int,
                      erasing := code == 0x20, programming := code == 0x02, reading := code == 0x03)
  {
    assert (s.cmd + [b3])[1..] == [b1, b2, b3];
  }

  lemma SentFive(s: State, b0: byte, b1: byte, b2: byte, b3: byte, b4: byte)
    requires s.Valid()
    ensures Sent(s, [b0, b1, b2, b3, b4]) ==
            Exchange(Exchange(Exchange(Exchange(Exchange(s, b0).0, b1).0, b2).0, b3).0, b4).0
  {
    hide Exchange;
    SentStep(s, b0, [b1, b2, b3, b4]);
    var s1 := Exchange(s, b0).0;
    SentStep(s1, b1, [b2, b3, b4]);
    var s2 := Exchange(s1, b1).0;
    SentStep(s2, b2, [b3, b4]);
    var s3 := Exchange(s2, b2).0;
    SentStep(s3, b3, [b4]);
    SentStep(Exchange(s3, b3).0, b4, []);
  }

  lemma SentStep(s: State, b: byte, rest: seq<byte>)
    requires s.Valid()
    ensures Sent(s, [b] + rest) == Sent(Exchange(s, b).0, rest)
  {
    hide Exchange;
    assert ([b] + rest)[1..] == rest;
  }

  /** A one-byte command without effect: write enable, status, and unknown codes. */
  predicate Harmless(code: byte) {
    CommandLength(code) == 1 && code != CMD_RESET && code != CMD_READ_JEDEC_ID
  }

  lemma HarmlessByte(s: State, b: byte)
    requires s.Valid() && s.cmd == [] && !s.programming && Harmless(b)
    ensures Exchange(s, b).0 == ReadByte(s).state
  {
  }

  lemma ResetByte(s: State)
    requires s.Valid() && s.Ready()
    ensures Exchange(s, 0x99).0 == s.(rsp := [])
  {
  }

  lemma IdentityByte(s: State)
    requires s.Valid() && s.Ready()
    ensures Exchange(s, 0x9f).0 == s.(rsp := s.jedec)
  {
  }

  /** An unread response comes out first. */
  lemma ReplyByte(s: State, b: byte)
    requires s.Valid() && s.Ready() && s.rsp != [] && Harmless(b)
    ensures Exchange(s, b) == (s.(rsp := s.rsp[1..]), s.rsp[0])
  {
    HarmlessByte(s, b);
  }

  // ----- the array it refines ----------------------------------------------------------------

  /** How far an address is beyond another, in the 32-bit address counter. */
  function Distance(p: nat, a: nat): (d: nat)
    requires p < TWO32 && a < TWO32
    ensures d < TWO32 && (a + d) % TWO32 == p
  {
    if p >= a then p - a else p + TWO32 - a
  }

  /** The memory with `data` written from `a` on; the address counter wraps, and bytes beyond the
      device are dropped. */
  ghost function Programmed(mem: seq<byte>, a: nat, data: seq<byte>): (r: seq<byte>)
    requires |mem| <= TWO32 && a < TWO32
    ensures |r| == |mem|
  {
    seq(|mem|, p requires 0 <= p < |mem| => if Distance(p, a) < |data| then data[Distance(p, a)] else mem[p])
  }

  /** What a read of `len` bytes from `a` on gives. */
  ghost function Slice(mem: seq<byte>, a: nat, len: nat): (r: seq<byte>)
    ensures |r| == len
    ensures forall i :: 0 <= i < len ==> r[i] == ReadAt(mem, Counted(a, i))
  {
    seq<byte>(len, i requires 0 <= i < len => ReadAt(mem, Counted(a, i)))
  }

  /** Within the device a read is a slice of the array. */
  lemma SliceIsSlice(mem: seq<byte>, a: nat, len: nat)
    requires |mem| <= TWO32 && a + len <= |mem|
    ensures Slice(mem, a, len) == mem[a..a + len]
  {
  }

  /** Within the device programming replaces exactly a slice of the array. */
  lemma ProgrammedWithin(mem: seq<byte>, a: nat, data: seq<byte>)
    requires |mem| <= TWO32 && a + |data| <= |mem| && a < TWO32
    ensures Programmed(mem, a, data) == mem[..a] + data + mem[a + |data|..]
  {
    var r := Programmed(mem, a, data);
    forall p | 0 <= p < |mem|
      ensures r[p] == (mem[..a] + data + mem[a + |data|..])[p]
    {
      assert a <= p ==> Distance(p, a) == p - a;
    }
  }

  lemma ProgramStep(mem: seq<byte>, a: nat, b: byte, rest: seq<byte>)
    requires |mem| == FLASH_BYTES && a < TWO32 && |rest| < TWO32
    ensures Programmed(if a < FLASH_BYTES then mem[a := b] else mem, (a + 1) % TWO32, rest) == Programmed(mem, a, [b] + rest)
  {
    var m1 := if a < FLASH_BYTES then mem[a := b] else mem;
    var a1 := (a + 1) % TWO32;
    forall p | 0 <= p < |mem|
      ensures Programmed(m1, a1, rest)[p] == Programmed(mem, a, [b] + rest)[p]
    {
      if p == a {
        assert Distance(p, a1) == TWO32 - 1;
      } else {
        assert Distance(p, a1) == Distance(p, a) - 1;
      }
    }
  }

  /** Data bytes after a page-program command. */
  lemma {:induction false} DataIsProgrammed(s: State, data: seq<byte>)
    requires s.Valid() && s.programming && !s.reading && |data| <= TWO32
    ensures Sent(s, data).Core() ==
            s.Core().(mem := Programmed(s.mem, s.offset, data), offset := Counted(s.offset, |data|))
    decreases |data|
  {
    hide Programmed, Exchange, Counted;
    if data == [] {
      CountedNone(s.offset);
      assert Programmed(s.mem, s.offset, []) == s.mem by { NothingProgrammed(s.mem, s.offset); }
    } else {
      var t := Exchange(s, data[0]).0;
      ProgramByte(s, data[0]);
      ProgramStep(s.mem, s.offset, data[0], data[1..]);
      assert data == [data[0]] + data[1..];
      DataIsProgrammed(t, data[1..]);
      CountedStep(s.offset, |data| - 1);
    }
  }

  lemma ProgramByte(s: State, b: byte)
    requires s.Valid() && s.programming && !s.reading
    ensures Exchange(s, b).0.Core() ==
            s.Core().(mem := if s.offset < FLASH_BYTES then s.mem[s.offset := b] else s.mem, offset := (s.offset + 1) % TWO32)
  {
  }

  lemma NothingProgrammed(mem: seq<byte>, a: nat)
    requires |mem| <= TWO32 && a < TWO32
    ensures Programmed(mem, a, []) == mem
  {
  }

  // ----- the driver --------------------------------------------------------------------------

  class SpiFlash {
    const dev: Flash
    /** What the controller shifts out while it only receives. */
    const idle: byte
    /** The lengths of the reads made. */
    ghost var lengths: seq<nat>

    constructor (dev: Flash, idle: byte)
      ensures this.dev == dev && this.idle == idle && lengths == []
    {
      this.dev, this.idle, lengths := dev, idle, [];
    }

    /** The driver and its flash between operations. */
    ghost predicate Valid()
      reads this, dev, dev.mem
    {
      dev.Value().Valid() && dev.Value().Ready() && Harmless(idle)
    }

    ghost function Contents(): seq<byte>
      reads dev, dev.mem
    {
      dev.mem[..]
    }

    method Transfer(out: byte) returns (b: byte)
      requires dev.Value().Valid()
      modifies dev, dev.mem
      ensures var r := Exchange(old(dev.Value()), out);
              dev.Value() == r.0 && b == r.1 && dev.Value().Valid()
    {
      hide ReadByte, WriteByte;
      var driven;
      driven, b := dev.Read();
      dev.Write(out);
    }

    method BlockingWrite(bytes: seq<byte>)
      requires dev.Value().Valid()
      modifies dev, dev.mem
      ensures dev.Value().Valid() && dev.Value() == Sent(old(dev.Value()), bytes)
    {
      hide Exchange;
      var i := 0;
      while i < |bytes|
        invariant 0 <= i <= |bytes| && dev.Value().Valid()
        invariant Sent(dev.Value(), bytes[i..]) == Sent(old(dev.Value()), bytes)
      {
        assert bytes[i..][1..] == bytes[i + 1..];
        var b := Transfer(bytes[i]);
        i := i + 1;
      }
    }

    /** A selection that sends one byte without effect. */
    method Command(code: byte)
      requires Valid() && Harmless(code)
      modifies dev, dev.mem
      ensures Valid() && dev.Value().Core() == old(dev.Value().Core())
    {
      hide Exchange, WriteByte;
      dev.CsChanged(true);
      HarmlessByte(dev.Value(), code);
      var b := Transfer(code);
      dev.CsChanged(false);
    }

    /** `reset`, which drops any unread response. */
    method Reset()
      requires Valid()
      modifies dev, dev.mem
      ensures Valid() && dev.rsp == [] && dev.Value().Core() == old(dev.Value().Core())
    {
      hide Exchange;
      Command(ENABLE_RESET);
      dev.CsChanged(true);
      ResetByte(dev.Value());
      var b := Transfer(RESET);
      dev.CsChanged(false);
    }

    /** `read_jedec_id`: the three bytes, whatever response was left unread. */
    method ReadJedecId() returns (id: seq<byte>)
      requires Valid()
      modifies dev, dev.mem
      ensures Valid() && id == dev.jedec && dev.Value().Core() == old(dev.Value().Core())
    {
      hide Exchange;
      dev.CsChanged(true);
      ghost var s := dev.Value();
      IdentityByte(s);
      var b := Transfer(READ_JEDEC_ID);
      var i := 0;
      id := [];
      while i < 3
        invariant 0 <= i <= 3 && Valid() && dev.Value() == s.(rsp := s.jedec[i..]) && id == s.jedec[..i]
      {
        ReplyByte(dev.Value(), idle);
        b := Transfer(idle);
        id := id + [b];
        i := i + 1;
      }
      dev.CsChanged(false);
    }

    /** The status poll ends: a busy bit can only come from an unread response, and each byte uses
        one up. */
    method AwaitIdle()
      requires Valid()
      modifies dev, dev.mem
      ensures Valid() && dev.Value().Core() == old(dev.Value().Core())
    {
      hide Exchange, WriteByte;
      dev.CsChanged(true);
      HarmlessByte(dev.Value(), READ_STATUS);
      var b := Transfer(READ_STATUS);
      while true
        invariant Valid() && dev.Value().Core() == old(dev.Value().Core())
        decreases |dev.rsp|
      {
        HarmlessByte(dev.Value(), idle);
        ReplyOrZero(dev.Value(), idle);
        var status := Transfer(idle);
        if status % 2 == 0 {
          break;
        }
      }
      dev.CsChanged(false);
    }

    /** `erase_sector`. */
    method EraseSector(address: nat)
      requires Valid() && address < TWO32
      modifies dev, dev.mem
      ensures Valid() && Contents() == Erased(old(Contents()), address)
    {
      hide Sent, AddressBytes, Erased;
      Command(WRITE_ENABLE);
      dev.CsChanged(true);
      FrameBegins(dev.Value(), SECTOR_ERASE, address);
      BlockingWrite([SECTOR_ERASE] + AddressBytes(address));
      dev.CsChanged(false);
      AwaitIdle();
    }

    /** `write_page`. */
    method WritePage(address: nat, data: seq<byte>)
      requires Valid() && address < TWO32 && |data| == 0x100
      modifies dev, dev.mem
      ensures Valid() && Contents() == Programmed(old(Contents()), address, data)
      ensures address + PAGE <= FLASH_BYTES ==>
                Contents() == old(Contents()[..address]) + data + old(Contents()[address + PAGE..])
    {
      hide Sent, AddressBytes, Erased, Programmed;
      if address + PAGE <= FLASH_BYTES {
        ProgrammedWithin(Contents(), address, data);
      }
      Command(WRITE_ENABLE);
      dev.CsChanged(true);
      FrameBegins(dev.Value(), PAGE_PROGRAM, address);
      BlockingWrite([PAGE_PROGRAM] + AddressBytes(address));
      DataIsProgrammed(dev.Value(), data);
      BlockingWrite(data);
      dev.CsChanged(false);
      AwaitIdle();
    }

    /** One byte of a read. */
    method ReceiveByte(ghost mem: seq<byte>, ghost a: nat, ghost i: nat) returns (b: byte)
      requires Streaming(dev.Value(), mem, a, i) && Harmless(idle)
      modifies dev, dev.mem
      ensures Streaming(dev.Value(), mem, a, i + 1) && b == ReadAt(mem, Counted(a, i))
    {
      hide Exchange, Counted;
      ReadingByte(dev.Value(), idle);
      CountedNext(a, i);
      b := Transfer(idle);
    }

    /** `read` into `dst` from `at` on. */
    method Read(address: nat, dst: array<byte>, at: nat, len: nat)
      requires Valid() && address < TWO32 && at + len <= dst.Length && dst != dev.mem
      modifies this`lengths, dev, dev.mem, dst
      ensures Valid() && Contents() == old(Contents()) && lengths == old(lengths) + [len]
      ensures Received(dst[..], old(dst[..]), at, old(Contents()), address, len)
      ensures address + len <= FLASH_BYTES ==>
                dst[..] == old(dst[..])[..at] + old(Contents())[address..address + len] + old(dst[..])[at + len..]
    {
      hide Sent, AddressBytes, Erased, Exchange, Received, Counted, Slice;
      ghost var was, mem := dst[..], dev.mem[..];
      dev.CsChanged(true);
      FrameBegins(dev.Value(), READ_DATA, address);
      BlockingWrite([READ_DATA] + AddressBytes(address));
      CountedNone(address);
      NothingReceived(was, at, mem, address);
      ReadBytes(dst, at, len, was, mem, address);
      dev.CsChanged(false);
      ReceivedIsSlice(dst[..], was, at, mem, address, len);
      if address + len <= FLASH_BYTES {
        SliceIsSlice(mem, address, len);
      }
      lengths := lengths + [len];
    }

    method ReadBytes(dst: array<byte>, at: nat, len: nat, ghost was: seq<byte>, ghost mem: seq<byte>, ghost a: nat)
      requires Streaming(dev.Value(), mem, a, 0) && Harmless(idle)
      requires at + len <= dst.Length && dst != dev.mem && Received(dst[..], was, at, mem, a, 0)
      modifies dev, dev.mem, dst
      ensures Streaming(dev.Value(), mem, a, len) && Received(dst[..], was, at, mem, a, len)
    {
      hide Streaming, Received, Counted, ReadAt;
      var i := 0;
      while i < len
        invariant 0 <= i <= len && Streaming(dev.Value(), mem, a, i) && Received(dst[..], was, at, mem, a, i)
      {
        var b := ReceiveByte(mem, a, i);
        ReceivedMore(dst[..], was, at, mem, a, i, b);
        dst[at + i] := b;
        i := i + 1;
      }
    }
  }

  /** The 32-bit address counter after `i` bytes. */
  function Counted(a: nat, i: nat): nat {
    (a + i) % TWO32
  }

  lemma CountedNext(a: nat, i: nat)
    ensures Counted(a, i + 1) == (Counted(a, i) + 1) % TWO32
  {
  }

  lemma CountedStep(a: nat, i: nat)
    requires a < TWO32
    ensures Counted((a + 1) % TWO32, i) == Counted(a, i + 1)
  {
    if a + 1 == TWO32 {
      assert (i + TWO32) % TWO32 == i % TWO32;
    } else {
      assert (a + 1) % TWO32 == a + 1;
    }
  }

  lemma CountedNone(a: nat)
    requires a < TWO32
    ensures Counted(a, 0) == a
  {
  }

  /** A read from `a` on, with `i` bytes out. */
  ghost predicate Streaming(s: State, mem: seq<byte>, a: nat, i: nat) {
    s.Valid() && s.reading && !s.programming && !s.erasing && s.cmd == [] && s.offset == Counted(a, i) && s.mem == mem
  }

  /** Reading `len` bytes of flash from `a` on into a buffer at `at`. */
  ghost predicate Received(now: seq<byte>, was: seq<byte>, at: nat, mem: seq<byte>, a: nat, len: nat) {
    && |now| == |was| && at + len <= |was|
    && forall p: nat :: p < |was| ==> now[p] == if at <= p < at + len then ReadAt(mem, Counted(a, p - at)) else was[p]
  }

  lemma NothingReceived(was: seq<byte>, at: nat, mem: seq<byte>, a: nat)
    requires at <= |was|
    ensures Received(was, was, at, mem, a, 0)
  {
  }

  lemma ReceivedMore(now: seq<byte>, was: seq<byte>, at: nat, mem: seq<byte>, a: nat, i: nat, b: byte)
    requires Received(now, was, at, mem, a, i) && at + i < |now| && b == ReadAt(mem, Counted(a, i))
    ensures Received(now[at + i := b], was, at, mem, a, i + 1)
  {
    hide Counted;
  }

  /** A received range is the slice. */
  lemma ReceivedIsSlice(now: seq<byte>, was: seq<byte>, at: nat, mem: seq<byte>, a: nat, len: nat)
    requires Received(now, was, at, mem, a, len)
    ensures now == was[..at] + Slice(mem, a, len) + was[at + len..]
  {
  }

  lemma ReadingByte(s: State, b: byte)
    requires s.Valid() && s.reading && !s.programming && s.cmd == [] && Harmless(b)
    ensures Exchange(s, b) == (s.(offset := (s.offset + 1) % TWO32), ReadAt(s.mem, s.offset))
  {
    HarmlessByte(s, b);
  }

  lemma ReplyOrZero(s: State, b: byte)
    requires s.Valid() && !s.reading
    ensures Exchange(s, b).1 != 0 ==> s.rsp != [] && ReadByte(s).state.rsp == s.rsp[1..]
  {
  }
}
