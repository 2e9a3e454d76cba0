/** The simulated SPI flash, `spi_flash`: its command parser and memory, byte by byte. */
module FlashDevice {
  import opened Words

  const FLASH_BYTES: nat := 0x200_0000
  const SECTOR: nat := 0x1000
  const CMD_RESET: nat := 0x99
  const CMD_READ_JEDEC_ID: nat := 0x9f
  const CMD_WRITE_ENABLE: byte := 0x06
  const CMD_SECTOR_ERASE: nat := 0x20
  const CMD_SECTOR_ERASE4: byte := 0x21
  const CMD_READ_STATUS: byte := 0x05
  const CMD_PAGE_PROGRAM: nat := 0x02
  const CMD_PAGE_PROGRAM4: byte := 0x12
  const CMD_READ_DATA: nat := 0x03
  const CMD_READ_DATA4: byte := 0x13

  /** The device; `rsp` is what is left of a short response and `cmd` the command bytes held. */
  datatype State = State(
    programming: bool, reading: bool, erasing: bool, cmd: seq<byte>, rsp: seq<byte>, offset: nat, jedec: seq<byte>,
    mem: seq<byte>)
  {
    /** A command is held only while it is incomplete, so five bytes are the most it ever has. */
    ghost predicate Valid() {
      |mem| == FLASH_BYTES && offset < TWO32 && |jedec| == 3 && |cmd| <= 4 && (cmd != [] ==> |cmd| < CommandLength(cmd[0]))
    }

    /** Between driver operations. */
    predicate Ready() {
      !programming && !reading && !erasing && cmd == []
    }

    /** Everything but the unread response bytes, which any exchange may use up. */
    function Core(): State {
      this.(rsp := [])
    }
  }

  function CommandLength(code: byte): nat {
    if code == CMD_SECTOR_ERASE || code == CMD_PAGE_PROGRAM || code == CMD_READ_DATA then 4
    else if code == CMD_SECTOR_ERASE4 || code == CMD_PAGE_PROGRAM4 || code == CMD_READ_DATA4 then 5
    else 1
  }

  /** A big-endian address. */
  function Address(bytes: seq<byte>): (a: nat)
    requires |bytes| <= 4
    ensures a < TWO32
  {
    if |bytes| == 4 then
      ((bytes[0] as int * 0x100 + bytes[1] as int) * 0x100 + bytes[2] as int) * 0x100 + bytes[3] as int
    else if |bytes| == 3 then (bytes[0] as int * 0x100 + bytes[1] as int) * 0x100 + bytes[2] as int
    else 0
  }

  /** A complete command takes effect. */
  function Execute(s: State, c: seq<byte>): State
    requires 1 <= |c| <= 5
  {
    var code, a := c[0], Address(c[1..]);
    if code == CMD_RESET then s.(programming := false, reading := false, erasing := false, rsp := [])
    else if code == CMD_READ_JEDEC_ID then s.(rsp := s.jedec)
    else if code == CMD_SECTOR_ERASE || code == CMD_SECTOR_ERASE4 then s.(offset := a, erasing := true)
    else if code == CMD_PAGE_PROGRAM || code == CMD_PAGE_PROGRAM4 then s.(offset := a, programming := true)
    else if code == CMD_READ_DATA || code == CMD_READ_DATA4 then s.(offset := a, reading := true)
    else s
  }

  /** `writeByte`. */
  function WriteByte(s: State, b: byte): (r: State)
    requires s.Valid()
    ensures r.Valid()
  {
    if s.programming then
      s.(mem := if s.offset < FLASH_BYTES then s.mem[s.offset := b] else s.mem, offset := (s.offset + 1) % TWO32)
    else
      var c := s.cmd + [b];
      if |c| < CommandLength(c[0]) then s.(cmd := c) else Execute(s.(cmd := []), c)
  }

  /** What a read at an address gives. */
  function ReadAt(mem: seq<byte>, a: nat): byte {
    if a < |mem| then mem[a] else 0xff
  }

  datatype Reply = Reply(state: State, byte: Option<byte>)

  /** `readByte`; `None` when the flash does not drive the line. */
  function ReadByte(s: State): (r: Reply)
    requires s.Valid()
    ensures r.state.Valid()
  {
    if s.reading then Reply(s.(offset := (s.offset + 1) % TWO32), Some(ReadAt(s.mem, s.offset)))
    else if s.rsp != [] then Reply(s.(rsp := s.rsp[1..]), Some(s.rsp[0]))
    else Reply(s, None)
  }

  /** A sector that encloses an address is erased; an address beyond the device erases nothing. */
  ghost function Erased(mem: seq<byte>, a: nat): (r: seq<byte>)
    ensures |r| == |mem|
  {
    seq(|mem|, p requires 0 <= p < |mem| => if p / SECTOR == a / SECTOR then 0xff else mem[p])
  }

  /** `csChanged` at the end of a selection. */
  ghost function Deselect(s: State): (r: State)
    requires s.Valid()
    ensures r.Valid()
  {
    s.(mem := if s.erasing then Erased(s.mem, s.offset) else s.mem, erasing := false, programming := false, reading := false)
  }

  /** One full-duplex byte: the flash supplies its byte, or 0x00 when it is idle, then takes ours. */
  function Exchange(s: State, out: byte): (r: (State, byte))
    requires s.Valid()
    ensures r.0.Valid()
  {
    var reply := ReadByte(s);
    (WriteByte(reply.state, out), if reply.byte.Some? then reply.byte.value else 0)
  }

  class Flash {
    var programming: bool
    var reading: bool
    var erasing: bool
    var cmd: seq<byte>
    var rsp: seq<byte>
    var offset: nat
    const jedec: seq<byte>
    const mem: array<byte>

    ghost function Value(): State
      reads this, mem
    {
      State(programming, reading, erasing, cmd, rsp, offset, jedec, mem[..])
    }

    constructor (jedec: seq<byte>)
      requires |jedec| == 3
      ensures Value().Valid() && Value().Ready() && Value().rsp == [] && fresh(mem)
    {
      programming, reading, erasing, cmd, rsp, offset := false, false, false, [], [], 0;
      this.jedec := jedec;
      mem := new byte[FLASH_BYTES];
    }

    /** `writeByte`. */
    method Write(b: byte)
      requires Value().Valid()
      modifies this, mem
      ensures Value() == WriteByte(old(Value()), b)
    {
      if programming {
        if offset < FLASH_BYTES {
          mem[offset] := b;
        }
        offset := (offset + 1) % TWO32;
      } else {
        cmd := cmd + [b];
        var code := cmd[0];
        if |cmd| >= CommandLength(code) {
          var a := Address(cmd[1..]);
          if code == CMD_RESET {
            programming, reading, erasing, rsp := false, false, false, [];
          } else if code == CMD_READ_JEDEC_ID {
            rsp := jedec;
          } else if code == CMD_SECTOR_ERASE || code == CMD_SECTOR_ERASE4 {
            offset, erasing := a, true;
          } else if code == CMD_PAGE_PROGRAM || code == CMD_PAGE_PROGRAM4 {
            offset, programming := a, true;
          } else if code == CMD_READ_DATA || code == CMD_READ_DATA4 {
            offset, reading := a, true;
          }
          cmd := [];
        }
      }
    }

    /** `readByte`; an undriven byte is zero. */
    method Read() returns (driven: bool, b: byte)
      requires Value().Valid()
      modifies this
      ensures var r := ReadByte(old(Value()));
              Value() == r.state && driven == r.byte.Some? && b == (if driven then r.byte.value else 0)
    {
      if reading {
        b := if offset < FLASH_BYTES then mem[offset] else 0xff;
        offset := (offset + 1) % TWO32;
        driven := true;
      } else if rsp != [] {
        driven, b, rsp := true, rsp[0], rsp[1..];
      } else {
        driven, b := false, 0;
      }
    }

    /** `csChanged`: only the end of a selection matters. */
    method CsChanged(asserted: bool)
      requires Value().Valid()
      modifies this, mem
      ensures Value() == if asserted then old(Value()) else Deselect(old(Value()))
    {
      if !asserted {
        if erasing {
          EraseSector();
          erasing := false;
        }
        programming, reading := false, false;
      }
    }

    /** `eraseSector`: the offset is rounded down to a sector, and that sector must fit. */
    method EraseSector()
      requires Value().Valid()
      modifies mem
      ensures mem[..] == Erased(old(mem[..]), offset)
    {
      var addr := offset - offset % SECTOR;
      SectorOf(offset);
      if addr <= FLASH_BYTES - SECTOR {
        forall p | addr <= p < addr + SECTOR {
          mem[p] := 0xff;
        }
      }
    }
  }

  /** A sector, as a rounded-down address and as a quotient. */
  lemma SectorOf(a: nat)
    ensures var base := a - a % SECTOR;
            && base % SECTOR == 0 && (forall p: nat :: base <= p < base + SECTOR <==> p / SECTOR == a / SECTOR)
            && (base > FLASH_BYTES - SECTOR ==> forall p: nat :: p / SECTOR == a / SECTOR ==> p >= FLASH_BYTES)
  {
    var base := a - a % SECTOR;
    forall p: nat
      ensures base <= p < base + SECTOR <==> p / SECTOR == a / SECTOR
    {
      assert base == SECTOR * (a / SECTOR);
    }
  }
}
