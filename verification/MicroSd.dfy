/** The simulated SPI-connected microSD card: `spi_microsd`, byte by byte. */
module MicroSd {
  import opened Words
  import opened Crc

  const BLOCK_LEN: nat := 512
  const CMD_GO_IDLE_STATE := 0
  const CMD_SEND_IF_COND := 8
  const CMD_SEND_CSD := 9
  const CMD_SEND_CID := 10
  const CMD_STOP_TRANSMISSION := 12
  const CMD_SET_BLOCKLEN := 16
  const CMD_READ_SINGLE_BLOCK := 17
  const CMD_READ_MULTIPLE_BLOCK := 18
  const CMD_WRITE_SINGLE_BLOCK := 24
  const CMD_WRITE_MULTIPLE_BLOCK := 25
  const SD_SEND_OP_COND := 41
  const CMD_APP_CMD := 55
  const CMD_READ_OCR := 58

  datatype ReadState = CmdStatus | DataBytes | Crc0 | Crc1
  datatype WriteState = StartToken | WriteData | WriteCrc0 | WriteCrc1

  /** The command being collected.  The 32-bit address register is kept as its four bytes, most
      significant first, so that `(address << 8) | b` drops the first and appends `b`. */
  datatype Command = Command(code: nat, reg: seq<byte>, bytes: nat) {
    function Address(): nat
      requires |reg| == 4
    {
      ((reg[0] as int * 0x100 + reg[1] as int) * 0x100 + reg[2] as int) * 0x100 + reg[3] as int
    }

    function Shift(b: byte): Command
      requires |reg| == 4
    {
      Command(code, [reg[1], reg[2], reg[3], b], bytes + 1)
    }
  }

  /** The response being sent, and how much of it has gone. */
  datatype Response = Response(active: bool, data: seq<byte>, sent: nat)

  datatype Reading = Reading(active: bool, state: ReadState, bytes: nat, crc: Reg16)

  datatype Writing = Writing(active: bool, state: WriteState, bytes: nat, buf: seq<byte>, crc: Reg16)

  /** The card; `sd` is the image file and `pos` its file position. */
  datatype State = State(
    cmd: Command, rsp: Response, rd: Reading, wr: Writing, cid: seq<byte>, csd: seq<byte>, sd: seq<byte>, pos: nat)
  {
    ghost predicate Valid() {
      |wr.buf| == BLOCK_LEN && |cid| == 16 && |csd| == 16 && cmd.bytes <= 5 && |cmd.reg| == 4
    }

    /** Between commands: nothing to say and nothing collected. */
    predicate Quiet() {
      !wr.active && !rsp.active && !rd.active && cmd.bytes == 0
    }
  }

  // ----- device behaviour on values ----------------------------------------------------------

  function SendResponse(s: State, data: seq<byte>): State {
    s.(rsp := Response(true, data, 0))
  }

  /** `startCommand`, with `cmd.address << 9` in 32-bit arithmetic. */
  function StartCommand(s: State): State
    requires |s.cmd.reg| == 4
  {
    var code, seek := s.cmd.code, (s.cmd.Address() * BLOCK_LEN) % TWO32;
    if code == CMD_GO_IDLE_STATE then SendResponse(s, [1])
    else if code == CMD_SEND_IF_COND || code == CMD_READ_OCR then SendResponse(s, [0, 0, 0, 0, 0])
    else if code == CMD_SEND_CID || code == CMD_SEND_CSD then
      SendResponse(s, [0, 0xfe]).(rd := s.rd.(active := true, state := CmdStatus, bytes := 0))
    else if code == CMD_STOP_TRANSMISSION then s
    else if code == CMD_READ_MULTIPLE_BLOCK || code == CMD_READ_SINGLE_BLOCK then
      SendResponse(s, [0, 0xfe]).(pos := seek, rd := s.rd.(active := true, state := CmdStatus, bytes := 0))
    else if code == CMD_WRITE_MULTIPLE_BLOCK || code == CMD_WRITE_SINGLE_BLOCK then
      SendResponse(s, [0xfe]).(pos := seek, wr := s.wr.(active := true, state := StartToken, bytes := 0))
    else if code == CMD_SET_BLOCKLEN || code == SD_SEND_OP_COND || code == CMD_APP_CMD then SendResponse(s, [0])
    else SendResponse(s, [5])
  }

  /** `fwrite` of a block at the file position; a gap before it reads as zeros. */
  function FileWrite(sd: seq<byte>, pos: nat, data: seq<byte>): (r: seq<byte>)
    ensures |r| == if pos + |data| <= |sd| then |sd| else pos + |data|
  {
    var base := if pos + |data| <= |sd| then sd else sd + seq(pos + |data| - |sd|, i => 0);
    base[..pos] + data + base[pos + |data|..]
  }

  function RunningCrc(crc: Reg16, b: byte): Reg16 {
    Crc16Bits(crc, ByteBits(b))
  }

  /** A byte of write data, in `writeByte`. */
  function WritePhase(s: State, b: byte): (r: State)
    requires s.Valid() && s.wr.active
    ensures r.Valid()
  {
    var w := s.wr;
    match w.state
    case StartToken =>
      if b == 0xfe then s.(wr := w.(state := WriteData, crc := Zeros(16))) else s
    case WriteData =>
      s.(wr := Writing(true, if w.bytes + 1 >= BLOCK_LEN then WriteCrc0 else WriteData, w.bytes + 1,
                       if w.bytes < BLOCK_LEN then w.buf[w.bytes := b] else w.buf, RunningCrc(w.crc, b)))
    case WriteCrc0 => s.(wr := w.(state := WriteCrc1))
    case WriteCrc1 =>
      SendResponse(s, [0xe5, 0, 0, 0, 0, 0, 0, 1])
      .(wr := w.(active := false, state := StartToken), sd := FileWrite(s.sd, s.pos, w.buf), pos := s.pos + BLOCK_LEN)
  }

  /** `writeByte`. */
  function WriteByte(s: State, b: byte): (r: State)
    requires s.Valid()
    ensures r.Valid()
  {
    if s.wr.active then WritePhase(s, b)
    else if s.cmd.bytes == 0 then
      if 0x40 <= b < 0x80 then s.(cmd := s.cmd.(code := b as int - 0x40, bytes := 1)) else s
    else if s.cmd.bytes == 5 then StartCommand(s).(cmd := s.cmd.(bytes := 0))
    else s.(cmd := s.cmd.Shift(b))
  }

  /** A register byte.  An index past the end needs a command begun in mid-read; it is undefined in
      C++ and reads as zero here. */
  function RegisterByte(reg: seq<byte>, i: nat): byte {
    if i < |reg| then reg[i] else 0
  }

  datatype Reply = Reply(state: State, byte: Option<byte>)

  /** The data phase of `readByte`. */
  function ReadPhase(s: State): (r: Reply)
    requires s.Valid() && s.rd.active
    ensures r.state.Valid() && r.byte.Some?
  {
    var d, code := s.rd, s.cmd.code;
    match d.state
    case DataBytes =>
      if code == CMD_SEND_CID || code == CMD_SEND_CSD then
        var b := RegisterByte(if code == CMD_SEND_CID then s.cid else s.csd, d.bytes);
        Reply(s.(rd := Reading(true, if d.bytes + 1 >= 16 then Crc0 else DataBytes, d.bytes + 1, RunningCrc(d.crc, b))),
              Some(b))
      else if code == CMD_READ_MULTIPLE_BLOCK || code == CMD_READ_SINGLE_BLOCK then
        var b: byte := if s.pos < |s.sd| then s.sd[s.pos] else 0xff;
        Reply(s.(pos := if s.pos < |s.sd| then s.pos + 1 else s.pos,
                 rd := Reading(true, if (d.bytes + 1) % BLOCK_LEN == 0 then Crc0 else DataBytes, d.bytes + 1,
                               RunningCrc(d.crc, b))),
              Some(b))
      else Reply(s, Some(0))
    case Crc0 => Reply(s.(rd := d.(state := Crc1)), Some(High(d.crc)))
    case Crc1 => Reply(s.(rd := d.(state := DataBytes, bytes := 0)), Some(Low(d.crc)))
    case CmdStatus => Reply(s.(rd := d.(active := false)), Some(0xff))
  }

  /** The end of a response starts the data of a read command. */
  function EndResponse(s: State): (r: State)
    requires s.Valid()
    ensures r.Valid()
  {
    s.(rsp := s.rsp.(active := false),
       rd := if s.rsp.active && s.rd.active then s.rd.(state := DataBytes, crc := Zeros(16)) else s.rd)
  }

  /** `readByte`; `None` when the card does not drive the line. */
  function ReadByte(s: State): (r: Reply)
    requires s.Valid()
    ensures r.state.Valid()
  {
    if s.rsp.active && s.rsp.sent < |s.rsp.data| then
      Reply(s.(rsp := s.rsp.(sent := s.rsp.sent + 1)), Some(s.rsp.data[s.rsp.sent]))
    else if s.rd.active then ReadPhase(EndResponse(s))
    else Reply(EndResponse(s), None)
  }

  /** `csChanged`; a write in progress is not abandoned. */
  function CsChanged(s: State): State {
    s.(cmd := s.cmd.(bytes := 0), rsp := s.rsp.(active := false), rd := s.rd.(active := false))
  }

  // ----- the link ----------------------------------------------------------------------------

  datatype Exchanged = Exchanged(state: State, byte: byte)

  /** One full-duplex byte: the card supplies its byte, or 0x00 when it is idle, then takes ours. */
  function Exchange(s: State, out: byte): (r: Exchanged)
    requires s.Valid()
    ensures r.state.Valid()
  {
    var reply := ReadByte(s);
    Exchanged(WriteByte(reply.state, out), if reply.byte.Some? then reply.byte.value else 0)
  }

  // ----- the device object -------------------------------------------------------------------

  class Card {
    var cmd: Command
    var rsp: Response
    var rd: Reading
    var wr: Writing
    const cid: seq<byte>
    const csd: seq<byte>
    var sd: seq<byte>
    var pos: nat

    ghost function Value(): State
      reads this
    {
      State(cmd, rsp, rd, wr, cid, csd, sd, pos)
    }

    constructor (image: seq<byte>, cid: seq<byte>, csd: seq<byte>)
      requires |cid| == 16 && |csd| == 16
      ensures Value().Valid() && Value().Quiet() && sd == image
    {
      cmd := Command(0, [0, 0, 0, 0], 0);
      rsp := Response(false, [], 0);
      rd := Reading(false, CmdStatus, 0, Zeros(16));
      wr := Writing(false, StartToken, 0, seq(BLOCK_LEN, i => 0), Zeros(16));
      this.cid, this.csd, sd, pos := cid, csd, image, 0;
    }

    method Select()
      requires Value().Valid()
      modifies this
      ensures Value() == CsChanged(old(Value()))
    {
      cmd := cmd.(bytes := 0);
      rsp := rsp.(active := false);
      rd := rd.(active := false);
    }

    method Respond(data: seq<byte>)
      modifies this
      ensures Value() == SendResponse(old(Value()), data)
    {
      rsp := Response(true, data, 0);
    }

    /** `startCommand`, by the numbers of the commands. */
    method Start()
      requires |cmd.reg| == 4
      modifies this
      ensures Value() == StartCommand(old(Value()))
    {
      var code, seek := cmd.code, (cmd.Address() * BLOCK_LEN) % TWO32;
      if code == 0 {
        Respond([1]);
      } else if code == 8 || code == 58 {
        Respond([0, 0, 0, 0, 0]);
      } else if code == 10 || code == 9 {
        Respond([0, 0xfe]);
        rd := rd.(active := true, state := CmdStatus, bytes := 0);
      } else if code == 12 {
      } else if code == 18 || code == 17 {
        pos := seek;
        Respond([0, 0xfe]);
        rd := rd.(active := true, state := CmdStatus, bytes := 0);
      } else if code == 25 || code == 24 {
        pos := seek;
        Respond([0xfe]);
        wr := wr.(active := true, state := StartToken, bytes := 0);
      } else if code == 16 || code == 41 || code == 55 {
        Respond([0]);
      } else {
        Respond([5]);
      }
    }

    /** `writeByte`. */
    method Write(b: byte)
      requires Value().Valid()
      modifies this
      ensures Value() == WriteByte(old(Value()), b)
    {
      hide RunningCrc, FileWrite;
      if wr.active {
        match wr.state {
          case StartToken =>
            if b == 0xfe {
              wr := wr.(state := WriteData, crc := Zeros(16));
            }
          case WriteData =>
            if wr.bytes < BLOCK_LEN {
              wr := wr.(buf := wr.buf[wr.bytes := b]);
            }
            wr := wr.(crc := RunningCrc(wr.crc, b), bytes := wr.bytes + 1);
            if wr.bytes >= BLOCK_LEN {
              wr := wr.(state := WriteCrc0);
            }
          case WriteCrc0 =>
            wr := wr.(state := WriteCrc1);
          case WriteCrc1 =>
            wr := wr.(state := StartToken);
            Respond([0xe5, 0, 0, 0, 0, 0, 0, 1]);
            wr := wr.(active := false);
            sd := FileWrite(sd, pos, wr.buf);
            pos := pos + BLOCK_LEN;
        }
      } else if cmd.bytes == 0 {
        if 0x40 <= b < 0x80 {
          cmd := cmd.(code := b as int - 0x40, bytes := 1);
        }
      } else if cmd.bytes == 5 {
        Start();
        cmd := cmd.(bytes := 0);
      } else {
        cmd := cmd.Shift(b);
      }
    }

    /** `readByte`; an undriven byte is zero. */
    method Read() returns (driven: bool, b: byte)
      requires Value().Valid()
      modifies this
      ensures var r := ReadByte(old(Value()));
              Value() == r.state && driven == r.byte.Some? && b == (if driven then r.byte.value else 0)
    {
      hide RunningCrc, High, Low, ReadPhase;
      if rsp.active {
        if rsp.sent < |rsp.data| {
          b := rsp.data[rsp.sent];
          rsp := rsp.(sent := rsp.sent + 1);
          return true, b;
        }
        if rd.active {
          rd := rd.(state := DataBytes, crc := Zeros(16));
        }
        rsp := rsp.(active := false);
      }
      if !rd.active {
        return false, 0;
      }
      b := ReadData();
      driven := true;
    }

    method ReadData() returns (b: byte)
      requires Value().Valid() && rd.active
      modifies this
      ensures var r := ReadPhase(old(Value()));
              Value() == r.state && b == r.byte.value
    {
      hide RunningCrc, High, Low;
      match rd.state {
        case DataBytes =>
          if cmd.code == 10 || cmd.code == 9 {
            b := RegisterByte(if cmd.code == 10 then cid else csd, rd.bytes);
            rd := rd.(crc := RunningCrc(rd.crc, b), bytes := rd.bytes + 1);
            if rd.bytes >= 16 {
              rd := rd.(state := Crc0);
            }
          } else if cmd.code == 18 || cmd.code == 17 {
            b := 0xff;
            if pos < |sd| {
              b := sd[pos];
              pos := pos + 1;
            }
            rd := rd.(crc := RunningCrc(rd.crc, b), bytes := rd.bytes + 1);
            if rd.bytes % BLOCK_LEN == 0 {
              rd := rd.(state := Crc0);
            }
          } else {
            b := 0;
          }
        case Crc0 =>
          b := High(rd.crc);
          rd := rd.(state := Crc1);
        case Crc1 =>
          b := Low(rd.crc);
          rd := rd.(bytes := 0, state := DataBytes);
        case CmdStatus =>
          b := 0xff;
          rd := rd.(active := false);
      }
    }
  }
}
