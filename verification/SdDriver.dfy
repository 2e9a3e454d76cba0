/** The SPI-mode SD card driver talking to the simulated card: single-block read and write as
    two-party byte protocols. */
module SdDriver {
  import opened Words
  import opened Crc
  import opened MicroSd

  /** The driver's own command codes. */
  const GO_IDLE_STATE := 0
  const SEND_IF_COND := 8
  const READ_SINGLE_BLOCK := 17
  const WRITE_SINGLE_BLOCK := 24

  // ----- what the card does with the driver's bytes ------------------------------------------

  /** The card after a run of bytes whose replies are ignored. */
  function Sent(s: State, bytes: seq<byte>): (r: State)
    requires s.Valid()
    ensures r.Valid()
    decreases |bytes|
  {
    if bytes == [] then s else Sent(Exchange(s, bytes[0]).state, bytes[1..])
  }

  lemma {:induction false} SentJoin(s: State, a: seq<byte>, b: seq<byte>)
    requires s.Valid()
    ensures Sent(s, a + b) == Sent(Sent(s, a), b)
    decreases |a|
  {
    hide Exchange;
    if a == [] {
      assert a + b == b;
    } else {
      assert (a + b)[1..] == a[1..] + b;
      SentJoin(Exchange(s, a[0]).state, a[1..], b);
    }
  }

  /** The bytes of a 32-bit argument, most significant first. */
  function ArgumentBytes(arg: nat): (r: seq<byte>)
    requires arg < TWO32
    ensures |r| == 4 && Command(0, r, 0).Address() == arg
  {
    var n1 := arg / 0x100;
    var n2 := n1 / 0x100;
    var n3 := n2 / 0x100;
    [n3, n2 % 0x100, n1 % 0x100, arg % 0x100]
  }

  /** The six bytes of a command. */
  function Frame(code: nat, arg: nat, crc: byte): (f: seq<byte>)
    requires code < 0x40 && arg < TWO32
    ensures |f| == 6
  {
    [0x40 + code] + ArgumentBytes(arg) + [crc]
  }

  /** A quiet card receiving a command frame. */
  function Commanded(s: State, code: nat, arg: nat): State
    requires arg < TWO32
  {
    var reg := ArgumentBytes(arg);
    StartCommand(s.(cmd := Command(code, reg, 5))).(cmd := Command(code, reg, 0))
  }

  lemma QuietIsSilent(s: State, b: byte)
    requires s.Valid() && !s.wr.active && !s.rsp.active && !s.rd.active
    ensures Exchange(s, b) == Exchanged(WriteByte(s, b), 0)
  {
  }

  /** One more byte into a quiet card's command. */
  lemma CollectByte(s: State, b: byte, rest: seq<byte>)
    requires s.Valid() && !s.wr.active && !s.rsp.active && !s.rd.active
    ensures Sent(s, [b] + rest) == Sent(WriteByte(s, b), rest)
  {
    hide WriteByte;
    QuietIsSilent(s, b);
    assert ([b] + rest)[1..] == rest;
  }

  lemma DummyByte(s: State, rest: seq<byte>)
    requires s.Valid() && s.Quiet()
    ensures Sent(s, [0xff] + rest) == Sent(s, rest)
  {
    hide Exchange, Sent, StartCommand;
    CollectByte(s, 0xff, rest);
  }

  lemma CodeByte(s: State, code: nat, b: byte, rest: seq<byte>)
    requires s.Valid() && s.Quiet() && code < 0x40 && b as int == 0x40 + code
    ensures Sent(s, [b] + rest) == Sent(s.(cmd := Command(code, s.cmd.reg, 1)), rest)
  {
    hide Exchange, Sent, StartCommand;
    CollectByte(s, b, rest);
  }

  lemma LastByte(s: State, b: byte)
    requires s.Valid() && !s.wr.active && !s.rsp.active && !s.rd.active && s.cmd.bytes == 5
    ensures Sent(s, [b]) == StartCommand(s).(cmd := s.cmd.(bytes := 0))
  {
    hide Exchange, StartCommand;
    assert [b] + [] == [b];
    CollectByte(s, b, []);
  }

  /** The dummy byte and the frame start exactly the command sent, whatever address was left over. */
  lemma FrameStartsCommand(s: State, code: nat, arg: nat, crc: byte)
    requires s.Valid() && s.Quiet() && code < 0x40 && arg < TWO32
    ensures Sent(s, [0xff] + Frame(code, arg, crc)) == Commanded(s, code, arg)
  {
    hide StartCommand, Exchange, Sent, WriteByte, ArgumentBytes;
    var f, a, r := Frame(code, arg, crc), ArgumentBytes(arg), s.cmd.reg;
    DummyByte(s, f);
    assert f == [f[0]] + (a + [crc]);
    CodeByte(s, code, f[0], a + [crc]);
    assert a + [crc] == [a[0]] + [a[1], a[2], a[3], crc];
    AddressByte(s.(cmd := Command(code, r, 1)), a[0], [a[1], a[2], a[3], crc]);
    assert [a[1], a[2], a[3], crc] == [a[1]] + [a[2], a[3], crc];
    AddressByte(s.(cmd := Command(code, [r[1], r[2], r[3], a[0]], 2)), a[1], [a[2], a[3], crc]);
    assert [a[2], a[3], crc] == [a[2]] + [a[3], crc];
    AddressByte(s.(cmd := Command(code, [r[2], r[3], a[0], a[1]], 3)), a[2], [a[3], crc]);
    assert [a[3], crc] == [a[3]] + [crc];
    AddressByte(s.(cmd := Command(code, [r[3], a[0], a[1], a[2]], 4)), a[3], [crc]);
    assert [a[0], a[1], a[2], a[3]] == a;
    LastByte(s.(cmd := Command(code, a, 5)), crc);
  }

  lemma AddressByte(s: State, b: byte, rest: seq<byte>)
    requires s.Valid() && !s.wr.active && !s.rsp.active && !s.rd.active && 1 <= s.cmd.bytes <= 4
    ensures Sent(s, [b] + rest) ==
            Sent(s.(cmd := s.cmd.Shift(b)), rest)
  {
    hide Exchange, Sent, StartCommand;
    CollectByte(s, b, rest);
  }

  // ----- polling -----------------------------------------------------------------------------

  /** The card ignores the 0xff bytes that keep the line high while the driver listens. */
  ghost predicate IgnoresOnes(s: State) {
    s.Valid() && (if s.wr.active then s.wr.state == StartToken else s.cmd.bytes == 0)
  }

  /** Listening takes the card's byte and changes nothing else. */
  lemma ListenIsRead(s: State)
    requires IgnoresOnes(s)
    ensures IgnoresOnes(ReadByte(s).state)
    ensures Exchange(s, 0xff).state == ReadByte(s).state
  {
    hide RunningCrc, High, Low;
  }

  /** Nothing is left of the response to the last command. */
  ghost predicate Answered(s: State) {
    IgnoresOnes(s) && !s.wr.active && !s.rd.active && (s.rsp.active ==> s.rsp.sent >= |s.rsp.data|)
  }

  /** The dummy byte ahead of a command ends that response. */
  lemma DummyEndsResponse(s: State, frame: seq<byte>)
    requires Answered(s)
    ensures EndResponse(s).Valid() && EndResponse(s).Quiet() && (s.Quiet() ==> EndResponse(s) == s)
    ensures Sent(s, [0xff] + frame) == Sent(EndResponse(s), [0xff] + frame)
  {
    hide Exchange;
    ListenIsRead(s);
    ListenIsRead(EndResponse(s));
    assert ([0xff] + frame)[1..] == frame;
  }

  /** What is left of a response. */
  function Pending(s: State): seq<byte>
    requires s.Valid()
  {
    if s.rsp.active && s.rsp.sent <= |s.rsp.data| then s.rsp.data[s.rsp.sent..] else []
  }

  /** Skips `n` bytes of a response. */
  function SkipResponse(s: State, n: nat): State {
    s.(rsp := s.rsp.(sent := s.rsp.sent + n))
  }

  lemma SkipNothing(s: State)
    requires IgnoresOnes(s)
    ensures SkipResponse(s, 0) == s && s.Valid()
  {
  }

  lemma ListenToResponse(s: State)
    requires IgnoresOnes(s) && Pending(s) != []
    ensures Exchange(s, 0xff) == Exchanged(SkipResponse(s, 1), Pending(s)[0])
    ensures IgnoresOnes(SkipResponse(s, 1)) && Pending(SkipResponse(s, 1)) == Pending(s)[1..]
  {
    ListenIsRead(s);
  }

  // ----- the data of a read ------------------------------------------------------------------

  /** What the card reads at a place of its image; beyond the end it reads 0xff. */
  function ImageByte(sd: seq<byte>, i: nat): byte {
    if i < |sd| then sd[i] else 0xff
  }

  function ImageBytes(sd: seq<byte>, pos: nat, n: nat): (r: seq<byte>)
    ensures |r| == n && forall i :: 0 <= i < n ==> r[i] == ImageByte(sd, pos + i)
  {
    seq<byte>(n, i requires 0 <= i < n => ImageByte(sd, pos + i))
  }

  lemma ImageBytesWithin(sd: seq<byte>, pos: nat, n: nat)
    requires pos + n <= |sd|
    ensures ImageBytes(sd, pos, n) == sd[pos..pos + n]
  {
  }

  lemma ImageBytesExtend(sd: seq<byte>, pos: nat, n: nat)
    ensures ImageBytes(sd, pos, n + 1) == ImageBytes(sd, pos, n) + [ImageByte(sd, pos + n)]
  {
    hide ImageByte;
  }

  /** The file position after `i` reads from `pos`: it stops at the end of the file. */
  function FilePos(sd: seq<byte>, pos: nat, i: nat): nat {
    if pos + i <= |sd| then pos + i else if pos <= |sd| then |sd| else pos
  }

  /** A read card with `i` data bytes out. */
  function DataOut(s: State, i: nat): State {
    s.(rsp := s.rsp.(active := false), pos := FilePos(s.sd, s.pos, i),
       rd := Reading(true, if i == BLOCK_LEN then Crc0 else DataBytes, i, Crc16(ImageBytes(s.sd, s.pos, i))))
  }

  ghost predicate AtData(s: State) {
    && IgnoresOnes(s) && !s.wr.active && s.rsp.active && Pending(s) == [] && s.rd.active && s.rd.bytes == 0
    && s.rsp.sent >= |s.rsp.data|
    && s.cmd.code == CMD_READ_SINGLE_BLOCK
  }

  lemma FirstDataByte(s: State)
    requires AtData(s)
    ensures Exchange(s, 0xff) == Exchanged(DataOut(s, 1), ImageByte(s.sd, s.pos))
  {
    hide Crc16, ReadPhase, ImageByte;
    ListenIsRead(s);
    DataStep(s, 0);
    assert ImageBytes(s.sd, s.pos, 0) == [];
    Crc16OfNothing();
  }

  lemma DataStep(s: State, i: nat)
    requires AtData(s) && i < BLOCK_LEN
    ensures var t := s.(rsp := s.rsp.(active := false), pos := FilePos(s.sd, s.pos, i),
                        rd := Reading(true, DataBytes, i, Crc16(ImageBytes(s.sd, s.pos, i))));
            t.Valid() && ReadPhase(t) == Reply(DataOut(s, i + 1), Some(ImageByte(s.sd, s.pos + i)))
  {
    hide Crc16, RunningCrc, ImageBytes;
    var data := ImageBytes(s.sd, s.pos, i);
    ImageBytesExtend(s.sd, s.pos, i);
    assert Crc16(data + [ImageByte(s.sd, s.pos + i)]) == RunningCrc(Crc16(data), ImageByte(s.sd, s.pos + i)) by {
      Crc16Extends(data, ImageByte(s.sd, s.pos + i));
      RunningIsBits(Crc16(data), ImageByte(s.sd, s.pos + i));
    }
  }

  lemma RunningIsBits(crc: Reg16, b: byte)
    ensures RunningCrc(crc, b) == Crc16Bits(crc, ByteBits(b))
  {
  }

  lemma Crc16OfNothing()
    ensures Crc16([]) == Zeros(16)
  {
  }

  /** Each further byte is the next of the image block. */
  lemma NextDataByte(s: State, i: nat)
    requires AtData(s) && 0 < i < BLOCK_LEN
    ensures DataOut(s, i).Valid()
    ensures Exchange(DataOut(s, i), 0xff) == Exchanged(DataOut(s, i + 1), ImageByte(s.sd, s.pos + i))
  {
    hide Crc16, ReadPhase, ImageBytes, ImageByte, FilePos;
    ListenIsRead(DataOut(s, i));
    DataStep(s, i);
  }

  /** The two CRC bytes end the block; the card would start another. */
  lemma CrcBytes(s: State)
    requires AtData(s)
    ensures var crc := Crc16(ImageBytes(s.sd, s.pos, BLOCK_LEN));
            var t := DataOut(s, BLOCK_LEN);
            var u := t.(rd := t.rd.(state := Crc1));
            && t.Valid() && Exchange(t, 0xff) == Exchanged(u, High(crc))
            && u.Valid() && Exchange(u, 0xff) == Exchanged(t.(rd := Reading(true, DataBytes, 0, crc)), Low(crc))
  {
    hide Crc16, High, Low, ImageBytes, FilePos;
    var t := DataOut(s, BLOCK_LEN);
    ListenIsRead(t);
    ListenIsRead(t.(rd := t.rd.(state := Crc1)));
  }

  // ----- the data of a write -----------------------------------------------------------------

  /** A card that has taken the start token and `i` bytes of a block. */
  ghost predicate DataIn(t: State, s: State, data: seq<byte>, i: nat) {
    && i <= BLOCK_LEN == |data| && t.Valid()
    && t.wr.active && t.wr.state == (if i == BLOCK_LEN then WriteCrc0 else WriteData)
    && t.wr.bytes == i && t.wr.buf[..i] == data[..i] && !t.rd.active && !t.rsp.active
    && t.sd == s.sd && t.pos == s.pos && t.cmd == s.cmd && t.cid == s.cid && t.csd == s.csd
  }

  lemma TakeDataByte(t: State, s: State, data: seq<byte>, i: nat)
    requires i < BLOCK_LEN && DataIn(t, s, data, i)
    ensures DataIn(Exchange(t, data[i]).state, s, data, i + 1)
  {
    hide RunningCrc;
    var u := Exchange(t, data[i]).state;
    assert u.wr.buf == t.wr.buf[i := data[i]];
    assert u.wr.buf[..i + 1] == data[..i + 1];
  }

  lemma TakeCrcBytes(t: State, s: State, data: seq<byte>, c0: byte, c1: byte)
    requires DataIn(t, s, data, BLOCK_LEN)
    ensures var u := Exchange(Exchange(t, c0).state, c1).state;
            && u.Valid() && !u.wr.active && !u.rd.active
            && u.rsp == Response(true, [0xe5, 0, 0, 0, 0, 0, 0, 1], 0)
            && u.sd == FileWrite(s.sd, s.pos, data) && u.cmd == s.cmd && u.cid == s.cid && u.csd == s.csd
  {
    hide FileWrite;
    assert t.wr.buf[..BLOCK_LEN] == t.wr.buf && data[..BLOCK_LEN] == data;
  }

  // ----- the driver --------------------------------------------------------------------------

  class SdCard {
    const card: Card
    const crcOn: bool

    constructor (card: Card, crcOn: bool)
      ensures this.card == card && this.crcOn == crcOn
    {
      this.card, this.crcOn := card, crcOn;
    }

    method Transfer(out: byte) returns (b: byte)
      requires card.Value().Valid()
      modifies card
      ensures var r := Exchange(old(card.Value()), out);
              card.Value() == r.state && b == r.byte
    {
      hide ReadByte, WriteByte;
      var driven;
      driven, b := card.Read();
      card.Write(out);
    }

    method BlockingWrite(bytes: seq<byte>)
      requires card.Value().Valid()
      modifies card
      ensures card.Value().Valid() && card.Value() == Sent(old(card.Value()), bytes)
    {
      hide Exchange;
      var i := 0;
      while i < |bytes|
        invariant 0 <= i <= |bytes| && card.Value().Valid()
        invariant Sent(card.Value(), bytes[i..]) == Sent(old(card.Value()), bytes)
      {
        assert bytes[i..][1..] == bytes[i + 1..];
        var b := Transfer(bytes[i]);
        i := i + 1;
      }
    }

    method SendCommand(code: nat, arg: nat)
      requires code < 0x40 && arg < TWO32 && Answered(card.Value())
      modifies card
      ensures card.Value() == Commanded(EndResponse(old(card.Value())), code, arg) && card.Value().Valid()
      ensures old(card.Value()).Quiet() ==> card.Value() == Commanded(old(card.Value()), code, arg)
    {
      hide Sent, Frame, StartCommand, CalcCrc7, Exchange;
      var crc: byte := 0xff;
      if crcOn || code == GO_IDLE_STATE || code == SEND_IF_COND {
        var head := Frame(code, arg, 0)[..5];
        CommandCrcMatches(head);
        crc := 1 + 2 * CalcCrc7(head) as int;
      }
      DummyEndsResponse(card.Value(), Frame(code, arg, crc));
      FrameStartsCommand(EndResponse(card.Value()), code, arg, crc);
      SentJoin(card.Value(), [0xff], Frame(code, arg, crc));
      BlockingWrite([0xff]);
      BlockingWrite(Frame(code, arg, crc));
    }

    /** `get_response_R1`: a response is coming, or the card answers by driving nothing. */
    method GetResponseR1() returns (rd: byte, ghost skipped: nat)
      requires IgnoresOnes(card.Value()) && card.Value().rsp.active
      requires card.Value().rd.active ==> exists i :: 0 <= i < |Pending(card.Value())| && Pending(card.Value())[i] < 0x80
      modifies card
      ensures rd < 0x80 && IgnoresOnes(card.Value())
      ensures var p := Pending(old(card.Value()));
              if exists i :: 0 <= i < |p| && p[i] < 0x80 then
                && 0 < skipped <= |p| && rd == p[skipped - 1]
                && (forall i :: 0 <= i < skipped - 1 ==> p[i] >= 0x80)
                && card.Value() == SkipResponse(old(card.Value()), skipped)
              else rd == 0 && skipped == |p| && card.Value() == EndResponse(SkipResponse(old(card.Value()), skipped))
    {
      ghost var s := card.Value();
      ghost var p := Pending(s);
      skipped := 0;
      while true
        invariant skipped <= |p| && IgnoresOnes(card.Value())
        invariant card.Value() == SkipResponse(s, skipped) && Pending(card.Value()) == p[skipped..]
        invariant forall i :: 0 <= i < skipped ==> p[i] >= 0x80
        decreases |p| - skipped
      {
        ListenIsRead(card.Value());
        if skipped < |p| {
          ListenToResponse(card.Value());
        }
        rd := Transfer(0xff);
        if rd < 0x80 {
          skipped := if skipped < |p| then skipped + 1 else skipped;
          return;
        }
        skipped := skipped + 1;
      }
    }

    /** Listens until the start token of a data block; `k` bytes of the response go by. */
    method AwaitStartToken() returns (ghost k: nat)
      requires IgnoresOnes(card.Value()) && 0xfe in Pending(card.Value())
      modifies card
      ensures First(Pending(old(card.Value())), k, b => b == 0xfe)
      ensures card.Value() == SkipResponse(old(card.Value()), k) && IgnoresOnes(card.Value())
    {
      hide Exchange, Pending, IgnoresOnes;
      ghost var s := card.Value();
      SkipNothing(s);
      ghost var p := Pending(s);
      k := 0;
      while true
        invariant k < |p| && IgnoresOnes(card.Value()) && 0xfe in p[k..] && card.Value().Valid()
        invariant card.Value() == SkipResponse(s, k) && Pending(card.Value()) == p[k..]
        invariant forall i :: 0 <= i < k ==> p[i] != 0xfe
        decreases |p| - k
      {
        ListenToResponse(card.Value());
        assert Pending(card.Value())[0] == p[k];
        var b := Transfer(0xff);
        k := k + 1;
        if b == 0xfe {
          return;
        }
      }
    }

    /** `read_card_data`: as many bytes as the buffer holds, whatever the card sends. */
    method ReadCardData(buf: array<byte>)
      requires card.Value().Valid()
      modifies card, buf
      ensures var r := Listened(old(card.Value()), buf.Length);
              card.Value() == r.state && buf[..] == r.bytes && card.Value().Valid()
    {
      hide Exchange, HeardSoFar, Listened;
      ghost var goal := Listened(card.Value(), buf.Length);
      var i := 0;
      HeardNothing(goal);
      assert buf[..0] == [];
      while i < buf.Length
        invariant 0 <= i <= buf.Length && card.Value().Valid()
        invariant HeardSoFar(goal, buf[..i], Listened(card.Value(), buf.Length - i))
      {
        ghost var done := buf[..i];
        HeardMore(goal, done, card.Value(), buf.Length - i);
        buf[i] := Transfer(0xff);
        assert buf[..i + 1] == done + [buf[i]];
        i := i + 1;
      }
      assert buf[..i] == buf[..];
      HeardAll(goal, buf[..], card.Value());
    }

    /** `collected_data`: after the start token, the bytes and their CRC; with CRC on a block is kept
        only when the two agree. */
    method CollectedData(buf: array<byte>) returns (ok: bool, ghost k: nat)
      requires IgnoresOnes(card.Value()) && 0xfe in Pending(card.Value())
      modifies card, buf
      ensures First(Pending(old(card.Value())), k, b => b == 0xfe)
      ensures var t := SkipResponse(old(card.Value()), k);
              t.Valid() &&
              var r := Listened(t, buf.Length);
              var c := Listened(r.state, 2);
              && buf[..] == r.bytes
              && (ok <==> !crcOn || AcceptsCrc(r.bytes, c.bytes[0], c.bytes[1]))
              && card.Value() == (if ok then c.state else CsChanged(c.state))
    {
      hide Crc16, Exchange, High, Low, Listened;
      k := AwaitStartToken();
      ReadCardData(buf);
      var crc := new byte[2];
      ReadCardData(crc);
      assert crc[..][0] == crc[0] && crc[..][1] == crc[1];
      if crcOn {
        var expected := UpdateCrc16(Zeros(16), buf[..]);
        CrcOneShot(buf[..]);
        if crc[0] as int * 0x100 + crc[1] as int != High(expected) as int * 0x100 + Low(expected) as int {
          card.Select();
          return false, k;
        }
      }
      ok := true;
    }

    /** `read_blocks` of one block: the image block the card's 32-bit seek reaches, as far as the image
        goes, and 0xff beyond its end. */
    method ReadBlock(block: nat, buf: array<byte>) returns (ok: bool)
      requires block < TWO32 && buf.Length == BLOCK_LEN
      requires card.Value().Valid() && !card.wr.active
      modifies card, buf
      ensures ok && buf[..] == ImageBytes(old(card.sd), Seek(block), BLOCK_LEN)
      ensures card.sd == old(card.sd) && card.Value().Valid() && card.Value().Quiet()
    {
      hide Commanded, Listened, Pending, Seek, AtData, ImageBytes;
      card.Select();
      ghost var s := card.Value();
      SendCommand(READ_SINGLE_BLOCK, block);
      ReadCommanded(s, block);
      ghost var c := card.Value();
      var rd, n := GetResponseR1();
      SkipPending(c, n);
      ghost var k;
      ok, k := CollectedData(buf);
      ReadReplies(s, block, n, k);
      card.Select();
    }

    /** The first loop of `get_data_response_busy`. */
    method AwaitDataResponse() returns (rd: byte, ghost k: nat)
      requires IgnoresOnes(card.Value())
      requires exists i :: 0 <= i < |Pending(card.Value())| && IsDataResponse(Pending(card.Value())[i])
      modifies card
      ensures First(Pending(old(card.Value())), k, IsDataResponse) && rd == Pending(old(card.Value()))[k - 1]
      ensures card.Value() == SkipResponse(old(card.Value()), k) && IgnoresOnes(card.Value())
      ensures Pending(card.Value()) == Pending(old(card.Value()))[k..]
    {
      hide Exchange, IsDataResponse;
      ghost var s := card.Value();
      ghost var p := Pending(s);
      k := 0;
      while true
        invariant k < |p| && IgnoresOnes(card.Value()) && exists i :: k <= i < |p| && IsDataResponse(p[i])
        invariant card.Value() == SkipResponse(s, k) && Pending(card.Value()) == p[k..]
        invariant forall i :: 0 <= i < k ==> !IsDataResponse(p[i])
        decreases |p| - k
      {
        ListenToResponse(card.Value());
        rd := Transfer(0xff);
        k := k + 1;
        DataResponseBits(rd);
        if rd as int % 2 == 1 && rd as int / 0x10 % 2 == 0 {
          return;
        }
      }
    }

    /** `wait_not_busy`. */
    method WaitNotBusy() returns (ghost k: nat)
      requires IgnoresOnes(card.Value())
      requires exists i :: 0 <= i < |Pending(card.Value())| && Pending(card.Value())[i] != 0
      modifies card
      ensures First(Pending(old(card.Value())), k, b => b != 0)
      ensures card.Value() == SkipResponse(old(card.Value()), k) && IgnoresOnes(card.Value())
    {
      hide Exchange;
      ghost var s := card.Value();
      ghost var p := Pending(s);
      k := 0;
      while true
        invariant k < |p| && IgnoresOnes(card.Value()) && exists i :: k <= i < |p| && p[i] != 0
        invariant card.Value() == SkipResponse(s, k) && Pending(card.Value()) == p[k..]
        invariant forall i :: 0 <= i < k ==> p[i] == 0
        decreases |p| - k
      {
        ListenToResponse(card.Value());
        var b := Transfer(0xff);
        k := k + 1;
        if b != 0 {
          return;
        }
      }
    }

    /** `write_blocks` of one block. */
    method WriteBlock(block: nat, data: seq<byte>) returns (ok: bool)
      requires block < TWO32 && |data| == BLOCK_LEN
      requires card.Value().Valid() && !card.wr.active
      modifies card
      ensures ok && card.sd == FileWrite(old(card.sd), Seek(block), data)
      ensures card.Value().Valid() && card.Value().Quiet()
    {
      hide Sent, FileWrite, Commanded, Pending, Exchange, DataIn, Seek, High, Low;
      var crc0: byte, crc1: byte := 0xff, 0xff;
      if crcOn {
        var crc := UpdateCrc16(Zeros(16), data);
        crc0, crc1 := High(crc), Low(crc);
      }
      card.Select();
      ghost var s := card.Value();
      SendCommand(WRITE_SINGLE_BLOCK, block);
      WriteCommanded(s, block);
      var r1, _ := GetResponseR1();
      BlockingWrite([0xfe]);
      BlockingWrite(data);
      BlockingWrite([crc0, crc1]);
      WriteTakesBlock(s, block, data, crc0, crc1);
      var rd, n := AwaitDataResponse();
      assert rd == 0xe5 && n == 1;
      var m := WaitNotBusy();
      ok := rd as int % 0x20 == 5;
      card.Select();
    }

    /** Writing any block and reading it back returns the same bytes with success, and changes no other
        byte of the image; beyond the image's end the image grows, with zeros in the gap. */
    method WriteThenRead(block: nat, data: seq<byte>, buf: array<byte>) returns (written: bool, read: bool)
      requires block < 0x80_0000 && |data| == BLOCK_LEN && buf.Length == BLOCK_LEN
      requires card.Value().Valid() && !card.wr.active
      modifies card, buf
      ensures written && read && buf[..] == data
      ensures var end := (block + 1) * BLOCK_LEN;
              |card.sd| == if end <= old(|card.sd|) then old(|card.sd|) else end
      ensures forall i :: 0 <= i < |card.sd| && !(block * BLOCK_LEN <= i < (block + 1) * BLOCK_LEN) ==>
                card.sd[i] == if i < old(|card.sd|) then old(card.sd)[i] else 0
    {
      hide FileWrite, Seek, ImageBytes;
      SeekIsBlockIff(block);
      written := WriteBlock(block, data);
      FileWritten(old(card.sd), block * BLOCK_LEN, data);
      ImageBytesWithin(card.sd, block * BLOCK_LEN, BLOCK_LEN);
      read := ReadBlock(block, buf);
    }
  }

  /** Where the card seeks for a block number: `address << 9` in 32 bits. */
  function Seek(block: nat): nat {
    (block * BLOCK_LEN) % TWO32
  }

  /** Block numbers are addressed as themselves exactly below 2^23; beyond that they alias. */
  lemma SeekIsBlockIff(block: nat)
    ensures Seek(block) == block * BLOCK_LEN <==> block < 0x80_0000
    ensures Seek(block) == Seek(block + 0x80_0000)
  {
  }

  /** What a write does to each byte of the image. */
  lemma FileWritten(sd: seq<byte>, pos: nat, data: seq<byte>)
    ensures var r := FileWrite(sd, pos, data);
            && r[pos..pos + |data|] == data
            && forall i :: 0 <= i < |r| && !(pos <= i < pos + |data|) ==> r[i] == if i < |sd| then sd[i] else 0
  {
  }

  lemma CrcOneShot(data: seq<byte>)
    ensures Crc16Bits(Zeros(16), Bits(data)) == Crc16(data)
  {
  }

  lemma SentOne(s: State, a: byte)
    requires s.Valid()
    ensures Sent(s, [a]) == Exchange(s, a).state
  {
    hide Exchange;
    assert [a][1..] == [];
  }

  lemma SentTwo(s: State, a: byte, b: byte)
    requires s.Valid()
    ensures Sent(s, [a, b]) == Exchange(Exchange(s, a).state, b).state
  {
    hide Exchange, Sent;
    assert [a, b] == [a] + [b];
    SentJoin(s, [a], [b]);
    SentOne(s, a);
    SentOne(Exchange(s, a).state, b);
  }

  /** Its lowest bit is set, and the bit above its four lowest is not. */
  predicate IsDataResponse(b: byte) {
    b as int % 0x20 in {1, 3, 5, 7, 9, 0xb, 0xd, 0xf}
  }

  lemma DataResponseBits(b: byte)
    ensures IsDataResponse(b) <==> b as int % 2 == 1 && b as int / 0x10 % 2 == 0
  {
    var r := b as int % 0x20;
    assert b as int % 2 == r % 2 && b as int / 0x10 % 2 == r / 0x10;
  }

  /** `k - 1` is the first index where `test` holds. */
  ghost predicate First(p: seq<byte>, k: nat, test: byte -> bool) {
    0 < k <= |p| && test(p[k - 1]) && forall i :: 0 <= i < k - 1 ==> !test(p[i])
  }

  datatype Heard = Heard(state: State, bytes: seq<byte>)

  /** The card's next `n` bytes while the line is held high. */
  function Listened(s: State, n: nat): (r: Heard)
    requires s.Valid()
    ensures r.state.Valid() && |r.bytes| == n
    decreases n
  {
    if n == 0 then Heard(s, [])
    else
      var e := Exchange(s, 0xff);
      var r := Listened(e.state, n - 1);
      Heard(r.state, [e.byte] + r.bytes)
  }

  ghost predicate HeardSoFar(goal: Heard, done: seq<byte>, rest: Heard) {
    goal == Heard(rest.state, done + rest.bytes)
  }

  lemma HeardNothing(goal: Heard)
    ensures HeardSoFar(goal, [], goal)
  {
    assert [] + goal.bytes == goal.bytes;
  }

  lemma HeardMore(goal: Heard, done: seq<byte>, s: State, n: nat)
    requires s.Valid() && n > 0 && HeardSoFar(goal, done, Listened(s, n))
    ensures var e := Exchange(s, 0xff);
            HeardSoFar(goal, done + [e.byte], Listened(e.state, n - 1))
  {
    hide Exchange;
    var e := Exchange(s, 0xff);
    var rest := Listened(e.state, n - 1).bytes;
    assert done + ([e.byte] + rest) == done + [e.byte] + rest;
  }

  lemma HeardAll(goal: Heard, done: seq<byte>, s: State)
    requires s.Valid() && HeardSoFar(goal, done, Listened(s, 0))
    ensures goal == Heard(s, done)
  {
    assert done + [] == done;
  }

  lemma SkipPending(s: State, n: nat)
    requires s.Valid() && n <= |Pending(s)|
    ensures SkipResponse(s, n).Valid() && Pending(SkipResponse(s, n)) == Pending(s)[n..]
  {
  }

  // ----- a read command ----------------------------------------------------------------------

  lemma ReadCommanded(s: State, block: nat)
    requires s.Valid() && s.Quiet() && block < TWO32
    ensures var t := Commanded(s, CMD_READ_SINGLE_BLOCK, block);
            && IgnoresOnes(t) && t.rsp.active && Pending(t) == [0, 0xfe] && t.rd.active && t.rd.bytes == 0
            && Pending(t)[0] < 0x80
            && !t.wr.active && t.cmd.code == CMD_READ_SINGLE_BLOCK && t.pos == Seek(block) && t.sd == s.sd
  {
    hide ArgumentBytes;
  }

  /** From `i` bytes on, the rest of the block. */
  lemma {:induction false} ListenFromData(s: State, i: nat)
    requires AtData(s) && 0 < i <= BLOCK_LEN
    ensures DataOut(s, i).Valid()
    ensures Listened(DataOut(s, i), BLOCK_LEN - i) ==
            Heard(DataOut(s, BLOCK_LEN), ImageBytes(s.sd, s.pos + i, BLOCK_LEN - i))
    decreases BLOCK_LEN - i
  {
    hide Exchange, Crc16, FilePos, ImageByte;
    if i < BLOCK_LEN {
      NextDataByte(s, i);
      ListenFromData(s, i + 1);
      ImageBytesFirst(s.sd, s.pos + i, BLOCK_LEN - i);
    }
  }

  lemma ImageBytesFirst(sd: seq<byte>, pos: nat, n: nat)
    requires n > 0
    ensures ImageBytes(sd, pos, n) == [ImageByte(sd, pos)] + ImageBytes(sd, pos + 1, n - 1)
  {
    hide ImageByte;
    forall i | 0 < i < n
      ensures ImageBytes(sd, pos, n)[i] == ImageBytes(sd, pos + 1, n - 1)[i - 1]
    {
      assert pos + i == pos + 1 + (i - 1);
    }
  }

  /** A read card sends its block and that block's CRC16. */
  lemma ListenToBlock(s: State)
    requires AtData(s)
    ensures var data := ImageBytes(s.sd, s.pos, BLOCK_LEN);
            var r := Listened(s, BLOCK_LEN);
            var c := Listened(r.state, 2);
            && r.bytes == data && c.bytes == [High(Crc16(data)), Low(Crc16(data))]
            && !c.state.wr.active && c.state.sd == s.sd
  {
    hide Exchange, Crc16, High, Low, DataOut, AtData, Listened, ImageByte, ImageBytes;
    AtDataBounds(s);
    FirstDataByte(s);
    ListenFromData(s, 1);
    ListenMore(s, BLOCK_LEN);
    ImageBytesFirst(s.sd, s.pos, BLOCK_LEN);
    CrcBytes(s);
    ListenTwo(DataOut(s, BLOCK_LEN));
    DataOutKeeps(s);
  }

  lemma AtDataBounds(s: State)
    requires AtData(s)
    ensures s.Valid()
  {
  }

  lemma DataOutKeeps(s: State)
    requires AtData(s)
    ensures DataOut(s, BLOCK_LEN).sd == s.sd && !DataOut(s, BLOCK_LEN).wr.active
  {
  }

  lemma ListenMore(s: State, n: nat)
    requires s.Valid() && n > 0
    ensures var e := Exchange(s, 0xff);
            var r := Listened(e.state, n - 1);
            Listened(s, n) == Heard(r.state, [e.byte] + r.bytes)
  {
    hide Exchange;
  }

  lemma ListenTwo(s: State)
    requires s.Valid()
    ensures var e := Exchange(s, 0xff);
            var d := Exchange(e.state, 0xff);
            Listened(s, 2) == Heard(d.state, [e.byte, d.byte])
  {
    hide Exchange, Listened;
    var e := Exchange(s, 0xff);
    var d := Exchange(e.state, 0xff);
    ListenMore(s, 2);
    ListenMore(e.state, 1);
    assert Listened(d.state, 0) == Heard(d.state, []) by { ListenNone(d.state); }
  }

  lemma ListenNone(s: State)
    requires s.Valid()
    ensures Listened(s, 0) == Heard(s, [])
  {
  }

  /** The replies to a read command, once its status and start token have gone by. */
  lemma ReadReplies(s: State, block: nat, n: nat, k: nat)
    requires s.Valid() && s.Quiet() && block < TWO32
    requires var c := Commanded(s, CMD_READ_SINGLE_BLOCK, block);
             && c.Valid() && First(Pending(c), n, b => b < 0x80)
             && SkipResponse(c, n).Valid() && First(Pending(SkipResponse(c, n)), k, b => b == 0xfe)
    ensures var t := SkipResponse(SkipResponse(Commanded(s, CMD_READ_SINGLE_BLOCK, block), n), k);
            && t.Valid()
            && var data := ImageBytes(s.sd, Seek(block), BLOCK_LEN);
               var r := Listened(t, BLOCK_LEN);
               var c := Listened(r.state, 2);
               && r.bytes == data && c.bytes == [High(Crc16(data)), Low(Crc16(data))]
               && !c.state.wr.active && c.state.sd == s.sd
  {
    hide Commanded, Crc16, High, Low, Listened, Seek, ImageBytes;
    ReadCommanded(s, block);
    var c := Commanded(s, CMD_READ_SINGLE_BLOCK, block);
    assert n == 1;
    SkipPending(c, 1);
    assert k == 1;
    SkipPending(SkipResponse(c, 1), 1);
    ListenToBlock(SkipResponse(SkipResponse(c, 1), 1));
  }

  // ----- a write command ---------------------------------------------------------------------

  lemma WriteCommanded(s: State, block: nat)
    requires s.Valid() && s.Quiet() && block < TWO32
    ensures var t := Commanded(s, CMD_WRITE_SINGLE_BLOCK, block);
            && IgnoresOnes(t) && t.rsp.active && Pending(t) == [0xfe] && !t.rd.active
            && !(exists i :: 0 <= i < |Pending(t)| && Pending(t)[i] < 0x80)
  {
    hide ArgumentBytes;
  }

  /** The card after the write command's response. */
  function WriteReady(s: State, block: nat): State
    requires s.Valid() && s.Quiet() && block < TWO32
    ensures WriteReady(s, block).Valid()
  {
    EndResponse(SkipResponse(Commanded(s, CMD_WRITE_SINGLE_BLOCK, block), 1))
  }

  /** Start token, data and CRC bytes leave the block in the image and a busy response. */
  lemma WriteTakesBlock(s: State, block: nat, data: seq<byte>, c0: byte, c1: byte)
    requires s.Valid() && s.Quiet() && block < TWO32 && |data| == BLOCK_LEN
    ensures var u := Sent(Sent(Sent(WriteReady(s, block), [0xfe]), data), [c0, c1]);
            && IgnoresOnes(u) && !u.wr.active && !u.rd.active && u.rsp.active
            && Pending(u) == [0xe5, 0, 0, 0, 0, 0, 0, 1] && Pending(u)[0] == 0xe5 && IsDataResponse(0xe5)
            && Pending(u)[1..][6] == 1
            && u.sd == FileWrite(s.sd, Seek(block), data)
  {
    hide Sent, FileWrite, Exchange, ArgumentBytes;
    var r := WriteReady(s, block);
    TakeStartToken(r, data);
    var t := Sent(r, [0xfe]);
    TakeData(t, r, data, 0);
    assert data[0..] == data;
    var d := Sent(t, data);
    DataInValid(d, r, data, BLOCK_LEN);
    SentTwo(d, c0, c1);
    TakeCrcBytes(d, r, data, c0, c1);
  }

  lemma TakeStartToken(s: State, data: seq<byte>)
    requires s.Valid() && |data| == BLOCK_LEN && s.wr.active && s.wr.state == StartToken && s.wr.bytes == 0
    requires !s.rsp.active && !s.rd.active
    ensures DataIn(Sent(s, [0xfe]), s, data, 0)
  {
    assert [0xfe][1..] == [];
  }

  lemma {:induction false} TakeData(t: State, s: State, data: seq<byte>, i: nat)
    requires i <= BLOCK_LEN && DataIn(t, s, data, i)
    ensures DataIn(Sent(t, data[i..]), s, data, BLOCK_LEN)
    decreases BLOCK_LEN - i
  {
    hide DataIn, Exchange;
    assert t.Valid() && |data| == BLOCK_LEN by { DataInValid(t, s, data, i); }
    if i < BLOCK_LEN {
      TakeDataByte(t, s, data, i);
      assert data[i..][1..] == data[i + 1..];
      TakeData(Exchange(t, data[i]).state, s, data, i + 1);
    }
  }

  lemma DataInValid(t: State, s: State, data: seq<byte>, i: nat)
    requires DataIn(t, s, data, i)
    ensures t.Valid() && |data| == BLOCK_LEN
  {
  }
}
