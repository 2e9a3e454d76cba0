/** Bringing the simulated card up, and reading its two registers. */
module SdInit {
  import opened Words
  import opened Crc
  import opened MicroSd
  import opened SdDriver

  // ----- commands and short responses --------------------------------------------------------

  /** What each command of the initialisation is answered with, by its number. */
  function Answer(code: nat): seq<byte> {
    if code == 0 then [1]
    else if code == 8 || code == 58 then [0, 0, 0, 0, 0]
    else if code == 16 || code == 41 || code == 55 then [0]
    else [5]
  }

  predicate ShortAnswer(code: nat) {
    code < 0x40 && code !in {9, 10, 12, 17, 18, 24, 25}
  }

  /** The same card but for its command and response. */
  predicate SameCard(t: State, s: State) {
    t == s.(cmd := t.cmd, rsp := t.rsp)
  }

  lemma ShortCommanded(s: State, code: nat, arg: nat)
    requires s.Valid() && s.Quiet() && arg < TWO32 && ShortAnswer(code)
    ensures var t := Commanded(s, code, arg);
            && IgnoresOnes(t) && t.rsp == Response(true, Answer(code), 0) && SameCard(t, s)
            && Pending(t) == Answer(code) && Answer(code) != [] && Answer(code)[0] < 0x80
  {
    hide ArgumentBytes;
    assert Answer(code)[0..] == Answer(code);
  }

  /** A command with a one-byte response. */
  method Command1(port: SdCard, code: nat, arg: nat) returns (rd: byte)
    requires Answered(port.card.Value()) && arg < TWO32 && ShortAnswer(code) && |Answer(code)| == 1
    modifies port.card
    ensures rd == Answer(code)[0] && Answered(port.card.Value()) && SameCard(port.card.Value(), old(port.card.Value()))
  {
    hide Commanded, Answer;
    ghost var s := port.card.Value();
    EndedIsSame(s);
    port.SendCommand(code, arg);
    ShortCommanded(EndResponse(s), code, arg);
    ghost var skipped;
    rd, skipped := port.GetResponseR1();
  }

  lemma EndedIsSame(s: State)
    requires Answered(s)
    ensures EndResponse(s).Valid() && EndResponse(s).Quiet() && SameCard(EndResponse(s), s)
  {
  }

  /** A command with a five-byte response, `get_response_R3`. */
  method Command3(port: SdCard, code: nat, arg: nat)
    requires Answered(port.card.Value()) && arg < TWO32 && ShortAnswer(code) && |Answer(code)| == 5
    modifies port.card
    ensures Answered(port.card.Value()) && SameCard(port.card.Value(), old(port.card.Value()))
  {
    hide Commanded, Answer, Exchange;
    ghost var s := port.card.Value();
    EndedIsSame(s);
    port.SendCommand(code, arg);
    ShortCommanded(EndResponse(s), code, arg);
    ghost var t := port.card.Value();
    var rd, _ := port.GetResponseR1();
    var r := 0;
    while r < 4
      invariant 0 <= r <= 4 && IgnoresOnes(port.card.Value()) && port.card.Value() == SkipResponse(t, 1 + r)
    {
      ListenToResponse(port.card.Value());
      rd := port.Transfer(0xff);
      r := r + 1;
    }
  }

  // ----- initialisation ----------------------------------------------------------------------

  lemma InitAnswers()
    ensures Answer(0) == [1] && Answer(59) == [5] && Answer(55) == [0] && Answer(41) == [0] && Answer(16) == [0]
    ensures |Answer(8)| == 5 && |Answer(58)| == 5
    ensures ShortAnswer(0) && ShortAnswer(8) && ShortAnswer(59) && ShortAnswer(58)
    ensures ShortAnswer(55) && ShortAnswer(41) && ShortAnswer(16)
  {
  }

  /** `init`: every polling loop ends, and the card's image, registers and file position are as they were. */
  method Init(port: SdCard) returns (ok: bool)
    requires port.card.Value().Valid() && !port.card.wr.active
    modifies port.card
    ensures ok && port.card.Value().Valid() && port.card.Value().Quiet()
    ensures port.card.sd == old(port.card.sd) && port.card.pos == old(port.card.pos)
  {
    hide Commanded, Answer, ShortAnswer;
    InitAnswers();
    port.card.Select();
    ghost var s := port.card.Value();
    var rd: byte := 0;
    while rd != 0x01
      invariant Answered(port.card.Value()) && SameCard(port.card.Value(), s) && (rd == 0 || rd == 0x01)
      decreases rd != 0x01
    {
      rd := Command1(port, 0, 0);
    }
    Command3(port, 8, 0x1aa);
    rd := Command1(port, 59, if port.crcOn then 1 else 0);
    Command3(port, 58, 0);
    rd := 1;
    while rd % 2 == 1
      invariant Answered(port.card.Value()) && SameCard(port.card.Value(), s)
      decreases rd % 2 == 1
    {
      rd := Command1(port, 55, 0);
      rd := Command1(port, 41, 0x4000_0000);
    }
    Command3(port, 58, 0);
    rd := Command1(port, 16, 512);
    port.card.Select();
    ok := true;
  }

  // ----- the registers -----------------------------------------------------------------------

  const REGISTER_LEN: nat := 16

  /** Card-specific data for command 9, card identification for command 10. */
  function Register(s: State): seq<byte> {
    if s.cmd.code == 9 then s.csd else s.cid
  }

  ghost predicate AtRegister(s: State) {
    && IgnoresOnes(s) && !s.wr.active && s.rsp.active && s.rsp.sent >= |s.rsp.data| && s.rd.active && s.rd.bytes == 0
    && (s.cmd.code == 9 || s.cmd.code == 10)
  }

  /** With `i` register bytes out. */
  function RegisterOut(s: State, i: nat): State
    requires i <= |Register(s)|
  {
    s.(rsp := s.rsp.(active := false),
       rd := Reading(true, if i == REGISTER_LEN then Crc0 else DataBytes, i, Crc16(Register(s)[..i])))
  }

  lemma RegisterStep(s: State, i: nat)
    requires AtRegister(s) && i < REGISTER_LEN
    ensures var t := s.(rsp := s.rsp.(active := false), rd := Reading(true, DataBytes, i, Crc16(Register(s)[..i])));
            t.Valid() && ReadPhase(t) == Reply(RegisterOut(s, i + 1), Some(Register(s)[i]))
  {
    hide Crc16, RunningCrc;
    var reg := Register(s);
    assert reg[..i + 1] == reg[..i] + [reg[i]];
    assert Crc16(reg[..i] + [reg[i]]) == RunningCrc(Crc16(reg[..i]), reg[i]) by {
      Crc16Extends(reg[..i], reg[i]);
      RunningIsBits(Crc16(reg[..i]), reg[i]);
    }
  }

  lemma FirstRegisterByte(s: State)
    requires AtRegister(s)
    ensures Exchange(s, 0xff) == Exchanged(RegisterOut(s, 1), Register(s)[0])
  {
    hide Crc16, ReadPhase;
    ListenIsRead(s);
    RegisterStep(s, 0);
    assert Register(s)[..0] == [];
    Crc16OfNothing();
  }

  lemma NextRegisterByte(s: State, i: nat)
    requires AtRegister(s) && 0 < i < REGISTER_LEN
    ensures RegisterOut(s, i).Valid()
    ensures Exchange(RegisterOut(s, i), 0xff) == Exchanged(RegisterOut(s, i + 1), Register(s)[i])
  {
    hide Crc16, ReadPhase;
    ListenIsRead(RegisterOut(s, i));
    RegisterStep(s, i);
  }

  lemma {:induction false} ListenFromRegister(s: State, i: nat)
    requires AtRegister(s) && 0 < i <= REGISTER_LEN
    ensures RegisterOut(s, i).Valid()
    ensures Listened(RegisterOut(s, i), REGISTER_LEN - i) == Heard(RegisterOut(s, REGISTER_LEN), Register(s)[i..])
    decreases REGISTER_LEN - i
  {
    hide Exchange, Crc16;
    if i < REGISTER_LEN {
      NextRegisterByte(s, i);
      ListenFromRegister(s, i + 1);
      assert Register(s)[i..] == [Register(s)[i]] + Register(s)[i + 1..];
    }
  }

  /** The card sends the register and its CRC16. */
  lemma ListenToRegister(s: State)
    requires AtRegister(s)
    ensures var r := Listened(s, REGISTER_LEN);
            var c := Listened(r.state, 2);
            && r.bytes == Register(s) && c.bytes == [High(Crc16(Register(s))), Low(Crc16(Register(s)))]
            && !c.state.wr.active && c.state.sd == s.sd
  {
    hide Exchange, Crc16, High, Low, Listened, ReadPhase;
    FirstRegisterByte(s);
    ListenFromRegister(s, 1);
    ListenMore(s, REGISTER_LEN);
    assert Register(s) == [Register(s)[0]] + Register(s)[1..];
    RegisterCrc(s);
    ListenTwo(RegisterOut(s, REGISTER_LEN));
  }

  lemma RegisterCrc(s: State)
    requires AtRegister(s)
    ensures var crc := Crc16(Register(s));
            var t := RegisterOut(s, REGISTER_LEN);
            var u := t.(rd := t.rd.(state := Crc1));
            && t.Valid() && Exchange(t, 0xff) == Exchanged(u, High(crc))
            && u.Valid() && Exchange(u, 0xff) == Exchanged(t.(rd := Reading(true, DataBytes, 0, crc)), Low(crc))
  {
    hide Crc16, High, Low;
    var t := RegisterOut(s, REGISTER_LEN);
    assert Register(s)[..REGISTER_LEN] == Register(s);
    ListenIsRead(t);
    ListenIsRead(t.(rd := t.rd.(state := Crc1)));
  }

  lemma RegisterCommanded(s: State, code: nat)
    requires s.Valid() && s.Quiet() && (code == 9 || code == 10)
    ensures var t := Commanded(s, code, 0);
            && IgnoresOnes(t) && t.rsp == Response(true, [0, 0xfe], 0) && t.rd.active && t.rd.bytes == 0 && !t.wr.active
            && t.cmd.code == code && t.sd == s.sd && t.cid == s.cid && t.csd == s.csd && Pending(t) == [0, 0xfe]
  {
    hide ArgumentBytes;
  }

  /** `read_cid_csd`: the sixteen bytes of the register asked for, with success, and the card otherwise as
      it was. */
  method ReadRegister(port: SdCard, csd: bool, buf: array<byte>) returns (ok: bool)
    requires port.card.Value().Valid() && !port.card.wr.active && buf.Length == REGISTER_LEN
    modifies port.card, buf
    ensures ok && buf[..] == (if csd then port.card.csd else port.card.cid)
    ensures port.card.sd == old(port.card.sd) && port.card.Value().Valid() && port.card.Value().Quiet()
  {
    hide Commanded, Listened, Pending, Crc16, High, Low, Register;
    port.card.Select();
    ghost var s := port.card.Value();
    var code := if csd then 9 else 10;
    port.SendCommand(code, 0);
    RegisterCommanded(s, code);
    ghost var c := port.card.Value();
    assert Pending(c)[0] < 0x80;
    var rd, n := port.GetResponseR1();
    SkipPending(c, 1);
    ghost var k;
    ok, k := port.CollectedData(buf);
    assert k == 1;
    ghost var t := SkipResponse(SkipResponse(c, 1), 1);
    ListenToRegister(t);
    RegisterIs(t, csd);
    port.card.Select();
  }

  lemma RegisterIs(t: State, csd: bool)
    requires t.cmd.code == if csd then 9 else 10
    ensures Register(t) == if csd then t.csd else t.cid
  {
  }
}
