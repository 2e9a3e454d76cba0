/** The default control pipe: the legacy `usbdev.c` and the CHERI `usbdev-utils.hh` handlers of
    endpoint zero, and why they cannot be told apart. */
module UsbControl {
  import opened Words

  datatype CtrlState = Setup | StatusSetAddr | StatusGetDesc | StatusSetConfig

  /** Each implementation names its initial device state differently. */
  datatype LegacyDevState = LegacyReset | LegacyAddressed | LegacyConfigured
  datatype CheriDevState = CheriPowered | CheriAddressed | CheriConfigured

  const SET_ADDRESS: byte := 5
  const GET_DESCRIPTOR: byte := 6
  const SET_CONFIGURATION: byte := 9
  const TEST_CONFIG: byte := 0x7c
  const DESC_DEVICE: byte := 1
  const DESC_CONFIGURATION: byte := 2

  /** The three descriptors, by length. */
  datatype Descriptors = Descriptors(devLen: nat, cfgLen: nat, testLen: nat)

  /** What a handler puts on the IN endpoint: bytes of a descriptor, or an empty acknowledgement. */
  datatype Reply = NoReply | DeviceDesc(len: nat) | ConfigDesc(len: nat) | TestDesc(len: nat) | Ack | Stall

  datatype Legacy = Legacy(ctrl: CtrlState, dev: LegacyDevState, devAddr: nat, programmed: nat)
  datatype Cheri = Cheri(ctrl: CtrlState, dev: CheriDevState, devAddr: nat, programmed: nat)

  datatype LegacyStep = LegacyStep(next: Legacy, reply: Reply)
  datatype CheriStep = CheriStep(next: Cheri, reply: Reply)

  function Word(data: seq<byte>, i: nat): nat
    requires i + 2 <= |data|
  {
    data[i] as int + 0x100 * data[i + 1] as int
  }

  // ----- the legacy handlers -----------------------------------------------------------------

  /** `usbdev_ep0_recv`; lengths reach `usbdev_packet_send` through an eight-bit parameter. */
  function LegacyRecv(d: Descriptors, s: Legacy, setup: bool, data: seq<byte>): LegacyStep {
    if s.ctrl != Setup then LegacyStep(s.(ctrl := Setup), NoReply)
    else if !(setup && |data| == 8) then LegacyStep(s, NoReply)
    else
      var wValue, wLen := Word(data, 2), Word(data, 6);
      if data[1] == GET_DESCRIPTOR then
        if data[3] == DESC_DEVICE then
          LegacyStep(s.(ctrl := StatusGetDesc), DeviceDesc((if wLen > d.devLen then d.devLen else wLen) % 0x100))
        else if data[3] == DESC_CONFIGURATION then
          LegacyStep(s.(ctrl := StatusGetDesc), ConfigDesc((if wLen > d.cfgLen then d.cfgLen else wLen) % 0x100))
        else LegacyStep(s, Stall)
      else if data[1] == SET_ADDRESS then LegacyStep(s.(devAddr := wValue % 0x100, ctrl := StatusSetAddr), Ack)
      else if data[1] == SET_CONFIGURATION then LegacyStep(s.(ctrl := StatusSetConfig), Ack)
      else if data[1] == TEST_CONFIG then
        LegacyStep(s.(ctrl := StatusGetDesc), TestDesc((if wLen > d.testLen then d.testLen else wLen) % 0x100))
      else LegacyStep(s.(ctrl := Setup), NoReply)
  }

  /** `usbdev_ep0_sent`. */
  function LegacySent(s: Legacy): Legacy {
    match s.ctrl
    case StatusSetAddr => Legacy(Setup, LegacyAddressed, s.devAddr, s.devAddr)
    case StatusSetConfig => s.(ctrl := Setup, dev := LegacyConfigured)
    case _ => s.(ctrl := Setup)
  }

  // ----- the CHERI handlers ------------------------------------------------------------------

  /** `UsbdevUtils::ep0_recv`, given a buffer for the reply. */
  function CheriRecv(d: Descriptors, s: Cheri, setup: bool, data: seq<byte>): CheriStep {
    match s.ctrl
    case Setup =>
      if setup && |data| == 8 then
        var wValue, wLen := Word(data, 2), Word(data, 6);
        if data[1] == GET_DESCRIPTOR then
          if data[3] == DESC_DEVICE then
            CheriStep(s.(ctrl := StatusGetDesc), DeviceDesc((if wLen > d.devLen then d.devLen else wLen) % 0x100))
          else if data[3] == DESC_CONFIGURATION then
            CheriStep(s.(ctrl := StatusGetDesc), ConfigDesc((if wLen > d.cfgLen then d.cfgLen else wLen) % 0x100))
          else CheriStep(s, Stall)
        else if data[1] == SET_ADDRESS then CheriStep(s.(devAddr := wValue % 0x100, ctrl := StatusSetAddr), Ack)
        else if data[1] == SET_CONFIGURATION then CheriStep(s.(ctrl := StatusSetConfig), Ack)
        else if data[1] == TEST_CONFIG then
          CheriStep(s.(ctrl := StatusGetDesc), TestDesc((if wLen > d.testLen then d.testLen else wLen) % 0x100))
        else CheriStep(s.(ctrl := Setup), NoReply)
      else CheriStep(s, NoReply)
    case _ => CheriStep(s.(ctrl := Setup), NoReply)
  }

  /** `UsbdevUtils::ep0_sent`. */
  function CheriSent(s: Cheri): Cheri {
    if s.ctrl == StatusSetAddr then Cheri(Setup, CheriAddressed, s.devAddr, s.devAddr)
    else if s.ctrl == StatusSetConfig then s.(dev := CheriConfigured, ctrl := Setup)
    else s.(ctrl := Setup)
  }

  // ----- runs --------------------------------------------------------------------------------

  /** A packet received on endpoint zero, or its IN packet collected. */
  datatype Event = Received(setup: bool, data: seq<byte>) | Collected

  function LegacyRun(d: Descriptors, s: Legacy, events: seq<Event>): (r: (Legacy, seq<Reply>))
    decreases |events|
  {
    if events == [] then (s, [])
    else
      var step := if events[0].Received? then LegacyRecv(d, s, events[0].setup, events[0].data)
                  else LegacyStep(LegacySent(s), NoReply);
      var rest := LegacyRun(d, step.next, events[1..]);
      (rest.0, [step.reply] + rest.1)
  }

  function CheriRun(d: Descriptors, s: Cheri, events: seq<Event>): (r: (Cheri, seq<Reply>))
    decreases |events|
  {
    if events == [] then (s, [])
    else
      var step := if events[0].Received? then CheriRecv(d, s, events[0].setup, events[0].data)
                  else CheriStep(CheriSent(s), NoReply);
      var rest := CheriRun(d, step.next, events[1..]);
      (rest.0, [step.reply] + rest.1)
  }

  /** The device states that correspond. */
  predicate SameDev(l: LegacyDevState, c: CheriDevState) {
    match l
    case LegacyReset => c == CheriPowered
    case LegacyAddressed => c == CheriAddressed
    case LegacyConfigured => c == CheriConfigured
  }

  /** Corresponding states: the address in waiting matters only once it has been requested. */
  predicate Alike(l: Legacy, c: Cheri) {
    l.ctrl == c.ctrl && SameDev(l.dev, c.dev) && l.programmed == c.programmed
    && (l.ctrl == StatusSetAddr ==> l.devAddr == c.devAddr)
  }

  /** So they start. */
  lemma StartAlike(address: nat)
    ensures Alike(Legacy(Setup, LegacyReset, address, 0), Cheri(Setup, CheriPowered, address, 0))
  {
  }

  /** Any sequence of received packets and collected replies keeps the two implementations alike, and
      they answer every packet in the same way. */
  lemma {:induction false} ControlPipesAgree(d: Descriptors, l: Legacy, c: Cheri, events: seq<Event>)
    requires Alike(l, c)
    ensures Alike(LegacyRun(d, l, events).0, CheriRun(d, c, events).0)
    ensures LegacyRun(d, l, events).1 == CheriRun(d, c, events).1
    decreases |events|
  {
    if events != [] {
      if events[0].Received? {
        var setup, data := events[0].setup, events[0].data;
        ControlPipesAgree(d, LegacyRecv(d, l, setup, data).next, CheriRecv(d, c, setup, data).next, events[1..]);
      } else {
        ControlPipesAgree(d, LegacySent(l), CheriSent(c), events[1..]);
      }
    }
  }

  // ----- requests ----------------------------------------------------------------------------

  /** The eight bytes of a SETUP packet, words low byte first. */
  function SetupPacket(kind: byte, request: byte, value: u16, index: u16, length: u16): seq<byte> {
    [kind, request, value as int % 0x100, value as int / 0x100, index as int % 0x100, index as int / 0x100,
     length as int % 0x100, length as int / 0x100]
  }

  /** At most `length` bytes of a descriptor, as many as the eight-bit count can say. */
  function Part(length: u16, available: nat): nat {
    if length as int < available then length as int % 0x100 else available % 0x100
  }

  /** What a host gets for each standard request, by its numbers. */
  function Answer(d: Descriptors, request: byte, value: u16, length: u16): (CtrlState, Reply) {
    if request == 6 && 0x100 <= value as int < 0x200 then (StatusGetDesc, DeviceDesc(Part(length, d.devLen)))
    else if request == 6 && 0x200 <= value as int < 0x300 then (StatusGetDesc, ConfigDesc(Part(length, d.cfgLen)))
    else if request == 6 then (Setup, Stall)
    else if request == 5 then (StatusSetAddr, Ack)
    else if request == 9 then (StatusSetConfig, Ack)
    else if request == 0x7c then (StatusGetDesc, TestDesc(Part(length, d.testLen)))
    else (Setup, NoReply)
  }

  /** Every SETUP packet that arrives in the setup state is answered so, and only SET_ADDRESS notes an
      address. */
  lemma SetupIsAnswered(d: Descriptors, s: Legacy, kind: byte, request: byte, value: u16, index: u16, length: u16)
    requires s.ctrl == Setup
    ensures var r := LegacyRecv(d, s, true, SetupPacket(kind, request, value, index, length));
            var (ctrl, reply) := Answer(d, request, value, length);
            r == LegacyStep(s.(ctrl := ctrl, devAddr := if request == 5 then value as int % 0x100 else s.devAddr), reply)
  {
    hide Word;
    PacketWords(kind, request, value, index, length);
  }

  lemma PacketWords(kind: byte, request: byte, value: u16, index: u16, length: u16)
    ensures var p := SetupPacket(kind, request, value, index, length);
            && |p| == 8 && p[1] == request && Word(p, 2) == value as int && Word(p, 6) == length as int
            && p[3] as int == value as int / 0x100
  {
  }

  /** How a host brings a device up: part of the device descriptor, an address, the configuration
      descriptor and a configuration, each IN packet collected and each read closed by an empty packet. */
  function Enumeration(addr: byte, first: u16, length: u16, config: byte): seq<Event> {
    [Received(true, SetupPacket(0x80, 6, 0x100, 0, first)), Collected, Received(false, []),
     Received(true, SetupPacket(0, 5, addr, 0, 0)), Collected,
     Received(true, SetupPacket(0x80, 6, 0x200, 0, length)), Collected, Received(false, []),
     Received(true, SetupPacket(0, 9, config, 0, 0)), Collected]
  }

  function OneEvent(d: Descriptors, s: Legacy, e: Event): LegacyStep {
    if e.Received? then LegacyRecv(d, s, e.setup, e.data) else LegacyStep(LegacySent(s), NoReply)
  }

  lemma RunUnfolds(d: Descriptors, s: Legacy, events: seq<Event>)
    requires events != []
    ensures var step := OneEvent(d, s, events[0]);
            LegacyRun(d, s, events) ==
            (LegacyRun(d, step.next, events[1..]).0, [step.reply] + LegacyRun(d, step.next, events[1..]).1)
  {
    hide LegacyRecv, LegacySent;
  }

  /** A request, the collection of its reply and, after a read, the empty packet that closes it. */
  lemma RequestRuns(d: Descriptors, s: Legacy, kind: byte, request: byte, value: u16, length: u16, rest: seq<Event>)
    requires s.ctrl == Setup
    ensures var (ctrl, reply) := Answer(d, request, value, length);
            var r := LegacyRun(d, RequestDone(s, ctrl, if request == 5 then value as int % 0x100 else s.devAddr), rest);
            LegacyRun(d, s, [Received(true, SetupPacket(kind, request, value, 0, length)), Collected] + rest) ==
            (r.0, [reply, NoReply] + r.1)
  {
    hide LegacyRun, LegacyRecv, LegacySent, Answer, SetupPacket;
    SetupIsAnswered(d, s, kind, request, value, 0, length);
    var e := Received(true, SetupPacket(kind, request, value, 0, length));
    var events := [e, Collected] + rest;
    var step := OneEvent(d, s, e);
    RunUnfolds(d, s, events);
    assert events[1..] == [Collected] + rest;
    RunUnfolds(d, step.next, events[1..]);
    assert events[1..][1..] == rest;
    var (ctrl, reply) := Answer(d, request, value, length);
    SentIs(step.next);
    var r := LegacyRun(d, LegacySent(step.next), rest);
    assert [reply] + ([NoReply] + r.1) == [reply, NoReply] + r.1;
  }

  /** The state after the reply to a request is collected. */
  function RequestDone(s: Legacy, ctrl: CtrlState, addr: nat): Legacy {
    Legacy(Setup, if ctrl == StatusSetAddr then LegacyAddressed else if ctrl == StatusSetConfig then LegacyConfigured else s.dev,
           addr, if ctrl == StatusSetAddr then addr else s.programmed)
  }

  lemma SentIs(s: Legacy)
    ensures LegacySent(s) == RequestDone(s, s.ctrl, s.devAddr)
  {
  }

  lemma EmptyPacketRuns(d: Descriptors, s: Legacy, rest: seq<Event>)
    requires s.ctrl == Setup
    ensures var r := LegacyRun(d, s, rest);
            LegacyRun(d, s, [Received(false, [])] + rest) == (r.0, [NoReply] + r.1)
  {
    hide LegacyRun;
    var events := [Received(false, [])] + rest;
    assert events[1..] == rest;
    RunUnfolds(d, s, events);
  }

  /** Both implementations come up: the host gets what it asked for, and the device ends configured and
      at its address. */
  lemma EnumerationSucceeds(d: Descriptors, l: Legacy, c: Cheri, addr: byte, first: u16, length: u16, config: byte)
    requires l.ctrl == Setup && Alike(l, c) && d.devLen < 0x100 && d.cfgLen < 0x100
    ensures var replies := [DeviceDesc(Min(first, d.devLen)), NoReply, NoReply, Ack, NoReply,
                            ConfigDesc(Min(length, d.cfgLen)), NoReply, NoReply, Ack, NoReply];
            var events := Enumeration(addr, first, length, config);
            && LegacyRun(d, l, events).0 == Legacy(Setup, LegacyConfigured, addr, addr) && LegacyRun(d, l, events).1 == replies
            && CheriRun(d, c, events).1 == replies && CheriRun(d, c, events).0.ctrl == Setup
            && CheriRun(d, c, events).0.dev == CheriConfigured && CheriRun(d, c, events).0.programmed == addr as int
  {
    hide LegacyRun, CheriRun, SetupPacket, LegacyRecv, CheriRecv;
    ControlPipesAgree(d, l, c, Enumeration(addr, first, length, config));
    var e3 := [Received(true, SetupPacket(0, 9, config, 0, 0)), Collected] + [];
    var e2' := [Received(false, [])] + e3;
    var e2 := [Received(true, SetupPacket(0x80, 6, 0x200, 0, length)), Collected] + e2';
    var e1 := [Received(true, SetupPacket(0, 5, addr, 0, 0)), Collected] + e2;
    var e0' := [Received(false, [])] + e1;
    var e0 := [Received(true, SetupPacket(0x80, 6, 0x100, 0, first)), Collected] + e0';
    var s0 := RequestDone(l, StatusGetDesc, l.devAddr);
    var s1 := RequestDone(s0, StatusSetAddr, addr);
    var s2 := RequestDone(s1, StatusGetDesc, addr);
    var s3 := RequestDone(s2, StatusSetConfig, addr);
    assert e0 == Enumeration(addr, first, length, config);
    RequestRuns(d, l, 0x80, 6, 0x100, first, e0');
    EmptyPacketRuns(d, s0, e1);
    RequestRuns(d, s0, 0, 5, addr, 0, e2);
    RequestRuns(d, s1, 0x80, 6, 0x200, length, e2');
    EmptyPacketRuns(d, s2, e3);
    RequestRuns(d, s2, 0, 9, config, 0, []);
    assert LegacyRun(d, s3, []) == (s3, []) by { NothingRuns(d, s3); }
    assert LegacyRun(d, l, e0).0 == s3 == Legacy(Setup, LegacyConfigured, addr, addr);
    var r0, r1 := [DeviceDesc(Min(first, d.devLen)), NoReply], [ConfigDesc(Min(length, d.cfgLen)), NoReply];
    assert LegacyRun(d, l, e0).1 == r0 + ([NoReply] + ([Ack, NoReply] + (r1 + ([NoReply] + ([Ack, NoReply] + [])))));
    assert LegacyRun(d, l, e0).1 == [DeviceDesc(Min(first, d.devLen)), NoReply, NoReply, Ack, NoReply,
                                     ConfigDesc(Min(length, d.cfgLen)), NoReply, NoReply, Ack, NoReply];
  }

  lemma NothingRuns(d: Descriptors, s: Legacy)
    ensures LegacyRun(d, s, []) == (s, [])
  {
  }

  // ----- the device address ------------------------------------------------------------------

  /** A SET_ADDRESS request as a SETUP packet. */
  predicate IsSetAddress(e: Event) {
    e.Received? && e.setup && |e.data| == 8 && e.data[1] == SET_ADDRESS
  }

  function RequestedAddress(e: Event): nat
    requires IsSetAddress(e)
  {
    e.data[2] as int
  }

  /** `events[i]` is a SET_ADDRESS taken in the setup state, and `events[i + 1]` is the collection of its
      acknowledgement. */
  ghost predicate Completes(d: Descriptors, s: Legacy, events: seq<Event>, i: nat) {
    && i + 1 < |events| && IsSetAddress(events[i]) && events[i + 1].Collected?
    && LegacyRun(d, s, events[..i]).0.ctrl == Setup
  }

  lemma {:induction false} RunJoin(d: Descriptors, s: Legacy, a: seq<Event>, b: seq<Event>)
    ensures LegacyRun(d, s, a + b).0 == LegacyRun(d, LegacyRun(d, s, a).0, b).0
    decreases |a|
  {
    hide LegacyRecv, LegacySent;
    if a == [] {
      assert a + b == b;
    } else {
      assert (a + b)[1..] == a[1..] + b;
      var step := if a[0].Received? then LegacyRecv(d, s, a[0].setup, a[0].data) else LegacyStep(LegacySent(s), NoReply);
      RunJoin(d, step.next, a[1..], b);
    }
  }

  lemma RunSnoc(d: Descriptors, s: Legacy, events: seq<Event>)
    requires events != []
    ensures var before := LegacyRun(d, s, events[..|events| - 1]).0;
            var e := events[|events| - 1];
            LegacyRun(d, s, events).0 == if e.Received? then LegacyRecv(d, before, e.setup, e.data).next else LegacySent(before)
  {
    hide LegacyRecv, LegacySent;
    var n := |events| - 1;
    assert events == events[..n] + [events[n]];
    RunJoin(d, s, events[..n], [events[n]]);
    assert [events[n]][1..] == [];
  }

  /** Waiting for the acknowledgement of an address means that the last packet asked for it. */
  lemma WaitingForAddress(d: Descriptors, s: Legacy, events: seq<Event>)
    requires s.ctrl != StatusSetAddr && LegacyRun(d, s, events).0.ctrl == StatusSetAddr
    ensures events != []
    ensures var n := |events| - 1;
            && IsSetAddress(events[n]) && LegacyRun(d, s, events[..n]).0.ctrl == Setup
            && LegacyRun(d, s, events).0.devAddr == RequestedAddress(events[n])
  {
    assert events != [];
    RunSnoc(d, s, events);
  }

  /** The last completed SET_ADDRESS of the run. */
  ghost predicate LastCompleted(d: Descriptors, s: Legacy, events: seq<Event>, i: nat) {
    Completes(d, s, events, i) && forall j: nat :: i < j ==> !Completes(d, s, events, j)
  }

  /** The programmed address is the one requested by the last completed SET_ADDRESS, and the initial
      one before that: it changes only when the acknowledging packet is collected. */
  lemma {:induction false} ProgrammedAddress(d: Descriptors, s: Legacy, events: seq<Event>)
    requires s.ctrl != StatusSetAddr
    ensures var r := LegacyRun(d, s, events).0.programmed;
            || (r == s.programmed && forall i: nat :: !Completes(d, s, events, i))
            || (exists i: nat :: LastCompleted(d, s, events, i) && r == RequestedAddress(events[i]))
    decreases |events|
  {
    hide LegacyRun, LegacyRecv, LegacySent;
    if events == [] {
      NoneCompletes(d, s);
    } else {
      var n := |events| - 1;
      var init := events[..n];
      var before := LegacyRun(d, s, init).0;
      RunSnoc(d, s, events);
      ProgrammedStep(d, before, events[n]);
      if events[n].Collected? && before.ctrl == StatusSetAddr {
        WaitingForAddress(d, s, init);
        LastCompletes(d, s, events);
      } else {
        LastDoesNotComplete(d, s, events);
        PrefixCompletes(d, s, events);
        ProgrammedAddress(d, s, init);
        if exists i: nat :: LastCompleted(d, s, init, i) && before.programmed == RequestedAddress(init[i]) {
          var i: nat :| LastCompleted(d, s, init, i) && before.programmed == RequestedAddress(init[i]);
          assert LastCompleted(d, s, events, i);
        }
      }
    }
  }

  lemma NoneCompletes(d: Descriptors, s: Legacy)
    ensures LegacyRun(d, s, []).0 == s && forall i: nat :: !Completes(d, s, [], i)
  {
  }

  /** Only a collected acknowledgement programs an address. */
  lemma ProgrammedStep(d: Descriptors, s: Legacy, e: Event)
    ensures (if e.Received? then LegacyRecv(d, s, e.setup, e.data).next else LegacySent(s)).programmed ==
            if e.Collected? && s.ctrl == StatusSetAddr then s.devAddr else s.programmed
  {
  }

  lemma LastCompletes(d: Descriptors, s: Legacy, events: seq<Event>)
    requires |events| >= 2 && events[|events| - 1].Collected? && IsSetAddress(events[|events| - 2])
    requires LegacyRun(d, s, events[..|events| - 1][..|events| - 2]).0.ctrl == Setup
    ensures LastCompleted(d, s, events, |events| - 2)
  {
    hide LegacyRun;
    var n := |events| - 1;
    assert events[..n][..n - 1] == events[..n - 1];
  }

  lemma PrefixCompletes(d: Descriptors, s: Legacy, events: seq<Event>)
    requires events != []
    ensures var init := events[..|events| - 1];
            forall i: nat :: i + 2 < |events| ==> (Completes(d, s, events, i) <==> Completes(d, s, init, i))
  {
    hide LegacyRun;
    var init := events[..|events| - 1];
    forall i: nat | i + 2 < |events|
      ensures Completes(d, s, events, i) <==> Completes(d, s, init, i)
    {
      assert events[..i] == init[..i];
    }
  }

  /** Otherwise the last event completes nothing. */
  lemma LastDoesNotComplete(d: Descriptors, s: Legacy, events: seq<Event>)
    requires events != []
    requires var n := |events| - 1;
             !(events[n].Collected? && LegacyRun(d, s, events[..n]).0.ctrl == StatusSetAddr)
    ensures forall i: nat :: i + 2 >= |events| ==> !Completes(d, s, events, i)
  {
    var n := |events| - 1;
    if n > 0 {
      var init := events[..n];
      RunSnoc(d, s, init);
      assert init[..n - 1] == events[..n - 1];
    }
  }
}
