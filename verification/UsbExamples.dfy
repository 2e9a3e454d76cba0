/** Runs on which a packet buffer is lost, or is free and waiting for the host at once. */
module UsbExamples {
  import opened Words
  import opened UsbControl
  import opened UsbBuffers
  import opened UsbRuns

  // ----- the window inside `usbdev_service` --------------------------------------------------

  /** The host collects the packet of endpoint zero after IN_SENT was read and before a reply is sent:
      the collected packet's buffer is lost, and the next service call frees the reply's buffer while
      the reply still waits for the host. */
  lemma WindowBreaksOwnership(g: Config, u: Usb)
    requires Inv(u) && |u.ins| == MAX_ENDPOINTS && u.ins[0].rdy && !u.ins[0].sent && WillReply(g, u)
    ensures var v := Run(g, u, [HostCollects(0), Receiving(false)]);
            && !Inv(v) && Places(v, u.ins[0].buf) == 0 && u.ins[0].buf < NUM_BUFFERS
            && v.ins[0].rdy && v.ins[0].sent && v.ins[0].buf == u.rx[0].buf
            && Places(ServiceSent(v, 0), u.rx[0].buf) == 2
  {
    hide Inv, InHand, LegacyRecv, LegacySent, Places, Perform;
    var u1 := Perform(g, u, HostCollects(0));
    Collected(g, u);
    assert [HostCollects(0), Receiving(false)][1..] == [Receiving(false)];
    RunOne(g, u1, Receiving(false));
    var p := u1.rx[0];
    var popped := u1.(rx := u1.rx[1..]);
    var step := LegacyRecv(g.descs, u1.ctrl, p.setup, p.data);
    StepKeepsIff(g, u, HostCollects(0));
    ReceiveTakesInHand(u1);
    ControlIsNoPlace(popped, step.next, p.buf);
    var taken := popped.(ctrl := step.next);
    Receives(g, u1);
    SentIsLost(taken, p.buf);
  }

  lemma Collected(g: Config, u: Usb)
    requires Inv(u) && |u.ins| == MAX_ENDPOINTS && u.ins[0].rdy
    ensures Perform(g, u, HostCollects(0)) == u.(ins := u.ins[0 := u.ins[0].(rdy := false, sent := true)])
  {
    hide Places;
    assert u.ins[0].OneFlag();
  }

  lemma Receives(g: Config, u: Usb)
    requires |u.ins| == MAX_ENDPOINTS && WillReply(g, u)
    ensures var p := u.rx[0];
            var step := LegacyRecv(g.descs, u.ctrl, p.setup, p.data);
            Perform(g, u, Receiving(false)) == PacketSend(u.(rx := u.rx[1..], ctrl := step.next), 0, p.buf, false)
  {
    hide LegacyRecv, PacketSend;
  }

  /** A packet sent over one that was collected and not serviced. */
  lemma SentIsLost(u: Usb, buf: nat)
    requires InHand(u, buf) && |u.ins| == MAX_ENDPOINTS && u.ins[0].sent
    ensures var v := PacketSend(u, 0, buf, false);
            && !Inv(v) && Places(v, u.ins[0].buf) == 0 && u.ins[0].buf < NUM_BUFFERS
            && v.ins[0].rdy && v.ins[0].sent && v.ins[0].buf == buf
            && Places(ServiceSent(v, 0), buf) == 2
  {
    hide FifoCount, RxCount, InCount, LegacySent;
    var reg, v := u.ins[0], PacketSend(u, 0, buf, false);
    var w := ServiceSent(v, 0);
    assert reg.OneFlag();
    InCountMember(u.ins, 0);
    assert Places(u, reg.buf) + One(reg.buf == buf) == One(reg.buf < NUM_BUFFERS);
    assert Places(u, buf) + One(buf == buf) == One(buf < NUM_BUFFERS);
    InCountUpdate(u.ins, 0, v.ins[0], buf);
    InCountUpdate(u.ins, 0, v.ins[0], reg.buf);
    InCountUpdate(v.ins, 0, w.ins[0], buf);
  }

  // ----- from initialisation -----------------------------------------------------------------

  const CONFIG := Config(4, 8, Descriptors(18, 32, 16))
  const POWERED := Legacy(Setup, LegacyReset, 0, 0)

  /** A request for the device descriptor. */
  const GET_DEVICE: seq<byte> := [0x80, 6, 0, 1, 0, 0, 64, 0]

  /** The host has sent three requests when the driver answers the first, takes the second for the end of
      the first, and then has its reply collected just between the phases of `usbdev_service`. */
  const WINDOW_RUN: seq<Action> := [
    Supplying(true), Supplying(true), Supplying(true),
    HostPacket(true, 0, GET_DEVICE), HostPacket(true, 0, GET_DEVICE), HostPacket(true, 0, GET_DEVICE),
    Receiving(false), Receiving(false), Sending, HostCollects(0), Receiving(false)]

  lemma NothingSent(u: Usb, ep: nat)
    requires |u.ins| == MAX_ENDPOINTS && ep <= MAX_ENDPOINTS && forall e :: 0 <= e < MAX_ENDPOINTS ==> !u.ins[e].sent
    ensures ServiceSending(u, ep) == u
    decreases MAX_ENDPOINTS - ep
  {
  }

  /** One more action of a run. */
  lemma RunStep(g: Config, u: Usb, actions: seq<Action>, k: nat)
    requires |u.ins| == MAX_ENDPOINTS && k < |actions|
    ensures Run(g, u, actions[..k + 1]) == Perform(g, Run(g, u, actions[..k]), actions[k])
  {
    hide Perform;
    assert actions[..k + 1] == actions[..k] + [actions[k]];
    RunConcat(g, u, actions[..k], [actions[k]]);
    RunOne(g, Run(g, u, actions[..k]), actions[k]);
  }

  /** What matters of the state during the run: some buffers wait for SETUP packets, nothing is sent or
      withdrawn, and endpoint zero has a packet or not. */
  ghost predicate At(u: Usb, setups: nat, received: nat, ctrl: CtrlState, waiting: bool) {
    && Inv(u) && |u.ins| == MAX_ENDPOINTS && |u.setupFifo| == setups && u.ctrl.ctrl == ctrl && u.ins[0].rdy == waiting
    && (forall ep :: 0 <= ep < MAX_ENDPOINTS ==> !u.ins[ep].sent && !u.ins[ep].pend)
    && |u.rx| == received && forall i :: 0 <= i < received ==> u.rx[i].ep == 0 && u.rx[i].setup && u.rx[i].data == GET_DEVICE
  }

  lemma SuppliesOne(u: Usb, n: nat)
    requires At(u, n, 0, Setup, false) && n < 3 && u.free != {} && (forall x :: x in u.free ==> x < NUM_BUFFERS)
    ensures At(Perform(CONFIG, u, Supplying(true)), n + 1, 0, Setup, false)
    ensures forall x :: x in u.free && x != Lowest(u.free, 0).value ==> x in Perform(CONFIG, u, Supplying(true)).free
    ensures forall x :: x in Perform(CONFIG, u, Supplying(true)).free ==> x in u.free
    ensures Lowest(u.free, 0).Some?
  {
    hide Inv;
    StepKeepsIff(CONFIG, u, Supplying(true));
    var x :| x in u.free;
  }

  lemma HostAsks(u: Usb, n: nat, k: nat)
    requires At(u, n, k, Setup, false) && n > 0
    ensures At(Perform(CONFIG, u, HostPacket(true, 0, GET_DEVICE)), n - 1, k + 1, Setup, false)
  {
    hide Inv;
    StepKeepsIff(CONFIG, u, HostPacket(true, 0, GET_DEVICE));
  }

  lemma DriverReplies(u: Usb, k: nat)
    requires At(u, 0, k, Setup, false) && k > 0
    ensures At(Perform(CONFIG, u, Receiving(false)), 0, k - 1, StatusGetDesc, true)
  {
    hide Inv;
    assert WillReply(CONFIG, u);
    StepKeepsIff(CONFIG, u, Receiving(false));
  }

  lemma DriverStartsOver(u: Usb, k: nat)
    requires At(u, 0, k, StatusGetDesc, true) && k > 0
    ensures At(Perform(CONFIG, u, Receiving(false)), 0, k - 1, Setup, true)
  {
    hide Inv, Release;
    assert !WillReply(CONFIG, u);
    StepKeepsIff(CONFIG, u, Receiving(false));
  }

  lemma InitialAt()
    ensures At(Initial(POWERED), 0, 0, Setup, false)
  {
    hide Inv, AllFree;
    InitialInv(POWERED);
  }

  /** A state with three buffers waiting for SETUP packets. */
  lemma ThreeSupplied()
    ensures At(Run(CONFIG, Initial(POWERED), WINDOW_RUN[..3]), 3, 0, Setup, false)
  {
    hide At, Perform, Initial, Run, Lowest;
    var u0 := Initial(POWERED);
    InitialAt();
    InitialFree();
    assert WINDOW_RUN[..0] == [];
    RunNothing(CONFIG, u0);
    RunStep(CONFIG, u0, WINDOW_RUN, 0);
    assert 0 in u0.free;
    SuppliesOne(u0, 0);
    var u1 := Run(CONFIG, u0, WINDOW_RUN[..1]);
    var x1 := Lowest(u0.free, 0).value;
    assert (if x1 == 0 then 1 else 0) in u1.free;
    RunStep(CONFIG, u0, WINDOW_RUN, 1);
    SuppliesOne(u1, 1);
    var u2 := Run(CONFIG, u0, WINDOW_RUN[..2]);
    assert 2 in u2.free || 3 in u2.free || 4 in u2.free;
    RunStep(CONFIG, u0, WINDOW_RUN, 2);
    SuppliesOne(u2, 2);
  }

  lemma InitialFree()
    ensures |Initial(POWERED).ins| == MAX_ENDPOINTS && forall x: nat :: x in Initial(POWERED).free <==> x < NUM_BUFFERS
  {
    hide AllFree;
  }

  /** From initialisation, a run through the window after which a buffer is lost. */
  lemma WindowRunBreaksOwnership()
    ensures |Initial(POWERED).ins| == MAX_ENDPOINTS
    ensures !Inv(Run(CONFIG, Initial(POWERED), WINDOW_RUN))
  {
    hide At, Perform, Initial, Inv;
    InitialFree();
    var g, u0 := CONFIG, Initial(POWERED);
    ThreeSupplied();
    RunStep(g, u0, WINDOW_RUN, 3);
    HostAsks(Run(g, u0, WINDOW_RUN[..3]), 3, 0);
    RunStep(g, u0, WINDOW_RUN, 4);
    HostAsks(Run(g, u0, WINDOW_RUN[..4]), 2, 1);
    RunStep(g, u0, WINDOW_RUN, 5);
    HostAsks(Run(g, u0, WINDOW_RUN[..5]), 1, 2);
    RunStep(g, u0, WINDOW_RUN, 6);
    DriverReplies(Run(g, u0, WINDOW_RUN[..6]), 3);
    RunStep(g, u0, WINDOW_RUN, 7);
    DriverStartsOver(Run(g, u0, WINDOW_RUN[..7]), 2);
    RunStep(g, u0, WINDOW_RUN, 8);
    SendsNothing(Run(g, u0, WINDOW_RUN[..8]));
    var u9 := Run(g, u0, WINDOW_RUN[..9]);
    AtWindow(u9);
    WindowBreaksOwnership(g, u9);
    assert WINDOW_RUN == WINDOW_RUN[..9] + [HostCollects(0), Receiving(false)];
    RunConcat(g, u0, WINDOW_RUN[..9], [HostCollects(0), Receiving(false)]);
  }

  lemma SendsNothing(u: Usb)
    requires At(u, 0, 1, Setup, true)
    ensures At(Perform(CONFIG, u, Sending), 0, 1, Setup, true)
  {
    hide Inv, ServiceSending;
    NothingSent(u, 0);
  }

  lemma AtWindow(u: Usb)
    requires At(u, 0, 1, Setup, true)
    ensures Inv(u) && |u.ins| == MAX_ENDPOINTS && u.ins[0].rdy && !u.ins[0].sent && WillReply(CONFIG, u)
  {
    hide Inv;
  }

  // ----- the application's packets -----------------------------------------------------------

  /** A packet is withdrawn by the hardware, and another is sent to its endpoint. */
  const WITHDRAWN_RUN: seq<Action> := [Alloc, Send(1, 0, false), HardwareCancels(1), Alloc, Send(1, 1, false)]

  /** A waiting packet is replaced just as the host collects it. */
  const OVERTAKEN_RUN: seq<Action> := [Alloc, Send(1, 0, false), Alloc, Send(1, 1, true)]

  /** Buffer 0 waits at endpoint 1, and the others are free. */
  ghost predicate Waits(u: Usb) {
    && Inv(u) && |u.ins| == MAX_ENDPOINTS && u.held == {} && u.ins[1] == InReg(0, true, false, false)
    && forall x: nat :: x in u.free <==> 0 < x < NUM_BUFFERS
  }

  lemma FirstPacketWaits()
    ensures |Initial(POWERED).ins| == MAX_ENDPOINTS
    ensures Waits(Run(CONFIG, Initial(POWERED), [Alloc, Send(1, 0, false)]))
  {
    hide Inv, Run, Perform, Initial, Waits, Lowest;
    var u0, actions := Initial(POWERED), [Alloc, Send(1, 0, false)];
    InitialFree();
    assert actions[..0] == [] && actions[..2] == actions && actions[..1] == [Alloc];
    assert Run(CONFIG, u0, []) == u0 by { RunNothing(CONFIG, u0); }
    RunStep(CONFIG, u0, actions, 0);
    RunStep(CONFIG, u0, actions, 1);
    FirstPacket();
  }

  lemma RunNothing(g: Config, u: Usb)
    requires |u.ins| == MAX_ENDPOINTS
    ensures Run(g, u, []) == u
  {
  }

  lemma FirstPacket()
    ensures var u0 := Initial(POWERED);
            Waits(Perform(CONFIG, Perform(CONFIG, u0, Alloc), Send(1, 0, false)))
  {
    hide Inv, AllFree;
    var u0 := Initial(POWERED);
    InitialInv(POWERED);
    InitialFree();
    StepKeepsIff(CONFIG, u0, Alloc);
    var u1 := Perform(CONFIG, u0, Alloc);
    assert Lowest(u0.free, 0) == Some(0);
    assert u1.held == {0} && u1.ins == u0.ins;
    StepKeepsIff(CONFIG, u1, Send(1, 0, false));
    var u2 := Perform(CONFIG, u1, Send(1, 0, false));
    assert u2.held == {};
  }

  /** The lowest buffer then is 1, and is sent over a packet of endpoint 1. */
  lemma SecondPacket(u: Usb, overtaken: bool)
    requires Inv(u) && |u.ins| == MAX_ENDPOINTS && u.held == {} && u.ins[1].buf == 0 && u.ins[1].Owns()
    requires forall x: nat :: x in u.free <==> 0 < x < NUM_BUFFERS
    requires !MaySend(u.ins[1], overtaken)
    ensures !Inv(Run(CONFIG, u, [Alloc, Send(1, 1, overtaken)]))
  {
    hide Inv, InHand, PacketSend;
    var actions := [Alloc, Send(1, 1, overtaken)];
    assert actions[..0] == [] && actions[..2] == actions;
    RunStep(CONFIG, u, actions, 0);
    RunStep(CONFIG, u, actions, 1);
    assert Lowest(u.free, 0) == Some(1);
    var u1 := Run(CONFIG, u, actions[..1]);
    assert u1 == u.(free := u.free - {1}, held := {1});
    StepKeepsIff(CONFIG, u, Alloc);
    HeldTakesInHand(u1, 1);
    PacketSendKeepsIff(u1.(held := u1.held - {1}), 1, 1, overtaken);
  }

  lemma Cancelled(u: Usb)
    requires Waits(u)
    ensures var u' := Perform(CONFIG, u, HardwareCancels(1));
            Inv(u') && u' == u.(ins := u.ins[1 := InReg(0, false, false, true)])
  {
    hide Inv;
    StepKeepsIff(CONFIG, u, HardwareCancels(1));
  }

  /** Both runs lose or double a buffer. */
  lemma SendOverPacketBreaksOwnership()
    ensures |Initial(POWERED).ins| == MAX_ENDPOINTS
    ensures !Inv(Run(CONFIG, Initial(POWERED), WITHDRAWN_RUN))
    ensures !Inv(Run(CONFIG, Initial(POWERED), OVERTAKEN_RUN))
  {
    hide Inv, Run, Perform, Initial;
    FirstPacketWaits();
    var g, u0 := CONFIG, Initial(POWERED);
    var first := [Alloc, Send(1, 0, false)];
    var u := Run(g, u0, first);
    assert OVERTAKEN_RUN == first + [Alloc, Send(1, 1, true)];
    RunConcat(g, u0, first, [Alloc, Send(1, 1, true)]);
    SecondPacket(u, true);
    var u' := Perform(g, u, HardwareCancels(1));
    Cancelled(u);
    RunOne(g, u, HardwareCancels(1));
    assert WITHDRAWN_RUN == first + ([HardwareCancels(1)] + [Alloc, Send(1, 1, false)]);
    RunConcat(g, u0, first, [HardwareCancels(1)] + [Alloc, Send(1, 1, false)]);
    RunConcat(g, u, [HardwareCancels(1)], [Alloc, Send(1, 1, false)]);
    SecondPacket(u', false);
  }
}
