/** Ownership of the 32 USB packet buffers: software's free bitmap, the hardware FIFOs, the receive
    FIFO, the IN endpoints and the application, over every interleaving of driver steps with steps of
    the host and the hardware. */
module UsbBuffers {
  import opened Words
  import opened UsbControl

  const NUM_BUFFERS: nat := 32
  const MAX_ENDPOINTS: nat := 12

  /** The CONFIGIN register of an endpoint with its IN_SENT bit.  RDY: waiting for the host; SENT:
      collected and not yet serviced; PEND: withdrawn by the hardware. */
  datatype InReg = InReg(buf: nat, rdy: bool, sent: bool, pend: bool) {
    predicate Owns() {
      rdy || sent || pend
    }

    predicate OneFlag() {
      !(rdy && sent) && !(rdy && pend) && !(sent && pend)
    }
  }

  /** An entry of the receive FIFO with the packet's data. */
  datatype Rx = Rx(buf: nat, setup: bool, ep: nat, data: seq<byte>)

  /** `free` is the set of ones in `buf_free`; `held` are buffers the application has allocated. */
  datatype Usb = Usb(free: set<nat>, held: set<nat>, setupFifo: seq<nat>, outFifo: seq<nat>, rx: seq<Rx>,
                     ins: seq<InReg>, ctrl: Legacy)

  /** Depths of the two supply FIFOs and the descriptors in use. */
  datatype Config = Config(setupDepth: nat, outDepth: nat, descs: Descriptors)

  // ----- the driver on values ----------------------------------------------------------------

  /** The lowest free buffer from `b` on. */
  function Lowest(free: set<nat>, b: nat): (r: Option<nat>)
    requires b <= NUM_BUFFERS
    ensures r.Some? ==> b <= r.value < NUM_BUFFERS && r.value in free && forall x :: b <= x < r.value ==> x !in free
    ensures r.None? ==> forall x :: b <= x < NUM_BUFFERS ==> x !in free
    decreases NUM_BUFFERS - b
  {
    if b == NUM_BUFFERS then None else if b in free then Some(b) else Lowest(free, b + 1)
  }

  /** `usbdev_buf_release`: a buffer already free is refused. */
  function Release(free: set<nat>, buf: nat): set<nat> {
    if buf >= NUM_BUFFERS || buf in free then free else free + {buf}
  }

  /** One loop of `usbdev_supply_buffers`: fill a FIFO from the free buffers. */
  function Supply(free: set<nat>, fifo: seq<nat>, depth: nat): (r: (set<nat>, seq<nat>))
    decreases depth - |fifo|
  {
    if |fifo| >= depth then (free, fifo)
    else
      var b := Lowest(free, 0);
      if b.None? then (free, fifo) else Supply(free - {b.value}, fifo + [b.value], depth)
  }

  function SupplyBuffers(g: Config, u: Usb): Usb {
    var (free1, setup) := Supply(u.free, u.setupFifo, g.setupDepth);
    var (free2, out) := Supply(free1, u.outFifo, g.outDepth);
    u.(free := free2, setupFifo := setup, outFifo := out)
  }

  /** One trip of either loop: a FIFO that is not full gets the lowest free buffer. */
  function SupplyOne(g: Config, u: Usb, setup: bool): (r: Usb)
    ensures |u.setupFifo| <= g.setupDepth ==> |r.setupFifo| <= g.setupDepth
    ensures |u.outFifo| <= g.outDepth ==> |r.outFifo| <= g.outDepth
  {
    var b := Lowest(u.free, 0);
    if b.None? then u
    else if setup then
      if |u.setupFifo| >= g.setupDepth then u else u.(free := u.free - {b.value}, setupFifo := u.setupFifo + [b.value])
    else if |u.outFifo| >= g.outDepth then u
    else u.(free := u.free - {b.value}, outFifo := u.outFifo + [b.value])
  }

  /** `usbdev_packet_send` of a buffer in hand.  Withdrawing a waiting packet clears RDY and waits for
      SENDING to drop; `overtaken` says that the host collected it meanwhile, which sets IN_SENT. */
  function PacketSend(u: Usb, ep: nat, buf: nat, overtaken: bool): Usb
    requires ep < |u.ins|
  {
    var reg := u.ins[ep];
    u.(free := if reg.rdy then Release(u.free, reg.buf) else u.free,
       ins := u.ins[ep := InReg(buf, true, reg.sent || (reg.rdy && overtaken), false)])
  }

  /** `usbdev_service_sending` from endpoint `ep` on. */
  function ServiceSending(u: Usb, ep: nat): (r: Usb)
    requires |u.ins| == MAX_ENDPOINTS && ep <= MAX_ENDPOINTS
    ensures |r.ins| == MAX_ENDPOINTS
    decreases MAX_ENDPOINTS - ep
  {
    if ep == MAX_ENDPOINTS then u
    else ServiceSending(if u.ins[ep].sent then ServiceSent(u, ep) else u, ep + 1)
  }

  /** One collected packet. */
  function ServiceSent(u: Usb, ep: nat): Usb
    requires ep < |u.ins|
  {
    u.(free := Release(u.free, u.ins[ep].buf), ins := u.ins[ep := u.ins[ep].(sent := false)],
       ctrl := if ep == 0 then LegacySent(u.ctrl) else u.ctrl)
  }

  predicate Replies(r: Reply) {
    !r.NoReply? && !r.Stall?
  }

  /** `usbdev_service_recving`: one packet, whose buffer is reused for the reply or released. */
  function ServiceRecving(g: Config, u: Usb, overtaken: bool): Usb
    requires |u.ins| == MAX_ENDPOINTS
  {
    if u.rx == [] then u
    else
      var p := u.rx[0];
      var popped := u.(rx := u.rx[1..]);
      if p.ep == 0 then
        var step := LegacyRecv(g.descs, u.ctrl, p.setup, p.data);
        if Replies(step.reply) then PacketSend(popped.(ctrl := step.next), 0, p.buf, overtaken)
        else popped.(ctrl := step.next, free := Release(u.free, p.buf))
      else popped.(free := Release(u.free, p.buf))
  }

  /** `usbdev_service`, undisturbed. */
  function Service(g: Config, u: Usb, overtaken: bool): Usb
    requires |u.ins| == MAX_ENDPOINTS
  {
    ServiceRecving(g, SupplyBuffers(g, ServiceSending(u, 0)), overtaken)
  }

  // ----- runs --------------------------------------------------------------------------------

  /** What the application does, the steps of `usbdev_service`, and what the host and the hardware do,
      before, between and after those steps. */
  datatype Action =
    | Alloc
    | Free(buf: nat)
    | Send(ep: nat, buf: nat, overtaken: bool)
    | Sending
    | Supplying(setup: bool)
    | Receiving(overtaken: bool)
    | HostPacket(setup: bool, ep: nat, data: seq<byte>)
    | HostCollects(ep: nat)
    | HardwareCancels(ep: nat)
  {
    predicate External() {
      HostPacket? || HostCollects? || HardwareCancels?
    }
  }

  function Perform(g: Config, u: Usb, a: Action): (r: Usb)
    requires |u.ins| == MAX_ENDPOINTS
    ensures |r.ins| == MAX_ENDPOINTS
  {
    match a
    case Alloc =>
      var b := Lowest(u.free, 0);
      if b.None? then u else u.(free := u.free - {b.value}, held := u.held + {b.value})
    case Free(buf) => if buf in u.held then u.(held := u.held - {buf}, free := Release(u.free, buf)) else u
    case Send(ep, buf, overtaken) =>
      if buf in u.held && ep < MAX_ENDPOINTS then PacketSend(u.(held := u.held - {buf}), ep, buf, overtaken) else u
    case Sending => ServiceSending(u, 0)
    case Supplying(setup) => SupplyOne(g, u, setup)
    case Receiving(overtaken) => ServiceRecving(g, u, overtaken)
    case HostPacket(setup, ep, data) =>
      if setup then
        if u.setupFifo == [] then u
        else u.(setupFifo := u.setupFifo[1..], rx := u.rx + [Rx(u.setupFifo[0], true, ep, data)])
      else if u.outFifo == [] then u
      else u.(outFifo := u.outFifo[1..], rx := u.rx + [Rx(u.outFifo[0], false, ep, data)])
    case HostCollects(ep) =>
      if ep < MAX_ENDPOINTS && u.ins[ep].rdy && u.ins[ep].OneFlag() then
        u.(ins := u.ins[ep := u.ins[ep].(rdy := false, sent := true)])
      else u
    case HardwareCancels(ep) =>
      if ep < MAX_ENDPOINTS && u.ins[ep].rdy && u.ins[ep].OneFlag() then
        u.(ins := u.ins[ep := u.ins[ep].(rdy := false, pend := true)])
      else u
  }

  /** A new packet may go to this endpoint: no collected packet is waiting for service, none was
      withdrawn by the hardware, and the host does not overtake the withdrawal of a waiting one. */
  predicate MaySend(reg: InReg, overtaken: bool) {
    !reg.sent && !reg.pend && !(reg.rdy && overtaken)
  }

  /** The packet at the head of the receive FIFO will be answered on endpoint zero. */
  predicate WillReply(g: Config, u: Usb) {
    u.rx != [] && u.rx[0].ep == 0 && Replies(LegacyRecv(g.descs, u.ctrl, u.rx[0].setup, u.rx[0].data).reply)
  }

  /** The packet that this step of the driver sends, if any, may be sent. */
  predicate Proper(g: Config, u: Usb, a: Action)
    requires |u.ins| == MAX_ENDPOINTS
  {
    match a
    case Send(ep, buf, overtaken) => buf in u.held && ep < MAX_ENDPOINTS ==> MaySend(u.ins[ep], overtaken)
    case Receiving(overtaken) => WillReply(g, u) ==> MaySend(u.ins[0], overtaken)
    case _ => true
  }

  // ----- every buffer in exactly one place ---------------------------------------------------

  function One(yes: bool): nat {
    if yes then 1 else 0
  }

  function FifoCount(fifo: seq<nat>, b: nat): nat {
    if fifo == [] then 0 else One(fifo[0] == b) + FifoCount(fifo[1..], b)
  }

  function RxCount(rx: seq<Rx>, b: nat): nat {
    if rx == [] then 0 else One(rx[0].buf == b) + RxCount(rx[1..], b)
  }

  function InCount(ins: seq<InReg>, b: nat): nat {
    if ins == [] then 0 else One(ins[0].Owns() && ins[0].buf == b) + InCount(ins[1..], b)
  }

  /** In how many places buffer `b` is. */
  function Places(u: Usb, b: nat): nat {
    One(b in u.free) + One(b in u.held) + FifoCount(u.setupFifo, b) + FifoCount(u.outFifo, b) + RxCount(u.rx, b)
    + InCount(u.ins, b)
  }

  ghost predicate Flags(u: Usb) {
    |u.ins| == 12 && forall ep :: 0 <= ep < 12 ==> u.ins[ep].OneFlag()
  }

  /** Each of the 32 buffers is in exactly one place, no other number is anywhere, and no endpoint is in
      two states at once. */
  ghost predicate Inv(u: Usb) {
    Flags(u) && forall b: nat :: Places(u, b) == One(b < 32)
  }

  lemma {:induction false} InCountUpdate(ins: seq<InReg>, ep: nat, reg: InReg, b: nat)
    requires ep < |ins|
    ensures InCount(ins[ep := reg], b) + One(ins[ep].Owns() && ins[ep].buf == b) ==
            InCount(ins, b) + One(reg.Owns() && reg.buf == b)
  {
    if ep == 0 {
      assert ins[0 := reg][1..] == ins[1..];
    } else {
      InCountUpdate(ins[1..], ep - 1, reg, b);
      assert ins[ep := reg][1..] == ins[1..][ep - 1 := reg];
    }
  }

  lemma {:induction false} InCountMember(ins: seq<InReg>, ep: nat)
    requires ep < |ins| && ins[ep].Owns()
    ensures InCount(ins, ins[ep].buf) >= 1
  {
    if ep > 0 {
      InCountMember(ins[1..], ep - 1);
    }
  }

  lemma {:induction false} FifoCountSnoc(fifo: seq<nat>, x: nat, b: nat)
    ensures FifoCount(fifo + [x], b) == FifoCount(fifo, b) + One(x == b)
  {
    if fifo == [] {
      assert fifo + [x] == [x] && [x][1..] == [];
    } else {
      FifoCountSnoc(fifo[1..], x, b);
      assert (fifo + [x])[1..] == fifo[1..] + [x];
    }
  }

  lemma {:induction false} RxCountSnoc(rx: seq<Rx>, p: Rx, b: nat)
    ensures RxCount(rx + [p], b) == RxCount(rx, b) + One(p.buf == b)
  {
    if rx == [] {
      assert rx + [p] == [p] && [p][1..] == [];
    } else {
      RxCountSnoc(rx[1..], p, b);
      assert (rx + [p])[1..] == rx[1..] + [p];
    }
  }

  // ----- the steps ---------------------------------------------------------------------------

  lemma {:induction false} SupplyConserves(free: set<nat>, fifo: seq<nat>, depth: nat, b: nat)
    ensures var r := Supply(free, fifo, depth);
            One(b in r.0) + FifoCount(r.1, b) == One(b in free) + FifoCount(fifo, b)
    decreases depth - |fifo|
  {
    hide FifoCount;
    if |fifo| < depth {
      var x := Lowest(free, 0);
      if x.Some? {
        SupplyConserves(free - {x.value}, fifo + [x.value], depth, b);
        FifoCountSnoc(fifo, x.value, b);
      }
    }
  }

  lemma SupplyKeeps(g: Config, u: Usb)
    requires Inv(u)
    ensures Inv(SupplyBuffers(g, u))
  {
    hide Supply, FifoCount, RxCount, InCount;
    var r := SupplyBuffers(g, u);
    forall b: nat
      ensures Places(r, b) == Places(u, b)
    {
      SupplyConserves(u.free, u.setupFifo, g.setupDepth, b);
      SupplyConserves(Supply(u.free, u.setupFifo, g.setupDepth).0, u.outFifo, g.outDepth, b);
    }
  }

  lemma SupplyOneKeeps(g: Config, u: Usb, setup: bool)
    requires Inv(u)
    ensures Inv(SupplyOne(g, u, setup))
  {
    hide FifoCount, RxCount, InCount;
    var r, x := SupplyOne(g, u, setup), Lowest(u.free, 0);
    if r != u {
      forall b: nat
        ensures Places(r, b) == Places(u, b)
      {
        FifoCountSnoc(if setup then u.setupFifo else u.outFifo, x.value, b);
      }
    }
  }

  lemma ServiceSentKeeps(u: Usb, ep: nat)
    requires Inv(u) && ep < MAX_ENDPOINTS && u.ins[ep].sent
    ensures Inv(ServiceSent(u, ep))
  {
    hide FifoCount, RxCount, InCount, LegacySent;
    var reg, r := u.ins[ep], ServiceSent(u, ep);
    assert reg.OneFlag();
    InCountMember(u.ins, ep);
    assert Places(u, reg.buf) == One(reg.buf < NUM_BUFFERS);
    forall b: nat
      ensures Places(r, b) == Places(u, b)
    {
      InCountUpdate(u.ins, ep, reg.(sent := false), b);
    }
  }

  lemma {:induction false} ServiceSendingKeeps(u: Usb, ep: nat)
    requires Inv(u) && ep <= MAX_ENDPOINTS
    ensures Inv(ServiceSending(u, ep))
    decreases MAX_ENDPOINTS - ep
  {
    hide ServiceSent, Places;
    if ep < MAX_ENDPOINTS {
      if u.ins[ep].sent {
        ServiceSentKeeps(u, ep);
      }
      ServiceSendingKeeps(if u.ins[ep].sent then ServiceSent(u, ep) else u, ep + 1);
    }
  }

  /** As `Inv`, apart from a buffer that software has in hand. */
  ghost predicate InHand(u: Usb, buf: nat) {
    Flags(u) && forall b: nat :: Places(u, b) + One(b == buf) == One(b < NUM_BUFFERS)
  }

  lemma PacketSendKeeps(u: Usb, ep: nat, buf: nat, overtaken: bool)
    requires InHand(u, buf) && ep < MAX_ENDPOINTS && MaySend(u.ins[ep], overtaken)
    ensures Inv(PacketSend(u, ep, buf, overtaken))
  {
    hide FifoCount, RxCount, InCount;
    var reg, r := u.ins[ep], PacketSend(u, ep, buf, overtaken);
    if reg.rdy {
      InCountMember(u.ins, ep);
      assert Places(u, reg.buf) + One(reg.buf == buf) == One(reg.buf < NUM_BUFFERS);
    }
    forall b: nat
      ensures Places(r, b) == Places(u, b) + One(b == buf)
    {
      InCountUpdate(u.ins, ep, r.ins[ep], b);
    }
  }

  /** A reply the hardware has withdrawn is forgotten when a new packet takes its endpoint. */
  lemma WithdrawnIsLost(u: Usb, ep: nat, buf: nat, overtaken: bool)
    requires InHand(u, buf) && ep < MAX_ENDPOINTS && u.ins[ep].pend
    ensures Places(PacketSend(u, ep, buf, overtaken), u.ins[ep].buf) == 0
    ensures u.ins[ep].buf < NUM_BUFFERS
  {
    hide FifoCount, RxCount, InCount;
    var reg, r := u.ins[ep], PacketSend(u, ep, buf, overtaken);
    assert reg.OneFlag();
    InCountMember(u.ins, ep);
    assert Places(u, reg.buf) + One(reg.buf == buf) == One(reg.buf < NUM_BUFFERS);
    InCountUpdate(u.ins, ep, r.ins[ep], reg.buf);
  }

  /** A withdrawal overtaken by the host leaves IN_SENT set under the new packet; servicing it then
      frees a buffer that is still waiting for the host. */
  lemma OvertakenIsDoubled(u: Usb, ep: nat, buf: nat)
    requires InHand(u, buf) && ep < MAX_ENDPOINTS && u.ins[ep].rdy
    ensures var v := PacketSend(u, ep, buf, true);
            v.ins[ep].sent && Places(ServiceSent(v, ep), buf) == 2
  {
    hide FifoCount, RxCount, InCount, LegacySent;
    var reg, v := u.ins[ep], PacketSend(u, ep, buf, true);
    var w := ServiceSent(v, ep);
    assert reg.OneFlag();
    InCountMember(u.ins, ep);
    assert Places(u, reg.buf) + One(reg.buf == buf) == One(reg.buf < NUM_BUFFERS);
    assert Places(u, buf) + One(buf == buf) == One(buf < NUM_BUFFERS);
    InCountUpdate(u.ins, ep, v.ins[ep], buf);
    InCountUpdate(v.ins, ep, w.ins[ep], buf);
  }

  /** Sending a buffer in hand keeps every buffer in one place exactly when the endpoint may take it. */
  lemma PacketSendKeepsIff(u: Usb, ep: nat, buf: nat, overtaken: bool)
    requires InHand(u, buf) && ep < MAX_ENDPOINTS
    ensures Inv(PacketSend(u, ep, buf, overtaken)) <==> MaySend(u.ins[ep], overtaken)
  {
    hide Places;
    if MaySend(u.ins[ep], overtaken) {
      PacketSendKeeps(u, ep, buf, overtaken);
    } else if u.ins[ep].pend {
      WithdrawnIsLost(u, ep, buf, overtaken);
    } else {
      assert !PacketSend(u, ep, buf, overtaken).ins[ep].OneFlag();
    }
  }

  lemma ReceiveTakesInHand(u: Usb)
    requires Inv(u) && u.rx != []
    ensures InHand(u.(rx := u.rx[1..]), u.rx[0].buf)
  {
    hide FifoCount, InCount;
    var r := u.(rx := u.rx[1..]);
    forall b: nat
      ensures Places(r, b) + One(b == u.rx[0].buf) == Places(u, b)
    {
    }
  }

  lemma ReleaseInHand(u: Usb, buf: nat)
    requires InHand(u, buf)
    ensures Inv(u.(free := Release(u.free, buf)))
  {
    hide FifoCount, RxCount, InCount;
    var r := u.(free := Release(u.free, buf));
    assert Places(u, buf) + One(buf == buf) == One(buf < NUM_BUFFERS);
    forall b: nat
      ensures Places(r, b) == Places(u, b) + One(b == buf)
    {
    }
  }

  lemma ControlIsNoPlace(u: Usb, ctrl: Legacy, buf: nat)
    requires InHand(u, buf)
    ensures InHand(u.(ctrl := ctrl), buf)
  {
    hide FifoCount, RxCount, InCount;
    assert forall b: nat :: Places(u.(ctrl := ctrl), b) == Places(u, b);
  }

  lemma ServiceRecvingKeepsIff(g: Config, u: Usb, overtaken: bool)
    requires Inv(u)
    ensures Inv(ServiceRecving(g, u, overtaken)) <==> (WillReply(g, u) ==> MaySend(u.ins[0], overtaken))
  {
    hide Inv, InHand, LegacyRecv, PacketSend, Release, MaySend;
    assert |u.ins| == MAX_ENDPOINTS by { InvSize(u); }
    if u.rx != [] {
      var p, popped := u.rx[0], u.(rx := u.rx[1..]);
      ReceiveTakesInHand(u);
      if p.ep == 0 {
        var step := LegacyRecv(g.descs, u.ctrl, p.setup, p.data);
        var taken := popped.(ctrl := step.next);
        ControlIsNoPlace(popped, step.next, p.buf);
        if Replies(step.reply) {
          PacketSendKeepsIff(taken, 0, p.buf, overtaken);
        } else {
          ReleaseInHand(taken, p.buf);
        }
      } else {
        ReleaseInHand(popped, p.buf);
      }
    }
  }

  lemma InvSize(u: Usb)
    requires Inv(u)
    ensures |u.ins| == MAX_ENDPOINTS
  {
  }

  lemma HeldTakesInHand(u: Usb, buf: nat)
    requires Inv(u) && buf in u.held
    ensures InHand(u.(held := u.held - {buf}), buf)
  {
    hide FifoCount, RxCount, InCount;
    var r := u.(held := u.held - {buf});
    forall b: nat
      ensures Places(r, b) + One(b == buf) == Places(u, b)
    {
    }
  }

  lemma AllocKeeps(u: Usb, x: nat)
    requires Inv(u) && x in u.free
    ensures Inv(u.(free := u.free - {x}, held := u.held + {x}))
  {
    hide FifoCount, RxCount, InCount;
    var r := u.(free := u.free - {x}, held := u.held + {x});
    assert Places(u, x) == One(x < NUM_BUFFERS);
    forall b: nat
      ensures Places(r, b) == Places(u, b)
    {
    }
  }

  lemma FlagsKeep(u: Usb, ep: nat, reg: InReg)
    requires Inv(u) && ep < MAX_ENDPOINTS && u.ins[ep].Owns() && reg.Owns() && reg.buf == u.ins[ep].buf && reg.OneFlag()
    ensures Inv(u.(ins := u.ins[ep := reg]))
  {
    hide FifoCount, RxCount, InCount;
    var r := u.(ins := u.ins[ep := reg]);
    forall b: nat
      ensures Places(r, b) == Places(u, b)
    {
      InCountUpdate(u.ins, ep, reg, b);
    }
  }

  lemma HostPacketKeeps(u: Usb, setup: bool, ep: nat, data: seq<byte>)
    requires Inv(u) && (if setup then u.setupFifo else u.outFifo) != []
    ensures var fifo := if setup then u.setupFifo else u.outFifo;
            var v := u.(rx := u.rx + [Rx(fifo[0], setup, ep, data)]);
            Inv(if setup then v.(setupFifo := fifo[1..]) else v.(outFifo := fifo[1..]))
  {
    hide RxCount, InCount;
    var fifo := if setup then u.setupFifo else u.outFifo;
    var v := u.(rx := u.rx + [Rx(fifo[0], setup, ep, data)]);
    var r := if setup then v.(setupFifo := fifo[1..]) else v.(outFifo := fifo[1..]);
    forall b: nat
      ensures Places(r, b) == Places(u, b)
    {
      RxCountSnoc(u.rx, Rx(fifo[0], setup, ep, data), b);
    }
  }

  /** A step keeps each buffer in exactly one place exactly when it is proper. */
  lemma StepKeepsIff(g: Config, u: Usb, a: Action)
    requires Inv(u)
    ensures Inv(Perform(g, u, a)) <==> Proper(g, u, a)
  {
    hide Inv, InHand, Release, PacketSend, ServiceSending, SupplyOne, ServiceRecving, MaySend, WillReply;
    InvSize(u);
    match a
    case Alloc =>
      if Lowest(u.free, 0).Some? {
        AllocKeeps(u, Lowest(u.free, 0).value);
      }
    case Free(buf) =>
      if buf in u.held {
        HeldTakesInHand(u, buf);
        ReleaseInHand(u.(held := u.held - {buf}), buf);
      }
    case Send(ep, buf, overtaken) =>
      if buf in u.held && ep < MAX_ENDPOINTS {
        HeldTakesInHand(u, buf);
        PacketSendKeepsIff(u.(held := u.held - {buf}), ep, buf, overtaken);
      }
    case Sending => ServiceSendingKeeps(u, 0);
    case Supplying(setup) => SupplyOneKeeps(g, u, setup);
    case Receiving(overtaken) => ServiceRecvingKeepsIff(g, u, overtaken);
    case HostPacket(setup, ep, data) =>
      if (if setup then u.setupFifo else u.outFifo) != [] {
        HostPacketKeeps(u, setup, ep, data);
      }
    case HostCollects(ep) =>
      if ep < MAX_ENDPOINTS && u.ins[ep].rdy && u.ins[ep].OneFlag() {
        FlagsKeep(u, ep, u.ins[ep].(rdy := false, sent := true));
      }
    case HardwareCancels(ep) =>
      if ep < MAX_ENDPOINTS && u.ins[ep].rdy && u.ins[ep].OneFlag() {
        FlagsKeep(u, ep, u.ins[ep].(rdy := false, pend := true));
      }
  }

  function Run(g: Config, u: Usb, actions: seq<Action>): (r: Usb)
    requires |u.ins| == MAX_ENDPOINTS
    ensures |r.ins| == MAX_ENDPOINTS
    decreases |actions|
  {
    if actions == [] then u else Run(g, Perform(g, u, actions[0]), actions[1..])
  }

  predicate ProperRun(g: Config, u: Usb, actions: seq<Action>)
    requires |u.ins| == MAX_ENDPOINTS
    decreases |actions|
  {
    actions != [] ==> Proper(g, u, actions[0]) && ProperRun(g, Perform(g, u, actions[0]), actions[1..])
  }

  function AllFree(n: nat): (r: set<nat>)
    ensures forall b: nat :: b in r <==> b < n
  {
    if n == 0 then {} else AllFree(n - 1) + {n - 1}
  }

  function NoPackets(n: nat): (r: seq<InReg>)
    ensures |r| == n && forall i :: 0 <= i < n ==> r[i] == InReg(0, false, false, false)
  {
    if n == 0 then [] else [InReg(0, false, false, false)] + NoPackets(n - 1)
  }

  /** As `usbdev_init` leaves it before supplying buffers. */
  function Initial(ctrl: Legacy): Usb {
    Usb(AllFree(NUM_BUFFERS), {}, [], [], [], NoPackets(MAX_ENDPOINTS), ctrl)
  }

  lemma {:induction false} NothingOwned(ins: seq<InReg>, b: nat)
    requires forall i :: 0 <= i < |ins| ==> !ins[i].Owns()
    ensures InCount(ins, b) == 0
  {
    if ins != [] {
      NothingOwned(ins[1..], b);
    }
  }

  lemma InitialInv(ctrl: Legacy)
    ensures Inv(Initial(ctrl))
  {
    hide InCount, AllFree;
    var u := Initial(ctrl);
    forall b: nat
      ensures Places(u, b) == One(b < NUM_BUFFERS)
    {
      NothingOwned(u.ins, b);
    }
  }

  /** Over every proper run of driver calls and hardware steps, each of the 32 buffers is in exactly one
      place. */
  lemma {:induction false} EveryBufferInOnePlace(g: Config, u: Usb, actions: seq<Action>)
    requires Inv(u) && ProperRun(g, u, actions)
    ensures Inv(Run(g, u, actions))
    decreases |actions|
  {
    hide Inv, Proper, Perform;
    InvSize(u);
    if actions != [] {
      StepKeepsIff(g, u, actions[0]);
      EveryBufferInOnePlace(g, Perform(g, u, actions[0]), actions[1..]);
    }
  }

  /** Each buffer is in exactly one place before, between and after the actions. */
  ghost predicate InvThroughout(g: Config, u: Usb, actions: seq<Action>)
    requires |u.ins| == MAX_ENDPOINTS
    decreases |actions|
  {
    Inv(u) && (actions != [] ==> InvThroughout(g, Perform(g, u, actions[0]), actions[1..]))
  }

  /** The runs that keep each buffer in exactly one place throughout are exactly the proper ones. */
  lemma {:induction false} InvThroughoutIffProper(g: Config, u: Usb, actions: seq<Action>)
    requires |u.ins| == MAX_ENDPOINTS && Inv(u)
    ensures InvThroughout(g, u, actions) <==> ProperRun(g, u, actions)
    decreases |actions|
  {
    hide Inv, Proper, Perform;
    if actions != [] {
      StepKeepsIff(g, u, actions[0]);
      var v := Perform(g, u, actions[0]);
      if Inv(v) {
        InvThroughoutIffProper(g, v, actions[1..]);
      }
    }
  }
}
