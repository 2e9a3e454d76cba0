/** Drivers that check before they send, and service calls as runs of their steps. */
module UsbRuns {
  import opened Words
  import opened UsbControl
  import opened UsbBuffers

  // ----- what a caller can check -------------------------------------------------------------

  /** The caller's condition: whatever the host does meanwhile, sending keeps every buffer in one place
      exactly when the endpoint has no packet at all. */
  lemma PacketSendSafeIff(u: Usb, ep: nat, buf: nat)
    requires InHand(u, buf) && ep < MAX_ENDPOINTS
    ensures (forall overtaken :: Inv(PacketSend(u, ep, buf, overtaken))) <==> !u.ins[ep].Owns()
  {
    hide Inv, InHand, PacketSend;
    assert |u.ins| == MAX_ENDPOINTS by { InHandSize(u, buf); }
    PacketSendKeepsIff(u, ep, buf, false);
    PacketSendKeepsIff(u, ep, buf, true);
    forall overtaken
      ensures Inv(PacketSend(u, ep, buf, overtaken)) <==> MaySend(u.ins[ep], overtaken)
    {
      PacketSendKeepsIff(u, ep, buf, overtaken);
    }
  }

  lemma InHandSize(u: Usb, buf: nat)
    requires InHand(u, buf)
    ensures |u.ins| == MAX_ENDPOINTS
  {
  }

  /** The packet that this step sends, if any, goes to an endpoint that has none. */
  predicate Careful(g: Config, u: Usb, a: Action)
    requires |u.ins| == MAX_ENDPOINTS
  {
    match a
    case Send(ep, buf, _) => buf in u.held && ep < MAX_ENDPOINTS ==> !u.ins[ep].Owns()
    case Receiving(_) => WillReply(g, u) ==> !u.ins[0].Owns()
    case _ => true
  }

  predicate CarefulRun(g: Config, u: Usb, actions: seq<Action>)
    requires |u.ins| == MAX_ENDPOINTS
    decreases |actions|
  {
    actions != [] ==> Careful(g, u, actions[0]) && CarefulRun(g, Perform(g, u, actions[0]), actions[1..])
  }

  lemma {:induction false} CarefulIsProper(g: Config, u: Usb, actions: seq<Action>)
    requires |u.ins| == MAX_ENDPOINTS && CarefulRun(g, u, actions)
    ensures ProperRun(g, u, actions)
    decreases |actions|
  {
    hide Perform;
    if actions != [] {
      CarefulIsProper(g, Perform(g, u, actions[0]), actions[1..]);
    }
  }

  /** From initialisation, a driver that sends only to endpoints without a packet keeps each of the 32
      buffers in exactly one place, wherever the steps of the host and the hardware fall. */
  lemma CarefulDriverLosesNothing(g: Config, ctrl: Legacy, actions: seq<Action>)
    requires CarefulRun(g, Initial(ctrl), actions)
    ensures Inv(Run(g, Initial(ctrl), actions))
  {
    hide Inv, Perform;
    InitialInv(ctrl);
    CarefulIsProper(g, Initial(ctrl), actions);
    EveryBufferInOnePlace(g, Initial(ctrl), actions);
  }

  // ----- the steps of one service call -------------------------------------------------------

  lemma {:induction false} RunConcat(g: Config, u: Usb, a: seq<Action>, b: seq<Action>)
    requires |u.ins| == MAX_ENDPOINTS
    ensures Run(g, u, a + b) == Run(g, Run(g, u, a), b)
    decreases |a|
  {
    hide Perform;
    if a == [] {
      assert a + b == b;
    } else {
      assert (a + b)[1..] == a[1..] + b;
      RunConcat(g, Perform(g, u, a[0]), a[1..], b);
    }
  }

  /** The single supplies of one loop of `usbdev_supply_buffers`. */
  function SupplySteps(g: Config, u: Usb, setup: bool): (steps: seq<Action>)
    ensures forall i :: 0 <= i < |steps| ==> steps[i] == Supplying(setup)
    decreases if setup then g.setupDepth - |u.setupFifo| else g.outDepth - |u.outFifo|
  {
    if (if setup then |u.setupFifo| < g.setupDepth else |u.outFifo| < g.outDepth) && Lowest(u.free, 0).Some? then
      [Supplying(setup)] + SupplySteps(g, SupplyOne(g, u, setup), setup)
    else []
  }

  lemma {:induction false} SupplyIsRun(g: Config, u: Usb, setup: bool)
    requires |u.ins| == MAX_ENDPOINTS
    ensures var r := Supply(u.free, if setup then u.setupFifo else u.outFifo, if setup then g.setupDepth else g.outDepth);
            Run(g, u, SupplySteps(g, u, setup)) ==
            if setup then u.(free := r.0, setupFifo := r.1) else u.(free := r.0, outFifo := r.1)
    decreases if setup then g.setupDepth - |u.setupFifo| else g.outDepth - |u.outFifo|
  {
    var v := SupplyOne(g, u, setup);
    if (if setup then |u.setupFifo| < g.setupDepth else |u.outFifo| < g.outDepth) && Lowest(u.free, 0).Some? {
      SupplyIsRun(g, v, setup);
      assert SupplySteps(g, u, setup)[1..] == SupplySteps(g, v, setup);
    }
  }

  /** The steps of an undisturbed `usbdev_service`. */
  function ServiceSteps(g: Config, u: Usb, overtaken: bool): seq<Action>
    requires |u.ins| == MAX_ENDPOINTS
  {
    var v := ServiceSending(u, 0);
    var setups := SupplySteps(g, v, true);
    [Sending] + (setups + (SupplySteps(g, Run(g, v, setups), false) + [Receiving(overtaken)]))
  }

  /** An undisturbed `usbdev_service` is one of the runs. */
  lemma ServiceIsRun(g: Config, u: Usb, overtaken: bool)
    requires |u.ins| == MAX_ENDPOINTS
    ensures Run(g, u, ServiceSteps(g, u, overtaken)) == Service(g, u, overtaken)
  {
    hide ServiceSending, ServiceRecving, Supply, SupplySteps;
    var v := ServiceSending(u, 0);
    var setups := SupplySteps(g, v, true);
    SupplyIsRun(g, v, true);
    var w := Run(g, v, setups);
    var outs := SupplySteps(g, w, false);
    SupplyIsRun(g, w, false);
    assert ServiceSteps(g, u, overtaken)[1..] == setups + (outs + [Receiving(overtaken)]);
    RunConcat(g, v, setups, outs + [Receiving(overtaken)]);
    RunConcat(g, w, outs, [Receiving(overtaken)]);
    RunOne(g, Run(g, w, outs), Receiving(overtaken));
  }

  lemma RunOne(g: Config, u: Usb, a: Action)
    requires |u.ins| == MAX_ENDPOINTS
    ensures Run(g, u, [a]) == Perform(g, u, a)
  {
    hide Perform;
    assert [a][1..] == [];
    assert Run(g, Perform(g, u, a), []) == Perform(g, u, a);
  }

  /** Servicing one sent packet commutes with what the host and the hardware may do meanwhile, so the
      endpoint loop may be taken as one step after its reading of IN_SENT. */
  lemma SentCommutes(g: Config, u: Usb, ep: nat, a: Action)
    requires |u.ins| == MAX_ENDPOINTS && ep < MAX_ENDPOINTS && u.ins[ep].sent && u.ins[ep].OneFlag() && a.External()
    ensures Perform(g, ServiceSent(u, ep), a) == ServiceSent(Perform(g, u, a), ep)
  {
    hide LegacySent, Release;
  }
}
