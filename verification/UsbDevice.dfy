/** The legacy driver object with the registers it drives, acting as the functions on values do. */
module UsbDevice {
  import opened Words
  import opened UsbControl
  import opened UsbBuffers
  import opened UsbRuns

  /** `usbdev_state_t` together with the registers it drives. */
  class Usbdev {
    const config: Config
    var bufFree: set<nat>
    var held: set<nat>
    var setupFifo: seq<nat>
    var outFifo: seq<nat>
    var rxFifo: seq<Rx>
    var configIn: seq<InReg>
    var ctrl: Legacy

    ghost function Value(): Usb
      reads this
    {
      Usb(bufFree, held, setupFifo, outFifo, rxFifo, configIn, ctrl)
    }

    /** `usbdev_init`. */
    constructor (config: Config, devAddr: nat)
      ensures this.config == config && Inv(Value()) && held == {}
    {
      this.config := config;
      bufFree := AllFree(NUM_BUFFERS);
      held, setupFifo, outFifo, rxFifo := {}, [], [], [];
      configIn := NoPackets(MAX_ENDPOINTS);
      ctrl := Legacy(Setup, LegacyReset, devAddr, 0);
      new;
      InitialInv(ctrl);
      SupplyKeeps(config, Value());
      SupplyAll();
    }

    /** `usbdev_buf_alloc`. */
    method BufAlloc() returns (buf: int)
      modifies this`bufFree
      ensures var r := Lowest(old(bufFree), 0);
              if r.Some? then buf == r.value && bufFree == old(bufFree) - {r.value}
              else buf == -1 && bufFree == old(bufFree)
    {
      var b := 0;
      while b < NUM_BUFFERS
        invariant 0 <= b <= NUM_BUFFERS
        invariant forall x :: 0 <= x < b ==> x !in bufFree
      {
        if b in bufFree {
          bufFree := bufFree - {b};
          return b;
        }
        b := b + 1;
      }
      return -1;
    }

    /** `usbdev_buf_release`. */
    method BufRelease(buf: nat) returns (rc: int)
      modifies this`bufFree
      ensures bufFree == Release(old(bufFree), buf)
      ensures rc == 0 <==> buf < NUM_BUFFERS && buf !in old(bufFree)
    {
      if buf >= NUM_BUFFERS || buf in bufFree {
        return -1;
      }
      bufFree := bufFree + {buf};
      return 0;
    }

    /** `usbdev_supply_buffers`. */
    method SupplyAll()
      modifies this`bufFree, this`setupFifo, this`outFifo
      ensures Value() == SupplyBuffers(config, old(Value()))
    {
      ghost var goal := Supply(bufFree, setupFifo, config.setupDepth);
      while |setupFifo| < config.setupDepth
        invariant outFifo == old(outFifo)
        invariant Supply(bufFree, setupFifo, config.setupDepth) == goal
        decreases config.setupDepth - |setupFifo|
      {
        var buf := BufAlloc();
        if buf < 0 {
          break;
        }
        setupFifo := setupFifo + [buf];
      }
      assert goal == (bufFree, setupFifo);
      goal := Supply(bufFree, outFifo, config.outDepth);
      ghost var supplied := setupFifo;
      while |outFifo| < config.outDepth
        invariant setupFifo == supplied
        invariant Supply(bufFree, outFifo, config.outDepth) == goal
        decreases config.outDepth - |outFifo|
      {
        var buf := BufAlloc();
        if buf < 0 {
          break;
        }
        outFifo := outFifo + [buf];
      }
    }

    /** `usbdev_packet_send`. */
    method Send(ep: nat, buf: nat, overtaken: bool)
      requires ep < |configIn|
      modifies this`bufFree, this`configIn
      ensures Value() == PacketSend(old(Value()), ep, buf, overtaken)
    {
      var reg := configIn[ep];
      if reg.rdy {
        reg := reg.(rdy := false, sent := reg.sent || overtaken);
        var rc := BufRelease(reg.buf);
      }
      configIn := configIn[ep := InReg(buf, true, reg.sent, false)];
    }

    /** `usbdev_service_sending`. */
    method ServiceSendingAll()
      requires |configIn| == MAX_ENDPOINTS
      modifies this`bufFree, this`configIn, this`ctrl
      ensures Value() == ServiceSending(old(Value()), 0)
    {
      hide ServiceSent;
      ghost var goal := ServiceSending(Value(), 0);
      var ep := 0;
      while ep < MAX_ENDPOINTS
        invariant 0 <= ep <= MAX_ENDPOINTS && |configIn| == MAX_ENDPOINTS
        invariant ServiceSending(Value(), ep) == goal
      {
        if configIn[ep].sent {
          ServiceEndpoint(ep);
        }
        ep := ep + 1;
      }
    }

    /** One collected packet. */
    method ServiceEndpoint(ep: nat)
      requires |configIn| == MAX_ENDPOINTS && ep < MAX_ENDPOINTS
      modifies this`bufFree, this`configIn, this`ctrl
      ensures Value() == ServiceSent(old(Value()), ep) && |configIn| == MAX_ENDPOINTS
    {
      hide LegacySent;
      if ep == 0 {
        ctrl := LegacySent(ctrl);
      }
      var rc := BufRelease(configIn[ep].buf);
      configIn := configIn[ep := configIn[ep].(sent := false)];
    }

    /** `usbdev_service_recving`. */
    method ServiceRecvingOne(overtaken: bool)
      requires |configIn| == MAX_ENDPOINTS
      modifies this
      ensures Value() == ServiceRecving(config, old(Value()), overtaken)
    {
      hide LegacyRecv;
      if rxFifo != [] {
        var p := rxFifo[0];
        rxFifo := rxFifo[1..];
        var release := true;
        if p.ep == 0 {
          var step := LegacyRecv(config.descs, ctrl, p.setup, p.data);
          ctrl := step.next;
          if Replies(step.reply) {
            Send(0, p.buf, overtaken);
            release := false;
          }
        }
        if release {
          var rc := BufRelease(p.buf);
        }
      }
    }

    /** Steps of the host and the hardware on the registers. */
    method External(steps: seq<Action>)
      requires |configIn| == MAX_ENDPOINTS && forall a :: a in steps ==> a.External()
      modifies this
      ensures Value() == Run(config, old(Value()), steps)
    {
      hide Perform;
      var i := 0;
      while i < |steps|
        invariant 0 <= i <= |steps| && |configIn| == MAX_ENDPOINTS
        invariant Run(config, Value(), steps[i..]) == Run(config, old(Value()), steps)
      {
        assert steps[i..][1..] == steps[i + 1..];
        ExternalStep(steps[i]);
        i := i + 1;
      }
    }

    method ExternalStep(a: Action)
      requires |configIn| == MAX_ENDPOINTS && a.External()
      modifies this
      ensures Value() == Perform(config, old(Value()), a)
    {
      if a.HostPacket? {
        if a.setup && setupFifo != [] {
          rxFifo := rxFifo + [Rx(setupFifo[0], true, a.ep, a.data)];
          setupFifo := setupFifo[1..];
        } else if !a.setup && outFifo != [] {
          rxFifo := rxFifo + [Rx(outFifo[0], false, a.ep, a.data)];
          outFifo := outFifo[1..];
        }
      } else if a.ep < MAX_ENDPOINTS && configIn[a.ep].rdy && configIn[a.ep].OneFlag() {
        var reg := configIn[a.ep].(rdy := false);
        configIn := configIn[a.ep := if a.HostCollects? then reg.(sent := true) else reg.(pend := true)];
      }
    }

    /** `usbdev_service`, with steps of the host and the hardware between its phases: each buffer stays
        in exactly one place when a reply that it sends may be sent by then. */
    method ServiceOnce(before: seq<Action>, after: seq<Action>, overtaken: bool)
      requires Inv(Value()) && (forall a :: a in before + after ==> a.External())
      modifies this
      ensures |Disturbed(config, old(Value()), before, after).ins| == MAX_ENDPOINTS
      ensures Value() == ServiceRecving(config, Disturbed(config, old(Value()), before, after), overtaken)
      ensures Proper(config, Disturbed(config, old(Value()), before, after), Receiving(overtaken)) ==> Inv(Value())
    {
      hide ServiceSending, SupplyBuffers, ServiceRecving, Inv, Run, Proper;
      assert |configIn| == MAX_ENDPOINTS by { InvSize(Value()); }
      DisturbedKeeps(config, Value(), before, after);
      ghost var v := Disturbed(config, Value(), before, after);
      ServiceSendingAll();
      External(before);
      SupplyAll();
      assert |configIn| == MAX_ENDPOINTS by { SupplySize(config, Run(config, ServiceSending(old(Value()), 0), before)); }
      External(after);
      if Proper(config, v, Receiving(overtaken)) {
        StepKeepsIff(config, v, Receiving(overtaken));
      }
      ServiceRecvingOne(overtaken);
    }
  }

  /** Where the receiving phase of a service call starts from. */
  function Disturbed(g: Config, u: Usb, before: seq<Action>, after: seq<Action>): (r: Usb)
    requires |u.ins| == MAX_ENDPOINTS
    ensures |r.ins| == MAX_ENDPOINTS
  {
    Run(g, SupplyBuffers(g, Run(g, ServiceSending(u, 0), before)), after)
  }

  lemma {:induction false} ExternalIsProper(g: Config, u: Usb, actions: seq<Action>)
    requires |u.ins| == MAX_ENDPOINTS && forall a :: a in actions ==> a.External()
    ensures ProperRun(g, u, actions)
    decreases |actions|
  {
    hide Perform;
    if actions != [] {
      assert actions[0].External() && Proper(g, u, actions[0]);
      ExternalIsProper(g, Perform(g, u, actions[0]), actions[1..]);
    }
  }

  lemma DisturbedKeeps(g: Config, u: Usb, before: seq<Action>, after: seq<Action>)
    requires Inv(u) && |u.ins| == MAX_ENDPOINTS && forall a :: a in before + after ==> a.External()
    ensures Inv(Disturbed(g, u, before, after))
  {
    hide Inv, ServiceSending, SupplyBuffers, Run, Action.External;
    assert forall a :: a in before ==> a in before + after;
    assert forall a :: a in after ==> a in before + after;
    var u1 := ServiceSending(u, 0);
    ServiceSendingKeeps(u, 0);
    ExternalIsProper(g, u1, before);
    EveryBufferInOnePlace(g, u1, before);
    var u2 := Run(g, u1, before);
    SupplyKeeps(g, u2);
    SupplySize(g, u2);
    ExternalIsProper(g, SupplyBuffers(g, u2), after);
    EveryBufferInOnePlace(g, SupplyBuffers(g, u2), after);
  }

  lemma SupplySize(g: Config, u: Usb)
    ensures SupplyBuffers(g, u).ins == u.ins
  {
  }
}
