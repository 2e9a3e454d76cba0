/** The I2C bus model `i2cdpi`: a bit-level decoder whose meaning is a log of byte-level device calls. */
module I2cBus {
  import opened Words
  import opened Crc

  // ----- devices -----------------------------------------------------------------------------

  /** The calls made on the attached devices, in order. */
  datatype Call =
    | BusReset
    | StartCond
    | AccessStarting(addr: nat, read: bool)
    | ReadByte(addr: nat)
    | WriteByte(addr: nat, value: byte)
    | RestartCond(addr: nat)
    | StopCond(addr: nat)

  /** Attached addresses and arbitrary device behaviour: what `readByte` supplies and `writeByte`
      answers may depend on every call so far.  A refused read supplies 0xff. */
  datatype Devices = Devices(present: set<nat>, supply: seq<Call> -> byte, accept: seq<Call> -> bool)

  // ----- the decoder -------------------------------------------------------------------------

  datatype State = Idle | Addr | GotAddr | SendAckNak | Data | GotData | SentData | GotAckNak

  /** The protocol state; `currByte` is the shift register's eight bits, most significant first. */
  datatype Core = Core(state: State, currByte: Reg8, numBits: nat, device: Option<nat>, reading: bool,
                       sendAck: bool, log: seq<Call>)

  datatype Bus = Bus(core: Core, prevRst: bool, prevScl: bool, prevSda: bool)

  datatype Sample = Sample(scl: bool, sda: bool)

  function ShiftIn(r: Reg8, bit: bool): Reg8 {
    r[1..] + [bit]
  }

  /** The seven address bits of a first byte. */
  function AddressOf(r: Reg8): nat {
    BitsNat(r[..7])
  }

  /** `under_reset`. */
  function UnderReset(b: Bus): Bus {
    Bus(b.core.(state := Idle, numBits := 0, device := None, reading := false, sendAck := true), true, true, true)
  }

  /** The eighth address bit has arrived. */
  function Addressed(d: Devices, c: Core): Core {
    var addr, read := AddressOf(c.currByte), c.currByte[7];
    if addr in d.present then
      var log := c.log + [AccessStarting(addr, read)];
      if read then
        var log' := log + [ReadByte(addr)];
        c.(state := GotAddr, numBits := 0, reading := read, device := Some(addr), sendAck := true,
           currByte := ByteBits(d.supply(log')), log := log')
      else c.(state := GotAddr, numBits := 0, reading := read, device := Some(addr), sendAck := true, log := log)
    else c.(state := GotAddr, numBits := 0, reading := read, device := None, sendAck := false)
  }

  /** `decode` with no change of the SCL line pending a start or stop: what each state does with the
      edge between the previous and the new sample. */
  function Decoded(d: Devices, c: Core, was: Sample, now: Sample): Core {
    var rise, fall := !was.scl && now.scl, was.scl && !now.scl;
    match c.state
    case Idle =>
      if was.sda && !now.sda then c.(state := Addr, numBits := 0, log := c.log + [StartCond]) else c
    case Addr =>
      if rise then
        var c' := c.(currByte := ShiftIn(c.currByte, now.sda), numBits := c.numBits + 1);
        if c'.numBits >= 8 then Addressed(d, c') else c'
      else c
    case GotAddr => if fall then c.(state := SendAckNak) else c
    case GotData => if fall then c.(state := SendAckNak) else c
    case SendAckNak => if fall then c.(state := Data) else c
    case SentData =>
      if rise && c.device.Some? then
        if !now.sda then
          var log := c.log + [ReadByte(c.device.value)];
          c.(state := GotAckNak, numBits := 0, currByte := ByteBits(d.supply(log)), log := log)
        else c.(state := GotAckNak, numBits := 0)
      else c
    case GotAckNak => if fall then c.(state := Data) else c
    case Data =>
      if now.scl && !was.sda && now.sda then
        c.(state := Idle, device := None,
           log := if c.device.Some? then c.log + [StopCond(c.device.value)] else c.log)
      else if now.scl && was.sda && !now.sda then
        c.(state := Addr, numBits := 0, device := None,
           log := if c.device.Some? then c.log + [RestartCond(c.device.value)] else c.log)
      else if c.device.None? then c
      else if c.reading then
        if fall then
          c.(currByte := ShiftIn(c.currByte, true), numBits := c.numBits + 1,
             state := if c.numBits + 1 >= 8 then SentData else Data)
        else c
      else if rise then
        var byte' := ShiftIn(c.currByte, now.sda);
        if c.numBits + 1 >= 8 then
          var log := c.log + [WriteByte(c.device.value, ByteOf(byte'))];
          c.(currByte := byte', numBits := 0, state := GotData, sendAck := d.accept(log), log := log)
        else c.(currByte := byte', numBits := c.numBits + 1)
      else c
  }

  /** The level that `decode` drives onto SDA; true leaves the line high. */
  function Driven(c: Core, was: Sample, now: Sample): bool {
    match c.state
    case GotAddr => if was.scl && !now.scl then !c.sendAck else true
    case GotData => if was.scl && !now.scl then !c.sendAck else true
    case SendAckNak => c.device.None?
    case Data =>
      if now.scl && was.sda != now.sda then true
      else if c.device.Some? && c.reading then c.currByte[0] else true
    case _ => true
  }

  /** `decode`. */
  function Step(d: Devices, b: Bus, now: Sample): Bus {
    var c := if b.prevRst then b.core.(log := b.core.log + [BusReset]) else b.core;
    Bus(Decoded(d, c, Sample(b.prevScl, b.prevSda), now), false, now.scl, now.sda)
  }

  function Output(b: Bus, now: Sample): bool {
    Driven(b.core, Sample(b.prevScl, b.prevSda), now)
  }

  datatype Result = Result(bus: Bus, out: seq<bool>)

  /** A run of samples, with the SDA level driven at each. */
  function Run(d: Devices, b: Bus, samples: seq<Sample>): (r: Result)
    ensures |r.out| == |samples|
    decreases |samples|
  {
    if samples == [] then Result(b, [])
    else
      var r := Run(d, Step(d, b, samples[0]), samples[1..]);
      Result(r.bus, [Output(b, samples[0])] + r.out)
  }

  // ----- what every reachable state satisfies ------------------------------------------------

  /** A device is selected wherever the decoder calls it, and bit counts stay below a byte. */
  ghost predicate Inv(c: Core) {
    && (c.state == SentData || c.state == GotAckNak || c.state == GotData ==> c.device.Some?)
    && (c.state == Addr || c.state == Data ==> c.numBits < 8)
    && (c.state == GotAddr || c.state == GotData || c.state == SendAckNak || c.state == GotAckNak ==> c.numBits == 0)
    && (c.state == SentData || c.state == GotAckNak ==> c.reading)
    && (c.state == Idle ==> c.device.None?)
  }

  datatype Input = Reset | Bits(now: Sample)

  function RunInputs(d: Devices, b: Bus, inputs: seq<Input>): Bus
    decreases |inputs|
  {
    if inputs == [] then b
    else RunInputs(d, if inputs[0].Reset? then UnderReset(b) else Step(d, b, inputs[0].now), inputs[1..])
  }

  /** Every state reachable from reset, under any samples and further resets, satisfies the invariant;
      so the assertion that a device is selected never fails. */
  lemma {:induction false} ReachableInv(d: Devices, b: Bus, inputs: seq<Input>)
    requires Inv(b.core)
    ensures Inv(RunInputs(d, b, inputs).core)
    decreases |inputs|
  {
    hide Decoded;
    if inputs != [] {
      if inputs[0].Bits? {
        StepInv(d, b, inputs[0].now);
      }
      ReachableInv(d, if inputs[0].Reset? then UnderReset(b) else Step(d, b, inputs[0].now), inputs[1..]);
    }
  }

  lemma StepInv(d: Devices, b: Bus, now: Sample)
    requires Inv(b.core)
    ensures Inv(Step(d, b, now).core)
  {
    hide Decoded, Inv;
    var c := if b.prevRst then b.core.(log := b.core.log + [BusReset]) else b.core;
    InvIgnoresLog(b.core, c.log);
    var was := Sample(b.prevScl, b.prevSda);
    if c.state == Data {
      DataInv(d, c, was, now);
    } else if c.state == Idle || c.state == Addr || c.state == SentData {
      ReceptionInv(d, c, was, now);
    } else {
      AcknowledgeInv(d, c, was, now);
    }
  }

  lemma InvIgnoresLog(c: Core, log: seq<Call>)
    requires Inv(c)
    ensures Inv(c.(log := log))
  {
  }

  /** The states that wait for SCL to fall. */
  lemma AcknowledgeInv(d: Devices, c: Core, was: Sample, now: Sample)
    requires Inv(c) && (c.state == GotAddr || c.state == GotData || c.state == SendAckNak || c.state == GotAckNak)
    ensures Inv(Decoded(d, c, was, now))
  {
    hide ShiftIn, ByteBits, ByteOf, Addressed;
  }

  /** A start condition, an address bit or the controller's acknowledgement. */
  lemma ReceptionInv(d: Devices, c: Core, was: Sample, now: Sample)
    requires Inv(c) && (c.state == Idle || c.state == Addr || c.state == SentData)
    ensures Inv(Decoded(d, c, was, now))
  {
    hide ShiftIn, ByteBits, ByteOf, Addressed;
    AddressedInv(d, c.(currByte := ShiftIn(c.currByte, now.sda), numBits := c.numBits + 1));
  }

  lemma AddressedInv(d: Devices, c: Core)
    ensures Inv(Addressed(d, c))
  {
    hide AddressOf, ByteBits;
  }

  /** Stop, repeated start, a bit out or a bit in. */
  lemma DataInv(d: Devices, c: Core, was: Sample, now: Sample)
    requires Inv(c) && c.state == Data
    ensures Inv(Decoded(d, c, was, now))
  {
    hide ShiftIn, ByteBits, ByteOf, Addressed;
  }

  lemma SelectedWhereCalled(c: Core)
    requires Inv(c)
    ensures c.state == SentData ==> c.device.Some?
  {
  }

  lemma DrivenIgnoresLog(c: Core, was: Sample, now: Sample)
    ensures Driven(c.(log := c.log + [BusReset]), was, now) == Driven(c, was, now)
  {
  }

  /** From any state at all, one reset and then any samples and further resets. */
  lemma ReachableFromReset(d: Devices, b: Bus, inputs: seq<Input>)
    ensures Inv(RunInputs(d, b, [Reset] + inputs).core)
  {
    assert ([Reset] + inputs)[1..] == inputs;
    ReachableInv(d, UnderReset(b), inputs);
  }

  /** Repeating a sample never changes the protocol state. */
  lemma RepeatIsIgnored(d: Devices, b: Bus)
    requires !b.prevRst
    ensures Step(d, b, Sample(b.prevScl, b.prevSda)) == b
  {
  }

  // ----- the device object -------------------------------------------------------------------

  /** `i2cdpi`; the calls it makes on devices are appended to `log`. */
  class I2cDpi {
    const devices: Devices
    var state: State
    var currByte: Reg8
    var numBits: nat
    var currDevice: Option<nat>
    var reading: bool
    var sendAck: bool
    var prevRst: bool
    var prevScl: bool
    var prevSda: bool
    var log: seq<Call>

    ghost function Value(): Bus
      reads this
    {
      Bus(Core(state, currByte, numBits, currDevice, reading, sendAck, log), prevRst, prevScl, prevSda)
    }

    /** The state is defined only after a reset, so construction ends with one. */
    constructor (devices: Devices)
      ensures this.devices == devices && Inv(Value().core) && Value().prevRst && log == []
    {
      this.devices := devices;
      state, currByte, numBits, currDevice := Idle, Zeros(8), 0, None;
      reading, sendAck, prevRst, prevScl, prevSda, log := false, true, true, true, true, [];
    }

    method Reset() returns (sda: bool, scl: bool)
      modifies this
      ensures Value() == UnderReset(old(Value())) && sda && scl
    {
      state, numBits := Idle, 0;
      currDevice := None;
      reading, sendAck := false, true;
      prevRst, prevScl, prevSda := true, true, true;
      return prevSda, prevScl;
    }

    /** `decode`: the new state and the level driven onto SDA; SCL is never driven. */
    method Decode(scl: bool, sda: bool) returns (sdaOut: bool, sclOut: bool)
      requires Inv(Value().core)
      modifies this
      ensures Value() == Step(devices, old(Value()), Sample(scl, sda)) && Inv(Value().core)
      ensures sdaOut == Output(old(Value()), Sample(scl, sda)) && sclOut
    {
      hide Decoded, Driven, Inv;
      ghost var was := Value();
      SelectedWhereCalled(was.core);
      StepInv(devices, was, Sample(scl, sda));
      DrivenIgnoresLog(was.core, Sample(prevScl, prevSda), Sample(scl, sda));
      if prevRst {
        log := log + [BusReset];
        prevRst := false;
      }
      sclOut := true;
      sdaOut := Advance(scl, sda);
      prevSda, prevScl := sda, scl;
    }

    /** The switch over the states. */
    method Advance(scl: bool, sda: bool) returns (sdaOut: bool)
      requires state == SentData ==> currDevice.Some?
      modifies this
      ensures Value().core == Decoded(devices, old(Value().core), Sample(old(prevScl), old(prevSda)), Sample(scl, sda))
      ensures sdaOut == Driven(old(Value().core), Sample(old(prevScl), old(prevSda)), Sample(scl, sda))
      ensures prevRst == old(prevRst) && prevScl == old(prevScl) && prevSda == old(prevSda)
    {
      hide Decoded, Driven;
      if state == Data {
        sdaOut := InData(scl, sda);
      } else if state == Idle || state == Addr || state == SentData {
        sdaOut := InReception(scl, sda);
      } else {
        sdaOut := InAcknowledge(scl, sda);
      }
    }

    /** The states that wait for SCL to fall. */
    method InAcknowledge(scl: bool, sda: bool) returns (sdaOut: bool)
      requires state == GotAddr || state == GotData || state == SendAckNak || state == GotAckNak
      modifies this
      ensures Value().core == Decoded(devices, old(Value().core), Sample(old(prevScl), old(prevSda)), Sample(scl, sda))
      ensures sdaOut == Driven(old(Value().core), Sample(old(prevScl), old(prevSda)), Sample(scl, sda))
      ensures prevRst == old(prevRst) && prevScl == old(prevScl) && prevSda == old(prevSda)
    {
      sdaOut := true;
      if state == SendAckNak {
        sdaOut := currDevice.None?;
        if prevScl && !scl {
          state := Data;
        }
      } else if state == GotAckNak {
        if prevScl && !scl {
          state := Data;
        }
      } else if prevScl && !scl {
        sdaOut := !sendAck;
        state := SendAckNak;
      }
    }

    /** A start condition, an address bit or the controller's acknowledgement. */
    method InReception(scl: bool, sda: bool) returns (sdaOut: bool)
      requires state == Idle || state == Addr || (state == SentData && currDevice.Some?)
      modifies this
      ensures Value().core == Decoded(devices, old(Value().core), Sample(old(prevScl), old(prevSda)), Sample(scl, sda))
      ensures sdaOut == Driven(old(Value().core), Sample(old(prevScl), old(prevSda)), Sample(scl, sda))
      ensures prevRst == old(prevRst) && prevScl == old(prevScl) && prevSda == old(prevSda)
    {
      hide ByteBits, ShiftIn, Addressed;
      sdaOut := true;
      if state == Idle {
        if prevSda && !sda {
          log := log + [StartCond];
          state := Addr;
          numBits := 0;
        }
      } else if state == Addr {
        if !prevScl && scl {
          currByte := ShiftIn(currByte, sda);
          numBits := numBits + 1;
          if numBits >= 8 {
            GotAddress();
          }
        }
      } else if !prevScl && scl {
        if !sda {
          log := log + [ReadByte(currDevice.value)];
          currByte := ByteBits(devices.supply(log));
        }
        numBits := 0;
        state := GotAckNak;
      }
    }

    /** The eighth bit of a first byte: look the device up and tell it. */
    method GotAddress()
      requires state == Addr
      modifies this
      ensures Value().core == Addressed(devices, old(Value().core))
      ensures prevRst == old(prevRst) && prevScl == old(prevScl) && prevSda == old(prevSda)
    {
      hide AddressOf, ByteBits;
      var addr := AddressOf(currByte);
      reading := currByte[7];
      if addr in devices.present {
        currDevice := Some(addr);
        log := log + [AccessStarting(addr, reading)];
        if reading {
          log := log + [ReadByte(addr)];
          currByte := ByteBits(devices.supply(log));
        }
        sendAck := true;
      } else {
        currDevice := None;
        sendAck := false;
      }
      numBits := 0;
      state := GotAddr;
    }

    /** The data state: stop, repeated start, a bit out or a bit in. */
    method InData(scl: bool, sda: bool) returns (sdaOut: bool)
      requires state == Data
      modifies this
      ensures Value().core == Decoded(devices, old(Value().core), Sample(old(prevScl), old(prevSda)), Sample(scl, sda))
      ensures sdaOut == Driven(old(Value().core), Sample(old(prevScl), old(prevSda)), Sample(scl, sda))
      ensures prevRst == old(prevRst) && prevScl == old(prevScl) && prevSda == old(prevSda)
    {
      hide ByteBits, ByteOf, ShiftIn;
      sdaOut := true;
      if scl && !prevSda && sda {
        if currDevice.Some? {
          log := log + [StopCond(currDevice.value)];
          currDevice := None;
        }
        state := Idle;
      } else if scl && prevSda && !sda {
        if currDevice.Some? {
          log := log + [RestartCond(currDevice.value)];
          currDevice := None;
        }
        state := Addr;
        numBits := 0;
      } else if currDevice.Some? {
        if reading {
          sdaOut := currByte[0];
          if prevScl && !scl {
            currByte := ShiftIn(currByte, true);
            numBits := numBits + 1;
            if numBits >= 8 {
              state := SentData;
            }
          }
        } else if !prevScl && scl {
          currByte := ShiftIn(currByte, sda);
          numBits := numBits + 1;
          if numBits >= 8 {
            log := log + [WriteByte(currDevice.value, ByteOf(currByte))];
            sendAck := devices.accept(log);
            numBits := 0;
            state := GotData;
          }
        }
      }
    }
  }
}
