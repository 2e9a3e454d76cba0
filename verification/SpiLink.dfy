/** The bit layer below the byte exchanges: `launchEdge` and `sampleEdge` of `spidevicedpi` with any
    device behind them, chip select asserted. */
module SpiLink {
  import opened Words
  import opened Crc
  import MicroSd
  import FlashDevice
  import LcdDevice

  /** What a device answers when it is asked for a byte, and how it takes one. */
  datatype Answer<D> = Answer(state: D, byte: Option<byte>)

  datatype Device<!D> = Device(read: D -> Answer<D>, write: (D, byte) -> D) {
    /** Being asked again does not change a device that drives nothing. */
    ghost predicate Settles(s: D) {
      read(s).byte.None? ==> read(read(s).state) == Answer(read(s).state, None)
    }
  }

  /** The shift registers, as bits, most significant first; `outBits` counts those still to launch. */
  datatype Wire<D> = Wire(device: D, inByte: seq<bool>, outBits: nat, outByte: seq<bool>) {
    ghost predicate Valid() {
      |inByte| < 8 && outBits < 8 && |outByte| == 8
    }
  }

  datatype Launched<D> = Launched(wire: Wire<D>, cipo: bool)

  /** `launchEdge`: a device with nothing to send is asked again at every bit. */
  function Launch<D>(dev: Device<D>, w: Wire<D>): (r: Launched<D>)
    requires w.Valid()
    ensures r.wire.Valid()
  {
    var (device, outBits, outByte) :=
      if w.outBits == 0 then
        var reply := dev.read(w.device);
        if reply.byte.Some? then (reply.state, 8, ByteBits(reply.byte.value)) else (reply.state, 1, w.outByte)
      else (w.device, w.outBits, w.outByte);
    Launched(w.(device := device, outBits := outBits - 1, outByte := outByte[1..] + [false]), outByte[0])
  }

  /** `sampleEdge`. */
  function Sample<D>(dev: Device<D>, w: Wire<D>, copi: bool): (r: Wire<D>)
    requires w.Valid()
    ensures r.Valid()
  {
    if |w.inByte| == 7 then w.(device := dev.write(w.device, ByteOf(w.inByte + [copi])), inByte := [])
    else w.(inByte := w.inByte + [copi])
  }

  datatype Clocked<D> = Clocked(wire: Wire<D>, cipo: seq<bool>)

  /** One clock a bit: the launch of the device's bit, then the sampling of the controller's. */
  function Clock<D>(dev: Device<D>, w: Wire<D>, copi: seq<bool>): (r: Clocked<D>)
    requires w.Valid()
    ensures r.wire.Valid() && |r.cipo| == |copi|
    decreases |copi|
  {
    if copi == [] then Clocked(w, [])
    else
      var l := Launch(dev, w);
      var r := Clock(dev, Sample(dev, l.wire, copi[0]), copi[1..]);
      Clocked(r.wire, [l.cipo] + r.cipo)
  }

  function Aligned8<D>(device: D): Wire<D> {
    Wire(device, [], 0, Zeros(8))
  }

  lemma ClockOne<D>(dev: Device<D>, w: Wire<D>, copi: seq<bool>)
    requires w.Valid() && copi != []
    ensures var l := Launch(dev, w);
            var r := Clock(dev, Sample(dev, l.wire, copi[0]), copi[1..]);
            Clock(dev, w, copi) == Clocked(r.wire, [l.cipo] + r.cipo)
  {
    hide Launch, Sample;
  }

  lemma ClockNone<D>(dev: Device<D>, w: Wire<D>)
    requires w.Valid()
    ensures Clock(dev, w, []) == Clocked(w, [])
  {
  }

  /** A bit in the middle of a driven byte. */
  lemma DrivenLaunch<D>(dev: Device<D>, device: D, collected: seq<bool>, out: seq<bool>, j: nat)
    requires |out| == 8 && 0 < j <= 7 && |collected| == j
    ensures Launch(dev, Wire(device, collected, 8 - j, out[j..] + Zeros(j))) ==
            Launched(Wire(device, collected, 7 - j, out[j + 1..] + Zeros(j + 1)), out[j])
  {
    assert (out[j..] + Zeros(j))[1..] + [false] == out[j + 1..] + Zeros(j + 1);
  }

  /** The rest of a byte that the device drives: `j` bits have been exchanged. */
  lemma {:induction false} DrivenBits<D>(dev: Device<D>, device: D, out: seq<bool>, copi: seq<bool>, j: nat)
    requires |out| == |copi| == 8 && 0 < j <= 7
    ensures Clock(dev, Wire(device, copi[..j], 8 - j, out[j..] + Zeros(j)), copi[j..]) ==
            Clocked(Aligned8(dev.write(device, ByteOf(copi))), out[j..])
    decreases 8 - j
  {
    hide ByteOf, Launch, Clock;
    ClockOne(dev, Wire(device, copi[..j], 8 - j, out[j..] + Zeros(j)), copi[j..]);
    DrivenLaunch(dev, device, copi[..j], out, j);
    assert copi[..j] + [copi[j]] == copi[..j + 1] && copi[j..][1..] == copi[j + 1..];
    assert out[j..] == [out[j]] + out[j + 1..];
    if j < 7 {
      DrivenBits(dev, device, out, copi, j + 1);
    } else {
      assert copi[..8] == copi && copi[8..] == [] && out[8..] + Zeros(8) == Zeros(8);
      ClockNone(dev, Aligned8(dev.write(device, ByteOf(copi))));
    }
  }

  /** The same for a device that drives nothing. */
  lemma {:induction false} IdleBits<D>(dev: Device<D>, device: D, copi: seq<bool>, j: nat)
    requires |copi| == 8 && j <= 7 && dev.read(device) == Answer(device, None)
    ensures Clock(dev, Wire(device, copi[..j], 0, Zeros(8)), copi[j..]) ==
            Clocked(Aligned8(dev.write(device, ByteOf(copi))), Zeros(8 - j))
    decreases 8 - j
  {
    hide ByteOf, Clock;
    var w := Wire(device, copi[..j], 0, Zeros(8));
    ClockOne(dev, w, copi[j..]);
    var l := Launch(dev, w);
    assert Zeros(8)[1..] + [false] == Zeros(8);
    var next := Sample(dev, l.wire, copi[j]);
    assert copi[..j] + [copi[j]] == copi[..j + 1] && copi[j..][1..] == copi[j + 1..];
    assert Zeros(8 - j) == [false] + Zeros(7 - j);
    if j < 7 {
      IdleBits(dev, device, copi, j + 1);
    } else {
      assert copi[..8] == copi && copi[8..] == [];
      ClockNone(dev, next);
    }
  }

  /** From byte alignment, eight clocks are one byte exchange and return to byte alignment: the device is
      asked once for its byte and then given ours; an idle device's byte is 0x00. */
  lemma EightClocksAreOneExchange<D>(dev: Device<D>, s: D, b: byte)
    requires dev.Settles(s)
    ensures var reply := dev.read(s);
            Clock(dev, Aligned8(s), ByteBits(b)) ==
            Clocked(Aligned8(dev.write(reply.state, b)), ByteBits(if reply.byte.Some? then reply.byte.value else 0))
  {
    hide ByteOf, ByteBits, Clock;
    ClockOne(dev, Aligned8(s), ByteBits(b));
    var copi, reply := ByteBits(b), dev.read(s);
    ByteOfByteBits(b);
    var l := Launch(dev, Aligned8(s));
    if reply.byte.Some? {
      var out := ByteBits(reply.byte.value);
      assert l.wire.outByte == out[1..] + Zeros(1);
      assert [] + [copi[0]] == copi[..1];
      DrivenBits(dev, reply.state, out, copi, 1);
      assert out == [out[0]] + out[1..];
    } else {
      assert dev.read(reply.state) == Answer(reply.state, None);
      assert Zeros(8)[1..] + [false] == Zeros(8);
      assert [] + [copi[0]] == copi[..1];
      IdleBits(dev, reply.state, copi, 1);
      ZeroBits();
      assert Zeros(8) == [false] + Zeros(7);
    }
  }

  // ----- the three devices -------------------------------------------------------------------

  ghost function CardDevice(): Device<MicroSd.State> {
    Device((s: MicroSd.State) => if s.Valid() then Answer(MicroSd.ReadByte(s).state, MicroSd.ReadByte(s).byte) else Answer(s, None),
           (s: MicroSd.State, b: byte) => if s.Valid() then MicroSd.WriteByte(s, b) else s)
  }

  ghost function FlashChip(): Device<FlashDevice.State> {
    Device((s: FlashDevice.State) =>
             if s.Valid() then Answer(FlashDevice.ReadByte(s).state, FlashDevice.ReadByte(s).byte) else Answer(s, None),
           (s: FlashDevice.State, b: byte) => if s.Valid() then FlashDevice.WriteByte(s, b) else s)
  }

  /** The display never drives the line. */
  ghost function Display(): Device<LcdDevice.State> {
    Device((s: LcdDevice.State) => Answer(s, None), (s: LcdDevice.State, b: byte) => if s.Valid() then LcdDevice.WriteByte(s, b) else s)
  }

  lemma CardExchanges(s: MicroSd.State, b: byte)
    requires s.Valid()
    ensures var e := MicroSd.Exchange(s, b);
            Clock(CardDevice(), Aligned8(s), ByteBits(b)) == Clocked(Aligned8(e.state), ByteBits(e.byte))
  {
    hide MicroSd.WriteByte, Clock;
    EightClocksAreOneExchange(CardDevice(), s, b);
  }

  lemma FlashExchanges(s: FlashDevice.State, b: byte)
    requires s.Valid()
    ensures var e := FlashDevice.Exchange(s, b);
            Clock(FlashChip(), Aligned8(s), ByteBits(b)) == Clocked(Aligned8(e.0), ByteBits(e.1))
  {
    hide FlashDevice.WriteByte, Clock;
    EightClocksAreOneExchange(FlashChip(), s, b);
  }

  lemma DisplayExchanges(s: LcdDevice.State, b: byte)
    requires s.Valid()
    ensures Clock(Display(), Aligned8(s), ByteBits(b)) == Clocked(Aligned8(LcdDevice.WriteByte(s, b)), ByteBits(0))
  {
    hide LcdDevice.WriteByte, Clock;
    EightClocksAreOneExchange(Display(), s, b);
  }

  lemma ByteOfByteBits(b: byte)
    ensures ByteOf(ByteBits(b)) == b
  {
    hide NatBits, BitsNat;
    Pow2Eight();
    BitsNatOfNatBits(b, 8);
  }

  lemma ZeroBits()
    ensures ByteBits(0) == Zeros(8)
  {
    ZeroNatBits(8);
  }

  lemma {:induction false} ZeroNatBits(k: nat)
    ensures NatBits(0, k) == Zeros(k)
  {
    if k > 0 {
      ZeroNatBits(k - 1);
    }
  }
}
