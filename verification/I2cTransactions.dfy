/** Correctly signalled I2C transactions, and the proof that the decoder turns them into exactly the
    byte-level device calls they stand for. */
module I2cTransactions {
  import opened Words
  import opened Crc
  import opened I2cBus

  // ----- signals -----------------------------------------------------------------------------

  /** One SCL pulse: while SCL is low SDA may do anything (`noise`) before it settles on `bit`, which
      then holds for `highs + 1` samples of high SCL. */
  datatype Pulse = Pulse(noise: seq<bool>, bit: bool, highs: nat)

  /** Eight bits and the acknowledge pulse. */
  datatype ByteFrame = ByteFrame(bits: seq<Pulse>, ack: Pulse) {
    ghost predicate Valid() {
      |bits| == 8
    }
  }

  /** How a segment ends: SDA rises, or falls again, during a high SCL. */
  datatype End = Stop(noise: seq<bool>, lows: nat, highs: nat) | Restart(noise: seq<bool>, highs: nat, lows: nat)

  /** An addressed stretch of a transaction: first byte, further bytes, end.  `idle` and `lows` describe
      the start condition when one is needed. */
  datatype Segment = Segment(idle: nat, lows: nat, first: ByteFrame, rest: seq<ByteFrame>, end: End) {
    ghost predicate Valid() {
      first.Valid() && forall i :: 0 <= i < |rest| ==> rest[i].Valid()
    }
  }

  function Level(scl: bool, sda: bool, n: nat): (r: seq<Sample>)
    ensures |r| == n
  {
    if n == 0 then [] else [Sample(scl, sda)] + Level(scl, sda, n - 1)
  }

  function LowNoise(noise: seq<bool>): (r: seq<Sample>)
    ensures |r| == |noise|
  {
    if noise == [] then [] else [Sample(false, noise[0])] + LowNoise(noise[1..])
  }

  function PulseSamples(p: Pulse): (r: seq<Sample>)
    ensures |r| == |p.noise| + p.highs + 2
  {
    LowNoise(p.noise) + [Sample(false, p.bit)] + Level(true, p.bit, p.highs + 1)
  }

  function PulsesSamples(ps: seq<Pulse>): seq<Sample> {
    if ps == [] then [] else PulseSamples(ps[0]) + PulsesSamples(ps[1..])
  }

  function FrameSamples(f: ByteFrame): seq<Sample> {
    PulsesSamples(f.bits) + PulseSamples(f.ack)
  }

  function FramesSamples(fs: seq<ByteFrame>): seq<Sample> {
    if fs == [] then [] else FrameSamples(fs[0]) + FramesSamples(fs[1..])
  }

  function EndSamples(e: End): seq<Sample> {
    match e
    case Stop(noise, lows, highs) => PulseSamples(Pulse(noise, false, lows)) + Level(true, true, highs + 1)
    case Restart(noise, highs, lows) => PulseSamples(Pulse(noise, true, highs)) + Level(true, false, lows + 1)
  }

  function StartSamples(s: Segment): seq<Sample> {
    Level(true, true, s.idle) + Level(true, false, s.lows + 1)
  }

  /** A segment after a stop needs a start condition; after a restart it follows on. */
  function SegmentSamples(s: Segment, start: bool): seq<Sample> {
    (if start then StartSamples(s) else []) + FrameSamples(s.first) + FramesSamples(s.rest) + EndSamples(s.end)
  }

  function SessionSamples(segs: seq<Segment>, start: bool): seq<Sample> {
    if segs == [] then [] else SegmentSamples(segs[0], start) + SessionSamples(segs[1..], segs[0].end.Stop?)
  }

  // ----- meaning -----------------------------------------------------------------------------

  function Value(ps: seq<Pulse>): (r: seq<bool>)
    ensures |r| == |ps|
  {
    if ps == [] then [] else [ps[0].bit] + Value(ps[1..])
  }

  /** The calls for the bytes of a write, in order. */
  function WriteCalls(addr: nat, fs: seq<ByteFrame>): seq<Call>
    requires forall i :: 0 <= i < |fs| ==> fs[i].Valid()
  {
    if fs == [] then []
    else
      assert fs[0].Valid();
      [WriteByte(addr, ByteOf(Value(fs[0].bits)))] + WriteCalls(addr, fs[1..])
  }

  /** A read asks the device for one byte at once and for another after each acknowledged byte. */
  function ReadCalls(addr: nat, fs: seq<ByteFrame>): seq<Call> {
    if fs == [] then []
    else (if fs[0].ack.bit then [] else [ReadByte(addr)]) + ReadCalls(addr, fs[1..])
  }

  /** The first byte signalled, as a number: twice the address, and one more for a read. */
  function FirstByte(s: Segment): byte
    requires s.Valid()
  {
    ByteOf(Value(s.first.bits))
  }

  function SegmentAddress(s: Segment): (addr: nat)
    requires s.Valid()
    ensures FirstByte(s) as int == 2 * addr + (if SegmentReads(s) then 1 else 0)
  {
    FirstByte(s) as int / 2
  }

  predicate SegmentReads(s: Segment)
    requires s.Valid()
  {
    FirstByte(s) as int % 2 == 1
  }

  /** The decoder's split of a first byte. */
  lemma AddressIsUpperBits(r: Reg8)
    ensures AddressOf(r) == ByteOf(r) as int / 2 && (r[7] <==> ByteOf(r) as int % 2 == 1)
  {
  }

  /** The calls a segment stands for: none for an absent address. */
  function BodyCalls(present: set<nat>, s: Segment): seq<Call>
    requires s.Valid()
  {
    var addr := SegmentAddress(s);
    if addr !in present then []
    else if SegmentReads(s) then [AccessStarting(addr, true), ReadByte(addr)] + ReadCalls(addr, s.rest)
    else [AccessStarting(addr, false)] + WriteCalls(addr, s.rest)
  }

  function EndCalls(present: set<nat>, s: Segment): seq<Call>
    requires s.Valid()
  {
    var addr := SegmentAddress(s);
    if addr !in present then [] else if s.end.Stop? then [StopCond(addr)] else [RestartCond(addr)]
  }

  function SessionCalls(present: set<nat>, segs: seq<Segment>, start: bool): seq<Call>
    requires forall i :: 0 <= i < |segs| ==> segs[i].Valid()
  {
    if segs == [] then []
    else (if start then [StartCond] else []) + BodyCalls(present, segs[0]) + EndCalls(present, segs[0])
         + SessionCalls(present, segs[1..], segs[0].end.Stop?)
  }

  // ----- edges -------------------------------------------------------------------------------

  lemma {:induction false} RunJoin(d: Devices, b: Bus, x: seq<Sample>, y: seq<Sample>)
    ensures var r := Run(d, b, x);
            var r' := Run(d, r.bus, y);
            Run(d, b, x + y) == Result(r'.bus, r.out + r'.out)
    decreases |x|
  {
    hide Step, Output;
    if x == [] {
      assert x + y == y;
    } else {
      assert (x + y)[1..] == x[1..] + y;
      RunJoin(d, Step(d, b, x[0]), x[1..], y);
    }
  }

  /** Holding a level repeats the previous sample. */
  lemma {:induction false} HoldIsIgnored(d: Devices, b: Bus, n: nat)
    requires !b.prevRst
    ensures var r := Run(d, b, Level(b.prevScl, b.prevSda, n));
            r.bus == b && r.out == Same(Output(b, Sample(b.prevScl, b.prevSda)), n)
    decreases n
  {
    hide Step, Output;
    if n > 0 {
      RepeatIsIgnored(d, b);
      HoldIsIgnored(d, b, n - 1);
      assert Level(b.prevScl, b.prevSda, n)[1..] == Level(b.prevScl, b.prevSda, n - 1);
    }
  }

  function Same(x: bool, n: nat): (r: seq<bool>)
    ensures |r| == n
  {
    if n == 0 then [] else [x] + Same(x, n - 1)
  }

  /** While SCL stays low nothing happens, whatever SDA does. */
  lemma {:induction false} LowIsIgnored(d: Devices, c: Core, sda: bool, noise: seq<bool>)
    requires c.state != Idle
    ensures exists last :: Run(d, Bus(c, false, false, sda), LowNoise(noise)).bus == Bus(c, false, false, last)
    decreases |noise|
  {
    if noise == [] {
      assert Run(d, Bus(c, false, false, sda), LowNoise(noise)).bus == Bus(c, false, false, sda);
    } else {
      LowIsIgnored(d, c, noise[0], noise[1..]);
      assert LowNoise(noise)[1..] == LowNoise(noise[1..]);
      assert Step(d, Bus(c, false, false, sda), Sample(false, noise[0])) == Bus(c, false, false, noise[0]);
    }
  }

  /** The falling and the rising edge of a pulse, as they act on the protocol state. */
  function Fall(c: Core): Core {
    match c.state
    case GotAddr => c.(state := SendAckNak)
    case GotData => c.(state := SendAckNak)
    case SendAckNak => c.(state := Data)
    case GotAckNak => c.(state := Data)
    case Data =>
      if c.device.Some? && c.reading then
        c.(currByte := ShiftIn(c.currByte, true), numBits := c.numBits + 1,
           state := if c.numBits + 1 >= 8 then SentData else Data)
      else c
    case _ => c
  }

  function Rise(d: Devices, c: Core, bit: bool): Core {
    Decoded(d, c, Sample(false, bit), Sample(true, bit))
  }

  lemma FallingSample(d: Devices, c: Core, sda: bool, x: bool)
    requires c.state != Idle
    ensures Step(d, Bus(c, false, true, sda), Sample(false, x)) == Bus(Fall(c), false, false, x)
    ensures Fall(c).state != Idle
  {
  }

  /** A pulse is a fall, a low stretch, a rise and a hold; its high samples all show one level. */
  lemma PulseIs(d: Devices, c: Core, sda: bool, p: Pulse)
    requires c.state != Idle
    ensures var r := Run(d, Bus(c, false, true, sda), PulseSamples(p));
            r.bus == Bus(Rise(d, Fall(c), p.bit), false, true, p.bit)
    ensures var r := Run(d, Bus(c, false, true, sda), PulseSamples(p));
            var high := r.out[|p.noise| + 1..];
            && |high| == p.highs + 1
            && high[0] == Driven(Fall(c), Sample(false, p.bit), Sample(true, p.bit))
            && high[1..] == Same(Driven(Rise(d, Fall(c), p.bit), Sample(true, p.bit), Sample(true, p.bit)), p.highs)
  {
    hide Decoded, Driven, Fall;
    var b := Bus(c, false, true, sda);
    var low := LowNoise(p.noise) + [Sample(false, p.bit)];
    LowPart(d, c, sda, p);
    var settled := Bus(Fall(c), false, false, p.bit);
    RunJoin(d, b, low, Level(true, p.bit, p.highs + 1));
    var risen := Step(d, settled, Sample(true, p.bit));
    assert risen == Bus(Rise(d, Fall(c), p.bit), false, true, p.bit);
    HoldIsIgnored(d, risen, p.highs);
    assert Level(true, p.bit, p.highs + 1)[1..] == Level(true, p.bit, p.highs);
  }

  lemma LowPart(d: Devices, c: Core, sda: bool, p: Pulse)
    requires c.state != Idle
    ensures Run(d, Bus(c, false, true, sda), LowNoise(p.noise) + [Sample(false, p.bit)]).bus ==
            Bus(Fall(c), false, false, p.bit)
  {
    hide Decoded;
    var b := Bus(c, false, true, sda);
    if p.noise == [] {
      assert LowNoise(p.noise) + [Sample(false, p.bit)] == [Sample(false, p.bit)];
      assert [Sample(false, p.bit)][1..] == [];
      FallingSample(d, c, sda, p.bit);
    } else {
      var rest := p.noise[1..];
      FallingSample(d, c, sda, p.noise[0]);
      var b1 := Bus(Fall(c), false, false, p.noise[0]);
      var tail := LowNoise(rest) + [Sample(false, p.bit)];
      assert LowNoise(p.noise) + [Sample(false, p.bit)] == [Sample(false, p.noise[0])] + tail;
      assert ([Sample(false, p.noise[0])] + tail)[1..] == tail;
      LowIsIgnored(d, Fall(c), p.noise[0], rest);
      var last :| Run(d, b1, LowNoise(rest)).bus == Bus(Fall(c), false, false, last);
      RunJoin(d, b1, LowNoise(rest), [Sample(false, p.bit)]);
      assert [Sample(false, p.bit)][1..] == [];
      LowSample(d, Fall(c), last, p.bit);
    }
  }

  lemma LowSample(d: Devices, c: Core, sda: bool, x: bool)
    requires c.state != Idle
    ensures Step(d, Bus(c, false, false, sda), Sample(false, x)) == Bus(c, false, false, x)
  {
  }

  // ----- pulses as they act on the protocol state --------------------------------------------

  function Pulsed(d: Devices, c: Core, ps: seq<Pulse>): Core
    decreases |ps|
  {
    if ps == [] then c else Pulsed(d, Rise(d, Fall(c), ps[0].bit), ps[1..])
  }

  function LastSda(sda: bool, ps: seq<Pulse>): bool {
    if ps == [] then sda else ps[|ps| - 1].bit
  }

  lemma PulseStaysBusy(d: Devices, c: Core, bit: bool)
    requires c.state != Idle
    ensures Rise(d, Fall(c), bit).state != Idle
  {
    hide ShiftIn, AddressOf;
  }

  /** The levels driven during the high samples of each pulse. */
  function HighsOf(d: Devices, b: Bus, ps: seq<Pulse>): (r: seq<seq<bool>>)
    ensures |r| == |ps|
    decreases |ps|
  {
    if ps == [] then []
    else
      var r := Run(d, b, PulseSamples(ps[0]));
      [r.out[|ps[0].noise| + 1..]] + HighsOf(d, r.bus, ps[1..])
  }

  lemma {:induction false} PulsesRun(d: Devices, c: Core, sda: bool, ps: seq<Pulse>)
    requires c.state != Idle
    ensures Run(d, Bus(c, false, true, sda), PulsesSamples(ps)).bus ==
            Bus(Pulsed(d, c, ps), false, true, LastSda(sda, ps))
    ensures Pulsed(d, c, ps).state != Idle
    decreases |ps|
  {
    hide Rise, Fall, Step, PulseSamples;
    var b := Bus(c, false, true, sda);
    if ps != [] {
      PulseIs(d, c, sda, ps[0]);
      PulseStaysBusy(d, c, ps[0].bit);
      RunJoin(d, b, PulseSamples(ps[0]), PulsesSamples(ps[1..]));
      PulsesRun(d, Rise(d, Fall(c), ps[0].bit), ps[0].bit, ps[1..]);
    }
  }

  lemma {:induction false} PulsedJoin(d: Devices, c: Core, x: seq<Pulse>, y: seq<Pulse>)
    ensures Pulsed(d, c, x + y) == Pulsed(d, Pulsed(d, c, x), y)
    decreases |x|
  {
    hide Rise, Fall;
    if x == [] {
      assert x + y == y;
    } else {
      assert (x + y)[1..] == x[1..] + y;
      PulsedJoin(d, Rise(d, Fall(c), x[0].bit), x[1..], y);
    }
  }

  lemma FrameRun(d: Devices, c: Core, sda: bool, f: ByteFrame)
    requires c.state != Idle
    ensures Run(d, Bus(c, false, true, sda), FrameSamples(f)).bus ==
            Bus(Pulsed(d, Pulsed(d, c, f.bits), [f.ack]), false, true, f.ack.bit)
    ensures Pulsed(d, Pulsed(d, c, f.bits), [f.ack]).state != Idle
  {
    hide Rise, Fall, Step, PulseSamples;
    PulsesRun(d, c, sda, f.bits);
    var c' := Pulsed(d, c, f.bits);
    PulsesRun(d, c', LastSda(sda, f.bits), [f.ack]);
    assert PulsesSamples([f.ack]) == PulseSamples(f.ack) by { assert [f.ack][1..] == []; }
    RunJoin(d, Bus(c, false, true, sda), PulsesSamples(f.bits), PulseSamples(f.ack));
  }

  // ----- the first byte ----------------------------------------------------------------------

  /** The newest `j` bits of the register are the first `j` of `v`. */
  ghost predicate Collected(r: Reg8, v: seq<bool>, j: nat) {
    |v| == 8 && j <= 8 && r[8 - j..] == v[..j]
  }

  lemma CollectBit(r: Reg8, v: seq<bool>, j: nat)
    requires Collected(r, v, j) && j < 8
    ensures Collected(ShiftIn(r, v[j]), v, j + 1)
  {
    var r' := ShiftIn(r, v[j]);
    assert r'[8 - (j + 1)..] == r[8 - j..] + [v[j]];
    assert v[..j + 1] == v[..j] + [v[j]];
  }

  lemma CollectedAll(r: Reg8, v: seq<bool>)
    requires Collected(r, v, 8)
    ensures r == v
  {
  }

  lemma AddressBit(d: Devices, c: Core, bit: bool)
    requires c.state == Addr
    ensures var c' := c.(currByte := ShiftIn(c.currByte, bit), numBits := c.numBits + 1);
            Rise(d, Fall(c), bit) == if c'.numBits >= 8 then Addressed(d, c') else c'
  {
    hide ShiftIn, Addressed;
  }

  lemma PulsedOne(d: Devices, c: Core, ps: seq<Pulse>, j: nat)
    requires j < |ps|
    ensures Pulsed(d, c, ps[j..]) == Pulsed(d, Rise(d, Fall(c), ps[j].bit), ps[j + 1..])
  {
    hide Rise, Fall;
    assert ps[j..][1..] == ps[j + 1..];
  }

  lemma PulsedNone(d: Devices, c: Core, ps: seq<Pulse>)
    ensures Pulsed(d, c, ps[|ps|..]) == c
  {
  }

  /** Eight address bits from bit `j` on. */
  lemma {:induction false} AddressBits(d: Devices, c: Core, ps: seq<Pulse>, j: nat)
    requires |ps| == 8 && j <= 7 && c.state == Addr && c.numBits == j && Collected(c.currByte, Value(ps), j)
    ensures Pulsed(d, c, ps[j..]) == Addressed(d, c.(currByte := Value(ps), numBits := 8))
    decreases 8 - j
  {
    hide Addressed, Rise, Fall, ShiftIn, Collected, Pulsed, Value;
    ValueAt(ps, j);
    CollectBit(c.currByte, Value(ps), j);
    AddressBit(d, c, ps[j].bit);
    PulsedOne(d, c, ps, j);
    var c' := c.(currByte := ShiftIn(c.currByte, ps[j].bit), numBits := j + 1);
    if j < 7 {
      AddressBits(d, c', ps, j + 1);
    } else {
      CollectedAll(c'.currByte, Value(ps));
      PulsedNone(d, Addressed(d, c'), ps);
    }
  }

  lemma {:induction false} ValueAt(ps: seq<Pulse>, j: nat)
    requires j < |ps|
    ensures Value(ps)[j] == ps[j].bit
  {
    if j > 0 {
      ValueAt(ps[1..], j - 1);
    }
  }

  /** The acknowledge pulse of a first byte or of written data: SDA is low exactly when a device is
      selected. */
  lemma AckPulse(d: Devices, c: Core, sda: bool, p: Pulse)
    requires c.state == GotAddr || c.state == GotData
    ensures Pulsed(d, c, [p]) == c.(state := SendAckNak)
    ensures HighsOf(d, Bus(c, false, true, sda), [p]) == [Same(c.device.None?, p.highs + 1)]
  {
    hide PulseSamples;
    PulseIs(d, c, sda, p);
    assert [p][1..] == [];
    var high := Run(d, Bus(c, false, true, sda), PulseSamples(p)).out[|p.noise| + 1..];
    assert high == [high[0]] + high[1..];
  }

  // ----- writing -----------------------------------------------------------------------------

  lemma WriteBit(d: Devices, c: Core, bit: bool)
    requires c.device.Some? && !c.reading && (c.state == SendAckNak || c.state == Data)
    ensures var byte' := ShiftIn(c.currByte, bit);
            var log := c.log + [WriteByte(c.device.value, ByteOf(byte'))];
            Rise(d, Fall(c), bit) ==
            if c.numBits + 1 >= 8 then
              c.(currByte := byte', numBits := 0, state := GotData, sendAck := d.accept(log), log := log)
            else c.(currByte := byte', numBits := c.numBits + 1, state := Data)
  {
    hide ShiftIn, ByteOf;
  }

  lemma {:induction false} WriteBits(d: Devices, c: Core, ps: seq<Pulse>, j: nat)
    requires |ps| == 8 && j <= 7 && c.device.Some? && !c.reading && c.numBits == j
    requires (c.state == SendAckNak || c.state == Data) && Collected(c.currByte, Value(ps), j)
    ensures var log := c.log + [WriteByte(c.device.value, ByteOf(Value(ps)))];
            Pulsed(d, c, ps[j..]) ==
            c.(currByte := Value(ps), numBits := 0, state := GotData, sendAck := d.accept(log), log := log)
    decreases 8 - j
  {
    hide Rise, Fall, ShiftIn, ByteOf, Collected, Pulsed, Value;
    ValueAt(ps, j);
    CollectBit(c.currByte, Value(ps), j);
    WriteBit(d, c, ps[j].bit);
    PulsedOne(d, c, ps, j);
    var byte' := ShiftIn(c.currByte, ps[j].bit);
    if j < 7 {
      WriteBits(d, c.(currByte := byte', numBits := j + 1, state := Data), ps, j + 1);
    } else {
      CollectedAll(byte', Value(ps));
      PulsedNone(d, Rise(d, Fall(c), ps[7].bit), ps);
    }
  }

  // ----- reading -----------------------------------------------------------------------------

  /** The shift register while a byte goes out: `j` bits have been shifted off the top. */
  function Shifted(byte: seq<bool>, j: nat): Reg8
    requires |byte| == 8 && j <= 8
  {
    byte[j..] + Same(true, j)
  }

  lemma ShiftOn(byte: seq<bool>, j: nat)
    requires |byte| == 8 && j < 8
    ensures ShiftIn(Shifted(byte, j), true) == Shifted(byte, j + 1)
  {
    SameExtends(true, j);
    assert Shifted(byte, j)[1..] + [true] == byte[j + 1..] + (Same(true, j) + [true]);
  }

  lemma {:induction false} SameExtends(x: bool, n: nat)
    ensures Same(x, n) + [x] == Same(x, n + 1)
  {
    if n > 0 {
      SameExtends(x, n - 1);
    }
  }

  /** One data pulse of a read. */
  lemma ReadBit(d: Devices, c: Core, sda: bool, byte: seq<bool>, p: Pulse, j: nat)
    requires |byte| == 8 && j <= 7 && c.device.Some? && c.reading
    requires if j == 0 then (c.state == SendAckNak || c.state == GotAckNak) && c.numBits == 0 && c.currByte == byte
             else c.state == Data && c.numBits == j - 1 && c.currByte == Shifted(byte, j - 1)
    ensures Rise(d, Fall(c), p.bit) == c.(state := Data, numBits := j, currByte := Shifted(byte, j))
    ensures Run(d, Bus(c, false, true, sda), PulseSamples(p)).bus ==
            Bus(c.(state := Data, numBits := j, currByte := Shifted(byte, j)), false, true, p.bit)
    ensures Run(d, Bus(c, false, true, sda), PulseSamples(p)).out[|p.noise| + 1..] == Same(byte[j], p.highs + 1)
  {
    hide PulseSamples, Run, Rise, Fall, Shifted, Driven;
    ReadEdges(d, c, byte, p.bit, j);
    PulseIs(d, c, sda, p);
    var high := Run(d, Bus(c, false, true, sda), PulseSamples(p)).out[|p.noise| + 1..];
    assert high == [high[0]] + high[1..];
  }

  /** What the edges of such a pulse do, and the level they show. */
  lemma ReadEdges(d: Devices, c: Core, byte: seq<bool>, bit: bool, j: nat)
    requires |byte| == 8 && j <= 7 && c.device.Some? && c.reading
    requires if j == 0 then (c.state == SendAckNak || c.state == GotAckNak) && c.numBits == 0 && c.currByte == byte
             else c.state == Data && c.numBits == j - 1 && c.currByte == Shifted(byte, j - 1)
    ensures var r := c.(state := Data, numBits := j, currByte := Shifted(byte, j));
            && Fall(c) == r && Rise(d, Fall(c), bit) == r
            && Driven(r, Sample(false, bit), Sample(true, bit)) == byte[j]
            && Driven(r, Sample(true, bit), Sample(true, bit)) == byte[j]
  {
    hide ShiftIn, Same;
    if j > 0 {
      ShiftOn(byte, j - 1);
    } else {
      assert Shifted(byte, 0) == byte by { NothingShifted(byte); }
    }
    assert Shifted(byte, j)[0] == byte[j];
  }

  lemma NothingShifted(byte: seq<bool>)
    requires |byte| == 8
    ensures Shifted(byte, 0) == byte
  {
  }

  /** Data pulses `j` to 7 of a read: each shows its bit, and nothing else happens. */
  lemma {:induction false} ReadBits(d: Devices, c: Core, sda: bool, byte: seq<bool>, ps: seq<Pulse>, j: nat)
    requires |ps| == 8 && |byte| == 8 && j <= 7 && c.device.Some? && c.reading
    requires if j == 0 then (c.state == SendAckNak || c.state == GotAckNak) && c.numBits == 0 && c.currByte == byte
             else c.state == Data && c.numBits == j - 1 && c.currByte == Shifted(byte, j - 1)
    ensures Pulsed(d, c, ps[j..]) == c.(state := Data, numBits := 7, currByte := Shifted(byte, 7))
    ensures ShownFrom(byte, ps, j, HighsOf(d, Bus(c, false, true, sda), ps[j..]))
    decreases 8 - j
  {
    hide PulseSamples, ShiftIn, Rise, Fall, Shifted, Pulsed, ShownFrom, Run;
    ReadBit(d, c, sda, byte, ps[j], j);
    PulsedOne(d, c, ps, j);
    var c' := c.(state := Data, numBits := j, currByte := Shifted(byte, j));
    HighsOne(d, Bus(c, false, true, sda), ps, j);
    if j < 7 {
      ReadBits(d, c', ps[j].bit, byte, ps, j + 1);
    } else {
      PulsedNone(d, c', ps);
      assert HighsOf(d, Bus(c', false, true, ps[7].bit), ps[8..]) == [] by { assert ps[8..] == []; }
    }
    ShownOne(byte, ps, j, HighsOf(d, Bus(c', false, true, ps[j].bit), ps[j + 1..]));
  }

  /** The high samples of pulse `i` show bit `i`, from pulse `j` on. */
  ghost predicate ShownFrom(byte: seq<bool>, ps: seq<Pulse>, j: nat, highs: seq<seq<bool>>) {
    && |byte| == |ps| && j + |highs| == |ps|
    && forall i :: 0 <= i < |highs| ==> highs[i] == Same(byte[j + i], ps[j + i].highs + 1)
  }

  lemma ShownOne(byte: seq<bool>, ps: seq<Pulse>, j: nat, rest: seq<seq<bool>>)
    requires |byte| == |ps| && j < |ps| && j + 1 + |rest| == |ps|
    requires rest != [] ==> ShownFrom(byte, ps, j + 1, rest)
    ensures ShownFrom(byte, ps, j, [Same(byte[j], ps[j].highs + 1)] + rest)
  {
    hide Same;
  }

  lemma HighsOne(d: Devices, b: Bus, ps: seq<Pulse>, j: nat)
    requires j < |ps|
    ensures var r := Run(d, b, PulseSamples(ps[j]));
            HighsOf(d, b, ps[j..]) == [r.out[|ps[j].noise| + 1..]] + HighsOf(d, r.bus, ps[j + 1..])
  {
    hide Run, PulseSamples;
    assert ps[j..][1..] == ps[j + 1..];
  }

  /** The acknowledge pulse of a read: an acknowledged byte fetches the next one. */
  lemma ReadAck(d: Devices, c: Core, p: Pulse)
    requires c.device.Some? && c.reading && c.state == Data && c.numBits == 7
    ensures var r := Pulsed(d, c, [p]);
            && r.state == GotAckNak && r.numBits == 0 && r.device == c.device && r.reading
            && r.log == c.log + (if p.bit then [] else [ReadByte(c.device.value)])
            && r.currByte == (if p.bit then ShiftIn(c.currByte, true) else ByteBits(d.supply(r.log)))
  {
    hide ByteBits;
    assert [p][1..] == [];
  }

  // ----- the bytes of a segment --------------------------------------------------------------

  /** During the high samples of a byte's acknowledge pulse, SDA is pulled low or left alone. */
  ghost predicate Acked(d: Devices, b: Bus, f: ByteFrame, yes: bool) {
    HighsOf(d, Run(d, b, PulsesSamples(f.bits)).bus, [f.ack]) == [Same(!yes, f.ack.highs + 1)]
  }

  ghost predicate FramesAcked(d: Devices, b: Bus, fs: seq<ByteFrame>, yes: bool)
    decreases |fs|
  {
    fs != [] ==> Acked(d, b, fs[0], yes) && FramesAcked(d, Run(d, b, FrameSamples(fs[0])).bus, fs[1..], yes)
  }

  /** The first byte and its acknowledge leave the addressed state. */
  lemma FirstFrame(d: Devices, c: Core, sda: bool, f: ByteFrame)
    requires f.Valid() && c.state == Addr && c.numBits == 0
    ensures Run(d, Bus(c, false, true, sda), FrameSamples(f)).bus ==
            Bus(Addressed(d, c.(currByte := Value(f.bits), numBits := 8)).(state := SendAckNak), false, true, f.ack.bit)
    ensures Acked(d, Bus(c, false, true, sda), f, ByteOf(Value(f.bits)) as int / 2 in d.present)
  {
    hide Pulsed, Run, Value, HighsOf, AddressOf, ByteOf;
    AddressIsUpperBits(Value(f.bits));
    FrameRun(d, c, sda, f);
    PulsesRun(d, c, sda, f.bits);
    assert f.bits[0..] == f.bits;
    assert Collected(c.currByte, Value(f.bits), 0);
    AddressBits(d, c, f.bits, 0);
    AckPulse(d, Pulsed(d, c, f.bits), LastSda(sda, f.bits), f.ack);
  }

  /** Between the bytes of a write to device `addr`. */
  ghost predicate Writing(c: Core, addr: nat, log: seq<Call>) {
    c.state == SendAckNak && c.device == Some(addr) && !c.reading && c.numBits == 0 && c.log == log
  }

  lemma WriteFrame(d: Devices, c: Core, sda: bool, addr: nat, log: seq<Call>, f: ByteFrame)
    requires f.Valid() && Writing(c, addr, log)
    ensures var r := Run(d, Bus(c, false, true, sda), FrameSamples(f)).bus;
            && r == Bus(r.core, false, true, f.ack.bit)
            && Writing(r.core, addr, log + [WriteByte(addr, ByteOf(Value(f.bits)))])
    ensures Acked(d, Bus(c, false, true, sda), f, true)
  {
    hide Pulsed, Run, Value, HighsOf;
    FrameRun(d, c, sda, f);
    PulsesRun(d, c, sda, f.bits);
    assert f.bits[0..] == f.bits;
    assert Collected(c.currByte, Value(f.bits), 0);
    WriteBits(d, c, f.bits, 0);
    AckPulse(d, Pulsed(d, c, f.bits), LastSda(sda, f.bits), f.ack);
  }

  lemma {:induction false} WriteFrames(d: Devices, c: Core, sda: bool, addr: nat, log: seq<Call>, fs: seq<ByteFrame>)
    requires (forall i :: 0 <= i < |fs| ==> fs[i].Valid()) && Writing(c, addr, log)
    ensures var r := Run(d, Bus(c, false, true, sda), FramesSamples(fs)).bus;
            r == Bus(r.core, false, true, r.prevSda) && Writing(r.core, addr, log + WriteCalls(addr, fs))
    ensures FramesAcked(d, Bus(c, false, true, sda), fs, true)
    decreases |fs|
  {
    hide Writing, FrameSamples, Step, ByteOf, Value, Acked;
    if fs == [] {
      assert log + [] == log;
    } else {
      assert fs[0].Valid();
      WriteFrame(d, c, sda, addr, log, fs[0]);
      var r := Run(d, Bus(c, false, true, sda), FrameSamples(fs[0])).bus;
      var call := WriteByte(addr, ByteOf(Value(fs[0].bits)));
      RunJoin(d, Bus(c, false, true, sda), FrameSamples(fs[0]), FramesSamples(fs[1..]));
      WriteFrames(d, r.core, r.prevSda, addr, log + [call], fs[1..]);
      assert log + ([call] + WriteCalls(addr, fs[1..])) == log + [call] + WriteCalls(addr, fs[1..]);
    }
  }

  /** Between the bytes of a read from device `addr`, with `byte` ready to go out. */
  ghost predicate Reading(c: Core, addr: nat, log: seq<Call>, byte: seq<bool>) {
    && (c.state == SendAckNak || c.state == GotAckNak) && c.device == Some(addr) && c.reading && c.numBits == 0
    && c.log == log && |byte| == 8 && c.currByte == byte
  }

  function LogAfterAck(addr: nat, log: seq<Call>, f: ByteFrame): seq<Call> {
    log + (if f.ack.bit then [] else [ReadByte(addr)])
  }

  /** The byte after this one: the device's next, or all ones after a refusal. */
  function ByteAfterAck(d: Devices, addr: nat, log: seq<Call>, f: ByteFrame): (r: seq<bool>)
    ensures |r| == 8
  {
    if f.ack.bit then Same(true, 8) else ByteBits(d.supply(LogAfterAck(addr, log, f)))
  }

  lemma ReadFrame(d: Devices, c: Core, sda: bool, addr: nat, log: seq<Call>, byte: seq<bool>, f: ByteFrame)
    requires f.Valid() && Reading(c, addr, log, byte)
    ensures var r := Run(d, Bus(c, false, true, sda), FrameSamples(f)).bus;
            && r == Bus(r.core, false, true, f.ack.bit)
            && Reading(r.core, addr, LogAfterAck(addr, log, f), ByteAfterAck(d, addr, log, f))
    ensures ShownFrom(byte, f.bits, 0, HighsOf(d, Bus(c, false, true, sda), f.bits))
  {
    hide Pulsed, Run, HighsOf, ShownFrom;
    FrameRun(d, c, sda, f);
    assert f.bits[0..] == f.bits;
    ReadBits(d, c, sda, byte, f.bits, 0);
    var c' := Pulsed(d, c, f.bits);
    ReadAck(d, c', f.ack);
    ShiftOn(byte, 7);
    assert Shifted(byte, 8) == Same(true, 8);
  }

  /** Every byte of a read appears on SDA, most significant bit first, in the high samples. */
  ghost predicate ReadShown(d: Devices, b: Bus, addr: nat, log: seq<Call>, byte: seq<bool>, fs: seq<ByteFrame>)
    decreases |fs|
  {
    fs != [] ==>
      && ShownFrom(byte, fs[0].bits, 0, HighsOf(d, b, fs[0].bits))
      && ReadShown(d, Run(d, b, FrameSamples(fs[0])).bus, addr, LogAfterAck(addr, log, fs[0]),
                   ByteAfterAck(d, addr, log, fs[0]), fs[1..])
  }

  lemma {:induction false} ReadFrames(d: Devices, c: Core, sda: bool, addr: nat, log: seq<Call>, byte: seq<bool>, fs: seq<ByteFrame>)
    requires (forall i :: 0 <= i < |fs| ==> fs[i].Valid()) && Reading(c, addr, log, byte)
    ensures var r := Run(d, Bus(c, false, true, sda), FramesSamples(fs)).bus;
            && r == Bus(r.core, false, true, r.prevSda)
            && exists last :: Reading(r.core, addr, log + ReadCalls(addr, fs), last)
    ensures ReadShown(d, Bus(c, false, true, sda), addr, log, byte, fs)
    decreases |fs|
  {
    hide Reading, FrameSamples, Step, ByteAfterAck, HighsOf, ShownFrom;
    if fs == [] {
      assert log + ReadCalls(addr, fs) == log;
      assert Run(d, Bus(c, false, true, sda), FramesSamples(fs)).bus == Bus(c, false, true, sda);
    } else {
      ReadFrame(d, c, sda, addr, log, byte, fs[0]);
      var r := Run(d, Bus(c, false, true, sda), FrameSamples(fs[0])).bus;
      RunJoin(d, Bus(c, false, true, sda), FrameSamples(fs[0]), FramesSamples(fs[1..]));
      var log' := LogAfterAck(addr, log, fs[0]);
      ReadFrames(d, r.core, r.prevSda, addr, log', ByteAfterAck(d, addr, log, fs[0]), fs[1..]);
      assert log' + ReadCalls(addr, fs[1..]) == log + ReadCalls(addr, fs);
    }
  }

  /** With no device selected, pulses do nothing. */
  ghost predicate Unselected(c: Core, log: seq<Call>) {
    (c.state == SendAckNak || c.state == Data) && c.device.None? && c.numBits == 0 && c.log == log
  }

  lemma {:induction false} UnselectedPulses(d: Devices, c: Core, log: seq<Call>, ps: seq<Pulse>)
    requires Unselected(c, log)
    ensures Unselected(Pulsed(d, c, ps), log)
    decreases |ps|
  {
    if ps != [] {
      assert Rise(d, Fall(c), ps[0].bit) == c.(state := Data);
      UnselectedPulses(d, c.(state := Data), log, ps[1..]);
    }
  }

  /** Nobody acknowledges then. */
  lemma UnselectedAck(d: Devices, c: Core, sda: bool, log: seq<Call>, f: ByteFrame)
    requires Unselected(c, log)
    ensures Acked(d, Bus(c, false, true, sda), f, false)
  {
    hide Pulsed, PulseSamples, Run;
    PulsesRun(d, c, sda, f.bits);
    UnselectedPulses(d, c, log, f.bits);
    var c' := Pulsed(d, c, f.bits);
    PulseIs(d, c', LastSda(sda, f.bits), f.ack);
    assert [f.ack][1..] == [];
    assert Rise(d, Fall(c'), f.ack.bit) == c'.(state := Data);
    var high := Run(d, Bus(c', false, true, LastSda(sda, f.bits)), PulseSamples(f.ack)).out[|f.ack.noise| + 1..];
    assert high == [high[0]] + high[1..];
    SameExtends(true, f.ack.highs);
  }

  lemma {:induction false} UnselectedFrames(d: Devices, c: Core, sda: bool, log: seq<Call>, fs: seq<ByteFrame>)
    requires Unselected(c, log)
    ensures var r := Run(d, Bus(c, false, true, sda), FramesSamples(fs)).bus;
            r == Bus(r.core, false, true, r.prevSda) && Unselected(r.core, log)
    ensures FramesAcked(d, Bus(c, false, true, sda), fs, false)
    decreases |fs|
  {
    hide Pulsed, FrameSamples, Step, Acked;
    if fs != [] {
      UnselectedAck(d, c, sda, log, fs[0]);
      FrameRun(d, c, sda, fs[0]);
      UnselectedPulses(d, c, log, fs[0].bits);
      var c' := Pulsed(d, c, fs[0].bits);
      UnselectedPulses(d, c', log, [fs[0].ack]);
      var r := Run(d, Bus(c, false, true, sda), FrameSamples(fs[0])).bus;
      RunJoin(d, Bus(c, false, true, sda), FrameSamples(fs[0]), FramesSamples(fs[1..]));
      UnselectedFrames(d, r.core, r.prevSda, log, fs[1..]);
    }
  }

  // ----- the end of a segment ----------------------------------------------------------------

  /** Where a segment may end. */
  ghost predicate Ending(c: Core, device: Option<nat>, log: seq<Call>) {
    && (c.state == SendAckNak || c.state == GotAckNak || c.state == Data) && c.numBits == 0
    && (c.state == Data ==> c.device.None?) && c.device == device && c.log == log
  }

  lemma EndPulse(d: Devices, c: Core, device: Option<nat>, log: seq<Call>, bit: bool)
    requires Ending(c, device, log)
    ensures var r := Rise(d, Fall(c), bit);
            r.state == Data && r.device == device && r.log == log
  {
    hide ShiftIn;
  }

  lemma EndRun(d: Devices, c: Core, sda: bool, device: Option<nat>, log: seq<Call>, e: End)
    requires Ending(c, device, log)
    ensures var r := Run(d, Bus(c, false, true, sda), EndSamples(e)).bus;
            && r == Bus(r.core, false, true, e.Stop?) && r.core.device.None?
            && (if e.Stop? then r.core.state == Idle else r.core.state == Addr && r.core.numBits == 0)
            && r.core.log == log + (if device.None? then []
                                    else if e.Stop? then [StopCond(device.value)] else [RestartCond(device.value)])
  {
    hide Rise, Fall, PulseSamples;
    var p := if e.Stop? then Pulse(e.noise, false, e.lows) else Pulse(e.noise, true, e.highs);
    var n := if e.Stop? then e.highs else e.lows;
    var b := Bus(c, false, true, sda);
    PulseIs(d, c, sda, p);
    EndPulse(d, c, device, log, p.bit);
    var b1 := Bus(Rise(d, Fall(c), p.bit), false, true, p.bit);
    RunJoin(d, b, PulseSamples(p), Level(true, !p.bit, n + 1));
    var b2 := Step(d, b1, Sample(true, !p.bit));
    assert Level(true, !p.bit, n + 1)[1..] == Level(true, !p.bit, n);
    HoldIsIgnored(d, b2, n);
  }

  // ----- a segment ---------------------------------------------------------------------------

  /** A bus ready for a segment: idle with both lines high, or past a restart. */
  ghost predicate ReadyFor(b: Bus, start: bool, log: seq<Call>) {
    && b.core.log == log && !b.prevRst && b.prevScl && b.core.device.None?
    && (if start then b.core.state == Idle && b.prevSda else b.core.state == Addr && b.core.numBits == 0)
  }

  lemma StartRun(d: Devices, b: Bus, s: Segment, log: seq<Call>)
    requires ReadyFor(b, true, log)
    ensures ReadyFor(Run(d, b, StartSamples(s)).bus, false, log + [StartCond])
  {
    RunJoin(d, b, Level(true, true, s.idle), Level(true, false, s.lows + 1));
    HoldIsIgnored(d, b, s.idle);
    var b2 := Step(d, b, Sample(true, false));
    assert Level(true, false, s.lows + 1)[1..] == Level(true, false, s.lows);
    HoldIsIgnored(d, b2, s.lows);
  }

  /** The read bytes of a segment that addresses a present device for reading. */
  ghost predicate SegmentShown(d: Devices, b: Bus, log: seq<Call>, s: Segment)
    requires s.Valid()
  {
    var addr := SegmentAddress(s);
    var asked := log + [AccessStarting(addr, true), ReadByte(addr)];
    addr in d.present && SegmentReads(s) ==>
      ReadShown(d, Run(d, b, FrameSamples(s.first)).bus, addr, asked, ByteBits(d.supply(asked)), s.rest)
  }

  /** The first byte is acknowledged exactly when the address is present; so is every further byte of a
      write. */
  ghost predicate SegmentAcked(d: Devices, b: Bus, s: Segment)
    requires s.Valid()
  {
    var present := SegmentAddress(s) in d.present;
    && Acked(d, b, s.first, present)
    && (!present || !SegmentReads(s) ==> FramesAcked(d, Run(d, b, FrameSamples(s.first)).bus, s.rest, present))
  }

  /** First byte and further bytes. */
  lemma BodyRun(d: Devices, b: Bus, s: Segment, log: seq<Call>)
    requires s.Valid() && ReadyFor(b, false, log)
    ensures var r := Run(d, b, FrameSamples(s.first) + FramesSamples(s.rest)).bus;
            && r == Bus(r.core, false, true, r.prevSda)
            && Ending(r.core, if SegmentAddress(s) in d.present then Some(SegmentAddress(s)) else None,
                      log + BodyCalls(d.present, s))
    ensures SegmentShown(d, b, log, s) && SegmentAcked(d, b, s)
  {
    hide FrameSamples, FramesSamples, Step, Run, Value, ReadCalls, WriteCalls, ReadShown, ByteBits, Acked, FramesAcked,
         AddressOf, ByteOf;
    AddressIsUpperBits(Value(s.first.bits));
    assert b == Bus(b.core, false, true, b.prevSda);
    FirstFrame(d, b.core, b.prevSda, s.first);
    RunJoin(d, b, FrameSamples(s.first), FramesSamples(s.rest));
    var r := Run(d, b, FrameSamples(s.first)).bus;
    var addr := SegmentAddress(s);
    if addr !in d.present {
      UnselectedFrames(d, r.core, r.prevSda, log, s.rest);
      assert log + [] == log;
    } else if SegmentReads(s) {
      var asked := log + [AccessStarting(addr, true), ReadByte(addr)];
      assert log + [AccessStarting(addr, true)] + [ReadByte(addr)] == asked;
      ReadFrames(d, r.core, r.prevSda, addr, asked, ByteBits(d.supply(asked)), s.rest);
      assert asked + ReadCalls(addr, s.rest) == log + BodyCalls(d.present, s);
    } else {
      var asked := log + [AccessStarting(addr, false)];
      WriteFrames(d, r.core, r.prevSda, addr, asked, s.rest);
      assert asked + WriteCalls(addr, s.rest) == log + BodyCalls(d.present, s);
    }
  }

  lemma SegmentRun(d: Devices, b: Bus, s: Segment, start: bool, log: seq<Call>)
    requires s.Valid() && ReadyFor(b, start, log)
    ensures var calls := (if start then [StartCond] else []) + BodyCalls(d.present, s) + EndCalls(d.present, s);
            ReadyFor(Run(d, b, SegmentSamples(s, start)).bus, s.end.Stop?, log + calls)
    ensures SegmentShown(d, if start then Run(d, b, StartSamples(s)).bus else b,
                         if start then log + [StartCond] else log, s)
    ensures SegmentAcked(d, if start then Run(d, b, StartSamples(s)).bus else b, s)
  {
    hide FrameSamples, FramesSamples, EndSamples, StartSamples, Step, Run, BodyCalls, SegmentShown, SegmentAcked;
    var head := if start then StartSamples(s) else [];
    var body := FrameSamples(s.first) + FramesSamples(s.rest);
    if start {
      StartRun(d, b, s, log);
    } else {
      assert Run(d, b, []).bus == b by { RunNothing(d, b); }
    }
    var b1 := Run(d, b, head).bus;
    var log1 := log + (if start then [StartCond] else []);
    assert !start ==> log1 == log;
    BodyRun(d, b1, s, log1);
    var b2 := Run(d, b1, body).bus;
    var addr := SegmentAddress(s);
    EndRun(d, b2.core, b2.prevSda, if addr in d.present then Some(addr) else None, log1 + BodyCalls(d.present, s), s.end);
    RunJoin(d, b, head, body);
    RunJoin(d, b, head + body, EndSamples(s.end));
    assert SegmentSamples(s, start) == head + body + EndSamples(s.end);
    assert log1 + BodyCalls(d.present, s) + EndCalls(d.present, s) ==
           log + ((if start then [StartCond] else []) + BodyCalls(d.present, s) + EndCalls(d.present, s));
  }

  lemma RunNothing(d: Devices, b: Bus)
    ensures Run(d, b, []).bus == b
  {
  }

  // ----- a whole session ---------------------------------------------------------------------

  ghost predicate SessionShown(d: Devices, b: Bus, log: seq<Call>, segs: seq<Segment>, start: bool)
    requires forall i :: 0 <= i < |segs| ==> segs[i].Valid()
    decreases |segs|
  {
    segs != [] ==>
      var s := segs[0];
      var calls := (if start then [StartCond] else []) + BodyCalls(d.present, s) + EndCalls(d.present, s);
      && SegmentShown(d, if start then Run(d, b, StartSamples(s)).bus else b,
                      if start then log + [StartCond] else log, s)
      && SegmentAcked(d, if start then Run(d, b, StartSamples(s)).bus else b, s)
      && SessionShown(d, Run(d, b, SegmentSamples(s, start)).bus, log + calls, segs[1..], s.end.Stop?)
  }

  /** For any list of correctly signalled writes, reads, repeated starts and transactions to absent
      addresses, with any noise during low SCL and any holding of levels, the decoder makes exactly the
      byte-level calls in order, every byte read appears on SDA most significant bit first, and first and
      written bytes are acknowledged exactly when the address is present. */
  lemma {:induction false} SessionIsDecoded(d: Devices, b: Bus, segs: seq<Segment>, start: bool, log: seq<Call>)
    requires (forall i :: 0 <= i < |segs| ==> segs[i].Valid()) && ReadyFor(b, start, log)
    ensures Run(d, b, SessionSamples(segs, start)).bus.core.log == log + SessionCalls(d.present, segs, start)
    ensures SessionShown(d, b, log, segs, start)
    decreases |segs|
  {
    hide SegmentSamples, Step, BodyCalls, EndCalls, SegmentShown, SegmentAcked, StartSamples;
    if segs == [] {
      assert log + [] == log;
    } else {
      var s := segs[0];
      assert s.Valid();
      SegmentRun(d, b, s, start, log);
      RunJoin(d, b, SegmentSamples(s, start), SessionSamples(segs[1..], s.end.Stop?));
      var b' := Run(d, b, SegmentSamples(s, start)).bus;
      var calls := (if start then [StartCond] else []) + BodyCalls(d.present, s) + EndCalls(d.present, s);
      SessionIsDecoded(d, b', segs[1..], s.end.Stop?, log + calls);
      assert log + calls + SessionCalls(d.present, segs[1..], s.end.Stop?) ==
             log + (calls + SessionCalls(d.present, segs[1..], s.end.Stop?));
    }
  }

  /** From reset: the first sample tells the devices, and a session follows. */
  lemma ResetIsReady(d: Devices, b: Bus)
    ensures ReadyFor(Step(d, UnderReset(b), Sample(true, true)), true, b.core.log + [BusReset])
  {
  }
}
