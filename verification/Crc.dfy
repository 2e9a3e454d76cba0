/** The CRC16 and CRC7 of the SD protocol, as the driver and the card model compute them, and the
    burst-error guarantee of CRC16.  Registers and bytes are sequences of bits, most significant
    first. */
module Crc {
  import opened Words

  // ----- bits --------------------------------------------------------------------------------

  function Zeros(n: nat): (r: seq<bool>)
    ensures |r| == n && forall i :: 0 <= i < n ==> !r[i]
  {
    seq(n, i => false)
  }

  /** Exclusive or of two equally long bit strings. */
  function Xor(a: seq<bool>, b: seq<bool>): (r: seq<bool>)
    requires |a| == |b|
    ensures |r| == |a| && forall i :: 0 <= i < |a| ==> r[i] == (a[i] != b[i])
  {
    seq(|a|, i requires 0 <= i < |a| => a[i] != b[i])
  }

  /** The low `k` bits of a number. */
  function NatBits(n: nat, k: nat): (s: seq<bool>)
    ensures |s| == k
  {
    if k == 0 then [] else NatBits(n / 2, k - 1) + [n % 2 == 1]
  }

  function BitsNat(s: seq<bool>): nat {
    if s == [] then 0 else 2 * BitsNat(s[..|s| - 1]) + (if s[|s| - 1] then 1 else 0)
  }

  lemma {:induction false} BitsNatOfNatBits(n: nat, k: nat)
    requires n < Pow2(k)
    ensures BitsNat(NatBits(n, k)) == n
    decreases k
  {
    if k > 0 {
      BitsNatOfNatBits(n / 2, k - 1);
      assert NatBits(n, k)[..k - 1] == NatBits(n / 2, k - 1);
    }
  }

  lemma {:induction false} BitsNatBound(s: seq<bool>)
    ensures BitsNat(s) < Pow2(|s|)
  {
    if s != [] {
      BitsNatBound(s[..|s| - 1]);
    }
  }

  lemma OddEven(a: nat, b: nat, x: bool, y: bool)
    requires 2 * a + (if x then 1 else 0) == 2 * b + (if y then 1 else 0)
    ensures a == b && x == y
  {
  }

  lemma {:induction false} BitsNatInjective(s: seq<bool>, t: seq<bool>)
    requires |s| == |t| && BitsNat(s) == BitsNat(t)
    ensures s == t
    decreases |s|
  {
    if s != [] {
      var n := |s| - 1;
      var a, b := BitsNat(s[..n]), BitsNat(t[..n]);
      OddEven(a, b, s[n], t[n]);
      BitsNatInjective(s[..n], t[..n]);
      assert s == s[..n] + [s[n]] && t == t[..n] + [t[n]];
    }
  }

  lemma Pow2Eight()
    ensures Pow2(8) == 0x100
  {
    assert Pow2(4) == 16;
  }

  function ByteBits(b: byte): (s: seq<bool>)
    ensures |s| == 8
  {
    NatBits(b, 8)
  }

  /** The byte with the given eight bits. */
  function ByteOf(s: seq<bool>): byte
    requires |s| == 8
  {
    Pow2Eight();
    BitsNatBound(s);
    BitsNat(s)
  }

  function Bits(data: seq<byte>): (s: seq<bool>)
    ensures |s| == 8 * |data|
  {
    if data == [] then [] else ByteBits(data[0]) + Bits(data[1..])
  }

  lemma {:induction false} BitsJoin(a: seq<byte>, b: seq<byte>)
    ensures Bits(a + b) == Bits(a) + Bits(b)
  {
    if a == [] {
      assert a + b == b;
    } else {
      assert (a + b)[1..] == a[1..] + b;
      BitsJoin(a[1..], b);
    }
  }

  // ----- CRC16 -------------------------------------------------------------------------------

  type Reg16 = s: seq<bool> | |s| == 16 witness seq(16, i => false)

  /** The set bits of the polynomial 0x1021. */
  predicate Tap16(i: nat) {
    i == 3 || i == 10 || i == 15
  }

  /** One data bit: the register moves up, and takes the polynomial when the bit shifted out differs
      from the data bit. */
  function Crc16Bit(crc: Reg16, bit: bool): (r: Reg16)
    ensures forall i :: 0 <= i < 15 ==> r[i] == (crc[i + 1] != (crc[0] != bit && Tap16(i)))
    ensures r[15] == (crc[0] != bit)
  {
    seq(16, i requires 0 <= i < 16 => (i < 15 && crc[i + 1]) != (crc[0] != bit && Tap16(i)))
  }

  function Crc16Bits(crc: Reg16, bits: seq<bool>): (r: Reg16)
    decreases |bits|
  {
    if bits == [] then crc else Crc16Bits(Crc16Bit(crc, bits[0]), bits[1..])
  }

  /** The CRC16 of a data block. */
  function Crc16(data: seq<byte>): Reg16 {
    Crc16Bits(Zeros(16), Bits(data))
  }

  function High(crc: Reg16): byte {
    ByteOf(crc[..8])
  }

  function Low(crc: Reg16): byte {
    ByteOf(crc[8..])
  }

  lemma HighLowInjective(x: Reg16, y: Reg16)
    requires High(x) == High(y) && Low(x) == Low(y)
    ensures x == y
  {
    BitsNatInjective(x[..8], y[..8]);
    BitsNatInjective(x[8..], y[8..]);
    assert x == x[..8] + x[8..] && y == y[..8] + y[8..];
  }

  lemma {:induction false} Crc16BitsJoin(crc: Reg16, a: seq<bool>, b: seq<bool>)
    ensures Crc16Bits(crc, a + b) == Crc16Bits(Crc16Bits(crc, a), b)
    decreases |a|
  {
    hide Crc16Bit;
    if a == [] {
      assert a + b == b;
    } else {
      assert (a + b)[1..] == a[1..] + b;
      Crc16BitsJoin(Crc16Bit(crc, a[0]), a[1..], b);
    }
  }

  /** The card's running update, a byte at a time, reaches the driver's one-shot value. */
  lemma Crc16Extends(data: seq<byte>, b: byte)
    ensures Crc16(data + [b]) == Crc16Bits(Crc16(data), ByteBits(b))
  {
    hide ByteBits, Crc16Bits;
    BitsJoin(data, [b]);
    assert Bits([b]) == ByteBits(b) by { BitsOfOne(b); }
    Crc16BitsJoin(Zeros(16), Bits(data), ByteBits(b));
  }

  lemma BitsOfOne(b: byte)
    ensures Bits([b]) == ByteBits(b)
  {
    hide ByteBits;
    assert [b][1..] == [];
  }

  /** `calc_crc16`, and with another start value `update_crc16`. */
  method UpdateCrc16(start: Reg16, data: seq<byte>) returns (crc: Reg16)
    ensures crc == Crc16Bits(start, Bits(data))
  {
    hide Crc16Bit, Crc16Bits, Bits, ByteBits;
    crc := start;
    var k := 0;
    assert data[..0] == [] && Bits([]) == [] && Crc16Bits(start, []) == start by { EmptyCrc(start); }
    while k < |data|
      invariant 0 <= k <= |data|
      invariant crc == Crc16Bits(start, Bits(data[..k]))
    {
      var d := ByteBits(data[k]);
      ghost var before := crc;
      var b := 0;
      assert d[..0] == [];
      assert Crc16Bits(before, []) == before by { EmptyCrc(before); }
      while b < 8
        invariant 0 <= b <= 8
        invariant crc == Crc16Bits(before, d[..b])
      {
        Crc16BitsStep(before, d, b);
        crc := Crc16Bit(crc, d[b]);
        b := b + 1;
      }
      assert d[..8] == d;
      assert data[..k + 1] == data[..k] + [data[k]];
      BitsJoin(data[..k], [data[k]]);
      BitsOfOne(data[k]);
      Crc16BitsJoin(start, Bits(data[..k]), d);
      k := k + 1;
    }
    assert data[..k] == data;
  }

  lemma EmptyCrc(crc: Reg16)
    ensures Bits([]) == [] && Crc16Bits(crc, []) == crc
  {
  }

  lemma Crc16BitsStep(crc: Reg16, d: seq<bool>, b: nat)
    requires b < |d|
    ensures Crc16Bits(crc, d[..b + 1]) == Crc16Bit(Crc16Bits(crc, d[..b]), d[b])
  {
    hide Crc16Bit;
    assert d[..b + 1] == d[..b] + [d[b]];
    Crc16BitsJoin(crc, d[..b], [d[b]]);
    assert [d[b]][1..] == [];
  }

  // ----- burst errors ------------------------------------------------------------------------

  lemma Crc16BitLinear(x: Reg16, y: Reg16, a: bool, b: bool)
    ensures Crc16Bit(Xor(x, y), a != b) == Xor(Crc16Bit(x, a), Crc16Bit(y, b))
  {
    var l, r := Crc16Bit(Xor(x, y), a != b), Xor(Crc16Bit(x, a), Crc16Bit(y, b));
    forall i | 0 <= i < 16
      ensures l[i] == r[i]
    {
    }
  }

  /** The CRC of a difference is the difference of the CRCs. */
  lemma {:induction false} Crc16Linear(x: Reg16, y: Reg16, a: seq<bool>, b: seq<bool>)
    requires |a| == |b|
    ensures Crc16Bits(Xor(x, y), Xor(a, b)) == Xor(Crc16Bits(x, a), Crc16Bits(y, b))
    decreases |a|
  {
    hide Crc16Bit, Xor;
    if a != [] {
      Crc16BitLinear(x, y, a[0], b[0]);
      assert Xor(a, b)[1..] == Xor(a[1..], b[1..]);
      Crc16Linear(Crc16Bit(x, a[0]), Crc16Bit(y, b[0]), a[1..], b[1..]);
    }
  }

  /** A step on a zero bit loses nothing. */
  lemma Crc16BitInjective(x: Reg16, y: Reg16)
    requires Crc16Bit(x, false) == Crc16Bit(y, false)
    ensures x == y
  {
    var r, s := Crc16Bit(x, false), Crc16Bit(y, false);
    assert r[15] == s[15];
    forall i | 0 <= i < 16
      ensures x[i] == y[i]
    {
      if i > 0 {
        assert r[i - 1] == s[i - 1];
      }
    }
  }

  lemma {:induction false} Crc16ZerosInjective(x: Reg16, y: Reg16, n: nat)
    requires Crc16Bits(x, Zeros(n)) == Crc16Bits(y, Zeros(n))
    ensures x == y
    decreases n
  {
    hide Crc16Bit;
    if n > 0 {
      assert Zeros(n)[1..] == Zeros(n - 1);
      Crc16ZerosInjective(Crc16Bit(x, false), Crc16Bit(y, false), n - 1);
      Crc16BitInjective(x, y);
    }
  }

  lemma {:induction false} Crc16OfZeros(n: nat)
    ensures Crc16Bits(Zeros(16), Zeros(n)) == Zeros(16)
  {
    if n > 0 {
      assert Zeros(n)[1..] == Zeros(n - 1);
      assert Crc16Bit(Zeros(16), false) == Zeros(16);
      Crc16OfZeros(n - 1);
    }
  }

  /** At most sixteen bits at the top of a register. */
  function Aligned(w: seq<bool>): Reg16
    requires |w| <= 16
  {
    w + Zeros(16 - |w|)
  }

  /** Clocking in at most sixteen bits equals adding them to the register first. */
  lemma {:induction false} Crc16Preload(crc: Reg16, w: seq<bool>)
    requires |w| <= 16
    ensures Crc16Bits(crc, w) == Crc16Bits(Xor(crc, Aligned(w)), Zeros(|w|))
    decreases |w|
  {
    if w == [] {
      assert Xor(crc, Aligned(w)) == crc;
    } else {
      Crc16BitLinear(crc, Aligned(w), w[0], w[0]);
      assert Crc16Bit(Aligned(w), w[0]) == Aligned(w[1..]);
      assert Zeros(|w|)[1..] == Zeros(|w| - 1);
      Crc16Preload(Crc16Bit(crc, w[0]), w[1..]);
    }
  }

  /** A nonzero difference of at most sixteen bits, after any number of zeros and before any number. */
  lemma BurstHasNonzeroCrc(before: nat, burst: seq<bool>, after: nat)
    requires |burst| <= 16 && true in burst
    ensures Crc16Bits(Zeros(16), Zeros(before) + burst + Zeros(after)) != Zeros(16)
  {
    hide Crc16Bits, Crc16Bit;
    Crc16BitsJoin(Zeros(16), Zeros(before) + burst, Zeros(after));
    Crc16BitsJoin(Zeros(16), Zeros(before), burst);
    Crc16OfZeros(before);
    Crc16Preload(Zeros(16), burst);
    var w := Xor(Zeros(16), Aligned(burst));
    assert w == Aligned(burst);
    var r := Crc16Bits(w, Zeros(|burst|));
    var i :| 0 <= i < |burst| && burst[i];
    assert w[i];
    if Crc16Bits(r, Zeros(after)) == Zeros(16) {
      Crc16OfZeros(after);
      Crc16ZerosInjective(r, Zeros(16), after);
      Crc16OfZeros(|burst|);
      Crc16ZerosInjective(w, Zeros(16), |burst|);
    }
  }

  /** `bad` differs from `good`, and only within sixteen consecutive bits. */
  ghost predicate BurstError(good: seq<byte>, bad: seq<byte>, at: nat) {
    && |good| == |bad| && good != bad
    && forall i :: 0 <= i < 8 * |good| && !(at <= i < at + 16) ==> Bits(good)[i] == Bits(bad)[i]
  }

  lemma {:induction false} BitsInjective(a: seq<byte>, b: seq<byte>)
    requires |a| == |b| && Bits(a) == Bits(b)
    ensures a == b
  {
    hide ByteBits;
    if a != [] {
      assert ByteBits(a[0]) == Bits(a)[..8] && ByteBits(b[0]) == Bits(b)[..8];
      assert Bits(a[1..]) == Bits(a)[8..] && Bits(b[1..]) == Bits(b)[8..];
      ByteBitsInjective(a[0], b[0]);
      BitsInjective(a[1..], b[1..]);
    }
  }

  lemma ByteBitsInjective(a: byte, b: byte)
    requires ByteBits(a) == ByteBits(b)
    ensures a == b
  {
    hide NatBits, BitsNat;
    Pow2Eight();
    BitsNatOfNatBits(a, 8);
    BitsNatOfNatBits(b, 8);
  }

  lemma BitInSlice(d: seq<bool>, at: nat, end: nat, k: nat)
    requires at <= k < end <= |d| && d[k]
    ensures true in d[at..end]
  {
    assert d[at..end][k - at];
  }

  lemma BurstIsConfined(d: seq<bool>, at: nat, end: nat)
    requires at <= end <= |d| && forall i :: 0 <= i < |d| && !(at <= i < end) ==> !d[i]
    ensures d == Zeros(at) + d[at..end] + Zeros(|d| - end)
  {
  }

  /** Every corruption confined to sixteen consecutive bits of a data block of any length changes its
      CRC16. */
  lemma BurstChangesCrc(good: seq<byte>, bad: seq<byte>, at: nat)
    requires BurstError(good, bad, at)
    ensures Crc16(good) != Crc16(bad)
  {
    hide Crc16Bits, Crc16Bit, ByteBits, Bits, Xor, Zeros;
    var g, b := Bits(good), Bits(bad);
    if g == b {
      BitsInjective(good, bad);
    }
    DifferenceHasNonzeroCrc(g, b, at);
    Crc16Linear(Zeros(16), Zeros(16), g, b);
    XorSelf(Zeros(16));
    XorSelf(Crc16(good));
  }

  lemma XorSelf(r: Reg16)
    ensures Xor(r, r) == Zeros(16)
  {
  }

  /** Two bit strings that differ, and only within sixteen bits from `at` on. */
  ghost predicate DifferWithin(g: seq<bool>, b: seq<bool>, at: nat) {
    |g| == |b| && g != b && forall i :: 0 <= i < |g| && !(at <= i < at + 16) ==> g[i] == b[i]
  }

  lemma DifferenceHasNonzeroCrc(g: seq<bool>, b: seq<bool>, at: nat)
    requires DifferWithin(g, b, at)
    ensures Crc16Bits(Zeros(16), Xor(g, b)) != Zeros(16)
  {
    hide Crc16Bits, Zeros, Xor;
    XorConfined(g, b, at);
    XorHasOne(g, b, at);
    var d, end := Xor(g, b), Min(at + 16, |g|);
    BurstIsConfined(d, at, end);
    BurstHasNonzeroCrc(at, d[at..end], |d| - end);
  }

  lemma XorConfined(g: seq<bool>, b: seq<bool>, at: nat)
    requires DifferWithin(g, b, at)
    ensures |Xor(g, b)| == |g| && forall i :: 0 <= i < |g| && !(at <= i < at + 16) ==> !Xor(g, b)[i]
  {
  }

  lemma XorHasOne(g: seq<bool>, b: seq<bool>, at: nat)
    requires DifferWithin(g, b, at)
    ensures at < |g| && true in Xor(g, b)[at..Min(at + 16, |g|)]
  {
    var k :| 0 <= k < |g| && g[k] != b[k];
    BitInSlice(Xor(g, b), at, Min(at + 16, |g|), k);
  }

  /** The check of `collected_data` with CRC on. */
  predicate AcceptsCrc(data: seq<byte>, crc0: byte, crc1: byte) {
    crc0 as int * 0x100 + crc1 as int == High(Crc16(data)) as int * 0x100 + Low(Crc16(data)) as int
  }

  /** So a block corrupted that way is rejected when its CRC bytes arrive intact, and an uncorrupted
      block is accepted. */
  lemma BurstIsRejected(good: seq<byte>, bad: seq<byte>, at: nat)
    requires BurstError(good, bad, at)
    ensures AcceptsCrc(good, High(Crc16(good)), Low(Crc16(good)))
    ensures !AcceptsCrc(bad, High(Crc16(good)), Low(Crc16(good)))
  {
    hide Crc16, ByteOf;
    BurstChangesCrc(good, bad, at);
    if AcceptsCrc(bad, High(Crc16(good)), Low(Crc16(good))) {
      HighLowInjective(Crc16(good), Crc16(bad));
    }
  }

  // ----- CRC7 --------------------------------------------------------------------------------

  type Reg8 = s: seq<bool> | |s| == 8 witness seq(8, i => false)

  /** One bit of the CRC7 register, which sits in the upper seven bits; the polynomial is 0x12. */
  function Crc7Bit(crc: Reg8, bit: bool): (r: Reg8)
    ensures !r[7]
  {
    seq(8, i requires 0 <= i < 8 => (i < 7 && crc[i + 1]) != (crc[0] != bit && (i == 3 || i == 6)))
  }

  function Crc7Bits(crc: Reg8, bits: seq<bool>): (r: Reg8)
    ensures !crc[7] ==> !r[7]
    decreases |bits|
  {
    if bits == [] then crc else Crc7Bits(Crc7Bit(crc, bits[0]), bits[1..])
  }

  /** `calc_crc7`: the seven bits, right aligned. */
  function CalcCrc7(data: seq<byte>): byte {
    ByteOf(Crc7Bits(Zeros(8), Bits(data))) / 2
  }

  /** `update_crc7` from zero: the seven bits with a trailing one. */
  function UpdateCrc7(data: seq<byte>): byte {
    ByteOf(Crc7Bits(Zeros(8), Bits(data))[7 := true])
  }

  /** The last byte of the driver's command frame is the card's CRC7 byte for the same bytes. */
  lemma CommandCrcMatches(data: seq<byte>)
    ensures 1 + 2 * CalcCrc7(data) as int == UpdateCrc7(data) as int
  {
    hide Crc7Bits;
    var r := Crc7Bits(Zeros(8), Bits(data));
    assert r[7 := true][..7] == r[..7];
    assert BitsNat(r) == 2 * BitsNat(r[..7]);
    assert BitsNat(r[7 := true]) == 2 * BitsNat(r[..7]) + 1;
  }
}
