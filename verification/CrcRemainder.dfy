/** Which CRCs they are: the remainders of polynomial division by x^16 + x^12 + x^5 + 1 and by
    x^7 + x^3 + 1, as the SD protocol asks for. */
module CrcRemainder {
  import opened Words
  import opened Crc

  // ----- bits as numbers ---------------------------------------------------------------------

  function Bit(b: bool): nat {
    if b then 1 else 0
  }

  lemma BitsNatNext(s: seq<bool>, b: bool)
    ensures BitsNat(s + [b]) == 2 * BitsNat(s) + Bit(b)
  {
    assert (s + [b])[..|s|] == s;
  }

  lemma BitsNatNibble(s: seq<bool>, a: bool, b: bool, c: bool, d: bool)
    ensures BitsNat(s + [a, b, c, d]) == 0x10 * BitsNat(s) + 8 * Bit(a) + 4 * Bit(b) + 2 * Bit(c) + Bit(d)
  {
    hide BitsNat;
    BitsNatNext(s, a);
    BitsNatNext(s + [a], b);
    BitsNatNext(s + [a] + [b], c);
    BitsNatNext(s + [a] + [b] + [c], d);
    assert s + [a] + [b] + [c] + [d] == s + [a, b, c, d];
  }

  lemma BitsNatByte(s: seq<bool>, t: seq<bool>)
    requires |t| == 8
    ensures BitsNat(s + t) == 0x100 * BitsNat(s) + Eight(t)
  {
    hide BitsNat;
    var high, low := [t[0], t[1], t[2], t[3]], [t[4], t[5], t[6], t[7]];
    assert s + t == s + high + low;
    BitsNatNibble(s, t[0], t[1], t[2], t[3]);
    BitsNatNibble(s + high, t[4], t[5], t[6], t[7]);
  }

  function Eight(s: seq<bool>): nat
    requires |s| == 8
  {
    0x80 * Bit(s[0]) + 0x40 * Bit(s[1]) + 0x20 * Bit(s[2]) + 0x10 * Bit(s[3]) +
    8 * Bit(s[4]) + 4 * Bit(s[5]) + 2 * Bit(s[6]) + Bit(s[7])
  }

  lemma BitsNatOfEight(s: seq<bool>)
    requires |s| == 8
    ensures BitsNat(s) == Eight(s)
  {
    hide BitsNat, Eight;
    assert [] + s == s;
    BitsNatByte([], s);
    Empty();
  }

  lemma Empty()
    ensures BitsNat([]) == 0
  {
  }

  lemma NatBitsNext(n: nat, k: nat)
    ensures NatBits(n, k + 1)[k] == (n % 2 == 1)
    ensures forall i :: 0 <= i < k ==> NatBits(n, k + 1)[i] == NatBits(n / 2, k)[i]
  {
  }

  /** The bits of a byte, most significant first. */
  lemma ByteBitsAre(b: byte)
    ensures var (s, n) := (ByteBits(b), b as int);
            && s[0] == (n / 0x80 % 2 == 1) && s[1] == (n / 0x40 % 2 == 1)
            && s[2] == (n / 0x20 % 2 == 1) && s[3] == (n / 0x10 % 2 == 1)
            && s[4] == (n / 8 % 2 == 1) && s[5] == (n / 4 % 2 == 1) && s[6] == (n / 2 % 2 == 1) && s[7] == (n % 2 == 1)
  {
    hide NatBits;
    var n := b as int;
    assert n / 4 == n / 2 / 2 && n / 8 == n / 4 / 2 && n / 0x10 == n / 8 / 2 && n / 0x20 == n / 0x10 / 2;
    assert n / 0x40 == n / 0x20 / 2 && n / 0x80 == n / 0x40 / 2;
    NatBitsNext(n, 7);
    NatBitsNext(n / 2, 6);
    NatBitsNext(n / 4, 5);
    NatBitsNext(n / 8, 4);
    NatBitsNext(n / 0x10, 3);
    NatBitsNext(n / 0x20, 2);
    NatBitsNext(n / 0x40, 1);
    NatBitsNext(n / 0x80, 0);
  }

  // ----- CRC16 -------------------------------------------------------------------------------

  /** The polynomial with these exponents, highest coefficient first. */
  function Polynomial(degree: nat, exponents: set<nat>): (p: seq<bool>)
    ensures |p| == degree + 1 && forall i :: 0 <= i <= degree ==> (p[i] <==> degree - i in exponents)
  {
    seq(degree + 1, i requires 0 <= i <= degree => degree - i in exponents)
  }

  function Poly16(): (p: seq<bool>)
    ensures |p| == 17 && forall i :: 0 <= i <= 16 ==> (p[i] <==> 16 - i in {16, 12, 5, 0})
  {
    Polynomial(16, {16, 12, 5, 0})
  }

  function Poly7(): (p: seq<bool>)
    ensures |p| == 8 && forall i :: 0 <= i <= 7 ==> (p[i] <==> 7 - i in {7, 3, 0})
  {
    Polynomial(7, {7, 3, 0})
  }

  /** One step of schoolbook division: subtract the divisor under a leading one, and drop the leading
      zero. */
  function Reduced(m: seq<bool>, p: seq<bool>): (r: seq<bool>)
    requires p != [] && p[0] && |m| >= |p|
    ensures |r| == |m| - 1
    ensures forall i :: 0 <= i < |r| ==> r[i] == (m[i + 1] != (m[0] && i + 1 < |p| && p[i + 1]))
  {
    (if m[0] then Xor(m[..|p|], p)[1..] else m[1..|p|]) + m[|p|..]
  }

  /** The remainder of a polynomial, by division while it is long enough. */
  function Remainder(m: seq<bool>, p: seq<bool>): (r: seq<bool>)
    requires p != [] && p[0]
    ensures |r| == if |m| < |p| then |m| else |p| - 1
    decreases |m|
  {
    if |m| < |p| then m else Remainder(Reduced(m, p), p)
  }

  /** A register of `d` bits still to be divided with the bits to come. */
  function Dividend(reg: seq<bool>, bits: seq<bool>): (m: seq<bool>)
    ensures |m| == |reg| + |bits|
    ensures forall i :: 0 <= i < |m| ==> m[i] == ((i < |reg| && reg[i]) != (i < |bits| && bits[i]))
  {
    Xor(reg + Zeros(|bits|), bits + Zeros(|reg|))
  }

  /** One bit of a CRC is one step of the division. */
  lemma DivisionStep(reg: seq<bool>, reg': seq<bool>, bits: seq<bool>, p: seq<bool>)
    requires |p| == |reg| + 1 == |reg'| + 1 && reg != [] && bits != [] && p[0]
    requires forall i :: 0 <= i < |reg| ==>
               reg'[i] == ((i + 1 < |reg| && reg[i + 1]) != (reg[0] != bits[0] && p[i + 1]))
    ensures Remainder(Dividend(reg, bits), p) == Remainder(Dividend(reg', bits[1..]), p)
  {
    hide Dividend, Reduced;
    var m, next := Dividend(reg, bits), Dividend(reg', bits[1..]);
    forall i | 0 <= i < |next|
      ensures Reduced(m, p)[i] == next[i]
    {
    }
    assert Reduced(m, p) == next;
  }

  lemma {:induction false} Crc16IsRemainderFrom(crc: Reg16, bits: seq<bool>)
    ensures Crc16Bits(crc, bits) == Remainder(Dividend(crc, bits), Poly16())
    decreases |bits|
  {
    hide Remainder, Dividend, Crc16Bit;
    if bits == [] {
      NoMoreBits(crc, Poly16());
    } else {
      var crc' := Crc16Bit(crc, bits[0]);
      Crc16Step(crc, bits[0]);
      DivisionStep(crc, crc', bits, Poly16());
      Crc16IsRemainderFrom(crc', bits[1..]);
    }
  }

  lemma NoMoreBits(reg: seq<bool>, p: seq<bool>)
    requires |p| == |reg| + 1 && p[0]
    ensures Remainder(Dividend(reg, []), p) == reg
  {
    assert Dividend(reg, []) == reg;
  }

  lemma Crc16Step(crc: Reg16, bit: bool)
    ensures forall i :: 0 <= i < 16 ==>
              Crc16Bit(crc, bit)[i] == ((i + 1 < 16 && crc[i + 1]) != (crc[0] != bit && Poly16()[i + 1]))
  {
    hide Poly16;
    forall i | 0 <= i < 16
      ensures Poly16()[i + 1] == Tap16(i)
    {
    }
  }

  /** The bits of a block followed by `d` zeros. */
  lemma FromZero(d: nat, bits: seq<bool>)
    ensures Dividend(Zeros(d), bits) == bits + Zeros(d)
  {
  }

  /** The CRC16 of a block is the remainder of its bits, followed by sixteen zeros, divided by
      x^16 + x^12 + x^5 + 1. */
  lemma Crc16IsRemainder(data: seq<byte>)
    ensures Crc16(data) == Remainder(Bits(data) + Zeros(16), Poly16())
  {
    hide Remainder, Crc16Bits, Bits, Dividend;
    Crc16IsRemainderFrom(Zeros(16), Bits(data));
    FromZero(16, Bits(data));
  }

  /** As a number, in the two bytes that follow a block. */
  lemma CrcBytesAreNumber(crc: Reg16)
    ensures 0x100 * High(crc) as int + Low(crc) as int == BitsNat(crc)
  {
    assert crc == crc[..8] + crc[8..];
    BitsNatByte(crc[..8], crc[8..]);
    BitsNatOfEight(crc[8..]);
  }

  /** Both polynomials as numbers. */
  lemma PolynomialsAsNumbers()
    ensures Poly16() == NatBits(0x1_1021, 17) && Poly7() == NatBits(0x89, 8)
  {
    Poly16AsNumber();
    Poly7AsNumber();
  }

  lemma Poly16AsNumber()
    ensures Poly16() == NatBits(0x1_1021, 17)
  {
    hide BitsNat, NatBits, Poly16;
    var s := [] + [true];
    var s1 := s + [false, false, false, true];
    var s2 := s1 + [false, false, false, false];
    var s3 := s2 + [false, false, true, false];
    var s4 := s3 + [false, false, false, true];
    Empty();
    BitsNatNext([], true);
    BitsNatNibble(s, false, false, false, true);
    BitsNatNibble(s1, false, false, false, false);
    BitsNatNibble(s2, false, false, true, false);
    BitsNatNibble(s3, false, false, false, true);
    assert BitsNat(s4) == 0x1_1021;
    assert Poly16() == s4;
    SameNumber(s4, 0x1_1021);
  }

  lemma Poly7AsNumber()
    ensures Poly7() == NatBits(0x89, 8)
  {
    hide BitsNat, NatBits, Poly7;
    var s := [] + [true, false, false, false];
    var s1 := s + [true, false, false, true];
    Empty();
    BitsNatNibble([], true, false, false, false);
    BitsNatNibble(s, true, false, false, true);
    assert Poly7() == s1;
    SameNumber(s1, 0x89);
  }

  lemma SameNumber(s: seq<bool>, n: nat)
    requires BitsNat(s) == n
    ensures s == NatBits(n, |s|)
  {
    BitsNatBound(s);
    BitsNatOfNatBits(n, |s|);
    BitsNatInjective(s, NatBits(n, |s|));
  }

  /** The sixteen-bit limit on bursts is exact: the polynomial's own seventeen bits leave no trace. */
  lemma SeventeenBitsCanPass()
    ensures Crc16Bits(Zeros(16), NatBits(0x1_1021, 17)) == Zeros(16)
  {
    hide Remainder, Crc16Bits, Dividend, Poly16;
    Poly16AsNumber();
    Crc16IsRemainderFrom(Zeros(16), Poly16());
    FromZero(16, Poly16());
    DivisorDivides(Poly16(), 16);
  }

  lemma DivisorDivides(p: seq<bool>, n: nat)
    requires p != [] && p[0] && n > 0
    ensures Remainder(p + Zeros(n), p) == Zeros(|p| - 1)
  {
    hide Reduced;
    assert Reduced(p + Zeros(n), p) == Zeros(|p| - 1 + n);
    ZerosRemainder(|p| - 1 + n, p);
  }

  lemma {:induction false} ZerosRemainder(n: nat, p: seq<bool>)
    requires p != [] && p[0] && n >= |p| - 1
    ensures Remainder(Zeros(n), p) == Zeros(|p| - 1)
  {
    hide Reduced;
    if n >= |p| {
      assert Reduced(Zeros(n), p) == Zeros(n - 1);
      ZerosRemainder(n - 1, p);
    }
  }

  // ----- CRC7 --------------------------------------------------------------------------------

  lemma Crc7Step(crc: Reg8, bit: bool)
    ensures forall i :: 0 <= i < 7 ==>
              Crc7Bit(crc, bit)[i] == (crc[i + 1] != (crc[0] != bit && Poly7()[i + 1]))
  {
    hide Poly7;
  }

  lemma {:induction false} Crc7IsRemainderFrom(crc: Reg8, bits: seq<bool>)
    requires !crc[7]
    ensures Crc7Bits(crc, bits)[..7] == Remainder(Dividend(crc[..7], bits), Poly7())
    decreases |bits|
  {
    hide Remainder, Dividend, Crc7Bit;
    if bits == [] {
      NoMoreBits(crc[..7], Poly7());
    } else {
      var crc' := Crc7Bit(crc, bits[0]);
      Crc7Step(crc, bits[0]);
      DivisionStep(crc[..7], crc'[..7], bits, Poly7());
      Crc7IsRemainderFrom(crc', bits[1..]);
    }
  }

  /** The CRC7 of a command is the remainder of its bits, followed by seven zeros, divided by
      x^7 + x^3 + 1. */
  lemma Crc7IsRemainder(data: seq<byte>)
    ensures CalcCrc7(data) as int == BitsNat(Remainder(Bits(data) + Zeros(7), Poly7()))
  {
    hide Remainder, Crc7Bits, Bits, Dividend, BitsNat;
    Crc7IsRemainderFrom(Zeros(8), Bits(data));
    assert Zeros(8)[..7] == Zeros(7);
    FromZero(7, Bits(data));
    UpperSeven(Crc7Bits(Zeros(8), Bits(data)));
  }

  lemma UpperSeven(r: Reg8)
    requires !r[7]
    ensures ByteOf(r) / 2 == BitsNat(r[..7])
  {
  }
}
