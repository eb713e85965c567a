/** CRC-8 with polynomial 0x07 and initial value 0 (src/transport/protocol.c). */
module Crc8 {
  import opened Words

  /** The CRC register and the bytes fed to it, as bit patterns. */
  datatype Octet = Octet(bits: bv8)

  const ZERO := Octet(0)

  function OctetOf(n: Byte): Octet {
    Octet(n as bv8)
  }

  function ToByte(c: Octet): Byte {
    c.bits as int
  }

  lemma OctetRoundTrip(n: Byte)
    ensures ToByte(OctetOf(n)) == n
  {
    NatRoundTrip(n);
  }

  lemma NatRoundTrip(n: int)
    requires 0 <= n < 0x100
    ensures (n as bv8) as int == n
  {
    var b := BitsOf(n);
    BitsRoundTrip(b);
  }

  lemma BitsRoundTrip(b: bv8)
    ensures (b as int) as bv8 == b
  {
  }

  lemma {:induction false} BitsOf(n: int) returns (b: bv8)
    requires 0 <= n < 0x100
    ensures b as int == n
  {
    if n == 0 {
      b := 0;
    } else {
      var c := BitsOf(n - 1);
      b := c + 1;
      assert c < 255;
    }
  }

  lemma ByteRoundTrip(c: Octet)
    ensures OctetOf(ToByte(c)) == c
  {
  }

  function Xor(a: Octet, b: Octet): Octet {
    Octet(a.bits ^ b.bits)
  }

  // ---------------------------------------------------------------------------
  // The checksum
  // ---------------------------------------------------------------------------

  /** One turn of the inner loop: shift left, and add 0x07 when the top bit falls out. */
  function BitStep(c: Octet): Octet {
    if c.bits & 0x80 != 0 then Octet((c.bits << 1) ^ 0x07) else Octet(c.bits << 1)
  }

  function BitSteps(c: Octet, n: nat): Octet {
    if n == 0 then c else BitStep(BitSteps(c, n - 1))
  }

  /** One turn of the outer loop. */
  function ByteStep(c: Octet, b: Octet): Octet {
    BitSteps(Xor(c, b), 8)
  }

  function Crc(c: Octet, data: seq<Octet>): Octet {
    if data == [] then c else ByteStep(Crc(c, data[..|data| - 1]), data[|data| - 1])
  }

  lemma XorAssociative(a: Octet, b: Octet, c: Octet)
    ensures Xor(Xor(a, b), c) == Xor(a, Xor(b, c))
  {
  }

  lemma XorLaws(a: Octet, b: Octet, c: Octet)
    ensures Xor(a, b) == Xor(b, a)
    ensures Xor(Xor(a, b), c) == Xor(a, Xor(b, c))
    ensures Xor(a, a) == ZERO
    ensures Xor(a, ZERO) == a
  {
    XorAssociative(a, b, c);
  }

  lemma XorSwap(a: Octet, b: Octet, c: Octet, d: Octet)
    ensures Xor(Xor(a, b), Xor(c, d)) == Xor(Xor(a, c), Xor(b, d))
  {
    hide Xor;
    XorLaws(a, b, Xor(c, d));
    XorLaws(b, c, d);
    XorLaws(c, b, d);
    XorLaws(a, c, Xor(b, d));
  }

  lemma XorCancel(a: Octet, b: Octet, c: Octet)
    requires Xor(a, c) == Xor(b, c)
    ensures a == b
  {
    hide Xor;
    XorLaws(a, c, c);
    XorLaws(b, c, c);
    XorLaws(c, a, b);
  }

  // Every step is a bijection, so a difference in the register never goes away.

  lemma BitStepInjective(a: Octet, b: Octet)
    requires BitStep(a) == BitStep(b)
    ensures a == b
  {
  }

  lemma {:induction false} BitStepsInjective(a: Octet, b: Octet, n: nat)
    requires BitSteps(a, n) == BitSteps(b, n)
    ensures a == b
  {
    hide BitStep;
    if n > 0 {
      BitStepInjective(BitSteps(a, n - 1), BitSteps(b, n - 1));
      BitStepsInjective(a, b, n - 1);
    }
  }

  lemma {:induction false} CrcInjective(c: Octet, c': Octet, data: seq<Octet>)
    requires Crc(c, data) == Crc(c', data)
    ensures c == c'
  {
    hide Xor, BitSteps;
    if data != [] {
      var n := |data| - 1;
      var r, r' := Crc(c, data[..n]), Crc(c', data[..n]);
      BitStepsInjective(Xor(r, data[n]), Xor(r', data[n]), 8);
      XorCancel(r, r', data[n]);
      CrcInjective(c, c', data[..n]);
    }
  }

  function BitStepBack(c: Octet): Octet {
    if c.bits & 1 != 0 then Octet(((c.bits ^ 0x07) >> 1) | 0x80) else Octet(c.bits >> 1)
  }

  lemma BitStepUndone(c: Octet)
    ensures BitStep(BitStepBack(c)) == c
  {
  }

  lemma {:induction false} BitStepsOnto(target: Octet, n: nat) returns (c: Octet)
    ensures BitSteps(c, n) == target
    decreases n
  {
    hide BitStep, BitStepBack;
    if n == 0 {
      c := target;
    } else {
      BitStepUndone(target);
      c := BitStepsOnto(BitStepBack(target), n - 1);
    }
  }

  lemma ByteStepOnto(r: Octet, target: Octet) returns (b: Octet)
    ensures ByteStep(r, b) == target
  {
    hide Xor, BitSteps;
    var c := BitStepsOnto(target, 8);
    b := Xor(r, c);
    XorLaws(r, r, c);
    XorLaws(c, ZERO, ZERO);
    XorLaws(ZERO, c, c);
  }

  // Every step is linear, so the register difference is the CRC of the error.

  function XorSeq(a: seq<Octet>, b: seq<Octet>): (r: seq<Octet>)
    requires |a| == |b|
    ensures |r| == |a|
    ensures forall i :: 0 <= i < |r| ==> r[i] == Xor(a[i], b[i])
  {
    seq(|a|, i requires 0 <= i < |a| => Xor(a[i], b[i]))
  }

  function Shift(c: Octet): Octet {
    Octet(c.bits << 1)
  }

  function Feedback(c: Octet): Octet {
    if c.bits & 0x80 != 0 then Octet(0x07) else ZERO
  }

  lemma BitStepShape(c: Octet)
    ensures BitStep(c) == Xor(Shift(c), Feedback(c))
  {
  }

  lemma ShiftLinear(a: Octet, b: Octet)
    ensures Shift(Xor(a, b)) == Xor(Shift(a), Shift(b))
  {
  }

  lemma FeedbackLinear(a: Octet, b: Octet)
    ensures Feedback(Xor(a, b)) == Xor(Feedback(a), Feedback(b))
  {
    MaskXor(a.bits, b.bits, 0x80);
  }

  lemma BitStepLinear(a: Octet, b: Octet)
    ensures BitStep(Xor(a, b)) == Xor(BitStep(a), BitStep(b))
  {
    hide *;
    BitStepShape(Xor(a, b));
    BitStepShape(a);
    BitStepShape(b);
    ShiftLinear(a, b);
    FeedbackLinear(a, b);
    XorSwap(Shift(a), Shift(b), Feedback(a), Feedback(b));
  }

  lemma {:induction false} BitStepsLinear(a: Octet, b: Octet, n: nat)
    ensures BitSteps(Xor(a, b), n) == Xor(BitSteps(a, n), BitSteps(b, n))
  {
    hide Xor, BitStep;
    if n > 0 {
      BitStepsLinear(a, b, n - 1);
      BitStepLinear(BitSteps(a, n - 1), BitSteps(b, n - 1));
    }
  }

  lemma ByteStepLinear(c: Octet, c': Octet, b: Octet, b': Octet)
    ensures ByteStep(Xor(c, c'), Xor(b, b')) == Xor(ByteStep(c, b), ByteStep(c', b'))
  {
    hide Xor, BitSteps;
    XorSwap(c, c', b, b');
    BitStepsLinear(Xor(c, b), Xor(c', b'), 8);
  }

  lemma {:induction false} CrcLinear(c: Octet, c': Octet, a: seq<Octet>, b: seq<Octet>)
    requires |a| == |b|
    ensures Crc(Xor(c, c'), XorSeq(a, b)) == Xor(Crc(c, a), Crc(c', b))
  {
    hide Xor, ByteStep;
    if a != [] {
      var n := |a| - 1;
      CrcLinear(c, c', a[..n], b[..n]);
      assert XorSeq(a, b)[..n] == XorSeq(a[..n], b[..n]);
      ByteStepLinear(Crc(c, a[..n]), Crc(c', b[..n]), a[n], b[n]);
    }
  }

  // The polynomial has an even number of terms, so every step keeps bit parity.

  function Bit(c: Octet, mask: bv8): nat {
    if c.bits & mask != 0 then 1 else 0
  }

  /** The number of bits set in one byte, and in a sequence of them. */
  function Ones(c: Octet): nat {
    Bit(c, 1) + Bit(c, 2) + Bit(c, 4) + Bit(c, 8) + Bit(c, 16) + Bit(c, 32) + Bit(c, 64) + Bit(c, 128)
  }

  function OnesIn(s: seq<Octet>): nat {
    if s == [] then 0 else OnesIn(s[..|s| - 1]) + Ones(s[|s| - 1])
  }

  lemma BitStepParity(c: Octet)
    ensures Ones(BitStep(c)) % 2 == Ones(c) % 2
  {
  }

  lemma MaskXor(a: bv8, b: bv8, m: bv8)
    requires m & (m - 1) == 0
    ensures ((a ^ b) & m != 0) == ((a & m != 0) != (b & m != 0))
  {
  }

  function BothBits(a: Octet, b: Octet, m: bv8): nat {
    if a.bits & m != 0 && b.bits & m != 0 then 1 else 0
  }

  lemma BitXor(a: Octet, b: Octet, m: bv8)
    requires m & (m - 1) == 0
    ensures Bit(Xor(a, b), m) == Bit(a, m) + Bit(b, m) - 2 * BothBits(a, b, m)
  {
    MaskXor(a.bits, b.bits, m);
  }

  lemma OnesXor(a: Octet, b: Octet)
    ensures Ones(Xor(a, b)) % 2 == (Ones(a) + Ones(b)) % 2
  {
    hide Xor, Bit, BothBits;
    BitXor(a, b, 1);
    BitXor(a, b, 2);
    BitXor(a, b, 4);
    BitXor(a, b, 8);
    BitXor(a, b, 16);
    BitXor(a, b, 32);
    BitXor(a, b, 64);
    BitXor(a, b, 128);
    var both := BothBits(a, b, 1) + BothBits(a, b, 2) + BothBits(a, b, 4) + BothBits(a, b, 8)
                + BothBits(a, b, 16) + BothBits(a, b, 32) + BothBits(a, b, 64) + BothBits(a, b, 128);
    assert Ones(Xor(a, b)) + 2 * both == Ones(a) + Ones(b);
  }

  lemma {:induction false} BitStepsParity(c: Octet, n: nat)
    ensures Ones(BitSteps(c, n)) % 2 == Ones(c) % 2
  {
    hide Ones, BitStep;
    if n > 0 {
      BitStepsParity(c, n - 1);
      BitStepParity(BitSteps(c, n - 1));
    }
  }

  /** The register's bit parity is the parity of everything fed to it. */
  lemma {:induction false} CrcParity(c: Octet, s: seq<Octet>)
    ensures Ones(Crc(c, s)) % 2 == (Ones(c) + OnesIn(s)) % 2
  {
    hide Ones, Xor, BitSteps;
    if s != [] {
      var n := |s| - 1;
      CrcParity(c, s[..n]);
      BitStepsParity(Xor(Crc(c, s[..n]), s[n]), 8);
      OnesXor(Crc(c, s[..n]), s[n]);
    }
  }

  lemma {:induction false} OnesInXor(a: seq<Octet>, b: seq<Octet>)
    requires |a| == |b|
    ensures OnesIn(XorSeq(a, b)) % 2 == (OnesIn(a) + OnesIn(b)) % 2
  {
    hide Ones, Xor;
    if a != [] {
      var n := |a| - 1;
      assert XorSeq(a, b)[..n] == XorSeq(a[..n], b[..n]);
      OnesInXor(a[..n], b[..n]);
      OnesXor(a[n], b[n]);
    }
  }

  // Bursts: the polynomial has degree 8, so no error confined to 8 consecutive
  // bits is a codeword, also when the burst straddles two bytes.

  /** The errors in two consecutive bytes: only the low `k` bits of the first and the high `8 - k`
      bits of the second may be set. */
  predicate Burst(e: Octet, f: Octet, k: nat) {
    k <= 8 && e.bits & (0xFF << k) == 0 && f.bits & (0xFF >> (8 - k)) == 0 && (e != ZERO || f != ZERO)
  }

  function Steps8(c: Octet): Octet {
    BitStep(BitStep(BitStep(BitStep(BitStep(BitStep(BitStep(BitStep(c))))))))
  }

  lemma BurstSyndrome(e: Octet, f: Octet, k: nat)
    requires Burst(e, f, k)
    ensures Steps8(Xor(Steps8(e), f)) != ZERO
  {
  }

  lemma EightSteps(c: Octet)
    ensures BitSteps(c, 8) == Steps8(c)
  {
    hide BitStep;
    assert BitSteps(c, 1) == BitStep(c);
    assert BitSteps(c, 3) == BitStep(BitStep(BitSteps(c, 1)));
    assert BitSteps(c, 5) == BitStep(BitStep(BitSteps(c, 3)));
    assert BitSteps(c, 7) == BitStep(BitStep(BitSteps(c, 5)));
  }

  lemma BurstNotCodeword(e: Octet, f: Octet, k: nat)
    requires Burst(e, f, k)
    ensures ByteStep(ByteStep(ZERO, e), f) != ZERO
  {
    BurstSyndrome(e, f, k);
    TwoByteSteps(e, f);
  }

  lemma TwoByteSteps(e: Octet, f: Octet)
    ensures ByteStep(ByteStep(ZERO, e), f) == Steps8(Xor(Steps8(e), f))
  {
    hide Xor, Steps8, BitSteps;
    XorLaws(ZERO, e, e);
    XorLaws(e, e, e);
    EightSteps(e);
    EightSteps(Xor(Steps8(e), f));
  }

  // ---------------------------------------------------------------------------
  // Checksums of byte strings
  // ---------------------------------------------------------------------------

  function Octets(s: seq<Byte>): (r: seq<Octet>)
    ensures |r| == |s|
    ensures forall i :: 0 <= i < |r| ==> r[i] == OctetOf(s[i])
  {
    seq(|s|, i requires 0 <= i < |s| => OctetOf(s[i]))
  }

  function Checksum(s: seq<Byte>): Byte {
    ToByte(Crc(ZERO, Octets(s)))
  }

  /** The two nested loops of `crc8_update`. */
  method Update(crc: Octet, data: seq<Byte>) returns (r: Octet)
    ensures r == Crc(crc, Octets(data))
  {
    hide Xor;
    r := crc;
    for i := 0 to |data|
      invariant r == Crc(crc, Octets(data[..i]))
    {
      ghost var before := r;
      r := Xor(r, OctetOf(data[i]));
      for bit := 0 to 8
        invariant r == BitSteps(Xor(before, OctetOf(data[i])), bit)
      {
        if r.bits & 0x80 != 0 {
          r := Octet((r.bits << 1) ^ 0x07);
        } else {
          r := Octet(r.bits << 1);
        }
      }
      assert Octets(data[..i + 1])[..i] == Octets(data[..i]);
    }
    assert data[..|data|] == data;
  }

  lemma {:induction false} CrcConcat(c: Octet, a: seq<Octet>, b: seq<Octet>)
    ensures Crc(c, a + b) == Crc(Crc(c, a), b)
  {
    hide ByteStep;
    if b == [] {
      assert a + b == a;
    } else {
      var n := |b| - 1;
      CrcConcat(c, a, b[..n]);
      assert (a + b)[..|a + b| - 1] == a + b[..n];
    }
  }
}
