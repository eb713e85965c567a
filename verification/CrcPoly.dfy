/** The checksum as polynomial division over GF(2). */
module CrcPoly {
  import opened Words
  import opened Crc8

  // ---------------------------------------------------------------------------
  // Polynomials over GF(2)
  // ---------------------------------------------------------------------------

  /** A polynomial is the set of the exponents whose coefficient is one. */
  type Poly = set<nat>

  /** The generator, x^8 + x^2 + x + 1. */
  const GENERATOR: Poly := {8, 2, 1, 0}

  /** Addition, which is also subtraction. */
  function Add(p: Poly, q: Poly): Poly {
    (p - q) + (q - p)
  }

  /** Multiplication by x^k. */
  function Times(p: Poly, k: nat): Poly {
    set i | i in p :: i + k
  }

  /** The carry-less product of the generator with the polynomial whose exponents are listed. */
  function Product(ks: seq<nat>): Poly {
    if ks == [] then {} else Add(Product(ks[..|ks| - 1]), Times(GENERATOR, ks[|ks| - 1]))
  }

  /** A polynomial's exponents, listed from the highest down. */
  predicate Falling(ks: seq<nat>) {
    forall k, l :: 0 <= k < l < |ks| ==> ks[k] > ks[l]
  }

  /** Division with remainder by the generator. */
  ghost predicate Divides(p: Poly, quotient: seq<nat>, remainder: Poly) {
    && Falling(quotient) && Add(Product(quotient), remainder) == p
    && forall i :: i in remainder ==> i < 8
  }

  lemma InTimes(p: Poly, k: nat, i: nat)
    ensures i in Times(p, k) <==> i >= k && i - k in p
  {
    if i >= k && i - k in p {
      var j: nat := i - k;
      assert j in p && j + k == i;
    }
  }

  lemma AddLaws(p: Poly, q: Poly, r: Poly)
    ensures Add(p, q) == Add(q, p) && Add(Add(p, q), r) == Add(p, Add(q, r))
    ensures Add(p, {}) == p && Add(p, p) == {}
  {
  }

  lemma TimesLaws(p: Poly, q: Poly, k: nat, l: nat)
    ensures Times(Add(p, q), k) == Add(Times(p, k), Times(q, k))
    ensures Times(Times(p, k), l) == Times(p, k + l) && Times(p, 0) == p && Times({}, k) == {}
  {
    forall i: nat
      ensures i in Times(Add(p, q), k) <==> i in Add(Times(p, k), Times(q, k))
      ensures i in Times(Times(p, k), l) <==> i in Times(p, k + l)
      ensures i in Times(p, 0) <==> i in p
    {
      InTimes(Add(p, q), k, i);
      InTimes(p, k, i);
      InTimes(q, k, i);
      InTimes(Times(p, k), l, i);
      if i >= l { InTimes(p, k, i - l); }
      InTimes(p, k + l, i);
      InTimes(p, 0, i);
    }
  }

  function Raised(ks: seq<nat>, k: nat): (r: seq<nat>)
    ensures |r| == |ks| && forall i :: 0 <= i < |r| ==> r[i] == ks[i] + k
  {
    seq(|ks|, i requires 0 <= i < |ks| => ks[i] + k)
  }

  lemma {:induction false} ProductRaised(ks: seq<nat>, k: nat)
    ensures Product(Raised(ks, k)) == Times(Product(ks), k)
  {
    hide Add, Times;
    if ks == [] {
      TimesLaws({}, {}, k, 0);
    } else {
      var n := |ks| - 1;
      ProductRaised(ks[..n], k);
      assert Raised(ks, k)[..n] == Raised(ks[..n], k);
      TimesLaws(Product(ks[..n]), Times(GENERATOR, ks[n]), k, 0);
      TimesLaws(GENERATOR, {}, ks[n], k);
    }
  }

  lemma {:induction false} ProductConcat(ks: seq<nat>, ls: seq<nat>)
    ensures Product(ks + ls) == Add(Product(ks), Product(ls))
  {
    hide Add, Times;
    if ls == [] {
      assert ks + ls == ks;
      AddLaws(Product(ks), {}, {});
    } else {
      var n := |ls| - 1;
      ProductConcat(ks, ls[..n]);
      assert (ks + ls)[..|ks + ls| - 1] == ks + ls[..n];
      AddLaws(Product(ks), Product(ls[..n]), Times(GENERATOR, ls[n]));
    }
  }

  // ---------------------------------------------------------------------------
  // Registers and messages as polynomials
  // ---------------------------------------------------------------------------

  function Mask(i: nat): bv8
    requires i < 8
  {
    match i
    case 0 => 0x01
    case 1 => 0x02
    case 2 => 0x04
    case 3 => 0x08
    case 4 => 0x10
    case 5 => 0x20
    case 6 => 0x40
    case _ => 0x80
  }

  /** The coefficient of x^i in a byte. */
  predicate Coefficient(c: Octet, i: nat) {
    i < 8 && c.bits & Mask(i) != 0
  }

  function PolyOf(c: Octet): Poly {
    set i: nat | i < 8 && Coefficient(c, i)
  }

  /** The message, its first byte the most significant. */
  function Message(data: seq<Octet>): Poly {
    if data == [] then {} else Add(Times(Message(data[..|data| - 1]), 8), PolyOf(data[|data| - 1]))
  }

  lemma SingleBit(i: nat)
    requires i < 8
    ensures Mask(i) & (Mask(i) - 1) == 0
  {
  }

  function Weight(c: Octet, i: nat, w: nat): nat {
    if Coefficient(c, i) then w else 0
  }

  /** The polynomial of a byte is its binary expansion. */
  lemma BinaryExpansion(n: Byte)
    ensures var c := OctetOf(n);
            n == Weight(c, 7, 128) + Weight(c, 6, 64) + Weight(c, 5, 32) + Weight(c, 4, 16)
                 + Weight(c, 3, 8) + Weight(c, 2, 4) + Weight(c, 1, 2) + Weight(c, 0, 1)
  {
    OctetRoundTrip(n);
    BitWeights(OctetOf(n));
  }

  lemma BitWeights(c: Octet)
    ensures ToByte(c) == Weight(c, 7, 128) + Weight(c, 6, 64) + Weight(c, 5, 32) + Weight(c, 4, 16)
                         + Weight(c, 3, 8) + Weight(c, 2, 4) + Weight(c, 1, 2) + Weight(c, 0, 1)
  {
  }

  lemma CoefficientXor(a: Octet, b: Octet, i: nat)
    requires i < 8
    ensures Coefficient(Xor(a, b), i) == (Coefficient(a, i) != Coefficient(b, i))
  {
    hide Mask;
    SingleBit(i);
    MaskXor(a.bits, b.bits, Mask(i));
  }

  lemma PolyXor(a: Octet, b: Octet)
    ensures PolyOf(Xor(a, b)) == Add(PolyOf(a), PolyOf(b))
  {
    hide Coefficient, Xor;
    forall i: nat | i < 8
      ensures Coefficient(Xor(a, b), i) == (Coefficient(a, i) != Coefficient(b, i))
    {
      CoefficientXor(a, b, i);
    }
  }

  /** One bit step is one step of long division. */
  lemma BitStepCoefficient(c: Octet, i: nat)
    requires i < 8
    ensures Coefficient(BitStep(c), i)
         == ((i > 0 && Coefficient(c, i - 1)) != (Coefficient(c, 7) && (i == 0 || i == 1 || i == 2)))
  {
  }

  lemma BitStepDivides(c: Octet)
    ensures Times(PolyOf(c), 1) == Add(if Coefficient(c, 7) then GENERATOR else {}, PolyOf(BitStep(c)))
  {
    hide Coefficient, BitStep, Times;
    forall i: nat
      ensures i in Times(PolyOf(c), 1) <==> i > 0 && i < 9 && Coefficient(c, i - 1)
      ensures i in PolyOf(BitStep(c)) <==>
                i < 8 && ((i > 0 && Coefficient(c, i - 1)) != (Coefficient(c, 7) && (i == 0 || i == 1 || i == 2)))
    {
      InTimes(PolyOf(c), 1, i);
      if i < 8 { BitStepCoefficient(c, i); }
    }
  }

  lemma {:induction false} BitStepsDivide(c: Octet, n: nat) returns (ks: seq<nat>)
    ensures Divides(Times(PolyOf(c), n), ks, PolyOf(BitSteps(c, n))) && forall i :: 0 <= i < |ks| ==> ks[i] < n
  {
    hide Add, Times, BitStep, Coefficient;
    if n == 0 {
      ks := [];
      TimesLaws(PolyOf(c), {}, 0, 0);
      AddLaws(PolyOf(c), {}, {});
    } else {
      var before := BitStepsDivide(c, n - 1);
      var r := BitSteps(c, n - 1);
      var top := if Coefficient(r, 7) then [0] else [];
      ks := Raised(before, 1) + top;
      TimesLaws(PolyOf(c), {}, n - 1, 1);
      NextDivides(Times(PolyOf(c), n - 1), before, r, top);
    }
  }

  lemma NextDivides(p: Poly, before: seq<nat>, r: Octet, top: seq<nat>)
    requires Divides(p, before, PolyOf(r)) && top == if Coefficient(r, 7) then [0] else []
    ensures Divides(Times(p, 1), Raised(before, 1) + top, PolyOf(BitStep(r)))
  {
    hide Add, Times, BitStep, Coefficient, Product;
    BitStepDivides(r);
    TimesLaws(Product(before), PolyOf(r), 1, 0);
    ProductRaised(before, 1);
    ProductConcat(Raised(before, 1), top);
    ProductTop(top);
    AddLaws(Product(Raised(before, 1)), Product(top), PolyOf(BitStep(r)));
  }

  lemma ProductTop(top: seq<nat>)
    requires top == [] || top == [0]
    ensures Product(top) == if top == [] then {} else GENERATOR
  {
    hide Times;
    if top == [0] {
      assert top[..0] == [];
      TimesLaws(GENERATOR, {}, 0, 0);
      AddLaws(GENERATOR, {}, {});
    }
  }

  // ---------------------------------------------------------------------------
  // Main results
  // ---------------------------------------------------------------------------

  /** The checksum of a message is the remainder of the message times x^8 by the generator. */
  lemma {:induction false} CrcIsRemainder(data: seq<Octet>) returns (quotient: seq<nat>)
    ensures Divides(Times(Message(data), 8), quotient, PolyOf(Crc(ZERO, data)))
  {
    hide Add, Times, PolyOf, ByteStep;
    if data == [] {
      quotient := [];
      ZeroPoly();
      TimesLaws({}, {}, 8, 0);
      AddLaws({}, {}, {});
    } else {
      var n := |data| - 1;
      var front, b := data[..n], data[n];
      var high := CrcIsRemainder(front);
      var c := Crc(ZERO, front);
      var low := ByteStepDivides(c, b);
      quotient := Raised(high, 8) + low;
      NextRemainder(Message(front), high, low, c, b);
    }
  }

  /** So for the bytes of a message and the checksum byte. */
  lemma ChecksumIsRemainder(message: seq<Byte>) returns (quotient: seq<nat>)
    ensures Divides(Times(Message(Octets(message)), 8), quotient, PolyOf(OctetOf(Checksum(message))))
  {
    hide Divides, Message, PolyOf, Crc;
    quotient := CrcIsRemainder(Octets(message));
    ByteRoundTrip(Crc(ZERO, Octets(message)));
  }

  lemma ZeroPoly()
    ensures PolyOf(ZERO) == {}
  {
  }

  lemma ByteStepDivides(c: Octet, b: Octet) returns (ks: seq<nat>)
    ensures Divides(Times(Add(PolyOf(c), PolyOf(b)), 8), ks, PolyOf(ByteStep(c, b)))
    ensures forall i :: 0 <= i < |ks| ==> ks[i] < 8
  {
    hide PolyOf, Divides, Add, Times, BitSteps, Xor;
    PolyXor(c, b);
    ks := BitStepsDivide(Xor(c, b), 8);
  }

  lemma NextRemainder(m: Poly, high: seq<nat>, low: seq<nat>, c: Octet, b: Octet)
    requires Divides(Times(m, 8), high, PolyOf(c))
    requires Divides(Times(Add(PolyOf(c), PolyOf(b)), 8), low, PolyOf(ByteStep(c, b)))
    requires forall i :: 0 <= i < |low| ==> low[i] < 8
    ensures Divides(Times(Add(Times(m, 8), PolyOf(b)), 8), Raised(high, 8) + low, PolyOf(ByteStep(c, b)))
  {
    hide Add, Times, PolyOf, ByteStep, Product;
    var p, q, r := Product(high), PolyOf(c), PolyOf(b);
    var rest := PolyOf(ByteStep(c, b));
    AddLaws(p, q, r);
    TimesLaws(p, Add(q, r), 8, 0);
    ProductRaised(high, 8);
    ProductConcat(Raised(high, 8), low);
    AddLaws(Product(Raised(high, 8)), Product(low), rest);
  }

  /** And the remainder is unique: a multiple of the generator other than zero has degree 8 or more. */
  lemma {:induction false} TopOfProduct(ks: seq<nat>)
    requires Falling(ks)
    ensures ks != [] ==> ks[0] + 8 in Product(ks)
    ensures forall i :: i in Product(ks) ==> ks != [] && i <= ks[0] + 8
  {
    if ks != [] {
      var n := |ks| - 1;
      TopOfProduct(ks[..n]);
      InTimes(GENERATOR, ks[n], ks[0] + 8);
    }
  }

  lemma {:induction false} RemainderUnique(p: Poly, ks: seq<nat>, r: Poly, ls: seq<nat>, t: Poly)
    requires Divides(p, ks, r) && Divides(p, ls, t)
    ensures ks == ls && r == t
    decreases |ks|
  {
    if ks == [] || ls == [] {
      TopOfProduct(ks);
      TopOfProduct(ls);
    } else {
      TopOfProduct(ks);
      TopOfProduct(ls);
      assert ks[0] + 8 in p && ls[0] + 8 in p;
      assert ks[0] == ls[0];
      FirstOff(ks);
      FirstOff(ls);
      var q := Add(p, Times(GENERATOR, ks[0]));
      RemainderUnique(q, ks[1..], r, ls[1..], t);
    }
  }

  lemma FirstOff(ks: seq<nat>)
    requires ks != []
    ensures Product(ks) == Add(Times(GENERATOR, ks[0]), Product(ks[1..]))
  {
    hide Add, Times;
    assert ks == [ks[0]] + ks[1..];
    ProductConcat([ks[0]], ks[1..]);
    assert [ks[0]][..0] == [];
    AddLaws(Times(GENERATOR, ks[0]), {}, {});
  }

  /** The nine ASCII digits 1 to 9. */
  const DIGITS: seq<Octet> := [Octet(0x31), Octet(0x32), Octet(0x33), Octet(0x34), Octet(0x35), Octet(0x36),
                               Octet(0x37), Octet(0x38), Octet(0x39)]

  /** The catalogued check value of this checksum. */
  lemma CheckValue()
    ensures Crc(ZERO, DIGITS) == Octet(0xF4)
  {
    hide Crc;
    CrcOfNone();
    assert DIGITS[..0] == [];
    Fed(DIGITS[..0], Octet(0x31), Octet(0x00), Octet(0x97));
    assert DIGITS[..0] + [Octet(0x31)] == DIGITS[..1];
    Fed(DIGITS[..1], Octet(0x32), Octet(0x97), Octet(0x72));
    assert DIGITS[..1] + [Octet(0x32)] == DIGITS[..2];
    Fed(DIGITS[..2], Octet(0x33), Octet(0x72), Octet(0xC0));
    assert DIGITS[..2] + [Octet(0x33)] == DIGITS[..3];
    Fed(DIGITS[..3], Octet(0x34), Octet(0xC0), Octet(0xC2));
    assert DIGITS[..3] + [Octet(0x34)] == DIGITS[..4];
    Fed(DIGITS[..4], Octet(0x35), Octet(0xC2), Octet(0xCB));
    assert DIGITS[..4] + [Octet(0x35)] == DIGITS[..5];
    Fed(DIGITS[..5], Octet(0x36), Octet(0xCB), Octet(0xFD));
    assert DIGITS[..5] + [Octet(0x36)] == DIGITS[..6];
    Fed(DIGITS[..6], Octet(0x37), Octet(0xFD), Octet(0x78));
    assert DIGITS[..6] + [Octet(0x37)] == DIGITS[..7];
    Fed(DIGITS[..7], Octet(0x38), Octet(0x78), Octet(0xC7));
    assert DIGITS[..7] + [Octet(0x38)] == DIGITS[..8];
    Fed(DIGITS[..8], Octet(0x39), Octet(0xC7), Octet(0xF4));
    assert DIGITS[..8] + [Octet(0x39)] == DIGITS[..9];
    assert DIGITS[..9] == DIGITS;
  }

  lemma CrcOfNone()
    ensures Crc(ZERO, []) == ZERO
  {
  }

  lemma Fed(data: seq<Octet>, b: Octet, c: Octet, r: Octet)
    requires Crc(ZERO, data) == c && Steps8(Xor(c, b)) == r
    ensures Crc(ZERO, data + [b]) == r
  {
    EightSteps(Xor(c, b));
    assert (data + [b])[..|data|] == data;
  }
}
