/** The 17-byte datagram header and its checksum (src/transport/protocol.c). */
module Protocol {
  import opened Words
  import opened Crc8

  const MAGIC: u16 := 0x5643
  const VERSION: Byte := 1
  const HEADER_SIZE: nat := 17

  const STREAM_VIDEO: Byte := 1
  const FLAG_KEYFRAME: Byte := 2
  const FLAG_FRAGMENTED: Byte := 4

  datatype Header = Header(
    magic: u16, version: Byte, flags: Byte, stream: Byte, reserved: Byte,
    payloadLen: u16, seqNo: u32, tsUs: u32, crc: Byte)

  datatype Decoded = Accepted(header: Header, payload: seq<Byte>) | Rejected(status: Status)

  predicate HeaderValid(h: Header) {
    h.magic == MAGIC && h.version == VERSION && h.reserved == 0
  }

  /** The 16 header bytes the checksum covers. */
  function Prefix(h: Header): (s: seq<Byte>)
    ensures |s| == 16
  {
    Wr16(h.magic) + [h.version, h.flags, h.stream, h.reserved] + Wr16(h.payloadLen) + Wr32(h.seqNo) + Wr32(h.tsUs)
  }

  /** The bytes of a whole datagram. */
  function Frame(h: Header, payload: seq<Byte>): (s: seq<Byte>)
    ensures |s| == HEADER_SIZE + |payload|
  {
    Prefix(h) + [Checksum(Prefix(h) + payload)] + payload
  }

  function HeaderAt(d: seq<Byte>): Header
    requires |d| >= HEADER_SIZE
  {
    Header(Rd16(d[0..2]), d[2], d[3], d[4], d[5], Rd16(d[6..8]), Rd32(d[8..12]), Rd32(d[12..16]), d[16])
  }

  /** What the checksum of a datagram carrying `n` payload bytes covers. */
  function Covered(d: seq<Byte>, n: nat): (s: seq<Byte>)
    requires |d| >= HEADER_SIZE + n
    ensures |s| == 16 + n
  {
    d[..16] + d[17..17 + n]
  }

  function Decode(d: seq<Byte>): Decoded {
    if |d| < HEADER_SIZE then Rejected(InvalidArg)
    else
      var h := HeaderAt(d);
      if !HeaderValid(h) then Rejected(Proto)
      else if |d| < HEADER_SIZE + h.payloadLen then Rejected(Proto)
      else if h.crc != Checksum(Covered(d, h.payloadLen)) then Rejected(Corrupt)
      else Accepted(h, d[17..17 + h.payloadLen])
  }

  // ---------------------------------------------------------------------------
  // The code
  // ---------------------------------------------------------------------------

  method FrameCrc(prefix: seq<Byte>, payload: seq<Byte>) returns (crc: Byte)
    ensures crc == Checksum(prefix + payload)
  {
    var c := Update(ZERO, prefix);
    if |payload| > 0 {
      c := Update(c, payload);
    }
    crc := ToByte(c);
    CrcConcat(ZERO, Octets(prefix), Octets(payload));
    assert Octets(prefix + payload) == Octets(prefix) + Octets(payload);
  }

  datatype Written = Wrote(total: nat) | Failed(status: Status)

  /** `vmc_proto_encode`; a null payload leaves the payload bytes alone and out of the checksum. */
  method Encode(buf: array<Byte>, h: Header, payload: Option<seq<Byte>>) returns (r: Written)
    requires payload.Some? ==> |payload.value| >= h.payloadLen
    modifies buf
    ensures !HeaderValid(h) ==> r == Failed(InvalidArg)
    ensures HeaderValid(h) && buf.Length < HEADER_SIZE + h.payloadLen ==> r == Failed(NoMem)
    ensures r.Failed? ==> buf[..] == old(buf[..])
    ensures r.Wrote? <==> HeaderValid(h) && HEADER_SIZE + h.payloadLen <= buf.Length
    ensures r.Wrote? ==> r.total == HEADER_SIZE + h.payloadLen
    ensures r.Wrote? && payload.Some? ==>
              buf[..] == Frame(h, payload.value[..h.payloadLen]) + old(buf[..])[r.total..]
    ensures r.Wrote? && payload.None? ==> buf[..] == Frame(h, []) + old(buf[..])[HEADER_SIZE..]
  {
    if !HeaderValid(h) {
      return Failed(InvalidArg);
    }
    var total := HEADER_SIZE + h.payloadLen;
    if buf.Length < total {
      return Failed(NoMem);
    }
    hide Checksum, Prefix;
    ghost var before := buf[..];
    CopyInto(buf, 0, Prefix(h) + [0]);
    var body := if payload.Some? then payload.value[..h.payloadLen] else [];
    ghost var first := buf[..];
    CopyInto(buf, HEADER_SIZE, body);
    ghost var second := buf[..];
    Assembled(before, Prefix(h), body, first, second);
    assert buf[..16] == second[..16];
    var crc := FrameCrc(buf[..16], body);
    buf[16] := crc;
    assert buf[..] == second[16 := crc];
    r := Wrote(total);
  }

  /** The header with a zero for the checksum, the payload after it, then the checksum. */
  lemma Assembled(before: seq<Byte>, prefix: seq<Byte>, body: seq<Byte>, first: seq<Byte>, second: seq<Byte>)
    requires |prefix| == 16 && |before| >= HEADER_SIZE + |body|
    requires first == before[..0] + (prefix + [0]) + before[HEADER_SIZE..]
    requires second == first[..HEADER_SIZE] + body + first[HEADER_SIZE + |body|..]
    ensures second[..16] == prefix
    ensures forall crc: Byte :: second[16 := crc] == prefix + [crc] + body + before[HEADER_SIZE + |body|..]
  {
    assert first[HEADER_SIZE + |body|..] == before[HEADER_SIZE + |body|..];
    assert second == (prefix + [0]) + body + before[HEADER_SIZE + |body|..];
    forall crc: Byte
      ensures second[16 := crc] == prefix + [crc] + body + before[HEADER_SIZE + |body|..]
    {
    }
  }

  /** `vmc_proto_decode` on the first `len` bytes of a receive buffer. */
  method DecodeDatagram(buf: array<Byte>, len: nat) returns (r: Decoded)
    requires len <= buf.Length
    ensures r == Decode(buf[..len])
  {
    if len < HEADER_SIZE {
      return Rejected(InvalidArg);
    }
    var h := HeaderAt(buf[..len]);
    if !HeaderValid(h) {
      return Rejected(Proto);
    }
    if len < HEADER_SIZE + h.payloadLen {
      return Rejected(Proto);
    }
    var crc := FrameCrc(buf[..16], buf[17..17 + h.payloadLen]);
    assert buf[..16] == buf[..len][..16] && buf[17..17 + h.payloadLen] == buf[..len][17..17 + h.payloadLen];
    if h.crc != crc {
      return Rejected(Corrupt);
    }
    r := Accepted(h, buf[17..17 + h.payloadLen]);
  }

  // ---------------------------------------------------------------------------
  // Round trips: the accepted datagrams are exactly the encoded ones
  // ---------------------------------------------------------------------------

  lemma PrefixFields(h: Header, rest: seq<Byte>)
    requires |rest| >= 1
    ensures HeaderAt(Prefix(h) + rest) == h.(crc := rest[0])
  {
    var d := Prefix(h) + rest;
    assert d[0..2] == Wr16(h.magic);
    assert d[6..8] == Wr16(h.payloadLen);
    assert d[8..12] == Wr32(h.seqNo);
    assert d[12..16] == Wr32(h.tsUs);
    WordRoundTrip(h.seqNo, d[8..12]);
    WordRoundTrip(h.tsUs, d[12..16]);
  }

  /** Decoding an encoded datagram, even with bytes after it, gives back header and payload. */
  lemma DecodeOfEncoded(h: Header, payload: seq<Byte>, trailing: seq<Byte>)
    requires HeaderValid(h) && h.payloadLen == |payload|
    ensures Decode(Frame(h, payload) + trailing)
         == Accepted(h.(crc := Checksum(Prefix(h) + payload)), payload)
  {
    var crc := Checksum(Prefix(h) + payload);
    var d := Frame(h, payload) + trailing;
    assert d == Prefix(h) + ([crc] + payload + trailing);
    PrefixFields(h, [crc] + payload + trailing);
    assert Covered(d, |payload|) == Prefix(h) + payload;
    assert d[17..17 + |payload|] == payload;
  }

  lemma PrefixOfHeaderAt(d: seq<Byte>)
    requires |d| >= HEADER_SIZE
    ensures Prefix(HeaderAt(d)) == d[..16]
  {
    WordRoundTrip(0, d[8..12]);
    WordRoundTrip(0, d[12..16]);
    var h := HeaderAt(d);
    assert Wr16(h.magic) == d[0..2] && Wr16(h.payloadLen) == d[6..8];
    assert d[..16] == d[0..2] + d[2..6] + d[6..8] + d[8..12] + d[12..16];
    assert d[2..6] == [d[2], d[3], d[4], d[5]];
  }

  /** Whatever is accepted is, up to trailing bytes, the encoding of what was returned. */
  lemma EncodedOfDecoded(d: seq<Byte>)
    requires Decode(d).Accepted?
    ensures var Accepted(h, p) := Decode(d);
            HeaderValid(h) && h.payloadLen == |p| && |d| >= HEADER_SIZE + |p|
            && d[..HEADER_SIZE + |p|] == Frame(h, p)
  {
    var Accepted(h, p) := Decode(d);
    PrefixOfHeaderAt(d);
    assert Covered(d, |p|) == Prefix(h) + p;
    assert d[..HEADER_SIZE + |p|] == d[..16] + [d[16]] + d[17..17 + |p|];
  }

  // ---------------------------------------------------------------------------
  // Error detection
  // ---------------------------------------------------------------------------

  /** `e` is `d` with some bytes changed, the length field not among them. */
  predicate SameLength(d: seq<Byte>, e: seq<Byte>) {
    |d| == |e| >= HEADER_SIZE && d[6] == e[6] && d[7] == e[7]
  }

  /** The difference between the checksum a datagram carries and the one it should carry. */
  function Syndrome(d: seq<Byte>, n: nat): Octet
    requires |d| >= HEADER_SIZE + n
  {
    Xor(OctetOf(d[16]), Crc(ZERO, Octets(Covered(d, n))))
  }

  /** The bits in which the covered bytes of two datagrams differ, and those of the checksum byte. */
  function ErrorPattern(d: seq<Byte>, e: seq<Byte>, n: nat): seq<Octet>
    requires |d| >= HEADER_SIZE + n && |e| >= HEADER_SIZE + n
  {
    XorSeq(Octets(Covered(d, n)), Octets(Covered(e, n)))
  }

  function ErrorCrc(d: seq<Byte>, e: seq<Byte>): Octet
    requires |d| >= HEADER_SIZE && |e| >= HEADER_SIZE
  {
    Xor(OctetOf(d[16]), OctetOf(e[16]))
  }

  lemma XorZero(a: Octet, b: Octet)
    ensures Xor(a, b) == ZERO <==> a == b
  {
    hide Xor;
    XorLaws(b, b, b);
    if Xor(a, b) == ZERO { XorCancel(a, b, b); }
  }

  lemma ChecksumMatches(d: seq<Byte>, n: nat)
    requires |d| >= HEADER_SIZE + n
    ensures d[16] == Checksum(Covered(d, n)) <==> Syndrome(d, n) == ZERO
  {
    hide Xor, OctetOf, ToByte, Octets, Covered;
    var c := Crc(ZERO, Octets(Covered(d, n)));
    XorZero(OctetOf(d[16]), c);
    OctetRoundTrip(d[16]);
    ByteRoundTrip(c);
  }

  /** Exactly the errors that are themselves codewords go undetected. */
  lemma UndetectedIffCodeword(d: seq<Byte>, e: seq<Byte>)
    requires Decode(d).Accepted? && SameLength(d, e)
    ensures Decode(e).Accepted? <==>
              HeaderValid(HeaderAt(e))
              && Crc(ZERO, ErrorPattern(d, e, HeaderAt(d).payloadLen)) == ErrorCrc(d, e)
  {
    hide Xor, OctetOf, Octets, Covered, Crc, XorSeq, Checksum;
    var n := HeaderAt(d).payloadLen;
    assert d[6..8] == e[6..8];
    ChecksumMatches(d, n);
    ChecksumMatches(e, n);
    var cd, ce := Octets(Covered(d, n)), Octets(Covered(e, n));
    CrcLinear(ZERO, ZERO, cd, ce);
    XorLaws(ZERO, ZERO, ZERO);
    var x, x', y, y' := OctetOf(d[16]), OctetOf(e[16]), Crc(ZERO, cd), Crc(ZERO, ce);
    XorZero(x, y);
    XorZero(x', y');
    assert Crc(ZERO, ErrorPattern(d, e, n)) == Xor(x, y');
    XorLaws(x, y', x);
    XorLaws(y', x, x);
    XorLaws(x, x', x);
    if Xor(x, y') == Xor(x, x') {
      XorLaws(x', x, x);
      XorCancel(y', x', x);
    }
  }

  /** Changing any single byte outside the length field is detected. */
  lemma SingleByteDetected(d: seq<Byte>, i: nat, v: Byte)
    requires Decode(d).Accepted?
    requires i < HEADER_SIZE + HeaderAt(d).payloadLen && i != 6 && i != 7 && v != d[i]
    ensures Decode(d[i := v]).Rejected?
  {
    var n := HeaderAt(d).payloadLen;
    var e := d[i := v];
    hide Checksum;
    assert d[6..8] == e[6..8];
    if i == 16 {
      assert Covered(d, n) == Covered(e, n);
    } else {
      var k := if i < 16 then i else i - 1;
      CoveredChanged(d, n, i, v);
      ByteChangeShows(Covered(d, n), k, v);
    }
  }

  lemma CoveredChanged(d: seq<Byte>, n: nat, i: nat, v: Byte)
    requires |d| >= HEADER_SIZE + n && i < HEADER_SIZE + n && i != 16
    ensures var k := if i < 16 then i else i - 1;
            Covered(d, n)[k] == d[i] && Covered(d[i := v], n) == Covered(d, n)[k := v]
  {
    if i < 16 {
      assert d[i := v][..16] == d[..16][i := v] && d[i := v][17..17 + n] == d[17..17 + n];
    } else {
      assert d[i := v][..16] == d[..16] && d[i := v][17..17 + n] == d[17..17 + n][i - 17 := v];
    }
  }

  lemma ByteChangeShows(s: seq<Byte>, k: nat, v: Byte)
    requires k < |s| && v != s[k]
    ensures Checksum(s[k := v]) != Checksum(s)
  {
    hide Xor, OctetOf, ToByte, BitSteps;
    var a, z := Octets(s[..k]), Octets(s[k + 1..]);
    var x, y := OctetOf(s[k]), OctetOf(v);
    OctetRoundTrip(s[k]);
    OctetRoundTrip(v);
    assert Octets(s) == (a + [x]) + z;
    assert Octets(s[k := v]) == (a + [y]) + z;
    CrcConcat(ZERO, a + [x], z);
    CrcConcat(ZERO, a + [y], z);
    ByteRoundTrip(Crc(ZERO, Octets(s)));
    ByteRoundTrip(Crc(ZERO, Octets(s[k := v])));
    if Checksum(s[k := v]) == Checksum(s) {
      CrcInjective(Crc(ZERO, a + [x]), Crc(ZERO, a + [y]), z);
      var r := Crc(ZERO, a);
      assert (a + [x])[..|a|] == a && (a + [y])[..|a|] == a;
      BitStepsInjective(Xor(r, x), Xor(r, y), 8);
      XorLaws(r, x, r);
      XorLaws(r, y, r);
      XorCancel(x, y, r);
    }
  }

  /** Flipping any odd number of bits outside the length field is detected. */
  lemma OddFlipsDetected(d: seq<Byte>, e: seq<Byte>)
    requires Decode(d).Accepted? && SameLength(d, e)
    requires (OnesIn(ErrorPattern(d, e, HeaderAt(d).payloadLen)) + Ones(ErrorCrc(d, e))) % 2 == 1
    ensures Decode(e).Rejected?
  {
    hide Ones, ErrorCrc, ErrorPattern, Crc;
    var pattern := ErrorPattern(d, e, HeaderAt(d).payloadLen);
    UndetectedIffCodeword(d, e);
    CrcParity(ZERO, pattern);
    assert Ones(ZERO) == 0 by { OnesOfZero(); }
  }

  lemma OnesOfZero()
    ensures Ones(ZERO) == 0
  {
  }

  /** Any error confined to 8 consecutive bits of the header or of the payload, outside the length
      field, is detected: here `e` and `f` are the errors of the bytes at `i` and `i + 1`. */
  lemma BurstDetected(d: seq<Byte>, i: nat, x: Byte, y: Byte, k: nat)
    requires Decode(d).Accepted?
    requires i + 1 < 6 || 8 <= i < 15 || 17 <= i < 16 + HeaderAt(d).payloadLen
    requires Burst(Xor(OctetOf(d[i]), OctetOf(x)), Xor(OctetOf(d[i + 1]), OctetOf(y)), k)
    ensures Decode(d[i := x][i + 1 := y]).Rejected?
  {
    hide Xor, Burst, OctetOf, Syndrome, Checksum;
    var n := HeaderAt(d).payloadLen;
    var e := d[i := x][i + 1 := y];
    assert d[6..8] == e[6..8];
    var j := if i < 16 then i else i - 1;
    assert Covered(e, n) == Covered(d, n)[j := x][j + 1 := y];
    BurstShows(Covered(d, n), j, x, y, k);
  }

  lemma BurstShows(s: seq<Byte>, j: nat, x: Byte, y: Byte, k: nat)
    requires j + 1 < |s|
    requires Burst(Xor(OctetOf(s[j]), OctetOf(x)), Xor(OctetOf(s[j + 1]), OctetOf(y)), k)
    ensures Checksum(s[j := x][j + 1 := y]) != Checksum(s)
  {
    hide Xor, OctetOf, ToByte, ByteStep, Burst;
    var t := s[j := x][j + 1 := y];
    var a, z := Octets(s[..j]), Octets(s[j + 2..]);
    var p, q, p', q' := OctetOf(s[j]), OctetOf(s[j + 1]), OctetOf(x), OctetOf(y);
    assert Octets(s) == (a + [p, q]) + z;
    assert Octets(t) == (a + [p', q']) + z;
    CrcConcat(ZERO, a + [p, q], z);
    CrcConcat(ZERO, a + [p', q'], z);
    ByteRoundTrip(Crc(ZERO, Octets(s)));
    ByteRoundTrip(Crc(ZERO, Octets(t)));
    if Checksum(t) == Checksum(s) {
      CrcInjective(Crc(ZERO, a + [p, q]), Crc(ZERO, a + [p', q']), z);
      CrcConcat(ZERO, a, [p, q]);
      CrcConcat(ZERO, a, [p', q']);
      CrcOfTwo(Crc(ZERO, a), p, q);
      CrcOfTwo(Crc(ZERO, a), p', q');
      TwoStepsDiffer(Crc(ZERO, a), p, q, p', q', k);
    }
  }

  lemma CrcOfTwo(r: Octet, p: Octet, q: Octet)
    ensures Crc(r, [p, q]) == ByteStep(ByteStep(r, p), q)
  {
    hide ByteStep;
    assert [p, q][..1] == [p] && [p][..0] == [];
    assert Crc(r, [p]) == ByteStep(Crc(r, []), p);
  }

  lemma TwoStepsDiffer(r: Octet, p: Octet, q: Octet, p': Octet, q': Octet, k: nat)
    requires Burst(Xor(p, p'), Xor(q, q'), k)
    ensures ByteStep(ByteStep(r, p), q) != ByteStep(ByteStep(r, p'), q')
  {
    hide Xor, ByteStep, Burst;
    ByteStepLinear(r, r, p, p');
    XorLaws(r, r, r);
    ByteStepLinear(ByteStep(r, p), ByteStep(r, p'), q, q');
    BurstNotCodeword(Xor(p, p'), Xor(q, q'), k);
    XorZero(ByteStep(ByteStep(r, p), q), ByteStep(ByteStep(r, p'), q'));
  }

  // ---------------------------------------------------------------------------
  // The wire format, byte by byte
  // ---------------------------------------------------------------------------

  /** The four bytes of `v` from `at` on, least significant first. */
  predicate Word32At(d: seq<Byte>, at: nat, v: u32) {
    && at + 4 <= |d| && d[at] == v % 0x100 && d[at + 1] == v / 0x100 % 0x100
    && d[at + 2] == v / 0x1_0000 % 0x100 && d[at + 3] == v / 0x100_0000
  }

  lemma WordBytes(v: u32)
    ensures Word32At(Wr32(v), 0, v)
  {
    assert v % 0x1_0000 % 0x100 == v % 0x100 && v % 0x1_0000 / 0x100 == v / 0x100 % 0x100;
  }

  /** Where every field of an encoded datagram stands. */
  lemma FrameBytes(h: Header, payload: seq<Byte>)
    ensures var d := Frame(h, payload);
            && d[0] == h.magic % 0x100 && d[1] == h.magic / 0x100
            && d[2] == h.version && d[3] == h.flags && d[4] == h.stream && d[5] == h.reserved
            && d[6] == h.payloadLen % 0x100 && d[7] == h.payloadLen / 0x100
            && Word32At(d, 8, h.seqNo) && Word32At(d, 12, h.tsUs)
            && d[16] == Checksum(d[..16] + payload) && d[17..] == payload
  {
    hide Checksum, Wr32;
    WordBytes(h.seqNo);
    WordBytes(h.tsUs);
    var d := Frame(h, payload);
    assert d[..16] == Prefix(h);
    assert d[8..12] == Wr32(h.seqNo) && d[12..16] == Wr32(h.tsUs);
  }

  /** The payload length a datagram announces. */
  function Announced(d: seq<Byte>): nat
    requires |d| >= 17
  {
    var lo: int, hi: int := d[6], d[7];
    lo + 0x100 * hi
  }

  /** The fixed bytes of a datagram: magic `C`, `V`, version 1, reserved 0. */
  predicate FixedBytes(d: seq<Byte>) {
    |d| >= 17 && d[0] == 0x43 && d[1] == 0x56 && d[2] == 1 && d[5] == 0
  }

  /** Exactly which bytes are accepted, and why the others are not. */
  lemma DecodeBytes(d: seq<Byte>)
    ensures Decode(d) == Rejected(InvalidArg) <==> |d| < 17
    ensures Decode(d) == Rejected(Proto) <==> |d| >= 17 && !(FixedBytes(d) && |d| >= 17 + Announced(d))
    ensures Decode(d) == Rejected(Corrupt) <==>
              && FixedBytes(d) && |d| >= 17 + Announced(d)
              && d[16] != Checksum(d[..16] + d[17..17 + Announced(d)])
    ensures Decode(d).Accepted? <==>
              && FixedBytes(d) && |d| >= 17 + Announced(d)
              && d[16] == Checksum(d[..16] + d[17..17 + Announced(d)])
    ensures Decode(d).Accepted? ==>
              && Decode(d).payload == d[17..17 + Announced(d)]
              && Decode(d).header.flags == d[3] && Decode(d).header.stream == d[4]
              && Word32At(d, 8, Decode(d).header.seqNo) && Word32At(d, 12, Decode(d).header.tsUs)
  {
    hide Checksum;
    if |d| >= 17 {
      MagicBytes(d[0..2]);
      assert Rd16(d[6..8]) == Announced(d);
      WordRead(d, 8);
      WordRead(d, 12);
      hide Rd32, Rd16, Word32At;
    }
  }

  lemma MagicBytes(s: seq<Byte>)
    requires |s| == 2
    ensures Rd16(s) == MAGIC <==> s[0] == 0x43 && s[1] == 0x56
  {
  }

  lemma WordRead(d: seq<Byte>, at: nat)
    requires at + 4 <= |d|
    ensures Word32At(d, at, Rd32(d[at..at + 4]))
  {
    WordRoundTrip(0, d[at..at + 4]);
    WordBytes(Rd32(d[at..at + 4]));
    hide Rd32;
  }

  // ---------------------------------------------------------------------------
  // Errors in the length field
  // ---------------------------------------------------------------------------

  /** The datagram with another length field. */
  function WithLength(d: seq<Byte>, n: u16): seq<Byte>
    requires |d| >= HEADER_SIZE
  {
    d[..6] + Wr16(n) + d[8..]
  }

  lemma LengthReplaced(h: Header, payload: seq<Byte>, n: u16)
    ensures WithLength(Frame(h, payload), n)
         == Prefix(h.(payloadLen := n)) + ([Checksum(Prefix(h) + payload)] + payload)
  {
    hide Checksum, Wr16, Wr32;
    var d := Frame(h, payload);
    var a := Wr16(h.magic) + [h.version, h.flags, h.stream, h.reserved];
    var b := Wr32(h.seqNo) + Wr32(h.tsUs) + ([Checksum(Prefix(h) + payload)] + payload);
    assert d == a + Wr16(h.payloadLen) + b;
    assert d[..6] == a && d[8..] == b;
  }

  /** A raised length is always detected on a datagram without trailing bytes: the bytes are missing. */
  lemma RaisedLengthDetected(h: Header, payload: seq<Byte>, n: u16)
    requires |payload| < n
    ensures Decode(WithLength(Frame(h, payload), n)).Rejected?
  {
    hide Checksum, Prefix;
    var rest := [Checksum(Prefix(h) + payload)] + payload;
    LengthReplaced(h, payload, n);
    PrefixFields(h.(payloadLen := n), rest);
  }

  /** A lowered length is a blind spot: whatever header, length and payload but its last byte, some last
      byte makes the checksums agree, and the truncated payload is accepted. */
  lemma LoweredLengthAccepted(h: Header, front: seq<Byte>, n: u16) returns (p: Byte)
    requires HeaderValid(h) && n <= |front| && h.payloadLen == |front| + 1
    ensures Decode(Frame(h, front + [p])).Accepted?
    ensures Decode(WithLength(Frame(h, front + [p]), n)).Accepted?
    ensures Decode(WithLength(Frame(h, front + [p]), n)).payload == front[..n]
  {
    hide Decode, Frame, Checksum, Prefix, HeaderValid;
    var short := h.(payloadLen := n);
    p := LastByte(Prefix(h) + front, Prefix(short) + front[..n]);
    var payload := front + [p];
    assert Prefix(h) + front + [p] == Prefix(h) + payload;
    DecodeOfEncoded(h, payload, []);
    assert Frame(h, payload) + [] == Frame(h, payload);
    LengthReplaced(h, payload, n);
    assert payload[..n] == front[..n];
    ShortFrame(short, payload, n, Checksum(Prefix(h) + payload));
    assert HeaderValid(short) by { SameValid(h, n); }
    DecodeOfEncoded(short, front[..n], payload[n..]);
  }

  lemma SameValid(h: Header, n: u16)
    requires HeaderValid(h)
    ensures HeaderValid(h.(payloadLen := n))
  {
  }

  lemma ShortFrame(h: Header, payload: seq<Byte>, n: nat, crc: Byte)
    requires n <= |payload| && crc == Checksum(Prefix(h) + payload[..n])
    ensures Prefix(h) + ([crc] + payload) == Frame(h, payload[..n]) + payload[n..]
  {
    hide Checksum, Prefix;
    assert payload == payload[..n] + payload[n..];
  }

  /** Some last byte gives a message the checksum of another one. */
  lemma LastByte(message: seq<Byte>, other: seq<Byte>) returns (p: Byte)
    ensures Checksum(message + [p]) == Checksum(other)
  {
    hide OctetOf, ToByte, ByteStep;
    var r := Crc(ZERO, Octets(message));
    var c := ByteStepOnto(r, Crc(ZERO, Octets(other)));
    p := ToByte(c);
    ByteRoundTrip(c);
    assert Octets(message + [p]) == Octets(message) + [c];
    CrcConcat(ZERO, Octets(message), [c]);
    assert Crc(r, [c]) == ByteStep(Crc(r, [c][..0]), c);
  }

  /** So a change of the length field is detected whatever the payload if and only if it does not lower
      the length. */
  lemma LengthChangeDetectedIff(h: Header, n: u16)
    requires HeaderValid(h) && n != h.payloadLen
    ensures (forall payload: seq<Byte> :: |payload| == h.payloadLen ==>
               Decode(WithLength(Frame(h, payload), n)).Rejected?)
            <==> n > h.payloadLen
  {
    hide Decode, Frame, WithLength;
    if n > h.payloadLen {
      forall payload: seq<Byte> | |payload| == h.payloadLen
        ensures Decode(WithLength(Frame(h, payload), n)).Rejected?
      {
        RaisedLengthDetected(h, payload, n);
      }
    } else {
      var front: seq<Byte> := seq(h.payloadLen - 1, _ => 0);
      var p := LoweredLengthAccepted(h, front, n);
      assert |front + [p]| == h.payloadLen;
    }
  }
}
