/** Chunked transfer coding (section 7.1 of RFC 9112): the server's printing in
    tools/vmc-dash-sim/main.c and the client's decoder in apps/thinclient/main.c. */
module Chunked {
  import opened Words

  const CR: Byte := 13
  const LF: Byte := 10
  const CRLF: seq<Byte> := [13, 10]
  const LONG_MAX: nat := 0x7FFF_FFFF_FFFF_FFFF
  const MAX_DIGITS: nat := 31

  /** The largest body the decoder can make room for. */
  const MAX_BODY: nat := 0x8000_0000_0000_0000

  // ---------------------------------------------------------------------------
  // Printing
  // ---------------------------------------------------------------------------

  function HexDigit(d: nat): Byte
    requires d < 16
  {
    if d < 10 then 48 + d else 87 + d
  }

  /** `%zx`: lower-case hexadecimal without leading zeros. */
  function Hex(n: nat): (s: seq<Byte>)
    ensures s != []
  {
    if n < 16 then [HexDigit(n)] else Hex(n / 16) + [HexDigit(n % 16)]
  }

  function EncodeChunk(c: seq<Byte>): seq<Byte> {
    Hex(|c|) + CRLF + c + CRLF
  }

  function EncodeChunks(cs: seq<seq<Byte>>): seq<Byte> {
    if cs == [] then [] else EncodeChunk(cs[0]) + EncodeChunks(cs[1..])
  }

  /** `0`, CR, LF, CR, LF. */
  const TERM: seq<Byte> := [48, 13, 10, 13, 10]

  // ---------------------------------------------------------------------------
  // The decoder, as a function of the bytes from the current position on
  // ---------------------------------------------------------------------------

  predicate IsHex(b: Byte) {
    48 <= b <= 57 || 97 <= b <= 102 || 65 <= b <= 70
  }

  function HexValue(b: Byte): (v: nat)
    requires IsHex(b)
    ensures v < 16
  {
    if b <= 57 then b - 48 else if b >= 97 then b - 87 else b - 55
  }

  function SkipCrlf(s: seq<Byte>): (t: seq<Byte>)
    ensures |t| <= |s|
  {
    if s != [] && (s[0] == CR || s[0] == LF) then SkipCrlf(s[1..]) else s
  }

  /** How many hexadecimal digits, at most `limit`, the string starts with. */
  function HexCount(s: seq<Byte>, limit: nat): (k: nat)
    ensures k <= |s| && k <= limit
    ensures forall i :: 0 <= i < k ==> IsHex(s[i])
  {
    if limit == 0 || s == [] || !IsHex(s[0]) then 0 else 1 + HexCount(s[1..], limit - 1)
  }

  function ParseHex(s: seq<Byte>): nat
    requires forall i :: 0 <= i < |s| ==> IsHex(s[i])
  {
    if s == [] then 0 else ParseHex(s[..|s| - 1]) * 16 + HexValue(s[|s| - 1])
  }

  /** `strtol` saturates. */
  function Saturate(n: nat): nat {
    if n > LONG_MAX then LONG_MAX else n
  }

  /** What follows the next line feed. */
  function AfterLine(s: seq<Byte>): (t: seq<Byte>)
    ensures |t| <= |s|
  {
    if s == [] then [] else if s[0] == LF then s[1..] else AfterLine(s[1..])
  }

  function SkipOne(s: seq<Byte>, b: Byte): (t: seq<Byte>)
    ensures |t| <= |s|
  {
    if s != [] && s[0] == b then s[1..] else s
  }

  /** The decoder fails, returns the body, or never returns. */
  datatype Outcome = Failed | Body(bytes: seq<Byte>) | Hangs

  function Decode(s: seq<Byte>, acc: seq<Byte>): Outcome
    decreases |s|
  {
    var t := SkipCrlf(s);
    if t == [] then Failed
    else
      var k := HexCount(t, MAX_DIGITS);
      var size := Saturate(ParseHex(t[..k]));
      var u := AfterLine(t[k..]);
      if size == 0 then Body(acc)
      else if |acc| + size > MAX_BODY then Hangs
      else if size > |u| then Failed
      else Decode(SkipOne(SkipOne(u[size..], CR), LF), acc + u[..size])
  }

  // ---------------------------------------------------------------------------
  // The code
  // ---------------------------------------------------------------------------

  /** One turn of the decoder, by the pieces it reads. */
  lemma DecodeTurn(s: seq<Byte>, t: seq<Byte>, d: seq<Byte>, u: seq<Byte>, acc: seq<Byte>)
    requires t == SkipCrlf(s) && t != []
    requires d == t[..HexCount(t, MAX_DIGITS)] && u == AfterLine(t[|d|..])
    ensures forall i :: 0 <= i < |d| ==> IsHex(d[i])
    ensures var size := Saturate(ParseHex(d));
            Decode(s, acc) ==
            if size == 0 then Body(acc)
            else if |acc| + size > MAX_BODY then Hangs
            else if size > |u| then Failed
            else Decode(SkipOne(SkipOne(u[size..], CR), LF), acc + u[..size])
  {
  }

  function Pow2(k: nat): nat {
    if k == 0 then 1 else 2 * Pow2(k - 1)
  }

  lemma Powers()
    ensures Pow2(18) == 262144 && Pow2(63) == MAX_BODY
  {
    assert Pow2(9) == 512 && Pow2(18) == 512 * Pow2(9) && Pow2(27) == 512 * Pow2(18);
    assert Pow2(36) == 512 * Pow2(27) && Pow2(45) == 512 * Pow2(36) && Pow2(54) == 512 * Pow2(45);
    assert Pow2(63) == 512 * Pow2(54);
  }

  lemma {:induction false} PowerAtMost(k: nat)
    requires k <= 63
    ensures 0 < Pow2(k) <= MAX_BODY && (Pow2(k) == MAX_BODY ==> k == 63)
    decreases 63 - k
  {
    hide Pow2;
    if k == 63 { Powers(); } else { PowerAtMost(k + 1); PowerNext(k); }
  }

  lemma PowerNext(k: nat)
    ensures Pow2(k + 1) == 2 * Pow2(k)
  {
  }

  /** Nothing allocated yet, or a power of two that fits a `size_t`. */
  ghost predicate IsCapacity(cap: nat) {
    cap == 0 || exists k: nat :: 18 <= k <= 63 && cap == Pow2(k)
  }

  /** The growth of the body buffer. Doubling the largest power of two gives zero, and zero doubles to
      zero for ever: `None` stands for that. It happens exactly beyond the largest body. */
  method Grow(cap: nat, need: nat) returns (r: Option<nat>)
    requires IsCapacity(cap) && need > cap
    ensures r.Some? <==> need <= MAX_BODY
    ensures r.Some? ==> need <= r.value && IsCapacity(r.value)
  {
    hide Pow2;
    Powers();
    ghost var k: nat := 18;
    if cap > 0 {
      k :| 18 <= k <= 63 && cap == Pow2(k);
      PowerAtMost(k);
      PowerNext(k);
      k := k + 1;
    }
    var newCap := if cap > 0 then cap * 2 % TWO64 else 262144;
    while newCap != 0 && newCap < need
      invariant newCap == 0 || (18 <= k <= 63 && newCap == Pow2(k))
      invariant newCap == 0 ==> need > MAX_BODY
      decreases if newCap == 0 then 0 else TWO64 - newCap
    {
      PowerAtMost(k);
      PowerNext(k);
      k := k + 1;
      newCap := newCap * 2 % TWO64;
    }
    if newCap == 0 {
      return None;
    }
    PowerAtMost(k);
    r := Some(newCap);
  }

  /** Grow the buffer if it is too small. */
  method MakeRoom(cap: nat, need: nat) returns (r: Option<nat>)
    requires IsCapacity(cap)
    ensures r.Some? <==> need <= MAX_BODY
    ensures r.Some? ==> need <= r.value && IsCapacity(r.value)
  {
    hide IsCapacity;
    CapacityAtMost(cap);
    if need > cap {
      r := Grow(cap, need);
    } else {
      r := Some(cap);
    }
  }

  method DecodeBody(raw: seq<Byte>) returns (r: Outcome)
    ensures r == Decode(raw, [])
  {
    hide Decode, HexCount, ParseHex, AfterLine, SkipCrlf, SkipOne, Pow2;
    var pos, buf := 0, [];
    var cap: nat := 0;
    assert raw[0..] == raw;
    assert IsCapacity(0);
    hide IsCapacity;
    while true
      invariant 0 <= pos <= |raw| && IsCapacity(cap)
      invariant Decode(raw, []) == Decode(raw[pos..], buf)
      decreases |raw| - pos
    {
      ghost var s := raw[pos..];
      pos := SkipBlank(raw, pos);
      if pos >= |raw| {
        NothingLeft(s, buf);
        return Failed;
      }
      ghost var t := raw[pos..];
      var digits;
      digits, pos := ReadSize(raw, pos);
      DecodeTurn(s, t, digits, raw[pos..], buf);
      var size := Saturate(ParseHex(digits));
      if size == 0 {
        return Body(buf);
      }
      var room := MakeRoom(cap, |buf| + size);
      if room.None? {
        return Hangs;
      }
      cap := room.value;
      if pos + size > |raw| {
        return Failed;
      }
      assert raw[pos..][..size] == raw[pos..pos + size] && raw[pos..][size..] == raw[pos + size..];
      buf := buf + raw[pos..pos + size];
      pos := pos + size;
      pos := SkipByte(raw, pos, CR);
      pos := SkipByte(raw, pos, LF);
    }
  }

  lemma CapacityAtMost(cap: nat)
    requires IsCapacity(cap)
    ensures cap <= MAX_BODY
  {
    hide Pow2;
    if cap > 0 {
      var k: nat :| 18 <= k <= 63 && cap == Pow2(k);
      PowerAtMost(k);
    }
  }

  lemma NothingLeft(s: seq<Byte>, acc: seq<Byte>)
    requires SkipCrlf(s) == []
    ensures Decode(s, acc) == Failed
  {
  }

  method SkipByte(raw: seq<Byte>, from: nat, b: Byte) returns (pos: nat)
    requires from <= |raw|
    ensures from <= pos <= |raw| && raw[pos..] == SkipOne(raw[from..], b)
  {
    pos := from;
    if pos < |raw| && raw[pos] == b {
      pos := pos + 1;
    }
  }

  method SkipBlank(raw: seq<Byte>, from: nat) returns (pos: nat)
    requires from <= |raw|
    ensures from <= pos <= |raw| && raw[pos..] == SkipCrlf(raw[from..])
  {
    pos := from;
    while pos < |raw| && (raw[pos] == CR || raw[pos] == LF)
      invariant from <= pos <= |raw|
      invariant SkipCrlf(raw[from..]) == SkipCrlf(raw[pos..])
    {
      assert raw[pos..][1..] == raw[pos + 1..];
      pos := pos + 1;
    }
  }

  /** The size line: its digits, and the position after it. */
  method ReadSize(raw: seq<Byte>, from: nat) returns (digits: seq<Byte>, pos: nat)
    requires from < |raw|
    ensures from <= pos <= |raw|
    ensures digits == raw[from..][..HexCount(raw[from..], MAX_DIGITS)]
    ensures raw[pos..] == AfterLine(raw[from..][|digits|..])
    ensures forall i :: 0 <= i < |digits| ==> IsHex(digits[i])
  {
    hide AfterLine;
    pos := from;
    var n := 0;
    while pos < |raw| && n < MAX_DIGITS && IsHex(raw[pos])
      invariant from <= pos <= |raw| && pos == from + n && n <= MAX_DIGITS
      invariant HexCount(raw[from..], MAX_DIGITS) == n + HexCount(raw[pos..], MAX_DIGITS - n)
    {
      assert raw[pos..][1..] == raw[pos + 1..];
      pos := pos + 1;
      n := n + 1;
    }
    digits := raw[from..pos];
    assert digits == raw[from..][..n] && raw[from..][n..] == raw[pos..];
    pos := SkipLine(raw, pos);
  }

  method SkipLine(raw: seq<Byte>, from: nat) returns (pos: nat)
    requires from <= |raw|
    ensures from <= pos <= |raw| && raw[pos..] == AfterLine(raw[from..])
  {
    pos := from;
    while pos < |raw| && raw[pos] != LF
      invariant from <= pos <= |raw|
      invariant AfterLine(raw[from..]) == AfterLine(raw[pos..])
    {
      assert raw[pos..][1..] == raw[pos + 1..];
      pos := pos + 1;
    }
    if pos < |raw| {
      assert raw[pos..][1..] == raw[pos + 1..];
      pos := pos + 1;
    }
  }

  // ---------------------------------------------------------------------------
  // Sizes
  // ---------------------------------------------------------------------------

  lemma DigitRoundTrip(d: nat)
    requires d < 16
    ensures IsHex(HexDigit(d)) && HexValue(HexDigit(d)) == d
  {
  }

  lemma {:induction false} HexDigits(n: nat)
    ensures forall i :: 0 <= i < |Hex(n)| ==> IsHex(Hex(n)[i])
    ensures ParseHex(Hex(n)) == n
    ensures n > 0 ==> HexValue(Hex(n)[0]) > 0
  {
    if n < 16 {
      DigitRoundTrip(n);
      assert Hex(n)[..0] == [];
    } else {
      HexDigits(n / 16);
      DigitRoundTrip(n % 16);
      assert Hex(n)[..|Hex(n)| - 1] == Hex(n / 16);
    }
  }

  function Pow16(k: nat): nat {
    if k == 0 then 1 else 16 * Pow16(k - 1)
  }

  lemma {:induction false} HexLength(n: nat, k: nat)
    requires n < Pow16(k) && k > 0
    ensures |Hex(n)| <= k
  {
    if n >= 16 {
      assert k > 1;
      HexLength(n / 16, k - 1);
    }
  }

  lemma ShortHex(n: nat)
    requires n <= LONG_MAX
    ensures |Hex(n)| <= MAX_DIGITS
  {
    assert Pow16(4) == 0x1_0000 && Pow16(8) == 0x1_0000 * Pow16(4) && Pow16(12) == 0x1_0000 * Pow16(8);
    assert Pow16(16) == 0x1_0000 * Pow16(12);
    HexLength(n, 16);
  }

  /** A number whose first digit is not zero is not zero. */
  lemma {:induction false} LeadingDigit(s: seq<Byte>)
    requires s != [] && forall i :: 0 <= i < |s| ==> IsHex(s[i])
    requires HexValue(s[0]) > 0
    ensures ParseHex(s) > 0
  {
    if |s| > 1 { LeadingDigit(s[..|s| - 1]); }
  }

  /** Fewer digits, smaller number. */
  lemma {:induction false} PrefixParses(s: seq<Byte>, k: nat)
    requires k <= |s| && forall i :: 0 <= i < |s| ==> IsHex(s[i])
    ensures ParseHex(s[..k]) <= ParseHex(s)
  {
    if k < |s| {
      var n := |s| - 1;
      PrefixParses(s[..n], k);
      assert s[..n][..k] == s[..k];
    } else {
      assert s[..k] == s;
    }
  }

  lemma {:induction false} CountsAll(s: seq<Byte>, rest: seq<Byte>, limit: nat)
    requires forall i :: 0 <= i < |s| ==> IsHex(s[i])
    requires |s| <= limit && (rest == [] || !IsHex(rest[0]))
    ensures HexCount(s + rest, limit) == |s|
  {
    if s == [] {
      assert s + rest == rest;
    } else {
      assert (s + rest)[1..] == s[1..] + rest;
      CountsAll(s[1..], rest, limit - 1);
    }
  }

  // ---------------------------------------------------------------------------
  // Round trip and truncation
  // ---------------------------------------------------------------------------

  function Rest(after: seq<Byte>): seq<Byte> {
    if CRLF <= after then after[2..] else []
  }

  lemma LineEnd(after: seq<Byte>)
    requires after == [] || after == [CR] || CRLF <= after
    ensures AfterLine(after) == Rest(after)
    ensures after == [] || !IsHex(after[0])
  {
    if CRLF <= after {
      assert after[0] == CR && after[1] == LF;
      assert AfterLine(after) == AfterLine(after[1..]) && after[1..][0] == LF && after[1..][1..] == after[2..];
    } else if after == [CR] {
      assert after[1..] == [];
    }
  }

  /** One decoder turn over a size line and what follows it. */
  lemma Turn(d: seq<Byte>, after: seq<Byte>, acc: seq<Byte>)
    requires d != [] && |d| <= MAX_DIGITS && (forall i :: 0 <= i < |d| ==> IsHex(d[i]))
    requires after == [] || after == [CR] || CRLF <= after
    requires 0 < ParseHex(d)
    ensures var u := Rest(after);
            var size := Saturate(ParseHex(d));
            Decode(d + after, acc) ==
            if |acc| + size > MAX_BODY then Hangs
            else if size > |u| then Failed
            else Decode(SkipOne(SkipOne(u[size..], CR), LF), acc + u[..size])
  {
    hide Decode, ParseHex, AfterLine, HexCount;
    var s := d + after;
    LineEnd(after);
    CountsAll(d, after, MAX_DIGITS);
    assert s[0] == d[0] && s[..|d|] == d && s[|d|..] == after;
    DecodeTurn(s, s, d, Rest(after), acc);
  }

  lemma SkipBoth(rest: seq<Byte>)
    ensures SkipOne(SkipOne(CRLF + rest, CR), LF) == rest
  {
    assert (CRLF + rest)[1..] == [LF] + rest && ([LF] + rest)[1..] == rest;
  }

  /** A whole chunk is taken off the front. */
  lemma ChunkTaken(c: seq<Byte>, rest: seq<Byte>, acc: seq<Byte>)
    requires 0 < |c| <= LONG_MAX
    ensures Decode(EncodeChunk(c) + rest, acc) == if |acc| + |c| <= MAX_BODY then Decode(rest, acc + c) else Hangs
  {
    hide Decode, ParseHex, Hex, SkipOne;
    HexDigits(|c|);
    ShortHex(|c|);
    var after := CRLF + (c + (CRLF + rest));
    assert EncodeChunk(c) + rest == Hex(|c|) + after;
    Turn(Hex(|c|), after, acc);
    var u := c + (CRLF + rest);
    assert after[2..] == u && u[|c|..] == CRLF + rest && u[..|c|] == c;
    SkipBoth(rest);
  }

  /** A chunk cut short anywhere is an error. */
  lemma ChunkCut(c: seq<Byte>, w: seq<Byte>, acc: seq<Byte>)
    requires 0 < |c| <= LONG_MAX && |acc| + |c| <= MAX_BODY
    requires w <= EncodeChunk(c) && w != EncodeChunk(c)
    ensures Decode(w, acc) == Failed
  {
    hide Decode, ParseHex, Hex, SkipOne;
    HexDigits(|c|);
    ShortHex(|c|);
    var h := Hex(|c|);
    if w == [] {
      NothingLeft(w, acc);
    } else if |w| <= |h| {
      assert w == h[..|w|] && w + [] == w;
      LeadingDigit(w);
      PrefixParses(h, |w|);
      Turn(w, [], acc);
    } else {
      var after := w[|h|..];
      assert w == h + after;
      assert EncodeChunk(c) == h + (CRLF + (c + CRLF));
      CutAfter(c, after);
      Turn(h, after, acc);
      var u := Rest(after);
      if |u| >= |c| {
        NothingLeft([], acc + u[..|c|]);
      }
    }
  }

  lemma CutAfter(c: seq<Byte>, after: seq<Byte>)
    requires after <= CRLF + (c + CRLF) && |after| < |c| + 4
    ensures after == [] || after == [CR] || CRLF <= after
    ensures |Rest(after)| >= |c| ==> SkipOne(SkipOne(Rest(after)[|c|..], CR), LF) == []
  {
    var u := Rest(after);
    if |after| >= 2 {
      assert u == (c + CRLF)[..|u|];
      assert |u| == |c| ==> u[|c|..] == [];
      assert |u| == |c| + 1 ==> u[|c|..] == [CR];
    }
  }

  ghost predicate Sizes(cs: seq<seq<Byte>>) {
    forall i :: 0 <= i < |cs| ==> 0 < |cs[i]| <= LONG_MAX
  }

  /** Decoding any prefix of what the server prints fails until the terminator's zero has arrived, and
      from then on gives the whole body: never a shorter one. */
  lemma {:induction false} PrefixDecodes(cs: seq<seq<Byte>>, w: seq<Byte>, acc: seq<Byte>)
    requires Sizes(cs) && |acc| + |Concat(cs)| <= MAX_BODY && w <= EncodeChunks(cs) + TERM
    ensures Decode(w, acc) == if |w| > |EncodeChunks(cs)| then Body(acc + Concat(cs)) else Failed
    decreases |cs|
  {
    hide Decode, EncodeChunk;
    if cs == [] {
      assert EncodeChunks(cs) + TERM == TERM && acc + [] == acc;
      TerminatorDecodes(w, acc);
    } else {
      var c, rest := EncodeChunk(cs[0]), EncodeChunks(cs[1..]);
      assert EncodeChunks(cs) + TERM == c + (rest + TERM);
      if |w| < |c| {
        assert w == c[..|w|];
        ChunkCut(cs[0], w, acc);
      } else {
        var w' := w[|c|..];
        assert w == c + w' && w' <= rest + TERM;
        ChunkTaken(cs[0], w', acc);
        PrefixDecodes(cs[1..], w', acc + cs[0]);
        assert (acc + cs[0]) + Concat(cs[1..]) == acc + (cs[0] + Concat(cs[1..]));
      }
    }
  }

  lemma TerminatorDecodes(w: seq<Byte>, acc: seq<Byte>)
    requires w <= TERM
    ensures Decode(w, acc) == if w == [] then Failed else Body(acc)
  {
    if w != [] {
      assert w[0] == 48;
      var k := HexCount(w, MAX_DIGITS);
      assert |w| > 1 ==> w[1] == CR && w[1..][0] == CR;
      assert k == 1;
      assert w[..1] == [48] && ParseHex([48]) == ParseHex([48][..0]) * 16 + HexValue(48);
    }
  }

  lemma {:induction false} TooLong(cs: seq<seq<Byte>>, acc: seq<Byte>)
    requires Sizes(cs) && |acc| <= MAX_BODY < |acc| + |Concat(cs)|
    ensures Decode(EncodeChunks(cs) + TERM, acc) == Hangs
    decreases |cs|
  {
    hide Decode, EncodeChunk;
    var rest := EncodeChunks(cs[1..]) + TERM;
    assert EncodeChunks(cs) + TERM == EncodeChunk(cs[0]) + rest;
    ChunkTaken(cs[0], rest, acc);
    if |acc| + |cs[0]| <= MAX_BODY { TooLong(cs[1..], acc + cs[0]); }
  }

  /** Decoding everything the server prints returns the concatenated chunks if and only if the decoder
      can make room for them; otherwise it never returns. */
  lemma RoundTrip(cs: seq<seq<Byte>>)
    requires Sizes(cs)
    ensures Decode(EncodeChunks(cs) + TERM, []) == if |Concat(cs)| <= MAX_BODY then Body(Concat(cs)) else Hangs
  {
    if |Concat(cs)| <= MAX_BODY {
      PrefixDecodes(cs, EncodeChunks(cs) + TERM, []);
      assert [] + Concat(cs) == Concat(cs);
    } else {
      TooLong(cs, []);
    }
  }

  /** The digits of the largest size: a 7 and fifteen times f. */
  const LONGEST: seq<Byte> := [55] + seq(15, _ => 102)

  /** And it takes no such amount of data: after any two bytes or more, a line that merely announces the
      largest size does it. */
  lemma AnnouncedTooLong(c: seq<Byte>, rest: seq<Byte>)
    requires 2 <= |c| <= LONG_MAX
    ensures Decode(EncodeChunk(c) + (LONGEST + (CRLF + rest)), []) == Hangs
  {
    hide Decode, EncodeChunk;
    ChunkTaken(c, LONGEST + (CRLF + rest), []);
    assert [] + c == c;
    LongestParses();
    Turn(LONGEST, CRLF + rest, c);
  }

  lemma LongestParses()
    ensures (forall i :: 0 <= i < |LONGEST| ==> IsHex(LONGEST[i])) && ParseHex(LONGEST) == LONG_MAX
  {
    LongestPrefix(15);
    assert LONGEST[..16] == LONGEST;
    assert Pow16(4) == 0x1_0000 && Pow16(8) == 0x1_0000 * Pow16(4) && Pow16(12) == 0x1_0000 * Pow16(8);
    assert Pow16(15) == 0x1000 * Pow16(12);
  }

  lemma {:induction false} LongestPrefix(k: nat)
    requires k <= 15
    ensures ParseHex(LONGEST[..k + 1]) == 8 * Pow16(k) - 1
  {
    var d := LONGEST[..k + 1];
    if k == 0 {
      assert d[..0] == [];
    } else {
      LongestPrefix(k - 1);
      assert d[..k] == LONGEST[..k] && d[k] == 102;
    }
  }

  // ---------------------------------------------------------------------------
  // Leniency
  // ---------------------------------------------------------------------------

  /** Printed digits are the sixteen of `0123456789abcdef`, by value; capitals are read as well. */
  lemma DigitTable(d: nat)
    requires d < 16
    ensures HexDigit(d) == "0123456789abcdef"[d] as int
    ensures HexValue("0123456789abcdef"[d] as int) == d && HexValue("0123456789ABCDEF"[d] as int) == d
  {
  }

  lemma OnlyDigits(b: Byte)
    ensures IsHex(b) <==> exists d :: 0 <= d < 22 && b == "0123456789abcdefABCDEF"[d] as int
  {
    if 48 <= b <= 57 {
      assert "0123456789abcdefABCDEF"[b - 48] as int == b;
    } else if 97 <= b <= 102 {
      assert "0123456789abcdefABCDEF"[b - 87] as int == b;
    } else if 65 <= b <= 70 {
      assert "0123456789abcdefABCDEF"[b - 49] as int == b;
    }
  }

  /** Line ends before a size line are skipped. */
  lemma {:induction false} BlankSkipped(blank: seq<Byte>, s: seq<Byte>, acc: seq<Byte>)
    requires forall i :: 0 <= i < |blank| ==> blank[i] == CR || blank[i] == LF
    ensures Decode(blank + s, acc) == Decode(s, acc)
  {
    BlankGone(blank, s);
    SameRest(blank + s, s, acc);
  }

  lemma {:induction false} BlankGone(blank: seq<Byte>, s: seq<Byte>)
    requires forall i :: 0 <= i < |blank| ==> blank[i] == CR || blank[i] == LF
    ensures SkipCrlf(blank + s) == SkipCrlf(s)
  {
    if blank == [] {
      assert blank + s == s;
    } else {
      BlankGone(blank[1..], s);
      assert (blank + s)[1..] == blank[1..] + s;
    }
  }

  lemma SameRest(s: seq<Byte>, t: seq<Byte>, acc: seq<Byte>)
    requires SkipCrlf(s) == SkipCrlf(t)
    ensures Decode(s, acc) == Decode(t, acc)
  {
    var u := SkipCrlf(s);
    if u == [] {
      NothingLeft(s, acc);
      NothingLeft(t, acc);
    } else {
      hide Decode, HexCount, ParseHex, AfterLine, SkipCrlf;
      var d := u[..HexCount(u, MAX_DIGITS)];
      DecodeTurn(s, u, d, AfterLine(u[|d|..]), acc);
      DecodeTurn(t, u, d, AfterLine(u[|d|..]), acc);
    }
  }

  /** A chunk extension, anything up to the end of the size line, is tolerated. */
  lemma ExtensionSkipped(c: seq<Byte>, extension: seq<Byte>, rest: seq<Byte>, acc: seq<Byte>)
    requires 0 < |c| <= LONG_MAX && |acc| + |c| <= MAX_BODY
    requires LF !in extension && (extension != [] ==> !IsHex(extension[0]))
    ensures Decode(Hex(|c|) + extension + CRLF + c + CRLF + rest, acc) == Decode(rest, acc + c)
  {
    hide Decode, ParseHex, Hex, SkipOne, AfterLine, HexCount;
    HexDigits(|c|);
    ShortHex(|c|);
    var d, u := Hex(|c|), c + (CRLF + rest);
    var after := extension + (CRLF + u);
    var s := d + after;
    assert Hex(|c|) + extension + CRLF + c + CRLF + rest == s;
    assert !IsHex(after[0]);
    LineGone(extension + [CR], u);
    assert after == extension + [CR] + ([LF] + u);
    TurnWith(d, after, u, acc);
    assert u[|c|..] == CRLF + rest && u[..|c|] == c;
    SkipBoth(rest);
  }

  /** One decoder turn over a size line that leaves `u`. */
  lemma TurnWith(d: seq<Byte>, after: seq<Byte>, u: seq<Byte>, acc: seq<Byte>)
    requires d != [] && |d| <= MAX_DIGITS && (forall i :: 0 <= i < |d| ==> IsHex(d[i])) && 0 < ParseHex(d)
    requires after != [] && !IsHex(after[0]) && AfterLine(after) == u
    ensures var size := Saturate(ParseHex(d));
            Decode(d + after, acc) ==
            if |acc| + size > MAX_BODY then Hangs
            else if size > |u| then Failed
            else Decode(SkipOne(SkipOne(u[size..], CR), LF), acc + u[..size])
  {
    hide Decode, ParseHex, AfterLine, HexCount;
    var s := d + after;
    CountsAll(d, after, MAX_DIGITS);
    assert s[0] == d[0] && s[..|d|] == d && s[|d|..] == after;
    DecodeTurn(s, s, d, u, acc);
  }

  lemma {:induction false} LineGone(line: seq<Byte>, u: seq<Byte>)
    requires LF !in line
    ensures AfterLine(line + ([LF] + u)) == u
  {
    if line == [] {
      assert line + ([LF] + u) == [LF] + u && ([LF] + u)[1..] == u;
    } else {
      assert (line + ([LF] + u))[1..] == line[1..] + ([LF] + u);
      assert line[0] in line;
      LineGone(line[1..], u);
    }
  }

  lemma {:induction false} ZerosParse(k: nat, d: seq<Byte>)
    requires forall i :: 0 <= i < |d| ==> IsHex(d[i])
    ensures var z: seq<Byte> := seq(k, _ => 48);
            (forall i :: 0 <= i < |z + d| ==> IsHex((z + d)[i])) && ParseHex(z + d) == ParseHex(d)
    decreases |d|, k
  {
    var z: seq<Byte> := seq(k, _ => 48);
    if d != [] {
      var n := |d| - 1;
      ZerosParse(k, d[..n]);
      assert (z + d)[..|z + d| - 1] == z + d[..n];
    } else if k > 0 {
      ZerosParse(k - 1, []);
      var y: seq<Byte> := seq(k - 1, _ => 48);
      assert z + d == z && y + [] == y && z[..k - 1] == y;
    } else {
      assert z + d == [];
    }
  }

  /** A size may have leading zeros, up to 31 digits in all. */
  lemma ZerosAccepted(k: nat, c: seq<Byte>, rest: seq<Byte>, acc: seq<Byte>)
    requires 0 < |c| <= LONG_MAX && |acc| + |c| <= MAX_BODY && k + |Hex(|c|)| <= 31
    ensures var z: seq<Byte> := seq(k, _ => 48);
            Decode(z + Hex(|c|) + (CRLF + (c + (CRLF + rest))), acc) == Decode(rest, acc + c)
  {
    hide Decode, ParseHex, Hex, SkipOne;
    var z: seq<Byte> := seq(k, _ => 48);
    var after, u := CRLF + (c + (CRLF + rest)), c + (CRLF + rest);
    HexDigits(|c|);
    ZerosParse(k, Hex(|c|));
    Turn(z + Hex(|c|), after, acc);
    assert after[2..] == u && u[|c|..] == CRLF + rest && u[..|c|] == c;
    SkipBoth(rest);
  }

  /** A first size beyond what a `long` holds, in up to 31 digits, is read as the largest `long`: the decoder
      fails, as the bytes cannot all be there. */
  lemma HugeSizeFails(d: seq<Byte>, rest: seq<Byte>)
    requires d != [] && |d| <= 31 && (forall i :: 0 <= i < |d| ==> IsHex(d[i]))
    requires ParseHex(d) >= LONG_MAX && |rest| < LONG_MAX
    ensures Decode(d + (CRLF + rest), []) == Failed
  {
    hide Decode, ParseHex, SkipOne;
    Turn(d, CRLF + rest, []);
    assert (CRLF + rest)[2..] == rest;
  }
}
