/** Extraction said in bytes (Annex B of ITU-T H.264), without the extractor's own notions. */
module NalCodes {
  import opened Words
  import opened NalUnits
  import opened NalRuns

  /** The bytes 0, 0, 1 stand at `i`. */
  predicate TripleAt(buf: seq<Byte>, i: nat) {
    i + 3 <= |buf| && buf[i..i + 3] == [0, 0, 1]
  }

  lemma TripleBytes(buf: seq<Byte>, i: nat)
    ensures TripleAt(buf, i) <==> i + 3 <= |buf| && buf[i] == 0 && buf[i + 1] == 0 && buf[i + 2] == 1
  {
  }

  lemma CodeIsTriple(buf: seq<Byte>, i: nat)
    ensures CodeLen(buf, i) == 3 <==> TripleAt(buf, i)
    ensures CodeLen(buf, i) == 4 <==> TripleAt(buf, i + 1) && buf[i] == 0
  {
    TripleBytes(buf, i);
    TripleBytes(buf, i + 1);
  }

  /** A start code is found if and only if there is a triple; the first triple ends it, and a zero before
      that triple belongs to it. */
  lemma FindStartBytes(buf: seq<Byte>, from: nat)
    ensures FindStart(buf, from).None? <==> forall i: nat :: from <= i ==> !TripleAt(buf, i)
    ensures FindStart(buf, from).Some? ==>
              var n := CodeLen(buf, FindStart(buf, from).value);
              var t := FindStart(buf, from).value + n - 3;
              && t >= from && TripleAt(buf, t) && (forall i: nat :: from <= i < t ==> !TripleAt(buf, i))
              && (n == 4 <==> t > from && buf[t - 1] == 0)
  {
    hide FindStart, TripleAt, CodeLen;
    var r := FindStart(buf, from);
    forall i: nat
      ensures TripleAt(buf, i) <==> CodeLen(buf, i) == 3
    {
      CodeIsTriple(buf, i);
    }
    if r.Some? {
      var at, n := r.value, CodeLen(buf, r.value);
      CodeIsTriple(buf, at);
      TripleInside(buf, at);
      TripleInside(buf, at + 1);
      if n == 3 && at > from { CodeIsTriple(buf, at - 1); }
    }
  }

  lemma TripleInside(buf: seq<Byte>, i: nat)
    ensures TripleAt(buf, i) ==> i + 3 <= |buf|
    ensures TripleAt(buf, i) ==> buf[i] == 0 && buf[i + 2] == 1
  {
    TripleBytes(buf, i);
  }

  /** No NAL unit contains a start code. */
  lemma {:induction false} NoCodeInside(buf: seq<Byte>)
    ensures forall n, i: nat :: n in Nals(buf) ==> !TripleAt(n.body, i)
    decreases |buf|
  {
    hide FindStart, TripleAt, CodeLen;
    var f := FirstNal(buf);
    if f.Some? {
      var start := f.value.at + f.value.nal.slen;
      FirstNalEnds(buf);
      NoCodeInside(buf[f.value.next..]);
      forall i: nat
        ensures !TripleAt(f.value.nal.body, i)
      {
        TripleWithin(buf, start, f.value.next, i);
        FindStartBytes(buf, start);
      }
    }
  }

  lemma FirstNalEnds(buf: seq<Byte>)
    requires FirstNal(buf).Some?
    ensures var f := FirstNal(buf).value; FindStart(buf, f.at + f.nal.slen) == Some(f.next)
  {
  }

  lemma TripleWithin(buf: seq<Byte>, lo: nat, hi: nat, i: nat)
    requires lo <= hi <= |buf|
    ensures TripleAt(buf[lo..hi], i) <==> TripleAt(buf, lo + i) && lo + i + 3 <= hi
  {
    TripleBytes(buf[lo..hi], i);
    TripleBytes(buf, lo + i);
  }

  // ---------------------------------------------------------------------------
  // Writing NAL units and extracting them
  // ---------------------------------------------------------------------------

  /** What H.264 guarantees of a NAL unit: no start code inside, and no zero at the end. */
  ghost predicate WellFormed(n: Nal) {
    && (n.slen == 3 || n.slen == 4)
    && (forall i: nat :: !TripleAt(n.body, i))
    && (n.body != [] ==> n.body[|n.body| - 1] != 0)
  }

  /** The bytes begin with a start code. */
  predicate Starts(s: seq<Byte>) {
    StartCode(3) <= s || StartCode(4) <= s
  }

  lemma StartsBytes(n: Nal, rest: seq<Byte>)
    requires n.slen == 3 || n.slen == 4
    ensures Starts(NalBytes(n) + rest) && CodeLen(NalBytes(n) + rest, 0) == n.slen
  {
  }

  lemma StartsAt(a: seq<Byte>, s: seq<Byte>)
    requires Starts(s)
    ensures CodeLen(a + s, |a|) > 0 && CodeLen(a + s, |a|) == CodeLen(s, 0)
  {
  }

  /** In front of a start code, a well-formed body ends where that code begins. */
  lemma NoCodeBefore(code: seq<Byte>, n: Nal, rest: seq<Byte>, i: nat)
    requires WellFormed(n) && i < |n.body| && Starts(rest)
    ensures CodeLen(code + n.body + rest, |code| + i) == 0
  {
    var buf, at := code + n.body + rest, |code| + i;
    hide Starts;
    TripleBytes(n.body, i);
    TripleBytes(n.body, i + 1);
    assert !TripleAt(n.body, i) && !TripleAt(n.body, i + 1);
    assert forall k :: 0 <= k < |n.body| ==> buf[|code| + k] == n.body[k];
  }

  lemma FirstNalOf(n: Nal, rest: seq<Byte>)
    requires WellFormed(n) && Starts(rest)
    ensures FirstNal(NalBytes(n) + rest) == Some(Found(0, n, |NalBytes(n)|))
  {
    var code, buf := StartCode(n.slen), NalBytes(n) + rest;
    assert buf == code + n.body + rest;
    StartsBytes(n, rest);
    FindHere(buf, 0);
    var end := n.slen + |n.body|;
    forall i: nat | n.slen <= i < end
      ensures CodeLen(buf, i) == 0
    {
      NoCodeBefore(code, n, rest, i - n.slen);
    }
    StartsAt(code + n.body, rest);
    hide CodeLen, WellFormed, Starts;
    FirstCode(buf, n.slen, end);
    assert buf[n.slen..end] == n.body;
  }

  lemma FirstCode(buf: seq<Byte>, from: nat, to: nat)
    requires from <= to && (forall i: nat :: from <= i < to ==> CodeLen(buf, i) == 0) && CodeLen(buf, to) > 0
    ensures FindStart(buf, from) == Some(to)
  {
    hide FindStart, CodeLen;
    var r := FindStart(buf, from);
    assert r.None? ==> CodeLen(buf, to) == 0;
  }

  /** Well-formed NAL units written one after the other, with three- or four-byte start codes, and any
      start code after them, are extracted exactly. */
  lemma {:induction false} NalRoundTrip(ns: seq<Nal>, rest: seq<Byte>)
    requires (forall n :: n in ns ==> WellFormed(n)) && Starts(rest) && FirstNal(rest).None?
    ensures Nals(Bytes(ns) + rest) == ns && Remainder(Bytes(ns) + rest) == rest
    decreases |ns|
  {
    hide WellFormed, Starts, FirstNal, NalBytes;
    if ns == [] {
      assert Bytes(ns) + rest == rest;
    } else {
      var n, tail := ns[0], ns[1..];
      assert ns == [n] + tail;
      BytesConcat([n], tail);
      BytesOf(n);
      var after := Bytes(tail) + rest;
      assert Bytes(ns) + rest == NalBytes(n) + after;
      NalRoundTrip(tail, rest);
      assert Starts(after) by { StartsWith(tail, rest); }
      FirstNalOf(n, after);
      assert (NalBytes(n) + after)[|NalBytes(n)|..] == after;
    }
  }

  lemma StartsWith(ns: seq<Nal>, rest: seq<Byte>)
    requires (forall n :: n in ns ==> WellFormed(n)) && Starts(rest)
    ensures Starts(Bytes(ns) + rest)
  {
    hide Starts, Bytes, NalBytes, WellFormed, CodeLen;
    BytesOf(Nal(3, []));
    if ns == [] {
      assert Bytes(ns) + rest == rest;
    } else {
      var n, tail := ns[0], ns[1..];
      assert ns == [n] + tail;
      BytesConcat([n], tail);
      BytesOf(n);
      GoodCode(n);
      assert Bytes(ns) + rest == NalBytes(n) + (Bytes(tail) + rest);
      StartsBytes(n, Bytes(tail) + rest);
    }
  }

  lemma GoodCode(n: Nal)
    requires WellFormed(n)
    ensures n.slen == 3 || n.slen == 4
  {
  }

  // ---------------------------------------------------------------------------
  // Kinds of NAL units
  // ---------------------------------------------------------------------------

  /** By the first byte, nal_ref_idc and nal_unit_type: slices have types 1 to 5, and 5 is that of an IDR
      picture; SEI, parameter sets and delimiters have types 6 to 9. */
  lemma NalKinds(n: Nal, refIdc: nat, unitType: nat)
    requires refIdc < 4 && unitType < 32 && n.body != [] && n.body[0] == refIdc * 32 + unitType
    ensures Vcl(n) <==> unitType == 1 || unitType == 2 || unitType == 3 || unitType == 4 || unitType == 5
    ensures KeySlice([n]) <==> unitType == 5
  {
    assert [n][..0] == [];
    assert n.body[0] % 32 == unitType;
  }

  /** What does not fit the 2 MB buffer is left out whole, start code and body each for itself: a slice too
      long for the buffer leaves its bare start code. */
  lemma OversizedSlice(n: Nal)
    requires Vcl(n) && (n.slen == 3 || n.slen == 4)
    ensures Feed(FRESH, n).0.au == if n.slen + |n.body| <= 2_097_152 then NalBytes(n) else StartCode(n.slen)
  {
    assert [] + StartCode(n.slen) == StartCode(n.slen);
  }

  /** Likewise for what precedes the first slice, in a buffer of 64 KB. */
  lemma OversizedParameters(n: Nal)
    requires n.body != [] && !Vcl(n) && (n.slen == 3 || n.slen == 4)
    ensures Feed(FRESH, n).0.pend == if n.slen + |n.body| <= 65_536 then NalBytes(n) else StartCode(n.slen)
  {
    assert [] + StartCode(n.slen) == StartCode(n.slen);
  }
}
