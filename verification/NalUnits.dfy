/** Cutting an Annex B byte stream into NAL units and access units (tools/vmc_sim/main.c). */
module NalUnits {
  import opened Words

  const AU_CAP: nat := 2 * 1024 * 1024
  const PEND_CAP: nat := 65536

  // ---------------------------------------------------------------------------
  // Start codes
  // ---------------------------------------------------------------------------

  /** The length of the start code at `i`, or 0. */
  function CodeLen(buf: seq<Byte>, i: nat): (n: nat)
    ensures n == 0 || n == 3 || n == 4
    ensures i + n <= |buf| || n == 0
  {
    if i + 3 <= |buf| && buf[i] == 0 && buf[i + 1] == 0 && buf[i + 2] == 1 then 3
    else if i + 4 <= |buf| && buf[i] == 0 && buf[i + 1] == 0 && buf[i + 2] == 0 && buf[i + 3] == 1 then 4
    else 0
  }

  /** The first start code at or after `from`. */
  function FindStart(buf: seq<Byte>, from: nat): (r: Option<nat>)
    ensures r.Some? ==> from <= r.value && CodeLen(buf, r.value) > 0
    ensures r.Some? ==> forall i :: from <= i < r.value ==> CodeLen(buf, i) == 0
    ensures r.None? ==> forall i :: from <= i ==> CodeLen(buf, i) == 0
    decreases |buf| - from
  {
    if from + 3 > |buf| then None
    else if CodeLen(buf, from) > 0 then Some(from)
    else FindStart(buf, from + 1)
  }

  /** A NAL unit with the start code it came with. */
  datatype Nal = Nal(slen: nat, body: seq<Byte>)

  function StartCode(slen: nat): seq<Byte> {
    if slen == 3 then [0, 0, 1] else [0, 0, 0, 1]
  }

  function NalBytes(n: Nal): seq<Byte> {
    StartCode(n.slen) + n.body
  }

  /** A complete NAL unit found in a buffer: where its start code is and where the next one begins. */
  datatype Found = Found(at: nat, nal: Nal, next: nat)

  /** The first NAL unit that is followed by another start code. */
  function FirstNal(buf: seq<Byte>): (r: Option<Found>)
    ensures r.Some? ==> r.value.at < r.value.next <= |buf|
    ensures r.Some? ==> CodeLen(buf, r.value.at) == r.value.nal.slen > 0
    ensures r.Some? ==> r.value.at + r.value.nal.slen <= r.value.next
    ensures r.Some? ==> r.value.nal.body == buf[r.value.at + r.value.nal.slen..r.value.next]
  {
    var sc := FindStart(buf, 0);
    if sc.None? then None
    else
      var slen := CodeLen(buf, sc.value);
      var next := FindStart(buf, sc.value + slen);
      if next.None? then None
      else Some(Found(sc.value, Nal(slen, buf[sc.value + slen..next.value]), next.value))
  }

  // ---------------------------------------------------------------------------
  // Access-unit assembly
  // ---------------------------------------------------------------------------

  datatype Asm = Asm(au: seq<Byte>, pend: seq<Byte>, key: bool, have: bool)

  const FRESH := Asm([], [], false, false)

  datatype Output = Output(au: seq<Byte>, key: bool)

  /** `au_append`: all or nothing. */
  function Append(dst: seq<Byte>, cap: nat, data: seq<Byte>): seq<Byte> {
    if |dst| + |data| > cap then dst else dst + data
  }

  function NalType(n: Nal): nat
    requires n.body != []
  {
    n.body[0] % 32
  }

  /** A coded slice. */
  predicate Vcl(n: Nal) {
    n.body != [] && 1 <= NalType(n) <= 5
  }

  function AuFeed(st: Asm, n: Nal): (Asm, Option<Output>) {
    if n.body == [] then (st, None)
    else if Vcl(n) && st.have then (FRESH, Some(Output(st.au, st.key)))
    else if Vcl(n) then
      var au := if st.pend != [] then Append(st.au, AU_CAP, st.pend) else st.au;
      (Asm(Append(Append(au, AU_CAP, StartCode(n.slen)), AU_CAP, n.body), [], NalType(n) == 5, true), None)
    else if st.have then
      (st.(au := Append(Append(st.au, AU_CAP, StartCode(n.slen)), AU_CAP, n.body)), None)
    else
      (st.(pend := Append(Append(st.pend, PEND_CAP, StartCode(n.slen)), PEND_CAP, n.body)), None)
  }

  /** A slice that closes an access unit is not consumed by the first feed and is fed again. */
  function Feed(st: Asm, n: Nal): (Asm, seq<Output>) {
    var (a, out) := AuFeed(st, n);
    if out.Some? then (AuFeed(a, n).0, [out.value]) else (a, [])
  }

  // ---------------------------------------------------------------------------
  // Extraction
  // ---------------------------------------------------------------------------

  /** What one pass over the input buffer leaves behind. */
  datatype Extracted = Extracted(st: Asm, rest: seq<Byte>, outs: seq<Output>)

  /** Take complete NAL units off the front as long as there are any. */
  function Extract(st: Asm, buf: seq<Byte>): Extracted
    decreases |buf|
  {
    var f := FirstNal(buf);
    if f.None? then Extracted(st, buf, [])
    else
      var (a, outs) := Feed(st, f.value.nal);
      Prepend(outs, Extract(a, buf[f.value.next..]))
  }

  function Prepend(outs: seq<Output>, e: Extracted): Extracted {
    e.(outs := outs + e.outs)
  }

  /** One call of `process_nalus`: stops early, before the NAL unit that closed an access unit. */
  function Process(st: Asm, buf: seq<Byte>, pos: nat): (Asm, nat, Option<Output>)
    requires pos <= |buf|
    decreases |buf| - pos
  {
    if pos + 4 > |buf| then (st, pos, None)
    else
      var sc := FindStart(buf, pos);
      if sc.None? then (st, pos, None)
      else
        var slen := CodeLen(buf, sc.value);
        var next := FindStart(buf, sc.value + slen);
        if next.None? then (st, pos, None)
        else
          var (a, out) := AuFeed(st, Nal(slen, buf[sc.value + slen..next.value]));
          if out.Some? then (a, sc.value, out) else Process(a, buf, next.value)
  }

  /** One turn of its loop. */
  lemma ProcessStep(st: Asm, buf: seq<Byte>, pos: nat)
    requires pos <= |buf|
    ensures pos + 4 > |buf| || FindStart(buf, pos).None? ==> Process(st, buf, pos) == (st, pos, None)
    ensures pos + 4 <= |buf| && FindStart(buf, pos).Some? ==>
              var sc := FindStart(buf, pos).value;
              var slen := CodeLen(buf, sc);
              var next := FindStart(buf, sc + slen);
              if next.None? then Process(st, buf, pos) == (st, pos, None)
              else
                && sc + slen <= next.value <= |buf| && next.value > pos
                && var (a, out) := AuFeed(st, Nal(slen, buf[sc + slen..next.value]));
                Process(st, buf, pos) == if out.Some? then (a, sc, out) else Process(a, buf, next.value)
  {
    hide AuFeed;
  }

  // ---------------------------------------------------------------------------
  // The code
  // ---------------------------------------------------------------------------

  method FindStartCode(buf: seq<Byte>, from: nat) returns (r: Option<nat>, slen: nat)
    ensures r == FindStart(buf, from)
    ensures r.Some? ==> slen == CodeLen(buf, r.value)
  {
    var i := from;
    while i + 3 <= |buf|
      invariant from <= i && FindStart(buf, from) == FindStart(buf, i)
      decreases |buf| - i
    {
      if buf[i] == 0 && buf[i + 1] == 0 && buf[i + 2] == 1 {
        return Some(i), 3;
      }
      if i + 4 <= |buf| && buf[i] == 0 && buf[i + 1] == 0 && buf[i + 2] == 0 && buf[i + 3] == 1 {
        return Some(i), 4;
      }
      i := i + 1;
    }
    r, slen := None, 0;
  }

  class AuAssembler {
    const au: array<Byte>
    const pend: array<Byte>
    var auLen: nat
    var pendLen: nat
    var key: bool
    var have: bool

    ghost predicate Valid()
      reads this
    {
      au.Length == AU_CAP && pend.Length == PEND_CAP && au != pend && auLen <= AU_CAP && pendLen <= PEND_CAP
    }

    ghost function State(): Asm
      requires Valid()
      reads this, au, pend
    {
      Asm(au[..auLen], pend[..pendLen], key, have)
    }

    constructor ()
      ensures Valid() && fresh(au) && fresh(pend) && State() == FRESH
    {
      au := new Byte[AU_CAP];
      pend := new Byte[PEND_CAP];
      auLen, pendLen, key, have := 0, 0, false, false;
    }

    static method AppendTo(dst: array<Byte>, len: nat, data: seq<Byte>) returns (n: nat)
      requires len <= dst.Length
      modifies dst
      ensures n <= dst.Length
      ensures dst[..n] == Append(old(dst[..len]), dst.Length, data)
    {
      if len + |data| > dst.Length {
        return len;
      }
      CopyInto(dst, len, data);
      n := len + |data|;
    }

    /** `au_feed`. */
    method FeedNal(n: Nal) returns (out: Option<Output>)
      requires Valid()
      modifies this, au, pend
      ensures Valid()
      ensures (State(), out) == AuFeed(old(State()), n)
    {
      if n.body == [] {
        return None;
      }
      if Vcl(n) && have {
        out := Some(Output(au[..auLen], key));
        auLen, pendLen, have, key := 0, 0, false, false;
        return;
      }
      if Vcl(n) {
        have := true;
        key := NalType(n) == 5;
        if pendLen > 0 {
          auLen := AppendTo(au, auLen, pend[..pendLen]);
          pendLen := 0;
        }
        auLen := AppendTo(au, auLen, StartCode(n.slen));
        auLen := AppendTo(au, auLen, n.body);
      } else if have {
        auLen := AppendTo(au, auLen, StartCode(n.slen));
        auLen := AppendTo(au, auLen, n.body);
      } else {
        pendLen := AppendTo(pend, pendLen, StartCode(n.slen));
        pendLen := AppendTo(pend, pendLen, n.body);
      }
      out := None;
    }

    /** `process_nalus`. */
    method ProcessNalus(buf: seq<Byte>) returns (used: nat, out: Option<Output>)
      requires Valid()
      modifies this, au, pend
      ensures Valid() && used <= |buf|
      ensures (State(), used, out) == Process(old(State()), buf, 0)
    {
      hide AuFeed, CodeLen, Process, FindStart;
      var pos := 0;
      while pos + 4 <= |buf|
        invariant Valid() && pos <= |buf|
        invariant Process(old(State()), buf, 0) == Process(State(), buf, pos)
        decreases |buf| - pos
      {
        ProcessStep(State(), buf, pos);
        var sc, slen := FindStartCode(buf, pos);
        if sc.None? { break; }
        var next, slen2 := FindStartCode(buf, sc.value + slen);
        if next.None? { break; }
        out := FeedNal(Nal(slen, buf[sc.value + slen..next.value]));
        if out.Some? {
          return sc.value, out;
        }
        pos := next.value;
      }
      ProcessStep(State(), buf, pos);
      used, out := pos, None;
    }
  }
}
