/** What extraction guarantees: independence of the reads, conservation, one slice per access unit. */
module NalRuns {
  import opened Words
  import opened NalUnits

  // ---------------------------------------------------------------------------
  // Start codes found once stay found
  // ---------------------------------------------------------------------------

  lemma CodeLenShift(buf: seq<Byte>, pos: nat, i: nat)
    requires pos <= |buf|
    ensures CodeLen(buf[pos..], i) == CodeLen(buf, pos + i)
  {
  }

  lemma {:induction false} FindShift(buf: seq<Byte>, pos: nat, from: nat)
    requires pos <= |buf|
    ensures var r := FindStart(buf, pos + from);
            FindStart(buf[pos..], from) == if r.Some? then Some(r.value - pos) else None
    decreases |buf| - from
  {
    CodeLenShift(buf, pos, from);
    if pos + from + 3 <= |buf| && CodeLen(buf, pos + from) == 0 {
      FindShift(buf, pos, from + 1);
    }
  }

  lemma {:induction false} FindExtended(a: seq<Byte>, b: seq<Byte>, from: nat)
    requires FindStart(a, from).Some?
    ensures FindStart(a + b, from) == FindStart(a, from)
    ensures CodeLen(a + b, FindStart(a, from).value) == CodeLen(a, FindStart(a, from).value)
    decreases |a| - from
  {
    if CodeLen(a, from) == 0 {
      FindExtended(a, b, from + 1);
    }
  }

  lemma FirstNalExtended(a: seq<Byte>, b: seq<Byte>)
    requires FirstNal(a).Some?
    ensures FirstNal(a + b) == FirstNal(a)
  {
    hide CodeLen;
    FindExtended(a, b, 0);
    var f := FirstNal(a).value;
    FindExtended(a, b, f.at + f.nal.slen);
    assert (a + b)[f.at + f.nal.slen..f.next] == a[f.at + f.nal.slen..f.next];
  }

  // ---------------------------------------------------------------------------
  // The code's calls amount to one extraction
  // ---------------------------------------------------------------------------

  /** The buffer cut down to the start code it found starts with the same NAL unit. */
  lemma FirstNalAt(buf: seq<Byte>, pos: nat)
    requires pos <= |buf|
    ensures var sc := FindStart(buf, pos);
            if sc.None? then FirstNal(buf[pos..]) == None
            else
              var slen := CodeLen(buf, sc.value);
              var next := FindStart(buf, sc.value + slen);
              if next.None? then FirstNal(buf[pos..]) == None
              else FirstNal(buf[pos..])
                   == Some(Found(sc.value - pos, Nal(slen, buf[sc.value + slen..next.value]), next.value - pos))
  {
    hide CodeLen, FindStart;
    FindShift(buf, pos, 0);
    var sc := FindStart(buf, pos);
    if sc.Some? {
      var slen := CodeLen(buf, sc.value);
      CodeLenShift(buf, pos, sc.value - pos);
      FindShift(buf, pos, sc.value - pos + slen);
      var next := FindStart(buf, sc.value + slen);
      if next.Some? {
        assert buf[pos..][sc.value - pos + slen..next.value - pos] == buf[sc.value + slen..next.value];
      }
    }
  }

  lemma FindHere(buf: seq<Byte>, i: nat)
    requires CodeLen(buf, i) > 0
    ensures FindStart(buf, i) == Some(i)
  {
  }

  /** Four bytes are too few to hold a NAL unit and another start code. */
  lemma TooShort(buf: seq<Byte>)
    requires |buf| < 4
    ensures FirstNal(buf).None?
  {
  }

  lemma PrependLaws(a: seq<Output>, b: seq<Output>, e: Extracted)
    ensures Prepend([], e) == e
    ensures Prepend(a, Prepend(b, e)) == Prepend(a + b, e)
  {
    assert [] + e.outs == e.outs;
    assert a + (b + e.outs) == (a + b) + e.outs;
  }

  lemma ExtractNext(st: Asm, buf: seq<Byte>)
    requires FirstNal(buf).Some?
    ensures var f := FirstNal(buf).value; f.next <= |buf|
    ensures var f := FirstNal(buf).value;
            Extract(st, buf) == Prepend(Feed(st, f.nal).1, Extract(Feed(st, f.nal).0, buf[f.next..]))
  {
  }

  ghost predicate Continues(e: Extracted, a: Asm, rest: seq<Byte>, out: Option<Output>) {
    if out.None? then e == Extracted(a, rest, []) else e == Prepend([out.value], Extract(a, rest))
  }

  lemma {:induction false} ProcessIsExtract(st: Asm, buf: seq<Byte>, pos: nat)
    requires pos <= |buf|
    ensures var (a, used, out) := Process(st, buf, pos);
            pos <= used <= |buf| && Continues(Extract(st, buf[pos..]), a, buf[used..], out)
    decreases |buf| - pos
  {
    hide CodeLen, AuFeed, FirstNal, FindStart, Prepend, Process;
    FirstNalAt(buf, pos);
    ProcessStep(st, buf, pos);
    if pos + 4 > |buf| {
      TooShort(buf[pos..]);
    } else if FirstNal(buf[pos..]).Some? {
      hide Extract;
      ExtractNext(st, buf[pos..]);
      var sc := FindStart(buf, pos).value;
      var f := FirstNal(buf[pos..]).value;
      var next := pos + f.next;
      assert buf[pos..][f.next..] == buf[next..];
      var (a, out) := AuFeed(st, f.nal);
      if out.None? {
        ProcessIsExtract(a, buf, next);
        PrependLaws([], [], Extract(a, buf[next..]));
      } else {
        ClosedAgain(st, f.nal);
        FindHere(buf, sc);
        FirstNalAt(buf, sc);
        ExtractNext(FRESH, buf[sc..]);
        assert buf[sc..][next - sc..] == buf[next..];
        PrependLaws([], [], Extract(AuFeed(a, f.nal).0, buf[next..]));
      }
    }
  }

  lemma ClosedAgain(st: Asm, n: Nal)
    requires AuFeed(st, n).1.Some?
    ensures AuFeed(st, n).0 == FRESH && Feed(FRESH, n) == (AuFeed(FRESH, n).0, [])
    ensures Feed(st, n) == (AuFeed(FRESH, n).0, [AuFeed(st, n).1.value])
  {
  }

  /** The pipe source's loop: call `process_nalus` until it returns no access unit. */
  method ExtractAll(asm: AuAssembler, inbuf: seq<Byte>) returns (rest: seq<Byte>, outs: seq<Output>)
    requires asm.Valid()
    modifies asm, asm.au, asm.pend
    ensures asm.Valid()
    ensures Extracted(asm.State(), rest, outs) == Extract(old(asm.State()), inbuf)
  {
    hide Extract, Process, AuFeed;
    ghost var e := Extract(asm.State(), inbuf);
    var consumed := 0;
    outs := [];
    assert inbuf[0..] == inbuf && [] + e.outs == e.outs;
    while true
      invariant asm.Valid() && consumed <= |inbuf|
      invariant var rest := Extract(asm.State(), inbuf[consumed..]);
                e == rest.(outs := outs + rest.outs)
      decreases |inbuf| - consumed, asm.have
    {
      ghost var before, st := inbuf[consumed..], asm.State();
      var used, out := asm.ProcessNalus(inbuf[consumed..]);
      ProcessIsExtract(st, before, 0);
      ClosingProgress(st, before);
      assert before[0..] == before && before[used..] == inbuf[consumed + used..];
      consumed := consumed + used;
      if out.None? {
        assert outs + [] == outs;
        break;
      }
      ghost var later := Extract(asm.State(), inbuf[consumed..]).outs;
      assert outs + ([out.value] + later) == (outs + [out.value]) + later;
      outs := outs + [out.value];
    }
    rest := inbuf[consumed..];
  }

  /** A call that returns an access unit either consumed input or left the assembler empty. */
  lemma ClosingProgress(st: Asm, buf: seq<Byte>)
    ensures var (a, used, out) := Process(st, buf, 0);
            out.Some? ==> !a.have && (used > 0 || st.have)
  {
    ProcessCloses(st, buf, 0);
  }

  lemma FeedCloses(st: Asm, n: Nal)
    ensures AuFeed(st, n).1.Some? ==> AuFeed(st, n).0 == FRESH && st.have
  {
  }

  lemma {:induction false} ProcessCloses(st: Asm, buf: seq<Byte>, pos: nat)
    requires pos <= |buf|
    ensures var (a, used, out) := Process(st, buf, pos);
            used >= pos && (out.Some? ==> a == FRESH && (used > pos || st.have))
    decreases |buf| - pos
  {
    hide CodeLen, FindStart, AuFeed, Process;
    ProcessStep(st, buf, pos);
    var sc := FindStart(buf, pos);
    if pos + 4 <= |buf| && sc.Some? {
      var slen := CodeLen(buf, sc.value);
      var next := FindStart(buf, sc.value + slen);
      if next.Some? {
        var n := Nal(slen, buf[sc.value + slen..next.value]);
        FeedCloses(st, n);
        if AuFeed(st, n).1.None? { ProcessCloses(AuFeed(st, n).0, buf, next.value); }
      }
    }
  }

  // ---------------------------------------------------------------------------
  // Independence of the reads
  // ---------------------------------------------------------------------------

  /** Extracting after two reads equals extracting once after both. */
  lemma {:induction false} SplitAnywhere(st: Asm, a: seq<Byte>, b: seq<Byte>)
    ensures var e := Extract(st, a);
            Extract(st, a + b) == Prepend(e.outs, Extract(e.st, e.rest + b))
    decreases |a|
  {
    hide Feed, FirstNal, Prepend;
    var f := FirstNal(a);
    if f.None? {
      PrependLaws([], [], Extract(st, a + b));
    } else {
      hide Extract;
      FirstNalExtended(a, b);
      ExtractNext(st, a);
      ExtractNext(st, a + b);
      var (c, outs) := Feed(st, f.value.nal);
      var tail := a[f.value.next..];
      SplitAnywhere(c, tail, b);
      assert (a + b)[f.value.next..] == tail + b;
      var e := Extract(c, tail);
      PrependLaws(outs, e.outs, Extract(e.st, e.rest + b));
      PrependRest(outs, e);
    }
  }

  lemma PrependRest(outs: seq<Output>, e: Extracted)
    ensures var p := Prepend(outs, e); p.st == e.st && p.rest == e.rest && p.outs == outs + e.outs
  {
  }

  /** Reads arrive one after another; each is appended to what the last pass left. */
  function ExtractReads(st: Asm, rest: seq<Byte>, chunks: seq<seq<Byte>>): Extracted
    decreases |chunks|
  {
    if chunks == [] then Extract(st, rest)
    else
      var e := Extract(st, rest);
      Prepend(e.outs, ExtractReads(e.st, e.rest + chunks[0], chunks[1..]))
  }

  /** The access units do not depend on how the stream is cut into reads. */
  lemma {:induction false} ReadsDoNotMatter(st: Asm, rest: seq<Byte>, chunks: seq<seq<Byte>>)
    ensures ExtractReads(st, rest, chunks) == Extract(st, rest + Concat(chunks))
    decreases |chunks|
  {
    hide Extract;
    if chunks == [] {
      assert rest + Concat(chunks) == rest;
    } else {
      var e := Extract(st, rest);
      ReadsDoNotMatter(e.st, e.rest + chunks[0], chunks[1..]);
      assert rest + Concat(chunks) == rest + (chunks[0] + Concat(chunks[1..]));
      assert e.rest + chunks[0] + Concat(chunks[1..]) == e.rest + (chunks[0] + Concat(chunks[1..]));
      SplitAnywhere(st, rest, chunks[0] + Concat(chunks[1..]));
    }
  }

  // ---------------------------------------------------------------------------
  // The NAL units of a stream, and nothing lost between them
  // ---------------------------------------------------------------------------

  function Nals(buf: seq<Byte>): seq<Nal>
    decreases |buf|
  {
    var f := FirstNal(buf);
    if f.None? then [] else [f.value.nal] + Nals(buf[f.value.next..])
  }

  function Remainder(buf: seq<Byte>): seq<Byte>
    decreases |buf|
  {
    var f := FirstNal(buf);
    if f.None? then buf else Remainder(buf[f.value.next..])
  }

  function Bytes(ns: seq<Nal>): seq<Byte> {
    if ns == [] then [] else Bytes(ns[..|ns| - 1]) + NalBytes(ns[|ns| - 1])
  }

  lemma {:induction false} BytesConcat(a: seq<Nal>, b: seq<Nal>)
    ensures Bytes(a + b) == Bytes(a) + Bytes(b)
  {
    hide NalBytes;
    if b == [] {
      assert a + b == a;
    } else {
      var n := |b| - 1;
      BytesConcat(a, b[..n]);
      assert (a + b)[..|a + b| - 1] == a + b[..n];
    }
  }

  lemma CodeBytes(buf: seq<Byte>, i: nat)
    requires CodeLen(buf, i) > 0
    ensures i + CodeLen(buf, i) <= |buf| && buf[i..i + CodeLen(buf, i)] == StartCode(CodeLen(buf, i))
  {
  }

  /** From its first start code on, the stream is exactly its NAL units followed by the remainder. */
  lemma {:induction false} StreamIsNals(buf: seq<Byte>)
    requires FirstNal(buf).Some?
    ensures buf[FirstNal(buf).value.at..] == Bytes(Nals(buf)) + Remainder(buf)
    decreases |buf|
  {
    hide FirstNal, NalBytes, Bytes, Nals, Remainder;
    var f := FirstNal(buf).value;
    var tail := buf[f.next..];
    NextAtOnce(buf);
    if FirstNal(tail).Some? {
      StreamIsNals(tail);
      assert tail[0..] == tail;
    } else {
      NoNals(tail);
    }
    NalsCons(buf);
  }

  lemma NoNals(buf: seq<Byte>)
    requires FirstNal(buf).None?
    ensures buf == Bytes(Nals(buf)) + Remainder(buf)
  {
  }

  lemma NalsCons(buf: seq<Byte>)
    requires FirstNal(buf).Some?
    requires var tail := buf[FirstNal(buf).value.next..]; tail == Bytes(Nals(tail)) + Remainder(tail)
    ensures buf[FirstNal(buf).value.at..] == Bytes(Nals(buf)) + Remainder(buf)
  {
    hide FirstNal, NalBytes, Bytes;
    var f := FirstNal(buf).value;
    var tail := buf[f.next..];
    NalThenTail(buf);
    BytesOf(f.nal);
    BytesConcat([f.nal], Nals(tail));
    Associate(NalBytes(f.nal), Bytes(Nals(tail)), Remainder(tail));
  }

  lemma Associate(a: seq<Byte>, b: seq<Byte>, c: seq<Byte>)
    ensures a + (b + c) == (a + b) + c
  {
  }

  lemma BytesOf(n: Nal)
    ensures Bytes([]) == [] && Bytes([n]) == NalBytes(n)
  {
    assert [n][..0] == [] && [] + NalBytes(n) == NalBytes(n);
  }

  lemma NalThenTail(buf: seq<Byte>)
    requires FirstNal(buf).Some?
    ensures var f := FirstNal(buf).value; buf[f.at..] == NalBytes(f.nal) + buf[f.next..]
  {
    hide CodeLen, FindStart, StartCode;
    var f := FirstNal(buf).value;
    CodeBytes(buf, f.at);
  }

  lemma NextAtOnce(buf: seq<Byte>)
    requires FirstNal(buf).Some?
    ensures var tail := buf[FirstNal(buf).value.next..]; FirstNal(tail).Some? ==> FirstNal(tail).value.at == 0
  {
    hide CodeLen;
    var f := FirstNal(buf).value;
    CodeLenShift(buf, f.next, 0);
    FindHere(buf[f.next..], 0);
  }

  // ---------------------------------------------------------------------------
  // Access units as groups of NAL units
  // ---------------------------------------------------------------------------

  function FeedList(st: Asm, ns: seq<Nal>): (Asm, seq<Output>) {
    if ns == [] then (st, [])
    else
      var (a, outs) := FeedList(st, ns[..|ns| - 1]);
      var (b, more) := Feed(a, ns[|ns| - 1]);
      (b, outs + more)
  }

  lemma {:induction false} FeedListCons(st: Asm, n: Nal, ns: seq<Nal>)
    ensures var (a, outs) := Feed(st, n);
            var (b, more) := FeedList(a, ns);
            FeedList(st, [n] + ns) == (b, outs + more)
  {
    hide Feed;
    var all := [n] + ns;
    if ns == [] {
      assert all == [n] && all[..0] == [];
      var (a, outs) := Feed(st, n);
      assert [] + outs == outs && outs + [] == outs;
    } else {
      var k := |ns| - 1;
      FeedListCons(st, n, ns[..k]);
      assert all[..|all| - 1] == [n] + ns[..k];
      var (a, outs) := Feed(st, n);
      var (b, more) := FeedList(a, ns[..k]);
      var last := Feed(b, ns[k]).1;
      assert (outs + more) + last == outs + (more + last);
    }
  }

  /** Extraction feeds the NAL units of the buffer, one after the other. */
  lemma {:induction false} ExtractIsFeedList(st: Asm, buf: seq<Byte>)
    ensures var (a, outs) := FeedList(st, Nals(buf));
            Extract(st, buf) == Extracted(a, Remainder(buf), outs)
    decreases |buf|
  {
    hide Feed, FeedList, FirstNal;
    if FirstNal(buf).None? {
      FeedNothing(st);
    } else {
      var f := FirstNal(buf).value;
      ExtractNext(st, buf);
      ExtractIsFeedList(Feed(st, f.nal).0, buf[f.next..]);
      FeedListCons(st, f.nal, Nals(buf[f.next..]));
    }
  }

  lemma FeedNothing(st: Asm)
    ensures FeedList(st, []) == (st, [])
  {
  }

  // ---------------------------------------------------------------------------
  // The input buffer's capacity and the end of a stream
  // ---------------------------------------------------------------------------

  const IBUF_CAP: nat := 4 * 1024 * 1024

  /** The pipe source at the end of its stream: it sends the held access unit and clears one flag. */
  function PipeEnd(st: Asm): (Asm, seq<Output>) {
    (st.(have := false), if st.have then [Output(st.au, st.key)] else [])
  }

  /** A read into a full input buffer: to the pipe source the empty read is the end of the stream, the
      file source starts afresh; both drop the buffer. */
  function FullRead(pipe: bool, st: Asm): (Asm, seq<Output>) {
    if pipe then PipeEnd(st) else (FRESH, [])
  }

  /** The reads of either source, with the capacity of the input buffer. */
  function CappedReads(pipe: bool, st: Asm, rest: seq<Byte>, chunks: seq<seq<Byte>>): Extracted
    decreases |chunks|
  {
    if chunks == [] then Extract(st, rest)
    else
      var e := Extract(st, rest);
      if |e.rest| >= IBUF_CAP then
        var (a, outs) := FullRead(pipe, e.st);
        Prepend(e.outs + outs, CappedReads(pipe, a, chunks[0], chunks[1..]))
      else Prepend(e.outs, CappedReads(pipe, e.st, e.rest + chunks[0], chunks[1..]))
  }

  /** No NAL unit of the stream, with what precedes it in the buffer, ever fills the input buffer. */
  ghost predicate NeverFull(stream: seq<Byte>) {
    forall w :: w <= stream ==> |Remainder(w)| < IBUF_CAP
  }

  lemma RemainderSplit(a: seq<Byte>, b: seq<Byte>)
    ensures Remainder(a + b) == Remainder(Remainder(a) + b)
  {
    hide Extract, Nals, Remainder, FeedList;
    ExtractIsFeedList(FRESH, a);
    ExtractIsFeedList(FRESH, a + b);
    var e := Extract(FRESH, a);
    ExtractIsFeedList(e.st, e.rest + b);
    SplitAnywhere(FRESH, a, b);
  }

  /** `seen` is the stream so far, of which `rest` still lies in the buffer. */
  lemma {:induction false} CapNeverHit(pipe: bool, st: Asm, seen: seq<Byte>, rest: seq<Byte>, chunks: seq<seq<Byte>>)
    requires Remainder(rest) == Remainder(seen) && NeverFull(seen + Concat(chunks))
    ensures CappedReads(pipe, st, rest, chunks) == ExtractReads(st, rest, chunks)
    decreases |chunks|
  {
    hide Extract, Remainder, Nals;
    ExtractIsFeedList(st, rest);
    if chunks != [] {
      var e := Extract(st, rest);
      assert seen <= seen + Concat(chunks);
      var seen', rest' := seen + chunks[0], e.rest + chunks[0];
      RemainderSplit(seen, chunks[0]);
      assert Remainder(rest') == Remainder(seen') by { RemainderSplit(rest, chunks[0]); }
      assert seen' + Concat(chunks[1..]) == seen + Concat(chunks);
      CapNeverHit(pipe, e.st, seen', rest', chunks[1..]);
    }
  }

  /** For either source, the access units of a stream that never fills the input buffer do not depend on
      how it is cut into reads. */
  lemma CappedReadsDoNotMatter(pipe: bool, st: Asm, chunks: seq<seq<Byte>>)
    requires NeverFull(Concat(chunks))
    ensures CappedReads(pipe, st, [], chunks) == Extract(st, Concat(chunks))
  {
    hide Extract, Remainder;
    assert [] + Concat(chunks) == Concat(chunks);
    CapNeverHit(pipe, st, [], [], chunks);
    ReadsDoNotMatter(st, [], chunks);
  }

  /** After the end of its stream the pipe source gives out the next stream's access units as they are
      if and only if its assembler was empty: otherwise the old bytes come out again in front. */
  lemma RestartCleanIff(st: Asm)
    requires |st.au| <= AU_CAP && |st.pend| <= PEND_CAP
    ensures (forall ns :: FeedList(PipeEnd(st).0, ns).1 == FeedList(FRESH, ns).1) <==> st.au == [] && st.pend == []
  {
    var a := PipeEnd(st).0;
    if st.au == [] && st.pend == [] {
      forall ns
        ensures FeedList(a, ns).1 == FeedList(FRESH, ns).1
      {
        KeyUnseen(a, ns);
      }
    } else {
      var n := Nal(3, [1]);
      TwoSlices(a, n);
      TwoSlices(FRESH, n);
      assert FeedList(a, [n, n]).1[0] != FeedList(FRESH, [n, n]).1[0];
    }
  }

  lemma TwoSlices(st: Asm, n: Nal)
    requires Vcl(n) && !st.have
    ensures FeedList(st, [n, n]).1 == [Output(AuFeed(st, n).0.au, NalType(n) == 5)]
  {
    assert [n, n][..1] == [n] && [n][..0] == [];
    assert FeedList(st, [n]) == (Feed(st, n).0, [] + Feed(st, n).1);
    var (a, outs) := FeedList(st, [n]);
    assert FeedList(st, [n, n]) == (Feed(a, n).0, outs + Feed(a, n).1);
  }

  /** The key flag of an assembler without a slice is overwritten before it is used. */
  lemma {:induction false} KeyUnseen(a: Asm, ns: seq<Nal>)
    requires a.au == [] && a.pend == [] && !a.have
    ensures FeedList(a, ns).1 == FeedList(FRESH, ns).1
    ensures var b, c := FeedList(a, ns).0, FeedList(FRESH, ns).0;
            b.au == c.au && b.pend == c.pend && b.have == c.have && (b.have ==> b.key == c.key)
  {
    if ns != [] {
      KeyUnseen(a, ns[..|ns| - 1]);
    }
  }

  /** The NAL units given out, one list per access unit, and those still held. */
  datatype Groups = Groups(closed: seq<seq<Nal>>, open: seq<Nal>)

  function SliceCount(ns: seq<Nal>): nat {
    if ns == [] then 0 else SliceCount(ns[..|ns| - 1]) + if Vcl(ns[|ns| - 1]) then 1 else 0
  }

  function KeySlice(ns: seq<Nal>): bool {
    ns != [] && (KeySlice(ns[..|ns| - 1]) || (Vcl(ns[|ns| - 1]) && NalType(ns[|ns| - 1]) == 5))
  }

  function Flat(gs: seq<seq<Nal>>): seq<Nal> {
    if gs == [] then [] else Flat(gs[..|gs| - 1]) + gs[|gs| - 1]
  }

  function NonEmpty(ns: seq<Nal>): seq<Nal> {
    if ns == [] then []
    else NonEmpty(ns[..|ns| - 1]) + if ns[|ns| - 1].body != [] then [ns[|ns| - 1]] else []
  }

  /** The buffers have room for what feeding `n` adds to them. */
  predicate Room(st: Asm, n: Nal) {
    n.body != [] ==>
      var size := |NalBytes(n)|;
      if Vcl(n) then (if st.have then size else |st.au| + |st.pend| + size) <= AU_CAP
      else if st.have then |st.au| + size <= AU_CAP
      else |st.pend| + size <= PEND_CAP
  }

  predicate NoOverflow(ns: seq<Nal>) {
    ns != [] ==> NoOverflow(ns[..|ns| - 1]) && Room(FeedList(FRESH, ns[..|ns| - 1]).0, ns[|ns| - 1])
  }

  /** The assembler's buffers hold exactly the open group. */
  ghost predicate HoldsOpen(st: Asm, open: seq<Nal>) {
    && SliceCount(open) == (if st.have then 1 else 0)
    && st.key == KeySlice(open)
    && (if st.have then st.au == Bytes(open) && st.pend == [] else st.au == [] && st.pend == Bytes(open))
  }

  ghost predicate GivenOut(outs: seq<Output>, closed: seq<seq<Nal>>) {
    && |outs| == |closed|
    && forall i :: 0 <= i < |outs| ==>
                     outs[i] == Output(Bytes(closed[i]), KeySlice(closed[i])) && SliceCount(closed[i]) == 1
  }

  lemma OpenSnoc(open: seq<Nal>, n: Nal)
    ensures Bytes(open + [n]) == Bytes(open) + NalBytes(n)
    ensures SliceCount(open + [n]) == SliceCount(open) + if Vcl(n) then 1 else 0
    ensures KeySlice(open + [n]) == (KeySlice(open) || (Vcl(n) && NalType(n) == 5))
  {
    assert (open + [n])[..|open|] == open;
  }

  lemma {:induction false} NoSliceNoKey(ns: seq<Nal>)
    requires SliceCount(ns) == 0
    ensures !KeySlice(ns)
  {
    if ns != [] { NoSliceNoKey(ns[..|ns| - 1]); }
  }

  /** One feed moves the NAL unit into the open group, closing that group first if it is a second
      slice. */
  lemma FeedGroups(st: Asm, open: seq<Nal>, n: Nal)
    requires HoldsOpen(st, open) && Room(st, n) && n.body != []
    ensures var (a, outs) := Feed(st, n);
            if Vcl(n) && st.have then
              outs == [Output(Bytes(open), KeySlice(open))] && HoldsOpen(a, [n])
            else outs == [] && HoldsOpen(a, open + [n])
  {
    hide Bytes, SliceCount, KeySlice, NalType;
    OpenSnoc(open, n);
    OpenSnoc([], n);
    assert [] + [n] == [n];
    NothingOpen();
    if SliceCount(open) == 0 { NoSliceNoKey(open); }
    var code := StartCode(n.slen);
    assert Bytes(open) + (code + n.body) == (Bytes(open) + code) + n.body;
    assert [] + Bytes(open) == Bytes(open);
    assert [] + code + n.body == code + n.body;
  }

  lemma NothingOpen()
    ensures Bytes([]) == [] && SliceCount([]) == 0 && !KeySlice([])
  {
  }

  /** While the buffers do not overflow: the access units given out plus what is held are all the
      non-empty NAL units fed, in order; each access unit holds exactly one slice, and every one after
      the first begins with it, so parameter sets go with the slice before them. */
  lemma {:induction false} GroupsOf(ns: seq<Nal>) returns (g: Groups)
    requires NoOverflow(ns)
    ensures Grouped(ns, g)
  {
    hide *;
    if ns == [] {
      g := Groups([], []);
      NoGroups();
    } else {
      var k := |ns| - 1;
      NoOverflowPrefix(ns);
      var h := GroupsOf(ns[..k]);
      g := NextGroups(ns, h);
    }
  }

  ghost predicate Grouped(ns: seq<Nal>, g: Groups) {
    && HoldsOpen(FeedList(FRESH, ns).0, g.open) && GivenOut(FeedList(FRESH, ns).1, g.closed)
    && Flat(g.closed) + g.open == NonEmpty(ns)
    && (forall i :: 1 <= i < |g.closed| ==> SliceFirst(g.closed[i]))
    && (g.closed != [] ==> SliceFirst(g.open))
  }

  predicate SliceFirst(ns: seq<Nal>) {
    ns != [] && Vcl(ns[0])
  }

  lemma NoGroups()
    ensures Grouped([], Groups([], []))
  {
  }

  lemma NoOverflowPrefix(ns: seq<Nal>)
    requires NoOverflow(ns) && ns != []
    ensures NoOverflow(ns[..|ns| - 1]) && Room(FeedList(FRESH, ns[..|ns| - 1]).0, ns[|ns| - 1])
  {
  }

  lemma NextGroups(ns: seq<Nal>, h: Groups) returns (g: Groups)
    requires ns != [] && Grouped(ns[..|ns| - 1], h) && Room(FeedList(FRESH, ns[..|ns| - 1]).0, ns[|ns| - 1])
    ensures Grouped(ns, g)
  {
    hide *;
    var n := ns[|ns| - 1];
    if n.body == [] {
      EmptySkipped(ns, h);
      g := h;
    } else {
      g := NalTaken(ns, h);
    }
  }

  lemma EmptySkipped(ns: seq<Nal>, h: Groups)
    requires ns != [] && Grouped(ns[..|ns| - 1], h) && ns[|ns| - 1].body == []
    ensures Grouped(ns, h)
  {
    hide Feed, HoldsOpen, NalType, Bytes, KeySlice, SliceCount;
    var k := |ns| - 1;
    var (st, outs) := FeedList(FRESH, ns[..k]);
    EmptyFeed(st, ns[k]);
    assert outs + [] == outs;
    assert NonEmpty(ns[..k]) + [] == NonEmpty(ns[..k]);
  }

  lemma NalTaken(ns: seq<Nal>, h: Groups) returns (g: Groups)
    requires ns != [] && Grouped(ns[..|ns| - 1], h) && Room(FeedList(FRESH, ns[..|ns| - 1]).0, ns[|ns| - 1])
    requires ns[|ns| - 1].body != []
    ensures Grouped(ns, g)
  {
    hide Feed, FeedList, HoldsOpen, Room, NalType, Bytes, KeySlice, SliceCount, NonEmpty, Flat, Vcl;
    var k := |ns| - 1;
    var n := ns[k];
    var (st, outs) := FeedList(FRESH, ns[..k]);
    LastFed(ns);
    FeedGroups(st, h.open, n);
    if Vcl(n) && st.have {
      OpenHasOne(st, h.open);
      g := Groups(h.closed + [h.open], [n]);
      FlatSnoc(h.closed, h.open);
    } else {
      g := Groups(h.closed, h.open + [n]);
      assert outs + [] == outs;
      assert Flat(h.closed) + (h.open + [n]) == (Flat(h.closed) + h.open) + [n];
    }
  }

  lemma LastFed(ns: seq<Nal>)
    requires ns != [] && ns[|ns| - 1].body != []
    ensures var k := |ns| - 1;
            var (st, outs) := FeedList(FRESH, ns[..k]);
            && FeedList(FRESH, ns) == (Feed(st, ns[k]).0, outs + Feed(st, ns[k]).1)
            && NonEmpty(ns) == NonEmpty(ns[..k]) + [ns[k]]
  {
    hide Feed;
  }

  lemma FlatSnoc(gs: seq<seq<Nal>>, g: seq<Nal>)
    ensures Flat(gs + [g]) == Flat(gs) + g
  {
    assert (gs + [g])[..|gs|] == gs;
  }

  lemma OpenHasOne(st: Asm, open: seq<Nal>)
    requires HoldsOpen(st, open) && st.have
    ensures SliceCount(open) == 1
  {
  }

  lemma EmptyFeed(st: Asm, n: Nal)
    requires n.body == []
    ensures Feed(st, n) == (st, [])
  {
  }

  /** No access unit exceeds the sender's buffer, whatever is fed. */
  lemma {:induction false} OutputsBounded(st: Asm, ns: seq<Nal>)
    requires |st.au| <= AU_CAP
    ensures |FeedList(st, ns).0.au| <= AU_CAP
    ensures forall o :: o in FeedList(st, ns).1 ==> |o.au| <= AU_CAP
  {
    if ns != [] {
      OutputsBounded(st, ns[..|ns| - 1]);
    }
  }
}
