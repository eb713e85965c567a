/** Access-unit fragmentation: the 4-byte fragment header and the assembler (src/video/fragment.c). */
module Fragment {
  import opened Words

  const CHUNK: nat := 1400
  const LAST_BIT: u16 := 0x8000
  const AU_MAX: nat := 512 * 1024

  // ---------------------------------------------------------------------------
  // Fragment header
  // ---------------------------------------------------------------------------

  function PackHeader(frameId: u16, fragIndex: u16): (s: seq<Byte>)
    ensures |s| == 4
  {
    Wr16(frameId) + Wr16(fragIndex)
  }

  /** One call of `vmc_frag_feed`. */
  datatype Piece = Piece(frameId: u16, index: u16, last: bool, chunk: seq<Byte>)

  /** A datagram payload, split into fragment header and chunk. */
  function Unpack(payload: seq<Byte>): Piece
    requires |payload| >= 4
  {
    var idx := Rd16(payload[2..4]);
    Piece(Rd16(payload[0..2]), idx % LAST_BIT, idx >= LAST_BIT, payload[4..])
  }

  lemma UnpackOfPacked(frameId: u16, index: u16, last: bool, chunk: seq<Byte>)
    requires index < LAST_BIT
    ensures Unpack(PackHeader(frameId, index + if last then LAST_BIT else 0) + chunk)
         == Piece(frameId, index, last, chunk)
  {
    var idx := index + if last then LAST_BIT else 0;
    var p := PackHeader(frameId, idx) + chunk;
    assert p[0..2] == Wr16(frameId) && p[2..4] == Wr16(idx) && p[4..] == chunk;
  }

  // ---------------------------------------------------------------------------
  // The assembler as a function on its state
  // ---------------------------------------------------------------------------

  /** `data` is the filled part of the buffer. */
  datatype Assembly = Assembly(frameId: u16, nextIndex: u16, data: seq<Byte>, started: bool)

  const RESET := Assembly(0, 0, [], false)

  /** `au` is empty unless the call reports a finished access unit. */
  datatype Fed = Fed(next: Assembly, status: Status, au: seq<Byte>)

  function Feed(a: Assembly, cap: nat, p: Piece): Fed {
    var b := if !a.started || p.frameId != a.frameId then Assembly(p.frameId, 0, [], true) else a;
    if p.index != b.nextIndex then Fed(b.(started := false), OutOfSync, [])
    else if |b.data| + |p.chunk| > cap then Fed(b.(started := false), Overrun, [])
    else
      var c := Assembly(b.frameId, (b.nextIndex + 1) % 0x1_0000, b.data + p.chunk, !p.last);
      Fed(c, Ok, if p.last then c.data else [])
  }

  class Assembler {
    var buf: array<Byte>
    var cap: nat
    var frameId: u16
    var nextIndex: u16
    var filled: nat
    var started: bool

    ghost predicate Valid()
      reads this
    {
      filled <= cap <= buf.Length
    }

    ghost function State(): Assembly
      requires Valid()
      reads this, buf
    {
      Assembly(frameId, nextIndex, buf[..filled], started)
    }

    /** `vmc_frag_init` on arguments it accepts. */
    constructor (buf: array<Byte>, cap: nat)
      requires 0 < cap <= buf.Length && cap <= AU_MAX
      ensures Valid() && this.buf == buf && this.cap == cap && State() == RESET
    {
      this.buf := buf;
      this.cap := cap;
      frameId, nextIndex, filled, started := 0, 0, 0, false;
    }

    method Reset()
      requires Valid()
      modifies this
      ensures Valid() && buf == old(buf) && cap == old(cap) && State() == RESET
    {
      frameId, nextIndex, filled, started := 0, 0, 0, false;
    }

    method FeedPiece(p: Piece) returns (status: Status, auLen: nat)
      requires Valid()
      modifies this, buf
      ensures Valid() && buf == old(buf) && cap == old(cap)
      ensures auLen <= filled
      ensures Fed(State(), status, buf[..auLen]) == Feed(old(State()), cap, p)
    {
      auLen := 0;
      if !started || p.frameId != frameId {
        frameId, nextIndex, filled, started := p.frameId, 0, 0, true;
      }
      if p.index != nextIndex {
        started := false;
        return OutOfSync, auLen;
      }
      if |p.chunk| > cap - filled {
        started := false;
        return Overrun, auLen;
      }
      CopyInto(buf, filled, p.chunk);
      filled := filled + |p.chunk|;
      nextIndex := (nextIndex + 1) % 0x1_0000;
      if p.last {
        auLen := filled;
        started := false;
      }
      status := Ok;
    }
  }

  /** `vmc_frag_init` on a caller's buffer of `cap` usable bytes: refuses none and too many. */
  method InitAssembler(buf: array<Byte>, cap: nat) returns (r: Option<Assembler>)
    requires cap <= buf.Length
    ensures r.Some? <==> 0 < cap <= AU_MAX
    ensures r.Some? ==> fresh(r.value) && r.value.Valid() && r.value.buf == buf && r.value.cap == cap
    ensures r.Some? ==> r.value.State() == RESET
  {
    if cap == 0 || cap > AU_MAX {
      return None;
    }
    var a := new Assembler(buf, cap);
    r := Some(a);
  }

  // ---------------------------------------------------------------------------
  // What is reported, over every history of calls
  // ---------------------------------------------------------------------------

  function FeedAll(a: Assembly, cap: nat, ps: seq<Piece>): Assembly {
    if ps == [] then a
    else Feed(FeedAll(a, cap, ps[..|ps| - 1]), cap, ps[|ps| - 1]).next
  }

  function Chunks(ps: seq<Piece>): seq<Byte> {
    if ps == [] then [] else Chunks(ps[..|ps| - 1]) + ps[|ps| - 1].chunk
  }

  /** Consecutive pieces of one frame with indices 0, 1, 2, ... and LAST on none but possibly the
      final one. */
  ghost predicate InOrder(ps: seq<Piece>) {
    forall i :: 0 <= i < |ps| ==>
                  ps[i].frameId == ps[0].frameId && ps[i].index == i % 0x1_0000 && (ps[i].last ==> i == |ps| - 1)
  }

  ghost predicate Complete(ps: seq<Piece>) {
    ps != [] && InOrder(ps) && ps[|ps| - 1].last
  }

  /** A frame may start afresh here. */
  predicate Fresh(a: Assembly, frameId: u16) {
    !a.started || a.frameId != frameId
  }

  function Suffix<T>(s: seq<T>, k: nat): seq<T>
    requires k <= |s|
  {
    s[|s| - k..]
  }

  /** While assembling, the buffer holds exactly the last `k` pieces fed. */
  ghost predicate Holds(cap: nat, history: seq<Piece>, k: nat) {
    var a := FeedAll(RESET, cap, history);
    && 0 < k <= |history|
    && var run := Suffix(history, k);
    && InOrder(run) && !run[k - 1].last
    && run[0].frameId == a.frameId
    && a.nextIndex == k % 0x1_0000
    && a.data == Chunks(run) && |a.data| <= cap
    && Fresh(FeedAll(RESET, cap, history[..|history| - k]), a.frameId)
  }

  lemma ModSucc(n: nat)
    ensures (n % 0x1_0000 + 1) % 0x1_0000 == (n + 1) % 0x1_0000
  {
  }

  lemma {:induction false} StartedHolds(cap: nat, history: seq<Piece>) returns (k: nat)
    requires FeedAll(RESET, cap, history).started
    ensures Holds(cap, history, k)
    decreases |history|
  {
    hide Holds;
    var n := |history| - 1;
    assert history[..n] + [history[n]] == history;
    if Fresh(FeedAll(RESET, cap, history[..n]), history[n].frameId) {
      HoldsFirst(cap, history[..n], history[n]);
      k := 1;
    } else {
      var j := StartedHolds(cap, history[..n]);
      HoldsNext(cap, history[..n], history[n], j);
      k := j + 1;
    }
  }

  lemma HoldsFirst(cap: nat, earlier: seq<Piece>, p: Piece)
    requires Fresh(FeedAll(RESET, cap, earlier), p.frameId)
    requires FeedAll(RESET, cap, earlier + [p]).started
    ensures Holds(cap, earlier + [p], 1)
  {
    var history := earlier + [p];
    assert history[..|history| - 1] == earlier;
    var run := Suffix(history, 1);
    assert run == [p] && Chunks(run) == Chunks([]) + p.chunk;
  }

  lemma HoldsNext(cap: nat, earlier: seq<Piece>, p: Piece, j: nat)
    requires !Fresh(FeedAll(RESET, cap, earlier), p.frameId)
    requires FeedAll(RESET, cap, earlier + [p]).started
    requires Holds(cap, earlier, j)
    ensures Holds(cap, earlier + [p], j + 1)
  {
    var history := earlier + [p];
    assert history[..|history| - 1] == earlier;
    assert history[..|history| - (j + 1)] == earlier[..|earlier| - j];
    Extended(earlier, p, j);
    ModSucc(j);
  }

  lemma Extended(earlier: seq<Piece>, p: Piece, j: nat)
    requires 0 < j <= |earlier|
    ensures Suffix(earlier + [p], j + 1) == Suffix(earlier, j) + [p]
    ensures Chunks(Suffix(earlier + [p], j + 1)) == Chunks(Suffix(earlier, j)) + p.chunk
    ensures InOrder(Suffix(earlier, j)) && !Suffix(earlier, j)[j - 1].last
            && p.frameId == Suffix(earlier, j)[0].frameId && p.index == j % 0x1_0000
            ==> InOrder(Suffix(earlier + [p], j + 1))
  {
    var run := Suffix(earlier, j);
    assert (run + [p])[..j] == run;
  }

  /** `ps` ends in a complete frame of `k` pieces that fits the buffer and that did not start while
      the assembler was in the middle of a frame of the same id. */
  ghost predicate EndsInFrame(cap: nat, ps: seq<Piece>, k: nat) {
    && 0 < k <= |ps|
    && Complete(Suffix(ps, k))
    && |Chunks(Suffix(ps, k))| <= cap
    && Fresh(FeedAll(RESET, cap, ps[..|ps| - k]), Suffix(ps, k)[0].frameId)
  }

  /** Soundness: what is reported is the concatenation of the immediately preceding feeds, one whole
      frame in order. */
  lemma ReportedIsFrame(cap: nat, history: seq<Piece>, p: Piece) returns (k: nat)
    requires Feed(FeedAll(RESET, cap, history), cap, p).au != []
    ensures EndsInFrame(cap, history + [p], k)
    ensures Feed(FeedAll(RESET, cap, history), cap, p).au == Chunks(Suffix(history + [p], k))
  {
    hide Holds, EndsInFrame, Feed;
    if Fresh(FeedAll(RESET, cap, history), p.frameId) {
      ReportedFirst(cap, history, p);
      k := 1;
    } else {
      var j := StartedHolds(cap, history);
      ReportedNext(cap, history, p, j);
      k := j + 1;
    }
  }

  lemma ReportedFirst(cap: nat, history: seq<Piece>, p: Piece)
    requires Fresh(FeedAll(RESET, cap, history), p.frameId)
    requires Feed(FeedAll(RESET, cap, history), cap, p).au != []
    ensures EndsInFrame(cap, history + [p], 1)
    ensures Feed(FeedAll(RESET, cap, history), cap, p).au == Chunks(Suffix(history + [p], 1))
  {
    var ps := history + [p];
    var run := Suffix(ps, 1);
    assert run == [p] && Chunks(run) == Chunks([]) + p.chunk;
    assert ps[..|ps| - 1] == history;
  }

  lemma ReportedNext(cap: nat, history: seq<Piece>, p: Piece, j: nat)
    requires !Fresh(FeedAll(RESET, cap, history), p.frameId) && Holds(cap, history, j)
    requires Feed(FeedAll(RESET, cap, history), cap, p).au != []
    ensures EndsInFrame(cap, history + [p], j + 1)
    ensures Feed(FeedAll(RESET, cap, history), cap, p).au == Chunks(Suffix(history + [p], j + 1))
  {
    var ps := history + [p];
    Extended(history, p, j);
    assert ps[..|ps| - (j + 1)] == history[..|history| - j];
  }

  /** Feeding a frame in order, from a state where it may start, collects it all the way. */
  lemma {:induction false} Collected(a: Assembly, cap: nat, ps: seq<Piece>)
    requires ps != [] && InOrder(ps) && !ps[|ps| - 1].last
    requires Fresh(a, ps[0].frameId) && |Chunks(ps)| <= cap
    ensures FeedAll(a, cap, ps) == Assembly(ps[0].frameId, |ps| % 0x1_0000, Chunks(ps), true)
  {
    var n := |ps| - 1;
    var front, p := ps[..n], ps[n];
    assert Chunks(ps) == Chunks(front) + p.chunk;
    assert FeedAll(a, cap, ps) == Feed(FeedAll(a, cap, front), cap, p).next;
    if n > 0 {
      assert InOrder(front);
      Collected(a, cap, front);
      ModSucc(n);
    }
    hide FeedAll, Chunks, InOrder;
  }

  /** Completeness: a whole frame fed in order is reported at its last piece, and leaves the assembler
      ready for any frame. */
  lemma FrameReported(a: Assembly, cap: nat, ps: seq<Piece>)
    requires Complete(ps) && Fresh(a, ps[0].frameId) && |Chunks(ps)| <= cap
    ensures Feed(FeedAll(a, cap, ps[..|ps| - 1]), cap, ps[|ps| - 1]).au == Chunks(ps)
    ensures !FeedAll(a, cap, ps).started
  {
    var n := |ps| - 1;
    if n == 0 {
      assert ps[..0] == [] && Chunks(ps) == Chunks([]) + ps[0].chunk;
    } else {
      assert InOrder(ps[..n]);
      Collected(a, cap, ps[..n]);
    }
  }

  lemma {:induction false} FeedAllConcat(a: Assembly, cap: nat, ps: seq<Piece>, qs: seq<Piece>)
    ensures FeedAll(a, cap, ps + qs) == FeedAll(FeedAll(a, cap, ps), cap, qs)
  {
    if qs == [] {
      assert ps + qs == ps;
    } else {
      var n := |qs| - 1;
      FeedAllConcat(a, cap, ps, qs[..n]);
      assert (ps + qs)[..|ps + qs| - 1] == ps + qs[..n];
    }
  }

  /** For every history of feeds, lossy, duplicated or reordered: an access unit is reported now if
      and only if the feeds end in a complete frame. */
  lemma ReportedIffFrame(cap: nat, history: seq<Piece>, p: Piece)
    ensures Feed(FeedAll(RESET, cap, history), cap, p).au != [] <==>
              exists k :: EndsInFrame(cap, history + [p], k) && Chunks(Suffix(history + [p], k)) != []
  {
    var ps := history + [p];
    if Feed(FeedAll(RESET, cap, history), cap, p).au != [] {
      var k := ReportedIsFrame(cap, history, p);
    }
    if k :| EndsInFrame(cap, ps, k) && Chunks(Suffix(ps, k)) != [] {
      FrameAtEnd(cap, history, p, k);
    }
  }

  lemma FrameAtEnd(cap: nat, history: seq<Piece>, p: Piece, k: nat)
    requires EndsInFrame(cap, history + [p], k)
    ensures Feed(FeedAll(RESET, cap, history), cap, p).au == Chunks(Suffix(history + [p], k))
  {
    var ps := history + [p];
    var run, before := Suffix(ps, k), ps[..|ps| - k];
    FrameReported(FeedAll(RESET, cap, before), cap, run);
    FeedAllConcat(RESET, cap, before, run[..k - 1]);
    assert before + run[..k - 1] == history;
  }

  /** A feed is refused for its size if and only if it goes on with the frame or starts one but does not
      fit, and as out of sync if and only if it does neither; a refused feed leaves the assembler idle. */
  lemma FeedOutcome(a: Assembly, cap: nat, p: Piece)
    ensures var f := Feed(a, cap, p);
            var collected := if Fresh(a, p.frameId) then [] else a.data;
            var expected := if Fresh(a, p.frameId) then 0 else a.nextIndex;
            && (f.status == OutOfSync <==> p.index != expected)
            && (f.status == Overrun <==> p.index == expected && |collected| + |p.chunk| > cap)
            && (f.status == Ok <==> p.index == expected && |collected| + |p.chunk| <= cap)
            && (f.status != Ok ==> !f.next.started && f.au == [])
            && (f.status == Ok ==> f.next.started != p.last && f.next.data == collected + p.chunk)
  {
  }

  /** The fragment header on the wire: frame id and index, least significant byte first, with the top bit of
      the index marking the last fragment. */
  lemma HeaderBytes(frameId: u16, index: u16, last: bool, payload: seq<Byte>)
    requires index < 0x8000 && |payload| >= 4
    ensures PackHeader(frameId, index + if last then LAST_BIT else 0)
         == [frameId % 0x100, frameId / 0x100, index % 0x100, index / 0x100 + if last then 0x80 else 0]
    ensures var p := Unpack(payload);
            && p.frameId % 0x100 == payload[0] && p.frameId / 0x100 == payload[1]
            && p.index % 0x100 == payload[2] && p.index / 0x100 == payload[3] % 0x80
            && (p.last <==> payload[3] >= 0x80) && p.chunk == payload[4..]
  {
  }
}
