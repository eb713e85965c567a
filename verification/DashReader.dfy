/** The DASH reader's windowed fetch loop (dash_reader_direct in apps/thinclient/main.c). */
module DashReader {
  import opened Words

  /** What the loop uses of the manifest; times in microseconds. */
  datatype Manifest = Manifest(isStatic: bool, durationUs: int, segUs: int, availStartUs: int, startNumber: int)

  /** What one pass sees: the manifest, the wall clock, the two live-buffer targets, whether there is
      audio, and which segment fetches would succeed. */
  datatype Input = Input(
    m: Manifest, now: int, videoBufferUs: nat, audioBufferUs: nat, hasAudio: bool,
    videoOk: int -> bool, audioOk: int -> bool)

  /** The highest segments delivered, or -1. */
  datatype Reader = Reader(lastV: int, lastA: int)

  // ---------------------------------------------------------------------------
  // The window
  // ---------------------------------------------------------------------------

  /** The cast to a 32-bit `int`. */
  function I32(x: int): int {
    (x + 0x8000_0000) % 0x1_0000_0000 - 0x8000_0000
  }

  function Max(a: int, b: int): int {
    if a < b then b else a
  }

  function Min(a: int, b: int): int {
    if a < b then a else b
  }

  /** Zero unless the manifest is static with a known duration. */
  function Total(m: Manifest): (t: int)
    requires m.segUs > 0
    ensures t >= 0
  {
    if m.isStatic && m.durationUs > 0 then (m.durationUs + m.segUs - 1) / m.segUs else 0
  }

  /** The segment number the clock stands at, before any clamping. */
  function ClockEdge(i: Input): int
    requires i.m.segUs > 0
  {
    if i.now - i.m.availStartUs > 0 then (i.now - i.m.availStartUs) / i.m.segUs else 0
  }

  function LiveEdge(i: Input): int
    requires i.m.segUs > 0
  {
    var e := Max(I32(ClockEdge(i)), i.m.startNumber);
    if Total(i.m) > 0 then Min(e, Total(i.m)) else e
  }

  function Segments(bufferUs: nat, segUs: int): nat
    requires segUs > 0
  {
    (bufferUs + segUs - 1) / segUs
  }

  function Oldest(i: Input, bufferUs: nat): int
    requires i.m.segUs > 0
  {
    Max(LiveEdge(i) - 1 - Segments(bufferUs, i.m.segUs), i.m.startNumber)
  }

  /** The last segment the video loop may ask for. */
  function VideoHigh(i: Input): int
    requires i.m.segUs > 0
  {
    var hi := Max(LiveEdge(i) + 1, Oldest(i, i.videoBufferUs));
    if Total(i.m) > 0 then Min(hi, Total(i.m)) else hi
  }

  // ---------------------------------------------------------------------------
  // One pass
  // ---------------------------------------------------------------------------

  /** Fetch from `at` up to `hi` until one fails; the first segment not delivered. */
  function FetchTo(at: int, hi: int, ok: int -> bool): (end: int)
    ensures end >= at && (at <= hi + 1 ==> end <= hi + 1)
    ensures forall k :: at <= k < end ==> ok(k)
    ensures end <= hi ==> !ok(end)
    decreases hi - at
  {
    if at > hi || !ok(at) then at else FetchTo(at + 1, hi, ok)
  }

  /** A run of requests: everything from `from` below `end` was delivered, and `end` itself was asked
      for in vain if it is at most `hi`. */
  datatype Fetch = Fetch(from: int, end: int, hi: int)

  predicate Requested(f: Fetch, n: int) {
    f.from <= n <= f.end && n <= f.hi
  }

  predicate Delivered(f: Fetch, n: int) {
    f.from <= n < f.end
  }

  datatype Outcome = Outcome(next: Reader, video: Fetch, audio: Fetch, reset: bool, eos: bool)

  function AudioPass(lastA: int, i: Input): (int, Fetch)
    requires i.m.segUs > 0
  {
    var target := Max(LiveEdge(i), i.m.startNumber);
    if !i.hasAudio then (lastA, Fetch(target + 1, target + 1, target))
    else
      var want := if lastA < 0 then Oldest(i, i.audioBufferUs) else lastA + 1;
      var (last, at) := if want < i.m.startNumber then (i.m.startNumber - 1, i.m.startNumber) else (lastA, want);
      var from := Min(at, target);
      if last >= 0 && from <= last then (last, Fetch(target + 1, target + 1, target))
      else
        var end := FetchTo(from, target, i.audioOk);
        (if end > from then end - 1 else last, Fetch(from, end, target))
  }

  function Pass(r: Reader, i: Input): Outcome
    requires i.m.segUs > 0
  {
    var (lastA, audio) := AudioPass(r.lastA, i);
    var oldest := Oldest(i, i.videoBufferUs);
    var hi := VideoHigh(i);
    var want := if r.lastV < 0 then oldest else r.lastV + 1;
    var jumped := want < i.m.startNumber;
    var last := if jumped then i.m.startNumber - 1 else r.lastV;
    var reset := last >= 0 && hi < last;
    var from := if reset then oldest else if jumped then i.m.startNumber else want;
    var end := FetchTo(from, hi, i.videoOk);
    var lastV := if end > from then end - 1 else if reset then -1 else last;
    var total := Total(i.m);
    Outcome(Reader(lastV, if reset then -1 else lastA), Fetch(from, end, hi), audio, reset,
            i.m.isStatic && total > 0 && lastV >= total - 1)
  }

  // ---------------------------------------------------------------------------
  // The code
  // ---------------------------------------------------------------------------

  class SegmentReader {
    var lastV: int
    var lastA: int

    constructor ()
      ensures lastV == -1 && lastA == -1
    {
      lastV, lastA := -1, -1;
    }

    /** The audio half of the loop body; returns the segments asked for. The code tests inside the loop
        whether `at` is past the last delivered segment; only the first test can fail. */
    method FetchAudio(i: Input) returns (asked: seq<int>)
      requires i.m.segUs > 0
      modifies this`lastA
      ensures lastA == AudioPass(old(lastA), i).0
      ensures forall n :: n in asked <==> Requested(AudioPass(old(lastA), i).1, n)
    {
      hide FetchTo, LiveEdge, Oldest;
      asked := [];
      var target := Max(LiveEdge(i), i.m.startNumber);
      if i.hasAudio {
        var at := if lastA < 0 then Oldest(i, i.audioBufferUs) else lastA + 1;
        if at < i.m.startNumber {
          lastA := i.m.startNumber - 1;
          at := lastA + 1;
        }
        if at > target { at := target; }
        if !(lastA >= 0 && at <= lastA) {
          var end;
          asked, end := FetchRange(at, target, i.audioOk);
          if end > at { lastA := end - 1; }
        }
      }
    }

    /** The whole loop body; returns the segments asked for, whether the live-edge reset fired, and
        whether the end of the content was reached. */
    method OnePass(i: Input) returns (video: seq<int>, audio: seq<int>, reset: bool, eos: bool)
      requires i.m.segUs > 0
      modifies this
      ensures var o := Pass(Reader(old(lastV), old(lastA)), i);
              && Reader(lastV, lastA) == o.next && reset == o.reset && eos == o.eos
              && (forall n :: n in video <==> Requested(o.video, n))
              && (forall n :: n in audio <==> Requested(o.audio, n))
    {
      hide FetchTo, LiveEdge, Oldest, VideoHigh, AudioPass, Total;
      audio := FetchAudio(i);
      var target := Oldest(i, i.videoBufferUs);
      var hi := VideoHigh(i);
      var vn := if lastV < 0 then target else lastV + 1;
      if vn < i.m.startNumber {
        lastV := i.m.startNumber - 1;
        vn := i.m.startNumber;
      }
      reset := lastV >= 0 && hi < lastV;
      if reset {
        lastV, lastA := -1, -1;
        vn := target;
      }
      var end;
      video, end := FetchRange(vn, hi, i.videoOk);
      if end > vn { lastV := end - 1; }
      eos := i.m.isStatic && Total(i.m) > 0 && lastV >= Total(i.m) - 1;
    }
  }

  /** The fetch loop shared by video and audio: ask for one segment after the other until one fails. */
  method FetchRange(from: int, hi: int, ok: int -> bool) returns (asked: seq<int>, end: int)
    ensures end == FetchTo(from, hi, ok)
    ensures forall n :: n in asked <==> Requested(Fetch(from, end, hi), n)
  {
    asked := [];
    end := from;
    while end <= hi
      invariant from <= end && (from <= hi + 1 ==> end <= hi + 1) && (from > hi ==> end == from)
      invariant FetchTo(from, hi, ok) == FetchTo(end, hi, ok)
      invariant forall n :: n in asked <==> from <= n < end
      decreases hi - end
    {
      asked := asked + [end];
      if !ok(end) {
        break;
      }
      end := end + 1;
    }
  }

  // ---------------------------------------------------------------------------
  // Requests stay inside the window
  // ---------------------------------------------------------------------------

  /** The manifest's own numbers make sense: a static one has at least its first segment. */
  predicate Sane(m: Manifest) {
    m.segUs > 0 && m.startNumber >= 0 && (Total(m) > 0 ==> m.startNumber <= Total(m))
  }

  lemma EdgeInWindow(i: Input)
    requires Sane(i.m)
    ensures i.m.startNumber <= LiveEdge(i) && (Total(i.m) > 0 ==> LiveEdge(i) <= Total(i.m))
    ensures i.m.startNumber <= Oldest(i, i.videoBufferUs) <= LiveEdge(i)
    ensures i.m.startNumber <= Oldest(i, i.audioBufferUs) <= LiveEdge(i)
    ensures i.m.startNumber <= VideoHigh(i) <= LiveEdge(i) + 1 && (Total(i.m) > 0 ==> VideoHigh(i) <= Total(i.m))
  {
    hide I32, Total, ClockEdge;
  }

  /** Every request lies between startNumber and the live edge plus one, audio up to the live edge, and
      never beyond the end of a static presentation. */
  lemma RequestsInWindow(r: Reader, i: Input, n: int)
    requires Sane(i.m)
    ensures Requested(Pass(r, i).video, n) ==>
              i.m.startNumber <= n <= LiveEdge(i) + 1 && (Total(i.m) > 0 ==> n <= Total(i.m))
    ensures Requested(Pass(r, i).audio, n) ==>
              i.m.startNumber <= n <= LiveEdge(i) && (Total(i.m) > 0 ==> n <= Total(i.m))
  {
    hide I32, Total, ClockEdge, LiveEdge, Oldest, VideoHigh;
    EdgeInWindow(i);
  }

  // ---------------------------------------------------------------------------
  // What the window means
  // ---------------------------------------------------------------------------

  lemma DivisionIs(a: nat, c: nat)
    requires c > 0
    ensures a / c * c <= a < (a / c + 1) * c
  {
  }

  lemma Multiples(m: int, n: int, c: int)
    requires m <= n && c > 0
    ensures m * c <= n * c
  {
    assert (n - m) * c >= 0;
  }

  lemma QuotientAtLeast(n: nat, a: nat, c: nat)
    requires c > 0
    ensures n <= a / c <==> n * c <= a
  {
    var q := a / c;
    DivisionIs(a, c);
    if n <= q { Multiples(n, q, c); } else { Multiples(q + 1, n, c); }
  }

  /** The clock stands at segment `n` or later if and only if segment `n` is complete: a segment's length
      has passed `n` times since the availability start. */
  lemma EdgeIsComplete(i: Input, n: nat)
    requires i.m.segUs > 0 && n > 0
    ensures n <= ClockEdge(i) <==> i.now >= i.m.availStartUs + n * i.m.segUs
  {
    var elapsed := i.now - i.m.availStartUs;
    Multiples(1, n, i.m.segUs);
    if elapsed > 0 { QuotientAtLeast(n, elapsed, i.m.segUs); }
  }

  /** `n` segments are all of a static presentation if and only if they last its duration. */
  lemma TotalCovers(m: Manifest, n: nat)
    requires m.segUs > 0 && m.isStatic && m.durationUs > 0
    ensures n >= Total(m) <==> n * m.segUs >= m.durationUs
  {
    var c := m.segUs;
    QuotientAtLeast(n + 1, m.durationUs + c - 1, c);
    assert (n + 1) * c == n * c + c;
  }

  /** The cast gives the number of the right range that differs by a multiple of 2^32. */
  lemma CastIs(x: int) returns (k: int)
    ensures -0x8000_0000 <= I32(x) < 0x8000_0000 && I32(x) == x + k * 0x1_0000_0000
  {
    k := -((x + 0x8000_0000) / 0x1_0000_0000);
  }

  lemma SegmentsCover(bufferUs: nat, segUs: int)
    requires segUs > 0
    ensures (Segments(bufferUs, segUs) - 1) * segUs < bufferUs <= Segments(bufferUs, segUs) * segUs
  {
    var n := Segments(bufferUs, segUs);
    DivisionIs(bufferUs + segUs - 1, segUs);
    assert (n - 1) * segUs == n * segUs - segUs && (n + 1) * segUs == n * segUs + segUs;
  }

  /** `from` is as far behind the live edge as the buffer target asks, and no further, within the window. */
  ghost predicate StartsBehind(i: Input, from: int, bufferUs: nat)
    requires i.m.segUs > 0
  {
    && from >= i.m.startNumber
    && (LiveEdge(i) - 2 - from) * i.m.segUs < bufferUs
    && (from > i.m.startNumber ==> (LiveEdge(i) - 1 - from) * i.m.segUs >= bufferUs)
  }

  lemma OldestIs(i: Input, bufferUs: nat)
    requires Sane(i.m)
    ensures StartsBehind(i, Oldest(i, bufferUs), bufferUs)
  {
    hide LiveEdge, Segments;
    var from: int, n: int := Oldest(i, bufferUs), Segments(bufferUs, i.m.segUs);
    SegmentsCover(bufferUs, i.m.segUs);
    Multiples(LiveEdge(i) - 2 - from, n - 1, i.m.segUs);
  }

  /** A reader that has delivered nothing starts, for video and for audio, as far behind the live edge as
      the buffer target asks: not a whole segment further, and no nearer unless the window begins there. */
  lemma FirstPassStarts(r: Reader, i: Input)
    requires Sane(i.m)
    ensures r.lastV < 0 ==> StartsBehind(i, Pass(r, i).video.from, i.videoBufferUs)
    ensures r.lastA < 0 && i.hasAudio ==> StartsBehind(i, Pass(r, i).audio.from, i.audioBufferUs)
  {
    EdgeInWindow(i);
    OldestIs(i, i.videoBufferUs);
    OldestIs(i, i.audioBufferUs);
    hide LiveEdge, Oldest, StartsBehind, VideoHigh, Total;
  }

  /** With every fetch succeeding one pass delivers audio up to the live edge. */
  lemma AudioFilled(lastA: int, i: Input)
    requires Sane(i.m) && i.hasAudio && lastA >= -1 && forall k :: i.audioOk(k)
    ensures AudioPass(lastA, i).0 == Max(lastA, LiveEdge(i))
  {
    EdgeInWindow(i);
    hide LiveEdge, Oldest, Total;
    var f := AudioPass(lastA, i).1;
    assert f.end <= f.hi ==> !i.audioOk(f.end);
  }

  // ---------------------------------------------------------------------------
  // When the live-edge reset fires
  // ---------------------------------------------------------------------------

  /** The last segment a pass can reach: one past the clock edge as the cast leaves it. */
  function Reach(i: Input): int
    requires i.m.segUs > 0
  {
    var e := Max(I32(ClockEdge(i)), i.m.startNumber) + 1;
    if Total(i.m) > 0 then Min(e, Total(i.m)) else e
  }

  lemma ReachIsHigh(i: Input)
    requires Sane(i.m)
    ensures VideoHigh(i) == Reach(i) >= i.m.startNumber
    ensures i.m.startNumber <= Oldest(i, i.videoBufferUs) <= Reach(i)
  {
    hide I32, ClockEdge, Total;
    EdgeInWindow(i);
  }

  /** The reset fires if and only if the reader is past what the clock and the manifest now reach. */
  lemma ResetIff(r: Reader, i: Input)
    requires Sane(i.m) && r.lastV >= -1
    ensures Pass(r, i).reset <==> r.lastV > Reach(i)
  {
    ReachIsHigh(i);
    hide Reach, VideoHigh, Oldest, AudioPass, Total;
  }

  /** So it fires for every reader more than one segment past startNumber once the clock edge wraps to a
      number no greater than that, and what was delivered is asked for again. */
  lemma WrappedEdgeResets(r: Reader, i: Input)
    requires Sane(i.m) && I32(ClockEdge(i)) <= i.m.startNumber && r.lastV > i.m.startNumber + 1
    ensures Pass(r, i).reset && Requested(Pass(r, i).video, i.m.startNumber)
  {
    hide I32, ClockEdge, Segments, AudioPass, Total;
    ResetIff(r, i);
  }

  // ---------------------------------------------------------------------------
  // Runs
  // ---------------------------------------------------------------------------

  /** `n` segments exist in the whole presentation; nothing beyond them is ever served. */
  ghost predicate Served(i: Input, n: int) {
    Sane(i.m) && i.m.startNumber <= n && forall k :: i.videoOk(k) ==> k <= n
  }

  /** What the passes reach never falls below what an earlier one reached of the content. */
  ghost predicate Steady(inputs: seq<Input>, n: int) {
    && (forall k :: 0 <= k < |inputs| ==> Served(inputs[k], n))
    && (forall j, k :: 0 <= j < k < |inputs| ==> Min(Reach(inputs[j]), n) <= Reach(inputs[k]))
  }

  /** The reader before pass `k`. */
  function After(inputs: seq<Input>, k: nat): Reader
    requires k <= |inputs| && forall j :: 0 <= j < |inputs| ==> inputs[j].m.segUs > 0
  {
    if k == 0 then Reader(-1, -1) else Pass(After(inputs, k - 1), inputs[k - 1]).next
  }

  /** A pass within reach does not reset, stays within reach, and takes up right after the last delivered
      segment or at startNumber. */
  lemma PassInReach(r: Reader, i: Input, n: int)
    requires Served(i, n) && -1 <= r.lastV <= n && r.lastV <= Reach(i)
    ensures var o := Pass(r, i);
            && !o.reset && r.lastV <= o.next.lastV <= Max(r.lastV, Min(Reach(i), n))
            && o.video.from
               == (if r.lastV < 0 then Oldest(i, i.videoBufferUs) else Max(r.lastV + 1, i.m.startNumber))
            && (r.lastV >= 0 || o.video.end > o.video.from ==> o.next.lastV == o.video.end - 1)
            && o.video.from >= 0 && o.video.from > r.lastV
  {
    ReachIsHigh(i);
    hide Reach, Total, LiveEdge, Oldest, VideoHigh, AudioPass;
    var o := Pass(r, i);
    if o.video.end > o.video.from {
      assert i.videoOk(o.video.end - 1);
    }
  }

  lemma {:induction false} RunInReach(inputs: seq<Input>, n: int, k: nat, l: nat)
    requires Steady(inputs, n) && k <= l < |inputs|
    ensures -1 <= After(inputs, k).lastV <= n && After(inputs, k).lastV <= Reach(inputs[l])
    decreases k
  {
    hide Pass, Reach;
    if k == 0 {
      ReachIsHigh(inputs[l]);
    } else {
      RunInReach(inputs, n, k - 1, l);
      RunInReach(inputs, n, k - 1, k - 1);
      PassInReach(After(inputs, k - 1), inputs[k - 1], n);
    }
  }

  /** In every pass of every steady run: the live-edge reset never fires, and what is delivered starts
      right after the last delivered segment, except for a jump to startNumber, and goes up by one. */
  lemma DeliveredInSequence(inputs: seq<Input>, n: int, k: nat)
    requires Steady(inputs, n) && k < |inputs|
    ensures var r, i := After(inputs, k), inputs[k];
            var o := Pass(r, i);
            && !o.reset
            && (r.lastV >= 0 ==>
                  o.video.from == Max(r.lastV + 1, i.m.startNumber) && After(inputs, k + 1).lastV == o.video.end - 1)
            && (forall s :: Delivered(o.video, s) ==> r.lastV < s <= After(inputs, k + 1).lastV)
  {
    hide Pass, Reach;
    RunInReach(inputs, n, k, k);
    PassInReach(After(inputs, k), inputs[k], n);
  }

  // ---------------------------------------------------------------------------
  // Steadiness is exactly what is needed
  // ---------------------------------------------------------------------------

  /** Exactly the segments of the content can be fetched, and the window does not begin past them. */
  ghost predicate Complete(inputs: seq<Input>, n: int) {
    forall k :: 0 <= k < |inputs| ==>
      && Served(inputs[k], n) && Oldest(inputs[k], inputs[k].videoBufferUs) <= n
      && forall s :: s <= n ==> inputs[k].videoOk(s)
  }

  lemma PassFills(r: Reader, i: Input, n: int)
    requires Served(i, n) && Oldest(i, i.videoBufferUs) <= n && (forall s :: s <= n ==> i.videoOk(s))
    requires r.lastV >= -1 && !Pass(r, i).reset
    ensures Pass(r, i).next.lastV >= Min(Reach(i), n) && Pass(r, i).next.lastV >= r.lastV
  {
    ReachIsHigh(i);
    hide Reach, Total, LiveEdge, Oldest, VideoHigh, AudioPass;
    var o := Pass(r, i);
    assert o.video.end <= o.video.hi ==> !i.videoOk(o.video.end);
  }

  lemma {:induction false} FilledSince(inputs: seq<Input>, n: int, j: nat, k: nat)
    requires Complete(inputs, n) && j < k <= |inputs|
    requires forall l :: 0 <= l < k ==> !Pass(After(inputs, l), inputs[l]).reset
    ensures After(inputs, k).lastV >= Min(Reach(inputs[j]), n)
    decreases k
  {
    hide Pass, Reach, Oldest;
    if j < k - 1 { FilledSince(inputs, n, j, k - 1); }
    NumberedFrom(inputs, n, k - 1);
    PassFills(After(inputs, k - 1), inputs[k - 1], n);
  }

  lemma {:induction false} NumberedFrom(inputs: seq<Input>, n: int, k: nat)
    requires Complete(inputs, n) && k <= |inputs|
    ensures After(inputs, k).lastV >= -1
  {
    if k > 0 {
      NumberedFrom(inputs, n, k - 1);
      ReachIsHigh(inputs[k - 1]);
      hide Reach, Total, LiveEdge, Oldest, VideoHigh, AudioPass;
    }
  }

  /** Over a presentation whose segments can all be fetched, no reset ever fires if and only if what the
      passes reach never falls below what an earlier one reached. */
  lemma NoResetIff(inputs: seq<Input>, n: int)
    requires Complete(inputs, n)
    ensures (forall k :: 0 <= k < |inputs| ==> !Pass(After(inputs, k), inputs[k]).reset) <==> Steady(inputs, n)
  {
    hide Pass, Reach, Oldest, After;
    if Steady(inputs, n) {
      forall k | 0 <= k < |inputs|
        ensures !Pass(After(inputs, k), inputs[k]).reset
      {
        DeliveredInSequence(inputs, n, k);
      }
    } else {
      var j, k :| 0 <= j < k < |inputs| && Min(Reach(inputs[j]), n) > Reach(inputs[k]);
      if forall l :: 0 <= l < |inputs| ==> !Pass(After(inputs, l), inputs[l]).reset {
        FilledSince(inputs, n, j, k);
        NumberedFrom(inputs, n, k);
        ResetIff(After(inputs, k), inputs[k]);
      }
    }
  }

  // ---------------------------------------------------------------------------
  // A monotone clock and manifest
  // ---------------------------------------------------------------------------

  /** The clock edge survives the cast. */
  predicate EdgeFits(i: Input)
    requires i.m.segUs > 0
  {
    ClockEdge(i) < 0x8000_0000
  }

  /** A static manifest knows the number of segments. */
  ghost predicate Honest(i: Input, n: int) {
    Served(i, n) && (i.m.isStatic ==> Total(i.m) == n > 0)
  }

  /** Neither clock nor manifest goes back. The availability start may be dropped, which reads as zero,
      when the presentation ends and its manifest turns static. */
  predicate Later(i: Input, j: Input) {
    && j.m.segUs == i.m.segUs && j.m.availStartUs <= i.m.availStartUs
    && i.now <= j.now && i.m.startNumber <= j.m.startNumber && (i.m.isStatic ==> j.m.isStatic)
  }

  ghost predicate Monotone(inputs: seq<Input>, n: int) {
    && (forall k :: 0 <= k < |inputs| ==> Honest(inputs[k], n))
    && (forall k :: 0 < k < |inputs| ==> Later(inputs[k - 1], inputs[k]))
  }

  function Raw(i: Input): int
    requires i.m.segUs > 0
  {
    Max(ClockEdge(i), i.m.startNumber)
  }

  lemma CastFits(x: int)
    requires 0 <= x < 0x8000_0000
    ensures I32(x) == x
  {
  }

  lemma QuotientNotNegative(a: int, c: int)
    requires a >= 0 && c > 0
    ensures a / c >= 0
  {
  }

  lemma DivMonotone(a: int, b: int, c: int)
    requires 0 <= a <= b && c > 0
    ensures a / c <= b / c
  {
    var p, q := a / c, b / c;
    assert a == p * c + a % c && b == q * c + b % c;
    assert (p - q) * c == p * c - q * c;
    if p > q {
      AtLeast(p - q, c);
    }
  }

  lemma TotalWhenDynamic(m: Manifest)
    requires m.segUs > 0 && !m.isStatic
    ensures Total(m) == 0
  {
  }

  lemma RawGrows(i: Input, j: Input)
    requires i.m.segUs > 0 && Later(i, j)
    ensures Raw(i) <= Raw(j)
  {
    var a, b := i.now - i.m.availStartUs, j.now - j.m.availStartUs;
    if a > 0 {
      DivMonotone(a, b, i.m.segUs);
    } else if b > 0 {
      QuotientNotNegative(b, j.m.segUs);
    }
  }

  lemma ReachAtLeast(i: Input, n: int)
    requires Honest(i, n) && EdgeFits(i)
    ensures Min(Raw(i) + 1, n) <= Reach(i) <= Raw(i) + 1
  {
    hide Total, I32;
    if i.now - i.m.availStartUs > 0 { QuotientNotNegative(i.now - i.m.availStartUs, i.m.segUs); }
    CastFits(ClockEdge(i));
    if !i.m.isStatic { TotalWhenDynamic(i.m); }
  }

  lemma {:induction false} RawGrowsAll(inputs: seq<Input>, n: int, j: nat, k: nat)
    requires Monotone(inputs, n) && j <= k < |inputs|
    ensures Raw(inputs[j]) <= Raw(inputs[k])
  {
    hide Raw, Later;
    if j < k {
      RawGrowsAll(inputs, n, j, k - 1);
      RawGrows(inputs[k - 1], inputs[k]);
    }
  }

  /** A monotone clock and manifest are steady as long as the clock edge survives the cast. */
  lemma MonotoneIsSteady(inputs: seq<Input>, n: int)
    requires Monotone(inputs, n) && forall k :: 0 <= k < |inputs| ==> EdgeFits(inputs[k])
    ensures Steady(inputs, n)
  {
    hide Raw, Later, EdgeFits, Reach, Total;
    forall j, k | 0 <= j < k < |inputs|
      ensures Min(Reach(inputs[j]), n) <= Reach(inputs[k])
    {
      RawGrowsAll(inputs, n, j, k);
      ReachAtLeast(inputs[j], n);
      ReachAtLeast(inputs[k], n);
    }
  }

  /** A live presentation of twenty half-second segments, and then its static manifest, which omits the
      availability start. */
  function LivePass(): Input {
    Input(Manifest(false, 0, 500_000, 1_699_999_990_000_000, 1), 1_700_000_000_000_000,
          10_000_000, 10_000_000, false, k => k <= 20, k => k <= 20)
  }

  function StaticPass(): Input {
    Input(Manifest(true, 10_000_000, 500_000, 0, 1), 1_700_000_000_000_000,
          10_000_000, 10_000_000, false, k => k <= 20, k => k <= 20)
  }

  lemma LiveWindow()
    ensures var i := LivePass();
            && Honest(i, 20) && Total(i.m) == 0 && LiveEdge(i) == 20 && VideoHigh(i) == 21
            && Oldest(i, i.videoBufferUs) == 1
  {
    var i := LivePass();
    assert ClockEdge(i) == 20 && I32(20) == 20;
  }

  lemma StaticWindow()
    ensures var i := StaticPass();
            && Honest(i, 20) && Total(i.m) == 20 && LiveEdge(i) == 1 && VideoHigh(i) == 2
            && Oldest(i, i.videoBufferUs) == 1
  {
    var i := StaticPass();
    assert ClockEdge(i) == 3_400_000_000 && I32(3_400_000_000) < 0;
  }

  /** Without that the switch itself resets: all twenty segments were delivered, the static manifest puts
      the clock edge beyond an `int`, and segments 1 and 2 are delivered again, and nothing after them. */
  lemma SwitchResets()
    ensures Monotone([LivePass(), StaticPass()], 20) && Complete([LivePass(), StaticPass()], 20)
    ensures var live := Pass(Reader(-1, -1), LivePass());
            var switched := Pass(live.next, StaticPass());
            && live.next.lastV == 20 && (forall s :: 1 <= s <= 20 ==> Delivered(live.video, s))
            && switched.reset && !switched.eos && switched.next.lastV == 2
            && (forall s :: Delivered(switched.video, s) <==> 1 <= s <= 2)
  {
    LiveWindow();
    StaticWindow();
    var a, b := LivePass(), StaticPass();
    FetchUpTo(1, 21, 20, a.videoOk);
    FetchUpTo(1, 2, 20, b.videoOk);
    hide LiveEdge, VideoHigh, Oldest, AudioPass, Total, FetchTo;
    assert Later(a, b);
  }

  lemma FetchUpTo(at: int, hi: int, n: int, ok: int -> bool)
    requires at <= Min(hi, n) + 1 && forall k :: ok(k) <==> k <= n
    ensures FetchTo(at, hi, ok) == Min(hi, n) + 1
  {
    var end := FetchTo(at, hi, ok);
    assert end <= hi ==> !ok(end);
    assert end > at ==> ok(end - 1);
  }

  /** Audio never asks for a segment at or below one already delivered, and takes up right after it or at
      startNumber. */
  lemma AudioForward(lastA: int, i: Input)
    requires Sane(i.m) && lastA >= -1
    ensures var (last, f) := AudioPass(lastA, i);
            && lastA <= last
            && (forall s :: Requested(f, s) ==> lastA < s)
            && (forall s :: Delivered(f, s) ==> lastA < s <= last)
            && (lastA >= 0 && f.from <= f.hi ==> f.from == Max(lastA + 1, i.m.startNumber))
  {
    hide LiveEdge, Oldest;
    EdgeInWindow(i);
  }

  lemma PassGrows(inputs: seq<Input>, n: int, k: nat)
    requires Steady(inputs, n) && k < |inputs| && After(inputs, k).lastA >= -1
    ensures After(inputs, k).lastV <= After(inputs, k + 1).lastV
    ensures After(inputs, k).lastA <= After(inputs, k + 1).lastA
    ensures forall s :: Delivered(Pass(After(inputs, k), inputs[k]).audio, s) ==>
                          After(inputs, k).lastA < s <= After(inputs, k + 1).lastA
  {
    var r, i := After(inputs, k), inputs[k];
    RunInReach(inputs, n, k, k);
    PassInReach(r, i, n);
    AudioForward(r.lastA, i);
    hide AudioPass, Oldest, VideoHigh, Total, Reach, Steady;
  }

  lemma {:induction false} LastNumbered(inputs: seq<Input>, n: int, k: nat)
    requires Steady(inputs, n) && k <= |inputs|
    ensures After(inputs, k).lastA >= -1
  {
    hide Pass, Reach, Steady;
    if k > 0 {
      LastNumbered(inputs, n, k - 1);
      PassGrows(inputs, n, k - 1);
    }
  }

  lemma {:induction false} LastGrows(inputs: seq<Input>, n: int, j: nat, k: nat)
    requires Steady(inputs, n) && j <= k <= |inputs|
    ensures After(inputs, j).lastV <= After(inputs, k).lastV
    ensures After(inputs, j).lastA <= After(inputs, k).lastA
  {
    hide Pass, After, Reach, Steady;
    if j < k {
      LastGrows(inputs, n, j, k - 1);
      LastNumbered(inputs, n, k - 1);
      PassGrows(inputs, n, k - 1);
    }
  }

  /** So over the whole run no segment, video or audio, is delivered twice and none out of order. */
  lemma NeverTwice(inputs: seq<Input>, n: int, j: nat, k: nat, s: int, t: int)
    requires Steady(inputs, n) && j < k < |inputs|
    ensures var before, now := Pass(After(inputs, j), inputs[j]), Pass(After(inputs, k), inputs[k]);
            && (Delivered(before.video, s) && Delivered(now.video, t) ==> s < t)
            && (Delivered(before.audio, s) && Delivered(now.audio, t) ==> s < t)
  {
    hide Pass, After;
    DeliveredInSequence(inputs, n, j);
    DeliveredInSequence(inputs, n, k);
    LastGrows(inputs, n, j + 1, k);
    LastNumbered(inputs, n, j);
    LastNumbered(inputs, n, k);
    PassGrows(inputs, n, j);
    PassGrows(inputs, n, k);
  }

  // ---------------------------------------------------------------------------
  // The end of a static presentation
  // ---------------------------------------------------------------------------

  lemma {:induction false} FetchesAll(at: int, hi: int, ok: int -> bool)
    requires at <= hi + 1 && forall k :: at <= k <= hi ==> ok(k)
    ensures FetchTo(at, hi, ok) == hi + 1
    decreases hi - at
  {
    if at <= hi { FetchesAll(at + 1, hi, ok); }
  }

  /** With every fetch succeeding, one pass delivers video up to the end of its window, also after a
      live-edge reset. */
  lemma WindowFilled(r: Reader, i: Input)
    requires Sane(i.m) && r.lastV >= -1
    requires forall k :: i.videoOk(k)
    ensures Pass(r, i).next.lastV == VideoHigh(i)
  {
    hide Total, LiveEdge, Oldest, AudioPass;
    EdgeInWindow(i);
    var o := Pass(r, i);
    FetchesAll(o.video.from, o.video.hi, i.videoOk);
  }

  /** The code's test for the end of the content fires one segment early. With every fetch succeeding it
      fires if and only if the live edge stands at the last segment but two or later; the last segment
      is delivered if and only if it stands at the last but one or later; so the session ends without
      the last segment exactly when the live edge stands at the last but two. */
  lemma EndReachedIff(r: Reader, i: Input)
    requires Sane(i.m) && i.m.isStatic && Total(i.m) > 0 && r.lastV >= -1
    requires forall k :: i.videoOk(k)
    ensures Pass(r, i).eos <==> LiveEdge(i) >= Total(i.m) - 2
    ensures Pass(r, i).next.lastV == Total(i.m) <==> LiveEdge(i) >= Total(i.m) - 1
    ensures Pass(r, i).eos && Pass(r, i).next.lastV < Total(i.m) <==> LiveEdge(i) == Total(i.m) - 2
    ensures Pass(r, i).eos <==> Max(I32(ClockEdge(i)), i.m.startNumber) >= Total(i.m) - 2
  {
    hide Total, Oldest, AudioPass, I32, ClockEdge;
    EdgeInWindow(i);
    WindowFilled(r, i);
  }

  /** Whatever the fetches do, the pass ends the session without the last segment if and only if
      everything it needs before the last one is there, and the last one lies beyond its window or
      cannot be fetched. */
  lemma EndedEarlyIff(r: Reader, i: Input)
    requires Sane(i.m) && i.m.isStatic && Total(i.m) > 0 && -1 <= r.lastV < Total(i.m)
    ensures var o := Pass(r, i);
            o.eos && o.next.lastV < Total(i.m) <==>
              && (forall k :: o.video.from <= k < Total(i.m) ==> i.videoOk(k))
              && VideoHigh(i) >= Total(i.m) - 1 && !(VideoHigh(i) == Total(i.m) && i.videoOk(Total(i.m)))
              && (r.lastV >= 0 || o.video.from < Total(i.m))
  {
    hide Total, LiveEdge, Oldest, VideoHigh, AudioPass;
    EdgeInWindow(i);
    var o := Pass(r, i);
    if forall k :: o.video.from <= k < Total(i.m) ==> i.videoOk(k) {
      assert o.video.end <= o.video.hi ==> !i.videoOk(o.video.end);
    }
  }

  /** Such a session: ten segments of a second, the clock at eight, and segment ten never asked for. */
  lemma EndedEarly()
    ensures var m := Manifest(true, 10_000_000, 1_000_000, 0, 1);
            var i := Input(m, 8_000_000, 1_000_000, 1_000_000, false, _ => true, _ => true);
            var o := Pass(Reader(-1, -1), i);
            Sane(m) && Total(m) == 10 && o.eos && o.next.lastV == 9 && !Requested(o.video, 10)
  {
    var m := Manifest(true, 10_000_000, 1_000_000, 0, 1);
    var i := Input(m, 8_000_000, 1_000_000, 1_000_000, false, _ => true, _ => true);
    assert Total(m) == 10 && ClockEdge(i) == 8 && LiveEdge(i) == 8;
    EndReachedIff(Reader(-1, -1), i);
    WindowFilled(Reader(-1, -1), i);
  }

  /** Audio is asked for up to the live edge only: with every audio fetch succeeding, the session ends
      without the last audio segment if and only if the live edge stands one or two before the last. */
  lemma AudioEndedEarlyIff(r: Reader, i: Input)
    requires Sane(i.m) && i.m.isStatic && Total(i.m) > 0 && r.lastV >= -1 && -1 <= r.lastA < Total(i.m)
    requires i.hasAudio && forall k :: i.videoOk(k) && i.audioOk(k)
    ensures Pass(r, i).eos && !Delivered(Pass(r, i).audio, Total(i.m))
            <==> Total(i.m) - 2 <= LiveEdge(i) <= Total(i.m) - 1
  {
    EndReachedIff(r, i);
    EdgeInWindow(i);
    hide Total, LiveEdge, Oldest, VideoHigh, FetchTo;
    var o := Pass(r, i);
    if o.audio.from <= o.audio.hi { FetchesAll(o.audio.from, o.audio.hi, i.audioOk); }
  }

  /** Once the clock is past the end, and its segment number fits an `int`, one pass is enough, and the
      last segment is delivered. */
  lemma EndReached(r: Reader, i: Input)
    requires Sane(i.m) && i.m.isStatic && Total(i.m) > 0 && r.lastV >= -1
    requires forall k :: i.videoOk(k)
    requires EdgeFits(i) && ClockEdge(i) >= Total(i.m)
    ensures Pass(r, i).eos && Pass(r, i).next.lastV == Total(i.m)
  {
    hide Total, Pass, ClockEdge;
    EndReachedIff(r, i);
    CastFits(ClockEdge(i));
  }

  /** But not in general: a static manifest may omit availabilityStartTime, the clock edge then counts
      from 1970, and with half-second segments it no longer fits an `int`. Here, ten seconds of content
      with every fetch succeeding, the pass ends after two of twenty segments. */
  lemma EndMissed(r: Reader)
    requires r == Reader(-1, -1)
    ensures var m := Manifest(true, 10_000_000, 500_000, 0, 1);
            var i := Input(m, 1_700_000_000_000_000, 1_000_000, 1_000_000, false, _ => true, _ => true);
            Sane(m) && Total(m) == 20 && ClockEdge(i) >= Total(m) && !Pass(r, i).eos && Pass(r, i).next.lastV == 2
  {
    var m := Manifest(true, 10_000_000, 500_000, 0, 1);
    var i := Input(m, 1_700_000_000_000_000, 1_000_000, 1_000_000, false, _ => true, _ => true);
    assert Total(m) == 20;
    assert ClockEdge(i) == 3_400_000_000 && I32(3_400_000_000) < 0;
    assert LiveEdge(i) == 1;
    assert VideoHigh(i) == 2;
    FetchesAll(1, 2, i.videoOk);
  }
}
