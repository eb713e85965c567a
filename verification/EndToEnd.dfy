/** The UDP media path as a whole: from the sender's access units to what the client delivers. */
module EndToEnd {
  import opened Words
  import opened Protocol
  import opened Fragment
  import opened JitterBuffer
  import opened JitterRuns
  import opened Sender
  import opened Client
  import opened Reassembly
  import NalUnits
  import NalRuns

  // ---------------------------------------------------------------------------
  // The network
  // ---------------------------------------------------------------------------

  /** Datagram `index` of the stream arrives; `now` and `later` are the client's clock readings. */
  datatype Arrival = Arrival(index: nat, now: u64, later: u64)

  /** Datagram `k` is among them. */
  ghost predicate Arrives(arrivals: seq<Arrival>, k: nat) {
    exists i :: 0 <= i < |arrivals| && arrivals[i].index == k
  }

  /** Packets may arrive repeatedly, but not those of keyframes. */
  ghost predicate KeyframesOnce(arrivals: seq<Arrival>, ps: seq<Packet>) {
    && (forall i :: 0 <= i < |arrivals| ==> arrivals[i].index < |ps|)
    && (forall i, j :: 0 <= i < j < |arrivals| && arrivals[i].index == arrivals[j].index ==>
                         !HasFlag(ps[arrivals[i].index].flags, FLAG_KEYFRAME))
  }

  /** Every packet arrives at least once, in any order, those of keyframes exactly once. */
  ghost predicate AllArrive(arrivals: seq<Arrival>, ps: seq<Packet>) {
    KeyframesOnce(arrivals, ps) && forall k: nat :: k < |ps| ==> Arrives(arrivals, k)
  }

  /** Every one of `n` datagrams arrives exactly once, in any order. */
  ghost predicate Permutation(arrivals: seq<Arrival>, n: nat) {
    && |arrivals| == n
    && (forall i :: 0 <= i < n ==> arrivals[i].index < n)
    && (forall i, j :: 0 <= i < j < n ==> arrivals[i].index != arrivals[j].index)
  }

  function ReceiveAll(b: Buffer, ps: seq<Packet>, arrivals: seq<Arrival>): Buffer
    requires forall i :: 0 <= i < |ps| ==> |ps[i].payload| <= CHUNK + 4
    requires forall i :: 0 <= i < |arrivals| ==> arrivals[i].index < |ps|
  {
    if arrivals == [] then b
    else
      var n := |arrivals| - 1;
      Receive(ReceiveAll(b, ps, arrivals[..n]), Datagram(ps[arrivals[n].index]), arrivals[n].now, arrivals[n].later)
  }

  function Arrived(p: Packet, now: u64): Item {
    Item(p.seqNo, p.tsUs, STREAM_VIDEO, p.flags, p.payload, now)
  }

  /** A datagram off the wire becomes exactly one push of what was sent. */
  lemma WireTransparent(b: Buffer, p: Packet, now: u64, later: u64)
    requires |p.payload| <= CHUNK + 4
    ensures Decode(Datagram(p)).Accepted?
    ensures Push(b, Arrived(p, now)).1 == Ok || !HasFlag(p.flags, FLAG_KEYFRAME) ==>
              Receive(b, Datagram(p), now, later) == Push(b, Arrived(p, now)).0
  {
    hide Frame, Push, HasFlag;
    DecodeOfEncoded(VideoHeader(p.flags, |p.payload|, p.seqNo, p.tsUs), p.payload, []);
    assert Datagram(p) + [] == Datagram(p);
  }

  // ---------------------------------------------------------------------------
  // All datagrams fit the buffer
  // ---------------------------------------------------------------------------

  lemma CmpPlus(first: u32, i: nat, j: nat)
    requires i < MAX_SLOTS && j < MAX_SLOTS
    ensures SeqCmp(Plus(first, i), Plus(first, j)) == i - j
    ensures Off(Plus(first, i), first) == i
  {
    PlusIs(first, i);
    PlusIs(first, j);
    hide Plus;
  }

  lemma PlusIs(a: u32, n: nat)
    requires n < TWO32
    ensures Plus(a, n) == if a + n < TWO32 then a + n else a + n - TWO32
  {
  }

  /** The buffer after some of the datagrams have arrived. */
  ghost predicate Holding(b: Buffer, ps: seq<Packet>, arrivals: seq<Arrival>, delay: u64)
    requires forall i :: 0 <= i < |arrivals| ==> arrivals[i].index < |ps|
  {
    && Unique(b.slots) && |b.slots| == MAX_SLOTS && b.targetDelay == delay
    && b.pushed == |arrivals| == |Items(b.slots)|
    && (forall it :: it in Items(b.slots) ==> IsArrival(it, ps, arrivals))
    && (forall i :: 0 <= i < |arrivals| ==> Arrived(ps[arrivals[i].index], arrivals[i].now) in Items(b.slots))
    && (arrivals != [] ==> b.nextSeq == ps[arrivals[0].index].seqNo)
  }

  ghost predicate IsArrival(it: Item, ps: seq<Packet>, arrivals: seq<Arrival>)
    requires forall i :: 0 <= i < |arrivals| ==> arrivals[i].index < |ps|
  {
    exists i :: 0 <= i < |arrivals| && it == Arrived(ps[arrivals[i].index], arrivals[i].now)
  }

  lemma ArrivalAccepted(b: Buffer, ps: seq<Packet>, first: u32, arrivals: seq<Arrival>, delay: u64)
    requires Numbered(ps, first) && |ps| <= MAX_SLOTS && arrivals != []
    requires |arrivals| <= |ps| && forall i :: 0 <= i < |arrivals| ==> arrivals[i].index < |ps|
    requires forall i, j :: 0 <= i < j < |arrivals| ==> arrivals[i].index != arrivals[j].index
    requires Holding(b, ps, arrivals[..|arrivals| - 1], delay)
    ensures var a := arrivals[|arrivals| - 1];
            Push(b, Arrived(ps[a.index], a.now)).1 == Ok
  {
    hide SeqCmp, Plus, Items;
    var n := |arrivals| - 1;
    var front, a := arrivals[..n], arrivals[n];
    var it := Arrived(ps[a.index], a.now);
    var k := FindSeq(b.slots, it.seqNo);
    if k < |b.slots| {
      InSlot(b.slots, k);
      assert IsArrival(b.slots[k].value, ps, front);
      var i :| 0 <= i < |front| && b.slots[k].value == Arrived(ps[front[i].index], front[i].now);
      CmpPlus(first, a.index, 0);
      CmpPlus(first, front[i].index, 0);
      assert false;
    }
    if FindFree(b.slots) == |b.slots| {
      FullCount(b.slots);
      assert false;
    }
    CmpPlus(first, a.index, if n > 0 then arrivals[0].index else a.index);
  }

  lemma InSlot(slots: Slots, k: nat)
    requires k < |slots| && slots[k].Some?
    ensures slots[k].value in Items(slots)
  {
  }

  lemma ArrivalHeld(b: Buffer, ps: seq<Packet>, arrivals: seq<Arrival>, delay: u64)
    requires arrivals != [] && forall i :: 0 <= i < |arrivals| ==> arrivals[i].index < |ps|
    requires forall i :: 0 <= i < |ps| ==> |ps[i].payload| <= CHUNK + 4
    requires Holding(b, ps, arrivals[..|arrivals| - 1], delay)
    requires var a := arrivals[|arrivals| - 1]; Push(b, Arrived(ps[a.index], a.now)).1 == Ok
    ensures var a := arrivals[|arrivals| - 1]; Holding(Push(b, Arrived(ps[a.index], a.now)).0, ps, arrivals, delay)
  {
    hide SeqCmp, Items;
    var n := |arrivals| - 1;
    var it := Arrived(ps[arrivals[n].index], arrivals[n].now);
    ItemsAdded(b.slots, FindFree(b.slots), Clip(it));
    var c := Push(b, it).0;
    forall x | x in Items(c.slots)
      ensures IsArrival(x, ps, arrivals)
    {
      if x in Items(b.slots) {
        assert IsArrival(x, ps, arrivals[..n]);
        var i :| 0 <= i < n && x == Arrived(ps[arrivals[..n][i].index], arrivals[..n][i].now);
        assert arrivals[i] == arrivals[..n][i];
      }
    }
    forall i | 0 <= i < |arrivals|
      ensures Arrived(ps[arrivals[i].index], arrivals[i].now) in Items(c.slots)
    {
      if i < n { assert arrivals[i] == arrivals[..n][i]; }
    }
  }

  /** The arrivals without the repetitions. */
  function FirstArrivals(arrivals: seq<Arrival>): (r: seq<Arrival>)
    ensures |r| <= |arrivals|
  {
    if arrivals == [] then []
    else
      var n := |arrivals| - 1;
      var front := FirstArrivals(arrivals[..n]);
      if Repeated(front, arrivals[n]) then front else front + [arrivals[n]]
  }

  predicate Repeated(front: seq<Arrival>, a: Arrival) {
    exists i :: 0 <= i < |front| && front[i].index == a.index
  }

  lemma {:induction false} FirstArrivalsFacts(arrivals: seq<Arrival>)
    ensures var f := FirstArrivals(arrivals);
            && (forall a :: a in f ==> a in arrivals)
            && (forall i, j :: 0 <= i < j < |f| ==> f[i].index != f[j].index)
            && (forall a :: a in arrivals ==> Repeated(f, a))
  {
    if arrivals != [] {
      var n := |arrivals| - 1;
      FirstArrivalsFacts(arrivals[..n]);
      var front, f := FirstArrivals(arrivals[..n]), FirstArrivals(arrivals);
      assert arrivals == arrivals[..n] + [arrivals[n]];
      forall a | a in arrivals
        ensures Repeated(f, a)
      {
        if a in arrivals[..n] {
          var i :| 0 <= i < |front| && front[i].index == a.index;
          assert f[i] == front[i];
        } else if !Repeated(front, a) {
          assert f[|front|] == a;
        }
      }
    }
  }

  /** A repeated packet that is no keyframe's changes nothing but the count of duplicates. */
  lemma RepetitionIgnored(b: Buffer, ps: seq<Packet>, front: seq<Arrival>, a: Arrival, delay: u64)
    requires forall i :: 0 <= i < |front| ==> front[i].index < |ps|
    requires Holding(b, ps, front, delay) && Repeated(front, a)
    requires a.index < |ps| && |ps[a.index].payload| <= CHUNK + 4 && !HasFlag(ps[a.index].flags, FLAG_KEYFRAME)
    ensures Holding(Receive(b, Datagram(ps[a.index]), a.now, a.later), ps, front, delay)
  {
    hide SeqCmp, HasFlag, Receive, Datagram, Unique;
    var p := ps[a.index];
    WireTransparent(b, p, a.now, a.later);
    var i :| 0 <= i < |front| && front[i].index == a.index;
    var held := Arrived(ps[front[i].index], front[i].now);
    assert held in Items(b.slots);
    var k :| 0 <= k < |b.slots| && b.slots[k].Some? && b.slots[k].value == held;
    assert FindSeq(b.slots, p.seqNo) < |b.slots|;
    var c := Push(b, Arrived(p, a.now)).0;
    assert c == b.(dupe := b.dupe + 1);
  }

  /** The `index`es of a sequence of arrivals. */
  function Indices(arrivals: seq<Arrival>): (r: seq<nat>)
    ensures |r| == |arrivals| && forall i :: 0 <= i < |r| ==> r[i] == arrivals[i].index
  {
    seq(|arrivals|, i requires 0 <= i < |arrivals| => arrivals[i].index)
  }

  lemma NothingArrived(ps: seq<Packet>, delay: u64)
    requires forall i :: 0 <= i < |ps| ==> |ps[i].payload| <= CHUNK + 4
    ensures FirstArrivals([]) == [] && Holding(ReceiveAll(Empty(0, delay), ps, []), ps, [], delay)
  {
    EmptyItems(0, delay);
  }

  lemma NextArrival(arrivals: seq<Arrival>)
    requires arrivals != []
    ensures var n := |arrivals| - 1;
            var front := FirstArrivals(arrivals[..n]);
            FirstArrivals(arrivals) == if Repeated(front, arrivals[n]) then front else front + [arrivals[n]]
  {
    hide Repeated;
  }

  lemma NextReceived(b: Buffer, ps: seq<Packet>, arrivals: seq<Arrival>)
    requires forall i :: 0 <= i < |ps| ==> |ps[i].payload| <= CHUNK + 4
    requires arrivals != [] && forall i :: 0 <= i < |arrivals| ==> arrivals[i].index < |ps|
    ensures var n := |arrivals| - 1;
            var a, before := arrivals[n], ReceiveAll(b, ps, arrivals[..n]);
            ReceiveAll(b, ps, arrivals) == Receive(before, Datagram(ps[a.index]), a.now, a.later)
  {
    hide Receive, Datagram;
  }

  /** Up to 256 packets are all accepted, in any order, and repetitions do no harm. */
  lemma {:induction false} AllAccepted(ps: seq<Packet>, first: u32, arrivals: seq<Arrival>, delay: u64)
    requires Numbered(ps, first) && |ps| <= MAX_SLOTS && KeyframesOnce(arrivals, ps)
    ensures forall i :: 0 <= i < |FirstArrivals(arrivals)| ==> FirstArrivals(arrivals)[i].index < |ps|
    ensures Holding(ReceiveAll(Empty(0, delay), ps, arrivals), ps, FirstArrivals(arrivals), delay)
  {
    hide Holding, Receive, HasFlag, Datagram, FirstArrivals, ReceiveAll, Repeated, Empty, Plus;
    if arrivals == [] {
      NothingArrived(ps, delay);
    } else {
      var n := |arrivals| - 1;
      var a := arrivals[n];
      AllAccepted(ps, first, arrivals[..n], delay);
      var b := ReceiveAll(Empty(0, delay), ps, arrivals[..n]);
      var front := FirstArrivals(arrivals[..n]);
      NextArrival(arrivals);
      NextReceived(Empty(0, delay), ps, arrivals);
      FirstArrivalsFacts(arrivals);
      if Repeated(front, a) {
        RepeatedKey(arrivals, ps);
        RepetitionIgnored(b, ps, front, a, delay);
      } else {
        NewArrival(b, ps, first, front, a, delay);
      }
    }
  }

  lemma NewArrival(b: Buffer, ps: seq<Packet>, first: u32, front: seq<Arrival>, a: Arrival, delay: u64)
    requires Numbered(ps, first) && |ps| <= MAX_SLOTS && a.index < |ps|
    requires forall i :: 0 <= i < |front| ==> front[i].index < |ps|
    requires forall i, j :: 0 <= i < j < |front + [a]| ==> (front + [a])[i].index != (front + [a])[j].index
    requires Holding(b, ps, front, delay)
    ensures Holding(Receive(b, Datagram(ps[a.index]), a.now, a.later), ps, front + [a], delay)
  {
    hide Holding, Receive, HasFlag, Datagram, Push;
    var more := front + [a];
    assert more[..|front|] == front;
    CountBelow(Indices(more), |ps|);
    ArrivalAccepted(b, ps, first, more, delay);
    ArrivalHeld(b, ps, more, delay);
    WireTransparent(b, ps[a.index], a.now, a.later);
  }

  lemma RepeatedKey(arrivals: seq<Arrival>, ps: seq<Packet>)
    requires arrivals != [] && KeyframesOnce(arrivals, ps)
    requires Repeated(FirstArrivals(arrivals[..|arrivals| - 1]), arrivals[|arrivals| - 1])
    ensures !HasFlag(ps[arrivals[|arrivals| - 1].index].flags, FLAG_KEYFRAME)
  {
    hide HasFlag;
    var n := |arrivals| - 1;
    FirstArrivalsFacts(arrivals[..n]);
    var front := FirstArrivals(arrivals[..n]);
    var i :| 0 <= i < |front| && front[i].index == arrivals[n].index;
    assert front[i] in arrivals[..n];
    var j :| 0 <= j < n && arrivals[j] == front[i];
  }

  lemma FirstArrivalsPermute(arrivals: seq<Arrival>, ps: seq<Packet>)
    requires AllArrive(arrivals, ps)
    ensures Permutation(FirstArrivals(arrivals), |ps|)
  {
    hide HasFlag;
    var f := FirstArrivals(arrivals);
    FirstArrivalsFacts(arrivals);
    forall i | 0 <= i < |f|
      ensures f[i].index < |ps|
    {
      assert f[i] in arrivals;
    }
    forall r: nat | r < |ps|
      ensures r in Indices(f)
    {
      assert Arrives(arrivals, r);
      var i :| 0 <= i < |arrivals| && arrivals[i].index == r;
      assert arrivals[i] in arrivals;
      var k :| 0 <= k < |f| && f[k].index == arrivals[i].index;
      assert Indices(f)[k] == r;
    }
    CountBelow(Indices(f), |ps|);
  }

  // ---------------------------------------------------------------------------
  // Draining in order
  // ---------------------------------------------------------------------------

  /** A strictly increasing sequence of `n` numbers below `n` counts them all. */
  lemma {:induction false} Squeezed(f: seq<nat>, n: nat, t: nat)
    requires |f| == n && t < n && forall i :: 0 <= i < n ==> f[i] < n
    requires forall i, j :: 0 <= i < j < n ==> f[i] < f[j]
    ensures f[t] == t
  {
    CountsUp(f, t);
    AtMost(f, n, t);
  }

  lemma {:induction false} CountsUp(f: seq<nat>, t: nat)
    requires t < |f| && forall i, j :: 0 <= i < j < |f| ==> f[i] < f[j]
    ensures f[t] >= t
  {
    if t > 0 { CountsUp(f, t - 1); }
  }

  lemma {:induction false} AtMost(f: seq<nat>, n: nat, t: nat)
    requires t < |f| == n && forall i :: 0 <= i < n ==> f[i] < n
    requires forall i, j :: 0 <= i < j < n ==> f[i] < f[j]
    ensures f[t] <= t
    decreases n - t
  {
    if t < n - 1 { AtMost(f, n, t + 1); }
  }

  lemma DrainedInOrder(b: Buffer, ps: seq<Packet>, first: u32, arrivals: seq<Arrival>, delay: u64, clock: nat -> u64)
    requires Numbered(ps, first) && |ps| <= MAX_SLOTS && Permutation(arrivals, |ps|)
    requires Holding(b, ps, arrivals, delay) && AllAged(b, clock, 0)
    ensures PacketsOf(Drain(b, clock, 0).0) == ps
  {
    hide Drain, AllAged, Off, Items, Holding, Numbered;
    HoldingFacts(b, ps, first, arrivals, delay);
    DrainPlaysAll(b, clock, 0, first);
    HoldingCount(b, ps, arrivals, delay);
    var items := Drain(b, clock, 0).0;
    forall i | 0 <= i < |items|
      ensures Placed(items[i], ps, first)
    {
      assert items[i] in items;
      ItemPlaced(b, items[i], ps, first, arrivals, delay);
    }
    SortedIsWhole(items, ps, first);
  }

  /** The item is the packet its offset from the first sequence number says. */
  ghost predicate Placed(it: Item, ps: seq<Packet>, first: u32) {
    Off(it.seqNo, first) < |ps| && PacketOf(it) == ps[Off(it.seqNo, first)]
  }

  lemma ItemPlaced(b: Buffer, it: Item, ps: seq<Packet>, first: u32, arrivals: seq<Arrival>, delay: u64)
    requires Numbered(ps, first) && |ps| <= MAX_SLOTS && Permutation(arrivals, |ps|)
    requires Holding(b, ps, arrivals, delay) && it in Items(b.slots)
    ensures Placed(it, ps, first)
  {
    hide Items, Off, Plus;
    assert IsArrival(it, ps, arrivals);
    var i :| 0 <= i < |arrivals| && it == Arrived(ps[arrivals[i].index], arrivals[i].now);
    CmpPlus(first, arrivals[i].index, 0);
  }

  lemma HoldingCount(b: Buffer, ps: seq<Packet>, arrivals: seq<Arrival>, delay: u64)
    requires forall i :: 0 <= i < |arrivals| ==> arrivals[i].index < |ps|
    requires Holding(b, ps, arrivals, delay)
    ensures |Items(b.slots)| == |arrivals|
  {
  }

  lemma SortedIsWhole(items: seq<Item>, ps: seq<Packet>, first: u32)
    requires |items| == |ps| && SortedFrom(first, items)
    requires forall i :: 0 <= i < |items| ==> Placed(items[i], ps, first)
    ensures PacketsOf(items) == ps
  {
    hide Off;
    var offsets: seq<nat> := seq(|items|, i requires 0 <= i < |items| => Off(items[i].seqNo, first));
    forall i | 0 <= i < |items|
      ensures offsets[i] < |ps|
    {
      assert Placed(items[i], ps, first);
    }
    forall t | 0 <= t < |items|
      ensures PacketOf(items[t]) == ps[t]
    {
      Squeezed(offsets, |ps|, t);
      assert Placed(items[t], ps, first);
    }
  }

  // ---------------------------------------------------------------------------
  // Main theorems
  // ---------------------------------------------------------------------------

  ghost predicate AgedArrivals(arrivals: seq<Arrival>, clock: nat -> u64, delay: u64) {
    forall i, k: nat :: 0 <= i < |arrivals| ==> Age(clock(k), arrivals[i].now) >= delay
  }

  lemma AgedFromArrivals(b: Buffer, ps: seq<Packet>, arrivals: seq<Arrival>, delay: u64, clock: nat -> u64)
    requires forall i :: 0 <= i < |arrivals| ==> arrivals[i].index < |ps|
    requires Holding(b, ps, arrivals, delay) && AgedArrivals(arrivals, clock, delay)
    ensures AllAged(b, clock, 0)
  {
    hide Items, Age;
    forall j: nat, it | it in Items(b.slots)
      ensures Age(clock(j), it.recvUs) >= b.targetDelay
    {
      assert IsArrival(it, ps, arrivals);
      var i :| 0 <= i < |arrivals| && it == Arrived(ps[arrivals[i].index], arrivals[i].now);
    }
  }

  /** No loss, any order, any duplication of packets other than keyframes', at most 256 datagrams, any
      starting sequence number (so also across the 32-bit wrap): draining after the delay delivers
      exactly the sent access units, byte for byte and in order. */
  lemma Delivered(aus: seq<Au>, first: u32, arrivals: seq<Arrival>, delay: u64, clock: nat -> u64)
    requires |Stream(aus, first)| <= MAX_SLOTS && AllArrive(arrivals, Stream(aus, first))
    requires AgedArrivals(arrivals, clock, delay)
    ensures var b := ReceiveAll(Empty(0, delay), Stream(aus, first), arrivals);
            && Unique(b.slots)
            && PlayOut(RESET, [], Drain(b, clock, 0).0).1 == seq(|aus|, i requires 0 <= i < |aus| => aus[i].data)
            && Items(Drain(b, clock, 0).1.slots) == {}
  {
    hide Drain, AllAged, HandleAll, Holding, Items, Unique, FirstArrivals, HasFlag, Stream;
    var ps := Stream(aus, first);
    StreamNumbered(aus, first);
    AllAccepted(ps, first, arrivals, delay);
    FirstArrivalsPermute(arrivals, ps);
    FirstArrivalsFacts(arrivals);
    var b, f := ReceiveAll(Empty(0, delay), ps, arrivals), FirstArrivals(arrivals);
    assert forall i :: 0 <= i < |f| ==> f[i] in arrivals;
    AgedFromArrivals(b, ps, f, delay, clock);
    HoldingFacts(b, ps, first, f, delay);
    DrainedInOrder(b, ps, first, f, delay, clock);
    DrainPlaysAll(b, clock, 0, first);
    StreamDelivered(RESET, aus, first);
    AllFit(aus, first);
    assert [] + HandleAll(RESET, ps).1 == HandleAll(RESET, ps).1;
  }

  /** These are the access units the sender cut out of its input, with any send times. */
  ghost predicate Carries(aus: seq<Au>, outs: seq<NalUnits.Output>) {
    |aus| == |outs| && forall i :: 0 <= i < |aus| ==> aus[i].data == outs[i].au && aus[i].key == outs[i].key
  }

  /** From the encoder's byte stream to the client: however the stream is cut into reads and in whatever
      order its datagrams arrive, the client delivers exactly the access units of the whole stream. */
  lemma StreamToClient(
    chunks: seq<seq<Byte>>, aus: seq<Au>, first: u32, arrivals: seq<Arrival>, delay: u64, clock: nat -> u64)
    requires NalRuns.NeverFull(Concat(chunks))
    requires Carries(aus, NalRuns.CappedReads(true, NalUnits.FRESH, [], chunks).outs)
    requires |Stream(aus, first)| <= MAX_SLOTS && AllArrive(arrivals, Stream(aus, first))
    requires AgedArrivals(arrivals, clock, delay)
    ensures var b := ReceiveAll(Empty(0, delay), Stream(aus, first), arrivals);
            var outs := NalUnits.Extract(NalUnits.FRESH, Concat(chunks)).outs;
            && Unique(b.slots)
            && PlayOut(RESET, [], Drain(b, clock, 0).0).1 == seq(|outs|, i requires 0 <= i < |outs| => outs[i].au)
  {
    hide Drain, PlayOut, ReceiveAll, Stream, Unique, AgedArrivals, NalUnits.Extract, NalRuns.CappedReads;
    NalRuns.CappedReadsDoNotMatter(true, NalUnits.FRESH, chunks);
    Delivered(aus, first, arrivals, delay, clock);
    var outs := NalUnits.Extract(NalUnits.FRESH, Concat(chunks)).outs;
    assert seq(|aus|, i requires 0 <= i < |aus| => aus[i].data)
        == seq(|outs|, i requires 0 <= i < |outs| => outs[i].au);
  }

  /** Such access units always exist: none exceeds the sender's buffer. */
  lemma StreamAusBounded(stream: seq<Byte>)
    ensures forall o :: o in NalUnits.Extract(NalUnits.FRESH, stream).outs ==> |o.au| <= NalUnits.AU_CAP
  {
    NalRuns.ExtractIsFeedList(NalUnits.FRESH, stream);
    NalRuns.OutputsBounded(NalUnits.FRESH, NalRuns.Nals(stream));
  }

  lemma HoldingFacts(b: Buffer, ps: seq<Packet>, first: u32, arrivals: seq<Arrival>, delay: u64)
    requires Numbered(ps, first) && |ps| <= MAX_SLOTS && Permutation(arrivals, |ps|)
    requires Holding(b, ps, arrivals, delay)
    ensures Unique(b.slots) && Spans(b.slots, first)
  {
    hide Items, Off, Plus;
    forall it | it in Items(b.slots)
      ensures Off(it.seqNo, first) < HALF
    {
      assert IsArrival(it, ps, arrivals);
      var i :| 0 <= i < |arrivals| && it == Arrived(ps[arrivals[i].index], arrivals[i].now);
      CmpPlus(first, arrivals[i].index, 0);
    }
  }

  /** 256 datagrams of 1400 bytes always fit the client's access-unit buffer. */
  lemma {:induction false} AllFit(aus: seq<Au>, first: u32)
    requires |Stream(aus, first)| <= MAX_SLOTS
    ensures AllDeliverable(aus) == seq(|aus|, i requires 0 <= i < |aus| => aus[i].data)
    decreases |aus|
  {
    if aus != [] {
      AllFit(aus[1..], Plus(first, PieceCount(aus[0])));
      assert |aus[0].data| <= PieceCount(aus[0]) * CHUNK;
      assert |aus[0].data| <= AU_MAX;
    }
  }

  // ---------------------------------------------------------------------------
  // Streams of any length, arrivals and drains interleaved
  // ---------------------------------------------------------------------------

  /** The pushed item carries a packet of the stream. */
  ghost predicate Sent(ps: seq<Packet>, it: Item) {
    exists i :: 0 <= i < |ps| && PacketOf(it) == ps[i]
  }

  ghost predicate AllSent(ps: seq<Packet>, r: Run) {
    && (forall it :: it in Items(r.b.slots) ==> Sent(ps, it))
    && (forall i :: 0 <= i < |r.log| && r.log[i].Played? ==> Sent(ps, r.log[i].it))
  }

  ghost predicate PushesSent(ps: seq<Packet>, ops: seq<Op>) {
    forall i :: 0 <= i < |ops| && ops[i].DoPush? ==> Sent(ps, ops[i].it)
  }

  lemma StepSent(ps: seq<Packet>, r: Run, op: Op)
    requires forall i :: 0 <= i < |ps| ==> |ps[i].payload| <= CHUNK + 4
    requires AllSent(ps, r) && Unique(r.b.slots) && (op.DoPush? ==> Sent(ps, op.it))
    ensures AllSent(ps, Step(r, op))
  {
    hide Items, Unique, Plus, SeqCmp;
    match op
    case DoPush(it) =>
      if Push(r.b, it).1 == Ok {
        ItemsAdded(r.b.slots, FindFree(r.b.slots), Clip(it));
      }
    case DoPeek(now) => PeekKeepsRest(r.b, now);
    case DoConsume =>
      var k := FindSeq(r.b.slots, r.b.nextSeq);
      if k < |r.b.slots| {
        ItemsRemoved(r.b.slots, k);
      }
  }

  lemma {:induction false} RunSent(ps: seq<Packet>, delay: u64, ops: seq<Op>)
    requires forall i :: 0 <= i < |ps| ==> |ps[i].payload| <= CHUNK + 4
    requires PushesSent(ps, ops)
    ensures AllSent(ps, Steps(Start(delay), ops))
  {
    if ops == [] {
      EmptyItems(0, delay);
    } else {
      hide Step, AllSent;
      var n := |ops| - 1;
      RunSent(ps, delay, ops[..n]);
      RunBalanced(delay, ops[..n]);
      StepSent(ps, Steps(Start(delay), ops[..n]), ops[n]);
    }
  }

  lemma {:induction false} PlayedSuffices(log: seq<Passed>)
    ensures |PlayedIn(log)| <= |log|
    ensures |PlayedIn(log)| == |log| ==>
              forall i :: 0 <= i < |log| ==> log[i].Played? && PlayedIn(log)[i] == log[i].it
  {
    if log != [] { PlayedSuffices(log[..|log| - 1]); }
  }

  /** In a forward-only run of pushes of a stream of fewer than 2^32 packets, starting with the first one and
      with nothing declared lost, what has been played is a prefix of the stream. */
  lemma PlayedIsPrefix(ps: seq<Packet>, first: u32, delay: u64, ops: seq<Op>)
    requires Numbered(ps, first) && |ps| < TWO32 && PushesSent(ps, ops)
    requires Forward(Start(delay), ops)
    requires var r := Steps(Start(delay), ops); r.b.gaps == 0 && (r.b.pushed > 0 ==> r.base == first)
    ensures var played := PlayedIn(Steps(Start(delay), ops).log);
            |played| <= |ps| && PacketsOf(played) == ps[..|played|]
  {
    hide Items, Unique, Plus, Step, Steps, Forward, PlayedIn, Ahead;
    var r := Steps(Start(delay), ops);
    ForwardRunMonotone(delay, ops);
    RunSent(ps, delay, ops);
    PlayedSuffices(r.log);
    if r.b.played > 0 {
      forall i | 0 <= i < |r.log|
        ensures i < |ps| && PacketOf(r.log[i].it) == ps[i]
      {
        PlayedAt(ps, first, r, i);
      }
      assert PacketOf(r.log[|r.log| - 1].it) == ps[|r.log| - 1];
    }
  }

  lemma {:induction false} PlayedAt(ps: seq<Packet>, first: u32, r: Run, i: nat)
    requires Numbered(ps, first) && |ps| < TWO32 && AllSent(ps, r) && InSequence(r) && r.base == first
    requires i < |r.log| && forall k :: 0 <= k < |r.log| ==> r.log[k].Played?
    ensures i < |ps| && PacketOf(r.log[i].it) == ps[i]
  {
    hide Items, Plus;
    if i > 0 {
      PlayedAt(ps, first, r, i - 1);
    }
    assert Sent(ps, r.log[i].it);
    var m :| 0 <= m < |ps| && PacketOf(r.log[i].it) == ps[m];
    assert PassedSeq(r.log[i]) == Plus(first, i) && ps[m].seqNo == Plus(first, m);
    SameNumber(first, i, m);
  }
}
