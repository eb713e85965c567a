/** Whole runs of the client: datagrams arriving and drains, interleaved in any way. */
module ClientRuns {
  import opened Words
  import opened Protocol
  import opened Fragment
  import opened JitterBuffer
  import opened JitterRuns
  import opened Sender
  import opened Client
  import opened Reassembly
  import opened Lossy
  import opened EndToEnd

  // ---------------------------------------------------------------------------
  // Runs
  // ---------------------------------------------------------------------------

  datatype ClientOp = Arrive(d: seq<Byte>, now: u64, later: u64) | DrainAt(clock: nat -> u64)

  /** The client, with the packets it has played so far. */
  datatype ClientState = ClientState(jb: Buffer, asm: Assembly, delivered: seq<seq<Byte>>, played: seq<Packet>)

  ghost function ClientStep(s: ClientState, op: ClientOp): ClientState
    requires Unique(s.jb.slots)
  {
    match op
    case Arrive(d, now, later) => s.(jb := Receive(s.jb, d, now, later))
    case DrainAt(clock) =>
      var (items, jb) := Drain(s.jb, clock, 0);
      var (asm, delivered) := PlayOut(s.asm, s.delivered, items);
      ClientState(jb, asm, delivered, s.played + PacketsOf(items))
  }

  /** What comes off the wire is a datagram of the stream, or is not accepted as a video datagram. */
  ghost predicate Honest(ps: seq<Packet>, op: ClientOp)
    requires forall i :: 0 <= i < |ps| ==> |ps[i].payload| <= CHUNK + 4
  {
    op.Arrive? ==>
      || Decode(op.d).Rejected? || Decode(op.d).header.stream != STREAM_VIDEO
      || exists i :: 0 <= i < |ps| && op.d == Datagram(ps[i])
  }

  ghost predicate Sound(ps: seq<Packet>, s: ClientState) {
    && Unique(s.jb.slots)
    && (forall it :: it in Items(s.jb.slots) ==> PacketOf(it) in ps)
    && (forall p :: p in s.played ==> p in ps)
    && HandleAll(RESET, s.played) == (s.asm, s.delivered)
  }

  lemma PushSound(ps: seq<Packet>, b: Buffer, it: Item)
    requires Unique(b.slots) && PacketOf(it) in ps && |it.payload| <= CHUNK + 4
    requires forall x :: x in Items(b.slots) ==> PacketOf(x) in ps
    ensures var c := Push(b, it).0; Unique(c.slots) && forall x :: x in Items(c.slots) ==> PacketOf(x) in ps
  {
    hide Items, Unique, SeqCmp;
    if Push(b, it).1 == Ok {
      ItemsAdded(b.slots, FindFree(b.slots), Clip(it));
    }
  }

  lemma ReceiveSound(ps: seq<Packet>, b: Buffer, d: seq<Byte>, now: u64, later: u64)
    requires forall i :: 0 <= i < |ps| ==> |ps[i].payload| <= CHUNK + 4
    requires Unique(b.slots) && (forall x :: x in Items(b.slots) ==> PacketOf(x) in ps)
    requires Honest(ps, Arrive(d, now, later))
    ensures var c := Receive(b, d, now, later);
            Unique(c.slots) && forall x :: x in Items(c.slots) ==> PacketOf(x) in ps
  {
    hide Items, Unique, Frame, Push, Empty;
    if Decode(d).Accepted? && Decode(d).header.stream == STREAM_VIDEO {
      var i :| 0 <= i < |ps| && d == Datagram(ps[i]);
      var p := ps[i];
      DecodeOfEncoded(VideoHeader(p.flags, |p.payload|, p.seqNo, p.tsUs), p.payload, []);
      assert d + [] == d;
      PushSound(ps, b, Arrived(p, now));
      EmptyItems(p.seqNo, 0);
      EmptyUnique(p.seqNo, 0);
      PushSound(ps, Empty(p.seqNo, 0), Arrived(p, later));
    }
  }

  lemma EmptyUnique(nextSeq: u32, delay: u64)
    ensures Unique(Empty(nextSeq, delay).slots)
  {
  }

  /** The loop never invents items. */
  lemma {:induction false} DrainSound(b: Buffer, clock: nat -> u64, k: nat)
    requires Unique(b.slots)
    ensures var (items, c) := Drain(b, clock, k);
            && Unique(c.slots) && Items(c.slots) <= Items(b.slots)
            && forall it :: it in items ==> it in Items(b.slots)
    decreases |Items(b.slots)|
  {
    hide Items, Unique, Peek, Consume;
    if Peek(b, clock(k)).1.None? {
      PeekKeepsRest(b, clock(k));
    } else {
      DrainStep(b, clock, k);
      var (c, r) := Peek(b, clock(k));
      ConsumeTakes(c, r.value);
      DrainSound(Consume(c), clock, k + 1);
    }
  }

  lemma StepSound(ps: seq<Packet>, s: ClientState, op: ClientOp)
    requires forall i :: 0 <= i < |ps| ==> |ps[i].payload| <= CHUNK + 4
    requires Sound(ps, s) && Honest(ps, op)
    ensures Sound(ps, ClientStep(s, op))
  {
    hide Items, Unique, Drain, HandleAll, Receive;
    match op
    case Arrive(d, now, later) => ReceiveSound(ps, s.jb, d, now, later);
    case DrainAt(clock) =>
      DrainSound(s.jb, clock, 0);
      var items := Drain(s.jb, clock, 0).0;
      HandleAllConcat(RESET, s.played, PacketsOf(items));
      forall p | p in PacketsOf(items)
        ensures p in ps
      {
        var i :| 0 <= i < |items| && p == PacketOf(items[i]);
        assert items[i] in items;
      }
  }

  ghost function ClientRun(ps: seq<Packet>, delay: u64, ops: seq<ClientOp>): (s: ClientState)
    requires forall i :: 0 <= i < |ps| ==> |ps[i].payload| <= CHUNK + 4
    requires forall i :: 0 <= i < |ops| ==> Honest(ps, ops[i])
    ensures Sound(ps, s)
  {
    if ops == [] then
      EmptyItems(0, delay);
      ClientState(Empty(0, delay), RESET, [], [])
    else
      var s := ClientRun(ps, delay, ops[..|ops| - 1]);
      StepSound(ps, s, ops[|ops| - 1]);
      ClientStep(s, ops[|ops| - 1])
  }

  /** The client's own methods, run on any arrivals and drains, go through exactly these states. */
  method RunClient(client: ThinClient, ghost ps: seq<Packet>, ghost delay: u64, ops: seq<ClientOp>)
    requires client.Valid() && client.frag.buf as object != client.jb.slots as object
    requires client.jb.State() == Empty(0, delay) && client.frag.State() == RESET && client.delivered == []
    requires forall i :: 0 <= i < |ps| ==> |ps[i].payload| <= CHUNK + 4
    requires forall i :: 0 <= i < |ops| ==> Honest(ps, ops[i])
    modifies client, client.jb, client.jb.slots, client.frag, client.frag.buf
    ensures client.Valid()
    ensures var s := ClientRun(ps, delay, ops);
            client.jb.State() == s.jb && client.frag.State() == s.asm && client.delivered == s.delivered
  {
    hide Receive, Drain, HandleAll, Honest, Sound, Empty;
    for k := 0 to |ops|
      invariant client.Valid()
      invariant client.jb.slots == old(client.jb.slots) && client.frag.buf == old(client.frag.buf)
      invariant var s := ClientRun(ps, delay, ops[..k]);
                client.jb.State() == s.jb && client.frag.State() == s.asm && client.delivered == s.delivered
    {
      assert ops[..k + 1][..k] == ops[..k];
      match ops[k] {
        case Arrive(d, now, later) =>
          var pkt := new Byte[|d|](i requires 0 <= i < |d| => d[i]);
          assert pkt[..|d|] == d;
          client.OnDatagram(pkt, |d|, now, later);
        case DrainAt(clock) =>
          client.DrainPlayable(clock);
      }
    }
    assert ops[..|ops|] == ops;
  }

  /** Over every run of the client, with any loss, duplication, reordering, resets and rejected junk:
      unless a fragment was mistaken for the next one of another access unit, everything delivered is a
      whole access unit that was sent. */
  lemma NothingDamaged(aus: seq<Au>, first: u32, delay: u64, ops: seq<ClientOp>)
    requires |Stream(aus, first)| <= TWO32
    requires forall i :: 0 <= i < |ops| ==> Honest(Stream(aus, first), ops[i])
    requires Unmistaken(ClientRun(Stream(aus, first), delay, ops).played)
    ensures forall d :: d in ClientRun(Stream(aus, first), delay, ops).delivered ==>
                          exists j :: 0 <= j < |aus| && d == aus[j].data
  {
    hide ClientRun, HandleAll, Stream, Unmistaken;
    OnlyWholeAus(aus, first, ClientRun(Stream(aus, first), delay, ops).played);
  }

  // ---------------------------------------------------------------------------
  // Nothing is taken behind the playout position
  // ---------------------------------------------------------------------------

  /** The datagram is pushed, or the buffer rebased on it. */
  predicate Taken(b: Buffer, d: seq<Byte>, now: u64) {
    && Decode(d).Accepted? && Decode(d).header.stream == STREAM_VIDEO
    && (Push(b, ItemOf(Decode(d).header, Decode(d).payload, now)).1 == Ok
        || HasFlag(Decode(d).header.flags, FLAG_KEYFRAME))
  }

  predicate NotBehind(b: Buffer, d: seq<Byte>, now: u64) {
    b.pushed > 0 && Taken(b, d, now) ==> SeqCmp(Decode(d).header.seqNo, b.nextSeq) >= 0
  }

  /** Receiving leaves nothing behind the position if and only if the datagram is not taken or not behind
      it itself. */
  lemma NotBehindIff(b: Buffer, d: seq<Byte>, now: u64, later: u64)
    requires Unique(b.slots) && Ahead(b) && b.pushed > 0
    ensures (forall it :: it in Items(Receive(b, d, now, later).slots) ==> SeqCmp(it.seqNo, b.nextSeq) >= 0)
            <==> NotBehind(b, d, now)
  {
    hide Decode, HasFlag, Items, Unique, Push;
    assert forall it :: it in Items(b.slots) ==> SeqCmp(it.seqNo, b.nextSeq) >= 0;
    if Decode(d).Accepted? && Decode(d).header.stream == STREAM_VIDEO {
      var it := ItemOf(Decode(d).header, Decode(d).payload, now);
      PushEffect(b, it);
      if RefusedKeyframe(b, d, now) {
        RefusedKeyframeWipes(b, d, now, later);
      }
    }
  }

  /** And a datagram taken behind the position is the next thing played, once it has aged. */
  lemma TakenBehindPlays(b: Buffer, d: seq<Byte>, now: u64, later: u64, t: u64)
    requires Unique(b.slots) && Ahead(b) && !NotBehind(b, d, now)
    requires Age(t, now) >= b.targetDelay
    ensures var (c, r) := Peek(Receive(b, d, now, later), t);
            r.Some? && r.value.seqNo == Decode(d).header.seqNo == c.nextSeq && SeqCmp(c.nextSeq, b.nextSeq) < 0
  {
    hide Decode, HasFlag, Items, Unique;
    var Accepted(h, payload) := Decode(d);
    if RefusedKeyframe(b, d, now) {
      hide Push;
      RefusedKeyframeWipes(b, d, now, later);
      var c := Receive(b, d, now, later);
      assert Clip(ItemOf(h, payload, later)) in Items(c.slots);
      AgedIsPlayed(c, t);
      LeastIsBuffered(c.slots);
      PlayedIsHeld(c, t);
    } else {
      var it := ItemOf(h, payload, now);
      LateIsLeast(b, it);
      hide Push, Least;
      var c := Push(b, it).0;
      LeastIsBuffered(c.slots);
      hide Newest;
    }
  }

  // ---------------------------------------------------------------------------
  // Every item is at its place in the stream
  // ---------------------------------------------------------------------------

  ghost predicate ItemAt(ps: seq<Packet>, it: Item, n: int) {
    0 <= n < |ps| && PacketOf(it) == ps[n]
  }

  /** Playout stands before packet `n`, and everything buffered is ahead of that, where its number says. */
  ghost predicate StandsAt(ps: seq<Packet>, first: u32, b: Buffer, n: nat) {
    && Unique(b.slots) && (b.pushed == 0 ==> Items(b.slots) == {})
    && (b.pushed > 0 ==>
          && n <= |ps| && b.nextSeq == Plus(first, n) && Ahead(b)
          && forall it :: it in Items(b.slots) ==> ItemAt(ps, it, n + Off(it.seqNo, b.nextSeq)))
  }

  lemma PushEffect(b: Buffer, it: Item)
    requires Unique(b.slots)
    ensures var (c, status) := Push(b, it);
            && Unique(c.slots) && c.played == b.played && c.gaps == b.gaps
            && c.nextSeq == (if b.pushed == 0 then it.seqNo else b.nextSeq)
            && (status == Ok ==> Items(c.slots) == Items(b.slots) + {Clip(it)} && c.pushed == b.pushed + 1)
            && (status != Ok ==> c.slots == b.slots && c.pushed == b.pushed)
            && (status == Ok && b.pushed > 0 && SeqCmp(it.seqNo, b.nextSeq) >= 0 ==>
                  Off(it.seqNo, b.nextSeq) < MAX_SLOTS)
  {
    hide Items, Unique, Off;
    if Push(b, it).1 == Ok {
      ItemsAdded(b.slots, FindFree(b.slots), Clip(it));
    }
  }

  /** A packet's place follows from its distance to the playout position. */
  lemma PlaceFromDistance(ps: seq<Packet>, first: u32, next: u32, n: nat, k: nat)
    requires Numbered(ps, first) && k < |ps| <= TWO32 && next == Plus(first, n)
    requires n + Off(ps[k].seqNo, next) < TWO32
    ensures k == n + Off(ps[k].seqNo, next)
  {
    hide Off, Plus;
    var d := Off(ps[k].seqNo, next);
    PlusOff(ps[k].seqNo, next);
    PlusAssoc(first, n, d);
    SameNumber(first, k, n + d);
  }

  lemma PushStands(ps: seq<Packet>, first: u32, b: Buffer, n: nat, k: nat, it: Item) returns (m: nat)
    requires Numbered(ps, first) && |ps| + MAX_SLOTS <= TWO32 && StandsAt(ps, first, b, n)
    requires k < |ps| && PacketOf(it) == ps[k]
    requires b.pushed > 0 && Push(b, it).1 == Ok ==> SeqCmp(it.seqNo, b.nextSeq) >= 0
    ensures StandsAt(ps, first, Push(b, it).0, m) && (b.pushed > 0 ==> m == n)
  {
    hide Off, Plus, SeqCmp, Items, Unique, Push;
    PushEffect(b, it);
    OffSelf(it.seqNo);
    assert Clip(it) == it;
    m := if b.pushed > 0 then n else k;
    if b.pushed > 0 && Push(b, it).1 == Ok {
      PlaceFromDistance(ps, first, b.nextSeq, n, k);
    }
  }

  lemma RebasedAt(ps: seq<Packet>, first: u32, k: nat, it: Item)
    requires Numbered(ps, first) && k < |ps| && PacketOf(it) == ps[k]
    ensures StandsAt(ps, first, Push(Empty(it.seqNo, 0), it).0, k) && Push(Empty(it.seqNo, 0), it).0.pushed == 1
  {
    hide Off, Plus, Items, Unique, Push;
    EmptyItems(it.seqNo, 0);
    EmptyUnique(it.seqNo, 0);
    FreshPush(it.seqNo, it);
    PushEffect(Empty(it.seqNo, 0), it);
    OffSelf(it.seqNo);
    assert Clip(it) == it;
  }

  lemma RebaseForward(ps: seq<Packet>, first: u32, next: u32, n: nat, k: nat)
    requires Numbered(ps, first) && |ps| <= HALF && k < |ps| && n <= |ps| && next == Plus(first, n)
    requires SeqCmp(ps[k].seqNo, next) >= 0
    ensures n <= k
  {
    hide Off, Plus;
    PlaceFromDistance(ps, first, next, n, k);
  }

  /** A rebase that is not behind moves playout forward, to that packet. */
  lemma RebaseStands(ps: seq<Packet>, first: u32, b: Buffer, n: nat, k: nat, d: seq<Byte>, now: u64, later: u64)
    requires Numbered(ps, first) && |ps| <= HALF && StandsAt(ps, first, b, n)
    requires k < |ps| && d == Datagram(ps[k]) && RefusedKeyframe(b, d, now) && NotBehind(b, d, now)
    ensures StandsAt(ps, first, Receive(b, d, now, later), k) && (b.pushed > 0 ==> n <= k)
    ensures Receive(b, d, now, later).pushed > 0
  {
    hide Decode, HasFlag, Datagram, Off, Plus, Items, Unique, Push, SeqCmp, Ahead;
    WireHeader(ps[k]);
    RebasedAt(ps, first, k, Arrived(ps[k], later));
    if b.pushed > 0 {
      RebaseForward(ps, first, b.nextSeq, n, k);
    }
  }

  lemma FreshPush(nextSeq: u32, it: Item)
    requires it.seqNo == nextSeq
    ensures Push(Empty(nextSeq, 0), it).1 == Ok
  {
    OffSelf(nextSeq);
    hide Off;
  }

  lemma WireHeader(p: Packet)
    requires |p.payload| <= CHUNK + 4
    ensures var d := Decode(Datagram(p));
            && d.Accepted? && d.header.stream == STREAM_VIDEO && d.header.seqNo == p.seqNo && d.header.flags == p.flags
            && forall now: u64 :: ItemOf(d.header, d.payload, now) == Arrived(p, now)
  {
    hide Frame, Decode;
    DecodeOfEncoded(VideoHeader(p.flags, |p.payload|, p.seqNo, p.tsUs), p.payload, []);
    assert Datagram(p) + [] == Datagram(p);
  }

  /** Arrivals that are not behind keep every item at its place and never move playout back. */
  lemma ArrivalStands(ps: seq<Packet>, first: u32, b: Buffer, n: nat, d: seq<Byte>, now: u64, later: u64)
    returns (m: nat)
    requires Numbered(ps, first) && |ps| + MAX_SLOTS <= TWO32 && StandsAt(ps, first, b, n)
    requires Honest(ps, Arrive(d, now, later)) && NotBehind(b, d, now)
    requires RefusedKeyframe(b, d, now) ==> |ps| <= HALF
    ensures var c := Receive(b, d, now, later);
            && StandsAt(ps, first, c, m) && (b.pushed > 0 ==> n <= m && c.pushed > 0)
            && (!RefusedKeyframe(b, d, now) ==> c.played == b.played && c.gaps == b.gaps && (b.pushed > 0 ==> m == n))
  {
    hide Datagram, Push, StandsAt, HasFlag, SeqCmp;
    m := n;
    if Decode(d).Accepted? && Decode(d).header.stream == STREAM_VIDEO {
      var k :| 0 <= k < |ps| && d == Datagram(ps[k]);
      if RefusedKeyframe(b, d, now) {
        RebaseStands(ps, first, b, n, k, d, now, later);
        m := k;
      } else {
        WireHeader(ps[k]);
        m := PushStands(ps, first, b, n, k, Arrived(ps[k], now));
        assert Unique(b.slots) by { StandsUnique(ps, first, b, n); }
        PushEffect(b, Arrived(ps[k], now));
      }
    }
  }

  lemma StandsUnique(ps: seq<Packet>, first: u32, b: Buffer, n: nat)
    requires StandsAt(ps, first, b, n)
    ensures Unique(b.slots) && (b.pushed > 0 ==> n <= |ps|)
  {
  }

  lemma PeekStands(ps: seq<Packet>, first: u32, b: Buffer, n: nat, now: u64)
    requires StandsAt(ps, first, b, n) && b.pushed > 0
    ensures var (c, r) := Peek(b, now);
            && c.gaps >= b.gaps && StandsAt(ps, first, c, n + c.gaps - b.gaps)
            && c.pushed == b.pushed && c.played == b.played && c.slots == b.slots
            && (r.Some? ==> r.value in Items(c.slots) && c.nextSeq == r.value.seqNo)
            && (r.Some? ==> ItemAt(ps, r.value, n + c.gaps - b.gaps))
  {
    var (c, r) := Peek(b, now);
    PeekKeepsAhead(b, now);
    PeekKeepsRest(b, now);
    LeastIsBuffered(b.slots);
    OffSelf(b.nextSeq);
    if r.Some? { PlayedIsHeld(b, now); }
    assert c.gaps > b.gaps ==> c.nextSeq == Least(b.slots).value.seqNo && Items(b.slots) != {};
    hide Items, Unique, Peek, Least, Off, StandsAt, Ahead, Plus;
    StandsMoved(ps, first, b, n, c);
    OffSelf(c.nextSeq);
    if r.Some? { StandsItem(ps, first, c, n + c.gaps - b.gaps, r.value); }
  }

  lemma StandsItem(ps: seq<Packet>, first: u32, b: Buffer, n: nat, it: Item)
    requires StandsAt(ps, first, b, n) && b.pushed > 0 && it in Items(b.slots) && it.seqNo == b.nextSeq
    ensures ItemAt(ps, it, n)
  {
    OffSelf(b.nextSeq);
    hide Off;
  }

  /** Moving the position to the first item buffered, past what is missing. */
  lemma StandsMoved(ps: seq<Packet>, first: u32, b: Buffer, n: nat, c: Buffer)
    requires StandsAt(ps, first, b, n) && b.pushed > 0 && c.pushed == b.pushed && c.slots == b.slots && Ahead(c)
    requires c.gaps - b.gaps == Off(c.nextSeq, b.nextSeq) && (c.gaps == b.gaps ==> c.nextSeq == b.nextSeq)
    requires c.gaps > b.gaps ==> Items(b.slots) != {} && Least(b.slots).Some? && c.nextSeq == Least(b.slots).value.seqNo
    ensures StandsAt(ps, first, c, n + c.gaps - b.gaps)
  {
    hide Items, Unique, Least, Off;
    var g := c.gaps - b.gaps;
    PlusOff(c.nextSeq, b.nextSeq);
    PlusAssoc(first, n, g);
    hide Plus;
    if g > 0 {
      forall it | it in Items(b.slots)
        ensures Off(it.seqNo, c.nextSeq) == Off(it.seqNo, b.nextSeq) - g
      {
        MinFirst(b, it);
        OffBetween(it.seqNo, c.nextSeq, b.nextSeq);
      }
      LeastIsBuffered(b.slots);
      var m := Least(b.slots).value;
      assert ItemAt(ps, m, n + Off(m.seqNo, b.nextSeq));
    }
  }

  lemma MinFirst(b: Buffer, it: Item)
    requires Ahead(b) && it in Items(b.slots)
    ensures Least(b.slots).Some?
    ensures Off(Least(b.slots).value.seqNo, b.nextSeq) <= Off(it.seqNo, b.nextSeq) < MAX_SLOTS
  {
    hide Items, Least;
    LeastIsBuffered(b.slots);
    LeastIsFirst(b.slots, b.nextSeq);
  }

  lemma ConsumeStands(ps: seq<Packet>, first: u32, b: Buffer, n: nat, it: Item)
    requires StandsAt(ps, first, b, n) && b.pushed > 0 && it in Items(b.slots) && b.nextSeq == it.seqNo
    ensures var c := Consume(b);
            StandsAt(ps, first, c, n + 1) && c.pushed == b.pushed && c.played == b.played + 1 && c.gaps == b.gaps
  {
    ConsumeTakes(b, it);
    hide Items, Unique, Plus, Off, Consume;
    OffSelf(b.nextSeq);
    PlusAssoc(first, n, 1);
    assert ItemAt(ps, it, n + Off(it.seqNo, b.nextSeq));
    forall x | x in Items(b.slots) && x != it
      ensures Off(x.seqNo, Plus(b.nextSeq, 1)) == Off(x.seqNo, b.nextSeq) - 1
    {
      UniqueItems(b.slots, x, it);
      OffNext(x.seqNo, b.nextSeq);
    }
  }

  lemma PlayedFirst(ps: seq<Packet>, n: nat, ns: seq<nat>, it: Item, items: seq<Item>)
    requires ItemAt(ps, it, n) && (forall k :: 0 <= k < |ns| ==> ns[k] < |ps|) && PacketsOf(items) == At(ps, ns)
    ensures PacketsOf([it] + items) == At(ps, [n] + ns)
  {
    assert PacketsOf([it] + items) == [PacketOf(it)] + PacketsOf(items);
    assert At(ps, [n] + ns) == [ps[n]] + At(ps, ns);
  }

  /** A drain plays packets of rising numbers from the position on, and counts what it skips. */
  lemma {:induction false} DrainStands(ps: seq<Packet>, first: u32, b: Buffer, n: nat, clock: nat -> u64, k: nat)
    returns (ns: seq<nat>, m: nat)
    requires StandsAt(ps, first, b, n) && b.pushed > 0
    ensures n <= m <= |ps| && Rising(ns, m) && forall i :: 0 <= i < |ns| ==> n <= ns[i]
    ensures var (items, c) := Drain(b, clock, k);
            && StandsAt(ps, first, c, m) && c.pushed == b.pushed && PacketsOf(items) == At(ps, ns)
            && c.played == b.played + |ns| && m - n == |ns| + c.gaps - b.gaps
    decreases |Items(b.slots)|
  {
    hide Items, Unique, Peek, Consume, Drain, StandsAt, At, PacketsOf, ItemAt;
    StandsUnique(ps, first, b, n);
    PeekStands(ps, first, b, n, clock(k));
    var (p, r) := Peek(b, clock(k));
    if r.None? {
      DrainEnd(b, clock, k);
      ns, m := [], n + p.gaps - b.gaps;
      StandsUnique(ps, first, p, m);
      NothingPlayedAt(ps);
    } else {
      DrainStep(b, clock, k);
      var at := n + p.gaps - b.gaps;
      ConsumeStands(ps, first, p, at, r.value);
      var c := Consume(p);
      var more;
      more, m := DrainStands(ps, first, c, at + 1, clock, k + 1);
      ns := [at] + more;
      RisingCons(at, more, m);
      PlayedFirst(ps, at, more, r.value, Drain(c, clock, k + 1).0);
    }
  }

  lemma NothingPlayedAt(ps: seq<Packet>)
    ensures PacketsOf([]) == At(ps, [])
  {
  }

  lemma RisingCons(n: nat, ns: seq<nat>, m: nat)
    requires Rising(ns, m) && n < m && forall i :: 0 <= i < |ns| ==> n < ns[i]
    ensures Rising([n] + ns, m)
  {
  }

  // ---------------------------------------------------------------------------
  // Whole runs
  // ---------------------------------------------------------------------------

  /** Playout stands before packet `n`, and packets `ns`, all before that, have been played, in order. */
  ghost predicate Tracks(ps: seq<Packet>, first: u32, s: ClientState, ns: seq<nat>, n: nat) {
    && StandsAt(ps, first, s.jb, n) && n <= |ps| && Rising(ns, n) && s.played == At(ps, ns)
    && (s.jb.pushed == 0 ==> ns == [])
  }

  /** No arrival of the run is taken behind the playout position. */
  ghost predicate NoneBehind(ps: seq<Packet>, delay: u64, ops: seq<ClientOp>)
    requires forall i :: 0 <= i < |ps| ==> |ps[i].payload| <= CHUNK + 4
    requires forall i :: 0 <= i < |ops| ==> Honest(ps, ops[i])
  {
    ops != [] ==>
      var n := |ops| - 1;
      && NoneBehind(ps, delay, ops[..n])
      && (ops[n].Arrive? ==> NotBehind(ClientRun(ps, delay, ops[..n]).jb, ops[n].d, ops[n].now))
  }

  /** No arrival of the run rebases the buffer. */
  ghost predicate NeverRebased(ps: seq<Packet>, delay: u64, ops: seq<ClientOp>)
    requires forall i :: 0 <= i < |ps| ==> |ps[i].payload| <= CHUNK + 4
    requires forall i :: 0 <= i < |ops| ==> Honest(ps, ops[i])
  {
    ops != [] ==>
      var n := |ops| - 1;
      && NeverRebased(ps, delay, ops[..n])
      && (ops[n].Arrive? ==> !RefusedKeyframe(ClientRun(ps, delay, ops[..n]).jb, ops[n].d, ops[n].now))
  }

  lemma ArriveTracks(ps: seq<Packet>, first: u32, s: ClientState, op: ClientOp, ns: seq<nat>, n: nat)
    returns (m: nat)
    requires Numbered(ps, first) && |ps| + MAX_SLOTS <= TWO32 && Tracks(ps, first, s, ns, n)
    requires op.Arrive? && Honest(ps, op) && NotBehind(s.jb, op.d, op.now)
    requires RefusedKeyframe(s.jb, op.d, op.now) ==> |ps| <= HALF
    ensures var s' := ClientStep(s, op);
            && Tracks(ps, first, s', ns, m) && (s.jb.pushed > 0 ==> s'.jb.pushed > 0)
            && (!RefusedKeyframe(s.jb, op.d, op.now) ==>
                  s'.jb.played == s.jb.played && s'.jb.gaps == s.jb.gaps && (s.jb.pushed > 0 ==> m == n))
  {
    hide Receive, Unique, Ahead, NotBehind, RefusedKeyframe;
    m := ArrivalStands(ps, first, s.jb, n, op.d, op.now, op.later);
    if Receive(s.jb, op.d, op.now, op.later).pushed == 0 { m := 0; }
  }

  lemma DrainTracks(ps: seq<Packet>, first: u32, s: ClientState, op: ClientOp, ns: seq<nat>, n: nat)
    returns (ms: seq<nat>, m: nat)
    requires Tracks(ps, first, s, ns, n) && op.DrainAt?
    ensures var s' := ClientStep(s, op);
            && Tracks(ps, first, s', ms, m) && s'.jb.pushed == s.jb.pushed && s'.jb.played == s.jb.played + |ms| - |ns|
            && m - n == |ms| - |ns| + s'.jb.gaps - s.jb.gaps && (s.jb.pushed == 0 ==> s'.jb.gaps == s.jb.gaps)
  {
    var b := s.jb;
    if b.pushed == 0 {
      NothingPeeked(b, op.clock(0));
      DrainEnd(b, op.clock, 0);
      ms, m := ns, n;
      assert s.played + [] == s.played;
    } else {
      hide Items, Unique, Drain, Ahead, Plus, HandleAll;
      var more;
      more, m := DrainStands(ps, first, b, n, op.clock, 0);
      ms := ns + more;
      assert At(ps, ns + more) == At(ps, ns) + At(ps, more);
    }
  }

  lemma NothingPeeked(b: Buffer, now: u64)
    requires Items(b.slots) == {}
    ensures Peek(b, now) == (b, None)
  {
    LeastIsBuffered(b.slots);
  }

  lemma {:induction false} RunTracks(ps: seq<Packet>, first: u32, delay: u64, ops: seq<ClientOp>)
    returns (ns: seq<nat>, n: nat)
    requires Numbered(ps, first) && |ps| + MAX_SLOTS <= TWO32
    requires forall i :: 0 <= i < |ops| ==> Honest(ps, ops[i])
    requires NoneBehind(ps, delay, ops) && (|ps| <= HALF || NeverRebased(ps, delay, ops))
    ensures Tracks(ps, first, ClientRun(ps, delay, ops), ns, n)
  {
    if ops == [] {
      EmptyItems(0, delay);
      EmptyUnique(0, delay);
      ns, n := [], 0;
    } else {
      hide Tracks, ClientStep, NotBehind, RefusedKeyframe, Honest, Sound;
      var k := |ops| - 1;
      ns, n := RunTracks(ps, first, delay, ops[..k]);
      var s := ClientRun(ps, delay, ops[..k]);
      if ops[k].Arrive? {
        n := ArriveTracks(ps, first, s, ops[k], ns, n);
      } else {
        ns, n := DrainTracks(ps, first, s, ops[k], ns, n);
      }
    }
  }

  /** In every run in which nothing is taken behind the position, whatever is lost, repeated, reordered,
      declared lost or skipped by a rebase: the client delivers a selection of the sent access units,
      whole, in the order they were sent and none twice. */
  lemma DeliveredUnderLoss(aus: seq<Au>, first: u32, delay: u64, ops: seq<ClientOp>) returns (js: seq<nat>)
    requires |Stream(aus, first)| <= HALF
    requires forall i :: 0 <= i < |ops| ==> Honest(Stream(aus, first), ops[i])
    requires NoneBehind(Stream(aus, first), delay, ops)
    requires Unmistaken(ClientRun(Stream(aus, first), delay, ops).played)
    ensures Rising(js, |aus|) && ClientRun(Stream(aus, first), delay, ops).delivered == Datas(aus, js)
  {
    hide HandleAll, ClientRun, Stream, Unmistaken, NoneBehind, Honest, StandsAt;
    var ps := Stream(aus, first);
    StreamNumbered(aus, first);
    var ns, n := RunTracks(ps, first, delay, ops);
    js := DeliveredInOrder(aus, first, ns);
  }

  // ---------------------------------------------------------------------------
  // Nothing skipped
  // ---------------------------------------------------------------------------

  /** The first datagram taken is the first of the stream. */
  ghost predicate StartsFirst(ps: seq<Packet>, first: u32, delay: u64, ops: seq<ClientOp>)
    requires forall i :: 0 <= i < |ps| ==> |ps[i].payload| <= CHUNK + 4
    requires forall i :: 0 <= i < |ops| ==> Honest(ps, ops[i])
  {
    ops != [] ==>
      var n := |ops| - 1;
      var b := ClientRun(ps, delay, ops[..n]).jb;
      && StartsFirst(ps, first, delay, ops[..n])
      && (ops[n].Arrive? && b.pushed == 0 && Taken(b, ops[n].d, ops[n].now) ==> Decode(ops[n].d).header.seqNo == first)
  }

  /** Without a rebase the position is as far as packets were played or counted lost. */
  ghost predicate AllCounted(s: ClientState, ns: seq<nat>, n: nat) {
    (s.jb.pushed > 0 ==> n == |ns| + s.jb.gaps) && (s.jb.pushed == 0 ==> s.jb.gaps == 0)
  }

  lemma FirstTaken(b: Buffer, d: seq<Byte>, now: u64, later: u64)
    requires Unique(b.slots) && b.pushed == 0 && !RefusedKeyframe(b, d, now)
    ensures var c := Receive(b, d, now, later);
            c.pushed > 0 ==> Taken(b, d, now) && c.nextSeq == Decode(d).header.seqNo
  {
    hide Decode, HasFlag, Unique, Push;
    if Decode(d).Accepted? && Decode(d).header.stream == STREAM_VIDEO {
      PushEffect(b, ItemOf(Decode(d).header, Decode(d).payload, now));
    }
  }

  lemma ArriveCounts(ps: seq<Packet>, first: u32, s: ClientState, op: ClientOp, ns: seq<nat>, n: nat)
    returns (m: nat)
    requires Numbered(ps, first) && |ps| + MAX_SLOTS <= TWO32 && Tracks(ps, first, s, ns, n) && AllCounted(s, ns, n)
    requires op.Arrive? && Honest(ps, op) && NotBehind(s.jb, op.d, op.now) && !RefusedKeyframe(s.jb, op.d, op.now)
    requires s.jb.pushed == 0 && Taken(s.jb, op.d, op.now) ==> Decode(op.d).header.seqNo == first
    ensures Tracks(ps, first, ClientStep(s, op), ns, m) && AllCounted(ClientStep(s, op), ns, m)
  {
    hide Decode, Receive, Unique, Ahead, NotBehind, RefusedKeyframe, Taken, Honest, Plus, Off;
    m := ArriveTracks(ps, first, s, op, ns, n);
    var c := ClientStep(s, op).jb;
    if s.jb.pushed == 0 && c.pushed > 0 {
      FirstTaken(s.jb, op.d, op.now, op.later);
      PlusZero(first);
      SameNumber(first, 0, m);
    }
  }

  lemma {:induction false} RunCounts(ps: seq<Packet>, first: u32, delay: u64, ops: seq<ClientOp>)
    returns (ns: seq<nat>, n: nat)
    requires Numbered(ps, first) && |ps| + MAX_SLOTS <= TWO32
    requires forall i :: 0 <= i < |ops| ==> Honest(ps, ops[i])
    requires NoneBehind(ps, delay, ops) && NeverRebased(ps, delay, ops) && StartsFirst(ps, first, delay, ops)
    ensures Tracks(ps, first, ClientRun(ps, delay, ops), ns, n) && AllCounted(ClientRun(ps, delay, ops), ns, n)
  {
    if ops == [] {
      EmptyItems(0, delay);
      EmptyUnique(0, delay);
      ns, n := [], 0;
    } else {
      hide Tracks, ClientStep, NotBehind, RefusedKeyframe, Honest, Sound, Taken;
      var k := |ops| - 1;
      ns, n := RunCounts(ps, first, delay, ops[..k]);
      var s := ClientRun(ps, delay, ops[..k]);
      if ops[k].Arrive? {
        n := ArriveCounts(ps, first, s, ops[k], ns, n);
      } else {
        ns, n := DrainTracks(ps, first, s, ops[k], ns, n);
      }
    }
  }

  /** In every run that starts with the first packet, takes nothing behind the position, is never rebased
      and declares nothing lost, the client delivers the sent access units that fit it, in order, from the
      first, none skipped, none damaged, none twice. */
  lemma StreamedInOrder(aus: seq<Au>, first: u32, delay: u64, ops: seq<ClientOp>)
    requires |Stream(aus, first)| + MAX_SLOTS <= TWO32
    requires forall i :: 0 <= i < |ops| ==> Honest(Stream(aus, first), ops[i])
    requires NoneBehind(Stream(aus, first), delay, ops) && NeverRebased(Stream(aus, first), delay, ops)
    requires StartsFirst(Stream(aus, first), first, delay, ops)
    requires ClientRun(Stream(aus, first), delay, ops).jb.gaps == 0
    ensures ClientRun(Stream(aus, first), delay, ops).delivered <= AllDeliverable(aus)
  {
    hide HandleAll, ClientRun, Stream, NoneBehind, NeverRebased, StartsFirst, Honest, StandsAt;
    var ps := Stream(aus, first);
    StreamNumbered(aus, first);
    var ns, n := RunCounts(ps, first, delay, ops);
    var m := |ns|;
    forall t | 0 <= t < m
      ensures ns[t] == t
    {
      Squeezed(ns, m, t);
    }
    assert At(ps, ns) == ps[..m];
    StreamDelivered(RESET, aus, first);
    HandleAllConcat(RESET, ps[..m], ps[m..]);
    assert ps[..m] + ps[m..] == ps;
  }

  /** A rebase does skip: whatever was buffered, the next drain plays the refused packet and nothing else. */
  lemma RebasePlaysAlone(b: Buffer, p: Packet, now: u64, later: u64, clock: nat -> u64)
    requires |p.payload| <= CHUNK + 4 && RefusedKeyframe(b, Datagram(p), now)
    ensures var c := Receive(b, Datagram(p), now, later);
            Unique(c.slots) && PacketsOf(Drain(c, clock, 0).0) == [p]
  {
    hide Decode, HasFlag, Datagram, Drain, Push, Unique, Items;
    var c := Receive(b, Datagram(p), now, later);
    WireHeader(p);
    RefusedKeyframeWipes(b, Datagram(p), now, later);
    var it := Arrived(p, later);
    assert Clip(it) == it;
    EmptyUnique(p.seqNo, 0);
    PushUnique(Empty(p.seqNo, 0), it);
    OffSelf(p.seqNo);
    DrainPlaysAll(c, clock, 0, p.seqNo);
    var items := Drain(c, clock, 0).0;
    assert |Items(c.slots)| == 1;
    assert items[0] in items;
  }

  /** In streams longer than 2^31 packets a packet can be so old that it reads as ahead. */
  lemma OldReadsAhead(first: u32, k: nat, n: nat)
    requires k < n < TWO32 && n - k > HALF
    ensures SeqCmp(Plus(first, k), Plus(first, n)) > 0
  {
    PlusIs(first, k);
    PlusIs(first, n);
    hide Plus;
  }
}
