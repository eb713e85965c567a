/** The thin client's UDP video path: receive, reorder, reassemble (apps/thinclient/main.c). */
module Client {
  import opened Words
  import opened Protocol
  import opened Fragment
  import opened JitterBuffer
  import opened JitterRuns
  import opened Sender

  predicate HasFlag(flags: Byte, mask: Byte)
    requires mask > 0
  {
    flags / mask % 2 == 1
  }

  // ---------------------------------------------------------------------------
  // Receiving
  // ---------------------------------------------------------------------------

  function ItemOf(h: Header, payload: seq<Byte>, now: u64): Item {
    Item(h.seqNo, h.tsUs, h.stream, h.flags, payload, now)
  }

  /** One datagram. `now` and `later` are the clock readings of the first push and of the push after a
      reset: any refused keyframe packet, even a mere duplicate, rebases the whole buffer on itself. */
  function Receive(b: Buffer, d: seq<Byte>, now: u64, later: u64): Buffer {
    match Decode(d)
    case Rejected(_) => b
    case Accepted(h, payload) =>
      if h.stream != STREAM_VIDEO then b
      else
        var (c, status) := Push(b, ItemOf(h, payload, now));
        if status != Ok && HasFlag(h.flags, FLAG_KEYFRAME)
        then Push(Empty(h.seqNo, 0), ItemOf(h, payload, later)).0
        else c
  }

  // ---------------------------------------------------------------------------
  // Reassembly of what is played out
  // ---------------------------------------------------------------------------

  function PacketOf(it: Item): Packet {
    Packet(it.seqNo, it.tsUs, it.flags, it.payload)
  }

  /** The access units handed to the decoder when one packet is played out: at most one. */
  function Handle(a: Assembly, p: Packet): (Assembly, seq<seq<Byte>>) {
    if !HasFlag(p.flags, FLAG_FRAGMENTED) then (a, [p.payload])
    else if |p.payload| < 4 then (a, [])
    else
      var f := Feed(a, AU_MAX, Unpack(p.payload));
      (f.next, if f.status == Ok && |f.au| > 0 then [f.au] else [])
  }

  function HandleAll(a: Assembly, ps: seq<Packet>): (Assembly, seq<seq<Byte>>) {
    if ps == [] then (a, [])
    else
      var (b, out) := HandleAll(a, ps[..|ps| - 1]);
      var (c, more) := Handle(b, ps[|ps| - 1]);
      (c, out + more)
  }

  function PacketsOf(items: seq<Item>): (ps: seq<Packet>)
    ensures |ps| == |items|
    ensures forall i :: 0 <= i < |ps| ==> ps[i] == PacketOf(items[i])
  {
    seq(|items|, i requires 0 <= i < |items| => PacketOf(items[i]))
  }

  /** Assembler and deliveries after playing out `items`. */
  function PlayOut(a: Assembly, delivered: seq<seq<Byte>>, items: seq<Item>): (Assembly, seq<seq<Byte>>) {
    var (b, out) := HandleAll(a, PacketsOf(items));
    (b, delivered + out)
  }

  lemma PlayOutNothing(a: Assembly, delivered: seq<seq<Byte>>)
    ensures PlayOut(a, delivered, []) == (a, delivered)
  {
    assert PacketsOf([]) == [] && delivered + [] == delivered;
  }

  lemma DrainEnd(b: Buffer, clock: nat -> u64, k: nat)
    requires Unique(b.slots) && Peek(b, clock(k)).1.None?
    ensures Drain(b, clock, k) == ([], Peek(b, clock(k)).0)
  {
  }

  lemma PlayOutStep(a: Assembly, delivered: seq<seq<Byte>>, items: seq<Item>, it: Item)
    ensures var (b, out) := PlayOut(a, delivered, items);
            var (c, more) := Handle(b, PacketOf(it));
            PlayOut(a, delivered, items + [it]) == (c, out + more)
  {
    hide Handle;
    var ps := PacketsOf(items + [it]);
    assert ps[..|items|] == PacketsOf(items) && ps[|items|] == PacketOf(it);
    var (b, out) := HandleAll(a, PacketsOf(items));
    var (c, more) := Handle(b, PacketOf(it));
    assert delivered + (out + more) == (delivered + out) + more;
  }

  lemma DrainStep(b: Buffer, clock: nat -> u64, k: nat)
    requires Unique(b.slots) && Peek(b, clock(k)).1.Some?
    ensures var (c, r) := Peek(b, clock(k));
            && c.slots == b.slots && r.value in Items(c.slots) && c.nextSeq == r.value.seqNo
            && Unique(Consume(c).slots) && |Items(Consume(c).slots)| < |Items(b.slots)|
            && Drain(b, clock, k) == ([r.value] + Drain(Consume(c), clock, k + 1).0, Drain(Consume(c), clock, k + 1).1)
  {
    PlayedIsHeld(b, clock(k));
    var (c, r) := Peek(b, clock(k));
    ConsumeTakes(c, r.value);
  }

  // ---------------------------------------------------------------------------
  // The code
  // ---------------------------------------------------------------------------

  class ThinClient {
    const jb: Jitter
    const frag: Assembler
    var delivered: seq<seq<Byte>>

    ghost predicate Valid()
      reads this, jb, frag, jb.slots, frag.buf
    {
      && jb.Valid() && Unique(jb.slots[..])
      && frag.Valid() && frag.cap == AU_MAX
    }

    constructor (targetDelay: u64, auBuffer: array<Byte>)
      requires auBuffer.Length == AU_MAX
      ensures Valid() && fresh(jb) && fresh(frag) && fresh(jb.slots) && frag.buf == auBuffer
      ensures jb.State() == Empty(0, targetDelay) && frag.State() == RESET && delivered == []
    {
      jb := new Jitter(targetDelay);
      frag := new Assembler(auBuffer, AU_MAX);
      delivered := [];
    }

    method OnDatagram(pkt: array<Byte>, n: nat, now: u64, later: u64)
      requires Valid() && n <= pkt.Length
      modifies jb, jb.slots
      ensures Valid() && jb.slots == old(jb.slots)
      ensures jb.State() == Receive(old(jb.State()), pkt[..n], now, later)
    {
      var d := DecodeDatagram(pkt, n);
      PushKeepsUnique(jb.State(), d, now, later);
      if d.Rejected? || d.header.stream != STREAM_VIDEO {
        return;
      }
      var status := jb.PushItem(ItemOf(d.header, d.payload, now));
      if status != Ok && HasFlag(d.header.flags, FLAG_KEYFRAME) {
        jb.Reset(d.header.seqNo);
        status := jb.PushItem(ItemOf(d.header, d.payload, later));
      }
    }

    /** The drain loop; `clock` gives the reading at each peek. */
    method DrainPlayable(clock: nat -> u64)
      requires Valid()
      requires frag.buf as object != jb.slots as object
      modifies this, jb, jb.slots, frag, frag.buf
      ensures Valid() && jb.slots == old(jb.slots) && frag.buf == old(frag.buf)
      ensures jb.State() == Drain(old(jb.State()), clock, 0).1
      ensures (frag.State(), delivered) ==
              PlayOut(old(frag.State()), old(delivered), Drain(old(jb.State()), clock, 0).0)
    {
      hide Peek, Consume, Handle, Items, Unique, PlayOut, Drain;
      ghost var b0, a0, b, done := jb.State(), frag.State(), jb.State(), [];
      var k := 0;
      PlayOutNothing(a0, delivered);
      assert Drain(b0, clock, 0).0 == done + Drain(b0, clock, 0).0;
      var slot := jb.PeekItem(clock(k));
      while slot.Some?
        invariant Valid() && jb.slots == old(jb.slots) && frag.buf == old(frag.buf)
        invariant Unique(b.slots) && (jb.State(), slot) == Peek(b, clock(k))
        invariant Drain(b0, clock, 0) == (done + Drain(b, clock, k).0, Drain(b, clock, k).1)
        invariant (frag.State(), delivered) == PlayOut(a0, old(delivered), done)
        decreases |Items(b.slots)|
      {
        DrainStep(b, clock, k);
        PlayOutStep(a0, old(delivered), done, slot.value);
        ghost var rest := Drain(Consume(jb.State()), clock, k + 1).0;
        assert done + ([slot.value] + rest) == (done + [slot.value]) + rest;
        done := done + [slot.value];
        PlayOne(slot.value);
        b := jb.State();
        k := k + 1;
        slot := jb.PeekItem(clock(k));
      }
      DrainEnd(b, clock, k);
      assert done + [] == done;
    }

    /** Hand one played item on and free its slot. */
    method PlayOne(it: Item)
      requires Valid() && Unique(jb.slots[..]) && it in Items(jb.slots[..]) && jb.nextSeq == it.seqNo
      requires frag.buf as object != jb.slots as object
      modifies this, jb, jb.slots, frag, frag.buf
      ensures Valid() && jb.slots == old(jb.slots) && frag.buf == old(frag.buf)
      ensures jb.State() == Consume(old(jb.State()))
      ensures (frag.State(), delivered) ==
              var (a, out) := Handle(old(frag.State()), PacketOf(it)); (a, old(delivered) + out)
    {
      ConsumeTakes(jb.State(), it);
      DeliverSlot(PacketOf(it));
      jb.ConsumeItem();
    }

    method DeliverSlot(p: Packet)
      requires Valid()
      requires frag.buf as object != jb.slots as object
      modifies this, frag, frag.buf
      ensures Valid() && frag.buf == old(frag.buf)
      ensures (frag.State(), delivered) ==
              var (a, out) := Handle(old(frag.State()), p); (a, old(delivered) + out)
    {
      assert delivered + [] == delivered;
      if HasFlag(p.flags, FLAG_FRAGMENTED) {
        if |p.payload| >= 4 {
          var status, auLen := frag.FeedPiece(Unpack(p.payload));
          if status == Ok && auLen > 0 {
            delivered := delivered + [frag.buf[..auLen]];
          }
        }
      } else {
        delivered := delivered + [p.payload];
      }
    }
  }

  lemma PushUnique(b: Buffer, it: Item)
    requires Unique(b.slots)
    ensures Unique(Push(b, it).0.slots)
  {
    if Push(b, it).1 == Ok {
      ItemsAdded(b.slots, FindFree(b.slots), Clip(it));
    }
  }

  lemma PushKeepsUnique(b: Buffer, d: Decoded, now: u64, later: u64)
    requires Unique(b.slots)
    ensures d.Accepted? ==> Unique(Push(b, ItemOf(d.header, d.payload, now)).0.slots)
    ensures d.Accepted? ==> Unique(Push(Empty(d.header.seqNo, 0), ItemOf(d.header, d.payload, later)).0.slots)
  {
    if d.Accepted? {
      PushUnique(b, ItemOf(d.header, d.payload, now));
      PushUnique(Empty(d.header.seqNo, 0), ItemOf(d.header, d.payload, later));
    }
  }

  /** The datagram is a keyframe packet that the jitter buffer refuses. */
  predicate RefusedKeyframe(b: Buffer, d: seq<Byte>, now: u64) {
    && Decode(d).Accepted? && Decode(d).header.stream == STREAM_VIDEO
    && HasFlag(Decode(d).header.flags, FLAG_KEYFRAME)
    && Push(b, ItemOf(Decode(d).header, Decode(d).payload, now)).1 != Ok
  }

  /** Any refused keyframe packet throws away everything buffered, and the target delay with it. */
  lemma RefusedKeyframeWipes(b: Buffer, d: seq<Byte>, now: u64, later: u64)
    requires RefusedKeyframe(b, d, now)
    ensures var Accepted(h, payload) := Decode(d);
            var c := Receive(b, d, now, later);
            Items(c.slots) == {Clip(ItemOf(h, payload, later))} && c.targetDelay == 0
  {
    hide Decode, HasFlag;
    var Accepted(h, payload) := Decode(d);
    var e := Empty(h.seqNo, 0);
    var it := ItemOf(h, payload, later);
    EmptyItems(h.seqNo, 0);
    ItemsAdded(e.slots, FindFree(e.slots), Clip(it));
    assert SeqCmp(h.seqNo, h.seqNo) == 0;
    assert Push(e, it).1 == Ok;
  }

  /** Receiving keeps what is buffered and the target delay if and only if the datagram is not a refused
      keyframe packet, or there was nothing to lose: no delay, and nothing buffered but that packet. */
  lemma BufferKeptIff(b: Buffer, d: seq<Byte>, now: u64, later: u64)
    requires Unique(b.slots)
    ensures var c := Receive(b, d, now, later);
            Items(b.slots) <= Items(c.slots) && c.targetDelay == b.targetDelay <==>
              (RefusedKeyframe(b, d, now) ==>
                 b.targetDelay == 0 && Items(b.slots) <= {Clip(ItemOf(Decode(d).header, Decode(d).payload, later))})
  {
    hide Decode, HasFlag, Items, Unique;
    if RefusedKeyframe(b, d, now) {
      RefusedKeyframeWipes(b, d, now, later);
    } else if Decode(d).Accepted? && Decode(d).header.stream == STREAM_VIDEO {
      var it := ItemOf(Decode(d).header, Decode(d).payload, now);
      if Push(b, it).1 == Ok {
        ItemsAdded(b.slots, FindFree(b.slots), Clip(it));
      }
    }
  }
}
