/** Reassembly of what is left of a stream after any loss, duplication and reordering. */
module Lossy {
  import opened Words
  import opened Protocol
  import opened Fragment
  import opened JitterBuffer
  import opened JitterRuns
  import opened Sender
  import opened Client
  import opened Reassembly

  // ---------------------------------------------------------------------------
  // Successive fragments
  // ---------------------------------------------------------------------------

  predicate IsFragment(p: Packet) {
    HasFlag(p.flags, FLAG_FRAGMENTED) && |p.payload| >= 4
  }

  function LastFragment(ps: seq<Packet>): (f: Option<Packet>)
    ensures f.Some? ==> IsFragment(f.value)
  {
    if ps == [] then None
    else if IsFragment(ps[|ps| - 1]) then Some(ps[|ps| - 1])
    else LastFragment(ps[..|ps| - 1])
  }

  /** By frame id and index, `q` is the fragment after `p`. */
  predicate LooksNext(p: Packet, q: Packet)
    requires IsFragment(p) && IsFragment(q)
  {
    Unpack(q.payload).frameId == Unpack(p.payload).frameId && Unpack(q.payload).index == Unpack(p.payload).index + 1
  }

  /** Whenever a fragment looks like the one after the fragment played before it, it is: their sequence
      numbers are consecutive too. */
  predicate Unmistaken(ps: seq<Packet>) {
    ps != [] ==>
      var q := ps[|ps| - 1];
      var f := LastFragment(ps[..|ps| - 1]);
      && Unmistaken(ps[..|ps| - 1])
      && (f.Some? && IsFragment(q) && LooksNext(f.value, q) ==> q.seqNo == Plus(f.value.seqNo, 1))
  }

  /** Packets `ns` of the stream, in that order. */
  function At(ps: seq<Packet>, ns: seq<nat>): (r: seq<Packet>)
    requires forall k :: 0 <= k < |ns| ==> ns[k] < |ps|
    ensures |r| == |ns| && forall k :: 0 <= k < |r| ==> r[k] == ps[ns[k]]
  {
    seq(|ns|, k requires 0 <= k < |ns| => ps[ns[k]])
  }

  lemma AtSnoc(ps: seq<Packet>, ns: seq<nat>, n: nat)
    requires (forall k :: 0 <= k < |ns| ==> ns[k] < |ps|) && n < |ps|
    ensures At(ps, ns + [n]) == At(ps, ns) + [ps[n]]
    ensures Unmistaken(At(ps, ns + [n])) ==> Unmistaken(At(ps, ns))
    ensures LastFragment(At(ps, ns + [n])) == if IsFragment(ps[n]) then Some(ps[n]) else LastFragment(At(ps, ns))
  {
    hide IsFragment;
    var all := At(ps, ns + [n]);
    assert all == At(ps, ns) + [ps[n]];
    assert all[..|ns|] == At(ps, ns);
  }

  // ---------------------------------------------------------------------------
  // The state after some packets
  // ---------------------------------------------------------------------------

  /** Numbers below `n`, each greater than the one before. */
  ghost predicate Rising(js: seq<nat>, n: nat) {
    && (forall k :: 0 <= k < |js| ==> js[k] < n)
    && (forall k, l :: 0 <= k < l < |js| ==> js[k] < js[l])
  }

  function Datas(aus: seq<Au>, js: seq<nat>): (ds: seq<seq<Byte>>)
    requires forall k :: 0 <= k < |js| ==> js[k] < |aus|
    ensures |ds| == |js|
  {
    seq(|js|, k requires 0 <= k < |js| => aus[js[k]].data)
  }

  /** The assembler holds the first `i + 1` pieces of access unit `j`, of which `f` is the last. */
  ghost predicate Collecting(aus: seq<Au>, first: u32, f: Option<Packet>, asm: Assembly, j: nat, i: nat) {
    && j < |aus| && Fragmented(aus[j]) && i + 1 < PieceCount(aus[j])
    && (i + 1) * CHUNK <= AU_MAX && (i + 1) * CHUNK <= |aus[j].data|
    && asm == Assembly(FrameId(aus, first, j), i + 1, aus[j].data[..(i + 1) * CHUNK], true)
    && f == Some(PacketAt(aus[j], Plus(first, Before(aus, j)), i))
  }

  ghost predicate Collects(aus: seq<Au>, first: u32, f: Option<Packet>, asm: Assembly) {
    asm.started ==> exists j: nat, i: nat :: Collecting(aus, first, f, asm, j, i)
  }

  /** `js` are the access units delivered by playing packets `ns`; the `k`-th came with the last packet of
      that access unit, played at time `ends[k]`. */
  ghost predicate Completed(aus: seq<Au>, ns: seq<nat>, js: seq<nat>, ends: seq<nat>) {
    && |js| == |ends| && Rising(ends, |ns|)
    && (forall k :: 0 <= k < |js| ==> js[k] < |aus| && ns[ends[k]] + 1 == Before(aus, js[k] + 1))
  }

  // ---------------------------------------------------------------------------
  // One more packet
  // ---------------------------------------------------------------------------

  lemma FreshFeed(a: Assembly, p: Piece)
    requires Fresh(a, p.frameId)
    ensures Feed(a, AU_MAX, p) == Feed(RESET, AU_MAX, p)
  {
  }

  /** The piece that continues by sequence number continues the same access unit. */
  lemma SameUnit(aus: seq<Au>, first: u32, j: nat, i: nat, j': nat)
    requires Before(aus, |aus|) <= TWO32 && j < |aus| && j' < |aus|
    requires i + 1 < PieceCount(aus[j]) && i + 1 < PieceCount(aus[j'])
    requires Plus(Plus(first, Before(aus, j')), i + 1) == Plus(Plus(Plus(first, Before(aus, j)), i), 1)
    ensures j == j'
  {
    hide PieceCount, Plus;
    var x, y := Before(aus, j), Before(aus, j');
    EndsBefore(aus, j);
    EndsBefore(aus, j');
    PlusAssoc(first, y, i + 1);
    PlusAssoc(first, x, i);
    PlusAssoc(first, x + i, 1);
    SameNumber(first, x + i + 1, y + i + 1);
    if j < j' { BeforeGrows(aus, j, j'); }
    if j' < j { BeforeGrows(aus, j', j); }
  }

  lemma EndsBefore(aus: seq<Au>, j: nat)
    requires j < |aus|
    ensures Before(aus, j) + PieceCount(aus[j]) == Before(aus, j + 1) <= Before(aus, |aus|)
  {
    BeforeMonotone(aus, j + 1, |aus|);
  }

  /** What feeding a fragment does. */
  lemma FragmentFed(aus: seq<Au>, first: u32, f: Option<Packet>, asm: Assembly, j': nat, i': nat)
    requires Before(aus, |aus|) <= TWO32 && Collects(aus, first, f, asm)
    requires j' < |aus| && Fragmented(aus[j']) && i' < PieceCount(aus[j'])
    requires var q := PacketAt(aus[j'], Plus(first, Before(aus, j')), i');
             f.Some? && IsFragment(f.value) && IsFragment(q) && LooksNext(f.value, q) ==>
               q.seqNo == Plus(f.value.seqNo, 1)
    ensures var q := PacketAt(aus[j'], Plus(first, Before(aus, j')), i');
            var fed := Feed(asm, AU_MAX, PieceAt(aus[j'], Plus(first, Before(aus, j')), i'));
            && (fed.next.started ==> fed.au == [] && Collecting(aus, first, Some(q), fed.next, j', i'))
            && (fed.au != [] ==> fed.status == Ok && i' + 1 == PieceCount(aus[j']) && fed.au == aus[j'].data)
  {
    hide HasFlag, PieceCount, Before, ChunkAt, PackHeader, Unpack, Flags, PayloadAt, Collecting;
    var base := Plus(first, Before(aus, j'));
    var p := PieceAt(aus[j'], base, i');
    PieceInside(aus[j'], i');
    if Fresh(asm, p.frameId) {
      FreshFeed(asm, p);
      if i' == 0 {
        FeedNextPiece(RESET, aus[j'], base, 0);
        TwoPieces(aus[j']);
        NowCollecting(aus, first, Feed(asm, AU_MAX, p).next, j', 0);
      }
    } else if p.index == asm.nextIndex {
      var j: nat, i: nat :| Collecting(aus, first, f, asm, j, i);
      Continues(aus, first, f, asm, j, i, j', i');
      FeedNextPiece(asm, aus[j'], base, i');
      if i' + 1 < PieceCount(aus[j']) {
        NowCollecting(aus, first, Feed(asm, AU_MAX, p).next, j', i');
      }
    }
  }

  /** A fragment that goes on where the assembler stands belongs to the access unit it holds. */
  lemma Continues(aus: seq<Au>, first: u32, f: Option<Packet>, asm: Assembly, j: nat, i: nat, j': nat, i': nat)
    requires Before(aus, |aus|) <= TWO32 && Collecting(aus, first, f, asm, j, i)
    requires j' < |aus| && Fragmented(aus[j']) && i' < PieceCount(aus[j'])
    requires FrameId(aus, first, j') == asm.frameId && i' == asm.nextIndex
    requires var q := PacketAt(aus[j'], Plus(first, Before(aus, j')), i');
             f.Some? && IsFragment(f.value) && IsFragment(q) && LooksNext(f.value, q) ==>
               q.seqNo == Plus(f.value.seqNo, 1)
    ensures j == j' && i' == i + 1 && (i + 1) * CHUNK <= AU_MAX
    ensures asm == Assembly(FrameId(aus, first, j), i', aus[j].data[..i' * CHUNK], true)
  {
    hide HasFlag, PieceCount, Before, ChunkAt, PackHeader, Unpack, Flags, PayloadAt;
    var base, base' := Plus(first, Before(aus, j)), Plus(first, Before(aus, j'));
    PacketUnpacks(aus[j], base, i);
    PacketUnpacks(aus[j'], base', i');
    PayloadLong(aus[j], base, i);
    PayloadLong(aus[j'], base', i');
    SameUnit(aus, first, j, i, j');
  }

  lemma NowCollecting(aus: seq<Au>, first: u32, asm: Assembly, j: nat, i: nat)
    requires j < |aus| && Fragmented(aus[j]) && i + 1 < PieceCount(aus[j])
    ensures (i + 1) * CHUNK <= |aus[j].data|
    ensures && (i + 1) * CHUNK <= AU_MAX
            && asm == Assembly(FrameId(aus, first, j), i + 1, aus[j].data[..(i + 1) * CHUNK], true)
            ==> Collecting(aus, first, Some(PacketAt(aus[j], Plus(first, Before(aus, j)), i)), asm, j, i)
  {
    hide PieceCount, Before, FrameId, PacketAt;
    PieceInside(aus[j], i + 1);
  }

  lemma OnePiece(au: Au, first: u32, i: nat)
    requires !Fragmented(au) && i < PieceCount(au)
    ensures i == 0 && PieceCount(au) == 1 && PacketAt(au, first, i).payload == au.data
  {
  }

  /** Playing packet `(j, i)`: it delivers nothing, or the whole of its access unit as its last packet. */
  lemma PacketPlayed(aus: seq<Au>, first: u32, f: Option<Packet>, asm: Assembly, j: nat, i: nat)
    requires Before(aus, |aus|) <= TWO32 && Collects(aus, first, f, asm)
    requires j < |aus| && i < PieceCount(aus[j])
    requires var q := PacketAt(aus[j], Plus(first, Before(aus, j)), i);
             f.Some? && IsFragment(f.value) && IsFragment(q) && LooksNext(f.value, q) ==>
               q.seqNo == Plus(f.value.seqNo, 1)
    ensures var q := PacketAt(aus[j], Plus(first, Before(aus, j)), i);
            var (b, more) := Handle(asm, q);
            && Collects(aus, first, if IsFragment(q) then Some(q) else f, b)
            && (more == [] || (more == [aus[j].data] && i + 1 == PieceCount(aus[j])))
  {
    hide HasFlag, PieceCount, Before, PacketAt, Unpack, Feed, FrameId, LooksNext, Collecting;
    var base := Plus(first, Before(aus, j));
    PacketUnpacks(aus[j], base, i);
    if Fragmented(aus[j]) {
      PayloadLong(aus[j], base, i);
      FragmentFed(aus, first, f, asm, j, i);
    } else {
      OnePiece(aus[j], base, i);
    }
  }

  // ---------------------------------------------------------------------------
  // Main results
  // ---------------------------------------------------------------------------

  lemma CompletedNext(aus: seq<Au>, ns: seq<nat>, n: nat, js: seq<nat>, ends: seq<nat>, j: nat)
    requires Completed(aus, ns, js, ends)
    ensures Completed(aus, ns + [n], js, ends)
    ensures j < |aus| && n + 1 == Before(aus, j + 1) ==>
              && Completed(aus, ns + [n], js + [j], ends + [|ns|])
              && Datas(aus, js + [j]) == Datas(aus, js) + [aus[j].data]
  {
    hide Before;
    assert forall k :: 0 <= k < |ends| ==> (ns + [n])[ends[k]] == ns[ends[k]];
  }

  /** Whatever packets of a stream are played, in whatever order and multiplicity: unless a fragment is
      mistaken for the next one of another access unit, everything delivered is a whole access unit, at
      the moment its last packet is played. */
  lemma {:induction false} DeliveredWhole(aus: seq<Au>, first: u32, ns: seq<nat>) returns (js: seq<nat>, ends: seq<nat>)
    requires |Stream(aus, first)| <= TWO32 && forall k :: 0 <= k < |ns| ==> ns[k] < |Stream(aus, first)|
    requires Unmistaken(At(Stream(aus, first), ns))
    ensures Completed(aus, ns, js, ends)
    ensures var (asm, out) := HandleAll(RESET, At(Stream(aus, first), ns));
            out == Datas(aus, js) && Collects(aus, first, LastFragment(At(Stream(aus, first), ns)), asm)
  {
    hide Stream, Collecting, Handle, Before, IsFragment, LooksNext, PieceCount, PacketAt;
    var ps := Stream(aus, first);
    StreamLength(aus, first);
    if ns == [] {
      NothingHandled(RESET);
      js, ends := [], [];
    } else {
      var m := |ns| - 1;
      var front, n := ns[..m], ns[m];
      assert ns == front + [n];
      AtSnoc(ps, front, n);
      js, ends := DeliveredWhole(aus, first, front);
      var before := At(ps, front);
      var (asm, out) := HandleAll(RESET, before);
      assert (before + [ps[n]])[..m] == before;
      HandledNext(RESET, before + [ps[n]]);
      var j, i := StreamOrigin(aus, first, n);
      PacketPlayed(aus, first, LastFragment(before), asm, j, i);
      EndsBefore(aus, j);
      CompletedNext(aus, front, n, js, ends, j);
      var more := Handle(asm, ps[n]).1;
      if more != [] {
        js, ends := js + [j], ends + [m];
      } else {
        assert out + more == out;
      }
    }
  }

  /** If the packets are moreover played in the order they were sent, and none twice, so are the access
      units delivered. */
  lemma DeliveredInOrder(aus: seq<Au>, first: u32, ns: seq<nat>) returns (js: seq<nat>)
    requires |Stream(aus, first)| <= TWO32 && Rising(ns, |Stream(aus, first)|)
    requires Unmistaken(At(Stream(aus, first), ns))
    ensures Rising(js, |aus|) && HandleAll(RESET, At(Stream(aus, first), ns)).1 == Datas(aus, js)
  {
    hide Stream, Collects, Before, Unmistaken, HandleAll;
    var ends;
    js, ends := DeliveredWhole(aus, first, ns);
    forall k, l | 0 <= k < l < |js|
      ensures js[k] < js[l]
    {
      assert ns[ends[k]] < ns[ends[l]];
      if js[l] <= js[k] { BeforeMonotone(aus, js[l] + 1, js[k] + 1); }
    }
  }

  lemma {:induction false} Positions(ps: seq<Packet>, played: seq<Packet>) returns (ns: seq<nat>)
    requires forall p :: p in played ==> p in ps
    ensures (forall k :: 0 <= k < |ns| ==> ns[k] < |ps|) && At(ps, ns) == played
  {
    if played == [] {
      ns := [];
    } else {
      var m := |played| - 1;
      var front := Positions(ps, played[..m]);
      assert played[m] in ps;
      var n: nat :| n < |ps| && ps[n] == played[m];
      ns := front + [n];
      assert played == played[..m] + [played[m]];
    }
  }

  lemma OnlyWholeAus(aus: seq<Au>, first: u32, played: seq<Packet>)
    requires |Stream(aus, first)| <= TWO32 && (forall p :: p in played ==> p in Stream(aus, first))
    requires Unmistaken(played)
    ensures forall d :: d in HandleAll(RESET, played).1 ==> exists j :: 0 <= j < |aus| && d == aus[j].data
  {
    hide Stream, Collects, Before, Unmistaken, HandleAll;
    var ns := Positions(Stream(aus, first), played);
    var js, ends := DeliveredWhole(aus, first, ns);
    forall d | d in HandleAll(RESET, played).1
      ensures exists j :: 0 <= j < |aus| && d == aus[j].data
    {
      var k :| 0 <= k < |js| && d == Datas(aus, js)[k];
      assert d == aus[js[k]].data;
    }
  }

  // ---------------------------------------------------------------------------
  // When nothing is mistaken
  // ---------------------------------------------------------------------------

  /** The number in the stream of the last fragment played. */
  function LastFragmentAt(ps: seq<Packet>, ns: seq<nat>): (n: Option<nat>)
    requires forall k :: 0 <= k < |ns| ==> ns[k] < |ps|
    ensures n.Some? ==> n.value < |ps| && IsFragment(ps[n.value])
  {
    if ns == [] then None
    else if IsFragment(ps[ns[|ns| - 1]]) then Some(ns[|ns| - 1])
    else LastFragmentAt(ps, ns[..|ns| - 1])
  }

  /** No fragment is played more than 2^16 packets after the previous one, or 2^16 - 1 or more before it. */
  predicate Near(ps: seq<Packet>, ns: seq<nat>)
    requires forall k :: 0 <= k < |ns| ==> ns[k] < |ps|
  {
    ns != [] ==>
      var n := ns[|ns| - 1];
      var m := LastFragmentAt(ps, ns[..|ns| - 1]);
      && Near(ps, ns[..|ns| - 1])
      && (m.Some? && IsFragment(ps[n]) ==> -0xFFFF < n - m.value <= 0x1_0000)
  }

  lemma {:induction false} LastFragmentIs(ps: seq<Packet>, ns: seq<nat>)
    requires forall k :: 0 <= k < |ns| ==> ns[k] < |ps|
    ensures var n := LastFragmentAt(ps, ns);
            LastFragment(At(ps, ns)) == if n.Some? then Some(ps[n.value]) else None
  {
    hide IsFragment;
    if ns != [] {
      var m := |ns| - 1;
      LastFragmentIs(ps, ns[..m]);
      assert ns == ns[..m] + [ns[m]];
      AtSnoc(ps, ns[..m], ns[m]);
    }
  }

  /** A fragment that looks like the next one but is not belongs to another access unit with the same
      frame id, and so is at least a period away. */
  lemma LookAlikes(aus: seq<Au>, first: u32, m: nat, n: nat) returns (j: nat, j': nat)
    requires m < |Stream(aus, first)| && n < |Stream(aus, first)|
    requires IsFragment(Stream(aus, first)[m]) && IsFragment(Stream(aus, first)[n])
    requires LooksNext(Stream(aus, first)[m], Stream(aus, first)[n])
    ensures j < |aus| && j' < |aus| && Fragmented(aus[j]) && Fragmented(aus[j'])
    ensures FrameId(aus, first, j) == FrameId(aus, first, j')
    ensures if j == j' then n == m + 1 else n - m >= 0x1_0001 || n - m <= -0xFFFF
  {
    hide HasFlag, PieceCount, Before, Stream, PacketAt, Unpack, FrameId;
    var i, i';
    j, i := StreamOrigin(aus, first, m);
    j', i' := StreamOrigin(aus, first, n);
    PacketUnpacks(aus[j], Plus(first, Before(aus, j)), i);
    PacketUnpacks(aus[j'], Plus(first, Before(aus, j')), i');
    FragmentIds(aus, first, j, i);
    FragmentIds(aus, first, j', i');
    if j < j' { SameIdFar(aus, first, j, j'); }
    if j' < j { SameIdFar(aus, first, j', j); }
  }

  lemma FragmentIds(aus: seq<Au>, first: u32, j: nat, i: nat)
    requires j < |aus| && Fragmented(aus[j]) && i < PieceCount(aus[j])
    ensures var p := PieceAt(aus[j], Plus(first, Before(aus, j)), i);
            p.frameId == FrameId(aus, first, j) && p.index == i
  {
  }

  /** The step of the two lemmas below. */
  lemma NextUnmistaken(aus: seq<Au>, first: u32, ns: seq<nat>, n: nat)
    requires forall k :: 0 <= k < |ns| ==> ns[k] < |Stream(aus, first)|
    requires n < |Stream(aus, first)| && Unmistaken(At(Stream(aus, first), ns))
    requires var ps := Stream(aus, first);
             var m := LastFragmentAt(ps, ns);
             m.Some? && IsFragment(ps[n]) && LooksNext(ps[m.value], ps[n]) ==> n == m.value + 1
    ensures Unmistaken(At(Stream(aus, first), ns + [n]))
  {
    hide Stream, IsFragment, LooksNext, Plus, At, Unmistaken, LastFragment, LastFragmentAt, PieceCount;
    var ps := Stream(aus, first);
    AtSnoc(ps, ns, n);
    LastFragmentIs(ps, ns);
    StreamNumbered(aus, first);
    var m := LastFragmentAt(ps, ns);
    if m.Some? { PlusAssoc(first, m.value, 1); }
    UnmistakenSnoc(At(ps, ns), ps[n]);
  }

  lemma UnmistakenSnoc(ps: seq<Packet>, q: Packet)
    ensures var f := LastFragment(ps);
            Unmistaken(ps + [q]) <==>
              && Unmistaken(ps)
              && (f.Some? && IsFragment(q) && LooksNext(f.value, q) ==> q.seqNo == Plus(f.value.seqNo, 1))
  {
    hide IsFragment, LooksNext, Plus;
    assert (ps + [q])[..|ps|] == ps;
  }

  /** While the fragments played are near, nothing is mistaken, however long the stream. */
  lemma {:induction false} NearIsUnmistaken(aus: seq<Au>, first: u32, ns: seq<nat>)
    requires forall k :: 0 <= k < |ns| ==> ns[k] < |Stream(aus, first)|
    requires Near(Stream(aus, first), ns)
    ensures Unmistaken(At(Stream(aus, first), ns))
  {
    hide Stream, IsFragment, LooksNext, Unmistaken;
    var ps := Stream(aus, first);
    if ns == [] {
      NothingMistaken(At(ps, ns));
    } else {
      var front, n := ns[..|ns| - 1], ns[|ns| - 1];
      NearIsUnmistaken(aus, first, front);
      var m := LastFragmentAt(ps, front);
      if m.Some? && IsFragment(ps[n]) && LooksNext(ps[m.value], ps[n]) {
        var j, j' := LookAlikes(aus, first, m.value, n);
      }
      NextUnmistaken(aus, first, front, n);
      assert ns == front + [n];
    }
  }

  /** And where no two fragmented access units share a frame id, nothing is mistaken at all. */
  lemma {:induction false} DistinctIsUnmistaken(aus: seq<Au>, first: u32, ns: seq<nat>)
    requires forall k :: 0 <= k < |ns| ==> ns[k] < |Stream(aus, first)|
    requires DistinctIds(aus, first)
    ensures Unmistaken(At(Stream(aus, first), ns))
  {
    hide Stream, IsFragment, LooksNext, Unmistaken;
    var ps := Stream(aus, first);
    if ns == [] {
      NothingMistaken(At(ps, ns));
    } else {
      var front, n := ns[..|ns| - 1], ns[|ns| - 1];
      DistinctIsUnmistaken(aus, first, front);
      var m := LastFragmentAt(ps, front);
      if m.Some? && IsFragment(ps[n]) && LooksNext(ps[m.value], ps[n]) {
        var j, j' := LookAlikes(aus, first, m.value, n);
      }
      NextUnmistaken(aus, first, front, n);
      assert ns == front + [n];
    }
  }

  lemma NothingMistaken(ps: seq<Packet>)
    requires ps == []
    ensures Unmistaken(ps)
  {
  }

  /** The bound is tight: where two access units start 2^16 packets apart, a fragment of the one played
      2^16 + 1 packets after a fragment of the other is mistaken, and a mixture delivered. */
  lemma PeriodMixes(aus: seq<Au>, first: u32, j: nat, j': nat, c: nat)
    requires j < |aus| && j' < |aus| && Fragmented(aus[j]) && Fragmented(aus[j']) && |aus[j'].data| <= AU_MAX
    requires Before(aus, j') == Before(aus, j) + 0x1_0000
    requires 0 < c < PieceCount(aus[j]) && c < PieceCount(aus[j'])
    ensures (Before(aus, j') + c) - (Before(aus, j) + c - 1) == 0x1_0001
    ensures c * CHUNK <= |aus[j].data| && c * CHUNK <= |aus[j'].data|
    ensures var ps := Packets(aus[j], Plus(first, Before(aus, j)));
            var qs := Packets(aus[j'], Plus(first, Before(aus, j')));
            HandleAll(RESET, ps[..c] + qs[c..]).1 == [aus[j].data[..c * CHUNK] + aus[j'].data[c * CHUNK..]]
  {
    hide HandleAll, Before, PieceCount, PacketAt, FrameId;
    PeriodApart(aus, first, j, j');
    SharedIdMixes(aus, first, j, j', c);
  }
}
