/** Sender packetisation against client reassembly: in order, and under any loss. */
module Reassembly {
  import opened Words
  import opened Protocol
  import opened Fragment
  import opened JitterBuffer
  import opened JitterRuns
  import opened Sender
  import opened Client

  // ---------------------------------------------------------------------------
  // One access unit
  // ---------------------------------------------------------------------------

  function Pieces(au: Au, first: u32): (ps: seq<Piece>)
    requires Fragmented(au)
    ensures |ps| == PieceCount(au)
    ensures forall i :: 0 <= i < |ps| ==> ps[i] == PieceAt(au, first, i)
  {
    seq(PieceCount(au), i requires 0 <= i < PieceCount(au) => PieceAt(au, first, i))
  }

  /** Where the first `k` chunks end. */
  function JoinedLength(au: Au, k: nat): nat {
    if k == PieceCount(au) then |au.data| else k * CHUNK
  }

  lemma NextChunk(au: Au, k: nat)
    requires Fragmented(au) && 0 < k <= PieceCount(au)
    ensures (k - 1) * CHUNK < |au.data| && JoinedLength(au, k - 1) == (k - 1) * CHUNK
    ensures JoinedLength(au, k) <= |au.data|
    ensures au.data[..(k - 1) * CHUNK] + ChunkAt(au.data, k - 1) == au.data[..JoinedLength(au, k)]
  {
    hide PieceCount;
    PieceInside(au, k - 1);
    if k < PieceCount(au) { PieceInside(au, k); }
  }

  lemma {:induction false} PiecesJoined(au: Au, first: u32, k: nat)
    requires Fragmented(au) && k <= PieceCount(au)
    ensures JoinedLength(au, k) <= |au.data| && Chunks(Pieces(au, first)[..k]) == au.data[..JoinedLength(au, k)]
  {
    hide PieceCount, ChunkAt, JoinedLength;
    var ps := Pieces(au, first);
    if k == 0 {
      assert JoinedLength(au, 0) == 0 by { NextChunk(au, 1); }
      assert ps[..0] == [];
    } else {
      NextChunk(au, k);
      PiecesJoined(au, first, k - 1);
      assert ps[..k][..k - 1] == ps[..k - 1] && ps[..k][k - 1] == ps[k - 1];
      assert ps[k - 1].chunk == ChunkAt(au.data, k - 1);
    }
  }

  lemma PiecesComplete(au: Au, first: u32)
    requires Fragmented(au)
    ensures Complete(Pieces(au, first)) && Chunks(Pieces(au, first)) == au.data
  {
    PiecesJoined(au, first, PieceCount(au));
    assert Pieces(au, first)[..PieceCount(au)] == Pieces(au, first);
  }

  lemma PacketUnpacks(au: Au, first: u32, i: nat)
    requires i < PieceCount(au)
    ensures HasFlag(PacketAt(au, first, i).flags, FLAG_FRAGMENTED) <==> Fragmented(au)
    ensures Fragmented(au) ==> Unpack(PacketAt(au, first, i).payload) == PieceAt(au, first, i)
  {
    if Fragmented(au) {
      var p := PieceAt(au, first, i);
      UnpackOfPacked(p.frameId, p.index, p.last, p.chunk);
    }
  }

  /** What the client's assembler can hold of an access unit. */
  function Deliverable(au: Au): seq<seq<Byte>> {
    if |au.data| <= AU_MAX then [au.data] else []
  }

  /** Playing the packets of an access unit in order, up to the `k`-th. */
  ghost predicate PlayedPart(a: Assembly, au: Au, first: u32, k: nat)
    requires Fragmented(au) && k <= PieceCount(au)
  {
    var (b, out) := HandleAll(a, Packets(au, first)[..k]);
    && (k < PieceCount(au) ==> out == [])
    && (k == PieceCount(au) ==> out == Deliverable(au) && !b.started)
    && (0 < k < PieceCount(au) ==>
          if k * CHUNK <= AU_MAX then b == Assembly(first % 0x1_0000, k, au.data[..k * CHUNK], true) else !b.started)
    && (k == 0 ==> b == a)
  }

  lemma {:induction false} PartPlayed(a: Assembly, au: Au, first: u32, k: nat)
    requires Fragmented(au) && k <= PieceCount(au) && !a.started
    requires k < PieceCount(au) ==> k * CHUNK < |au.data|
    ensures PlayedPart(a, au, first, k)
  {
    hide *;
    if k == 0 {
      NothingPlayed(a, au, first);
    } else {
      PieceInside(au, k - 1);
      PartPlayed(a, au, first, k - 1);
      PartPlayedNext(a, au, first, k - 1);
    }
  }

  lemma NothingPlayed(a: Assembly, au: Au, first: u32)
    requires Fragmented(au)
    ensures PlayedPart(a, au, first, 0)
  {
    assert Packets(au, first)[..0] == [];
  }

  lemma PartPlayedNext(a: Assembly, au: Au, first: u32, k: nat)
    requires Fragmented(au) && k < PieceCount(au) && !a.started && k * CHUNK < |au.data|
    requires PlayedPart(a, au, first, k)
    ensures PlayedPart(a, au, first, k + 1)
  {
    hide HasFlag, Unpack, PacketAt, Feed, PieceCount, ChunkAt;
    PieceInside(au, k);
    PacketUnpacks(au, first, k);
    PayloadLong(au, first, k);
    var ps := Packets(au, first);
    assert ps[..k + 1][..k] == ps[..k];
    var (b, out) := HandleAll(a, ps[..k]);
    assert HandleAll(a, ps[..k + 1]) == (Handle(b, ps[k]).0, out + Handle(b, ps[k]).1);
    FeedNextPiece(b, au, first, k);
    assert [] + Deliverable(au) == Deliverable(au);
  }

  /** What feeding the `k`-th piece does to an assembler that holds the pieces before it, or has already
      given up because they do not fit. */
  lemma FeedNextPiece(b: Assembly, au: Au, first: u32, k: nat)
    requires Fragmented(au) && k < PieceCount(au) && k * CHUNK < |au.data|
    requires k == 0 ==> !b.started
    requires k > 0 ==>
               if k * CHUNK <= AU_MAX
               then b == Assembly(first % 0x1_0000, k, au.data[..k * CHUNK], true)
               else !b.started
    ensures var f := Feed(b, AU_MAX, PieceAt(au, first, k));
            if k + 1 < PieceCount(au) then
              && f.au == []
              && if (k + 1) * CHUNK <= AU_MAX
                 then f.next == Assembly(first % 0x1_0000, k + 1, au.data[..(k + 1) * CHUNK], true)
                 else !f.next.started
            else
              && !f.next.started && (f.status == Ok || f.au == [])
              && f.au == if |au.data| <= AU_MAX then au.data else []
  {
    PieceInside(au, k);
    var p := PieceAt(au, first, k);
    if k + 1 < PieceCount(au) {
      PieceInside(au, k + 1);
      assert p.chunk == au.data[k * CHUNK..(k + 1) * CHUNK];
      assert au.data[..k * CHUNK] + p.chunk == au.data[..(k + 1) * CHUNK];
      assert k == 0 ==> [] + p.chunk == au.data[..(k + 1) * CHUNK];
    } else {
      assert p.chunk == au.data[k * CHUNK..];
      assert au.data[..k * CHUNK] + p.chunk == au.data;
    }
  }

  lemma PayloadLong(au: Au, first: u32, i: nat)
    requires Fragmented(au) && i < PieceCount(au)
    ensures |PacketAt(au, first, i).payload| >= 4
  {
  }

  /** From an idle assembler, an access unit's packets in order deliver exactly that access unit if it
      fits the client's buffer, and nothing if it does not; the assembler is idle again. */
  lemma AuDelivered(a: Assembly, au: Au, first: u32)
    requires !a.started
    ensures HandleAll(a, Packets(au, first)).1 == Deliverable(au)
    ensures !HandleAll(a, Packets(au, first)).0.started
  {
    var ps := Packets(au, first);
    if Fragmented(au) {
      PartPlayed(a, au, first, PieceCount(au));
      assert ps[..PieceCount(au)] == ps;
    } else {
      PacketUnpacks(au, first, 0);
      assert ps[..0] == [] && HandleAll(a, ps[..0]) == (a, []);
      assert [] + [au.data] == [au.data];
    }
  }

  // ---------------------------------------------------------------------------
  // A stream of access units
  // ---------------------------------------------------------------------------

  lemma {:induction false} HandleAllConcat(a: Assembly, ps: seq<Packet>, qs: seq<Packet>)
    ensures var (b, out) := HandleAll(a, ps);
            var (c, more) := HandleAll(b, qs);
            HandleAll(a, ps + qs) == (c, out + more)
  {
    hide Handle;
    if qs == [] {
      assert ps + qs == ps;
      assert HandleAll(a, ps).1 + [] == HandleAll(a, ps).1;
    } else {
      var n := |qs| - 1;
      HandleAllConcat(a, ps, qs[..n]);
      assert (ps + qs)[..|ps + qs| - 1] == ps + qs[..n];
      var (b, out) := HandleAll(a, ps);
      var (c, more) := HandleAll(b, qs[..n]);
      var (d, last) := Handle(c, qs[n]);
      assert out + (more + last) == (out + more) + last;
    }
  }

  function AllDeliverable(aus: seq<Au>): seq<seq<Byte>> {
    if aus == [] then [] else Deliverable(aus[0]) + AllDeliverable(aus[1..])
  }

  /** The packets of a stream, played in order, deliver its access units in order. */
  lemma {:induction false} StreamDelivered(a: Assembly, aus: seq<Au>, first: u32)
    requires !a.started
    ensures HandleAll(a, Stream(aus, first)).1 == AllDeliverable(aus)
    ensures !HandleAll(a, Stream(aus, first)).0.started
    decreases |aus|
  {
    hide Handle;
    if aus != [] {
      var next := Plus(first, PieceCount(aus[0]));
      AuDelivered(a, aus[0], first);
      StreamDelivered(HandleAll(a, Packets(aus[0], first)).0, aus[1..], next);
      HandleAllConcat(a, Packets(aus[0], first), Stream(aus[1..], next));
    }
  }

  // ---------------------------------------------------------------------------
  // Packets and their places in the stream
  // ---------------------------------------------------------------------------

  /** The number of packets before access unit `j`. */
  function Before(aus: seq<Au>, j: nat): nat
    requires j <= |aus|
  {
    if j == 0 then 0 else Before(aus, j - 1) + PieceCount(aus[j - 1])
  }

  predicate IsPacket(aus: seq<Au>, first: u32, p: Packet, j: nat, i: nat) {
    j < |aus| && i < PieceCount(aus[j]) && p == PacketAt(aus[j], Plus(first, Before(aus, j)), i)
  }

  lemma {:induction false} BeforeTail(aus: seq<Au>, j: nat)
    requires 0 < j <= |aus|
    ensures Before(aus, j) == PieceCount(aus[0]) + Before(aus[1..], j - 1)
  {
    if j > 1 { BeforeTail(aus, j - 1); }
  }

  lemma {:induction false} BeforeGrows(aus: seq<Au>, i: nat, j: nat)
    requires i < j <= |aus|
    ensures Before(aus, i) < Before(aus, j)
  {
    if i < j - 1 { BeforeGrows(aus, i, j - 1); }
  }

  lemma {:induction false} StreamLength(aus: seq<Au>, first: u32)
    ensures |Stream(aus, first)| == Before(aus, |aus|)
    decreases |aus|
  {
    if aus != [] {
      StreamLength(aus[1..], Plus(first, PieceCount(aus[0])));
      BeforeTail(aus, |aus|);
    }
  }

  lemma PlusZero(a: u32)
    ensures Plus(a, 0) == a
  {
  }

  /** Every packet of a stream belongs to one access unit, and knows its number in the stream. */
  lemma {:induction false} StreamOrigin(aus: seq<Au>, first: u32, n: nat) returns (j: nat, i: nat)
    requires n < |Stream(aus, first)|
    ensures IsPacket(aus, first, Stream(aus, first)[n], j, i) && n == Before(aus, j) + i
    decreases |aus|
  {
    hide PacketAt, PieceCount, Plus;
    var c := PieceCount(aus[0]);
    var next := Plus(first, c);
    if n < c {
      j, i := 0, n;
      PlusZero(first);
    } else {
      var j', i' := StreamOrigin(aus[1..], next, n - c);
      j, i := j' + 1, i';
      BeforeTail(aus, j);
      PlusAssoc(first, c, Before(aus[1..], j'));
    }
  }

  ghost predicate Numbered(ps: seq<Packet>, first: u32) {
    forall i :: 0 <= i < |ps| ==> ps[i].seqNo == Plus(first, i) && |ps[i].payload| <= CHUNK + 4
  }

  lemma StreamNumbered(aus: seq<Au>, first: u32)
    ensures Numbered(Stream(aus, first), first)
  {
    hide Plus, PayloadAt, Stream;
    forall n | 0 <= n < |Stream(aus, first)|
      ensures Stream(aus, first)[n].seqNo == Plus(first, n)
    {
      var j, i := StreamOrigin(aus, first, n);
      PlusAssoc(first, Before(aus, j), i);
    }
  }

  lemma SameNumber(first: u32, i: nat, m: nat)
    requires Plus(first, i) == Plus(first, m) && i < TWO32 && m < TWO32
    ensures i == m
  {
  }

  function FrameId(aus: seq<Au>, first: u32, j: nat): u16
    requires j < |aus|
  {
    Plus(first, Before(aus, j)) % 0x1_0000
  }

  /** Access units that share a frame id are at least 2^16 packets apart. */
  lemma SameIdFar(aus: seq<Au>, first: u32, j: nat, j': nat)
    requires j < j' < |aus| && FrameId(aus, first, j) == FrameId(aus, first, j')
    ensures Before(aus, j') - Before(aus, j) >= 0x1_0000
  {
    BeforeGrows(aus, j, j');
    var x, y := Before(aus, j), Before(aus, j');
    ModOfMod(first + x);
    ModOfMod(first + y);
    if y - x < 0x1_0000 { ModClose(first + x, first + y); }
  }

  /** And those exactly 2^16 packets apart do share it. */
  lemma PeriodApart(aus: seq<Au>, first: u32, j: nat, j': nat)
    requires j < |aus| && j' < |aus| && Before(aus, j') == Before(aus, j) + 0x1_0000
    ensures FrameId(aus, first, j) == FrameId(aus, first, j')
  {
    hide Before;
    var x := first + Before(aus, j);
    ModOfMod(x);
    ModOfMod(x + 0x1_0000);
    ModPeriod(x);
  }

  lemma ModPeriod(n: nat)
    ensures (n + 0x1_0000) % 0x1_0000 == n % 0x1_0000
  {
  }

  /** No two fragmented access units share a frame id. */
  ghost predicate DistinctIds(aus: seq<Au>, first: u32) {
    forall j: nat, j': nat :: j < j' < |aus| && Fragmented(aus[j]) && Fragmented(aus[j']) ==>
                                FrameId(aus, first, j) != FrameId(aus, first, j')
  }

  /** So it is in every stream of at most 2^16 + 1 packets. */
  lemma FrameIdsDiffer(aus: seq<Au>, first: u32)
    requires Before(aus, |aus|) <= 0x1_0001
    ensures DistinctIds(aus, first)
  {
    hide FrameId, PieceCount;
    forall j: nat, j': nat | j < j' < |aus| && Fragmented(aus[j]) && Fragmented(aus[j'])
      ensures FrameId(aus, first, j) != FrameId(aus, first, j')
    {
      if FrameId(aus, first, j) == FrameId(aus, first, j') {
        SameIdFar(aus, first, j, j');
        BeforeMonotone(aus, j' + 1, |aus|);
        TwoPieces(aus[j']);
      }
    }
  }

  lemma TwoPieces(au: Au)
    requires Fragmented(au)
    ensures PieceCount(au) >= 2
  {
  }

  lemma BeforeMonotone(aus: seq<Au>, i: nat, j: nat)
    requires i <= j <= |aus|
    ensures Before(aus, i) <= Before(aus, j)
  {
    if i < j { BeforeGrows(aus, i, j); }
  }

  lemma ModClose(a: nat, b: nat)
    requires a % 0x1_0000 == b % 0x1_0000 && -0x1_0000 < a - b < 0x1_0000
    ensures a == b
  {
  }

  lemma ModOfMod(n: nat)
    ensures n % TWO32 % 0x1_0000 == n % 0x1_0000
  {
    var q := n / TWO32;
    assert n == q * TWO32 + n % TWO32;
    assert q * TWO32 == 0x1_0000 * (q * 0x1_0000);
  }

  /** If two fragmented access units do share a frame id, losing the rest of the one from piece `c` on and
      the pieces before that of the other delivers a mixture. */
  lemma SharedIdMixes(aus: seq<Au>, first: u32, j: nat, j': nat, c: nat)
    requires j < |aus| && j' < |aus| && j != j' && Fragmented(aus[j]) && Fragmented(aus[j'])
    requires FrameId(aus, first, j) == FrameId(aus, first, j') && |aus[j'].data| <= AU_MAX
    requires 0 < c < PieceCount(aus[j]) && c < PieceCount(aus[j'])
    ensures c * CHUNK <= |aus[j].data| && c * CHUNK <= |aus[j'].data|
    ensures var ps := Packets(aus[j], Plus(first, Before(aus, j)));
            var qs := Packets(aus[j'], Plus(first, Before(aus, j')));
            HandleAll(RESET, ps[..c] + qs[c..]).1 == [aus[j].data[..c * CHUNK] + aus[j'].data[c * CHUNK..]]
  {
    hide HasFlag, Unpack, PacketAt, PieceCount, Feed, ChunkAt, HandleAll, Before;
    var base, base' := Plus(first, Before(aus, j)), Plus(first, Before(aus, j'));
    var ps, qs := Packets(aus[j], base), Packets(aus[j'], base');
    var n := PieceCount(aus[j']);
    PieceInside(aus[j], c);
    PieceInside(aus[j'], c);
    PartPlayed(RESET, aus[j], base, c);
    var start := Assembly(FrameId(aus, first, j), c, aus[j].data[..c * CHUNK], true);
    MixedPart(start, aus[j'], base', c, n);
    assert qs[c..n] == qs[c..];
    HandleAllConcat(RESET, ps[..c], qs[c..]);
    var mixed := [aus[j].data[..c * CHUNK] + aus[j'].data[c * CHUNK..]];
    assert [] + mixed == mixed;
  }

  /** What is assembled and delivered after the pieces from `c` up to `k` followed another unit's first `c`. */
  function Mixed(a: Assembly, au: Au, c: nat, k: nat): (Assembly, seq<seq<Byte>>)
    requires c * CHUNK <= |au.data| && (k < PieceCount(au) ==> c * CHUNK <= k * CHUNK <= |au.data|)
  {
    if k < PieceCount(au) then (a.(nextIndex := k % 0x1_0000, data := a.data + au.data[c * CHUNK..k * CHUNK]), [])
    else
      var all := a.data + au.data[c * CHUNK..];
      (a.(nextIndex := k % 0x1_0000, data := all, started := false), [all])
  }

  lemma {:induction false} MixedPart(a: Assembly, au: Au, first: u32, c: nat, k: nat)
    requires Fragmented(au) && 0 < c < PieceCount(au) && c <= k <= PieceCount(au) && |au.data| <= AU_MAX
    requires a.started && a.frameId == first % 0x1_0000 && a.nextIndex == c && |a.data| == c * CHUNK <= |au.data|
    ensures k < PieceCount(au) ==> c * CHUNK <= k * CHUNK <= |au.data|
    ensures HandleAll(a, Packets(au, first)[c..k]) == Mixed(a, au, c, k)
  {
    hide HasFlag, Unpack, PacketAt, PieceCount, ChunkAt, HandleAll, Mixed, Handle;
    var ps := Packets(au, first);
    if k < PieceCount(au) { PieceInside(au, k); }
    if k == c {
      assert ps[c..c] == [];
      NothingHandled(a);
      NothingMixed(a, au, c);
    } else {
      MixedPart(a, au, first, c, k - 1);
      PieceInside(au, k - 1);
      HandledNext(a, ps[c..k]);
      assert ps[c..k][..k - 1 - c] == ps[c..k - 1] && ps[c..k][k - 1 - c] == ps[k - 1];
      MixedNext(a, au, first, c, k - 1);
    }
  }

  lemma NothingMixed(a: Assembly, au: Au, c: nat)
    requires c < PieceCount(au) && a.nextIndex == c && c * CHUNK <= |au.data|
    ensures Mixed(a, au, c, c) == (a, [])
  {
    assert a.data + au.data[c * CHUNK..c * CHUNK] == a.data;
  }

  lemma NothingHandled(a: Assembly)
    ensures HandleAll(a, []) == (a, [])
  {
  }

  lemma HandledNext(a: Assembly, ps: seq<Packet>)
    requires ps != []
    ensures var (b, out) := HandleAll(a, ps[..|ps| - 1]);
            var (c, more) := Handle(b, ps[|ps| - 1]);
            HandleAll(a, ps) == (c, out + more) && (out == [] ==> HandleAll(a, ps) == (c, more))
  {
    hide Handle;
    var (b, out) := HandleAll(a, ps[..|ps| - 1]);
    var more := Handle(b, ps[|ps| - 1]).1;
    assert [] + more == more;
  }

  lemma MixedNext(a: Assembly, au: Au, first: u32, c: nat, k: nat)
    requires Fragmented(au) && 0 < c <= k < PieceCount(au) && |au.data| <= AU_MAX
    requires a.started && a.frameId == first % 0x1_0000
    requires |a.data| == c * CHUNK <= k * CHUNK < |au.data|
    ensures k + 1 < PieceCount(au) ==> c * CHUNK <= (k + 1) * CHUNK < |au.data|
    ensures Mixed(a, au, c, k).1 == [] && Handle(Mixed(a, au, c, k).0, PacketAt(au, first, k)) == Mixed(a, au, c, k + 1)
  {
    hide HasFlag, Unpack, PacketAt, PieceCount;
    PieceInside(au, k);
    PacketUnpacks(au, first, k);
    PayloadLong(au, first, k);
    var b := Mixed(a, au, c, k).0;
    var chunk := ChunkAt(au.data, k);
    if k + 1 < PieceCount(au) {
      PieceInside(au, k + 1);
      assert b.data + chunk == a.data + au.data[c * CHUNK..(k + 1) * CHUNK];
    } else {
      assert b.data + chunk == a.data + au.data[c * CHUNK..];
    }
  }
}
