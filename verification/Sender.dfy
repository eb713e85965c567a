/** The sender's packetisation of access units (send_au in tools/vmc_sim/main.c). */
module Sender {
  import opened Words
  import opened Protocol
  import opened Fragment
  import opened JitterBuffer
  import NalUnits

  datatype RawAu = RawAu(data: seq<Byte>, key: bool, tsUs: u32)

  /** The sender's access-unit buffer bounds every access unit. */
  type Au = au: RawAu | |au.data| <= NalUnits.AU_CAP witness RawAu([], false, 0)

  /** What a video datagram carries. */
  datatype Packet = Packet(seqNo: u32, tsUs: u32, flags: Byte, payload: seq<Byte>)

  function VideoHeader(flags: Byte, payloadLen: u16, seqNo: u32, tsUs: u32): Header {
    Header(MAGIC, VERSION, flags, STREAM_VIDEO, 0, payloadLen, seqNo, tsUs, 0)
  }

  function Datagram(p: Packet): seq<Byte>
    requires |p.payload| < 0x1_0000
  {
    Frame(VideoHeader(p.flags, |p.payload|, p.seqNo, p.tsUs), p.payload)
  }

  // ---------------------------------------------------------------------------
  // The packets of one access unit
  // ---------------------------------------------------------------------------

  predicate Fragmented(au: Au) {
    |au.data| > CHUNK
  }

  function PieceCount(au: Au): (n: nat)
    ensures 1 <= n < LAST_BIT
  {
    if Fragmented(au) then (|au.data| + CHUNK - 1) / CHUNK else 1
  }

  function Flags(au: Au): Byte {
    (if Fragmented(au) then FLAG_FRAGMENTED else 0) + (if au.key then FLAG_KEYFRAME else 0)
  }

  function ChunkAt(data: seq<Byte>, i: nat): (s: seq<Byte>)
    requires i * CHUNK < |data|
    ensures 0 < |s| <= CHUNK
  {
    if (i + 1) * CHUNK < |data| then data[i * CHUNK..(i + 1) * CHUNK] else data[i * CHUNK..]
  }

  lemma PieceInside(au: Au, i: nat)
    requires Fragmented(au) && i < PieceCount(au)
    ensures i * CHUNK < |au.data|
    ensures (i + 1) * CHUNK >= |au.data| <==> i == PieceCount(au) - 1
  {
    var n := |au.data|;
    var q := (n + CHUNK - 1) / CHUNK;
    assert q * CHUNK <= n + CHUNK - 1 < (q + 1) * CHUNK;
    assert i * CHUNK <= (q - 1) * CHUNK;
    if i < q - 1 { assert (i + 1) * CHUNK <= (q - 1) * CHUNK; }
  }

  /** The `i`-th fragment; `first` is the access unit's first sequence number. */
  function PieceAt(au: Au, first: u32, i: nat): Piece
    requires Fragmented(au) && i < PieceCount(au)
  {
    PieceInside(au, i);
    Piece(first % 0x1_0000, i, i == PieceCount(au) - 1, ChunkAt(au.data, i))
  }

  function PayloadAt(au: Au, first: u32, i: nat): (s: seq<Byte>)
    requires i < PieceCount(au)
    ensures |s| <= CHUNK + 4
    ensures Fragmented(au) ==> |s| >= 4
  {
    if Fragmented(au) then
      var p := PieceAt(au, first, i);
      PackHeader(p.frameId, p.index + if p.last then LAST_BIT else 0) + p.chunk
    else au.data
  }

  function PacketAt(au: Au, first: u32, i: nat): (p: Packet)
    requires i < PieceCount(au)
    ensures |p.payload| <= CHUNK + 4
  {
    Packet(Plus(first, i), au.tsUs, Flags(au), PayloadAt(au, first, i))
  }

  function Packets(au: Au, first: u32): (ps: seq<Packet>)
    ensures |ps| == PieceCount(au)
    ensures forall i :: 0 <= i < |ps| ==> ps[i] == PacketAt(au, first, i) && |ps[i].payload| <= CHUNK + 4
  {
    seq(PieceCount(au), i requires 0 <= i < PieceCount(au) => PacketAt(au, first, i))
  }

  /** All packets of a list of access units, numbered consecutively. */
  function Stream(aus: seq<Au>, first: u32): (ps: seq<Packet>)
    ensures forall i :: 0 <= i < |ps| ==> |ps[i].payload| <= CHUNK + 4
  {
    if aus == [] then []
    else Packets(aus[0], first) + Stream(aus[1..], Plus(first, PieceCount(aus[0])))
  }

  // ---------------------------------------------------------------------------
  // The code
  // ---------------------------------------------------------------------------

  /** Encode one packet into the send buffer and return the bytes to send. */
  method EncodePacket(pkt: array<Byte>, p: Packet) returns (bytes: seq<Byte>)
    requires pkt.Length == HEADER_SIZE + 4 + CHUNK && |p.payload| <= 4 + CHUNK
    modifies pkt
    ensures bytes == Datagram(p)
  {
    var h := VideoHeader(p.flags, |p.payload|, p.seqNo, p.tsUs);
    var r := Encode(pkt, h, Some(p.payload));
    assert p.payload[..|p.payload|] == p.payload;
    bytes := pkt[..r.total];
  }

  /** `send_au`: the datagrams handed to the socket and the next sequence number. */
  method SendAu(au: Au, videoSeq: u32) returns (sent: seq<seq<Byte>>, nextSeq: u32)
    ensures |sent| == PieceCount(au) && nextSeq == Plus(videoSeq, PieceCount(au))
    ensures forall i :: 0 <= i < |sent| ==> sent[i] == Datagram(Packets(au, videoSeq)[i])
  {
    hide Datagram;
    var pkt := new Byte[HEADER_SIZE + 4 + CHUNK];
    if |au.data| <= CHUNK {
      var p := Packet(videoSeq, au.tsUs, if au.key then FLAG_KEYFRAME else 0, au.data);
      var bytes := EncodePacket(pkt, p);
      assert p == PacketAt(au, videoSeq, 0);
      sent, nextSeq := [bytes], Plus(videoSeq, 1);
    } else {
      sent, nextSeq := SendFragments(pkt, au, videoSeq);
    }
  }

  /** The fragment loop. */
  method SendFragments(pkt: array<Byte>, au: Au, videoSeq: u32) returns (sent: seq<seq<Byte>>, nextSeq: u32)
    requires Fragmented(au) && pkt.Length == HEADER_SIZE + 4 + CHUNK
    modifies pkt
    ensures |sent| == PieceCount(au) && nextSeq == Plus(videoSeq, PieceCount(au))
    ensures forall i :: 0 <= i < |sent| ==> sent[i] == Datagram(Packets(au, videoSeq)[i])
  {
    hide Datagram, PieceCount, Packets, Plus, PacketAt;
    NextNumber(videoSeq, 0);
    ghost var ps := Packets(au, videoSeq);
    var len := |au.data|;
    var off, idx := 0, 0;
    nextSeq, sent := videoSeq, [];
    PieceInside(au, 0);
    while off < len
      invariant 0 <= idx <= PieceCount(au) && |sent| == idx
      invariant off == if idx == PieceCount(au) then len else idx * CHUNK
      invariant idx < PieceCount(au) ==> idx * CHUNK < len
      invariant nextSeq == Plus(videoSeq, idx)
      invariant forall i :: 0 <= i < |sent| ==> sent[i] == Datagram(ps[i])
      decreases len - off
    {
      PieceInside(au, idx);
      var bytes, cl := SendFragment(pkt, au, videoSeq % 0x1_0000, nextSeq, idx, off, videoSeq);
      NextNumber(videoSeq, idx);
      sent := sent + [bytes];
      off := off + cl;
      idx := idx + 1;
      nextSeq := Plus(nextSeq, 1);
      if idx < PieceCount(au) { PieceInside(au, idx); }
    }
  }

  lemma NextNumber(a: u32, n: nat)
    ensures Plus(a, 0) == a && Plus(Plus(a, n), 1) == Plus(a, n + 1)
  {
  }

  /** One turn of it: fragment `idx` with the bytes from `off` on, and how many those are. */
  method SendFragment(pkt: array<Byte>, au: Au, frameId: u16, seqNo: u32, idx: nat, off: nat, ghost videoSeq: u32)
    returns (bytes: seq<Byte>, cl: nat)
    requires Fragmented(au) && pkt.Length == HEADER_SIZE + 4 + CHUNK && idx < PieceCount(au)
    requires off == idx * CHUNK < |au.data| && frameId == videoSeq % 0x1_0000 && seqNo == Plus(videoSeq, idx)
    modifies pkt
    ensures bytes == Datagram(Packets(au, videoSeq)[idx])
    ensures cl == if |au.data| - off > CHUNK then CHUNK else |au.data| - off
  {
    hide Datagram, PacketAt, PieceCount, PackHeader, Plus;
    var len := |au.data|;
    cl := if len - off > CHUNK then CHUNK else len - off;
    var last := off + cl >= len;
    PieceInside(au, idx);
    var payload := PackHeader(frameId, idx + if last then LAST_BIT else 0) + au.data[off..off + cl];
    var flags: Byte := FLAG_FRAGMENTED + (if au.key then FLAG_KEYFRAME else 0);
    var p := Packet(seqNo, au.tsUs, flags, payload);
    FragmentPacket(au, videoSeq, idx, p);
    bytes := EncodePacket(pkt, p);
  }

  /** What the loop puts together is the packet as specified. */
  lemma FragmentPacket(au: Au, first: u32, i: nat, p: Packet)
    requires Fragmented(au) && i < PieceCount(au) && i * CHUNK < |au.data|
    requires var n := if |au.data| - i * CHUNK > CHUNK then CHUNK else |au.data| - i * CHUNK;
             var last := i * CHUNK + n >= |au.data|;
             p == Packet(Plus(first, i), au.tsUs, FLAG_FRAGMENTED + (if au.key then FLAG_KEYFRAME else 0),
                         PackHeader(first % 0x1_0000, i + if last then LAST_BIT else 0)
                         + au.data[i * CHUNK..i * CHUNK + n])
    ensures p == PacketAt(au, first, i)
  {
    hide PackHeader;
    PieceInside(au, i);
  }

  /** What an access unit becomes: one datagram if it has at most 1400 bytes, else as many as there are
      chunks of 1400; each with the access unit's time, its keyframe flag (2), and the fragment flag (4)
      exactly if there are several, and never longer than 1421 bytes. */
  lemma PacketFields(au: Au, first: u32, i: nat)
    requires i < PieceCount(au)
    ensures PieceCount(au) == if |au.data| <= 1400 then 1 else (|au.data| + 1399) / 1400
    ensures var p := PacketAt(au, first, i);
            && p.tsUs == au.tsUs && p.seqNo == (first + i) % 0x1_0000_0000
            && p.flags == (if au.key then 2 else 0) + (if |au.data| > 1400 then 4 else 0)
            && |Datagram(p)| <= 1421
  {
    hide PackHeader, Frame;
  }
}
