/** Serving a segment that the encoder is still appending to and will rename
    (serve_progressive in tools/vmc-dash-sim/main.c), as interleaved steps of server and encoder. */
module Progressive {
  import opened Words
  import opened Chunked

  const READ_CAP: nat := 65536

  // ---------------------------------------------------------------------------
  // State
  // ---------------------------------------------------------------------------

  /** Where the server stands. `off` is how much it has sent. */
  datatype Server =
    | Opening
    | Whole(off: nat, size: nat)
    | Polling(off: nat)
    | Sizing(off: nat)
    | Looking(off: nat)
    | Finishing(off: nat)
    | Tailing(off: nat, tail: nat)
    | Done(off: nat)

  /** `data` is the file's content; it goes by the temporary name until `renamed`, then by the final
      one. `chunks` are the chunk payloads written to the socket. */
  datatype State = State(data: seq<Byte>, renamed: bool, server: Server, chunks: seq<seq<Byte>>)

  datatype Step =
    | Append(bytes: seq<Byte>)
    | Rename
    | OpenFile
    | SendWhole(n: nat)
    | Stat
    | Read(n: nat)
    | Exists
    | StatFinal
    | ReadTail(n: nat)

  /** A read returns at least one and at most the requested number of bytes present. The code reads the
      tail once, whatever comes back. */
  predicate Enabled(s: State, t: Step) {
    match t
    case Append(bytes) => !s.renamed && |s.data| + |bytes| <= LONG_MAX
    case Rename => !s.renamed
    case OpenFile => s.server.Opening?
    case SendWhole(n) =>
      && s.server.Whole?
      && (if s.server.off < s.server.size then 0 < n <= READ_CAP && s.server.off + n <= |s.data| else n == 0)
    case Stat => s.server.Polling?
    case Read(n) => s.server.Sizing? && 0 < n <= READ_CAP && s.server.off + n <= |s.data|
    case Exists => s.server.Looking?
    case StatFinal => s.server.Finishing?
    case ReadTail(n) => s.server.Tailing? && 0 < n <= s.server.tail && s.server.off + n <= |s.data|
  }

  function Send(s: State, off: nat, n: nat, next: Server): State
    requires off + n <= |s.data|
  {
    s.(server := next, chunks := s.chunks + [s.data[off..off + n]])
  }

  function Apply(s: State, t: Step): State
    requires Enabled(s, t)
  {
    match t
    case Append(bytes) => s.(data := s.data + bytes)
    case Rename => s.(renamed := true)
    case OpenFile => s.(server := if s.renamed then Whole(0, |s.data|) else Polling(0))
    case SendWhole(n) =>
      if n == 0 then s.(server := Done(s.server.off))
      else Send(s, s.server.off, n, Whole(s.server.off + n, s.server.size))
    case Stat => s.(server := if |s.data| > s.server.off then Sizing(s.server.off) else Looking(s.server.off))
    case Read(n) => Send(s, s.server.off, n, Looking(s.server.off + n))
    case Exists => s.(server := if s.renamed then Finishing(s.server.off) else Polling(s.server.off))
    case StatFinal =>
      var off := s.server.off;
      s.(server := if |s.data| > off then Tailing(off, |s.data| - off) else Done(off))
    case ReadTail(n) => Send(s, s.server.off, n, Done(s.server.off + n))
  }

  /** The state after a sequence of steps, starting from a segment in any stage of being written. */
  function Exec(start: State, ts: seq<Step>): Option<State> {
    if ts == [] then Some(start)
    else
      var before := Exec(start, ts[..|ts| - 1]);
      if before.Some? && Enabled(before.value, ts[|ts| - 1]) then Some(Apply(before.value, ts[|ts| - 1])) else None
  }

  predicate Initial(s: State) {
    s.server == Opening && s.chunks == [] && |s.data| <= LONG_MAX
  }

  // ---------------------------------------------------------------------------
  // The invariant
  // ---------------------------------------------------------------------------

  function Sent(s: State): nat {
    match s.server
    case Opening => 0
    case Whole(off, _) => off
    case Polling(off) => off
    case Sizing(off) => off
    case Looking(off) => off
    case Finishing(off) => off
    case Tailing(off, _) => off
    case Done(off) => off
  }

  ghost predicate Inv(s: State) {
    && |s.data| <= LONG_MAX && Sizes(s.chunks)
    && Sent(s) <= |s.data| && Concat(s.chunks) == s.data[..Sent(s)]
    && (s.server.Whole? || s.server.Finishing? || s.server.Tailing? || s.server.Done? ==> s.renamed)
    && (s.server.Whole? ==> s.server.size == |s.data|)
    && (s.server.Sizing? ==> s.server.off < |s.data|)
    && (s.server.Tailing? ==> s.server.off + s.server.tail == |s.data| && s.server.tail > 0)
  }

  lemma {:induction false} ConcatSnoc(cs: seq<seq<Byte>>, c: seq<Byte>)
    ensures Concat(cs + [c]) == Concat(cs) + c
  {
    if cs == [] {
      assert cs + [c] == [c] && [c][1..] == [];
    } else {
      assert (cs + [c])[1..] == cs[1..] + [c];
      ConcatSnoc(cs[1..], c);
    }
  }

  lemma SendKeeps(s: State, n: nat)
    requires Inv(s) && !s.server.Done? && n > 0 && Sent(s) + n <= |s.data|
    ensures var c := s.data[Sent(s)..Sent(s) + n];
            Concat(s.chunks + [c]) == s.data[..Sent(s) + n] && Sizes(s.chunks + [c])
  {
    ConcatSnoc(s.chunks, s.data[Sent(s)..Sent(s) + n]);
  }

  lemma InvStep(s: State, t: Step)
    requires Inv(s) && Enabled(s, t)
    ensures Inv(Apply(s, t))
  {
    hide Concat, Sizes;
    match t
    case Append(bytes) => assert (s.data + bytes)[..Sent(s)] == s.data[..Sent(s)];
    case SendWhole(n) => if n > 0 { SendKeeps(s, n); }
    case Read(n) => SendKeeps(s, n);
    case ReadTail(n) => SendKeeps(s, n);
    case _ =>
  }

  lemma {:induction false} RunInv(start: State, ts: seq<Step>)
    requires Initial(start) && Exec(start, ts).Some?
    ensures Inv(Exec(start, ts).value)
  {
    if ts != [] {
      RunInv(start, ts[..|ts| - 1]);
      InvStep(Exec(start, ts[..|ts| - 1]).value, ts[|ts| - 1]);
    }
  }

  // ---------------------------------------------------------------------------
  // Main results
  // ---------------------------------------------------------------------------

  /** The bytes on the wire so far: the chunks, and the terminator once the server is done. */
  function Wire(s: State): seq<Byte> {
    EncodeChunks(s.chunks) + if s.server.Done? then TERM else []
  }

  predicate TailRead(server: Server, t: Step) {
    t.ReadTail? && server.Tailing? ==> t.n == server.tail
  }

  /** The run's read of the tail, if there is one, returned all that was asked for. */
  ghost predicate WholeTail(start: State, ts: seq<Step>) {
    forall k :: 0 <= k < |ts| && Exec(start, ts[..k]).Some? ==> TailRead(Exec(start, ts[..k]).value.server, ts[k])
  }

  lemma WholeTailNext(start: State, ts: seq<Step>)
    requires ts != [] && Exec(start, ts[..|ts| - 1]).Some?
    ensures var n := |ts| - 1;
            WholeTail(start, ts) <==> WholeTail(start, ts[..n]) && TailRead(Exec(start, ts[..n]).value.server, ts[n])
  {
    hide Exec, TailRead;
    var n := |ts| - 1;
    var front := ts[..n];
    assert forall k :: 0 <= k < n ==> front[..k] == ts[..k] && front[k] == ts[k];
    if WholeTail(start, ts) {
      forall k | 0 <= k < n && Exec(start, front[..k]).Some?
        ensures TailRead(Exec(start, front[..k]).value.server, front[k])
      {
        assert Exec(start, ts[..k]).Some?;
      }
    }
  }

  ghost predicate EndsWhole(s: State, whole: bool) {
    if s.server.Done? then s.server.off == |s.data| <==> whole else whole
  }

  lemma WholeStep(s: State, t: Step, whole: bool)
    requires Inv(s) && Enabled(s, t) && EndsWhole(s, whole)
    ensures EndsWhole(Apply(s, t), whole && TailRead(s.server, t))
  {
    hide Concat, Sizes;
  }

  lemma {:induction false} DoneAtEnd(start: State, ts: seq<Step>)
    requires Initial(start) && Exec(start, ts).Some?
    ensures EndsWhole(Exec(start, ts).value, WholeTail(start, ts))
  {
    hide Apply, Enabled, Inv, TailRead, EndsWhole;
    if ts == [] {
      NothingDone(start);
    } else {
      var n := |ts| - 1;
      DoneAtEnd(start, ts[..n]);
      RunInv(start, ts[..n]);
      WholeTailNext(start, ts);
      WholeStep(Exec(start, ts[..n]).value, ts[n], WholeTail(start, ts[..n]));
    }
  }

  lemma NothingDone(start: State)
    requires Initial(start)
    ensures EndsWhole(start, true)
  {
  }

  /** In every interleaving: the payloads sent are always a prefix of the segment; and once the server is
      done they are the whole final segment if and only if its one read of the tail was not short. */
  lemma ServesWholeSegment(start: State, ts: seq<Step>)
    requires Initial(start) && Exec(start, ts).Some?
    ensures var s := Exec(start, ts).value;
            && Concat(s.chunks) <= s.data
            && (s.server.Done? ==> s.renamed && (Concat(s.chunks) == s.data <==> WholeTail(start, ts)))
  {
    RunInv(start, ts);
    DoneAtEnd(start, ts);
    var s := Exec(start, ts).value;
    assert s.server.Done? && s.server.off == |s.data| ==> s.data[..s.server.off] == s.data;
  }

  /** Whatever part of the response has reached the client, its decoder either fails or returns all that
      the server sent, which is exactly the final segment unless the read of the tail was short. */
  lemma ClientGetsAllOrNothing(start: State, ts: seq<Step>, received: seq<Byte>)
    requires Initial(start) && Exec(start, ts).Some?
    requires received <= Wire(Exec(start, ts).value)
    ensures var s := Exec(start, ts).value;
            var r := Decode(received, []);
            && (r == Failed || (s.server.Done? && r == Body(Concat(s.chunks))))
            && (s.server.Done? && received == Wire(s) ==> r == Body(Concat(s.chunks)))
            && (r.Body? ==> (r.bytes == s.data <==> WholeTail(start, ts)))
  {
    RunInv(start, ts);
    ServesWholeSegment(start, ts);
    hide Decode, WholeTail;
    var s := Exec(start, ts).value;
    assert received <= EncodeChunks(s.chunks) + TERM;
    PrefixDecodes(s.chunks, received, []);
    assert [] + Concat(s.chunks) == Concat(s.chunks);
  }

  /** Once the encoder has renamed the file, the server needs no more than this many further steps of
      its own: it cannot be kept from finishing. */
  function StepsLeft(s: State): nat
    requires Sent(s) <= |s.data|
  {
    var left := |s.data| - Sent(s);
    match s.server
    case Opening => 4 * left + 8
    case Whole(_, _) => left + 1
    case Polling(_) => 3 * left + 5
    case Sizing(_) => 3 * left + 4
    case Looking(_) => 3 * left + 3
    case Finishing(_) => 2
    case Tailing(_, _) => 1
    case Done(_) => 0
  }

  lemma ServerFinishes(s: State, t: Step)
    requires Inv(s) && s.renamed && Enabled(s, t)
    ensures !t.Append? && !t.Rename? && Inv(Apply(s, t)) && StepsLeft(Apply(s, t)) < StepsLeft(s)
  {
    InvStep(s, t);
  }

  /** And it is never stuck: unless done, some step of the server is possible. */
  lemma ServerNotStuck(s: State) returns (t: Step)
    requires Inv(s) && !s.server.Done?
    ensures Enabled(s, t) && !t.Append? && !t.Rename?
  {
    match s.server
    case Opening => t := OpenFile;
    case Whole(off, size) => t := SendWhole(if off < size then 1 else 0);
    case Polling(_) => t := Stat;
    case Sizing(_) => t := Read(1);
    case Looking(_) => t := Exists;
    case Finishing(_) => t := StatFinal;
    case Tailing(_, _) => t := ReadTail(1);
  }
}
